# Chuckles: console, interrupts and libc, verified

Chuckles is a small i386 kernel with its own libc. This project models its
five stateful engines and proves what they do over every input and every run:

- **Formatter** (`CInt`, `Numerals`, `CStrings`, `Serial`, `Itoa`, `Format`,
  `Printf`, `Calls`): `printf` and `serial_printf` scan a NUL-terminated format
  in memory, convert through the static `itoa` buffer and an in-place `strrev`,
  and count what they print. The methods are proved equal to a pure account of
  the call: `Finds` and `Pieces` say how the scanner cuts the format, `Run` says
  what is printed and returned, and `Format` is an independent reading of the
  format one character at a time. `Renders` says by value which text a format has,
  without saying how digits are made: that text is unique and is the one printed.
- **Terminal** (`Screen`, `Terminal`, `PrintfScreen`): the cursor, the line
  wrap and the clearing of `tty.c`, proved equal to a closed-form layout of the
  whole stream of characters by division by 80 and 25.
- **Keyboard** (`KeyMap`, `Scancodes`, `Echo`, `Keyboard`): the byte framing of
  scan code set 2, the two switches that keep the modifier flags, and the text
  the shell echoes, as a function of the bytes from the wire.
- **Memory copy** (`CStrings`): `memmove` and `strcpy` on one array, with
  overlapping ranges.
- **Interrupts, timer and boot map** (`Irq`, `Timer`, `MemoryMap`): the cascaded
  interrupt controllers with the kernel's dispatch, the wrapping tick counter
  and divisor, and the Multiboot memory-map walk.

Where the C code changes things in place, the model does too: arrays for
buffers, classes for static variables, loops where the source loops. Each such
method is proved against a function of its inputs, and the properties are
lemmas about that function. Output devices are ghost logs: the glyphs sent to
the screen, the formatted bytes sent to the serial port, and the debugging
bytes sent there.

C meets Dafny in these places. `/` and `%` of C are `CDiv` and `CMod`, which
truncate. A byte is an integer below 256; XOR and attribute bits are computed on
bit-vectors. Unsigned 32-bit additions wrap explicitly. The outcome `Undefined`
stands for calls whose result C does not fix: an argument is missing or of the
wrong type, or the count leaves the range of int at `%d` or `%x`, which do not
compare lengths first (an implementation-defined conversion for `%d`, an overflow
for `%x`, and an overflow of `INT_MAX - written` from then on).

## What turned out not to hold as one might expect

- A combined control (or alt) flag says "some control key is held" unless the
  last event of the two keys released the right one while the left one is down
  (`CombinedFlag`, with the three-event example `RightReleaseLosesLeft`).
- An event survives encoding and decoding exactly when its code does not read
  as a prefix where it stands (`RoundTripIff`).
- `serial_printf` stops behind the first byte 0xFF and returns -1, because the
  signed char it gets back equals EOF; `printf` does not (`WireAgainstScreen`).
- `timer_wait` lets as many interrupts pass as asked (none for a negative count)
  exactly when its target lies within 0 and 2^32 - 1. Past 2^32 it returns at
  once; a negative count larger than the tick counter makes it wait for
  2^32 + count interrupts (`WaitsAsAsked`).
- `timer_phase` makes the channel reload the divisor it computes exactly for 19
  to 1193180 Hz (`Phase`, `DivisorFits`).
- The walk over the memory map stops exactly when it is at no address twice
  (`StopsExactly`). One step goes forward exactly when `mm + (size + 4) mod 2^32`
  does not wrap and the size is not 2^32 - 4 (`StepsForward`), and a walk of such
  steps stops (`ForwardStops`). A record of size 2^32 - 4 holds it for ever
  (`StandsStill`), and two records of other sizes can send it round for ever
  (`GoesRound`).
- The announced number of memory-map records counts 4 bytes too many per record
  and is right exactly when 4n < s (`AnnouncedCount`). Of a 64-bit address the low
  word is shown exactly when the high one is a multiple of 2^28, and the whole
  value exactly when the high word is zero (`ShownRight`).
- The range test of `irq_handler` lets vector 48 through, which has no table
  entry (`RangeTest`). It cannot arrive: the entry stubs push 32 to 47
  (kernel/arch/i386/isrirq.S:299-405).
- `terminal_putchar` passes the foreground where `vga_attr` takes the
  background: text has the attribute of its colours exactly when the two are
  equal (`ColoursExchanged`); with the kernel's it is bright black on green
  (`TextAttribute`). A cleared screen's blanks equal the initial ones exactly
  when the foreground has its intensity bit (`BlanksAlike`), which green has not
  (`AttributesAsCoded`).
- Where the unshifted key set has a lower-case letter the shifted one has its
  capital, except for keys that carry their own scancode: cursor and page keys
  and F11, which have no shifted form (`Capitals`).

## Model

| member | source | states |
|---|---|---|
| CInt.XorSwap | libc/string/strrev.c:21-23 | the three XOR assignments on two cells exchange their bytes |
| CStrings.XorExchange | libc/string/strrev.c:21-23 | the same in memory, for two different addresses, touching no other byte |
| CStrings.Strlen | libc/string/strlen.c:3-8 | the distance to the first NUL, reading nothing behind it |
| CStrings.Memmove | libc/string/memmove.c:3-14 | for any two offsets in one array the destination becomes the old source range and every other byte stays |
| CStrings.Strcpy | libc/string/strcpy.c:5-10 | the string at the destination is the one that stood at the source on entry, overlap included, and nothing else changes |
| CStrings.SwappedAt | libc/string/strrev.c:16-24 | after d rounds the byte at every position, as the mirror image within the outer d bytes at either end |
| CStrings.SwappedReverses | libc/string/strrev.c:16-24 | half the length in rounds reverses the range and touches nothing else |
| CStrings.Strrev | libc/string/strrev.c:6-26 | exact reversal in place keeping terminator and surroundings, null and empty strings, and the exact debugging trace |
| CStrings.StrrevTwice | libc/string/strrev.c:6-26 | strrev is its own inverse on all of memory |
| CStrings.SwapTraceAt | libc/string/strrev.c:16-20 | the trace of each round: the two bytes about to be exchanged and a newline |
| Numerals.NumeralDenotes | libc/stdlib/itoa.c:11-14 | the digits are canonical (no leading zero) and denote the number, in base 10 and 16 |
| Numerals.HexDigits | libc/stdio/printf.c:79-80 | the digits are those of the hex table |
| Numerals.CanonicalUnique | libc/stdlib/itoa.c:11-14 | a canonical digit string is the numeral of what it denotes, so value determines text |
| Numerals.DecimalRoundTrip | libc/stdlib/itoa.c:5-25 | parsing the text of i gives i, INT_MIN included; no leading zero and no "-0" |
| Numerals.DecimalUnique | libc/stdlib/itoa.c:5-25 | the only canonical text with that value |
| SerialPort.Serial.Writec | libc/include/sys/debug.h:13-19 | sends the byte and returns it as a signed char |
| Numerals.NegativeHex | libc/stdio/printf.c:89-96 | %x of x < 0 has n digits of value 16^n + x, n the hex length of -(x+1); none for -1 |
| Numerals.HexOfInt32 | libc/stdio/printf.c:73-106 | at most 8 digits; canonical with value x for x >= 0; padded with F to 8 digits it is 2^32 + x for x < 0 |
| Numerals.HexShown | libc/stdio/printf.c:82-101 | %x by value: canonical for x >= 0, the two's complement form without its leading F's for x < 0 |
| Numerals.HexUnique | libc/stdio/printf.c:82-101 | no other text shows that value |
| IntToAscii.Itoa.Convert | libc/stdlib/itoa.c:5-25 | the static buffer gets the decimal text ending at its last byte, which stays NUL; the pointer depends on i alone |
| IntToAscii.Itoa.ConvertTwice | libc/stdio/printf.c:70-72 | two calls with one number point to the same text, whose length is the number's |
| IntToAscii.WithDecimalTwice | libc/stdio/printf.c:70-72 | converting the same number again changes no byte of the buffer |
| Formatting.PiecesFormat | libc/stdio/printf.c:24-120 | the pieces the scanner prints, put together, are the character-by-character reading of the format; no argument is missing exactly when the arguments match |
| Formatting.PiecesChecked | libc/stdio/printf.c:33-65 | every piece is checked against INT_MAX exactly when the format uses neither %d nor %x |
| Formatting.ShowsConverted | libc/stdio/printf.c:43-107 | what %c, %s, %d and %x print shows the argument's value (low byte, string, decimal, hex), and no other text and no other letter does |
| Formatting.FormatRenders | libc/stdio/printf.c:24-120 | a text renders a format by value exactly when the arguments match and it is the formatted text |
| Formatting.PrintfFormats | libc/stdio/printf.c:18-124 | matching arguments and a text of at most INT_MAX bytes: exactly that text is printed, it renders the format by value, and its length is returned |
| Formatting.PrintfOverflows | libc/stdio/printf.c:24-65 | without %d and %x: -1 exactly when the text is longer than INT_MAX, after the largest number of whole pieces that fit |
| Formatting.PrintfUndefined | libc/stdio/printf.c:67-106 | a call has no meaning exactly when an unsuitable argument or an unchecked piece crossing INT_MAX comes first |
| Formatting.WireAgainstScreen | libc/sys/debug.c:25-139 | on all inputs serial_printf prints what printf does up to the first 0xFF, and returns -1 if there is one and otherwise what printf returns |
| Formatting.UpToEofIs | libc/sys/debug.c:25-31 | a cut text ends with the first 0xFF, and without one nothing is cut |
| Formatting.EscapeRoundTrip | libc/stdio/printf.c:27-41 | every string with its '%' doubled prints as itself and returns its length if an int holds it |
| Formatting.FormatVerbatim | libc/stdio/printf.c:108-119 | from the first '%' that starts neither an escape nor a conversion on, whatever conversions stand before it, a format is read verbatim |
| Formatting.UnknownConversion | libc/stdio/printf.c:108-119 | printf prints the conversions before an unknown or trailing '%' and then the rest as it stands, later conversions included, and returns the length of both |
| Formatting.VerbatimFrom | libc/stdio/printf.c:24-120 | every format its arguments match is complete, or a complete prefix with such a rest |
| Printing.Console.PutByte | libc/stdio/printf.c:13 | putchar returns its unsigned argument, so it never equals EOF; serial_writec's signed char does exactly for 0xFF |
| Printing.Console.Print | libc/stdio/printf.c:10-16 | the loop up to the first EOF: to the screen the whole string goes out; to the serial line it stops behind the first 0xFF and fails |
| Printing.FillPositiveHex | libc/stdio/printf.c:82-88 | the loop writes the digits of x > 0 backwards in at most 8 slots, indexing the table in range |
| Printing.FillNegativeHex | libc/stdio/printf.c:89-96 | the loop writes the complement digits of x < 0 backwards in at most 8 slots, indexing the table in range |
| Printing.FormHex | libc/stdio/printf.c:75-103 | digit loops, terminator and strrev leave the hex text at the start of the local buffer |
| Printing.Console.Scan | libc/stdio/printf.c:27-69 | one round of the scanner finds the next piece, and the rest of format and arguments gives the remaining pieces; it advances and never passes the NUL |
| Printing.Console.PutChecked | libc/stdio/printf.c:33-40 | literal chunks, %c, %s and the verbatim rest: -1 and nothing printed if longer than what is left of INT_MAX |
| Printing.Console.PutDecimal | libc/stdio/printf.c:67-72 | %d through the shared buffer prints and counts the decimal text |
| Printing.Console.PutHex | libc/stdio/printf.c:73-106 | %x through the local buffer and strrev prints and counts the hex text, leaving strrev's trace |
| Printing.Console.Printf | libc/stdio/printf.c:18-124 | for every format in memory and every argument list, screen, serial line and result are those of Run |
| PrintedScreen.CharacterOnScreen | libc/stdio/printf.c:10-16 | from the call to the cells: the screen is as after one write of the formatted text, and each character stands where the layout puts it while the page stays |
| PrintedScreen.PrintShown | libc/stdio/printf.c:18-124 | after a call on the real terminal video memory holds each character of the text that renders the format where the layout puts it, with attribute 0x28 for the kernel's colours |
| Screens.LinesOfStream | kernel/arch/i386/tty.c:88-97 | the line lengths of the layout are those of the stream: they say exactly which characters are newlines |
| Screens.Layout | kernel/arch/i386/tty.c:84-114 | after any stream column = M mod 80, row = R mod 25 and R/25 clears, for both wrap paths |
| Screens.PositionGrows | kernel/arch/i386/tty.c:84-112 | the linear cursor strictly increases with every character |
| Screens.Contents | kernel/arch/i386/tty.c:49-120 | after any stream each of the 2000 cells holds the character whose closed-form position it is on the last page, and otherwise the initial or the cleared blank |
| Screens.ShownOnce | kernel/arch/i386/tty.c:99-100 | two characters of one page never share a cell |
| Screens.ShownIffNotCleared | kernel/arch/i386/tty.c:77-82 | the characters on the screen are exactly those not followed by a clear |
| Screens.WriteConcat | kernel/arch/i386/tty.c:132-135 | writing two strings is writing their concatenation |
| TextTerminal.Terminal.constructor | kernel/arch/i386/tty.c:49-65 | initialisation gives the blank screen of an empty stream |
| TextTerminal.Terminal.Cls | kernel/arch/i386/tty.c:77-82 | blanks the visible cells and the one behind them, and nothing else |
| TextTerminal.Terminal.UpdateCursor | kernel/arch/i386/tty.c:40-48 | the two cursor registers together hold 80 * y + x |
| TextTerminal.Terminal.SetColour | kernel/arch/i386/tty.c:67-70 | changes the two colours alone; the attribute of cleared cells stays |
| TextTerminal.Terminal.PutCharAttr | kernel/arch/i386/tty.c:84-114 | keeps the terminal equal to the pure screen of its stream, and the hardware cursor equal to 80 * row + column |
| TextTerminal.Terminal.WriteAttr | kernel/arch/i386/tty.c:115-120 | appends the string to the stream with the given attribute and returns its length |
| TextTerminal.Terminal.WriteText | kernel/arch/i386/tty.c:126-135 | appends the string to the stream with the attribute terminal_putchar uses |
| TextTerminal.TextAttribute | kernel/arch/i386/tty.c:126-130 | terminal_putchar's cells have the foreground colour behind the character and the bright background colour in it; 0x28 for the kernel's colours |
| TextTerminal.ColoursExchanged | kernel/arch/i386/tty.c:126-130 | terminal_putchar's attribute is the one of foreground on background exactly when the two are equal |
| TextTerminal.BlanksAlike | kernel/arch/i386/tty.c:49-82 | for all pairs of colours the initial and the cleared blank agree exactly when the foreground is at least 8 |
| TextTerminal.AttributesAsCoded | kernel/arch/i386/tty.c:126-130 | with the kernel's colours text has 0x28 where 0x0A is meant, and the two blanks are 0x0A20 and 0x0220 |
| Scancodes.DecodeReadsAll | kernel/arch/i386/ps2kb.c:101-151 | on every byte stream the bytes consumed are exactly the encoding of the event seen |
| Scancodes.RoundTripIff | kernel/arch/i386/ps2kb.c:101-151 | an event decodes to itself from every stream exactly when its encoding is unambiguous |
| Scancodes.StreamRoundTrip | kernel/arch/i386/ps2kb.c:101-151 | any sequence of such events comes back, using up exactly its own bytes |
| Scancodes.FlagsExactly | kernel/arch/i386/ps2kb.c:125-169 | after any run each modifier flag is the polarity of the last event of its keys: right flags of E0 events, left flags of events of either prefix |
| Scancodes.CombinedFlag | kernel/arch/i386/ps2kb.c:125-163 | left-or-right flag equals "some twin is held" exactly unless the last event of the two released the right key with the left one held |
| Scancodes.ControlAndAlt | kernel/arch/i386/ps2kb.c:192-198 | over runs that release no right key while its left twin is held, the control and alt flags are right |
| Scancodes.CombinedFlags | kernel/arch/i386/ps2kb.c:192-210 | the shift flag is on exactly when one of the two shift keys was last pressed, and some modifying flag exactly when control, alt or mod was, from the run alone |
| Scancodes.RightReleaseLosesLeft | kernel/arch/i386/ps2kb.c:127-160 | left down, right down, right up: control is held and the flag is off |
| KeyMap.Capitals | kernel/arch/i386/ps2kb.c:58-99 | lower-case letters of the default set are capitals in the shift set, exactly where the key does not just carry its own scancode; such keys have no shifted form |
| KeyMap.ShiftKeeps | kernel/arch/i386/ps2kb.c:58-99 | the shift set maps no further keys and keeps control characters and space |
| KeyMap.DigitRow | kernel/arch/i386/ps2kb.c:58-99 | the keys of the digit row, plain and shifted, by position |
| KeyMap.UpperRow | kernel/arch/i386/ps2kb.c:58-99 | the row of q, with tab |
| KeyMap.MiddleRow | kernel/arch/i386/ps2kb.c:58-99 | the row of a |
| KeyMap.LowerRow | kernel/arch/i386/ps2kb.c:58-99 | the row of z |
| KeyMap.WideKeys | kernel/arch/i386/ps2kb.c:58-99 | space, newline and backspace |
| KeyMap.OtherKeys | kernel/arch/i386/ps2kb.c:58-99 | every other key in the map carries its own scancode |
| KeyEcho.MappedKeys | kernel/arch/i386/ps2kb.c:153-190 | the keys with a text are those of the rows and the six cursor and page keys |
| KeyEcho.NamesAre | kernel/arch/i386/shell.c:14-37 | which key prints which name, and the hex scancode for all others |
| KeyEcho.ShellEcho | kernel/arch/i386/ps2kb.c:153-228 | what printf makes of one event is its KeyText: nothing, one character of the table that the two shift flags choose, or a bracketed name, each exactly when |
| KeyEcho.DebugByte | kernel/arch/i386/ps2kb.c:185-235 | the byte of the debugging line, by flags and tables |
| KeyEcho.LastTextIs | kernel/arch/i386/ps2kb.c:153-228 | over runs: the last event's text from the events alone, the shifted character exactly when a shift key was last pressed |
| KeyEcho.Keystrokes | kernel/arch/i386/ps2kb.c:101-237 | from the bytes: a key pressed prints its character, released nothing, behind E0 its name |
| KeyEcho.ModifiedKeystrokes | kernel/arch/i386/ps2kb.c:101-237 | from the bytes: behind either shift key the shifted character, behind control, alt or mod the name |
| KeyEcho.ComplaintText | kernel/arch/i386/ps2kb.c:136-190 | what the handler prints about a code it does not know |
| KeyEcho.NamesIdentify | kernel/arch/i386/shell.c:14-37 | two keys echoed by the same bracketed name are the same key |
| KeyEcho.OnlyTheShell | kernel/arch/i386/shell.c:6-40 | over known keys what a run prints is the texts of its events, in order, and nothing else |
| KeyboardDriver.Keyboard.ReadEvent | kernel/arch/i386/ps2kb.c:103-169 | the bytes of one event and both switches, in the order of the source |
| KeyboardDriver.Keyboard.Handle | kernel/arch/i386/ps2kb.c:101-237 | one call consumes one event, updates the flags, and prints exactly its text to the screen and its trace to the serial line |
| KeyboardDriver.Keyboard.HandleAll | kernel/arch/i386/ps2kb.c:101-237 | n calls handle the next n events of the wire, and the terminal's stream grows by exactly what these print |
| KeyboardDriver.Keyboard.HandleKeys | kernel/arch/i386/ps2kb.c:101-237 | from bytes to screen: the encodings of unambiguous events of known keys put just the texts of these events on the terminal |
| KeyboardDriver.Keyboard.ShellKey | kernel/arch/i386/shell.c:6-40 | the shell's branch on flags and code, on the real console |
| PrintCalls.FormatItems | kernel/arch/i386/shell.c:8-36 | what a printf call of literal texts and numeric conversions prints, with its arguments matching |
| Interrupts.RemapInitializes | kernel/arch/i386/irq.c:53-65 | from any controller state the ten writes leave both ready, edge triggered, in 8086 mode without automatic end of interrupt, unmasked, at vectors 32 and 40 |
| Interrupts.RangeTest | kernel/arch/i386/irq.c:110-116 | the range test and the table disagree on vector 48 alone |
| Interrupts.Controller.InstallHandler | kernel/arch/i386/irq.c:34-37 | sets the one entry |
| Interrupts.Controller.UninstallHandler | kernel/arch/i386/irq.c:40-43 | clears the one entry |
| Interrupts.Controller.Handle | kernel/arch/i386/irq.c:104-147 | runs the installed routine once and writes just the end-of-interrupt commands; nothing for other vectors, and no meaning for 48 alone |
| Interrupts.Controller.RemapPics | kernel/arch/i386/irq.c:53-65 | the ten port writes of irq_remap, in order, leave the controllers remapped |
| Interrupts.EoisCounted | kernel/arch/i386/irq.c:136-146 | what handling any list of deliveries writes: one command 0x20 to port 0x20 each, one to port 0xA0 for each from lines 8 to 15, nothing else |
| Interrupts.RunsCounted | kernel/arch/i386/irq.c:122-127 | each routine runs for a vector exactly as often as a delivery found it installed |
| Interrupts.TableOfRun | kernel/arch/i386/irq.c:34-43 | in every run entry k is the handler last installed for line k and not uninstalled since |
| Interrupts.RightRoutines | kernel/arch/i386/irq.c:122-126 | in every run each delivery has the routine that the steps before it installed for its line |
| Interrupts.StepInvariant | kernel/arch/i386/irq.c:104-147 | every raise, delivery, handling and installation keeps the invariant of controllers, port writes and routines run |
| Interrupts.EoiDiscipline | kernel/arch/i386/irq.c:104-147 | in every run, with no handler running: nothing in service; among the port writes one master end-of-interrupt per delivery, one slave one per delivery of lines 8 to 15 and no other; each delivery has run, once, the routine last installed for its line before it |
| Interrupts.RequestKept | kernel/arch/i386/irq.c:94-103 | no step loses a waiting request except by delivering it at vector 32 + line |
| Interrupts.AcknowledgeKeeps | kernel/arch/i386/irq.c:94-103 | what is delivered was waiting, and it alone waits no longer |
| Interrupts.OnlyRaised | kernel/arch/i386/irq.c:94-103 | in every run a line is delivered at most as often as its device has raised it |
| Interrupts.NeverStuck | kernel/arch/i386/irq.c:94-103 | with no handler running a waiting request can always be delivered |
| Interrupts.HighestFirst | kernel/arch/i386/irq.c:45-52 | and the one of highest priority is |
| Timing.AfterInClosedForm | kernel/arch/i386/timer.c:16-23 | after n interrupts ticks = n mod 2^32 and seconds = (n / 2^32) * 42949673 + (n mod 2^32) / 100 |
| Timing.Timer.Handler | kernel/arch/i386/timer.c:16-23 | one interrupt more, as long as the int seconds does not overflow |
| Timing.Timer.Wait | kernel/arch/i386/timer.c:28-45 | lets exactly Waits(ticks, count) interrupts pass |
| Timing.WaitsAsAsked | kernel/arch/i386/timer.c:32-34 | for every count, negative ones too: the wait is as long as asked exactly when the target does not wrap; it is none above 2^32 and 2^32 + count below zero |
| Timing.Timer.Phase | kernel/arch/i386/timer.c:47-53 | whatever state the channel was in, the three writes make it a square wave that reloads the divisor modulo 2^16; exactly for 19 to 1193180 Hz that is the divisor, and the largest count not slower than the rate asked for |
| Timing.DivisorFits | kernel/arch/i386/timer.c:47-53 | the channel reloads the computed divisor exactly for rates from 19 to 1193180 Hz |
| Timing.DivisorTruncates | kernel/arch/i386/timer.c:49 | the divisor is the quotient truncated toward zero, for negative rates too |
| Timing.Drift | kernel/arch/i386/timer.c:47-60 | before the first wrap seconds are ahead of real time by at most n * 80 / 119318000 and more than that less one second |
| MemoryMap.WalkVisitsAll | kernel/kernel/kernel.c:76-86 | over any encoded list of records the walk visits each once, in order, and stops |
| MemoryMap.LinesShowRecords | kernel/kernel/kernel.c:80-84 | the arguments of the k-th line are the fields of the k-th record |
| MemoryMap.EntryArgs | kernel/kernel/kernel.c:80-84 | the line of an entry laid out as in memory_map_t shows its size, base, length and type |
| MemoryMap.LineReads | kernel/kernel/kernel.c:80 | the line is the only text that shows these values as %d and %x do in the C format string |
| MemoryMap.RecordsShown | kernel/kernel/kernel.c:76-86 | over n encoded records the text of the walk is the n lines of these records |
| MemoryMap.WalkRecords | kernel/kernel/kernel.c:76-86 | and that text is what the loop adds to the terminal's stream |
| MemoryMap.Walk | kernel/kernel/kernel.c:75-86 | on every map whose walk stops, address additions that wrap included, prints one numbered line per visited address, in order |
| MemoryMap.PrintMap | kernel/kernel/kernel.c:72-87 | prints the announced number and the lines where bit 6 is set, and otherwise nothing; a first record of size zero stops it before it prints |
| MemoryMap.MapBit | kernel/kernel/kernel.c:72 | the map is there exactly when bit 6 of the flags is set |
| MemoryMap.PrintRecords | kernel/kernel/kernel.c:72-87 | over n encoded records the terminal's stream grows by the announced number in decimal, mmap_length divided by the first size, and the lines of the n records; for records of one size s the number is n + 4n/s |
| MemoryMap.StopsExactly | kernel/kernel/kernel.c:77-79 | the walk stops exactly when it is at no address twice |
| MemoryMap.RoundsBounded | kernel/kernel/kernel.c:77-79 | and if it stops, it does within end rounds |
| MemoryMap.StepsForward | kernel/kernel/kernel.c:79 | one step goes forward exactly when, taken modulo 2^32, it does not wrap and is not zero |
| MemoryMap.ForwardStops | kernel/kernel/kernel.c:77-79 | a walk whose steps go forward stops |
| MemoryMap.NoWrapStops | kernel/kernel/kernel.c:76-85 | where no address addition wraps, the walk stops and the int counter does not overflow |
| MemoryMap.StandsStill | kernel/kernel/kernel.c:79 | the walk stays at an address exactly for size 2^32 - 4, and then for ever |
| MemoryMap.GoesRound | kernel/kernel/kernel.c:79 | two records, of sizes 0xFFC and 0xFFFFEFFC, between which it goes round for ever |
| MemoryMap.AnnouncedCount | kernel/kernel/kernel.c:74 | for n records of size s the number PrintMap announces is n + 4n/s, and is n exactly when 4n < s |
| MemoryMap.ShownRight | kernel/kernel/kernel.c:82-83 | the shift by four lets one in the high word count 16; it shows the low word exactly when the high one is a multiple of 2^28, and the 64-bit value exactly when it is zero |

## Left out

- Printing.Console.Printf: the format must not lie in the `itoa` buffer or in video memory, and string arguments are values, so a `%s` argument aliasing the `itoa` buffer is not modelled; nor are interrupts in the middle of a call.
- Printing.Console.Printf: formatted and debugging bytes on the serial line are two logs, so how `serial_printf` interleaves them is not stated.
- Timing.Timer.Wait: each `hlt` is ended by one timer interrupt; other interrupts waking the processor and the loop's debugging output are not modelled.
- Timing.Timer.Phase: of the 8254 only the programming of channel 0 is modelled, not its counting; a rate of zero, by which the code divides, is excluded.
- Timing.Timer.Handler: `seconds` overflowing an int has no meaning in C and is excluded.
- Interrupts.Controller.Handle: the debugging output on the serial line is not modelled; reading behind the table for vector 48 has no meaning, and the model stops there; a routine is a number whose call is recorded, and it does not touch the controllers.
- Interrupts.EoiDiscipline: spurious interrupts, priority rotation, masks other than the one written, and nested delivery are not modelled; the entry stubs are taken to pass vectors 32 to 47 with interrupts off.
- MemoryMap.Walk: a walk that does not stop has no final state and is excluded, as are more than INT_MAX lines, at which the int counter overflows.
- MemoryMap.PrintMap: the two lines of lower and upper memory size are not modelled; the division trap of a first record of size zero is a result of its own.
- KeyboardDriver.Keyboard.Handle: `ps2_read` is the next byte of an endless stream; the E1 pause sequence gets no special treatment, as in the code.
- Port input, the serial busy-wait, cursor shape and CRT register timing: hardware access; only the two cursor location registers are kept.
- The PS/2 controller's set-up: device polling with replies not visible in the source.
- Descriptor tables, exception messages, logging wrappers, `memset`, `memcpy`, `memcmp`, `puts`, `abort` and the unimplemented `strdup`: they would add only easy members.
- Assembly stubs and boot code: not expressible here.
