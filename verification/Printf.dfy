// printf and serial_printf over the real terminal, serial line and itoa
// buffer.  The two C functions have the same body and differ only in print;
// here dev says which of them is running.
module Printing {
  import opened CInt
  import opened Numerals
  import opened CStrings
  import opened SerialPort
  import opened IntToAscii
  import opened TextTerminal
  import opened Formatting
  import Screens

  // Everything written so far.
  datatype Log = Log(stream: seq<Screens.Glyph>, text: seq<byte>, trace: seq<byte>)

  // l after dev has printed text and strrev has left trace.
  function Extend(l: Log, dev: Device, attr: byte, text: seq<byte>, trace: seq<byte>): Log {
    if dev == ToScreen then Log(l.stream + Glyphs(text, attr), l.text, l.trace + trace)
    else Log(l.stream, l.text + text, l.trace + trace)
  }

  lemma ExtendTwice(l: Log, dev: Device, attr: byte, t1: seq<byte>, r1: seq<byte>, t2: seq<byte>, r2: seq<byte>)
    ensures Extend(Extend(l, dev, attr, t1, r1), dev, attr, t2, r2) == Extend(l, dev, attr, t1 + t2, r1 + r2)
  {
    GlyphsConcat(t1, t2, attr);
    Assoc(l.stream, Glyphs(t1, attr), Glyphs(t2, attr));
    Assoc(l.text, t1, t2);
    Assoc(l.trace, r1, r2);
  }

  lemma ExtendNone(l: Log, dev: Device, attr: byte)
    ensures Extend(l, dev, attr, [], []) == l
  {
    assert Glyphs([], attr) == [];
  }

  class Console {
    const terminal: Terminal
    const serial: Serial
    const itoa: Itoa

    ghost predicate Valid()
      reads terminal, terminal.buffer, itoa, itoa.buf
    {
      terminal.Valid() && itoa.Valid() && (itoa.buf as object) != terminal.buffer
    }

    constructor (terminal: Terminal, serial: Serial, itoa: Itoa)
      requires terminal.Valid() && itoa.Valid() && (itoa.buf as object) != terminal.buffer
      ensures Valid()
      ensures this.terminal == terminal && this.serial == serial && this.itoa == itoa
    {
      this.terminal, this.serial, this.itoa := terminal, serial, itoa;
    }

    ghost function Written(): Log
      reads terminal, serial
    {
      Log(terminal.stream, serial.text, serial.trace)
    }

    ghost function Attr(): byte
      reads terminal
    {
      terminal.PlainAttr()
    }

    // putchar
    method PutChar(ic: int) returns (r: int)
      requires Valid() && 0 <= ic < 0x100
      modifies terminal, terminal.buffer
      ensures Valid() && Attr() == old(Attr())
      ensures terminal.stream == old(terminal.stream) + Glyphs([ic], Attr())
      ensures r == ic
    {
      terminal.WriteText([ic]);
      r := ic;
    }

    // What print calls for each byte: putchar, which returns its unsigned
    // argument, or serial_writec, which returns a signed char.
    method PutByte(dev: Device, c: byte) returns (r: int)
      requires Valid()
      modifies terminal, terminal.buffer, serial
      ensures Valid() && Attr() == old(Attr())
      ensures r == EOF <==> Fails(dev, [c])
      ensures Written() == Extend(old(Written()), dev, Attr(), [c], [])
    {
      FailsAt(dev, c);
      if dev == ToScreen {
        r := PutChar(c);
      } else {
        r := serial.Writec(c, Formatted);
      }
    }

    // print
    method Print(dev: Device, data: seq<byte>) returns (ok: bool)
      requires Valid()
      modifies terminal, terminal.buffer, serial
      ensures Valid() && Attr() == old(Attr())
      ensures ok <==> !Fails(dev, data)
      ensures Written() == Extend(old(Written()), dev, Attr(), Sent(dev, data), [])
    {
      hide Extend, Fails, Sent;
      ghost var l := Written();
      ExtendNone(l, dev, Attr());
      NothingSent(dev);
      for i := 0 to |data|
        invariant Valid() && Attr() == old(Attr())
        invariant !Fails(dev, data[..i])
        invariant Written() == Extend(l, dev, Attr(), data[..i], [])
      {
        SentStep(dev, data, i);
        ExtendTwice(l, dev, Attr(), data[..i], [], [data[i]], []);
        JustRight<byte>([], []);
        var r := PutByte(dev, data[i]);
        if r == EOF {
          return false;
        }
      }
      assert data[..|data|] == data;
      SentWhole(dev, data);
      return true;
    }

    // Literal chunks, %c, %s and the verbatim rest: compare the length with
    // what is left of INT_MAX, print, count.
    method PutChecked(dev: Device, data: seq<byte>, written: int) returns (r: Progress)
      requires Valid() && 0 <= written <= INT_MAX
      modifies terminal, terminal.buffer, serial
      ensures Valid() && Attr() == old(Attr())
      ensures var s := PrintPiece(dev, Piece(data, true, []), written);
        r == s.progress && Written() == Extend(old(Written()), dev, Attr(), s.text, s.trace)
    {
      var maxrem := INT_MAX - written;
      if maxrem < |data| {
        ExtendNone(Written(), dev, Attr());
        return Stop(Returned(-1));
      }
      var ok := Print(dev, data);
      if !ok {
        return Stop(Returned(-1));
      }
      return GoOn(written + |data|);
    }

    // %d and %x: print, and only then count.  Before, l had been written and
    // strrev has left trace since.
    method PutUnchecked(dev: Device, data: seq<byte>, written: int, ghost l: Log, ghost trace: seq<byte>)
      returns (ok: bool)
      requires Valid() && Written() == Extend(l, dev, Attr(), [], trace)
      modifies terminal, terminal.buffer, serial
      ensures Valid() && Attr() == old(Attr())
      ensures var s := PrintPiece(dev, Piece(data, false, trace), written);
        && Written() == Extend(l, dev, Attr(), s.text, s.trace)
        && ok == !Fails(dev, data)
    {
      ok := Print(dev, data);
      ExtendTwice(l, dev, Attr(), [], trace, Sent(dev, data), []);
      JustRight(trace, Sent(dev, data));
    }

    // The outcome of a printed %d or %x of length len.
    function Count(ok: bool, len: nat, written: int): Progress {
      if !ok then Stop(Returned(-1))
      else if INT_MAX - written < len then Stop(Undefined)
      else GoOn(written + len)
    }

    method PutDecimal(dev: Device, d: int32, written: int) returns (r: Progress)
      requires Valid() && 0 <= written <= INT_MAX
      modifies terminal, terminal.buffer, serial, itoa.buf
      ensures Valid() && Attr() == old(Attr())
      ensures var s := PrintPiece(dev, Piece(Decimal(d), false, []), written);
        r == s.progress && Written() == Extend(old(Written()), dev, Attr(), s.text, s.trace)
    {
      ghost var l := Written();
      var p, len := itoa.ConvertTwice(d);
      ExtendNone(l, dev, Attr());
      var ok := PutUnchecked(dev, itoa.buf[p..p + len], written, l, []);
      p, len := itoa.ConvertTwice(d);
      r := Count(ok, len, written);
    }

    method PutHex(dev: Device, x: int32, written: int) returns (r: Progress)
      requires Valid() && 0 <= written <= INT_MAX
      modifies terminal, terminal.buffer, serial
      ensures Valid() && Attr() == old(Attr())
      ensures var s := PrintPiece(dev, Piece(HexText(x), false, HexTrace(x)), written);
        r == s.progress && Written() == Extend(old(Written()), dev, Attr(), s.text, s.trace)
    {
      ghost var l := Written();
      var buf, i := FormHex(x, serial);
      ExtendNone(l, dev, Attr());
      var ok := PutUnchecked(dev, buf[..i], written, l, HexTrace(x));
      r := Count(ok, i, written);
    }

    // The literal chunk at p: one character, and then up to the next '%'.
    method ScanAmount(format: array<byte>, p: nat) returns (amount: nat)
      requires Terminated(format[..], p) && format[p] != 0
      ensures amount == Amount(Text(format[..], p)) <= Length(format[..], p)
    {
      ghost var f := Text(format[..], p);
      amount := 1;
      assert f[1..] == f[amount..];
      while format[p + amount] != 0 && format[p + amount] != PERCENT
        invariant 1 <= amount <= |f|
        invariant amount + PlainLength(f[amount..]) == Amount(f)
        decreases |f| - amount
      {
        assert f[amount..][1..] == f[amount + 1..];
        amount := amount + 1;
      }
    }

    // A literal chunk starting at p; an escaping '%' is skipped first.
    method ScanLiteral(format: array<byte>, p: nat, ghost m: seq<byte>, ghost va: seq<Arg>)
      returns (data: seq<byte>, next: nat)
      requires m == format[..]
      requires Terminated(m, p) && m[p] != 0 && StartsLiteral(Text(m, p))
      ensures p < next <= p + Length(m, p) && Terminated(m, next)
      ensures Finds(Text(m, p), va) == [Chunk(data)] + Finds(Text(m, next), va)
    {
      hide Finds, Amount;
      var start := if format[p] == PERCENT then p + 1 else p;
      LiteralStart(m, p, start);
      var amount := ScanAmount(format, start);
      LiteralAt(m, p, start, amount, va);
      next := start + amount;
      data := Slice(format, start, next);
    }

    method Slice(a: array<byte>, from: nat, to: nat) returns (s: seq<byte>)
      requires from <= to <= a.Length
      ensures s == a[..][from..to]
    {
      s := a[from..to];
    }

    // The verbatim rest of the format.
    method ScanRest(format: array<byte>, p: nat, ghost va: seq<Arg>) returns (data: seq<byte>, next: nat)
      requires Terminated(format[..], p)
      requires format[p] == PERCENT && format[p + 1] != PERCENT && !IsConversion(format[p + 1])
      ensures p < next <= p + Length(format[..], p) && Terminated(format[..], next)
      ensures Finds(Text(format[..], p), va) == [Chunk(data)] + Finds(Text(format[..], next), va)
    {
      var len := Strlen(format, p);
      TextFrom(format[..], p, len);
      data, next := format[p..p + len], p + len;
      assert data == Text(format[..], p);
    }

    // One round of the scanner's loop: what the next piece is, and where the
    // format and the arguments go on after it.
    method Scan(format: array<byte>, p: nat, va: seq<Arg>) returns (found: Found, next: nat, va': seq<Arg>)
      requires Terminated(format[..], p) && format[p] != 0
      ensures found.Conversion? ==> IsConversion(found.c) && Accepts(found.c, found.arg)
      ensures p < next <= p + Length(format[..], p) && Terminated(format[..], next)
      ensures Finds(Text(format[..], p), va) ==
        [found] + if found.NoArgument? then [] else Finds(Text(format[..], next), va')
    {
      hide Finds, Amount;
      var data;
      if format[p] != PERCENT || format[p + 1] == PERCENT {
        data, next := ScanLiteral(format, p, format[..], va);
        found, va' := Chunk(data), va;
      } else if !IsConversion(format[p + 1]) {
        data, next := ScanRest(format, p, va);
        found, va' := Chunk(data), va;
      } else {
        ConversionAt(format[..], p, va);
        next := p + 2;
        if va == [] || !Accepts(format[p + 1], va[0]) {
          found, va' := NoArgument, va;
        } else {
          found, va' := Conversion(format[p + 1], va[0]), va[1..];
        }
      }
    }

    // A string printf only reads: not the itoa buffer, and not video memory.
    ghost predicate Foreign(a: array<byte>) {
      (a as object) != itoa.buf && (a as object) != terminal.buffer
    }

    method Put(dev: Device, found: Found, written: int) returns (r: Progress)
      requires Valid() && 0 <= written <= INT_MAX
      requires found.Conversion? ==> IsConversion(found.c) && Accepts(found.c, found.arg)
      modifies terminal, terminal.buffer, serial, itoa.buf
      ensures Valid() && Attr() == old(Attr())
      ensures var s := PrintPiece(dev, PieceOf(found), written);
        r == s.progress && Written() == Extend(old(Written()), dev, Attr(), s.text, s.trace)
    {
      match found
      case Chunk(data) =>
        r := PutChecked(dev, data, written);
      case Conversion(c, arg) =>
        r := PutConversion(dev, c, arg, written);
      case NoArgument =>
        ExtendNone(Written(), dev, Attr());
        r := Stop(Undefined);
    }

    method PutConversion(dev: Device, c: byte, arg: Arg, written: int) returns (r: Progress)
      requires Valid() && 0 <= written <= INT_MAX && IsConversion(c) && Accepts(c, arg)
      modifies terminal, terminal.buffer, serial, itoa.buf
      ensures Valid() && Attr() == old(Attr())
      ensures var s := PrintPiece(dev, ConversionPiece(c, arg), written);
        r == s.progress && Written() == Extend(old(Written()), dev, Attr(), s.text, s.trace)
    {
      if c == 'c' as int {
        r := PutChecked(dev, [arg.i % 0x100], written);
      } else if c == 's' as int {
        r := PutChecked(dev, arg.s, written);
      } else if c == 'd' as int {
        r := PutDecimal(dev, arg.i, written);
      } else {
        r := PutHex(dev, arg.i, written);
      }
    }

    // printf (to the screen) and serial_printf (to the serial line).
    method Printf(dev: Device, format: array<byte>, fmt: nat, args: seq<Arg>) returns (r: Outcome)
      requires Valid()
      requires Foreign(format)
      requires Terminated(format[..], fmt)
      modifies terminal, terminal.buffer, serial, itoa.buf
      ensures Valid() && Attr() == old(Attr())
      ensures format[..] == old(format[..])
      ensures var e := Run(dev, Pieces(Text(old(format[..]), fmt), args), 0);
        r == e.outcome && Written() == Extend(old(Written()), dev, Attr(), e.text, e.trace)
    {
      hide Run, Pieces, Finds, Length, Text, Extend;
      ghost var m, l, e := format[..], Written(), Run(dev, Pieces(Text(format[..], fmt), args), 0);
      ghost var text, trace: seq<byte> := [], [];
      ghost var todo := e;
      ExtendNone(l, dev, Attr());
      JustRight([], e.text);
      JustRight([], e.trace);
      var p, va, written := fmt, args, 0;
      while format[p] != 0
        invariant Valid() && Attr() == old(Attr()) && 0 <= written <= INT_MAX
        invariant format[..] == m && Terminated(m, p)
        invariant Written() == Extend(l, dev, Attr(), text, trace)
        invariant todo == Run(dev, Pieces(Text(m, p), va), written)
        invariant e == Effect(text + todo.text, trace + todo.trace, todo.outcome)
        decreases Length(m, p)
      {
        ghost var f, args0, p0 := Text(m, p), va, p;
        var found;
        found, p, va := Scan(format, p, va);
        Shorter(m, p0, p);
        ghost var s := PrintPiece(dev, PieceOf(found), written);
        RunScan(dev, f, args0, found, Text(m, p), va, written);
        var progress := Put(dev, found, written);
        ExtendTwice(l, dev, Attr(), text, trace, s.text, s.trace);
        if progress.Stop? {
          return progress.outcome;
        }
        written := progress.written;
        todo := Run(dev, Pieces(Text(m, p), va), written);
        Assoc(text, s.text, todo.text);
        Assoc(trace, s.trace, todo.trace);
        text, trace := text + s.text, trace + s.trace;
      }
      NothingLeft(dev, m, p, va, written);
      JustRight(text, text);
      JustRight(trace, trace);
      r := Returned(written);
    }
  }

  lemma FailsAt(dev: Device, c: byte)
    ensures Fails(dev, [c]) <==> dev == ToSerial && c - 0x100 == EOF
  {}

  lemma NothingSent(dev: Device)
    ensures !Fails(dev, [])
  {}

  // One byte more: it fails, and then nothing follows it, or nothing has failed.
  lemma SentStep(dev: Device, data: seq<byte>, i: nat)
    requires i < |data| && !Fails(dev, data[..i])
    ensures data[..i] + [data[i]] == data[..i + 1]
    ensures if Fails(dev, [data[i]]) then Fails(dev, data) && Sent(dev, data) == data[..i + 1]
      else !Fails(dev, data[..i + 1])
  {
    UpToEofConcat(data[..i], data[i..]);
    assert data == data[..i] + data[i..];
    assert data[i..][0] == data[i];
  }

  lemma SentWhole(dev: Device, data: seq<byte>)
    ensures !Fails(dev, data) ==> Sent(dev, data) == data
  {
    UpToEofPlain(data);
  }

  lemma Shorter(m: seq<byte>, p: nat, next: nat)
    requires Terminated(m, p) && p < next <= p + Length(m, p) && Terminated(m, next)
    ensures Length(m, next) < Length(m, p)
  {
    TextFrom(m, p, next - p);
    assert |Text(m, next)| == Length(m, next);
  }

  lemma ConversionAt(m: seq<byte>, p: nat, va: seq<Arg>)
    requires Terminated(m, p) && m[p] == PERCENT && IsConversion(m[p + 1])
    ensures 2 <= Length(m, p) && p + 2 <= |m| && Terminated(m, p + 2)
    ensures Finds(Text(m, p), va) ==
      if va == [] || !Accepts(m[p + 1], va[0]) then [NoArgument]
      else [Conversion(m[p + 1], va[0])] + Finds(Text(m, p + 2), va[1..])
  {
    TextFrom(m, p, 2);
  }

  lemma LiteralAt(m: seq<byte>, p: nat, start: nat, amount: nat, va: seq<Arg>)
    requires Terminated(m, p) && m[p] != 0 && StartsLiteral(Text(m, p))
    requires Terminated(m, start) && m[start] != 0 && Text(m, start) == Unescaped(Text(m, p))
    requires start == (if m[p] == PERCENT then p + 1 else p) && amount == Amount(Text(m, start))
    ensures start + amount <= p + Length(m, p) <= |m| && Terminated(m, start + amount)
    ensures Finds(Text(m, p), va) == [Chunk(m[start..start + amount])] + Finds(Text(m, start + amount), va)
  {
    assert Text(m, p)[0] == m[p] && |Text(m, p)| == Length(m, p);
    TextFrom(m, start, amount);
  }

  lemma LiteralStart(m: seq<byte>, p: nat, start: nat)
    requires Terminated(m, p) && m[p] != 0 && StartsLiteral(Text(m, p))
    requires start == if m[p] == PERCENT then p + 1 else p
    ensures Terminated(m, start) && m[start] != 0 && Text(m, start) == Unescaped(Text(m, p))
  {
    var f := Text(m, p);
    assert f[0] == m[p];
    TextFrom(m, p, start - p);
    assert f[0..] == f;
  }

  // The effect of the rest of the format f, in terms of its first piece and of
  // the rest f' behind that.
  lemma RunScan(dev: Device, f: seq<byte>, va: seq<Arg>, found: Found, f': seq<byte>, va': seq<Arg>, written: int)
    requires Finds(f, va) == [found] + if found.NoArgument? then [] else Finds(f', va')
    ensures var s, e := PrintPiece(dev, PieceOf(found), written), Run(dev, Pieces(f, va), written);
      match s.progress
      case Stop(outcome) => e == Effect(s.text, s.trace, outcome)
      case GoOn(w) =>
        var e' := Run(dev, Pieces(f', va'), w);
        e == Effect(s.text + e'.text, s.trace + e'.trace, e'.outcome)
  {
    var rest := if found.NoArgument? then [] else Finds(f', va');
    PiecesStep(found, rest);
    var ps := PiecesOf([found] + rest);
    assert ps[0] == PieceOf(found) && ps[1..] == PiecesOf(rest);
  }

  lemma NothingLeft(dev: Device, m: seq<byte>, p: nat, va: seq<Arg>, written: int)
    requires Terminated(m, p) && m[p] == 0
    ensures Run(dev, Pieces(Text(m, p), va), written) == Effect([], [], Returned(written))
  {
    LengthIs(m, p, 0);
  }

  lemma JustRight<T>(r: seq<T>, t: seq<T>)
    ensures r + [] == r && [] + t == t
  {}

  lemma HexTextNulFree(x: int32)
    ensures 0 !in HexText(x) && 0 !in Reverse(HexText(x)) && |HexText(x)| <= 8
  {
    HexOfInt32(x);
    ComplementDenotes(if x < 0 then -(x + 1) else 0);
    assert AllDigits(HexText(x), 16);
  }

  lemma HexTextFits(x: int32)
    ensures |HexText(x)| <= 8
  {
    HexOfInt32(x);
  }

  // The local buffer of %x has room for INT_DIGITS + 1 == 17 bytes.
  const HEX_BUFFER: nat := 17

  // The digit loops and strrev.
  method FormHex(x: int32, serial: Serial) returns (buf: array<byte>, i: nat)
    modifies serial
    ensures fresh(buf) && i == |HexText(x)| <= buf.Length && buf[..i] == HexText(x)
    ensures serial.text == old(serial.text)
    ensures serial.trace == old(serial.trace) + HexTrace(x)
  {
    HexTextNulFree(x);
    ReverseInvolutive(HexText(x));
    buf := new byte[HEX_BUFFER];
    if x > 0 {
      i := FillPositiveHex(buf, x);
    } else if x < 0 {
      i := FillNegativeHex(buf, x);
    } else {
      buf[0] := '0' as int;
      i := 1;
      assert Reverse(HexText(x)) == ['0' as int];
    }
    buf[i] := 0;
    TextIs(buf[..], 0, Reverse(HexText(x)));
    Strrev(buf, 0, serial);
    assert buf[..i] == Text(buf[..], 0);
  }

  lemma ReverseCons(c: byte, s: seq<byte>)
    ensures Reverse([c] + s) == Reverse(s) + [c]
  {}

  // Every index into the table of hex digits is in range.
  method FillPositiveHex(buf: array<byte>, x: int32) returns (i: nat)
    requires buf.Length == HEX_BUFFER && x > 0
    modifies buf
    ensures i == |HexText(x)| <= 8
    ensures buf[..i] == Reverse(HexText(x))
  {
    hide HexDigit;
    HexTextFits(x);
    ghost var t, tail: seq<byte> := HexText(x), [];
    assert t == Numeral(x, 16) + tail;
    var v: int := x;
    i := 0;
    while v > 0
      invariant v >= 0 && i == |tail| <= 8
      invariant buf[..i] == Reverse(tail)
      invariant t == (if v > 0 then Numeral(v, 16) else []) + tail
    {
      HexDigitStep(v, tail);
      ReverseCons(HexDigit(v % 16), tail);
      buf[i] := HexDigit(CMod(v, 16));
      tail := [HexDigit(v % 16)] + tail;
      v := CDiv(v, 16);
      i := i + 1;
    }
  }

  lemma HexDigitStep(v: nat, tail: seq<byte>)
    requires v > 0
    ensures Numeral(v, 16) + tail ==
      (if v / 16 > 0 then Numeral(v / 16, 16) else []) + ([HexDigit(v % 16)] + tail)
  {}

  method FillNegativeHex(buf: array<byte>, x: int32) returns (i: nat)
    requires buf.Length == HEX_BUFFER && x < 0
    modifies buf
    ensures i == |HexText(x)| <= 8
    ensures buf[..i] == Reverse(HexText(x))
  {
    HexTextFits(x);
    ghost var t, tail: seq<byte> := HexText(x), [];
    var v: int := x + 1;
    assert t == Complement(0 - v) + tail;
    i := 0;
    while v < 0
      invariant v <= 0 && i == |tail| <= 8
      invariant buf[..i] == Reverse(tail)
      invariant t == Complement(0 - v) + tail
      decreases 0 - v
    {
      ghost var w: nat := 0 - v;
      ComplementStep(w, tail);
      TruncatesNegativeHex(w);
      ReverseCons(HexDigit(15 - w % 16), tail);
      buf[i] := HexDigit(CMod(v, 16) + 15);
      tail := [HexDigit(15 - w % 16)] + tail;
      v := CDiv(v, 16);
      i := i + 1;
    }
  }

  lemma TruncatesNegativeHex(w: nat)
    ensures CMod(0 - w, 16) == 0 - w % 16 && CDiv(0 - w, 16) == 0 - w / 16
  {}

  lemma ComplementStep(y: nat, tail: seq<byte>)
    requires y > 0
    ensures Complement(y) + tail == Complement(y / 16) + ([HexDigit(15 - y % 16)] + tail)
  {}
}
