// What ps2kb_handler and shell_key print for a key event.
module KeyEcho {
  import opened CInt
  import opened Numerals
  import opened Formatting
  import opened PrintCalls
  import opened KeyMap
  import opened Scancodes

  const KEY_UP_ARROW: byte := 0x75
  const KEY_DOWN_ARROW: byte := 0x72
  const KEY_LEFT_ARROW: byte := 0x6B
  const KEY_RIGHT_ARROW: byte := 0x74
  const KEY_PAGE_UP: byte := 0x7D
  const KEY_PAGE_DOWN: byte := 0x7A

  predicate IsModifier(code: byte) {
    code == LSHF || code == LCTL || code == LALT || code == RSHF || code == MOD
  }

  // F1 to F12, by scancode.
  predicate IsFunctionKey(code: byte) {
    match code
    case 0x05 => true case 0x06 => true case 0x04 => true case 0x0C => true
    case 0x03 => true case 0x0B => true case 0x83 => true case 0x0A => true
    case 0x01 => true case 0x09 => true case 0x78 => true case 0x07 => true
    case _ => false
  }

  // The bits of key_event.flags.
  datatype Flags = Flags(special: bool, control: bool, shift: bool, alt: bool, mod: bool, down: bool)

  datatype KeyEvent = KeyEvent(utf8: byte, code: byte, flags: Flags)

  const QUIET: Flags := Flags(true, false, false, false, false, false)

  // The event handed to the shell; m is the modifier state with e already in.
  function KeyEventOf(m: Mods, e: Event): KeyEvent {
    if IsModifier(e.code) || IsFunctionKey(e.code) || DefaultKey(e.code) == 0 then
      KeyEvent(0, e.code, QUIET)
    else
      var flags := Flags(true, m.Control(), m.Shift(), m.Alt(), m.mod, e.down);
      if m.Control() || m.Alt() || m.mod then KeyEvent(DefaultKey(e.code), e.code, flags)
      else if e.extended then KeyEvent(0, e.code, flags)
      else if m.Shift() then KeyEvent(ShiftKey(e.code), e.code, flags.(special := false))
      else KeyEvent(DefaultKey(e.code), e.code, flags.(special := false))
  }

  // ----- the calls of printf

  const X: byte := 'x' as int

  // A text, a %x, and a text.
  function HexItems(before: string, code: byte, after: string): seq<Item> {
    [Lit(before)] + ([Conv(X, Num(code))] + ([Lit(after)] + []))
  }

  function HexCall(before: string, code: byte, after: string): Call {
    CallOf(HexItems(before, code, after))
  }

  function TextCall(text: string): Call {
    CallOf([Lit(text)])
  }

  function CharCall(c: byte): Call {
    CallOf([Conv('c' as int, Num(c))])
  }

  // What the handler itself prints about bytes it does not know: while it
  // reads the prefix, and when it looks the code up.
  function PrefixComplaint(e: Event): seq<Call> {
    if e.extended && e.code == 0 then [HexCall("<Unhandled E0 scancode ", e.code, ">")]
    else if !e.extended && e.down && e.code == 0 then [TextCall("0 scancode rx")]
    else []
  }

  function MapComplaint(e: Event): seq<Call> {
    if !IsModifier(e.code) && !IsFunctionKey(e.code) && DefaultKey(e.code) == 0
    then [HexCall("<Unmapped scancode ", e.code, ">")]
    else []
  }

  function Complaints(e: Event): seq<Call> {
    PrefixComplaint(e) + MapComplaint(e)
  }

  function KeyName(code: byte): string {
    if code == KEY_UP_ARROW then "<UP>"
    else if code == KEY_DOWN_ARROW then "<DOWN>"
    else if code == KEY_LEFT_ARROW then "<LEFT>"
    else if code == KEY_RIGHT_ARROW then "<RIGHT>"
    else if code == KEY_PAGE_UP then "<PG UP>"
    else if code == KEY_PAGE_DOWN then "<PG DOWN>"
    else ""
  }

  function Named(code: byte): Call {
    if KeyName(code) == "" then HexCall("<0x", code, ">") else TextCall(KeyName(code))
  }

  // shell_key
  function ShellCalls(k: KeyEvent): seq<Call> {
    if !k.flags.special && k.flags.down then [CharCall(k.utf8)]
    else if k.flags.down then [Named(k.code)]
    else []
  }

  function CallsOf(m: Mods, e: Event): seq<Call> {
    Complaints(e) + ShellCalls(KeyEventOf(m, e))
  }

  // The character keys, and the cursor and page keys.
  lemma MappedKeys(code: byte)
    ensures Mapped(code) <==> IsCharacterKey(code) || code in [0x6B, 0x72, 0x74, 0x75, 0x7A, 0x7D]
  {}

  // The name a key is echoed by.
  function NameText(code: byte): seq<byte> {
    if KeyName(code) == "" then Ascii("<0x") + (HexText(code) + Ascii(">")) else Ascii(KeyName(code))
  }

  predicate Legible(text: string) {
    |text| <= 40 && Good(Lit(text))
  }

  lemma HexPlain(before: string, code: byte, after: string)
    requires Legible(before) && Legible(after)
    ensures var c := HexCall(before, code, after);
      Plain(c) && Format(c.format, c.args) == Ascii(before) + (HexText(code) + Ascii(after))
  {
    var items := HexItems(before, code, after);
    ItemsStep(Lit(after), []);
    ItemsStep(Conv(X, Num(code)), [Lit(after)] + []);
    ItemsStep(Lit(before), [Conv(X, Num(code))] + ([Lit(after)] + []));
    FormatItems(items);
    assert Ascii(after) + [] == Ascii(after);
  }

  lemma TextPlain(text: string)
    requires Legible(text)
    ensures var c := TextCall(text); Plain(c) && Format(c.format, c.args) == Ascii(text)
  {
    ItemsStep(Lit(text), []);
    assert [Lit(text)] + [] == [Lit(text)];
    FormatItems([Lit(text)]);
    assert Ascii(text) + [] == Ascii(text);
  }

  // The name a key is echoed by identifies it.
  lemma NamesIdentify(a: byte, b: byte)
    requires Format(Named(a).format, Named(a).args) == Format(Named(b).format, Named(b).args)
    ensures a == b
  {
    NamedFormats(a);
    NamedFormats(b);
    hide Format, Named, HexText, Ascii;
    if KeyName(a) == "" && KeyName(b) == "" {
      HexNamesIdentify(a, b);
    } else if KeyName(a) != "" && KeyName(b) != "" {
      KeyNamesIdentify(a, b);
    } else {
      NameNotHex(if KeyName(a) == "" then b else a, if KeyName(a) == "" then a else b);
    }
  }

  lemma HexNamesIdentify(a: byte, b: byte)
    requires Ascii("<0x") + (HexText(a) + Ascii(">")) == Ascii("<0x") + (HexText(b) + Ascii(">"))
    ensures a == b
  {
    HexBetween(HexText(a), HexText(b));
    NumeralDenotes(a, 16);
    NumeralDenotes(b, 16);
  }

  lemma KeyNamesIdentify(a: byte, b: byte)
    requires KeyName(a) != "" && KeyName(b) != "" && Ascii(KeyName(a)) == Ascii(KeyName(b))
    ensures a == b
  {
    KeyNameReads(a);
    KeyNameReads(b);
    AsciiInjective(KeyName(a), KeyName(b));
  }

  lemma NamedFormats(code: byte)
    ensures Format(Named(code).format, Named(code).args) == NameText(code)
  {
    if KeyName(code) == "" {
      HexPlain("<0x", code, ">");
    } else {
      KeyNameReads(code);
      TextPlain(KeyName(code));
    }
  }

  lemma HexBetween(s: seq<byte>, t: seq<byte>)
    requires Ascii("<0x") + (s + Ascii(">")) == Ascii("<0x") + (t + Ascii(">"))
    ensures s == t
  {
    assert (Ascii("<0x") + (s + Ascii(">")))[3..] == s + Ascii(">");
    assert (Ascii("<0x") + (t + Ascii(">")))[3..] == t + Ascii(">");
    assert (s + Ascii(">"))[..|s|] == s;
    assert (t + Ascii(">"))[..|t|] == t;
  }

  lemma AsciiInjective(s: string, t: string)
    requires Ascii(s) == Ascii(t) && Good(Lit(s)) && Good(Lit(t))
    ensures s == t
  {
    forall k | 0 <= k < |s| ensures s[k] == t[k] {
      assert Ascii(s)[k] == Ascii(t)[k];
    }
  }

  lemma NameNotHex(named: byte, hex: byte)
    requires KeyName(named) != ""
    ensures Ascii(KeyName(named)) != Ascii("<0x") + (HexText(hex) + Ascii(">"))
  {
    assert (Ascii("<0x") + (HexText(hex) + Ascii(">")))[1] == '0' as int;
    assert Ascii(KeyName(named))[1] == KeyName(named)[1] as int;
  }

  lemma CharPlain(c: byte)
    ensures var call := CharCall(c); Plain(call) && Format(call.format, call.args) == [c]
  {
    var items := [Conv('c' as int, Num(c))];
    ItemsStep(items[0], []);
    assert [items[0]] + [] == items;
    FormatItems(items);
  }

  lemma PrefixComplaintPlain(e: Event)
    ensures |PrefixComplaint(e)| <= 1 && forall c :: c in PrefixComplaint(e) ==> Plain(c)
  {
    hide Format, Matches, FormatOf, ArgsOf, HexText, Ascii;
    if e.extended && e.code == 0 {
      HexPlain("<Unhandled E0 scancode ", e.code, ">");
    } else {
      TextPlain("0 scancode rx");
    }
  }

  lemma MapComplaintPlain(e: Event)
    ensures |MapComplaint(e)| <= 1 && forall c :: c in MapComplaint(e) ==> Plain(c)
  {
    HexPlain("<Unmapped scancode ", e.code, ">");
  }

  // Between angle brackets, with at least one character inside.
  predicate Bracketed(s: seq<byte>) {
    |s| > 2 && s[0] == '<' as int && s[|s| - 1] == '>' as int
  }

  lemma KeyNameReads(code: byte)
    requires KeyName(code) != ""
    ensures Legible(KeyName(code)) && Bracketed(Ascii(KeyName(code)))
  {}

  lemma NamedPlain(code: byte)
    ensures var c := Named(code); Plain(c) && Bracketed(Format(c.format, c.args))
  {
    if KeyName(code) == "" {
      HexPlain("<0x", code, ">");
    } else {
      KeyNameReads(code);
      TextPlain(KeyName(code));
    }
  }

  // The key is in the map, and neither a modifier nor a function key.
  predicate Mapped(code: byte) {
    !IsModifier(code) && !IsFunctionKey(code) && DefaultKey(code) != 0
  }

  // The text of one event, m being the modifier state with it already in.  Only
  // a mapped key going down has one: its character, shifted or not, or, with an
  // E0 prefix or with control, alt or mod, its name.
  function KeyText(m: Mods, e: Event): seq<byte> {
    if !e.down || !Mapped(e.code) then []
    else if e.extended || m.lctrl || m.rctrl || m.lalt || m.ralt || m.mod then NameText(e.code)
    else [if m.lshift || m.rshift then ShiftKey(e.code) else DefaultKey(e.code)]
  }

  // That is what the shell echoes: nothing, one character or a bracketed name.
  lemma ShellEcho(m: Mods, e: Event)
    ensures var out := Printed(ShellCalls(KeyEventOf(m, e)));
      && out == KeyText(m, e)
      && (out == [] <==> !e.down || !Mapped(e.code))
      && (|out| == 1 <==>
        && e.down && Mapped(e.code)
        && !(e.extended || m.lctrl || m.rctrl || m.lalt || m.ralt || m.mod))
      && (|out| > 1 ==> Bracketed(out))
  {
    hide Format, HexText;
    var k := KeyEventOf(m, e);
    NamedPlain(k.code);
    NamedFormats(k.code);
    CharPlain(k.utf8);
    OneCall(Named(k.code));
    OneCall(CharCall(k.utf8));
  }

  // The byte of the event's debugging line.
  lemma DebugByte(m: Mods, e: Event)
    ensures KeyEventOf(m, e).utf8 ==
      if !Mapped(e.code) then 0
      else if m.lctrl || m.rctrl || m.lalt || m.ralt || m.mod then DefaultKey(e.code)
      else if e.extended then 0
      else if m.lshift || m.rshift then ShiftKey(e.code)
      else DefaultKey(e.code)
  {}

  // The names: of six keys in words, of all others by the scancode in hex.
  lemma NamesAre(code: byte)
    ensures code == 0x75 ==> NameText(code) == Ascii("<UP>")
    ensures code == 0x72 ==> NameText(code) == Ascii("<DOWN>")
    ensures code == 0x6B ==> NameText(code) == Ascii("<LEFT>")
    ensures code == 0x74 ==> NameText(code) == Ascii("<RIGHT>")
    ensures code == 0x7D ==> NameText(code) == Ascii("<PG UP>")
    ensures code == 0x7A ==> NameText(code) == Ascii("<PG DOWN>")
    ensures code != 0x75 && code != 0x72 && code != 0x6B && code != 0x74 && code != 0x7D && code != 0x7A ==>
      NameText(code) == Ascii("<0x") + (HexText(code) + Ascii(">"))
  {
    hide Ascii, HexText;
  }

  // ----- whole runs

  // What handling the events of a run from the n-th on prints on the screen.
  function EchoFrom(es: seq<Event>, n: nat): seq<byte> {
    if |es| <= n then []
    else EchoFrom(es[..|es| - 1], n) + Printed(CallsOf(TrackAll(es), es[|es| - 1]))
  }

  // The text of the last event of a run, from the events alone: a mapped key
  // going down gives its shifted character exactly when a shift key was last
  // pressed, and its name behind an E0 prefix or while modified.
  ghost function LastText(es: seq<Event>): seq<byte>
    requires es != []
  {
    var e := es[|es| - 1];
    if !e.down || !Mapped(e.code) then []
    else if e.extended || Modified(es) then NameText(e.code)
    else if Shifted(es) then [ShiftKey(e.code)]
    else [DefaultKey(e.code)]
  }

  // The texts of these events.
  ghost function TypedFrom(es: seq<Event>, n: nat): seq<byte> {
    if |es| <= n then []
    else TypedFrom(es[..|es| - 1], n) + LastText(es)
  }

  lemma LastTextIs(es: seq<Event>)
    requires es != []
    ensures KeyText(TrackAll(es), es[|es| - 1]) == LastText(es)
  {
    CombinedFlags(es);
  }

  predicate Known(code: byte) {
    IsModifier(code) || IsFunctionKey(code) || Mapped(code)
  }

  // The handler itself prints something exactly about unknown keys.
  lemma QuietIfKnown(m: Mods, e: Event)
    ensures Complaints(e) == [] <==> Known(e.code)
    ensures Known(e.code) ==> CallsOf(m, e) == ShellCalls(KeyEventOf(m, e))
  {
    assert !Known(0);
  }

  function UnmappedText(code: byte): seq<byte> {
    Ascii("<Unmapped scancode ") + (HexText(code) + Ascii(">"))
  }

  // About the code zero, which no key has, it also prints this.
  function ZeroText(e: Event): seq<byte> {
    if e.extended then Ascii("<Unhandled E0 scancode ") + (HexText(0) + Ascii(">"))
    else if e.down then Ascii("0 scancode rx")
    else []
  }

  lemma ZeroComplaint(e: Event)
    ensures Printed(PrefixComplaint(e)) == if e.code == 0 then ZeroText(e) else []
  {
    hide Format, HexText, Ascii, Matches, FormatOf, ArgsOf;
    if e.extended && e.code == 0 {
      HexPlain("<Unhandled E0 scancode ", 0, ">");
      OneCall(HexCall("<Unhandled E0 scancode ", 0, ">"));
    } else if e.down && e.code == 0 {
      TextPlain("0 scancode rx");
      OneCall(TextCall("0 scancode rx"));
    }
  }

  lemma UnmappedComplaint(e: Event)
    requires !Known(e.code)
    ensures Printed(MapComplaint(e)) == UnmappedText(e.code)
  {
    hide Format, HexText, Ascii, Matches, FormatOf, ArgsOf;
    HexPlain("<Unmapped scancode ", e.code, ">");
    OneCall(HexCall("<Unmapped scancode ", e.code, ">"));
  }

  // What it prints about an unknown code.
  lemma ComplaintText(e: Event)
    requires !Known(e.code)
    ensures Printed(Complaints(e)) == (if e.code == 0 then ZeroText(e) else []) + UnmappedText(e.code)
  {
    hide Printed, PrefixComplaint, MapComplaint, ZeroText, UnmappedText;
    PrintedConcat(PrefixComplaint(e), MapComplaint(e));
    ZeroComplaint(e);
    UnmappedComplaint(e);
  }

  // When every key is known, all that appears are the texts of the events.
  lemma {:induction false} OnlyTheShell(es: seq<Event>, n: nat)
    requires forall i :: n <= i < |es| ==> Known(es[i].code)
    ensures EchoFrom(es, n) == TypedFrom(es, n)
  {
    if n < |es| {
      var m, e := TrackAll(es), es[|es| - 1];
      OnlyTheShell(es[..|es| - 1], n);
      QuietIfKnown(m, e);
      ShellEcho(m, e);
      LastTextIs(es);
    }
  }

  // From the bytes since initialisation to the text of n events.
  ghost function ScreenText(w: Line, n: nat): seq<byte> {
    TypedFrom(DecodeAll(w, 0, n).0, 0)
  }

  lemma TypedSnoc(es: seq<Event>, e: Event)
    ensures TypedFrom(es + [e], 0) == TypedFrom(es, 0) + LastText(es + [e])
  {
    assert (es + [e])[..|es|] == es;
  }

  lemma LastSnoc(es: seq<Event>, e: Event, keys: Keys)
    ensures LastDown(es + [e], keys) == if Picks(keys, e) then e.down else LastDown(es, keys)
  {
    assert (es + [e])[..|es|] == es;
  }

  lemma FlagsSnoc(es: seq<Event>, e: Event)
    ensures Shifted(es + [e]) <==>
      || (if e.code == LSHF then e.down else LastDown(es, Twins(LSHF)))
      || (if e.code == RSHF then e.down else LastDown(es, Twins(RSHF)))
    ensures Modified(es + [e]) <==>
      || (if e.code == LCTL then e.down else LastDown(es, Twins(LCTL)))
      || (if e.code == LCTL && e.extended then e.down else LastDown(es, One(true, LCTL)))
      || (if e.code == LALT then e.down else LastDown(es, Twins(LALT)))
      || (if e.code == LALT && e.extended then e.down else LastDown(es, One(true, LALT)))
      || (if e.code == MOD then e.down else LastDown(es, Twins(MOD)))
  {
    hide LastDown;
    LastSnoc(es, e, Twins(LSHF));
    LastSnoc(es, e, Twins(RSHF));
    LastSnoc(es, e, Twins(LCTL));
    LastSnoc(es, e, One(true, LCTL));
    LastSnoc(es, e, Twins(LALT));
    LastSnoc(es, e, One(true, LALT));
    LastSnoc(es, e, Twins(MOD));
  }

  // A first event, and one after it.
  lemma TypedOne(e: Event)
    ensures TypedFrom([e], 0) == LastText([e])
    ensures !IsModifier(e.code) ==> !Shifted([e]) && !Modified([e])
  {
    assert [] + [e] == [e];
    TypedSnoc([], e);
    FlagsSnoc([], e);
  }

  lemma TypedTwo(a: Event, e: Event)
    requires IsModifier(a.code) && !IsModifier(e.code)
    ensures TypedFrom([a, e], 0) == LastText([a, e])
    ensures Shifted([a, e]) <==> a.down && (a.code == LSHF || a.code == RSHF)
    ensures Modified([a, e]) <==> a.down && a.code != LSHF && a.code != RSHF
  {
    assert [] + [a] == [a] && [a] + [e] == [a, e];
    TypedSnoc([], a);
    TypedSnoc([a], e);
    FlagsSnoc([a], e);
    LastSnoc([], a, Twins(LSHF));
    LastSnoc([], a, Twins(RSHF));
    LastSnoc([], a, Twins(LCTL));
    LastSnoc([], a, One(true, LCTL));
    LastSnoc([], a, Twins(LALT));
    LastSnoc([], a, One(true, LALT));
    LastSnoc([], a, Twins(MOD));
  }

  // For every key in the map, from initialisation on: pressed, released, and
  // behind an E0 prefix.
  lemma Keystrokes(w: Line, c: byte)
    requires Mapped(c)
    ensures Carries(w, 0, [c]) ==> ScreenText(w, 1) == [DefaultKey(c)]
    ensures Carries(w, 0, [0xF0, c]) ==> ScreenText(w, 1) == []
    ensures Carries(w, 0, [0xE0, c]) ==> ScreenText(w, 1) == NameText(c)
  {
    hide NameText, DefaultKey, Shifted, Modified;
    NotAPrefix(c);
    var e := Decode(w, 0).0;
    assert Carries(w, 0, [c]) ==> w(0 + 0) == [c][0];
    assert Carries(w, 0, [0xF0, c]) ==> w(0 + 0) == [0xF0, c][0] && w(0 + 1) == [0xF0, c][1];
    assert Carries(w, 0, [0xE0, c]) ==> w(0 + 0) == [0xE0, c][0] && w(0 + 1) == [0xE0, c][1];
    assert DecodeAll(w, 0, 1).0 == [e];
    TypedOne(e);
  }

  lemma NotAPrefix(c: byte)
    requires Mapped(c)
    ensures c != 0xE0 && c != 0xF0
  {}

  // Behind either shift key, and behind control, alt or mod with or without E0.
  lemma ModifiedKeystrokes(w: Line, c: byte)
    requires Mapped(c)
    ensures Carries(w, 0, [0x12, c]) || Carries(w, 0, [0x59, c]) ==> ScreenText(w, 2) == [ShiftKey(c)]
    ensures Carries(w, 0, [0x14, c]) || Carries(w, 0, [0x11, c]) || Carries(w, 0, [0x1F, c]) ==>
      ScreenText(w, 2) == NameText(c)
    ensures Carries(w, 0, [0xE0, 0x14, c]) || Carries(w, 0, [0xE0, 0x11, c]) || Carries(w, 0, [0xE0, 0x1F, c]) ==>
      ScreenText(w, 2) == NameText(c)
  {
    hide NameText, DefaultKey, ShiftKey, Shifted, Modified;
    NotAPrefix(c);
    var (a, next) := Decode(w, 0);
    var e := Decode(w, next).0;
    assert forall b: byte :: Carries(w, 0, [b, c]) ==> w(0 + 0) == [b, c][0] && w(0 + 1) == [b, c][1];
    assert forall b: byte :: Carries(w, 0, [0xE0, b, c]) ==>
      w(0 + 0) == [0xE0, b, c][0] && w(0 + 1) == [0xE0, b, c][1] && w(0 + 2) == [0xE0, b, c][2];
    assert DecodeAll(w, 0, 0) == ([], 0);
    assert DecodeAll(w, 0, 1) == ([] + [a], next) && DecodeAll(w, 0, 2).0 == ([] + [a]) + [e];
    assert ([] + [a]) + [e] == [a, e];
    if IsModifier(a.code) && !IsModifier(e.code) {
      TypedTwo(a, e);
    }
  }
}
