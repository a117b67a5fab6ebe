// Calls of printf with a format spelled out in the kernel's source: literal
// texts and numeric conversions, one after the other.
module PrintCalls {
  import opened CInt
  import opened Numerals
  import opened CStrings
  import opened Formatting
  import opened Printing

  datatype Item = Lit(text: string) | Conv(c: byte, arg: Arg)

  datatype Call = Call(format: seq<byte>, args: seq<Arg>)

  predicate Good(item: Item) {
    match item
    case Lit(t) => forall k :: 0 <= k < |t| ==> t[k] != '%' && 0 < t[k] as int < 0x80
    case Conv(c, arg) => IsConversion(c) && arg.Num? && Accepts(c, arg)
  }

  predicate AllGood(items: seq<Item>) {
    forall k :: 0 <= k < |items| ==> Good(items[k])
  }

  function ItemFormat(item: Item): seq<byte> {
    match item
    case Lit(t) => Ascii(t)
    case Conv(c, _) => [PERCENT, c]
  }

  function ItemArgs(item: Item): seq<Arg> {
    match item
    case Lit(_) => []
    case Conv(_, arg) => [arg]
  }

  function ItemText(item: Item): seq<byte>
    requires Good(item)
  {
    match item
    case Lit(t) => Ascii(t)
    case Conv(c, arg) => Converted(c, arg)
  }

  function FormatOf(items: seq<Item>): seq<byte> {
    if items == [] then [] else ItemFormat(items[0]) + FormatOf(items[1..])
  }

  function ArgsOf(items: seq<Item>): seq<Arg> {
    if items == [] then [] else ItemArgs(items[0]) + ArgsOf(items[1..])
  }

  function TextOf(items: seq<Item>): seq<byte>
    requires AllGood(items)
  {
    if items == [] then [] else ItemText(items[0]) + TextOf(items[1..])
  }

  function CallOf(items: seq<Item>): Call {
    Call(FormatOf(items), ArgsOf(items))
  }

  // The arguments match, and the text is short.
  ghost predicate Plain(c: Call) {
    && 0 !in c.format && |c.format| <= 1000
    && Matches(c.format, c.args)
    && (forall k :: 0 <= k < |c.args| ==> c.args[k].Num?)
  }

  predicate Unformatted(s: seq<byte>) {
    forall k :: 0 <= k < |s| ==> s[k] != PERCENT
  }

  // A text without '%' in front prints itself.
  lemma {:induction false} FormatAfterText(before: seq<byte>, f: seq<byte>, args: seq<Arg>)
    requires Unformatted(before)
    ensures Format(before + f, args) == before + Format(f, args)
    ensures Matches(before + f, args) <==> Matches(f, args)
  {
    hide Format, Matches;
    if before == [] {
      assert before + f == f && before + Format(f, args) == Format(f, args);
    } else {
      var c, t := before[0], before[1..];
      FormatAfterText(t, f, args);
      assert before + f == [c] + (t + f) && before == [c] + t;
      FormatAfterPlain(c, t + f, args);
      Assoc([c], t, Format(f, args));
    }
  }

  lemma FormatItem(item: Item, f: seq<byte>, args: seq<Arg>)
    requires Good(item)
    ensures Format(ItemFormat(item) + f, ItemArgs(item) + args) == ItemText(item) + Format(f, args)
    ensures Matches(ItemFormat(item) + f, ItemArgs(item) + args) <==> Matches(f, args)
    ensures 0 !in ItemFormat(item)
  {
    match item
    case Lit(t) =>
      assert [] + args == args;
      FormatAfterText(Ascii(t), f, args);
    case Conv(c, arg) =>
      FormatAfterConversion(c, f, arg, args);
  }

  // What such a call prints.
  lemma {:induction false} FormatItems(items: seq<Item>)
    requires AllGood(items)
    ensures Format(FormatOf(items), ArgsOf(items)) == TextOf(items)
    ensures Matches(FormatOf(items), ArgsOf(items))
    ensures 0 !in FormatOf(items)
    ensures forall k :: 0 <= k < |ArgsOf(items)| ==> ArgsOf(items)[k].Num?
  {
    if items != [] {
      FormatItems(items[1..]);
      FormatItem(items[0], FormatOf(items[1..]), ArgsOf(items[1..]));
    }
  }

  lemma {:induction false} FormatOfLength(items: seq<Item>)
    requires forall k :: 0 <= k < |items| ==> items[k].Lit? ==> |items[k].text| <= 40
    ensures |FormatOf(items)| <= 40 * |items|
  {
    if items != [] {
      FormatOfLength(items[1..]);
    }
  }

  // One item in front of others.
  lemma ItemsStep(item: Item, rest: seq<Item>)
    requires Good(item) && AllGood(rest)
    ensures AllGood([item] + rest)
    ensures FormatOf([item] + rest) == ItemFormat(item) + FormatOf(rest)
    ensures TextOf([item] + rest) == ItemText(item) + TextOf(rest)
  {
    assert ([item] + rest)[1..] == rest;
  }

  // ----- the items as one format string

  lemma AsciiConcat(a: string, b: string)
    ensures Ascii(a + b) == Ascii(a) + Ascii(b)
  {}

  // A literal and a conversion in front of the items whose format is f.
  lemma ItemsFormat(text: string, conv: string, c: byte, arg: Arg, f: string, items: seq<Item>)
    requires Ascii(conv) == [PERCENT, c] && FormatOf(items) == Ascii(f)
    ensures FormatOf([Lit(text), Conv(c, arg)] + items) == Ascii(text + (conv + f))
    ensures ArgsOf([Lit(text), Conv(c, arg)] + items) == [arg] + ArgsOf(items)
  {
    var all := [Lit(text), Conv(c, arg)] + items;
    assert all[1..][1..] == items && all[1..][0] == Conv(c, arg);
    AsciiConcat(conv, f);
    AsciiConcat(text, conv + f);
    assert [] + ([arg] + ArgsOf(items)) == [arg] + ArgsOf(items);
  }

  lemma LastItem(text: string)
    ensures FormatOf([Lit(text)]) == Ascii(text) && ArgsOf([Lit(text)]) == []
  {
    assert Ascii(text) + [] == Ascii(text);
  }

  lemma LetterFormats()
    ensures Ascii("%d") == [PERCENT, 'd' as int] && Ascii("%x") == [PERCENT, 'x' as int]
  {}

  lemma ItemsPlain(items: seq<Item>)
    requires |items| <= 25 && AllGood(items)
    requires forall k :: 0 <= k < |items| ==> items[k].Lit? ==> |items[k].text| <= 40
    ensures Plain(CallOf(items)) && Format(CallOf(items).format, CallOf(items).args) == TextOf(items)
  {
    FormatItems(items);
    FormatOfLength(items);
  }

  // No conversion of a number takes more than eleven characters.
  lemma {:induction false} FormatLength(f: seq<byte>, args: seq<Arg>)
    requires forall k :: 0 <= k < |args| ==> args[k].Num?
    ensures |Format(f, args)| <= 11 * |f|
    decreases |f|
  {
    if f == [] || |f| == 1 {
    } else if f[0] != PERCENT {
      FormatLength(f[1..], args);
    } else if f[1] == PERCENT {
      FormatLength(f[2..], args);
    } else if IsConversion(f[1]) && args != [] && Accepts(f[1], args[0]) {
      FormatLength(f[2..], args[1..]);
      ConvertedLength(f[1], args[0].i);
    }
  }

  lemma ConvertedLength(c: byte, i: int32)
    requires IsConversion(c) && c != 's' as int
    ensures |Converted(c, Num(i))| <= 11
  {
    DecimalLength(i);
    HexTextFits(i);
  }

  // ----- what a sequence of calls leaves behind

  function CallTrace(c: Call): seq<byte> {
    Run(ToScreen, Pieces(c.format, c.args), 0).trace
  }

  function Printed(calls: seq<Call>): seq<byte> {
    if calls == [] then []
    else Printed(calls[..|calls| - 1]) + Format(calls[|calls| - 1].format, calls[|calls| - 1].args)
  }

  function TraceOf(calls: seq<Call>): seq<byte> {
    if calls == [] then [] else TraceOf(calls[..|calls| - 1]) + CallTrace(calls[|calls| - 1])
  }

  lemma {:induction false} PrintedConcat(a: seq<Call>, b: seq<Call>)
    ensures Printed(a + b) == Printed(a) + Printed(b)
  {
    if b == [] {
      assert a + b == a;
    } else {
      var c := b[|b| - 1];
      PrintedConcat(a, b[..|b| - 1]);
      assert (a + b)[..|a + b| - 1] == a + b[..|b| - 1];
      Assoc(Printed(a), Printed(b[..|b| - 1]), Format(c.format, c.args));
    }
  }

  lemma {:induction false} TraceOfConcat(a: seq<Call>, b: seq<Call>)
    ensures TraceOf(a + b) == TraceOf(a) + TraceOf(b)
  {
    if b == [] {
      assert a + b == a;
    } else {
      TraceOfConcat(a, b[..|b| - 1]);
      assert (a + b)[..|a + b| - 1] == a + b[..|b| - 1];
      Assoc(TraceOf(a), TraceOf(b[..|b| - 1]), CallTrace(b[|b| - 1]));
    }
  }

  lemma OneCall(c: Call)
    ensures Printed([c]) == Format(c.format, c.args) && TraceOf([c]) == CallTrace(c)
  {
    assert [c][..0] == [];
    assert Printed([]) + Format(c.format, c.args) == Format(c.format, c.args);
  }

  // One such call, with its format as the compiler lays it out in memory.
  method Say(console: Console, c: Call)
    requires console.Valid() && Plain(c)
    modifies console.terminal, console.terminal.buffer, console.serial, console.itoa.buf
    ensures console.Valid() && console.Attr() == old(console.Attr())
    ensures console.Written() == Extend(old(console.Written()), ToScreen, console.Attr(),
      Format(c.format, c.args), CallTrace(c))
  {
    var format := new byte[|c.format| + 1](
      i requires 0 <= i <= |c.format| => if i < |c.format| then c.format[i] else 0);
    TextIs(format[..], 0, c.format);
    FormatLength(c.format, c.args);
    PrintfFormats(c.format, c.args);
    var _ := console.Printf(ToScreen, format, 0, c.args);
  }

  method SayOne(console: Console, c: Call)
    requires console.Valid() && Plain(c)
    modifies console.terminal, console.terminal.buffer, console.serial, console.itoa.buf
    ensures console.Valid() && console.Attr() == old(console.Attr())
    ensures console.Written() == Extend(old(console.Written()), ToScreen, console.Attr(), Printed([c]), TraceOf([c]))
  {
    OneCall(c);
    Say(console, c);
  }
}
