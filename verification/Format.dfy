// What printf and serial_printf print and return, without memory or devices:
// a character-by-character reading of the format (Format), the pieces the
// scanner cuts it into (Pieces), and the count and overflow rule (Run).
module Formatting {
  import opened CInt
  import opened Numerals
  import opened CStrings

  const PERCENT: byte := 37

  // A string argument is what stands before its NUL.
  type CText = s: seq<byte> | 0 !in s

  datatype Arg = Num(i: int32) | Str(s: CText)

  predicate IsConversion(c: byte) {
    c == 'c' as int || c == 's' as int || c == 'd' as int || c == 'x' as int
  }

  predicate Accepts(c: byte, arg: Arg)
    requires IsConversion(c)
  {
    if c == 's' as int then arg.Str? else arg.Num?
  }

  function Converted(c: byte, arg: Arg): seq<byte>
    requires IsConversion(c) && Accepts(c, arg)
  {
    if c == 's' as int then arg.s
    else if c == 'c' as int then [arg.i % 0x100]
    else if c == 'd' as int then Decimal(arg.i)
    else HexText(arg.i)
  }

  // ----- the meaning of a format, one character at a time

  // A lone '%' at the end, or one before anything but %, c, s, d and x, stands
  // for itself together with all that follows it.  An argument that is missing
  // or of the wrong type has no meaning.
  function Format(f: seq<byte>, args: seq<Arg>): seq<byte> {
    if f == [] then []
    else if f[0] != PERCENT then [f[0]] + Format(f[1..], args)
    else if |f| == 1 then f
    else if f[1] == PERCENT then [PERCENT] + Format(f[2..], args)
    else if !IsConversion(f[1]) then f
    else if args == [] || !Accepts(f[1], args[0]) then []
    else Converted(f[1], args[0]) + Format(f[2..], args[1..])
  }

  // The arguments suit the format; there may be more than it uses.
  ghost predicate Matches(f: seq<byte>, args: seq<Arg>) {
    if f == [] then true
    else if f[0] != PERCENT then Matches(f[1..], args)
    else if |f| == 1 then true
    else if f[1] == PERCENT then Matches(f[2..], args)
    else if !IsConversion(f[1]) then true
    else args != [] && Accepts(f[1], args[0]) && Matches(f[2..], args[1..])
  }

  // The arguments suit it, and the format uses neither %d nor %x.
  ghost predicate OnlyChecked(f: seq<byte>, args: seq<Arg>) {
    if f == [] then true
    else if f[0] != PERCENT then OnlyChecked(f[1..], args)
    else if |f| == 1 then true
    else if f[1] == PERCENT then OnlyChecked(f[2..], args)
    else if !IsConversion(f[1]) then true
    else
      && args != [] && Accepts(f[1], args[0]) && f[1] != 'd' as int && f[1] != 'x' as int
      && OnlyChecked(f[2..], args[1..])
  }

  // %c and %s compare their length with what is left of INT_MAX.
  predicate ChecksRoom(c: byte) {
    c == 'c' as int || c == 's' as int
  }

  // ----- and by what its texts denote

  // t shows the argument the way the letter c asks for: by value.
  ghost predicate Shows(c: byte, arg: Arg, t: seq<byte>) {
    match arg
    case Str(s) => c == 's' as int && t == s
    case Num(i) =>
      || (c == 'c' as int && |t| == 1 && (t[0] - i) % 0x100 == 0)
      || (c == 'd' as int && CanonicalInt(t) && ParseInt(t) == i)
      || (c == 'x' as int && ShowsHex(t, i))
  }

  ghost predicate Converts(c: byte) {
    exists arg: Arg, t: seq<byte> :: Shows(c, arg, t)
  }

  // t is a text of the format: plain characters and escapes stand for
  // themselves, conversions show their arguments, and what starts with a '%' of
  // any other kind stands as it is.
  ghost predicate Renders(f: seq<byte>, args: seq<Arg>, t: seq<byte>) {
    if f == [] then t == []
    else if f[0] != PERCENT then t != [] && t[0] == f[0] && Renders(f[1..], args, t[1..])
    else if |f| == 1 then t == f
    else if f[1] == PERCENT then t != [] && t[0] == PERCENT && Renders(f[2..], args, t[1..])
    else if !Converts(f[1]) then t == f
    else
      && args != []
      && exists k: nat :: k <= |t| && Shows(f[1], args[0], t[..k]) && Renders(f[2..], args[1..], t[k..])
  }

  lemma ShowsConverted(c: byte, arg: Arg, t: seq<byte>)
    ensures Shows(c, arg, t) <==> IsConversion(c) && Accepts(c, arg) && t == Converted(c, arg)
  {
    hide CanonicalInt, ParseInt, Decimal, ShowsHex, HexText;
    if arg.Num? {
      DecimalIs(arg.i, t);
      HexIs(arg.i, t);
      LowByteIs(arg.i, t);
    }
  }

  lemma DecimalIs(i: int, t: seq<byte>)
    ensures CanonicalInt(t) && ParseInt(t) == i <==> t == Decimal(i)
  {
    hide CanonicalInt, ParseInt, Decimal;
    DecimalRoundTrip(i);
    if CanonicalInt(t) {
      DecimalUnique(t);
    }
  }

  lemma HexIs(i: int32, t: seq<byte>)
    ensures ShowsHex(t, i) <==> t == HexText(i)
  {
    hide ShowsHex, HexText;
    HexShown(i);
    if ShowsHex(t, i) {
      HexUnique(t, i);
    }
  }

  lemma LowByteIs(i: int, t: seq<byte>)
    ensures |t| == 1 && (t[0] - i) % 0x100 == 0 <==> t == [i % 0x100]
  {
    if |t| == 1 && (t[0] - i) % 0x100 == 0 {
      assert t[0] == i + 0x100 * ((t[0] - i) / 0x100);
      assert t[0] == i % 0x100;
    }
    if t == [i % 0x100] {
      assert t[0] - i == 0x100 * (0 - i / 0x100);
    }
  }

  lemma ConvertsIf(c: byte)
    ensures Converts(c) <==> IsConversion(c)
  {
    forall arg: Arg, t: seq<byte> | Shows(c, arg, t) ensures IsConversion(c) {
      ShowsConverted(c, arg, t);
    }
    if IsConversion(c) {
      var arg := if c == 's' as int then Str([]) else Num(0);
      ShowsConverted(c, arg, Converted(c, arg));
    }
  }

  // Format is the one text a format has, and it has one exactly when the
  // arguments match.
  lemma {:induction false} FormatRenders(f: seq<byte>, args: seq<Arg>, t: seq<byte>)
    ensures Renders(f, args, t) <==> Matches(f, args) && t == Format(f, args)
    decreases |f|
  {
    hide Shows, Converts, IsConversion, Accepts, Converted;
    if f == [] || (|f| == 1 && f[0] == PERCENT) {
    } else if f[0] != PERCENT || f[1] == PERCENT {
      if t != [] {
        FormatRenders(f[if f[0] != PERCENT then 1 else 2..], args, t[1..]);
        assert t == [t[0]] + t[1..];
      }
    } else {
      ConvertsIf(f[1]);
      if IsConversion(f[1]) && args != [] {
        ConversionRenders(f, args, t);
      }
    }
  }

  lemma {:induction false} ConversionRenders(f: seq<byte>, args: seq<Arg>, t: seq<byte>)
    requires |f| > 1 && f[0] == PERCENT && f[1] != PERCENT && Converts(f[1]) && IsConversion(f[1]) && args != []
    ensures Renders(f, args, t) <==> Matches(f, args) && t == Format(f, args)
    decreases |f|, 0
  {
    hide Shows, Converts, IsConversion, Accepts, Converted;
    var g, more := f[2..], args[1..];
    forall k: nat | k <= |t|
      ensures Shows(f[1], args[0], t[..k]) && Renders(g, more, t[k..]) <==>
        Accepts(f[1], args[0]) && Matches(g, more) && t[..k] == Converted(f[1], args[0]) && t[k..] == Format(g, more)
    {
      ShowsConverted(f[1], args[0], t[..k]);
      FormatRenders(g, more, t[k..]);
      assert t == t[..k] + t[k..];
    }
    if Accepts(f[1], args[0]) && Matches(g, more) && t == Format(f, args) {
      var k := |Converted(f[1], args[0])|;
      assert t[..k] == Converted(f[1], args[0]) && t[k..] == Format(g, more);
    }
    forall k: nat | k <= |t| ensures t == t[..k] + t[k..] {}
  }

  // ----- the pieces the scanner prints one by one

  // text goes out in one call of print, checked says whether its length is
  // first compared with what is left of INT_MAX, and trace is what strrev
  // leaves on the serial line on the way.
  datatype Piece = Piece(text: seq<byte>, checked: bool, trace: seq<byte>) | Bad

  function PlainLength(h: seq<byte>): (n: nat)
    ensures n <= |h| && PERCENT !in h[..n] && (n < |h| ==> h[n] == PERCENT)
  {
    if h == [] || h[0] == PERCENT then 0 else 1 + PlainLength(h[1..])
  }

  // The length of the literal chunk at the start of g: its first character,
  // whatever it is, and then everything up to the next '%'.
  function Amount(g: seq<byte>): (n: nat)
    requires g != []
    ensures 1 <= n <= |g| && PERCENT !in g[1..n] && (n < |g| ==> g[n] == PERCENT)
  {
    1 + PlainLength(g[1..])
  }

  predicate StartsLiteral(f: seq<byte>)
    requires f != []
  {
    f[0] != PERCENT || (|f| > 1 && f[1] == PERCENT)
  }

  function Unescaped(f: seq<byte>): (g: seq<byte>)
    requires f != [] && StartsLiteral(f)
    ensures g != [] && |g| <= |f|
  {
    if f[0] == PERCENT then f[1..] else f
  }

  // strrev gets the digits of x backwards.
  function HexTrace(x: int): seq<byte> {
    ReverseTrace(Reverse(HexText(x)))
  }

  function ConversionPiece(c: byte, arg: Arg): Piece
    requires IsConversion(c) && Accepts(c, arg)
  {
    Piece(Converted(c, arg),
      ChecksRoom(c),
      if c == 'x' as int then HexTrace(arg.i) else [])
  }

  // What one round of the scanner's loop finds.
  datatype Found = Chunk(data: seq<byte>) | Conversion(c: byte, arg: Arg) | NoArgument

  function PieceOf(found: Found): Piece {
    match found
    case Chunk(data) => Piece(data, true, [])
    case Conversion(c, arg) => if IsConversion(c) && Accepts(c, arg) then ConversionPiece(c, arg) else Bad
    case NoArgument => Bad
  }

  function Finds(f: seq<byte>, args: seq<Arg>): seq<Found>
    decreases |f|
  {
    if f == [] then []
    else if StartsLiteral(f) then
      var g := Unescaped(f);
      [Chunk(g[..Amount(g)])] + Finds(g[Amount(g)..], args)
    else if |f| == 1 || !IsConversion(f[1]) then [Chunk(f)]
    else if args == [] || !Accepts(f[1], args[0]) then [NoArgument]
    else [Conversion(f[1], args[0])] + Finds(f[2..], args[1..])
  }

  function PiecesOf(fs: seq<Found>): seq<Piece> {
    if fs == [] then [] else [PieceOf(fs[0])] + PiecesOf(fs[1..])
  }

  function Pieces(f: seq<byte>, args: seq<Arg>): seq<Piece> {
    PiecesOf(Finds(f, args))
  }

  lemma PiecesStep(found: Found, rest: seq<Found>)
    ensures PiecesOf([found] + rest) == [PieceOf(found)] + PiecesOf(rest)
  {
    assert ([found] + rest)[1..] == rest;
  }

  // Piece by piece.
  lemma PiecesUnfold(f: seq<byte>, args: seq<Arg>)
    requires f != []
    ensures Pieces(f, args) ==
      if StartsLiteral(f) then
        var g := Unescaped(f);
        [Piece(g[..Amount(g)], true, [])] + Pieces(g[Amount(g)..], args)
      else if |f| == 1 || !IsConversion(f[1]) then [Piece(f, true, [])]
      else if args == [] || !Accepts(f[1], args[0]) then [Bad]
      else [ConversionPiece(f[1], args[0])] + Pieces(f[2..], args[1..])
  {
    var fs := Finds(f, args);
    assert fs == [fs[0]] + fs[1..];
    PiecesStep(fs[0], fs[1..]);
  }

  function PieceText(p: Piece): seq<byte> {
    if p.Bad? then [] else p.text
  }

  function Texts(ps: seq<Piece>): seq<byte> {
    if ps == [] then [] else PieceText(ps[0]) + Texts(ps[1..])
  }

  function Traces(ps: seq<Piece>): seq<byte> {
    if ps == [] then [] else (if ps[0].Bad? then [] else ps[0].trace) + Traces(ps[1..])
  }

  lemma TextsTake(ps: seq<Piece>, k: nat)
    requires 0 < k <= |ps|
    ensures Texts(ps[..k]) == PieceText(ps[0]) + Texts(ps[1..][..k - 1])
  {
    assert ps[..k][0] == ps[0] && ps[..k][1..] == ps[1..][..k - 1];
  }

  lemma FormatAfterPlain(c: byte, f: seq<byte>, args: seq<Arg>)
    requires c != PERCENT
    ensures Format([c] + f, args) == [c] + Format(f, args)
    ensures Matches([c] + f, args) <==> Matches(f, args)
    ensures OnlyChecked([c] + f, args) <==> OnlyChecked(f, args)
  {
    assert ([c] + f)[1..] == f;
  }

  lemma FormatAfterEscape(f: seq<byte>, args: seq<Arg>)
    ensures Format([PERCENT, PERCENT] + f, args) == [PERCENT] + Format(f, args)
    ensures Matches([PERCENT, PERCENT] + f, args) <==> Matches(f, args)
    ensures OnlyChecked([PERCENT, PERCENT] + f, args) <==> OnlyChecked(f, args)
  {
    assert ([PERCENT, PERCENT] + f)[2..] == f;
  }

  lemma {:induction false} FormatPlain(h: seq<byte>, args: seq<Arg>)
    ensures Format(h, args) == h[..PlainLength(h)] + Format(h[PlainLength(h)..], args)
    ensures Matches(h, args) <==> Matches(h[PlainLength(h)..], args)
    ensures OnlyChecked(h, args) <==> OnlyChecked(h[PlainLength(h)..], args)
  {
    hide Format, Matches, OnlyChecked;
    if h != [] && h[0] != PERCENT {
      var t := h[1..];
      var n := PlainLength(t);
      FormatPlain(t, args);
      assert h == [h[0]] + t && t[n..] == h[n + 1..] && h[..n + 1] == [h[0]] + t[..n];
      FormatAfterPlain(h[0], t, args);
      Assoc([h[0]], t[..n], Format(t[n..], args));
    } else {
      assert h[0..] == h;
    }
  }

  // A literal chunk prints itself, and the format goes on after it.
  lemma FormatChunk(f: seq<byte>, args: seq<Arg>)
    requires f != [] && StartsLiteral(f)
    ensures var g := Unescaped(f);
      && Format(f, args) == g[..Amount(g)] + Format(g[Amount(g)..], args)
      && (Matches(f, args) <==> Matches(g[Amount(g)..], args))
      && (OnlyChecked(f, args) <==> OnlyChecked(g[Amount(g)..], args))
  {
    if f[0] != PERCENT {
      FormatPlain(f, args);
    } else {
      FormatEscape(f, args);
    }
  }

  // Dropping the first of two '%' leaves a chunk that prints as it stands.
  lemma FormatEscape(f: seq<byte>, args: seq<Arg>)
    requires |f| > 1 && f[0] == PERCENT && f[1] == PERCENT
    ensures var g := f[1..];
      && Format(f, args) == g[..Amount(g)] + Format(g[Amount(g)..], args)
      && (Matches(f, args) <==> Matches(g[Amount(g)..], args))
      && (OnlyChecked(f, args) <==> OnlyChecked(g[Amount(g)..], args))
  {
    hide Format, Matches, OnlyChecked;
    var g, h := f[1..], f[2..];
    var n := PlainLength(h);
    FormatPlain(h, args);
    assert f == [PERCENT, PERCENT] + h;
    FormatAfterEscape(h, args);
    assert g[1..] == h;
    assert g[Amount(g)..] == h[n..];
    assert g[..Amount(g)] == [PERCENT] + h[..n];
    Assoc([PERCENT], h[..n], Format(h[n..], args));
  }

  // The pieces put together are the formatted text.
  lemma {:induction false} PiecesFormat(f: seq<byte>, args: seq<Arg>)
    ensures Texts(Pieces(f, args)) == Format(f, args)
    ensures Matches(f, args) <==> Bad !in Pieces(f, args)
    decreases |f|
  {
    if f != [] {
      var ps := Pieces(f, args);
      PiecesUnfold(f, args);
      assert ps == [ps[0]] + ps[1..];
      if StartsLiteral(f) {
        var g := Unescaped(f);
        FormatChunk(f, args);
        PiecesFormat(g[Amount(g)..], args);
        assert ps[1..] == Pieces(g[Amount(g)..], args);
      } else if |f| == 1 || !IsConversion(f[1]) {
        assert Texts([Piece(f, true, [])]) == f + Texts([]);
      } else if args == [] || !Accepts(f[1], args[0]) {
        assert Bad in ps;
      } else {
        PiecesFormat(f[2..], args[1..]);
        assert ps[1..] == Pieces(f[2..], args[1..]);
      }
    }
  }

  ghost predicate AllChecked(ps: seq<Piece>) {
    forall p :: p in ps ==> p.Piece? && p.checked
  }

  lemma {:induction false} PiecesChecked(f: seq<byte>, args: seq<Arg>)
    ensures OnlyChecked(f, args) <==> AllChecked(Pieces(f, args))
    decreases |f|
  {
    var ps := Pieces(f, args);
    if f != [] {
      PiecesUnfold(f, args);
      assert ps[0] in ps;
      assert ps == [ps[0]] + ps[1..];
      if StartsLiteral(f) {
        var g := Unescaped(f);
        FormatChunk(f, args);
        PiecesChecked(g[Amount(g)..], args);
      } else if |f| > 1 && IsConversion(f[1]) && args != [] && Accepts(f[1], args[0]) {
        PiecesChecked(f[2..], args[1..]);
      }
    }
  }

  // ----- counting and failing

  datatype Device = ToScreen | ToSerial

  // Undefined: C does not fix what happens (an argument is missing or of the
  // wrong type, or the count leaves the range of int).
  datatype Outcome = Returned(value: int) | Undefined

  datatype Effect = Effect(text: seq<byte>, trace: seq<byte>, outcome: Outcome)

  const EOF_BYTE: byte := 0xFF

  // print to the serial port stops behind the first byte that, as a signed
  // char, equals EOF.
  function UpToEof(s: seq<byte>): seq<byte> {
    if s == [] then [] else if s[0] == EOF_BYTE then [s[0]] else [s[0]] + UpToEof(s[1..])
  }

  predicate Fails(dev: Device, s: seq<byte>) {
    dev == ToSerial && EOF_BYTE in s
  }

  function Sent(dev: Device, s: seq<byte>): seq<byte> {
    if dev == ToSerial then UpToEof(s) else s
  }

  // How one piece leaves the call: it goes on with a new count, or ends.
  datatype Progress = GoOn(written: int) | Stop(outcome: Outcome)

  datatype Step = Step(text: seq<byte>, trace: seq<byte>, progress: Progress)

  function PrintPiece(dev: Device, p: Piece, written: int): Step {
    if p.Bad? then Step([], [], Stop(Undefined))
    else if p.checked && INT_MAX - written < |p.text| then Step([], [], Stop(Returned(-1)))
    else
      Step(Sent(dev, p.text), p.trace,
        if Fails(dev, p.text) then Stop(Returned(-1))
        else if INT_MAX - written < |p.text| then Stop(Undefined)
        else GoOn(written + |p.text|))
  }

  // What happens from a point where written bytes have been counted and ps is
  // still to be printed.
  function Run(dev: Device, ps: seq<Piece>, written: int): Effect
    decreases |ps|, 0
  {
    if ps == [] then Effect([], [], Returned(written))
    else Then(PrintPiece(dev, ps[0], written), dev, ps[1..])
  }

  function Then(s: Step, dev: Device, ps: seq<Piece>): Effect
    decreases |ps|, 1
  {
    match s.progress
    case Stop(outcome) => Effect(s.text, s.trace, outcome)
    case GoOn(written) =>
      var e := Run(dev, ps, written);
      Effect(s.text + e.text, s.trace + e.trace, e.outcome)
  }

  // If everything fits, everything is printed and counted.
  lemma {:induction false} RunFits(ps: seq<Piece>, written: nat)
    requires Bad !in ps && written + |Texts(ps)| <= INT_MAX
    ensures Run(ToScreen, ps, written) == Effect(Texts(ps), Traces(ps), Returned(written + |Texts(ps)|))
  {
    if ps != [] {
      RunFits(ps[1..], written + |ps[0].text|);
    }
  }

  // Piece k is the first at which the run cannot just go on.
  ghost predicate StopsAt(ps: seq<Piece>, written: nat, k: nat) {
    && k < |ps|
    && (forall i :: 0 <= i < k ==> ps[i].Piece?)
    && written + |Texts(ps[..k])| <= INT_MAX
    && (ps[k].Bad? || written + |Texts(ps[..k])| + |ps[k].text| > INT_MAX)
  }

  // A run that stops early has printed the pieces before, whole, and then
  // either returns -1 or, if the piece is not checked, has no meaning.
  lemma {:induction false} RunStops(ps: seq<Piece>, written: nat, k: nat)
    requires StopsAt(ps, written, k)
    ensures var e := Run(ToScreen, ps, written);
      && e.outcome == (if ps[k].Bad? || !ps[k].checked then Undefined else Returned(-1))
      && e.text == Texts(ps[..k]) + (if ps[k].Bad? || ps[k].checked then [] else ps[k].text)
  {
    if k == 0 {
      assert Texts(ps[..0]) == [];
    } else {
      var rest, last := ps[1..], if ps[k].Bad? || ps[k].checked then [] else ps[k].text;
      TextsTake(ps, k);
      assert StopsAt(rest, written + |ps[0].text|, k - 1);
      RunStops(rest, written + |ps[0].text|, k - 1);
      Assoc(ps[0].text, Texts(rest[..k - 1]), last);
    }
  }

  lemma {:induction false} StopsOrFits(ps: seq<Piece>, written: nat) returns (k: nat)
    requires written <= INT_MAX
    ensures if Bad !in ps && written + |Texts(ps)| <= INT_MAX then k == |ps| else StopsAt(ps, written, k)
  {
    if ps == [] {
      k := 0;
    } else if ps[0].Bad? || written + |ps[0].text| > INT_MAX {
      k := 0;
      assert Texts(ps[..0]) == [];
    } else {
      k := StopsOrFits(ps[1..], written + |ps[0].text|);
      k := k + 1;
      if k < |ps| {
        TextsTake(ps, k);
      }
    }
  }

  // ----- the theorems

  // Arguments that match and a text that fits: printf prints exactly the
  // formatted text and returns its length.
  lemma PrintfFormats(f: seq<byte>, args: seq<Arg>)
    requires Matches(f, args) && |Format(f, args)| <= INT_MAX
    ensures var e := Run(ToScreen, Pieces(f, args), 0);
      e.text == Format(f, args) && e.outcome == Returned(|Format(f, args)|)
    ensures Renders(f, args, Format(f, args))
  {
    hide Renders;
    FormatRenders(f, args, Format(f, args));
    PiecesFormat(f, args);
    RunFits(Pieces(f, args), 0);
  }

  // Without %d and %x every call has a meaning; it returns -1 exactly when the
  // text is longer than INT_MAX, having printed the largest number of whole
  // pieces that fit.
  lemma PrintfOverflows(f: seq<byte>, args: seq<Arg>) returns (k: nat)
    requires OnlyChecked(f, args)
    ensures var e := Run(ToScreen, Pieces(f, args), 0);
      && e.outcome == Returned(if |Format(f, args)| <= INT_MAX then |Format(f, args)| else -1)
      && k <= |Pieces(f, args)| && e.text == Texts(Pieces(f, args)[..k])
      && |e.text| <= INT_MAX && e.text <= Format(f, args)
      && (k < |Pieces(f, args)| ==> |Texts(Pieces(f, args)[..k + 1])| > INT_MAX)
  {
    var ps := Pieces(f, args);
    PiecesFormat(f, args);
    PiecesChecked(f, args);
    k := StopsOrFits(ps, 0);
    if k < |ps| {
      RunStops(ps, 0, k);
      TextsPrefix(ps, k);
      assert Texts(ps[..k]) <= Texts(ps);
    } else {
      RunFits(ps, 0);
      assert ps[..k] == ps;
    }
  }

  lemma TextsPrefix(ps: seq<Piece>, k: nat)
    requires k < |ps| && ps[k].Piece?
    ensures Texts(ps[..k + 1]) == Texts(ps[..k]) + ps[k].text
    ensures Texts(ps) == Texts(ps[..k + 1]) + Texts(ps[k + 1..])
  {
    SplitTexts(ps, k + 1);
    SplitTexts(ps[..k + 1], k);
    assert ps[..k + 1][..k] == ps[..k] && ps[..k + 1][k..] == [ps[k]];
    assert [ps[k]][1..] == [];
  }

  lemma {:induction false} SplitTexts(ps: seq<Piece>, k: nat)
    requires k <= |ps|
    ensures Texts(ps) == Texts(ps[..k]) + Texts(ps[k..])
    decreases k
  {
    if k == 0 {
      assert ps[..0] == [] && ps[0..] == ps;
    } else {
      SplitTexts(ps[1..], k - 1);
      TextsTake(ps, k);
      assert ps[1..][k - 1..] == ps[k..];
      Assoc(PieceText(ps[0]), Texts(ps[1..][..k - 1]), Texts(ps[k..]));
    }
  }

  // A call has no meaning exactly when, before a checked piece fails, an
  // argument is unsuitable or a %d or %x takes the count past INT_MAX.
  lemma PrintfUndefined(f: seq<byte>, args: seq<Arg>)
    ensures Run(ToScreen, Pieces(f, args), 0).outcome == Undefined <==>
      exists k: nat :: StopsAt(Pieces(f, args), 0, k) && (Pieces(f, args)[k].Bad? || !Pieces(f, args)[k].checked)
  {
    var ps := Pieces(f, args);
    var k := StopsOrFits(ps, 0);
    if k == |ps| {
      RunFits(ps, 0);
    }
    forall k: nat | StopsAt(ps, 0, k)
      ensures Run(ToScreen, ps, 0).outcome == if ps[k].Bad? || !ps[k].checked then Undefined else Returned(-1)
    {
      RunStops(ps, 0, k);
    }
  }

  // ----- serial_printf against printf

  lemma {:induction false} UpToEofPlain(s: seq<byte>)
    ensures EOF_BYTE !in s ==> UpToEof(s) == s
  {
    if s != [] {
      UpToEofPlain(s[1..]);
    }
  }

  // Everything, or everything up to and with the first 0xFF.
  lemma {:induction false} UpToEofIs(s: seq<byte>)
    ensures UpToEof(s) <= s
    ensures if 0xFF in s then UpToEof(s) != [] && 0xFF !in UpToEof(s)[..|UpToEof(s)| - 1]
        && UpToEof(s)[|UpToEof(s)| - 1] == 0xFF
      else UpToEof(s) == s
  {
    if s != [] && s[0] != EOF_BYTE {
      UpToEofIs(s[1..]);
    }
  }

  lemma UpToEofCons(c: byte, s: seq<byte>)
    ensures UpToEof([c] + s) == if c == EOF_BYTE then [c] else [c] + UpToEof(s)
  {
    assert ([c] + s)[1..] == s;
  }

  lemma {:induction false} UpToEofConcat(a: seq<byte>, b: seq<byte>)
    ensures UpToEof(a + b) == if EOF_BYTE in a then UpToEof(a) else a + UpToEof(b)
  {
    hide UpToEof;
    if a == [] {
      assert a + b == b;
    } else {
      var t := a[1..];
      UpToEofConcat(t, b);
      assert a == [a[0]] + t && a + b == [a[0]] + (t + b);
      UpToEofCons(a[0], t);
      UpToEofCons(a[0], t + b);
      Assoc([a[0]], t, UpToEof(b));
    }
  }

  // On all inputs: serial_printf's text is printf's, cut behind the first
  // 0xFF; it returns -1 if there is one and otherwise what printf returns.
  lemma {:induction false} WireAgainstScreen(ps: seq<Piece>, written: int)
    ensures var s, w := Run(ToScreen, ps, written), Run(ToSerial, ps, written);
      && w.text == UpToEof(s.text)
      && w.outcome == (if EOF_BYTE in s.text then Returned(-1) else s.outcome)
      && w.trace <= s.trace
      && (EOF_BYTE !in s.text ==> w == s)
  {
    if ps != [] && ps[0].Piece? {
      var p := ps[0];
      UpToEofPlain(p.text);
      if !(INT_MAX - written < |p.text|) {
        WireAgainstScreen(ps[1..], written + |p.text|);
        UpToEofConcat(p.text, Run(ToScreen, ps[1..], written + |p.text|).text);
      }
    }
  }

  // ----- escaping

  function Doubled(s: seq<byte>): seq<byte> {
    if s == [] then []
    else (if s[0] == PERCENT then [PERCENT, PERCENT] else [s[0]]) + Doubled(s[1..])
  }

  lemma {:induction false} DoubledFormats(s: seq<byte>, args: seq<Arg>)
    ensures Format(Doubled(s), args) == s
    ensures OnlyChecked(Doubled(s), args)
  {
    if s != [] {
      DoubledFormats(s[1..], args);
      var f := Doubled(s);
      assert f[if s[0] == PERCENT then 2 else 1..] == Doubled(s[1..]);
    }
  }

  // printf of a string with each '%' doubled prints that string and returns
  // its length, if an int can hold it.
  lemma EscapeRoundTrip(s: seq<byte>, args: seq<Arg>)
    ensures var e := Run(ToScreen, Pieces(Doubled(s), args), 0);
      if |s| <= INT_MAX then e.text == s && e.outcome == Returned(|s|)
      else e.text < s && e.outcome == Returned(-1)
  {
    DoubledFormats(s, args);
    var k := PrintfOverflows(Doubled(s), args);
    if |s| <= INT_MAX {
      OnlyCheckedMatches(Doubled(s), args);
      PrintfFormats(Doubled(s), args);
    }
  }

  lemma {:induction false} OnlyCheckedMatches(f: seq<byte>, args: seq<Arg>)
    ensures OnlyChecked(f, args) ==> Matches(f, args)
    decreases |f|
  {
    if f == [] || |f| == 1 {
    } else if f[0] != PERCENT {
      OnlyCheckedMatches(f[1..], args);
    } else if f[1] == PERCENT {
      OnlyCheckedMatches(f[2..], args);
    } else if args != [] {
      OnlyCheckedMatches(f[2..], args[1..]);
    }
  }

  // ----- unknown conversions

  // Every '%' of f starts an escape or a conversion with a suitable argument.
  ghost predicate Complete(f: seq<byte>, args: seq<Arg>) {
    if f == [] then true
    else if f[0] != PERCENT then Complete(f[1..], args)
    else if |f| == 1 then false
    else if f[1] == PERCENT then Complete(f[2..], args)
    else IsConversion(f[1]) && args != [] && Accepts(f[1], args[0]) && Complete(f[2..], args[1..])
  }

  // A '%' at the end, or before anything but %, c, s, d and x.
  ghost predicate StartsVerbatim(f: seq<byte>) {
    f != [] && f[0] == PERCENT && (|f| > 1 ==> f[1] != PERCENT && !IsConversion(f[1]))
  }

  lemma FormatAfterConversion(c: byte, f: seq<byte>, arg: Arg, args: seq<Arg>)
    requires IsConversion(c) && Accepts(c, arg)
    ensures Format([PERCENT, c] + f, [arg] + args) == Converted(c, arg) + Format(f, args)
    ensures Matches([PERCENT, c] + f, [arg] + args) <==> Matches(f, args)
  {
    assert ([PERCENT, c] + f)[2..] == f && ([arg] + args)[1..] == args;
  }

  lemma FormatNothing(f: seq<byte>, args: seq<Arg>)
    requires f == [] || StartsVerbatim(f)
    ensures Format(f, args) == f && Matches(f, args)
  {}

  lemma {:induction false} FormatVerbatim(f: seq<byte>, rest: seq<byte>, args: seq<Arg>)
    requires Complete(f, args) && StartsVerbatim(rest)
    ensures Format(f + rest, args) == Format(f, args) + rest && Matches(f + rest, args)
    decreases |f|
  {
    hide Format, Matches, IsConversion, Accepts, Converted;
    if f == [] {
      assert f + rest == rest;
      FormatNothing(f, args);
      FormatNothing(rest, args);
    } else if f[0] != PERCENT {
      var g := f[1..];
      FormatVerbatim(g, rest, args);
      assert f == [f[0]] + g && f + rest == [f[0]] + (g + rest);
      FormatAfterPlain(f[0], g, args);
      FormatAfterPlain(f[0], g + rest, args);
      Assoc([f[0]], Format(g, args), rest);
    } else if f[1] == PERCENT {
      var g := f[2..];
      FormatVerbatim(g, rest, args);
      assert f == [PERCENT, PERCENT] + g && f + rest == [PERCENT, PERCENT] + (g + rest);
      FormatAfterEscape(g, args);
      FormatAfterEscape(g + rest, args);
      Assoc([PERCENT], Format(g, args), rest);
    } else {
      var g, arg, more := f[2..], args[0], args[1..];
      FormatVerbatim(g, rest, more);
      assert f == [PERCENT, f[1]] + g && f + rest == [PERCENT, f[1]] + (g + rest) && args == [arg] + more;
      FormatAfterConversion(f[1], g, arg, more);
      FormatAfterConversion(f[1], g + rest, arg, more);
      Assoc(Converted(f[1], arg), Format(g, more), rest);
    }
  }

  // printf reads a format up to its first unknown conversion and prints the
  // rest as it stands, later conversions included, and counts it.
  lemma UnknownConversion(f: seq<byte>, rest: seq<byte>, args: seq<Arg>)
    requires Complete(f, args) && StartsVerbatim(rest) && |Format(f, args)| + |rest| <= INT_MAX
    ensures var e := Run(ToScreen, Pieces(f + rest, args), 0);
      e.text == Format(f, args) + rest && e.outcome == Returned(|Format(f, args)| + |rest|)
  {
    FormatVerbatim(f, rest, args);
    PrintfFormats(f + rest, args);
  }

  // Every format the arguments match is of that form, or complete: k is where
  // the verbatim rest starts.
  lemma {:induction false} VerbatimFrom(f: seq<byte>, args: seq<Arg>) returns (k: nat)
    requires Matches(f, args)
    ensures k <= |f| && Complete(f[..k], args) && (k < |f| ==> StartsVerbatim(f[k..]))
    decreases |f|
  {
    if f == [] || StartsVerbatim(f) {
      k := 0;
      assert f[..0] == [] && f[0..] == f;
    } else {
      var n := if f[0] != PERCENT then 1 else 2;
      k := VerbatimFrom(f[n..], if n == 2 && f[1] != PERCENT then args[1..] else args);
      assert f[..n + k][n..] == f[n..][..k] && f[n..][k..] == f[n + k..];
      k := n + k;
    }
  }
}
