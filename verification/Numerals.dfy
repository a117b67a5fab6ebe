// What a numeral is: digit strings in base 10 or 16, the number they denote,
// and the one numeral each number has.  itoa and the %x loops are proved
// against these definitions.
module Numerals {
  import opened CInt

  type Base = b: int | b == 10 || b == 16 witness 10

  // '0'..'9' and 'A'..'F' (libc/stdio/printf.c: the hex table).
  function HexDigit(d: int): byte
    requires 0 <= d < 16
  {
    if d < 10 then 48 + d else 55 + d
  }

  lemma HexDigits(d: int)
    requires 0 <= d < 16
    ensures HexDigit(d) == "0123456789ABCDEF"[d] as int
  {}

  predicate IsDigit(c: byte, b: Base) {
    (48 <= c < 58 || 65 <= c < 71) && DigitValue(c) < b
  }

  function DigitValue(c: byte): nat {
    if 48 <= c < 58 then c - 48 else if 65 <= c < 71 then c - 55 else 0
  }

  // n * b, n / b and n % b, linear in n for each of the two bases.
  function Times(n: nat, b: Base): (r: nat) {
    if b == 10 then 10 * n else 16 * n
  }

  function Quot(n: nat, b: Base): nat {
    if b == 10 then n / 10 else n / 16
  }

  function Rem(n: nat, b: Base): (r: nat)
    ensures r < b
  {
    if b == 10 then n % 10 else n % 16
  }

  function Numeral(n: nat, b: Base): (s: seq<byte>)
    ensures s != []
    decreases n
  {
    if n < b then [HexDigit(n)] else Numeral(Quot(n, b), b) + [HexDigit(Rem(n, b))]
  }

  // The number a digit string denotes, most significant digit first.
  function Parse(s: seq<byte>, b: Base): nat {
    if s == [] then 0 else Times(Parse(s[..|s| - 1], b), b) + DigitValue(s[|s| - 1])
  }

  predicate AllDigits(s: seq<byte>, b: Base) {
    forall k :: 0 <= k < |s| ==> IsDigit(s[k], b)
  }

  // No empty string and no leading zero.
  predicate Canonical(s: seq<byte>, b: Base) {
    s != [] && AllDigits(s, b) && (s[0] == 48 ==> |s| == 1)
  }

  lemma {:induction false} NumeralDenotes(n: nat, b: Base)
    ensures Canonical(Numeral(n, b), b)
    ensures Parse(Numeral(n, b), b) == n
    ensures Numeral(n, b)[0] == 48 <==> n == 0
    decreases n
  {
    if n < b {
      assert Numeral(n, b) == [HexDigit(n)];
      assert Parse([HexDigit(n)][..0], b) == 0;
    } else {
      NumeralDenotes(Quot(n, b), b);
      var s := Numeral(n, b);
      assert s[..|s| - 1] == Numeral(Quot(n, b), b);
    }
  }

  lemma {:induction false} LeadingDigit(s: seq<byte>, b: Base)
    requires Canonical(s, b) && s[0] != 48
    ensures Parse(s, b) > 0
  {
    var t := s[..|s| - 1];
    if t != [] {
      LeadingDigit(t, b);
    } else {
      assert Parse(t, b) == 0;
    }
  }

  // A canonical digit string is the numeral of the number it denotes, so
  // numerals are determined by their value.
  lemma {:induction false} CanonicalUnique(s: seq<byte>, b: Base)
    requires Canonical(s, b)
    ensures s == Numeral(Parse(s, b), b)
  {
    var t, c := s[..|s| - 1], s[|s| - 1];
    DigitOfValue(c, b);
    if t == [] {
      assert s == [c] && Parse(t, b) == 0;
    } else {
      assert Canonical(t, b) && t[0] != 48;
      LeadingDigit(t, b);
      CanonicalUnique(t, b);
      NumeralSnoc(Parse(t, b), DigitValue(c), b);
      assert s == t + [c];
    }
  }

  lemma DigitOfValue(c: byte, b: Base)
    requires IsDigit(c, b)
    ensures DigitValue(c) < b && HexDigit(DigitValue(c)) == c
    ensures Numeral(DigitValue(c), b) == [c]
  {}

  lemma NumeralSnoc(n: nat, v: nat, b: Base)
    requires n > 0 && v < b
    ensures Numeral(Times(n, b) + v, b) == Numeral(n, b) + [HexDigit(v)]
  {
    assert Quot(Times(n, b) + v, b) == n && Rem(Times(n, b) + v, b) == v;
  }

  // ----- signed decimal, as itoa writes it

  function Decimal(i: int): seq<byte> {
    if i < 0 then [45] + Numeral(-i, 10) else Numeral(i, 10)
  }

  function ParseInt(s: seq<byte>): int {
    if s != [] && s[0] == 45 then 0 - Parse(s[1..], 10) else Parse(s, 10)
  }

  // Optional '-', then a canonical numeral, and never "-0".
  predicate CanonicalInt(s: seq<byte>) {
    if s != [] && s[0] == 45 then Canonical(s[1..], 10) && s[1] != 48 else Canonical(s, 10)
  }

  lemma DecimalRoundTrip(i: int)
    ensures CanonicalInt(Decimal(i))
    ensures ParseInt(Decimal(i)) == i
    ensures Decimal(i)[0] == '-' as int <==> i < 0
  {
    var n := if i < 0 then -i else i;
    NumeralDenotes(n, 10);
    assert i < 0 ==> Decimal(i)[1..] == Numeral(n, 10);
  }

  lemma DecimalUnique(s: seq<byte>)
    requires CanonicalInt(s)
    ensures s == Decimal(ParseInt(s))
  {
    if s[0] == 45 {
      LeadingDigit(s[1..], 10);
      CanonicalUnique(s[1..], 10);
      assert s == [45] + s[1..];
    } else {
      CanonicalUnique(s, 10);
    }
  }

  // ----- %x

  function Pow(b: Base, n: nat): (p: int)
    ensures p >= 1
  {
    if n == 0 then 1 else Times(Pow(b, n - 1), b)
  }

  // The digits the negative branch writes for x, given y == -(x + 1): one per
  // hex digit of y, each the complement of that digit.
  function Complement(y: nat): seq<byte> {
    if y == 0 then [] else Complement(y / 16) + [HexDigit(15 - y % 16)]
  }

  function HexText(x: int): seq<byte> {
    if x >= 0 then Numeral(x, 16) else Complement(-(x + 1))
  }

  // n is the number of hex digits of y, with none for zero.
  predicate HexLength(y: nat, n: nat) {
    y < Pow(16, n) && (n > 0 ==> Pow(16, n - 1) <= y)
  }

  lemma {:induction false} ComplementDenotes(y: nat)
    ensures HexLength(y, |Complement(y)|)
    ensures Parse(Complement(y), 16) == Pow(16, |Complement(y)|) - 1 - y
    ensures AllDigits(Complement(y), 16)
  {
    if y > 0 {
      ComplementDenotes(y / 16);
      var s := Complement(y);
      assert s[..|s| - 1] == Complement(y / 16);
    }
  }

  lemma {:induction false} PowMonotone(b: Base, m: nat, n: nat)
    requires m <= n
    ensures Pow(b, m) <= Pow(b, n)
    decreases n
  {
    if m < n {
      PowMonotone(b, m, n - 1);
    }
  }

  lemma Pow16()
    ensures Pow(16, 7) == 0x1000_0000 && Pow(16, 8) == 0x1_0000_0000
  {
    assert Pow(16, 2) == 0x100;
    assert Pow(16, 4) == 0x1_0000;
    assert Pow(16, 6) == 0x100_0000;
  }

  // %x of a negative number: n digits of value 16^n + x, where n is the hex
  // length of -(x + 1); no digits at all for -1.
  lemma NegativeHex(x: int)
    requires x < 0
    ensures HexLength(-(x + 1), |HexText(x)|)
    ensures Parse(HexText(x), 16) == Pow(16, |HexText(x)|) + x
    ensures |HexText(x)| == 0 <==> x == -1
  {
    ComplementDenotes(-(x + 1));
  }

  function Fs(n: nat): seq<byte> {
    if n == 0 then [] else [70] + Fs(n - 1)
  }

  lemma {:induction false} PadParse(k: nat, s: seq<byte>)
    ensures |Fs(k)| == k
    ensures Parse(Fs(k) + s, 16) == Pow(16, |s| + k) - Pow(16, |s|) + Parse(s, 16)
    decreases k, |s|
  {
    if s == [] {
      assert Fs(k) + s == Fs(k);
      FsParse(k);
    } else {
      var t := s[..|s| - 1];
      PadParse(k, t);
      assert (Fs(k) + s)[..k + |s| - 1] == Fs(k) + t;
    }
  }

  lemma {:induction false} FsParse(k: nat)
    ensures |Fs(k)| == k && Parse(Fs(k), 16) == Pow(16, k) - 1
  {
    if k > 0 {
      FsParse(k - 1);
      FsEnd(k);
      FsEnd(k - 1);
      assert Fs(k)[..k - 1] == Fs(k - 1);
    }
  }

  lemma {:induction false} FsEnd(k: nat)
    ensures |Fs(k)| == k && forall i :: 0 <= i < k ==> Fs(k)[i] == 70
  {
    if k > 0 {
      FsEnd(k - 1);
    }
  }

  // For every 32-bit x the text has at most 8 digits, and padding a negative
  // one on the left with 'F' gives its two's complement form.
  lemma HexOfInt32(x: int32)
    ensures |HexText(x)| <= 8
    ensures x >= 0 ==> Canonical(HexText(x), 16) && Parse(HexText(x), 16) == x
    ensures x < 0 ==> Parse(Fs(8 - |HexText(x)|) + HexText(x), 16) == TWO_32 + x
  {
    Pow16();
    var s := HexText(x);
    if x >= 0 {
      NumeralDenotes(x, 16);
      NumeralLength(x, 16);
      if |s| > 8 {
        PowMonotone(16, 8, |s| - 1);
      }
    } else {
      NegativeHex(x);
      if |s| > 8 {
        PowMonotone(16, 8, |s| - 1);
      }
      PadParse(8 - |s|, s);
    }
  }

  // What %x makes of x, by value: a canonical numeral if x is not negative, and
  // otherwise the two's complement form without its leading 'F's.
  ghost predicate ShowsHex(t: seq<byte>, x: int32) {
    if x >= 0 then Canonical(t, 16) && Parse(t, 16) == x
    else
      && |t| <= 8 && AllDigits(t, 16) && (t != [] ==> t[0] != 70)
      && Parse(Fs(8 - |t|) + t, 16) == TWO_32 + x
  }

  lemma {:induction false} NoLeadingF(y: nat)
    ensures y > 0 ==> Complement(y) != [] && Complement(y)[0] != 70
  {
    if y > 0 {
      NoLeadingF(y / 16);
    }
  }

  lemma HexShown(x: int32)
    ensures ShowsHex(HexText(x), x)
  {
    hide Parse, Complement, Canonical, Fs;
    HexOfInt32(x);
    if x < 0 {
      ComplementDenotes(-(x + 1));
      NoLeadingF(-(x + 1));
    }
  }

  // Complementing the digits of a string without a leading 'F'.
  lemma {:induction false} ComplementUnique(t: seq<byte>)
    requires AllDigits(t, 16) && (t != [] ==> t[0] != 70)
    ensures Parse(t, 16) < Pow(16, |t|)
    ensures t == Complement(Pow(16, |t|) - 1 - Parse(t, 16))
  {
    if t != [] {
      var u, c := t[..|t| - 1], t[|t| - 1];
      ComplementUnique(u);
      DigitOfValue(c, 16);
      var y := Pow(16, |u|) - 1 - Parse(u, 16);
      assert Pow(16, |t|) - 1 - Parse(t, 16) == 16 * y + (15 - DigitValue(c));
      ComplementSnoc(y, 15 - DigitValue(c));
      assert t == u + [c];
    }
  }

  lemma ComplementSnoc(y: nat, d: nat)
    requires d < 16 && 16 * y + d > 0
    ensures Complement(16 * y + d) == Complement(y) + [HexDigit(15 - d)]
  {
    assert (16 * y + d) / 16 == y && (16 * y + d) % 16 == d;
  }

  // And that value has no other text.
  lemma HexUnique(t: seq<byte>, x: int32)
    requires ShowsHex(t, x)
    ensures t == HexText(x)
  {
    hide Parse, Complement, Numeral, Canonical, Fs, Pow;
    if x >= 0 {
      CanonicalUnique(t, 16);
    } else {
      PaddedValue(t);
      ComplementUnique(t);
    }
  }

  lemma PaddedValue(t: seq<byte>)
    requires |t| <= 8
    ensures Parse(Fs(8 - |t|) + t, 16) == TWO_32 - Pow(16, |t|) + Parse(t, 16)
  {
    hide Parse, Fs;
    Pow16();
    PadParse(8 - |t|, t);
    assert |t| + (8 - |t|) == 8;
  }

  lemma {:induction false} NumeralLength(n: nat, b: Base)
    ensures n > 0 ==> Pow(b, |Numeral(n, b)| - 1) <= n
    decreases n
  {
    if n >= b {
      NumeralLength(Quot(n, b), b);
    }
  }

  // itoa needs at most ten digits and a sign.
  lemma DecimalLength(i: int32)
    ensures |Decimal(i)| <= 11
    ensures |Numeral(if i < 0 then 0 - i else i, 10)| <= 10
  {
    var n: nat := if i < 0 then 0 - i else i;
    if |Numeral(n, 10)| > 10 {
      NumeralLength(n, 10);
      PowMonotone(10, 10, |Numeral(n, 10)| - 1);
      Pow10();
    }
  }

  lemma Pow10()
    ensures Pow(10, 10) == 10_000_000_000
  {
    assert Pow(10, 3) == 1000;
    assert Pow(10, 6) == 1_000_000;
    assert Pow(10, 9) == 1_000_000_000;
  }
}
