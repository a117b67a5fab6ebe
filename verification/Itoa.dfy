// itoa and its one static buffer (libc/stdlib/itoa.c).
module IntToAscii {
  import opened CInt
  import opened Numerals
  import opened CStrings

  // Index of the buffer's last byte: INT_DIGITS + 1, with INT_DIGITS == 19.
  const LAST: nat := 20

  // buf once the numeral of i has been written so that it ends before the
  // last byte.
  function WithDecimal(buf: seq<byte>, i: int32): seq<byte>
    requires |buf| == LAST + 1
  {
    DecimalLength(i);
    Splice(buf, LAST - |Decimal(i)|, Decimal(i))
  }

  // Calling itoa again on the same number changes nothing.
  lemma WithDecimalTwice(buf: seq<byte>, i: int32)
    requires |buf| == LAST + 1
    ensures WithDecimal(WithDecimal(buf, i), i) == WithDecimal(buf, i)
  {
    DecimalLength(i);
    SpliceOver(buf, LAST - |Decimal(i)|, Decimal(i), Decimal(i));
  }

  // What stands in the buffer after the call: the text of i, then the NUL.
  lemma WithDecimalText(m: seq<byte>, i: int32)
    requires |m| == LAST + 1 && m[LAST] == 0
    ensures var r, p := WithDecimal(m, i), LAST - |Decimal(i)|;
      0 <= p && r[LAST] == 0 && Terminated(r, p) && Text(r, p) == Decimal(i)
  {
    DecimalLength(i);
    var p, r := LAST - |Decimal(i)|, WithDecimal(m, i);
    NoNul(i);
    hide Decimal, Terminated, Text;
    SpliceAt(m, p, Decimal(i), r);
    TextIs(r, p, Decimal(i));
  }

  lemma NoNul(i: int32)
    ensures 0 !in Decimal(i)
  {
    var t := Numeral(if i < 0 then 0 - i else i, 10);
    NumeralDenotes(if i < 0 then 0 - i else i, 10);
    assert forall k :: 0 <= k < |t| ==> IsDigit(t[k], 10);
  }

  lemma TruncatesNegative(w: nat)
    ensures CMod(0 - w, 10) == 0 - w % 10 && CDiv(0 - w, 10) == 0 - w / 10
  {}

  // One round of the digit loops: the last digit goes to the buffer, and the
  // digits of the quotient are still to come unless it is zero.
  lemma LastDigit(v: nat, done: seq<byte>)
    ensures v / 10 == 0 ==> Numeral(v, 10) + done == [48 + v % 10] + done
    ensures v / 10 != 0 ==> Numeral(v, 10) + done == Numeral(v / 10, 10) + ([48 + v % 10] + done)
  {}

  lemma NoDigitYet(m: seq<byte>, t: seq<byte>)
    requires |m| == LAST + 1
    ensures m == Splice(m, LAST, []) && t == t + []
  {}

  class Itoa {
    const buf: array<byte>

    ghost predicate Valid()
      reads this, buf
    {
      buf.Length == LAST + 1 && buf[LAST] == 0
    }

    // Static storage starts out zeroed.
    constructor ()
      ensures Valid() && fresh(buf)
    {
      buf := new byte[LAST + 1](_ => 0);
    }

    // The result is the string of i, ending at the buffer's last byte; the
    // pointer depends on i alone.
    method Convert(i: int32) returns (p: nat)
      requires Valid()
      modifies buf
      ensures Valid()
      ensures p == LAST - |Decimal(i)| && p <= LAST
      ensures buf[..] == WithDecimal(old(buf[..]), i)
      ensures Terminated(buf[..], p) && Text(buf[..], p) == Decimal(i)
    {
      ghost var m := buf[..];
      if i >= 0 {
        p := FillPositive(i);
      } else {
        p := FillNegative(i);
        PutDigit(p, 45, m, Numeral(0 - i, 10));
        p := p - 1;
      }
      WithDecimalText(m, i);
      assert buf[..][LAST] == 0;
    }

    // strlen(itoa(i)), beside an itoa(i) that has gone before: both point to
    // the same text.
    method ConvertTwice(i: int32) returns (p: nat, len: nat)
      requires Valid()
      modifies buf
      ensures Valid()
      ensures p + len <= buf.Length && len == |Decimal(i)|
      ensures buf[p..p + len] == Decimal(i)
    {
      p := Convert(i);
      var q := Convert(i);
      len := Strlen(buf, q);
      assert buf[p..p + len] == Text(buf[..], p);
    }

    // *--p = c, in front of what is done.
    method PutDigit(p: nat, c: byte, ghost m: seq<byte>, ghost done: seq<byte>)
      requires 0 < p <= LAST && |done| == LAST - p && |m| == LAST + 1 == buf.Length
      requires buf[..] == Splice(m, p, done)
      modifies buf
      ensures buf[..] == Splice(m, p - 1, [c] + done)
    {
      hide Splice;
      SplicePrepend(m, p - 1, c, done);
      buf[p - 1] := c;
      assert buf[..] == Splice(m, p, done)[p - 1 := c];
    }

    method FillPositive(i: int32) returns (p: nat)
      requires Valid() && i >= 0
      modifies buf
      ensures 10 <= p == LAST - |Numeral(i, 10)|
      ensures buf[..] == Splice(old(buf[..]), p, Numeral(i, 10))
    {
      DecimalLength(i);
      hide Numeral, Splice;
      ghost var m, done: seq<byte> := buf[..], [];
      NoDigitYet(m, Numeral(i, 10));
      var v: nat, more := i, true;
      p := LAST;
      while more
        invariant |done| == LAST - p <= 10
        invariant buf[..] == Splice(m, p, done)
        invariant Numeral(i, 10) == if more then Numeral(v, 10) + done else done
        decreases if more then v + 1 else 0
      {
        LastDigit(v, done);
        var c: byte := 48 + CMod(v, 10);
        PutDigit(p, c, m, done);
        p, done := p - 1, [c] + done;
        v := CDiv(v, 10);
        more := v != 0;
      }
    }

    method FillNegative(i: int32) returns (p: nat)
      requires Valid() && i < 0
      modifies buf
      ensures 10 <= p == LAST - |Numeral(0 - i, 10)|
      ensures buf[..] == Splice(old(buf[..]), p, Numeral(0 - i, 10))
    {
      DecimalLength(i);
      hide Numeral, Splice, CMod, CDiv;
      ghost var m, done: seq<byte> := buf[..], [];
      NoDigitYet(m, Numeral(0 - i, 10));
      var v: int, more := i, true;
      p := LAST;
      while more
        invariant |done| == LAST - p <= 10 && v <= 0
        invariant buf[..] == Splice(m, p, done)
        invariant Numeral(0 - i, 10) == if more then Numeral(0 - v, 10) + done else done
        decreases if more then 1 - v else 0
      {
        ghost var w: nat := 0 - v;
        TruncatesNegative(w);
        LastDigit(w, done);
        var c: byte := 48 - CMod(v, 10);
        PutDigit(p, c, m, done);
        p, done := p - 1, [c] + done;
        v := CDiv(v, 10);
        more := v != 0;
      }
    }
  }
}
