// The integer types the kernel is compiled for (i386: 8-bit unsigned bytes,
// 32-bit int) and the C operators whose meaning differs from Dafny's.
module CInt {

  const INT_MAX: int := 0x7FFF_FFFF
  const TWO_32: int := 0x1_0000_0000

  type byte = x: int | 0 <= x < 0x100
  type int32 = x: int | -0x8000_0000 <= x < 0x8000_0000
  type uint32 = x: int | 0 <= x < 0x1_0000_0000

  // C division truncates toward zero, and % takes the sign of the dividend.
  function CDiv(a: int, b: int): int
    requires b > 0
  {
    if a >= 0 then a / b else -((-a) / b)
  }

  function CMod(a: int, b: int): int
    requires b > 0
  {
    if a >= 0 then a % b else -((-a) % b)
  }

  // Conversion of an unsigned 32-bit value to int (two's complement).
  function ToInt32(u: uint32): (i: int32)
    ensures (i - u) % TWO_32 == 0
  {
    if u <= INT_MAX then u else u - TWO_32
  }

  function Xor(a: byte, b: byte): byte {
    ((a as bv8) ^ (b as bv8)) as byte
  }

  lemma ByteOfBv(x: bv8)
    ensures (x as byte) as bv8 == x
  {}

  lemma NextBv(x: bv8)
    requires x != 0xFF
    ensures (x + 1) as int == x as int + 1
  {}

  lemma {:induction false} BitsFor(a: byte) returns (x: bv8)
    ensures x as byte == a
  {
    if a == 0 {
      x := 0;
    } else {
      x := BitsFor(a - 1);
      NextBv(x);
      x := x + 1;
    }
  }

  lemma BvOfByte(a: byte)
    ensures (a as bv8) as byte == a
  {
    var x := BitsFor(a);
    ByteOfBv(x);
  }

  lemma XorOnBits(a: byte, b: byte)
    ensures Xor(a, b) as bv8 == (a as bv8) ^ (b as bv8)
  {
    ByteOfBv((a as bv8) ^ (b as bv8));
  }

  lemma BitsCancel(x: bv8, y: bv8)
    ensures (x ^ y) ^ y == x && x ^ y == y ^ x
  {}

  lemma XorCommutes(a: byte, b: byte)
    ensures Xor(a, b) == Xor(b, a)
  {
    BitsCancel(a as bv8, b as bv8);
  }

  lemma XorCancels(a: byte, b: byte)
    ensures Xor(Xor(a, b), b) == a
  {
    XorOnBits(a, b);
    BitsCancel(a as bv8, b as bv8);
    BvOfByte(a);
  }

  // The assignments *p ^= *q; *q ^= *p; *p ^= *q on two different cells
  // exchange their contents.
  lemma XorSwap(a: byte, b: byte)
    ensures Xor(b, Xor(a, b)) == a
    ensures Xor(Xor(a, b), a) == b
  {
    XorCommutes(b, Xor(a, b));
    XorCancels(a, b);
    XorCommutes(a, b);
    XorCancels(b, a);
  }

  function Reverse<T>(s: seq<T>): (r: seq<T>)
    ensures |r| == |s|
  {
    seq(|s|, k requires 0 <= k < |s| => s[|s| - 1 - k])
  }

  // A Dafny string literal as bytes.
  function Ascii(s: string): (r: seq<byte>)
    ensures |r| == |s|
  {
    seq(|s|, i requires 0 <= i < |s| => s[i] as int % 0x100)
  }
}
