// The walk over the Multiboot memory map (current_test in kernel/kernel/kernel.c).
module MemoryMap {
  import opened CInt
  import opened CStrings
  import opened Numerals
  import opened Formatting
  import opened TextTerminal
  import opened Printing
  import opened PrintCalls

  // The whole address space.
  type Memory = uint32 -> byte

  function Address(a: int): uint32 {
    a % TWO_32
  }

  function Compose(b0: byte, b1: byte, b2: byte, b3: byte): uint32 {
    b0 as int + 0x100 * (b1 as int) + 0x1_0000 * (b2 as int) + 0x100_0000 * (b3 as int)
  }

  // An unsigned int in memory, low byte first.
  function Word(mem: Memory, a: uint32): uint32 {
    Compose(mem(a), mem(Address(a + 1)), mem(Address(a + 2)), mem(Address(a + 3)))
  }

  // The fields of memory_map_t.
  function Size(mem: Memory, mm: uint32): uint32 { Word(mem, mm) }
  function BaseLow(mem: Memory, mm: uint32): uint32 { Word(mem, Address(mm + 4)) }
  function BaseHigh(mem: Memory, mm: uint32): uint32 { Word(mem, Address(mm + 8)) }
  function LengthLow(mem: Memory, mm: uint32): uint32 { Word(mem, Address(mm + 12)) }
  function LengthHigh(mem: Memory, mm: uint32): uint32 { Word(mem, Address(mm + 16)) }
  function Kind(mem: Memory, mm: uint32): uint32 { Word(mem, Address(mm + 20)) }

  // The size field does not count itself.
  function Next(mem: Memory, mm: uint32): uint32 {
    Address(mm + Size(mem, mm) + 4)
  }

  // low + (high << sizeof(unsigned int)): a shift by 4.
  function Shown64(low: uint32, high: uint32): uint32 {
    (low + 0x10 * high) % TWO_32
  }

  // Of the 64-bit value the line shows the low word exactly when the shift moves
  // nothing of the high one into it; and it shows the whole value exactly when
  // there is no high word.  One in the high word counts 16.
  lemma ShownRight(low: uint32, high: uint32)
    ensures Shown64(low, high) == low <==> high % 0x1000_0000 == 0
    ensures Shown64(low, high) == low + TWO_32 * high <==> high == 0
    ensures Shown64(low, 0) == low
    ensures high < TWO_32 - 1 ==> Shown64(low, high + 1) == (Shown64(low, high) + 0x10) % TWO_32
  {}

  // ----- the walk

  // The address after k rounds of the loop, were it to go on that long.
  function At(mem: Memory, a: uint32, k: nat): uint32 {
    if k == 0 then a else Next(mem, At(mem, a, k - 1))
  }

  ghost predicate Stops(mem: Memory, a: uint32, end: uint32) {
    exists k: nat :: At(mem, a, k) >= end
  }

  // The loop gets to its k-th address, counted from zero.
  ghost predicate Gets(mem: Memory, a: uint32, end: uint32, k: nat) {
    forall m: nat :: m <= k ==> At(mem, a, m) < end
  }

  // It is at no address twice.
  ghost predicate NoRepeat(mem: Memory, a: uint32, end: uint32) {
    forall i: nat, j: nat :: i < j && Gets(mem, a, end, j) ==> At(mem, a, i) != At(mem, a, j)
  }

  lemma {:induction false} AtShift(mem: Memory, a: uint32, i: nat, d: nat)
    ensures At(mem, a, i + d) == At(mem, At(mem, a, i), d)
  {
    hide Next;
    if d > 0 {
      AtShift(mem, a, i, d - 1);
    }
  }

  // Back at an address, it goes round for ever.
  lemma {:induction false} RoundAndRound(mem: Memory, a: uint32, end: uint32, i: nat, j: nat, k: nat)
    requires i < j && Gets(mem, a, end, j) && At(mem, a, i) == At(mem, a, j)
    ensures At(mem, a, k) < end
    decreases k
  {
    hide Next, At;
    if k > j {
      RoundAndRound(mem, a, end, i, j, k - (j - i));
      AtShift(mem, a, i, k - j);
      AtShift(mem, a, j, k - j);
    }
  }

  lemma {:induction false} AtMost(n: nat, s: set<int>)
    requires forall x :: x in s ==> 0 <= x < n
    ensures |s| <= n
  {
    if n == 0 {
      assert forall x :: x !in s;
    } else {
      AtMost(n - 1, s - {n - 1});
    }
  }

  ghost function Seen(mem: Memory, a: uint32, n: nat): set<int> {
    if n == 0 then {} else Seen(mem, a, n - 1) + {At(mem, a, n - 1)}
  }

  lemma {:induction false} SeenAt(mem: Memory, a: uint32, n: nat, x: int) returns (i: nat)
    requires x in Seen(mem, a, n)
    ensures i < n && At(mem, a, i) == x
  {
    hide Next, At;
    if x in Seen(mem, a, n - 1) {
      i := SeenAt(mem, a, n - 1, x);
    } else {
      i := n - 1;
    }
  }

  lemma {:induction false} SeenDistinct(mem: Memory, a: uint32, end: uint32, k: nat, n: nat)
    requires Gets(mem, a, end, k) && NoRepeat(mem, a, end) && n <= k + 1
    ensures |Seen(mem, a, n)| == n
  {
    hide Next, At;
    if n > 0 {
      SeenDistinct(mem, a, end, k, n - 1);
      assert Gets(mem, a, end, n - 1);
      if At(mem, a, n - 1) in Seen(mem, a, n - 1) {
        var i := SeenAt(mem, a, n - 1, At(mem, a, n - 1));
      }
    }
  }

  // Without a repetition there is no room for more than end addresses.
  lemma RoomForAddresses(mem: Memory, a: uint32, end: uint32, k: nat)
    requires Gets(mem, a, end, k) && NoRepeat(mem, a, end)
    ensures k < end
  {
    var seen := Seen(mem, a, k + 1);
    SeenDistinct(mem, a, end, k, k + 1);
    forall x | x in seen ensures 0 <= x < end {
      var i := SeenAt(mem, a, k + 1, x);
    }
    AtMost(end, seen);
  }

  // The walk stops exactly when it is at no address twice.
  lemma StopsExactly(mem: Memory, a: uint32, end: uint32)
    ensures Stops(mem, a, end) <==> NoRepeat(mem, a, end)
  {
    if !Stops(mem, a, end) && NoRepeat(mem, a, end) {
      RoomForAddresses(mem, a, end, end);
    }
    if !NoRepeat(mem, a, end) {
      var i: nat, j: nat :| i < j && Gets(mem, a, end, j) && At(mem, a, i) == At(mem, a, j);
      forall k: nat ensures At(mem, a, k) < end {
        RoundAndRound(mem, a, end, i, j, k);
      }
    }
  }

  ghost function FirstStop(mem: Memory, a: uint32, end: uint32, from: nat, k: nat): (n: nat)
    requires from <= k && At(mem, a, k) >= end
    requires forall m: nat :: m < from ==> At(mem, a, m) < end
    ensures At(mem, a, n) >= end && forall m: nat :: m < n ==> At(mem, a, m) < end
    decreases k - from
  {
    if At(mem, a, from) >= end then from else FirstStop(mem, a, end, from + 1, k)
  }

  // How often the body of the loop runs.
  ghost function Rounds(mem: Memory, a: uint32, end: uint32): (n: nat)
    requires Stops(mem, a, end)
    ensures At(mem, a, n) >= end && forall m: nat :: m < n ==> At(mem, a, m) < end
  {
    var k: nat :| At(mem, a, k) >= end;
    FirstStop(mem, a, end, 0, k)
  }

  // The addresses it runs for.
  ghost function Visited(mem: Memory, a: uint32, end: uint32): seq<uint32>
    requires Stops(mem, a, end)
  {
    seq(Rounds(mem, a, end), k requires 0 <= k => At(mem, a, k))
  }

  // So a walk that stops does so within end rounds.
  lemma RoundsBounded(mem: Memory, a: uint32, end: uint32)
    requires Stops(mem, a, end)
    ensures Rounds(mem, a, end) <= end
  {
    var n := Rounds(mem, a, end);
    if n > 0 {
      StopsExactly(mem, a, end);
      assert Gets(mem, a, end, n - 1);
      RoomForAddresses(mem, a, end, n - 1);
    }
  }

  lemma AddressStep(a: uint32, s: uint32)
    ensures a + s + 4 < TWO_32 ==> Address(a + s + 4) == a + s + 4
    ensures Address(a + s + 4) == a <==> s == TWO_32 - 4
    ensures Address(a + s + 4) > a <==> a + (s + 4) % TWO_32 < TWO_32 && s != TWO_32 - 4
  {}

  // One step goes forward exactly when, with the step taken modulo 2^32, the
  // addition does not wrap and the step is not nothing.
  lemma StepsForward(mem: Memory, mm: uint32)
    ensures Next(mem, mm) > mm <==>
      mm + (Size(mem, mm) + 4) % TWO_32 < TWO_32 && Size(mem, mm) != TWO_32 - 4
  {
    hide Size, Address;
    AddressStep(mm, Size(mem, mm));
  }

  lemma NextSame(mem: Memory, mm: uint32)
    ensures Next(mem, mm) == mm <==> Size(mem, mm) == TWO_32 - 4
  {
    hide Size, Address;
    AddressStep(mm, Size(mem, mm));
  }

  ghost predicate AllForward(mem: Memory, a: uint32, end: uint32) {
    forall k: nat :: Gets(mem, a, end, k) ==> Next(mem, At(mem, a, k)) > At(mem, a, k)
  }

  lemma {:induction false} Ascends(mem: Memory, a: uint32, end: uint32, i: nat, j: nat)
    requires AllForward(mem, a, end) && Gets(mem, a, end, j) && i < j
    ensures At(mem, a, i) < At(mem, a, j)
  {
    hide Next;
    assert Gets(mem, a, end, j - 1);
    if i < j - 1 {
      Ascends(mem, a, end, i, j - 1);
    }
  }

  // If all steps go forward, the walk stops.
  lemma ForwardStops(mem: Memory, a: uint32, end: uint32)
    requires AllForward(mem, a, end)
    ensures Stops(mem, a, end)
  {
    forall i: nat, j: nat | i < j && Gets(mem, a, end, j) ensures At(mem, a, i) != At(mem, a, j) {
      Ascends(mem, a, end, i, j);
    }
    StopsExactly(mem, a, end);
  }

  // No address addition wraps on the way.
  ghost predicate NoWrap(mem: Memory, a: uint32, end: uint32) {
    forall k: nat :: Gets(mem, a, end, k) ==> At(mem, a, k) + Size(mem, At(mem, a, k)) + 4 < TWO_32
  }

  lemma NextPlain(mem: Memory, mm: uint32)
    ensures mm + Size(mem, mm) + 4 < TWO_32 ==> Next(mem, mm) == mm + Size(mem, mm) + 4
  {
    hide Size, Address;
    AddressStep(mm, Size(mem, mm));
  }

  lemma {:induction false} FourEach(mem: Memory, a: uint32, end: uint32, k: nat)
    requires NoWrap(mem, a, end) && (k > 0 ==> Gets(mem, a, end, k - 1))
    ensures At(mem, a, k) >= 4 * k
  {
    hide Next, Size;
    if k > 0 {
      if k > 1 {
        assert Gets(mem, a, end, k - 2) by { assert Gets(mem, a, end, k - 1); }
      }
      FourEach(mem, a, end, k - 1);
      NextPlain(mem, At(mem, a, k - 1));
    }
  }

  // Then it stops, and an int can count the rounds.
  lemma NoWrapStops(mem: Memory, a: uint32, end: uint32)
    requires NoWrap(mem, a, end)
    ensures Stops(mem, a, end) && Rounds(mem, a, end) <= INT_MAX
  {
    forall k: nat | Gets(mem, a, end, k) ensures Next(mem, At(mem, a, k)) > At(mem, a, k) {
      NextPlain(mem, At(mem, a, k));
    }
    ForwardStops(mem, a, end);
    var n := Rounds(mem, a, end);
    if n > 0 {
      assert Gets(mem, a, end, n - 1);
      FourEach(mem, a, end, n);
    }
  }

  // A record of size 2^32 - 4 below end holds the walk at its address for ever.
  lemma StandsStill(mem: Memory, a: uint32, end: uint32, k: nat)
    requires Gets(mem, a, end, k)
    ensures At(mem, a, k + 1) == At(mem, a, k) <==> Size(mem, At(mem, a, k)) == TWO_32 - 4
    ensures Size(mem, At(mem, a, k)) == TWO_32 - 4 ==> !Stops(mem, a, end)
  {
    hide Next;
    NextSame(mem, At(mem, a, k));
    StopsExactly(mem, a, end);
    if At(mem, a, k + 1) == At(mem, a, k) {
      assert Gets(mem, a, end, k + 1);
    }
  }

  // Two records can do the same, neither of them of that size.
  lemma GoesRound(mem: Memory)
    requires Size(mem, 0x1000) == 0xFFC && Size(mem, 0x2000) == 0xFFFF_EFFC
    ensures At(mem, 0x1000, 1) == 0x2000 && At(mem, 0x1000, 2) == 0x1000
    ensures !Stops(mem, 0x1000, 0x3000)
  {
    assert At(mem, 0x1000, 0) == 0x1000;
    assert At(mem, 0x1000, 1) == 0x2000;
    assert At(mem, 0x1000, 2) == 0x1000;
    assert Gets(mem, 0x1000, 0x3000, 2);
    StopsExactly(mem, 0x1000, 0x3000);
  }

  const X: byte := 'x' as int
  const D: byte := 'd' as int

  const LINE: string := "MMAP %d: <S:%x,BASE:%x,LEN:%x,T:%d>\n"

  function LineItems(i: Arg, size: Arg, base: Arg, length: Arg, kind: Arg): (items: seq<Item>)
    requires i.Num? && size.Num? && base.Num? && length.Num? && kind.Num?
    ensures AllGood(items)
  {
    [Lit("MMAP "), Conv(D, i), Lit(": <S:"), Conv(X, size), Lit(",BASE:"), Conv(X, base),
     Lit(",LEN:"), Conv(X, length), Lit(",T:"), Conv(D, kind), Lit(">\n")]
  }

  // LINE, cut at its conversions.
  lemma LineCut()
    ensures LINE == "MMAP " + ("%d" + (": <S:" + ("%x" + (",BASE:" + ("%x"
      + (",LEN:" + ("%x" + (",T:" + ("%d" + ">\n")))))))))
  {}

  // The items are the format LINE with these arguments.
  lemma LineFormat(i: Arg, size: Arg, base: Arg, length: Arg, kind: Arg)
    requires i.Num? && size.Num? && base.Num? && length.Num? && kind.Num?
    ensures CallOf(LineItems(i, size, base, length, kind)) == Call(Ascii(LINE), [i, size, base, length, kind])
  {
    hide FormatOf, ArgsOf, Ascii;
    var a := [Lit(">\n")];
    var b := [Lit(",T:"), Conv(D, kind)] + a;
    var c := [Lit(",LEN:"), Conv(X, length)] + b;
    var d := [Lit(",BASE:"), Conv(X, base)] + c;
    var e := [Lit(": <S:"), Conv(X, size)] + d;
    var f := [Lit("MMAP "), Conv(D, i)] + e;
    LetterFormats();
    LastItem(">\n");
    ItemsFormat(",T:", "%d", D, kind, ">\n", a);
    var tb := ",T:" + ("%d" + ">\n");
    ItemsFormat(",LEN:", "%x", X, length, tb, b);
    var tc := ",LEN:" + ("%x" + tb);
    ItemsFormat(",BASE:", "%x", X, base, tc, c);
    var td := ",BASE:" + ("%x" + tc);
    ItemsFormat(": <S:", "%x", X, size, td, d);
    var te := ": <S:" + ("%x" + td);
    ItemsFormat("MMAP ", "%d", D, i, te, e);
    LineCut();
    assert f == LineItems(i, size, base, length, kind);
    assert [i] + ([size] + ([base] + ([length] + ([kind] + [])))) == [i, size, base, length, kind];
  }

  // What the line for a record at mm is printed from.
  function LineArgs(mem: Memory, mm: uint32, i: int32): (args: seq<Arg>)
    ensures |args| == 5 && forall k :: 0 <= k < 5 ==> args[k].Num?
  {
    [Num(i), Num(ToInt32(Size(mem, mm))),
     Num(ToInt32(Shown64(BaseLow(mem, mm), BaseHigh(mem, mm)))),
     Num(ToInt32(Shown64(LengthLow(mem, mm), LengthHigh(mem, mm)))),
     Num(ToInt32(Kind(mem, mm)))]
  }

  function LineCall(mem: Memory, mm: uint32, i: int32): Call {
    Call(Ascii(LINE), LineArgs(mem, mm, i))
  }

  function LineCalls(mem: Memory, visited: seq<uint32>): seq<Call>
    requires |visited| <= INT_MAX
  {
    if visited == [] then []
    else LineCalls(mem, visited[..|visited| - 1]) + [LineCall(mem, visited[|visited| - 1], |visited| - 1)]
  }

  // ----- encoded records

  function LittleEndian(w: uint32): (bytes: seq<byte>)
    ensures |bytes| == 4
  {
    [w % 0x100, w / 0x100 % 0x100, w / 0x1_0000 % 0x100, w / 0x100_0000]
  }

  // A record is what follows its size field.
  type Record = r: seq<byte> | |r| < 0x1_0000_0000 - 4

  function Encode(r: Record): seq<byte> {
    LittleEndian(|r|) + r
  }

  function EncodeAll(rs: seq<Record>): seq<byte> {
    if rs == [] then [] else Encode(rs[0]) + EncodeAll(rs[1..])
  }

  ghost predicate Holds(mem: Memory, a: uint32, bytes: seq<byte>) {
    a + |bytes| < TWO_32 && forall k :: 0 <= k < |bytes| ==> mem(a + k) == bytes[k]
  }

  lemma LittleEndianValue(w: uint32)
    ensures var b := LittleEndian(w); Compose(b[0], b[1], b[2], b[3]) == w
  {
    var w1, w2 := w / 0x100, w / 0x1_0000;
    assert w == 0x100 * w1 + w % 0x100;
    assert w1 == 0x100 * w2 + w1 % 0x100;
    assert w2 == 0x100 * (w / 0x100_0000) + w2 % 0x100;
  }

  lemma WordEncoded(mem: Memory, a: uint32, bytes: seq<byte>, k: nat)
    requires Holds(mem, a, bytes) && k + 4 <= |bytes|
    ensures Word(mem, a + k) == Compose(bytes[k], bytes[k + 1], bytes[k + 2], bytes[k + 3])
  {
    assert mem(a + k) == bytes[k];
    assert mem(a + (k + 1)) == bytes[k + 1];
    assert mem(a + (k + 2)) == bytes[k + 2];
    assert mem(a + (k + 3)) == bytes[k + 3];
  }

  // The size field in front of a record.
  lemma SizeEncoded(mem: Memory, a: uint32, r: Record)
    requires Holds(mem, a, Encode(r))
    ensures Size(mem, a) == |r| && a + 4 < TWO_32 && Holds(mem, a + 4, r)
  {
    HoldsParts(mem, a, LittleEndian(|r|), r);
    WordEncoded(mem, a, LittleEndian(|r|), 0);
    LittleEndianValue(|r|);
  }

  lemma HoldsParts(mem: Memory, a: uint32, s: seq<byte>, t: seq<byte>)
    requires Holds(mem, a, s + t)
    ensures Holds(mem, a, s) && Holds(mem, a + |s|, t)
  {
    forall k | 0 <= k < |s| ensures mem(a + k) == s[k] {
      assert (s + t)[k] == s[k];
    }
    forall k | 0 <= k < |t| ensures mem(a + |s| + k) == t[k] {
      assert mem(a + (|s| + k)) == (s + t)[|s| + k];
    }
  }

  // Where the k-th record starts.
  function Start(a: uint32, rs: seq<Record>, k: nat): int
    requires k <= |rs|
  {
    a + |EncodeAll(rs[..k])|
  }

  lemma {:induction false} RecordAt(mem: Memory, a: uint32, rs: seq<Record>, k: nat)
    requires Holds(mem, a, EncodeAll(rs)) && k <= |rs|
    ensures At(mem, a, k) == Start(a, rs, k)
    ensures Start(a, rs, |rs|) == a + |EncodeAll(rs)|
    ensures k < |rs| ==> Holds(mem, Start(a, rs, k), Encode(rs[k])) && Start(a, rs, k) < a + |EncodeAll(rs)|
    decreases |rs|
  {
    hide Next, Holds;
    assert rs[..0] == [] && rs[..|rs|] == rs;
    if rs != [] {
      var r, rest := rs[0], rs[1..];
      FirstRecord(mem, a, r, EncodeAll(rest));
      if k > 0 {
        RecordAt(mem, Next(mem, a), rest, k - 1);
        AtShift(mem, a, 1, k - 1);
        assert At(mem, a, 1) == Next(mem, At(mem, a, 0));
        assert rs[..k][0] == r && rs[..k][1..] == rest[..k - 1];
      }
    }
  }

  lemma FirstRecord(mem: Memory, a: uint32, r: Record, rest: seq<byte>)
    requires Holds(mem, a, Encode(r) + rest)
    ensures Holds(mem, a, Encode(r)) && |Encode(r)| == |r| + 4
    ensures Next(mem, a) == a + |r| + 4 && Holds(mem, Next(mem, a), rest)
  {
    hide Size, LittleEndian, Next;
    HoldsParts(mem, a, Encode(r), rest);
    SizeEncoded(mem, a, r);
    NextPlain(mem, a);
  }

  lemma RoundsAre(mem: Memory, a: uint32, end: uint32, n: nat)
    requires At(mem, a, n) >= end && forall m: nat :: m < n ==> At(mem, a, m) < end
    ensures Stops(mem, a, end) && Rounds(mem, a, end) == n
  {}

  lemma {:induction false} FourPerRecord(rs: seq<Record>)
    ensures |EncodeAll(rs)| >= 4 * |rs|
  {
    if rs != [] {
      FourPerRecord(rs[1..]);
    }
  }

  // The encoded records rs fill the memory from a to end.
  ghost predicate Lists(mem: Memory, a: uint32, end: uint32, rs: seq<Record>) {
    Holds(mem, a, EncodeAll(rs)) && end == a + |EncodeAll(rs)|
  }

  // Over a list of encoded records the walk visits each record once, in order,
  // and stops.
  lemma WalkVisitsAll(mem: Memory, a: uint32, end: uint32, rs: seq<Record>)
    requires Lists(mem, a, end, rs)
    ensures Stops(mem, a, end) && |Visited(mem, a, end)| == |rs| <= INT_MAX
    ensures forall k :: 0 <= k < |rs| ==>
      && Visited(mem, a, end)[k] == Start(a, rs, k)
      && Holds(mem, Visited(mem, a, end)[k], Encode(rs[k]))
  {
    hide Next, Start, At;
    forall k: nat | k <= |rs|
      ensures At(mem, a, k) == Start(a, rs, k)
      ensures k < |rs| ==> Holds(mem, Start(a, rs, k), Encode(rs[k])) && Start(a, rs, k) < end
    {
      RecordAt(mem, a, rs, k);
    }
    RecordAt(mem, a, rs, |rs|);
    RoundsAre(mem, a, end, |rs|);
    FourPerRecord(rs);
  }

  function Field(r: Record, k: nat): uint32
    requires k + 4 <= |r|
  {
    Compose(r[k], r[k + 1], r[k + 2], r[k + 3])
  }

  // What the loop reads from a record with all its fields.
  lemma FieldsRead(mem: Memory, mm: uint32, r: Record)
    requires |r| >= 20 && Holds(mem, mm, Encode(r))
    ensures Size(mem, mm) == |r|
    ensures BaseLow(mem, mm) == Field(r, 0) && BaseHigh(mem, mm) == Field(r, 4)
    ensures LengthLow(mem, mm) == Field(r, 8) && LengthHigh(mem, mm) == Field(r, 12)
    ensures Kind(mem, mm) == Field(r, 16)
  {
    SizeEncoded(mem, mm, r);
    FieldRead(mem, mm, r, 0);
    FieldRead(mem, mm, r, 4);
    FieldRead(mem, mm, r, 8);
    FieldRead(mem, mm, r, 12);
    FieldRead(mem, mm, r, 16);
  }

  lemma FieldRead(mem: Memory, mm: uint32, r: Record, k: nat)
    requires k + 4 <= |r| && mm + 4 < TWO_32 && Holds(mem, mm + 4, r)
    ensures Word(mem, Address(mm + (k + 4))) == Field(r, k)
  {
    assert Address(mm + (k + 4)) == mm + 4 + k;
    WordEncoded(mem, mm + 4, r, k);
  }

  // What the line for the i-th record is printed from, by the record itself.
  function RecordArgs(r: Record, i: int32): (args: seq<Arg>)
    requires |r| >= 20
    ensures |args| == 5 && forall k :: 0 <= k < 5 ==> args[k].Num?
  {
    [Num(i), Num(ToInt32(|r|)),
     Num(ToInt32(Shown64(Field(r, 0), Field(r, 4)))),
     Num(ToInt32(Shown64(Field(r, 8), Field(r, 12)))),
     Num(ToInt32(Field(r, 16)))]
  }

  // So the k-th line of the walk shows the k-th record.
  lemma LinesShowRecords(mem: Memory, a: uint32, end: uint32, rs: seq<Record>, k: nat)
    requires Lists(mem, a, end, rs) && k < |rs| <= INT_MAX && |rs[k]| >= 20
    ensures Stops(mem, a, end) && |Visited(mem, a, end)| == |rs|
    ensures LineArgs(mem, Visited(mem, a, end)[k], k) == RecordArgs(rs[k], k)
  {
    hide Lists, Holds, Stops, Visited, Size, BaseLow, BaseHigh, LengthLow, LengthHigh, Kind, Field, Shown64;
    WalkVisitsAll(mem, a, end, rs);
    FieldsRead(mem, Visited(mem, a, end)[k], rs[k]);
  }

  // An entry of the map as a loader of the Multiboot standard lays it out, after
  // its size: base and length with the low word first, and the type.
  datatype MapEntry = MapEntry(baseLow: uint32, baseHigh: uint32, lengthLow: uint32, lengthHigh: uint32, kind: uint32)

  function EntryRecord(e: MapEntry): (r: Record)
    ensures |r| == 20
  {
    LittleEndian(e.baseLow) + LittleEndian(e.baseHigh) + LittleEndian(e.lengthLow) + LittleEndian(e.lengthHigh)
      + LittleEndian(e.kind)
  }

  // The line of an entry, from the entry.
  lemma EntryArgs(e: MapEntry, i: int32)
    ensures RecordArgs(EntryRecord(e), i) == [Num(i), Num(20),
      Num(ToInt32((e.baseLow + 16 * e.baseHigh) % TWO_32)),
      Num(ToInt32((e.lengthLow + 16 * e.lengthHigh) % TWO_32)),
      Num(ToInt32(e.kind))]
  {
    hide LittleEndian, Field;
    FiveWords(LittleEndian(e.baseLow), LittleEndian(e.baseHigh), LittleEndian(e.lengthLow),
      LittleEndian(e.lengthHigh), LittleEndian(e.kind));
    FieldEncoded(EntryRecord(e), 0, e.baseLow);
    FieldEncoded(EntryRecord(e), 4, e.baseHigh);
    FieldEncoded(EntryRecord(e), 8, e.lengthLow);
    FieldEncoded(EntryRecord(e), 12, e.lengthHigh);
    FieldEncoded(EntryRecord(e), 16, e.kind);
  }

  lemma FiveWords(a: seq<byte>, b: seq<byte>, c: seq<byte>, d: seq<byte>, e: seq<byte>)
    requires |a| == |b| == |c| == |d| == |e| == 4
    ensures var r := a + b + c + d + e;
      r[0..4] == a && r[4..8] == b && r[8..12] == c && r[12..16] == d && r[16..20] == e
  {}

  lemma FieldEncoded(r: Record, k: nat, w: uint32)
    requires k + 4 <= |r| && r[k..k + 4] == LittleEndian(w)
    ensures Field(r, k) == w
  {
    LittleEndianValue(w);
    assert r[k] == r[k..k + 4][0] && r[k + 1] == r[k..k + 4][1];
    assert r[k + 2] == r[k..k + 4][2] && r[k + 3] == r[k..k + 4][3];
  }

  // The records have all the fields the loop reads, and an int can count them.
  ghost predicate Full(rs: seq<Record>) {
    |rs| <= INT_MAX && forall k :: 0 <= k < |rs| ==> |rs[k]| >= 20
  }

  // The line of a record: the text LINE has for it.
  ghost function RecordLine(r: Record, i: int32): (t: seq<byte>)
    requires |r| >= 20
  {
    Format(Ascii(LINE), RecordArgs(r, i))
  }

  lemma LineMatches(args: seq<Arg>)
    requires |args| == 5 && forall k :: 0 <= k < 5 ==> args[k].Num?
    ensures Plain(Call(Ascii(LINE), args))
  {
    var items := LineItems(args[0], args[1], args[2], args[3], args[4]);
    LineFormat(args[0], args[1], args[2], args[3], args[4]);
    ItemsPlain(items);
    assert args == [args[0], args[1], args[2], args[3], args[4]];
  }

  // It shows the record's number, size, base, length and type by value, as %d
  // and %x do, and is the only text that does.
  lemma LineReads(r: Record, i: int32, t: seq<byte>)
    requires |r| >= 20
    ensures Renders(Ascii(LINE), RecordArgs(r, i), t) <==> t == RecordLine(r, i)
  {
    hide Renders, Format, RecordArgs;
    LineMatches(RecordArgs(r, i));
    FormatRenders(Ascii(LINE), RecordArgs(r, i), t);
  }

  // The lines of a list of records, numbered from zero.
  ghost function RecordsText(rs: seq<Record>): seq<byte>
    requires Full(rs)
  {
    if rs == [] then []
    else RecordsText(rs[..|rs| - 1]) + RecordLine(rs[|rs| - 1], |rs| - 1)
  }

  // The first n lines of the walk.
  lemma {:induction false} LinesText(mem: Memory, visited: seq<uint32>, rs: seq<Record>, n: nat)
    requires n <= |visited| == |rs| && Full(rs)
    requires forall k :: 0 <= k < |rs| ==> LineArgs(mem, visited[k], k) == RecordArgs(rs[k], k)
    ensures Printed(LineCalls(mem, visited[..n])) == RecordsText(rs[..n])
  {
    hide LineArgs, RecordArgs, Format, LineCalls, RecordsText;
    if n == 0 {
      NoLines(mem);
    } else {
      LinesText(mem, visited, rs, n - 1);
      NextLine(mem, visited, n - 1);
      NextRecord(rs, n - 1);
      SnocPrinted(LineCalls(mem, visited[..n - 1]), LineCall(mem, visited[n - 1], n - 1));
    }
  }

  lemma NoLines(mem: Memory)
    ensures Printed(LineCalls(mem, [])) == RecordsText([]) == []
  {}

  lemma NextLine(mem: Memory, visited: seq<uint32>, n: nat)
    requires n < |visited| <= INT_MAX
    ensures LineCalls(mem, visited[..n + 1]) == LineCalls(mem, visited[..n]) + [LineCall(mem, visited[n], n)]
  {
    hide LineCall;
    assert visited[..n + 1][..n] == visited[..n];
  }

  lemma NextRecord(rs: seq<Record>, n: nat)
    requires n < |rs| && Full(rs)
    ensures RecordsText(rs[..n + 1]) == RecordsText(rs[..n]) + RecordLine(rs[n], n)
  {
    hide RecordLine;
    assert rs[..n + 1][..n] == rs[..n];
  }

  lemma SnocPrinted(calls: seq<Call>, c: Call)
    ensures Printed(calls + [c]) == Printed(calls) + Format(c.format, c.args)
  {
    assert (calls + [c])[..|calls|] == calls;
  }

  // So n encoded records are shown as the lines of these n records.
  lemma RecordsShown(mem: Memory, a: uint32, end: uint32, rs: seq<Record>)
    requires Lists(mem, a, end, rs) && Full(rs)
    ensures Stops(mem, a, end) && |Visited(mem, a, end)| == |rs|
    ensures Printed(LineCalls(mem, Visited(mem, a, end))) == RecordsText(rs)
  {
    hide Lists, LineArgs, RecordArgs, Printed, LineCalls, RecordsText, Stops, Visited;
    WalkVisitsAll(mem, a, end, rs);
    var visited := Visited(mem, a, end);
    forall k | 0 <= k < |rs| ensures LineArgs(mem, visited[k], k) == RecordArgs(rs[k], k) {
      LinesShowRecords(mem, a, end, rs, k);
    }
    LinesText(mem, visited, rs, |rs|);
    assert visited[..|rs|] == visited && rs[..|rs|] == rs;
  }

  // ----- the announced number of records

  lemma {:induction false} UniformLength(rs: seq<Record>, s: nat)
    requires forall k :: 0 <= k < |rs| ==> |rs[k]| == s
    ensures |EncodeAll(rs)| == |rs| * (s + 4)
  {
    if rs != [] {
      UniformLength(rs[1..], s);
      OneMoreTimes(|rs|, s + 4);
      assert |Encode(rs[0])| == s + 4;
    }
  }

  lemma OneMoreTimes(n: nat, m: nat)
    requires n > 0
    ensures n * m == (n - 1) * m + m
  {}

  lemma Quotient(y: nat, s: nat, q: nat)
    requires s > 0 && q * s <= y < q * s + s
    ensures y / s == q
  {
    var k := y / s;
    assert y == k * s + y % s;
    if k < q {
      assert (k + 1) * s <= q * s by { Scaled(k + 1, q, s); }
    } else if q < k {
      assert (q + 1) * s <= k * s by { Scaled(q + 1, k, s); }
    }
  }

  lemma Scaled(x: nat, y: nat, s: nat)
    requires x <= y
    ensures x * s <= y * s
  {}

  lemma DivShift(n: nat, s: nat, m: nat)
    requires s > 0
    ensures (n * s + m) / s == n + m / s
  {
    assert m == m / s * s + m % s;
    assert (n + m / s) * s == n * s + m / s * s;
    Quotient(n * s + m, s, n + m / s);
  }

  lemma UniformQuotient(rs: seq<Record>, s: nat)
    requires s > 0 && forall k :: 0 <= k < |rs| ==> |rs[k]| == s
    ensures |EncodeAll(rs)| / s == |rs| + 4 * |rs| / s
    ensures |EncodeAll(rs)| / s == |rs| <==> 4 * |rs| < s
  {
    UniformLength(rs, s);
    assert |rs| * (s + 4) == |rs| * s + 4 * |rs|;
    DivShift(|rs|, s, 4 * |rs|);
    QuotientZero(4 * |rs|, s);
  }

  lemma QuotientZero(m: nat, s: nat)
    requires s > 0
    ensures m / s == 0 <==> m < s
  {
    assert m == m / s * s + m % s;
  }

  // ----- current_test

  // The fields of multiboot_info_t the walk depends on.
  datatype BootInfo = BootInfo(flags: uint32, mmapLength: uint32, mmapAddr: uint32)

  predicate HasMap(mbi: BootInfo) {
    mbi.flags / 64 % 2 == 1
  }

  // Bit 6 of the flags is its highest bit below 128.
  lemma MapBit(mbi: BootInfo)
    ensures HasMap(mbi) <==> mbi.flags % 128 >= 64
  {}

  function End(mbi: BootInfo): uint32 {
    Address(mbi.mmapAddr + mbi.mmapLength)
  }

  const FOUND: string := "MMAPS FOUND: %d\n"

  // mmap_length divided by the size field of the first record.
  function Announced(length: uint32, size: uint32): (q: uint32)
    requires size > 0
    ensures q * size <= length < (q + 1) * size
  {
    QuotientAtMost(length, size);
    length / size
  }

  // With n records of size s it is n and 4 * n / s more, so it is the number of
  // records exactly when 4 * n < s.
  lemma AnnouncedCount(rs: seq<Record>, s: nat)
    requires s > 0 && forall k :: 0 <= k < |rs| ==> |rs[k]| == s
    requires |EncodeAll(rs)| < TWO_32 && s < TWO_32
    ensures Announced(|EncodeAll(rs)|, s) == |rs| + 4 * |rs| / s
    ensures Announced(|EncodeAll(rs)|, s) == |rs| <==> 4 * |rs| < s
  {
    UniformQuotient(rs, s);
  }

  lemma QuotientAtMost(m: nat, s: nat)
    requires s > 0
    ensures 0 <= m / s <= m && m / s * s <= m < (m / s + 1) * s
  {
    var q := m / s;
    assert m == q * s + m % s;
    assert q >= 0;
    Scaled(1, s, q);
  }

  function FoundCall(mem: Memory, mbi: BootInfo): Call
    requires Size(mem, mbi.mmapAddr) > 0
  {
    Call(Ascii(FOUND), [Num(ToInt32(Announced(mbi.mmapLength, Size(mem, mbi.mmapAddr))))])
  }

  lemma LinePlain(mem: Memory, mm: uint32, i: int32)
    ensures Plain(LineCall(mem, mm, i))
  {
    LineMatches(LineArgs(mem, mm, i));
  }

  // The body of the loop.
  method PrintLine(console: Console, mem: Memory, mm: uint32, i: int32, ghost l: Log, ghost done: seq<uint32>)
    requires console.Valid() && |done| == i
    requires console.Written() == Extend(l, ToScreen, console.Attr(),
      Printed(LineCalls(mem, done)), TraceOf(LineCalls(mem, done)))
    modifies console.terminal, console.terminal.buffer, console.serial, console.itoa.buf
    ensures console.Valid() && console.Attr() == old(console.Attr())
    ensures |done| < INT_MAX ==> console.Written() == Extend(l, ToScreen, console.Attr(),
      Printed(LineCalls(mem, done + [mm])), TraceOf(LineCalls(mem, done + [mm])))
  {
    LinePlain(mem, mm, i);
    if i < INT_MAX {
      LineStep(l, console.Attr(), mem, done, mm);
    }
    Say(console, LineCall(mem, mm, i));
  }

  // The loop: one line per visited address, numbered from zero.  The walk must
  // stop, and the int i can count the lines.
  method Walk(console: Console, mem: Memory, start: uint32, end: uint32)
    requires console.Valid() && Stops(mem, start, end) && Rounds(mem, start, end) <= INT_MAX
    modifies console.terminal, console.terminal.buffer, console.serial, console.itoa.buf
    ensures console.Valid() && console.Attr() == old(console.Attr())
    ensures var calls := LineCalls(mem, Visited(mem, start, end));
      console.Written() == Extend(old(console.Written()), ToScreen, console.Attr(), Printed(calls), TraceOf(calls))
  {
    hide Next, LineCalls, Printed, TraceOf, Extend;
    ghost var l, all := console.Written(), Visited(mem, start, end);
    NoCalls(l, console.Attr(), mem);
    var mm: uint32, i := start, 0;
    while mm < end
      invariant console.Valid() && console.Attr() == old(console.Attr())
      invariant 0 <= i <= |all| && mm == At(mem, start, i)
      invariant console.Written() == Extend(l, ToScreen, console.Attr(),
        Printed(LineCalls(mem, all[..i])), TraceOf(LineCalls(mem, all[..i])))
      decreases |all| - i
    {
      assert i < |all| && all[..i + 1] == all[..i] + [mm];
      PrintLine(console, mem, mm, i, l, all[..i]);
      i := i + 1;
      mm := Next(mem, mm);
    }
    assert all[..i] == all;
  }

  lemma NoCalls(l: Log, attr: byte, mem: Memory)
    ensures l == Extend(l, ToScreen, attr, Printed(LineCalls(mem, [])), TraceOf(LineCalls(mem, [])))
  {
    ExtendNone(l, ToScreen, attr);
  }

  // The walk over n encoded records.
  method WalkRecords(console: Console, mem: Memory, start: uint32, end: uint32, ghost rs: seq<Record>)
    requires console.Valid() && Lists(mem, start, end, rs) && Full(rs)
    modifies console.terminal, console.terminal.buffer, console.serial, console.itoa.buf
    ensures console.Valid()
    ensures console.Written().stream == old(console.Written().stream) + Glyphs(RecordsText(rs), old(console.Attr()))
  {
    hide Lists, Stops, Printed, LineCalls, RecordsText, TraceOf;
    RecordsShown(mem, start, end, rs);
    Walk(console, mem, start, end);
  }

  // Printing one more line.
  lemma LineStep(l: Log, attr: byte, mem: Memory, done: seq<uint32>, mm: uint32)
    requires |done| < INT_MAX
    ensures var before, c, after := LineCalls(mem, done), LineCall(mem, mm, |done|), LineCalls(mem, done + [mm]);
      Extend(Extend(l, ToScreen, attr, Printed(before), TraceOf(before)),
        ToScreen, attr, Format(c.format, c.args), CallTrace(c))
        == Extend(l, ToScreen, attr, Printed(after), TraceOf(after))
  {
    assert (done + [mm])[..|done|] == done;
    OneCall(LineCall(mem, mm, |done|));
    BothParts(l, attr, LineCalls(mem, done), [LineCall(mem, mm, |done|)]);
  }

  lemma FoundFormat(arg: Arg)
    requires arg.Num?
    ensures Plain(Call(Ascii(FOUND), [arg]))
    ensures Format(Ascii(FOUND), [arg]) == Ascii("MMAPS FOUND: ") + (Converted(D, arg) + Ascii("\n"))
  {
    hide FormatOf, ArgsOf, Ascii, Format, Converted, TextOf, Matches;
    var a, items := [Lit("\n")], [Lit("MMAPS FOUND: "), Conv(D, arg), Lit("\n")];
    LetterFormats();
    LastItem("\n");
    ItemsFormat("MMAPS FOUND: ", "%d", D, arg, "\n", a);
    assert FOUND == "MMAPS FOUND: " + ("%d" + "\n");
    assert items == [Lit("MMAPS FOUND: "), Conv(D, arg)] + a && [arg] + [] == [arg];
    FoundItems(arg);
    ItemsPlain(items);
  }

  lemma FoundItems(arg: Arg)
    requires arg.Num?
    ensures var items := [Lit("MMAPS FOUND: "), Conv(D, arg), Lit("\n")];
      AllGood(items) && TextOf(items) == Ascii("MMAPS FOUND: ") + (Converted(D, arg) + Ascii("\n"))
  {
    var c, b := [Lit("\n")] + [], [Conv(D, arg)] + ([Lit("\n")] + []);
    ItemsStep(Lit("\n"), []);
    ItemsStep(Conv(D, arg), c);
    ItemsStep(Lit("MMAPS FOUND: "), b);
    assert [Lit("MMAPS FOUND: "), Conv(D, arg), Lit("\n")] == [Lit("MMAPS FOUND: ")] + b;
    assert Ascii("\n") + [] == Ascii("\n");
  }

  lemma FoundPlain(mem: Memory, mbi: BootInfo)
    requires Size(mem, mbi.mmapAddr) > 0
    ensures Plain(FoundCall(mem, mbi))
  {
    FoundFormat(Num(ToInt32(Announced(mbi.mmapLength, Size(mem, mbi.mmapAddr)))));
  }

  // The walk over the map stops, and an int can count its lines.
  ghost predicate WalkEnds(mem: Memory, mbi: BootInfo) {
    Stops(mem, mbi.mmapAddr, End(mbi)) && Rounds(mem, mbi.mmapAddr, End(mbi)) <= INT_MAX
  }

  // What the map part of current_test prints, where there is a map.
  ghost function MapCalls(mem: Memory, mbi: BootInfo): seq<Call>
    requires Size(mem, mbi.mmapAddr) > 0 && WalkEnds(mem, mbi)
  {
    [FoundCall(mem, mbi)] + LineCalls(mem, Visited(mem, mbi.mmapAddr, End(mbi)))
  }

  // The map part of current_test: the announced number, then the walk.  A first
  // record of size zero stops the processor: the code divides by it.
  method PrintMap(console: Console, mem: Memory, mbi: BootInfo) returns (divided: bool)
    requires console.Valid()
    requires HasMap(mbi) && Size(mem, mbi.mmapAddr) > 0 ==> WalkEnds(mem, mbi)
    modifies console.terminal, console.terminal.buffer, console.serial, console.itoa.buf
    ensures console.Valid() && console.Attr() == old(console.Attr())
    ensures !divided <==> HasMap(mbi) && Size(mem, mbi.mmapAddr) == 0
    ensures console.Written() ==
      if !HasMap(mbi) || !divided then old(console.Written())
      else Extend(old(console.Written()), ToScreen, console.Attr(),
        Printed(MapCalls(mem, mbi)), TraceOf(MapCalls(mem, mbi)))
  {
    if mbi.flags / 64 % 2 == 1 {
      if Size(mem, mbi.mmapAddr) == 0 {
        return false;
      }
      FoundPlain(mem, mbi);
      SayAndWalk(console, mem, mbi.mmapAddr, End(mbi), FoundCall(mem, mbi));
    }
    return true;
  }

  // What mmap_length is, for a map of encoded records.
  ghost predicate Describes(mem: Memory, mbi: BootInfo, rs: seq<Record>) {
    && HasMap(mbi) && mbi.mmapAddr + mbi.mmapLength < TWO_32
    && Lists(mem, mbi.mmapAddr, mbi.mmapAddr + mbi.mmapLength, rs)
  }

  lemma FirstSize(mem: Memory, mbi: BootInfo, rs: seq<Record>)
    requires Describes(mem, mbi, rs) && rs != []
    ensures Size(mem, mbi.mmapAddr) == |rs[0]| && mbi.mmapLength == |EncodeAll(rs)|
    ensures End(mbi) == mbi.mmapAddr + mbi.mmapLength
  {
    hide Size;
    HoldsParts(mem, mbi.mmapAddr, Encode(rs[0]), EncodeAll(rs[1..]));
    SizeEncoded(mem, mbi.mmapAddr, rs[0]);
  }

  // The number as int, for records of 20 bytes and more.
  lemma AnnouncedSmall(length: uint32, size: uint32)
    requires size >= 20
    ensures ToInt32(Announced(length, size)) == Announced(length, size) == length / size
  {
    hide Announced;
    AnnouncedIs(length, size);
    SmallQuotient(length, size, Announced(length, size));
  }

  lemma AnnouncedIs(length: uint32, size: uint32)
    requires size > 0
    ensures Announced(length, size) == length / size
  {}

  lemma SmallQuotient(m: uint32, s: nat, q: nat)
    requires s >= 20 && q * s <= m
    ensures q <= INT_MAX
  {
    Scaled(20, s, q);
  }

  // What the call for the number prints.
  lemma FoundText(mem: Memory, mbi: BootInfo) returns (count: seq<byte>)
    requires Size(mem, mbi.mmapAddr) >= 20
    ensures CanonicalInt(count) && ParseInt(count) == mbi.mmapLength / Size(mem, mbi.mmapAddr)
    ensures Printed([FoundCall(mem, mbi)]) == Ascii("MMAPS FOUND: ") + (count + Ascii("\n"))
  {
    hide Size, Format, Announced, CanonicalInt, ParseInt, Decimal, Ascii, Printed, TraceOf;
    var q := mbi.mmapLength / Size(mem, mbi.mmapAddr);
    AnnouncedSmall(mbi.mmapLength, Size(mem, mbi.mmapAddr));
    FoundFormat(Num(q));
    count := Decimal(q);
    DecimalRoundTrip(q);
    OneCall(FoundCall(mem, mbi));
  }

  lemma MapText(mem: Memory, mbi: BootInfo, rs: seq<Record>) returns (count: seq<byte>)
    requires Describes(mem, mbi, rs) && Full(rs) && rs != []
    ensures CanonicalInt(count) && ParseInt(count) == |EncodeAll(rs)| / |rs[0]|
    ensures Size(mem, mbi.mmapAddr) > 0 && WalkEnds(mem, mbi)
    ensures Printed(MapCalls(mem, mbi)) ==
      Ascii("MMAPS FOUND: ") + (count + Ascii("\n")) + RecordsText(rs)
  {
    hide Size, Lists, RecordsText, LineCalls, Stops, FoundCall, CanonicalInt, ParseInt, Ascii, Printed, TraceOf;
    var addr := mbi.mmapAddr;
    FirstSize(mem, mbi, rs);
    WalkVisitsAll(mem, addr, addr + mbi.mmapLength, rs);
    RecordsShown(mem, addr, addr + mbi.mmapLength, rs);
    count := FoundText(mem, mbi);
    PrintedConcat([FoundCall(mem, mbi)], LineCalls(mem, Visited(mem, addr, End(mbi))));
  }

  // current_test over a map of n records: the number it announces, then their
  // lines.
  method PrintRecords(console: Console, mem: Memory, mbi: BootInfo, ghost rs: seq<Record>)
    returns (ghost count: seq<byte>)
    requires console.Valid() && Describes(mem, mbi, rs) && Full(rs) && rs != []
    modifies console.terminal, console.terminal.buffer, console.serial, console.itoa.buf
    ensures console.Valid() && console.Attr() == old(console.Attr())
    ensures CanonicalInt(count) && ParseInt(count) == |EncodeAll(rs)| / |rs[0]|
    ensures (forall k :: 0 <= k < |rs| ==> |rs[k]| == |rs[0]|) ==>
      ParseInt(count) == |rs| + 4 * |rs| / |rs[0]|
    ensures console.Written().stream == old(console.Written().stream) +
      Glyphs(Ascii("MMAPS FOUND: ") + (count + Ascii("\n")) + RecordsText(rs), console.Attr())
  {
    hide Size, Describes, RecordsText, WalkEnds, MapCalls, Printed, TraceOf, CanonicalInt, ParseInt, Ascii;
    count := MapText(mem, mbi, rs);
    DescribesMap(mem, mbi, rs);
    if forall k :: 0 <= k < |rs| ==> |rs[k]| == |rs[0]| {
      UniformQuotient(rs, |rs[0]|);
    }
    var _ := PrintMap(console, mem, mbi);
  }

  lemma DescribesMap(mem: Memory, mbi: BootInfo, rs: seq<Record>)
    requires Describes(mem, mbi, rs)
    ensures HasMap(mbi)
  {}

  method SayAndWalk(console: Console, mem: Memory, start: uint32, end: uint32, found: Call)
    requires console.Valid() && Plain(found)
    requires Stops(mem, start, end) && Rounds(mem, start, end) <= INT_MAX
    modifies console.terminal, console.terminal.buffer, console.serial, console.itoa.buf
    ensures console.Valid() && console.Attr() == old(console.Attr())
    ensures var calls := [found] + LineCalls(mem, Visited(mem, start, end));
      console.Written() == Extend(old(console.Written()), ToScreen, console.Attr(), Printed(calls), TraceOf(calls))
  {
    ghost var l := console.Written();
    SayOne(console, found);
    Walk(console, mem, start, end);
    BothParts(l, console.Attr(), [found], LineCalls(mem, Visited(mem, start, end)));
  }

  lemma BothParts(l: Log, attr: byte, a: seq<Call>, b: seq<Call>)
    ensures Extend(Extend(l, ToScreen, attr, Printed(a), TraceOf(a)), ToScreen, attr, Printed(b), TraceOf(b))
      == Extend(l, ToScreen, attr, Printed(a + b), TraceOf(a + b))
  {
    ExtendTwice(l, ToScreen, attr, Printed(a), TraceOf(a), Printed(b), TraceOf(b));
    PrintedConcat(a, b);
    TraceOfConcat(a, b);
  }
}
