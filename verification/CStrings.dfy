// strlen, memmove, strcpy and strrev on byte arrays.  A char* is an array
// together with an offset into it, so two pointers may overlap.
module CStrings {
  import opened CInt
  import opened SerialPort

  // ----- NUL-terminated strings in memory

  ghost predicate Terminated(m: seq<byte>, p: nat) {
    exists n :: p <= n < |m| && m[n] == 0
  }

  // The first NUL from p on is n bytes away.
  ghost predicate NulAfter(m: seq<byte>, p: nat, n: nat) {
    p + n < |m| && m[p + n] == 0 && forall k :: p <= k < p + n ==> m[k] != 0
  }

  lemma {:induction false} FirstNul(m: seq<byte>, p: nat) returns (n: nat)
    requires Terminated(m, p)
    ensures NulAfter(m, p, n)
    decreases |m| - p
  {
    if m[p] == 0 {
      n := 0;
    } else {
      n := FirstNul(m, p + 1);
      n := n + 1;
    }
  }

  lemma HasFirstNul(m: seq<byte>, p: nat)
    requires Terminated(m, p)
    ensures exists n: nat :: NulAfter(m, p, n)
  {
    var n := FirstNul(m, p);
  }

  ghost function Length(m: seq<byte>, p: nat): (n: nat)
    requires Terminated(m, p)
    ensures NulAfter(m, p, n)
  {
    HasFirstNul(m, p);
    var n: nat :| NulAfter(m, p, n);
    n
  }

  ghost function Text(m: seq<byte>, p: nat): (s: seq<byte>)
    requires Terminated(m, p)
    ensures 0 !in s
  {
    m[p..p + Length(m, p)]
  }

  lemma LengthIs(m: seq<byte>, p: nat, n: nat)
    requires p + n < |m| && m[p + n] == 0
    requires forall k :: p <= k < p + n ==> m[k] != 0
    ensures Terminated(m, p) && Length(m, p) == n
  {}

  // Where a NUL-free s and then a NUL stand, there is the string s.
  lemma TextIs(m: seq<byte>, p: nat, s: seq<byte>)
    requires p + |s| < |m| && m[p + |s|] == 0
    requires forall k :: p <= k < p + |s| ==> m[k] == s[k - p]
    requires 0 !in s
    ensures Terminated(m, p) && Text(m, p) == s
  {
    forall k | p <= k < p + |s| ensures m[k] != 0 {
      assert s[k - p] in s;
    }
    LengthIs(m, p, |s|);
  }

  // Moving a pointer along its string.
  lemma TextFrom(m: seq<byte>, p: nat, k: nat)
    requires Terminated(m, p) && k <= Length(m, p)
    ensures Terminated(m, p + k) && Text(m, p + k) == Text(m, p)[k..]
    ensures m[p..p + k] == Text(m, p)[..k]
  {
    LengthIs(m, p + k, Length(m, p) - k);
  }

  method Strlen(str: array<byte>, p: nat) returns (len: nat)
    requires Terminated(str[..], p)
    ensures len == Length(str[..], p)
    ensures p + len < str.Length
  {
    ghost var n := Length(str[..], p);
    len := 0;
    while str[p + len] != 0
      invariant len <= n
      decreases n - len
    {
      len := len + 1;
    }
  }

  // ----- memmove

  // m with its bytes from position p on replaced by s.
  function Splice(m: seq<byte>, p: nat, s: seq<byte>): (r: seq<byte>)
    requires p + |s| <= |m|
    ensures |r| == |m|
  {
    m[..p] + s + m[p + |s|..]
  }

  // Both pointers lie in one array, so the ranges may overlap in any way.
  method Memmove(mem: array<byte>, dst: nat, src: nat, size: nat)
    requires dst + size <= mem.Length && src + size <= mem.Length
    modifies mem
    ensures mem[..] == Splice(old(mem[..]), dst, old(mem[src..src + size]))
  {
    ghost var m := mem[..];
    if dst < src {
      for i := 0 to size
        invariant forall k :: 0 <= k < mem.Length && !(dst <= k < dst + i) ==> mem[k] == m[k]
        invariant forall k :: dst <= k < dst + i ==> mem[k] == m[k - dst + src]
      {
        mem[dst + i] := mem[src + i];
      }
    } else {
      for i := size downto 0
        invariant forall k :: 0 <= k < mem.Length && !(dst + i <= k < dst + size) ==> mem[k] == m[k]
        invariant forall k :: dst + i <= k < dst + size ==> mem[k] == m[k - dst + src]
      {
        mem[dst + i] := mem[src + i];
      }
    }
    SpliceAt(m, dst, m[src..src + size], mem[..]);
  }

  lemma SpliceAt(m: seq<byte>, p: nat, s: seq<byte>, r: seq<byte>)
    requires p + |s| <= |m|
    ensures r == Splice(m, p, s) <==>
      && |r| == |m|
      && (forall k :: p <= k < p + |s| ==> r[k] == s[k - p])
      && (forall k :: 0 <= k < |m| && !(p <= k < p + |s|) ==> r[k] == m[k])
  {}

  lemma SpliceOver(m: seq<byte>, p: nat, s: seq<byte>, t: seq<byte>)
    requires |s| == |t| && p + |s| <= |m|
    ensures Splice(Splice(m, p, s), p, t) == Splice(m, p, t)
  {
    var r := Splice(m, p, s);
    assert r[..p] == m[..p];
    assert r[p + |s|..] == m[p + |s|..];
  }

  lemma SplicePrepend(m: seq<byte>, p: nat, c: byte, s: seq<byte>)
    requires p + 1 + |s| <= |m|
    ensures Splice(m, p + 1, s)[p := c] == Splice(m, p, [c] + s)
  {}

  // ----- strcpy

  const STRCPY_WARNING: string :=
    "strcpy() used. Please switch to strdup once working malloc() implemented.\n"

  // The string that stood at from on entry stands at to afterwards, even when
  // copying it overwrites from.
  method Strcpy(mem: array<byte>, to: nat, from: nat, serial: Serial)
    requires Terminated(mem[..], from)
    requires to + Length(mem[..], from) < mem.Length
    modifies mem, serial
    ensures mem[..] == Splice(old(mem[..]), to, old(Text(mem[..], from)) + [0])
    ensures Terminated(mem[..], to) && Text(mem[..], to) == old(Text(mem[..], from))
    ensures serial.text == old(serial.text)
    ensures serial.trace == old(serial.trace) + Ascii(STRCPY_WARNING)
  {
    ghost var m := mem[..];
    ghost var s := Text(m, from);
    serial.Writes(Ascii(STRCPY_WARNING));
    var len := Strlen(mem, from);
    assert mem[from..from + 1 + len] == s + [0];
    Memmove(mem, to, from, 1 + len);
    SpliceAt(m, to, s + [0], mem[..]);
    assert mem[..][to + len] == (s + [0])[len];
    TextIs(mem[..], to, s);
  }

  // ----- strrev

  lemma ReverseInvolutive<T>(s: seq<T>)
    ensures Reverse(Reverse(s)) == s
  {
    assert forall k :: 0 <= k < |s| ==> Reverse(Reverse(s))[k] == s[k];
  }

  // The bytes strrev leaves on the serial line when it reverses s.
  function ReverseTrace(s: seq<byte>): seq<byte> {
    if s == [] then Ascii("!str || !*str") else Ascii("12\n") + SwapTrace(s, |s| / 2)
  }

  function SwapTrace(s: seq<byte>, d: nat): seq<byte>
    requires d <= |s| / 2
  {
    if d == 0 then [] else SwapTrace(s, d - 1) + [s[d - 1], s[|s| - d], 10]
  }

  // Round by round: the two bytes about to be exchanged and a newline.
  lemma {:induction false} SwapTraceAt(s: seq<byte>, d: nat, k: nat)
    requires k < d <= |s| / 2
    ensures |SwapTrace(s, d)| == 3 * d
    ensures SwapTrace(s, d)[3 * k..3 * k + 3] == [s[k], s[|s| - 1 - k], 10]
  {
    if k < d - 1 {
      SwapTraceAt(s, d - 1, k);
      assert SwapTrace(s, d)[3 * k..3 * k + 3] == SwapTrace(s, d - 1)[3 * k..3 * k + 3];
    } else if d > 1 {
      SwapTraceAt(s, d - 1, 0);
    }
  }

  lemma Assoc<T>(a: seq<T>, b: seq<T>, c: seq<T>)
    ensures (a + b) + c == a + (b + c)
  {}

  // *p ^= *q; *q ^= *p; *p ^= *q
  method XorExchange(mem: array<byte>, p: nat, q: nat)
    requires p < mem.Length && q < mem.Length && p != q
    modifies mem
    ensures mem[..] == old(mem[..])[p := old(mem[q])][q := old(mem[p])]
  {
    XorSwap(mem[p], mem[q]);
    mem[p] := Xor(mem[p], mem[q]);
    mem[q] := Xor(mem[q], mem[p]);
    mem[p] := Xor(mem[p], mem[q]);
  }

  // Memory and trace after d rounds of exchanging the outermost bytes not yet
  // exchanged of the range [p, p + n) of m.
  datatype Rounds = Rounds(mem: seq<byte>, trace: seq<byte>)

  function SwapRounds(m: seq<byte>, p: nat, n: nat, d: nat): (r: Rounds)
    requires p + n <= |m| && d <= n / 2
    ensures |r.mem| == |m|
  {
    if d == 0 then Rounds(m, []) else SwapRound(SwapRounds(m, p, n, d - 1), p + d - 1, p + n - d)
  }

  function SwapRound(r: Rounds, p1: nat, p2: nat): Rounds
    requires p1 < p2 < |r.mem|
  {
    Rounds(r.mem[p1 := r.mem[p2]][p2 := r.mem[p1]], r.trace + [r.mem[p1], r.mem[p2], 10])
  }

  lemma {:induction false} SwappedAt(m: seq<byte>, p: nat, n: nat, d: nat, k: nat)
    requires p + n <= |m| && d <= n / 2 && k < |m|
    ensures SwapRounds(m, p, n, d).mem[k] ==
      if p <= k < p + d || p + n - d <= k < p + n then m[2 * p + n - 1 - k] else m[k]
  {
    hide SwapRound;
    if d > 0 {
      RoundAt(SwapRounds(m, p, n, d - 1), p + d - 1, p + n - d, k);
      SwappedAt(m, p, n, d - 1, k);
      SwappedAt(m, p, n, d - 1, p + d - 1);
      SwappedAt(m, p, n, d - 1, p + n - d);
    }
  }

  lemma RoundAt(r: Rounds, p1: nat, p2: nat, k: nat)
    requires p1 < p2 < |r.mem| && k < |r.mem|
    ensures |SwapRound(r, p1, p2).mem| == |r.mem|
    ensures SwapRound(r, p1, p2).mem[k] ==
      if k == p1 then r.mem[p2] else if k == p2 then r.mem[p1] else r.mem[k]
  {}

  lemma {:induction false} SwapTraceIs(m: seq<byte>, p: nat, s: seq<byte>, d: nat)
    requires p + |s| <= |m| && d <= |s| / 2 && m[p..p + |s|] == s
    ensures SwapRounds(m, p, |s|, d).trace == SwapTrace(s, d)
  {
    if d > 0 {
      SwapTraceIs(m, p, s, d - 1);
      SwappedAt(m, p, |s|, d - 1, p + d - 1);
      SwappedAt(m, p, |s|, d - 1, p + |s| - d);
    }
  }

  // Exchanging mirror-wise up to the middle reverses the range.
  lemma SwappedReverses(m: seq<byte>, p: nat, n: nat)
    requires p + n <= |m|
    ensures SwapRounds(m, p, n, n / 2).mem == Splice(m, p, Reverse(m[p..p + n]))
  {
    var r, t := SwapRounds(m, p, n, n / 2).mem, Splice(m, p, Reverse(m[p..p + n]));
    forall k | 0 <= k < |m| ensures r[k] == t[k] {
      SwappedAt(m, p, n, n / 2, k);
      SplicedReverseAt(m, p, n, k);
    }
  }

  lemma SplicedReverseAt(m: seq<byte>, p: nat, n: nat, k: nat)
    requires p + n <= |m| && k < |m|
    ensures Splice(m, p, Reverse(m[p..p + n]))[k] == if p <= k < p + n then m[2 * p + n - 1 - k] else m[k]
  {
    if p <= k < p + n {
      assert Splice(m, p, Reverse(m[p..p + n]))[k] == Reverse(m[p..p + n])[k - p];
    }
  }

  lemma ReversedText(m: seq<byte>, p: nat)
    requires Terminated(m, p)
    ensures var r := Splice(m, p, Reverse(Text(m, p)));
      Terminated(r, p) && Text(r, p) == Reverse(Text(m, p))
  {
    var s := Reverse(Text(m, p));
    forall k | 0 <= k < |s| ensures s[k] != 0 {
      assert s[k] == Text(m, p)[|s| - 1 - k];
    }
    SpliceAt(m, p, s, Splice(m, p, s));
    TextIs(Splice(m, p, s), p, s);
  }

  // The body of strrev's loop.
  method SwapPair(str: array<byte>, p1: nat, p2: nat, serial: Serial)
    requires p1 < p2 < str.Length
    modifies str, serial
    ensures str[..] == old(str[..])[p1 := old(str[p2])][p2 := old(str[p1])]
    ensures serial.text == old(serial.text)
    ensures serial.trace == old(serial.trace) + old([str[p1], str[p2], 10])
  {
    var _ := serial.Writec(str[p1], Debug);
    var _ := serial.Writec(str[p2], Debug);
    var _ := serial.Writec(10, Debug);
    XorExchange(str, p1, p2);
  }

  lemma Middle(n: nat, d: nat)
    requires d <= n / 2 && n - 1 <= 2 * d
    ensures d == n / 2
  {}

  // The swapping loop for a non-empty string of length len.
  method SwapEnds(str: array<byte>, p: nat, len: nat, serial: Serial)
    requires 0 < len && p + len < str.Length
    modifies str, serial
    ensures str[..] == SwapRounds(old(str[..]), p, len, len / 2).mem
    ensures serial.text == old(serial.text)
    ensures serial.trace == old(serial.trace) + SwapRounds(old(str[..]), p, len, len / 2).trace
  {
    ghost var m := str[..];
    var p1, p2 := p, p + len - 1;
    while p2 > p1
      invariant p <= p1 <= p + len / 2 && p2 == 2 * p + len - 1 - p1
      invariant str[..] == SwapRounds(m, p, len, p1 - p).mem
      invariant serial.text == old(serial.text)
      invariant serial.trace == old(serial.trace) + SwapRounds(m, p, len, p1 - p).trace
      decreases p2 - p1
    {
      Assoc(old(serial.trace), SwapRounds(m, p, len, p1 - p).trace, [str[p1], str[p2], 10]);
      SwapPair(str, p1, p2, serial);
      p1, p2 := p1 + 1, p2 - 1;
    }
    Middle(len, p1 - p);
  }

  lemma SwappedReversesText(m: seq<byte>, p: nat, s: seq<byte>)
    requires p + |s| <= |m| && s == m[p..p + |s|]
    ensures SwapRounds(m, p, |s|, |s| / 2).mem == Splice(m, p, Reverse(s))
  {
    hide SwapRounds, Splice, Reverse;
    SwappedReverses(m, p, |s|);
  }

  lemma RoundsReverse(m: seq<byte>, p: nat, s: seq<byte>)
    requires p + |s| <= |m| && s == m[p..p + |s|]
    ensures SwapRounds(m, p, |s|, |s| / 2) == Rounds(Splice(m, p, Reverse(s)), SwapTrace(s, |s| / 2))
  {
    SwappedReversesText(m, p, s);
    SwapTraceIs(m, p, s, |s| / 2);
  }

  method ReverseInPlace(str: array<byte>, p: nat, serial: Serial, ghost s: seq<byte>)
    requires Terminated(str[..], p) && s == Text(str[..], p) && s != []
    modifies str, serial
    ensures str[..] == Splice(old(str[..]), p, Reverse(s))
    ensures serial.text == old(serial.text)
    ensures serial.trace == old(serial.trace) + SwapTrace(s, |s| / 2)
  {
    RoundsReverse(str[..], p, s);
    var len := Strlen(str, p);
    SwapEnds(str, p, len, serial);
  }

  // str may be null.
  method Strrev(str: array?<byte>, p: nat, serial: Serial)
    requires str != null ==> Terminated(str[..], p)
    modifies str, serial
    ensures str != null ==>
      && str[..] == Splice(old(str[..]), p, Reverse(old(Text(str[..], p))))
      && Terminated(str[..], p)
      && Text(str[..], p) == Reverse(old(Text(str[..], p)))
    ensures serial.text == old(serial.text)
    ensures serial.trace == old(serial.trace)
      + ReverseTrace(if str == null then [] else old(Text(str[..], p)))
  {
    if str == null {
      serial.Writes(Ascii("!str || !*str"));
      return;
    }
    ReversedText(str[..], p);
    if str[p] == 0 {
      serial.Writes(Ascii("!str || !*str"));
      return;
    }
    ghost var trace, s := serial.trace, Text(str[..], p);
    serial.Writes(Ascii("12\n"));
    ReverseInPlace(str, p, serial, s);
    Assoc(trace, Ascii("12\n"), SwapTrace(s, |s| / 2));
  }

  // strrev of strrev restores all of memory.
  lemma StrrevTwice(m: seq<byte>, p: nat)
    requires Terminated(m, p)
    ensures var r := Splice(m, p, Reverse(Text(m, p)));
      Terminated(r, p) && Splice(r, p, Reverse(Text(r, p))) == m
  {
    ReversedText(m, p);
    ReverseInvolutive(Text(m, p));
    SpliceBack(m, p, Text(m, p), Reverse(Text(m, p)));
  }

  lemma SpliceBack(m: seq<byte>, p: nat, s: seq<byte>, t: seq<byte>)
    requires p + |s| <= |m| && m[p..p + |s|] == s && |t| == |s|
    ensures Splice(Splice(m, p, t), p, s) == m
  {
    SpliceOver(m, p, t, s);
    assert Splice(m, p, s) == m;
  }
}
