// The timer: its 32-bit tick counter, the seconds derived from it, the PIT
// divisor and the wait loop.
module Timing {
  import opened CInt

  // The clock the code takes the PIT to have, in Hz.
  const CLOCK: int := 1193180
  const TICKS_PER_SECOND: int := 100

  datatype Clock = Clock(ticks: uint32, seconds: nat)

  // timer_handler, on values; the C int seconds is unbounded here.
  function Tick(c: Clock): Clock {
    var t := (c.ticks + 1) % TWO_32;
    Clock(t, if t % TICKS_PER_SECOND == 0 then c.seconds + 1 else c.seconds)
  }

  function After(n: nat): Clock {
    if n == 0 then Clock(0, 0) else Tick(After(n - 1))
  }

  // Seconds counted after n interrupts: a full turn of the counter adds
  // 42949673, because the turn to zero counts although 2^32 is no multiple of
  // 100.
  function SecondsAfter(n: nat): nat {
    n / TWO_32 * 42949673 + n % TWO_32 / TICKS_PER_SECOND
  }

  lemma Turn(n: nat)
    ensures (n + 1) % TWO_32 == if n % TWO_32 == TWO_32 - 1 then 0 else n % TWO_32 + 1
    ensures (n + 1) / TWO_32 == n / TWO_32 + if n % TWO_32 == TWO_32 - 1 then 1 else 0
  {}

  lemma NextTick(n: nat)
    ensures (n % TWO_32 + 1) % TWO_32 == (n + 1) % TWO_32
  {
    Turn(n);
  }

  lemma Hundred(r: nat)
    ensures (r + 1) / 100 == r / 100 + if (r + 1) % 100 == 0 then 1 else 0
  {}

  lemma SecondsStep(n: nat)
    ensures SecondsAfter(n + 1) == SecondsAfter(n) + if (n + 1) % TWO_32 % 100 == 0 then 1 else 0
  {
    Turn(n);
    Hundred(n % TWO_32);
    assert n % TWO_32 == TWO_32 - 1 ==> n % TWO_32 / 100 == 42949672;
  }

  lemma {:induction false} AfterInClosedForm(n: nat)
    ensures After(n) == Clock(n % TWO_32, SecondsAfter(n))
  {
    if n > 0 {
      AfterInClosedForm(n - 1);
      SecondsStep(n - 1);
      NextTick(n - 1);
    }
  }

  lemma {:induction false} SecondsGrow(m: nat, n: nat)
    requires m <= n
    ensures After(m).seconds <= After(n).seconds
    decreases n
  {
    if m < n {
      SecondsGrow(m, n - 1);
    }
  }

  // ----- timer_phase

  function Divisor(hz: int): int
    requires hz != 0
  {
    if hz > 0 then CDiv(CLOCK, hz) else -CDiv(CLOCK, -hz)
  }

  // What outb sends: the low byte, then the next one.
  function LowByte(d: int): byte {
    d % 0x100
  }

  function HighByte(d: int): byte {
    d / 0x100 % 0x100
  }

  // The count two bytes stand for; zero stands for 65536.
  function Reload(low: byte, high: byte): int {
    if low == 0 && high == 0 then 0x1_0000 else low + 0x100 * high
  }

  // Channel 0 of the 8254: which bytes of the count its port takes (1: the low
  // one, 2: the high one, 3: first the low one and then the high one), whether
  // the low one has come, its operating mode, and the count it reloads.
  datatype Channel = Channel(access: nat, half: bool, low: byte, mode: nat, bcd: bool, reload: int)

  // Port 0x43: bits 7 and 6 select the channel, 5 and 4 the access (0 latches
  // the running count), 3 to 1 the mode, and bit 0 counting in BCD.
  function Control(c: Channel, v: byte): Channel {
    if v / 0x40 != 0 || v / 0x10 % 4 == 0 then c
    else c.(access := v / 0x10 % 4, half := false, mode := v / 2 % 8, bcd := v % 2 == 1)
  }

  // Port 0x40.
  function CountByte(c: Channel, v: byte): Channel {
    if c.access == 1 then c.(reload := Reload(v, 0))
    else if c.access == 2 then c.(reload := Reload(0, v))
    else if !c.half then c.(low := v, half := true)
    else c.(reload := Reload(c.low, v), half := false)
  }

  function Outb(c: Channel, port: int, v: byte): Channel {
    if port == 0x43 then Control(c, v) else if port == 0x40 then CountByte(c, v) else c
  }

  // In binary counting, as a square wave, with no half count pending.
  predicate SquareWave(c: Channel) {
    c.mode == 3 && !c.bcd && c.access == 3 && !c.half
  }

  // The two bytes are all a channel can hold of a divisor.
  lemma ReloadOf(d: int)
    ensures Reload(LowByte(d), HighByte(d)) == (d - 1) % 0x1_0000 + 1
  {
    var r := d % 0x1_0000;
    assert d == 0x1_0000 * (d / 0x1_0000) + r;
    assert LowByte(d) == r % 0x100 && HighByte(d) == r / 0x100;
  }

  // The channel gets the divisor exactly for rates from 19 to 1193180 Hz:
  // below, it does not fit 16 bits, and above (and for negative rates) it is
  // not positive.
  lemma DivisorFits(hz: int)
    requires hz != 0
    ensures Reload(LowByte(Divisor(hz)), HighByte(Divisor(hz))) == Divisor(hz) <==> 19 <= hz <= CLOCK
  {
    hide Reload, LowByte, HighByte, Divisor;
    HoldsCount(Divisor(hz));
    DivisorRange(hz);
  }

  lemma HoldsCount(d: int)
    ensures Reload(LowByte(d), HighByte(d)) == d <==> 1 <= d <= 0x1_0000
  {
    hide Reload, LowByte, HighByte;
    ReloadOf(d);
  }

  lemma DivisorRange(hz: int)
    requires hz != 0
    ensures 1 <= Divisor(hz) <= 0x1_0000 <==> 19 <= hz <= CLOCK
  {
    var d := Divisor(hz);
    if hz > 0 {
      DivBounds(CLOCK, hz, d);
      if hz <= 18 {
        Product(d + 1, 66286, hz, 18);
      } else {
        Product(62799, d, 19, hz);
        if hz > CLOCK {
          Product(1, d, CLOCK + 1, hz);
        } else {
          Product(d + 1, 1, hz, CLOCK);
        }
      }
    } else {
      DivBounds(CLOCK, -hz, CLOCK / -hz);
    }
  }

  // It is the quotient truncated toward zero, for negative rates too.
  lemma DivisorTruncates(hz: int)
    requires hz != 0
    ensures var d := Divisor(hz); d * hz <= CLOCK < d * hz + if hz > 0 then hz else -hz
  {
    var n := if hz > 0 then hz else -hz;
    var q := CLOCK / n;
    DivBounds(CLOCK, n, q);
    assert Divisor(hz) * hz == q * n by { SameProduct(q, n, Divisor(hz), hz); }
    assert (q + 1) * n == q * n + n;
  }

  lemma SameProduct(q: int, n: int, d: int, hz: int)
    requires (d == q && hz == n) || (d == -q && hz == -n)
    ensures d * hz == q * n
  {}

  lemma DivBounds(a: nat, b: nat, q: int)
    requires b > 0 && q == a / b
    ensures q >= 0 && q * b <= a < (q + 1) * b
  {
    assert a == q * b + a % b;
  }

  // Contraposed monotonicity, for the cases above.
  lemma Product(x: nat, y: nat, b: nat, c: nat)
    requires b <= c
    ensures x <= y ==> x * b <= y * c
  {
    if x <= y {
      assert x * b <= y * b;
      assert y * b <= y * c;
    }
  }

  // ----- seconds against real time

  function Elapsed(n: nat, divisor: int): real {
    n as real * divisor as real / CLOCK as real
  }

  // Before the counter first wraps, at the rate timer_install asks for, the
  // kernel's seconds are ahead of real time by at most n * 80 / 119318000, and
  // by more than that less one second.
  lemma Drift(n: nat)
    requires n < TWO_32
    ensures Divisor(TICKS_PER_SECOND) == 11931
    ensures var ahead := After(n).seconds as real - Elapsed(n, 11931);
      n as real * 80.0 / 119318000.0 - 1.0 < ahead <= n as real * 80.0 / 119318000.0
  {
    FirstTurn(n);
    DriftOf(n, After(n).seconds);
  }

  lemma FirstTurn(n: nat)
    requires n < TWO_32
    ensures After(n).seconds == n / 100
  {
    AfterInClosedForm(n);
    NoTurn(n);
  }

  lemma NoTurn(n: nat)
    requires n < TWO_32
    ensures SecondsAfter(n) == n / 100
  {}

  lemma DriftOf(n: nat, s: nat)
    requires s == n / 100
    ensures var ahead := s as real - Elapsed(n, 11931);
      n as real * 80.0 / 119318000.0 - 1.0 < ahead <= n as real * 80.0 / 119318000.0
  {
    ElapsedIs(n);
    WholePart(n, s);
  }

  lemma ElapsedIs(n: nat)
    ensures Elapsed(n, 11931) == n as real / 100.0 - n as real * 80.0 / 119318000.0
  {}

  lemma WholePart(n: nat, s: nat)
    requires 100 * s <= n < 100 * s + 100
    ensures n as real / 100.0 - 1.0 < s as real <= n as real / 100.0
  {
    assert s as real * 100.0 <= n as real < s as real * 100.0 + 100.0;
  }

  // ----- the driver

  class Timer {
    var ticks: uint32
    var seconds: int32
    var channel: Channel
    ghost var interrupts: nat

    ghost predicate Valid()
      reads this`ticks, this`seconds, this`interrupts
    {
      After(interrupts).ticks == ticks && After(interrupts).seconds == seconds
    }

    constructor (channel: Channel)
      ensures Valid() && interrupts == 0 && this.channel == channel
    {
      ticks, seconds, interrupts := 0, 0, 0;
      this.channel := channel;
    }

    // timer_handler, as long as the int seconds does not overflow.
    method Handler()
      requires Valid() && After(interrupts + 1).seconds <= INT_MAX
      modifies this`ticks, this`seconds, this`interrupts
      ensures Valid() && interrupts == old(interrupts) + 1
      ensures ticks == (old(ticks) + 1) % TWO_32
    {
      ticks := (ticks + 1) % TWO_32;
      if ticks % 100 == 0 {
        seconds := seconds + 1;
      }
      interrupts := interrupts + 1;
    }

    // timer_wait, with one timer interrupt per hlt.
    method Wait(count: int32)
      requires Valid() && After(interrupts + Waits(ticks, count)).seconds <= INT_MAX
      modifies this`ticks, this`seconds, this`interrupts
      ensures Valid() && interrupts == old(interrupts) + Waits(old(ticks), count)
    {
      var eticks: uint32 := (ticks + count) % TWO_32;
      WaitUntil(eticks);
    }

    method WaitUntil(eticks: uint32)
      requires Valid() && After(interrupts + Until(ticks, eticks)).seconds <= INT_MAX
      modifies this`ticks, this`seconds, this`interrupts
      ensures Valid() && interrupts == old(interrupts) + Until(old(ticks), eticks)
    {
      hide After;
      ghost var last := interrupts + Until(ticks, eticks);
      while ticks < eticks
        invariant Valid() && interrupts + Until(ticks, eticks) == last
        decreases eticks - ticks
      {
        SecondsGrow(interrupts + 1, last);
        UntilStep(ticks, eticks);
        Handler();
      }
    }

    method WritePort(port: int, v: byte)
      modifies this`channel
      ensures channel == Outb(old(channel), port, v)
    {
      channel := Outb(channel, port, v);
    }

    // timer_phase.  Whatever state the channel was in, it reloads the divisor
    // modulo 65536 from then on.  That is the divisor, the largest count whose
    // rate is not below the one asked for, exactly for 19 to 1193180 Hz.
    method Phase(hz: int32)
      requires hz != 0
      modifies this`channel
      ensures SquareWave(channel)
      ensures channel.reload == (Divisor(hz) - 1) % 0x1_0000 + 1
      ensures channel.reload == Divisor(hz) <==> 19 <= hz <= CLOCK
      ensures hz > 0 ==> (channel.reload * hz <= CLOCK < (channel.reload + 1) * hz <==> 19 <= hz <= CLOCK)
    {
      var divisor := Divisor(hz);
      ReloadOf(divisor);
      DivisorFits(hz);
      RateBracketed(hz, Reload(LowByte(divisor), HighByte(divisor)));
      WritePort(0x43, 0x36);
      WritePort(0x40, LowByte(divisor));
      WritePort(0x40, HighByte(divisor));
    }
  }

  // A count brackets the rate exactly when it is the divisor.
  lemma RateBracketed(hz: int, count: nat)
    requires hz != 0
    ensures hz > 0 ==> (count * hz <= CLOCK < (count + 1) * hz <==> count == Divisor(hz))
  {
    if hz > 0 {
      var d := Divisor(hz);
      DivBounds(CLOCK, hz, d);
      if count < d {
        assert (count + 1) * hz <= d * hz by { Times(count + 1, d, hz); }
      } else if d < count {
        assert (d + 1) * hz <= count * hz by { Times(d + 1, count, hz); }
      }
    }
  }

  lemma Times(x: nat, y: nat, b: nat)
    requires x <= y
    ensures x * b <= y * b
  {}

  // How many interrupts the loop lets pass until the counter reaches eticks.
  function Until(ticks: uint32, eticks: uint32): nat {
    if ticks < eticks then eticks - ticks else 0
  }

  lemma UntilStep(ticks: uint32, eticks: uint32)
    requires ticks < eticks
    ensures (ticks + 1) % TWO_32 == ticks + 1 && Until(ticks + 1, eticks) == Until(ticks, eticks) - 1
  {}

  // And timer_wait(count), from a given counter value: the target wraps.
  function Waits(ticks: uint32, count: int32): nat {
    Until(ticks, (ticks + count) % TWO_32)
  }

  // It waits as long as asked (not at all for a negative count) exactly when
  // the target does not wrap.  Past 2^32 it does not wait; below zero it waits
  // for almost a whole turn of the counter.
  lemma WaitsAsAsked(ticks: uint32, count: int32)
    ensures Waits(ticks, count) == (if count > 0 then count else 0) <==> 0 <= ticks + count < TWO_32
    ensures ticks + count >= TWO_32 ==> Waits(ticks, count) == 0
    ensures ticks + count < 0 ==> Waits(ticks, count) == TWO_32 + count
  {}
}
