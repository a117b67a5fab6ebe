// PS/2 scan code set 2 as ps2kb_handler reads it: how bytes frame events, and
// what events do to the modifier state.
module Scancodes {
  import opened CInt

  const EXTENDED: byte := 0xE0
  const RELEASE: byte := 0xF0

  const LCTL: byte := 0x14
  const LALT: byte := 0x11
  const LSHF: byte := 0x12
  const RSHF: byte := 0x59
  const MOD: byte := 0x1F

  // ----- framing

  // The bytes ps2_read delivers, one after the other, for ever.
  type Line = nat -> byte

  datatype Event = Event(extended: bool, down: bool, code: byte)

  // The event at pos, and where the next one starts.
  function Decode(w: Line, pos: nat): (Event, nat) {
    if w(pos) == RELEASE then (Event(false, false, w(pos + 1)), pos + 2)
    else if w(pos) == EXTENDED then
      if w(pos + 1) == RELEASE then (Event(true, false, w(pos + 2)), pos + 3)
      else (Event(true, true, w(pos + 1)), pos + 2)
    else (Event(false, true, w(pos)), pos + 1)
  }

  function Encode(e: Event): (bytes: seq<byte>) {
    (if e.extended then [EXTENDED] else []) + (if e.down then [] else [RELEASE]) + [e.code]
  }

  ghost predicate Carries(w: Line, pos: nat, bytes: seq<byte>) {
    forall i :: 0 <= i < |bytes| ==> w(pos + i) == bytes[i]
  }

  // What the handler reads is, byte for byte, the encoding of what it sees.
  lemma DecodeReadsAll(w: Line, pos: nat)
    ensures var (e, next) := Decode(w, pos);
      next == pos + |Encode(e)| && Carries(w, pos, Encode(e))
  {}

  // The code does not read as a prefix where it stands.
  predicate Unambiguous(e: Event) {
    e.down ==> e.code != RELEASE && (e.code == EXTENDED ==> e.extended)
  }

  ghost predicate RoundTrips(e: Event) {
    forall w: Line, pos: nat :: Carries(w, pos, Encode(e)) ==> Decode(w, pos) == (e, pos + |Encode(e)|)
  }

  // An event survives the round trip, whatever follows it, exactly when its
  // encoding is unambiguous.
  lemma RoundTripIff(e: Event)
    ensures RoundTrips(e) <==> Unambiguous(e)
  {
    forall w: Line, pos: nat | Unambiguous(e) && Carries(w, pos, Encode(e))
      ensures Decode(w, pos) == (e, pos + |Encode(e)|)
    {
      DecodeEncoded(w, pos, e);
    }
    if !Unambiguous(e) {
      var w: Line := (i: nat) => if i < |Encode(e)| then Encode(e)[i] else 0;
      assert Carries(w, 0, Encode(e));
      assert Decode(w, 0).0 != e;
    }
  }

  lemma DecodeEncoded(w: Line, pos: nat, e: Event)
    requires Unambiguous(e) && Carries(w, pos, Encode(e))
    ensures Decode(w, pos) == (e, pos + |Encode(e)|)
  {
    var b := Encode(e);
    assert w(pos + 0) == b[0];
    assert |b| > 1 ==> w(pos + 1) == b[1];
    assert |b| > 2 ==> w(pos + 2) == b[2];
  }

  function EncodeAll(es: seq<Event>): seq<byte> {
    if es == [] then [] else EncodeAll(es[..|es| - 1]) + Encode(es[|es| - 1])
  }

  // n events from pos on, and where the one after them starts.
  function DecodeAll(w: Line, pos: nat, n: nat): (seq<Event>, nat) {
    if n == 0 then ([], pos)
    else
      var (es, next) := DecodeAll(w, pos, n - 1);
      (es + [Decode(w, next).0], Decode(w, next).1)
  }

  lemma CarriesParts(w: Line, pos: nat, a: seq<byte>, b: seq<byte>)
    requires Carries(w, pos, a + b)
    ensures Carries(w, pos, a) && Carries(w, pos + |a|, b)
  {
    forall i | 0 <= i < |a| ensures w(pos + i) == a[i] {
      assert (a + b)[i] == a[i];
    }
    forall i | 0 <= i < |b| ensures w(pos + |a| + i) == b[i] {
      assert w(pos + (|a| + i)) == (a + b)[|a| + i];
    }
  }

  // Any sequence of events comes back, and uses up exactly its own bytes.
  lemma {:induction false} StreamRoundTrip(w: Line, pos: nat, es: seq<Event>)
    requires Carries(w, pos, EncodeAll(es))
    requires forall i :: 0 <= i < |es| ==> Unambiguous(es[i])
    ensures DecodeAll(w, pos, |es|) == (es, pos + |EncodeAll(es)|)
  {
    if es != [] {
      hide Decode, Encode, Carries, Unambiguous;
      var t, e := es[..|es| - 1], es[|es| - 1];
      CarriesParts(w, pos, EncodeAll(t), Encode(e));
      StreamRoundTrip(w, pos, t);
      DecodeEncoded(w, pos + |EncodeAll(t)|, e);
      assert es == t + [e];
    }
  }

  // ----- modifiers

  datatype Mods = Mods(
    lshift: bool, rshift: bool, lctrl: bool, rctrl: bool, lalt: bool, ralt: bool, mod: bool)
  {
    predicate Control() { lctrl || rctrl }
    predicate Alt() { lalt || ralt }
    predicate Shift() { lshift || rshift }
  }

  // ps2kb_init, over zeroed static storage.
  const RELEASED: Mods := Mods(false, false, false, false, false, false, false)

  // The first switch: only behind an E0 prefix.
  function ExtendedSwitch(m: Mods, e: Event): Mods {
    if !e.extended then m
    else if e.code == LCTL then m.(rctrl := e.down)
    else if e.code == LALT then m.(ralt := e.down)
    else if e.code == MOD then m.(mod := e.down)
    else m
  }

  // The second switch: whatever the prefix was.
  function CommonSwitch(m: Mods, e: Event): Mods {
    if e.code == LSHF then m.(lshift := e.down)
    else if e.code == LCTL then m.(lctrl := e.down)
    else if e.code == LALT then m.(lalt := e.down)
    else if e.code == RSHF then m.(rshift := e.down)
    else if e.code == MOD then m.(mod := e.down)
    else m
  }

  function Track(m: Mods, e: Event): Mods {
    CommonSwitch(ExtendedSwitch(m, e), e)
  }

  function TrackAll(es: seq<Event>): Mods {
    if es == [] then RELEASED else Track(TrackAll(es[..|es| - 1]), es[|es| - 1])
  }

  // A set of keys: both twins with a code, or one key.
  datatype Keys = Twins(code: byte) | One(extended: bool, code: byte)

  predicate Picks(keys: Keys, e: Event) {
    e.code == keys.code && (keys.One? ==> e.extended == keys.extended)
  }

  // The polarity of the last event of these keys; up at first.
  ghost function LastDown(es: seq<Event>, keys: Keys): bool {
    if es == [] then false
    else if Picks(keys, es[|es| - 1]) then es[|es| - 1].down
    else LastDown(es[..|es| - 1], keys)
  }

  ghost function LastFlags(es: seq<Event>): Mods {
    Mods(
      LastDown(es, Twins(LSHF)), LastDown(es, Twins(RSHF)),
      LastDown(es, Twins(LCTL)), LastDown(es, One(true, LCTL)),
      LastDown(es, Twins(LALT)), LastDown(es, One(true, LALT)),
      LastDown(es, Twins(MOD)))
  }

  // After any run each flag is a last polarity: the right control and alt ones
  // of the events of their own key, all others of the events of both twins.
  lemma {:induction false} FlagsExactly(es: seq<Event>)
    ensures TrackAll(es) == LastFlags(es)
  {
    if es != [] {
      FlagsExactly(es[..|es| - 1]);
      FlagsStep(es);
    }
  }

  // Some control or alt key, or mod, was last pressed by these flags.
  ghost predicate Modified(es: seq<Event>) {
    || LastDown(es, Twins(LCTL)) || LastDown(es, One(true, LCTL))
    || LastDown(es, Twins(LALT)) || LastDown(es, One(true, LALT))
    || LastDown(es, Twins(MOD))
  }

  // One of the shift keys was last pressed, rather than released.
  ghost predicate Shifted(es: seq<Event>) {
    LastDown(es, Twins(LSHF)) || LastDown(es, Twins(RSHF))
  }

  // What the handler asks of the flags, from the run alone.
  lemma CombinedFlags(es: seq<Event>)
    ensures var m := TrackAll(es);
      && m.Shift() == Shifted(es)
      && (m.Control() || m.Alt() || m.mod) == Modified(es)
  {
    FlagsExactly(es);
  }

  function Latch(was: bool, keys: Keys, e: Event): bool {
    if Picks(keys, e) then e.down else was
  }

  // The two switches, flag by flag.
  lemma ExtendedLatches(m: Mods, e: Event)
    ensures ExtendedSwitch(m, e) == Mods(m.lshift, m.rshift,
      m.lctrl, Latch(m.rctrl, One(true, LCTL), e),
      m.lalt, Latch(m.ralt, One(true, LALT), e),
      Latch(m.mod, One(true, MOD), e))
  {}

  lemma CommonLatches(m: Mods, e: Event)
    ensures CommonSwitch(m, e) == Mods(Latch(m.lshift, Twins(LSHF), e), Latch(m.rshift, Twins(RSHF), e),
      Latch(m.lctrl, Twins(LCTL), e), m.rctrl,
      Latch(m.lalt, Twins(LALT), e), m.ralt,
      Latch(m.mod, Twins(MOD), e))
  {}

  lemma FlagsStep(es: seq<Event>)
    requires es != []
    ensures LastFlags(es) == Track(LastFlags(es[..|es| - 1]), es[|es| - 1])
  {
    var m, e := LastFlags(es[..|es| - 1]), es[|es| - 1];
    ExtendedLatches(m, e);
    CommonLatches(ExtendedSwitch(m, e), e);
  }

  // A key is held when its last event was a make.
  ghost predicate Held(es: seq<Event>, code: byte, extended: bool) {
    LastDown(es, One(extended, code))
  }

  ghost predicate AnyHeld(es: seq<Event>, code: byte) {
    Held(es, code, false) || Held(es, code, true)
  }

  // The last event of the two twins released the right one, with the left one
  // still held.
  ghost predicate RightReleasedLast(es: seq<Event>, code: byte) {
    es != [] &&
      var e := es[|es| - 1];
      if e.code == code then e.extended && !e.down && Held(es, code, false)
      else RightReleasedLast(es[..|es| - 1], code)
  }

  // The combined flag of two twins is wrong exactly then.
  lemma {:induction false} CombinedFlag(es: seq<Event>, code: byte)
    ensures (LastDown(es, Twins(code)) || LastDown(es, One(true, code))) == AnyHeld(es, code)
      <==> !RightReleasedLast(es, code)
  {
    if es != [] {
      CombinedFlag(es[..|es| - 1], code);
    }
  }

  // No right key goes up while its left twin is down.
  ghost predicate RightReleasedFirst(es: seq<Event>, code: byte) {
    forall i :: 0 <= i < |es| && es[i] == Event(true, false, code) ==> !Held(es[..i], code, false)
  }

  // Over runs without such a release, the control and alt flags the kernel
  // acts on say whether any control or alt key is held.
  lemma ControlAndAlt(es: seq<Event>)
    ensures RightReleasedFirst(es, LCTL) ==> TrackAll(es).Control() == AnyHeld(es, LCTL)
    ensures RightReleasedFirst(es, LALT) ==> TrackAll(es).Alt() == AnyHeld(es, LALT)
  {
    FlagsExactly(es);
    CombinedFlag(es, LCTL);
    CombinedFlag(es, LALT);
    ReleasedInOrder(es, LCTL);
    ReleasedInOrder(es, LALT);
  }

  lemma {:induction false} ReleasedInOrder(es: seq<Event>, code: byte)
    ensures RightReleasedFirst(es, code) ==> !RightReleasedLast(es, code)
  {
    if es != [] && RightReleasedFirst(es, code) {
      var t := es[..|es| - 1];
      forall i | 0 <= i < |t| && t[i] == Event(true, false, code) ensures !Held(t[..i], code, false) {
        assert t[..i] == es[..i] && es[i] == t[i];
      }
      ReleasedInOrder(t, code);
    }
  }

  // Left down, right down, right up: the left key is still held, and the flag
  // is off.
  lemma RightReleaseLosesLeft()
    ensures var es := [Event(false, true, LCTL), Event(true, true, LCTL), Event(true, false, LCTL)];
      AnyHeld(es, LCTL) && !TrackAll(es).Control()
  {
    var a, b, c := Event(false, true, LCTL), Event(true, true, LCTL), Event(true, false, LCTL);
    var es := [a, b, c];
    assert es[..2] == [a, b] && [a, b][..1] == [a] && [a][..0] == [];
    assert Held([a], LCTL, false) && Held([a, b], LCTL, false) && Held(es, LCTL, false);
  }
}
