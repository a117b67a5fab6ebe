// The keyboard interrupt handler on the real console: each call consumes one
// event from the wire, updates the modifier state and echoes.
module KeyboardDriver {
  import opened CInt
  import opened Numerals
  import opened CStrings
  import opened Formatting
  import opened TextTerminal
  import opened Printing
  import opened PrintCalls
  import opened Scancodes
  import opened KeyEcho

  // What the handler leaves on the serial line for one event: strrev's traces
  // and the debugging line.
  function EventTrace(m: Mods, e: Event): seq<byte> {
    TraceOf(CallsOf(m, e)) + (Ascii("KB:") + Decimal(KeyEventOf(m, e).utf8) + Ascii("\n"))
  }

  function TraceFrom(es: seq<Event>, n: nat): seq<byte> {
    if |es| <= n then []
    else TraceFrom(es[..|es| - 1], n) + EventTrace(TrackAll(es), es[|es| - 1])
  }

  class Keyboard {
    const console: Console
    const wire: Line
    var pos: nat
    var state: Mods

    // The events handled so far.
    ghost var events: seq<Event>

    ghost predicate Valid()
      reads this, console.terminal, console.terminal.buffer, console.itoa, console.itoa.buf
    {
      && console.Valid()
      && (events, pos) == DecodeAll(wire, 0, |events|)
      && state == TrackAll(events)
    }

    // ps2kb_init
    constructor (console: Console, wire: Line)
      requires console.Valid()
      ensures Valid() && events == [] && pos == 0 && this.console == console && this.wire == wire
    {
      this.console, this.wire, pos, state := console, wire, 0, RELEASED;
      events := [];
    }

    // ps2_read
    method Read() returns (b: byte)
      modifies this`pos
      ensures b == wire(old(pos)) && pos == old(pos) + 1
    {
      b := wire(pos);
      pos := pos + 1;
    }

    // Nothing, or one call.
    method SayAny(calls: seq<Call>)
      requires console.Valid() && |calls| <= 1 && forall c :: c in calls ==> Plain(c)
      modifies console.terminal, console.terminal.buffer, console.serial, console.itoa.buf
      ensures console.Valid() && console.Attr() == old(console.Attr())
      ensures console.Written() == Extend(old(console.Written()), ToScreen, console.Attr(),
        Printed(calls), TraceOf(calls))
    {
      if calls == [] {
        ExtendNone(console.Written(), ToScreen, console.Attr());
      } else {
        assert calls == [calls[0]];
        SayOne(console, calls[0]);
      }
    }

    // shell_key
    method ShellKey(k: KeyEvent) returns (r: int)
      requires console.Valid()
      modifies console.terminal, console.terminal.buffer, console.serial, console.itoa.buf
      ensures console.Valid() && console.Attr() == old(console.Attr())
      ensures console.Written() == Extend(old(console.Written()), ToScreen, console.Attr(),
        Printed(ShellCalls(k)), TraceOf(ShellCalls(k)))
      ensures r == -1
    {
      CharPlain(k.utf8);
      NamedPlain(k.code);
      SayAny(ShellCalls(k));
      r := -1;
    }

    // serial_writes("KB:"); serial_writed(utf8); serial_writes("\n")
    method DebugLine(utf8: byte)
      requires console.Valid()
      modifies console.serial, console.itoa.buf
      ensures console.Valid() && console.Attr() == old(console.Attr())
      ensures console.Written() == Extend(old(console.Written()), ToScreen, console.Attr(),
        [], Ascii("KB:") + Decimal(utf8) + Ascii("\n"))
    {
      ghost var l := console.Written();
      console.serial.Writes(Ascii("KB:"));
      var p := console.itoa.Convert(utf8);
      var len := Strlen(console.itoa.buf, p);
      console.serial.Writes(console.itoa.buf[p..p + len]);
      console.serial.Writes(Ascii("\n"));
      DebugTrace(l.trace, Ascii("KB:"), Decimal(utf8), Ascii("\n"));
      ExtendNone(l, ToScreen, console.Attr());
    }

    // The first switch.
    method SwitchExtended(scancode: byte, down: bool)
      modifies this`state
      ensures state == ExtendedSwitch(old(state), Event(true, down, scancode))
    {
      if scancode == LCTL {
        state := state.(rctrl := down);
      } else if scancode == LALT {
        state := state.(ralt := down);
      } else if scancode == MOD {
        state := state.(mod := down);
      }
    }

    // The modifier cases of the second switch.
    method SwitchCommon(scancode: byte, down: bool, ghost extended: bool)
      modifies this`state
      ensures state == CommonSwitch(old(state), Event(extended, down, scancode))
    {
      if scancode == LSHF {
        state := state.(lshift := down);
      } else if scancode == LCTL {
        state := state.(lctrl := down);
      } else if scancode == LALT {
        state := state.(lalt := down);
      } else if scancode == RSHF {
        state := state.(rshift := down);
      } else if scancode == MOD {
        state := state.(mod := down);
      }
    }

    // The bytes of one event, with the modifier updates on the way.
    method ReadEvent() returns (e: Event)
      modifies this`pos, this`state
      ensures (e, pos) == Decode(wire, old(pos))
      ensures state == Track(old(state), e)
    {
      var scancode := Read();
      var extended, down := false, true;
      if scancode == RELEASE {
        down := false;
        scancode := Read();
      } else if scancode == EXTENDED {
        extended := true;
        scancode := Read();
        if scancode == RELEASE {
          down := false;
          scancode := Read();
        }
        SwitchExtended(scancode, down);
      }
      SwitchCommon(scancode, down, extended);
      e := Event(extended, down, scancode);
    }

    // The output of one event, m being the modifier state with it already in.
    method Report(m: Mods, event: Event)
      requires console.Valid()
      modifies console.terminal, console.terminal.buffer, console.serial, console.itoa.buf
      ensures console.Valid() && console.Attr() == old(console.Attr())
      ensures console.Written() == Extend(old(console.Written()), ToScreen, console.Attr(),
        Printed(CallsOf(m, event)), EventTrace(m, event))
    {
      ghost var l := console.Written();
      PrefixComplaintPlain(event);
      MapComplaintPlain(event);
      SayAny(PrefixComplaint(event));
      SayAny(MapComplaint(event));
      var k := KeyEventOf(m, event);
      var _ := ShellKey(k);
      DebugLine(k.utf8);
      HandleOutput(l, console.Attr(), m, event);
    }

    // ps2kb_handler
    method Handle() returns (ghost e: Event)
      requires Valid()
      modifies this, console.terminal, console.terminal.buffer, console.serial, console.itoa.buf
      ensures Valid() && console.Attr() == old(console.Attr())
      ensures (e, pos) == Decode(wire, old(pos)) && events == old(events) + [e]
      ensures state == Track(old(state), e)
      ensures console.Written() == Extend(old(console.Written()), ToScreen, console.Attr(),
        Printed(CallsOf(state, e)), EventTrace(state, e))
    {
      var event := ReadEvent();
      e := event;
      HistoryStep(wire, events, e, old(pos));
      events := events + [e];
      Report(state, event);
    }

    // n key interrupts: the next n events of the wire are handled, and the
    // screen and the serial line get what they print.
    method HandleAll(n: nat)
      requires Valid()
      modifies this, console.terminal, console.terminal.buffer, console.serial, console.itoa.buf
      ensures Valid() && console.Attr() == old(console.Attr())
      ensures old(events) <= events && (events[|old(events)|..], pos) == DecodeAll(wire, old(pos), n)
      ensures console.Written() == Extend(old(console.Written()), ToScreen, console.Attr(),
        EchoFrom(events, |old(events)|), TraceFrom(events, |old(events)|))
    {
      hide Extend, Decode, DecodeAll, EchoFrom, TraceFrom, TrackAll;
      ghost var l, before := console.Written(), events;
      NothingYet(wire, pos, l, console.Attr(), before);
      for i := 0 to n
        invariant Valid() && console.Attr() == old(console.Attr())
        invariant before <= events && (events[|before|..], pos) == DecodeAll(wire, old(pos), i)
        invariant console.Written() == Extend(l, ToScreen, console.Attr(),
          EchoFrom(events, |before|), TraceFrom(events, |before|))
      {
        ghost var es, p := events, pos;
        ghost var e := Handle();
        OneMore(wire, old(pos), before, es, e, p, i, l, console.Attr());
      }
    }

    // When the wire carries the encodings of unambiguous events of known keys,
    // their texts appear on the screen, and nothing else.
    method HandleKeys(n: nat, ghost es: seq<Event>)
      requires Valid() && |es| == n && Carries(wire, pos, EncodeAll(es))
      requires forall i :: 0 <= i < n ==> Unambiguous(es[i]) && Known(es[i].code)
      modifies this, console.terminal, console.terminal.buffer, console.serial, console.itoa.buf
      ensures Valid() && console.Attr() == old(console.Attr())
      ensures events == old(events) + es && pos == old(pos) + |EncodeAll(es)|
      ensures console.Written().stream ==
        old(console.Written().stream) + Glyphs(TypedFrom(events, |old(events)|), console.Attr())
    {
      hide Decode, DecodeAll, TrackAll, EchoFrom, TraceFrom, TypedFrom, Encode, EncodeAll, Carries, Known, Unambiguous;
      StreamRoundTrip(wire, pos, es);
      ghost var before := events;
      HandleAll(n);
      assert events == before + es;
      OnlyTheShell(events, |before|);
    }
  }

  lemma HistoryStep(w: Line, es: seq<Event>, e: Event, pos: nat)
    requires DecodeAll(w, 0, |es|) == (es, pos) && Decode(w, pos).0 == e
    ensures DecodeAll(w, 0, |es + [e]|) == (es + [e], Decode(w, pos).1)
    ensures TrackAll(es + [e]) == Track(TrackAll(es), e)
  {
    assert (es + [e])[..|es + [e]| - 1] == es;
  }

  lemma NothingYet(w: Line, pos: nat, l: Log, attr: byte, es: seq<Event>)
    ensures (es[|es|..], pos) == DecodeAll(w, pos, 0)
    ensures l == Extend(l, ToScreen, attr, EchoFrom(es, |es|), TraceFrom(es, |es|))
  {
    assert es[|es|..] == [];
    ExtendNone(l, ToScreen, attr);
  }

  // The handler's i-th event since before.
  lemma OneMore(w: Line, start: nat, before: seq<Event>, es: seq<Event>, e: Event, pos: nat, i: nat,
    l: Log, attr: byte)
    requires before <= es && (es[|before|..], pos) == DecodeAll(w, start, i) && e == Decode(w, pos).0
    ensures before <= es + [e] && ((es + [e])[|before|..], Decode(w, pos).1) == DecodeAll(w, start, i + 1)
    ensures var m := TrackAll(es + [e]);
      Extend(Extend(l, ToScreen, attr, EchoFrom(es, |before|), TraceFrom(es, |before|)),
        ToScreen, attr, Printed(CallsOf(m, e)), EventTrace(m, e))
        == Extend(l, ToScreen, attr, EchoFrom(es + [e], |before|), TraceFrom(es + [e], |before|))
  {
    hide Extend, TrackAll, CallsOf, EventTrace;
    var m := TrackAll(es + [e]);
    assert (es + [e])[..|es|] == es && (es + [e])[|before|..] == es[|before|..] + [e];
    ExtendTwice(l, ToScreen, attr, EchoFrom(es, |before|), TraceFrom(es, |before|),
      Printed(CallsOf(m, e)), EventTrace(m, e));
  }

  lemma DebugTrace(t: seq<byte>, a: seq<byte>, b: seq<byte>, c: seq<byte>)
    ensures ((t + a) + b) + c == t + (a + b + c)
  {}

  // The four outputs of one call of the handler, put together.
  lemma HandleOutput(l: Log, attr: byte, m: Mods, e: Event)
    ensures var a, b, c := PrefixComplaint(e), MapComplaint(e), ShellCalls(KeyEventOf(m, e));
      var l1 := Extend(l, ToScreen, attr, Printed(a), TraceOf(a));
      var l2 := Extend(l1, ToScreen, attr, Printed(b), TraceOf(b));
      var l3 := Extend(l2, ToScreen, attr, Printed(c), TraceOf(c));
      Extend(l3, ToScreen, attr, [], Ascii("KB:") + Decimal(KeyEventOf(m, e).utf8) + Ascii("\n"))
        == Extend(l, ToScreen, attr, Printed(CallsOf(m, e)), EventTrace(m, e))
  {
    var a, b, c := PrefixComplaint(e), MapComplaint(e), ShellCalls(KeyEventOf(m, e));
    var d := Ascii("KB:") + Decimal(KeyEventOf(m, e).utf8) + Ascii("\n");
    ExtendTwice(l, ToScreen, attr, Printed(a), TraceOf(a), Printed(b), TraceOf(b));
    PrintedConcat(a, b);
    TraceOfConcat(a, b);
    ExtendTwice(l, ToScreen, attr, Printed(a + b), TraceOf(a + b), Printed(c), TraceOf(c));
    PrintedConcat(a + b, c);
    TraceOfConcat(a + b, c);
    ExtendTwice(l, ToScreen, attr, Printed(a + b + c), TraceOf(a + b + c), [], d);
    assert Printed(a + b + c) + [] == Printed(a + b + c);
  }
}
