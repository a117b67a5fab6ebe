// Hardware interrupts: a pair of cascaded Intel 8259A controllers, the
// kernel's remapping of them, and its dispatch and end-of-interrupt rule, over
// every run of devices raising lines and the processor taking interrupts.
module Interrupts {
  import opened CInt

  datatype Option<T> = None | Some(value: T)

  // ----- one 8259A (edge triggered, fixed priority)

  // Eight lines, line 0 first.
  type Lines = s: seq<bool> | |s| == 8 witness seq(8, _ => false)

  const NO_LINES: Lines := [false, false, false, false, false, false, false, false]

  // expects: the initialization command word (2, 3 or 4) the data port waits
  // for, or 0 when the controller is ready.  icw1 and icw4 keep the mode bits:
  // of icw1 bit 0 (ICW4 follows), bit 1 (single) and bit 3 (level triggered),
  // of icw4 bit 0 (8086) and bit 1 (automatic end of interrupt) among others.
  datatype Pic = Pic(
    expects: nat, icw1: byte, base: byte, cascade: byte, icw4: byte, imr: Lines, irr: Lines, isr: Lines)
  {
    predicate Single() { icw1 / 2 % 2 == 1 }
    predicate AutoEoi() { icw4 / 2 % 2 == 1 }
    function ExpectsLast(): nat { if icw1 % 2 == 1 then 4 else 0 }
  }

  function LinesOf(v: byte): Lines {
    [v % 2 == 1, v / 2 % 2 == 1, v / 4 % 2 == 1, v / 8 % 2 == 1,
     v / 16 % 2 == 1, v / 32 % 2 == 1, v / 64 % 2 == 1, v / 128 % 2 == 1]
  }

  // The line of highest priority, or |s|.
  function First(s: seq<bool>): (n: nat)
    ensures n <= |s| && (n < |s| ==> s[n]) && forall k :: 0 <= k < n ==> !s[k]
  {
    if s == [] || s[0] then 0 else 1 + First(s[1..])
  }

  // ICW1 (bit 4 set) starts initialization; OCW2 0x20 is the non-specific end
  // of interrupt, which retires the in-service line of highest priority.
  function Command(p: Pic, v: byte): Pic {
    if v / 16 % 2 == 1 then p.(expects := 2, icw1 := v, icw4 := 0, imr := NO_LINES, irr := NO_LINES)
    else if v == 0x20 && First(p.isr) < 8 then p.(isr := p.isr[First(p.isr) := false])
    else p
  }

  function Data(p: Pic, v: byte): Pic {
    if p.expects == 2 then p.(base := v - v % 8, expects := if p.Single() then p.ExpectsLast() else 3)
    else if p.expects == 3 then p.(cascade := v, expects := p.ExpectsLast())
    else if p.expects == 4 then p.(icw4 := v, expects := 0)
    else p.(imr := LinesOf(v))
  }

  // The line the controller asks the processor to serve: requested, not
  // masked, and of higher priority than everything in service.
  function Request(p: Pic, irr: Lines): (n: nat)
    ensures n < 8 ==> irr[n] && !p.imr[n] && n < First(p.isr)
  {
    var wanted := seq(8, k requires 0 <= k < 8 => irr[k] && !p.imr[k]);
    if First(wanted) < First(p.isr) then First(wanted) else 8
  }

  // ----- the pair, the slave on the master's line 2

  const CASCADE: nat := 2

  datatype Pics = Pics(master: Pic, slave: Pic)

  function Outb(c: Pics, port: int, v: byte): Pics {
    if port == 0x20 then c.(master := Command(c.master, v))
    else if port == 0x21 then c.(master := Data(c.master, v))
    else if port == 0xA0 then c.(slave := Command(c.slave, v))
    else if port == 0xA1 then c.(slave := Data(c.slave, v))
    else c
  }

  // A write to a port: where, and what.
  type PortWrite = (int, byte)

  // One write after the other.
  function OutAll(c: Pics, ws: seq<PortWrite>): Pics {
    if ws == [] then c
    else Outb(OutAll(c, ws[..|ws| - 1]), ws[|ws| - 1].0, ws[|ws| - 1].1)
  }

  lemma OutOne(c: Pics, ws: seq<PortWrite>, port: int, v: byte)
    ensures OutAll(c, ws + [(port, v)]) == Outb(OutAll(c, ws), port, v)
  {
    assert (ws + [(port, v)])[..|ws|] == ws;
  }

  // The master's request lines: line 2 is the slave's request output.
  function MasterIrr(c: Pics): Lines {
    c.master.irr[CASCADE := Request(c.slave, c.slave.irr) < 8]
  }

  // With automatic end of interrupt nothing stays in service.
  function Mark(p: Pic, n: nat): Pic
    requires n < 8
  {
    if p.AutoEoi() then p else p.(isr := p.isr[n := true])
  }

  function Serve(p: Pic, n: nat): Pic
    requires n < 8
  {
    Mark(p.(irr := p.irr[n := false]), n)
  }

  predicate Interrupting(c: Pics) {
    Request(c.master, MasterIrr(c)) < 8
  }

  // The processor acknowledges: the vector it gets, and the controllers after.
  function Acknowledge(c: Pics): (int, Pics)
    requires Interrupting(c)
  {
    var n := Request(c.master, MasterIrr(c));
    if n == CASCADE then
      var k := Request(c.slave, c.slave.irr);
      (c.slave.base + k, Pics(Mark(c.master, n), Serve(c.slave, k)))
    else (c.master.base + n, c.(master := Serve(c.master, n)))
  }

  // Devices hang on lines 0 to 15, without the cascade line.
  predicate IsDevice(irq: int) {
    0 <= irq < 16 && irq != CASCADE
  }

  function RaiseLine(c: Pics, irq: nat): Pics
    requires IsDevice(irq)
  {
    if irq < 8 then c.(master := c.master.(irr := c.master.irr[irq := true]))
    else c.(slave := c.slave.(irr := c.slave.irr[irq - 8 := true]))
  }

  predicate Pending(c: Pics, irq: nat)
    requires IsDevice(irq)
  {
    if irq < 8 then c.master.irr[irq] else c.slave.irr[irq - 8]
  }

  // ----- irq_remap

  function Remap(c: Pics): Pics {
    var c := Outb(Outb(c, 0x20, 0x11), 0xA0, 0x11);
    var c := Outb(Outb(c, 0x21, 0x20), 0xA1, 0x28);
    var c := Outb(Outb(c, 0x21, 0x04), 0xA1, 0x02);
    var c := Outb(Outb(c, 0x21, 0x01), 0xA1, 0x01);
    Outb(Outb(c, 0x21, 0x0), 0xA1, 0x0)
  }

  const REMAP_WRITES: seq<PortWrite> := [
    (0x20, 0x11), (0xA0, 0x11), (0x21, 0x20), (0xA1, 0x28), (0x21, 0x04),
    (0xA1, 0x02), (0x21, 0x01), (0xA1, 0x01), (0x21, 0x0), (0xA1, 0x0)]

  // Initialized, edge triggered, cascaded, in 8086 mode without automatic end of
  // interrupt, and unmasked.
  predicate Ready(p: Pic) {
    p.expects == 0 && p.icw1 == 0x11 && p.icw4 == 0x01 && p.imr == NO_LINES
  }

  // Vectors 32 to 47.
  predicate Remapped(c: Pics) {
    && Ready(c.master) && c.master.base == 32 && c.master.cascade == 4
    && Ready(c.slave) && c.slave.base == 40 && c.slave.cascade == 2
  }

  // Whatever state they were in, the ten writes leave both controllers
  // initialized, with no request pending.
  lemma RemapInitializes(c: Pics)
    ensures Remapped(Remap(c))
    ensures Remap(c).master.irr == NO_LINES && Remap(c).slave.irr == NO_LINES
    ensures Remap(c).master.isr == c.master.isr && Remap(c).slave.isr == c.slave.isr
  {
    assert LinesOf(0) == NO_LINES;
  }

  // ----- irq_handler

  // The first test of irq_handler, on 32-bit unsigned numbers.
  predicate OutOfRange(intNo: uint32) {
    (intNo - 32) % TWO_32 > 16
  }

  // The test lets one vector through that has no entry in the table.  None of
  // the entry stubs pushes it: theirs are 32 to 47.
  lemma RangeTest(intNo: uint32)
    ensures !OutOfRange(intNo) && !(0 <= intNo - 32 < 16) <==> intNo == 48
  {}

  const MASTER_EOI: PortWrite := (0x20, 0x20)
  const SLAVE_EOI: PortWrite := (0xA0, 0x20)

  // What irq_handler writes to the controllers.
  function HandlerWrites(intNo: uint32): seq<PortWrite> {
    (if intNo >= 40 then [SLAVE_EOI] else []) + [MASTER_EOI]
  }

  function EndOfInterrupt(c: Pics, intNo: uint32): Pics {
    OutAll(c, HandlerWrites(intNo))
  }

  lemma EndOfInterruptIs(c: Pics, intNo: uint32)
    ensures EndOfInterrupt(c, intNo) == Outb(if intNo >= 40 then Outb(c, 0xA0, 0x20) else c, 0x20, 0x20)
  {
    var ws: seq<PortWrite> := [];
    OutOne(c, ws, 0xA0, 0x20);
    OutOne(c, ws, 0x20, 0x20);
    OutOne(c, [SLAVE_EOI], 0x20, 0x20);
    assert ws + [SLAVE_EOI] == [SLAVE_EOI] && ws + [MASTER_EOI] == [MASTER_EOI];
  }

  // A handler call: which interrupt, and which routine.
  datatype Run = Run(intNo: uint32, routine: nat)

  function RunsFor(routines: seq<Option<nat>>, intNo: uint32): seq<Run>
    requires |routines| == 16 && 32 <= intNo < 48
  {
    match routines[intNo - 32]
    case Some(r) => [Run(intNo, r)]
    case None => []
  }

  class Controller {
    // irq_routines; a routine is identified by a number.
    const routines: array<Option<nat>>
    var pics: Pics
    ghost var runs: seq<Run>

    // The controllers at first, and every write to them since.
    ghost const initial: Pics
    ghost var writes: seq<PortWrite>

    ghost predicate Valid()
      reads this
    {
      routines.Length == 16 && pics == OutAll(initial, writes)
    }

    constructor (pics: Pics)
      ensures Valid() && fresh(routines) && routines[..] == seq(16, _ => None)
      ensures this.pics == pics && runs == [] && writes == []
    {
      routines := new Option<nat>[16](_ => None);
      this.pics, initial, runs, writes := pics, pics, [], [];
    }

    method InstallHandler(irq: nat, handler: nat)
      requires Valid() && irq < 16
      modifies routines
      ensures routines[..] == old(routines[..])[irq := Some(handler)]
    {
      routines[irq] := Some(handler);
    }

    method UninstallHandler(irq: nat)
      requires Valid() && irq < 16
      modifies routines
      ensures routines[..] == old(routines[..])[irq := None]
    {
      routines[irq] := None;
    }

    method WritePort(port: int, v: byte)
      requires Valid()
      modifies this`pics, this`writes
      ensures Valid() && pics == Outb(old(pics), port, v) && writes == old(writes) + [(port, v)]
    {
      OutOne(initial, writes, port, v);
      pics := Outb(pics, port, v);
      writes := writes + [(port, v)];
    }

    // irq_remap
    method RemapPics()
      requires Valid()
      modifies this`pics, this`writes
      ensures Valid() && pics == Remap(old(pics)) && Remapped(pics)
      ensures writes == old(writes) + REMAP_WRITES
    {
      hide Outb, OutAll;
      RemapInitializes(pics);
      WritePort(0x20, 0x11);
      WritePort(0xA0, 0x11);
      WritePort(0x21, 0x20);
      WritePort(0xA1, 0x28);
      WritePort(0x21, 0x04);
      WritePort(0xA1, 0x02);
      WritePort(0x21, 0x01);
      WritePort(0xA1, 0x01);
      WritePort(0x21, 0x0);
      WritePort(0xA1, 0x0);
    }

    // irq_handler.  For vector 48 it would read behind the table; that has no
    // meaning in C, and the model stops there.
    method Handle(intNo: uint32) returns (defined: bool)
      requires Valid()
      modifies this`runs, this`pics, this`writes
      ensures Valid() && (defined <==> intNo != 48)
      ensures if 32 <= intNo < 48
        then
          && runs == old(runs) + RunsFor(routines[..], intNo)
          && writes == old(writes) + HandlerWrites(intNo)
          && pics == EndOfInterrupt(old(pics), intNo)
        else runs == old(runs) && writes == old(writes) && pics == old(pics)
    {
      hide Outb, OutAll;
      RangeTest(intNo);
      EndOfInterruptIs(pics, intNo);
      if OutOfRange(intNo) {
        return true;
      }
      if intNo - 32 >= routines.Length {
        return false;
      }
      var handler := routines[intNo - 32];
      if handler.Some? {
        runs := runs + [Run(intNo, handler.value)];
      }
      if intNo >= 40 {
        WritePort(0xA0, 0x20);
      }
      WritePort(0x20, 0x20);
      return true;
    }
  }

  // ----- whole runs

  // An interrupt the processor has taken, with the routine then installed.
  datatype Delivery = Delivery(vector: int, routine: Option<nat>)

  // running: a stub has been entered and irq_handler has not returned, so the
  // processor takes no interrupt.  writes: to the controllers, since irq_remap.
  datatype System = System(
    pics: Pics,
    routines: seq<Option<nat>>,
    running: bool,
    deliveries: seq<Delivery>,
    runs: seq<Run>,
    writes: seq<PortWrite>)

  datatype Step =
    | Raise(irq: nat)                  // a device requests service
    | Deliver                          // the processor takes an interrupt
    | Handle                           // irq_handler runs and returns
    | Install(irq: nat, handler: nat)  // kernel code, outside handlers
    | Uninstall(irq: nat)

  predicate Enabled(s: System, step: Step) {
    match step
    case Raise(irq) => IsDevice(irq)
    case Deliver => !s.running && Interrupting(s.pics)
    case Handle => s.running
    case Install(irq, _) => !s.running && irq < 16
    case Uninstall(irq) => !s.running && irq < 16
  }

  predicate Shaped(s: System) {
    && |s.routines| == 16
    && Remapped(s.pics)
    && (s.running ==> s.deliveries != [] && 32 <= s.deliveries[|s.deliveries| - 1].vector < 48)
  }

  function Apply(s: System, step: Step): System
    requires Shaped(s) && Enabled(s, step)
  {
    match step
    case Raise(irq) => s.(pics := RaiseLine(s.pics, irq))
    case Deliver =>
      var (vector, pics) := Acknowledge(s.pics);
      assert 32 <= vector < 48;
      s.(pics := pics, running := true,
         deliveries := s.deliveries + [Delivery(vector, s.routines[vector - 32])])
    case Handle =>
      var intNo := s.deliveries[|s.deliveries| - 1].vector;
      s.(pics := EndOfInterrupt(s.pics, intNo), running := false,
         runs := s.runs + RunsFor(s.routines, intNo),
         writes := s.writes + HandlerWrites(intNo))
    case Install(irq, handler) => s.(routines := s.routines[irq := Some(handler)])
    case Uninstall(irq) => s.(routines := s.routines[irq := None])
  }

  // What has been delivered and handled.
  function Handled(s: System): seq<Delivery> {
    if s.running && s.deliveries != [] then s.deliveries[..|s.deliveries| - 1] else s.deliveries
  }

  function SlaveCount(ds: seq<Delivery>): nat {
    if ds == [] then 0
    else SlaveCount(ds[..|ds| - 1]) + if ds[|ds| - 1].vector >= 40 then 1 else 0
  }

  // Each delivery's routine once, in order; none where none was installed.
  function AllRuns(ds: seq<Delivery>): seq<Run> {
    if ds == [] then []
    else AllRuns(ds[..|ds| - 1]) + RunOf(ds[|ds| - 1])
  }

  function RunOf(d: Delivery): seq<Run> {
    if d.routine.Some? && 0 <= d.vector < TWO_32 then [Run(d.vector, d.routine.value)] else []
  }

  // What handling these deliveries writes.
  function AllWrites(ds: seq<Delivery>): seq<PortWrite> {
    if ds == [] then []
    else
      var vector := ds[|ds| - 1].vector;
      AllWrites(ds[..|ds| - 1]) + if 0 <= vector < TWO_32 then HandlerWrites(vector) else []
  }

  ghost predicate FromDevices(ds: seq<Delivery>) {
    forall k :: 0 <= k < |ds| ==> IsDevice(ds[k].vector - 32)
  }

  // Of each routine, as many runs for a vector as deliveries found it installed.
  lemma {:induction false} RunsCounted(ds: seq<Delivery>, vector: uint32, handler: nat)
    ensures multiset(AllRuns(ds))[Run(vector, handler)] == multiset(ds)[Delivery(vector, Some(handler))]
  {
    if ds != [] {
      var before, d := ds[..|ds| - 1], ds[|ds| - 1];
      RunsCounted(before, vector, handler);
      assert ds == before + [d];
      assert AllRuns(ds) == AllRuns(before) + RunOf(d);
      OneRun(d, vector, handler);
    }
  }

  lemma OneRun(d: Delivery, vector: uint32, handler: nat)
    ensures multiset(RunOf(d))[Run(vector, handler)] == multiset([d])[Delivery(vector, Some(handler))]
  {}

  // One end-of-interrupt command to the master for each delivery, one to the
  // slave for each from lines 8 to 15, and nothing else.
  lemma {:induction false} EoisCounted(ds: seq<Delivery>)
    requires FromDevices(ds)
    ensures multiset(AllWrites(ds))[MASTER_EOI] == |ds|
    ensures multiset(AllWrites(ds))[SLAVE_EOI] == SlaveCount(ds)
    ensures |AllWrites(ds)| == |ds| + SlaveCount(ds)
  {
    if ds != [] {
      EoisCounted(ds[..|ds| - 1]);
    }
  }

  // The in-service registers: empty while no handler runs, and otherwise just
  // the lines of the interrupt being handled.
  ghost predicate InService(s: System)
    requires Shaped(s)
  {
    if !s.running then s.pics.master.isr == NO_LINES && s.pics.slave.isr == NO_LINES
    else
      var irq := s.deliveries[|s.deliveries| - 1].vector - 32;
      && IsDevice(irq)
      && s.pics.master.isr == NO_LINES[if irq < 8 then irq else CASCADE := true]
      && s.pics.slave.isr == if irq < 8 then NO_LINES else NO_LINES[irq - 8 := true]
  }

  ghost predicate PicsRight(s: System) {
    && Shaped(s)
    && InService(s)
    && !s.pics.master.irr[CASCADE]
  }

  // Deliveries, routines run and port writes tally.
  ghost predicate Tallies(s: System)
    requires Shaped(s)
  {
    && (s.running ==> var d := s.deliveries[|s.deliveries| - 1]; d.routine == s.routines[d.vector - 32])
    && s.writes == AllWrites(Handled(s))
    && s.runs == AllRuns(Handled(s))
    && FromDevices(s.deliveries)
  }

  ghost predicate Invariant(s: System) {
    PicsRight(s) && Tallies(s)
  }

  // After irq_install, on controllers with nothing in service.
  function Installed(c: Pics): System {
    System(Remap(c), seq(16, _ => None), false, [], [], [])
  }

  lemma InstalledInvariant(c: Pics)
    requires c.master.isr == NO_LINES && c.slave.isr == NO_LINES
    ensures Invariant(Installed(c))
  {
    RemapInitializes(c);
  }

  lemma OneLine(n: nat)
    requires n < 8
    ensures First(NO_LINES) == 8
    ensures First(NO_LINES[n := true]) == n && NO_LINES[n := true][n := false] == NO_LINES
  {
    assert forall k :: 0 <= k < 8 ==> !NO_LINES[k];
    var s := NO_LINES[n := true];
    assert s[n] && forall k :: 0 <= k < 8 && k != n ==> !s[k];
    assert s[n := false] == NO_LINES;
  }

  // The processor takes interrupts 32 to 47, for devices only, and marks just
  // their lines.
  lemma Acknowledged(c: Pics)
    requires Remapped(c) && Interrupting(c) && !c.master.irr[CASCADE]
    requires c.master.isr == NO_LINES && c.slave.isr == NO_LINES
    ensures var (vector, c') := Acknowledge(c);
      && Remapped(c') && !c'.master.irr[CASCADE]
      && IsDevice(vector - 32)
      && c'.master.isr == NO_LINES[if vector < 40 then vector - 32 else CASCADE := true]
      && c'.slave.isr == if vector < 40 then NO_LINES else NO_LINES[vector - 40 := true]
  {
    var n := Request(c.master, MasterIrr(c));
    if n == CASCADE {
      SlaveAcknowledged(c);
    } else {
      ServedAlone(c.master, n);
    }
  }

  lemma ServedAlone(p: Pic, n: nat)
    requires Ready(p) && p.isr == NO_LINES && n < 8
    ensures Serve(p, n) == p.(isr := NO_LINES[n := true], irr := p.irr[n := false])
    ensures Mark(p, n) == p.(isr := NO_LINES[n := true])
  {}

  lemma SlaveAcknowledged(c: Pics)
    requires Remapped(c) && c.master.isr == NO_LINES && c.slave.isr == NO_LINES
    requires Request(c.master, MasterIrr(c)) == CASCADE
    ensures var k := Request(c.slave, c.slave.irr);
      && k < 8
      && Acknowledge(c) == (40 + k, Pics(c.master.(isr := NO_LINES[CASCADE := true]),
        c.slave.(isr := NO_LINES[k := true], irr := c.slave.irr[k := false])))
  {
    hide Request;
    ServedAlone(c.master, CASCADE);
    ServedAlone(c.slave, Request(c.slave, c.slave.irr));
  }

  lemma DeliverPics(s: System)
    requires PicsRight(s) && Enabled(s, Deliver)
    ensures PicsRight(Apply(s, Deliver)) && IsDevice(Acknowledge(s.pics).0 - 32)
  {
    Acknowledged(s.pics);
  }

  lemma DeliverTallies(s: System)
    requires Invariant(s) && Enabled(s, Deliver) && IsDevice(Acknowledge(s.pics).0 - 32)
    requires Shaped(Apply(s, Deliver))
    ensures Tallies(Apply(s, Deliver))
  {
    hide Acknowledge, AllRuns, AllWrites, InService, Remapped;
    assert Handled(Apply(s, Deliver)) == s.deliveries;
  }

  // One end-of-interrupt per controller involved retires what was delivered.
  lemma Retired(c: Pics, vector: int)
    requires Remapped(c) && 32 <= vector < 48 && IsDevice(vector - 32)
    requires c.master.isr == NO_LINES[if vector < 40 then vector - 32 else CASCADE := true]
    requires c.slave.isr == if vector < 40 then NO_LINES else NO_LINES[vector - 40 := true]
    ensures var c' := EndOfInterrupt(c, vector);
      && c'.master == c.master.(isr := NO_LINES)
      && c'.slave == c.slave.(isr := NO_LINES)
  {
    hide OutAll, EndOfInterrupt, HandlerWrites, Command;
    EndOfInterruptIs(c, vector);
    RetiredLine(c.master, if vector < 40 then vector - 32 else CASCADE);
    if vector >= 40 {
      RetiredLine(c.slave, vector - 40);
    }
  }

  lemma RetiredLine(p: Pic, n: nat)
    requires n < 8 && p.isr == NO_LINES[n := true]
    ensures Command(p, 0x20) == p.(isr := NO_LINES)
  {
    OneLine(n);
  }

  lemma HandlePics(s: System)
    requires Invariant(s) && s.running
    ensures PicsRight(Apply(s, Handle))
  {
    hide EndOfInterrupt, HandlerWrites, AllWrites, AllRuns;
    Retired(s.pics, s.deliveries[|s.deliveries| - 1].vector);
  }

  lemma HandleTallies(s: System)
    requires Invariant(s) && s.running && Shaped(Apply(s, Handle))
    ensures Tallies(Apply(s, Handle))
  {
    hide EndOfInterrupt, HandlerWrites, InService, Remapped;
    assert Handled(Apply(s, Handle)) == s.deliveries;
    assert s.deliveries[..|s.deliveries| - 1] == Handled(s);
  }

  lemma RaiseInvariant(s: System, irq: nat)
    requires Invariant(s) && IsDevice(irq)
    ensures Invariant(Apply(s, Raise(irq)))
  {}

  lemma StepInvariant(s: System, step: Step)
    requires Invariant(s) && Enabled(s, step)
    ensures Invariant(Apply(s, step))
  {
    match step
    case Raise(irq) => RaiseInvariant(s, irq);
    case Deliver =>
      DeliverPics(s);
      DeliverTallies(s);
    case Handle =>
      HandlePics(s);
      HandleTallies(s);
    case Install(irq, handler) =>
    case Uninstall(irq) =>
  }

  ghost predicate Moves(s: System, step: Step, s': System) {
    Shaped(s) && Enabled(s, step) && s' == Apply(s, step)
  }

  // The states of a run, each step enabled in its turn.
  ghost predicate IsRun(start: System, states: seq<System>, steps: seq<Step>) {
    && |states| == |steps| + 1
    && states[0] == start
    && forall i :: 0 <= i < |steps| ==> Moves(states[i], steps[i], states[i + 1])
  }

  lemma MoveInvariant(s: System, step: Step, s': System)
    requires Invariant(s) && Moves(s, step, s')
    ensures Invariant(s')
  {
    StepInvariant(s, step);
  }

  lemma {:induction false} RunInvariant(start: System, states: seq<System>, steps: seq<Step>, n: nat)
    requires Invariant(start) && IsRun(start, states, steps) && n <= |steps|
    ensures Invariant(states[n])
  {
    hide Invariant, Moves;
    if n > 0 {
      RunInvariant(start, states, steps, n - 1);
      MoveInvariant(states[n - 1], steps[n - 1], states[n]);
    }
  }

  // What the steps say is installed for a line: the handler of its last Install,
  // if no Uninstall came later.
  function LastInstalled(steps: seq<Step>, irq: int): Option<nat> {
    if steps == [] then None
    else
      match steps[|steps| - 1]
      case Install(i, handler) => if i == irq then Some(handler) else LastInstalled(steps[..|steps| - 1], irq)
      case Uninstall(i) => if i == irq then None else LastInstalled(steps[..|steps| - 1], irq)
      case _ => LastInstalled(steps[..|steps| - 1], irq)
  }

  ghost predicate TableRight(s: System, steps: seq<Step>) {
    |s.routines| == 16 && forall k :: 0 <= k < 16 ==> s.routines[k] == LastInstalled(steps, k)
  }

  lemma TableStep(s: System, steps: seq<Step>, step: Step)
    requires Shaped(s) && Enabled(s, step) && TableRight(s, steps)
    ensures TableRight(Apply(s, step), steps + [step])
  {
    hide Acknowledge, EndOfInterrupt, RaiseLine, Remapped;
    assert (steps + [step])[..|steps|] == steps;
  }

  // The table of every run is what its installations make of it.
  lemma {:induction false} TableOfRun(c: Pics, states: seq<System>, steps: seq<Step>, n: nat)
    requires IsRun(Installed(c), states, steps) && n <= |steps|
    ensures TableRight(states[n], steps[..n])
  {
    hide Apply, Shaped, Enabled;
    if n > 0 {
      TableOfRun(c, states, steps, n - 1);
      assert Moves(states[n - 1], steps[n - 1], states[n]);
      TableMove(states[n - 1], steps[..n - 1], steps[n - 1], states[n]);
      assert steps[..n] == steps[..n - 1] + [steps[n - 1]];
    }
  }

  lemma TableMove(s: System, steps: seq<Step>, step: Step, s': System)
    requires Moves(s, step, s') && TableRight(s, steps)
    ensures TableRight(s', steps + [step])
  {
    TableStep(s, steps, step);
  }

  // The k-th delivery is that of step i, with the routine then installed for its
  // line.
  ghost predicate DeliveredBy(states: seq<System>, steps: seq<Step>, n: nat, k: nat, i: nat)
    requires |states| == |steps| + 1 && n <= |steps|
  {
    && i < n && steps[i] == Deliver && |states[i].deliveries| == k < |states[n].deliveries|
    && var d := states[n].deliveries[k]; d.routine == LastInstalled(steps[..i], d.vector - 32)
  }

  ghost predicate Explained(states: seq<System>, steps: seq<Step>, n: nat, k: nat)
    requires |states| == |steps| + 1 && n <= |steps|
  {
    exists i: nat :: DeliveredBy(states, steps, n, k, i)
  }

  lemma DeliverStep(s: System, step: Step, s': System, steps: seq<Step>)
    requires Invariant(s) && Moves(s, step, s') && TableRight(s, steps)
    ensures if step == Deliver then
        && |s'.deliveries| == |s.deliveries| + 1 && s.deliveries <= s'.deliveries
        && var d := s'.deliveries[|s.deliveries|]; d.routine == LastInstalled(steps, d.vector - 32)
      else s'.deliveries == s.deliveries
  {
    hide Acknowledge, EndOfInterrupt, RaiseLine, InService, LastInstalled, AllRuns, AllWrites;
    if step == Deliver {
      DeliverVector(s);
    }
  }

  lemma DeliverVector(s: System)
    requires PicsRight(s) && Enabled(s, Deliver)
    ensures 32 <= Acknowledge(s.pics).0 < 48
  {
    DeliverPics(s);
  }

  lemma StillExplained(states: seq<System>, steps: seq<Step>, n: nat, k: nat)
    requires |states| == |steps| + 1 && 0 < n <= |steps|
    requires states[n - 1].deliveries <= states[n].deliveries && Explained(states, steps, n - 1, k)
    ensures Explained(states, steps, n, k)
  {
    var i: nat :| DeliveredBy(states, steps, n - 1, k, i);
    assert DeliveredBy(states, steps, n, k, i);
  }

  // Each interrupt delivered runs what the steps before it installed for its
  // line: in every run there are as many deliveries as Deliver steps, each with
  // that routine, and as many runs of a routine as deliveries that found it.
  lemma {:induction false} RightRoutines(c: Pics, states: seq<System>, steps: seq<Step>, n: nat)
    requires c.master.isr == NO_LINES && c.slave.isr == NO_LINES
    requires IsRun(Installed(c), states, steps) && n <= |steps|
    ensures |states[n].deliveries| == multiset(steps[..n])[Deliver]
    ensures forall k :: 0 <= k < |states[n].deliveries| ==> Explained(states, steps, n, k)
  {
    hide Invariant, TableRight, LastInstalled, Moves, Apply, Shaped, Enabled;
    if n > 0 {
      RightRoutines(c, states, steps, n - 1);
      InstalledInvariant(c);
      RunInvariant(Installed(c), states, steps, n - 1);
      TableOfRun(c, states, steps, n - 1);
      var s, s' := states[n - 1], states[n];
      DeliverStep(s, steps[n - 1], s', steps[..n - 1]);
      assert steps[..n] == steps[..n - 1] + [steps[n - 1]];
      forall k | 0 <= k < |s'.deliveries| ensures Explained(states, steps, n, k) {
        if k < |s.deliveries| {
          assert Explained(states, steps, n - 1, k);
          StillExplained(states, steps, n, k);
        } else {
          assert DeliveredBy(states, steps, n, k, n - 1);
        }
      }
    } else {
      assert steps[..0] == [];
    }
  }

  // In every run from irq_install on, whenever no handler is running: nothing
  // is in service, the master has been sent one end-of-interrupt per delivery
  // and the slave one per delivery of lines 8 to 15, nothing else has been
  // written to them, and each delivery has run, once, the routine the steps
  // before it installed for its line.
  lemma EoiDiscipline(c: Pics, states: seq<System>, steps: seq<Step>, n: nat)
    requires c.master.isr == NO_LINES && c.slave.isr == NO_LINES
    requires IsRun(Installed(c), states, steps) && n <= |steps| && !states[n].running
    ensures var s := states[n];
      && s.pics.master.isr == NO_LINES && s.pics.slave.isr == NO_LINES
      && multiset(s.writes)[MASTER_EOI] == |s.deliveries|
      && multiset(s.writes)[SLAVE_EOI] == SlaveCount(s.deliveries)
      && |s.writes| == |s.deliveries| + SlaveCount(s.deliveries)
      && (forall vector: uint32, handler: nat ::
        multiset(s.runs)[Run(vector, handler)] == multiset(s.deliveries)[Delivery(vector, Some(handler))])
      && (forall k :: 0 <= k < |s.deliveries| ==> Explained(states, steps, n, k))
      && FromDevices(s.deliveries)
  {
    hide Explained, AllRuns, AllWrites, SlaveCount, Moves;
    InstalledInvariant(c);
    RunInvariant(Installed(c), states, steps, n);
    EoisCounted(states[n].deliveries);
    forall vector: uint32, handler: nat {
      RunsCounted(states[n].deliveries, vector, handler);
    }
    RightRoutines(c, states, steps, n);
  }

  // A request waits until it is delivered: no step loses one.
  lemma RequestKept(s: System, step: Step, irq: nat)
    requires PicsRight(s) && Enabled(s, step) && IsDevice(irq) && Pending(s.pics, irq)
    ensures var s' := Apply(s, step);
      || Pending(s'.pics, irq)
      || (step == Deliver && s'.deliveries[|s'.deliveries| - 1].vector == 32 + irq)
  {
    match step
    case Raise(_) =>
    case Deliver => AcknowledgeKeeps(s.pics, irq);
    case Handle => RetireKeeps(s.pics, s.deliveries[|s.deliveries| - 1].vector);
    case Install(_, _) =>
    case Uninstall(_) =>
  }

  lemma RetireKeeps(c: Pics, intNo: uint32)
    ensures EndOfInterrupt(c, intNo).master.irr == c.master.irr
    ensures EndOfInterrupt(c, intNo).slave.irr == c.slave.irr
  {
    EndOfInterruptIs(c, intNo);
  }

  // What is acknowledged was waiting, and alone waits no longer.
  lemma AcknowledgeKeeps(c: Pics, irq: nat)
    requires Remapped(c) && Interrupting(c) && IsDevice(irq) && !c.master.irr[CASCADE]
    ensures var (vector, c') := Acknowledge(c);
      && (vector == 32 + irq ==> Pending(c, irq))
      && (Pending(c', irq) <==> Pending(c, irq) && vector != 32 + irq)
  {}

  // A device's request waits, and no other does because of it.
  lemma RaiseWaits(c: Pics, raised: nat, irq: nat)
    requires IsDevice(raised) && IsDevice(irq)
    ensures Pending(RaiseLine(c, raised), irq) <==> irq == raised || Pending(c, irq)
  {}

  function CountOf(ds: seq<Delivery>, vector: int): nat {
    if ds == [] then 0
    else CountOf(ds[..|ds| - 1], vector) + if ds[|ds| - 1].vector == vector then 1 else 0
  }

  // Deliveries of a line, and its waiting request, against its Raise steps.
  ghost predicate Covered(s: System, steps: seq<Step>, irq: nat)
    requires IsDevice(irq)
  {
    CountOf(s.deliveries, 32 + irq) + (if Pending(s.pics, irq) then 1 else 0) <= multiset(steps)[Raise(irq)]
  }

  lemma CoveredStep(s: System, step: Step, s': System, steps: seq<Step>, irq: nat)
    requires PicsRight(s) && Moves(s, step, s') && IsDevice(irq) && Covered(s, steps, irq)
    ensures Covered(s', steps + [step], irq)
  {
    hide Acknowledge, EndOfInterrupt, RaiseLine, Remapped, InService, Pending;
    match step
    case Raise(raised) => RaiseWaits(s.pics, raised, irq);
    case Deliver =>
      AcknowledgeKeeps(s.pics, irq);
      assert s'.deliveries[..|s'.deliveries| - 1] == s.deliveries;
    case Handle => RetiredPending(s.pics, s.deliveries[|s.deliveries| - 1].vector, irq);
    case Install(_, _) =>
    case Uninstall(_) =>
  }

  lemma RetiredPending(c: Pics, intNo: uint32, irq: nat)
    requires IsDevice(irq)
    ensures Pending(EndOfInterrupt(c, intNo), irq) <==> Pending(c, irq)
  {
    hide EndOfInterrupt;
    RetireKeeps(c, intNo);
  }

  // No interrupt is made up: in every run a line is delivered at most as often
  // as its device has raised it.
  lemma {:induction false} OnlyRaised(c: Pics, states: seq<System>, steps: seq<Step>, n: nat, irq: nat)
    requires c.master.isr == NO_LINES && c.slave.isr == NO_LINES
    requires IsRun(Installed(c), states, steps) && n <= |steps| && IsDevice(irq)
    ensures Covered(states[n], steps[..n], irq)
  {
    hide Invariant, Moves, Covered;
    InstalledInvariant(c);
    if n > 0 {
      OnlyRaised(c, states, steps, n - 1, irq);
      RunInvariant(Installed(c), states, steps, n - 1);
      InvariantPics(states[n - 1]);
      CoveredStep(states[n - 1], steps[n - 1], states[n], steps[..n - 1], irq);
      assert steps[..n] == steps[..n - 1] + [steps[n - 1]];
    } else {
      NothingRaised(c, irq);
      assert steps[..0] == [];
    }
  }

  lemma InvariantPics(s: System)
    requires Invariant(s)
    ensures PicsRight(s)
  {}

  lemma NothingRaised(c: Pics, irq: nat)
    requires IsDevice(irq)
    ensures Covered(Installed(c), [], irq)
  {
    RemapInitializes(c);
  }

  // With no handler running, a waiting request can always be delivered.
  lemma NeverStuck(s: System, irq: nat)
    requires PicsRight(s) && !s.running && IsDevice(irq) && Pending(s.pics, irq)
    ensures Enabled(s, Deliver)
  {
    OneLine(0);
    SomeLine(s.pics.slave, s.pics.slave.irr, irq);
    if irq < 8 {
      SomeLine(s.pics.master, MasterIrr(s.pics), irq);
    } else {
      SomeLine(s.pics.slave, s.pics.slave.irr, irq - 8);
      SomeLine(s.pics.master, MasterIrr(s.pics), CASCADE);
    }
  }

  lemma SomeLine(p: Pic, irr: Lines, n: nat)
    requires p.imr == NO_LINES && p.isr == NO_LINES
    ensures n < 8 && irr[n] ==> Request(p, irr) <= n
  {
    OneLine(0);
    if n < 8 && irr[n] {
      var wanted := seq(8, k requires 0 <= k < 8 => irr[k] && !p.imr[k]);
      assert !NO_LINES[n];
      assert wanted[n];
    }
  }

  // Lines in order of priority: 0, 1, the slave's eight, and 3 to 7.
  function Rank(irq: int): int {
    if irq < CASCADE then irq else if irq >= 8 then irq - 6 else irq + 7
  }

  // Of all waiting requests the one of highest priority is delivered.
  lemma HighestFirst(s: System, irq: nat)
    requires PicsRight(s) && !s.running && IsDevice(irq) && Pending(s.pics, irq)
    ensures Interrupting(s.pics)
    ensures Rank(Acknowledge(s.pics).0 - 32) <= Rank(irq)
  {
    NeverStuck(s, irq);
    if irq < 8 {
      MasterFirst(s.pics, irq);
    } else {
      SlaveFirst(s.pics, irq);
    }
  }

  lemma MasterFirst(c: Pics, irq: nat)
    requires Remapped(c) && c.master.isr == NO_LINES && c.slave.isr == NO_LINES
    requires Interrupting(c) && irq < 8 && irq != CASCADE && c.master.irr[irq]
    ensures Rank(Acknowledge(c).0 - 32) <= Rank(irq)
  {
    SomeLine(c.master, MasterIrr(c), irq);
  }

  lemma SlaveFirst(c: Pics, irq: nat)
    requires Remapped(c) && c.master.isr == NO_LINES && c.slave.isr == NO_LINES
    requires Interrupting(c) && 8 <= irq < 16 && c.slave.irr[irq - 8]
    ensures Rank(Acknowledge(c).0 - 32) <= Rank(irq)
  {
    SomeLine(c.slave, c.slave.irr, irq - 8);
    SomeLine(c.master, MasterIrr(c), CASCADE);
  }
}
