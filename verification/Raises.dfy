/** `cadence.py`: the log of raises over whole runs of the machine, in either loop. */
module Raises {
  import opened Options
  import opened Cia
  import opened Cadence

  // ----- what code does to the log

  /** The same raises, whatever their handlers wrote. */
  ghost predicate SameRaises(a: Dev, b: Dev) {
    && |a.events| == |b.events|
    && forall i: nat :: i < |a.events| ==>
        a.events[i].when == b.events[i].when && a.events[i].source == b.events[i].source
  }

  /** Callbacks mark what handlers write, but never add or move a raise. */
  ghost predicate KeepsRaises<M(!new)>(e: Engine<M>) {
    forall c, d: Dev, h :: d.Valid() ==> SameRaises(d, e.step(c, d, h).dev)
  }

  lemma {:induction false} NativeKeeps<M(!new)>(e: Engine<M>, core: Core<M>, dev: Dev, handler: Option<nat>,
      limit: int, window: bool, above: Option<int>, irq: bool)
    requires Lawful(e) && KeepsRaises(e) && dev.Valid()
    ensures var c := RunUntil(e, core, dev, handler, limit, window, above, irq);
            SameRaises(dev, c.dev) && (c.dirty ==> c.core.cycles > core.cycles)
    decreases Max(0, limit + 1 - core.cycles)
  {
    if !StopsBefore(core, limit, window, above, irq) {
      var i := e.step(core, dev, handler);
      assert SameRaises(dev, i.dev) && i.core.cycles >= core.cycles + 2;
      if !(i.core.pc == core.pc && i.core.sp == core.sp) && !i.stop {
        hide Lawful;
        NativeKeeps(e, i.core, i.dev, handler, limit, window, above, irq);
      }
    }
  }

  // ----- the timeline

  ghost predicate Increasing(events: seq<Event>) {
    forall i, j :: 0 <= i < j < |events| ==> events[i].when < events[j].when
  }

  /** Every raise logged so far is earlier than `cycle`. */
  ghost predicate AllBefore(events: seq<Event>, cycle: int) {
    forall i: nat :: i < |events| ==> events[i].when < cycle
  }

  /** The log is in strict cycle order, in the past, and before whatever raises next. */
  ghost predicate Timeline<M>(st: State<M>) {
    && Increasing(st.dev.events) && AllBefore(st.dev.events, st.core.cycles + 1)
    && (st.dirty ==> AllBefore(st.dev.events, st.core.cycles))
    && (!st.dirty && st.due.Some? ==> AllBefore(st.dev.events, st.due.value.cycle))
  }

  lemma RefreshTimeline<M>(s: Setup, st: State<M>)
    requires s.Valid() && st.Valid() && Timeline(st)
    ensures Timeline(Refreshed(s, st))
  {
  }

  lemma RaiseTimeline<M>(s: Setup, st: State<M>)
    requires s.Valid() && st.Valid() && st.DueNow() && !st.dirty && Timeline(st)
    ensures Timeline(AfterRaise(s, st))
  {
    hide Period, Underflown, Asserted, Pending;
  }

  lemma TakeTimeline<M(!new)>(e: Engine<M>, st: State<M>)
    requires Lawful(e) && st.Valid() && Timeline(st)
    ensures Timeline(AfterTake(e, st))
  {
    hide Entered, Lawful;
    TakeProgress(e, st);
    assert AfterTake(e, st).dev.events == st.dev.events;
  }

  lemma AttendedTimeline<M(!new)>(s: Setup, e: Engine<M>, st: State<M>)
    requires s.Valid() && Lawful(e) && st.Valid() && Timeline(st)
    ensures Timeline(Refreshed(s, st))
    ensures Attended(s, e, st).Some? ==> Timeline(Attended(s, e, st).value)
  {
    hide Lawful, Timeline, AfterRaise, AfterTake, Refreshed;
    RefreshTimeline(s, st);
    RefreshProgress(s, st);
    var f := Refreshed(s, st);
    if f.DueNow() {
      RaiseTimeline(s, f);
    } else if f.Takes() {
      TakeTimeline(e, f);
    } else {
      RedirectTimeline(s, f);
    }
  }

  lemma RedirectTimeline<M>(s: Setup, st: State<M>)
    requires s.Valid() && st.Valid() && Timeline(st)
    ensures Timeline(AfterRedirect(s, st))
  {
  }

  /** Code that keeps the raises, and takes time when it marks the interrupt state dirty, keeps the
      timeline. */
  lemma CodeTimeline<M>(st: State<M>, ran: State<M>, brk: bool, idle: bool, span: int)
    requires st.Valid() && ran.Valid() && Timeline(st) && !st.dirty
    requires ran.due == st.due && ran.core.cycles >= st.core.cycles && SameRaises(st.dev, ran.dev)
    requires ran.dirty ==> ran.core.cycles > st.core.cycles
    ensures Timeline(AfterCode(ran, brk, idle, span).0)
  {
    hide Unwound;
    var r := AfterCode(ran, brk, idle, span).0;
    assert r.dev == ran.dev && r.due == ran.due && r.dirty == ran.dirty && r.core.cycles >= ran.core.cycles;
  }

  lemma StepTimeline<M(!new)>(s: Setup, e: Engine<M>, span: int, st: State<M>)
    requires s.Valid() && Lawful(e) && KeepsRaises(e) && st.Valid() && st.core.cycles < st.end && Timeline(st)
    ensures Timeline(StepOnce(s, e, span, st).0)
  {
    hide Timeline, Attended, Refreshed, AfterCode;
    AttendedTimeline(s, e, st);
    RefreshProgress(s, st);
    var f := Refreshed(s, st);
    var i := e.step(f.core, f.dev, TopHandler(f));
    assert SameRaises(f.dev, i.dev) && i.core.cycles >= f.core.cycles + 2;
    hide Lawful, KeepsRaises, SameRaises;
    CodeTimeline(f, f.(core := i.core, dev := i.dev, dirty := i.dirty), e.isBrk(f.core),
                 i.core.pc == f.core.pc && i.core.sp == f.core.sp, span);
  }

  lemma EventTimeline<M(!new)>(s: Setup, e: Engine<M>, span: int, st: State<M>)
    requires s.Valid() && Lawful(e) && KeepsRaises(e) && st.Valid() && st.core.cycles < st.end && Timeline(st)
    ensures Timeline(EventOnce(s, e, span, st).0)
  {
    hide Timeline, Attended, Refreshed, AfterCode, RunUntil, SameRaises, KeepsRaises, Lawful;
    AttendedTimeline(s, e, st);
    RefreshProgress(s, st);
    var f := Refreshed(s, st);
    var c := RunUntil(e, f.core, f.dev, TopHandler(f), Limit(f), f.Inside() && f.core.hiram, Above(f), f.irq);
    NativeKeeps(e, f.core, f.dev, TopHandler(f), Limit(f), f.Inside() && f.core.hiram, Above(f), f.irq);
    CodeTimeline(f, f.(core := c.core, dev := c.dev, dirty := c.dirty), c.brk, c.idle, span);
  }

  /** Every run of the reference loop logs raises at strictly increasing cycles. */
  lemma {:induction false} RunTimeline<M(!new)>(s: Setup, e: Engine<M>, span: int, st: State<M>)
    requires s.Valid() && Lawful(e) && KeepsRaises(e) && st.Valid() && span >= 0 && Timeline(st)
    ensures Increasing(Run(s, e, span, st).dev.events)
    decreases Max(0, st.end - st.core.cycles), st.dirty, st.DueNow(), st.Takes(), st.InKernal()
  {
    hide Lawful, KeepsRaises, StepOnce;
    if st.core.cycles < st.end {
      var (next, done) := StepOnce(s, e, span, st);
      StepProgress(s, e, span, st);
      StepTimeline(s, e, span, st);
      if !done {
        RunTimeline(s, e, span, next);
      }
    }
  }

  /** And so does every run of the event loop, whether or not the two agree. */
  lemma {:induction false} EventsTimeline<M(!new)>(s: Setup, e: Engine<M>, span: int, st: State<M>)
    requires s.Valid() && Lawful(e) && KeepsRaises(e) && st.Valid() && span >= 0 && Timeline(st)
    ensures Increasing(RunEvents(s, e, span, st).dev.events)
    decreases Max(0, st.end - st.core.cycles), st.dirty, st.DueNow(), st.Takes(), st.InKernal(), |st.handlers|
  {
    hide Lawful, KeepsRaises, EventOnce;
    if st.core.cycles < st.end {
      var (next, done) := EventOnce(s, e, span, st);
      EventProgress(s, e, span, st);
      EventTimeline(s, e, span, st);
      if !done {
        EventsTimeline(s, e, span, next);
      }
    }
  }

  // ----- between two raises of one source

  /** Code changes a chip by register writes and ICR reads alone. */
  ghost predicate Coded(ops: seq<Op>) {
    forall op :: op in ops ==> ValidOp(op) && !op.Elapse?
  }

  /** Register writes and ICR reads take chip `a` to `b`. */
  ghost predicate Leads(a: Regs, ops: seq<Op>, b: Regs)
    requires a.Valid()
  {
    Coded(ops) && At(a, ops, |ops|) == b
  }

  ghost predicate ByOps(a: Regs, b: Regs)
    requires a.Valid()
  {
    exists ops :: Leads(a, ops, b)
  }

  /** Callbacks change the chips no other way. */
  ghost predicate ChipsByOps<M(!new)>(e: Engine<M>) {
    forall c, d: Dev, h, chip {:trigger e.step(c, d, h).dev.cias[chip]} :: d.Valid() && 0 <= chip < 2 ==>
      |e.step(c, d, h).dev.cias| == 2 && ByOps(d.cias[chip], e.step(c, d, h).dev.cias[chip])
  }

  lemma {:induction false} AtJoined(c: Regs, first: seq<Op>, rest: seq<Op>, k: nat)
    requires c.Valid() && Coded(first) && Coded(rest) && k <= |rest|
    ensures Coded(first + rest) && At(c, first, |first|).Valid()
    ensures At(c, first + rest, |first| + k) == At(At(c, first, |first|), rest, k)
  {
    hide Apply;
    if k == 0 {
      AtPrefix(c, first, rest, |first|);
    } else {
      AtJoined(c, first, rest, k - 1);
      assert (first + rest)[|first| + k - 1] == rest[k - 1];
    }
  }

  lemma {:induction false} AtPrefix(c: Regs, first: seq<Op>, rest: seq<Op>, k: nat)
    requires c.Valid() && Coded(first) && Coded(rest) && k <= |first|
    ensures At(c, first + rest, k) == At(c, first, k)
  {
    if k > 0 {
      AtPrefix(c, first, rest, k - 1);
      assert (first + rest)[k - 1] == first[k - 1];
    }
  }

  lemma ByOpsThen(a: Regs, b: Regs, c: Regs)
    requires a.Valid() && b.Valid() && ByOps(a, b) && ByOps(b, c)
    ensures ByOps(a, c)
  {
    hide At, Apply;
    var first :| Leads(a, first, b);
    var rest :| Leads(b, rest, c);
    AtJoined(a, first, rest, |rest|);
    assert Leads(a, first + rest, c);
  }

  lemma ByNoOps(a: Regs)
    requires a.Valid()
    ensures ByOps(a, a)
  {
    assert Leads(a, [], a);
  }

  lemma {:induction false} NativeByOps<M(!new)>(e: Engine<M>, core: Core<M>, dev: Dev, handler: Option<nat>,
      limit: int, window: bool, above: Option<int>, irq: bool, chip: int)
    requires Lawful(e) && ChipsByOps(e) && dev.Valid() && 0 <= chip < 2
    ensures ByOps(dev.cias[chip], RunUntil(e, core, dev, handler, limit, window, above, irq).dev.cias[chip])
    decreases Max(0, limit + 1 - core.cycles)
  {
    hide ByOps;
    ByNoOps(dev.cias[chip]);
    if !StopsBefore(core, limit, window, above, irq) {
      var i := e.step(core, dev, handler);
      assert i.dev.Valid() && ByOps(dev.cias[chip], i.dev.cias[chip]) && i.core.cycles >= core.cycles + 2;
      if !(i.core.pc == core.pc && i.core.sp == core.sp) && !i.stop {
        hide Lawful, ChipsByOps;
        NativeByOps(e, i.core, i.dev, handler, limit, window, above, irq, chip);
        ByOpsThen(dev.cias[chip], i.dev.cias[chip],
                  RunUntil(e, i.core, i.dev, handler, limit, window, above, irq).dev.cias[chip]);
      }
    }
  }

  /** A chip's interrupt line, or for the chip -1 the raster's flag. */
  predicate Line(d: Dev, chip: int)
    requires d.Valid() && -1 <= chip < 2
  {
    if chip == -1 then d.vicFlag else Asserted(d.cias[chip])
  }

  datatype Loop = Stepped | Native

  /** One turn of either loop. */
  function TurnOf<M(!new)>(loop: Loop, s: Setup, e: Engine<M>, span: int, st: State<M>): (r: State<M>)
    requires s.Valid() && Lawful(e) && st.Valid() && st.core.cycles < st.end
    ensures r.Valid()
  {
    if loop.Stepped? then StepOnce(s, e, span, st).0 else EventOnce(s, e, span, st).0
  }

  ghost predicate Turn<M(!new)>(loop: Loop, s: Setup, e: Engine<M>, span: int, st: State<M>, next: State<M>)
    requires s.Valid() && Lawful(e)
  {
    st.Valid() && st.core.cycles < st.end && next == TurnOf(loop, s, e, span, st)
  }

  /** Consecutive states of a run of either loop. */
  ghost predicate Turns<M(!new)>(loop: Loop, s: Setup, e: Engine<M>, span: int, run: seq<State<M>>)
    requires s.Valid() && Lawful(e)
  {
    forall i, j :: 0 <= i && j == i + 1 < |run| ==> Turn(loop, s, e, span, run[i], run[j])
  }

  /** The turn logs a raise of the chip. */
  predicate Logs(a: Dev, b: Dev, chip: int) {
    |b.events| == |a.events| + 1 && b.events[|a.events|].source.chip == chip
  }

  /** A turn in which code runs. */
  predicate RunsCode<M>(s: Setup, e: Engine<M>, st: State<M>)
    requires s.Valid() && st.Valid()
  {
    Attended(s, e, st).None?
  }

  /** In chip `a`'s way to `b` an ICR read or a write clearing mask bits takes the line down. */
  ghost predicate LineDropped(a: Regs, b: Regs)
    requires a.Valid()
  {
    exists ops, k :: Leads(a, ops, b) && Drops(a, ops, k)
  }

  /** Outside code the line never falls, and a logged raise finds it down and leaves it up. */
  lemma AttendedLine<M(!new)>(s: Setup, e: Engine<M>, st: State<M>, chip: int)
    requires s.Valid() && st.Valid() && -1 <= chip < 2 && Attended(s, e, st).Some?
    ensures var next := Attended(s, e, st).value;
      && (Line(st.dev, chip) ==> Line(next.dev, chip))
      && (Logs(st.dev, next.dev, chip) ==> !Line(st.dev, chip) && Line(next.dev, chip))
  {
    hide Line, Raised, Entered, Pending;
    var f := Refreshed(s, st);
    assert f.dev == st.dev;
    if f.DueNow() {
      RaisedLine(f.dev, f.due.value, chip);
    } else {
      OtherLine(s, e, f, chip);
    }
  }

  lemma RaisedLine(d: Dev, due: Due, chip: int)
    requires d.Valid() && (due.source == VIC || (0 <= due.source.chip < 2 && 0 <= due.source.timer < 2)) &&
        -1 <= chip < 2
    ensures var e := Raised(d, due).0;
      && (Line(d, chip) ==> Line(e, chip))
      && (Logs(d, e, chip) ==> !Line(d, chip) && Line(e, chip))
  {
    hide Underflown, Asserted;
    if due.source != VIC {
      StaysAsserted(d.cias[due.source.chip], due.source.timer, due.cycle);
    }
  }

  lemma StaysAsserted(c: Regs, timer: int, now: int)
    requires c.Valid() && 0 <= timer < 2
    ensures Asserted(c) ==> Asserted(Underflown(c, timer, now))
  {
    if Asserted(c) && !Asserted(Underflown(c, timer, now)) {
      OnlyDrops(c, Elapse(timer, now));
    }
  }

  lemma OtherLine<M(!new)>(s: Setup, e: Engine<M>, st: State<M>, chip: int)
    requires s.Valid() && st.Valid() && -1 <= chip < 2
    ensures Line(AfterTake(e, st).dev, chip) == Line(st.dev, chip) && AfterTake(e, st).dev.events == st.dev.events
    ensures AfterRedirect(s, st).dev == st.dev
  {
    hide Entered;
  }

  /** Code logs no raise, and changes a chip by its operations. */
  lemma CodeLine<M(!new)>(loop: Loop, s: Setup, e: Engine<M>, span: int, st: State<M>, chip: int)
    requires s.Valid() && Lawful(e) && KeepsRaises(e) && ChipsByOps(e) && st.Valid() && st.core.cycles < st.end
    requires RunsCode(s, e, st)
    ensures var next := TurnOf(loop, s, e, span, st);
      && |next.dev.events| == |st.dev.events|
      && (0 <= chip < 2 ==> ByOps(st.dev.cias[chip], next.dev.cias[chip]))
  {
    hide Lawful, KeepsRaises, ChipsByOps, ByOps, Attended, StepCode, ChunkCode, Refreshed;
    var f := Refreshed(s, st);
    RefreshedDev(s, st);
    StepLine(e, f, span, chip);
    NativeLine(e, f, span, chip);
  }

  lemma RefreshedDev<M>(s: Setup, st: State<M>)
    requires s.Valid() && st.Valid()
    ensures Refreshed(s, st).dev == st.dev
  {
  }

  lemma StepLine<M(!new)>(e: Engine<M>, st: State<M>, span: int, chip: int)
    requires Lawful(e) && KeepsRaises(e) && ChipsByOps(e) && st.Valid()
    ensures var next := StepCode(e, st, span).0;
      && |next.dev.events| == |st.dev.events|
      && (0 <= chip < 2 ==> ByOps(st.dev.cias[chip], next.dev.cias[chip]))
  {
    hide AfterCode, ByOps;
    var i := e.step(st.core, st.dev, TopHandler(st));
    assert SameRaises(st.dev, i.dev);
    assert 0 <= chip < 2 ==> ByOps(st.dev.cias[chip], i.dev.cias[chip]);
    CodeDev(st.(core := i.core, dev := i.dev, dirty := i.dirty), e.isBrk(st.core),
            i.core.pc == st.core.pc && i.core.sp == st.core.sp, span);
  }

  lemma NativeLine<M(!new)>(e: Engine<M>, st: State<M>, span: int, chip: int)
    requires Lawful(e) && KeepsRaises(e) && ChipsByOps(e) && st.Valid()
    ensures var next := ChunkCode(e, st, span).0;
      && |next.dev.events| == |st.dev.events|
      && (0 <= chip < 2 ==> ByOps(st.dev.cias[chip], next.dev.cias[chip]))
  {
    hide AfterCode, ByOps, RunUntil, Lawful, KeepsRaises, ChipsByOps;
    var window := st.Inside() && st.core.hiram;
    var c := RunUntil(e, st.core, st.dev, TopHandler(st), Limit(st), window, Above(st), st.irq);
    NativeKeeps(e, st.core, st.dev, TopHandler(st), Limit(st), window, Above(st), st.irq);
    if 0 <= chip < 2 {
      NativeByOps(e, st.core, st.dev, TopHandler(st), Limit(st), window, Above(st), st.irq, chip);
    }
    CodeDev(st.(core := c.core, dev := c.dev, dirty := c.dirty), c.brk, c.idle, span);
  }

  lemma CodeDev<M>(st: State<M>, brk: bool, idle: bool, span: int)
    requires st.Valid()
    ensures AfterCode(st, brk, idle, span).0.dev == st.dev
  {
    hide Unwound;
  }

  lemma AttendedTurn<M(!new)>(loop: Loop, s: Setup, e: Engine<M>, span: int, st: State<M>)
    requires s.Valid() && Lawful(e) && st.Valid() && st.core.cycles < st.end && !RunsCode(s, e, st)
    ensures TurnOf(loop, s, e, span, st) == Attended(s, e, st).value
  {
    hide Lawful, Attended;
  }

  lemma DroppedBy(a: Regs, b: Regs)
    requires a.Valid() && b.Valid() && ByOps(a, b) && Asserted(a) && !Asserted(b)
    ensures LineDropped(a, b)
  {
    hide Asserted;
    var ops :| Leads(a, ops, b);
    var k := DropBetween(a, ops, 0, |ops|);
    assert Leads(a, ops, b) && Drops(a, ops, k);
  }

  /** The turn takes the chip's line down, by code, and a CIA's by an ICR read or a mask write. */
  ghost predicate TakesDown<M(!new)>(s: Setup, e: Engine<M>, st: State<M>, next: State<M>, chip: int)
    requires s.Valid() && -1 <= chip < 2
  {
    && st.Valid() && next.Valid() && RunsCode(s, e, st) && Line(st.dev, chip) && !Line(next.dev, chip)
    && (chip >= 0 ==> LineDropped(st.dev.cias[chip], next.dev.cias[chip]))
  }

  lemma TurnTakesDown<M(!new)>(loop: Loop, s: Setup, e: Engine<M>, span: int, st: State<M>, chip: int)
    requires s.Valid() && Lawful(e) && KeepsRaises(e) && ChipsByOps(e) && st.Valid() && st.core.cycles < st.end
    requires -1 <= chip < 2 && Line(st.dev, chip)
    ensures var next := TurnOf(loop, s, e, span, st); !Line(next.dev, chip) ==> TakesDown(s, e, st, next, chip)
  {
    hide Lawful, KeepsRaises, ChipsByOps, TurnOf, RunsCode, LineDropped, ByOps;
    var next := TurnOf(loop, s, e, span, st);
    if RunsCode(s, e, st) {
      CodeLine(loop, s, e, span, st, chip);
      if chip >= 0 && !Line(next.dev, chip) {
        DroppedBy(st.dev.cias[chip], next.dev.cias[chip]);
      }
    } else {
      AttendedTurn(loop, s, e, span, st);
      NotCode(s, e, st);
      AttendedLine(s, e, st, chip);
    }
  }

  lemma NotCode<M>(s: Setup, e: Engine<M>, st: State<M>)
    requires s.Valid() && st.Valid() && !RunsCode(s, e, st)
    ensures Attended(s, e, st).Some?
  {
  }

  lemma LogsLine<M(!new)>(loop: Loop, s: Setup, e: Engine<M>, span: int, st: State<M>, chip: int)
    requires s.Valid() && Lawful(e) && KeepsRaises(e) && ChipsByOps(e) && st.Valid() && st.core.cycles < st.end
    requires -1 <= chip < 2
    ensures var next := TurnOf(loop, s, e, span, st);
      Logs(st.dev, next.dev, chip) ==> !Line(st.dev, chip) && Line(next.dev, chip)
  {
    hide Lawful, KeepsRaises, ChipsByOps, TurnOf, RunsCode, ByOps, Line;
    if RunsCode(s, e, st) {
      CodeLine(loop, s, e, span, st, chip);
    } else {
      AttendedTurn(loop, s, e, span, st);
      NotCode(s, e, st);
      AttendedLine(s, e, st, chip);
    }
  }

  lemma {:induction false} DownBetween<M(!new)>(loop: Loop, s: Setup, e: Engine<M>, span: int, run: seq<State<M>>,
      i: nat, j: nat, chip: int) returns (k: nat)
    requires s.Valid() && Lawful(e) && KeepsRaises(e) && ChipsByOps(e) && Turns(loop, s, e, span, run)
    requires -1 <= chip < 2 && i < j && j + 1 < |run|
    requires run[i].Valid() && run[j].Valid() && Line(run[i].dev, chip) && !Line(run[j].dev, chip)
    ensures i <= k < j && TakesDown(s, e, run[k], run[k + 1], chip)
    decreases j - i
  {
    hide Lawful, KeepsRaises, ChipsByOps, TurnOf, Line, TakesDown;
    assert Turn(loop, s, e, span, run[i], run[i + 1]) && Turn(loop, s, e, span, run[i + 1], run[i + 2]);
    if Line(run[i + 1].dev, chip) {
      k := DownBetween(loop, s, e, span, run, i + 1, j, chip);
    } else {
      TurnTakesDown(loop, s, e, span, run[i], chip);
      k := i;
    }
  }

  /** In every run of either loop, between two logged raises of one chip, or of the raster, some code
      took its line down, a CIA's by an ICR read or a write clearing mask bits. */
  lemma RaisesApart<M(!new)>(loop: Loop, s: Setup, e: Engine<M>, span: int, run: seq<State<M>>, i: nat, j: nat,
        chip: int)
      returns (k: nat)
    requires s.Valid() && Lawful(e) && KeepsRaises(e) && ChipsByOps(e) && Turns(loop, s, e, span, run)
    requires -1 <= chip < 2 && i < j && j + 1 < |run|
    requires Logs(run[i].dev, run[i + 1].dev, chip) && Logs(run[j].dev, run[j + 1].dev, chip)
    ensures i < k < j && TakesDown(s, e, run[k], run[k + 1], chip)
  {
    hide Lawful, KeepsRaises, ChipsByOps, TurnOf, Line, TakesDown, Logs;
    assert Turn(loop, s, e, span, run[i], run[i + 1]) && Turn(loop, s, e, span, run[j], run[j + 1]);
    assert Turn(loop, s, e, span, run[i + 1], run[i + 2]);
    LogsLine(loop, s, e, span, run[i], chip);
    LogsLine(loop, s, e, span, run[j], chip);
    k := DownBetween(loop, s, e, span, run, i + 1, j, chip);
  }
}
