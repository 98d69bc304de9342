/** `cadence.py`, `_Machine`: a tune running with VIC raster and CIA timer interrupts raised
    and taken as the C64 does, and its two loops: one instruction at a time, or in native
    runs between the events that need attention.
 */
module Cadence {
  import opened Options
  import opened Words
  import opened Cia

  type Word = x: int | 0 <= x < 0x1_0000

  const KERNAL_BASE := 0xE000
  const VIC_BASE := 0xD000
  const IRQRET := 0xBB

  /** An interrupt source: a CIA's timer, or the raster as `VIC`. */
  datatype Source = Source(chip: int, timer: int)

  const VIC := Source(-1, 0)

  /** A logged raise: its cycle, source, the SID registers its handlers wrote, and its tag. */
  datatype Event = Event(when: int, source: Source, wrote: int, tag: int)

  /** A source's next raise. */
  datatype Due = Due(cycle: int, source: Source)

  datatype Dev = Dev(cias: seq<Regs>, vicOn: bool, raster: int, vicSeen: int, vicFlag: bool,
                     events: seq<Event>, last: map<int, nat>, unclear: set<Source>)
  {
    ghost predicate Valid() {
      && |cias| == 2 && cias[0].Valid() && cias[1].Valid()
      && forall chip :: chip in last ==> last[chip] < |events|
    }
  }

  /** Video timing and the driver's page. */
  datatype Setup = Setup(frame: int, line: int, base: int, maxCycles: int) {
    ghost predicate Valid() {
      frame > 0 && line > 0 && 0 <= base && base + IRQRET + 8 < KERNAL_BASE
    }
  }

  // ----- raises

  /** The first cycle after `now` at which the raster reaches the compare line. */
  function NextMatch(s: Setup, raster: int, now: int): int
    requires s.Valid()
  {
    var base := raster * s.line;
    base - (base - now - 1) / s.frame * s.frame
  }

  lemma NextMatchFirst(s: Setup, raster: int, now: int)
    requires s.Valid()
    ensures now < NextMatch(s, raster, now) <= now + s.frame
    ensures (NextMatch(s, raster, now) - raster * s.line) % s.frame == 0
  {
    var x := raster * s.line - now - 1;
    assert x == x / s.frame * s.frame + x % s.frame;
    ModAddMultiple(0, -(x / s.frame), s.frame);
    assert -(x / s.frame) * s.frame == -(x / s.frame * s.frame);
  }

  function Max(a: int, b: int): int {
    if a < b then b else a
  }

  function Min(a: int, b: int): int {
    if a < b then a else b
  }

  /** Python's order of `(cycle, (chip, timer))`. */
  predicate Before(a: Due, b: Due) {
    || a.cycle < b.cycle
    || (a.cycle == b.cycle && (a.source.chip < b.source.chip
        || (a.source.chip == b.source.chip && a.source.timer <= b.source.timer)))
  }

  function Earlier(a: Option<Due>, b: Option<Due>): Option<Due> {
    if a.None? then b else if b.None? || Before(a.value, b.value) then a else b
  }

  /** When an armed source raises next, at or after `now`. */
  function DueOf(s: Setup, d: Dev, source: Source, now: int): Option<Due>
    requires s.Valid() && d.Valid()
  {
    if source == VIC then
      if d.vicOn && d.raster < s.frame / s.line then Some(Due(Max(NextMatch(s, d.raster, now - 1), now), VIC)) else None
    else if 0 <= source.chip < 2 && 0 <= source.timer < 2 && Armed(d.cias[source.chip], source.timer) then
      Some(Due(Max(d.cias[source.chip].due[source.timer], now), source))
    else None
  }

  /** `pending`: the earliest armed source's next raise. */
  function Pending(s: Setup, d: Dev, now: int): (due: Option<Due>)
    requires s.Valid() && d.Valid()
    ensures due.Some? ==> due.value.cycle >= now && DueOf(s, d, due.value.source, now) == due
  {
    Earlier(Earlier(Earlier(DueOf(s, d, Source(0, 0), now), DueOf(s, d, Source(0, 1), now)),
                    Earlier(DueOf(s, d, Source(1, 0), now), DueOf(s, d, Source(1, 1), now))),
            DueOf(s, d, VIC, now))
  }

  /** No armed source raises before the one `pending` names. */
  lemma PendingEarliest(s: Setup, d: Dev, now: int, source: Source)
    requires s.Valid() && d.Valid() && DueOf(s, d, source, now).Some?
    ensures Pending(s, d, now).Some? && Before(Pending(s, d, now).value, DueOf(s, d, source, now).value)
  {
    assert source in {Source(0, 0), Source(0, 1), Source(1, 0), Source(1, 1), VIC};
  }

  /** `raise_`: the source raises at `when`; the raise is logged if it newly asserts its line. */
  function Raised(d: Dev, due: Due): (r: (Dev, bool))
    requires d.Valid() && (due.source == VIC || (0 <= due.source.chip < 2 && 0 <= due.source.timer < 2))
    ensures r.0.Valid()
  {
    var chip, timer := due.source.chip, due.source.timer;
    if due.source == VIC then
      var raised := !d.vicFlag;
      var e := d.(vicFlag := true, vicSeen := due.cycle);
      (if raised then Logged(e, due, d.raster) else e, raised)
    else
      var cia := d.cias[chip];
      var after := Underflown(cia, timer, due.cycle);
      var raised := !Asserted(cia) && Asserted(after);
      var e := d.(cias := d.cias[chip := after]);
      (if raised then Logged(e, due, Period(cia, timer)) else e, raised)
  }

  function Logged(d: Dev, due: Due, tag: int): (e: Dev)
    requires d.Valid()
    ensures e.Valid()
  {
    d.(events := d.events + [Event(due.cycle, due.source, 0, tag)], last := d.last[due.source.chip := |d.events|])
  }

  /** The CPU's IRQ input. */
  predicate IrqLine(d: Dev)
    requires d.Valid()
  {
    (d.vicFlag && d.vicOn) || Asserted(d.cias[0])
  }

  /** The raise an interrupt entry serves: the NMI's, else the earliest still asserting the line. */
  function Entered(d: Dev, nmi: bool): Option<nat>
    requires d.Valid()
  {
    if nmi then (if 1 in d.last then Some(d.last[1]) else None)
    else
      var vic := if d.vicFlag && d.vicOn && -1 in d.last then Some(d.last[-1]) else None;
      var cia := if Asserted(d.cias[0]) && 0 in d.last then Some(d.last[0]) else None;
      if vic.None? then cia
      else if cia.None? || d.events[vic.value].when <= d.events[cia.value].when then vic else cia
  }

  // ----- the processor

  /** What the loops read of the processor; `rest` is everything else, memory included. */
  datatype Core<M> = Core(pc: Word, sp: int, cycles: int, masked: bool, hiram: bool, io: bool, rest: M)

  /** One executed instruction: the state after it and what its callbacks marked, `brk` by reading the
      IRQ vector. */
  datatype Insn<M> = Insn(core: Core<M>, dev: Dev, dirty: bool, stop: bool, brk: bool)

  /** The processor and the register callbacks it runs: any deterministic ones. `isBrk` is the reference
      loop's own test for a `BRK`, of the RAM byte at the program counter; what runs there may be a ROM's
      or a device's byte. */
  datatype Engine<!M> = Engine(
    step: (Core<M>, Dev, Option<nat>) -> Insn<M>,
    isBrk: Core<M> -> bool,
    interrupt: Core<M> -> Core<M>,
    dispatch: (Core<M>, bool) -> Core<M>)

  /** An instruction takes two cycles or more; callbacks that change interrupt state or the bank, or mark
      a `BRK`, stop a native run; entering an interrupt masks further IRQs. */
  ghost predicate Lawful<M(!new)>(e: Engine<M>) {
    && (forall c, d: Dev, h :: d.Valid() ==>
         var i := e.step(c, d, h);
         && i.core.cycles >= c.cycles + 2 && i.dev.Valid()
         && (i.dirty ==> i.stop) && (i.core.hiram != c.hiram ==> i.stop)
         && (i.brk ==> i.stop))
    && (forall c :: e.interrupt(c).cycles >= c.cycles && e.interrupt(c).masked)
    && (forall c, nmi :: e.dispatch(c, nmi).cycles >= c.cycles && e.dispatch(c, nmi).masked == c.masked)
  }

  // ----- states of the loops

  datatype State<M> = State(core: Core<M>, dev: Dev, dirty: bool, end: int, nmi: bool, due: Option<Due>, irq: bool,
                            handlers: seq<Option<nat>>, frames: seq<int>)
  {
    ghost predicate Valid() {
      && dev.Valid() && |handlers| == |frames| > 0 && handlers[0].None?
      && (due.Some? ==> due.value.source == VIC || (0 <= due.value.source.chip < 2 && 0 <= due.value.source.timer < 2))
    }

    predicate Inside() { |handlers| > 1 }

    predicate DueNow() { due.Some? && core.cycles >= due.value.cycle }

    predicate Takes() { nmi || (irq && !core.masked) }

    predicate InKernal() { Inside() && core.hiram && core.pc >= KERNAL_BASE }

    /** No handler's frame is below the stack pointer. */
    predicate Settled()
      requires |frames| > 0
    {
      Inside() ==> core.sp <= frames[|frames| - 1]
    }
  }

  /** `_unwind`: leave the handlers whose frames the stack pointer has climbed past. */
  function Unwound<M>(st: State<M>): (r: State<M>)
    requires st.Valid()
    ensures r.Valid() && r.Settled() && |r.handlers| <= |st.handlers|
    ensures r == st.(handlers := r.handlers, frames := r.frames)
    ensures st.Settled() ==> r == st
    decreases |st.handlers|
  {
    if st.Inside() && st.core.sp > st.frames[|st.frames| - 1] then
      Unwound(st.(handlers := st.handlers[..|st.handlers| - 1], frames := st.frames[..|st.frames| - 1]))
    else st
  }

  /** The recomputation both loops make when a callback marked the interrupt state dirty. */
  function Refreshed<M>(s: Setup, st: State<M>): (r: State<M>)
    requires s.Valid() && st.Valid()
    ensures r.Valid() && !r.dirty
  {
    if st.dirty then
      st.(due := Pending(s, st.dev, st.core.cycles), irq := IrqLine(st.dev), dirty := false)
    else st
  }

  /** The due source raises; an NMI edge is remembered. */
  function AfterRaise<M>(s: Setup, st: State<M>): (r: State<M>)
    requires s.Valid() && st.Valid() && st.DueNow()
    ensures r.Valid() && !r.DueNow()
  {
    var (dev, raised) := Raised(st.dev, st.due.value);
    st.(dev := dev, nmi := st.nmi || (raised && st.due.value.source.chip == 1),
        due := Pending(s, dev, st.core.cycles + 1), irq := IrqLine(dev))
  }

  /** `take`, and the loops' `nmi = False` after it. */
  function AfterTake<M>(e: Engine<M>, st: State<M>): (r: State<M>)
    requires st.Valid()
    ensures r.Valid()
  {
    var handler := Entered(st.dev, st.nmi);
    var pushed := e.interrupt(st.core);
    var core := e.dispatch(pushed, st.nmi);
    var unclear := handler.Some? && handler.value < |st.dev.events| && core.io && VIC_BASE <= core.pc < KERNAL_BASE;
    st.(core := core, nmi := false, handlers := st.handlers + [handler], frames := st.frames + [pushed.sp],
        dev := if unclear then st.dev.(unclear := st.dev.unclear + {st.dev.events[handler.value].source}) else st.dev)
  }

  /** A jump into the ROM-less KERNAL ends at the driver's matching exit. */
  function KernalExit(pc: Word): int {
    if pc <= 0xEA7E then 0 else if pc == 0xFE47 then 8 else 3
  }

  function AfterRedirect<M>(s: Setup, st: State<M>): (r: State<M>)
    requires s.Valid() && st.Valid()
    ensures r.Valid() && !r.InKernal()
  {
    st.(core := st.core.(pc := s.base + IRQRET + KernalExit(st.core.pc)))
  }

  /** What follows an instruction, or a native run ending in one: a `BRK` enters the running
      handler again, left frames are dropped, and an idle instruction skips to the next event. */
  function AfterCode<M>(st: State<M>, brk: bool, idle: bool, span: int): (r: (State<M>, bool))
    requires st.Valid()
    ensures r.0.Valid()
  {
    var pushed := if brk then
      st.(handlers := st.handlers + [st.handlers[|st.handlers| - 1]], frames := st.frames + [st.core.sp]) else st;
    var left := Unwound(pushed);
    if !idle then (left, false)
    else
      var ended := left.(end := Min(left.end, left.core.cycles + span));
      if ended.due.None? then (ended, true)
      else (ended.(core := ended.core.(cycles := Max(ended.core.cycles, ended.due.value.cycle))), false)
  }

  function TopHandler<M>(st: State<M>): Option<nat>
    requires st.Valid()
  {
    st.handlers[|st.handlers| - 1]
  }

  // ----- the reference loop

  /** The top of both loops: recompute a dirty state, then raise, enter or redirect if due, in that
      order; nothing if code runs. */
  function Attended<M>(s: Setup, e: Engine<M>, st: State<M>): (r: Option<State<M>>)
    requires s.Valid() && st.Valid()
    ensures r.Some? ==> r.value.Valid()
  {
    var f := Refreshed(s, st);
    if f.DueNow() then Some(AfterRaise(s, f))
    else if f.Takes() then Some(AfterTake(e, f))
    else if f.InKernal() then Some(AfterRedirect(s, f))
    else None
  }

  /** One turn of `execute_stepped`. */
  function StepOnce<M(!new)>(s: Setup, e: Engine<M>, span: int, st: State<M>): (r: (State<M>, bool))
    requires s.Valid() && Lawful(e) && st.Valid() && st.core.cycles < st.end
    ensures r.0.Valid()
  {
    match Attended(s, e, st)
    case Some(next) => (next, false)
    case None => StepCode(e, Refreshed(s, st), span)
  }

  /** The instruction at `pc`, run alone. */
  function StepCode<M(!new)>(e: Engine<M>, st: State<M>, span: int): (r: (State<M>, bool))
    requires Lawful(e) && st.Valid()
    ensures r.0.Valid()
  {
    var i := e.step(st.core, st.dev, TopHandler(st));
    AfterCode(st.(core := i.core, dev := i.dev, dirty := i.dirty), e.isBrk(st.core),
              i.core.pc == st.core.pc && i.core.sp == st.core.sp, span)
  }

  lemma RefreshProgress<M>(s: Setup, st: State<M>)
    requires s.Valid() && st.Valid()
    ensures var f := Refreshed(s, st); f.core == st.core && f.end == st.end && (!st.dirty ==> f == st)
  {
  }

  lemma RaiseProgress<M>(s: Setup, st: State<M>)
    requires s.Valid() && st.Valid() && st.DueNow()
    ensures var r := AfterRaise(s, st); r.core == st.core && r.end == st.end && r.dirty == st.dirty && !r.DueNow()
  {
  }

  /** An entry takes cycles, or leaves what is due undue; either way nothing more is taken. */
  lemma TakeProgress<M(!new)>(e: Engine<M>, st: State<M>)
    requires Lawful(e) && st.Valid()
    ensures var r := AfterTake(e, st);
      && r.core.cycles >= st.core.cycles && r.end == st.end && r.dirty == st.dirty && r.due == st.due && !r.Takes()
  {
    hide Entered;
    assert e.interrupt(st.core).masked && e.interrupt(st.core).cycles >= st.core.cycles;
  }

  lemma RedirectProgress<M>(s: Setup, st: State<M>)
    requires s.Valid() && st.Valid()
    ensures var r := AfterRedirect(s, st);
      && r.core.cycles == st.core.cycles && r.end == st.end && r.dirty == st.dirty && !r.InKernal()
      && r.DueNow() == st.DueNow() && r.Takes() == st.Takes()
  {
  }

  lemma CodeProgress<M(!new)>(e: Engine<M>, st: State<M>, span: int)
    requires Lawful(e) && st.Valid()
    ensures var r := StepCode(e, st, span).0; r.core.cycles >= st.core.cycles + 2 && r.end <= st.end
  {
    hide Unwound;
  }

  /** A turn either moves the clock on or settles what the next turn checks first. */
  lemma StepProgress<M(!new)>(s: Setup, e: Engine<M>, span: int, st: State<M>)
    requires s.Valid() && Lawful(e) && st.Valid() && st.core.cycles < st.end && span >= 0
    ensures var next := StepOnce(s, e, span, st).0;
      (Max(0, st.end - st.core.cycles), st.dirty, st.DueNow(), st.Takes(), st.InKernal() decreases to
       Max(0, next.end - next.core.cycles), next.dirty, next.DueNow(), next.Takes(), next.InKernal())
  {
    hide Lawful, Refreshed, AfterRaise, AfterTake, AfterRedirect, StepCode;
    RefreshProgress(s, st);
    var f := Refreshed(s, st);
    if f.DueNow() {
      RaiseProgress(s, f);
    } else if f.Takes() {
      TakeProgress(e, f);
    } else if f.InKernal() {
      RedirectProgress(s, f);
    } else {
      CodeProgress(e, f, span);
    }
  }

  /** The state `execute_stepped` ends in. */
  function Run<M(!new)>(s: Setup, e: Engine<M>, span: int, st: State<M>): State<M>
    requires s.Valid() && Lawful(e) && st.Valid() && span >= 0
    decreases Max(0, st.end - st.core.cycles), st.dirty, st.DueNow(), st.Takes(), st.InKernal()
  {
    if st.core.cycles >= st.end then st
    else
      var (next, done) := StepOnce(s, e, span, st);
      StepProgress(s, e, span, st);
      if done then next else Run(s, e, span, next)
  }

  // ----- the event loop

  /** What a native run leaves: the state, and how it ended. */
  datatype Chunk<M> = Chunk(core: Core<M>, dev: Dev, dirty: bool, brk: bool, idle: bool)

  /** The conditions `run_until` checks before an instruction. */
  predicate StopsBefore<M>(core: Core<M>, limit: int, window: bool, above: Option<int>, irq: bool) {
    || (above.Some? && core.sp > above.value)
    || core.cycles > limit
    || (window && core.pc >= KERNAL_BASE)
    || (irq && !core.masked)
  }

  /** `run_until` by the conditions the event loop passes: before an instruction, the stack above
      `above`, more than `limit` cycles, the KERNAL window or an unmasked IRQ; after one, idling
      or a callback's stop. */
  function RunUntil<M(!new)>(e: Engine<M>, core: Core<M>, dev: Dev, handler: Option<nat>,
      limit: int, window: bool, above: Option<int>, irq: bool): (c: Chunk<M>)
    requires Lawful(e) && dev.Valid()
    ensures c.dev.Valid() && c.core.cycles >= core.cycles
    decreases Max(0, limit + 1 - core.cycles)
  {
    if StopsBefore(core, limit, window, above, irq) then
      Chunk(core, dev, false, false, false)
    else
      var i := e.step(core, dev, handler);
      if i.core.pc == core.pc && i.core.sp == core.sp then Chunk(i.core, i.dev, i.dirty, i.brk, true)
      else if i.stop then Chunk(i.core, i.dev, i.dirty, i.brk, false)
      else RunUntil(e, i.core, i.dev, handler, limit, window, above, irq)
  }

  function Limit<M>(st: State<M>): int {
    Min(st.end, if st.due.Some? then st.due.value.cycle else st.end) - 1
  }

  function Above<M>(st: State<M>): Option<int>
    requires st.Valid()
  {
    if st.Inside() then Some(st.frames[|st.frames| - 1]) else None
  }

  /** A native run to the next event. */
  function ChunkCode<M(!new)>(e: Engine<M>, st: State<M>, span: int): (r: (State<M>, bool))
    requires Lawful(e) && st.Valid()
    ensures r.0.Valid()
  {
    var c := RunUntil(e, st.core, st.dev, TopHandler(st), Limit(st), st.Inside() && st.core.hiram, Above(st), st.irq);
    AfterCode(st.(core := c.core, dev := c.dev, dirty := c.dirty), c.brk, c.idle, span)
  }

  /** One turn of `execute_events`. */
  function EventOnce<M(!new)>(s: Setup, e: Engine<M>, span: int, st: State<M>): (r: (State<M>, bool))
    requires s.Valid() && Lawful(e) && st.Valid() && st.core.cycles < st.end
    ensures r.0.Valid()
  {
    match Attended(s, e, st)
    case Some(next) => (next, false)
    case None => ChunkCode(e, Refreshed(s, st), span)
  }

  /** The state `execute_events` ends in. */
  function RunEvents<M(!new)>(s: Setup, e: Engine<M>, span: int, st: State<M>): State<M>
    requires s.Valid() && Lawful(e) && st.Valid() && span >= 0
    decreases Max(0, st.end - st.core.cycles), st.dirty, st.DueNow(), st.Takes(), st.InKernal(), |st.handlers|
  {
    if st.core.cycles >= st.end then st
    else
      var (next, done) := EventOnce(s, e, span, st);
      EventProgress(s, e, span, st);
      if done then next else RunEvents(s, e, span, next)
  }

  /** A state the loops execute code in. */
  ghost predicate Executing<M>(st: State<M>)
    requires st.Valid()
  {
    !st.dirty && st.core.cycles < st.end && !st.DueNow() && !st.Takes() && !st.InKernal()
  }

  /** A native run executes something, unless the stack is above the running handler's frame. */
  lemma ChunkMoves<M(!new)>(e: Engine<M>, st: State<M>)
    requires Lawful(e) && st.Valid() && Executing(st)
    ensures var c := RunUntil(e, st.core, st.dev, TopHandler(st), Limit(st), st.Inside() && st.core.hiram,
                              Above(st), st.irq);
            if st.Settled() then c.core.cycles >= st.core.cycles + 2
            else c == Chunk(st.core, st.dev, false, false, false)
  {
  }

  lemma UnwoundFewer<M>(st: State<M>)
    requires st.Valid() && !st.Settled()
    ensures |Unwound(st).handlers| < |st.handlers|
  {
  }

  /** A native run moves the clock on or drops a handler. */
  lemma ChunkProgress<M(!new)>(e: Engine<M>, span: int, st: State<M>)
    requires Lawful(e) && st.Valid() && Executing(st)
    ensures var next := ChunkCode(e, st, span).0;
      && next.end <= st.end
      && (next.core.cycles >= st.core.cycles + 2
          || (next == st.(handlers := next.handlers, frames := next.frames) && |next.handlers| < |st.handlers|))
  {
    hide RunUntil, Lawful, AfterCode;
    ChunkMoves(e, st);
    var c := RunUntil(e, st.core, st.dev, TopHandler(st), Limit(st), st.Inside() && st.core.hiram, Above(st), st.irq);
    if st.Settled() {
      CodeOnward(st.(core := c.core, dev := c.dev, dirty := c.dirty), c.brk, c.idle, span);
    } else {
      UnwoundFewer(st);
      assert st.(core := c.core, dev := c.dev, dirty := c.dirty) == st;
      QuietEnd(st, span);
    }
  }

  lemma CodeOnward<M>(st: State<M>, brk: bool, idle: bool, span: int)
    requires st.Valid()
    ensures var r := AfterCode(st, brk, idle, span).0; r.core.cycles >= st.core.cycles && r.end <= st.end
  {
    hide Unwound;
  }

  lemma QuietEnd<M>(st: State<M>, span: int)
    requires st.Valid()
    ensures AfterCode(st, false, false, span) == (Unwound(st), false)
  {
    hide Unwound;
  }

  /** A turn of the event loop moves the clock on, settles what the next turn checks first or drops a
      handler. */
  lemma EventProgress<M(!new)>(s: Setup, e: Engine<M>, span: int, st: State<M>)
    requires s.Valid() && Lawful(e) && st.Valid() && st.core.cycles < st.end && span >= 0
    ensures var next := EventOnce(s, e, span, st).0;
      (Max(0, st.end - st.core.cycles), st.dirty, st.DueNow(), st.Takes(), st.InKernal(), |st.handlers| decreases to
       Max(0, next.end - next.core.cycles), next.dirty, next.DueNow(), next.Takes(), next.InKernal(), |next.handlers|)
  {
    hide Lawful, Refreshed, AfterRaise, AfterTake, AfterRedirect, ChunkCode;
    RefreshProgress(s, st);
    var f := Refreshed(s, st);
    if f.DueNow() {
      RaiseProgress(s, f);
    } else if f.Takes() {
      TakeProgress(e, f);
    } else if f.InKernal() {
      RedirectProgress(s, f);
    } else {
      ChunkProgress(e, span, f);
    }
  }

  // ----- the event loop refines the reference loop

  /** Along the reference run no turn starts with the stack pointer above the running handler's frame. */
  ghost predicate AlwaysSettled<M(!new)>(s: Setup, e: Engine<M>, span: int, st: State<M>)
    requires s.Valid() && Lawful(e) && st.Valid() && span >= 0
    decreases Max(0, st.end - st.core.cycles), st.dirty, st.DueNow(), st.Takes(), st.InKernal()
  {
    && st.Settled()
    && (st.core.cycles >= st.end ||
        var (next, done) := StepOnce(s, e, span, st);
        StepProgress(s, e, span, st);
        done || AlwaysSettled(s, e, span, next))
  }

  /** Both loops' tests for a `BRK` give the same of the next instruction. */
  predicate Tested<M>(e: Engine<M>, st: State<M>)
    requires st.Valid()
  {
    e.step(st.core, st.dev, TopHandler(st)).brk == e.isBrk(st.core)
  }

  /** They do of every instruction run along the reference run. */
  ghost predicate AlwaysTested<M(!new)>(s: Setup, e: Engine<M>, span: int, st: State<M>)
    requires s.Valid() && Lawful(e) && st.Valid() && span >= 0
    decreases Max(0, st.end - st.core.cycles), st.dirty, st.DueNow(), st.Takes(), st.InKernal()
  {
    st.core.cycles >= st.end ||
      var f := Refreshed(s, st);
      && (Executing(f) ==> Tested(e, f))
      && var (next, done) := StepOnce(s, e, span, st);
         StepProgress(s, e, span, st);
         done || AlwaysTested(s, e, span, next)
  }

  /** An executing turn of the reference loop runs one instruction. */
  lemma ExecutingSteps<M(!new)>(s: Setup, e: Engine<M>, span: int, st: State<M>)
    requires s.Valid() && Lawful(e) && st.Valid() && Executing(st) && span >= 0
    ensures StepOnce(s, e, span, st) == StepCode(e, st, span)
    ensures var (next, done) := StepCode(e, st, span);
            && Run(s, e, span, st) == (if done then next else Run(s, e, span, next))
            && (AlwaysSettled(s, e, span, st) && !done ==> AlwaysSettled(s, e, span, next))
            && (AlwaysTested(s, e, span, st) ==> Tested(e, st) && (!done ==> AlwaysTested(s, e, span, next)))
  {
    hide Lawful, StepCode, Tested;
    assert Refreshed(s, st) == st;
  }

  /** The instruction a native run goes on after leaves the loops nothing to do. */
  lemma QuietStep<M(!new)>(e: Engine<M>, st: State<M>, span: int)
    requires Lawful(e) && st.Valid() && Executing(st) && st.Settled() && Tested(e, st)
    requires var i := e.step(st.core, st.dev, TopHandler(st));
             !i.stop && (i.core.pc != st.core.pc || i.core.sp != st.core.sp)
    ensures var i := e.step(st.core, st.dev, TopHandler(st));
            var next := st.(core := i.core, dev := i.dev);
            next.Valid() && StepCode(e, st, span) == (Unwound(next), false)
  {
    assert st.(dirty := false) == st;
  }

  /** A whole native run is so many turns of the reference loop, if the tests for a `BRK` agree on them. */
  lemma {:induction false} ChunkRefines<M(!new)>(s: Setup, e: Engine<M>, span: int, st: State<M>)
    requires s.Valid() && Lawful(e) && st.Valid() && Executing(st) && st.Settled() && span >= 0
    requires AlwaysTested(s, e, span, st)
    ensures var (next, done) := ChunkCode(e, st, span);
            && Run(s, e, span, st) == (if done then next else Run(s, e, span, next))
            && (AlwaysSettled(s, e, span, st) && !done ==> AlwaysSettled(s, e, span, next))
            && (!done ==> AlwaysTested(s, e, span, next))
    decreases Max(0, st.end - st.core.cycles)
  {
    hide Tested, AlwaysSettled, AlwaysTested, Run, StepCode, ChunkCode, Unwound;
    var i := e.step(st.core, st.dev, TopHandler(st));
    ExecutingSteps(s, e, span, st);
    if !i.stop && (i.core.pc != st.core.pc || i.core.sp != st.core.sp) {
      QuietStep(e, st, span);
      var next := st.(core := i.core, dev := i.dev);
      ChunkGoesOn(e, st, span);
      if next.Settled() && Executing(next) {
        ChunkRefines(s, e, span, next);
      }
    } else {
      ChunkEnds(e, st, span);
    }
  }

  lemma ChunkEnds<M(!new)>(e: Engine<M>, st: State<M>, span: int)
    requires Lawful(e) && st.Valid() && Executing(st) && st.Settled() && Tested(e, st)
    requires var i := e.step(st.core, st.dev, TopHandler(st));
             i.stop || (i.core.pc == st.core.pc && i.core.sp == st.core.sp)
    ensures ChunkCode(e, st, span) == StepCode(e, st, span)
  {
  }

  lemma ChunkGoesOn<M(!new)>(e: Engine<M>, st: State<M>, span: int)
    requires Lawful(e) && st.Valid() && Executing(st) && st.Settled()
    requires var i := e.step(st.core, st.dev, TopHandler(st));
             !i.stop && (i.core.pc != st.core.pc || i.core.sp != st.core.sp)
    ensures var i := e.step(st.core, st.dev, TopHandler(st));
            var next := st.(core := i.core, dev := i.dev);
            && next.Valid()
            && ChunkCode(e, st, span) ==
               if next.Settled() && Executing(next) then ChunkCode(e, next, span) else (Unwound(next), false)
  {
    hide Unwound, AfterCode;
    var i := e.step(st.core, st.dev, TopHandler(st));
    var next := st.(core := i.core, dev := i.dev);
    StopsIff(st);
    StopsIff(next);
    var window, c := st.Inside() && st.core.hiram, RunUntil(e, next.core, next.dev, TopHandler(st), Limit(st),
                     st.Inside() && st.core.hiram, Above(st), st.irq);
    assert RunUntil(e, st.core, st.dev, TopHandler(st), Limit(st), window, Above(st), st.irq) == c;
    assert st.(core := c.core, dev := c.dev, dirty := c.dirty) == next.(core := c.core, dev := c.dev, dirty := c.dirty);
    if !(next.Settled() && Executing(next)) {
      assert c == Chunk(next.core, next.dev, false, false, false);
      assert next.(dirty := false) == next;
      QuietEnd(next, span);
    }
  }

  /** The stop conditions are exactly what makes a turn of the loop do something else. */
  lemma StopsIff<M>(st: State<M>)
    requires st.Valid() && !st.dirty && !st.nmi
    ensures StopsBefore(st.core, Limit(st), st.Inside() && st.core.hiram, Above(st), st.irq)
            <==> !(st.Settled() && Executing(st))
  {
  }

  /** Recomputing a dirty state early changes nothing. */
  lemma RefreshedRuns<M(!new)>(s: Setup, e: Engine<M>, span: int, st: State<M>)
    requires s.Valid() && Lawful(e) && st.Valid() && span >= 0
    ensures var f := Refreshed(s, st);
            && (st.core.cycles < st.end ==> Run(s, e, span, f) == Run(s, e, span, st))
            && (AlwaysSettled(s, e, span, st) ==> AlwaysSettled(s, e, span, f))
            && (AlwaysTested(s, e, span, st) ==> AlwaysTested(s, e, span, f))
  {
    hide Lawful, Tested, StepCode, AfterRaise, AfterTake, AfterRedirect, Pending;
    var f := Refreshed(s, st);
    assert Refreshed(s, f) == f;
  }

  /** A turn that is no native run is the reference loop's. */
  lemma SameTurn<M(!new)>(s: Setup, e: Engine<M>, span: int, st: State<M>)
    requires s.Valid() && Lawful(e) && st.Valid() && span >= 0 && st.core.cycles < st.end
    requires !Executing(Refreshed(s, st))
    ensures EventOnce(s, e, span, st) == StepOnce(s, e, span, st)
  {
    hide Lawful, AfterRaise, AfterTake, AfterRedirect, StepCode, ChunkCode;
    RefreshProgress(s, st);
  }

  /** One turn of the event loop is so many of the reference loop. */
  lemma TurnRefines<M(!new)>(s: Setup, e: Engine<M>, span: int, st: State<M>)
    requires s.Valid() && Lawful(e) && st.Valid() && span >= 0 && st.core.cycles < st.end
    requires AlwaysSettled(s, e, span, st) && AlwaysTested(s, e, span, st)
    ensures var (next, done) := EventOnce(s, e, span, st);
      && Run(s, e, span, st) == (if done then next else Run(s, e, span, next))
      && (!done ==> AlwaysSettled(s, e, span, next) && AlwaysTested(s, e, span, next))
  {
    hide Lawful, Tested, AfterRaise, AfterTake, AfterRedirect, StepCode, ChunkCode, Refreshed;
    var f := Refreshed(s, st);
    if Executing(f) {
      RefreshedRuns(s, e, span, st);
      ExecutingChunk(s, e, span, st);
      ChunkRefines(s, e, span, f);
    } else {
      hide EventOnce, StepOnce;
      SameTurn(s, e, span, st);
    }
  }

  lemma ExecutingChunk<M(!new)>(s: Setup, e: Engine<M>, span: int, st: State<M>)
    requires s.Valid() && Lawful(e) && st.Valid() && span >= 0 && st.core.cycles < st.end && Executing(Refreshed(s, st))
    requires AlwaysSettled(s, e, span, Refreshed(s, st))
    ensures EventOnce(s, e, span, st) == ChunkCode(e, Refreshed(s, st), span) && Refreshed(s, st).Settled()
  {
    hide Lawful, AfterRaise, AfterTake, AfterRedirect, StepCode, ChunkCode, Refreshed, StepOnce;
  }

  /** While no turn starts above the running handler's frame and the tests for a `BRK` agree,
      `execute_events` ends exactly as `execute_stepped` does: the same events, handlers, frames, cycle
      and memory. */
  lemma {:induction false} EventsRefineSteps<M(!new)>(s: Setup, e: Engine<M>, span: int, st: State<M>)
    requires s.Valid() && Lawful(e) && st.Valid() && span >= 0
    requires AlwaysSettled(s, e, span, st) && AlwaysTested(s, e, span, st)
    ensures RunEvents(s, e, span, st) == Run(s, e, span, st)
    decreases Max(0, st.end - st.core.cycles), st.dirty, st.DueNow(), st.Takes(), st.InKernal(), |st.handlers|
  {
    hide Lawful, EventOnce, StepOnce, AlwaysSettled, AlwaysTested;
    if st.core.cycles < st.end {
      EventProgress(s, e, span, st);
      TurnRefines(s, e, span, st);
      var (next, done) := EventOnce(s, e, span, st);
      if !done {
        EventsRefineSteps(s, e, span, next);
      }
    }
  }

  /** The next turn enters an interrupt. */
  predicate Entering<M>(st: State<M>) {
    !st.DueNow() && st.Takes()
  }

  /** The stack pointer after an interrupt entry, with what the dispatch pushes, is not above the frame:
      the entry does not wrap the stack. */
  predicate EntryFits<M>(e: Engine<M>, core: Core<M>, nmi: bool) {
    e.dispatch(e.interrupt(core), nmi).sp <= e.interrupt(core).sp
  }

  /** No interrupt entered along the reference run wraps the stack. */
  ghost predicate TakenFit<M(!new)>(s: Setup, e: Engine<M>, span: int, st: State<M>)
    requires s.Valid() && Lawful(e) && st.Valid() && span >= 0
    decreases Max(0, st.end - st.core.cycles), st.dirty, st.DueNow(), st.Takes(), st.InKernal()
  {
    st.core.cycles >= st.end ||
      var f := Refreshed(s, st);
      && (Entering(f) ==> EntryFits(e, f.core, f.nmi))
      && var (next, done) := StepOnce(s, e, span, st);
         StepProgress(s, e, span, st);
         done || TakenFit(s, e, span, next)
  }

  /** A turn begun below the running handler's frame ends below it, unless it enters an interrupt and
      wraps the stack. */
  lemma TurnSettles<M(!new)>(s: Setup, e: Engine<M>, span: int, st: State<M>)
    requires s.Valid() && Lawful(e) && st.Valid() && st.Settled() && st.core.cycles < st.end
    ensures var f := Refreshed(s, st);
      StepOnce(s, e, span, st).0.Settled() <==> (Entering(f) ==> EntryFits(e, f.core, f.nmi))
  {
    hide Lawful, AfterRaise, AfterTake, AfterRedirect, StepCode, Refreshed;
    RefreshedSettles(s, st);
    var f := Refreshed(s, st);
    if f.DueNow() {
      RaiseSettles(s, f);
    } else if f.Takes() {
      TakeSettles(e, f);
    } else if f.InKernal() {
      RedirectSettles(s, f);
    } else {
      CodeSettles(e, f, span);
    }
  }

  lemma RefreshedSettles<M>(s: Setup, st: State<M>)
    requires s.Valid() && st.Valid() && st.Settled()
    ensures Refreshed(s, st).Settled()
  {
  }

  lemma RaiseSettles<M>(s: Setup, st: State<M>)
    requires s.Valid() && st.Valid() && st.DueNow() && st.Settled()
    ensures AfterRaise(s, st).Settled()
  {
    hide Pending, Raised, IrqLine;
  }

  lemma TakeSettles<M>(e: Engine<M>, st: State<M>)
    requires st.Valid() && st.Settled()
    ensures AfterTake(e, st).Settled() <==> EntryFits(e, st.core, st.nmi)
  {
    hide Entered;
  }

  lemma RedirectSettles<M>(s: Setup, st: State<M>)
    requires s.Valid() && st.Valid() && st.Settled()
    ensures AfterRedirect(s, st).Settled()
  {
  }

  lemma CodeSettles<M(!new)>(e: Engine<M>, st: State<M>, span: int)
    requires Lawful(e) && st.Valid()
    ensures StepCode(e, st, span).0.Settled()
  {
    hide Lawful, Unwound;
  }

  /** The stack never starts a turn above the running handler's frame exactly when no entry taken in
      the run wraps it. */
  lemma {:induction false} SettledExactly<M(!new)>(s: Setup, e: Engine<M>, span: int, st: State<M>)
    requires s.Valid() && Lawful(e) && st.Valid() && span >= 0 && st.Settled()
    ensures AlwaysSettled(s, e, span, st) <==> TakenFit(s, e, span, st)
    decreases Max(0, st.end - st.core.cycles), st.dirty, st.DueNow(), st.Takes(), st.InKernal()
  {
    hide StepOnce, Refreshed, Lawful, Entering, EntryFits;
    if st.core.cycles < st.end {
      var (next, done) := StepOnce(s, e, span, st);
      StepProgress(s, e, span, st);
      TurnSettles(s, e, span, st);
      DoneSettles(s, e, span, st);
      if !done && next.Settled() {
        SettledExactly(s, e, span, next);
      }
    }
  }

  /** The turn that ends the run is no interrupt entry. */
  lemma DoneSettles<M(!new)>(s: Setup, e: Engine<M>, span: int, st: State<M>)
    requires s.Valid() && Lawful(e) && st.Valid() && st.core.cycles < st.end
    ensures StepOnce(s, e, span, st).1 ==> !Entering(Refreshed(s, st))
  {
    hide Lawful, StepCode, AfterRaise, AfterTake, AfterRedirect, Pending;
  }

  // ----- the object

  lemma RefreshedIs<M>(s: Setup, st: State<M>)
    requires s.Valid() && st.Valid()
    ensures Refreshed(s, st) == if st.dirty then
      State(st.core, st.dev, false, st.end, st.nmi, Pending(s, st.dev, st.core.cycles), IrqLine(st.dev), st.handlers,
        st.frames)
      else st
  {
    hide Pending, IrqLine;
  }

  lemma RaiseIs<M>(s: Setup, st: State<M>)
    requires s.Valid() && st.Valid() && st.DueNow()
    ensures var (dev, raised) := Raised(st.dev, st.due.value);
      AfterRaise(s, st) == State(st.core, dev, st.dirty, st.end, st.nmi || (raised && st.due.value.source.chip == 1),
                                 Pending(s, dev, st.core.cycles + 1), IrqLine(dev), st.handlers, st.frames)
  {
    hide Pending, IrqLine, Raised;
  }

  lemma TakeIs<M(!new)>(e: Engine<M>, st: State<M>, handler: Option<nat>, pushed: Core<M>, core: Core<M>)
    requires Lawful(e) && st.Valid()
    requires handler == Entered(st.dev, st.nmi) && pushed == e.interrupt(st.core) && core == e.dispatch(pushed, st.nmi)
    ensures core.masked
    ensures var d := st.dev;
      AfterTake(e, st) == State(
        core, if handler.Some? && handler.value < |d.events| && core.io && VIC_BASE <= core.pc < KERNAL_BASE
              then d.(unclear := d.unclear + {d.events[handler.value].source}) else d,
        st.dirty, st.end, false, st.due, st.irq, st.handlers + [handler], st.frames + [pushed.sp])
  {
    hide Entered;
    assert pushed.masked;
  }

  lemma RedirectIs<M>(s: Setup, st: State<M>)
    requires s.Valid() && st.Valid()
    ensures AfterRedirect(s, st) ==
      State(st.core.(pc := s.base + IRQRET + KernalExit(st.core.pc)), st.dev, st.dirty, st.end, st.nmi, st.due, st.irq,
            st.handlers, st.frames)
  {
  }

  lemma CodeIs<M>(st: State<M>, pushed: State<M>, brk: bool, idle: bool, span: int)
    requires st.Valid()
    requires pushed == if brk then
      State(st.core, st.dev, st.dirty, st.end, st.nmi, st.due, st.irq,
            st.handlers + [st.handlers[|st.handlers| - 1]], st.frames + [st.core.sp]) else st
    ensures pushed.Valid()
    ensures var l := Unwound(pushed);
      AfterCode(st, brk, idle, span) ==
        if !idle then (l, false)
        else
          var end := Min(l.end, l.core.cycles + span);
          if l.due.None? then (State(l.core, l.dev, l.dirty, end, l.nmi, l.due, l.irq, l.handlers, l.frames), true)
          else (State(l.core.(cycles := Max(l.core.cycles, l.due.value.cycle)), l.dev, l.dirty, end, l.nmi, l.due,
                      l.irq, l.handlers, l.frames), false)
  {
    hide Unwound;
  }

  lemma StepIs<M(!new)>(e: Engine<M>, st: State<M>, i: Insn<M>, span: int)
    requires Lawful(e) && st.Valid() && i == e.step(st.core, st.dev, st.handlers[|st.handlers| - 1])
    ensures i.dev.Valid()
    ensures StepCode(e, st, span) ==
        AfterCode(State(i.core, i.dev, i.dirty, st.end, st.nmi, st.due, st.irq, st.handlers, st.frames),
                  e.isBrk(st.core), i.core.pc == st.core.pc && i.core.sp == st.core.sp, span)
  {
    hide AfterCode;
  }

  lemma ChunkIs<M(!new)>(e: Engine<M>, st: State<M>, c: Chunk<M>, span: int)
    requires Lawful(e) && st.Valid()
    requires c == RunUntil(e, st.core, st.dev, st.handlers[|st.handlers| - 1],
                           Min(st.end, if st.due.Some? then st.due.value.cycle else st.end) - 1,
                           |st.handlers| > 1 && st.core.hiram,
                           if |st.handlers| > 1 then Some(st.frames[|st.frames| - 1]) else None, st.irq)
    ensures ChunkCode(e, st, span) ==
        AfterCode(State(c.core, c.dev, c.dirty, st.end, st.nmi, st.due, st.irq, st.handlers, st.frames),
                  c.brk, c.idle, span)
  {
    hide RunUntil, AfterCode, Lawful;
  }

  /** The machine: what `_Machine` keeps between turns. */
  class Machine<M(!new)> {
    const setup: Setup
    const engine: Engine<M>
    var core: Core<M>
    var dev: Dev
    var dirty: bool
    var handlers: seq<Option<nat>>
    var frames: seq<int>

    constructor (setup: Setup, engine: Engine<M>, core: Core<M>, dev: Dev)
      ensures this.setup == setup && this.engine == engine
      ensures this.core == core && this.dev == dev && dirty && handlers == [None] && frames == [0x1FF]
    {
      this.setup, this.engine, this.core, this.dev := setup, engine, core, dev;
      dirty, handlers, frames := true, [None], [0x1FF];
    }

    /** The object's fields with a loop's local variables. */
    function Now(end: int, nmi: bool, due: Option<Due>, irq: bool): State<M>
      reads this
    {
      State(core, dev, dirty, end, nmi, due, irq, handlers, frames)
    }

    ghost predicate Valid()
      reads this
    {
      setup.Valid() && Lawful(engine) && dev.Valid() && |handlers| == |frames| > 0 && handlers[0].None?
    }

    /** `_unwind`. The ghost parameters are the calling loop's local variables. */
    method Unwind(ghost end: int, ghost nmi: bool, ghost due: Option<Due>, ghost irq: bool)
      requires Valid() && Now(end, nmi, due, irq).Valid()
      modifies this`handlers, this`frames
      ensures Valid() && Now(end, nmi, due, irq) == Unwound(old(Now(end, nmi, due, irq)))
    {
      while |handlers| > 1 && core.sp > frames[|frames| - 1]
        invariant Valid() && Now(end, nmi, due, irq).Valid()
        invariant Unwound(Now(end, nmi, due, irq)) == Unwound(old(Now(end, nmi, due, irq)))
        decreases |handlers|
      {
        handlers, frames := handlers[..|handlers| - 1], frames[..|frames| - 1];
      }
    }

    /** `raise_`. */
    method Raise(due: Due) returns (raised: bool)
      requires Valid() && (due.source == VIC || (0 <= due.source.chip < 2 && 0 <= due.source.timer < 2))
      modifies this`dev
      ensures Valid() && (dev, raised) == Raised(old(dev), due)
      ensures old(dev.events) <= dev.events && |dev.events| == |old(dev.events)| + if raised then 1 else 0
      ensures raised ==>
                var i := |old(dev.events)|;
                && dev.events[i].when == due.cycle && dev.events[i].source == due.source
                && due.source.chip in dev.last && dev.last[due.source.chip] == i
      ensures forall chip :: chip != due.source.chip && 0 <= chip < 2 ==> dev.cias[chip] == old(dev.cias[chip])
    {
      var tag;
      if due.source == VIC {
        raised, tag := !dev.vicFlag, dev.raster;
        dev := dev.(vicFlag := true, vicSeen := due.cycle);
      } else {
        var cia := dev.cias[due.source.chip];
        tag := Period(cia, due.source.timer);
        var after := Underflown(cia, due.source.timer, due.cycle);
        raised := !Asserted(cia) && Asserted(after);
        dev := dev.(cias := dev.cias[due.source.chip := after]);
      }
      if raised {
        dev := Logged(dev, due, tag);
      }
    }

    /** `take`. */
    method Take(nmi: bool, ghost end: int, ghost due: Option<Due>, ghost irq: bool)
      requires Valid() && Now(end, nmi, due, irq).Valid()
      modifies this
      ensures Valid() && Now(end, false, due, irq) == AfterTake(engine, old(Now(end, nmi, due, irq)))
      ensures core.masked && handlers == old(handlers) + [Entered(old(dev), nmi)] &&
          frames[..|frames| - 1] == old(frames)
      ensures dev == old(dev).(unclear := dev.unclear) && old(dev.unclear) <= dev.unclear
    {
      hide Entered, AfterTake, Lawful;
      ghost var st := Now(end, nmi, due, irq);
      var handler := Entered(dev, nmi);
      handlers := handlers + [handler];
      core := engine.interrupt(core);
      ghost var pushed := core;
      frames := frames + [core.sp];
      core := engine.dispatch(core, nmi);
      TakeIs(engine, st, handler, pushed, core);
      if handler.Some? && handler.value < |dev.events| && core.io && VIC_BASE <= core.pc < KERNAL_BASE {
        dev := dev.(unclear := dev.unclear + {dev.events[handler.value].source});
      }
    }

    /** What both loops do after code ran: `brk` and `idle` as the code ended. */
    method Settle(brk: bool, idle: bool, span: int, end0: int, ghost nmi: bool, due: Option<Due>, ghost irq: bool)
        returns (end: int, done: bool)
      requires Valid() && Now(end0, nmi, due, irq).Valid()
      modifies this`core, this`handlers, this`frames
      ensures Valid() && (Now(end, nmi, due, irq), done) == AfterCode(old(Now(end0, nmi, due, irq)), brk, idle, span)
      ensures |handlers| > 1 ==> core.sp <= frames[|frames| - 1]
      ensures core.sp == old(core.sp) && core.cycles >= old(core.cycles) && end <= end0
      ensures !idle ==> core == old(core) && end == end0 && !done
    {
      hide Unwound, AfterCode, Lawful;
      end, done := end0, false;
      if brk {
        handlers, frames := handlers + [handlers[|handlers| - 1]], frames + [core.sp];
      }
      ghost var pushed := Now(end0, nmi, due, irq);
      CodeIs(old(Now(end0, nmi, due, irq)), pushed, brk, idle, span);
      Unwind(end, nmi, due, irq);
      ghost var left := Now(end0, nmi, due, irq);
      assert left == Unwound(pushed);
      if idle {
        end := Min(end, core.cycles + span);
        if due.None? {
          done := true;
        } else {
          core := core.(cycles := Max(core.cycles, due.value.cycle));
        }
      }
    }

    /** The due source raises, and what is due next is computed anew. */
    method RaiseDue(nmi0: bool, due0: Due, ghost end: int, ghost irq0: bool)
        returns (nmi: bool, due: Option<Due>, irq: bool)
      requires Valid() && Now(end, nmi0, Some(due0), irq0).Valid() && core.cycles >= due0.cycle
      modifies this`dev
      ensures Valid() && Now(end, nmi, due, irq) == AfterRaise(setup, old(Now(end, nmi0, Some(due0), irq0)))
    {
      hide Pending, Raised, Lawful, IrqLine, AfterRaise;
      RaiseIs(setup, Now(end, nmi0, Some(due0), irq0));
      var raised := Raise(due0);
      nmi := nmi0 || (raised && due0.source.chip == 1);
      due, irq := Pending(setup, dev, core.cycles + 1), IrqLine(dev);
    }

    /** Code that jumped into the KERNAL goes on at the driver's exit. */
    method Redirect(ghost end: int, ghost nmi: bool, ghost due: Option<Due>, ghost irq: bool)
      requires Valid() && Now(end, nmi, due, irq).Valid()
      modifies this`core
      ensures Valid() && Now(end, nmi, due, irq) == AfterRedirect(setup, old(Now(end, nmi, due, irq)))
    {
      hide Lawful, AfterRedirect;
      RedirectIs(setup, Now(end, nmi, due, irq));
      core := core.(pc := setup.base + IRQRET + KernalExit(core.pc));
    }

    /** A dirty state is recomputed. */
    method Refresh(due0: Option<Due>, irq0: bool, ghost end: int, ghost nmi: bool) returns (due: Option<Due>, irq: bool)
      requires Valid() && Now(end, nmi, due0, irq0).Valid()
      modifies this`dirty
      ensures Valid() && Now(end, nmi, due, irq) == Refreshed(setup, old(Now(end, nmi, due0, irq0)))
    {
      hide Pending, Lawful, IrqLine, Refreshed;
      RefreshedIs(setup, Now(end, nmi, due0, irq0));
      due, irq := due0, irq0;
      if dirty {
        due, irq, dirty := Pending(setup, dev, core.cycles), IrqLine(dev), false;
      }
    }

    /** The top of both loops: recompute a dirty state, then raise, take or redirect if due. */
    method Attend(ghost end: int, nmi0: bool, due0: Option<Due>, irq0: bool)
        returns (nmi: bool, due: Option<Due>, irq: bool, attended: bool)
      requires Valid() && Now(end, nmi0, due0, irq0).Valid() && core.cycles < end
      modifies this
      ensures Valid() && Now(end, nmi, due, irq).Valid()
      ensures var a := Attended(setup, engine, old(Now(end, nmi0, due0, irq0)));
        && attended == a.Some?
        && Now(end, nmi, due, irq) == if attended then a.value else Refreshed(setup, old(Now(end, nmi0, due0, irq0)))
      ensures !dirty && core.cycles >= old(core.cycles)
      ensures !attended ==> core == old(core) && dev == old(dev) && handlers == old(handlers) && frames == old(frames)
    {
      hide AfterTake, AfterRaise, AfterRedirect, Refreshed, Lawful;
      nmi, attended := nmi0, true;
      due, irq := Refresh(due0, irq0, end, nmi);
      ghost var f := Now(end, nmi, due, irq);
      if due.Some? && core.cycles >= due.value.cycle {
        RaiseProgress(setup, f);
        nmi, due, irq := RaiseDue(nmi, due.value, end, irq);
      } else if nmi || (irq && !core.masked) {
        TakeProgress(engine, f);
        Take(nmi, end, due, irq);
        nmi := false;
      } else if |handlers| > 1 && core.hiram && core.pc >= KERNAL_BASE {
        RedirectProgress(setup, f);
        Redirect(end, nmi, due, irq);
      } else {
        attended := false;
      }
    }

    /** One instruction of the reference loop. */
    method Instruction(span: int, end0: int, ghost nmi: bool, due: Option<Due>, ghost irq: bool)
        returns (end: int, done: bool)
      requires Valid() && Now(end0, nmi, due, irq).Valid()
      modifies this
      ensures Valid() && (Now(end, nmi, due, irq), done) == StepCode(engine, old(Now(end0, nmi, due, irq)), span)
    {
      hide AfterCode, Lawful, StepCode;
      ghost var st := Now(end0, nmi, due, irq);
      var pc, sp, brk := core.pc, core.sp, engine.isBrk(core);
      var i := engine.step(core, dev, handlers[|handlers| - 1]);
      StepIs(engine, st, i, span);
      core, dev, dirty := i.core, i.dev, i.dirty;
      ghost var ran := Now(end0, nmi, due, irq);
      assert ran == State(i.core, i.dev, i.dirty, st.end, st.nmi, st.due, st.irq, st.handlers, st.frames);
      end, done := Settle(brk, core.pc == pc && core.sp == sp, span, end0, nmi, due, irq);
    }

    /** One native run of the event loop. */
    method NativeRun(span: int, end0: int, ghost nmi: bool, due: Option<Due>, irq: bool)
        returns (end: int, done: bool)
      requires Valid() && Now(end0, nmi, due, irq).Valid()
      modifies this
      ensures Valid() && (Now(end, nmi, due, irq), done) == ChunkCode(engine, old(Now(end0, nmi, due, irq)), span)
    {
      hide AfterCode, RunUntil, Lawful, ChunkCode;
      ghost var st := Now(end0, nmi, due, irq);
      var inside, now := |handlers| > 1, core.cycles;
      var maxCycles := Min(end0, if due.Some? then due.value.cycle else end0) - now - 1;
      var above := if inside then Some(frames[|frames| - 1]) else None;
      var c := RunUntil(engine, core, dev, handlers[|handlers| - 1], now + maxCycles, inside && core.hiram, above, irq);
      ChunkIs(engine, st, c, span);
      core, dev, dirty := c.core, c.dev, c.dirty;
      ghost var ran := Now(end0, nmi, due, irq);
      assert ran == State(c.core, c.dev, c.dirty, st.end, st.nmi, st.due, st.irq, st.handlers, st.frames);
      end, done := Settle(c.brk, c.idle, span, end0, nmi, due, irq);
    }

    /** One turn of `execute_stepped`, given and returning the loop's local variables. */
    method StepTurn(span: int, end0: int, nmi0: bool, due0: Option<Due>, irq0: bool)
        returns (end: int, nmi: bool, due: Option<Due>, irq: bool, done: bool)
      requires Valid() && Now(end0, nmi0, due0, irq0).Valid() && core.cycles < end0
      modifies this
      ensures Valid()
      ensures (Now(end, nmi, due, irq), done) == StepOnce(setup, engine, span, old(Now(end0, nmi0, due0, irq0)))
    {
      hide Attended, Refreshed, Lawful, StepCode;
      end, done := end0, false;
      var attended;
      nmi, due, irq, attended := Attend(end, nmi0, due0, irq0);
      if !attended {
        end, done := Instruction(span, end, nmi, due, irq);
      }
    }

    /** One turn of `execute_events`. */
    method EventTurn(span: int, end0: int, nmi0: bool, due0: Option<Due>, irq0: bool)
        returns (end: int, nmi: bool, due: Option<Due>, irq: bool, done: bool)
      requires Valid() && Now(end0, nmi0, due0, irq0).Valid() && core.cycles < end0
      modifies this
      ensures Valid()
      ensures (Now(end, nmi, due, irq), done) == EventOnce(setup, engine, span, old(Now(end0, nmi0, due0, irq0)))
    {
      hide Attended, Refreshed, Lawful, ChunkCode;
      end, done := end0, false;
      var attended;
      nmi, due, irq, attended := Attend(end, nmi0, due0, irq0);
      if !attended {
        end, done := NativeRun(span, end, nmi, due, irq);
      }
    }

    /** `execute_stepped`: the reference loop. `span` is the cycles of the frames asked for. */
    method ExecuteStepped(span: int) returns (last: int)
      requires Valid() && span >= 0
      modifies this
      ensures var r := Run(setup, engine, span, old(Now(setup.maxCycles, false, None, false)));
              && Now(r.end, r.nmi, r.due, r.irq) == r
              && last == if r.end == setup.maxCycles then core.cycles else r.end
    {
      hide StepOnce;
      var end, nmi, due: Option<Due>, irq, done := setup.maxCycles, false, None, false, false;
      ghost var first := Now(end, nmi, due, irq);
      while core.cycles < end && !done
        invariant Valid() && Now(end, nmi, due, irq).Valid()
        invariant Run(setup, engine, span, first) ==
          if done then Now(end, nmi, due, irq) else Run(setup, engine, span, Now(end, nmi, due, irq))
        decreases !done, Max(0, end - core.cycles), dirty, Now(end, nmi, due, irq).DueNow(),
                  Now(end, nmi, due, irq).Takes(), Now(end, nmi, due, irq).InKernal()
      {
        StepProgress(setup, engine, span, Now(end, nmi, due, irq));
        end, nmi, due, irq, done := StepTurn(span, end, nmi, due, irq);
      }
      last := if end == setup.maxCycles then core.cycles else end;
    }

    /** `execute_events`: native runs between events. It ends as the reference loop does when no
        interrupt entry wraps the stack and both tests for a `BRK` agree on every instruction run. */
    method ExecuteEvents(span: int) returns (last: int)
      requires Valid() && span >= 0
      modifies this
      ensures var r := RunEvents(setup, engine, span, old(Now(setup.maxCycles, false, None, false)));
              && Now(r.end, r.nmi, r.due, r.irq) == r
              && last == if r.end == setup.maxCycles then core.cycles else r.end
      ensures var st := old(Now(setup.maxCycles, false, None, false));
              var r := Run(setup, engine, span, st);
              st.Settled() && TakenFit(setup, engine, span, st) && AlwaysTested(setup, engine, span, st) ==>
                Now(r.end, r.nmi, r.due, r.irq) == r && last == if r.end == setup.maxCycles then core.cycles else r.end
    {
      hide EventOnce, StepOnce, Lawful, TakenFit, AlwaysSettled, AlwaysTested;
      var end, nmi, due: Option<Due>, irq, done := setup.maxCycles, false, None, false, false;
      ghost var first := Now(end, nmi, due, irq);
      while core.cycles < end && !done
        invariant Valid() && Now(end, nmi, due, irq).Valid()
        invariant RunEvents(setup, engine, span, first) ==
          if done then Now(end, nmi, due, irq) else RunEvents(setup, engine, span, Now(end, nmi, due, irq))
        decreases !done, Max(0, end - core.cycles), dirty, Now(end, nmi, due, irq).DueNow(),
                  Now(end, nmi, due, irq).Takes(), Now(end, nmi, due, irq).InKernal(), |handlers|
      {
        EventProgress(setup, engine, span, Now(end, nmi, due, irq));
        end, nmi, due, irq, done := EventTurn(span, end, nmi, due, irq);
      }
      last := if end == setup.maxCycles then core.cycles else end;
      if first.Settled() && TakenFit(setup, engine, span, first) && AlwaysTested(setup, engine, span, first) {
        SettledExactly(setup, engine, span, first);
        EventsRefineSteps(setup, engine, span, first);
      }
    }
  }
}
