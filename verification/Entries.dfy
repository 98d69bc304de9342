/** `cadence.py`: where `execute_events` ends as `execute_stepped` does. The loops can part after an
    interrupt entry that wraps the stack, and where their tests for a `BRK` differ: the reference loop
    looks at the RAM byte at the program counter, the event loop at whether the vector was read. Here both
    become conditions on the processor.
 */
module Entries {
  import opened Options
  import opened Cia
  import opened Cadence

  // ----- conditions on the core that a run keeps

  function Redirected<M>(s: Setup, c: Core<M>): Core<M>
    requires s.Valid()
  {
    c.(pc := s.base + IRQRET + KernalExit(c.pc))
  }

  /** A condition that asks nothing of the clock and is kept where the loops redirect a jump into the
      KERNAL. */
  ghost predicate Steady<M(!new)>(s: Setup, inv: Core<M> -> bool)
    requires s.Valid()
  {
    && (forall c: Core<M>, cycles: int :: inv(c.(cycles := cycles)) == inv(c))
    && forall c: Core<M> {:trigger Redirected(s, c)} ::
         inv(c) && c.hiram && c.pc >= KERNAL_BASE ==> inv(Redirected(s, c))
  }

  ghost predicate EntriesKeep<M(!new)>(e: Engine<M>, inv: Core<M> -> bool) {
    forall c: Core<M>, nmi: bool {:trigger e.dispatch(e.interrupt(c), nmi)} ::
      inv(c) && (nmi || !c.masked) ==> inv(e.dispatch(e.interrupt(c), nmi))
  }

  ghost predicate StepsKeep<M(!new)>(e: Engine<M>, inv: Core<M> -> bool) {
    forall c: Core<M>, d: Dev, h {:trigger e.step(c, d, h)} :: d.Valid() && inv(c) ==> inv(e.step(c, d, h).core)
  }

  /** No interrupt entered from such a core wraps the stack. */
  ghost predicate FitsOn<M(!new)>(e: Engine<M>, inv: Core<M> -> bool) {
    forall c: Core<M>, nmi: bool {:trigger EntryFits(e, c, nmi)} ::
        inv(c) && (nmi || !c.masked) ==> EntryFits(e, c, nmi)
  }

  /** An instruction at the core's program counter can run in a handler, or outside every one: in a handler
      the loops redirect a jump into the KERNAL instead. */
  predicate RunsIn<M>(c: Core<M>, h: Option<nat>) {
    h.None? || !(c.hiram && c.pc >= KERNAL_BASE)
  }

  /** Both tests for a `BRK` give the same of every instruction run from such a core. */
  ghost predicate TestsAgree<M(!new)>(e: Engine<M>, inv: Core<M> -> bool) {
    forall c: Core<M>, d: Dev, h {:trigger e.step(c, d, h)} :: d.Valid() && inv(c) && RunsIn(c, h) ==>
      e.step(c, d, h).brk == e.isBrk(c)
  }

  lemma TurnKeeps<M(!new)>(s: Setup, e: Engine<M>, span: int, st: State<M>, inv: Core<M> -> bool)
    requires s.Valid() && Lawful(e) && st.Valid() && st.core.cycles < st.end && inv(st.core)
    requires Steady(s, inv) && EntriesKeep(e, inv) && StepsKeep(e, inv)
    ensures inv(StepOnce(s, e, span, st).0.core)
  {
    hide Lawful, AfterRaise, AfterTake, AfterRedirect, StepCode, Refreshed, Steady, EntriesKeep, StepsKeep;
    RefreshProgress(s, st);
    var f := Refreshed(s, st);
    if f.DueNow() {
      RaiseProgress(s, f);
    } else if f.Takes() {
      TakeKeeps(e, f, inv);
    } else if f.InKernal() {
      RedirectKeeps(s, f, inv);
    } else {
      CodeKeeps(s, e, f, span, inv);
    }
  }

  lemma TakeKeeps<M(!new)>(e: Engine<M>, st: State<M>, inv: Core<M> -> bool)
    requires st.Valid() && st.Takes() && inv(st.core) && EntriesKeep(e, inv)
    ensures inv(AfterTake(e, st).core)
  {
    hide Entered;
  }

  lemma RedirectKeeps<M(!new)>(s: Setup, st: State<M>, inv: Core<M> -> bool)
    requires s.Valid() && st.Valid() && st.InKernal() && inv(st.core) && Steady(s, inv)
    ensures inv(AfterRedirect(s, st).core)
  {
    assert AfterRedirect(s, st).core == Redirected(s, st.core);
  }

  lemma CodeKeeps<M(!new)>(s: Setup, e: Engine<M>, st: State<M>, span: int, inv: Core<M> -> bool)
    requires s.Valid() && Lawful(e) && st.Valid() && inv(st.core) && StepsKeep(e, inv) && Steady(s, inv)
    ensures inv(StepCode(e, st, span).0.core)
  {
    var i := e.step(st.core, st.dev, TopHandler(st));
    var idle := i.core.pc == st.core.pc && i.core.sp == st.core.sp;
    var ran := st.(core := i.core, dev := i.dev, dirty := i.dirty);
    CodeCore(ran, e.isBrk(st.core), idle, span);
    hide AfterCode;
    var r := StepCode(e, st, span).0;
    assert r == AfterCode(ran, e.isBrk(st.core), idle, span).0;
    assert inv(i.core.(cycles := r.core.cycles)) == inv(i.core);
  }

  lemma CodeCore<M>(ran: State<M>, brk: bool, idle: bool, span: int)
    requires ran.Valid()
    ensures var r := AfterCode(ran, brk, idle, span).0; r.core == ran.core.(cycles := r.core.cycles) && r.dev == ran.dev
  {
    hide Unwound;
  }

  /** Where entries fit on a condition the run keeps, no entry taken in it wraps the stack. */
  lemma {:induction false} KeptFits<M(!new)>(s: Setup, e: Engine<M>, span: int, st: State<M>, inv: Core<M> -> bool)
    requires s.Valid() && Lawful(e) && st.Valid() && span >= 0 && inv(st.core)
    requires Steady(s, inv) && EntriesKeep(e, inv) && StepsKeep(e, inv) && FitsOn(e, inv)
    ensures TakenFit(s, e, span, st)
    decreases Max(0, st.end - st.core.cycles), st.dirty, st.DueNow(), st.Takes(), st.InKernal()
  {
    hide Lawful, Refreshed, StepOnce, Steady, EntriesKeep, StepsKeep, EntryFits;
    if st.core.cycles < st.end {
      StepProgress(s, e, span, st);
      TurnKeeps(s, e, span, st, inv);
      RefreshProgress(s, st);
      var (next, done) := StepOnce(s, e, span, st);
      if !done {
        KeptFits(s, e, span, next, inv);
      }
    }
  }

  lemma TestedThere<M(!new)>(e: Engine<M>, st: State<M>, inv: Core<M> -> bool)
    requires st.Valid() && Executing(st) && inv(st.core) && TestsAgree(e, inv)
    ensures Tested(e, st)
  {
    assert TopHandler(st).Some? ==> st.Inside();
    assert RunsIn(st.core, TopHandler(st));
  }

  /** Where the tests agree on a condition the run keeps, they agree on every instruction of it. */
  lemma {:induction false} KeptTested<M(!new)>(s: Setup, e: Engine<M>, span: int, st: State<M>, inv: Core<M> -> bool)
    requires s.Valid() && Lawful(e) && st.Valid() && span >= 0 && inv(st.core)
    requires Steady(s, inv) && EntriesKeep(e, inv) && StepsKeep(e, inv) && TestsAgree(e, inv)
    ensures AlwaysTested(s, e, span, st)
    decreases Max(0, st.end - st.core.cycles), st.dirty, st.DueNow(), st.Takes(), st.InKernal()
  {
    hide Lawful, Refreshed, StepOnce, Steady, EntriesKeep, StepsKeep, TestsAgree, Tested;
    if st.core.cycles < st.end {
      StepProgress(s, e, span, st);
      TurnKeeps(s, e, span, st, inv);
      RefreshProgress(s, st);
      var f := Refreshed(s, st);
      if Executing(f) {
        TestedThere(e, f, inv);
      }
      var (next, done) := StepOnce(s, e, span, st);
      if !done {
        KeptTested(s, e, span, next, inv);
      }
    }
  }

  /** So both loops end alike from every settled state that meets it. */
  lemma EventsAgree<M(!new)>(s: Setup, e: Engine<M>, span: int, st: State<M>, inv: Core<M> -> bool)
    requires s.Valid() && Lawful(e) && st.Valid() && span >= 0 && st.Settled() && inv(st.core)
    requires Steady(s, inv) && EntriesKeep(e, inv) && StepsKeep(e, inv) && FitsOn(e, inv) && TestsAgree(e, inv)
    ensures RunEvents(s, e, span, st) == Run(s, e, span, st)
  {
    hide Lawful, Steady, EntriesKeep, StepsKeep, FitsOn, TestsAgree;
    KeptFits(s, e, span, st, inv);
    KeptTested(s, e, span, st, inv);
    SettledExactly(s, e, span, st);
    EventsRefineSteps(s, e, span, st);
  }

  // ----- an instruction the tests differ on

  /** One instruction of code to run, with nothing due: in a handler, or outside every one. */
  function TestState<M>(c: Core<M>, d: Dev, h: Option<nat>): State<M> {
    State(c, d, false, c.cycles + 1, false, None, false, if h.None? then [None] else [None, h],
          if h.None? then [0x1FF] else [0x1FF, c.sp])
  }

  /** The last instruction of a run, by either loop. */
  lemma LastInstruction<M(!new)>(s: Setup, e: Engine<M>, span: int, st: State<M>)
    requires s.Valid() && Lawful(e) && span >= 0 && st.Valid() && st.Settled() && Executing(st)
    requires st.due.None? && st.end == st.core.cycles + 1
    ensures var i := e.step(st.core, st.dev, TopHandler(st));
      var ran, idle := st.(core := i.core, dev := i.dev, dirty := i.dirty),
                       i.core.pc == st.core.pc && i.core.sp == st.core.sp;
      && ran.Valid()
      && Run(s, e, span, st) == AfterCode(ran, e.isBrk(st.core), idle, span).0
      && RunEvents(s, e, span, st) == AfterCode(ran, i.brk, idle, span).0
  {
    LastStep(s, e, span, st);
    LastRun(s, e, span, st);
  }

  lemma LastStep<M(!new)>(s: Setup, e: Engine<M>, span: int, st: State<M>)
    requires s.Valid() && Lawful(e) && span >= 0 && st.Valid() && Executing(st)
    requires st.due.None? && st.end == st.core.cycles + 1
    ensures Run(s, e, span, st) == StepCode(e, st, span).0
  {
    var i := e.step(st.core, st.dev, TopHandler(st));
    CodeLast(st.(core := i.core, dev := i.dev, dirty := i.dirty), e.isBrk(st.core),
             i.core.pc == st.core.pc && i.core.sp == st.core.sp, span);
    ExecutingSteps(s, e, span, st);
    hide AfterCode, Lawful, AlwaysSettled, AlwaysTested, Run, RunEvents;
    RunsOver(s, e, span, StepCode(e, st, span).0);
  }

  lemma LastRun<M(!new)>(s: Setup, e: Engine<M>, span: int, st: State<M>)
    requires s.Valid() && Lawful(e) && span >= 0 && st.Valid() && st.Settled() && Executing(st)
    requires st.due.None? && st.end == st.core.cycles + 1
    ensures var i := e.step(st.core, st.dev, TopHandler(st));
      var ran := st.(core := i.core, dev := i.dev, dirty := i.dirty);
      && ran.Valid()
      && RunEvents(s, e, span, st) ==
         AfterCode(ran, i.brk, i.core.pc == st.core.pc && i.core.sp == st.core.sp, span).0
  {
    var i := e.step(st.core, st.dev, TopHandler(st));
    CodeLast(st.(core := i.core, dev := i.dev, dirty := i.dirty), i.brk,
             i.core.pc == st.core.pc && i.core.sp == st.core.sp, span);
    LastCode(e, st, span);
    ExecutingRuns(s, e, span, st);
    hide AfterCode, Lawful, Run, RunEvents, ChunkCode, Executing;
    RunsOver(s, e, span, ChunkCode(e, st, span).0);
  }

  lemma LastCode<M(!new)>(e: Engine<M>, st: State<M>, span: int)
    requires Lawful(e) && st.Valid() && st.Settled() && Executing(st) && st.due.None? && st.end == st.core.cycles + 1
    ensures var i := e.step(st.core, st.dev, TopHandler(st));
      var ran := st.(core := i.core, dev := i.dev, dirty := i.dirty);
      ran.Valid() && ChunkCode(e, st, span) ==
                     AfterCode(ran, i.brk, i.core.pc == st.core.pc && i.core.sp == st.core.sp, span)
  {
    LastChunk(e, st);
    hide AfterCode, RunUntil;
  }

  lemma RunsOver<M(!new)>(s: Setup, e: Engine<M>, span: int, st: State<M>)
    requires s.Valid() && Lawful(e) && span >= 0 && st.Valid()
    ensures st.core.cycles >= st.end ==> Run(s, e, span, st) == st && RunEvents(s, e, span, st) == st
  {
  }

  /** An executing turn of the event loop is a native run. */
  lemma ExecutingRuns<M(!new)>(s: Setup, e: Engine<M>, span: int, st: State<M>)
    requires s.Valid() && Lawful(e) && span >= 0 && st.Valid() && Executing(st)
    ensures var (next, done) := ChunkCode(e, st, span);
      RunEvents(s, e, span, st) == if done then next else RunEvents(s, e, span, next)
  {
    hide Lawful, ChunkCode;
    assert Refreshed(s, st) == st;
  }

  lemma LastChunk<M(!new)>(e: Engine<M>, st: State<M>)
    requires Lawful(e) && st.Valid() && st.Settled() && Executing(st) && st.due.None? && st.end == st.core.cycles + 1
    ensures var i := e.step(st.core, st.dev, TopHandler(st));
      RunUntil(e, st.core, st.dev, TopHandler(st), Limit(st), st.Inside() && st.core.hiram, Above(st), st.irq) ==
        Chunk(i.core, i.dev, i.dirty, i.brk, i.core.pc == st.core.pc && i.core.sp == st.core.sp)
  {
    StopsIff(st);
    var i := e.step(st.core, st.dev, TopHandler(st));
    assert StopsBefore(i.core, Limit(st), st.Inside() && st.core.hiram, Above(st), st.irq);
  }

  /** After the last instruction the run is over: its end is reached, or it idles with nothing due. */
  lemma CodeLast<M>(ran: State<M>, brk: bool, idle: bool, span: int)
    requires ran.Valid() && ran.core.cycles >= ran.end && ran.due.None?
    ensures var (r, done) := AfterCode(ran, brk, idle, span); done || r.core.cycles >= r.end
  {
    hide Unwound;
  }

  /** A `BRK` nests one handler more; anything else nests none. */
  lemma BrkNests<M>(ran: State<M>, idle: bool, span: int)
    requires ran.Valid()
    ensures AfterCode(ran, true, idle, span).0.handlers == ran.handlers + [TopHandler(ran)]
    ensures |AfterCode(ran, false, idle, span).0.handlers| <= |ran.handlers|
  {
    hide Unwound;
    var pushed := ran.(handlers := ran.handlers + [TopHandler(ran)], frames := ran.frames + [ran.core.sp]);
    assert pushed.Settled() && Unwound(pushed) == pushed;
  }

  /** Any instruction the tests differ on is told apart: the loop whose test it meets nests a handler, the
      other does not. */
  lemma TestsDiffer<M(!new)>(s: Setup, e: Engine<M>, span: int, c: Core<M>, d: Dev, h: Option<nat>)
    requires s.Valid() && Lawful(e) && span >= 0 && d.Valid() && RunsIn(c, h)
    requires e.step(c, d, h).brk != e.isBrk(c)
    ensures var st := TestState(c, d, h);
      && st.Valid() && st.Settled() && st.core == c
      && var run, events := |Run(s, e, span, st).handlers|, |RunEvents(s, e, span, st).handlers|;
         if e.isBrk(c) then events <= |st.handlers| < run else run <= |st.handlers| < events
  {
    var st := TestState(c, d, h);
    assert Executing(st) && TopHandler(st) == h;
    var i := e.step(c, d, h);
    LastInstruction(s, e, span, st);
    hide Lawful, AfterCode, Run, RunEvents;
    BrkNests(st.(core := i.core, dev := i.dev, dirty := i.dirty), i.core.pc == c.pc && i.core.sp == c.sp, span);
  }

  // ----- an entry that wraps the stack, and code that tells

  function Credited(d: Dev, h: Option<nat>): Dev {
    if h.Some? && h.value < |d.events| then d.(events := d.events[h.value := d.events[h.value].(wrote := 1)]) else d
  }

  /** The same interrupts, over code that shows the handler it runs in: with I/O banked in every
      instruction writes a SID register, which credits the handler's raise; with I/O banked out, where
      no write is credited, every instruction is a `BRK`, which nests the handler. `next` is where the
      code goes on. */
  function Telling<M(!new)>(e: Engine<M>, next: Core<M> -> Word): Engine<M> {
    Engine((c: Core<M>, d: Dev, h: Option<nat>) =>
             Insn(c.(pc := next(c), cycles := c.cycles + 2), if c.io then Credited(d, h) else d, false, !c.io, !c.io),
           (c: Core<M>) => !c.io, e.interrupt, e.dispatch)
  }

  lemma TellingLawful<M(!new)>(e: Engine<M>, next: Core<M> -> Word)
    requires Lawful(e)
    ensures Lawful(Telling(e, next))
  {
  }

  /** Code that stays where it is keeps every condition, and both tests see its `BRK`s. */
  lemma TellingKeeps<M(!new)>(s: Setup, e: Engine<M>, inv: Core<M> -> bool)
    requires s.Valid() && Steady(s, inv)
    ensures var f := Telling(e, (c: Core<M>) => c.pc); StepsKeep(f, inv) && TestsAgree(f, inv)
  {
    var f := Telling(e, (c: Core<M>) => c.pc);
    forall c: Core<M>, d: Dev, h {:trigger f.step(c, d, h)} | d.Valid() && inv(c) ensures inv(f.step(c, d, h).core) {
      assert inv(c.(cycles := c.cycles + 2)) == inv(c);
    }
  }

  /** The devices after one raise, of CIA #2 or of the raster, whose compare line has since left the
      picture. */
  function RaisedDev(s: Setup, nmi: bool): Dev
    requires s.Valid()
  {
    var cia := Regs([0, 0], [0, 0], 0, 0, [0, 0]);
    Dev([cia, cia], true, s.frame / s.line, 0, true, [Event(0, if nmi then Source(1, 0) else VIC, 0, 0)],
        map[(if nmi then 1 else -1) := 0], {})
  }

  /** The interrupt is taken now, and the run ends with the instruction after it. */
  function EntryState<M>(s: Setup, e: Engine<M>, c: Core<M>, nmi: bool): State<M>
    requires s.Valid()
  {
    State(c, RaisedDev(s, nmi), false, e.dispatch(e.interrupt(c), nmi).cycles + 1, nmi, None, true, [None], [0x1FF])
  }

  /** The state is one the loop computes: recomputing it changes nothing. */
  lemma EntryCoherent<M>(s: Setup, e: Engine<M>, c: Core<M>, nmi: bool)
    requires s.Valid()
    ensures var st := EntryState(s, e, c, nmi);
      st.Valid() && st.Settled() && IrqLine(st.dev) && st == Refreshed(s, st.(dirty := true))
  {
    var d := RaisedDev(s, nmi);
    assert forall chip, timer :: 0 <= chip < 2 && 0 <= timer < 2 ==> !Armed(d.cias[chip], timer);
    assert Pending(s, d, c.cycles) == None;
  }

  /** The handler entered, the stack above its frame, one instruction to go. */
  ghost predicate Wrapped<M>(st: State<M>) {
    && st.Valid() && Executing(st) && !st.Settled()
    && st.handlers == [None, Some(0)] && |st.dev.events| == 1 && st.dev.events[0].wrote == 0
    && st.core.cycles == st.end - 1 && st.due.None? && st.irq && st.core.masked
  }

  lemma EntryWraps<M(!new)>(s: Setup, e: Engine<M>, span: int, c: Core<M>, nmi: bool) returns (u: State<M>)
    requires s.Valid() && Lawful(e) && span >= 0 && (nmi || !c.masked) && !EntryFits(e, c, nmi)
    ensures var st := EntryState(s, e, c, nmi);
      && st.Valid() && Wrapped(u) && u.core.io == e.dispatch(e.interrupt(c), nmi).io
      && Run(s, e, span, st) == Run(s, e, span, u) && RunEvents(s, e, span, st) == RunEvents(s, e, span, u)
  {
    hide Refreshed, AfterTake, AfterRedirect, StepCode, ChunkCode;
    var st := EntryState(s, e, c, nmi);
    EntryCoherent(s, e, c, nmi);
    EntryTaken(s, e, c, nmi);
    RefreshProgress(s, st);
    var taken := AfterTake(e, st);
    RefreshProgress(s, taken);
    assert StepOnce(s, e, span, st) == (taken, false) == EventOnce(s, e, span, st);
    u := taken;
    if taken.InKernal() {
      u := AfterRedirect(s, taken);
      RedirectWraps(s, taken);
      assert StepOnce(s, e, span, taken) == (u, false) == EventOnce(s, e, span, taken);
    }
  }

  lemma EntryTaken<M(!new)>(s: Setup, e: Engine<M>, c: Core<M>, nmi: bool)
    requires s.Valid() && Lawful(e) && (nmi || !c.masked) && !EntryFits(e, c, nmi)
    ensures var st := EntryState(s, e, c, nmi);
      && st.Valid() && !st.DueNow() && st.Takes() && st.core.cycles < st.end && !st.dirty
      && var t := AfterTake(e, st);
         && t.handlers == [None, Some(0)] && |t.dev.events| == 1 && t.dev.events[0].wrote == 0
         && t.core.cycles == t.end - 1 && !t.dirty && t.due.None? && t.irq && !t.Takes() && !t.Settled()
         && t.core == e.dispatch(e.interrupt(c), nmi)
  {
    assert e.interrupt(c).cycles >= c.cycles && e.interrupt(c).masked;
    assert e.dispatch(e.interrupt(c), nmi).cycles >= e.interrupt(c).cycles;
    EntryCoherent(s, e, c, nmi);
  }

  lemma RedirectWraps<M>(s: Setup, st: State<M>)
    requires s.Valid() && st.Valid()
    ensures var r := AfterRedirect(s, st);
      && r.handlers == st.handlers && r.dev == st.dev && r.end == st.end && r.dirty == st.dirty
      && r.core.cycles == st.core.cycles && r.core.io == st.core.io && !r.InKernal()
      && r.due == st.due && r.irq == st.irq && r.core.masked == st.core.masked
      && r.Takes() == st.Takes() && r.Settled() == st.Settled()
  {
  }

  lemma WrappedDrops<M(!new)>(e: Engine<M>, st: State<M>, span: int)
    requires Lawful(e) && Wrapped(st)
    ensures var (left, done) := ChunkCode(e, st, span);
      && !done && left.Valid() && left.handlers == [None] && left.dev == st.dev && left.end == st.end
      && left.core == st.core && left.due == st.due && Executing(left)
  {
    hide Lawful, RunUntil, Unwound;
    ChunkMoves(e, st);
    UnwoundFewer(st);
    UnwoundPrefix(st);
    assert st.(dirty := false) == st;
    QuietEnd(st, span);
  }

  lemma UnwoundPrefix<M>(st: State<M>)
    requires st.Valid()
    ensures Unwound(st).handlers == st.handlers[..|Unwound(st).handlers|]
    decreases |st.handlers|
  {
    if st.Inside() && st.core.sp > st.frames[|st.frames| - 1] {
      UnwoundPrefix(st.(handlers := st.handlers[..|st.handlers| - 1], frames := st.frames[..|st.frames| - 1]));
    }
  }

  /** The instruction of the telling code, run in a handler or outside every one. */
  lemma Told<M(!new)>(e: Engine<M>, next: Core<M> -> Word, st: State<M>, span: int)
    requires Lawful(e) && st.Valid() && Executing(st) && st.core.cycles == st.end - 1 && st.due.None? && span >= 0
    ensures Lawful(Telling(e, next))
    ensures var h := TopHandler(st);
      var (r, done) := StepCode(Telling(e, next), st, span);
      && (done || r.core.cycles >= r.end) && r.dev == (if st.core.io then Credited(st.dev, h) else st.dev)
      && (!st.core.io ==> r.handlers == st.handlers + [h])
  {
    TellingLawful(e, next);
    var f, h := Telling(e, next), TopHandler(st);
    var i := f.step(st.core, st.dev, h);
    var ran, idle := st.(core := i.core, dev := i.dev, dirty := i.dirty),
                     i.core.pc == st.core.pc && i.core.sp == st.core.sp;
    BrkNests(ran, idle, span);
    CodeLast(ran, f.isBrk(st.core), idle, span);
    CodeCore(ran, f.isBrk(st.core), idle, span);
    hide AfterCode, Lawful;
    assert StepCode(f, st, span) == AfterCode(ran, f.isBrk(st.core), idle, span);
  }

  /** The reference loop runs the instruction in the handler: the raise is credited, or the handler
      nested. */
  lemma WrappedSteps<M(!new)>(s: Setup, e: Engine<M>, next: Core<M> -> Word, span: int, st: State<M>)
    requires s.Valid() && Lawful(e) && span >= 0 && Wrapped(st)
    ensures Lawful(Telling(e, next))
    ensures var r := Run(s, Telling(e, next), span, st);
      && |r.dev.events| == 1 && r.dev.events[0].wrote == (if st.core.io then 1 else 0)
      && (!st.core.io ==> r.handlers == [None, Some(0), Some(0)])
  {
    TellingLawful(e, next);
    Told(e, next, st, span);
    hide StepCode, Lawful, Telling;
    ExecutingSteps(s, Telling(e, next), span, st);
  }

  /** The event loop leaves the handler first: nothing is credited, and outside every handler nested. */
  lemma WrappedRuns<M(!new)>(s: Setup, e: Engine<M>, next: Core<M> -> Word, span: int, st: State<M>)
    requires s.Valid() && Lawful(e) && span >= 0 && Wrapped(st)
    ensures Lawful(Telling(e, next))
    ensures var r := RunEvents(s, Telling(e, next), span, st);
      && |r.dev.events| == 1 && r.dev.events[0].wrote == 0 && (!st.core.io ==> r.handlers == [None, None])
  {
    TellingLawful(e, next);
    var f := Telling(e, next);
    WrappedDrops(f, st, span);
    var left := ChunkCode(f, st, span).0;
    Told(e, next, left, span);
    LastTold(e, next, left, span);
    hide ChunkCode, StepCode, Lawful, Telling;
    ExecutingRuns(s, f, span, st);
    ExecutingRuns(s, f, span, left);
  }

  lemma LastTold<M(!new)>(e: Engine<M>, next: Core<M> -> Word, st: State<M>, span: int)
    requires Lawful(e) && st.Valid() && st.Settled() && Executing(st)
    requires st.core.cycles == st.end - 1 && st.due.None?
    ensures Lawful(Telling(e, next)) && ChunkCode(Telling(e, next), st, span) == StepCode(Telling(e, next), st, span)
  {
    TellingLawful(e, next);
    LastChunk(Telling(e, next), st);
    hide RunUntil, Lawful, AfterCode;
  }

  /** Any entry that wraps the stack is told apart over some code. With I/O banked in, the raise it
      serves is credited with a SID write by the reference loop and not by the event loop; with I/O
      banked out, a `BRK` nests the handler in the reference loop and no handler in the event loop. */
  lemma WrapDiffers<M(!new)>(s: Setup, e: Engine<M>, next: Core<M> -> Word, span: int, c: Core<M>, nmi: bool)
    requires s.Valid() && Lawful(e) && span >= 0 && (nmi || !c.masked) && !EntryFits(e, c, nmi)
    ensures var f, st := Telling(e, next), EntryState(s, e, c, nmi);
      && Lawful(f) && st.Valid() && st.Settled() && st == Refreshed(s, st.(dirty := true))
    ensures var f, st := Telling(e, next), EntryState(s, e, c, nmi);
      var run, events := Run(s, f, span, st), RunEvents(s, f, span, st);
      && |run.dev.events| == |events.dev.events| == 1
      && if e.dispatch(e.interrupt(c), nmi).io
         then run.dev.events[0].wrote == 1 && events.dev.events[0].wrote == 0
         else run.handlers == [None, Some(0), Some(0)] && events.handlers == [None, None]
  {
    var f, st := Telling(e, next), EntryState(s, e, c, nmi);
    TellingLawful(e, next);
    EntryCoherent(s, e, c, nmi);
    assert EntryState(s, f, c, nmi) == st && !EntryFits(f, c, nmi);
    assert f.dispatch == e.dispatch && f.interrupt == e.interrupt;
    hide Lawful, Telling, EntryState, Refreshed, EntryFits, Wrapped;
    var u := EntryWraps(s, f, span, c, nmi);
    WrappedSteps(s, e, next, span, u);
    WrappedRuns(s, e, next, span, u);
  }

  // ----- exactly where the loops agree

  ghost predicate SameEntries<M(!new)>(e: Engine<M>, f: Engine<M>) {
    f.interrupt == e.interrupt && f.dispatch == e.dispatch
  }

  /** Both loops end alike from every settled state whose core meets the condition. */
  ghost predicate Agree<M(!new)>(s: Setup, e: Engine<M>, span: int, inv: Core<M> -> bool)
    requires s.Valid() && Lawful(e) && span >= 0
  {
    forall st: State<M> :: st.Valid() && st.Settled() && inv(st.core) ==>
        RunEvents(s, e, span, st) == Run(s, e, span, st)
  }

  /** Code that keeps a condition and runs alike in both loops from it has tests that agree on it. */
  lemma AgreeTests<M(!new)>(s: Setup, e: Engine<M>, span: int, inv: Core<M> -> bool)
    requires s.Valid() && Lawful(e) && span >= 0 && Agree(s, e, span, inv)
    ensures TestsAgree(e, inv)
  {
    forall c: Core<M>, d: Dev, h {:trigger e.step(c, d, h)} | d.Valid() && inv(c) && RunsIn(c, h)
      ensures e.step(c, d, h).brk == e.isBrk(c)
    {
      if e.step(c, d, h).brk != e.isBrk(c) {
        TestsDiffer(s, e, span, c, d, h);
      }
    }
  }

  /** Where entries fit on a condition the run keeps, the loops agree exactly when the tests do. */
  lemma FitsAgree<M(!new)>(s: Setup, e: Engine<M>, span: int, inv: Core<M> -> bool)
    requires s.Valid() && Lawful(e) && span >= 0
    requires Steady(s, inv) && EntriesKeep(e, inv) && StepsKeep(e, inv) && FitsOn(e, inv)
    ensures Agree(s, e, span, inv) <==> TestsAgree(e, inv)
  {
    hide Lawful, Steady, EntriesKeep, StepsKeep, FitsOn, TestsAgree;
    if TestsAgree(e, inv) {
      forall st: State<M> | st.Valid() && st.Settled() && inv(st.core)
        ensures RunEvents(s, e, span, st) == Run(s, e, span, st)
      {
        EventsAgree(s, e, span, st, inv);
      }
    } else if Agree(s, e, span, inv) {
      AgreeTests(s, e, span, inv);
    }
  }

  /** The code keeps the condition, and the loops agree on it exactly when the tests do. */
  ghost predicate AgreeByTests<M(!new)>(s: Setup, f: Engine<M>, span: int, inv: Core<M> -> bool)
    requires s.Valid() && span >= 0
  {
    Lawful(f) && StepsKeep(f, inv) ==> (Agree(s, f, span, inv) <==> TestsAgree(f, inv))
  }

  /** Given how a processor enters interrupts, and a condition on the core that entries keep: no entry from
      such a core wraps the stack exactly when every code that keeps it runs alike in both loops if and only
      if its tests for a `BRK` agree. */
  lemma AgreeExactly<M(!new)>(s: Setup, e: Engine<M>, span: int, inv: Core<M> -> bool)
    requires s.Valid() && Lawful(e) && span >= 0 && Steady(s, inv) && EntriesKeep(e, inv)
    ensures FitsOn(e, inv) <==> forall f: Engine<M> :: SameEntries(e, f) ==> AgreeByTests(s, f, span, inv)
  {
    hide Lawful, Steady, StepsKeep, Agree, TestsAgree;
    if FitsOn(e, inv) {
      forall f: Engine<M> | SameEntries(e, f) ensures AgreeByTests(s, f, span, inv) {
        SameFits(e, f, inv);
        if Lawful(f) && StepsKeep(f, inv) {
          FitsAgree(s, f, span, inv);
        }
      }
    } else {
      var c: Core<M>, nmi: bool :| inv(c) && (nmi || !c.masked) && !EntryFits(e, c, nmi);
      WrapTold(s, e, span, inv, c, nmi);
      assert SameEntries(e, Telling(e, (c: Core<M>) => c.pc));
    }
  }

  lemma WrapTold<M(!new)>(s: Setup, e: Engine<M>, span: int, inv: Core<M> -> bool, c: Core<M>, nmi: bool)
    requires s.Valid() && Lawful(e) && span >= 0 && Steady(s, inv)
    requires inv(c) && (nmi || !c.masked) && !EntryFits(e, c, nmi)
    ensures !AgreeByTests(s, Telling(e, (c: Core<M>) => c.pc), span, inv)
  {
    var stay := (c: Core<M>) => c.pc;
    var f, st := Telling(e, stay), EntryState(s, e, c, nmi);
    TellingKeeps(s, e, inv);
    WrapDiffers(s, e, stay, span, c, nmi);
    hide Lawful, Steady, StepsKeep, TestsAgree, Telling;
    assert st.core == c && RunEvents(s, f, span, st) != Run(s, f, span, st);
  }

  lemma SameFits<M(!new)>(e: Engine<M>, f: Engine<M>, inv: Core<M> -> bool)
    requires SameEntries(e, f) && FitsOn(e, inv) && EntriesKeep(e, inv)
    ensures FitsOn(f, inv) && EntriesKeep(f, inv)
  {
    forall c: Core<M>, nmi: bool {:trigger EntryFits(f, c, nmi)} | inv(c) && (nmi || !c.masked)
      ensures EntryFits(f, c, nmi)
    {
      assert EntryFits(e, c, nmi);
    }
  }

  /** No entry at all wraps the stack. */
  ghost predicate EntriesFit<M(!new)>(e: Engine<M>) {
    forall c: Core<M>, nmi: bool {:trigger EntryFits(e, c, nmi)} :: nmi || !c.masked ==> EntryFits(e, c, nmi)
  }

  /** The loops agree from every settled state for every code whose tests agree, and for no other, exactly
      when no entry wraps the stack. */
  lemma AgreeAlways<M(!new)>(s: Setup, e: Engine<M>, span: int)
    requires s.Valid() && Lawful(e) && span >= 0
    ensures EntriesFit(e) <==>
      forall f: Engine<M> :: SameEntries(e, f) && Lawful(f) ==>
        ((forall st: State<M> :: st.Valid() && st.Settled() ==> RunEvents(s, f, span, st) == Run(s, f, span, st))
         <==> TestsAgree(f, (c: Core<M>) => true))
  {
    var any := (c: Core<M>) => true;
    AgreeExactly(s, e, span, any);
    assert EntriesFit(e) <==> FitsOn(e, any);
    forall f: Engine<M> ensures StepsKeep(f, any) {
    }
    hide TestsAgree;
    forall f: Engine<M> | Lawful(f)
      ensures AgreeByTests(s, f, span, any) <==>
        ((forall st: State<M> :: st.Valid() && st.Settled() ==> RunEvents(s, f, span, st) == Run(s, f, span, st))
         <==> TestsAgree(f, any))
    {
    }
  }

  // ----- the 6502's stack pointer is a byte

  /** An entry pushes three bytes, and an IRQ with the KERNAL banked in three more. */
  ghost predicate ByteEntries<M(!new)>(e: Engine<M>) {
    && (forall c: Core<M> {:trigger e.interrupt(c)} :: 0 <= c.sp < 0x100 ==>
          e.interrupt(c).sp == (c.sp - 3) % 0x100 && e.interrupt(c).hiram == c.hiram)
    && (forall c: Core<M>, nmi: bool {:trigger e.dispatch(c, nmi)} :: 0 <= c.sp < 0x100 ==>
          e.dispatch(c, nmi).sp == if c.hiram && !nmi then (c.sp - 3) % 0x100 else c.sp)
  }

  /** With a byte for a stack pointer an entry wraps exactly in an IRQ through the KERNAL taken with three
      to five bytes of stack left: the CPU's pushes fit and the KERNAL's do not. */
  lemma ByteEntry<M(!new)>(e: Engine<M>, c: Core<M>, nmi: bool)
    requires ByteEntries(e) && 0 <= c.sp < 0x100
    ensures EntryFits(e, c, nmi) <==> !(c.hiram && !nmi && 3 <= c.sp <= 5)
  {
    assert 0 <= e.interrupt(c).sp < 0x100;
  }

  /** So every code that keeps a condition runs alike in both loops if and only if its tests agree, exactly
      when the condition keeps the stack pointer out of 3 to 5 while the KERNAL is banked in and IRQs are
      enabled. */
  lemma BytesAgreeExactly<M(!new)>(s: Setup, e: Engine<M>, span: int, inv: Core<M> -> bool)
    requires s.Valid() && Lawful(e) && span >= 0 && ByteEntries(e)
    requires Steady(s, inv) && EntriesKeep(e, inv) && forall c: Core<M> :: inv(c) ==> 0 <= c.sp < 0x100
    ensures (forall c: Core<M> :: inv(c) ==> Room(c)) <==>
      forall f: Engine<M> :: SameEntries(e, f) ==> AgreeByTests(s, f, span, inv)
  {
    hide Lawful, AgreeByTests, EntriesKeep, Steady;
    AgreeExactly(s, e, span, inv);
    RoomFits(e, inv);
  }

  lemma RoomFits<M(!new)>(e: Engine<M>, inv: Core<M> -> bool)
    requires ByteEntries(e) && forall c: Core<M> :: inv(c) ==> 0 <= c.sp < 0x100
    ensures FitsOn(e, inv) <==> forall c: Core<M> :: inv(c) ==> Room(c)
  {
    hide ByteEntries;
    forall c: Core<M>, nmi: bool | inv(c) ensures EntryFits(e, c, nmi) <==> !(c.hiram && !nmi && 3 <= c.sp <= 5) {
      ByteEntry(e, c, nmi);
    }
    if FitsOn(e, inv) {
      forall c: Core<M> | inv(c) ensures Room(c) {
        assert c.masked || EntryFits(e, c, false);
      }
    }
  }

  /** Room for the KERNAL's pushes wherever an IRQ can be taken. */
  predicate Room<M>(c: Core<M>) {
    0 <= c.sp < 0x100 && (c.hiram && !c.masked ==> !(3 <= c.sp <= 5))
  }

  /** Code that keeps a condition with that room runs alike in both loops from it if and only if its tests
      for a `BRK` agree on it. */
  lemma RoomAgrees<M(!new)>(s: Setup, e: Engine<M>, span: int, inv: Core<M> -> bool)
    requires s.Valid() && Lawful(e) && span >= 0 && ByteEntries(e) && forall c: Core<M> :: inv(c) ==> Room(c)
    requires Steady(s, inv) && EntriesKeep(e, inv) && StepsKeep(e, inv)
    ensures Agree(s, e, span, inv) <==> TestsAgree(e, inv)
  {
    RoomFits(e, inv);
    hide Lawful, Steady, EntriesKeep, StepsKeep, Agree, TestsAgree, FitsOn;
    FitsAgree(s, e, span, inv);
  }

  lemma RoomKept<M(!new)>(s: Setup, e: Engine<M>)
    requires s.Valid() && Lawful(e) && ByteEntries(e)
    ensures Steady(s, (c: Core<M>) => Room(c)) && EntriesKeep(e, (c: Core<M>) => Room(c))
  {
    forall c: Core<M>, nmi: bool {:trigger e.dispatch(e.interrupt(c), nmi)} | Room(c)
      ensures Room(e.dispatch(e.interrupt(c), nmi))
    {
      assert e.interrupt(c).masked && 0 <= e.interrupt(c).sp < 0x100;
      assert e.dispatch(e.interrupt(c), nmi).masked;
    }
  }

  // ----- two such processors

  /** A 6502's entries, seven cycles each: an IRQ through the KERNAL pushes three bytes more. */
  function Pushed<M>(c: Core<M>): Core<M> {
    c.(sp := (c.sp - 3) % 0x100, masked := true, cycles := c.cycles + 7)
  }

  function Dispatched<M>(c: Core<M>, nmi: bool): Core<M> {
    c.(sp := if c.hiram && !nmi then (c.sp - 3) % 0x100 else c.sp, pc := 0x1000)
  }

  /** They are entered over the code that tells, one byte an instruction. */
  function Plain(): Engine<bool> {
    Telling(Engine(
      (c: Core<bool>, d: Dev, h: Option<nat>) => Insn(c, d, false, false, false),
      (c: Core<bool>) => false,
      (c: Core<bool>) => Pushed(c), (c: Core<bool>, nmi: bool) => Dispatched(c, nmi)), OneOn())
  }

  function OneOn(): Core<bool> -> Word {
    (c: Core<bool>) => (c.pc + 1) % 0x1_0000
  }

  lemma PlainLawful()
    ensures Lawful(Plain()) && ByteEntries(Plain())
  {
  }

  lemma PlainKeeps()
    ensures StepsKeep(Plain(), (c: Core<bool>) => Room(c)) && TestsAgree(Plain(), (c: Core<bool>) => Room(c))
  {
  }

  const PAL := Setup(312 * 63, 63, 0x400, 8)

  /** IRQs are enabled, and the KERNAL and I/O are banked in. */
  function IrqCore(sp: int): Core<bool> {
    Core(0x2000, sp, 0, false, true, true, false)
  }

  /** An IRQ taken through the KERNAL with three to five bytes of stack left: its frame is at 0 to 2 and
      the KERNAL's pushes end at 253 to 255. The event loop drops the handler before its first
      instruction, the reference loop after it, and only the reference loop credits the raise. */
  lemma WrappedEntryDiffers(sp: int)
    requires 3 <= sp <= 5
    ensures var s, e := PAL, Plain();
            var st := EntryState(s, e, IrqCore(sp), false);
            && s.Valid() && Lawful(e) && ByteEntries(e) && st.Valid() && st.Settled()
            && IrqLine(st.dev) && st == Refreshed(s, st.(dirty := true)) && !TakenFit(s, e, 0, st)
            && |Run(s, e, 0, st).dev.events| == |RunEvents(s, e, 0, st).dev.events| == 1
            && Run(s, e, 0, st).dev.events[0].wrote == 1 && RunEvents(s, e, 0, st).dev.events[0].wrote == 0
  {
    var s, e := PAL, Plain();
    var st := EntryState(s, e, IrqCore(sp), false);
    PlainLawful();
    EntryCoherent(s, e, IrqCore(sp), false);
    ByteEntry(e, IrqCore(sp), false);
    PlainDiffers(s, sp);
    hide Lawful, ByteEntries, Plain, EntryState, Refreshed, EntryFits;
    if TakenFit(s, e, 0, st) {
      SettledExactly(s, e, 0, st);
      EventsRefineSteps(s, e, 0, st);
    }
  }

  lemma PlainDiffers(s: Setup, sp: int)
    requires s.Valid() && 3 <= sp <= 5
    ensures var e := Plain();
            var st := EntryState(s, e, IrqCore(sp), false);
            && Lawful(e) && st.Valid()
            && |Run(s, e, 0, st).dev.events| == |RunEvents(s, e, 0, st).dev.events| == 1
            && Run(s, e, 0, st).dev.events[0].wrote == 1 && RunEvents(s, e, 0, st).dev.events[0].wrote == 0
  {
    PlainLawful();
    ByteEntry(Plain(), IrqCore(sp), false);
    assert Telling(Plain(), OneOn()) == Plain();
    hide Lawful, ByteEntries, Plain, Telling, EntryState, Refreshed, EntryFits, OneOn;
    WrapDiffers(s, Plain(), OneOn(), 0, IrqCore(sp), false);
  }

  /** The same processor from everywhere else: both loops end alike. */
  lemma PlainAgrees(s: Setup, span: int, st: State<bool>)
    requires s.Valid() && span >= 0 && st.Valid() && st.Settled() && Room(st.core)
    ensures Lawful(Plain())
    ensures RunEvents(s, Plain(), span, st) == Run(s, Plain(), span, st)
  {
    PlainLawful();
    PlainKeeps();
    RoomKept(s, Plain());
    hide Lawful, ByteEntries, Plain, StepsKeep, EntriesKeep, Steady, TestsAgree;
    RoomAgrees(s, Plain(), span, (c: Core<bool>) => Room(c));
  }
  const BRK := 0x00
  const NOP := 0xEA

  /** RAM, zero-filled. */
  function Byte(ram: map<int, int>, a: int): int {
    if a in ram then ram[a] else 0
  }

  /** The byte run: in the ROM-less KERNAL a `NOP`, below it the RAM's. */
  function Fetched(c: Core<map<int, int>>): int {
    if c.hiram && c.pc >= KERNAL_BASE then NOP else Byte(c.rest, c.pc)
  }

  /** A processor with the KERNAL over its RAM. It runs `BRK`s, through the vector given, and takes
      everything else for a `NOP`; what a `BRK` pushes is left out. */
  function Banked(vector: Word): Engine<map<int, int>> {
    Engine((c: Core<map<int, int>>, d: Dev, h: Option<nat>) =>
             if Fetched(c) == BRK then Insn(Pushed(c).(pc := vector), d, false, true, Byte(c.rest, c.pc) == BRK)
             else Insn(c.(pc := (c.pc + 1) % 0x1_0000, cycles := c.cycles + 2), d, false, false, false),
           (c: Core<map<int, int>>) => Byte(c.rest, c.pc) == BRK,
           (c: Core<map<int, int>>) => Pushed(c), (c: Core<map<int, int>>, nmi: bool) => Dispatched(c, nmi))
  }

  /** In the KERNAL over a RAM byte of 0. */
  predicate OverZero(c: Core<map<int, int>>) {
    c.hiram && c.pc >= KERNAL_BASE && Byte(c.rest, c.pc) == BRK
  }

  lemma BankedTests(vector: Word, c: Core<map<int, int>>, d: Dev, h: Option<nat>)
    requires d.Valid()
    ensures Lawful(Banked(vector)) && ByteEntries(Banked(vector))
    ensures Banked(vector).step(c, d, h).brk == Banked(vector).isBrk(c) <==> !OverZero(c)
  {
  }

  /** On it the loops agree, from a condition with room that the code keeps, exactly when no such core is in
      the KERNAL over a RAM byte of 0. */
  lemma BankedAgrees(s: Setup, vector: Word, span: int, inv: Core<map<int, int>> -> bool)
    requires s.Valid() && span >= 0 && forall c :: inv(c) ==> Room(c)
    requires Steady(s, inv) && EntriesKeep(Banked(vector), inv) && StepsKeep(Banked(vector), inv)
    ensures Lawful(Banked(vector))
    ensures Agree(s, Banked(vector), span, inv) <==> forall c :: inv(c) ==> !OverZero(c)
  {
    var e, d := Banked(vector), QuietDev();
    forall c, d: Dev, h | d.Valid()
      ensures Lawful(e) && ByteEntries(e) && (e.step(c, d, h).brk == e.isBrk(c) <==> !OverZero(c))
    {
      BankedTests(vector, c, d, h);
    }
    assert d.Valid() && Lawful(e) && ByteEntries(e);
    hide Lawful, ByteEntries, Banked, Steady, EntriesKeep, StepsKeep, OverZero, QuietDev;
    RoomAgrees(s, e, span, inv);
    if TestsAgree(e, inv) {
      forall c | inv(c) ensures !OverZero(c) {
        assert RunsIn(c, None) && e.step(c, d, None).brk == e.isBrk(c);
      }
    }
  }

  /** No source armed, nothing raised. */
  function QuietDev(): Dev {
    var cia := Regs([0, 0], [0, 0], 0, 0, [0, 0]);
    Dev([cia, cia], false, 0, 0, false, [], map[], {})
  }

  /** A tune's init, outside every handler, in the KERNAL routine at `$FDA3` with nothing in the RAM below
      it. */
  function RomCall(): Core<map<int, int>> {
    Core(0xFDA3, 0xF9, 0, true, true, true, map[])
  }

  /** There a `NOP` runs and the RAM byte is 0: the reference loop nests a handler and the event loop none,
      with room on the stack and no interrupt entered. */
  lemma RomCallDiffers(vector: Word)
    ensures var s, e, st := PAL, Banked(vector), TestState(RomCall(), QuietDev(), None);
      && s.Valid() && Lawful(e) && ByteEntries(e) && st.Valid() && st.Settled() && Room(st.core)
      && st == Refreshed(s, st.(dirty := true)) && TakenFit(s, e, 0, st)
      && Run(s, e, 0, st).handlers == [None, None] && RunEvents(s, e, 0, st).handlers == [None]
  {
    var s, e, st := PAL, Banked(vector), TestState(RomCall(), QuietDev(), None);
    BankedTests(vector, RomCall(), QuietDev(), None);
    RomState();
    RomStep(vector);
    hide Banked, Lawful, ByteEntries, RomCall, QuietDev, Refreshed, TestState, Run, RunEvents;
    UnseenBrk(s, e, 0, st);
    ShortFits(s, e, 0, st);
  }

  /** Outside every handler, an instruction only the reference loop takes for a `BRK`. */
  lemma UnseenBrk<M(!new)>(s: Setup, e: Engine<M>, span: int, st: State<M>)
    requires s.Valid() && Lawful(e) && span >= 0 && st.Valid() && Executing(st) && st.handlers == [None]
    requires st.due.None? && st.end == st.core.cycles + 1
    requires var i := e.step(st.core, st.dev, None); i.core.pc != st.core.pc && !i.brk && e.isBrk(st.core)
    ensures Run(s, e, span, st).handlers == [None, None] && RunEvents(s, e, span, st).handlers == [None]
  {
    LastInstruction(s, e, span, st);
    var i := e.step(st.core, st.dev, None);
    var ran := st.(core := i.core, dev := i.dev, dirty := i.dirty);
    hide Lawful, AfterCode, Run, RunEvents;
    BrkNests(ran, false, span);
    OutsideStays(ran, span);
  }

  lemma RomState()
    ensures var s, st := PAL, TestState(RomCall(), QuietDev(), None);
      && s.Valid() && st.Valid() && st.Settled() && Executing(st) && Room(st.core)
      && st.core == RomCall() && st.dev == QuietDev() && st.handlers == [None] && st.due.None? && !st.irq
      && st.end == st.core.cycles + 1 && st == Refreshed(s, st.(dirty := true))
  {
    assert Pending(PAL, QuietDev(), 0) == None;
  }

  lemma RomStep(vector: Word)
    ensures var e, c, d := Banked(vector), RomCall(), QuietDev();
      var i := e.step(c, d, None);
      d.Valid() && i.dev == d && i.core.pc != c.pc && !i.brk && e.isBrk(c)
  {
  }

  /** Outside every handler there is none to leave. */
  lemma OutsideStays<M>(ran: State<M>, span: int)
    requires ran.Valid() && !ran.Inside()
    ensures AfterCode(ran, false, false, span).0.handlers == ran.handlers
  {
  }

  lemma ShortFits<M(!new)>(s: Setup, e: Engine<M>, span: int, st: State<M>)
    requires s.Valid() && Lawful(e) && span >= 0 && st.Valid() && Executing(st) && st.end == st.core.cycles + 1
    ensures TakenFit(s, e, span, st)
  {
    assert Refreshed(s, st) == st;
    CodeProgress(e, st, span);
    hide StepCode, Lawful;
  }
}
