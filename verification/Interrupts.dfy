/** `cadence.py`: what the interrupts are, in the registers' own bits: when a source is due, what holds the
    CPU's IRQ input, which raise an entry serves, and where a jump into the KERNAL ends.
 */
module Interrupts {
  import opened Options
  import opened Cia
  import opened Cadence

  // ----- when a source is due

  /** A CIA's timer is armed when it runs and its bit is in the mask. It is due when it underflows, at once
      if that is past. */
  lemma TimerDue(s: Setup, d: Dev, chip: int, timer: int, now: int)
    requires s.Valid() && d.Valid() && 0 <= chip < 2 && 0 <= timer < 2
    ensures var due, c := DueOf(s, d, Source(chip, timer), now), d.cias[chip];
      && (due.Some? <==> c.cr[timer] & 0x01 != 0 && c.mask & (if timer == 0 then 0x01 else 0x02) != 0)
      && (due.Some? ==> due.value.source == Source(chip, timer) && due.value.cycle >= now
                        && (due.value.cycle == c.due[timer] || c.due[timer] < due.value.cycle == now))
  {
  }

  /** The raster is armed when its interrupt is enabled and the compare line is in the picture. It is due at
      the first cycle from `now` on at which it reaches that line. */
  lemma RasterDue(s: Setup, d: Dev, now: int)
    requires s.Valid() && d.Valid()
    ensures var due := DueOf(s, d, VIC, now);
      && (due.Some? <==> d.vicOn && d.raster < s.frame / s.line)
      && (due.Some? ==> due.value.source == VIC && now <= due.value.cycle < now + s.frame
                        && (due.value.cycle - d.raster * s.line) % s.frame == 0)
  {
    NextMatchFirst(s, d.raster, now - 1);
    hide NextMatch;
  }

  // ----- the CPU's IRQ input

  /** The raster's flag is up and enabled. */
  predicate RasterHolds(d: Dev) {
    d.vicFlag && d.vicOn
  }

  /** CIA #1 has a flag up that is in its mask. */
  predicate CiaHolds(d: Dev)
    requires d.Valid()
  {
    d.cias[0].flags & d.cias[0].mask != 0
  }

  /** The raise an entry serves. An NMI's is CIA #2's last; an IRQ's is the last of the raster or of CIA #1,
      whichever hold the input, the earlier of the two, the raster's on a tie. */
  ghost predicate Serves(d: Dev, nmi: bool, h: Option<nat>)
    requires d.Valid()
  {
    if nmi then (h.Some? <==> 1 in d.last) && (h.Some? ==> h.value == d.last[1])
    else
      var raster, cia := RasterHolds(d) && -1 in d.last, CiaHolds(d) && 0 in d.last;
      && (h.Some? <==> raster || cia)
      && (h.Some? ==> (raster && h.value == d.last[-1]) || (cia && h.value == d.last[0]))
      && (h.Some? && raster && cia ==>
            (h.value == d.last[-1] <== d.events[d.last[-1]].when <= d.events[d.last[0]].when)
            && (h.value == d.last[0] <== d.events[d.last[0]].when < d.events[d.last[-1]].when))
  }

  lemma EnteredServes(d: Dev, nmi: bool)
    requires d.Valid()
    ensures Serves(d, nmi, Entered(d, nmi))
  {
  }

  /** The turn enters an interrupt: the CPU and the dispatch push, and a handler and its frame are on top.
      A handler in I/O marks its source. */
  ghost predicate Enters<M>(e: Engine<M>, st: State<M>, nmi: bool, next: State<M>)
    requires st.Valid()
  {
    && next.core == e.dispatch(e.interrupt(st.core), nmi) && next.frames == st.frames + [e.interrupt(st.core).sp]
    && |next.handlers| == |st.handlers| + 1 && next.handlers[..|st.handlers|] == st.handlers
    && !next.nmi && next.dev == st.dev.(unclear := next.dev.unclear)
    && var h := next.handlers[|st.handlers|];
       && Serves(st.dev, nmi, h)
       && next.dev.unclear == if h.Some? && h.value < |st.dev.events| && next.core.io && 0xD000 <= next.core.pc < 0xE000
                              then st.dev.unclear + {st.dev.events[h.value].source} else st.dev.unclear
  }

  /** What is next due is still to come. */
  predicate Undue<M>(st: State<M>) {
    st.due.None? || st.core.cycles < st.due.value.cycle
  }

  /** A handler runs in the KERNAL. */
  predicate InRom<M>(st: State<M>) {
    |st.handlers| > 1 && st.core.hiram && st.core.pc >= 0xE000
  }

  /** A marked state has what is pending read afresh. */
  ghost predicate Afresh<M(!new)>(s: Setup, st: State<M>, f: State<M>)
    requires s.Valid() && st.Valid()
  {
    if st.dirty then f == st.(due := Pending(s, st.dev, st.core.cycles), irq := f.irq, dirty := false) else f == st
  }

  /** A turn of either loop, from a state with nothing due. */
  lemma UndueTurn<M(!new)>(s: Setup, e: Engine<M>, span: int, st: State<M>)
    requires s.Valid() && Lawful(e) && st.Valid() && st.core.cycles < st.end && Undue(Refreshed(s, st))
    ensures Afresh(s, st, Refreshed(s, st))
    ensures var f := Refreshed(s, st);
      if f.nmi || (f.irq && !st.core.masked) then
        && StepOnce(s, e, span, st) == EventOnce(s, e, span, st) == (AfterTake(e, f), false)
        && Enters(e, st, f.nmi, AfterTake(e, f))
      else if InRom(st) then StepOnce(s, e, span, st) == EventOnce(s, e, span, st) == (AfterRedirect(s, f), false)
      else StepOnce(s, e, span, st) == StepCode(e, f, span) && EventOnce(s, e, span, st) == ChunkCode(e, f, span)
  {
    var f := Refreshed(s, st);
    RefreshProgress(s, st);
    RefreshIsSo(s, st);
    TakeEnters(e, f);
    assert Enters(e, st, f.nmi, AfterTake(e, f)) by {
      hide AfterTake, Serves;
    }
    hide Lawful, StepCode, ChunkCode, Pending, IrqLine, AfterTake, Enters, AfterRedirect, Refreshed, Afresh;
  }

  lemma TakeEnters<M>(e: Engine<M>, st: State<M>)
    requires st.Valid()
    ensures Enters(e, st, st.nmi, AfterTake(e, st))
  {
    EnteredServes(st.dev, st.nmi);
    hide Entered, Serves;
  }

  /** With IRQs enabled, no NMI pending and nothing due, a turn of either loop after a callback marked the
      state, or after a raise, enters an interrupt exactly when the raster or CIA #1 holds the input. */
  lemma IrqTaken<M(!new)>(s: Setup, e: Engine<M>, span: int, st: State<M>, was: State<M>)
    requires s.Valid() && Lawful(e) && st.Valid() && st.core.cycles < st.end && !st.nmi && !st.core.masked
    requires st.dirty || (was.Valid() && !was.dirty && !Undue(was) && st == AfterRaise(s, was))
    requires Undue(Refreshed(s, st))
    ensures var f := Refreshed(s, st);
      var step, events := StepOnce(s, e, span, st), EventOnce(s, e, span, st);
      if RasterHolds(st.dev) || CiaHolds(st.dev) then
        step == events && !step.1 && Enters(e, st, false, step.0)
      else if InRom(st) then step == events == (AfterRedirect(s, f), false)
      else step == StepCode(e, f, span) && events == ChunkCode(e, f, span)
  {
    RefreshProgress(s, st);
    UndueTurn(s, e, span, st);
    InputIs(s, st, was);
    hide Lawful, StepOnce, EventOnce, StepCode, ChunkCode, Refreshed, AfterTake, AfterRaise, AfterRedirect, Enters,
         RasterHolds, CiaHolds;
  }

  lemma InputIs<M>(s: Setup, st: State<M>, was: State<M>)
    requires s.Valid() && st.Valid()
    requires st.dirty || (was.Valid() && !was.dirty && !Undue(was) && st == AfterRaise(s, was))
    ensures var f := Refreshed(s, st);
      && f.irq == (RasterHolds(st.dev) || CiaHolds(st.dev)) && f.nmi == st.nmi
  {
    hide Pending, Raised;
  }

  // ----- a raise

  /** The raster's flag goes up, or the timer underflows; a line that goes up with it logs the raise, tagged
      by the compare line or the cycles the timer counts. */
  ghost predicate RaiseDone(d: Dev, due: Due, r: Dev)
    requires d.Valid() && r.Valid() && Sound(due.source)
  {
    var chip, timer := due.source.chip, due.source.timer;
    var up := if due.source == VIC then !d.vicFlag else Down(d.cias[chip]) && !Down(r.cias[chip]);
    var tag := if due.source == VIC then d.raster else Span(d.cias[chip].latch, timer, d.cias[chip].cr[timer]);
    && r == Dev(r.cias, d.vicOn, d.raster, r.vicSeen, r.vicFlag, r.events, r.last, d.unclear)
    && (if due.source == VIC then r.vicFlag && r.vicSeen == due.cycle && r.cias == d.cias
        else r.vicFlag == d.vicFlag && r.vicSeen == d.vicSeen && r.cias[1 - chip] == d.cias[1 - chip]
             && UnderflowDone(d.cias[chip], r.cias[chip], timer, due.cycle))
    && (if up then r.events == d.events + [Event(due.cycle, due.source, 0, tag)] && r.last == d.last[chip := |d.events|]
        else r.events == d.events && r.last == d.last)
  }

  predicate Sound(source: Source) {
    source == VIC || (0 <= source.chip < 2 && 0 <= source.timer < 2)
  }

  predicate Down(c: Regs) {
    c.flags & c.mask == 0
  }

  lemma RaisedIsDone(d: Dev, due: Due)
    requires d.Valid() && Sound(due.source)
    ensures RaiseDone(d, due, Raised(d, due).0)
    ensures Raised(d, due).1 == (|Raised(d, due).0.events| > |d.events|)
  {
    if due.source != VIC {
      TimerRaised(d, due);
    }
    hide Underflown, Period, UnderflowDone, Span;
  }

  lemma TimerRaised(d: Dev, due: Due)
    requires d.Valid() && Sound(due.source) && due.source != VIC
    ensures RaiseDone(d, due, Raised(d, due).0)
    ensures Raised(d, due).1 == (|Raised(d, due).0.events| > |d.events|)
  {
    var chip, timer := due.source.chip, due.source.timer;
    var cia, after := d.cias[chip], Underflown(d.cias[chip], timer, due.cycle);
    UnderflowIsDone(cia, timer, due.cycle);
    PeriodIsSpan(cia, timer);
    DownIs(cia);
    DownIs(after);
    hide Underflown, Period, UnderflowDone, Span, Asserted, Down;
  }

  lemma DownIs(c: Regs)
    ensures Asserted(c) == !Down(c)
  {
  }

  /** The source due raises, an edge of CIA #2's line is remembered as an NMI, and what is due next is what
      is pending from the next cycle on. */
  ghost predicate RaiseLeaves<M(!new)>(s: Setup, st: State<M>, next: State<M>)
    requires s.Valid() && st.Valid() && next.Valid() && !Undue(st)
  {
    && RaiseDone(st.dev, st.due.value, next.dev)
    && next == st.(dev := next.dev, nmi := next.nmi, due := Pending(s, next.dev, st.core.cycles + 1), irq := next.irq)
    && (next.nmi <==> st.nmi || (st.due.value.source.chip == 1 && |next.dev.events| > |st.dev.events|))
  }

  lemma RaiseIsSo<M(!new)>(s: Setup, st: State<M>)
    requires s.Valid() && st.Valid() && !Undue(st)
    ensures RaiseLeaves(s, st, AfterRaise(s, st))
  {
    RaisedIsDone(st.dev, st.due.value);
    hide Pending, IrqLine, Raised, RaiseDone;
  }

  lemma RefreshIsSo<M(!new)>(s: Setup, st: State<M>)
    requires s.Valid() && st.Valid()
    ensures Afresh(s, st, Refreshed(s, st))
  {
    hide Pending, IrqLine;
  }

  /** A turn of either loop with a source due raises it. */
  lemma RaiseTurn<M(!new)>(s: Setup, e: Engine<M>, span: int, st: State<M>)
    requires s.Valid() && Lawful(e) && st.Valid() && st.core.cycles < st.end && !Undue(Refreshed(s, st))
    ensures var f, next := Refreshed(s, st), AfterRaise(s, Refreshed(s, st));
      && Afresh(s, st, f) && RaiseLeaves(s, f, next)
      && StepOnce(s, e, span, st) == EventOnce(s, e, span, st) == (next, false)
  {
    RefreshIsSo(s, st);
    RaiseIsSo(s, Refreshed(s, st));
    hide Lawful, StepCode, ChunkCode, Pending, IrqLine, Refreshed, AfterRaise, RaiseLeaves, Afresh;
  }

  lemma CiaRaiseLogged<M(!new)>(s: Setup, st: State<M>, timer: int)
    requires s.Valid() && st.Valid() && !Undue(st) && st.due.value.source == Source(0, timer) && 0 <= timer < 2
    requires Down(st.dev.cias[0]) && st.dev.cias[0].mask & (if timer == 0 then 0x01 else 0x02) != 0
    ensures var d := AfterRaise(s, st).dev;
      && CiaHolds(d) && 0 in d.last && d.last[0] == |st.dev.events| && |d.events| == |st.dev.events| + 1
      && RasterHolds(d) == RasterHolds(st.dev)
    ensures AfterRaise(s, st).nmi == st.nmi
  {
    RaisedIsDone(st.dev, st.due.value);
    FlagGoesUp(st.dev.cias[0], Raised(st.dev, st.due.value).0.cias[0], timer, st.due.value.cycle);
    hide Raised, Pending, IrqLine, UnderflowDone, Span;
  }

  /** CIA #1's timer falls due with IRQs enabled, its line down and its bit in the mask: the turn raises it,
      and the next turn of either loop enters the interrupt, serving that raise unless the raster holds the
      input. */
  lemma CiaRaiseEnters<M(!new)>(s: Setup, e: Engine<M>, span: int, st: State<M>, timer: int)
    requires s.Valid() && Lawful(e) && st.Valid() && st.core.cycles < st.end && !st.dirty && !st.nmi && !st.core.masked
    requires !Undue(st) && st.due.value.source == Source(0, timer) && 0 <= timer < 2
    requires Down(st.dev.cias[0]) && st.dev.cias[0].mask & (if timer == 0 then 0x01 else 0x02) != 0
    ensures var raised := AfterRaise(s, st);
      && StepOnce(s, e, span, st) == EventOnce(s, e, span, st) == (raised, false)
      && RaiseLeaves(s, st, raised)
    ensures var raised := AfterRaise(s, st);
      var next := StepOnce(s, e, span, raised).0;
      && StepOnce(s, e, span, raised) == EventOnce(s, e, span, raised) == (next, false)
      && Enters(e, raised, false, next)
      && (RasterHolds(st.dev) || next.handlers[|st.handlers|] == Some(|st.dev.events|))
  {
    var raised := AfterRaise(s, st);
    assert Refreshed(s, st) == st;
    RaiseTurn(s, e, span, st);
    RaiseProgress(s, st);
    CiaRaiseLogged(s, st, timer);
    assert Refreshed(s, raised) == raised;
    IrqTaken(s, e, span, raised, st);
    assert raised.handlers == st.handlers;
    hide Lawful, StepOnce, EventOnce, AfterRaise, RaiseDone, Refreshed, RasterHolds, CiaHolds;
  }

  lemma FlagGoesUp(c: Regs, d: Regs, timer: int, now: int)
    requires c.Valid() && d.Valid() && 0 <= timer < 2 && c.mask & (if timer == 0 then 0x01 else 0x02) != 0
    ensures UnderflowDone(c, d, timer, now) ==> !Down(d)
  {
    hide Span;
    FlagMasked(c.flags, c.mask);
  }

  lemma FlagMasked(flags: bv8, mask: bv8)
    ensures mask & 0x01 != 0 ==> (flags | 0x01) & mask != 0
    ensures mask & 0x02 != 0 ==> (flags | 0x02) & mask != 0
  {
  }

  // ----- after code

  /** Handlers were left from the top down, every one whose frame the stack pointer has climbed past up to
      the first that it has not; the outermost stays. */
  ghost predicate Climbed<M>(st: State<M>, left: State<M>)
    requires st.Valid()
  {
    var k := |left.handlers|;
    && 1 <= k <= |st.handlers| && left == st.(handlers := st.handlers[..k], frames := st.frames[..k])
    && (k > 1 ==> st.core.sp <= st.frames[k - 1]) && forall j :: k <= j < |st.frames| ==> st.core.sp > st.frames[j]
  }

  lemma ClimbedOn<M>(st: State<M>, n: nat, left: State<M>)
    requires st.Valid() && n == |st.handlers| - 1 && n > 0 && st.core.sp > st.frames[n]
    requires var below := st.(handlers := st.handlers[..n], frames := st.frames[..n]);
      below.Valid() && Climbed(below, left)
    ensures Climbed(st, left)
  {
    var k := |left.handlers|;
    assert st.handlers[..n][..k] == st.handlers[..k] && st.frames[..n][..k] == st.frames[..k];
    forall j | k <= j < |st.frames| ensures st.core.sp > st.frames[j] {
      assert j < n ==> st.frames[..n][j] == st.frames[j];
    }
  }

  lemma {:induction false} UnwoundIs<M>(st: State<M>)
    requires st.Valid()
    ensures Climbed(st, Unwound(st))
    decreases |st.handlers|
  {
    if st.Inside() && st.core.sp > st.frames[|st.frames| - 1] {
      var n := |st.handlers| - 1;
      var below := st.(handlers := st.handlers[..n], frames := st.frames[..n]);
      assert Unwound(st) == Unwound(below);
      hide Climbed, Unwound;
      UnwoundIs(below);
      ClimbedOn(st, n, Unwound(below));
    } else {
      assert st.handlers[..|st.handlers|] == st.handlers && st.frames[..|st.frames|] == st.frames;
    }
  }

  /** A `BRK` enters the running handler again. */
  function Nested<M>(st: State<M>, brk: bool): (r: State<M>)
    requires st.Valid()
    ensures r.Valid()
  {
    if brk then
      st.(handlers := st.handlers + [st.handlers[|st.handlers| - 1]], frames := st.frames + [st.core.sp])
    else st
  }

  /** After code, `left` without the frames climbed past, idle code ends the run within the frames asked for:
      at once with nothing due, else from the cycle it is due. */
  ghost predicate Ends<M>(st: State<M>, left: State<M>, idle: bool, span: int, r: State<M>, done: bool) {
    && done == (idle && st.due.None?)
    && r == left.(core := left.core.(cycles := r.core.cycles), end := r.end)
    && (!idle ==> r.end == st.end) && (idle ==> r.end <= st.end && r.end <= st.core.cycles + span)
    && (idle ==> r.end == st.end || r.end == st.core.cycles + span)
    && (if idle && st.due.Some? && st.due.value.cycle > st.core.cycles then r.core.cycles == st.due.value.cycle
        else r.core.cycles == st.core.cycles)
  }

  lemma CodeEnds<M>(st: State<M>, brk: bool, idle: bool, span: int)
    requires st.Valid()
    ensures var left, (r, done) := Unwound(Nested(st, brk)), AfterCode(st, brk, idle, span);
      Climbed(Nested(st, brk), left) && Ends(st, left, idle, span, r, done)
  {
    UnwoundIs(Nested(st, brk));
    EndsSo(st, brk, idle, span);
    hide Unwound, Climbed, Ends, AfterCode, Nested;
  }

  lemma EndsSo<M>(st: State<M>, brk: bool, idle: bool, span: int)
    requires st.Valid()
    ensures var (r, done) := AfterCode(st, brk, idle, span); Ends(st, Unwound(Nested(st, brk)), idle, span, r, done)
  {
    assert Unwound(Nested(st, brk)).core == st.core;
    hide Unwound;
  }

  /** The instruction at the program counter has run, in the handler on top. */
  ghost function Ran<M(!new)>(e: Engine<M>, st: State<M>): (ran: State<M>)
    requires Lawful(e) && st.Valid()
    ensures ran.Valid()
  {
    var i := e.step(st.core, st.dev, st.handlers[|st.handlers| - 1]);
    st.(core := i.core, dev := i.dev, dirty := i.dirty)
  }

  lemma StepRan<M(!new)>(e: Engine<M>, st: State<M>, span: int)
    requires Lawful(e) && st.Valid()
    ensures var ran := Ran(e, st);
      StepCode(e, st, span)
        == AfterCode(ran, e.isBrk(st.core), ran.core.pc == st.core.pc && ran.core.sp == st.core.sp, span)
  {
    hide AfterCode;
  }

  /** The reference loop's turn runs it and ends as after code: with a `BRK` by its RAM byte, idle if program
      counter and stack pointer stay. */
  lemma StepEnds<M(!new)>(e: Engine<M>, st: State<M>, span: int)
    requires Lawful(e) && st.Valid()
    ensures var ran := Ran(e, st);
      var nested, (r, done) := Nested(ran, e.isBrk(st.core)), StepCode(e, st, span);
      && Climbed(nested, Unwound(nested))
      && Ends(ran, Unwound(nested), ran.core.pc == st.core.pc && ran.core.sp == st.core.sp, span, r, done)
  {
    hide Lawful, Climbed, Ends, Nested, AfterCode, Unwound, Ran, StepCode;
    var ran := Ran(e, st);
    StepRan(e, st, span);
    CodeEnds(ran, e.isBrk(st.core), ran.core.pc == st.core.pc && ran.core.sp == st.core.sp, span);
  }

  // ----- a jump into the KERNAL

  /** The bytes of the driver's page from `irqjob` on, for a play routine and the bank cell given. */
  function DriverBytes(play: int, cell: int): (code: seq<int>)
    ensures |code| == 0x1D
  {
    [0xA5, 0x01, 0x48, 0xAD, cell % 0x100, cell / 0x100, 0x85, 0x01, 0xA9, 0x00, 0x20, play % 0x100, play / 0x100,
     0x68, 0x85, 0x01, 0xCE, 0x19, 0xD0, 0xAD, 0x0D, 0xDC, 0x68, 0xA8, 0x68, 0xAA, 0x68, 0x40, 0x02]
  }

  const IRQJOB := 0xA8

  /** Code that jumps up to `$EA7E` goes on where the driver reads `$DC0D`, pulls Y, X and A and returns; to
      `$FE47` where it only returns; elsewhere in the KERNAL where it pulls and returns. */
  lemma JumpEnds<M>(s: Setup, st: State<M>, play: int, cell: int)
    requires s.Valid() && st.Valid()
    ensures var at, code := AfterRedirect(s, st).core.pc - (s.base + IRQJOB), DriverBytes(play, cell);
      var pulls := [0x68, 0xA8, 0x68, 0xAA, 0x68, 0x40];
      && AfterRedirect(s, st) == st.(core := st.core.(pc := s.base + IRQJOB + at)) && 0 <= at < |code|
      && code[at..|code| - 1] == if st.core.pc <= 0xEA7E then [0xAD, 0x0D, 0xDC] + pulls
                                 else if st.core.pc == 0xFE47 then [0x40] else pulls
  {
  }
}
