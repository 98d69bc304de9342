/** `wrap.idle_init`: running an init that may never return, an instruction at a time or, on a native
    CPU, in batches that must close the same windows.
 */
module Wrap {
  import opened Options

  const SPIN_STEPS := 1024
  const SPIN_PCS := 8

  /** A deterministic CPU: an instruction takes at least two cycles. */
  datatype Cpu<!S(!new)> = Cpu(step: S -> S, sp: S -> int, pc: S -> int, cycles: S -> int, jam: S -> bool) {
    ghost predicate Valid() {
      forall s :: cycles(step(s)) >= cycles(s) + 2
    }
  }

  /** What a run is bounded by: the stack depth it returns to, its first cycle and its budget. */
  datatype Bound = Bound(depth: int, start: int, max: int)

  predicate Running<S(!new)>(c: Cpu<S>, b: Bound, s: S) {
    c.sp(s) < b.depth && c.cycles(s) - b.start <= b.max
  }

  function After<S(!new)>(c: Cpu<S>, s: S, k: nat): S {
    if k == 0 then s else c.step(After(c, s, k - 1))
  }

  /** The addresses `k` instructions lead to. */
  function Reached<S(!new)>(c: Cpu<S>, s: S, k: nat): set<int> {
    if k == 0 then {} else Reached(c, s, k - 1) + {c.pc(After(c, s, k))}
  }

  // ----- one instruction at a time

  function Budget<S(!new)>(c: Cpu<S>, b: Bound, s: S): nat {
    if b.max + b.start < c.cycles(s) then 0 else b.max + b.start - c.cycles(s) + 1
  }

  /** Where the stepped run ends, with `steps` of a window done and `pcs` reached in it: when it is no
      longer running, or at a full window's end with few addresses reached. */
  function Stepped<S(!new)>(c: Cpu<S>, b: Bound, s: S, pcs: set<int>, steps: nat): S
    requires c.Valid() && steps < SPIN_STEPS
    decreases Budget(c, b, s)
  {
    if !Running(c, b, s) then s
    else
      var t := c.step(s);
      var reached := pcs + {c.pc(t)};
      if steps + 1 < SPIN_STEPS then Stepped(c, b, t, reached, steps + 1)
      else if |reached| <= SPIN_PCS then t
      else Stepped(c, b, t, {}, 0)
  }

  lemma {:induction false} AfterSplits<S(!new)>(c: Cpu<S>, s: S, k: nat)
    requires k > 0
    ensures After(c, s, k) == After(c, c.step(s), k - 1)
  {
    if k > 1 {
      AfterSplits(c, s, k - 1);
    }
  }

  lemma {:induction false} ReachedSplits<S(!new)>(c: Cpu<S>, s: S, k: nat)
    requires k > 0
    ensures Reached(c, s, k) == {c.pc(c.step(s))} + Reached(c, c.step(s), k - 1)
  {
    AfterSplits(c, s, k);
    if k > 1 {
      ReachedSplits(c, s, k - 1);
    }
  }

  lemma OneStep<S(!new)>(c: Cpu<S>, s: S)
    ensures After(c, s, 1) == c.step(s) && Reached(c, s, 1) == {c.pc(c.step(s))} && After(c, s, 0) == s
  {
    assert After(c, s, 1) == c.step(After(c, s, 0));
    assert Reached(c, s, 0) == {};
  }

  /** Where a window with `steps` done leads. */
  function Onward<S(!new)>(c: Cpu<S>, b: Bound, s: S, pcs: set<int>, steps: nat): S
    requires c.Valid() && steps <= SPIN_STEPS
  {
    if steps < SPIN_STEPS then Stepped(c, b, s, pcs, steps)
    else if |pcs| <= SPIN_PCS then s
    else Stepped(c, b, s, {}, 0)
  }

  /** A batch of instructions all run while running, within the window, is as many single steps. */
  lemma {:induction false} BatchIsSteps<S(!new)>(c: Cpu<S>, b: Bound, s: S, pcs: set<int>, steps: nat, k: nat)
    requires c.Valid() && 0 < k && steps + k <= SPIN_STEPS
    requires forall j: nat :: j < k ==> Running(c, b, After(c, s, j))
    ensures Stepped(c, b, s, pcs, steps) == Onward(c, b, After(c, s, k), pcs + Reached(c, s, k), steps + k)
    decreases k
  {
    hide Reached, Running;
    OneStep(c, s);
    assert Running(c, b, After(c, s, 0));
    var t := c.step(s);
    AfterSplits(c, s, k);
    ReachedSplits(c, s, k);
    if k > 1 {
      forall j: nat | j < k - 1 ensures Running(c, b, After(c, t, j)) {
        AfterSplits(c, s, j + 1);
        assert Running(c, b, After(c, s, j + 1));
      }
      BatchIsSteps(c, b, t, pcs + {c.pc(t)}, steps + 1, k - 1);
      assert pcs + {c.pc(t)} + Reached(c, t, k - 1) == pcs + Reached(c, s, k);
    } else {
      OneStep(c, t);
      assert pcs + {c.pc(t)} == pcs + Reached(c, s, k);
    }
  }

  lemma {:induction false} CyclesPass<S(!new)>(c: Cpu<S>, s: S, k: nat)
    requires c.Valid()
    ensures c.cycles(After(c, s, k)) >= c.cycles(s) + 2 * k
  {
    if k > 0 {
      CyclesPass(c, s, k - 1);
    }
  }

  // ----- in batches

  /** Why a run stops: the stack, the cycles, an address, or a jammed CPU. */
  datatype Reason = Sp | Cycles | Pc | Jam

  datatype Stops = Stops(pcs: set<int>, above: Option<int>, cycles: Option<int>)

  /** What stops a run begun at cycle `start` before the next instruction, tested in this order. */
  function Why<S(!new)>(c: Cpu<S>, stops: Stops, start: int, s: S): Option<Reason> {
    if stops.above.Some? && c.sp(s) > stops.above.value then Some(Sp)
    else if stops.cycles.Some? && c.cycles(s) - start > stops.cycles.value then Some(Cycles)
    else if c.pc(s) in stops.pcs then Some(Pc)
    else None
  }

  /** The stack pointer above its bound stops a run first, then the cycles past theirs, then an address of
      those given; a bound not given never does. */
  lemma WhyIs<S(!new)>(c: Cpu<S>, stops: Stops, start: int, s: S)
    ensures var why := Why(c, stops, start, s);
      && (why == Some(Sp) <==> exists bound :: stops.above == Some(bound) && c.sp(s) > bound)
      && (why == Some(Cycles) <==> why != Some(Sp) && exists n :: stops.cycles == Some(n) && c.cycles(s) > start + n)
      && (why == Some(Pc) <==> why != Some(Sp) && why != Some(Cycles) && c.pc(s) in stops.pcs)
      && why != Some(Jam)
  {
  }

  /** The `j`-th instruction of a run is at this address, and nothing stops the run before it. */
  ghost predicate Runs<S(!new)>(c: Cpu<S>, stops: Stops, s: S, visited: seq<int>, j: nat) {
    && j < |visited| && visited[j] == c.pc(After(c, s, j)) && Why(c, stops, c.cycles(s), After(c, s, j)).None?
    && (j + 1 < |visited| ==> !c.jam(After(c, s, j)))
  }

  /** `run_until`, native: instructions run until a stop condition holds before one, or one has jammed.
      Without a bound on the cycles it may never end; `last` instructions, then, are known to. */
  method RunUntil<S(!new)>(c: Cpu<S>, s: S, stops: Stops, ghost last: nat)
      returns (t: S, visited: seq<int>, reason: Reason)
    requires c.Valid()
    requires stops.cycles.None? ==> Why(c, stops, c.cycles(s), After(c, s, last)).Some? || c.jam(After(c, s, last))
    ensures t == After(c, s, |visited|) && forall j: nat :: j < |visited| ==> Runs(c, stops, s, visited, j)
    ensures if visited != [] && c.jam(After(c, s, |visited| - 1)) then reason == Jam
            else Why(c, stops, c.cycles(s), t) == Some(reason)
  {
    hide After, Why;
    t, visited, reason := s, [], Jam;
    StartsAt(c, s);
    while true
      invariant t == After(c, s, |visited|) && forall j: nat :: j < |visited| ==> Runs(c, stops, s, visited, j)
      invariant visited != [] ==> !c.jam(After(c, s, |visited| - 1))
      invariant stops.cycles.None? ==> |visited| <= last
      decreases if stops.cycles.Some? then stops.cycles.value - (c.cycles(t) - c.cycles(s)) else last - |visited|
    {
      var why := Why(c, stops, c.cycles(s), t);
      if why.Some? {
        return t, visited, why.value;
      }
      WhyNone(c, stops, c.cycles(s), t);
      ghost var was := visited;
      Continues(c, s, |visited|);
      visited := visited + [c.pc(t)];
      RunsOn(c, stops, s, was, visited);
      if c.jam(t) {
        return c.step(t), visited, Jam;
      }
      t := c.step(t);
    }
  }

  lemma StartsAt<S(!new)>(c: Cpu<S>, s: S)
    ensures After(c, s, 0) == s
  {
  }

  lemma Continues<S(!new)>(c: Cpu<S>, s: S, k: nat)
    ensures After(c, s, k + 1) == c.step(After(c, s, k))
  {
  }

  lemma WhyNone<S(!new)>(c: Cpu<S>, stops: Stops, start: int, s: S)
    ensures Why(c, stops, start, s).None? && stops.cycles.Some? ==> c.cycles(s) - start <= stops.cycles.value
  {
  }

  lemma RunsOn<S(!new)>(c: Cpu<S>, stops: Stops, s: S, visited: seq<int>, more: seq<int>)
    requires forall j: nat :: j < |visited| ==> Runs(c, stops, s, visited, j)
    requires visited != [] ==> !c.jam(After(c, s, |visited| - 1))
    requires var t := After(c, s, |visited|); more == visited + [c.pc(t)] && Why(c, stops, c.cycles(s), t).None?
    ensures forall j: nat :: j < |more| ==> Runs(c, stops, s, more, j)
  {
    hide After, Why;
    forall j: nat | j < |more| ensures Runs(c, stops, s, more, j) {
      if j < |visited| {
        assert Runs(c, stops, s, visited, j);
      }
    }
  }

  /** The addresses a batch reached: each instruction's but the first, and where it stopped. */
  lemma {:induction false} BatchReached<S(!new)>(c: Cpu<S>, s: S, visited: seq<int>, k: nat)
    requires 0 < k <= |visited| && forall j: nat :: j < |visited| ==> visited[j] == c.pc(After(c, s, j))
    ensures Pcs(visited[1..k]) + {c.pc(After(c, s, k))} == Reached(c, s, k)
  {
    hide After;
    assert visited[k - 1] == c.pc(After(c, s, k - 1));
    if k > 1 {
      BatchReached(c, s, visited, k - 1);
      OneMore(visited, k);
    } else {
      assert visited[1..1] == [];
    }
  }

  function Pcs(visited: seq<int>): set<int> {
    set x | x in visited
  }

  lemma OneMore(visited: seq<int>, k: nat)
    requires 1 < k <= |visited|
    ensures Pcs(visited[1..k]) == Pcs(visited[1..k - 1]) + {visited[k - 1]}
  {
    assert visited[1..k] == visited[1..k - 1] + [visited[k - 1]];
  }

  /** One batch: no more instructions than the window has left, and at least one, so that the source's
      way out on an empty batch is never taken. */
  method Batch<S(!new)>(c: Cpu<S>, b: Bound, s: S, steps: nat) returns (t: S, reached: set<int>, count: nat)
    requires c.Valid() && Running(c, b, s) && steps < SPIN_STEPS
    ensures 0 < count <= SPIN_STEPS - steps && t == After(c, s, count) && reached == Reached(c, s, count)
    ensures forall j: nat :: j < count ==> Running(c, b, After(c, s, j))
  {
    hide After, Reached, Why;
    var left, need := b.max - (c.cycles(s) - b.start), SPIN_STEPS - steps;
    var limit := if 2 * need - 2 < left then 2 * need - 2 else left;
    var stops := Stops({}, Some(b.depth - 1), Some(limit));
    var visited, reason;
    t, visited, reason := RunUntil(c, s, stops, 0);
    count := |visited|;
    StartsAt(c, s);
    WhyNot(c, stops, s, s);
    forall j: nat | j < count
      ensures c.sp(After(c, s, j)) < b.depth && c.cycles(After(c, s, j)) - c.cycles(s) <= limit
    {
      assert Runs(c, stops, s, visited, j);
      WhyNot(c, stops, s, After(c, s, j));
    }
    CyclesPass(c, s, count - 1);
    forall j: nat | j < count ensures visited[j] == c.pc(After(c, s, j)) {
      assert Runs(c, stops, s, visited, j);
    }
    BatchReached(c, s, visited, count);
    assert visited[1..count] == visited[1..];
    reached := Pcs(visited[1..]) + {c.pc(t)};
  }

  lemma WhyNot<S(!new)>(c: Cpu<S>, stops: Stops, s: S, t: S)
    requires stops.above.Some? && stops.cycles.Some? && stops.pcs == {}
    ensures Why(c, stops, c.cycles(s), t).None? <==>
      c.sp(t) <= stops.above.value && c.cycles(t) - c.cycles(s) <= stops.cycles.value
  {
  }

  /** Both paths end where the stepped run ends: a batch never runs past the window and always runs an
      instruction, so it closes the same windows with the same addresses. */
  method IdleInit<S(!new)>(c: Cpu<S>, native: bool, b: Bound, first: S) returns (s: S)
    requires c.Valid()
    ensures s == Stepped(c, b, first, {}, 0)
  {
    hide Reached, After;
    s := first;
    var pcs: set<int>, steps := {}, 0;
    while Running(c, b, s)
      invariant 0 <= steps < SPIN_STEPS
      invariant Stepped(c, b, s, pcs, steps) == Stepped(c, b, first, {}, 0)
      decreases Budget(c, b, s)
    {
      ghost var was, had, done := s, pcs, steps;
      var reached: set<int>, count: nat;
      if native {
        s, reached, count := Batch(c, b, s, steps);
      } else {
        OneStep(c, s);
        s := c.step(s);
        reached, count := {c.pc(s)}, 1;
      }
      pcs, steps := pcs + reached, steps + count;
      CyclesPass(c, was, count);
      BatchIsSteps(c, b, was, had, done, count);
      if steps == SPIN_STEPS {
        if |pcs| <= SPIN_PCS {
          return;
        }
        pcs, steps := {}, 0;
      }
    }
  }

  // ----- where the stepped run ends

  /** The addresses the instructions from the `lo`-th to the `hi`-th led to. */
  ghost function Led<S(!new)>(c: Cpu<S>, first: S, lo: int, hi: int): set<int>
    requires 0 <= lo
  {
    set j: int | lo < j <= hi :: c.pc(After(c, first, j))
  }

  /** Those of the window that `p` instructions leave open. */
  ghost function Window<S(!new)>(c: Cpu<S>, first: S, p: nat): set<int> {
    Led(c, first, p - p % 1024, p)
  }

  /** After `k` instructions the run is over: it has returned or spent its budget, or has closed a window of
      1024 instructions that led to no more than eight addresses. */
  ghost predicate Over<S(!new)>(c: Cpu<S>, b: Bound, first: S, k: nat) {
    var s := After(c, first, k);
    || c.sp(s) >= b.depth || c.cycles(s) > b.start + b.max
    || (k > 0 && k % 1024 == 0 && |Led(c, first, k - 1024, k)| <= 8)
  }

  /** It ends as soon as it is over. */
  lemma SteppedIs<S(!new)>(c: Cpu<S>, b: Bound, first: S) returns (k: nat)
    requires c.Valid()
    ensures Stepped(c, b, first, {}, 0) == After(c, first, k)
    ensures Over(c, b, first, k) && forall j: nat :: j < k ==> !Over(c, b, first, j)
  {
    assert Led(c, first, 0, 0) == {} == Window(c, first, 0);
    k := SteppedFrom(c, b, first, 0);
  }

  lemma {:induction false} SteppedFrom<S(!new)>(c: Cpu<S>, b: Bound, first: S, p: nat) returns (k: nat)
    requires c.Valid() && forall j: nat :: j < p ==> !Over(c, b, first, j)
    requires p > 0 && p % 1024 == 0 ==> |Led(c, first, p - 1024, p)| > 8
    ensures Stepped(c, b, After(c, first, p), Window(c, first, p), p % 1024) == After(c, first, k)
    ensures Over(c, b, first, k) && forall j: nat :: j < k ==> !Over(c, b, first, j)
    decreases Budget(c, b, After(c, first, p))
  {
    if !Running(c, b, After(c, first, p)) {
      k := p;
      hide Led, Window, Over, Stepped, Running, After;
      NotRunning(c, b, After(c, first, p), Window(c, first, p), p % 1024);
      StoppedRunning(c, b, first, p);
    } else {
      hide Led, Window, Over, Stepped, Running, After;
      NextOver(c, b, first, p);
      NotOverYet(c, b, first, p);
      SteppedOn(c, b, first, p);
      if p % 1024 == 1023 && |Led(c, first, p - 1023, p + 1)| <= 8 {
        k := p + 1;
      } else {
        FullLed(c, first, p);
        k := SteppedFrom(c, b, first, p + 1);
      }
    }
  }

  lemma NotRunning<S(!new)>(c: Cpu<S>, b: Bound, s: S, pcs: set<int>, steps: nat)
    requires c.Valid() && steps < 1024 && !Running(c, b, s)
    ensures Stepped(c, b, s, pcs, steps) == s
  {
  }

  lemma StoppedRunning<S(!new)>(c: Cpu<S>, b: Bound, first: S, p: nat)
    requires !Running(c, b, After(c, first, p))
    ensures Over(c, b, first, p)
  {
    hide Led, After;
  }

  lemma FullLed<S(!new)>(c: Cpu<S>, first: S, p: nat)
    requires p % 1024 == 1023 ==> |Led(c, first, p - 1023, p + 1)| > 8
    ensures (p + 1) % 1024 == 0 ==> |Led(c, first, p + 1 - 1024, p + 1)| > 8
  {
    hide Led;
  }

  /** One instruction more, in its window or the next. */
  lemma SteppedOn<S(!new)>(c: Cpu<S>, b: Bound, first: S, p: nat)
    requires c.Valid() && Running(c, b, After(c, first, p))
    ensures var now := Stepped(c, b, After(c, first, p), Window(c, first, p), p % 1024);
      if p % 1024 == 1023 && |Led(c, first, p - 1023, p + 1)| <= 8 then now == After(c, first, p + 1)
      else now == Stepped(c, b, After(c, first, p + 1), Window(c, first, p + 1), (p + 1) % 1024)
  {
    assert After(c, first, p + 1) == c.step(After(c, first, p));
    hide Led, Window, Stepped, Running, After;
    WindowNext(c, first, p);
    SteppedNext(c, b, After(c, first, p), Window(c, first, p), p % 1024);
  }

  lemma WindowNext<S(!new)>(c: Cpu<S>, first: S, p: nat)
    ensures var more := Window(c, first, p) + {c.pc(After(c, first, p + 1))};
      if p % 1024 == 1023 then
        more == Led(c, first, p - 1023, p + 1) && (p + 1) % 1024 == 0 && Window(c, first, p + 1) == {}
      else Window(c, first, p + 1) == more && (p + 1) % 1024 == p % 1024 + 1
  {
    hide Led, After;
    LedNext(c, first, p - p % 1024, p);
    NoneLed(c, first, p + 1);
    if p % 1024 == 1023 {
      WindowEnds(p);
    } else {
      WithinWindow(p);
    }
  }

  lemma NotOverYet<S(!new)>(c: Cpu<S>, b: Bound, first: S, p: nat)
    requires !Over(c, b, first, p) && forall j: nat :: j < p ==> !Over(c, b, first, j)
    ensures forall j: nat :: j < p + 1 ==> !Over(c, b, first, j)
  {
    hide Over;
  }

  lemma NoneLed<S(!new)>(c: Cpu<S>, first: S, p: nat)
    ensures Led(c, first, p, p) == {}
  {
  }

  lemma SteppedNext<S(!new)>(c: Cpu<S>, b: Bound, s: S, pcs: set<int>, steps: nat)
    requires c.Valid() && steps < 1024 && Running(c, b, s)
    ensures var t := c.step(s);
      Stepped(c, b, s, pcs, steps) ==
        if steps < 1023 then Stepped(c, b, t, pcs + {c.pc(t)}, steps + 1)
        else if |pcs + {c.pc(t)}| <= 8 then t
        else Stepped(c, b, t, {}, 0)
  {
  }

  lemma WithinWindow(p: nat)
    requires p % 1024 < 1023
    ensures (p + 1) % 1024 == p % 1024 + 1
  {
  }

  lemma WindowEnds(p: nat)
    requires p % 1024 == 1023
    ensures (p + 1) % 1024 == 0
  {
  }

  lemma NextOver<S(!new)>(c: Cpu<S>, b: Bound, first: S, p: nat)
    requires c.Valid() && Running(c, b, After(c, first, p))
    requires p > 0 && p % 1024 == 0 ==> |Led(c, first, p - 1024, p)| > 8
    ensures !Over(c, b, first, p) && After(c, first, p + 1) == c.step(After(c, first, p))
    ensures p % 1024 == 1023 && |Led(c, first, p - 1023, p + 1)| <= 8 ==> Over(c, b, first, p + 1)
    ensures Budget(c, b, After(c, first, p + 1)) < Budget(c, b, After(c, first, p))
  {
    hide Led;
  }

  lemma LedNext<S(!new)>(c: Cpu<S>, first: S, lo: nat, p: nat)
    requires lo <= p
    ensures Led(c, first, lo, p + 1) == Led(c, first, lo, p) + {c.pc(After(c, first, p + 1))}
  {
    hide After;
    var more := Led(c, first, lo, p + 1);
    forall x | x in more ensures x in Led(c, first, lo, p) + {c.pc(After(c, first, p + 1))} {
      var j: int :| lo < j <= p + 1 && x == c.pc(After(c, first, j));
    }
    assert c.pc(After(c, first, p + 1)) in more;
  }
}
