/** `paths.StaticCode`: the static control flow of a memory span, descended from seeds. */
module Paths {
  import opened Options
  import Sets

  /** An instruction by what follows it; every one is at least a byte long. */
  datatype Insn =
    | Plain(length: nat)
    | Branch(length: nat, target: int)
    | Jump(length: nat, target: int)
    | Call(length: nat, target: int)
    | Stop(length: nat, rts: bool)

  const OUT := -1

  datatype Span = Span(code: int -> Insn, lo: int, hi: int) {
    ghost predicate Valid() {
      0 <= lo && forall pc :: code(pc).length >= 1
    }

    predicate In(pc: int) {
      lo <= pc < hi
    }

    function After(pc: int): int {
      pc + code(pc).length
    }

    /** Where a descent goes on from an instruction: a call's routine and its return site both. */
    function Descent(pc: int): set<int> {
      match code(pc)
      case Plain(_) => {After(pc)}
      case Branch(_, t) => {t, After(pc)}
      case Jump(_, t) => {t}
      case Call(_, t) => {t, After(pc)}
      case Stop(_, _) => {}
    }

    /** Successors within the routine: a call goes on at its return site. */
    function Succ(pc: int): set<int> {
      match code(pc)
      case Plain(_) => {After(pc)}
      case Branch(_, t) => {t, After(pc)}
      case Jump(_, t) => {t}
      case Call(_, t) => {After(pc)}
      case Stop(_, _) => {}
    }

    function Inside(pc: int): int {
      if In(pc) then pc else OUT
    }

    /** The edges an instruction adds: to its targets, out of the span as `OUT`; a call out of the
        span comes back from there. */
    function StaticEdges(pc: int): set<(int, int)> {
      match code(pc)
      case Plain(_) => {}
      case Branch(_, t) => {(pc, Inside(t)), (pc, Inside(After(pc)))}
      case Jump(_, t) => {(pc, Inside(t))}
      case Call(_, t) =>
        if In(After(pc)) && !In(t) then {(pc, Inside(t)), (OUT, After(pc))} else {(pc, Inside(t))}
      case Stop(_, _) => {}
    }

    /** A call the descent comes back from within the span. */
    predicate Returns(pc: int) {
      code(pc).Call? && In(After(pc))
    }

    ghost predicate Closed(s: set<int>) {
      forall pc, next {:trigger next in Descent(pc), pc in s} ::
          pc in s && next in Descent(pc) && In(next) ==> next in s
    }

    /** The least set holding `base` and closed under the descent. */
    ghost predicate Least(s: set<int>, base: set<int>) {
      && base <= s && Closed(s)
      && forall t {:trigger Closed(t)} :: base <= t && Closed(t) ==> s <= t
    }

    ghost predicate Path(s: set<int>, p: seq<int>) {
      && p != [] && (forall i :: 0 <= i < |p| ==> p[i] in s)
      && forall i, j :: 0 <= i && j == i + 1 < |p| ==> p[j] in Succ(p[i])
    }

    /** An `RTS` the routine at `entry` reaches. */
    ghost predicate Ends(s: set<int>, entry: int, pc: int) {
      Rts(pc) && Reaches(s, entry, pc)
    }

    predicate Rts(pc: int) {
      code(pc).Stop? && code(pc).rts
    }

    ghost predicate Reaches(s: set<int>, entry: int, pc: int) {
      exists p :: Path(s, p) && p[0] == entry && p[|p| - 1] == pc
    }

    function Follows(pc: int): (next: seq<int>)
      ensures forall x :: x in next <==> x in Succ(pc)
    {
      match code(pc)
      case Plain(_) => [After(pc)]
      case Branch(_, t) => [t, After(pc)]
      case Jump(_, t) => [t]
      case Call(_, t) => [After(pc)]
      case Stop(_, _) => []
    }
  }

  /** An instruction the code after it can run next, within its routine or by a descent. */
  predicate FallsThrough(i: Insn) {
    i.Plain? || i.Branch? || i.Call?
  }

  /** A descent and a routine go on after an instruction that falls through, to the target of a branch or a
      jump, and a descent to a called routine too. */
  lemma FlowIs(span: Span, pc: int, x: int)
    ensures var i := span.code(pc);
      && (x in span.Descent(pc) <==>
            (FallsThrough(i) && x == pc + i.length) || ((i.Branch? || i.Jump? || i.Call?) && x == i.target))
      && (x in span.Succ(pc) <==> (FallsThrough(i) && x == pc + i.length) || ((i.Branch? || i.Jump?) && x == i.target))
  {
  }

  /** An edge leads where it says in the span, and out as -1 beyond. */
  predicate LeadsTo(span: Span, to: int, b: int) {
    b == if span.lo <= to && to < span.hi then to else -1
  }

  /** A branch adds an edge to each arm, a jump and a call one to the target; a call out of the span that
      comes back into it one from outside to its return site; and nothing else adds any. */
  lemma EdgeIs(span: Span, pc: int, a: int, b: int)
    ensures var i := span.code(pc);
      (a, b) in span.StaticEdges(pc) <==>
        || (a == pc && (i.Branch? || i.Jump? || i.Call?) && LeadsTo(span, i.target, b))
        || (a == pc && i.Branch? && LeadsTo(span, pc + i.length, b))
        || (a == -1 && i.Call? && !(span.lo <= i.target < span.hi) && b == pc + i.length && span.lo <= b < span.hi)
    ensures span.Returns(pc) <==> span.code(pc).Call? && span.lo <= pc + span.code(pc).length < span.hi
    ensures span.Rts(pc) <==> span.code(pc) == Stop(span.code(pc).length, true)
  {
  }

  /** Two least sets over the same base are one: the order of the descent does not matter. */
  lemma LeastUnique(span: Span, s: set<int>, t: set<int>, base: set<int>)
    requires span.Least(s, base) && span.Least(t, base)
    ensures s == t
  {
  }

  /** Exploring twice is exploring once from both seeds. */
  lemma LeastSplit(span: Span, s: set<int>, t: set<int>, first: set<int>, second: set<int>)
    requires span.Least(s, first) && span.Least(t, s + second)
    ensures span.Least(t, first + second)
  {
    forall u | first + second <= u && span.Closed(u) ensures t <= u {
      assert s <= u;
    }
  }

  class StaticCode {
    const span: Span
    var pred: map<int, int>
    var seen: set<int>
    var calls: map<int, int>
    var edges: set<(int, int)>
    ghost var outs: set<int>

    /** The calls and preceding instructions of the code seen. */
    ghost predicate Core()
      reads this
    {
      && span.Valid()
      && (forall pc {:trigger pc in seen} :: pc in seen ==> span.In(pc))
      && (forall pc {:trigger pc in calls} :: pc in calls <==> pc in seen && span.Returns(pc))
      && (forall pc {:trigger calls[pc]} :: pc in calls ==> calls[pc] == span.code(pc).target)
      && (forall x {:trigger pred[x]} :: x in pred ==>
            pred[x] in seen && x in seen && span.code(pred[x]).Plain? && span.After(pred[x]) == x)
      && outs <= seen
    }

    ghost predicate Valid()
      reads this
    {
      Core() && span.Closed(seen) && forall e :: e in edges <==> IsEdge(span, seen, calls, outs, e)
    }

    constructor (span: Span)
      requires span.Valid()
      ensures Valid() && this.span == span && seen == {} && edges == {} && outs == {} && pred == map[]
    {
      this.span, pred, seen, calls, edges, outs := span, map[], {}, map[], {}, {};
    }

    /** Decode the instruction at `pc`: push where it leads, or go on straight. */
    method Visit(pc: int, stack: seq<int>) returns (more: seq<int>, next: Option<int>)
      requires Core() && span.In(pc) && pc !in seen
      modifies this`seen, this`calls, this`edges
      ensures Core() && seen == old(seen) + {pc} && edges == old(edges) + span.StaticEdges(pc)
      ensures stack <= more
      ensures next.Some? ==> span.Descent(pc) == {next.value} && more == stack
      ensures next.None? ==> forall x :: x in span.Descent(pc) && span.In(x) ==> x in more
      ensures forall x :: x in more ==> x in stack || x in span.Descent(pc)
    {
      seen := seen + {pc};
      more, next := stack, None;
      var insn := span.code(pc);
      if insn.Plain? {
        return stack, Some(span.After(pc));
      }
      if insn.Call? && span.In(span.After(pc)) {
        calls := calls[pc := insn.target];
        more := more + [span.After(pc)];
        if !span.In(insn.target) {
          edges := edges + {(OUT, span.After(pc))};
        }
      }
      if !insn.Stop? {
        edges := edges + {(pc, span.Inside(insn.target))};
        more := more + [insn.target];
        if insn.Branch? {
          edges := edges + {(pc, span.Inside(span.After(pc)))};
          more := more + [span.After(pc)];
        }
      }
    }

    /** Go on straight from `pc` to the first control flow, or to code seen before. */
    method Run(pc: int, stack: seq<int>, ghost base: set<int>) returns (more: seq<int>)
      requires Core() && Underway(span, base, seen, stack, [pc]) && forall x :: x in base ==> span.In(x)
      modifies this`seen, this`calls, this`edges
      ensures Core() && Underway(span, base, seen, more, [])
      ensures old(seen) <= seen && (seen == old(seen) ==> more == stack)
      ensures Adds(span, old(seen), old(edges), seen, edges)
    {
      hide Underway, Adds;
      var at := pc;
      more := stack;
      var going := true;
      NothingAdded(span, seen, edges);
      while going && span.In(at) && at !in seen
        invariant Core() && Underway(span, base, seen, more, if going then [at] else [])
        invariant old(seen) <= seen && (seen == old(seen) ==> more == stack)
        invariant Adds(span, old(seen), old(edges), seen, edges)
        decreases Room(span) - seen, going
      {
        ghost var before, was, had := seen, more, edges;
        var next;
        more, next := Visit(at, more);
        VisitedOne(span, base, before, was, at, more, next);
        AddedOne(span, old(seen), old(edges), before, had, at);
        RoomShrinks(span, before, seen);
        if next.Some? {
          at := next.value;
        } else {
          going := false;
        }
      }
      if going {
        NotVisited(span, base, seen, more, at);
      }
    }

    /** The descent over all seeds sees the least closed set. */
    method Descend(seeds: seq<int>)
      requires Core() && span.Closed(seen)
      modifies this`seen, this`calls, this`edges
      ensures Core() && old(seen) <= seen && span.Least(seen, old(seen) + Within(span, seeds))
      ensures Adds(span, old(seen), old(edges), seen, edges)
    {
      hide Underway, Adds;
      ghost var base := seen + Within(span, seeds);
      var stack := Kept(span, seeds);
      SetOut(span, seen, seeds);
      NothingAdded(span, seen, edges);
      while stack != []
        invariant Core() && old(seen) <= seen && Underway(span, base, seen, stack, [])
        invariant Adds(span, old(seen), old(edges), seen, edges)
        decreases Room(span) - seen, |stack|
      {
        var pc, rest := stack[|stack| - 1], stack[..|stack| - 1];
        Popped(span, base, seen, stack);
        ghost var before, had := seen, edges;
        stack := Run(pc, rest, base);
        AddedMore(span, old(seen), old(edges), before, had, seen, edges);
        RoomShrinks(span, before, seen);
      }
      Arrived(span, base, seen);
    }

    /** Link each new straight-line instruction to the one after it, the first in address order
        where several fall into one. */
    method LinkRuns(newly: set<int>)
      requires Core() && newly <= seen
      modifies this`pred
      ensures Core() && old(pred).Keys <= pred.Keys && Linked(span, newly, old(pred), pred, span.hi)
    {
      hide Linked;
      var pc := span.lo;
      NoneLinked(span, newly, pred, span.lo);
      if span.hi < span.lo {
        NoneLinked(span, newly, pred, span.hi);
      }
      while pc < span.hi
        invariant Core() && old(pred).Keys <= pred.Keys && Linked(span, newly, old(pred), pred, pc)
        invariant pc <= span.hi || (pc == span.lo && pred == old(pred))
        decreases span.hi - pc
      {
        LinkedOne(span, newly, old(pred), pred, pc);
        if pc in newly && span.code(pc).Plain? && span.After(pc) in newly && span.After(pc) !in pred {
          pred := pred[span.After(pc) := pc];
        }
        pc := pc + 1;
      }
    }

    /** The routine's `RTS` instructions, by a worklist within the code seen. */
    method EndsOf(entry: int) returns (ends: set<int>)
      ensures forall pc :: pc in ends <==> span.Ends(seen, entry, pc)
    {
      var todo, done := [entry], {};
      ends := {};
      assert entry in seen ==> span.Path(seen, [entry]);
      while todo != []
        invariant done <= seen && (entry in seen ==> entry in done || entry in todo)
        invariant forall d, x {:trigger x in span.Succ(d), d in done} ::
          d in done && x in span.Succ(d) && x in seen ==> x in done || x in todo
        invariant forall x {:trigger x in todo} :: x in todo && x in seen ==> span.Reaches(seen, entry, x)
        invariant forall d {:trigger d in done} :: d in done ==> span.Reaches(seen, entry, d)
        invariant forall pc {:trigger pc in ends} :: pc in ends <==> pc in done && span.Rts(pc)
        decreases seen - done, |todo|
      {
        var pc, rest := todo[|todo| - 1], todo[..|todo| - 1];
        assert todo == rest + [pc];
        assert forall x {:trigger x in todo} :: x in todo <==> x in rest || x == pc;
        assert pc in seen ==> span.Reaches(seen, entry, pc) by { assert pc in todo; }
        assert forall x {:trigger x in rest} :: x in rest && x in seen ==> x in todo;
        todo := rest;
        if pc !in done && pc in seen {
          done := done + {pc};
          if span.Rts(pc) {
            ends := ends + {pc};
          }
          forall x | x in span.Succ(pc) && x in seen ensures span.Reaches(seen, entry, x) {
            ReachesNext(span, seen, entry, pc, x);
          }
          todo := todo + span.Follows(pc);
        }
      }
      forall pc ensures pc in done <==> span.Reaches(seen, entry, pc) {
        if pc !in done {
          StaysIn(span, seen, done, entry, pc);
        }
      }
    }

    /** A routine's `RTS` instructions, worked out once. */
    method EndsCached(entry: int, rets: map<int, set<int>>) returns (ends: set<int>, after: map<int, set<int>>)
      requires AreEnds(span, seen, rets)
      ensures AreEnds(span, seen, after) && IsEnds(span, seen, entry, ends)
    {
      after := rets;
      if entry !in rets {
        ends := EndsOf(entry);
        after := rets[entry := ends];
      }
      ends := after[entry];
    }

    /** Add every callee's `RTS` edges to its return sites and the entries' out of the span. */
    method AddReturns(entries: set<int>)
      modifies this`edges
      ensures forall e :: e in edges <==>
        e in old(edges) || CallReturn(span, seen, calls, e) || OutReturn(span, seen, entries, e)
    {
      hide CallReturn, OutReturn, AreEnds;
      var rets: map<int, set<int>> := map[];
      NoEnds(span, seen);
      var todo := calls.Keys;
      ghost var done: map<int, int> := map[];
      NoReturns(span, seen);
      while todo != {}
        invariant todo <= calls.Keys && AreEnds(span, seen, rets) && done == calls - todo
        invariant forall e :: e in edges <==> e in old(edges) || CallReturn(span, seen, done, e)
        decreases todo
      {
        ghost var some := Sets.Member(todo);
        var site :| site in todo;
        var ends;
        ends, rets := EndsCached(calls[site], rets);
        CallReturnNext(span, seen, done, site, calls[site], ends);
        edges := edges + (set r | r in ends :: (r, site + 3));
        todo := todo - {site};
        assert calls - todo == done[site := calls[site]];
        done := calls - todo;
      }
      assert done == calls;
      var left := entries;
      assert entries - left == {};
      while left != {}
        invariant left <= entries && AreEnds(span, seen, rets)
        invariant forall e :: e in edges <==>
          e in old(edges) || CallReturn(span, seen, calls, e) || OutReturn(span, seen, entries - left, e)
        decreases left
      {
        ghost var some := Sets.Member(left);
        var entry :| entry in left;
        var ends;
        ends, rets := EndsCached(entry, rets);
        OutReturnNext(span, seen, entries - left, entry, ends);
        edges := edges + (set r | r in ends :: (r, OUT));
        assert entries - (left - {entry}) == entries - left + {entry};
        left := left - {entry};
      }
      assert entries - left == entries;
    }

    /** Explore from more seeds: what is seen is the least set holding what was and the seeds in the
        span, closed under the descent, and the edges are exactly those of the code seen. */
    method Explore(seeds: seq<int>, entries: set<int>)
      requires Valid()
      modifies this
      ensures Valid() && span.Least(seen, old(seen) + Within(span, seeds))
      ensures outs == old(outs) + entries * seen
      ensures Linked(span, seen - old(seen), old(pred), pred, span.hi)
    {
      hide Adds, Linked, CallReturn, OutReturn;
      ghost var was, had, called, out := seen, edges, calls, outs;
      var known := seen;
      Descend(seeds);
      ghost var descended := edges;
      LinkRuns(seen - known);
      AddReturns(entries);
      outs := outs + entries * seen;
      ExploredEdges(span, was, had, called, out, seen, descended, calls, outs, entries, edges);
    }

    /** The forms, in order, of the straight run of decoded instructions falling into `pc`: the run ends,
        and links only back. */
    method Prefix<F>(pc: int, form: int -> F) returns (forms: seq<F>, ghost run: seq<int>)
      requires Valid()
      ensures run != [] && run[|run| - 1] == pc && run[0] !in pred && FallsIn(span, pred, run)
      ensures |forms| == |run| && forall k {:trigger forms[k]} :: 0 <= k < |run| ==> forms[k] == form(run[k])
    {
      var at := pc;
      forms, run := [form(pc)], [pc];
      while at in pred
        invariant run != [] && run[|run| - 1] == pc && at == run[0] && FallsIn(span, pred, run)
        invariant |forms| == |run| && forall k {:trigger forms[k]} :: 0 <= k < |run| ==> forms[k] == form(run[k])
        decreases at
      {
        FallsOne(span, pred, pred[at], run);
        assert span.In(pred[at]);
        at := pred[at];
        forms, run := [form(at)] + forms, [at] + run;
      }
    }
  }

  /** Each address is linked from the one before it, a plain instruction right before it. */
  ghost predicate FallsIn(span: Span, pred: map<int, int>, run: seq<int>) {
    forall i, j {:trigger run[i], run[j]} :: 0 <= i && j == i + 1 < |run| ==>
      && run[i] < run[j] && run[j] in pred && run[i] == pred[run[j]]
      && span.code(run[i]).Plain? && span.After(run[i]) == run[j]
  }

  lemma FallsOne(span: Span, pred: map<int, int>, pc: int, run: seq<int>)
    requires FallsIn(span, pred, run) && run != [] && pc < run[0] && run[0] in pred && pc == pred[run[0]]
    requires span.code(pc).Plain? && span.After(pc) == run[0]
    ensures FallsIn(span, pred, [pc] + run)
  {
    var more := [pc] + run;
    forall i, j {:trigger more[i], more[j]} | 0 <= i && j == i + 1 < |more| ensures
      && more[i] < more[j] && more[j] in pred && more[i] == pred[more[j]]
      && span.code(more[i]).Plain? && span.After(more[i]) == more[j]
    {
      if i > 0 {
        assert more[i] == run[i - 1] && more[j] == run[j - 1];
      }
    }
  }

  ghost predicate IsEnds(span: Span, seen: set<int>, entry: int, ends: set<int>) {
    forall pc :: pc in ends <==> span.Ends(seen, entry, pc)
  }

  ghost predicate AreEnds(span: Span, seen: set<int>, rets: map<int, set<int>>) {
    forall entry :: entry in rets ==> IsEnds(span, seen, entry, rets[entry])
  }

  lemma NoEnds(span: Span, seen: set<int>)
    ensures AreEnds(span, seen, map[])
  {
  }

  /** An edge of the code seen: an instruction's own, a callee's `RTS` to the return site, an entry's
      `RTS` out. */
  ghost predicate IsEdge(span: Span, seen: set<int>, calls: map<int, int>, outs: set<int>, e: (int, int)) {
    || (exists pc :: pc in seen && e in span.StaticEdges(pc))
    || CallReturn(span, seen, calls, e)
    || OutReturn(span, seen, outs, e)
  }

  ghost predicate OutReturn(span: Span, seen: set<int>, outs: set<int>, e: (int, int)) {
    e.1 == OUT && exists entry :: entry in outs && span.Ends(seen, entry, e.0)
  }

  ghost predicate CallReturn(span: Span, seen: set<int>, calls: map<int, int>, e: (int, int)) {
    exists site :: site in calls && e.1 == site + 3 && span.Ends(seen, calls[site], e.0)
  }

  lemma NoReturns(span: Span, seen: set<int>)
    ensures forall e :: !CallReturn(span, seen, map[], e) && !OutReturn(span, seen, {}, e)
  {
  }

  lemma CallReturnNext(span: Span, seen: set<int>, calls: map<int, int>, site: int, target: int, ends: set<int>)
    requires site !in calls && IsEnds(span, seen, target, ends)
    ensures forall e :: CallReturn(span, seen, calls[site := target], e) <==>
      CallReturn(span, seen, calls, e) || e in (set r | r in ends :: (r, site + 3))
  {
    var more := calls[site := target];
    forall e ensures CallReturn(span, seen, more, e) <==>
        CallReturn(span, seen, calls, e) || (e.1 == site + 3 && span.Ends(seen, target, e.0))
    {
      if s :| s in calls && e.1 == s + 3 && span.Ends(seen, calls[s], e.0) {
        assert more[s] == calls[s];
      }
      assert more[site] == target;
    }
  }

  lemma OutReturnNext(span: Span, seen: set<int>, outs: set<int>, entry: int, ends: set<int>)
    requires IsEnds(span, seen, entry, ends)
    ensures forall e :: OutReturn(span, seen, outs + {entry}, e) <==>
      OutReturn(span, seen, outs, e) || e in (set r | r in ends :: (r, OUT))
  {
  }

  /** What a closed set reaches it reaches within. */
  lemma EndsGrow(span: Span, was: set<int>, seen: set<int>, entry: int, pc: int)
    requires was <= seen && span.Closed(was) && forall x :: x in seen ==> span.In(x)
    ensures span.Ends(was, entry, pc) ==> span.Ends(seen, entry, pc)
    ensures entry in was ==> (span.Ends(seen, entry, pc) <==> span.Ends(was, entry, pc))
  {
    forall p | span.Path(was, p) ensures span.Path(seen, p) {
    }
    if entry in was {
      forall d, x {:trigger x in span.Succ(d), d in was} | d in was && x in span.Succ(d) && x in seen ensures x in was {
        assert x in span.Descent(d);
      }
      forall p | span.Path(seen, p) && p[0] == entry ensures span.Path(was, p) {
        PathStaysIn(span, seen, was, p);
      }
    }
  }

  /** The edges after an exploration, from those before it. */
  lemma ExploredEdges(span: Span, was: set<int>, had: set<(int, int)>, called: map<int, int>, out: set<int>,
      seen: set<int>, descended: set<(int, int)>, calls: map<int, int>, outs: set<int>, entries: set<int>,
      edges: set<(int, int)>)
    requires was <= seen && span.Closed(was) && (forall x :: x in seen ==> span.In(x)) && out <= was
    requires forall e :: e in had <==> IsEdge(span, was, called, out, e)
    requires Adds(span, was, had, seen, descended) && outs == out + entries * seen
    requires forall site :: site in called ==> site in calls && calls[site] == called[site]
    requires forall e :: e in edges <==>
      e in descended || CallReturn(span, seen, calls, e) || OutReturn(span, seen, entries, e)
    ensures forall e :: e in edges <==> IsEdge(span, seen, calls, outs, e)
  {
    forall e ensures e in edges <==> IsEdge(span, seen, calls, outs, e) {
      EdgeAfter(span, was, had, called, out, seen, descended, calls, entries, e);
    }
  }

  lemma EdgeAfter(span: Span, was: set<int>, had: set<(int, int)>, called: map<int, int>, out: set<int>,
      seen: set<int>, descended: set<(int, int)>, calls: map<int, int>, entries: set<int>, e: (int, int))
    requires was <= seen && span.Closed(was) && (forall x :: x in seen ==> span.In(x)) && out <= was
    requires e in had <==> IsEdge(span, was, called, out, e)
    requires Adds(span, was, had, seen, descended)
    requires forall site :: site in called ==> site in calls && calls[site] == called[site]
    ensures e in descended || CallReturn(span, seen, calls, e) || OutReturn(span, seen, entries, e)
      <==> IsEdge(span, seen, calls, out + entries * seen, e)
  {
    StaticAfter(span, was, had, seen, descended, e);
    hide Adds;
    assert CallReturn(span, was, called, e) ==> CallReturn(span, seen, calls, e) by {
      if site :| site in called && e.1 == site + 3 && span.Ends(was, called[site], e.0) {
        EndsGrow(span, was, seen, called[site], e.0);
        assert calls[site] == called[site];
      }
    }
    OutAfter(span, was, out, seen, entries, e);
  }

  lemma StaticAfter(span: Span, was: set<int>, had: set<(int, int)>, seen: set<int>,
      descended: set<(int, int)>, e: (int, int))
    requires was <= seen && Adds(span, was, had, seen, descended)
    ensures (exists pc :: pc in was && e in span.StaticEdges(pc)) ==>
        (exists pc :: pc in seen && e in span.StaticEdges(pc))
    ensures (exists pc :: pc in seen && e in span.StaticEdges(pc)) ==>
      (exists pc :: pc in was && e in span.StaticEdges(pc)) || e in descended
    ensures e in descended ==> e in had || exists pc :: pc in seen && e in span.StaticEdges(pc)
    ensures e in had ==> e in descended
  {
    if pc :| pc in seen && e in span.StaticEdges(pc) {
      if pc !in was {
        assert pc in seen - was;
      }
    }
  }

  lemma OutAfter(span: Span, was: set<int>, out: set<int>, seen: set<int>, entries: set<int>, e: (int, int))
    requires was <= seen && span.Closed(was) && (forall x :: x in seen ==> span.In(x)) && out <= was
    ensures OutReturn(span, was, out, e) || OutReturn(span, seen, entries, e)
      <==> OutReturn(span, seen, out + entries * seen, e)
  {
    var outs := out + entries * seen;
    if entry :| entry in out && span.Ends(was, entry, e.0) {
      EndsGrow(span, was, seen, entry, e.0);
      assert entry in outs;
    }
    if entry :| entry in entries && span.Ends(seen, entry, e.0) {
      EndsSeen(span, seen, entry, e.0);
      assert entry in outs;
    }
    if entry :| entry in outs && span.Ends(seen, entry, e.0) {
      if entry in out {
        EndsGrow(span, was, seen, entry, e.0);
      }
    }
  }

  lemma EndsSeen(span: Span, seen: set<int>, entry: int, pc: int)
    requires span.Ends(seen, entry, pc)
    ensures entry in seen
  {
  }

  ghost predicate Links(span: Span, newly: set<int>, pc: int, x: int) {
    pc in newly && span.code(pc).Plain? && span.After(pc) == x && x in newly
  }

  /** The links after the instructions below `top`: the old ones, and the first one into each other. */
  ghost predicate Linked(span: Span, newly: set<int>, was: map<int, int>, pred: map<int, int>, top: int) {
    && (forall x {:trigger was[x]} :: x in was ==> x in pred && pred[x] == was[x])
    && (forall x {:trigger pred[x]} :: x in pred && x !in was ==> pred[x] < top && Links(span, newly, pred[x], x))
    && forall x, pc {:trigger Links(span, newly, pc, x)} ::
         pc < top && Links(span, newly, pc, x) ==> x in pred && (x in was || pred[x] <= pc)
  }

  lemma NoneLinked(span: Span, newly: set<int>, was: map<int, int>, top: int)
    requires top <= span.lo && forall pc {:trigger pc in newly} :: pc in newly ==> span.In(pc)
    ensures Linked(span, newly, was, was, top)
  {
  }

  /** The instruction at `pc` is linked to the one after it unless that has a predecessor. */
  lemma LinkedOne(span: Span, newly: set<int>, was: map<int, int>, pred: map<int, int>, pc: int)
    requires Linked(span, newly, was, pred, pc)
    ensures var x := span.After(pc);
            Linked(span, newly, was, if Links(span, newly, pc, x) && x !in pred then pred[x := pc] else pred, pc + 1)
  {
    hide Span.After;
    var x := span.After(pc);
    forall y, at | at < pc + 1 && Links(span, newly, at, y)
      ensures y in (if Links(span, newly, pc, x) && x !in pred then pred[x := pc] else pred)
    {
    }
  }

  lemma ReachesNext(span: Span, s: set<int>, entry: int, pc: int, x: int)
    requires span.Reaches(s, entry, pc) && x in span.Succ(pc) && x in s
    ensures span.Reaches(s, entry, x)
  {
    var p :| span.Path(s, p) && p[0] == entry && p[|p| - 1] == pc;
    assert span.Path(s, p + [x]);
  }

  /** A path cannot leave a set its successors stay in. */
  lemma StaysIn(span: Span, s: set<int>, done: set<int>, entry: int, pc: int)
    requires entry in s ==> entry in done
    requires forall d, x {:trigger x in span.Succ(d), d in done} ::
        d in done && x in span.Succ(d) && x in s ==> x in done
    ensures span.Reaches(s, entry, pc) ==> pc in done
  {
    forall p | span.Path(s, p) && p[0] == entry && p[|p| - 1] == pc ensures pc in done {
      PathStaysIn(span, s, done, p);
    }
  }

  lemma {:induction false} PathStaysIn(span: Span, s: set<int>, done: set<int>, p: seq<int>)
    requires span.Path(s, p) && p[0] in done
    requires forall d, x {:trigger x in span.Succ(d), d in done} ::
        d in done && x in span.Succ(d) && x in s ==> x in done
    ensures span.Path(done, p)
    decreases |p|
  {
    if |p| > 1 {
      assert p[1] in span.Succ(p[0]);
      PathStaysIn(span, s, done, p[1..]);
      forall i | 0 <= i < |p| ensures p[i] in done {
        if i > 0 {
          assert p[1..][i - 1] == p[i];
        }
      }
    }
  }

  /** A descent under way: all of `base` is seen or still to come, what is seen leads only to that,
      and every closed set holding `base` holds all of it. */
  ghost predicate Underway(span: Span, base: set<int>, seen: set<int>, stack: seq<int>, next: seq<int>) {
    && (forall x {:trigger x in base} :: x in base ==> x in seen || x in stack || x in next)
    && (forall pc, x {:trigger x in span.Descent(pc), pc in seen} ::
          pc in seen && x in span.Descent(pc) && span.In(x) ==> x in seen || x in stack || x in next)
    && forall t {:trigger span.Closed(t)} :: base <= t && span.Closed(t) ==>
         && seen <= t && (forall x {:trigger x in stack} :: x in stack && span.In(x) ==> x in t)
         && forall x {:trigger x in next} :: x in next && span.In(x) ==> x in t
  }

  /** The edges are the old ones and those of the instructions seen since. */
  ghost predicate Adds(span: Span, from: set<int>, had: set<(int, int)>, seen: set<int>, edges: set<(int, int)>) {
    forall e :: e in edges <==> e in had || exists pc :: pc in seen - from && e in span.StaticEdges(pc)
  }

  lemma NothingAdded(span: Span, seen: set<int>, edges: set<(int, int)>)
    ensures Adds(span, seen, edges, seen, edges)
  {
  }

  lemma AddedOne(span: Span, from: set<int>, had: set<(int, int)>, seen: set<int>, edges: set<(int, int)>, pc: int)
    requires from <= seen && pc !in seen && Adds(span, from, had, seen, edges)
    ensures Adds(span, from, had, seen + {pc}, edges + span.StaticEdges(pc))
  {
    forall e ensures e in edges + span.StaticEdges(pc) <==>
        e in had || exists p :: p in seen + {pc} - from && e in span.StaticEdges(p)
    {
      assert e in edges <==> e in had || exists p :: p in seen - from && e in span.StaticEdges(p);
      assert pc in seen + {pc} - from;
    }
  }

  lemma AddedMore(span: Span, from: set<int>, had: set<(int, int)>, mid: set<int>, some: set<(int, int)>,
      seen: set<int>, edges: set<(int, int)>)
    requires from <= mid <= seen && Adds(span, from, had, mid, some) && Adds(span, mid, some, seen, edges)
    ensures Adds(span, from, had, seen, edges)
  {
    forall e ensures e in edges <==> e in had || exists p :: p in seen - from && e in span.StaticEdges(p) {
      assert e in some <==> e in had || exists p :: p in mid - from && e in span.StaticEdges(p);
      assert forall p :: p in seen - from <==> p in mid - from || p in seen - mid;
    }
  }

  lemma VisitedOne(span: Span, base: set<int>, seen: set<int>, stack: seq<int>, pc: int, more: seq<int>,
        next: Option<int>)
    requires Underway(span, base, seen, stack, [pc]) && span.In(pc) && stack <= more
    requires next.Some? ==> span.Descent(pc) == {next.value} && more == stack
    requires next.None? ==> forall x :: x in span.Descent(pc) && span.In(x) ==> x in more
    requires forall x :: x in more ==> x in stack || x in span.Descent(pc)
    ensures Underway(span, base, seen + {pc}, more, if next.Some? then [next.value] else [])
  {
    assert forall x {:trigger x in stack} :: x in stack ==> x in more;
    assert pc in [pc];
    var n := if next.Some? then [next.value] else [];
    forall t {:trigger span.Closed(t)} | base <= t && span.Closed(t) ensures
      && seen + {pc} <= t && (forall x {:trigger x in more} :: x in more && span.In(x) ==> x in t)
      && forall x {:trigger x in n} :: x in n && span.In(x) ==> x in t
    {
      assert pc in t;
    }
  }

  lemma NotVisited(span: Span, base: set<int>, seen: set<int>, stack: seq<int>, pc: int)
    requires Underway(span, base, seen, stack, [pc]) && (pc in seen || !span.In(pc))
    requires forall x :: x in base ==> span.In(x)
    ensures Underway(span, base, seen, stack, [])
  {
  }

  lemma Popped(span: Span, base: set<int>, seen: set<int>, stack: seq<int>)
    requires Underway(span, base, seen, stack, []) && stack != []
    ensures Underway(span, base, seen, stack[..|stack| - 1], [stack[|stack| - 1]])
  {
    var rest, pc := stack[..|stack| - 1], stack[|stack| - 1];
    assert stack == rest + [pc];
    forall x ensures x in stack <==> x in rest || x in [pc] {
      assert x in stack <==> x in rest + [pc];
    }
    forall t {:trigger span.Closed(t)} | base <= t && span.Closed(t) ensures
      && seen <= t && (forall x {:trigger x in rest} :: x in rest && span.In(x) ==> x in t)
      && forall x {:trigger x in [pc]} :: x in [pc] && span.In(x) ==> x in t
    {
      assert pc in stack;
    }
  }

  lemma SetOut(span: Span, seen: set<int>, seeds: seq<int>)
    requires span.Closed(seen)
    ensures Underway(span, seen + Within(span, seeds), seen, Kept(span, seeds), [])
  {
  }

  lemma Arrived(span: Span, base: set<int>, seen: set<int>)
    requires Underway(span, base, seen, [], [])
    ensures span.Least(seen, base)
  {
    forall x | x in base ensures x in seen {
      assert x !in [];
    }
  }

  function Room(span: Span): set<int> {
    set pc | span.lo <= pc < span.hi && span.In(pc)
  }

  lemma RoomShrinks(span: Span, before: set<int>, after: set<int>)
    requires before <= after && forall pc :: pc in after ==> span.In(pc)
    ensures Room(span) - after <= Room(span) - before
    ensures before == after || Room(span) - after < Room(span) - before
  {
    forall pc | pc in after && pc !in before ensures pc in Room(span) - before && pc !in Room(span) - after {
    }
  }

  /** The seeds in the span. */
  function Kept(span: Span, seeds: seq<int>): (kept: seq<int>)
    ensures forall x :: x in kept <==> x in seeds && span.In(x)
  {
    if seeds == [] then []
    else (if span.In(seeds[0]) then [seeds[0]] else []) + Kept(span, seeds[1..])
  }

  ghost function Within(span: Span, seeds: seq<int>): set<int> {
    set x | x in seeds && span.In(x)
  }
}
