/** Framing at interrupt raises: `oracle.sidtrace_grid` over a whole trace, and
    `irqhost.InterruptHost._frames` row by row while the machine runs.
 */
module Sidtrace {
  import opened Options
  import opened Grids
  import Sorting

  /** One log row: a chip's register write, or an interrupt event. */
  datatype Entry =
    | Logged(cycle: int, chip: int, reg: nat, val: int)
    | Event(cycle: int, name: string)

  const REGS := 25

  ghost predicate CycleOrdered(log: seq<Entry>) {
    forall i, j :: 0 <= i < j < |log| ==> log[i].cycle <= log[j].cycle
  }

  predicate IsRaise(e: Entry, source: string) {
    e.Event? && e.name == source
  }

  /** The cycles `source` was raised. */
  function Raises(log: seq<Entry>, source: string): seq<int> {
    if log == [] then []
    else
      var rest, last := Raises(log[..|log| - 1], source), log[|log| - 1];
      if IsRaise(last, source) then rest + [last.cycle] else rest
  }

  predicate Writes(e: Entry, chip: int, reg: int) {
    e.Logged? && e.chip == chip && e.reg == reg
  }

  /** The value of the last write to `reg` before a cycle; of any write, without one. */
  function StoredBefore(log: seq<Entry>, chip: int, reg: int, cycle: Option<int>): int {
    if log == [] then 0
    else
      var last := log[|log| - 1];
      if Writes(last, chip, reg) && (cycle.Some? ==> last.cycle < cycle.value) then Masked(reg, last.val)
      else StoredBefore(log[..|log| - 1], chip, reg, cycle)
  }

  function StateBefore(log: seq<Entry>, chip: int, cycle: Option<int>): (row: seq<int>)
    ensures |row| == REGS
    ensures forall r {:trigger row[r]} :: 0 <= r < REGS ==> row[r] == StoredBefore(log, chip, r, cycle)
  {
    seq(REGS, r => StoredBefore(log, chip, r, cycle))
  }

  /** The value is the masked one of the chip's last write to `reg` before the cycle, 0 without one. */
  ghost predicate LastStored(log: seq<Entry>, chip: int, reg: int, cycle: Option<int>, value: int) {
    || (value == 0 && forall k {:trigger log[k]} :: 0 <= k < |log| ==> !WritesBy(log[k], chip, reg, cycle))
    || exists k {:trigger log[k]} ::
         && 0 <= k < |log| && WritesBy(log[k], chip, reg, cycle) && value == Masked(reg, log[k].val)
         && forall j {:trigger log[j]} :: k < j < |log| ==> !WritesBy(log[j], chip, reg, cycle)
  }

  ghost predicate WritesBy(e: Entry, chip: int, reg: int, cycle: Option<int>) {
    e.Logged? && e.chip == chip && e.reg == reg && (cycle.Some? ==> e.cycle < cycle.value)
  }

  lemma {:induction false} StoredIs(log: seq<Entry>, chip: int, reg: int, cycle: Option<int>)
    ensures LastStored(log, chip, reg, cycle, StoredBefore(log, chip, reg, cycle))
  {
    if log != [] {
      var n := |log| - 1;
      if !WritesBy(log[n], chip, reg, cycle) {
        StoredIs(log[..n], chip, reg, cycle);
        assert forall k {:trigger log[k]} :: 0 <= k < n ==> log[..n][k] == log[k];
      }
    }
  }

  /** The raises are the cycles of the source's events, and no others, in their order. */
  lemma {:induction false} RaisesAre(log: seq<Entry>, source: string, i: nat)
    requires i < |log|
    ensures var before, raises := Raises(log[..i], source), Raises(log, source);
      && before <= raises
      && (log[i].Event? && log[i].name == source ==> |before| < |raises| && raises[|before|] == log[i].cycle)
      && |Raises(log[..i + 1], source)| == |before| + if log[i].Event? && log[i].name == source then 1 else 0
  {
    var n := |log| - 1;
    assert log[..i + 1][..i] == log[..i];
    if i < n {
      RaisesAre(log[..n], source, i);
      assert log[..n][..i] == log[..i] && log[..n][i] == log[i];
    } else {
      assert log[..i + 1] == log;
    }
  }

  // ----- frames

  /** The frames between two raises: one a raise, or at a fixed cadence also one a gap call. */
  function Step(cpf: Option<int>, gap: int): (n: int)
    requires cpf.Some? ==> cpf.value > 0
    ensures n >= 1
  {
    match cpf
    case None => 1
    case Some(c) => if (gap + c / 2) / c > 1 then (gap + c / 2) / c else 1
  }

  /** `d` frames are counted for a gap: one without a cadence; with one the whole cadences in the gap and half
      a cadence more, at least one. */
  ghost predicate Counted(cpf: Option<int>, gap: int, d: int) {
    match cpf
    case None => d == 1
    case Some(c) => (d >= 1 && d * c <= gap + c / 2 < (d + 1) * c) || (d == 1 && gap + c / 2 < c)
  }

  lemma StepCounts(cpf: Option<int>, gap: int)
    requires cpf.Some? ==> cpf.value > 0
    ensures Counted(cpf, gap, Step(cpf, gap))
  {
    if cpf.Some? {
      var c, x := cpf.value, gap + cpf.value / 2;
      var q := x / c;
      assert x == q * c + x % c;
      assert (q + 1) * c == q * c + c;
      if q < 1 {
        BelowOne(q, c);
      }
    }
  }

  lemma BelowOne(q: int, c: int)
    requires q < 1 && c > 0
    ensures q * c <= 0
  {
  }

  /** A gap within half a cadence of `k` cadences counts `k` frames. */
  lemma NearestCounts(c: int, gap: int, d: int, k: int)
    requires c > 0 && k >= 1 && k * c - c / 2 <= gap < k * c + c - c / 2 && Counted(Some(c), gap, d)
    ensures d == k
  {
    if d < k {
      Product(d + 1, k, c);
    } else if d > k {
      Product(k + 1, d, c);
    }
  }

  lemma Product(a: int, b: int, c: int)
    requires a <= b && c > 0
    ensures a * c <= b * c && (a - 1) * c == a * c - c
  {
  }

  predicate Cadence(cpf: Option<int>) {
    cpf.Some? ==> cpf.value > 0
  }

  /** The frame raise `k` opens. */
  function FrameAt(raises: seq<int>, cpf: Option<int>, k: nat): (f: nat)
    requires Cadence(cpf) && k < |raises|
  {
    if k == 0 then 0 else FrameAt(raises, cpf, k - 1) + Step(cpf, raises[k] - raises[k - 1])
  }

  /** The first raise opens frame 0, and each later one as many on as its gap counts. */
  lemma FramesCounted(raises: seq<int>, cpf: Option<int>, k: nat)
    requires Cadence(cpf) && k < |raises|
    ensures if k == 0 then FrameAt(raises, cpf, k) == 0
            else Counted(cpf, raises[k] - raises[k - 1], FrameAt(raises, cpf, k) - FrameAt(raises, cpf, k - 1))
  {
    if k > 0 {
      StepCounts(cpf, raises[k] - raises[k - 1]);
      hide Step, Counted;
    }
  }

  lemma {:induction false} FramesGrow(raises: seq<int>, cpf: Option<int>, j: nat, k: nat)
    requires Cadence(cpf) && j <= k < |raises|
    ensures FrameAt(raises, cpf, j) + (k - j) <= FrameAt(raises, cpf, k)
    decreases k
  {
    if j < k {
      FramesGrow(raises, cpf, j, k - 1);
    }
  }

  ghost predicate Ascending(raises: seq<int>) {
    forall i, j :: 0 <= i < j < |raises| ==> raises[i] <= raises[j]
  }

  /** The last of the first `n` raises in a cycle, -1 without one. */
  function LastIn(raises: seq<int>, n: nat, cycle: int): (i: int)
    requires n <= |raises|
    ensures -1 <= i < n && (i >= 0 ==> raises[i] == cycle)
    ensures forall j {:trigger raises[j]} :: i < j < n ==> raises[j] != cycle
  {
    if n == 0 then -1 else if raises[n - 1] == cycle then n - 1 else LastIn(raises, n - 1, cycle)
  }

  /** The cycles of the first `n` raises are placed, each in the frame of its last raise. */
  ghost predicate Places(raises: seq<int>, cpf: Option<int>, out: map<int, nat>, n: nat)
    requires Cadence(cpf) && n <= |raises|
  {
    && (forall c :: c in out <==> LastIn(raises, n, c) >= 0)
    && forall c {:trigger out[c]} :: c in out ==> out[c] == FrameAt(raises, cpf, LastIn(raises, n, c))
  }

  /** Each raise cycle's frame; of raises in the same cycle the last one's, whatever their order. */
  method RaiseFrames(raises: seq<int>, cpf: Option<int>) returns (out: map<int, nat>)
    requires Cadence(cpf)
    ensures forall k {:trigger raises[k]} :: 0 <= k < |raises| ==> raises[k] in out
    ensures Places(raises, cpf, out, |raises|)
    ensures forall j, k {:trigger FrameAt(raises, cpf, j), FrameAt(raises, cpf, k)} ::
      0 <= j && k == j + 1 < |raises| ==>
      Counted(cpf, raises[k] - raises[j], FrameAt(raises, cpf, k) - FrameAt(raises, cpf, j))
    ensures |raises| > 0 ==> FrameAt(raises, cpf, 0) == 0
  {
    hide Places, Step, Counted;
    forall j, k | 0 <= j && k == j + 1 < |raises|
      ensures Counted(cpf, raises[k] - raises[j], FrameAt(raises, cpf, k) - FrameAt(raises, cpf, j))
    {
      FramesCounted(raises, cpf, k);
    }
    out := map[];
    NonePlaced(raises, cpf);
    var frame: nat := 0;
    var k := 0;
    while k < |raises|
      invariant 0 <= k <= |raises| && frame == (if k == 0 then 0 else FrameAt(raises, cpf, k - 1))
      invariant Places(raises, cpf, out, k)
    {
      if k > 0 {
        frame := frame + Step(cpf, raises[k] - raises[k - 1]);
      }
      PlacedOne(raises, cpf, out, k);
      out := out[raises[k] := frame];
      k := k + 1;
    }
    AllPlaced(raises, cpf, out);
  }

  lemma NonePlaced(raises: seq<int>, cpf: Option<int>)
    requires Cadence(cpf)
    ensures Places(raises, cpf, map[], 0)
  {
  }

  lemma PlacedOne(raises: seq<int>, cpf: Option<int>, out: map<int, nat>, k: nat)
    requires Cadence(cpf) && k < |raises| && Places(raises, cpf, out, k)
    ensures Places(raises, cpf, out[raises[k] := FrameAt(raises, cpf, k)], k + 1)
  {
    hide FrameAt;
    assert forall c :: LastIn(raises, k + 1, c) == if raises[k] == c then k else LastIn(raises, k, c);
  }

  lemma AllPlaced(raises: seq<int>, cpf: Option<int>, out: map<int, nat>)
    requires Cadence(cpf) && Places(raises, cpf, out, |raises|)
    ensures forall k {:trigger raises[k]} :: 0 <= k < |raises| ==> raises[k] in out
  {
    hide FrameAt;
  }

  /** `bisect_right` between two places. */
  function Bisect(raises: seq<int>, cycle: int, lo: nat, hi: nat): (n: nat)
    requires lo <= hi <= |raises|
    ensures lo <= n <= hi
    decreases hi - lo
  {
    if lo == hi then lo
    else
      var mid := (lo + hi) / 2;
      if cycle < raises[mid] then Bisect(raises, cycle, lo, mid) else Bisect(raises, cycle, mid + 1, hi)
  }

  /** Where a cycle comes among the raises: after those at or before it, if they are in order. */
  function UpTo(raises: seq<int>, cycle: int): (n: nat)
    ensures n <= |raises|
  {
    Bisect(raises, cycle, 0, |raises|)
  }

  lemma {:induction false} BisectSplits(raises: seq<int>, cycle: int, lo: nat, hi: nat, k: nat)
    requires Ascending(raises) && lo <= k < hi <= |raises|
    ensures raises[k] <= cycle <==> k < Bisect(raises, cycle, lo, hi)
    decreases hi - lo
  {
    var mid := (lo + hi) / 2;
    if cycle < raises[mid] {
      if k < mid {
        BisectSplits(raises, cycle, lo, mid, k);
      }
    } else if k > mid {
      BisectSplits(raises, cycle, mid + 1, hi, k);
    }
  }

  lemma UpToSplits(raises: seq<int>, cycle: int, k: nat)
    requires Ascending(raises) && k < |raises|
    ensures raises[k] <= cycle <==> k < UpTo(raises, cycle)
  {
    BisectSplits(raises, cycle, 0, |raises|, k);
  }

  /** The frame of a cycle: that of the raise it is placed after, and of the last in that raise's cycle. */
  function FrameOfCycle(raises: seq<int>, cpf: Option<int>, cycle: int): int
    requires Cadence(cpf)
  {
    var n := UpTo(raises, cycle);
    if n == 0 then -1 else FrameAt(raises, cpf, LastIn(raises, |raises|, raises[n - 1]))
  }

  /** Raises in order leave none in the same cycle after that raise. */
  lemma FrameAscending(raises: seq<int>, cpf: Option<int>, cycle: int)
    requires Cadence(cpf) && Ascending(raises)
    ensures FrameOfCycle(raises, cpf, cycle) ==
      var n := UpTo(raises, cycle);
      if n == 0 then -1 else FrameAt(raises, cpf, n - 1)
  {
    hide FrameAt, UpTo;
    var n := UpTo(raises, cycle);
    if n > 0 {
      var last := LastIn(raises, |raises|, raises[n - 1]);
      UpToSplits(raises, cycle, n - 1);
      UpToSplits(raises, cycle, last);
    }
  }

  /** The next raise after frame `f`: the first that opens a later frame. */
  ghost predicate NextRaise(raises: seq<int>, cpf: Option<int>, f: nat, next: Option<int>)
    requires Cadence(cpf)
  {
    match next
    case None => raises == [] || FrameAt(raises, cpf, |raises| - 1) <= f
    case Some(c) =>
      exists k: nat :: 0 < k < |raises| && c == raises[k] && FrameAt(raises, cpf, k - 1) <= f < FrameAt(raises, cpf, k)
  }

  /** A write is framed at or before `f` exactly when it comes before the next raise after `f`. */
  lemma FramedByNextRaise(raises: seq<int>, cpf: Option<int>, f: nat, next: Option<int>, cycle: int)
    requires Cadence(cpf) && Ascending(raises) && raises != [] && NextRaise(raises, cpf, f, next)
    ensures FrameOfCycle(raises, cpf, cycle) <= f <==> (next.Some? ==> cycle < next.value)
  {
    hide FrameAt, UpTo, FrameOfCycle;
    FrameAscending(raises, cpf, cycle);
    var n := UpTo(raises, cycle);
    match next
    case None =>
      if n > 0 {
        FramesGrow(raises, cpf, n - 1, |raises| - 1);
      }
    case Some(c) =>
      var k: nat :| 0 < k < |raises| && c == raises[k] && FrameAt(raises, cpf, k - 1) <= f < FrameAt(raises, cpf, k);
      UpToSplits(raises, cycle, k);
      if n > k {
        FramesGrow(raises, cpf, k, n - 1);
      } else if n > 0 {
        FramesGrow(raises, cpf, n - 1, k - 1);
      }
  }

  // ----- the whole trace at once

  /** The chip's writes, each in its frame. */
  function FramedWrites(log: seq<Entry>, chip: int, raises: seq<int>, cpf: Option<int>): seq<Write>
    requires Cadence(cpf)
  {
    if log == [] then []
    else
      var rest, last := FramedWrites(log[..|log| - 1], chip, raises, cpf), log[|log| - 1];
      if last.Logged? && last.chip == chip
      then rest + [Write(FrameOfCycle(raises, cpf, last.cycle), last.reg, last.val)] else rest
  }

  lemma {:induction false} FramedLast(log: seq<Entry>, chip: int, raises: seq<int>, cpf: Option<int>, f: nat,
      next: Option<int>, reg: int)
    requires Cadence(cpf) && Ascending(raises) && raises != [] && NextRaise(raises, cpf, f, next)
    ensures LastBy(FramedWrites(log, chip, raises, cpf), reg, f) == StoredBefore(log, chip, reg, next)
  {
    if log != [] {
      var rest, last := log[..|log| - 1], log[|log| - 1];
      FramedLast(rest, chip, raises, cpf, f, next, reg);
      FramedByNextRaise(raises, cpf, f, next, last.cycle);
      hide NextRaise, FrameOfCycle;
      LastByAppend(FramedWrites(rest, chip, raises, cpf), Write(FrameOfCycle(raises, cpf, last.cycle),
                   if last.Logged? then last.reg else 0, if last.Logged? then last.val else 0), reg, f);
    }
  }

  lemma {:induction false} FramedInOrder(log: seq<Entry>, chip: int, raises: seq<int>, cpf: Option<int>, top: int)
    requires Cadence(cpf) && Ascending(raises) && CycleOrdered(log)
    requires forall k {:trigger log[k]} :: 0 <= k < |log| ==> log[k].cycle <= top
    ensures var framed := FramedWrites(log, chip, raises, cpf);
      && Ordered(framed)
      && forall k {:trigger framed[k]} :: 0 <= k < |framed| ==> framed[k].at <= FrameOfCycle(raises, cpf, top)
  {
    if log != [] {
      var last := log[|log| - 1];
      FramedInOrder(log[..|log| - 1], chip, raises, cpf, last.cycle);
      FrameOfCycleGrows(raises, cpf, last.cycle, top);
    }
  }

  lemma FrameOfCycleGrows(raises: seq<int>, cpf: Option<int>, a: int, b: int)
    requires Cadence(cpf) && Ascending(raises) && a <= b
    ensures FrameOfCycle(raises, cpf, a) <= FrameOfCycle(raises, cpf, b)
  {
    hide FrameAt, UpTo, FrameOfCycle;
    FrameAscending(raises, cpf, a);
    FrameAscending(raises, cpf, b);
    var m, n := UpTo(raises, a), UpTo(raises, b);
    if m > 0 {
      UpToSplits(raises, a, m - 1);
      UpToSplits(raises, b, m - 1);
      FramesGrow(raises, cpf, m - 1, n - 1);
    }
  }

  lemma {:induction false} RaisesAscend(log: seq<Entry>, source: string, top: int)
    requires CycleOrdered(log) && forall k {:trigger log[k]} :: 0 <= k < |log| ==> log[k].cycle <= top
    ensures Ascending(Raises(log, source))
    ensures forall k {:trigger Raises(log, source)[k]} ::
        0 <= k < |Raises(log, source)| ==> Raises(log, source)[k] <= top
  {
    if log != [] {
      RaisesAscend(log[..|log| - 1], source, log[|log| - 1].cycle);
    }
  }

  /** Row `f`, the last row going on, is every register's last write before the next raise after it. */
  ghost predicate IsBatch(grid: seq<seq<int>>, log: seq<Entry>, chip: int, source: string, cpf: Option<int>)
    requires Cadence(cpf) && grid != []
  {
    forall f: nat, next: Option<int> ::
      NextRaise(Raises(log, source), cpf, f, next) ==> Filled(grid, f) == StateBefore(log, chip, next)
  }

  function FrameKey(w: Write): int {
    w.at
  }

  /** Python's stable sort by frame. */
  function SortByFrame(framed: seq<Write>): seq<Write> {
    Sorting.Sort(framed, FrameKey)
  }

  /** Sorting by frame orders the writes and keeps each frame's in their order; it does nothing to
      writes in frame order. */
  lemma SortsByFrame(framed: seq<Write>)
    ensures Ordered(SortByFrame(framed)) && (Ordered(framed) ==> SortByFrame(framed) == framed)
    ensures forall f :: Sorting.WithKey(SortByFrame(framed), FrameKey, f) == Sorting.WithKey(framed, FrameKey, f)
  {
    forall f ensures Sorting.WithKey(SortByFrame(framed), FrameKey, f) == Sorting.WithKey(framed, FrameKey, f) {
      Sorting.SortIsStable(framed, FrameKey, f);
    }
    OrderedIsSorted(framed);
    Sorting.SortIsStable(framed, FrameKey, 0);
    OrderedIsSorted(SortByFrame(framed));
    if Ordered(framed) {
      Sorting.SortedStay(framed, FrameKey);
    }
  }

  lemma OrderedIsSorted(framed: seq<Write>)
    ensures Ordered(framed) <==> Sorting.Sorted(framed, FrameKey)
  {
  }

  /** The batch grid: the chip's writes framed by the raises and sorted by frame. In a log in cycle order
      row `f` is every register's last write before the next raise after frame `f`. None without a raise
      to frame by. */
  method SidtraceGrid(log: seq<Entry>, chip: int, source: string, cpf: Option<int>)
        returns (grid: Option<seq<seq<int>>>)
    requires Cadence(cpf)
    ensures grid.None? <==> Raises(log, source) == []
    ensures grid.Some? ==>
              && grid.value != []
              && IsGrid(grid.value, SortByFrame(FramedWrites(log, chip, Raises(log, source), cpf)), REGS)
    ensures grid.Some? && CycleOrdered(log) ==> IsBatch(grid.value, log, chip, source, cpf)
  {
    hide NextRaise, FrameOfCycle, FrameAt, IsGrid, IsBatch, SortByFrame, CycleOrdered, FramedWrites, Places, Counted;
    var raises := Raises(log, source);
    if raises == [] {
      return None;
    }
    var frames := RaiseFrames(raises, cpf);
    var framed: seq<Write> := [];
    var k := 0;
    NoneFramed(chip, raises, cpf);
    while k < |log|
      invariant 0 <= k <= |log| && framed == FramedWrites(log[..k], chip, raises, cpf)
    {
      FramedNext(log, k, chip, raises, cpf);
      var row := log[k];
      if row.Logged? && row.chip == chip {
        var n := UpTo(raises, row.cycle);
        FrameLookup(raises, cpf, row.cycle, frames);
        framed := framed + [Write(if n == 0 then -1 else frames[raises[n - 1]], row.reg, row.val)];
      }
      k := k + 1;
    }
    assert log[..k] == log;
    SortsByFrame(framed);
    var rows := FrameGrid(SortByFrame(framed), REGS);
    GridRows(rows, SortByFrame(framed));
    OrderedBatch(rows, log, chip, source, cpf);
    grid := Some(rows);
  }

  lemma NoneFramed(chip: int, raises: seq<int>, cpf: Option<int>)
    requires Cadence(cpf)
    ensures FramedWrites([], chip, raises, cpf) == []
  {
  }

  lemma FramedNext(log: seq<Entry>, k: nat, chip: int, raises: seq<int>, cpf: Option<int>)
    requires Cadence(cpf) && k < |log|
    ensures FramedWrites(log[..k + 1], chip, raises, cpf) == FramedWrites(log[..k], chip, raises, cpf)
      + if log[k].Logged? && log[k].chip == chip
        then [Write(FrameOfCycle(raises, cpf, log[k].cycle), log[k].reg, log[k].val)] else []
  {
    assert log[..k + 1][..k] == log[..k];
    hide FrameOfCycle;
  }

  lemma GridRows(rows: seq<seq<int>>, framed: seq<Write>)
    requires IsGrid(rows, framed, REGS)
    ensures rows != []
  {
  }

  lemma OrderedBatch(rows: seq<seq<int>>, log: seq<Entry>, chip: int, source: string, cpf: Option<int>)
    requires Cadence(cpf) && Raises(log, source) != [] && rows != []
    requires IsGrid(rows, SortByFrame(FramedWrites(log, chip, Raises(log, source), cpf)), REGS)
    ensures CycleOrdered(log) ==> IsBatch(rows, log, chip, source, cpf)
  {
    hide NextRaise, FrameOfCycle, FrameAt, SortByFrame, StoredBefore;
    var raises := Raises(log, source);
    var framed := FramedWrites(log, chip, raises, cpf);
    if CycleOrdered(log) {
      var top := if log == [] then 0 else log[|log| - 1].cycle;
      RaisesAscend(log, source, top);
      FramedInOrder(log, chip, raises, cpf, top);
      SortsByFrame(framed);
      forall f: nat, next: Option<int> | NextRaise(raises, cpf, f, next)
        ensures Filled(rows, f) == StateBefore(log, chip, next)
      {
        BatchRow(log, chip, raises, cpf, f, next);
      }
    }
  }

  lemma BatchRow(log: seq<Entry>, chip: int, raises: seq<int>, cpf: Option<int>, f: nat, next: Option<int>)
    requires Cadence(cpf) && Ascending(raises) && raises != [] && NextRaise(raises, cpf, f, next)
    ensures Row(FramedWrites(log, chip, raises, cpf), REGS, f) == StateBefore(log, chip, next)
  {
    hide NextRaise, FrameAt, StoredBefore, FramedWrites;
    var row := Row(FramedWrites(log, chip, raises, cpf), REGS, f);
    forall r {:trigger row[r]} | 0 <= r < REGS ensures row[r] == StateBefore(log, chip, next)[r] {
      FramedLast(log, chip, raises, cpf, f, next, r);
    }
  }

  lemma FrameLookup(raises: seq<int>, cpf: Option<int>, cycle: int, frames: map<int, nat>)
    requires Cadence(cpf) && Places(raises, cpf, frames, |raises|)
    ensures UpTo(raises, cycle) > 0 ==> raises[UpTo(raises, cycle) - 1] in frames
    ensures FrameOfCycle(raises, cpf, cycle) ==
      var n := UpTo(raises, cycle);
      if n == 0 then -1 else if raises[n - 1] in frames then frames[raises[n - 1]] else -1
  {
    hide FrameAt, UpTo;
  }

  // ----- merging what the devices logged

  function CycleKey(e: Entry): int {
    e.cycle
  }

  /** The rows of one cycle, in their order. */
  function AtCycle(rows: seq<Entry>, c: int): seq<Entry> {
    Sorting.WithKey(rows, CycleKey, c)
  }

  /** Python's stable sort by cycle. */
  function SortByCycle(rows: seq<Entry>): seq<Entry> {
    Sorting.Sort(rows, CycleKey)
  }

  /** Sorting puts the rows in cycle order and keeps the order of those of one cycle. */
  lemma SortIsStable(rows: seq<Entry>, c: int)
    ensures CycleOrdered(SortByCycle(rows)) && AtCycle(SortByCycle(rows), c) == AtCycle(rows, c)
  {
    Sorting.SortIsStable(rows, CycleKey, c);
    CycleIsSorted(SortByCycle(rows));
  }

  lemma CycleIsSorted(rows: seq<Entry>)
    ensures CycleOrdered(rows) <==> Sorting.Sorted(rows, CycleKey)
  {
  }

  function Concat(streams: seq<seq<Entry>>): seq<Entry> {
    if streams == [] then [] else Concat(streams[..|streams| - 1]) + streams[|streams| - 1]
  }

  function NonEmpty(streams: seq<seq<Entry>>): (some: seq<seq<Entry>>)
    ensures Concat(some) == Concat(streams)
    ensures forall s :: s in some ==> s in streams
  {
    if streams == [] then []
    else
      var rest, last := NonEmpty(streams[..|streams| - 1]), streams[|streams| - 1];
      if last == [] then
        assert Concat(streams) == Concat(rest) + [] == Concat(rest);
        rest
      else
        assert (rest + [last])[..|rest|] == rest;
        rest + [last]
  }

  /** The same rows, in each cycle in the same order. */
  ghost predicate SameByCycle(a: seq<Entry>, b: seq<Entry>) {
    forall c :: AtCycle(a, c) == AtCycle(b, c)
  }

  lemma SortSame(rows: seq<Entry>)
    ensures CycleOrdered(SortByCycle(rows)) && SameByCycle(SortByCycle(rows), rows)
  {
    hide AtCycle, SortByCycle, CycleOrdered;
    SortIsStable(rows, 0);
    forall c ensures AtCycle(SortByCycle(rows), c) == AtCycle(rows, c) {
      SortIsStable(rows, c);
    }
  }

  lemma OrderedConcat(a: seq<Entry>, b: seq<Entry>)
    requires CycleOrdered(a) && CycleOrdered(b)
    requires forall i, j :: 0 <= i < |a| && 0 <= j < |b| ==> a[i].cycle <= b[j].cycle
    ensures CycleOrdered(a + b)
  {
  }

  /** `_sync`: what the chips and the event sink logged since the last sync, in cycle order, ties as the
      streams come: the chips first, so that a raise follows the write in its cycle. */
  method Sync(raw: seq<Entry>, chips: seq<seq<Entry>>, events: seq<Entry>)
    returns (after: seq<Entry>, ghost more: seq<Entry>)
    requires CycleOrdered(events) && forall s :: s in chips ==> CycleOrdered(s)
    ensures after == raw + more && CycleOrdered(more) && SameByCycle(more, Concat(chips) + events)
    ensures CycleOrdered(raw) && (forall i, j :: 0 <= i < |raw| && 0 <= j < |more| ==> raw[i].cycle <= more[j].cycle)
            ==> CycleOrdered(after)
  {
    hide AtCycle, SortByCycle, CycleOrdered, Concat;
    var streams := NonEmpty(chips + [events]);
    ConcatAppend(chips, events);
    var synced: seq<Entry>;
    if |streams| > 1 {
      synced := SortByCycle(Concat(streams));
      SortSame(Concat(streams));
    } else if |streams| == 1 {
      OneStream(streams);
      assert streams[0] in streams;
      synced := streams[0];
    } else {
      NoStream();
      synced := [];
    }
    after, more := raw + synced, synced;
    if CycleOrdered(raw) && forall i, j :: 0 <= i < |raw| && 0 <= j < |more| ==> raw[i].cycle <= more[j].cycle {
      OrderedConcat(raw, more);
    }
  }

  lemma NoStream()
    ensures Concat([]) == [] && CycleOrdered([])
  {
  }

  lemma ConcatAppend(streams: seq<seq<Entry>>, s: seq<Entry>)
    ensures Concat(streams + [s]) == Concat(streams) + s
  {
    assert (streams + [s])[..|streams|] == streams;
  }

  lemma OneStream(streams: seq<seq<Entry>>)
    requires |streams| == 1
    ensures Concat(streams) == streams[0]
  {
    assert streams[..0] == [];
    assert Concat(streams) == Concat(streams[..0]) + streams[0];
  }

  // ----- row by row, while the machine runs

  /** The machine: what it will log, what it has logged, its clock. A run may go on past the cycles
      asked for, but what it has not logged yet lies at or after its clock. */
  class Host {
    const log: seq<Entry>
    var raw: seq<Entry>
    var cycle: int
    var jammed: bool

    ghost predicate Valid()
      reads this
    {
      && CycleOrdered(log) && raw <= log
      && (forall j {:trigger log[j]} :: |raw| <= j < |log| ==> log[j].cycle >= cycle)
      && (jammed ==> raw == log)
    }

    constructor (log: seq<Entry>, cycle: int)
      requires CycleOrdered(log) && forall j {:trigger log[j]} :: 0 <= j < |log| ==> log[j].cycle >= cycle
      ensures Valid() && this.log == log && raw == [] && !(jammed && log != []) && this.cycle == cycle
    {
      this.log, raw, this.cycle, jammed := log, [], cycle, false;
    }

    method Run(cycles: int)
      requires Valid()
      modifies this
      ensures Valid() && old(raw) <= raw
      ensures jammed || (!old(jammed) && cycle >= old(cycle) + cycles)
    {
      if !jammed {
        var later :| later >= cycle + cycles;
        assert |raw| <= |log| <= |log|;
        var n :| |raw| <= n <= |log| && forall j {:trigger log[j]} :: n <= j < |log| ==> log[j].cycle >= later;
        raw, cycle := log[..n], later;
        var dead: bool :| dead ==> n == |log|;
        jammed := dead;
      }
    }
  }

  lemma {:induction false} RaisesPrefix(log: seq<Entry>, source: string, n: nat)
    requires n <= |log|
    ensures Raises(log[..n], source) <= Raises(log, source)
  {
    if n < |log| {
      RaisesPrefix(log[..|log| - 1], source, n);
      assert log[..|log| - 1][..n] == log[..n];
    } else {
      assert log[..n] == log;
    }
  }

  /** The raises not yet among the first `n` rows come at or after every cycle those leave out. */
  lemma {:induction false} RaiseBeyond(log: seq<Entry>, source: string, n: nat, k: nat, cycle: int)
    requires n <= |log| && |Raises(log[..n], source)| <= k < |Raises(log, source)|
    requires forall j {:trigger log[j]} :: n <= j < |log| ==> log[j].cycle >= cycle
    ensures n < |log| && Raises(log, source)[k] >= cycle
  {
    assert log[..|log|] == log;
    if n < |log| {
      var rest := log[..|log| - 1];
      assert rest[..n] == log[..n];
      if k < |Raises(rest, source)| {
        RaiseBeyond(rest, source, n, k, cycle);
      }
    }
  }

  lemma RaisesNext(log: seq<Entry>, source: string, n: nat)
    requires n < |log|
    ensures Raises(log[..n + 1], source) ==
      Raises(log[..n], source) + (if IsRaise(log[n], source) then [log[n].cycle] else [])
  {
    assert log[..n + 1][..n] == log[..n];
  }

  lemma {:induction false} StateIsPrefix(log: seq<Entry>, chip: int, reg: int, cycle: int, pos: nat)
    requires pos <= |log|
    requires forall j {:trigger log[j]} :: 0 <= j < |log| ==> (log[j].cycle < cycle <==> j < pos)
    ensures StoredBefore(log, chip, reg, Some(cycle)) == StoredBefore(log[..pos], chip, reg, None)
  {
    if log != [] {
      var rest := log[..|log| - 1];
      if pos == |log| {
        StateIsPrefix(rest, chip, reg, cycle, pos - 1);
        assert log[..pos] == log && rest[..pos - 1] == rest;
      } else {
        StateIsPrefix(rest, chip, reg, cycle, pos);
        assert rest[..pos] == log[..pos];
      }
    }
  }

  lemma StateNext(log: seq<Entry>, chip: int, pos: nat)
    requires pos < |log|
    ensures var e, state := log[pos], StateBefore(log[..pos], chip, None);
      StateBefore(log[..pos + 1], chip, None) ==
        if e.Logged? && e.chip == chip && e.reg < REGS then state[e.reg := Masked(e.reg, e.val)] else state
  {
    assert log[..pos + 1][..pos] == log[..pos];
    var next := StateBefore(log[..pos + 1], chip, None);
    forall r {:trigger next[r]} | 0 <= r < REGS ensures next[r] ==
        if Writes(log[pos], chip, r) then Masked(r, log[pos].val) else StoredBefore(log[..pos], chip, r, None)
    {
    }
  }

  function Copies<T>(x: T, n: nat): (r: seq<T>)
    ensures |r| == n && forall i {:trigger r[i]} :: 0 <= i < n ==> r[i] == x
  {
    seq(n, _ => x)
  }

  function Last<T>(s: seq<T>): Option<T> {
    if s == [] then None else Some(s[|s| - 1])
  }

  /** From row `from` up to row `scan` no raise was met or, ending the scan, one. */
  ghost predicate Scanned(log: seq<Entry>, source: string, from: nat, scan: nat, raiseAt: Option<int>)
    requires scan <= |log|
  {
    && from <= scan
    && match raiseAt
       case None => Raises(log[..scan], source) == Raises(log[..from], source)
       case Some(c) =>
         && scan > from && log[scan - 1].cycle == c
         && Raises(log[..scan], source) == Raises(log[..from], source) + [c]
  }

  lemma ScannedOn(log: seq<Entry>, source: string, from: nat, mid: nat, scan: nat, raiseAt: Option<int>)
    requires mid <= |log| && scan <= |log|
    requires Scanned(log, source, from, mid, None) && Scanned(log, source, mid, scan, raiseAt)
    ensures Scanned(log, source, from, scan, raiseAt)
  {
  }

  /** The generator's state between two rows. */
  class Framer {
    const host: Host
    const chip: int
    const source: string
    const cpf: int
    var pos: nat
    var scan: nat
    var waited: nat
    var prev: Option<int>
    var state: seq<int>

    ghost predicate Core()
      reads this, host
    {
      && host.Valid() && cpf > 0 && pos <= scan <= |host.raw|
      && state == StateBefore(host.log[..pos], chip, None)
    }

    ghost predicate Valid()
      reads this, host
    {
      Core() && prev == Last(Raises(host.log[..scan], source))
    }

    /** The raises met so far. */
    ghost function Seen(): (k: nat)
      reads this, host
      requires Core()
    {
      |Raises(host.log[..scan], source)|
    }

    /** Nothing past the last raise has been applied. */
    ghost predicate Settled()
      reads this, host
      requires Core()
    {
      pos == 0 || (prev.Some? && host.log[pos - 1].cycle < prev.value)
    }

    constructor (host: Host, chip: int, source: string, cpf: int)
      requires host.Valid() && cpf > 0
      ensures Valid() && Settled() && Seen() == 0 && prev == None && waited == 0
      ensures this.host == host && this.chip == chip && this.source == source && this.cpf == cpf
    {
      this.host, this.chip, this.source, this.cpf := host, chip, source, cpf;
      pos, scan, waited, prev := 0, 0, 0, None;
      state := Copies(0, REGS);
      new;
      var start := StateBefore(host.log[..0], chip, None);
      forall r {:trigger start[r]} | 0 <= r < REGS ensures start[r] == 0 {
      }
    }

    /** Apply the rows logged before `until`. */
    method Apply(until: int)
      requires Core()
      modifies this`pos, this`state
      ensures old(pos) <= pos <= |host.raw| && state == StateBefore(host.log[..pos], chip, None)
      ensures forall j {:trigger host.log[j]} :: old(pos) <= j < pos ==> host.log[j].cycle < until
      ensures pos < |host.raw| ==> host.log[pos].cycle >= until
    {
      while pos < |host.raw| && host.raw[pos].cycle < until
        invariant old(pos) <= pos <= |host.raw| && state == StateBefore(host.log[..pos], chip, None)
        invariant forall j {:trigger host.log[j]} :: old(pos) <= j < pos ==> host.log[j].cycle < until
      {
        var row := host.raw[pos];
        StateNext(host.log, chip, pos);
        if row.Logged? && row.chip == chip && row.reg < REGS {
          state := state[row.reg := Masked(row.reg, row.val)];
        }
        pos := pos + 1;
      }
    }

    /** Scan what is logged for the next raise. */
    method Scan() returns (raiseAt: Option<int>)
      requires Core()
      modifies this`scan
      ensures Core() && Scanned(host.log, source, old(scan), scan, raiseAt)
      ensures raiseAt.None? ==> scan == |host.raw|
    {
      raiseAt := None;
      while scan < |host.raw| && raiseAt.None?
        invariant Core() && Scanned(host.log, source, old(scan), scan, raiseAt)
        decreases |host.raw| - scan
      {
        RaisesNext(host.log, source, scan);
        if IsRaise(host.raw[scan], source) {
          raiseAt := Some(host.raw[scan].cycle);
        }
        scan := scan + 1;
      }
    }

    /** The row before a raise just met, once for every frame since the last raise; only the machine's
        rows before it are applied, and no row before it is still to come. */
    method TakeRaise(raiseAt: int) returns (rows: seq<seq<int>>)
      requires Core() && pos < scan && host.log[scan - 1].cycle == raiseAt
      requires Settled() ==> prev.None? || prev.value <= raiseAt
      modifies this`pos, this`state, this`prev, this`waited, host
      ensures Core() && prev == Some(raiseAt) && waited == 0
      ensures host.jammed || host.cycle > raiseAt
      ensures old(Settled()) ==>
        && Settled()
        && rows == (if old(prev).None? then []
                    else Copies(StateBefore(host.log, chip, Some(raiseAt)), Step(Some(cpf), raiseAt - old(prev).value)))
      ensures if old(prev).None? then rows == [] else Counted(Some(cpf), raiseAt - old(prev).value, |rows|)
    {
      hide StateBefore, Step, StoredBefore, Counted;
      if prev.Some? {
        StepCounts(Some(cpf), raiseAt - prev.value);
      }
      if host.cycle <= raiseAt {
        host.Run(raiseAt + 1 - host.cycle);
      }
      ghost var settled := pos == 0 || (prev.Some? && host.log[pos - 1].cycle < prev.value);
      Apply(raiseAt);
      if settled {
        StateAtRaise(host.log, chip, raiseAt, pos);
      }
      rows := if prev.None? then [] else Copies(state, Step(Some(cpf), raiseAt - prev.value));
      prev, waited := Some(raiseAt), 0;
    }

    /** Run on, `cpf` cycles a wait, until a raise is logged, the machine halts or 51 waits are over. */
    method Await() returns (raiseAt: Option<int>)
      requires Core()
      modifies this`scan, this`waited, host
      ensures Core() && Scanned(host.log, source, old(scan), scan, raiseAt)
      ensures raiseAt.None? ==>
        && scan == |host.raw| && (host.jammed || waited > 50)
        && (old(waited) == 0 ==> host.jammed || host.cycle >= old(host.cycle) + 51 * cpf)
      ensures old(host.jammed) ==> host.jammed
    {
      hide StateBefore, Raises, CycleOrdered, Scanned;
      raiseAt := Scan();
      while raiseAt.None? && !host.jammed && waited <= 50
        invariant Core() && Scanned(host.log, source, old(scan), scan, raiseAt) &&
            (raiseAt.None? ==> scan == |host.raw|)
        invariant old(host.jammed) ==> host.jammed
        invariant old(waited) == 0 ==> waited <= 51 && (host.jammed || host.cycle >= old(host.cycle) + waited * cpf)
        decreases 51 - waited
      {
        ghost var mid := scan;
        host.Run(cpf);
        assert (waited + 1) * cpf == waited * cpf + cpf;
        waited := waited + 1;
        raiseAt := Scan();
        ScannedOn(host.log, source, old(scan), mid, scan, raiseAt);
      }
    }

    /** The row as it stands, no raise in sight. */
    method Idle() returns (rows: seq<seq<int>>)
      requires Valid() && scan == |host.raw|
      modifies this`pos, this`state, host
      ensures Valid() && rows == [StateBefore(host.log[..pos], chip, None)]
    {
      Apply(host.cycle + 1);
      rows := [state];
      host.Run(cpf);
    }

    /** Run on to the next raise and yield the row before it; or, after 51 waits or a halt, the row as
        it stands. */
    method Resume() returns (rows: seq<seq<int>>, raised: bool)
      requires Valid()
      modifies this, host
      ensures Valid()
      ensures raised ==> waited == 0 && Seen() == old(Seen()) + 1 <= |Raises(host.log, source)|
      ensures raised ==> prev == Some(Raises(host.log, source)[old(Seen())]) && (host.jammed || host.cycle > prev.value)
      ensures raised && old(Settled()) ==>
        && Settled()
        && rows == (if old(prev).None? then []
                    else Copies(StateBefore(host.log, chip, prev), Step(Some(cpf), prev.value - old(prev).value)))
      ensures raised ==>
        && prev.Some?
        && (if old(prev).None? then rows == [] else Counted(Some(cpf), prev.value - old(prev).value, |rows|))
      ensures (old(waited) == 0 && old(Seen()) < |Raises(host.log, source)|
               && (old(host.jammed) || Raises(host.log, source)[old(Seen())] < old(host.cycle) + 51 * cpf))
              ==> raised
      ensures !raised ==> rows == [StateBefore(host.log[..pos], chip, None)]
    {
      hide StateBefore, Step, Raises, CycleOrdered, Counted;
      ghost var from, cycle := scan, host.cycle;
      var raiseAt := Await();
      if raiseAt.Some? {
        FoundRaise(host.log, source, from, scan, raiseAt.value);
        rows := TakeRaise(raiseAt.value);
        raised := true;
      } else {
        NoRaise(host.log, source, from, scan, host.cycle);
        assert host.jammed ==> scan == |host.log|;
        rows := Idle();
        raised := false;
      }
    }
  }

  /** The source goes on raising, never 51 waits apart, for `m` raises. */
  ghost predicate KeepsRaising(raises: seq<int>, cycle: int, cpf: int, m: nat) {
    && 0 < m <= |raises| && raises[0] < cycle + 51 * cpf
    && forall k {:trigger raises[k]} :: 0 < k < m ==> raises[k] <= raises[k - 1] + 51 * cpf
  }

  /** The rows before raise `m - 1`'s frame, each register's last write before the next raise. */
  ghost predicate IsStream(rows: seq<seq<int>>, log: seq<Entry>, chip: int, source: string, cpf: int, m: nat)
    requires cpf > 0 && 0 < m <= |Raises(log, source)|
  {
    && |rows| == FrameAt(Raises(log, source), Some(cpf), m - 1)
    && forall f: nat, next: Option<int> {:trigger NextRaise(Raises(log, source), Some(cpf), f, next)} ::
         f < |rows| && NextRaise(Raises(log, source), Some(cpf), f, next) ==> rows[f] == StateBefore(log, chip, next)
  }

  /** A reader of the generator, up to its `m`-th raise. */
  method Frames(framer: Framer, m: nat) returns (rows: seq<seq<int>>)
    requires framer.Valid() && framer.Settled() && framer.Seen() == 0 && framer.waited == 0
    requires KeepsRaising(Raises(framer.host.log, framer.source), framer.host.cycle, framer.cpf, m)
    modifies framer, framer.host
    ensures IsStream(rows, framer.host.log, framer.chip, framer.source, framer.cpf, m)
  {
    hide StateBefore, Step, Raises, NextRaise, FrameAt;
    ghost var raises := Raises(framer.host.log, framer.source);
    rows := [];
    var k := 0;
    while k < m
      invariant k <= m && framer.Valid() && framer.Settled() && framer.Seen() == k && framer.waited == 0
      invariant framer.prev == (if k == 0 then None else Some(raises[k - 1]))
      invariant k < m ==> framer.host.jammed || raises[k] < framer.host.cycle + 51 * framer.cpf
      invariant if k == 0 then rows == []
                else IsStream(rows, framer.host.log, framer.chip, framer.source, framer.cpf, k)
    {
      var more, raised := framer.Resume();
      assert raised;
      StreamOn(rows, more, framer.host.log, framer.chip, framer.source, framer.cpf, k);
      rows := rows + more;
      k := k + 1;
    }
  }

  lemma StreamOn(rows: seq<seq<int>>, more: seq<seq<int>>, log: seq<Entry>, chip: int, source: string, cpf: int, k: nat)
    requires cpf > 0 && k < |Raises(log, source)|
    requires if k == 0 then rows == [] && more == [] else
      && IsStream(rows, log, chip, source, cpf, k)
      && var raises := Raises(log, source);
         more == Copies(StateBefore(log, chip, Some(raises[k])), Step(Some(cpf), raises[k] - raises[k - 1]))
    ensures IsStream(rows + more, log, chip, source, cpf, k + 1)
  {
    hide StateBefore, Step, Raises;
    if k > 0 {
      var raises := Raises(log, source);
      forall f: nat, next: Option<int> | f < |rows + more| && NextRaise(raises, Some(cpf), f, next)
        ensures (rows + more)[f] == StateBefore(log, chip, next)
      {
        if f >= |rows| {
          NextRaiseIs(raises, Some(cpf), f, k, next);
        }
      }
    }
  }

  lemma NextRaiseIs(raises: seq<int>, cpf: Option<int>, f: nat, k: nat, next: Option<int>)
    requires Cadence(cpf) && 0 < k < |raises| && FrameAt(raises, cpf, k - 1) <= f < FrameAt(raises, cpf, k)
    requires NextRaise(raises, cpf, f, next)
    ensures next == Some(raises[k])
  {
    hide FrameAt;
    match next
    case None =>
      FramesGrow(raises, cpf, k, |raises| - 1);
    case Some(c) =>
      var j: nat :| 0 < j < |raises| && c == raises[j] && FrameAt(raises, cpf, j - 1) <= f < FrameAt(raises, cpf, j);
      if j < k {
        FramesGrow(raises, cpf, j, k - 1);
      } else if k < j {
        FramesGrow(raises, cpf, k, j - 1);
      }
  }

  lemma {:induction false} SomeNextRaise(raises: seq<int>, cpf: Option<int>, f: nat, k: nat) returns (next: Option<int>)
    requires Cadence(cpf) && k < |raises| && f < FrameAt(raises, cpf, k)
    ensures NextRaise(raises, cpf, f, next)
  {
    if FrameAt(raises, cpf, k - 1) <= f {
      next := Some(raises[k]);
    } else {
      next := SomeNextRaise(raises, cpf, f, k - 1);
    }
  }

  /** `sidtrace_calls`: the frames before the last raise, without a cadence one a raise. */
  function Calls(raises: seq<int>, cpf: Option<int>): nat
    requires Cadence(cpf)
  {
    if raises == [] then 0 else if cpf.Some? then FrameAt(raises, cpf, |raises| - 1) else |raises| - 1
  }

  lemma {:induction false} CallsPerRaise(raises: seq<int>, k: nat)
    requires k < |raises|
    ensures FrameAt(raises, None, k) == k
  {
    if k > 0 {
      CallsPerRaise(raises, k - 1);
    }
  }

  /** Whatever the cadence, the play calls covered are the frames before the last raise's. */
  lemma CallsAreFrames(raises: seq<int>, cpf: Option<int>)
    requires Cadence(cpf) && raises != []
    ensures Calls(raises, cpf) == FrameAt(raises, cpf, |raises| - 1)
  {
    CallsPerRaise(raises, |raises| - 1);
  }

  /** The rows streamed while the source keeps raising are the batch grid's, forward-filled, up to
      the last raise's frame. */
  lemma StreamIsBatch(rows: seq<seq<int>>, grid: seq<seq<int>>, log: seq<Entry>, chip: int, source: string,
      cpf: int, m: nat)
    requires cpf > 0 && 0 < m <= |Raises(log, source)| && IsStream(rows, log, chip, source, cpf, m)
    requires grid != [] && IsBatch(grid, log, chip, source, Some(cpf))
    ensures |rows| == FrameAt(Raises(log, source), Some(cpf), m - 1)
    ensures m == |Raises(log, source)| ==> |rows| == Calls(Raises(log, source), Some(cpf))
    ensures forall f :: 0 <= f < |rows| ==> rows[f] == Filled(grid, f)
  {
    forall f | 0 <= f < |rows| ensures rows[f] == Filled(grid, f) {
      var next := SomeNextRaise(Raises(log, source), Some(cpf), f, m - 1);
    }
  }

  lemma StateAtRaise(log: seq<Entry>, chip: int, cycle: int, pos: nat)
    requires pos <= |log|
    requires forall j {:trigger log[j]} :: 0 <= j < |log| ==> (log[j].cycle < cycle <==> j < pos)
    ensures StateBefore(log, chip, Some(cycle)) == StateBefore(log[..pos], chip, None)
  {
    forall r: nat | r < REGS
      ensures StateBefore(log, chip, Some(cycle))[r] == StateBefore(log[..pos], chip, None)[r]
    {
      StateIsPrefix(log, chip, r, cycle, pos);
    }
  }

  lemma FoundRaise(log: seq<Entry>, source: string, from: nat, scan: nat, cycle: int)
    requires CycleOrdered(log) && from <= scan <= |log| && Scanned(log, source, from, scan, Some(cycle))
    ensures var k := |Raises(log[..from], source)|;
      && |Raises(log[..scan], source)| == k + 1 <= |Raises(log, source)| && Raises(log, source)[k] == cycle
      && Last(Raises(log[..scan], source)) == Some(cycle)
    ensures var met := Last(Raises(log[..from], source)); met.Some? ==> met.value <= cycle
  {
    RaisesPrefix(log, source, scan);
    RaisesAscend(log[..scan], source, cycle);
    var all := Raises(log[..scan], source);
    if |all| > 1 {
      assert all[|all| - 2] <= all[|all| - 1];
    }
  }

  lemma NoRaise(log: seq<Entry>, source: string, from: nat, scan: nat, cycle: int)
    requires from <= scan <= |log| && Scanned(log, source, from, scan, None)
    requires forall j {:trigger log[j]} :: scan <= j < |log| ==> log[j].cycle >= cycle
    ensures Raises(log[..scan], source) == Raises(log[..from], source)
    ensures var k := |Raises(log[..from], source)|;
      k < |Raises(log, source)| ==> scan < |log| && Raises(log, source)[k] >= cycle
  {
    var k := |Raises(log[..scan], source)|;
    if k < |Raises(log, source)| {
      RaiseBeyond(log, source, scan, k, cycle);
    }
  }
}
