/** `gridcmp.write_grid` and `read_grid`: a register grid as the changes of its cells, and the runs of
    differing cells `gridcmp.runs` groups a comparison's cells into.
 */
module Gridfile {
  import opened Options
  import Sets

  const NREGS := 25

  type Grid = seq<seq<int>>

  predicate IsGrid(g: Grid) {
    forall f {:trigger g[f]} :: 0 <= f < |g| ==> |g[f]| == NREGS
  }

  /** A changed cell: frame, register, value. */
  datatype Change = Change(frame: nat, reg: nat, value: int)

  // ----- writing

  predicate Changed(g: Grid, f: nat, r: nat)
    requires IsGrid(g) && f < |g| && r < NREGS
  {
    f == 0 || g[f][r] != g[f - 1][r]
  }

  function RowChanges(g: Grid, f: nat, r: nat): seq<Change>
    requires IsGrid(g) && f < |g| && r <= NREGS
  {
    if r == 0 then []
    else RowChanges(g, f, r - 1) + if Changed(g, f, r - 1) then [Change(f, r - 1, g[f][r - 1])] else []
  }

  /** The changes of the first `n` rows, the whole first row among them, in row order. */
  function Changes(g: Grid, n: nat): seq<Change>
    requires IsGrid(g) && n <= |g|
  {
    if n == 0 then [] else Changes(g, n - 1) + RowChanges(g, n - 1, NREGS)
  }

  /** The last value a file gives a cell. */
  function ValueAt(file: seq<Change>, f: nat, r: nat): Option<int> {
    if file == [] then None
    else
      var last := file[|file| - 1];
      if last.frame == f && last.reg == r then Some(last.value) else ValueAt(file[..|file| - 1], f, r)
  }

  /** A cell as read back: its last value at or before its frame, 0 without one. */
  function Cell(file: seq<Change>, f: nat, r: nat): int {
    match ValueAt(file, f, r)
    case Some(v) => v
    case None => if f == 0 then 0 else Cell(file, f - 1, r)
  }

  lemma {:induction false} ValueAtConcat(a: seq<Change>, b: seq<Change>, f: nat, r: nat)
    ensures ValueAt(a + b, f, r) == if ValueAt(b, f, r).Some? then ValueAt(b, f, r) else ValueAt(a, f, r)
  {
    if b == [] {
      assert a + b == a;
    } else {
      ValueAtConcat(a, b[..|b| - 1], f, r);
      assert (a + b)[..|a + b| - 1] == a + b[..|b| - 1];
    }
  }

  lemma {:induction false} RowChangeAt(g: Grid, row: nat, n: nat, f: nat, r: nat)
    requires IsGrid(g) && row < |g| && n <= NREGS
    ensures ValueAt(RowChanges(g, row, n), f, r) ==
      if f == row && r < n && Changed(g, row, r) then Some(g[row][r]) else None
  {
    if n > 0 {
      RowChangeAt(g, row, n - 1, f, r);
      ValueAtConcat(RowChanges(g, row, n - 1),
                    if Changed(g, row, n - 1) then [Change(row, n - 1, g[row][n - 1])] else [], f, r);
    }
  }

  lemma {:induction false} ChangeAt(g: Grid, n: nat, f: nat, r: nat)
    requires IsGrid(g) && n <= |g| && r < NREGS
    ensures ValueAt(Changes(g, n), f, r) == if f < n && Changed(g, f, r) then Some(g[f][r]) else None
  {
    if n > 0 {
      ChangeAt(g, n - 1, f, r);
      RowChangeAt(g, n - 1, NREGS, f, r);
      ValueAtConcat(Changes(g, n - 1), RowChanges(g, n - 1, NREGS), f, r);
    }
  }

  /** Reading the changes back fills every cell in, past the end as the last row. */
  lemma {:induction false} ReadsBack(g: Grid, f: nat, r: nat)
    requires IsGrid(g) && g != [] && r < NREGS
    ensures Cell(Changes(g, |g|), f, r) == g[if f < |g| then f else |g| - 1][r]
  {
    ChangeAt(g, |g|, f, r);
    if f > 0 {
      ReadsBack(g, f - 1, r);
    }
  }

  // ----- reading

  function Top(file: seq<Change>): (top: nat)
    requires file != []
  {
    var last := file[|file| - 1].frame;
    if |file| == 1 then last
    else
      var rest := Top(file[..|file| - 1]);
      if last > rest then last else rest
  }

  predicate InWidth(file: seq<Change>) {
    forall k {:trigger file[k]} :: 0 <= k < |file| ==> file[k].reg < NREGS
  }

  function Frames(file: seq<Change>, nframes: Option<nat>): nat {
    match nframes
    case Some(n) => n
    case None => if file == [] then 1 else Top(file) + 1
  }

  /** The frame a cell's value was last written in, 0 when it never was. */
  function Source(file: seq<Change>, f: nat, r: nat): (src: nat)
    ensures src <= f
  {
    if ValueAt(file, f, r).Some? then f else if f == 0 then 0 else Source(file, f - 1, r)
  }

  lemma {:induction false} SourceCell(file: seq<Change>, f: nat, r: nat)
    ensures Cell(file, f, r) == match ValueAt(file, Source(file, f, r), r) case Some(v) => v case None => 0
  {
    if ValueAt(file, f, r).None? && f > 0 {
      SourceCell(file, f - 1, r);
    }
  }

  function Or(v: Option<int>, other: int): int {
    if v.Some? then v.value else other
  }

  /** The value is that of the last change to the cell, in the latest frame up to `f` that has one, 0 without
      any. */
  ghost predicate LastChange(file: seq<Change>, f: nat, r: nat, value: int) {
    || (value == 0 && forall k {:trigger file[k]} :: 0 <= k < |file| ==> !(file[k].reg == r && file[k].frame <= f))
    || exists k {:trigger file[k]} ::
         && 0 <= k < |file| && file[k].reg == r && file[k].frame <= f && file[k].value == value
         && forall j {:trigger file[j]} :: 0 <= j < |file| && file[j].reg == r && file[j].frame <= f ==>
              file[j].frame < file[k].frame || (file[j].frame == file[k].frame && j <= k)
  }

  lemma {:induction false} ValueAtIs(file: seq<Change>, f: nat, r: nat)
    ensures var v := ValueAt(file, f, r);
      if v.None? then forall k {:trigger file[k]} :: 0 <= k < |file| ==> !(file[k].frame == f && file[k].reg == r)
      else exists k {:trigger file[k]} :: 0 <= k < |file| && file[k] == Change(f, r, v.value)
             && forall j {:trigger file[j]} :: k < j < |file| ==> !(file[j].frame == f && file[j].reg == r)
  {
    if file != [] {
      var n := |file| - 1;
      if !(file[n].frame == f && file[n].reg == r) {
        ValueAtIs(file[..n], f, r);
        assert forall k {:trigger file[k]} :: 0 <= k < n ==> file[..n][k] == file[k];
      }
    }
  }

  lemma {:induction false} CellIs(file: seq<Change>, f: nat, r: nat)
    ensures LastChange(file, f, r, Cell(file, f, r))
    decreases f
  {
    ValueAtIs(file, f, r);
    if ValueAt(file, f, r).Some? {
      var k :| 0 <= k < |file| && file[k] == Change(f, r, ValueAt(file, f, r).value)
        && forall j {:trigger file[j]} :: k < j < |file| ==> !(file[j].frame == f && file[j].reg == r);
      assert file[k].frame == f;
    } else if f > 0 {
      CellIs(file, f - 1, r);
      LaterFrame(file, f, r, Cell(file, f - 1, r));
    }
  }

  lemma LaterFrame(file: seq<Change>, f: nat, r: nat, value: int)
    requires f > 0 && LastChange(file, f - 1, r, value)
    requires forall k {:trigger file[k]} :: 0 <= k < |file| ==> !(file[k].frame == f && file[k].reg == r)
    ensures LastChange(file, f, r, value)
  {
    forall k {:trigger file[k]} | 0 <= k < |file|
      ensures file[k].reg == r && file[k].frame <= f ==> file[k].frame <= f - 1
    {
    }
  }

  /** Without a count of frames the file's last one ends the grid; an empty file is one frame. */
  ghost predicate FramesRead(file: seq<Change>, nframes: Option<nat>, n: nat) {
    match nframes
    case Some(m) => n == m
    case None =>
      && n >= 1 && (forall k {:trigger file[k]} :: 0 <= k < |file| ==> file[k].frame < n)
      && (n == 1 || exists k {:trigger file[k]} :: 0 <= k < |file| && file[k].frame == n - 1)
  }

  lemma {:induction false} TopIs(file: seq<Change>)
    requires file != []
    ensures forall k {:trigger file[k]} :: 0 <= k < |file| ==> file[k].frame <= Top(file)
    ensures exists k {:trigger file[k]} :: 0 <= k < |file| && file[k].frame == Top(file)
  {
    var n := |file| - 1;
    assert file[n].frame <= Top(file);
    if n > 0 {
      TopIs(file[..n]);
      assert forall k {:trigger file[k]} :: 0 <= k < n ==> file[..n][k] == file[k];
      var k :| 0 <= k < n && file[..n][k].frame == Top(file[..n]);
      assert file[k].frame == Top(file[..n]);
    }
  }

  lemma FramesAre(file: seq<Change>, nframes: Option<nat>)
    ensures FramesRead(file, nframes, Frames(file, nframes))
  {
    if file != [] {
      TopIs(file);
    }
  }

  /** Fill the file's cells and their frames in, carry the latest frame down each column, and take each
      cell from there. */
  method ReadGrid(file: seq<Change>, nframes: Option<nat>) returns (out: array2<int>)
    requires InWidth(file)
    ensures fresh(out) && out.Length0 == Frames(file, nframes) && out.Length1 == NREGS
    ensures forall f: nat, r: nat :: f < out.Length0 && r < NREGS ==> out[f, r] == Cell(file, f, r)
    ensures FramesRead(file, nframes, out.Length0)
  {
    hide ValueAt, Source, Cell, Frames, FramesRead;
    FramesAre(file, nframes);
    var n := Frames(file, nframes);
    var grid := new int[n, NREGS]((_, _) => 0);
    var src := new nat[n, NREGS]((_, _) => 0);
    NothingWritten();
    var k := 0;
    while k < |file|
      invariant 0 <= k <= |file|
      invariant forall f: nat, r: nat {:trigger grid[f, r]} :: f < n && r < NREGS ==>
        grid[f, r] == Or(ValueAt(file[..k], f, r), 0)
      invariant forall f: nat, r: nat {:trigger src[f, r]} :: f < n && r < NREGS ==>
        src[f, r] == if ValueAt(file[..k], f, r).Some? then f else 0
    {
      var c := file[k];
      assert c.reg < NREGS;
      if c.frame < n {
        grid[c.frame, c.reg] := c.value;
        src[c.frame, c.reg] := c.frame;
      }
      forall f: nat, r: nat | f < n && r < NREGS ensures
        && grid[f, r] == Or(ValueAt(file[..k + 1], f, r), 0)
        && src[f, r] == if ValueAt(file[..k + 1], f, r).Some? then f else 0
      {
        OneMore(file, k, f, r);
      }
      k := k + 1;
    }
    assert file[..k] == file;
    Accumulate(file, n, src);
    out := new int[n, NREGS]((_, _) => 0);
    var f := 0;
    while f < n
      modifies out
      invariant 0 <= f <= n
      invariant forall g: nat, r: nat {:trigger out[g, r]} :: g < f && r < NREGS ==> out[g, r] == Cell(file, g, r)
    {
      var r := 0;
      while r < NREGS
        modifies out
        invariant 0 <= r <= NREGS
        invariant forall g: nat, q: nat {:trigger out[g, q]} :: g < f && q < NREGS ==> out[g, q] == Cell(file, g, q)
        invariant forall q: nat {:trigger out[f, q]} :: q < r ==> out[f, q] == Cell(file, f, q)
      {
        SourceCell(file, f, r);
        out[f, r] := grid[src[f, r], r];
        r := r + 1;
      }
      f := f + 1;
    }
  }

  lemma NothingWritten()
    ensures forall f: nat, r: nat :: ValueAt([], f, r) == None
  {
  }

  lemma OneMore(file: seq<Change>, k: nat, f: nat, r: nat)
    requires k < |file|
    ensures ValueAt(file[..k + 1], f, r) ==
        if file[k].frame == f && file[k].reg == r then Some(file[k].value) else ValueAt(file[..k], f, r)
  {
    assert file[..k + 1][..k] == file[..k];
  }

  /** `np.maximum.accumulate` down each column. */
  method Accumulate(file: seq<Change>, n: nat, src: array2<nat>)
    requires src.Length0 == n && src.Length1 == NREGS
    requires forall f: nat, r: nat {:trigger src[f, r]} :: f < n && r < NREGS ==>
      src[f, r] == if ValueAt(file, f, r).Some? then f else 0
    modifies src
    ensures forall f: nat, r: nat {:trigger src[f, r]} :: f < n && r < NREGS ==> src[f, r] == Source(file, f, r)
  {
    hide ValueAt;
    var f := 0;
    while f < n
      invariant 0 <= f <= n
      invariant forall g: nat, r: nat {:trigger src[g, r]} :: g < f && r < NREGS ==> src[g, r] == Source(file, g, r)
      invariant forall g: nat, r: nat {:trigger src[g, r]} :: f <= g < n && r < NREGS ==>
        src[g, r] == if ValueAt(file, g, r).Some? then g else 0
    {
      var r := 0;
      while r < NREGS
        invariant 0 <= r <= NREGS
        invariant forall g: nat, q: nat {:trigger src[g, q]} :: g < f && q < NREGS ==> src[g, q] == Source(file, g, q)
        invariant forall q: nat {:trigger src[f, q]} :: q < r ==> src[f, q] == Source(file, f, q)
        invariant forall q: nat {:trigger src[f, q]} :: r <= q < NREGS ==>
          src[f, q] == if ValueAt(file, f, q).Some? then f else 0
        invariant forall g: nat, q: nat {:trigger src[g, q]} :: f < g < n && q < NREGS ==>
          src[g, q] == if ValueAt(file, g, q).Some? then g else 0
      {
        if f > 0 && src[f - 1, r] > src[f, r] {
          src[f, r] := src[f - 1, r];
        }
        r := r + 1;
      }
      f := f + 1;
    }
  }

  /** Writing a grid and reading it back gives it cut or, by its last row, extended to the frames
      asked for. */
  method RoundTrip(g: Grid, nframes: nat) returns (out: array2<int>)
    requires IsGrid(g) && g != []
    ensures out.Length0 == nframes && out.Length1 == NREGS
    ensures forall f: nat, r: nat :: f < nframes && r < NREGS ==> out[f, r] == g[if f < |g| then f else |g| - 1][r]
  {
    var file := Changes(g, |g|);
    InWidthChanges(g, |g|);
    out := ReadGrid(file, Some(nframes));
    forall f: nat, r: nat | f < nframes && r < NREGS ensures out[f, r] == g[if f < |g| then f else |g| - 1][r] {
      ReadsBack(g, f, r);
    }
  }

  lemma {:induction false} InWidthChanges(g: Grid, n: nat)
    requires IsGrid(g) && n <= |g|
    ensures InWidth(Changes(g, n))
  {
    if n > 0 {
      InWidthChanges(g, n - 1);
      InWidthRow(g, n - 1, NREGS);
    }
  }

  lemma {:induction false} InWidthRow(g: Grid, f: nat, r: nat)
    requires IsGrid(g) && f < |g| && r <= NREGS
    ensures InWidth(RowChanges(g, f, r))
  {
    if r > 0 {
      InWidthRow(g, f, r - 1);
    }
  }

  // ----- runs of differing cells

  /** A differing cell: step, register and the two values. */
  datatype Differing = Differing(step: int, reg: int, ours: int, theirs: int)

  datatype Segment = Segment(from: int, to: int, ours: int, theirs: int)

  datatype Run = Run(from: int, to: int, values: seq<Segment>)

  function SegmentCells(s: Segment, reg: int): seq<Differing> {
    if s.to < s.from then []
    else seq(s.to - s.from + 1, i requires 0 <= i => Differing(s.from + i, reg, s.ours, s.theirs))
  }

  function RunCells(values: seq<Segment>, reg: int): seq<Differing> {
    if values == [] then []
    else RunCells(values[..|values| - 1], reg) + SegmentCells(values[|values| - 1], reg)
  }

  /** The cells a register's runs stand for. */
  function Expanded(runs: seq<Run>, reg: int): seq<Differing> {
    if runs == [] then [] else Expanded(runs[..|runs| - 1], reg) + RunCells(runs[|runs| - 1].values, reg)
  }

  function Of(cells: seq<Differing>, reg: int): seq<Differing> {
    if cells == [] then []
    else Of(cells[..|cells| - 1], reg) + if cells[|cells| - 1].reg == reg then [cells[|cells| - 1]] else []
  }

  /** Segments follow each other step by step and each differs from the next: every one is maximal. */
  predicate MaximalRun(r: Run) {
    && r.values != [] && r.from == r.values[0].from && r.to == r.values[|r.values| - 1].to
    && (forall i {:trigger r.values[i]} :: 0 <= i < |r.values| ==> r.values[i].from <= r.values[i].to)
    && forall i, j {:trigger r.values[i], r.values[j]} :: 0 <= i && j == i + 1 < |r.values| ==>
         && r.values[j].from == r.values[i].to + 1
         && (r.values[j].ours != r.values[i].ours || r.values[j].theirs != r.values[i].theirs)
  }

  /** No run goes on where the one before it ends. */
  predicate Maximal(runs: seq<Run>) {
    && (forall i {:trigger runs[i]} :: 0 <= i < |runs| ==> MaximalRun(runs[i]))
    && forall i, j {:trigger runs[i], runs[j]} :: 0 <= i && j == i + 1 < |runs| ==> runs[j].from != runs[i].to + 1
  }

  /** A cell extends the run's last segment or starts another. */
  function Longer(r: Run, c: Differing): Run
    requires r.values != []
  {
    var n := |r.values| - 1;
    var segment := r.values[n];
    Run(r.from, c.step,
        if segment.ours == c.ours && segment.theirs == c.theirs then r.values[..n] + [segment.(to := c.step)]
        else r.values + [Segment(c.step, c.step, c.ours, c.theirs)])
  }

  /** A cell goes on the last run or starts another. */
  function Extended(runs: seq<Run>, c: Differing): seq<Run>
    requires runs != [] ==> runs[|runs| - 1].values != []
  {
    var n := |runs| - 1;
    if runs != [] && c.step == runs[n].to + 1 then runs[..n] + [Longer(runs[n], c)]
    else runs + [Run(c.step, c.step, [Segment(c.step, c.step, c.ours, c.theirs)])]
  }

  lemma RunCellsAppend(values: seq<Segment>, s: Segment, reg: int)
    ensures RunCells(values + [s], reg) == RunCells(values, reg) + SegmentCells(s, reg)
  {
    assert (values + [s])[..|values|] == values;
  }

  lemma ExpandedAppend(runs: seq<Run>, r: Run, reg: int)
    ensures Expanded(runs + [r], reg) == Expanded(runs, reg) + RunCells(r.values, reg)
  {
    assert (runs + [r])[..|runs|] == runs;
  }

  lemma LongerCells(r: Run, c: Differing, reg: int)
    requires MaximalRun(r) && c.step == r.to + 1 && c.reg == reg
    ensures RunCells(Longer(r, c).values, reg) == RunCells(r.values, reg) + [c]
  {
    hide RunCells, SegmentCells;
    var n := |r.values| - 1;
    var segment := r.values[n];
    assert segment.from <= segment.to && r.values == r.values[..n] + [segment];
    if segment.ours == c.ours && segment.theirs == c.theirs {
      GrownCells(r.values[..n], segment, c, reg);
    } else {
      var one := Segment(c.step, c.step, c.ours, c.theirs);
      OneSegment(one, c, reg);
      RunCellsAppend(r.values, one, reg);
    }
  }

  lemma GrownCells(rest: seq<Segment>, s: Segment, c: Differing, reg: int)
    requires s.from <= s.to && c == Differing(s.to + 1, reg, s.ours, s.theirs)
    ensures RunCells(rest + [s.(to := c.step)], reg) == RunCells(rest + [s], reg) + [c]
  {
    hide RunCells, SegmentCells;
    RunCellsAppend(rest, s, reg);
    RunCellsAppend(rest, s.(to := c.step), reg);
    SegmentGrows(s, c, reg);
    assert RunCells(rest, reg) + (SegmentCells(s, reg) + [c]) == RunCells(rest, reg) + SegmentCells(s, reg) + [c];
  }

  lemma OneSegment(one: Segment, c: Differing, reg: int)
    requires one == Segment(c.step, c.step, c.ours, c.theirs) && c.reg == reg
    ensures SegmentCells(one, reg) == [c]
  {
  }

  lemma SegmentGrows(s: Segment, c: Differing, reg: int)
    requires s.from <= s.to && c.step == s.to + 1 && c == Differing(c.step, reg, s.ours, s.theirs)
    ensures SegmentCells(s.(to := c.step), reg) == SegmentCells(s, reg) + [c]
  {
  }

  lemma LongerMaximal(r: Run, c: Differing)
    requires MaximalRun(r) && c.step == r.to + 1
    ensures MaximalRun(Longer(r, c))
  {
    var out, n := Longer(r, c).values, |r.values| - 1;
    assert r.values[n].from <= r.values[n].to;
    forall i {:trigger out[i]} | 0 <= i < n ensures out[i] == r.values[i] {
    }
    forall i, j {:trigger out[i], out[j]} | 0 <= i && j == i + 1 < |out| ensures
      && out[j].from == out[i].to + 1 && (out[j].ours != out[i].ours || out[j].theirs != out[i].theirs)
    {
      if j <= n {
        assert r.values[j].from == r.values[i].to + 1;
      }
    }
  }

  lemma ExtendedKeeps(runs: seq<Run>, c: Differing, reg: int)
    requires Maximal(runs) && c.reg == reg
    ensures runs != [] ==> runs[|runs| - 1].values != []
    ensures Maximal(Extended(runs, c)) && Expanded(Extended(runs, c), reg) == Expanded(runs, reg) + [c]
  {
    if runs != [] {
      LastMaximal(runs);
    }
    hide Expanded, RunCells, MaximalRun, Maximal;
    if runs != [] && c.step == runs[|runs| - 1].to + 1 {
      GoesOn(runs, c, reg);
    } else {
      var one := Segment(c.step, c.step, c.ours, c.theirs);
      OneCell(c, reg);
      ExpandedAppend(runs, Run(c.step, c.step, [one]), reg);
      OneMoreRun(runs, Run(c.step, c.step, [one]));
    }
  }

  lemma GoesOn(runs: seq<Run>, c: Differing, reg: int)
    requires Maximal(runs) && runs != [] && c.reg == reg && MaximalRun(runs[|runs| - 1]) &&
        runs[|runs| - 1].values != []
    requires c.step == runs[|runs| - 1].to + 1
    ensures var out := runs[..|runs| - 1] + [Longer(runs[|runs| - 1], c)];
      Maximal(out) && Expanded(out, reg) == Expanded(runs, reg) + [c]
  {
    hide Expanded, RunCells, MaximalRun, Maximal;
    var rest, last := runs[..|runs| - 1], runs[|runs| - 1];
    LongerCells(last, c, reg);
    LongerMaximal(last, c);
    assert runs == rest + [last];
    ExpandedAppend(rest, last, reg);
    ExpandedAppend(rest, Longer(last, c), reg);
    LastReplaced(runs, Longer(last, c));
    assert Expanded(rest, reg) + (RunCells(last.values, reg) + [c])
        == Expanded(rest, reg) + RunCells(last.values, reg) + [c];
  }

  lemma OneMoreRun(runs: seq<Run>, r: Run)
    requires Maximal(runs) && MaximalRun(r) && (runs != [] ==> r.from != runs[|runs| - 1].to + 1)
    ensures Maximal(runs + [r])
  {
    hide MaximalRun;
  }

  lemma LastMaximal(runs: seq<Run>)
    requires Maximal(runs) && runs != []
    ensures MaximalRun(runs[|runs| - 1]) && runs[|runs| - 1].values != []
  {
  }

  lemma LastReplaced(runs: seq<Run>, r: Run)
    requires Maximal(runs) && runs != [] && MaximalRun(r) && r.from == runs[|runs| - 1].from
    ensures Maximal(runs[..|runs| - 1] + [r])
  {
    hide MaximalRun;
    var n := |runs| - 1;
    var out := runs[..n] + [r];
    forall i, j {:trigger out[i], out[j]} | 0 <= i && j == i + 1 < |out| ensures out[j].from != out[i].to + 1 {
      assert runs[j].from != runs[i].to + 1;
    }
  }

  lemma OneCell(c: Differing, reg: int)
    requires c.reg == reg
    ensures var one := Segment(c.step, c.step, c.ours, c.theirs);
      RunCells([one], reg) == [c] && MaximalRun(Run(c.step, c.step, [one]))
  {
    var one := Segment(c.step, c.step, c.ours, c.theirs);
    assert SegmentCells(one, reg) == [c];
    assert [] + [one] == [one];
    RunCellsAppend([], one, reg);
  }

  /** Each register's runs stand for exactly its cells, in order, and none of their runs and constant
      segments could be longer. */
  method Runs(cells: seq<Differing>) returns (groups: map<int, seq<Run>>)
    ensures forall reg {:trigger reg in groups} ::
      reg in groups <==> exists i :: 0 <= i < |cells| && cells[i].reg == reg
    ensures forall reg {:trigger groups[reg]} :: reg in groups ==>
      Maximal(groups[reg]) && Expanded(groups[reg], reg) == Of(cells, reg)
  {
    hide Grouped, Extended;
    groups := map[];
    var k := 0;
    NoneGrouped();
    while k < |cells|
      invariant 0 <= k <= |cells|
      invariant forall reg {:trigger reg in groups} :: reg in groups <==> exists i :: 0 <= i < k && cells[i].reg == reg
      invariant Grouped(groups, cells[..k])
    {
      var c := cells[k];
      var group := if c.reg in groups then groups[c.reg] else [];
      GroupedNext(groups, cells[..k], c, group);
      assert cells[..k + 1] == cells[..k] + [c];
      groups := groups[c.reg := Extended(group, c)];
      k := k + 1;
    }
    assert cells[..k] == cells;
    AllGrouped(groups, cells);
  }

  // ----- the report of them

  /** A register's entry: its first and last step, how many cells, and its runs. */
  datatype Entry = Entry(reg: int, from: int, to: int, cells: int, runs: seq<Run>)

  /** The entry of a register's cells. */
  ghost predicate IsEntry(e: Entry, cells: seq<Differing>) {
    var own := Of(cells, e.reg);
    && own != [] && e.from == own[0].step && e.to == own[|own| - 1].step && e.cells == |own|
    && Maximal(e.runs) && Expanded(e.runs, e.reg) == own
  }

  predicate Reported(out: seq<Entry>, reg: int) {
    exists i {:trigger out[i]} :: 0 <= i < |out| && out[i].reg == reg
  }

  predicate Ascends(keys: seq<int>) {
    forall i, j :: 0 <= i < j < |keys| ==> keys[i] < keys[j]
  }

  function Inserted(keys: seq<int>, key: int): seq<int> {
    if keys == [] || keys[|keys| - 1] < key then keys + [key]
    else Inserted(keys[..|keys| - 1], key) + [keys[|keys| - 1]]
  }

  lemma {:induction false} InsertedAscends(keys: seq<int>, key: int)
    requires Ascends(keys) && key !in keys
    ensures Ascends(Inserted(keys, key)) && forall k :: k in Inserted(keys, key) <==> k in keys || k == key
  {
    if keys != [] && keys[|keys| - 1] >= key {
      var rest, last := keys[..|keys| - 1], keys[|keys| - 1];
      assert keys == rest + [last];
      InsertedAscends(rest, key);
      var more := Inserted(rest, key);
      forall i {:trigger more[i]} | 0 <= i < |more| ensures more[i] < last {
        assert more[i] in more;
      }
    }
  }

  /** `sorted` of a dictionary's keys. */
  method SortedKeys(keys: set<int>) returns (sorted: seq<int>)
    ensures Ascends(sorted) && forall k :: k in sorted <==> k in keys
  {
    hide Ascends, Inserted;
    sorted := [];
    var left := keys;
    InsertedNone();
    while left != {}
      invariant left <= keys && Ascends(sorted) && forall k :: k in sorted <==> k in keys - left
      decreases left
    {
      ghost var some := Sets.Member(left);
      var key :| key in left;
      InsertedAscends(sorted, key);
      sorted, left := Inserted(sorted, key), left - {key};
    }
  }

  lemma InsertedNone()
    ensures Ascends([])
  {
  }

  lemma SegmentSpan(s: Segment, reg: int)
    requires s.from <= s.to
    ensures var own := SegmentCells(s, reg);
      |own| == s.to - s.from + 1 && own[0].step == s.from && own[|own| - 1].step == s.to
  {
  }

  lemma Consecutive(r: Run, n: nat)
    requires MaximalRun(r) && n < |r.values|
    ensures r.values[n].from <= r.values[n].to && (n > 0 ==> r.values[n].from == r.values[n - 1].to + 1)
  {
    if n > 0 {
      assert r.values[n - 1].from <= r.values[n - 1].to;
    }
  }

  /** The steps of a run's cells, first to last, and how many they are. */
  lemma {:induction false} RunSpan(r: Run, n: nat, reg: int)
    requires MaximalRun(r) && 0 < n <= |r.values|
    ensures var own := RunCells(r.values[..n], reg);
      own != [] && own[0].step == r.values[0].from && own[|own| - 1].step == r.values[n - 1].to
      && |own| == r.values[n - 1].to - r.values[0].from + 1
  {
    hide MaximalRun, RunCells, SegmentCells;
    var last := r.values[n - 1];
    assert r.values[..n] == r.values[..n - 1] + [last];
    RunCellsAppend(r.values[..n - 1], last, reg);
    Consecutive(r, n - 1);
    SegmentSpan(last, reg);
    if n > 1 {
      RunSpan(r, n - 1, reg);
    } else {
      NoSegments(r.values[..0], reg);
    }
  }

  lemma NoSegments(values: seq<Segment>, reg: int)
    requires values == []
    ensures RunCells(values, reg) == []
  {
  }

  function Total(runs: seq<Run>): int {
    if runs == [] then 0 else Total(runs[..|runs| - 1]) + (runs[|runs| - 1].to - runs[|runs| - 1].from + 1)
  }

  lemma {:induction false} RunsSpan(runs: seq<Run>, reg: int)
    requires Maximal(runs) && runs != []
    ensures var own := Expanded(runs, reg);
      own != [] && own[0].step == runs[0].from && own[|own| - 1].step == runs[|runs| - 1].to && |own| == Total(runs)
  {
    hide RunCells;
    var n := |runs| - 1;
    var rest, last := runs[..n], runs[n];
    LastMaximal(runs);
    RunSpan(last, |last.values|, reg);
    assert last.values[..|last.values|] == last.values;
    if n > 0 {
      FrontMaximal(runs);
      RunsSpan(rest, reg);
      assert rest[0] == runs[0];
    } else {
      assert rest == [];
    }
  }

  lemma FrontMaximal(runs: seq<Run>)
    requires Maximal(runs) && runs != []
    ensures Maximal(runs[..|runs| - 1])
  {
    hide MaximalRun;
  }

  lemma NoCells(cells: seq<Differing>, reg: int)
    requires exists i :: 0 <= i < |cells| && cells[i].reg == reg
    ensures Of(cells, reg) != []
  {
    if cells[|cells| - 1].reg != reg {
      var i :| 0 <= i < |cells| && cells[i].reg == reg;
      assert cells[..|cells| - 1][i] == cells[i];
      NoCells(cells[..|cells| - 1], reg);
    }
  }

  method TotalCells(runs: seq<Run>) returns (total: int)
    ensures total == Total(runs)
  {
    total := 0;
    var k := 0;
    while k < |runs|
      invariant 0 <= k <= |runs| && total == Total(runs[..k])
    {
      assert runs[..k + 1][..k] == runs[..k];
      total := total + (runs[k].to - runs[k].from + 1);
      k := k + 1;
    }
    assert runs[..k] == runs;
  }

  /** `runs`: an entry for every differing register, in register order, with its steps, its count and
      its maximal runs. */
  method Report(cells: seq<Differing>) returns (out: seq<Entry>)
    ensures forall i, j :: 0 <= i < j < |out| ==> out[i].reg < out[j].reg
    ensures forall i {:trigger cells[i]} :: 0 <= i < |cells| ==> Reported(out, cells[i].reg)
    ensures forall i {:trigger out[i]} :: 0 <= i < |out| ==> IsEntry(out[i], cells)
  {
    hide Maximal, Expanded, Of, Ascends, Total, IsEntry;
    var groups := Runs(cells);
    var keys := SortedKeys(groups.Keys);
    out := [];
    var k := 0;
    while k < |keys|
      invariant 0 <= k <= |keys| && |out| == k
      invariant forall i {:trigger out[i]} :: 0 <= i < k ==> out[i].reg == keys[i] && IsEntry(out[i], cells)
    {
      var reg := keys[k];
      assert reg in keys && reg in groups;
      var group := groups[reg];
      EntryOf(cells, reg, group);
      var total := TotalCells(group);
      out := out + [Entry(reg, group[0].from, group[|group| - 1].to, total, group)];
      k := k + 1;
    }
    AscendsBy(keys, out);
    forall i {:trigger cells[i]} | 0 <= i < |cells| ensures Reported(out, cells[i].reg) {
      assert cells[i].reg in groups && cells[i].reg in keys;
      KeysBy(keys, out, cells[i].reg);
    }
  }

  lemma EntryOf(cells: seq<Differing>, reg: int, group: seq<Run>)
    requires (exists i :: 0 <= i < |cells| && cells[i].reg == reg) && Maximal(group) &&
        Expanded(group, reg) == Of(cells, reg)
    ensures group != []
    ensures IsEntry(Entry(reg, group[0].from, group[|group| - 1].to, Total(group), group), cells)
  {
    NoCells(cells, reg);
    if group == [] {
      NoRuns(reg);
    } else {
      hide Maximal, Expanded, Of, Total;
      RunsSpan(group, reg);
    }
  }

  lemma AscendsBy(keys: seq<int>, out: seq<Entry>)
    requires Ascends(keys) && |out| == |keys| && forall i {:trigger out[i]} :: 0 <= i < |out| ==> out[i].reg == keys[i]
    ensures forall i, j :: 0 <= i < j < |out| ==> out[i].reg < out[j].reg
  {
  }

  lemma KeysBy(keys: seq<int>, out: seq<Entry>, reg: int)
    requires |out| == |keys| && forall i {:trigger out[i]} :: 0 <= i < |out| ==> out[i].reg == keys[i]
    ensures reg in keys ==> Reported(out, reg)
  {
    if reg in keys {
      var i :| 0 <= i < |keys| && keys[i] == reg;
      assert out[i].reg == reg;
    }
  }

  // ----- grouping

  ghost predicate GroupedAt(groups: map<int, seq<Run>>, cells: seq<Differing>, reg: int) {
    if reg in groups then Maximal(groups[reg]) && Expanded(groups[reg], reg) == Of(cells, reg) else Of(cells, reg) == []
  }

  /** The runs of some cells. */
  ghost predicate Grouped(groups: map<int, seq<Run>>, cells: seq<Differing>) {
    forall reg {:trigger GroupedAt(groups, cells, reg)} :: GroupedAt(groups, cells, reg)
  }

  lemma NoneGrouped()
    ensures Grouped(map[], [])
  {
  }

  lemma AllGrouped(groups: map<int, seq<Run>>, cells: seq<Differing>)
    requires Grouped(groups, cells)
    ensures forall reg {:trigger groups[reg]} :: reg in groups ==>
      Maximal(groups[reg]) && Expanded(groups[reg], reg) == Of(cells, reg)
  {
    hide Maximal, Expanded;
    forall reg {:trigger groups[reg]} | reg in groups
      ensures Maximal(groups[reg]) && Expanded(groups[reg], reg) == Of(cells, reg)
    {
      assert GroupedAt(groups, cells, reg);
    }
  }

  lemma GroupedNext(groups: map<int, seq<Run>>, cells: seq<Differing>, c: Differing, group: seq<Run>)
    requires Grouped(groups, cells) && group == if c.reg in groups then groups[c.reg] else []
    ensures group != [] ==> group[|group| - 1].values != []
    ensures Grouped(groups[c.reg := Extended(group, c)], cells + [c])
  {
    assert GroupedAt(groups, cells, c.reg);
    NoRuns(c.reg);
    hide Maximal, Expanded, Extended, Of;
    assert Maximal(group) && Expanded(group, c.reg) == Of(cells, c.reg);
    ExtendedKeeps(group, c, c.reg);
    var after := groups[c.reg := Extended(group, c)];
    forall reg {:trigger GroupedAt(after, cells + [c], reg)} ensures GroupedAt(after, cells + [c], reg) {
      assert GroupedAt(groups, cells, reg);
      OfAppend(cells, c, reg);
    }
  }

  lemma NoRuns(reg: int)
    ensures Maximal([]) && Expanded([], reg) == []
  {
  }

  lemma OfAppend(cells: seq<Differing>, c: Differing, reg: int)
    ensures Of(cells + [c], reg) == if c.reg == reg then Of(cells, reg) + [c] else Of(cells, reg)
  {
    assert (cells + [c])[..|cells|] == cells;
  }
}
