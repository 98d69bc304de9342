/** Forward-filled register grids: `oracle._frame_grid` and `oracle.grid_from_writes`. */
module Grids {

  /** A register write at a clock or, once framed, in a frame. */
  datatype Write = Write(at: int, reg: int, val: int)

  const PW_HIGHS: set<int> := {0x03, 0x0A, 0x11}

  function Masked(reg: int, val: int): int {
    if reg in PW_HIGHS then val % 16 else val
  }

  /** The value of the last write to `reg` at or before `f`, in the order of the list. */
  function LastBy(writes: seq<Write>, reg: int, f: int): int {
    if writes == [] then 0
    else
      var last := writes[|writes| - 1];
      if last.reg == reg && last.at <= f then Masked(reg, last.val) else LastBy(writes[..|writes| - 1], reg, f)
  }

  /** The declarative grid: row `f` holds the last write to each register at or before frame `f`. */
  function Row(writes: seq<Write>, count: nat, f: int): (row: seq<int>)
    ensures |row| == count && forall r {:trigger row[r]} :: 0 <= r < count ==> row[r] == LastBy(writes, r, f)
  {
    seq(count, r => LastBy(writes, r, f))
  }

  predicate Ordered(writes: seq<Write>) {
    forall i, j :: 0 <= i < j < |writes| ==> writes[i].at <= writes[j].at
  }

  /** Row `f` of a grid that goes on as its last row. */
  function Filled(rows: seq<seq<int>>, f: nat): seq<int>
    requires rows != []
  {
    rows[if f < |rows| then f else |rows| - 1]
  }

  /** The rows up to the last kept frame, of a grid that goes on as its last row. */
  ghost predicate IsGrid(rows: seq<seq<int>>, framed: seq<Write>, count: nat) {
    |rows| == Top(framed, count) + 1 && forall f: nat :: Filled(rows, f) == Row(framed, count, f)
  }

  lemma LastByAppend(writes: seq<Write>, w: Write, reg: int, f: int)
    ensures LastBy(writes + [w], reg, f) ==
      if w.reg == reg && w.at <= f then Masked(reg, w.val) else LastBy(writes, reg, f)
  {
    assert (writes + [w])[..|writes|] == writes;
  }

  lemma RowAppend(writes: seq<Write>, w: Write, count: nat, f: int)
    ensures Row(writes + [w], count, f) ==
      if w.at <= f && 0 <= w.reg < count then Row(writes, count, f)[w.reg := Masked(w.reg, w.val)]
      else Row(writes, count, f)
  {
    var row := Row(writes + [w], count, f);
    forall r {:trigger row[r]} | 0 <= r < count ensures row[r] == LastBy(writes + [w], r, f) {
    }
    forall r | 0 <= r < count ensures LastBy(writes + [w], r, f) ==
        if w.reg == r && w.at <= f then Masked(r, w.val) else LastBy(writes, r, f)
    {
      LastByAppend(writes, w, r, f);
    }
  }

  /** The frame of the last write kept, the row the grid ends with; 0 when there is none. */
  function Top(writes: seq<Write>, count: nat): (top: nat)
  {
    if writes == [] then 0
    else
      var last := writes[|writes| - 1];
      var rest := Top(writes[..|writes| - 1], count);
      if 0 <= last.reg < count && last.at > rest then last.at else rest
  }

  lemma TopBounds(writes: seq<Write>, count: nat, j: nat)
    requires j < |writes|
    ensures 0 <= writes[j].reg < count ==> writes[j].at <= Top(writes, count)
  {
    if j < |writes| - 1 {
      TopBounds(writes[..|writes| - 1], count, j);
    }
  }

  lemma {:induction false} TopAttained(writes: seq<Write>, count: nat, low: int)
    requires Top(writes, count) > low && low >= 0
    ensures exists j: nat :: j < |writes| && writes[j].at > low
  {
    if Top(writes[..|writes| - 1], count) > low {
      TopAttained(writes[..|writes| - 1], count, low);
      var j: nat :| j < |writes| - 1 && writes[..|writes| - 1][j].at > low;
      assert writes[j].at > low;
    } else {
      assert writes[|writes| - 1].at > low;
    }
  }

  /** Rows from the last kept frame on are all the same. */
  lemma {:induction false} RowBeyond(writes: seq<Write>, count: nat, f: int, g: int)
    requires Top(writes, count) <= f && Top(writes, count) <= g
    ensures Row(writes, count, f) == Row(writes, count, g)
  {
    if writes != [] {
      var rest, last := writes[..|writes| - 1], writes[|writes| - 1];
      assert writes == rest + [last];
      RowBeyond(rest, count, f, g);
      RowAppend(rest, last, count, f);
      RowAppend(rest, last, count, g);
    }
  }

  /** The writes as framing takes them: one for a frame already left counts for the current one. */
  function Delayed(framed: seq<Write>, count: nat): (late: seq<Write>)
    ensures |late| == |framed|
  {
    if framed == [] then []
    else
      var rest, last := framed[..|framed| - 1], framed[|framed| - 1];
      var top := Top(rest, count);
      Delayed(rest, count) + [last.(at := if last.at < top then top else last.at)]
  }

  lemma {:induction false} DelayedTop(framed: seq<Write>, count: nat)
    ensures Top(Delayed(framed, count), count) == Top(framed, count)
  {
    if framed != [] {
      var rest := framed[..|framed| - 1];
      DelayedTop(rest, count);
      var late := Delayed(framed, count);
      assert late[..|late| - 1] == Delayed(rest, count);
    }
  }

  lemma DelayedAppend(framed: seq<Write>, k: nat, count: nat)
    requires k < |framed|
    ensures var w, top := framed[k], Top(framed[..k], count);
      && Top(framed[..k + 1], count) == (if 0 <= w.reg < count && w.at > top then w.at else top)
      && Delayed(framed[..k + 1], count) == Delayed(framed[..k], count) + [w.(at := if w.at < top then top else w.at)]
  {
    assert framed[..k + 1][..k] == framed[..k];
  }

  function Leveled(writes: seq<Write>, f: int): (level: seq<Write>)
    ensures |level| == |writes|
    ensures forall k {:trigger level[k]} :: 0 <= k < |writes| ==> level[k] == Write(f, writes[k].reg, writes[k].val)
  {
    seq(|writes|, k requires 0 <= k < |writes| => Write(f, writes[k].reg, writes[k].val))
  }

  /** Writes of which the first is for frame `f`, or which find it opened, and none is for a later one,
      all count for it. */
  lemma {:induction false} DelayedBlock(before: seq<Write>, block: seq<Write>, f: nat, count: nat)
    requires block != [] && Top(before, count) <= f && (Top(before, count) == f || block[0].at == f)
    requires forall k {:trigger block[k]} :: 0 <= k < |block| ==> block[k].at <= f && 0 <= block[k].reg < count
    ensures Delayed(before + block, count) == Delayed(before, count) + Leveled(block, f)
    ensures Top(before + block, count) == f
  {
    hide Top, Delayed;
    var n := |block| - 1;
    var all := before + block;
    DelayedAppend(all, |before| + n, count);
    assert all[..|before| + n + 1] == all;
    assert all[..|before| + n] == before + block[..n];
    if n == 0 {
      assert before + block[..0] == before;
    } else {
      DelayedBlock(before, block[..n], f, count);
      assert Leveled(block[..n], f) + [Write(f, block[n].reg, block[n].val)] == Leveled(block, f);
    }
  }

  /** In frame order no write is late. */
  lemma {:induction false} OrderedInTime(framed: seq<Write>, count: nat, f: nat)
    requires Ordered(framed)
    ensures Row(Delayed(framed, count), count, f) == Row(framed, count, f)
  {
    if framed != [] {
      var rest, w := framed[..|framed| - 1], framed[|framed| - 1];
      OrderedInTime(rest, count, f);
      var top := Top(rest, count);
      assert framed == rest + [w];
      RowAppend(rest, w, count, f);
      RowAppend(Delayed(rest, count), w.(at := if w.at < top then top else w.at), count, f);
      TopReached(framed, |framed| - 1, count);
    }
  }

  lemma TopReached(framed: seq<Write>, k: nat, count: nat)
    requires Ordered(framed) && k < |framed|
    ensures Top(framed[..k], count) > 0 ==> framed[k].at >= Top(framed[..k], count)
  {
    if Top(framed[..k], count) > 0 {
      TopAttained(framed[..k], count, Top(framed[..k], count) - 1);
      var j: nat :| j < k && framed[..k][j].at > Top(framed[..k], count) - 1;
      assert framed[j].at <= framed[k].at;
    }
  }

  /** Framing gives the declarative grid of the writes, late ones delayed: the running row is copied out
      whenever a kept write opens a later frame, and once at the end. */
  method FrameGrid(framed: seq<Write>, count: nat) returns (rows: seq<seq<int>>)
    ensures IsGrid(rows, Delayed(framed, count), count)
    ensures Ordered(framed) ==> IsGrid(rows, framed, count)
  {
    hide Row, LastBy, Top, Ordered, Delayed;
    var cur := seq(count, _ => 0);
    rows := [];
    EmptyRow(count);
    ghost var late: seq<Write> := [];
    var k := 0;
    while k < |framed|
      invariant 0 <= k <= |framed| && late == Delayed(framed[..k], count)
      invariant |cur| == count && |rows| == Top(framed[..k], count)
      invariant cur == Row(late, count, |rows|)
      invariant forall f {:trigger rows[f]} :: 0 <= f < |rows| ==> rows[f] == Row(late, count, f)
    {
      var w := framed[k];
      ghost var before, was := |rows|, late;
      DelayedAppend(framed, k, count);
      DelayedTop(framed[..k], count);
      late := Delayed(framed[..k + 1], count);
      if 0 <= w.reg < count {
        while |rows| < w.at
          invariant before <= |rows| && (|rows| <= w.at || |rows| == before)
          invariant forall f {:trigger rows[f]} :: 0 <= f < |rows| ==> rows[f] == Row(was, count, f)
          invariant cur == Row(was, count, |rows|)
        {
          RowBeyond(was, count, before, |rows|);
          rows := rows + [cur];
          RowBeyond(was, count, before, |rows|);
        }
        cur := cur[w.reg := Masked(w.reg, w.val)];
      }
      ghost var top := if w.at < before then before else w.at;
      forall f | 0 <= f <= |rows| ensures Row(late, count, f) ==
          if top <= f && 0 <= w.reg < count then Row(was, count, f)[w.reg := Masked(w.reg, w.val)]
              else Row(was, count, f)
      {
        RowAppend(was, w.(at := top), count, f);
      }
      k := k + 1;
    }
    assert framed[..k] == framed;
    FinalRow(framed, late, count, cur);
    rows := rows + [cur];
    GridInTime(rows, framed, count);
  }

  lemma FinalRow(framed: seq<Write>, late: seq<Write>, count: nat, cur: seq<int>)
    requires late == Delayed(framed, count) && cur == Row(late, count, Top(framed, count))
    ensures Top(late, count) == Top(framed, count)
    ensures forall f: nat :: f >= Top(framed, count) ==> Row(late, count, f) == cur
  {
    hide Row;
    DelayedTop(framed, count);
    forall f: nat | f >= Top(framed, count) ensures Row(late, count, f) == cur {
      RowBeyond(late, count, Top(framed, count), f);
    }
  }

  lemma GridInTime(rows: seq<seq<int>>, framed: seq<Write>, count: nat)
    requires IsGrid(rows, Delayed(framed, count), count)
    ensures Ordered(framed) ==> IsGrid(rows, framed, count)
  {
    hide Row, Ordered, Delayed, Top;
    DelayedTop(framed, count);
    if Ordered(framed) {
      forall f: nat ensures Filled(rows, f) == Row(framed, count, f) {
        OrderedInTime(framed, count, f);
      }
    }
  }

  lemma EmptyRow(count: nat)
    ensures Row([], count, 0) == seq(count, _ => 0) && Top([], count) == 0 && Delayed([], count) == []
  {
  }

  // ----- the same, cell by cell

  /** Registers 3, 10 and 17, the high bytes of the pulse widths, keep the low nibble; others the whole value. */
  lemma MaskedIs(reg: int, high: int, low: nat)
    requires low < 16
    ensures Masked(reg, 16 * high + low) == if reg == 3 || reg == 10 || reg == 17 then low else 16 * high + low
  {
  }

  /** The value is the masked one of the last write to `reg` that is in frame `f` or before, 0 without one. */
  ghost predicate LastWritten(writes: seq<Write>, reg: int, f: int, value: int) {
    || (value == 0 && forall k {:trigger writes[k]} :: 0 <= k < |writes| ==>
          !(writes[k].reg == reg && writes[k].at <= f))
    || exists k {:trigger writes[k]} :: 0 <= k < |writes| && writes[k].reg == reg && writes[k].at <= f
         && value == Masked(reg, writes[k].val)
         && forall j {:trigger writes[j]} :: k < j < |writes| ==> !(writes[j].reg == reg && writes[j].at <= f)
  }

  lemma {:induction false} LastByIs(writes: seq<Write>, reg: int, f: int)
    ensures LastWritten(writes, reg, f, LastBy(writes, reg, f))
  {
    if writes != [] {
      var n := |writes| - 1;
      if !(writes[n].reg == reg && writes[n].at <= f) {
        LastByIs(writes[..n], reg, f);
        assert forall k {:trigger writes[k]} :: 0 <= k < n ==> writes[..n][k] == writes[k];
      }
    }
  }

  /** Every cell of a grid, and of the last row going on, is that. */
  lemma GridCells(rows: seq<seq<int>>, framed: seq<Write>, count: nat, f: nat, r: nat)
    requires IsGrid(rows, framed, count) && r < count
    ensures rows != [] && |Filled(rows, f)| == count && LastWritten(framed, r, f, Filled(rows, f)[r])
  {
    LastByIs(framed, r, f);
  }

  /** The last frame a write kept is in, 0 when none is later. */
  lemma {:induction false} TopIs(writes: seq<Write>, count: nat)
    ensures forall k {:trigger writes[k]} :: 0 <= k < |writes| && 0 <= writes[k].reg < count ==>
      writes[k].at <= Top(writes, count)
    ensures Top(writes, count) == 0 || exists k {:trigger writes[k]} ::
      0 <= k < |writes| && 0 <= writes[k].reg < count && writes[k].at == Top(writes, count)
  {
    if writes != [] {
      var n := |writes| - 1;
      TopIs(writes[..n], count);
      assert forall k {:trigger writes[k]} :: 0 <= k < n ==> writes[..n][k] == writes[k];
    }
  }

  /** A late write counts for the last frame a write kept before it opened, another for its own. */
  lemma {:induction false} DelayedIs(framed: seq<Write>, count: nat, k: nat)
    requires k < |framed|
    ensures Delayed(framed, count)[k] ==
      var w, top := framed[k], Top(framed[..k], count); if w.at < top then Write(top, w.reg, w.val) else w
  {
    var n := |framed| - 1;
    if k < n {
      DelayedIs(framed[..n], count, k);
      assert framed[..n][..k] == framed[..k];
    }
  }

  // ----- grid_from_writes

  /** The anchor: the first write after a gap of more than `gap` cycles, else the first write. */
  ghost predicate IsAnchor(writes: seq<Write>, gap: int, t0: int)
    requires writes != []
  {
    || (Close(writes, gap, |writes|) && t0 == writes[0].at)
    || exists k {:trigger writes[k]} :: 0 < k < |writes| && t0 == writes[k].at && t0 - writes[k - 1].at > gap
                                         && Close(writes, gap, k)
  }

  /** The first `n` writes follow each other within `gap` cycles. */
  predicate Close(writes: seq<Write>, gap: int, n: nat)
    requires n <= |writes|
  {
    forall j {:trigger writes[j]} :: 0 < j < n ==> writes[j].at - writes[j - 1].at <= gap
  }

  method Anchor(writes: seq<Write>, gap: int) returns (t0: int)
    requires writes != []
    ensures IsAnchor(writes, gap, t0)
  {
    var k := 1;
    while k < |writes|
      invariant 1 <= k <= |writes|
      invariant Close(writes, gap, k)
    {
      if writes[k].at - writes[k - 1].at > gap {
        return writes[k].at;
      }
      k := k + 1;
    }
    t0 := writes[0].at;
  }

  /** Writes before the anchor are the baseline, frame -1; the others go to the nearest frame. */
  function FrameOf(clock: int, t0: int, cpf: int): (f: int)
    requires cpf > 0
    ensures f >= -1
  {
    if clock < t0 then -1 else (clock - t0 + cpf / 2) / cpf
  }

  /** The nearest frame is the one whose start is within half a frame. */
  lemma FrameNearest(clock: int, t0: int, cpf: int)
    requires cpf > 0
    ensures var f := FrameOf(clock, t0, cpf);
      if clock < t0 then f == -1
      else f >= 0 && t0 + f * cpf - cpf / 2 <= clock < t0 + f * cpf + (cpf - cpf / 2)
  {
    if clock >= t0 {
      var x := clock - t0 + cpf / 2;
      assert x == x / cpf * cpf + x % cpf;
    }
  }

  function Framed(writes: seq<Write>, t0: int, cpf: int): (framed: seq<Write>)
    requires cpf > 0
    ensures |framed| == |writes|
    ensures forall k {:trigger framed[k]} :: 0 <= k < |writes| ==>
      framed[k] == Write(FrameOf(writes[k].at, t0, cpf), writes[k].reg, writes[k].val)
  {
    seq(|writes|, k requires 0 <= k < |writes| =>
      Write(FrameOf(writes[k].at, t0, cpf), writes[k].reg, writes[k].val))
  }

  lemma FrameOfMonotone(a: int, b: int, t0: int, cpf: int)
    requires cpf > 0 && a <= b
    ensures FrameOf(a, t0, cpf) <= FrameOf(b, t0, cpf)
  {
    if a >= t0 {
      DivMonotone(a - t0 + cpf / 2, b - t0 + cpf / 2, cpf);
    }
  }

  lemma DivMonotone(a: int, b: int, d: int)
    requires d > 0 && a <= b
    ensures a / d <= b / d
  {
    var x, y := a / d, b / d;
    assert d * x <= a && b < d * y + d;
    assert d * (x - y) < d;
    assert x - y < 1 by { if x - y >= 1 { Positive(d, x - y); } }
  }

  lemma Positive(d: int, k: int)
    requires d > 0 && k >= 1
    ensures d * k >= d
  {
  }

  /** The grid of a clocked write log: each write in the frame its clock is nearest to, counted from
      the anchor, or in a later one that an earlier entry of the log has opened. */
  method GridFromWrites(writes: seq<Write>, cpf: int, count: nat, gap: int) returns (rows: seq<seq<int>>, ghost t0: int)
    requires cpf > 0
    ensures writes == [] ==> rows == []
    ensures writes != [] ==> IsAnchor(writes, gap, t0) && IsGrid(rows, Delayed(Framed(writes, t0, cpf), count), count)
    ensures writes != [] && Ordered(writes) ==> IsGrid(rows, Framed(writes, t0, cpf), count)
  {
    hide IsGrid;
    if writes == [] {
      return [], 0;
    }
    var anchor := Anchor(writes, gap);
    t0 := anchor;
    var framed := Framed(writes, anchor, cpf);
    FramedOrdered(writes, anchor, cpf);
    rows := FrameGrid(framed, count);
  }

  lemma FramedOrdered(writes: seq<Write>, t0: int, cpf: int)
    requires cpf > 0
    ensures Ordered(writes) ==> Ordered(Framed(writes, t0, cpf))
  {
    if Ordered(writes) {
      var framed := Framed(writes, t0, cpf);
      forall i, j | 0 <= i < j < |framed| ensures framed[i].at <= framed[j].at {
        FrameOfMonotone(writes[i].at, writes[j].at, t0, cpf);
      }
    }
  }
}
