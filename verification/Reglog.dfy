/** Register write logs: `player.MemPlayer`'s per-frame writes, `reglog.register_writes_from_player`,
    and the round trip through `oracle.grid_from_writes`.
 */
module Reglog {
  import opened Options
  import opened Grids

  const REGS := 25

  /** A register file: 25 bytes. */
  predicate IsFile(regs: seq<int>) {
    |regs| == REGS && forall r :: 0 <= r < REGS ==> 0 <= regs[r] < 256
  }

  // ----- the player

  /** What one play call does to the player's memory, and the register file it reads back. */
  datatype Tune<!M(!new)> = Tune(frame: M -> M, snapshot: M -> seq<int>) {
    ghost predicate Valid() {
      forall m :: IsFile(snapshot(m))
    }
  }

  /** The memory after `n` play calls. */
  function After<M(!new)>(tune: Tune<M>, mem: M, n: nat): M {
    if n == 0 then mem else tune.frame(After(tune, mem, n - 1))
  }

  /** The register file of each of the next `n` frames. */
  function Files<M(!new)>(tune: Tune<M>, mem: M, n: nat): (files: seq<seq<int>>)
    ensures |files| == n && (tune.Valid() ==> AreFiles(files))
    ensures forall i :: 0 <= i < n ==> files[i] == tune.snapshot(After(tune, mem, i + 1))
  {
    if n == 0 then [] else Files(tune, mem, n - 1) + [tune.snapshot(After(tune, mem, n))]
  }

  lemma FilesNext<M(!new)>(tune: Tune<M>, mem: M, n: nat)
    ensures Files(tune, mem, n + 1) == Files(tune, mem, n) + [tune.snapshot(After(tune, mem, n + 1))]
    ensures After(tune, mem, 0) == mem && After(tune, mem, n + 1) == tune.frame(After(tune, mem, n))
  {
  }

  /** The registers of `regs`, from `r` on, that differ from `last`; all of them without a `last`. */
  function Changed(regs: seq<int>, last: Option<seq<int>>, r: nat): (writes: seq<(int, int)>)
    requires IsFile(regs) && (last.Some? ==> IsFile(last.value)) && r <= REGS
    ensures |writes| <= REGS - r && (last.None? ==> |writes| == REGS - r)
    ensures forall k :: 0 <= k < |writes| ==> r <= writes[k].0 < REGS && writes[k].1 == regs[writes[k].0]
    decreases REGS - r
  {
    if r == REGS then []
    else (if last.None? || last.value[r] != regs[r] then [(r, regs[r])] else []) + Changed(regs, last, r + 1)
  }

  class Player<M(!new)> {
    const tune: Tune<M>
    var mem: M
    var regs: seq<int>
    var last: Option<seq<int>>

    ghost predicate Valid()
      reads this
    {
      tune.Valid() && IsFile(regs) && Starts(regs, last)
    }

    constructor (tune: Tune<M>, mem: M)
      requires tune.Valid()
      ensures Valid() && this.tune == tune && this.mem == mem
      ensures regs == tune.snapshot(mem) && last == None
    {
      this.tune, this.mem, regs, last := tune, mem, tune.snapshot(mem), None;
    }

    method PlayFrame() returns (writes: seq<(int, int)>)
      requires Valid()
      modifies this
      ensures Valid() && mem == tune.frame(old(mem))
      ensures regs == tune.snapshot(mem) && last == Some(regs)
      ensures writes == Changed(regs, old(last), 0)
    {
      mem := tune.frame(mem);
      regs := tune.snapshot(mem);
      writes := Changed(regs, last, 0);
      last := Some(regs);
    }

    method RenderGrid(n: nat) returns (rows: seq<seq<int>>)
      requires Valid()
      modifies this
      ensures Valid() && rows == Files(tune, old(mem), n) && mem == After(tune, old(mem), n)
    {
      rows := [];
      var i := 0;
      while i < n
        invariant i <= n && Valid() && rows == Files(tune, old(mem), i) && mem == After(tune, old(mem), i)
      {
        var _ := PlayFrame();
        rows := rows + [regs];
        i := i + 1;
      }
    }

    /** The write log of the next `n` frames, after the register file as a baseline at clock 0;
        None when a frame's writes could overrun it. */
    method RegisterWrites(n: nat, cpf: int, spacing: int) returns (log: Option<seq<Write>>)
      requires Valid()
      modifies this
      ensures log.None? <==> spacing * REGS >= cpf
      ensures log.Some? ==> log.value == LogFrom(old(regs), old(last), Files(tune, old(mem), n), cpf, spacing)
    {
      if spacing * REGS >= cpf {
        return None;
      }
      hide Changed, LogFrom, Placed, AreFiles, IsFile, After, Rebased, Files, Before;
      ghost var first, base, before := mem, regs, last;
      ChangedRegisters(regs, None);
      var out := FrameWrites([], Changed(regs, None, 0), 0, spacing, 0);
      LogBase(base, last, cpf, spacing);
      NoFiles(tune, mem, last);
      var f := 0;
      while f < n
        invariant f <= n && Valid() && mem == After(tune, first, f)
        invariant last == Before(before, Files(tune, first, f))
        invariant out == LogFrom(base, before, Files(tune, first, f), cpf, spacing)
      {
        FrameLogged(tune, first, base, before, f, cpf, spacing);
        ChangedRegisters(tune.snapshot(tune.frame(mem)), last);
        var writes := PlayFrame();
        out := FrameWrites(out, writes, (f + 1) * cpf, spacing, 0);
        f := f + 1;
      }
      log := Some(out);
    }
  }

  lemma NoFiles<M(!new)>(tune: Tune<M>, mem: M, last: Option<seq<int>>)
    ensures After(tune, mem, 0) == mem && Files(tune, mem, 0) == [] && Before(last, []) == last
  {
  }

  /** What one more frame adds to the log. */
  lemma FrameLogged<M(!new)>(tune: Tune<M>, mem: M, base: seq<int>, last: Option<seq<int>>, f: nat, cpf: int,
        spacing: int)
    requires tune.Valid() && IsFile(base) && (last.Some? ==> IsFile(last.value))
    ensures var files, now := Files(tune, mem, f), After(tune, mem, f + 1);
      && now == tune.frame(After(tune, mem, f)) && IsFile(tune.snapshot(now))
      && (Before(last, files).Some? ==> IsFile(Before(last, files).value))
      && Before(last, Files(tune, mem, f + 1)) == Some(tune.snapshot(now))
      && LogFrom(base, last, Files(tune, mem, f + 1), cpf, spacing) ==
           LogFrom(base, last, files, cpf, spacing)
           + Placed(Changed(tune.snapshot(now), Before(last, files), 0), (f + 1) * cpf, spacing)
  {
    hide Changed, LogFrom, Placed, IsFile;
    FilesNext(tune, mem, f);
    LogAppend(base, last, Files(tune, mem, f), tune.snapshot(After(tune, mem, f + 1)), cpf, spacing);
  }

  lemma ChangedRegisters(regs: seq<int>, last: Option<seq<int>>)
    requires IsFile(regs) && (last.Some? ==> IsFile(last.value))
    ensures Rebased(Changed(regs, last, 0), 0) == Changed(regs, last, 0)
  {
    RebasedSame(Changed(regs, last, 0));
  }

  // ----- the log

  /** A frame's writes as register offsets from `base`; those that are no SID register are dropped. */
  function Rebased(writes: seq<(int, int)>, base: int): (kept: seq<(int, int)>)
    ensures |kept| <= |writes| && forall k {:trigger kept[k]} :: 0 <= k < |kept| ==> 0 <= kept[k].0 < REGS
  {
    if writes == [] then []
    else
      var last := writes[|writes| - 1];
      Rebased(writes[..|writes| - 1], base)
      + if 0 <= last.0 - base < REGS then [(last.0 - base, last.1)] else []
  }

  lemma RebasedAppend(writes: seq<(int, int)>, k: nat, base: int)
    requires k < |writes|
    ensures Rebased(writes[..k + 1], base) == Rebased(writes[..k], base)
      + if 0 <= writes[k].0 - base < REGS then [(writes[k].0 - base, writes[k].1)] else []
  {
    assert writes[..k + 1][..k] == writes[..k];
  }

  /** The places before `k` whose writes are to a SID register based at `base`. */
  ghost function Kept(writes: seq<(int, int)>, base: int, k: nat): set<nat> {
    set j: nat | j < k && j < |writes| && 0 <= writes[j].0 - base < 25
  }

  lemma KeptNext(writes: seq<(int, int)>, base: int)
    requires writes != []
    ensures var n := |writes| - 1;
      && Kept(writes, base, n + 1) == Kept(writes, base, n) + (if 0 <= writes[n].0 - base < 25 then {n} else {})
      && n !in Kept(writes, base, n)
  {
  }

  lemma KeptSame(writes: seq<(int, int)>, base: int, k: nat)
    requires writes != [] && k < |writes|
    ensures Kept(writes[..|writes| - 1], base, k) == Kept(writes, base, k)
  {
    var rest := writes[..|writes| - 1];
    forall j: nat ensures j in Kept(rest, base, k) <==> j in Kept(writes, base, k) {
      if j < k {
        assert rest[j] == writes[j];
      }
    }
  }

  /** As many are kept as are within 25 registers of the base. */
  lemma {:induction false} RebasedCount(writes: seq<(int, int)>, base: int)
    ensures |Rebased(writes, base)| == |Kept(writes, base, |writes|)|
  {
    if writes != [] {
      var n := |writes| - 1;
      KeptNext(writes, base);
      KeptSame(writes, base, n);
      RebasedCount(writes[..n], base);
    }
  }

  /** A write within 25 registers of the base is kept, after those before it, as its offset and byte. */
  lemma {:induction false} RebasedAt(writes: seq<(int, int)>, base: int, i: nat)
    requires i < |writes| && 0 <= writes[i].0 - base < 25
    ensures |Kept(writes, base, i)| < |Rebased(writes, base)|
    ensures Rebased(writes, base)[|Kept(writes, base, i)|] == (writes[i].0 - base, writes[i].1)
  {
    hide Kept;
    var n := |writes| - 1;
    KeptSame(writes, base, i);
    if i < n {
      assert writes[..n][i] == writes[i];
      RebasedAt(writes[..n], base, i);
    } else {
      RebasedCount(writes[..n], base);
    }
  }

  /** Offsets of SID registers are kept as they are. */
  lemma {:induction false} RebasedSame(writes: seq<(int, int)>)
    requires forall k {:trigger writes[k]} :: 0 <= k < |writes| ==> 0 <= writes[k].0 < REGS
    ensures Rebased(writes, 0) == writes
  {
    if writes != [] {
      var rest := writes[..|writes| - 1];
      RebasedSame(rest);
      assert rest + [writes[|writes| - 1]] == writes;
    }
  }

  /** One frame's writes that are to SID registers are emitted in turn, each `spacing` cycles after the
      one before. */
  method FrameWrites(log: seq<Write>, writes: seq<(int, int)>, start: int, spacing: int, base: int)
      returns (out: seq<Write>)
    ensures out == log + Placed(Rebased(writes, base), start, spacing)
  {
    hide Rebased;
    out := log;
    var offset, k := 0, 0;
    NoneRebased(base);
    while k < |writes|
      invariant 0 <= k <= |writes| && offset == |Rebased(writes[..k], base)|
      invariant out == log + Placed(Rebased(writes[..k], base), start, spacing)
    {
      RebasedAppend(writes, k, base);
      var rebased := writes[k].0 - base;
      if 0 <= rebased < REGS {
        PlacedAppend(Rebased(writes[..k], base), (rebased, writes[k].1), start, spacing);
        out := out + [Write(start + offset * spacing, rebased, writes[k].1 % 256)];
        offset := offset + 1;
      }
      k := k + 1;
    }
    assert writes[..k] == writes;
  }

  lemma NoneRebased(base: int)
    ensures Rebased([], base) == []
  {
  }

  /** One frame's writes, `spacing` cycles apart from `start` on. */
  function Placed(writes: seq<(int, int)>, start: int, spacing: int): (log: seq<Write>)
    ensures |log| == |writes|
    ensures forall k {:trigger log[k]} :: 0 <= k < |writes| ==>
      log[k] == Write(start + k * spacing, writes[k].0, writes[k].1 % 256)
  {
    seq(|writes|, k requires 0 <= k < |writes| => Write(start + k * spacing, writes[k].0, writes[k].1 % 256))
  }

  lemma PlacedAppend(writes: seq<(int, int)>, w: (int, int), start: int, spacing: int)
    ensures Placed(writes + [w], start, spacing) ==
      Placed(writes, start, spacing) + [Write(start + |writes| * spacing, w.0, w.1 % 256)]
  {
  }

  /** The register file a frame's changes are against. */
  function Before(last: Option<seq<int>>, files: seq<seq<int>>): Option<seq<int>> {
    if files == [] then last else Some(files[|files| - 1])
  }

  ghost predicate AreFiles(files: seq<seq<int>>) {
    forall i {:trigger files[i]} :: 0 <= i < |files| ==> IsFile(files[i])
  }

  /** The log of some frames of a player whose last frame, if any, left `last`. */
  function LogFrom(base: seq<int>, last: Option<seq<int>>, files: seq<seq<int>>, cpf: int, spacing: int): seq<Write>
    requires IsFile(base) && AreFiles(files) && (last.Some? ==> IsFile(last.value))
  {
    if files == [] then Placed(Changed(base, None, 0), 0, spacing)
    else
      var rest := files[..|files| - 1];
      LogFrom(base, last, rest, cpf, spacing)
      + Placed(Changed(files[|files| - 1], Before(last, rest), 0), |files| * cpf, spacing)
  }

  lemma LogBase(base: seq<int>, last: Option<seq<int>>, cpf: int, spacing: int)
    requires IsFile(base) && (last.Some? ==> IsFile(last.value))
    ensures LogFrom(base, last, [], cpf, spacing) == Placed(Changed(base, None, 0), 0, spacing)
  {
  }

  lemma LogAppend(base: seq<int>, last: Option<seq<int>>, files: seq<seq<int>>, next: seq<int>, cpf: int, spacing: int)
    requires IsFile(base) && IsFile(next) && AreFiles(files) && (last.Some? ==> IsFile(last.value))
    ensures LogFrom(base, last, files + [next], cpf, spacing) ==
      LogFrom(base, last, files, cpf, spacing)
      + Placed(Changed(next, Before(last, files), 0), (|files| + 1) * cpf, spacing)
  {
    assert (files + [next])[..|files|] == files;
  }

  /** The log of some frames begins every longer log, so an endless one too. */
  lemma {:induction false} LogPrefix(base: seq<int>, last: Option<seq<int>>, files: seq<seq<int>>, n: nat,
      cpf: int, spacing: int)
    requires IsFile(base) && AreFiles(files) && (last.Some? ==> IsFile(last.value)) && n <= |files|
    ensures LogFrom(base, last, files[..n], cpf, spacing) <= LogFrom(base, last, files, cpf, spacing)
  {
    hide Placed, Changed, IsFile;
    if n < |files| {
      var rest := files[..|files| - 1];
      LogPrefix(base, last, rest, n, cpf, spacing);
      assert rest[..n] == files[..n];
      LogLast(base, last, files, cpf, spacing);
    } else {
      assert files[..n] == files;
    }
  }

  lemma LogLast(base: seq<int>, last: Option<seq<int>>, files: seq<seq<int>>, cpf: int, spacing: int)
    requires IsFile(base) && AreFiles(files) && (last.Some? ==> IsFile(last.value)) && files != []
    ensures AreFiles(files[..|files| - 1])
    ensures LogFrom(base, last, files[..|files| - 1], cpf, spacing) <= LogFrom(base, last, files, cpf, spacing)
  {
    hide Placed, Changed, IsFile;
    var rest := files[..|files| - 1];
    assert rest + [files[|files| - 1]] == files;
    LogAppend(base, last, rest, files[|files| - 1], cpf, spacing);
  }

  // ----- the round trip

  function MaskedFile(regs: seq<int>): (masked: seq<int>)
    ensures |masked| == |regs| && forall r {:trigger masked[r]} :: 0 <= r < |regs| ==> masked[r] == Masked(r, regs[r])
  {
    seq(|regs|, r requires 0 <= r < |regs| => Masked(r, regs[r]))
  }

  /** The grid gives back the frames, pulse-width highs masked, up to unchanged frames at the end. */
  ghost predicate RoundTrips(rows: seq<seq<int>>, files: seq<seq<int>>)
    requires files != []
  {
    && 0 < |rows| <= |files|
    && forall i {:trigger files[i]} :: 0 <= i < |files| ==> Filled(rows, i) == MaskedFile(files[i])
  }

  /** A frame's writes are no gap, the wait for the first frame that writes is one, and a frame's last
      write is still nearest to its own frame. */
  predicate Separated(cpf: int, spacing: int, gap: int) {
    spacing <= gap && cpf - 24 * spacing > gap && 24 * spacing < cpf - cpf / 2
  }

  ghost predicate Lists(writes: seq<(int, int)>, q: int) {
    exists k :: 0 <= k < |writes| && writes[k].0 == q
  }

  lemma ListsCons(w: (int, int), rest: seq<(int, int)>, q: int)
    ensures Lists([w] + rest, q) <==> w.0 == q || Lists(rest, q)
  {
    var all := [w] + rest;
    assert all[0] == w;
    forall k | 0 <= k < |rest| ensures all[k + 1] == rest[k] {
    }
    if w.0 != q && Lists(all, q) {
      var k :| 0 <= k < |all| && all[k].0 == q;
      assert rest[k - 1].0 == q;
    } else if Lists(rest, q) {
      var k :| 0 <= k < |rest| && rest[k].0 == q;
      assert all[k + 1].0 == q;
    }
  }

  lemma {:induction false} ChangedAscends(regs: seq<int>, last: Option<seq<int>>, r: nat)
    requires IsFile(regs) && (last.Some? ==> IsFile(last.value)) && r <= REGS
    ensures Ascends(Changed(regs, last, r))
    decreases REGS - r
  {
    hide Ascends;
    if r == REGS {
      NoneAscend();
    } else {
      ChangedAscends(regs, last, r + 1);
      var rest := Changed(regs, last, r + 1);
      AscendsCons((r, regs[r]), rest);
      assert [] + rest == rest;
    }
  }

  lemma NoneAscend()
    ensures Ascends([])
  {
  }

  lemma AscendsCons(w: (int, int), rest: seq<(int, int)>)
    requires Ascends(rest) && forall k {:trigger rest[k]} :: 0 <= k < |rest| ==> w.0 < rest[k].0
    ensures Ascends([w] + rest)
  {
  }

  ghost predicate Ascends(writes: seq<(int, int)>) {
    forall j, k :: 0 <= j < k < |writes| ==> writes[j].0 < writes[k].0
  }

  lemma {:induction false} ChangedLists(regs: seq<int>, last: Option<seq<int>>, r: nat, q: nat)
    requires IsFile(regs) && (last.Some? ==> IsFile(last.value)) && r <= REGS
    ensures Lists(Changed(regs, last, r), q) <==> r <= q < REGS && (last.None? || last.value[q] != regs[q])
    decreases REGS - r
  {
    if r < REGS {
      ChangedLists(regs, last, r + 1, q);
      hide Lists;
      var rest := Changed(regs, last, r + 1);
      ListsCons((r, regs[r]), rest, q);
      assert [] + rest == rest;
    }
  }

  lemma {:induction false} ChangedAll(regs: seq<int>, r: nat, k: nat)
    requires IsFile(regs) && r + k < REGS
    ensures |Changed(regs, None, r)| == REGS - r && Changed(regs, None, r)[k] == (r + k, regs[r + k])
    decreases REGS - r
  {
    if k > 0 {
      ChangedAll(regs, r + 1, k - 1);
    }
  }

  /** Writes of one frame to distinct registers: the last value is theirs where they wrote. */
  lemma {:induction false} LastByConcat(writes: seq<Write>, more: seq<Write>, reg: int, f: int, k: int)
    requires forall j {:trigger more[j]} :: 0 <= j < |more| ==> (more[j].reg == reg <==> j == k)
    ensures LastBy(writes + more, reg, f) ==
      if 0 <= k < |more| && more[k].at <= f then Masked(reg, more[k].val) else LastBy(writes, reg, f)
  {
    if more == [] {
      assert writes + more == writes;
    } else {
      var n := |more| - 1;
      LastByConcat(writes, more[..n], reg, f, if k < n then k else -1);
      LastByAppend(writes + more[..n], more[n], reg, f);
      assert writes + more == (writes + more[..n]) + [more[n]];
    }
  }

  lemma FilesSplit(files: seq<seq<int>>, last: Option<seq<int>>)
    requires AreFiles(files) && files != [] && (last.Some? ==> IsFile(last.value))
    ensures AreFiles(files[..|files| - 1]) && IsFile(files[|files| - 1])
    ensures files == files[..|files| - 1] + [files[|files| - 1]]
    ensures Before(last, files[..|files| - 1]).Some? ==> IsFile(Before(last, files[..|files| - 1]).value)
  {
  }

  // ----- fresh players and players that have played

  /** A fresh player, or one whose last frame left the register file it has. */
  predicate Starts(base: seq<int>, last: Option<seq<int>>) {
    last.None? || last == Some(base)
  }

  lemma ChangedNone(regs: seq<int>, last: Option<seq<int>>)
    requires IsFile(regs) && (last.Some? ==> IsFile(last.value))
    ensures Changed(regs, last, 0) == [] <==> last == Some(regs)
  {
    hide Changed;
    forall q: nat | q < REGS ensures Lists(Changed(regs, last, 0), q) <==> last.None? || last.value[q] != regs[q] {
      ChangedLists(regs, last, 0, q);
    }
    if Changed(regs, last, 0) == [] {
      assert !Lists(Changed(regs, last, 0), 0);
      assert last.Some? && forall q: nat :: q < REGS ==> last.value[q] == regs[q];
      assert last.value == regs;
    } else {
      var w := Changed(regs, last, 0)[0];
      assert Lists(Changed(regs, last, 0), w.0);
    }
  }

  /** The first frame that writes a register; the number of frames when none does. */
  function FirstChange(last: Option<seq<int>>, files: seq<seq<int>>): (f: nat)
    requires AreFiles(files) && (last.Some? ==> IsFile(last.value))
    ensures f <= |files|
  {
    if files == [] then 0
    else
      var rest := files[..|files| - 1];
      var f := FirstChange(last, rest);
      if f < |rest| || Changed(files[|files| - 1], Before(last, rest), 0) != [] then f else |files|
  }

  /** A fresh player writes in its first frame; one that has played, in the first that leaves another
      register file. */
  lemma {:induction false} FirstChangeMeans(base: seq<int>, last: Option<seq<int>>, files: seq<seq<int>>)
    requires IsFile(base) && AreFiles(files) && Starts(base, last)
    ensures var f := FirstChange(last, files);
      && (last.None? ==> f == 0)
      && (last.Some? ==> (forall j: nat :: j < f ==> files[j] == base) && (f < |files| ==> files[f] != base))
  {
    hide Changed, IsFile, AreFiles, FirstChange;
    if files != [] {
      FilesSplit(files, last);
      var rest := files[..|files| - 1];
      FirstChangeMeans(base, last, rest);
      FirstChangeLast(last, files);
      if last.Some? {
        SameSoFar(base, last, rest, FirstChange(last, rest), files, FirstChange(last, files));
      }
    }
  }

  lemma SameSoFar(base: seq<int>, last: Option<seq<int>>, rest: seq<seq<int>>, g: nat, files: seq<seq<int>>, f: nat)
    requires files != [] && rest == files[..|files| - 1] && last == Some(base) && g <= |rest|
    requires (forall j: nat :: j < g ==> rest[j] == base) && (g < |rest| ==> rest[g] != base)
    requires f == if g < |rest| || Before(last, rest) != Some(files[|files| - 1]) then g else |files|
    ensures f <= |files| && (forall j: nat :: j < f ==> files[j] == base) && (f < |files| ==> files[f] != base)
  {
    if g < |rest| {
      assert files[g] == rest[g];
      forall j: nat | j < f ensures files[j] == base {
        assert rest[j] == base;
      }
    } else {
      assert Before(last, rest) == Some(base);
      forall j: nat | j < |rest| ensures files[j] == base {
        assert rest[j] == base;
      }
    }
  }

  lemma FirstChangeLast(last: Option<seq<int>>, files: seq<seq<int>>)
    requires AreFiles(files) && (last.Some? ==> IsFile(last.value)) && files != []
    ensures AreFiles(files[..|files| - 1])
    ensures var rest, next := files[..|files| - 1], files[|files| - 1];
      var f := FirstChange(last, rest);
      FirstChange(last, files) == if f < |rest| || Before(last, rest) != Some(next) then f else |files|
  {
    hide Changed, IsFile;
    FilesSplit(files, last);
    ChangedNone(files[|files| - 1], Before(last, files[..|files| - 1]));
  }

  /** The log begins with the baseline at clock 0; what follows, if anything, begins with the first frame
      that writes, at its clock. */
  lemma {:induction false} LogStart(base: seq<int>, last: Option<seq<int>>, files: seq<seq<int>>, cpf: int,
        spacing: int)
    requires IsFile(base) && AreFiles(files) && (last.Some? ==> IsFile(last.value))
    ensures var log, f := LogFrom(base, last, files, cpf, spacing), FirstChange(last, files);
      && |log| >= REGS && (forall k {:trigger log[k]} :: 0 <= k < REGS ==> log[k] == Write(k * spacing, k, base[k]))
      && (f < |files| <==> |log| > REGS) && (f < |files| ==> log[REGS].at == (f + 1) * cpf)
  {
    hide Changed, LogFrom, AreFiles;
    if files == [] {
      LogBase(base, last, cpf, spacing);
      forall k: nat | k < REGS ensures |Changed(base, None, 0)| == REGS && Changed(base, None, 0)[k] == (k, base[k]) {
        ChangedAll(base, 0, k);
      }
    } else {
      var rest, next := files[..|files| - 1], files[|files| - 1];
      FilesSplit(files, last);
      LogStart(base, last, rest, cpf, spacing);
      LogAppend(base, last, rest, next, cpf, spacing);
    }
  }

  ghost predicate Within(log: seq<Write>, low: int, high: int) {
    Ordered(log) && forall k {:trigger log[k]} :: 0 <= k < |log| ==> low <= log[k].at <= high
  }

  lemma WithinConcat(a: seq<Write>, b: seq<Write>, low: int, mid: int, start: int, high: int)
    requires Within(a, low, mid) && Within(b, start, high) && low <= start && mid <= start && mid <= high
    ensures Within(a + b, low, high)
  {
  }

  /** The log is in clock order exactly when the spacing is not negative; it then ends within the last
      frame's writes. */
  lemma LogOrdered(base: seq<int>, last: Option<seq<int>>, files: seq<seq<int>>, cpf: int, spacing: int)
    requires IsFile(base) && AreFiles(files) && (last.Some? ==> IsFile(last.value)) && 25 * spacing < cpf && cpf > 0
    ensures var log := LogFrom(base, last, files, cpf, spacing);
      && (Ordered(log) <==> spacing >= 0)
      && (spacing >= 0 ==> Within(log, 0, |files| * cpf + 24 * spacing))
  {
    hide LogFrom, AreFiles;
    if spacing >= 0 {
      LogWithin(base, last, files, cpf, spacing);
    } else {
      LogStart(base, last, files, cpf, spacing);
      var log := LogFrom(base, last, files, cpf, spacing);
      assert log[0].at == 0 && log[1].at == spacing;
    }
  }

  lemma {:induction false} LogWithin(base: seq<int>, last: Option<seq<int>>, files: seq<seq<int>>, cpf: int,
        spacing: nat)
    requires IsFile(base) && AreFiles(files) && (last.Some? ==> IsFile(last.value)) && 25 * spacing < cpf
    ensures Within(LogFrom(base, last, files, cpf, spacing), 0, |files| * cpf + 24 * spacing)
  {
    hide Changed, LogFrom, AreFiles, Placed, Within;
    if files == [] {
      LogBase(base, last, cpf, spacing);
      PlacedOrdered(Changed(base, None, 0), 0, spacing);
    } else {
      var rest, next := files[..|files| - 1], files[|files| - 1];
      FilesSplit(files, last);
      LogWithin(base, last, rest, cpf, spacing);
      LogAppend(base, last, rest, next, cpf, spacing);
      PlacedOrdered(Changed(next, Before(last, rest), 0), |files| * cpf, spacing);
      assert |files| * cpf == |rest| * cpf + cpf;
      assert 0 <= |rest| * cpf by { ScaledUp(0, |rest|, cpf); }
      WithinConcat(LogFrom(base, last, rest, cpf, spacing),
                   Placed(Changed(next, Before(last, rest), 0), |files| * cpf, spacing),
                   0, |rest| * cpf + 24 * spacing, |files| * cpf, |files| * cpf + 24 * spacing);
    }
  }

  lemma PlacedOrdered(writes: seq<(int, int)>, start: int, spacing: nat)
    requires |writes| <= REGS
    ensures Within(Placed(writes, start, spacing), start, start + 24 * spacing)
  {
    forall j: nat, k: nat | j <= k < |writes| ensures j * spacing <= k * spacing <= 24 * spacing {
      ScaledUp(j, k, spacing);
      ScaledUp(k, 24, spacing);
    }
  }

  lemma ScaledUp(j: nat, k: nat, s: nat)
    requires j <= k
    ensures 0 <= j * s <= k * s
  {
  }

  /** With separated frames the anchor is the first frame that writes, the baseline when none does. */
  lemma AnchorIsFirstChange(base: seq<int>, last: Option<seq<int>>, files: seq<seq<int>>, cpf: int, spacing: int,
      gap: int, t0: int)
    requires IsFile(base) && AreFiles(files) && (last.Some? ==> IsFile(last.value)) && cpf > 0
    requires spacing <= gap && cpf - 24 * spacing > gap
    ensures var log, f := LogFrom(base, last, files, cpf, spacing), FirstChange(last, files);
      log != [] && (IsAnchor(log, gap, t0) ==> t0 == if f < |files| then (f + 1) * cpf else 0)
  {
    hide LogFrom, AreFiles, IsAnchor, FirstChange;
    LogStart(base, last, files, cpf, spacing);
    var log, f := LogFrom(base, last, files, cpf, spacing), FirstChange(last, files);
    if f < |files| {
      ScaledUp(1, f + 1, cpf);
      OnlyAnchor(log, (f + 1) * cpf, spacing, gap, t0);
    } else {
      NoAnchor(log, spacing, gap, t0);
    }
  }

  lemma BaselineClose(log: seq<Write>, spacing: int, gap: int)
    requires |log| >= REGS && spacing <= gap
    requires forall k {:trigger log[k]} :: 0 <= k < REGS ==> log[k].at == k * spacing
    ensures Close(log, gap, REGS)
  {
    forall k {:trigger log[k]} | 0 < k < REGS ensures log[k].at - log[k - 1].at <= gap {
      assert k * spacing == (k - 1) * spacing + spacing;
    }
  }

  lemma OnlyAnchor(log: seq<Write>, first: int, spacing: int, gap: int, t0: int)
    requires |log| > REGS && log[REGS].at == first && spacing <= gap && first - 24 * spacing > gap
    requires forall k {:trigger log[k]} :: 0 <= k < REGS ==> log[k].at == k * spacing
    ensures IsAnchor(log, gap, t0) ==> t0 == first
  {
    BaselineClose(log, spacing, gap);
    assert log[25].at - log[24].at > gap;
  }

  lemma NoAnchor(log: seq<Write>, spacing: int, gap: int, t0: int)
    requires |log| == REGS && spacing <= gap
    requires forall k {:trigger log[k]} :: 0 <= k < REGS ==> log[k].at == k * spacing
    ensures IsAnchor(log, gap, t0) ==> t0 == 0
  {
    BaselineClose(log, spacing, gap);
  }

  // ----- the frames of the writes

  lemma DivBlock(q: nat, x: int, d: int)
    requires d > 0 && 0 <= x < d
    ensures (q * d + x) / d == q
  {
    var y := (q * d + x) / d;
    assert d * y <= q * d + x < d * y + d;
    assert d * (y - q) < d && d * (q - y) < d;
    if y - q >= 1 {
      Positive(d, y - q);
    } else if q - y >= 1 {
      Positive(d, q - y);
    }
  }

  /** Writes spaced from the clock of frame `j` are framed `s` frames earlier, counted from the clock of
      frame `s`: the first in it, the others no later. */
  lemma FrameOfWrite(j: nat, s: nat, k: nat, cpf: int, spacing: int)
    requires cpf > 0 && s <= j && k < REGS && 24 * spacing < cpf - cpf / 2
    ensures FrameOf((j + 1) * cpf, (s + 1) * cpf, cpf) == j - s
    ensures FrameOf((j + 1) * cpf + k * spacing, (s + 1) * cpf, cpf) <= j - s
  {
    var o := k * spacing;
    FrameOfCall(j, s, 0, cpf);
    if spacing >= 0 {
      ScaledUp(0, k, spacing);
      ScaledUp(k, 24, spacing);
      FrameOfCall(j, s, o, cpf);
    } else {
      assert o <= 0 by { ScaledUp(0, k, 0 - spacing); assert k * (0 - spacing) == 0 - o; }
      FrameOfMonotone((j + 1) * cpf + o, (j + 1) * cpf, (s + 1) * cpf, cpf);
    }
  }

  lemma FrameOfCall(j: nat, s: nat, o: int, cpf: int)
    requires cpf > 0 && s <= j && 0 <= o < cpf - cpf / 2
    ensures FrameOf((j + 1) * cpf + o, (s + 1) * cpf, cpf) == j - s
  {
    assert (j + 1) * cpf == (s + 1) * cpf + (j - s) * cpf;
    ScaledUp(0, j - s, cpf);
    DivBlock(j - s, o + cpf / 2, cpf);
  }

  /** The baseline is framed at 0 or before, whether the first frame that writes is the anchor or
      nothing is. */
  lemma FrameOfBaseline(k: nat, t0: int, cpf: int, spacing: int)
    requires cpf > 0 && k < REGS && 24 * spacing < cpf - cpf / 2 && (t0 == 0 || t0 >= cpf)
    ensures FrameOf(k * spacing, t0, cpf) <= 0
  {
    if spacing >= 0 {
      ScaledUp(0, k, spacing);
      ScaledUp(k, 24, spacing);
      if t0 == 0 {
        DivBlock(0, k * spacing + cpf / 2, cpf);
      }
    } else {
      assert k * spacing <= 0 by { ScaledUp(0, k, 0 - spacing); assert k * (0 - spacing) == 0 - k * spacing; }
      if k * spacing == 0 && t0 == 0 {
        DivBlock(0, cpf / 2, cpf);
      }
    }
  }

  lemma FramedConcat(a: seq<Write>, b: seq<Write>, t0: int, cpf: int)
    requires cpf > 0
    ensures Framed(a + b, t0, cpf) == Framed(a, t0, cpf) + Framed(b, t0, cpf)
  {
  }

  /** What one frame's changes leave: the register file, when the row before held the last one. */
  lemma ChangesApply(framed: seq<Write>, more: seq<Write>, regs: seq<int>, last: Option<seq<int>>, at: int, f: int)
    requires IsFile(regs) && (last.Some? ==> IsFile(last.value)) && at <= f
    requires |more| == |Changed(regs, last, 0)|
    requires forall k {:trigger more[k]} :: 0 <= k < |more| ==>
      more[k] == Write(at, Changed(regs, last, 0)[k].0, Changed(regs, last, 0)[k].1 % 256)
    requires last.Some? ==> Row(framed, REGS, f) == MaskedFile(last.value)
    ensures Row(framed + more, REGS, f) == MaskedFile(regs)
  {
    hide Changed, LastBy, Lists;
    ChangedAscends(regs, last, 0);
    forall q: nat | q < REGS ensures LastBy(framed + more, q, f) == Masked(q, regs[q]) {
      ChangedLists(regs, last, 0, q);
      if last.Some? {
        assert Row(framed, REGS, f)[q] == MaskedFile(last.value)[q];
      }
      ChangeApplies(framed, more, Changed(regs, last, 0), regs[q], if last.Some? then last.value[q] else -1, q, at, f);
    }
  }

  lemma ChangeApplies(framed: seq<Write>, more: seq<Write>, w: seq<(int, int)>, val: int, was: int, q: nat, at: int,
        f: int)
    requires |more| == |w| && at <= f && 0 <= val < 256
    requires forall k {:trigger more[k]} :: 0 <= k < |more| ==> more[k] == Write(at, w[k].0, w[k].1 % 256)
    requires Ascends(w)
    requires forall k {:trigger w[k]} :: 0 <= k < |w| ==> (w[k].0 == q ==> w[k].1 == val)
    requires Lists(w, q) <==> was != val
    requires was >= 0 ==> LastBy(framed, q, f) == Masked(q, was)
    ensures LastBy(framed + more, q, f) == Masked(q, val)
  {
    hide LastBy;
    var k := -1;
    if j :| 0 <= j < |w| && w[j].0 == q {
      k := j;
      assert more[k].reg == q;
    }
    LastByConcat(framed, more, q, f, k);
  }

  lemma LaterApart(framed: seq<Write>, more: seq<Write>, f: int)
    requires forall k {:trigger more[k]} :: 0 <= k < |more| ==> more[k].at > f
    ensures Row(framed + more, REGS, f) == Row(framed, REGS, f)
  {
    if more == [] {
      assert framed + more == framed;
    } else {
      var n := |more| - 1;
      LaterApart(framed, more[..n], f);
      RowAppend(framed + more[..n], more[n], REGS, f);
      assert framed + more == (framed + more[..n]) + [more[n]];
    }
  }

  function AtFrame(writes: seq<(int, int)>, f: int): (level: seq<Write>)
    ensures |level| == |writes|
    ensures forall k {:trigger level[k]} :: 0 <= k < |writes| ==> level[k] == Write(f, writes[k].0, writes[k].1 % 256)
  {
    seq(|writes|, k requires 0 <= k < |writes| => Write(f, writes[k].0, writes[k].1 % 256))
  }

  /** The log as it is framed from frame `s` on: the baseline in frame 0, frame `j`'s changes in frame
      `j - s`. */
  function Marked(base: seq<int>, last: Option<seq<int>>, files: seq<seq<int>>, s: nat): seq<Write>
    requires IsFile(base) && AreFiles(files) && (last.Some? ==> IsFile(last.value))
  {
    if files == [] then AtFrame(Changed(base, None, 0), 0)
    else
      var rest := files[..|files| - 1];
      Marked(base, last, rest, s) + AtFrame(Changed(files[|files| - 1], Before(last, rest), 0), |files| - 1 - s)
  }

  /** No frame before `s` writes. */
  ghost predicate QuietTo(last: Option<seq<int>>, files: seq<seq<int>>, s: nat)
    requires AreFiles(files) && (last.Some? ==> IsFile(last.value))
  {
    FirstChange(last, files) == |files| || s <= FirstChange(last, files)
  }

  lemma QuietFront(last: Option<seq<int>>, files: seq<seq<int>>, s: nat)
    requires AreFiles(files) && (last.Some? ==> IsFile(last.value)) && files != [] && QuietTo(last, files, s)
    ensures AreFiles(files[..|files| - 1]) && QuietTo(last, files[..|files| - 1], s)
    ensures |files| - 1 < s ==> Changed(files[|files| - 1], Before(last, files[..|files| - 1]), 0) == []
  {
    hide Changed, IsFile;
    FilesSplit(files, last);
  }

  /** Where frames are counted from: the first frame that writes or, if none does, the baseline. */
  ghost predicate CountsFrom(last: Option<seq<int>>, files: seq<seq<int>>, cpf: int, s: nat, t0: int)
    requires AreFiles(files) && (last.Some? ==> IsFile(last.value))
  {
    QuietTo(last, files, s) && (t0 == (s + 1) * cpf || (t0 == 0 && FirstChange(last, files) == |files|))
  }

  lemma LeveledPlaced(writes: seq<(int, int)>, start: int, spacing: int, t0: int, cpf: int, f: int)
    requires cpf > 0
    ensures Leveled(Framed(Placed(writes, start, spacing), t0, cpf), f) == AtFrame(writes, f)
  {
    hide FrameOf;
  }

  lemma BaselineFramed(writes: seq<(int, int)>, cpf: int, spacing: int, t0: int)
    requires cpf > 0 && 24 * spacing < cpf - cpf / 2 && (t0 == 0 || t0 >= cpf) && |writes| <= REGS
    requires forall k {:trigger writes[k]} :: 0 <= k < |writes| ==> 0 <= writes[k].0 < REGS
    ensures var framed := Framed(Placed(writes, 0, spacing), t0, cpf);
      forall k {:trigger framed[k]} :: 0 <= k < |framed| ==> framed[k].at <= 0 && 0 <= framed[k].reg < REGS
  {
    hide FrameOf;
    var framed := Framed(Placed(writes, 0, spacing), t0, cpf);
    forall k {:trigger framed[k]} | 0 <= k < |framed| ensures framed[k].at <= 0 && 0 <= framed[k].reg < REGS {
      FrameOfBaseline(k, t0, cpf, spacing);
      assert 0 <= writes[k].0 < REGS;
    }
  }

  lemma MarkedBase(base: seq<int>, cpf: int, spacing: int, t0: int)
    requires IsFile(base) && cpf > 0 && 24 * spacing < cpf - cpf / 2 && (t0 == 0 || t0 >= cpf)
    ensures var framed := Framed(Placed(Changed(base, None, 0), 0, spacing), t0, cpf);
      Delayed(framed, REGS) == AtFrame(Changed(base, None, 0), 0) && Top(framed, REGS) == 0
  {
    hide Changed, Delayed, Top, Framed, Placed, AtFrame, Leveled;
    var writes := Changed(base, None, 0);
    ChangedAll(base, 0, 0);
    BaselineFramed(writes, cpf, spacing, t0);
    LeveledPlaced(writes, 0, spacing, t0, cpf, 0);
    var framed := Framed(Placed(writes, 0, spacing), t0, cpf);
    EmptyRow(REGS);
    assert |framed| == REGS;
    DelayedBlock([], framed, 0, REGS);
    assert [] + framed == framed && [] + Leveled(framed, 0) == Leveled(framed, 0);
  }

  lemma MarkedNext(framed: seq<Write>, writes: seq<(int, int)>, j: nat, s: nat, cpf: int, spacing: int)
    requires cpf > 0 && 24 * spacing < cpf - cpf / 2 && s <= j && Top(framed, REGS) <= j - s
    requires |writes| <= REGS && forall k {:trigger writes[k]} :: 0 <= k < |writes| ==> 0 <= writes[k].0 < REGS
    ensures var more := Framed(Placed(writes, (j + 1) * cpf, spacing), (s + 1) * cpf, cpf);
      && Delayed(framed + more, REGS) == Delayed(framed, REGS) + AtFrame(writes, j - s)
      && Top(framed + more, REGS) <= j - s
  {
    hide Delayed, Top, FrameOf;
    var more := Framed(Placed(writes, (j + 1) * cpf, spacing), (s + 1) * cpf, cpf);
    if writes == [] {
      assert framed + more == framed && Delayed(framed, REGS) + AtFrame(writes, j - s) == Delayed(framed, REGS);
    } else {
      forall k {:trigger more[k]} | 0 <= k < |more| ensures more[k].at <= j - s && 0 <= more[k].reg < REGS {
        FrameOfWrite(j, s, k, cpf, spacing);
        assert writes[k] == writes[k];
      }
      FrameOfWrite(j, s, 0, cpf, spacing);
      assert more[0].at == j - s;
      DelayedBlock(framed, more, j - s, REGS);
      assert Leveled(more, j - s) == AtFrame(writes, j - s);
    }
  }

  /** Framing the log marks it so. */
  lemma {:induction false} MarkedIs(base: seq<int>, last: Option<seq<int>>, files: seq<seq<int>>, cpf: int,
      spacing: int, s: nat, t0: int)
    requires IsFile(base) && AreFiles(files) && (last.Some? ==> IsFile(last.value))
    requires cpf > 0 && 24 * spacing < cpf - cpf / 2 && CountsFrom(last, files, cpf, s, t0)
    ensures var framed := Framed(LogFrom(base, last, files, cpf, spacing), t0, cpf);
      && Delayed(framed, REGS) == Marked(base, last, files, s)
      && Top(framed, REGS) <= if |files| > s then |files| - 1 - s else 0
  {
    hide LogFrom, Changed, AreFiles, Placed, Framed, Delayed, Top, AtFrame, IsFile;
    if files == [] {
      ScaledUp(1, s + 1, cpf);
      LogBase(base, last, cpf, spacing);
      MarkedBase(base, cpf, spacing, t0);
    } else {
      var rest, next := files[..|files| - 1], files[|files| - 1];
      var j: nat := |rest|;
      FilesSplit(files, last);
      QuietFront(last, files, s);
      CountsFront(last, files, cpf, s, t0);
      MarkedIs(base, last, rest, cpf, spacing, s, t0);
      LogAppend(base, last, rest, next, cpf, spacing);
      var changes := Changed(next, Before(last, rest), 0);
      FramedConcat(LogFrom(base, last, rest, cpf, spacing), Placed(changes, (j + 1) * cpf, spacing), t0, cpf);
      if changes == [] {
        NothingPlaced(changes, (j + 1) * cpf, spacing, t0, cpf, j - s);
        var framed, marked := Framed(LogFrom(base, last, rest, cpf, spacing), t0, cpf), Marked(base, last, rest, s);
        assert framed + [] == framed && marked + [] == marked;
      } else {
        MarkedNext(Framed(LogFrom(base, last, rest, cpf, spacing), t0, cpf), changes, j, s, cpf, spacing);
      }
    }
  }

  lemma CountsFront(last: Option<seq<int>>, files: seq<seq<int>>, cpf: int, s: nat, t0: int)
    requires AreFiles(files) && (last.Some? ==> IsFile(last.value)) && files != [] &&
        CountsFrom(last, files, cpf, s, t0)
    ensures AreFiles(files[..|files| - 1]) && CountsFrom(last, files[..|files| - 1], cpf, s, t0)
    ensures t0 == (s + 1) * cpf || Changed(files[|files| - 1], Before(last, files[..|files| - 1]), 0) == []
  {
    hide Changed, IsFile;
    FilesSplit(files, last);
  }

  lemma NothingPlaced(writes: seq<(int, int)>, start: int, spacing: int, t0: int, cpf: int, f: int)
    requires writes == [] && cpf > 0
    ensures Framed(Placed(writes, start, spacing), t0, cpf) == [] && AtFrame(writes, f) == []
  {
  }

  /** The register file after `m` frames, the last one's after all. */
  function Shown(base: seq<int>, files: seq<seq<int>>, m: nat): seq<int> {
    if files == [] || m == 0 then base else files[if m <= |files| then m - 1 else |files| - 1]
  }

  /** Row `i` of the marked log is the register file after frame `s + i`. */
  lemma {:induction false} MarkedRows(base: seq<int>, last: Option<seq<int>>, files: seq<seq<int>>, s: nat, i: nat)
    requires IsFile(base) && AreFiles(files) && Starts(base, last) && QuietTo(last, files, s)
    ensures Row(Marked(base, last, files, s), REGS, i) == MaskedFile(Shown(base, files, s + i + 1))
  {
    hide Changed, AreFiles, Row, AtFrame, IsFile, QuietTo;
    if files == [] {
      ChangesApply([], AtFrame(Changed(base, None, 0), 0), base, None, 0, i);
      assert [] + AtFrame(Changed(base, None, 0), 0) == AtFrame(Changed(base, None, 0), 0);
    } else {
      var rest, next := files[..|files| - 1], files[|files| - 1];
      FilesSplit(files, last);
      QuietFront(last, files, s);
      MarkedRows(base, last, rest, s, i);
      var changes := Changed(next, Before(last, rest), 0);
      var marked, more := Marked(base, last, rest, s), AtFrame(changes, |rest| - s);
      if |rest| < s {
        ChangedNone(next, Before(last, rest));
        assert marked + [] == marked;
        NothingPlaced(changes, 0, 0, 0, 1, |rest| - s);
      } else if i < |rest| - s {
        LaterApart(marked, more, i);
      } else {
        ChangesApply(marked, more, next, Before(last, rest), |rest| - s, i);
      }
    }
  }

  // ----- the round trip, exactly

  /** What `grid_from_writes` makes of a log. */
  ghost predicate GridOf(rows: seq<seq<int>>, log: seq<Write>, cpf: int, gap: int, t0: int)
    requires cpf > 0
  {
    log != [] && IsAnchor(log, gap, t0) && IsGrid(rows, Delayed(Framed(log, t0, cpf), REGS), REGS)
  }

  /** Row `i` shows the frame `f` later, or the last. */
  ghost predicate RowShows(rows: seq<seq<int>>, files: seq<seq<int>>, f: nat, i: nat)
    requires files != []
  {
    && 0 < |rows| <= (if f < |files| then |files| - f else 1)
    && Filled(rows, i) == MaskedFile(files[if f + i < |files| then f + i else |files| - 1])
  }

  /** Row `i` of the log's grid is the file of the `i`-th frame from the first that writes on, the last
      frame's from there on; there are no more rows than such frames. */
  lemma LogRows(base: seq<int>, last: Option<seq<int>>, files: seq<seq<int>>, cpf: int, spacing: int, gap: int, t0: int,
      rows: seq<seq<int>>, i: nat)
    requires IsFile(base) && AreFiles(files) && Starts(base, last) && files != [] && cpf > 0
    requires Separated(cpf, spacing, gap) && GridOf(rows, LogFrom(base, last, files, cpf, spacing), cpf, gap, t0)
    ensures RowShows(rows, files, FirstChange(last, files), i)
  {
    hide LogFrom, AreFiles, IsFile, FirstChange, Row, IsAnchor, Marked, Framed, Delayed, Top;
    var f := FirstChange(last, files);
    AnchorIsFirstChange(base, last, files, cpf, spacing, gap, t0);
    MarkedIs(base, last, files, cpf, spacing, f, t0);
    MarkedRows(base, last, files, f, i);
    DelayedTop(Framed(LogFrom(base, last, files, cpf, spacing), t0, cpf), REGS);
    assert Filled(rows, i) == Row(Marked(base, last, files, f), REGS, i);
  }

  /** The player has not played, or its first frame changes a register, or no frame changes what the
      grid shows. */
  ghost predicate Tells(base: seq<int>, last: Option<seq<int>>, files: seq<seq<int>>)
    requires files != []
  {
    last.None? || files[0] != base
    || forall i {:trigger files[i]} :: 0 <= i < |files| ==> MaskedFile(files[i]) == MaskedFile(base)
  }

  /** With separated frames a fresh player round trips, and one that has played exactly when its first
      frame changes a register or no frame changes what the grid shows. */
  lemma LogRoundTrip(base: seq<int>, last: Option<seq<int>>, files: seq<seq<int>>, cpf: int, spacing: int, gap: int,
      t0: int, rows: seq<seq<int>>)
    requires IsFile(base) && AreFiles(files) && Starts(base, last) && files != [] && cpf > 0
    requires Separated(cpf, spacing, gap) && GridOf(rows, LogFrom(base, last, files, cpf, spacing), cpf, gap, t0)
    ensures RoundTrips(rows, files) <==> Tells(base, last, files)
  {
    hide GridOf, LogFrom, AreFiles, IsFile, MaskedFile, FirstChange, RoundTrips;
    var f := FirstChange(last, files);
    forall i: nat ensures RowShows(rows, files, f, i) {
      LogRows(base, last, files, cpf, spacing, gap, t0, rows, i);
    }
    FirstChangeMeans(base, last, files);
    if f == 0 {
      RowsInTime(rows, files, f);
    } else {
      RowsAhead(rows, files, f, base);
    }
  }

  lemma RowsInTime(rows: seq<seq<int>>, files: seq<seq<int>>, f: nat)
    requires files != [] && f <= |files| && forall i: nat :: RowShows(rows, files, f, i)
    requires f == 0 || forall k: nat :: k < |files| ==> AheadAndInTime(files, f, k)
    ensures RoundTrips(rows, files)
  {
    hide MaskedFile;
    assert RowShows(rows, files, f, 0);
    forall i {:trigger files[i]} | 0 <= i < |files| ensures Filled(rows, i) == MaskedFile(files[i]) {
      assert RowShows(rows, files, f, i);
      assert f == 0 || AheadAndInTime(files, f, i);
    }
  }

  lemma RowsAhead(rows: seq<seq<int>>, files: seq<seq<int>>, f: nat, base: seq<int>)
    requires files != [] && 0 < f <= |files| && files[0] == base && forall i: nat :: RowShows(rows, files, f, i)
    ensures RoundTrips(rows, files) <==>
      forall i {:trigger files[i]} :: 0 <= i < |files| ==> MaskedFile(files[i]) == MaskedFile(base)
  {
    hide MaskedFile;
    if RoundTrips(rows, files) {
      forall k: nat | k < |files| ensures AheadAndInTime(files, f, k) {
        assert RowShows(rows, files, f, k) && Filled(rows, k) == MaskedFile(files[k]);
      }
      forall i {:trigger files[i]} | 0 <= i < |files| ensures MaskedFile(files[i]) == MaskedFile(base) {
        AllShown(files, f, i);
        AllShown(files, f, 0);
      }
    }
    if forall i {:trigger files[i]} :: 0 <= i < |files| ==> MaskedFile(files[i]) == MaskedFile(base) {
      hide RoundTrips;
      RowsInTime(rows, files, f);
    }
  }

  /** Frame `k` and the one `f` frames later, or the last, are shown alike. */
  ghost predicate AheadAndInTime(files: seq<seq<int>>, f: nat, k: nat) {
    k < |files| && MaskedFile(files[k]) == MaskedFile(files[if f + k < |files| then f + k else |files| - 1])
  }

  lemma {:induction false} AllShown(files: seq<seq<int>>, f: nat, i: nat)
    requires f > 0 && i < |files| && forall k: nat :: k < |files| ==> AheadAndInTime(files, f, k)
    ensures MaskedFile(files[i]) == MaskedFile(files[|files| - 1])
    decreases |files| - i
  {
    hide MaskedFile;
    assert AheadAndInTime(files, f, i);
    if f + i < |files| {
      AllShown(files, f, f + i);
    }
  }

  /** Without separation a single frame that writes every register has a row too many. */
  lemma ExtraRow(base: seq<int>, last: Option<seq<int>>, first: seq<int>, cpf: int, spacing: int, gap: int, t0: int,
      rows: seq<seq<int>>)
    requires IsFile(base) && IsFile(first) && AreFiles([first]) && (last.Some? ==> IsFile(last.value))
    requires last.Some? ==> forall r :: 0 <= r < REGS ==> last.value[r] != first[r]
    requires 25 * spacing < cpf && cpf > 0 && !Separated(cpf, spacing, gap)
    requires GridOf(rows, LogFrom(base, last, [first], cpf, spacing), cpf, gap, t0)
    ensures |rows| > 1
  {
    hide IsFile, AreFiles, LogFrom, IsAnchor, IsGrid, Top, Framed, FrameOf, Delayed;
    OneFrameLog(base, last, first, cpf, spacing);
    var log := LogFrom(base, last, [first], cpf, spacing);
    GridParts(rows, log, cpf, gap, t0);
    if spacing >= 0 {
      EarlyAnchor(log, cpf, spacing, gap, t0);
      LateWrite(log[49].at, t0, cpf, 24 * spacing);
      TopBounds(Framed(log, t0, cpf), REGS, 49);
    } else {
      EarlierAnchor(log, cpf, spacing, gap, t0);
      LateWrite(log[25].at, t0, cpf, 0);
      TopBounds(Framed(log, t0, cpf), REGS, 25);
    }
  }

  lemma GridParts(rows: seq<seq<int>>, log: seq<Write>, cpf: int, gap: int, t0: int)
    requires cpf > 0 && GridOf(rows, log, cpf, gap, t0)
    ensures log != [] && IsAnchor(log, gap, t0) && |rows| == Top(Framed(log, t0, cpf), REGS) + 1
  {
    DelayedTop(Framed(log, t0, cpf), REGS);
  }

  lemma LateWrite(at: int, t0: int, cpf: int, late: nat)
    requires cpf > 0 && at == cpf + late && t0 <= cpf && t0 <= late + cpf / 2
    ensures FrameOf(at, t0, cpf) >= 1
  {
    DivMonotone(cpf, at - t0 + cpf / 2, cpf);
  }

  /** The log of one frame that writes every register, after its baseline. */
  lemma OneFrameLog(base: seq<int>, last: Option<seq<int>>, first: seq<int>, cpf: int, spacing: int)
    requires IsFile(base) && IsFile(first) && AreFiles([first]) && (last.Some? ==> IsFile(last.value))
    requires last.Some? ==> forall r :: 0 <= r < REGS ==> last.value[r] != first[r]
    ensures var log := LogFrom(base, last, [first], cpf, spacing);
      && |log| == 50 && log[49].reg == 24 && log[25].reg == 0
      && (forall k {:trigger log[k]} :: 0 <= k < REGS ==> log[k].at == k * spacing)
      && (forall k {:trigger log[k]} :: REGS <= k < 50 ==> log[k].at == cpf + (k - REGS) * spacing)
  {
    NoFile();
    hide LogFrom, AreFiles, IsFile, Changed;
    LogStart(base, last, [], cpf, spacing);
    LogBase(base, last, cpf, spacing);
    LogAppend(base, last, [], first, cpf, spacing);
    assert [] + [first] == [first];
    AllChanged(first, last);
    ChangedAll(base, 0, 0);
    ChangedAll(first, 0, 0);
    ChangedAll(first, 0, 24);
  }

  /** Where every register differs, all are written, as if nothing had been before. */
  lemma AllChanged(regs: seq<int>, last: Option<seq<int>>)
    requires IsFile(regs) && (last.Some? ==> IsFile(last.value))
    requires last.Some? ==> forall r :: 0 <= r < REGS ==> last.value[r] != regs[r]
    ensures Changed(regs, last, 0) == Changed(regs, None, 0)
  {
    AllChangedFrom(regs, last, 0);
  }

  lemma {:induction false} AllChangedFrom(regs: seq<int>, last: Option<seq<int>>, r: nat)
    requires IsFile(regs) && (last.Some? ==> IsFile(last.value)) && r <= REGS
    requires last.Some? ==> forall r :: 0 <= r < REGS ==> last.value[r] != regs[r]
    ensures Changed(regs, last, r) == Changed(regs, None, r)
    decreases REGS - r
  {
    if r < REGS {
      AllChangedFrom(regs, last, r + 1);
    }
  }

  lemma EarlyAnchor(log: seq<Write>, cpf: int, spacing: nat, gap: int, t0: int)
    requires |log| == 50 && 25 * spacing < cpf && !Separated(cpf, spacing, gap) && IsAnchor(log, gap, t0)
    requires forall k {:trigger log[k]} :: 0 <= k < REGS ==> log[k].at == k * spacing
    requires forall k {:trigger log[k]} :: REGS <= k < 50 ==> log[k].at == cpf + (k - REGS) * spacing
    ensures t0 <= cpf && t0 <= 24 * spacing + cpf / 2
  {
    forall k {:trigger log[k]} | 0 < k < 50 && k != 25 ensures log[k].at - log[k - 1].at == spacing {
      if k < 25 {
        assert k * spacing == (k - 1) * spacing + spacing;
      } else {
        assert (k - 25) * spacing == (k - 26) * spacing + spacing;
      }
    }
    assert log[25].at == cpf && log[25].at - log[24].at == cpf - 24 * spacing;
    assert log[0].at == 0 && log[1].at == spacing;
  }

  lemma EarlierAnchor(log: seq<Write>, cpf: int, spacing: int, gap: int, t0: int)
    requires |log| == 50 && spacing < 0 && cpf > 0 && !Separated(cpf, spacing, gap) && IsAnchor(log, gap, t0)
    requires forall k {:trigger log[k]} :: 0 <= k < REGS ==> log[k].at == k * spacing
    requires forall k {:trigger log[k]} :: REGS <= k < 50 ==> log[k].at == cpf + (k - REGS) * spacing
    ensures t0 <= 0
  {
    forall k {:trigger log[k]} | 0 < k < 50 && k != 25 ensures log[k].at - log[k - 1].at == spacing {
      if k < 25 {
        assert k * spacing == (k - 1) * spacing + spacing;
      } else {
        assert (k - 25) * spacing == (k - 26) * spacing + spacing;
      }
    }
    assert log[25].at - log[24].at == cpf - 24 * spacing;
    assert log[0].at == 0 && log[1].at == spacing;
  }

  /** Every player that has played, or every fresh one, that tells its frames round trips. */
  ghost predicate AlwaysRoundTrips(played: bool, cpf: int, spacing: int, gap: int)
    requires cpf > 0
  {
    forall base, files, t0, rows :: RoundTripsOne(played, cpf, spacing, gap, base, files, t0, rows)
  }

  ghost predicate RoundTripsOne(played: bool, cpf: int, spacing: int, gap: int, base: seq<int>, files: seq<seq<int>>,
      t0: int, rows: seq<seq<int>>)
    requires cpf > 0
  {
    var last := if played then Some(base) else None;
    (IsFile(base) && AreFiles(files) && files != [] && Tells(base, last, files)
     && GridOf(rows, LogFrom(base, last, files, cpf, spacing), cpf, gap, t0)) ==> RoundTrips(rows, files)
  }

  /** Logging a player and framing the log gives its grid back, for every fresh player, and for every one
      that has played and tells its frames, exactly when the frames are separated. */
  lemma RoundTripExactly(played: bool, cpf: int, spacing: int, gap: int)
    requires 25 * spacing < cpf && cpf > 0
    ensures AlwaysRoundTrips(played, cpf, spacing, gap) <==> Separated(cpf, spacing, gap)
  {
    hide Tells, GridOf, RoundTrips;
    if Separated(cpf, spacing, gap) {
      forall base, files, t0, rows ensures RoundTripsOne(played, cpf, spacing, gap, base, files, t0, rows) {
        var last := if played then Some(base) else None;
        if IsFile(base) && AreFiles(files) && files != []
          && GridOf(rows, LogFrom(base, last, files, cpf, spacing), cpf, gap, t0)
        {
          LogRoundTrip(base, last, files, cpf, spacing, gap, t0, rows);
        }
      }
    } else {
      hide RoundTripsOne, Separated;
      FailsFor(played, cpf, spacing, gap);
    }
  }

  lemma FailsFor(played: bool, cpf: int, spacing: int, gap: int)
    requires 25 * spacing < cpf && cpf > 0 && !Separated(cpf, spacing, gap)
    ensures !AlwaysRoundTrips(played, cpf, spacing, gap)
  {
    hide Separated, LogFrom, AreFiles, IsAnchor, IsGrid, Framed, Delayed, Top;
    var zero, one := seq(REGS, _ => 0), seq(REGS, _ => 1);
    var last := if played then Some(zero) else None;
    OneFile(one);
    assert zero[0] != one[0];
    OneFrameLog(zero, last, one, cpf, spacing);
    var log := LogFrom(zero, last, [one], cpf, spacing);
    var t0 := SomeAnchor(log, gap, 1);
    var rows := SomeGrid(Delayed(Framed(log, t0, cpf), REGS));
    ExtraRow(zero, last, one, cpf, spacing, gap, t0, rows);
    assert !RoundTripsOne(played, cpf, spacing, gap, zero, [one], t0, rows);
  }

  lemma NoFile()
    ensures AreFiles([])
  {
  }

  lemma OneFile(file: seq<int>)
    requires IsFile(file)
    ensures AreFiles([file])
  {
  }

  lemma SomeAnchor(log: seq<Write>, gap: int, k: nat) returns (t0: int)
    requires 0 < k <= |log| && Close(log, gap, k)
    ensures IsAnchor(log, gap, t0)
    decreases |log| - k
  {
    if k == |log| {
      t0 := log[0].at;
    } else if log[k].at - log[k - 1].at > gap {
      t0 := log[k].at;
    } else {
      t0 := SomeAnchor(log, gap, k + 1);
    }
  }

  lemma SomeGrid(framed: seq<Write>) returns (rows: seq<seq<int>>)
    ensures IsGrid(rows, framed, REGS)
  {
    var top := Top(framed, REGS);
    rows := seq(top + 1, f => Row(framed, REGS, f));
    forall f: nat ensures Filled(rows, f) == Row(framed, REGS, f) {
      if f > top {
        RowBeyond(framed, REGS, top, f);
      }
    }
  }

  /** A player that has played fails so at the default values: its first frame changes nothing, its
      second a register, and the grid begins with the second. */
  lemma PlayedFails() returns (t0: int, rows: seq<seq<int>>)
    ensures var cpf, spacing, gap := 19656, 16, 10000;
      var zero := seq(REGS, _ => 0);
      var files := [zero, zero[24 := 15]];
      && Separated(cpf, spacing, gap) && AreFiles(files)
      && GridOf(rows, LogFrom(zero, Some(zero), files, cpf, spacing), cpf, gap, t0) && !RoundTrips(rows, files)
  {
    var zero := seq(REGS, _ => 0);
    var files := [zero, zero[24 := 15]];
    MaskedApart(zero);
    hide LogFrom, IsAnchor, IsGrid, Framed, Delayed, Top, MaskedFile, RoundTrips, FirstChange;
    LogStart(zero, Some(zero), files, 19656, 16);
    var log := LogFrom(zero, Some(zero), files, 19656, 16);
    t0 := SomeAnchor(log, 10000, 1);
    rows := SomeGrid(Delayed(Framed(log, t0, 19656), REGS));
    LogRoundTrip(zero, Some(zero), files, 19656, 16, 10000, t0, rows);
    assert files[1] == zero[24 := 15];
  }

  lemma MaskedApart(zero: seq<int>)
    requires zero == seq(REGS, _ => 0)
    ensures MaskedFile(zero[24 := 15]) != MaskedFile(zero)
  {
    assert MaskedFile(zero[24 := 15])[24] == 15 && MaskedFile(zero)[24] == 0;
  }
}
