/** Byte patches: `apply_patch` of `pathdiff.py` and `make_patch` of `pathfuzz.py`. */
module Patches {
  import opened Options
  import Sets

  datatype Outcome<T> = Done(value: T) | IndexError | ValueError

  type Patch = seq<(int, int)>

  predicate Bytes(data: seq<int>) {
    forall i :: 0 <= i < |data| ==> 0 <= data[i] < 256
  }

  /** The value of the last entry for an offset. */
  function LastFor(patch: Patch, at: int): Option<int> {
    if patch == [] then None
    else if patch[|patch| - 1].0 == at then Some(patch[|patch| - 1].1)
    else LastFor(patch[..|patch| - 1], at)
  }

  /** Offsets count from the start or, negative, from the end. */
  predicate Fits(size: nat, patch: Patch) {
    forall k :: 0 <= k < |patch| ==> 0 - size <= patch[k].0 < size
  }

  /** The byte one position gets: the distinct offsets are written in ascending order, so one counted
      from the start is written after the same position counted from the end. */
  function ByteAt(data: seq<int>, patch: Patch, p: nat): int
    requires p < |data|
  {
    match LastFor(patch, p)
    case Some(v) => v % 256
    case None =>
      match LastFor(patch, p - |data|)
      case Some(v) => v % 256
      case None => data[p]
  }

  function ApplyPatch(data: seq<int>, patch: Patch): (out: Outcome<seq<int>>)
    ensures out.Done? <==> Fits(|data|, patch)
    ensures out.Done? ==> |out.value| == |data| && (Bytes(data) ==> Bytes(out.value))
  {
    if Fits(|data|, patch) then Done(seq(|data|, p requires 0 <= p < |data| => ByteAt(data, patch, p)))
    else IndexError
  }

  function Position(size: nat, at: int): int {
    if at < 0 then at + size else at
  }

  /** The entries written one after another. */
  function Written(data: seq<int>, patch: Patch): (out: seq<int>)
    requires Fits(|data|, patch)
    ensures |out| == |data|
  {
    if patch == [] then data
    else
      var last := patch[|patch| - 1];
      Written(data, patch[..|patch| - 1])[Position(|data|, last.0) := last.1 % 256]
  }

  /** The value of the last entry for a position, counted from either end. */
  function LastAt(size: nat, patch: Patch, p: nat): Option<int> {
    if patch == [] then None
    else if Position(size, patch[|patch| - 1].0) == p then Some(patch[|patch| - 1].1)
    else LastAt(size, patch[..|patch| - 1], p)
  }

  /** Where a position is counted from both ends, the last entry from the start has the byte of the last
      entry at all. */
  predicate InOrder(size: nat, patch: Patch) {
    forall p: nat :: p < size && LastFor(patch, p).Some? && LastAt(size, patch, p).Some? ==>
      LastFor(patch, p).value % 256 == LastAt(size, patch, p).value % 256
  }

  lemma LastForIn(patch: Patch, at: int)
    ensures LastFor(patch, at).Some? ==> exists k :: 0 <= k < |patch| && patch[k].0 == at
    ensures LastFor(patch, at).None? ==> forall k :: 0 <= k < |patch| ==> patch[k].0 != at
  {
    if patch != [] {
      LastForIn(patch[..|patch| - 1], at);
    }
  }

  lemma {:induction false} WrittenAt(data: seq<int>, patch: Patch, p: nat)
    requires p < |data| && Fits(|data|, patch)
    ensures Written(data, patch)[p] == match LastAt(|data|, patch, p) case Some(v) => v % 256 case None => data[p]
  {
    if patch != [] {
      WrittenAt(data, patch[..|patch| - 1], p);
    }
  }

  /** The last entry for a position is the last from its start or the last from its end. */
  lemma {:induction false} LastOfBoth(size: nat, patch: Patch, p: nat)
    requires p < size
    ensures LastAt(size, patch, p) == LastFor(patch, p) || LastAt(size, patch, p) == LastFor(patch, p - size)
    ensures LastFor(patch, p).None? ==> LastAt(size, patch, p) == LastFor(patch, p - size)
    ensures LastFor(patch, p - size).None? ==> LastAt(size, patch, p) == LastFor(patch, p)
    ensures LastFor(patch, p).Some? || LastFor(patch, p - size).Some? ==> LastAt(size, patch, p).Some?
  {
    if patch != [] {
      LastOfBoth(size, patch[..|patch| - 1], p);
    }
  }

  /** Applying a patch is writing its entries in order, exactly where no position is counted from the
      start and later, with another byte, from the end. */
  lemma AppliesInOrder(data: seq<int>, patch: Patch)
    requires Fits(|data|, patch)
    ensures ApplyPatch(data, patch) == Done(Written(data, patch)) <==> InOrder(|data|, patch)
  {
    hide LastFor, LastAt, Written;
    var size := |data|;
    var out := ApplyPatch(data, patch).value;
    forall p: nat | p < size ensures out[p] == Written(data, patch)[p] <==>
        (LastFor(patch, p).Some? && LastAt(size, patch, p).Some? ==>
           LastFor(patch, p).value % 256 == LastAt(size, patch, p).value % 256)
    {
      WrittenAt(data, patch, p);
      LastOfBoth(size, patch, p);
    }
    if InOrder(size, patch) {
      assert out == Written(data, patch);
    }
  }

  /** So with every offset counted from the same end, the last entry for an offset wins. */
  lemma OneEnd(size: nat, patch: Patch)
    requires (forall k :: 0 <= k < |patch| ==> patch[k].0 >= 0) || (forall k :: 0 <= k < |patch| ==> patch[k].0 < 0)
    ensures InOrder(size, patch)
  {
    hide LastFor, LastAt;
    forall p: nat | p < size ensures LastFor(patch, p).Some? ==> LastAt(size, patch, p) == LastFor(patch, p) {
      LastForIn(patch, p);
      LastForIn(patch, p - size);
      LastOfBoth(size, patch, p);
    }
  }

  /** Counted from both ends it may not: the first of these entries wins. */
  lemma FirstWins()
    ensures ApplyPatch([7], [(0, 1), (-1, 2)]) == Done([1]) && Written([7], [(0, 1), (-1, 2)]) == [2]
  {
    var patch: Patch := [(0, 1), (-1, 2)];
    assert patch[..1] == [(0, 1)];
    assert LastFor(patch, 0) == Some(1) && ByteAt([7], patch, 0) == 1;
    assert ApplyPatch([7], patch).value == [1];
    assert Written([7], patch) == [2];
  }

  /** The positions where two byte strings differ, from `n` down. */
  function Differences(original: seq<int>, mutated: seq<int>, n: nat): Patch
    requires n <= |original| == |mutated|
  {
    if n == 0 then []
    else if original[n - 1] == mutated[n - 1] then Differences(original, mutated, n - 1)
    else Differences(original, mutated, n - 1) + [(n - 1, mutated[n - 1])]
  }

  ghost predicate Listed(original: seq<int>, mutated: seq<int>, patch: Patch, n: nat)
    requires n <= |original| == |mutated|
  {
    && (forall k :: 0 <= k < |patch| ==> 0 <= patch[k].0 < n && original[patch[k].0] != mutated[patch[k].0])
    && forall i, j :: 0 <= i < j < |patch| ==> patch[i].0 < patch[j].0
  }

  lemma DifferencesAscend(original: seq<int>, mutated: seq<int>, n: nat)
    requires n <= |original| == |mutated|
    ensures Listed(original, mutated, Differences(original, mutated, n), n)
  {
    if n > 0 {
      DifferencesAscend(original, mutated, n - 1);
    }
  }

  function MakePatch(original: seq<int>, mutated: seq<int>): (out: Outcome<Patch>)
    ensures out.Done? <==> |original| == |mutated|
  {
    if |original| != |mutated| then ValueError else Done(Differences(original, mutated, |original|))
  }

  lemma LastForAppend(patch: Patch, at: int, value: int, p: int)
    ensures LastFor(patch + [(at, value)], p) == if p == at then Some(value) else LastFor(patch, p)
  {
    assert (patch + [(at, value)])[..|patch|] == patch;
  }

  lemma {:induction false} DifferenceAt(original: seq<int>, mutated: seq<int>, n: nat, p: int)
    requires n <= |original| == |mutated|
    ensures LastFor(Differences(original, mutated, n), p) ==
      if 0 <= p < n && original[p] != mutated[p] then Some(mutated[p]) else None
  {
    hide LastFor;
    LastForIn([], p);
    if n > 0 {
      DifferenceAt(original, mutated, n - 1, p);
      var rest := Differences(original, mutated, n - 1);
      if original[n - 1] != mutated[n - 1] {
        LastForAppend(rest, n - 1, mutated[n - 1], p);
      }
    }
  }

  /** Applying the patch made from two byte strings turns the first into the second. */
  lemma PatchRoundTrip(original: seq<int>, mutated: seq<int>)
    requires |original| == |mutated| && Bytes(mutated)
    ensures ApplyPatch(original, MakePatch(original, mutated).value) == Done(mutated)
  {
    var made := Differences(original, mutated, |original|);
    DifferencesAscend(original, mutated, |original|);
    forall p | 0 <= p < |original| ensures ByteAt(original, made, p) == mutated[p] {
      DifferenceAt(original, mutated, |original|, p);
      DifferenceAt(original, mutated, |original|, p - |original|);
    }
    assert ApplyPatch(original, made).value == mutated;
  }

  /** No patch doing the same is shorter. */
  lemma PatchIsShortest(original: seq<int>, mutated: seq<int>, patch: Patch)
    requires |original| == |mutated| && ApplyPatch(original, patch) == Done(mutated)
    ensures |MakePatch(original, mutated).value| <= |patch|
  {
    var made := Differences(original, mutated, |original|);
    DifferencesAscend(original, mutated, |original|);
    var needed := set k | 0 <= k < |made| :: made[k].0;
    var written := set k | 0 <= k < |patch| :: Position(|original|, patch[k].0);
    forall p | p in needed ensures p in written {
      LastForIn(patch, p);
      LastForIn(patch, p - |original|);
      assert mutated[p] == ByteAt(original, patch, p);
      var k :| 0 <= k < |patch| && Position(|original|, patch[k].0) == p;
    }
    CountDistinct(made, |made|);
    CountAtMost(|original|, patch, |patch|);
    Sets.SubsetSize(needed, written);
  }

  lemma {:induction false} CountDistinct(patch: Patch, n: nat)
    requires n <= |patch| && forall i, j :: 0 <= i < j < |patch| ==> patch[i].0 < patch[j].0
    ensures |set k | 0 <= k < n :: patch[k].0| == n
  {
    var s := set k | 0 <= k < n :: patch[k].0;
    if n == 0 {
      assert s == {};
    } else {
      CountDistinct(patch, n - 1);
      var r := set k | 0 <= k < n - 1 :: patch[k].0;
      assert s == r + {patch[n - 1].0};
    }
  }

  lemma {:induction false} CountAtMost(size: nat, patch: Patch, n: nat)
    requires n <= |patch|
    ensures |set k | 0 <= k < n :: Position(size, patch[k].0)| <= n
  {
    var s := set k | 0 <= k < n :: Position(size, patch[k].0);
    if n == 0 {
      assert s == {};
    } else {
      CountAtMost(size, patch, n - 1);
      var r := set k | 0 <= k < n - 1 :: Position(size, patch[k].0);
      assert s == r + {Position(size, patch[n - 1].0)};
    }
  }
}
