/** `pathfuzz.py`: delta debugging of a failing input, and the bisection of its frame count. */
module Pathfuzz {
  import opened Options
  import Patches

  // ----- subsets of the changes, by ascending index

  ghost predicate Ascending(s: seq<nat>, n: nat) {
    && (forall i, j :: 0 <= i < j < |s| ==> s[i] < s[j])
    && forall i {:trigger s[i]} :: 0 <= i < |s| ==> s[i] < n
  }

  function Elements(s: seq<nat>): set<nat> {
    set x | x in s
  }

  /** The changes at some places, in their order. */
  function Pick<T>(changes: seq<T>, at: seq<nat>): (r: seq<T>)
    requires forall i {:trigger at[i]} :: 0 <= i < |at| ==> at[i] < |changes|
    ensures |r| == |at| && forall i {:trigger r[i]} :: 0 <= i < |r| ==> r[i] == changes[at[i]]
  {
    seq(|at|, i requires 0 <= i < |at| => changes[at[i]])
  }

  function Without<T>(s: seq<T>, k: nat): seq<T>
    requires k < |s|
  {
    s[..k] + s[k + 1..]
  }

  lemma NoElements(s: seq<nat>)
    ensures Elements(s) == {} <==> s == []
  {
    if s != [] {
      assert s[0] in Elements(s);
    }
  }

  /** An ascending list is known by its elements, so a result remembered for a set is the list's own. */
  lemma {:induction false} SameElements(s: seq<nat>, t: seq<nat>, n: nat)
    requires Ascending(s, n) && Ascending(t, n) && Elements(s) == Elements(t)
    ensures s == t
  {
    if s == [] {
      NoElements(s);
      NoElements(t);
    } else {
      assert s[0] in Elements(t);
      var u, v := s[..|s| - 1], t[..|t| - 1];
      var top, last := s[|s| - 1], t[|t| - 1];
      assert top in Elements(t) && last in Elements(s);
      assert top == last;
      forall x ensures x in Elements(u) <==> x in Elements(v) {
        assert x in Elements(s) <==> x in Elements(t);
        assert x in Elements(u) <==> x in Elements(s) && x != top;
        assert x in Elements(v) <==> x in Elements(t) && x != top;
      }
      SameElements(u, v, n);
      assert s == u + [top] && t == v + [top];
    }
  }

  // ----- the memo

  ghost predicate Remembers<T(!new)>(changes: seq<T>, test: seq<T> -> bool, memo: map<set<nat>, bool>) {
    forall sub {:trigger Elements(sub)} :: Ascending(sub, |changes|) && Elements(sub) in memo ==>
      memo[Elements(sub)] == test(Pick(changes, sub))
  }

  method Check<T(!new)>(changes: seq<T>, test: seq<T> -> bool, memo: map<set<nat>, bool>, sub: seq<nat>)
    returns (ok: bool, after: map<set<nat>, bool>)
    requires Ascending(sub, |changes|) && Remembers(changes, test, memo)
    ensures Remembers(changes, test, after) && ok == test(Pick(changes, sub))
  {
    var key := Elements(sub);
    after := memo;
    if key !in memo {
      after := memo[key := test(Pick(changes, sub))];
      forall other | Ascending(other, |changes|) && Elements(other) == key ensures other == sub {
        SameElements(other, sub, |changes|);
      }
    }
    ok := after[key];
  }

  // ----- numpy's array_split

  /** Where part `j` starts when parts have `q` elements and the first `r` one more. */
  function Cut(q: nat, r: nat, j: nat): nat {
    j * q + (if j < r then j else r)
  }

  /** Where part `j` of `k` starts. */
  function Start(size: nat, k: nat, j: nat): nat
    requires k > 0
  {
    Cut(size / k, size % k, j)
  }

  lemma CutStep(q: nat, r: nat, j: nat)
    ensures Cut(q, r, j + 1) == Cut(q, r, j) + q + if j < r then 1 else 0
  {
    assert (j + 1) * q == j * q + q;
  }

  lemma {:induction false} CutRises(q: nat, r: nat, j: nat, k: nat)
    requires j <= k
    ensures Cut(q, r, j) <= Cut(q, r, k)
    decreases k
  {
    hide Cut;
    if j < k {
      CutRises(q, r, j, k - 1);
      CutStep(q, r, k - 1);
    }
  }

  lemma CutEnds(q: nat, r: nat, k: nat)
    requires r < k
    ensures Cut(q, r, 0) == 0 && Cut(q, r, k) == k * q + r
  {
  }

  lemma CutOnes(j: nat)
    ensures Cut(1, 0, j) == j
  {
  }

  lemma Division(size: nat, k: nat)
    requires 0 < k <= size
    ensures size == k * (size / k) + size % k && size / k >= 1 && size % k < k
    ensures k == size ==> size / k == 1 && size % k == 0
  {
  }

  lemma Starts(size: nat, k: nat, j: nat)
    requires 0 < k <= size && j < k
    ensures Start(size, k, 0) == 0 && Start(size, k, k) == size
    ensures 0 <= Start(size, k, j) < Start(size, k, j + 1) <= size
    ensures k > 1 ==> Start(size, k, j + 1) - Start(size, k, j) < size
    ensures k == size ==> Start(size, k, j) == j && Start(size, k, j + 1) == j + 1
  {
    Division(size, k);
    var q, r := size / k, size % k;
    CutEnds(q, r, k);
    hide Cut;
    CutStep(q, r, 0);
    CutStep(q, r, j);
    CutRises(q, r, j + 1, k);
    if j > 0 {
      CutRises(q, r, 1, j);
    } else if k > 1 {
      CutStep(q, r, 1);
      CutRises(q, r, 2, k);
    }
    CutOnes(j);
    CutOnes(j + 1);
  }

  function Chunk(items: seq<nat>, k: nat, j: nat): seq<nat>
    requires 0 < k <= |items| && j < k
  {
    Starts(|items|, k, j);
    items[Start(|items|, k, j)..Start(|items|, k, j + 1)]
  }

  function Rest(items: seq<nat>, k: nat, j: nat): seq<nat>
    requires 0 < k <= |items| && j < k
  {
    Starts(|items|, k, j);
    items[..Start(|items|, k, j)] + items[Start(|items|, k, j + 1)..]
  }

  /** The items that are not in the chunk, in their order. */
  function Excluding(items: seq<nat>, chunk: seq<nat>): seq<nat> {
    if items == [] then []
    else if items[0] in chunk then Excluding(items[1..], chunk)
    else [items[0]] + Excluding(items[1..], chunk)
  }

  lemma {:induction false} ExcludingIs(items: seq<nat>, chunk: seq<nat>, lo: nat, hi: nat)
    requires lo <= hi <= |items|
    requires forall i {:trigger items[i]} :: 0 <= i < |items| ==> (items[i] in chunk <==> lo <= i < hi)
    ensures Excluding(items, chunk) == items[..lo] + items[hi..]
  {
    if items != [] {
      var rest := items[1..];
      var l, h := if lo > 0 then lo - 1 else 0, if hi > 0 then hi - 1 else 0;
      forall i {:trigger rest[i]} | 0 <= i < |rest| ensures rest[i] in chunk <==> l <= i < h {
        assert rest[i] == items[i + 1];
      }
      ExcludingIs(rest, chunk, l, h);
      assert items[0] in chunk <==> lo == 0 && hi > 0;
      CutFirst(items, lo, hi);
    }
  }

  lemma CutFirst(items: seq<nat>, lo: nat, hi: nat)
    requires lo <= hi <= |items| && items != []
    ensures var rest := items[1..];
      items[..lo] + items[hi..] ==
        if lo > 0 then [items[0]] + (rest[..lo - 1] + rest[hi - 1..])
        else if hi > 0 then rest[..0] + rest[hi - 1..]
        else [items[0]] + (rest[..0] + rest[0..])
  {
    var rest := items[1..];
    if hi > 0 {
      assert items[hi..] == rest[hi - 1..];
      if lo > 0 {
        assert items[..lo] == [items[0]] + rest[..lo - 1];
      } else {
        assert items[..0] + items[hi..] == items[hi..] && rest[..0] + rest[hi - 1..] == rest[hi - 1..];
      }
    } else {
      assert items[..0] + items[0..] == items && rest[..0] + rest[0..] == rest;
    }
  }

  /** Leaving out the elements of a part is cutting it out. */
  lemma RestIs(items: seq<nat>, n: nat, k: nat, j: nat)
    requires Ascending(items, n) && 0 < k <= |items| && j < k
    ensures Excluding(items, Chunk(items, k, j)) == Rest(items, k, j)
  {
    hide Start, Ascending, Excluding;
    Starts(|items|, k, j);
    SliceMembers(items, n, Start(|items|, k, j), Start(|items|, k, j + 1));
    ExcludingIs(items, Chunk(items, k, j), Start(|items|, k, j), Start(|items|, k, j + 1));
  }

  lemma SliceMembers(items: seq<nat>, n: nat, lo: nat, hi: nat)
    requires Ascending(items, n) && lo <= hi <= |items|
    ensures forall i {:trigger items[i]} :: 0 <= i < |items| ==> (items[i] in items[lo..hi] <==> lo <= i < hi)
  {
    var chunk := items[lo..hi];
    forall i {:trigger items[i]} | 0 <= i < |items| ensures items[i] in chunk <==> lo <= i < hi {
      if lo <= i < hi {
        assert chunk[i - lo] == items[i];
      }
    }
  }

  lemma PartsAscend(items: seq<nat>, n: nat, k: nat, j: nat)
    requires Ascending(items, n) && 0 < k <= |items| && j < k
    ensures Ascending(Chunk(items, k, j), n) && Ascending(Rest(items, k, j), n)
    ensures 0 < |Chunk(items, k, j)| && |Rest(items, k, j)| == |items| - |Chunk(items, k, j)|
    ensures k > 1 ==> |Chunk(items, k, j)| < |items|
  {
    hide Start, Ascending;
    Starts(|items|, k, j);
    CutAscends(items, n, Start(|items|, k, j), Start(|items|, k, j + 1));
  }

  lemma CutAscends(items: seq<nat>, n: nat, lo: nat, hi: nat)
    requires Ascending(items, n) && lo <= hi <= |items|
    ensures Ascending(items[lo..hi], n) && Ascending(items[..lo] + items[hi..], n)
  {
    var chunk, rest := items[lo..hi], items[..lo] + items[hi..];
    assert forall i {:trigger chunk[i]} :: 0 <= i < |chunk| ==> chunk[i] == items[lo + i];
    assert forall i {:trigger rest[i]} :: 0 <= i < |rest| ==> rest[i] == items[if i < lo then i else i - lo + hi];
  }

  // ----- ddmin

  ghost predicate Fails<T>(changes: seq<T>, test: seq<T> -> bool, sub: seq<nat>) {
    Ascending(sub, |changes|) && !test(Pick(changes, sub))
  }

  lemma FailsIf<T>(changes: seq<T>, test: seq<T> -> bool, sub: seq<nat>, ok: bool)
    requires Ascending(sub, |changes|) && ok == test(Pick(changes, sub))
    ensures Fails(changes, test, sub) <==> !ok
  {
  }

  /** The first chunk that passes, if any. */
  method PassingChunk<T(!new)>(changes: seq<T>, test: seq<T> -> bool, memo: map<set<nat>, bool>, items: seq<nat>,
        k: nat)
    returns (pick: Option<seq<nat>>, after: map<set<nat>, bool>)
    requires Ascending(items, |changes|) && 1 < k <= |items| && Remembers(changes, test, memo)
    ensures Remembers(changes, test, after)
    ensures pick.Some? ==> Ascending(pick.value, |changes|) && |pick.value| < |items| && test(Pick(changes, pick.value))
    ensures pick.None? ==> forall j: nat | j < k ::
      Fails(changes, test, Chunk(items, k, j))
  {
    hide Ascending, Remembers, Chunk, Fails;
    pick, after := None, memo;
    var j := 0;
    while j < k
      invariant j <= k && Remembers(changes, test, after)
      invariant forall i: nat | i < j ::
        Fails(changes, test, Chunk(items, k, i))
    {
      PartsAscend(items, |changes|, k, j);
      var ok;
      ok, after := Check(changes, test, after, Chunk(items, k, j));
      FailsIf(changes, test, Chunk(items, k, j), ok);
      if ok {
        return Some(Chunk(items, k, j)), after;
      }
      j := j + 1;
    }
  }

  /** The first complement of a chunk that passes, if any. */
  method PassingRest<T(!new)>(changes: seq<T>, test: seq<T> -> bool, memo: map<set<nat>, bool>, items: seq<nat>, k: nat)
    returns (pick: Option<seq<nat>>, after: map<set<nat>, bool>)
    requires Ascending(items, |changes|) && 1 < k <= |items| && Remembers(changes, test, memo)
    ensures Remembers(changes, test, after)
    ensures pick.Some? ==> Ascending(pick.value, |changes|) && |pick.value| < |items| && test(Pick(changes, pick.value))
    ensures pick.None? ==> forall j: nat | j < k ::
      Fails(changes, test, Rest(items, k, j))
  {
    hide Ascending, Remembers, Chunk, Rest, Fails;
    pick, after := None, memo;
    var j := 0;
    while j < k
      invariant j <= k && Remembers(changes, test, after)
      invariant forall i: nat | i < j ::
        Fails(changes, test, Rest(items, k, i))
    {
      PartsAscend(items, |changes|, k, j);
      RestIs(items, |changes|, k, j);
      var ok;
      ok, after := Check(changes, test, after, Excluding(items, Chunk(items, k, j)));
      FailsIf(changes, test, Rest(items, k, j), ok);
      if ok {
        return Some(Excluding(items, Chunk(items, k, j))), after;
      }
      j := j + 1;
    }
  }

  /** No single element can be left out. */
  ghost predicate OneMinimal<T>(test: seq<T> -> bool, kept: seq<T>) {
    forall k {:trigger Without(kept, k)} :: 0 <= k < |kept| ==> !test(Without(kept, k))
  }

  lemma SinglesFail<T>(changes: seq<T>, test: seq<T> -> bool, items: seq<nat>)
    requires Ascending(items, |changes|) && |items| >= 2
    requires forall j: nat | j < |items| ::
      Fails(changes, test, Chunk(items, |items|, j))
    requires |items| > 2 ==> forall j: nat | j < |items| ::
      Fails(changes, test, Rest(items, |items|, j))
    ensures OneMinimal(test, Pick(changes, items))
  {
    var kept := Pick(changes, items);
    forall k | 0 <= k < |kept| ensures !test(Without(kept, k)) {
      Starts(|items|, |items|, k);
      if |items| > 2 {
        assert Without(kept, k) == Pick(changes, Rest(items, |items|, k));
      } else {
        Starts(|items|, |items|, 1 - k);
        assert Without(kept, k) == Pick(changes, Chunk(items, |items|, 1 - k));
      }
    }
  }

  /** Delta debugging ends, with some of the changes, in order, that pass the test and of which none
      can be left out. */
  method Ddmin<T(!new)>(changes: seq<T>, test: seq<T> -> bool) returns (kept: seq<T>, ghost at: seq<nat>)
    requires test(changes)
    ensures Ascending(at, |changes|) && kept == Pick(changes, at)
    ensures test(kept) && OneMinimal(test, kept)
    ensures test([]) ==> kept == []
  {
    hide Remembers, Start;
    var memo: map<set<nat>, bool> := map[];
    var items: seq<nat> := seq(|changes|, i requires 0 <= i < |changes| => i);
    assert Pick(changes, items) == changes;
    var n := 2;
    NothingRemembered(changes, test);
    var none;
    none, memo := Check(changes, test, memo, []);
    assert Pick(changes, []) == [];
    if none {
      return [], [];
    }
    while |items| >= 2
      invariant n >= 2 && Ascending(items, |changes|) && test(Pick(changes, items)) && !test([])
      invariant Remembers(changes, test, memo)
      decreases |items|, |items| - n
    {
      var k := if n < |items| then n else |items|;
      var pick;
      pick, memo := PassingChunk(changes, test, memo, items, k);
      if pick.Some? {
        items, n := pick.value, 2;
        continue;
      }
      pick := None;
      if n > 2 {
        pick, memo := PassingRest(changes, test, memo, items, k);
      }
      if pick.Some? {
        items, n := pick.value, if n - 1 > 2 then n - 1 else 2;
      } else if n >= |items| {
        SinglesFail(changes, test, items);
        return Pick(changes, items), items;
      } else {
        n := if 2 * n < |items| then 2 * n else |items|;
      }
    }
    kept, at := Pick(changes, items), items;
    assert kept != [];
    assert Without(kept, 0) == [];
  }

  lemma NothingRemembered<T(!new)>(changes: seq<T>, test: seq<T> -> bool)
    ensures Remembers(changes, test, map[])
  {
  }

  // ----- bisection and the whole minimiser

  ghost predicate Monotone(test: int -> bool) {
    forall a, b :: 1 <= a <= b && test(a) ==> test(b)
  }

  /** Bisection stops where the test turns true, or at `hi`; of a monotone test that is the least. */
  method FirstTrue(test: int -> bool, hi: int) returns (k: int)
    ensures if hi < 1 then k == hi else 1 <= k <= hi
    ensures k != hi ==> test(k)
    ensures k > 1 ==> !test(k - 1)
    ensures Monotone(test) ==> forall j :: 1 <= j < k ==> !test(j)
  {
    var lo := 1;
    k := hi;
    while lo < k
      invariant hi < 1 ==> k == hi
      invariant hi >= 1 ==> 1 <= lo <= k <= hi
      invariant k != hi ==> test(k)
      invariant lo > 1 ==> !test(lo - 1)
    {
      var mid := (lo + k) / 2;
      if test(mid) {
        k := mid;
      } else {
        lo := mid + 1;
      }
    }
  }

  /** The predicate keeps holding in longer runs of the same bytes. */
  ghost predicate Reproduces(pred: (seq<int>, int) -> bool) {
    forall data, a, b :: 1 <= a <= b && pred(data, a) ==> pred(data, b)
  }

  function Frames(frames: int): int {
    if frames == 0 then 500 else frames
  }

  ghost predicate Irreducible<T>(pred: (seq<int>, int) -> bool, build: seq<T> -> seq<int>, kept: seq<T>, n: int) {
    && (forall k {:trigger Without(kept, k)} :: 0 <= k < |kept| ==> !pred(build(Without(kept, k)), n))
    && forall m :: 1 <= m < n ==> !pred(build(kept), m)
  }

  /** What is kept passes within the returned frames, as rebuilt by the returned patch. When longer
      runs keep the fault, no frame and no single change less would do: bisecting once more after
      ddmin, at a smaller frame count, leaves the set 1-minimal. */
  method Minimise<T(!new)>(data: seq<int>, pred: (seq<int>, int) -> bool, changes: seq<T>,
      build: seq<T> -> seq<int>, frames: int)
    returns (out: Patches.Outcome<(Patches.Patch, int)>, ghost kept: seq<T>, ghost at: seq<nat>)
    requires forall c :: |build(c)| == |data| && Patches.Bytes(build(c))
    ensures !out.IndexError? && (out.ValueError? <==> !pred(build(changes), if frames == 0 then 500 else frames))
    ensures out.Done? ==>
      && Ascending(at, |changes|) && kept == Pick(changes, at)
      && Patches.ApplyPatch(data, out.value.0) == Patches.Done(build(kept))
      && pred(build(kept), out.value.1) && out.value.1 <= (if frames == 0 then 500 else frames)
      && (Reproduces(pred) ==> Irreducible(pred, build, kept, out.value.1))
  {
    var f := Frames(frames);
    kept, at := [], [];
    if !pred(build(changes), f) {
      return Patches.ValueError, kept, at;
    }
    var n := FirstTrue(k => pred(build(changes), k), f);
    var left;
    left, at := Ddmin(changes, c => pred(build(c), n));
    kept := left;
    var alone := k => pred(build(left), k);
    var m := FirstTrue(alone, n);
    assert Reproduces(pred) ==> Monotone(alone);
    Patches.PatchRoundTrip(data, build(left));
    out := Patches.Done((Patches.MakePatch(data, build(left)).value, m));
    StillMinimal(pred, build, kept, n, m);
  }

  lemma StillMinimal<T>(pred: (seq<int>, int) -> bool, build: seq<T> -> seq<int>, kept: seq<T>, n: int, m: int)
    requires if n < 1 then m == n else 1 <= m <= n
    requires OneMinimal((c: seq<T>) => pred(build(c), n), kept)
    requires Reproduces(pred) ==> forall j :: 1 <= j < m ==> !pred(build(kept), j)
    ensures Reproduces(pred) ==> Irreducible(pred, build, kept, m)
  {
  }

  /** A patch's entries: their 1-minimal part, or an error when an offset is outside the file. */
  method MinimisePatch(data: seq<int>, pred: (seq<int>, int) -> bool, patch: Patches.Patch, frames: int)
    returns (out: Patches.Outcome<(Patches.Patch, int)>, ghost kept: Patches.Patch, ghost at: seq<nat>)
    requires Patches.Bytes(data)
    ensures out.IndexError? <==> !Patches.Fits(|data|, patch)
    ensures out.ValueError? <==>
      Patches.Fits(|data|, patch) && !pred(Patches.ApplyPatch(data, patch).value, if frames == 0 then 500 else frames)
    ensures out.Done? ==>
      && Ascending(at, |patch|) && kept == Pick(patch, at) && Patches.Fits(|data|, kept)
      && Patches.ApplyPatch(data, out.value.0) == Patches.ApplyPatch(data, kept)
      && pred(Patches.ApplyPatch(data, kept).value, out.value.1)
      && (Reproduces(pred) ==> Irreducible(pred, c => Applied(data, c), kept, out.value.1))
  {
    if !Patches.Fits(|data|, patch) {
      return Patches.IndexError, [], [];
    }
    out, kept, at := Minimise(data, pred, patch, c => Applied(data, c), frames);
  }

  function Applied(data: seq<int>, patch: Patches.Patch): (out: seq<int>)
    ensures |out| == |data| && (Patches.Bytes(data) ==> Patches.Bytes(out))
  {
    if Patches.Fits(|data|, patch) then Patches.ApplyPatch(data, patch).value else data
  }

  // ----- keeping bytes of a tune while the rest become neutral

  function Neutralised(offsets: seq<int>, kept: seq<int>, neutral: int): Patches.Patch {
    if offsets == [] then []
    else if offsets[0] in kept then Neutralised(offsets[1..], kept, neutral)
    else [(offsets[0], neutral)] + Neutralised(offsets[1..], kept, neutral)
  }

  lemma {:induction false} NeutralisedAt(offsets: seq<int>, kept: seq<int>, neutral: int, p: int)
    ensures Patches.LastFor(Neutralised(offsets, kept, neutral), p) ==
      if p in offsets && p !in kept then Some(neutral) else None
  {
    if offsets != [] {
      NeutralisedAt(offsets[1..], kept, neutral, p);
      if offsets[0] !in kept {
        LastForFirst(offsets[0], neutral, Neutralised(offsets[1..], kept, neutral), p);
      }
    }
  }

  lemma {:induction false} LastForFirst(at: int, value: int, rest: Patches.Patch, p: int)
    ensures Patches.LastFor([(at, value)] + rest, p) ==
      if Patches.LastFor(rest, p).Some? then Patches.LastFor(rest, p)
      else if p == at then Some(value) else None
  {
    if rest != [] {
      LastForFirst(at, value, rest[..|rest| - 1], p);
      assert ([(at, value)] + rest)[..|rest|] == [(at, value)] + rest[..|rest| - 1];
    }
  }

  lemma {:induction false} NeutralisedFits(offsets: seq<int>, kept: seq<int>, neutral: int, size: nat)
    requires forall i {:trigger offsets[i]} :: 0 <= i < |offsets| ==> 0 <= offsets[i] < size
    ensures Patches.Fits(size, Neutralised(offsets, kept, neutral))
  {
    if offsets != [] {
      NeutralisedFits(offsets[1..], kept, neutral, size);
    }
  }

  /** The tune with every listed byte neutral but the kept ones. */
  ghost predicate KeepsOnly(data: seq<int>, offsets: seq<int>, kept: seq<int>, neutral: int, bytes: seq<int>) {
    && |bytes| == |data|
    && forall p :: 0 <= p < |data| ==>
         bytes[p] == if p in offsets && p !in kept then neutral % 256 else data[p]
  }

  /** The bytes a tune needs to reproduce the fault: with the others neutral it still does, and with
      one byte fewer it does not. */
  method MinimiseBytes(data: seq<int>, pred: (seq<int>, int) -> bool, offsets: seq<int>, neutral: int, frames: int)
    returns (out: Patches.Outcome<(Patches.Patch, int)>, ghost kept: seq<int>, ghost bytes: seq<int>)
    requires Patches.Bytes(data)
    requires forall i {:trigger offsets[i]} :: 0 <= i < |offsets| ==> 0 <= offsets[i] < |data|
    ensures !out.IndexError? && (out.ValueError? <==> !pred(data, if frames == 0 then 500 else frames))
    ensures out.Done? ==>
      && Patches.ApplyPatch(data, out.value.0) == Patches.Done(bytes)
      && KeepsOnly(data, offsets, kept, neutral, bytes) && pred(bytes, out.value.1)
      && (forall x :: x in kept ==> x in offsets)
      && (Reproduces(pred) ==>
            && (forall m :: 1 <= m < out.value.1 ==> !pred(bytes, m))
            && forall k, fewer :: 0 <= k < |kept| && KeepsOnly(data, offsets, Without(kept, k), neutral, fewer)
                                  ==> !pred(fewer, out.value.1))
  {
    var build := (c: seq<int>) => Applied(data, Neutralised(offsets, c, neutral));
    ghost var at;
    out, kept, at := Minimise(data, pred, offsets, build, frames);
    bytes := build(kept);
    forall c ensures KeepsOnly(data, offsets, c, neutral, build(c)) {
      NeutralKeeps(data, offsets, c, neutral);
    }
    assert build(offsets) == data;
    forall k, fewer | 0 <= k < |kept| && KeepsOnly(data, offsets, Without(kept, k), neutral, fewer)
      ensures fewer == build(Without(kept, k))
    {
      assert KeepsOnly(data, offsets, Without(kept, k), neutral, build(Without(kept, k)));
    }
  }

  lemma NeutralKeeps(data: seq<int>, offsets: seq<int>, kept: seq<int>, neutral: int)
    requires forall i {:trigger offsets[i]} :: 0 <= i < |offsets| ==> 0 <= offsets[i] < |data|
    ensures KeepsOnly(data, offsets, kept, neutral, Applied(data, Neutralised(offsets, kept, neutral)))
  {
    NeutralisedFits(offsets, kept, neutral, |data|);
    var patch := Neutralised(offsets, kept, neutral);
    forall p: nat | p < |data| ensures Patches.ByteAt(data, patch, p) ==
        if p in offsets && p !in kept then neutral % 256 else data[p]
    {
      NeutralisedAt(offsets, kept, neutral, p);
      NeutralisedAt(offsets, kept, neutral, p - |data|);
    }
  }
}
