/** `automaton.py`, `minimise`: program tables as functional graphs, and the classes of
    rows no player can tell apart.
 */
module Automaton {
  import opened Options
  import opened Words
  import opened Rotation

  // ----- graphs and the label sequences read from them

  /** The row a row leads to; one missing from `succ` stops. */
  function Next<N>(succ: map<N, Option<N>>, n: N): Option<N> {
    if n in succ then succ[n] else None
  }

  /** Every successor is labelled. */
  ghost predicate Closed<N, L>(lab: map<N, L>, succ: map<N, Option<N>>) {
    forall n :: n in lab && Next(succ, n).Some? ==> Next(succ, n).value in lab
  }

  /** The label read `k` rows after `n`, if the player has not stopped. */
  ghost function Read<N, L>(lab: map<N, L>, succ: map<N, Option<N>>, n: N, k: nat): Option<L>
    requires Closed(lab, succ) && n in lab
  {
    if k == 0 then Some(lab[n])
    else match Next(succ, n)
      case None => None
      case Some(m) => Read(lab, succ, m, k - 1)
  }

  lemma ReadStep<N, L>(lab: map<N, L>, succ: map<N, Option<N>>, n: N, k: nat)
    requires Closed(lab, succ) && n in lab
    ensures Next(succ, n).Some? ==> Next(succ, n).value in lab
    ensures Read(lab, succ, n, k) ==
      if k == 0 then Some(lab[n]) else if Next(succ, n).None? then None else Read(lab, succ, Next(succ, n).value, k - 1)
  {
  }

  /** No player can tell the two rows apart. */
  ghost predicate Same<N, L>(lab: map<N, L>, succ: map<N, Option<N>>, x: N, y: N)
    requires Closed(lab, succ) && x in lab && y in lab
  {
    forall k: nat :: Read(lab, succ, x, k) == Read(lab, succ, y, k)
  }

  lemma SameNext<N, L>(lab: map<N, L>, succ: map<N, Option<N>>, x: N, y: N)
    requires Closed(lab, succ) && x in lab && y in lab
    ensures Same(lab, succ, x, y) <==>
      && lab[x] == lab[y] && Next(succ, x).Some? == Next(succ, y).Some?
      && (Next(succ, x).Some? ==> Same(lab, succ, Next(succ, x).value, Next(succ, y).value))
  {
    if Same(lab, succ, x, y) {
      assert Read(lab, succ, x, 0) == Read(lab, succ, y, 0);
      assert Read(lab, succ, x, 1) == Read(lab, succ, y, 1);
      assert Next(succ, x).Some? <==> Read(lab, succ, x, 1).Some?;
      assert Next(succ, y).Some? <==> Read(lab, succ, y, 1).Some?;
      if Next(succ, x).Some? {
        var a, b := Next(succ, x).value, Next(succ, y).value;
        forall k: nat ensures Read(lab, succ, a, k) == Read(lab, succ, b, k) {
          var j := k + 1;
          assert Read(lab, succ, x, j) == Read(lab, succ, y, j);
        }
      }
    } else {
      var k: nat :| Read(lab, succ, x, k) != Read(lab, succ, y, k);
      if k > 0 && Next(succ, x).Some? && Next(succ, y).Some? {
        assert Read(lab, succ, Next(succ, x).value, k - 1) != Read(lab, succ, Next(succ, y).value, k - 1);
      }
    }
  }

  // ----- the coarsest stable partition

  /** Related rows have one label and related successors. */
  ghost predicate Stable<N(!new), L>(lab: map<N, L>, succ: map<N, Option<N>>, related: (N, N) -> bool) {
    forall x, y :: x in lab && y in lab && related(x, y) ==>
      && lab[x] == lab[y] && Next(succ, x).Some? == Next(succ, y).Some?
      && (Next(succ, x).Some? ==> related(Next(succ, x).value, Next(succ, y).value))
  }

  lemma StableStep<N(!new), L>(lab: map<N, L>, succ: map<N, Option<N>>, related: (N, N) -> bool, x: N, y: N)
    requires Closed(lab, succ) && Stable(lab, succ, related) && x in lab && y in lab && related(x, y)
    ensures lab[x] == lab[y] && Next(succ, x).Some? == Next(succ, y).Some?
    ensures Next(succ, x).Some? ==>
      var m, n := Next(succ, x).value, Next(succ, y).value; m in lab && n in lab && related(m, n)
  {
  }

  lemma {:induction false} StableReads<N(!new), L>(lab: map<N, L>, succ: map<N, Option<N>>,
      related: (N, N) -> bool, x: N, y: N, k: nat)
    requires Closed(lab, succ) && Stable(lab, succ, related) && x in lab && y in lab && related(x, y)
    ensures Read(lab, succ, x, k) == Read(lab, succ, y, k)
    decreases k
  {
    hide Stable, Closed, Read, Next;
    StableStep(lab, succ, related, x, y);
    ReadStep(lab, succ, x, k);
    ReadStep(lab, succ, y, k);
    if k > 0 && Next(succ, x).Some? {
      StableReads(lab, succ, related, Next(succ, x).value, Next(succ, y).value, k - 1);
    }
  }

  /** Every stable relation is contained in `Same`... */
  lemma StableIsFiner<N(!new), L>(lab: map<N, L>, succ: map<N, Option<N>>,
      related: (N, N) -> bool, x: N, y: N)
    requires Closed(lab, succ) && Stable(lab, succ, related) && x in lab && y in lab && related(x, y)
    ensures Same(lab, succ, x, y)
  {
    forall k: nat ensures Read(lab, succ, x, k) == Read(lab, succ, y, k) {
      StableReads(lab, succ, related, x, y, k);
    }
  }

  /** ... which is stable itself. */
  lemma SameIsStable<N(!new), L>(lab: map<N, L>, succ: map<N, Option<N>>)
    requires Closed(lab, succ)
    ensures Stable(lab, succ, (x, y) => x in lab && y in lab && Same(lab, succ, x, y))
  {
    forall x, y | x in lab && y in lab && Same(lab, succ, x, y)
      ensures lab[x] == lab[y] && Next(succ, x).Some? == Next(succ, y).Some?
      ensures Next(succ, x).Some? ==> Same(lab, succ, Next(succ, x).value, Next(succ, y).value)
    {
      SameNext(lab, succ, x, y);
    }
  }

  // ----- class keys

  /** What `ids` is keyed by: `(rot, offset)` for a cycle, `(label, class of succ)` otherwise. */
  datatype Key = CycleKey(rot: seq<int>, offset: nat) | TreeKey(lab: int, next: Option<nat>)

  /** The row reads the canonical word `r` from its position `i` on, forever. */
  ghost predicate ReadsCycle<N>(lab: map<N, int>, succ: map<N, Option<N>>, n: N, r: seq<int>, i: nat)
    requires Closed(lab, succ) && n in lab
  {
    && Canonical(r) && i < |r|
    && forall k: nat :: Read(lab, succ, n, k) == Some(Unroll(r, i)(k))
  }

  function ClassOf<N>(cls: map<N, nat>, n: Option<N>): Option<nat> {
    match n
    case None => None
    case Some(m) => if m in cls then Some(cls[m]) else None
  }

  /** The key names the row `n`: everything the key says holds of it. */
  ghost predicate Names<N>(lab: map<N, int>, succ: map<N, Option<N>>, cls: map<N, nat>, key: Key, n: N)
    requires Closed(lab, succ) && n in lab
  {
    match key
    case CycleKey(r, i) => ReadsCycle(lab, succ, n, r, i)
    case TreeKey(l, next) =>
      && lab[n] == l && (Next(succ, n).Some? ==> Next(succ, n).value in cls)
      && ClassOf(cls, Next(succ, n)) == next
  }

  lemma ReadsCycleOnce<N>(lab: map<N, int>, succ: map<N, Option<N>>, x: N, y: N,
      r: seq<int>, i: nat, s: seq<int>, j: nat)
    requires Closed(lab, succ) && x in lab && y in lab
    requires ReadsCycle(lab, succ, x, r, i) && ReadsCycle(lab, succ, y, s, j)
    ensures Same(lab, succ, x, y) <==> r == s && i == j
  {
    if Same(lab, succ, x, y) {
      forall k: nat ensures Unroll(r, i)(k) == Unroll(s, j)(k) {
        assert Read(lab, succ, x, k) == Read(lab, succ, y, k);
      }
      CanonicalUnique(r, i, s, j);
    } else {
      var k: nat :| Read(lab, succ, x, k) != Read(lab, succ, y, k);
      assert Unroll(r, i)(k) != Unroll(s, j)(k);
    }
  }

  lemma UnrollNext(r: seq<int>, i: nat, k: nat)
    requires i < |r|
    ensures Unroll(r, (i + 1) % |r|)(k) == Unroll(r, i)(k + 1)
  {
    ModAddMod(k, i + 1, |r|);
  }

  lemma ReadsCycleNext<N>(lab: map<N, int>, succ: map<N, Option<N>>, n: N, r: seq<int>, i: nat)
    requires Closed(lab, succ) && n in lab && ReadsCycle(lab, succ, n, r, i)
    ensures Next(succ, n).Some?
    ensures ReadsCycle(lab, succ, Next(succ, n).value, r, (i + 1) % |r|)
  {
    hide Canonical, Closed, Read, Next, Unroll;
    assert Read(lab, succ, n, 1) == Some(Unroll(r, i)(1));
    ReadStep(lab, succ, n, 1);
    var m := Next(succ, n).value;
    forall k: nat ensures Read(lab, succ, m, k) == Some(Unroll(r, (i + 1) % |r|)(k)) {
      var j := k + 1;
      assert Read(lab, succ, n, j) == Some(Unroll(r, i)(j));
      ReadStep(lab, succ, n, j);
      UnrollNext(r, i, k);
    }
  }

  lemma SameReadsCycle<N>(lab: map<N, int>, succ: map<N, Option<N>>, x: N, y: N, r: seq<int>, i: nat)
    requires Closed(lab, succ) && x in lab && y in lab
    requires Same(lab, succ, x, y) && ReadsCycle(lab, succ, x, r, i)
    ensures ReadsCycle(lab, succ, y, r, i)
  {
    forall k: nat ensures Read(lab, succ, y, k) == Some(Unroll(r, i)(k)) {
      assert Read(lab, succ, x, k) == Read(lab, succ, y, k);
    }
  }

  // ----- the invariant of `minimise`

  ghost predicate Exact<N>(lab: map<N, int>, succ: map<N, Option<N>>, cls: map<N, nat>)
    requires Closed(lab, succ)
  {
    && (forall x :: x in cls ==> x in lab)
    && (forall x, y :: x in cls && y in cls ==> (cls[x] == cls[y] <==> Same(lab, succ, x, y)))
  }

  /** Some classified row of the key's class is what the key says. */
  ghost predicate Witnessed<N>(lab: map<N, int>, succ: map<N, Option<N>>, cls: map<N, nat>, key: Key, id: nat)
    requires Closed(lab, succ)
  {
    exists w :: w in cls && w in lab && cls[w] == id && Names(lab, succ, cls, key, w)
  }

  ghost predicate IdsBelow<N>(cls: map<N, nat>, ids: map<Key, nat>) {
    && (forall key :: key in ids ==> ids[key] < |ids|)
    && (forall n :: n in cls ==> cls[n] < |ids|)
  }

  /** A cycle's keys are entered together, except those of `word`, which is being entered. */
  ghost predicate CyclesWhole(ids: map<Key, nat>, word: seq<int>) {
    forall r, i: nat, j: nat :: CycleKey(r, i) in ids && j < |r| && r != word ==> CycleKey(r, j) in ids
  }

  ghost predicate CyclesKnown<N>(lab: map<N, int>, succ: map<N, Option<N>>, cls: map<N, nat>, ids: map<Key, nat>)
    requires Closed(lab, succ)
  {
    forall n, r, i: nat :: n in cls && n in lab && ReadsCycle(lab, succ, n, r, i) ==> CycleKey(r, i) in ids
  }

  /** The classes assigned so far are exact, and every key stands for a classified row.
      `word` is the canonical word of the cycle being entered, if any: its keys may be incomplete. */
  ghost predicate Sound<N>(lab: map<N, int>, succ: map<N, Option<N>>, cls: map<N, nat>, ids: map<Key, nat>,
        word: seq<int>)
    requires Closed(lab, succ)
  {
    && Exact(lab, succ, cls)
    && IdsBelow(cls, ids)
    && (forall key :: key in ids ==> Witnessed(lab, succ, cls, key, ids[key]))
    && CyclesWhole(ids, word)
    && CyclesKnown(lab, succ, cls, ids)
  }

  /** The classified rows are closed under `succ`, and each can be found by its tree key. */
  ghost predicate Entered<N>(lab: map<N, int>, succ: map<N, Option<N>>, cls: map<N, nat>, ids: map<Key, nat>, n: N) {
    && n in lab && n in cls && (Next(succ, n).Some? ==> Next(succ, n).value in cls)
    && var key := TreeKey(lab[n], ClassOf(cls, Next(succ, n)));
       key in ids && ids[key] == cls[n]
  }

  ghost predicate Complete<N>(lab: map<N, int>, succ: map<N, Option<N>>, cls: map<N, nat>, ids: map<Key, nat>)
  {
    AllEntered(lab, succ, cls, ids, cls.Keys)
  }

  /** `dict.setdefault` as a change of the dictionary. */
  function SetDefault<K, V>(d: map<K, V>, key: K, value: V): map<K, V> {
    if key in d then d else d[key := value]
  }

  lemma NamesGrows<N>(lab: map<N, int>, succ: map<N, Option<N>>, cls: map<N, nat>, more: map<N, nat>, key: Key, w: N)
    requires Closed(lab, succ) && w in lab && Names(lab, succ, cls, key, w)
    requires forall n :: n in cls ==> n in more && more[n] == cls[n]
    ensures Names(lab, succ, more, key, w)
  {
  }

  lemma EnteredGrows<N>(lab: map<N, int>, succ: map<N, Option<N>>, cls: map<N, nat>, ids: map<Key, nat>,
      more: map<N, nat>, keys: map<Key, nat>, n: N)
    requires Entered(lab, succ, cls, ids, n)
    requires forall x :: x in cls ==> x in more && more[x] == cls[x]
    requires forall key :: key in ids ==> key in keys && keys[key] == ids[key]
    ensures Entered(lab, succ, more, keys, n)
  {
  }

  /** Rows named by one tree key cannot be told apart, and only they can be. */
  lemma TreeKeySame<N>(lab: map<N, int>, succ: map<N, Option<N>>, cls: map<N, nat>, ids: map<Key, nat>, word: seq<int>,
      x: N, y: N)
    requires Closed(lab, succ) && Sound(lab, succ, cls, ids, word) && x in lab && y in lab
    requires Next(succ, x).Some? ==> Next(succ, x).value in cls
    requires Next(succ, y).Some? ==> Next(succ, y).value in cls
    ensures Same(lab, succ, x, y) <==>
      lab[x] == lab[y] && ClassOf(cls, Next(succ, x)) == ClassOf(cls, Next(succ, y))
  {
    SameNext(lab, succ, x, y);
  }

  /** What adding row `n` under `id` needs: `id` is the class of exactly the rows like `n`. */
  ghost predicate RightClass<N>(lab: map<N, int>, succ: map<N, Option<N>>, cls: map<N, nat>, n: N, id: nat)
    requires Closed(lab, succ) && n in lab
  {
    forall x :: x in cls && x in lab ==> (cls[x] == id <==> Same(lab, succ, x, n))
  }

  lemma AddRow<N>(lab: map<N, int>, succ: map<N, Option<N>>, cls: map<N, nat>, ids: map<Key, nat>, word: seq<int>,
      n: N, key: Key, id: nat)
    requires Closed(lab, succ) && Sound(lab, succ, cls, ids, word) && n in lab && n !in cls
    requires id == if key in ids then ids[key] else |ids|
    requires RightClass(lab, succ, cls, n, id) && Names(lab, succ, cls[n := id], key, n)
    requires key.CycleKey? ==> key.rot == word
    requires forall r, i: nat :: ReadsCycle(lab, succ, n, r, i) ==> CycleKey(r, i) in SetDefault(ids, key, id)
    ensures Sound(lab, succ, cls[n := id], SetDefault(ids, key, id), word)
  {
    hide Exact, IdsBelow, Witnessed, CyclesWhole, CyclesKnown, RightClass, Names, Same, Read, ReadsCycle;
    AddExact(lab, succ, cls, n, id);
    AddIds(cls, ids, n, key, id);
    AddWitnesses(lab, succ, cls, ids, n, key, id);
    AddCycles(lab, succ, cls, ids, word, n, key, id);
  }

  lemma AddIds<N>(cls: map<N, nat>, ids: map<Key, nat>, n: N, key: Key, id: nat)
    requires IdsBelow(cls, ids) && id == if key in ids then ids[key] else |ids|
    ensures IdsBelow(cls[n := id], SetDefault(ids, key, id))
  {
    if key !in ids {
      assert |ids[key := id]| == |ids| + 1;
    }
  }

  lemma AddWitnesses<N>(lab: map<N, int>, succ: map<N, Option<N>>, cls: map<N, nat>, ids: map<Key, nat>,
      n: N, key: Key, id: nat)
    requires Closed(lab, succ) && n in lab && n !in cls && (key in ids ==> ids[key] == id)
    requires forall k :: k in ids ==> Witnessed(lab, succ, cls, k, ids[k])
    requires Names(lab, succ, cls[n := id], key, n)
    ensures var keys := SetDefault(ids, key, id);
            forall k :: k in keys ==> Witnessed(lab, succ, cls[n := id], k, keys[k])
  {
    var more, keys := cls[n := id], SetDefault(ids, key, id);
    forall k | k in keys ensures Witnessed(lab, succ, more, k, keys[k]) {
      if k in ids {
        assert Witnessed(lab, succ, cls, k, ids[k]);
        var w :| w in cls && w in lab && cls[w] == ids[k] && Names(lab, succ, cls, k, w);
        NamesGrows(lab, succ, cls, more, k, w);
      }
    }
  }

  lemma AddCycles<N>(lab: map<N, int>, succ: map<N, Option<N>>, cls: map<N, nat>, ids: map<Key, nat>, word: seq<int>,
      n: N, key: Key, id: nat)
    requires Closed(lab, succ) && CyclesWhole(ids, word) && CyclesKnown(lab, succ, cls, ids) && n in lab
    requires key.CycleKey? ==> key.rot == word
    requires forall r, i: nat :: ReadsCycle(lab, succ, n, r, i) ==> CycleKey(r, i) in SetDefault(ids, key, id)
    ensures CyclesWhole(SetDefault(ids, key, id), word)
    ensures CyclesKnown(lab, succ, cls[n := id], SetDefault(ids, key, id))
  {
    hide ReadsCycle;
  }

  lemma AddExact<N>(lab: map<N, int>, succ: map<N, Option<N>>, cls: map<N, nat>, n: N, id: nat)
    requires Closed(lab, succ) && Exact(lab, succ, cls) && n in lab && n !in cls
    requires RightClass(lab, succ, cls, n, id)
    ensures Exact(lab, succ, cls[n := id])
  {
    var more := cls[n := id];
    forall x, y | x in more && y in more ensures more[x] == more[y] <==> Same(lab, succ, x, y) {
      SameSymmetric(lab, succ, x, y);
    }
  }

  lemma SameSymmetric<N, L>(lab: map<N, L>, succ: map<N, Option<N>>, x: N, y: N)
    requires Closed(lab, succ) && x in lab && y in lab
    ensures Same(lab, succ, x, y) <==> Same(lab, succ, y, x)
    ensures Same(lab, succ, x, x)
  {
  }

  lemma TreeRowClass<N>(lab: map<N, int>, succ: map<N, Option<N>>, cls: map<N, nat>, ids: map<Key, nat>, n: N, id: nat)
    requires Closed(lab, succ) && Sound(lab, succ, cls, ids, []) && Complete(lab, succ, cls, ids)
    requires n in lab && n !in cls && (Next(succ, n).Some? ==> Next(succ, n).value in cls)
    requires var key := TreeKey(lab[n], ClassOf(cls, Next(succ, n)));
             id == if key in ids then ids[key] else |ids|
    ensures RightClass(lab, succ, cls, n, id)
  {
    var key := TreeKey(lab[n], ClassOf(cls, Next(succ, n)));
    forall x | x in cls && x in lab ensures cls[x] == id <==> Same(lab, succ, x, n) {
      assert Entered(lab, succ, cls, ids, x);
      TreeKeySame(lab, succ, cls, ids, [], x, n);
      if key in ids {
        assert Witnessed(lab, succ, cls, key, id);
        var w :| w in cls && w in lab && cls[w] == id && Names(lab, succ, cls, key, w);
        TreeKeySame(lab, succ, cls, ids, [], x, w);
      }
    }
  }

  /** A row off every open cycle is classified by its label and its successor's class. */
  lemma AddTreeRow<N>(lab: map<N, int>, succ: map<N, Option<N>>, cls: map<N, nat>, ids: map<Key, nat>, n: N, id: nat)
    requires Closed(lab, succ) && Sound(lab, succ, cls, ids, []) && Complete(lab, succ, cls, ids)
    requires n in lab && n !in cls && (Next(succ, n).Some? ==> Next(succ, n).value in cls)
    requires var key := TreeKey(lab[n], ClassOf(cls, Next(succ, n)));
             id == if key in ids then ids[key] else |ids|
    ensures var keys := SetDefault(ids, TreeKey(lab[n], ClassOf(cls, Next(succ, n))), id);
            Sound(lab, succ, cls[n := id], keys, []) && Complete(lab, succ, cls[n := id], keys)
  {
    hide Exact, IdsBelow, Witnessed, CyclesWhole, CyclesKnown, RightClass, Complete, ReadsCycle;
    var key := TreeKey(lab[n], ClassOf(cls, Next(succ, n)));
    var keys, more := SetDefault(ids, key, id), cls[n := id];
    TreeRowClass(lab, succ, cls, ids, n, id);
    forall r, i: nat | ReadsCycle(lab, succ, n, r, i) ensures CycleKey(r, i) in keys {
      TreeRowCycle(lab, succ, cls, ids, n, r, i);
    }
    AddRow(lab, succ, cls, ids, [], n, key, id);
    TreeRowEntered(lab, succ, cls, ids, n, id);
  }

  /** What a row off every cycle repeats, if anything, its successor repeats one letter on. */
  lemma TreeRowCycle<N>(lab: map<N, int>, succ: map<N, Option<N>>, cls: map<N, nat>, ids: map<Key, nat>, n: N,
      r: seq<int>, i: nat)
    requires Closed(lab, succ) && CyclesKnown(lab, succ, cls, ids) && CyclesWhole(ids, [])
    requires n in lab && (Next(succ, n).Some? ==> Next(succ, n).value in cls) && ReadsCycle(lab, succ, n, r, i)
    ensures CycleKey(r, i) in ids
  {
    ReadsCycleNext(lab, succ, n, r, i);
    var m, j: nat := Next(succ, n).value, (i + 1) % |r|;
    assert m in cls && m in lab && ReadsCycle(lab, succ, m, r, j);
    assert CycleKey(r, j) in ids;
  }

  lemma TreeRowEntered<N>(lab: map<N, int>, succ: map<N, Option<N>>, cls: map<N, nat>, ids: map<Key, nat>, n: N,
        id: nat)
    requires Complete(lab, succ, cls, ids)
    requires n in lab && n !in cls && (Next(succ, n).Some? ==> Next(succ, n).value in cls)
    requires var key := TreeKey(lab[n], ClassOf(cls, Next(succ, n)));
             id == if key in ids then ids[key] else |ids|
    ensures Complete(lab, succ, cls[n := id], SetDefault(ids, TreeKey(lab[n], ClassOf(cls, Next(succ, n))), id))
  {
    var keys := SetDefault(ids, TreeKey(lab[n], ClassOf(cls, Next(succ, n))), id);
    var more := cls[n := id];
    forall x | x in more ensures Entered(lab, succ, more, keys, x) {
      if x in cls {
        EnteredGrows(lab, succ, cls, ids, more, keys, x);
      }
    }
  }

  lemma CycleRowClass<N>(lab: map<N, int>, succ: map<N, Option<N>>, cls: map<N, nat>, ids: map<Key, nat>,
      word: seq<int>, n: N, i: nat, id: nat)
    requires Closed(lab, succ) && Sound(lab, succ, cls, ids, word)
    requires n in lab && n !in cls && ReadsCycle(lab, succ, n, word, i)
    requires id == if CycleKey(word, i) in ids then ids[CycleKey(word, i)] else |ids|
    ensures RightClass(lab, succ, cls, n, id)
  {
    var key := CycleKey(word, i);
    forall x | x in cls && x in lab ensures cls[x] == id <==> Same(lab, succ, x, n) {
      SameSymmetric(lab, succ, x, n);
      if key in ids {
        assert Witnessed(lab, succ, cls, key, id);
        var w :| w in cls && w in lab && cls[w] == id && Names(lab, succ, cls, key, w);
        ReadsCycleOnce(lab, succ, w, n, word, i, word, i);
        SameTransitive(lab, succ, x, w, n);
      } else if Same(lab, succ, x, n) {
        SameReadsCycle(lab, succ, n, x, word, i);
      }
    }
  }

  lemma SameTransitive<N, L>(lab: map<N, L>, succ: map<N, Option<N>>, x: N, y: N, z: N)
    requires Closed(lab, succ) && x in lab && y in lab && z in lab && Same(lab, succ, y, z)
    ensures Same(lab, succ, x, y) <==> Same(lab, succ, x, z)
  {
    if Same(lab, succ, x, y) || Same(lab, succ, x, z) {
      forall k: nat ensures Read(lab, succ, x, k) == Read(lab, succ, y, k) == Read(lab, succ, z, k) {
        assert Read(lab, succ, y, k) == Read(lab, succ, z, k);
      }
    }
  }

  /** A cycle row is classified by the cycle's canonical word and its offset in it. */
  lemma AddCycleRow<N>(lab: map<N, int>, succ: map<N, Option<N>>, cls: map<N, nat>, ids: map<Key, nat>,
      word: seq<int>, n: N, i: nat, id: nat)
    requires Closed(lab, succ) && Sound(lab, succ, cls, ids, word)
    requires n in lab && n !in cls && ReadsCycle(lab, succ, n, word, i)
    requires id == if CycleKey(word, i) in ids then ids[CycleKey(word, i)] else |ids|
    ensures Sound(lab, succ, cls[n := id], SetDefault(ids, CycleKey(word, i), id), word)
  {
    hide Exact, IdsBelow, Witnessed, CyclesWhole, CyclesKnown, RightClass;
    CycleRowClass(lab, succ, cls, ids, word, n, i, id);
    forall r, j: nat | ReadsCycle(lab, succ, n, r, j) ensures r == word && i == j {
      SameSymmetric(lab, succ, n, n);
      ReadsCycleOnce(lab, succ, n, n, r, j, word, i);
    }
    AddRow(lab, succ, cls, ids, word, n, CycleKey(word, i), id);
  }

  /** A classified row is also entered under its tree key, for rows that unroll its cycle. */
  lemma AddAlias<N>(lab: map<N, int>, succ: map<N, Option<N>>, cls: map<N, nat>, ids: map<Key, nat>,
      word: seq<int>, n: N)
    requires Closed(lab, succ) && Sound(lab, succ, cls, ids, word)
    requires n in cls && Next(succ, n).Some? && Next(succ, n).value in cls
    ensures var keys := SetDefault(ids, TreeKey(lab[n], ClassOf(cls, Next(succ, n))), cls[n]);
            Sound(lab, succ, cls, keys, word) && Entered(lab, succ, cls, keys, n)
  {
    var key := TreeKey(lab[n], ClassOf(cls, Next(succ, n)));
    var keys := SetDefault(ids, key, cls[n]);
    if key in ids {
      assert Witnessed(lab, succ, cls, key, ids[key]);
      var w :| w in cls && w in lab && cls[w] == ids[key] && Names(lab, succ, cls, key, w);
      TreeKeySame(lab, succ, cls, ids, word, w, n);
    } else {
      assert |keys| == |ids| + 1;
      forall k | k in keys ensures Witnessed(lab, succ, cls, k, keys[k]) {
        if k in ids {
          assert Witnessed(lab, succ, cls, k, ids[k]);
        } else {
          assert Names(lab, succ, cls, k, n);
        }
      }
    }
  }

  // ----- the rows of a cycle

  /** `cycle` lists the rows of a cycle in `succ` order. */
  ghost predicate Cyclic<N>(lab: map<N, int>, succ: map<N, Option<N>>, cycle: seq<N>) {
    && |cycle| > 0
    && forall i: nat :: i < |cycle| ==> cycle[i] in lab && Next(succ, cycle[i]) == Some(cycle[(i + 1) % |cycle|])
  }

  lemma {:induction false} CycleReads<N>(lab: map<N, int>, succ: map<N, Option<N>>, cycle: seq<N>, i: nat, k: nat)
    requires Closed(lab, succ) && Cyclic(lab, succ, cycle) && i < |cycle|
    ensures cycle[i] in lab && cycle[(i + k) % |cycle|] in lab
    ensures Read(lab, succ, cycle[i], k) == Some(lab[cycle[(i + k) % |cycle|]])
    decreases k
  {
    if k == 0 {
      ModUnique(i, |cycle|, 0, i);
    } else {
      CycleReads(lab, succ, cycle, (i + 1) % |cycle|, k - 1);
      ModAddMod(k - 1, i + 1, |cycle|);
    }
  }

  lemma CycleRowReads<N>(lab: map<N, int>, succ: map<N, Option<N>>, cycle: seq<N>, s: seq<int>,
      p: nat, start: nat, i: nat)
    requires Closed(lab, succ) && Cyclic(lab, succ, cycle) && |s| == |cycle| && i < |cycle|
    requires forall j {:trigger cycle[j]} :: 0 <= j < |s| ==> s[j] == lab[cycle[j]]
    requires 0 < p <= |s| && |s| % p == 0 && Rotate(s, p) == s && start < p && Canonical(Rotate(s[..p], start))
    ensures ReadsCycle(lab, succ, cycle[i], Rotate(s[..p], start), Offset(i, start, p))
  {
    var rot := Rotate(s[..p], start);
    forall k: nat ensures Read(lab, succ, cycle[i], k) == Some(Unroll(rot, Offset(i, start, p))(k)) {
      CycleReads(lab, succ, cycle, i, k);
      RootOffset(s, p, start, i, k);
    }
  }

  /** The offset of the cycle's position `i` in the word that starts at `start`. */
  function Offset(i: nat, start: nat, p: nat): nat
    requires p > 0
  {
    (i - start) % p
  }

  /** Reading on from position `i` of `s` is reading on from its offset in the rotated root. */
  lemma RootOffset(s: seq<int>, p: nat, start: nat, i: nat, k: nat)
    requires 0 < p <= |s| && |s| % p == 0 && Rotate(s, p) == s && start < p && i < |s|
    ensures s[(i + k) % |s|] == Unroll(Rotate(s[..p], start), Offset(i, start, p))(k)
  {
    var w, o, j := s[..p], Offset(i, start, p), (i + k) % |s|;
    RepeatsRootAt(s, p, j);
    RotateAt(w, start, (o + k) % p);
    assert j % p == ((o + k) % p + start) % p by {
      ModOfMultiple(i + k, p, |s|);
      ModAddMod(start, o + k, p);
      ModAddMod(start + k, i - start, p);
    }
  }

  // ----- the algorithm

  /** `order` lists exactly the keys: the iteration order of a dictionary. */
  ghost predicate Lists<N>(order: seq<N>, nodes: set<N>) {
    (forall i: nat {:trigger order[i]} :: i < |order| ==> order[i] in nodes) && forall n :: n in nodes ==> n in order
  }

  ghost predicate Covered<N>(order: seq<N>, i: nat, nodes: set<N>) {
    forall j {:trigger order[j]} :: 0 <= j < i <= |order| ==> order[j] in nodes
  }

  lemma CoveredGrows<N>(order: seq<N>, i: nat, nodes: set<N>, more: set<N>)
    requires Covered(order, i, nodes) && nodes <= more && i < |order| && order[i] in more
    ensures Covered(order, i + 1, more)
  {
  }

  lemma CoveredAll<N>(order: seq<N>, nodes: set<N>, more: set<N>)
    requires Lists(order, nodes) && Covered(order, |order|, more)
    ensures nodes <= more
  {
  }

  /** `lab`: labels as small integers, equal exactly when the labels are. */
  method Intern<N(==), L(==)>(order: seq<N>, labels: map<N, L>) returns (lab: map<N, int>)
    requires Lists(order, labels.Keys)
    ensures lab.Keys == labels.Keys
    ensures forall x, y :: x in labels && y in labels ==> (lab[x] == lab[y] <==> labels[x] == labels[y])
  {
    hide Numbering, LabelsBy, SetDefault, Covered;
    var lid: map<L, int> := map[];
    lab := map[];
    NoneNumbered(order, labels, lid, lab);
    for i := 0 to |order|
      invariant Covered(order, i, lab.Keys)
      invariant Numbering(lid) && LabelsBy(labels, lid, lab)
    {
      var n := order[i];
      InternRow(order, labels, lid, lab, i);
      lid := SetDefault(lid, labels[n], |lid|);
      lab := lab[n := lid[labels[n]]];
    }
    Interned(order, labels, lid, lab);
  }

  lemma InternRow<N, L>(order: seq<N>, labels: map<N, L>, lid: map<L, int>, lab: map<N, int>, i: nat)
    requires Lists(order, labels.Keys) && i < |order| && Covered(order, i, lab.Keys)
    requires Numbering(lid) && LabelsBy(labels, lid, lab)
    ensures order[i] in labels
    ensures var n := order[i]; var more := SetDefault(lid, labels[n], |lid|);
      && labels[n] in more && Numbering(more)
      && var out := lab[n := more[labels[n]]]; Covered(order, i + 1, out.Keys) && LabelsBy(labels, more, out)
  {
    hide Numbering, LabelsBy;
    var n := order[i];
    assert n in labels;
    Numbered(lid, labels[n]);
    LabelsGrow(labels, lid, lab, SetDefault(lid, labels[n], |lid|), n);
  }

  lemma NoneNumbered<N, L>(order: seq<N>, labels: map<N, L>, lid: map<L, int>, lab: map<N, int>)
    requires lid == map[] && lab == map[]
    ensures Numbering(lid) && LabelsBy(labels, lid, lab) && Covered(order, 0, lab.Keys)
  {
  }

  lemma Interned<N, L>(order: seq<N>, labels: map<N, L>, lid: map<L, int>, lab: map<N, int>)
    requires Lists(order, labels.Keys) && Numbering(lid) && LabelsBy(labels, lid, lab)
    requires Covered(order, |order|, lab.Keys)
    ensures lab.Keys == labels.Keys
    ensures forall x, y :: x in labels && y in labels ==> (lab[x] == lab[y] <==> labels[x] == labels[y])
  {
    forall n | n in labels ensures n in lab {
      assert n in order;
    }
  }

  /** Distinct keys have distinct numbers below the size. */
  ghost predicate Numbering<K>(d: map<K, int>) {
    && (forall l :: l in d ==> d[l] < |d|)
    && forall l, m :: l in d && m in d && d[l] == d[m] ==> l == m
  }

  ghost predicate LabelsBy<N, L>(labels: map<N, L>, lid: map<L, int>, lab: map<N, int>) {
    forall n :: n in lab ==> n in labels && labels[n] in lid && lab[n] == lid[labels[n]]
  }

  lemma Numbered<K>(d: map<K, int>, key: K)
    requires Numbering(d)
    ensures var e := SetDefault(d, key, |d|);
            Numbering(e) && key in e && forall l :: l in d ==> l in e && e[l] == d[l]
  {
    if key !in d {
      assert |d[key := |d|]| == |d| + 1;
    }
  }

  lemma LabelsGrow<N, L>(labels: map<N, L>, lid: map<L, int>, lab: map<N, int>, more: map<L, int>, n: N)
    requires LabelsBy(labels, lid, lab) && n in labels && labels[n] in more
    requires forall l :: l in lid ==> l in more && more[l] == lid[l]
    ensures LabelsBy(labels, more, lab[n := more[labels[n]]])
  {
  }

  lemma {:induction false} InternedReads<N, L>(labels: map<N, L>, lab: map<N, int>, succ: map<N, Option<N>>,
      x: N, y: N, k: nat)
    requires Closed(labels, succ) && Closed(lab, succ) && lab.Keys == labels.Keys
    requires forall x, y :: x in labels && y in labels ==> (lab[x] == lab[y] <==> labels[x] == labels[y])
    requires x in labels && y in labels
    ensures Read(lab, succ, x, k) == Read(lab, succ, y, k) <==> Read(labels, succ, x, k) == Read(labels, succ, y, k)
    ensures Read(lab, succ, x, k).Some? == Read(labels, succ, x, k).Some?
    ensures Read(lab, succ, y, k).Some? == Read(labels, succ, y, k).Some?
    decreases k
  {
    if k > 0 {
      var a := if Next(succ, x).Some? then Next(succ, x).value else x;
      var b := if Next(succ, y).Some? then Next(succ, y).value else y;
      InternedReads(labels, lab, succ, a, b, k - 1);
    }
  }

  /** Position `i` of the path leads to the next, the last position to `end`. */
  ghost predicate Follows<N>(succ: map<N, Option<N>>, path: seq<N>, end: Option<N>, i: nat)
    requires i < |path|
  {
    Next(succ, path[i]) == if i + 1 < |path| then Some(path[i + 1]) else end
  }

  /** A path of distinct, unclassified rows. */
  ghost predicate FreshPath<N>(lab: map<N, int>, cls: map<N, nat>, path: seq<N>) {
    && (forall i: nat {:trigger path[i]} :: i < |path| ==> path[i] in lab && path[i] !in cls)
    && forall i: nat, j: nat :: i < j < |path| ==> path[i] != path[j]
  }

  ghost predicate Linked<N>(succ: map<N, Option<N>>, path: seq<N>, end: Option<N>) {
    forall i: nat :: i < |path| ==> Follows(succ, path, end, i)
  }

  ghost predicate PositionsOf<N>(onpath: map<N, nat>, path: seq<N>) {
    && (forall i: nat {:trigger path[i]} :: i < |path| ==> path[i] in onpath && onpath[path[i]] == i)
    && (forall n :: n in onpath ==> onpath[n] < |path| && path[onpath[n]] == n)
  }

  lemma Extend<N>(lab: map<N, int>, succ: map<N, Option<N>>, cls: map<N, nat>, onpath: map<N, nat>, path: seq<N>, n: N)
    requires FreshPath(lab, cls, path) && Linked(succ, path, Some(n)) && PositionsOf(onpath, path)
    requires n in lab && n !in cls && n !in onpath
    ensures FreshPath(lab, cls, path + [n]) && Linked(succ, path + [n], Next(succ, n))
    ensures PositionsOf(onpath[n := |path|], path + [n])
  {
    forall i: nat | i < |path| + 1 ensures Follows(succ, path + [n], Next(succ, n), i) {
      if i < |path| {
        assert Follows(succ, path, Some(n), i);
      }
    }
  }

  lemma {:induction false} PathSize<N>(lab: map<N, int>, cls: map<N, nat>, path: seq<N>, nodes: set<N>)
    requires FreshPath(lab, cls, path)
    requires forall i: nat {:trigger path[i]} :: i < |path| ==> path[i] in nodes
    ensures |path| <= |nodes|
    decreases |path|
  {
    if path != [] {
      var last := path[|path| - 1];
      PathSize(lab, cls, path[..|path| - 1], nodes - {last});
    }
  }

  /** The walk from an unclassified row: to a stop, a classified row or a row on the path. */
  method Walk<N(==)>(lab: map<N, int>, succ: map<N, Option<N>>, cls: map<N, nat>, root: N)
      returns (path: seq<N>, onpath: map<N, nat>, node: Option<N>)
    requires Closed(lab, succ) && root in lab
    ensures FreshPath(lab, cls, path) && Linked(succ, path, node) && PositionsOf(onpath, path)
    ensures if path == [] then root in cls && node == Some(root) else path[0] == root
    ensures node.None? || node.value in cls || node.value in onpath
  {
    path, onpath, node := [], map[], Some(root);
    while node.Some? && node.value !in cls && node.value !in onpath
      invariant node.Some? ==> node.value in lab
      invariant FreshPath(lab, cls, path) && Linked(succ, path, node) && PositionsOf(onpath, path)
      invariant if path == [] then node == Some(root) else path[0] == root
      decreases |lab.Keys| - |path|
    {
      var n := node.value;
      Extend(lab, succ, cls, onpath, path, n);
      onpath := onpath[n := |path|];
      path := path + [n];
      node := Next(succ, n);
      PathSize(lab, cls, path, lab.Keys);
    }
  }

  /** Every offset of the canonical word belongs to some row of the cycle. */
  lemma OffsetTaken(p: nat, start: nat, o: nat)
    requires start < p && o < p
    ensures Offset((o + start) % p, start, p) == o
  {
    var j := (o + start) % p;
    var back := 0 - start;
    ModAddMod(back, o + start, p);
    ModUnique(o, p, 0, o);
    assert (back + (o + start) % p) % p == (j - start) % p;
  }

  /** The keys of the first `upto` rows of the cycle are in. */
  ghost predicate KeysIn(ids: map<Key, nat>, rot: seq<int>, start: nat, upto: nat)
    requires |rot| > 0
  {
    forall j: nat :: j < upto ==> CycleKey(rot, Offset(j, start, |rot|)) in ids
  }

  lemma KeysInGrows(ids: map<Key, nat>, rot: seq<int>, start: nat, upto: nat, id: nat)
    requires |rot| > 0 && KeysIn(ids, rot, start, upto)
    ensures KeysIn(SetDefault(ids, CycleKey(rot, Offset(upto, start, |rot|)), id), rot, start, upto + 1)
  {
  }

  lemma AddKey<K, V>(d: map<K, V>, key: K, value: V)
    ensures d[key := value].Keys == d.Keys + {key}
  {
  }

  lemma CycleComplete<N>(lab: map<N, int>, succ: map<N, Option<N>>, cls: map<N, nat>, ids: map<Key, nat>,
      rot: seq<int>, start: nat, n: nat)
    requires Closed(lab, succ) && Sound(lab, succ, cls, ids, rot)
    requires start < |rot| <= n && KeysIn(ids, rot, start, n)
    ensures Sound(lab, succ, cls, ids, [])
  {
    hide Exact, IdsBelow, Witnessed, CyclesKnown;
    forall r, i: nat, j: nat | CycleKey(r, i) in ids && j < |r| ensures CycleKey(r, j) in ids {
      if r == rot {
        OffsetTaken(|rot|, start, j);
        assert CycleKey(rot, Offset((j + start) % |rot|, start, |rot|)) in ids;
      }
    }
  }

  ghost predicate AllEntered<N>(lab: map<N, int>, succ: map<N, Option<N>>, cls: map<N, nat>, ids: map<Key, nat>,
      rows: set<N>)
  {
    forall n :: n in rows ==> Entered(lab, succ, cls, ids, n)
  }

  lemma AllEnteredGrows<N>(lab: map<N, int>, succ: map<N, Option<N>>, cls: map<N, nat>, ids: map<Key, nat>,
      more: map<N, nat>, keys: map<Key, nat>, rows: set<N>)
    requires AllEntered(lab, succ, cls, ids, rows)
    requires forall x :: x in cls ==> x in more && more[x] == cls[x]
    requires forall key :: key in ids ==> key in keys && keys[key] == ids[key]
    ensures AllEntered(lab, succ, more, keys, rows)
  {
    forall n | n in rows ensures Entered(lab, succ, more, keys, n) {
      EnteredGrows(lab, succ, cls, ids, more, keys, n);
    }
  }

  /** The cycle's labels, their canonical word and where it starts. */
  method CanonicalWord<N(==)>(lab: map<N, int>, succ: map<N, Option<N>>, cycle: seq<N>)
        returns (rot: seq<int>, start: nat)
    requires Closed(lab, succ) && Cyclic(lab, succ, cycle)
    ensures start < |rot| <= |cycle| && Canonical(rot)
    ensures forall i {:trigger cycle[i]} :: 0 <= i < |cycle| ==>
      cycle[i] in lab && ReadsCycle(lab, succ, cycle[i], rot, Offset(i, start, |rot|))
  {
    var s := seq(|cycle|, i requires 0 <= i < |cycle| && cycle[i] in lab => lab[cycle[i]]);
    var p := Period(s);
    RootPrimitive(s, p);
    start := LeastRotation(s[..p]);
    LeastIsCanonical(s[..p], start);
    rot := Rotate(s[..p], start);
    forall i {:trigger cycle[i]} | 0 <= i < |cycle|
      ensures cycle[i] in lab && ReadsCycle(lab, succ, cycle[i], rot, Offset(i, start, |rot|))
    {
      CycleRowReads(lab, succ, cycle, s, p, start, i);
    }
  }

  lemma CycleRowStep<N>(lab: map<N, int>, succ: map<N, Option<N>>, cls: map<N, nat>, ids: map<Key, nat>,
      rot: seq<int>, start: nat, n: N, i: nat, id: nat, rows: set<N>)
    requires Closed(lab, succ) && |rot| > 0 && Sound(lab, succ, cls, ids, rot) && KeysIn(ids, rot, start, i)
    requires AllEntered(lab, succ, cls, ids, rows)
    requires n in lab && n !in cls && ReadsCycle(lab, succ, n, rot, Offset(i, start, |rot|))
    requires var key := CycleKey(rot, Offset(i, start, |rot|)); id == if key in ids then ids[key] else |ids|
    ensures var keys := SetDefault(ids, CycleKey(rot, Offset(i, start, |rot|)), id);
            && Sound(lab, succ, cls[n := id], keys, rot) && KeysIn(keys, rot, start, i + 1)
            && AllEntered(lab, succ, cls[n := id], keys, rows)
    ensures cls[n := id].Keys == cls.Keys + {n}
  {
    hide Sound, KeysIn, AllEntered, ReadsCycle;
    var o := Offset(i, start, |rot|);
    AddCycleRow(lab, succ, cls, ids, rot, n, o, id);
    AllEnteredGrows(lab, succ, cls, ids, cls[n := id], SetDefault(ids, CycleKey(rot, o), id), rows);
    KeysInGrows(ids, rot, start, i, id);
    AddKey(cls, n, id);
  }

  lemma BeforeCycle<N>(lab: map<N, int>, succ: map<N, Option<N>>, cycle: seq<N>, rot: seq<int>, start: nat,
      cls: map<N, nat>, ids: map<Key, nat>)
    requires Closed(lab, succ) && Sound(lab, succ, cls, ids, []) && |rot| > 0
    ensures Sound(lab, succ, cls, ids, rot) && KeysIn(ids, rot, start, 0)
    ensures cls.Keys + Rows(cycle[..0]) == cls.Keys
  {
    hide Exact, IdsBelow, Witnessed, CyclesKnown;
  }

  /** Give the rows of a new cycle the classes of their offsets in its canonical word. */
  method ClassifyCycle<N(==)>(lab: map<N, int>, succ: map<N, Option<N>>, cycle: seq<N>, rot: seq<int>, start: nat,
      cls0: map<N, nat>, ids0: map<Key, nat>) returns (cls: map<N, nat>, ids: map<Key, nat>)
    requires Closed(lab, succ) && Sound(lab, succ, cls0, ids0, []) && AllEntered(lab, succ, cls0, ids0, cls0.Keys)
    requires FreshPath(lab, cls0, cycle) && start < |rot|
    requires forall i {:trigger cycle[i]} :: 0 <= i < |cycle| ==>
      cycle[i] in lab && ReadsCycle(lab, succ, cycle[i], rot, Offset(i, start, |rot|))
    ensures Sound(lab, succ, cls, ids, rot) && AllEntered(lab, succ, cls, ids, cls0.Keys)
    ensures KeysIn(ids, rot, start, |cycle|)
    ensures cls.Keys == cls0.Keys + Rows(cycle)
  {
    hide Sound, AllEntered, KeysIn, FreshPath, ReadsCycle, Offset, Rows, Closed;
    cls, ids := cls0, ids0;
    BeforeCycle(lab, succ, cycle, rot, start, cls0, ids0);
    for i := 0 to |cycle|
      invariant Sound(lab, succ, cls, ids, rot) && AllEntered(lab, succ, cls, ids, cls0.Keys)
      invariant KeysIn(ids, rot, start, i)
      invariant cls.Keys == cls0.Keys + Rows(cycle[..i])
    {
      var o := Offset(i, start, |rot|);
      var key := CycleKey(rot, o);
      var id := if key in ids then ids[key] else |ids|;
      PrefixRows(cls0.Keys, cycle, i);
      FreshNext(lab, cls0, cycle, i);
      CycleRowStep(lab, succ, cls, ids, rot, start, cycle[i], i, id, cls0.Keys);
      ids := SetDefault(ids, key, id);
      cls := cls[cycle[i] := id];
    }
    assert cycle[..|cycle|] == cycle;
  }

  function Rows<N>(path: seq<N>): set<N> {
    set n | n in path
  }

  lemma PrefixRows<N>(base: set<N>, path: seq<N>, i: nat)
    requires i < |path|
    ensures base + Rows(path[..i]) + {path[i]} == base + Rows(path[..i + 1])
    ensures base + Rows(path[i + 1..]) + {path[i]} == base + Rows(path[i..])
  {
    assert path[..i + 1] == path[..i] + [path[i]];
    assert path[i..] == [path[i]] + path[i + 1..];
  }

  lemma FreshNext<N>(lab: map<N, int>, cls: map<N, nat>, path: seq<N>, i: nat)
    requires FreshPath(lab, cls, path) && i < |path|
    ensures path[i] in lab && path[i] !in cls.Keys + Rows(path[..i])
    ensures path[i] !in cls.Keys + Rows(path[i + 1..])
  {
  }

  /** Classify the rows of a new cycle, and enter them under their tree keys too. */
  method EnterCycle<N(==)>(lab: map<N, int>, succ: map<N, Option<N>>, cycle: seq<N>,
      cls0: map<N, nat>, ids0: map<Key, nat>)
      returns (cls: map<N, nat>, ids: map<Key, nat>)
    requires Closed(lab, succ) && Sound(lab, succ, cls0, ids0, []) && Complete(lab, succ, cls0, ids0)
    requires Cyclic(lab, succ, cycle) && FreshPath(lab, cls0, cycle)
    ensures Sound(lab, succ, cls, ids, []) && Complete(lab, succ, cls, ids)
    ensures cls.Keys == cls0.Keys + Rows(cycle)
  {
    hide Sound, AllEntered, KeysIn, FreshPath, ReadsCycle, Offset, CyclesWhole, Cyclic;
    var rot, start := CanonicalWord(lab, succ, cycle);
    cls, ids := ClassifyCycle(lab, succ, cycle, rot, start, cls0, ids0);
    assert cls0.Keys + Rows(cycle[..0]) == cls0.Keys;
    for i := 0 to |cycle|
      invariant Sound(lab, succ, cls, ids, rot)
      invariant AllEntered(lab, succ, cls, ids, cls0.Keys + Rows(cycle[..i]))
      invariant KeysIn(ids, rot, start, |cycle|)
    {
      var c := cycle[i];
      CycleClosed(lab, succ, cls, cycle, i);
      PrefixRows(cls0.Keys, cycle, i);
      AliasKeepsEntered(lab, succ, cls, ids, rot, start, |cycle|, c, cls0.Keys + Rows(cycle[..i]));
      ids := SetDefault(ids, TreeKey(lab[c], ClassOf(cls, Next(succ, c))), cls[c]);
    }
    assert cycle[..|cycle|] == cycle;
    CycleComplete(lab, succ, cls, ids, rot, start, |cycle|);
  }

  lemma AliasKeepsEntered<N>(lab: map<N, int>, succ: map<N, Option<N>>, cls: map<N, nat>, ids: map<Key, nat>,
      rot: seq<int>, start: nat, upto: nat, c: N, rows: set<N>)
    requires Closed(lab, succ) && |rot| > 0 && Sound(lab, succ, cls, ids, rot) && KeysIn(ids, rot, start, upto)
    requires AllEntered(lab, succ, cls, ids, rows)
    requires c in cls && Next(succ, c).Some? && Next(succ, c).value in cls
    ensures var keys := SetDefault(ids, TreeKey(lab[c], ClassOf(cls, Next(succ, c))), cls[c]);
            && Sound(lab, succ, cls, keys, rot) && KeysIn(keys, rot, start, upto)
            && AllEntered(lab, succ, cls, keys, rows + {c})
  {
    hide IdsBelow, Witnessed, CyclesWhole, CyclesKnown, Same;
    var keys := SetDefault(ids, TreeKey(lab[c], ClassOf(cls, Next(succ, c))), cls[c]);
    AddAlias(lab, succ, cls, ids, rot, c);
    AllEnteredGrows(lab, succ, cls, ids, cls, keys, rows);
  }

  lemma CycleClosed<N>(lab: map<N, int>, succ: map<N, Option<N>>, cls: map<N, nat>, cycle: seq<N>, i: nat)
    requires Cyclic(lab, succ, cycle) && Rows(cycle) <= cls.Keys && i < |cycle|
    ensures cycle[i] in cls && Next(succ, cycle[i]).Some? && Next(succ, cycle[i]).value in cls
  {
    assert cycle[i] in Rows(cycle) && cycle[(i + 1) % |cycle|] in Rows(cycle);
  }

  /** Classify the rows of a path that leads to a stop or a classified row, last row first. */
  method EnterPath<N(==)>(lab: map<N, int>, succ: map<N, Option<N>>, path: seq<N>, end: Option<N>,
      cls0: map<N, nat>, ids0: map<Key, nat>) returns (cls: map<N, nat>, ids: map<Key, nat>)
    requires Closed(lab, succ) && Sound(lab, succ, cls0, ids0, []) && Complete(lab, succ, cls0, ids0)
    requires FreshPath(lab, cls0, path) && Linked(succ, path, end)
    requires end.Some? ==> end.value in cls0
    ensures Sound(lab, succ, cls, ids, []) && Complete(lab, succ, cls, ids)
    ensures cls.Keys == cls0.Keys + Rows(path)
  {
    hide Sound, Complete, AllEntered, FreshPath, Linked, Closed;
    cls, ids := cls0, ids0;
    for i := |path| downto 0
      invariant Sound(lab, succ, cls, ids, []) && Complete(lab, succ, cls, ids)
      invariant cls.Keys == cls0.Keys + Rows(path[i..])
    {
      var n := path[i];
      FreshNext(lab, cls0, path, i);
      PrefixRows(cls0.Keys, path, i);
      LinkedIn(succ, path, end, cls, i);
      var key := TreeKey(lab[n], ClassOf(cls, Next(succ, n)));
      var id := if key in ids then ids[key] else |ids|;
      AddTreeRow(lab, succ, cls, ids, n, id);
      AddKey(cls, n, id);
      ids := SetDefault(ids, key, id);
      cls := cls[n := id];
    }
    assert path[0..] == path;
  }

  lemma LinkedIn<N>(succ: map<N, Option<N>>, path: seq<N>, end: Option<N>, cls: map<N, nat>, i: nat)
    requires Linked(succ, path, end) && i < |path| && Rows(path[i + 1..]) <= cls.Keys
    requires end.Some? ==> end.value in cls
    ensures Next(succ, path[i]).Some? ==> Next(succ, path[i]).value in cls
  {
    assert Follows(succ, path, end, i);
    if i + 1 < |path| {
      assert path[i + 1] == path[i + 1..][0];
      assert path[i + 1] in Rows(path[i + 1..]);
    }
  }

  lemma CycleFromPath<N>(lab: map<N, int>, succ: map<N, Option<N>>, cls: map<N, nat>, path: seq<N>, cut: nat, node: N)
    requires cut < |path| && path[cut] == node && FreshPath(lab, cls, path) && Linked(succ, path, Some(node))
    ensures Cyclic(lab, succ, path[cut..]) && FreshPath(lab, cls, path[cut..])
    ensures FreshPath(lab, cls, path[..cut]) && Linked(succ, path[..cut], Some(node))
    ensures Rows(path) == Rows(path[..cut]) + Rows(path[cut..]) && node in Rows(path[cut..])
    ensures Rows(path[..cut]) !! Rows(path[cut..])
  {
    var cycle := path[cut..];
    forall i: nat | i < |cycle| ensures cycle[i] in lab && Next(succ, cycle[i]) == Some(cycle[(i + 1) % |cycle|]) {
      assert cycle[i] == path[cut + i];
      assert Follows(succ, path, Some(node), cut + i);
      if i + 1 < |cycle| {
        ModUnique(i + 1, |cycle|, 0, i + 1);
        assert cycle[i + 1] == path[cut + i + 1];
      } else {
        ModUnique(i + 1, |cycle|, 1, 0);
      }
    }
    forall i: nat | i < cut ensures Follows(succ, path[..cut], Some(node), i) {
      assert Follows(succ, path, Some(node), i);
    }
    assert path == path[..cut] + path[cut..];
    assert node == path[cut..][0];
  }

  /** One turn of `minimise`: everything `root` leads to is classified. */
  method EnterRoot<N(==)>(lab: map<N, int>, succ: map<N, Option<N>>, root: N, cls0: map<N, nat>, ids0: map<Key, nat>)
      returns (cls: map<N, nat>, ids: map<Key, nat>)
    requires Closed(lab, succ) && Sound(lab, succ, cls0, ids0, []) && Complete(lab, succ, cls0, ids0)
    requires root in lab
    ensures Sound(lab, succ, cls, ids, []) && Complete(lab, succ, cls, ids)
    ensures cls0.Keys <= cls.Keys && root in cls
  {
    hide Sound, Complete, AllEntered, FreshPath, Linked, Cyclic, Closed, Rows;
    cls, ids := cls0, ids0;
    var path, onpath, node := Walk(lab, succ, cls, root);
    ghost var all := path;
    if node.Some? && node.value !in cls {
      var cut := onpath[node.value];
      CycleFromPath(lab, succ, cls, path, cut, node.value);
      cls, ids := EnterCycle(lab, succ, path[cut..], cls, ids);
      path := path[..cut];
      StillFresh(lab, cls0, cls, path, all[cut..]);
    }
    cls, ids := EnterPath(lab, succ, path, node, cls, ids);
    FirstRow(all);
  }

  lemma FirstRow<N>(path: seq<N>)
    ensures path != [] ==> path[0] in Rows(path)
  {
  }

  lemma StillFresh<N>(lab: map<N, int>, cls: map<N, nat>, more: map<N, nat>, path: seq<N>, cycle: seq<N>)
    requires FreshPath(lab, cls, path) && more.Keys == cls.Keys + Rows(cycle) && Rows(path) !! Rows(cycle)
    ensures FreshPath(lab, more, path)
  {
    assert forall i {:trigger path[i]} :: 0 <= i < |path| ==> path[i] in Rows(path);
  }

  // ----- numbering the classes by first use

  /** The numbers given to the first `i` rows. */
  ghost function Seen<N>(order: seq<N>, classes: map<N, nat>, i: nat): set<nat> {
    set j | 0 <= j < i <= |order| && order[j] in classes :: classes[order[j]]
  }

  /** Row `i` has a number seen before, or the count of those seen. */
  ghost predicate FirstUse<N>(order: seq<N>, classes: map<N, nat>, i: nat) {
    && i < |order| && order[i] in classes
    && (classes[order[i]] in Seen(order, classes, i) || classes[order[i]] == |Seen(order, classes, i)|)
  }

  ghost predicate UpTo(s: set<nat>, n: nat) {
    forall v: nat :: v in s <==> v < n
  }

  lemma UpToSize(s: set<nat>, n: nat)
    requires UpTo(s, n)
    ensures |s| == n
    decreases n
  {
    if n > 0 {
      UpToSize(s - {n - 1}, n - 1);
    } else {
      assert s == {};
    }
  }

  lemma UpToNext(s: set<nat>, n: nat, c: nat)
    requires UpTo(s, n) && c <= n
    ensures UpTo(s + {c}, if c < n then n else n + 1)
  {
  }

  lemma SeenGrows<N>(order: seq<N>, classes: map<N, nat>, n: N, c: nat, i: nat)
    requires i < |order| && order[i] == n && Covered(order, i, classes.Keys)
    requires n in classes ==> classes[n] == c
    ensures forall k: nat :: k <= i ==> Seen(order, classes[n := c], k) == Seen(order, classes, k)
    ensures Seen(order, classes[n := c], i + 1) == Seen(order, classes, i) + {c}
  {
    var more := classes[n := c];
    assert forall j {:trigger order[j]} :: 0 <= j < i ==> order[j] in more && more[order[j]] == classes[order[j]];
  }

  ghost predicate NumbersBy<N>(cls: map<N, nat>, renum: map<nat, nat>, classes: map<N, nat>) {
    forall n :: n in classes ==> n in cls && cls[n] in renum && classes[n] == renum[cls[n]]
  }

  ghost predicate FirstUses<N>(order: seq<N>, classes: map<N, nat>, i: nat) {
    forall k: nat :: k < i ==> FirstUse(order, classes, k)
  }

  lemma RenumberRow<N>(order: seq<N>, cls: map<N, nat>, renum: map<nat, nat>, classes: map<N, nat>, i: nat)
    requires i < |order| && order[i] in cls && Covered(order, i, classes.Keys)
    requires NumbersBy(cls, renum, classes) && Numbering(renum)
    requires UpTo(Seen(order, classes, i), |renum|) && FirstUses(order, classes, i)
    ensures var n := order[i]; var more := SetDefault(renum, cls[n], |renum|); var out := classes[n := more[cls[n]]];
            && NumbersBy(cls, more, out) && Numbering(more)
            && UpTo(Seen(order, out, i + 1), |more|) && FirstUses(order, out, i + 1)
  {
    hide UpTo, Seen, FirstUses, Covered, Numbering;
    var n := order[i];
    var more := SetDefault(renum, cls[n], |renum|);
    Numbered(renum, cls[n]);
    NumberRow(order, classes, n, more[cls[n]], i, |renum|);
  }

  lemma NumberRow<N>(order: seq<N>, classes: map<N, nat>, n: N, c: nat, i: nat, size: nat)
    requires i < |order| && order[i] == n && Covered(order, i, classes.Keys) && c <= size
    requires n in classes ==> classes[n] == c
    requires UpTo(Seen(order, classes, i), size) && FirstUses(order, classes, i)
    ensures UpTo(Seen(order, classes[n := c], i + 1), if c < size then size else size + 1)
    ensures FirstUses(order, classes[n := c], i + 1)
  {
    SeenGrows(order, classes, n, c, i);
    UpToSize(Seen(order, classes, i), size);
    UpToNext(Seen(order, classes, i), size, c);
    var out := classes[n := c];
    forall k: nat | k <= i ensures FirstUse(order, out, k) {
      if k < i {
        assert FirstUse(order, classes, k);
      }
    }
  }

  /** `renum`: the classes in order of first use. */
  method Renumber<N(==)>(order: seq<N>, cls: map<N, nat>) returns (classes: map<N, nat>)
    requires Lists(order, cls.Keys)
    ensures classes.Keys == cls.Keys
    ensures forall x, y :: x in classes && y in classes ==> (classes[x] == classes[y] <==> cls[x] == cls[y])
    ensures FirstUses(order, classes, |order|)
  {
    classes := map[];
    var renum: map<nat, nat> := map[];
    hide Covered, NumbersBy, Numbering, UpTo, Seen, FirstUses;
    NothingNumbered(order, cls);
    for i := 0 to |order|
      invariant Covered(order, i, classes.Keys) && NumbersBy(cls, renum, classes) && Numbering(renum)
      invariant UpTo(Seen(order, classes, i), |renum|) && FirstUses(order, classes, i)
    {
      var c := cls[order[i]];
      RenumberRow(order, cls, renum, classes, i);
      CoveredGrows(order, i, classes.Keys, classes.Keys + {order[i]});
      renum := SetDefault(renum, c, |renum|);
      AddKey(classes, order[i], renum[c]);
      classes := classes[order[i] := renum[c]];
    }
    Renumbered(order, cls, renum, classes);
  }

  lemma NothingNumbered<N>(order: seq<N>, cls: map<N, nat>)
    ensures var renum: map<nat, nat>, classes: map<N, nat> := map[], map[];
            && Covered(order, 0, classes.Keys) && NumbersBy(cls, renum, classes) && Numbering(renum)
            && UpTo(Seen(order, classes, 0), |renum|) && FirstUses(order, classes, 0)
  {
  }

  lemma Renumbered<N>(order: seq<N>, cls: map<N, nat>, renum: map<nat, nat>, classes: map<N, nat>)
    requires Lists(order, cls.Keys) && Covered(order, |order|, classes.Keys)
    requires NumbersBy(cls, renum, classes) && Numbering(renum)
    ensures classes.Keys == cls.Keys
    ensures forall x, y :: x in classes && y in classes ==> (classes[x] == classes[y] <==> cls[x] == cls[y])
  {
    CoveredAll(order, cls.Keys, classes.Keys);
  }

  /** `minimise`: two rows share a class exactly when no player can tell them apart. */
  method Minimise<N(==), L(==)>(order: seq<N>, labels: map<N, L>, succ: map<N, Option<N>>)
      returns (classes: map<N, nat>)
    requires Lists(order, labels.Keys)
    requires Closed(labels, succ)
    ensures classes.Keys == labels.Keys
    ensures forall x, y :: x in labels && y in labels ==>
      (classes[x] == classes[y] <==> Same(labels, succ, x, y))
    ensures FirstUses(order, classes, |order|)
  {
    hide Covered, AllEntered, Complete, FirstUses, Seen, Same, Read, Sound, Exact;
    var lab := Intern(order, labels);
    var ids: map<Key, nat>, cls: map<N, nat> := map[], map[];
    NothingEntered(order, lab, succ);
    for i := 0 to |order|
      invariant Sound(lab, succ, cls, ids, []) && Complete(lab, succ, cls, ids)
      invariant Covered(order, i, cls.Keys)
    {
      ghost var before := cls.Keys;
      cls, ids := EnterRoot(lab, succ, order[i], cls, ids);
      CoveredGrows(order, i, before, cls.Keys);
    }
    CoveredAll(order, labels.Keys, cls.Keys);
    SoundRows(lab, succ, cls, ids);
    classes := Renumber(order, cls);
    MinimisedSame(labels, lab, succ, cls, ids, classes);
  }

  lemma NothingEntered<N>(order: seq<N>, lab: map<N, int>, succ: map<N, Option<N>>)
    requires Closed(lab, succ)
    ensures var cls: map<N, nat> := map[];
            Sound(lab, succ, cls, map[], []) && Complete(lab, succ, cls, map[]) && Covered(order, 0, cls.Keys)
  {
  }

  lemma SoundRows<N>(lab: map<N, int>, succ: map<N, Option<N>>, cls: map<N, nat>, ids: map<Key, nat>)
    requires Closed(lab, succ) && Sound(lab, succ, cls, ids, []) && lab.Keys <= cls.Keys
    ensures cls.Keys == lab.Keys
  {
  }

  lemma MinimisedSame<N, L>(labels: map<N, L>, lab: map<N, int>, succ: map<N, Option<N>>,
      cls: map<N, nat>, ids: map<Key, nat>, classes: map<N, nat>)
    requires Closed(labels, succ) && Closed(lab, succ) && Sound(lab, succ, cls, ids, [])
    requires lab.Keys == labels.Keys == cls.Keys == classes.Keys
    requires forall x, y :: x in labels && y in labels ==> (lab[x] == lab[y] <==> labels[x] == labels[y])
    requires forall x, y :: x in classes && y in classes ==> (classes[x] == classes[y] <==> cls[x] == cls[y])
    ensures forall x, y :: x in labels && y in labels ==>
      (classes[x] == classes[y] <==> Same(labels, succ, x, y))
  {
    forall x, y | x in labels && y in labels ensures classes[x] == classes[y] <==> Same(labels, succ, x, y) {
      InternedSame(labels, lab, succ, x, y);
    }
  }

  lemma InternedSame<N, L>(labels: map<N, L>, lab: map<N, int>, succ: map<N, Option<N>>, x: N, y: N)
    requires Closed(labels, succ) && Closed(lab, succ) && lab.Keys == labels.Keys
    requires forall x, y :: x in labels && y in labels ==> (lab[x] == lab[y] <==> labels[x] == labels[y])
    requires x in labels && y in labels
    ensures Same(lab, succ, x, y) <==> Same(labels, succ, x, y)
  {
    forall k: nat
      ensures Read(lab, succ, x, k) == Read(lab, succ, y, k) <==> Read(labels, succ, x, k) == Read(labels, succ, y, k)
    {
      InternedReads(labels, lab, succ, x, y, k);
    }
  }
}
