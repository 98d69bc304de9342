/** `automaton.number_chains`: first-use numbers, each entry's chain numbered consecutively. */
module Chains {
  import opened Options

  /** The successor of a node; a node missing from `succ` has none. */
  function Get<N(==)>(succ: map<N, Option<N>>, node: N): Option<N> {
    if node in succ then succ[node] else None
  }

  ghost predicate Closed<N(!new)>(succ: map<N, Option<N>>, s: set<N>) {
    forall n {:trigger Get(succ, n)} :: n in s && Get(succ, n).Some? ==> Get(succ, n).value in s
  }

  ghost predicate HoldsEntries<N(!new)>(entries: seq<Option<N>>, s: set<N>) {
    forall i {:trigger entries[i]} :: 0 <= i < |entries| && entries[i].Some? ==> entries[i].value in s
  }

  /** The numbers from `start` on, each given once. */
  ghost predicate Consecutive<N(!new)>(out: map<N, int>, start: int) {
    && (forall n {:trigger out[n]} :: n in out ==> start <= out[n] < start + |out|)
    && forall n, m {:trigger out[n], out[m]} :: n in out && m in out && out[n] == out[m] ==> n == m
  }

  /** A successor is numbered next, unless it was numbered before. */
  ghost predicate Chained<N(!new)>(succ: map<N, Option<N>>, out: map<N, int>) {
    forall n {:trigger out[n]} :: n in out && Get(succ, n).Some? ==>
      Get(succ, n).value in out && out[Get(succ, n).value] <= out[n] + 1
  }

  function Known<N(==)>(entries: seq<Option<N>>, succ: map<N, Option<N>>): set<N> {
    (set i | 0 <= i < |entries| && entries[i].Some? :: entries[i].value)
    + (set n | n in succ && succ[n].Some? :: succ[n].value)
  }

  /** Every closed set holding the entries holds all this, and the node to come. */
  ghost predicate Needed<N(!new)>(entries: seq<Option<N>>, succ: map<N, Option<N>>, keys: set<N>, node: Option<N>) {
    forall s {:trigger Closed(succ, s)} :: HoldsEntries(entries, s) && Closed(succ, s) ==>
      keys <= s && (node.Some? ==> node.value in s)
  }

  /** Exactly the nodes the entries lead to. */
  ghost predicate Led<N(!new)>(entries: seq<Option<N>>, succ: map<N, Option<N>>, s: set<N>) {
    && HoldsEntries(entries, s) && Closed(succ, s)
    && forall more {:trigger Closed(succ, more)} :: HoldsEntries(entries, more) && Closed(succ, more) ==> s <= more
  }

  /** The nodes numbered before `n`. */
  function Earlier<N>(out: map<N, int>, n: N): set<N>
    requires n in out
  {
    set m | m in out && out[m] < out[n]
  }

  /** The `i`-th entry, if no earlier one leads to it, is numbered right after all that they lead to. */
  ghost predicate FirstUse<N(!new)>(entries: seq<Option<N>>, succ: map<N, Option<N>>, out: map<N, int>, i: nat) {
    i < |entries| && entries[i].Some? ==>
      && entries[i].value in out
      && forall led {:trigger Led(entries[..i], succ, led)} :: Led(entries[..i], succ, led) ==>
           entries[i].value in led || Earlier(out, entries[i].value) == led
  }

  /** Numbered are exactly the nodes the entries lead to, consecutively from `start` in order of first
      use: an entry after all that earlier entries lead to, and every successor right after its node,
      unless it has an earlier number. */
  method NumberChains<N(!new, ==)>(entries: seq<Option<N>>, succ: map<N, Option<N>>, start: int)
        returns (out: map<N, int>)
    ensures Consecutive(out, start) && Chained(succ, out) && Led(entries, succ, out.Keys)
    ensures forall i: nat :: i < |entries| ==> FirstUse(entries, succ, out, i)
  {
    hide Consecutive, Known, Needed, HoldsEntries, Chained, Closed, FirstUse, Led;
    out := map[];
    Nothing(entries, succ, start);
    assert out.Keys == {};
    var i := 0;
    while i < |entries|
      invariant 0 <= i <= |entries|
      invariant Consecutive(out, start) && Chained(succ, out) && out.Keys <= Known(entries, succ)
      invariant Led(entries[..i], succ, out.Keys)
      invariant forall k: nat :: k < i ==> FirstUse(entries, succ, out, k)
    {
      EntryKnown(entries, succ, i);
      LedNeeded(entries, succ, out.Keys, i);
      ghost var was := out;
      out := NumberChain(entries, entries[..i + 1], succ, start, out, entries[i]);
      ChainedCloses(succ, out);
      HoldsNext(entries, succ, start, was, out, i);
      NeededLed(entries[..i + 1], succ, out.Keys);
      UsesNext(entries, succ, start, was, out, i);
      i := i + 1;
    }
    assert entries[..i] == entries;
  }

  /** The numbers of `before` and greater ones. */
  ghost predicate Extends<N(!new)>(before: map<N, int>, out: map<N, int>, start: int) {
    && before.Keys <= out.Keys
    && forall n {:trigger out[n]} ::
        n in out ==> if n in before then out[n] == before[n] else out[n] >= start + |before|
  }

  method NumberChain<N(!new, ==)>(ghost entries: seq<Option<N>>, ghost used: seq<Option<N>>, succ: map<N, Option<N>>,
      start: int, before: map<N, int>, entry: Option<N>)
    returns (out: map<N, int>)
    requires Consecutive(before, start) && Chained(succ, before) && before.Keys <= Known(entries, succ)
    requires Needed(used, succ, before.Keys, entry) && (entry.Some? ==> entry.value in Known(entries, succ))
    ensures Consecutive(out, start) && Chained(succ, out) && out.Keys <= Known(entries, succ)
    ensures Needed(used, succ, out.Keys, None) && Extends(before, out, start)
    ensures entry.Some? ==> entry.value in out && (entry.value in before || out[entry.value] == start + |before|)
  {
    hide Consecutive, ChainedTo, Chained, Known, Needed, Extends;
    out := before;
    var node := entry;
    ChainedStart(succ, out, start, node);
    ExtendsSelf(before, start);
    while node.Some? && node.value !in out
      invariant Consecutive(out, start) && ChainedTo(succ, out, start, node)
      invariant Extends(before, out, start) && |before| <= |out|
      invariant out.Keys <= Known(entries, succ) && (node.Some? ==> node.value in Known(entries, succ))
      invariant Needed(used, succ, out.Keys, node)
      invariant out == before ==> node == entry
      invariant out != before ==>
        entry.Some? && entry.value in out && (entry.value in before || out[entry.value] == start + |before|)
      decreases Known(entries, succ) - out.Keys
    {
      ConsecutiveNext(out, start, node.value);
      ChainedNext(succ, out, start, node.value);
      NeededNext(used, succ, out.Keys, node.value);
      NextKnown(entries, succ, node.value);
      ExtendsNext(before, out, start, node.value);
      ghost var was := out;
      out := out[node.value := start + |out|];
      assert out.Keys == was.Keys + {node.value};
      node := Get(succ, node.value);
    }
    ChainedEnd(succ, out, start, node);
    NeededEnd(used, succ, out.Keys, node);
  }

  lemma ExtendsSelf<N(!new)>(before: map<N, int>, start: int)
    ensures Extends(before, before, start)
  {
  }

  lemma ExtendsNext<N(!new)>(before: map<N, int>, out: map<N, int>, start: int, n: N)
    requires Extends(before, out, start) && |before| <= |out| && n !in out
    ensures var more := out[n := start + |out|]; Extends(before, more, start) && |more| == |out| + 1
  {
    var more := out[n := start + |out|];
    assert more.Keys == out.Keys + {n};
  }

  lemma LedNeeded<N(!new)>(entries: seq<Option<N>>, succ: map<N, Option<N>>, keys: set<N>, i: nat)
    requires i < |entries| && Led(entries[..i], succ, keys)
    ensures Needed(entries[..i + 1], succ, keys, entries[i])
  {
    hide Closed;
    forall s {:trigger Closed(succ, s)} | HoldsEntries(entries[..i + 1], s) && Closed(succ, s)
      ensures keys <= s && (entries[i].Some? ==> entries[i].value in s)
    {
      assert entries[..i + 1][i] == entries[i];
      forall j {:trigger entries[..i][j]} | 0 <= j < i && entries[..i][j].Some? ensures entries[..i][j].value in s {
        assert entries[..i + 1][j] == entries[..i][j];
      }
    }
  }

  lemma NeededLed<N(!new)>(entries: seq<Option<N>>, succ: map<N, Option<N>>, keys: set<N>)
    requires Needed(entries, succ, keys, None) && HoldsEntries(entries, keys) && Closed(succ, keys)
    ensures Led(entries, succ, keys)
  {
    hide HoldsEntries, Closed;
  }

  lemma UsesNext<N(!new)>(entries: seq<Option<N>>, succ: map<N, Option<N>>, start: int, before: map<N, int>,
      out: map<N, int>, i: nat)
    requires i < |entries| && Led(entries[..i], succ, before.Keys) && Extends(before, out, start)
    requires Consecutive(before, start)
    requires entries[i].Some? ==>
      var e := entries[i].value; e in out && (e in before || out[e] == start + |before|)
    requires forall k: nat :: k < i ==> FirstUse(entries, succ, before, k)
    ensures forall k: nat :: k < i + 1 ==> FirstUse(entries, succ, out, k)
  {
    hide Led, Closed, HoldsEntries;
    forall k: nat | k < i + 1 && entries[k].Some? ensures FirstUse(entries, succ, out, k) {
      var e := entries[k].value;
      if k < i {
        assert FirstUse(entries, succ, before, k);
        EarlierKept(before, out, start, e);
      } else {
        EntryUse(entries, succ, start, before, out, i);
      }
    }
  }

  lemma EarlierKept<N(!new)>(before: map<N, int>, out: map<N, int>, start: int, n: N)
    requires Extends(before, out, start) && Consecutive(before, start) && n in before
    ensures n in out && Earlier(out, n) == Earlier(before, n)
  {
    assert n in out.Keys && out[n] == before[n];
  }

  lemma EntryUse<N(!new)>(entries: seq<Option<N>>, succ: map<N, Option<N>>, start: int, before: map<N, int>,
      out: map<N, int>, i: nat)
    requires i < |entries| && entries[i].Some? && Led(entries[..i], succ, before.Keys) && Extends(before, out, start)
    requires Consecutive(before, start)
    requires var e := entries[i].value; e in out && (e in before || out[e] == start + |before|)
    ensures FirstUse(entries, succ, out, i)
  {
    hide Closed, HoldsEntries;
    var e := entries[i].value;
    forall led {:trigger Led(entries[..i], succ, led)} | Led(entries[..i], succ, led)
      ensures e in led || Earlier(out, e) == led
    {
      LedUnique(entries[..i], succ, led, before.Keys);
      if e !in before {
        AllEarlier(before, out, start, e);
      }
    }
  }

  lemma LedUnique<N(!new)>(entries: seq<Option<N>>, succ: map<N, Option<N>>, s: set<N>, t: set<N>)
    requires Led(entries, succ, s) && Led(entries, succ, t)
    ensures s == t
  {
    hide Closed, HoldsEntries;
    assert s <= t && t <= s;
  }

  lemma AllEarlier<N(!new)>(before: map<N, int>, out: map<N, int>, start: int, n: N)
    requires Extends(before, out, start) && Consecutive(before, start) && n in out && out[n] == start + |before|
    ensures Earlier(out, n) == before.Keys
  {
    forall m ensures m in Earlier(out, n) <==> m in before {
      if m in before {
        assert before[m] < start + |before| && m in out.Keys && out[m] == before[m];
      }
    }
  }

  /** Chained but for the node numbered last, whose successor is still to come. */
  ghost predicate ChainedTo<N(!new)>(succ: map<N, Option<N>>, out: map<N, int>, start: int, node: Option<N>) {
    forall n {:trigger out[n]} :: n in out && Get(succ, n).Some? ==>
      || (Get(succ, n).value in out && out[Get(succ, n).value] <= out[n] + 1)
      || (Get(succ, n) == node && out[n] == start + |out| - 1)
  }

  lemma Nothing<N(!new)>(entries: seq<Option<N>>, succ: map<N, Option<N>>, start: int)
    ensures Consecutive<N>(map[], start) && Chained(succ, map[]) && Led(entries[..0], succ, {})
  {
  }

  lemma HoldsNext<N(!new)>(entries: seq<Option<N>>, succ: map<N, Option<N>>, start: int, was: map<N, int>,
      out: map<N, int>, i: nat)
    requires i < |entries| && Led(entries[..i], succ, was.Keys) && Extends(was, out, start)
    requires entries[i].Some? ==> entries[i].value in out
    ensures HoldsEntries(entries[..i + 1], out.Keys)
  {
    var more := entries[..i + 1];
    forall j {:trigger more[j]} | 0 <= j < |more| && more[j].Some? ensures more[j].value in out.Keys {
      if j < i {
        assert entries[..i][j] == more[j];
      }
    }
  }

  lemma ChainedCloses<N(!new)>(succ: map<N, Option<N>>, out: map<N, int>)
    requires Chained(succ, out)
    ensures Closed(succ, out.Keys)
  {
    forall n {:trigger Get(succ, n)} | n in out.Keys && Get(succ, n).Some? ensures Get(succ, n).value in out.Keys {
      assert out[n] == out[n];
    }
  }

  lemma EntryKnown<N(!new)>(entries: seq<Option<N>>, succ: map<N, Option<N>>, i: nat)
    requires i < |entries|
    ensures entries[i].Some? ==> entries[i].value in Known(entries, succ)
  {
  }

  lemma NextKnown<N(!new)>(entries: seq<Option<N>>, succ: map<N, Option<N>>, n: N)
    ensures Get(succ, n).Some? ==> Get(succ, n).value in Known(entries, succ)
  {
  }

  lemma ConsecutiveNext<N(!new)>(out: map<N, int>, start: int, n: N)
    requires Consecutive(out, start) && n !in out
    ensures Consecutive(out[n := start + |out|], start)
  {
    var more := out[n := start + |out|];
    assert more.Keys == out.Keys + {n};
    assert |more| == |out| + 1;
  }

  lemma ChainedStart<N(!new)>(succ: map<N, Option<N>>, out: map<N, int>, start: int, node: Option<N>)
    requires Chained(succ, out)
    ensures ChainedTo(succ, out, start, node)
  {
  }

  lemma ChainedNext<N(!new)>(succ: map<N, Option<N>>, out: map<N, int>, start: int, n: N)
    requires ChainedTo(succ, out, start, Some(n)) && n !in out
    ensures ChainedTo(succ, out[n := start + |out|], start, Get(succ, n))
  {
    var more := out[n := start + |out|];
    assert more.Keys == out.Keys + {n};
    assert |more| == |out| + 1;
  }

  lemma ChainedEnd<N(!new)>(succ: map<N, Option<N>>, out: map<N, int>, start: int, node: Option<N>)
    requires Consecutive(out, start) && ChainedTo(succ, out, start, node) && (node.Some? ==> node.value in out)
    ensures Chained(succ, out)
  {
    forall n {:trigger out[n]} | n in out && Get(succ, n).Some?
      ensures Get(succ, n).value in out && out[Get(succ, n).value] <= out[n] + 1
    {
      if Get(succ, n) == node {
        assert out[node.value] < start + |out|;
      }
    }
  }

  lemma NeededNext<N(!new)>(entries: seq<Option<N>>, succ: map<N, Option<N>>, keys: set<N>, n: N)
    requires Needed(entries, succ, keys, Some(n))
    ensures Needed(entries, succ, keys + {n}, Get(succ, n))
  {
  }

  lemma NeededEnd<N(!new)>(entries: seq<Option<N>>, succ: map<N, Option<N>>, keys: set<N>, node: Option<N>)
    requires Needed(entries, succ, keys, node)
    ensures Needed(entries, succ, keys, None)
  {
  }
}
