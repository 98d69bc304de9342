/** `faultloc.py`: the greedy minimum-weight cover of the candidate sets, and the credit each key of a
    cover takes for them.
 */
module Faultloc {
  import opened Options
  import Sets

  // ----- columns, gains and costs

  /** The rows a key hits. */
  function Column(rows: seq<set<nat>>, k: nat): (c: set<nat>)
    ensures forall i {:trigger i in c} :: i in c <==> 0 <= i < |rows| && k in rows[i]
  {
    set i | 0 <= i < |rows| && k in rows[i]
  }

  /** How many of some rows a key hits. */
  function Gain(rows: seq<set<nat>>, some: set<nat>, k: nat): nat {
    |Column(rows, k) * some|
  }

  predicate Positive(cost: seq<real>) {
    forall k {:trigger cost[k]} :: 0 <= k < |cost| ==> cost[k] > 0.0
  }

  /** The cost of the keys below `n`. */
  function Cost(cost: seq<real>, keys: set<nat>, n: nat): real
    requires n <= |cost|
  {
    if n == 0 then 0.0 else Cost(cost, keys, n - 1) + if n - 1 in keys then cost[n - 1] else 0.0
  }

  /** How often the keys below `n` hit some rows. */
  function Hits(rows: seq<set<nat>>, some: set<nat>, keys: set<nat>, n: nat): nat {
    if n == 0 then 0 else Hits(rows, some, keys, n - 1) + if n - 1 in keys then Gain(rows, some, n - 1) else 0
  }

  /** The harmonic number. */
  function Harmonic(n: nat): (h: real)
    ensures h >= 0.0
  {
    if n == 0 then 0.0 else Harmonic(n - 1) + 1.0 / (n as real)
  }

  /** What the keys of a cover have to pay for the open rows: each its cost by the harmonic number of
      the open rows it hits. */
  function Due(rows: seq<set<nat>>, uncovered: set<nat>, cost: seq<real>, keys: set<nat>, n: nat): real
    requires n <= |cost|
  {
    if n == 0 then 0.0
    else if n - 1 in keys then
      Due(rows, uncovered, cost, keys, n - 1) + cost[n - 1] * Harmonic(Gain(rows, uncovered, n - 1))
    else Due(rows, uncovered, cost, keys, n - 1)
  }

  lemma {:induction false} HarmonicGrows(a: nat, b: nat)
    requires a <= b
    ensures Harmonic(a) <= Harmonic(b)
  {
    if a < b {
      HarmonicGrows(a, b - 1);
    }
  }

  /** Taking `d` of `r` away costs the harmonic number at least `d / r`. */
  lemma {:induction false} HarmonicDrop(r: nat, d: nat)
    requires 0 < r && d <= r
    ensures (d as real) / (r as real) <= Harmonic(r) - Harmonic(r - d)
  {
    if d > 0 {
      HarmonicDrop(r, d - 1);
      var left := r - d + 1;
      assert Harmonic(left) == Harmonic(left - 1) + 1.0 / (left as real);
      Reciprocal(left as real, r as real);
      Fraction(d as real, r as real);
    }
  }

  lemma Reciprocal(a: real, b: real)
    requires 0.0 < a <= b
    ensures 1.0 / b <= 1.0 / a
  {
  }

  lemma Fraction(d: real, r: real)
    requires r > 0.0
    ensures d / r == (d - 1.0) / r + 1.0 / r
  {
  }

  // ----- covers

  /** Every one of some rows is hit by a key below `n`. */
  ghost predicate Covers(rows: seq<set<nat>>, some: set<nat>, keys: set<nat>, n: nat) {
    forall i {:trigger i in some} :: i in some ==> exists k: nat :: k < n && k in keys && i in Column(rows, k)
  }

  /** Counting the rows once for each cover key hitting them counts each at least once. */
  lemma {:induction false} CoverCounts(rows: seq<set<nat>>, some: set<nat>, keys: set<nat>, n: nat)
    requires Covers(rows, some, keys, n)
    ensures |some| <= Hits(rows, some, keys, n)
  {
    hide Column, Covers, Gain;
    if n == 0 {
      CoversNone(rows, some, keys);
    } else {
      var k := n - 1;
      var rest := if k in keys then some - Column(rows, k) else some;
      CoversRest(rows, some, rest, keys, k);
      CoverCounts(rows, rest, keys, k);
      FewerHits(rows, rest, some, keys, k);
      GainSplits(rows, some, k);
    }
  }

  lemma CoversNone(rows: seq<set<nat>>, some: set<nat>, keys: set<nat>)
    requires Covers(rows, some, keys, 0)
    ensures some == {}
  {
    forall i {:trigger i in some} ensures i !in some {
    }
  }

  lemma CoversRest(rows: seq<set<nat>>, some: set<nat>, rest: set<nat>, keys: set<nat>, k: nat)
    requires Covers(rows, some, keys, k + 1)
    requires rest == if k in keys then some - Column(rows, k) else some
    ensures Covers(rows, rest, keys, k)
  {
    forall i {:trigger i in rest} | i in rest ensures exists j: nat :: j < k && j in keys && i in Column(rows, j) {
      assert i in some;
      var j: nat :| j < k + 1 && j in keys && i in Column(rows, j);
    }
  }

  lemma CoversPart(rows: seq<set<nat>>, all: set<nat>, some: set<nat>, keys: set<nat>, n: nat)
    requires some <= all && Covers(rows, all, keys, n)
    ensures Covers(rows, some, keys, n)
  {
    forall i {:trigger i in some} | i in some ensures i in all {
    }
  }

  lemma {:induction false} FewerHits(rows: seq<set<nat>>, some: set<nat>, all: set<nat>, keys: set<nat>, n: nat)
    requires some <= all
    ensures Hits(rows, some, keys, n) <= Hits(rows, all, keys, n)
  {
    if n > 0 {
      FewerHits(rows, some, all, keys, n - 1);
      Sets.SubsetSize(Column(rows, n - 1) * some, Column(rows, n - 1) * all);
    }
  }

  lemma GainIs(rows: seq<set<nat>>, some: set<nat>, k: nat)
    ensures Gain(rows, some, k) == |Column(rows, k) * some|
  {
  }

  lemma GainSplits(rows: seq<set<nat>>, some: set<nat>, k: nat)
    ensures |some| == |some - Column(rows, k)| + Gain(rows, some, k)
  {
    var column := Column(rows, k);
    assert some == (some - column) + (column * some);
  }

  // ----- the greedy step

  /** No key hits more open rows for its cost. */
  ghost predicate BestRatio(rows: seq<set<nat>>, uncovered: set<nat>, cost: seq<real>, k: nat)
    requires k < |cost| && Positive(cost)
  {
    forall q: nat {:trigger Gain(rows, uncovered, q)} :: q < |cost| ==>
      (Gain(rows, uncovered, q) as real) / cost[q] <= (Gain(rows, uncovered, k) as real) / cost[k]
  }

  /** The best key's cost for each open row it hits. */
  function Price(rows: seq<set<nat>>, uncovered: set<nat>, cost: seq<real>, k: nat): real
    requires k < |cost| && Gain(rows, uncovered, k) > 0
  {
    cost[k] / (Gain(rows, uncovered, k) as real)
  }

  /** What the cover keys below `n` save when the best key's rows go, at the best key's price. */
  lemma {:induction false} KeysSave(rows: seq<set<nat>>, uncovered: set<nat>, cost: seq<real>, k: nat,
      keys: set<nat>, n: nat)
    requires k < |cost| && n <= |cost| && Positive(cost)
    requires BestRatio(rows, uncovered, cost, k) && Gain(rows, uncovered, k) > 0
    ensures Price(rows, uncovered, cost, k) * (Hits(rows, Column(rows, k) * uncovered, keys, n) as real)
      <= Due(rows, uncovered, cost, keys, n) - Due(rows, uncovered - Column(rows, k), cost, keys, n)
  {
    hide Column, Gain, BestRatio, Price, Harmonic;
    if n > 0 {
      KeysSave(rows, uncovered, cost, k, keys, n - 1);
      KeySaves(rows, uncovered, cost, k, n - 1);
      Distribute(Price(rows, uncovered, cost, k), Hits(rows, Column(rows, k) * uncovered, keys, n - 1) as real,
                 Gain(rows, Column(rows, k) * uncovered, n - 1) as real);
    }
  }

  lemma Distribute(p: real, x: real, y: real)
    ensures p * (x + y) == p * x + p * y
  {
  }

  lemma KeySaves(rows: seq<set<nat>>, uncovered: set<nat>, cost: seq<real>, k: nat, q: nat)
    requires k < |cost| && q < |cost| && Positive(cost)
    requires BestRatio(rows, uncovered, cost, k) && Gain(rows, uncovered, k) > 0
    ensures Price(rows, uncovered, cost, k) * (Gain(rows, Column(rows, k) * uncovered, q) as real)
      <= cost[q] * Harmonic(Gain(rows, uncovered, q)) - cost[q] * Harmonic(Gain(rows, uncovered - Column(rows, k), q))
  {
    hide Column, Gain, BestRatio, Harmonic, Price, Positive;
    var r, d := Gain(rows, uncovered, q), Gain(rows, Column(rows, k) * uncovered, q);
    GainParts(rows, uncovered, Column(rows, k), q);
    RatioAt(rows, uncovered, cost, k, q);
    var before, after := Harmonic(r), Harmonic(r - d);
    if d > 0 {
      HarmonicDrop(r, d);
      Cheaper(cost[k], Gain(rows, uncovered, k) as real, cost[q], r as real, d as real, before - after);
      PriceIs(rows, uncovered, cost, k);
    }
    Spread(Price(rows, uncovered, cost, k), d as real, cost[q], before, after);
  }

  lemma RatioAt(rows: seq<set<nat>>, uncovered: set<nat>, cost: seq<real>, k: nat, q: nat)
    requires k < |cost| && q < |cost| && Positive(cost) && BestRatio(rows, uncovered, cost, k)
    ensures cost[k] > 0.0 && cost[q] > 0.0
    ensures (Gain(rows, uncovered, q) as real) / cost[q] <= (Gain(rows, uncovered, k) as real) / cost[k]
  {
    hide Gain;
  }

  lemma PriceIs(rows: seq<set<nat>>, uncovered: set<nat>, cost: seq<real>, k: nat)
    requires k < |cost| && Gain(rows, uncovered, k) > 0
    ensures Price(rows, uncovered, cost, k) == cost[k] / (Gain(rows, uncovered, k) as real)
  {
  }

  lemma GainParts(rows: seq<set<nat>>, uncovered: set<nat>, c: set<nat>, q: nat)
    ensures Gain(rows, uncovered, q) == Gain(rows, c * uncovered, q) + Gain(rows, uncovered - c, q)
  {
    var column := Column(rows, q);
    assert column * uncovered == (column * (c * uncovered)) + (column * (uncovered - c));
  }

  lemma Spread(price: real, d: real, cost: real, before: real, after: real)
    requires if d == 0.0 then before == after else price * d <= cost * (before - after)
    ensures price * d <= cost * before - cost * after
  {
  }

  lemma Cheaper(ck: real, gk: real, cq: real, r: real, d: real, drop: real)
    requires ck > 0.0 && gk > 0.0 && cq > 0.0 && r > 0.0 && d > 0.0 && r / cq <= gk / ck && d / r <= drop
    ensures ck / gk * d <= cq * drop
  {
    assert ck / gk <= cq / r by { CrossOver(r, cq, gk, ck); }
    assert ck / gk * d <= cq / r * d;
    assert cq / r * d == cq * (d / r);
    assert cq * (d / r) <= cq * drop;
  }

  lemma CrossOver(r: real, cq: real, gk: real, ck: real)
    requires ck > 0.0 && gk > 0.0 && cq > 0.0 && r > 0.0 && r / cq <= gk / ck
    ensures ck / gk <= cq / r
  {
    assert r / cq * (ck * cq) == r * ck;
    assert gk / ck * (ck * cq) == gk * cq;
    assert r * ck <= gk * cq;
    assert ck / gk * (gk * r) == ck * r;
    assert cq / r * (gk * r) == cq * gk;
    Cancel(ck / gk, cq / r, gk * r);
  }

  lemma Cancel(x: real, y: real, z: real)
    requires z > 0.0 && x * z <= y * z
    ensures x <= y
  {
  }

  lemma PriceCovers(cost: real, size: real, total: real)
    requires cost > 0.0 && size > 0.0 && size <= total
    ensures cost <= cost / size * total
  {
    assert cost / size * size == cost;
    assert cost / size > 0.0;
  }

  /** Taking the best key costs no more than what any cover then has less to pay. */
  lemma GreedyStep(rows: seq<set<nat>>, uncovered: set<nat>, cost: seq<real>, k: nat, keys: set<nat>)
    requires k < |cost| && Positive(cost) && BestRatio(rows, uncovered, cost, k) && Gain(rows, uncovered, k) > 0
    requires Covers(rows, uncovered, keys, |cost|)
    ensures cost[k] <=
      Due(rows, uncovered, cost, keys, |cost|) - Due(rows, uncovered - Column(rows, k), cost, keys, |cost|)
  {
    hide Column, Gain, Covers, BestRatio, Due, Hits, Price, Positive;
    var taken := Column(rows, k) * uncovered;
    GainIs(rows, uncovered, k);
    CoversPart(rows, uncovered, taken, keys, |cost|);
    PriceIs(rows, uncovered, cost, k);
    RatioAt(rows, uncovered, cost, k, k);
    CoverCounts(rows, taken, keys, |cost|);
    PriceCovers(cost[k], |taken| as real, Hits(rows, taken, keys, |cost|) as real);
    KeysSave(rows, uncovered, cost, k, keys, |cost|);
  }

  // ----- the greedy cover

  /** The order of the candidates of one greedy step: by the rows gained per cost, greatest first, then
      by score, greatest first, then by place. */
  predicate Before(rows: seq<set<nat>>, uncovered: set<nat>, cost: seq<real>, score: seq<real>, k: nat, q: nat)
    requires k < |cost| == |score| && q < |cost| && Positive(cost)
  {
    var x, y := (Gain(rows, uncovered, k) as real) / cost[k], (Gain(rows, uncovered, q) as real) / cost[q];
    x > y || (x == y && (score[k] > score[q] || (score[k] == score[q] && k < q)))
  }

  lemma BeforeTotal(rows: seq<set<nat>>, uncovered: set<nat>, cost: seq<real>, score: seq<real>, n: nat, k: nat)
    requires k < n < |cost| == |score| && Positive(cost)
    ensures Before(rows, uncovered, cost, score, n, k) || Before(rows, uncovered, cost, score, k, n)
    ensures Before(rows, uncovered, cost, score, n, k) ==>
      forall q: nat {:trigger Before(rows, uncovered, cost, score, n, q)} ::
      q < |cost| && Before(rows, uncovered, cost, score, k, q) ==> Before(rows, uncovered, cost, score, n, q)
  {
    hide Gain;
  }

  method BestKey(rows: seq<set<nat>>, uncovered: set<nat>, cost: seq<real>, score: seq<real>) returns (k: nat)
    requires 0 < |cost| == |score| && Positive(cost)
    ensures k < |cost| && BestRatio(rows, uncovered, cost, k)
    ensures forall q: nat {:trigger Gain(rows, uncovered, q)} :: q < |cost| && q != k ==>
      var x, y := (Gain(rows, uncovered, k) as real) / cost[k], (Gain(rows, uncovered, q) as real) / cost[q];
      x > y || (x == y && (score[k] > score[q] || (score[k] == score[q] && k < q)))
  {
    hide Gain;
    k := 0;
    var n := 1;
    while n < |cost|
      invariant k < n <= |cost|
      invariant forall q: nat {:trigger Before(rows, uncovered, cost, score, k, q)} :: q < n && q != k ==>
        Before(rows, uncovered, cost, score, k, q)
    {
      BeforeTotal(rows, uncovered, cost, score, n, k);
      if Before(rows, uncovered, cost, score, n, k) {
        k := n;
      }
      n := n + 1;
    }
    forall q: nat {:trigger Gain(rows, uncovered, q)} | q < |cost| && q != k
      ensures Before(rows, uncovered, cost, score, k, q)
    {
    }
    forall q: nat {:trigger Gain(rows, uncovered, q)} | q < |cost|
      ensures (Gain(rows, uncovered, q) as real) / cost[q] <= (Gain(rows, uncovered, k) as real) / cost[k]
    {
      assert q == k || Before(rows, uncovered, cost, score, k, q);
    }
  }

  function All(rows: seq<set<nat>>): (all: set<nat>)
    ensures forall i {:trigger i in all} :: i in all <==> 0 <= i < |rows|
  {
    set i | 0 <= i < |rows| && IsRow(rows, i)
  }

  predicate IsRow(rows: seq<set<nat>>, i: int) {
    0 <= i < |rows|
  }

  function Elements<T>(s: seq<T>): set<T> {
    set x | x in s
  }

  /** No chosen key hits an open row. */
  ghost predicate Done(rows: seq<set<nat>>, uncovered: set<nat>, chosen: set<nat>) {
    forall k: nat {:trigger k in chosen} :: k in chosen ==> Gain(rows, uncovered, k) == 0
  }

  /** With `d` the most rows a key hits, no cover costs less than the harmonic number of `d` allows. */
  ghost predicate Bounded(rows: seq<set<nat>>, cost: seq<real>, chosen: set<nat>) {
    forall keys, d: nat {:trigger Covers(rows, All(rows), keys, |cost|), Harmonic(d)} ::
      Covers(rows, All(rows), keys, |cost|) && (forall k: nat :: k < |cost| ==> Gain(rows, All(rows), k) <= d)
      ==> Cost(cost, chosen, |cost|) <= Harmonic(d) * Cost(cost, keys, |cost|)
  }

  /** No row is empty. */
  ghost predicate Hittable(rows: seq<set<nat>>, n: nat) {
    forall i {:trigger rows[i]} :: 0 <= i < |rows| ==> HasKey(rows[i], n)
  }

  ghost predicate HasKey(row: set<nat>, n: nat) {
    exists k: nat :: k in row && k < n
  }

  /** The greedy cover ends, takes no key twice, hits every row, and costs at most the harmonic number of
      the largest column times any cover. */
  method GreedyCover(rows: seq<set<nat>>, cost: seq<real>, score: seq<real>) returns (chosen: seq<nat>)
    requires |cost| == |score| && Positive(cost)
    requires Hittable(rows, |cost|)
    ensures forall i, j :: 0 <= i < j < |chosen| ==> chosen[i] != chosen[j]
    ensures Below(chosen, |cost|)
    ensures Covers(rows, All(rows), Elements(chosen), |cost|)
    ensures Bounded(rows, cost, Elements(chosen))
  {
    hide Gain, Column, Covers, Due, Harmonic, Cost, BestRatio, Done, Before;
    chosen := [];
    var uncovered := All(rows);
    Start(rows, cost);
    while uncovered != {}
      invariant uncovered <= All(rows) && Done(rows, uncovered, Elements(chosen))
      invariant forall i, j :: 0 <= i < j < |chosen| ==> chosen[i] != chosen[j]
      invariant Below(chosen, |cost|)
      invariant Covers(rows, All(rows) - uncovered, Elements(chosen), |cost|)
      invariant forall keys {:trigger Covers(rows, All(rows), keys, |cost|)} ::
        Covers(rows, All(rows), keys, |cost|) ==>
        Cost(cost, Elements(chosen), |cost|) + Due(rows, uncovered, cost, keys, |cost|)
        <= Due(rows, All(rows), cost, keys, |cost|)
      decreases |uncovered|
    {
      ghost var i := Sets.Member(uncovered);
      assert i in All(rows) && HasKey(rows[i], |cost|);
      var k := BestKey(rows, uncovered, cost, score);
      SomeGain(rows, uncovered, cost, k, i);
      NotYet(rows, uncovered, chosen, k);
      ghost var was, before := chosen, uncovered;
      chosen := chosen + [k];
      uncovered := uncovered - Column(rows, k);
      Taken(rows, before, Elements(was), k, |cost|);
      assert Elements(chosen) == Elements(was) + {k};
      forall keys {:trigger Covers(rows, All(rows), keys, |cost|)} | Covers(rows, All(rows), keys, |cost|)
        ensures Cost(cost, Elements(chosen), |cost|) + Due(rows, uncovered, cost, keys, |cost|)
             <= Due(rows, All(rows), cost, keys, |cost|)
      {
        CoversPart(rows, All(rows), before, keys, |cost|);
        GreedyStep(rows, before, cost, k, keys);
        CostWith(cost, Elements(was), k, |cost|);
      }
    }
    assert All(rows) - uncovered == All(rows);
    forall keys, d: nat {:trigger Covers(rows, All(rows), keys, |cost|), Harmonic(d)}
      | Covers(rows, All(rows), keys, |cost|) && (forall k: nat :: k < |cost| ==> Gain(rows, All(rows), k) <= d)
      ensures Cost(cost, Elements(chosen), |cost|) <= Harmonic(d) * Cost(cost, keys, |cost|)
    {
      DueBounds(rows, uncovered, cost, keys, |cost|);
      DueAtMost(rows, All(rows), cost, keys, |cost|, d);
      assert Times(Harmonic(d), Cost(cost, keys, |cost|)) == Harmonic(d) * Cost(cost, keys, |cost|);
    }
  }

  lemma Start(rows: seq<set<nat>>, cost: seq<real>)
    ensures Done(rows, All(rows), {}) && Covers(rows, All(rows) - All(rows), {}, |cost|)
    ensures Cost(cost, {}, |cost|) == 0.0 && Elements<nat>([]) == {}
  {
    NoCost(cost, |cost|);
  }

  lemma {:induction false} NoCost(cost: seq<real>, n: nat)
    requires n <= |cost|
    ensures Cost(cost, {}, n) == 0.0
  {
    if n > 0 {
      NoCost(cost, n - 1);
    }
  }

  /** An open row's key hits it, so the best key hits an open row too. */
  lemma SomeGain(rows: seq<set<nat>>, uncovered: set<nat>, cost: seq<real>, k: nat, i: nat)
    requires k < |cost| && Positive(cost) && BestRatio(rows, uncovered, cost, k) && i in uncovered && i < |rows|
    requires HasKey(rows[i], |cost|)
    ensures Gain(rows, uncovered, k) > 0
  {
    var q: nat :| q in rows[i] && q < |cost|;
    assert i in Column(rows, q) * uncovered;
    assert Gain(rows, uncovered, q) > 0;
    RatioAt(rows, uncovered, cost, k, q);
    hide Gain, BestRatio;
    PositiveRatio(Gain(rows, uncovered, q) as real, cost[q], Gain(rows, uncovered, k) as real, cost[k]);
  }

  lemma PositiveRatio(a: real, b: real, c: real, d: real)
    requires a > 0.0 && b > 0.0 && d > 0.0 && a / b <= c / d
    ensures c > 0.0
  {
    assert a / b > 0.0;
    assert c / d * d == c;
  }

  lemma NotYet(rows: seq<set<nat>>, uncovered: set<nat>, chosen: seq<nat>, k: nat)
    requires Done(rows, uncovered, Elements(chosen)) && Gain(rows, uncovered, k) > 0
    ensures k !in chosen
  {
    hide Gain;
    assert k in Elements(chosen) <==> k in chosen;
  }

  lemma Taken(rows: seq<set<nat>>, uncovered: set<nat>, chosen: set<nat>, k: nat, n: nat)
    requires uncovered <= All(rows) && k < n && Gain(rows, uncovered, k) > 0
    requires Done(rows, uncovered, chosen) && Covers(rows, All(rows) - uncovered, chosen, n)
    ensures Done(rows, uncovered - Column(rows, k), chosen + {k})
    ensures Covers(rows, All(rows) - (uncovered - Column(rows, k)), chosen + {k}, n)
    ensures |uncovered - Column(rows, k)| < |uncovered|
  {
    var left := uncovered - Column(rows, k);
    forall q: nat {:trigger q in chosen + {k}} | q in chosen + {k} ensures Gain(rows, left, q) == 0 {
      if q == k {
        assert Column(rows, k) * left == {};
      } else {
        Sets.SubsetSize(Column(rows, q) * left, Column(rows, q) * uncovered);
      }
    }
    forall i {:trigger i in All(rows) - left} | i in All(rows) - left
      ensures exists q: nat :: q < n && q in chosen + {k} && i in Column(rows, q)
    {
      if i in Column(rows, k) {
        assert k in chosen + {k};
      } else {
        assert i in All(rows) - uncovered;
        var q: nat :| q < n && q in chosen && i in Column(rows, q);
        assert q in chosen + {k};
      }
    }
    GainSplits(rows, uncovered, k);
  }

  lemma {:induction false} CostWith(cost: seq<real>, keys: set<nat>, k: nat, n: nat)
    requires k !in keys && n <= |cost| && k < |cost|
    ensures Cost(cost, keys + {k}, n) == Cost(cost, keys, n) + if k < n then cost[k] else 0.0
  {
    if n > 0 {
      CostWith(cost, keys, k, n - 1);
    }
  }

  lemma {:induction false} DueBounds(rows: seq<set<nat>>, uncovered: set<nat>, cost: seq<real>, keys: set<nat>, n: nat)
    requires n <= |cost| && Positive(cost)
    ensures Due(rows, uncovered, cost, keys, n) >= 0.0
  {
    if n > 0 {
      DueBounds(rows, uncovered, cost, keys, n - 1);
      var h := Harmonic(Gain(rows, uncovered, n - 1));
      hide Harmonic, Gain;
      assert cost[n - 1] * h >= 0.0;
    }
  }

  function Times(x: real, y: real): real {
    x * y
  }

  lemma {:induction false} DueAtMost(rows: seq<set<nat>>, uncovered: set<nat>, cost: seq<real>,
      keys: set<nat>, n: nat, d: nat)
    requires n <= |cost| && Positive(cost) && forall k: nat :: k < |cost| ==> Gain(rows, uncovered, k) <= d
    ensures Due(rows, uncovered, cost, keys, n) <= Times(Harmonic(d), Cost(cost, keys, n))
  {
    hide Harmonic, Gain, Times;
    if n == 0 {
      TimesZero(Harmonic(d));
    } else {
      DueAtMost(rows, uncovered, cost, keys, n - 1, d);
      assert Gain(rows, uncovered, n - 1) <= d;
      HarmonicGrows(Gain(rows, uncovered, n - 1), d);
      TimesAdd(Harmonic(d), Cost(cost, keys, n - 1), cost[n - 1], Harmonic(Gain(rows, uncovered, n - 1)));
    }
  }

  lemma TimesZero(h: real)
    ensures Times(h, 0.0) == 0.0
  {
  }

  lemma TimesAdd(h: real, total: real, c: real, x: real)
    requires c > 0.0 && x <= h
    ensures Times(h, total) + c * x <= Times(h, total + c)
    ensures Times(h, total + 0.0) == Times(h, total)
  {
    assert c * x <= h * c;
    assert h * (total + c) == h * total + h * c;
  }

  // ----- from candidate sets to a cover and back

  /** `_incidence`: the non-empty candidate sets by their keys' columns. */
  function Incidence<K>(cands: seq<set<K>>, keys: seq<K>): (rows: seq<set<nat>>) {
    if cands == [] then []
    else
      var s := cands[|cands| - 1];
      Incidence(cands[..|cands| - 1], keys) + if s == {} then [] else [Columns(keys, s)]
  }

  function Columns<K>(keys: seq<K>, s: set<K>): (c: set<nat>)
    ensures forall k: nat :: k in c <==> k < |keys| && keys[k] in s
  {
    set k: nat | k < |keys| && keys[k] in s
  }

  lemma {:induction false} IncidenceIs<K>(cands: seq<set<K>>, keys: seq<K>)
    ensures forall i {:trigger cands[i]} :: 0 <= i < |cands| && cands[i] != {} ==>
      Columns(keys, cands[i]) in Incidence(cands, keys)
    ensures forall row :: row in Incidence(cands, keys) ==>
      exists i :: 0 <= i < |cands| && cands[i] != {} && row == Columns(keys, cands[i])
  {
    if cands != [] {
      IncidenceIs(cands[..|cands| - 1], keys);
      var rest := cands[..|cands| - 1];
      forall row | row in Incidence(rest, keys)
        ensures exists i :: 0 <= i < |cands| && cands[i] != {} && row == Columns(keys, cands[i])
      {
        var i :| 0 <= i < |rest| && rest[i] != {} && row == Columns(keys, rest[i]);
        assert cands[i] == rest[i];
      }
    }
  }

  /** The keys of the candidate sets, each once. */
  ghost predicate IsKeys<K(!new)>(cands: seq<set<K>>, keys: seq<K>) {
    && (forall i, j :: 0 <= i < j < |keys| ==> keys[i] != keys[j])
    && forall k {:trigger k in keys} :: k in keys <==> exists i :: 0 <= i < |cands| && k in cands[i]
  }

  ghost predicate HitsAll<K>(cands: seq<set<K>>, some: set<K>) {
    forall i {:trigger cands[i]} :: 0 <= i < |cands| && cands[i] != {} ==> cands[i] * some != {}
  }

  lemma CoverIsHitting<K(!new)>(cands: seq<set<K>>, keys: seq<K>, some: set<K>)
    requires IsKeys(cands, keys)
    ensures HitsAll(cands, some) <==>
      Covers(Incidence(cands, keys), All(Incidence(cands, keys)), Columns(keys, some), |keys|)
  {
    var rows := Incidence(cands, keys);
    IncidenceIs(cands, keys);
    if HitsAll(cands, some) {
      forall r {:trigger r in All(rows)} | r in All(rows)
        ensures exists k: nat :: k < |keys| && k in Columns(keys, some) && r in Column(rows, k)
      {
        assert rows[r] in rows;
        var i :| 0 <= i < |cands| && cands[i] != {} && rows[r] == Columns(keys, cands[i]);
        var x := Sets.Member(cands[i] * some);
        assert x in cands[i] && x in keys;
        var k: nat :| k < |keys| && keys[k] == x;
        assert k in Columns(keys, some) && k in rows[r] && r in Column(rows, k);
      }
    }
    if Covers(rows, All(rows), Columns(keys, some), |keys|) {
      forall i {:trigger cands[i]} | 0 <= i < |cands| && cands[i] != {} ensures cands[i] * some != {} {
        var r: nat :| r < |rows| && rows[r] == Columns(keys, cands[i]);
        assert r in All(rows);
        var k: nat :| k < |keys| && k in Columns(keys, some) && r in Column(rows, k);
        assert keys[k] in cands[i] * some;
      }
    }
  }

  /** A cover key comes before another by the sets it hits, then its score, then its place. */
  predicate Ahead(rows: seq<set<nat>>, score: seq<real>, k: nat, q: nat)
    requires k < |score| && q < |score|
  {
    var x, y := |Column(rows, k)|, |Column(rows, q)|;
    x > y || (x == y && (score[k] > score[q] || (score[k] == score[q] && k < q)))
  }

  predicate Below(s: seq<nat>, n: nat) {
    forall i {:trigger s[i]} :: 0 <= i < |s| ==> s[i] < n
  }

  ghost predicate InOrder(rows: seq<set<nat>>, score: seq<real>, order: seq<nat>)
    requires Below(order, |score|)
  {
    forall i, j :: 0 <= i < j < |order| ==> Ahead(rows, score, order[i], order[j])
  }

  function Insert(rows: seq<set<nat>>, score: seq<real>, k: nat, order: seq<nat>): (out: seq<nat>)
    requires k < |score| && Below(order, |score|)
    ensures Below(out, |score|) && |out| == |order| + 1
    ensures forall x :: x in out <==> x in order || x == k
  {
    if order == [] || Ahead(rows, score, k, order[0]) then [k] + order
    else
      var rest := Insert(rows, score, k, order[1..]);
      assert order == [order[0]] + order[1..];
      [order[0]] + rest
  }

  lemma {:induction false} InsertKeepsOrder(rows: seq<set<nat>>, score: seq<real>, k: nat, order: seq<nat>)
    requires k < |score| && Below(order, |score|) && InOrder(rows, score, order) && k !in order
    ensures InOrder(rows, score, Insert(rows, score, k, order))
  {
    hide Column;
    if order != [] && !Ahead(rows, score, k, order[0]) {
      InsertKeepsOrder(rows, score, k, order[1..]);
      var rest := Insert(rows, score, k, order[1..]);
      forall x | x in rest ensures x < |score| && Ahead(rows, score, order[0], x) {
        if x != k {
          var i :| 0 <= i < |order[1..]| && order[1..][i] == x;
          assert order[i + 1] == x;
        }
      }
    }
  }

  /** The candidate sets a key is in. */
  ghost function SetsWith<K>(cands: seq<set<K>>, x: K): set<int> {
    set i | 0 <= i < |cands| && x in cands[i]
  }

  /** A key's column has a row for every candidate set it is in. */
  lemma {:induction false} ColumnCounts<K>(cands: seq<set<K>>, keys: seq<K>, k: nat)
    requires k < |keys|
    ensures |Column(Incidence(cands, keys), k)| == |SetsWith(cands, keys[k])|
  {
    if cands == [] {
      assert SetsWith(cands, keys[k]) == {} && Column(Incidence(cands, keys), k) == {};
    } else {
      var n := |cands| - 1;
      ColumnCounts(cands[..n], keys, k);
      SetsWithNext(cands, keys[k]);
      hide SetsWith;
      ColumnNext(Incidence(cands[..n], keys), if cands[n] == {} then [] else [Columns(keys, cands[n])], k);
    }
  }

  lemma SetsWithNext<K>(cands: seq<set<K>>, x: K)
    requires cands != []
    ensures |SetsWith(cands, x)| == |SetsWith(cands[..|cands| - 1], x)| + if x in cands[|cands| - 1] then 1 else 0
  {
    var n := |cands| - 1;
    var before := SetsWith(cands[..n], x);
    if x in cands[n] {
      assert SetsWith(cands, x) == before + {n} && n !in before;
    } else {
      assert SetsWith(cands, x) == before;
    }
  }

  lemma ColumnNext(rows: seq<set<nat>>, more: seq<set<nat>>, k: nat)
    requires |more| <= 1
    ensures |Column(rows + more, k)| == |Column(rows, k)| + if more != [] && k in more[0] then 1 else 0
  {
    if more != [] && k in more[0] {
      assert Column(rows + more, k) == Column(rows, k) + {|rows|} && |rows| !in Column(rows, k);
    } else {
      assert Column(rows + more, k) == Column(rows, k);
    }
  }

  /** The cover's keys come by the sets they are in, most first, then by score, greatest first. */
  ghost predicate ByHits<K(!new)>(cands: seq<set<K>>, cover: seq<K>, order: seq<nat>, score: seq<real>)
    requires |order| == |cover| && Below(order, |score|)
  {
    forall i, j :: 0 <= i < j < |cover| ==>
      var x, y := |SetsWith(cands, cover[i])|, |SetsWith(cands, cover[j])|;
      || x > y || (x == y && score[order[i]] > score[order[j]])
      || (x == y && score[order[i]] == score[order[j]] && order[i] < order[j])
  }

  lemma OrderByHits<K(!new)>(cands: seq<set<K>>, keys: seq<K>, cover: seq<K>, order: seq<nat>, score: seq<real>)
    requires |order| == |cover| && Below(order, |keys|) && |score| == |keys|
    requires forall i {:trigger cover[i]} :: 0 <= i < |cover| ==> cover[i] == keys[order[i]]
    requires InOrder(Incidence(cands, keys), score, order)
    ensures ByHits(cands, cover, order, score)
  {
    hide Column, SetsWith, Incidence;
    forall i | 0 <= i < |cover|
      ensures |Column(Incidence(cands, keys), order[i])| == |SetsWith(cands, cover[i])|
    {
      ColumnCounts(cands, keys, order[i]);
    }
    forall i, j | 0 <= i < j < |cover| ensures Ahead(Incidence(cands, keys), score, order[i], order[j]) {
    }
  }

  /** The chosen keys in the order reported: by the rows covered, most first, then by score, greatest
      first, then by number. */
  method OrderPick(rows: seq<set<nat>>, score: seq<real>, chosen: seq<nat>) returns (out: seq<nat>)
    requires Below(chosen, |score|) && forall i, j :: 0 <= i < j < |chosen| ==> chosen[i] != chosen[j]
    ensures Below(out, |score|) && |out| == |chosen| && InOrder(rows, score, out)
    ensures forall x :: x in out <==> x in chosen
  {
    hide Column, InOrder, Insert;
    out := [];
    NoOrder(rows, score);
    var i := 0;
    while i < |chosen|
      invariant 0 <= i <= |chosen| && |out| == i && Below(out, |score|) && forall x :: x in out <==> x in chosen[..i]
      invariant InOrder(rows, score, out)
    {
      NotAmong(chosen, i, out);
      InsertKeepsOrder(rows, score, chosen[i], out);
      assert chosen[..i + 1] == chosen[..i] + [chosen[i]];
      out := Insert(rows, score, chosen[i], out);
      i := i + 1;
    }
    assert chosen[..i] == chosen;
  }

  /** The weight is at most the harmonic number of the most sets one key hits times that of any set of
      keys hitting every non-empty candidate set. */
  ghost predicate Cheap<K(!new)>(cands: seq<set<K>>, keys: seq<K>, cost: seq<real>, cover: set<K>)
    requires |cost| == |keys|
  {
    forall some: set<K>, d: nat {:trigger HitsAll(cands, some), Harmonic(d)} ::
      HitsAll(cands, some) && (forall k: nat :: k < |keys| ==> |Column(Incidence(cands, keys), k)| <= d)
      ==> Cost(cost, Columns(keys, cover), |keys|) <= Harmonic(d) * Cost(cost, Columns(keys, some), |keys|)
  }

  /** The greedy branch of `min_cover`: a set of the keys hitting every non-empty candidate set, of
      weight at most the harmonic number of the most sets one key hits times any other's. */
  method MinCover<K(!new, ==)>(cands: seq<set<K>>, keys: seq<K>, cost: seq<real>, score: seq<real>)
    returns (cover: seq<K>, ghost order: seq<nat>)
    requires IsKeys(cands, keys) && |cost| == |score| == |keys| && Positive(cost)
    ensures |order| == |cover| && Below(order, |keys|)
    ensures forall i {:trigger cover[i]} :: 0 <= i < |cover| ==> cover[i] == keys[order[i]]
    ensures forall i, j :: 0 <= i < j < |cover| ==> cover[i] != cover[j]
    ensures InOrder(Incidence(cands, keys), score, order) && ByHits(cands, cover, order, score)
    ensures HitsAll(cands, Elements(cover))
    ensures Cheap(cands, keys, cost, Elements(cover))
  {
    var rows := Incidence(cands, keys);
    RowsHit(cands, keys);
    var chosen := GreedyCover(rows, cost, score);
    hide Column, Columns, All, Elements, HitsAll, Covers, InOrder, Incidence, Bounded, Cheap, ByHits;
    var out := OrderPick(rows, score, chosen);
    SameElements(out, chosen);
    order := out;
    cover := seq(|out|, j requires 0 <= j < |out| => keys[out[j]]);
    Renamed(keys, out, cover);
    OrderDistinct(rows, score, out);
    KeysDistinct(cands, keys, out, cover);
    CoverIsHitting(cands, keys, Elements(cover));
    CheapKeys(cands, keys, cost, Elements(cover));
    OrderByHits(cands, keys, cover, order, score);
  }

  lemma CheapKeys<K(!new)>(cands: seq<set<K>>, keys: seq<K>, cost: seq<real>, cover: set<K>)
    requires |cost| == |keys| && IsKeys(cands, keys) && Bounded(Incidence(cands, keys), cost, Columns(keys, cover))
    ensures Cheap(cands, keys, cost, cover)
  {
    hide Columns, Harmonic, Cost, HitsAll, Covers, Incidence, IsKeys;
    var rows := Incidence(cands, keys);
    forall some: set<K>, d: nat {:trigger HitsAll(cands, some), Harmonic(d)}
      | HitsAll(cands, some) && (forall k: nat :: k < |keys| ==> |Column(rows, k)| <= d)
      ensures Cost(cost, Columns(keys, cover), |keys|) <= Harmonic(d) * Cost(cost, Columns(keys, some), |keys|)
    {
      CoverIsHitting(cands, keys, some);
      GainsAtMost(rows, |keys|, d);
    }
  }

  lemma SameElements(s: seq<nat>, t: seq<nat>)
    requires forall x :: x in s <==> x in t
    ensures Elements(s) == Elements(t)
  {
  }

  lemma NoOrder(rows: seq<set<nat>>, score: seq<real>)
    ensures InOrder(rows, score, [])
  {
  }

  lemma NotAmong(chosen: seq<nat>, i: nat, out: seq<nat>)
    requires i < |chosen| && forall a, b :: 0 <= a < b < |chosen| ==> chosen[a] != chosen[b]
    requires forall x :: x in out <==> x in chosen[..i]
    ensures chosen[i] !in out
  {
  }

  lemma RowsHit<K(!new)>(cands: seq<set<K>>, keys: seq<K>)
    requires IsKeys(cands, keys)
    ensures Hittable(Incidence(cands, keys), |keys|)
  {
    var rows := Incidence(cands, keys);
    IncidenceIs(cands, keys);
    forall r {:trigger rows[r]} | 0 <= r < |rows| ensures HasKey(rows[r], |keys|) {
      assert rows[r] in rows;
      var i :| 0 <= i < |cands| && cands[i] != {} && rows[r] == Columns(keys, cands[i]);
      var x := Sets.Member(cands[i]);
      assert x in cands[i] && x in keys;
      var k: nat :| k < |keys| && keys[k] == x;
      assert k in rows[r];
    }
  }

  lemma Renamed<K>(keys: seq<K>, order: seq<nat>, cover: seq<K>)
    requires Below(order, |keys|) && |cover| == |order|
    requires forall i, j :: 0 <= i < j < |keys| ==> keys[i] != keys[j]
    requires forall i {:trigger cover[i]} :: 0 <= i < |cover| ==> cover[i] == keys[order[i]]
    ensures Columns(keys, Elements(cover)) == Elements(order)
  {
    forall k: nat ensures k in Columns(keys, Elements(cover)) <==> k in Elements(order) {
      if k in order {
        var i: nat :| i < |order| && order[i] == k;
        assert cover[i] == keys[k];
      }
      if k < |keys| && keys[k] in cover {
        var i: nat :| i < |cover| && cover[i] == keys[k];
        assert order[i] == k;
      }
    }
  }

  lemma OrderDistinct(rows: seq<set<nat>>, score: seq<real>, order: seq<nat>)
    requires Below(order, |score|) && InOrder(rows, score, order)
    ensures forall i, j :: 0 <= i < j < |order| ==> order[i] != order[j]
  {
    hide Column;
    forall i, j | 0 <= i < j < |order| ensures order[i] != order[j] {
      assert Ahead(rows, score, order[i], order[j]);
    }
  }

  lemma KeysDistinct<K(!new)>(cands: seq<set<K>>, keys: seq<K>, order: seq<nat>, cover: seq<K>)
    requires IsKeys(cands, keys) && Below(order, |keys|) && |cover| == |order|
    requires forall i, j :: 0 <= i < j < |order| ==> order[i] != order[j]
    requires forall i {:trigger cover[i]} :: 0 <= i < |cover| ==> cover[i] == keys[order[i]]
    ensures forall i, j :: 0 <= i < j < |cover| ==> cover[i] != cover[j]
  {
  }

  lemma GainsAtMost(rows: seq<set<nat>>, n: nat, d: nat)
    requires forall k: nat :: k < n ==> |Column(rows, k)| <= d
    ensures forall k: nat :: k < n ==> Gain(rows, All(rows), k) <= d
  {
    forall k: nat | k < n ensures Gain(rows, All(rows), k) <= d {
      Sets.SubsetSize(Column(rows, k) * All(rows), Column(rows, k));
    }
  }

  // ----- crediting the cover's keys

  /** The last place of a key in the cover: a repeated key ranks at its last. */
  ghost predicate Last<K(!new)>(cover: seq<K>, j: nat)
    requires j < |cover|
  {
    forall l :: j < l < |cover| ==> cover[l] != cover[j]
  }

  /** The first cover key hitting a row takes the credit. */
  ghost predicate Credited<K(!new)>(s: set<K>, cover: seq<K>, j: nat)
    requires j < |cover|
  {
    && cover[j] in s && Last(cover, j)
    && forall l: nat :: l < j && cover[l] in s ==> !Last(cover, l)
  }

  function Credits(owned: seq<seq<nat>>): nat {
    if owned == [] then 0 else Credits(owned[..|owned| - 1]) + |owned[|owned| - 1]|
  }

  /** The rows a cover key hits, of the first `n`. */
  function RowsHitBy<K>(cands: seq<set<K>>, some: set<K>, n: nat): nat
    requires n <= |cands|
  {
    if n == 0 then 0 else RowsHitBy(cands, some, n - 1) + if cands[n - 1] * some != {} then 1 else 0
  }

  lemma {:induction false} CreditsAppend(owned: seq<seq<nat>>, j: nat, i: nat)
    requires j < |owned|
    ensures Credits(owned[j := owned[j] + [i]]) == Credits(owned) + 1
  {
    var more := owned[j := owned[j] + [i]];
    if j == |owned| - 1 {
      assert more[..|owned| - 1] == owned[..|owned| - 1];
    } else {
      CreditsAppend(owned[..|owned| - 1], j, i);
      assert more[..|owned| - 1] == owned[..|owned| - 1][j := owned[j] + [i]];
    }
  }

  /** Every row a cover key hits is credited to exactly one key, the first to hit it; the credits sum
      to the rows hit. */
  method CreditRows<K(!new, ==)>(cands: seq<set<K>>, cover: seq<K>) returns (owned: seq<seq<nat>>)
    ensures |owned| == |cover|
    ensures Owns(cands, cover, owned, |cands|)
    ensures Credits(owned) == RowsHitBy(cands, Elements(cover), |cands|)
    ensures HitsAll(cands, Elements(cover)) && (forall s :: s in cands ==> s != {}) ==> Credits(owned) == |cands|
  {
    hide Credits, RowsHitBy, Credited, Last, Owns;
    var rank := Ranks(cover);
    owned := seq(|cover|, _ => []);
    NoCredits(owned);
    NoneOwned(cands, cover, owned);
    var n := 0;
    while n < |cands|
      invariant 0 <= n <= |cands| && |owned| == |cover| && Owns(cands, cover, owned, n)
      invariant Credits(owned) == RowsHitBy(cands, Elements(cover), n)
    {
      var first := FirstHit(cands[n], cover, rank);
      RowsHitNext(cands, Elements(cover), n);
      OwnsNext(cands, cover, owned, n, first);
      if first.Some? {
        CreditsAppend(owned, first.value, n);
        owned := owned[first.value := owned[first.value] + [n]];
      }
      n := n + 1;
    }
    AllHit(cands, Elements(cover), |cands|);
  }

  /** A cover key, the tunes credited to it, and the one that stands for them. */
  datatype Fix<K> = Fix(key: K, tunes: seq<nat>, representative: Option<nat>)

  /** The tune of the earliest onset, of the lowest number where onsets are equal. */
  ghost predicate Earliest(tunes: seq<nat>, onset: seq<int>, rep: Option<nat>)
    requires Below(tunes, |onset|)
  {
    match rep
    case None => tunes == []
    case Some(r) =>
      && r in tunes && r < |onset|
      && forall k {:trigger tunes[k]} :: 0 <= k < |tunes| ==>
           onset[r] < onset[tunes[k]] || (onset[r] == onset[tunes[k]] && r <= tunes[k])
  }

  method Representative(tunes: seq<nat>, onset: seq<int>) returns (rep: Option<nat>)
    requires Below(tunes, |onset|)
    ensures Earliest(tunes, onset, rep)
  {
    rep := None;
    var k := 0;
    while k < |tunes|
      invariant 0 <= k <= |tunes| && Earliest(tunes[..k], onset, rep)
    {
      var t := tunes[k];
      assert tunes[..k + 1] == tunes[..k] + [t];
      if rep.None? || onset[t] < onset[rep.value] || (onset[t] == onset[rep.value] && t < rep.value) {
        rep := Some(t);
      }
      k := k + 1;
    }
    assert tunes[..k] == tunes;
  }

  function TunesOf(rows: seq<nat>, tuneOf: seq<nat>): (tunes: seq<nat>)
    requires Below(rows, |tuneOf|)
    ensures |tunes| == |rows| && forall k {:trigger tunes[k]} :: 0 <= k < |rows| ==> tunes[k] == tuneOf[rows[k]]
  {
    seq(|rows|, k requires 0 <= k < |rows| => tuneOf[rows[k]])
  }

  /** The fix of the `j`-th cover key: the tunes of its rows, in order, and the earliest of them. */
  ghost predicate IsFix<K>(fix: Fix<K>, key: K, rows: seq<nat>, tuneOf: seq<nat>, onset: seq<int>) {
    && fix.key == key && Below(rows, |tuneOf|) && fix.tunes == TunesOf(rows, tuneOf)
    && Below(fix.tunes, |onset|) && Earliest(fix.tunes, onset, fix.representative)
  }

  /** The fixes in cover order: every row a cover key hits is credited to the first to hit it, and the
      earliest tune credited stands for the key. */
  method RankFixes<K(!new, ==)>(cands: seq<set<K>>, cover: seq<K>, tuneOf: seq<nat>, onset: seq<int>)
      returns (fixes: seq<Fix<K>>, ghost owned: seq<seq<nat>>)
    requires |tuneOf| == |cands| && Below(tuneOf, |onset|)
    ensures |owned| == |cover| && Owns(cands, cover, owned, |cands|)
    ensures Credits(owned) == RowsHitBy(cands, Elements(cover), |cands|)
    ensures HitsAll(cands, Elements(cover)) && (forall s :: s in cands ==> s != {}) ==> Credits(owned) == |cands|
    ensures |fixes| == |cover|
    ensures forall j {:trigger fixes[j]} :: 0 <= j < |fixes| ==> IsFix(fixes[j], cover[j], owned[j], tuneOf, onset)
  {
    hide Owns, Credits, RowsHitBy, HitsAll, Earliest, IsFix;
    var rows := CreditRows(cands, cover);
    owned := rows;
    fixes := [];
    var j := 0;
    while j < |cover|
      invariant 0 <= j <= |cover| && |fixes| == j
      invariant forall i {:trigger fixes[i]} :: 0 <= i < j ==> IsFix(fixes[i], cover[i], owned[i], tuneOf, onset)
    {
      OwnedBelow(cands, cover, rows, j, tuneOf, onset);
      var tunes := TunesOf(rows[j], tuneOf);
      var rep := Representative(tunes, onset);
      FixIs(Fix(cover[j], tunes, rep), rows[j], tuneOf, onset);
      fixes := fixes + [Fix(cover[j], tunes, rep)];
      j := j + 1;
    }
  }

  lemma FixIs<K>(fix: Fix<K>, rows: seq<nat>, tuneOf: seq<nat>, onset: seq<int>)
    requires Below(rows, |tuneOf|) && fix.tunes == TunesOf(rows, tuneOf)
    requires Below(fix.tunes, |onset|) && Earliest(fix.tunes, onset, fix.representative)
    ensures IsFix(fix, fix.key, rows, tuneOf, onset)
  {
  }

  lemma OwnedBelow<K(!new)>(cands: seq<set<K>>, cover: seq<K>, owned: seq<seq<nat>>, j: nat,
      tuneOf: seq<nat>, onset: seq<int>)
    requires |owned| == |cover| && j < |cover| && Owns(cands, cover, owned, |cands|)
    requires |tuneOf| == |cands| && Below(tuneOf, |onset|)
    ensures Below(owned[j], |tuneOf|)
    ensures Below(TunesOf(owned[j], tuneOf), |onset|)
  {
    var rows := owned[j];
    forall k {:trigger rows[k]} | 0 <= k < |rows| ensures rows[k] < |tuneOf| {
      assert rows[k] in owned[j];
    }
    var tunes := TunesOf(rows, tuneOf);
    forall k {:trigger tunes[k]} | 0 <= k < |tunes| ensures tunes[k] < |onset| {
      assert tunes[k] == tuneOf[rows[k]];
    }
  }

  /** Each key owns, in order, the rows of the first `n` it is credited with. */
  ghost predicate Owns<K(!new)>(cands: seq<set<K>>, cover: seq<K>, owned: seq<seq<nat>>, n: nat)
    requires n <= |cands| && |owned| == |cover|
  {
    forall j: nat {:trigger owned[j]} :: j < |cover| ==>
      && (forall a, b :: 0 <= a < b < |owned[j]| ==> owned[j][a] < owned[j][b])
      && forall i: nat {:trigger i in owned[j]} :: i in owned[j] <==> i < n && Credited(cands[i], cover, j)
  }

  lemma NoneOwned<K(!new)>(cands: seq<set<K>>, cover: seq<K>, owned: seq<seq<nat>>)
    requires |owned| == |cover| && forall j {:trigger owned[j]} :: 0 <= j < |owned| ==> owned[j] == []
    ensures Owns(cands, cover, owned, 0) && RowsHitBy(cands, Elements(cover), 0) == 0
  {
  }

  lemma OwnsNext<K(!new)>(cands: seq<set<K>>, cover: seq<K>, owned: seq<seq<nat>>, n: nat, first: Option<nat>)
    requires n < |cands| && |owned| == |cover| && Owns(cands, cover, owned, n)
    requires first.Some? ==> first.value < |cover|
    requires forall j: nat :: j < |cover| ==> (Credited(cands[n], cover, j) <==> first == Some(j))
    ensures Owns(cands, cover, if first.Some? then owned[first.value := owned[first.value] + [n]] else owned, n + 1)
  {
    hide Credited;
    var more := if first.Some? then owned[first.value := owned[first.value] + [n]] else owned;
    forall j: nat {:trigger more[j]} | j < |cover| ensures
      && (forall a, b :: 0 <= a < b < |more[j]| ==> more[j][a] < more[j][b])
      && forall i: nat {:trigger i in more[j]} :: i in more[j] <==> i < n + 1 && Credited(cands[i], cover, j)
    {
      assert more[j] == if first == Some(j) then owned[j] + [n] else owned[j];
      forall a {:trigger owned[j][a]} | 0 <= a < |owned[j]| ensures owned[j][a] < n {
        assert owned[j][a] in owned[j];
      }
    }
  }

  lemma RowsHitNext<K>(cands: seq<set<K>>, some: set<K>, n: nat)
    requires n < |cands|
    ensures RowsHitBy(cands, some, n + 1) == RowsHitBy(cands, some, n) + if cands[n] * some != {} then 1 else 0
  {
  }

  lemma {:induction false} NoCredits(owned: seq<seq<nat>>)
    requires forall j {:trigger owned[j]} :: 0 <= j < |owned| ==> owned[j] == []
    ensures Credits(owned) == 0
  {
    if owned != [] {
      NoCredits(owned[..|owned| - 1]);
    }
  }

  lemma {:induction false} AllHit<K>(cands: seq<set<K>>, some: set<K>, n: nat)
    requires n <= |cands|
    ensures HitsAll(cands, some) && (forall s :: s in cands ==> s != {}) ==> RowsHitBy(cands, some, n) == n
  {
    if n > 0 {
      AllHit(cands, some, n - 1);
      assert cands[n - 1] in cands;
    }
  }

  /** The rank of each cover key: its last place in the cover. */
  method Ranks<K(!new, ==)>(cover: seq<K>) returns (rank: map<K, nat>)
    ensures forall k {:trigger k in rank} :: k in rank <==> k in cover
    ensures forall k {:trigger rank[k]} ::
        k in rank ==> rank[k] < |cover| && cover[rank[k]] == k && Last(cover, rank[k])
  {
    rank := map[];
    var i := 0;
    while i < |cover|
      invariant 0 <= i <= |cover|
      invariant forall k {:trigger k in rank} :: k in rank <==> k in cover[..i]
      invariant forall k {:trigger rank[k]} :: k in rank ==>
        rank[k] < i && cover[rank[k]] == k && forall l :: rank[k] < l < i ==> cover[l] != k
    {
      assert cover[..i + 1] == cover[..i] + [cover[i]];
      rank := rank[cover[i] := i];
      i := i + 1;
    }
    assert cover[..i] == cover;
  }

  /** The least rank of a key hitting the row. */
  method FirstHit<K(!new, ==)>(s: set<K>, cover: seq<K>, rank: map<K, nat>) returns (first: Option<nat>)
    requires forall k {:trigger k in rank} :: k in rank <==> k in cover
    requires forall k {:trigger rank[k]} ::
        k in rank ==> rank[k] < |cover| && cover[rank[k]] == k && Last(cover, rank[k])
    ensures first.None? <==> s * Elements(cover) == {}
    ensures first.Some? ==> first.value < |cover| && Credited(s, cover, first.value)
    ensures forall j: nat :: j < |cover| ==> (Credited(s, cover, j) <==> first == Some(j))
  {
    first := None;
    var j := 0;
    while j < |cover|
      invariant 0 <= j <= |cover|
      invariant first.None? ==> forall l: nat :: l < j ==> !(cover[l] in s && Last(cover, l))
      invariant first.Some? ==>
        && first.value < j && cover[first.value] in s && Last(cover, first.value)
        && forall l: nat :: l < first.value ==> !(cover[l] in s && Last(cover, l))
    {
      assert cover[j] in rank;
      if first.None? && cover[j] in s && rank[cover[j]] == j {
        first := Some(j);
      }
      j := j + 1;
    }
    forall k | k in s * Elements(cover) ensures first.Some? {
      assert k in rank && cover[rank[k]] == k && Last(cover, rank[k]);
    }
    if first.Some? {
      assert cover[first.value] in s * Elements(cover);
    }
  }
}
