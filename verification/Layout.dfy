/** `automaton.py`, `layout_chains`: rows placed in table slots so that fetching the next
    slot reproduces `succ`, with a jump slot where a chain runs into a placed row.
 */
module Layout {
  import opened Options
  import opened Automaton
  import opened Sets

  ghost predicate SuccClosed<N>(succ: map<N, Option<N>>) {
    forall n :: n in succ && succ[n].Some? ==> succ[n].value in succ
  }

  // ----- layouts

  /** Row `n` is followed by its successor, or by a jump slot to it. */
  ghost predicate Leads<N>(succ: map<N, Option<N>>, slots: map<N, int>, jumps: map<int, N>, n: N) {
    && n in succ && n in slots
    && (succ[n].Some? ==>
        || (succ[n].value in slots && slots[succ[n].value] == slots[n] + 1)
        || (slots[n] + 1 in jumps && jumps[slots[n] + 1] == succ[n].value))
  }

  ghost predicate Injective<N>(slots: map<N, int>) {
    forall x, y :: x in slots && y in slots && slots[x] == slots[y] ==> x == y
  }

  ghost predicate Apart<N>(slots: map<N, int>, jumps: map<int, N>) {
    forall n :: n in slots ==> slots[n] !in jumps
  }

  /** A fall-through layout: every row in a slot of its own, every successor reached. */
  ghost predicate IsLayout<N>(succ: map<N, Option<N>>, slots: map<N, int>, jumps: map<int, N>) {
    && slots.Keys == succ.Keys && Injective(slots) && Apart(slots, jumps)
    && (forall n :: n in succ ==> Leads(succ, slots, jumps, n))
    && (forall p :: p in jumps ==> jumps[p] in slots)
  }

  /** Rows and jumps fill the slots from `base` up to `pos`. */
  ghost predicate Fills<N>(slots: map<N, int>, jumps: map<int, N>, base: int, pos: int) {
    && pos == base + |slots| + |jumps|
    && forall p :: base <= p < pos <==> p in slots.Values || p in jumps
  }

  /** The slot a player fetches after `slot`. */
  function Fetch<N>(slots: map<N, int>, jumps: map<int, N>, slot: int): int {
    if slot + 1 in jumps && jumps[slot + 1] in slots then slots[jumps[slot + 1]] else slot + 1
  }

  function FetchMany<N>(slots: map<N, int>, jumps: map<int, N>, slot: int, k: nat): int
    decreases k
  {
    if k == 0 then slot else FetchMany(slots, jumps, Fetch(slots, jumps, slot), k - 1)
  }

  /** The row `k` steps after `n` along `succ`, if the chain has not stopped. */
  function Follow<N>(succ: map<N, Option<N>>, n: N, k: nat): Option<N>
    decreases k
  {
    if k == 0 then Some(n)
    else if n in succ && succ[n].Some? then Follow(succ, succ[n].value, k - 1)
    else None
  }

  /** A layout plays back `succ`: fetching from a row's slot walks the row's chain. */
  lemma {:induction false} LayoutSimulates<N>(succ: map<N, Option<N>>, slots: map<N, int>, jumps: map<int, N>, n: N,
        k: nat)
    requires SuccClosed(succ) && IsLayout(succ, slots, jumps) && n in succ && Follow(succ, n, k).Some?
    ensures Follow(succ, n, k).value in slots
    ensures FetchMany(slots, jumps, slots[n], k) == slots[Follow(succ, n, k).value]
    decreases k
  {
    if k > 0 {
      var m := succ[n].value;
      assert Leads(succ, slots, jumps, n);
      assert Fetch(slots, jumps, slots[n]) == slots[m];
      LayoutSimulates(succ, slots, jumps, m, k - 1);
    }
  }

  // ----- no layout needs fewer jumps than there are chains left over

  ghost function Stops<N>(succ: map<N, Option<N>>): set<N> {
    set n | n in succ && succ[n].None?
  }

  /** No row leads to `n`. */
  ghost predicate IsSource<N>(succ: map<N, Option<N>>, n: N) {
    forall p :: p in succ ==> succ[p] != Some(n)
  }

  /** Rows only led to from among themselves. */
  ghost predicate PredClosed<N>(succ: map<N, Option<N>>, rows: set<N>) {
    forall p :: p in succ && succ[p].Some? && succ[p].value in rows ==> p in rows
  }

  /** A chain no layout can attach to the rows before it. */
  ghost predicate Loose<N>(succ: map<N, Option<N>>, chain: set<N>) {
    && chain != {} && chain <= succ.Keys
    && ((exists n :: n in chain && IsSource(succ, n)) || PredClosed(succ, chain))
  }

  ghost predicate LooseChains<N>(succ: map<N, Option<N>>, chains: seq<set<N>>) {
    && (forall i: nat :: i < |chains| ==> Loose(succ, chains[i]))
    && forall i: nat, j: nat :: i < j < |chains| ==> chains[i] !! chains[j]
  }

  /** The rows `slots` places right before their successor. */
  ghost function Direct<N>(succ: map<N, Option<N>>, slots: map<N, int>): set<N>
    requires slots.Keys == succ.Keys
  {
    set n | n in succ && succ[n].Some? && succ[n].value in slots && slots[succ[n].value] == slots[n] + 1
  }

  /** The rows no other row is placed right before. */
  ghost function Heads<N>(succ: map<N, Option<N>>, slots: map<N, int>): set<N>
    requires slots.Keys == succ.Keys
  {
    set n | n in succ && forall p :: p in Direct(succ, slots) ==> succ[p].value != n
  }

  /** Every loose chain has a head: a row led to only from later slots. */
  lemma LooseHead<N>(succ: map<N, Option<N>>, slots: map<N, int>, chain: set<N>) returns (head: N)
    requires SuccClosed(succ) && slots.Keys == succ.Keys && Loose(succ, chain)
    ensures head in chain && head in Heads(succ, slots)
  {
    if n :| n in chain && IsSource(succ, n) {
      head := n;
    } else {
      head := Lowest(slots, chain);
    }
  }

  lemma Lowest<N>(slots: map<N, int>, rows: set<N>) returns (low: N)
    requires rows != {} && rows <= slots.Keys
    ensures low in rows && forall n :: n in rows ==> slots[low] <= slots[n]
    decreases |rows|
  {
    var n :| n in rows;
    if rows == {n} {
      low := n;
    } else {
      var rest := rows - {n};
      var m := Lowest(slots, rest);
      low := if slots[m] < slots[n] then m else n;
      assert forall x :: x in rows ==> x == n || x in rest;
    }
  }

  lemma ManyHeads<N>(succ: map<N, Option<N>>, slots: map<N, int>, chains: seq<set<N>>) returns (heads: set<N>)
    requires SuccClosed(succ) && slots.Keys == succ.Keys && LooseChains(succ, chains)
    ensures |heads| == |chains| && heads <= Heads(succ, slots)
    ensures forall n :: n in heads ==> exists i: nat :: i < |chains| && n in chains[i]
    decreases |chains|
  {
    heads := {};
    if chains != [] {
      var last := |chains| - 1;
      var rest := ManyHeads(succ, slots, chains[..last]);
      var head := LooseHead(succ, slots, chains[last]);
      assert head !in rest;
      heads := rest + {head};
      forall n | n in heads ensures exists i: nat :: i < |chains| && n in chains[i] {
        if n in rest {
          var i: nat :| i < last && n in chains[..last][i];
          assert n in chains[i];
        } else {
          assert n in chains[last];
        }
      }
    }
  }

  /** Any layout of the rows needs at least as many jumps as there are loose chains that do not stop. */
  lemma FewestJumps<N>(succ: map<N, Option<N>>, chains: seq<set<N>>, slots: map<N, int>, jumps: map<int, N>)
    requires SuccClosed(succ) && LooseChains(succ, chains) && IsLayout(succ, slots, jumps)
    ensures |chains| <= |jumps| + |Stops(succ)|
  {
    var heads := ManyHeads(succ, slots, chains);
    var direct, stops := Direct(succ, slots), Stops(succ);
    var jumping := succ.Keys - direct - stops;
    hide Direct, Stops, IsLayout;
    DirectSize(succ, slots, heads);
    JumpSize(succ, slots, jumps, jumping);
    SplitSize(succ.Keys, direct, stops);
  }

  lemma DirectSize<N>(succ: map<N, Option<N>>, slots: map<N, int>, heads: set<N>)
    requires SuccClosed(succ) && slots.Keys == succ.Keys && Injective(slots) && heads <= Heads(succ, slots)
    ensures |Direct(succ, slots)| + |heads| <= |succ.Keys|
  {
    var direct, others := Direct(succ, slots), succ.Keys - heads;
    var next := (n: N) => if n in succ && succ[n].Some? then succ[n].value else n;
    forall x, y | x in direct && y in direct && next(x) == next(y) ensures x == y {
      assert slots[x] == slots[y];
    }
    ImageSize(direct, next, others);
  }

  lemma JumpSize<N>(succ: map<N, Option<N>>, slots: map<N, int>, jumps: map<int, N>, jumping: set<N>)
    requires IsLayout(succ, slots, jumps) && jumping == succ.Keys - Direct(succ, slots) - Stops(succ)
    ensures |jumping| <= |jumps|
  {
    var after := (n: N) => if n in slots then slots[n] + 1 else 0;
    forall n | n in jumping ensures after(n) in jumps.Keys {
      assert Leads(succ, slots, jumps, n);
    }
    ImageSize(jumping, after, jumps.Keys);
  }

  // ----- rows left over once every source is placed lie on cycles of their own

  ghost predicate LedTo<N>(succ: map<N, Option<N>>, rows: set<N>, n: N) {
    exists p :: p in rows && p in succ && succ[p] == Some(n)
  }

  /** A row among `rows` that leads to `n`. */
  ghost function PredIn<N>(succ: map<N, Option<N>>, rows: set<N>, n: N): (p: N)
    requires LedTo(succ, rows, n)
    ensures p in rows && p in succ && succ[p] == Some(n)
  {
    var p :| p in rows && p in succ && succ[p] == Some(n);
    p
  }

  /** `succ` permutes `rows`. */
  ghost predicate Permutes<N>(succ: map<N, Option<N>>, rows: set<N>) {
    && (forall p :: p in rows ==> p in succ && succ[p].Some? && succ[p].value in rows)
    && forall p, q :: p in rows && q in rows && p in succ && q in succ && succ[p] == succ[q] ==> p == q
  }

  /** Finitely many rows, each led to by one of them. */
  lemma PredsPermute<N>(succ: map<N, Option<N>>, rows: set<N>)
    requires forall n :: n in rows ==> LedTo(succ, rows, n)
    ensures Permutes(succ, rows)
  {
    var preds := set n | n in rows :: PredIn(succ, rows, n);
    PredsSize(succ, rows, preds);
    SubsetSame(preds, rows);
    forall p | p in rows
      ensures p in succ && succ[p].Some? && succ[p].value in rows && PredIn(succ, rows, succ[p].value) == p
    {
      var n :| n in rows && PredIn(succ, rows, n) == p;
    }
  }

  lemma PredsSize<N>(succ: map<N, Option<N>>, rows: set<N>, preds: set<N>)
    requires forall n :: n in rows ==> LedTo(succ, rows, n)
    requires preds == set n | n in rows :: PredIn(succ, rows, n)
    ensures |rows| <= |preds|
  {
    ImageSize(rows, (n: N) => if n in rows then PredIn(succ, rows, n) else n, preds);
  }

  /** `chain` follows `succ`, and meets nothing placed before it. */
  ghost predicate Chain<N>(succ: map<N, Option<N>>, placed: set<N>, chain: seq<N>) {
    && (forall i {:trigger chain[i]} :: 0 <= i < |chain| ==> chain[i] in succ && chain[i] !in placed)
    && (forall i, j :: 0 <= i < j < |chain| ==> chain[i] != chain[j])
    && (forall i, j :: 0 <= i && j == i + 1 < |chain| ==> succ[chain[i]] == Some(chain[j]))
  }

  ghost predicate SuccInside<N>(succ: map<N, Option<N>>, placed: set<N>) {
    forall n :: n in placed ==> n in succ && (succ[n].Some? ==> succ[n].value in placed)
  }

  /** A chain started once every source is placed is a whole cycle: nothing else leads into it. */
  lemma LeftoverChain<N>(succ: map<N, Option<N>>, placed: set<N>, chain: seq<N>)
    requires SuccClosed(succ) && SuccInside(succ, placed) && Chain(succ, placed, chain) && chain != []
    requires forall n :: n in succ && IsSource(succ, n) ==> n in placed
    requires succ[chain[|chain| - 1]].Some? ==> succ[chain[|chain| - 1]].value in placed + Rows(chain)
    ensures PredClosed(succ, Rows(chain))
  {
    hide Permutes, Chain;
    LeftoversPermute(succ, placed);
    LeftoverEnd(succ, placed, chain);
    forall p | p in succ && succ[p].Some? && succ[p].value in Rows(chain) ensures p in Rows(chain) {
      OnlyPred(succ, placed, chain, p);
    }
  }

  lemma LeftoverEnd<N>(succ: map<N, Option<N>>, placed: set<N>, chain: seq<N>)
    requires Permutes(succ, succ.Keys - placed) && placed <= succ.Keys && Chain(succ, placed, chain) && chain != []
    requires succ[chain[|chain| - 1]].Some? ==> succ[chain[|chain| - 1]].value in placed + Rows(chain)
    ensures succ[chain[|chain| - 1]] == Some(chain[0])
  {
    assert succ.Keys - (succ.Keys - placed) == placed;
    ChainCloses(succ, succ.Keys - placed, chain);
  }

  lemma OnlyPred<N>(succ: map<N, Option<N>>, placed: set<N>, chain: seq<N>, p: N)
    requires SuccInside(succ, placed) && Permutes(succ, succ.Keys - placed) && Chain(succ, placed, chain) && chain != []
    requires succ[chain[|chain| - 1]] == Some(chain[0])
    requires p in succ && succ[p].Some? && succ[p].value in Rows(chain)
    ensures p in Rows(chain)
  {
    var q := ChainPred(succ, chain, succ[p].value);
    assert q in succ.Keys - placed && p in succ.Keys - placed;
  }

  lemma LeftoversPermute<N>(succ: map<N, Option<N>>, placed: set<N>)
    requires SuccInside(succ, placed)
    requires forall n :: n in succ && IsSource(succ, n) ==> n in placed
    ensures Permutes(succ, succ.Keys - placed)
  {
    var left := succ.Keys - placed;
    forall n | n in left ensures LedTo(succ, left, n) {
      assert !IsSource(succ, n);
      var p :| p in succ && succ[p] == Some(n);
      assert p in left;
    }
    PredsPermute(succ, left);
  }

  lemma ChainCloses<N>(succ: map<N, Option<N>>, left: set<N>, chain: seq<N>)
    requires Permutes(succ, left) && Chain(succ, succ.Keys - left, chain) && chain != []
    requires succ[chain[|chain| - 1]].Some? ==> succ[chain[|chain| - 1]].value in (succ.Keys - left) + Rows(chain)
    ensures succ[chain[|chain| - 1]] == Some(chain[0])
  {
    var last := chain[|chain| - 1];
    forall k {:trigger chain[k]} | 0 <= k < |chain| ensures chain[k] in left {
    }
    assert succ[last].Some? && succ[last].value in left;
    var k :| 0 <= k < |chain| && chain[k] == succ[last].value;
    LastLeads(succ, left, chain, k);
  }

  /** No row inside the chain has two leading to it. */
  lemma LastLeads<N>(succ: map<N, Option<N>>, left: set<N>, chain: seq<N>, k: nat)
    requires Permutes(succ, left) && Chain(succ, succ.Keys - left, chain) && k < |chain|
    requires chain[|chain| - 1] in left && (k > 0 ==> chain[k - 1] in left)
    ensures succ[chain[|chain| - 1]] == Some(chain[k]) ==> k == 0
  {
    if k > 0 {
      assert succ[chain[k - 1]] == Some(chain[k]) && chain[k - 1] != chain[|chain| - 1];
    }
  }

  lemma ChainPred<N>(succ: map<N, Option<N>>, chain: seq<N>, n: N) returns (q: N)
    requires Chain(succ, {}, chain) && n in Rows(chain) && succ[chain[|chain| - 1]] == Some(chain[0])
    ensures q in Rows(chain) && succ[q] == Some(n)
  {
    var k :| 0 <= k < |chain| && chain[k] == n;
    q := if k > 0 then chain[k - 1] else chain[|chain| - 1];
  }

  // ----- the algorithm

  /** The slots from `base` to `pos` are taken, each once. */
  ghost predicate Table<N>(slots: map<N, int>, jumps: map<int, N>, base: int, pos: int) {
    && base <= pos && Injective(slots) && Apart(slots, jumps) && Fills(slots, jumps, base, pos)
    && (forall p :: p in jumps ==> jumps[p] in slots)
  }

  lemma TakeSlot<N>(slots: map<N, int>, jumps: map<int, N>, base: int, pos: int, n: N)
    requires Table(slots, jumps, base, pos) && n !in slots
    ensures Table(slots[n := pos], jumps, base, pos + 1) && pos !in jumps && pos !in slots.Values
  {
    assert pos !in jumps && pos !in slots.Values;
    TakeSlotFills(slots, jumps, base, pos, n);
    TakeSlotApart(slots, jumps, pos, n);
  }

  lemma TakeSlotFills<N>(slots: map<N, int>, jumps: map<int, N>, base: int, pos: int, n: N)
    requires Fills(slots, jumps, base, pos) && base <= pos && n !in slots
    ensures Fills(slots[n := pos], jumps, base, pos + 1)
  {
    ValuesGrow(slots, n, pos);
    assert |slots[n := pos]| == |slots| + 1;
  }

  lemma TakeSlotApart<N>(slots: map<N, int>, jumps: map<int, N>, pos: int, n: N)
    requires Injective(slots) && Apart(slots, jumps) && n !in slots && pos !in jumps && pos !in slots.Values
    ensures Injective(slots[n := pos]) && Apart(slots[n := pos], jumps)
  {
    assert forall x :: x in slots ==> slots[x] in slots.Values;
  }

  lemma ValuesGrow<N>(slots: map<N, int>, n: N, pos: int)
    requires n !in slots
    ensures slots[n := pos].Values == slots.Values + {pos}
  {
    var more := slots[n := pos];
    assert forall x :: x in slots ==> x in more && more[x] == slots[x];
    assert n in more && more[n] == pos;
    forall v | v in slots.Values + {pos} ensures v in more.Values {
      if v in slots.Values {
        var m :| m in slots && slots[m] == v;
        assert more[m] == v;
      }
    }
  }

  lemma TakeJump<N>(slots: map<N, int>, jumps: map<int, N>, base: int, pos: int, n: N)
    requires Table(slots, jumps, base, pos) && n in slots
    ensures Table(slots, jumps[pos := n], base, pos + 1) && pos !in jumps && pos !in slots.Values
  {
    assert pos !in jumps && pos !in slots.Values;
    assert |jumps[pos := n]| == |jumps| + 1;
    assert forall x :: x in slots ==> slots[x] in slots.Values;
  }

  /** Every placed row but `last` leads on; `last` is followed by the free slot `pos`. */
  ghost predicate AllLead<N>(succ: map<N, Option<N>>, slots: map<N, int>, jumps: map<int, N>, pos: int,
      last: Option<N>)
  {
    && slots.Keys <= succ.Keys
    && (forall n :: n in slots && Some(n) != last ==> Leads(succ, slots, jumps, n))
    && (last.Some? ==> last.value in slots && slots[last.value] == pos - 1)
  }

  /** The next row of a chain, or its first, goes into the free slot. */
  lemma PlaceRow<N>(succ: map<N, Option<N>>, slots: map<N, int>, jumps: map<int, N>, base: int, pos: int,
      last: Option<N>, n: N)
    requires Table(slots, jumps, base, pos) && AllLead(succ, slots, jumps, pos, last)
    requires n in succ && n !in slots && (last.Some? ==> last.value in succ && succ[last.value] == Some(n))
    ensures Table(slots[n := pos], jumps, base, pos + 1)
    ensures AllLead(succ, slots[n := pos], jumps, pos + 1, if succ[n].None? then None else Some(n))
  {
    hide Table;
    TakeSlot(slots, jumps, base, pos, n);
    var more := slots[n := pos];
    forall m | m in more && m != n ensures Leads(succ, more, jumps, m) {
      if Some(m) != last {
        assert Leads(succ, slots, jumps, m);
      }
    }
  }

  /** A chain that runs into a placed row ends in a jump to it. */
  lemma PlaceJump<N>(succ: map<N, Option<N>>, slots: map<N, int>, jumps: map<int, N>, base: int, pos: int, last: N,
        n: N)
    requires Table(slots, jumps, base, pos) && AllLead(succ, slots, jumps, pos, Some(last))
    requires last in succ && succ[last] == Some(n) && n in slots
    ensures Table(slots, jumps[pos := n], base, pos + 1)
    ensures AllLead(succ, slots, jumps[pos := n], pos + 1, None) && |jumps[pos := n]| == |jumps| + 1
  {
    hide Table;
    TakeJump(slots, jumps, base, pos, n);
    forall m | m in slots ensures Leads(succ, slots, jumps[pos := n], m) {
      if m != last {
        assert Leads(succ, slots, jumps, m);
      }
    }
  }

  ghost function LastOf<N>(chain: seq<N>): Option<N> {
    if chain == [] then None else Some(chain[|chain| - 1])
  }

  /** What the inner loop keeps: `node` comes next, or was placed before and has its jump. */
  ghost predicate Midway<N>(succ: map<N, Option<N>>, slots0: map<N, int>, jumps0: map<int, N>,
      slots: map<N, int>, jumps: map<int, N>, base: int, pos: int, chain: seq<N>, node: N)
  {
    && node in succ && Table(slots, jumps, base, pos)
    && Chain(succ, slots0.Keys, chain) && slots.Keys == slots0.Keys + Rows(chain)
    && (chain != [] ==> LastOf(chain).value in succ && succ[LastOf(chain).value] == Some(node))
    && if node in slots then AllLead(succ, slots, jumps, pos, None) && chain != [] && |jumps| == |jumps0| + 1
       else AllLead(succ, slots, jumps, pos, LastOf(chain)) && |jumps| == |jumps0|
  }

  /** What it leaves: `chain` is placed, and ends in a stop or a jump. */
  ghost predicate Placed<N>(succ: map<N, Option<N>>, slots0: map<N, int>, jumps0: map<int, N>,
      slots: map<N, int>, jumps: map<int, N>, base: int, pos: int, chain: seq<N>)
  {
    && Table(slots, jumps, base, pos) && AllLead(succ, slots, jumps, pos, None)
    && chain != [] && Chain(succ, slots0.Keys, chain) && slots.Keys == slots0.Keys + Rows(chain)
    && var end := succ[chain[|chain| - 1]];
       (end.Some? ==> end.value in slots) && |jumps| == |jumps0| + if end.None? then 0 else 1
  }

  lemma MidwayFirst<N>(succ: map<N, Option<N>>, slots: map<N, int>, jumps: map<int, N>, base: int, pos: int, first: N)
    requires first in succ && first !in slots && Table(slots, jumps, base, pos) &&
        AllLead(succ, slots, jumps, pos, None)
    ensures Midway(succ, slots, jumps, slots, jumps, base, pos, [], first)
  {
  }

  lemma MidwayLast<N>(succ: map<N, Option<N>>, slots0: map<N, int>, jumps0: map<int, N>,
      slots: map<N, int>, jumps: map<int, N>, base: int, pos: int, chain: seq<N>, node: N)
    requires Midway(succ, slots0, jumps0, slots, jumps, base, pos, chain, node) && node in slots
    ensures Placed(succ, slots0, jumps0, slots, jumps, base, pos, chain)
  {
  }

  /** The row goes into the free slot, whatever follows it. */
  lemma PlaceTurn<N>(succ: map<N, Option<N>>, slots0: map<N, int>, jumps0: map<int, N>,
      slots: map<N, int>, jumps: map<int, N>, base: int, pos: int, chain: seq<N>, node: N)
    requires Midway(succ, slots0, jumps0, slots, jumps, base, pos, chain, node) && node !in slots
    ensures node in succ && Table(slots[node := pos], jumps, base, pos + 1)
    ensures AllLead(succ, slots[node := pos], jumps, pos + 1, if succ[node].None? then None else Some(node))
    ensures Chain(succ, slots0.Keys, chain + [node]) && slots[node := pos].Keys == slots0.Keys + Rows(chain + [node])
  {
    hide Table, AllLead, Chain, Rows;
    PlaceRow(succ, slots, jumps, base, pos, LastOf(chain), node);
    ChainKeys(succ, slots0.Keys, slots, chain, node, pos);
  }

  lemma ChainKeys<N>(succ: map<N, Option<N>>, placed: set<N>, slots: map<N, int>, chain: seq<N>, n: N, pos: int)
    requires Chain(succ, placed, chain) && slots.Keys == placed + Rows(chain) && n in succ && n !in slots
    requires chain != [] ==> succ[chain[|chain| - 1]] == Some(n)
    ensures Chain(succ, placed, chain + [n]) && slots[n := pos].Keys == placed + Rows(chain + [n])
  {
    hide Chain, Rows;
    ChainGrows(succ, placed, chain, n);
    AddKey(slots, n, pos);
  }

  lemma PlaceStop<N>(succ: map<N, Option<N>>, slots0: map<N, int>, jumps0: map<int, N>,
      slots: map<N, int>, jumps: map<int, N>, base: int, pos: int, chain: seq<N>, node: N)
    requires Midway(succ, slots0, jumps0, slots, jumps, base, pos, chain, node) && node !in slots
    requires node in succ && succ[node].None?
    ensures Placed(succ, slots0, jumps0, slots[node := pos], jumps, base, pos + 1, chain + [node])
  {
    hide Table, AllLead, Chain, Rows;
    PlaceTurn(succ, slots0, jumps0, slots, jumps, base, pos, chain, node);
  }

  lemma PlaceOn<N>(succ: map<N, Option<N>>, slots0: map<N, int>, jumps0: map<int, N>,
      slots: map<N, int>, jumps: map<int, N>, base: int, pos: int, chain: seq<N>, node: N)
    requires Midway(succ, slots0, jumps0, slots, jumps, base, pos, chain, node) && node !in slots
    requires SuccClosed(succ) && node in succ && succ[node].Some? && succ[node].value !in slots[node := pos]
    ensures Midway(succ, slots0, jumps0, slots[node := pos], jumps, base, pos + 1, chain + [node], succ[node].value)
  {
    hide Table, AllLead, Chain, Rows;
    PlaceTurn(succ, slots0, jumps0, slots, jumps, base, pos, chain, node);
  }

  lemma PlaceInto<N>(succ: map<N, Option<N>>, slots0: map<N, int>, jumps0: map<int, N>,
      slots: map<N, int>, jumps: map<int, N>, base: int, pos: int, chain: seq<N>, node: N)
    requires Midway(succ, slots0, jumps0, slots, jumps, base, pos, chain, node) && node !in slots
    requires SuccClosed(succ) && node in succ && succ[node].Some? && succ[node].value in slots[node := pos]
    ensures Midway(succ, slots0, jumps0, slots[node := pos], jumps[pos + 1 := succ[node].value], base, pos + 2,
                   chain + [node], succ[node].value)
  {
    hide Table, AllLead, Chain, Rows;
    PlaceTurn(succ, slots0, jumps0, slots, jumps, base, pos, chain, node);
    PlaceJump(succ, slots[node := pos], jumps, base, pos + 1, node, succ[node].value);
  }

  /** The inner loop: the chain of `first` in consecutive slots, up to a stop or a placed row. */
  method PlaceChain<N(==)>(succ: map<N, Option<N>>, first: N, base: int,
      slots0: map<N, int>, jumps0: map<int, N>, pos0: int)
      returns (slots: map<N, int>, jumps: map<int, N>, pos: int, ghost chain: seq<N>)
    requires SuccClosed(succ) && first in succ && first !in slots0
    requires Table(slots0, jumps0, base, pos0) && AllLead(succ, slots0, jumps0, pos0, None)
    ensures Placed(succ, slots0, jumps0, slots, jumps, base, pos, chain) && chain[0] == first
  {
    hide Table, AllLead, Midway, Placed;
    slots, jumps, pos, chain := slots0, jumps0, pos0, [];
    var node := first;
    MidwayFirst(succ, slots0, jumps0, base, pos0, first);
    while node !in slots
      invariant Midway(succ, slots0, jumps0, slots, jumps, base, pos, chain, node)
      invariant node in succ && (if chain == [] then node else chain[0]) == first
      decreases succ.Keys - slots.Keys
    {
      Fewer(succ, slots, node, pos);
      ghost var row, before, at, sofar := node, slots, pos, chain;
      slots := slots[node := pos];
      pos := pos + 1;
      chain := chain + [node];
      if succ[node].None? {
        PlaceStop(succ, slots0, jumps0, before, jumps, base, at, sofar, row);
        return;
      }
      node := succ[node].value;
      if node in slots {
        PlaceInto(succ, slots0, jumps0, before, jumps, base, at, sofar, row);
        jumps := jumps[pos := node];
        pos := pos + 1;
      } else {
        PlaceOn(succ, slots0, jumps0, before, jumps, base, at, sofar, row);
      }
    }
    MidwayLast(succ, slots0, jumps0, slots, jumps, base, pos, chain, node);
  }

  lemma Fewer<N>(succ: map<N, Option<N>>, slots: map<N, int>, n: N, pos: int)
    requires n in succ && n !in slots
    ensures succ.Keys - slots[n := pos].Keys < succ.Keys - slots.Keys
  {
    assert n in succ.Keys - slots.Keys;
  }

  lemma ChainGrows<N>(succ: map<N, Option<N>>, placed: set<N>, chain: seq<N>, n: N)
    requires Chain(succ, placed, chain) && n in succ && n !in placed + Rows(chain)
    requires chain != [] ==> succ[chain[|chain| - 1]] == Some(n)
    ensures Chain(succ, placed, chain + [n]) && Rows(chain + [n]) == Rows(chain) + {n}
  {
  }

  // ----- rows nothing leads to go first

  function Select<N>(nodes: seq<N>, led: map<N, nat>, wanted: bool): seq<N> {
    if nodes == [] then []
    else (if (nodes[0] in led) == wanted then [nodes[0]] else []) + Select(nodes[1..], led, wanted)
  }

  lemma {:induction false} Selected<N>(nodes: seq<N>, led: map<N, nat>, wanted: bool, n: N)
    ensures n in Select(nodes, led, wanted) <==> n in nodes && (n in led) == wanted
  {
    if nodes != [] {
      Selected(nodes[1..], led, wanted, n);
      assert nodes == [nodes[0]] + nodes[1..];
    }
  }

  /** `indegree`: how many rows lead to each row that is led to. */
  method Indegree<N(==)>(nodes: seq<N>, succ: map<N, Option<N>>) returns (led: map<N, nat>)
    requires Lists(nodes, succ.Keys)
    ensures forall n :: n in led <==> !IsSource(succ, n)
  {
    led := map[];
    for i := 0 to |nodes|
      invariant forall n :: n in led ==> !IsSource(succ, n)
      invariant forall j {:trigger nodes[j]} :: 0 <= j < i && succ[nodes[j]].Some? ==> succ[nodes[j]].value in led
    {
      var t := succ[nodes[i]];
      if t.Some? {
        led := led[t.value := 1 + if t.value in led then led[t.value] else 0];
      }
    }
    forall n | !IsSource(succ, n) ensures n in led {
      var p :| p in succ && succ[p] == Some(n);
      var j :| 0 <= j < |nodes| && nodes[j] == p;
    }
  }

  /** What placing whole chains keeps, with the chains placed so far. */
  ghost predicate Laid<N>(succ: map<N, Option<N>>, slots: map<N, int>, jumps: map<int, N>, base: int, pos: int,
      chains: seq<set<N>>)
  {
    && Table(slots, jumps, base, pos) && AllLead(succ, slots, jumps, pos, None)
    && LooseChains(succ, chains) && (forall i: nat :: i < |chains| ==> chains[i] <= slots.Keys)
    && |jumps| + |Stops(succ) * slots.Keys| == |chains|
  }

  lemma LaidInside<N>(succ: map<N, Option<N>>, slots: map<N, int>, jumps: map<int, N>, pos: int)
    requires AllLead(succ, slots, jumps, pos, None) && forall p :: p in jumps ==> jumps[p] in slots
    ensures SuccInside(succ, slots.Keys)
  {
    forall n | n in slots.Keys ensures n in succ && (succ[n].Some? ==> succ[n].value in slots.Keys) {
      assert Leads(succ, slots, jumps, n);
    }
  }

  /** A chain from a source, or from any row once the sources are placed, is loose. */
  lemma ChainLoose<N>(succ: map<N, Option<N>>, placed: set<N>, chain: seq<N>)
    requires SuccClosed(succ) && SuccInside(succ, placed) && Chain(succ, placed, chain) && chain != []
    requires IsSource(succ, chain[0]) || forall n :: n in succ && IsSource(succ, n) ==> n in placed
    requires succ[chain[|chain| - 1]].Some? ==> succ[chain[|chain| - 1]].value in placed + Rows(chain)
    ensures Loose(succ, Rows(chain))
  {
    assert chain[0] in Rows(chain);
    if !IsSource(succ, chain[0]) {
      LeftoverChain(succ, placed, chain);
    }
  }

  /** Of a chain's rows only the last can be a stop. */
  lemma ChainStops<N>(succ: map<N, Option<N>>, placed: set<N>, chain: seq<N>)
    requires Chain(succ, placed, chain) && chain != []
    ensures |Stops(succ) * (placed + Rows(chain))| ==
            |Stops(succ) * placed| + if succ[chain[|chain| - 1]].None? then 1 else 0
  {
    var last := chain[|chain| - 1];
    forall n | n in Rows(chain) && n != last ensures n in succ && succ[n].Some? {
      var k :| 0 <= k < |chain| && chain[k] == n;
      assert succ[chain[k]] == Some(chain[k + 1]);
    }
    assert last in Rows(chain);
    if succ[last].None? {
      assert Stops(succ) * (placed + Rows(chain)) == Stops(succ) * placed + {last};
    } else {
      assert Stops(succ) * (placed + Rows(chain)) == Stops(succ) * placed;
    }
  }

  lemma LaidChain<N>(succ: map<N, Option<N>>, slots0: map<N, int>, jumps0: map<int, N>, pos0: int, chains: seq<set<N>>,
      slots: map<N, int>, jumps: map<int, N>, base: int, pos: int, chain: seq<N>)
    requires SuccClosed(succ) && Laid(succ, slots0, jumps0, base, pos0, chains)
    requires Placed(succ, slots0, jumps0, slots, jumps, base, pos, chain)
    requires IsSource(succ, chain[0]) || forall n :: n in succ && IsSource(succ, n) ==> n in slots0
    ensures Laid(succ, slots, jumps, base, pos, chains + [Rows(chain)]) && chain[0] in slots
  {
    LaidInside(succ, slots0, jumps0, pos0);
    ChainLoose(succ, slots0.Keys, chain);
    ChainStops(succ, slots0.Keys, chain);
    AddLoose(succ, slots0.Keys, chains, chain);
    assert chain[0] in Rows(chain);
  }

  lemma AddLoose<N>(succ: map<N, Option<N>>, placed: set<N>, chains: seq<set<N>>, chain: seq<N>)
    requires LooseChains(succ, chains) && (forall i: nat :: i < |chains| ==> chains[i] <= placed)
    requires Chain(succ, placed, chain) && Loose(succ, Rows(chain))
    ensures LooseChains(succ, chains + [Rows(chain)])
    ensures forall i: nat :: i < |chains| + 1 ==> (chains + [Rows(chain)])[i] <= placed + Rows(chain)
  {
    assert Rows(chain) !! placed;
  }

  /** The first `k` rows are the sources. */
  ghost predicate SourcesFirst<N>(succ: map<N, Option<N>>, order: seq<N>, k: nat) {
    && k <= |order|
    && forall j {:trigger order[j]} :: 0 <= j < |order| ==> (IsSource(succ, order[j]) <==> j < k)
  }

  lemma SourcesPlaced<N>(succ: map<N, Option<N>>, order: seq<N>, k: nat, i: nat, placed: set<N>)
    requires Lists(order, succ.Keys) && SourcesFirst(succ, order, k) && i < |order| && Covered(order, i, placed)
    ensures IsSource(succ, order[i]) || forall n :: n in succ && IsSource(succ, n) ==> n in placed
  {
    if i >= k {
      forall n | n in succ && IsSource(succ, n) ensures n in placed {
        var j :| 0 <= j < |order| && order[j] == n;
      }
    }
  }

  lemma LaidAll<N>(succ: map<N, Option<N>>, slots: map<N, int>, jumps: map<int, N>, base: int, pos: int,
      chains: seq<set<N>>)
    requires Laid(succ, slots, jumps, base, pos, chains) && succ.Keys <= slots.Keys
    ensures IsLayout(succ, slots, jumps) && Fills(slots, jumps, base, pos)
    ensures LooseChains(succ, chains) && |jumps| + |Stops(succ)| == |chains|
  {
    assert slots.Keys == succ.Keys;
    assert Stops(succ) * slots.Keys == Stops(succ);
  }

  lemma NothingLaid<N>(succ: map<N, Option<N>>, order: seq<N>, base: int)
    ensures Laid(succ, map[], map[], base, base, []) && Covered(order, 0, {})
  {
    var none: map<N, int> := map[];
    assert none.Values == {};
  }

  /** One attempt: every chain from slot `base` on. */
  method LayFrom<N(==)>(succ: map<N, Option<N>>, order: seq<N>, ghost k: nat, base: int)
      returns (slots: map<N, int>, jumps: map<int, N>, pos: int, ghost chains: seq<set<N>>)
    requires SuccClosed(succ) && Lists(order, succ.Keys) && SourcesFirst(succ, order, k)
    ensures IsLayout(succ, slots, jumps) && Fills(slots, jumps, base, pos)
    ensures LooseChains(succ, chains) && |jumps| + |Stops(succ)| == |chains|
  {
    hide Covered, Laid, Placed, Table, AllLead, SourcesFirst, IsLayout, LooseChains, SuccClosed;
    slots, jumps, pos, chains := map[], map[], base, [];
    NothingLaid(succ, order, base);
    for i := 0 to |order|
      invariant Laid(succ, slots, jumps, base, pos, chains) && Covered(order, i, slots.Keys)
    {
      ghost var placed := slots.Keys;
      if order[i] !in slots {
        LaidTable(succ, slots, jumps, base, pos, chains);
        SourcesPlaced(succ, order, k, i, slots.Keys);
        ghost var chain, before, hops, at := [], slots, jumps, pos;
        slots, jumps, pos, chain := PlaceChain(succ, order[i], base, slots, jumps, pos);
        LaidChain(succ, before, hops, at, chains, slots, jumps, base, pos, chain);
        chains := chains + [Rows(chain)];
        PlacedKeys(succ, before, hops, slots, jumps, base, pos, chain);
      }
      CoveredGrows(order, i, placed, slots.Keys);
    }
    CoveredAll(order, succ.Keys, slots.Keys);
    LaidAll(succ, slots, jumps, base, pos, chains);
  }

  lemma LaidTable<N>(succ: map<N, Option<N>>, slots: map<N, int>, jumps: map<int, N>, base: int, pos: int,
      chains: seq<set<N>>)
    requires Laid(succ, slots, jumps, base, pos, chains)
    ensures Table(slots, jumps, base, pos) && AllLead(succ, slots, jumps, pos, None)
  {
  }

  lemma PlacedKeys<N>(succ: map<N, Option<N>>, slots0: map<N, int>, jumps0: map<int, N>,
      slots: map<N, int>, jumps: map<int, N>, base: int, pos: int, chain: seq<N>)
    requires Placed(succ, slots0, jumps0, slots, jumps, base, pos, chain)
    ensures slots0.Keys <= slots.Keys
  {
  }

  /** No fall-through layout of the rows has fewer jumps. */
  ghost predicate Fewest<N(!new)>(succ: map<N, Option<N>>, jumps: int) {
    forall slots: map<N, int>, others: map<int, N> :: IsLayout(succ, slots, others) ==> jumps <= |others|
  }

  lemma LooseFewest<N(!new)>(succ: map<N, Option<N>>, chains: seq<set<N>>, jumps: nat)
    requires SuccClosed(succ) && LooseChains(succ, chains) && jumps + |Stops(succ)| == |chains|
    ensures Fewest(succ, jumps)
  {
    forall slots: map<N, int>, others: map<int, N> | IsLayout(succ, slots, others) ensures jumps <= |others| {
      FewestJumps(succ, chains, slots, others);
    }
  }

  datatype Result<N> = Fits(slots: map<N, int>, jumps: map<int, N>) | TooBig(need: int)

  /** A layout with the fewest jumps, filling the slots from `base` on. */
  ghost predicate LaidAt<N(!new)>(succ: map<N, Option<N>>, slots: map<N, int>, jumps: map<int, N>, base: int) {
    && IsLayout(succ, slots, jumps) && Fewest(succ, |jumps|)
    && Fills(slots, jumps, base, base + |succ| + |jumps|)
  }

  /** `layout_chains`: the rows from slot `first`, else from 0; refused only when no layout fits. */
  method LayoutChains<N(==, !new)>(succ: map<N, Option<N>>, nodes: seq<N>, size: int, first: int)
      returns (result: Result<N>)
    requires SuccClosed(succ) && Lists(nodes, succ.Keys)
    ensures result.Fits? ==>
      && var used := |succ| + |result.jumps|;
         var base := if first + used <= size then first else 0;
         base + used <= size && LaidAt(succ, result.slots, result.jumps, base)
    ensures result.TooBig? ==>
      && result.need > size && first + result.need > size
      && Fewest(succ, result.need - |succ|)
  {
    hide LaidAt, SourcesFirst, Lists, SuccClosed, IsSource, Select, Fewest;
    var led := Indegree(nodes, succ);
    SelectedFirst(succ, nodes, led);
    var order := Select(nodes, led, false) + Select(nodes, led, true);
    var slots, jumps, pos := LayAt(succ, order, |Select(nodes, led, false)|, first);
    LaidFewest(succ, slots, jumps, first);
    if pos <= size {
      return Fits(slots, jumps);
    }
    if first != 0 {
      ghost var slots0, jumps0 := slots, jumps;
      slots, jumps, pos := LayAt(succ, order, |Select(nodes, led, false)|, 0);
      SameFewest(succ, slots0, jumps0, first, slots, jumps, 0);
      LaidFewest(succ, slots, jumps, 0);
      if pos <= size {
        return Fits(slots, jumps);
      }
    }
    return TooBig(pos);
  }

  method LayAt<N(==, !new)>(succ: map<N, Option<N>>, order: seq<N>, ghost k: nat, base: int)
      returns (slots: map<N, int>, jumps: map<int, N>, pos: int)
    requires SuccClosed(succ) && Lists(order, succ.Keys) && SourcesFirst(succ, order, k)
    ensures LaidAt(succ, slots, jumps, base) && pos == base + |succ| + |jumps|
  {
    hide Lists, SourcesFirst, LooseChains, IsLayout, Fills, Fewest;
    ghost var chains;
    slots, jumps, pos, chains := LayFrom(succ, order, k, base);
    LooseFewest(succ, chains, |jumps|);
    LaidSize(succ, slots, jumps, base, pos);
  }

  lemma LaidSize<N>(succ: map<N, Option<N>>, slots: map<N, int>, jumps: map<int, N>, base: int, pos: int)
    requires IsLayout(succ, slots, jumps) && Fills(slots, jumps, base, pos)
    ensures pos == base + |succ| + |jumps|
  {
    assert |slots.Keys| == |slots| && |succ.Keys| == |succ|;
  }

  lemma LaidFewest<N(!new)>(succ: map<N, Option<N>>, slots: map<N, int>, jumps: map<int, N>, base: int)
    requires LaidAt(succ, slots, jumps, base)
    ensures Fewest(succ, |jumps|)
  {
  }

  lemma SameFewest<N(!new)>(succ: map<N, Option<N>>, slots: map<N, int>, jumps: map<int, N>, base: int,
      slots': map<N, int>, jumps': map<int, N>, base': int)
    requires LaidAt(succ, slots, jumps, base) && LaidAt(succ, slots', jumps', base')
    ensures |jumps| == |jumps'|
  {
    hide IsLayout, Fills;
  }

  lemma SelectedFirst<N>(succ: map<N, Option<N>>, nodes: seq<N>, led: map<N, nat>)
    requires Lists(nodes, succ.Keys) && forall n :: n in led <==> !IsSource(succ, n)
    ensures var a, b := Select(nodes, led, false), Select(nodes, led, true);
            Lists(a + b, succ.Keys) && SourcesFirst(succ, a + b, |a|)
  {
    var a, b := Select(nodes, led, false), Select(nodes, led, true);
    forall j {:trigger (a + b)[j]} | 0 <= j < |a + b|
      ensures (a + b)[j] in succ.Keys && (IsSource(succ, (a + b)[j]) <==> j < |a|)
    {
      var n := (a + b)[j];
      if j < |a| {
        assert n == a[j] && n in a;
      } else {
        assert n == b[j - |a|] && n in b;
      }
      Selected(nodes, led, j >= |a|, n);
      var i :| 0 <= i < |nodes| && nodes[i] == n;
    }
    forall n | n in succ.Keys ensures n in a + b {
      Selected(nodes, led, n in led, n);
    }
  }
}
