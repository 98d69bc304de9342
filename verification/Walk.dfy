/** `mos6502.walk_calls`: a depth-first search of the code for a call target. */
module Walk {
  import opened Options

  const OP_JSR := 0x20
  const OP_JMP := 0x4C
  const RETURNS: set<int> := {0x00, 0x40, 0x60, 0x6C}

  /** Memory and the instruction lengths by opcode. */
  datatype Code = Code(peek: int -> int, length: int -> int) {
    ghost predicate Valid() {
      && (forall a :: 0 <= peek(a) < 256)
      && forall op :: 1 <= length(op) <= 3
    }

    function Word(a: int): int {
      peek(a) + 256 * peek(a + 1)
    }

    function After(a: int): int {
      (a + length(peek(a))) % 0x1_0000
    }

    /** Where the code at `a` goes on: the jump's target, the called routine and the return site, the
        next instruction, or nowhere. */
    function Next(a: int): set<int> {
      if peek(a) == OP_JMP then {Word(a + 1)}
      else if peek(a) == OP_JSR then {Word(a + 1), After(a)}
      else if peek(a) in RETURNS then {}
      else {After(a)}
    }
  }

  /** A word is two bytes, the low one first. */
  lemma WordIs(code: Code, a: int)
    requires code.Valid() && code.peek(a) < 256 && code.peek(a + 1) < 256
    ensures 0 <= code.Word(a) < 0x1_0000 && code.Word(a) % 256 == code.peek(a) && code.Word(a) / 256 == code.peek(a + 1)
  {
  }

  /** Code goes on at the target of a `JMP` (`$4C`); at the routine a `JSR` (`$20`) calls and after it; nowhere
      from `BRK`, `RTI`, `RTS` and an indirect `JMP` (`$00`, `$40`, `$60`, `$6C`); and after any other
      instruction, from the top of memory at its bottom. */
  lemma NextIs(code: Code, a: int, x: int)
    requires code.Valid() && 0 <= a < 0x1_0000
    ensures var op, length := code.peek(a), code.length(code.peek(a));
      var after := if a + length < 0x1_0000 then a + length else a + length - 0x1_0000;
      x in code.Next(a) <==>
        || ((op == 0x4C || op == 0x20) && x == code.Word(a + 1))
        || (x == after && op != 0x4C && op != 0x00 && op != 0x40 && op != 0x60 && op != 0x6C)
  {
  }

  predicate IsAddress(a: int) {
    0 <= a < 0x1_0000
  }

  function Addresses(): set<int> {
    set a | 0 <= a < 0x1_0000 && IsAddress(a)
  }

  ghost predicate Path(code: Code, p: seq<int>) {
    p != [] && forall i, j :: 0 <= i && j == i + 1 < |p| ==> p[j] in code.Next(p[i])
  }

  ghost predicate Reaches(code: Code, a: int, b: int) {
    exists p :: Path(code, p) && p[0] == a && p[|p| - 1] == b
  }

  // ----- the first target, depth first

  predicate Distinct(p: seq<int>) {
    forall i, j :: 0 <= i < j < |p| ==> p[i] != p[j]
  }

  predicate Avoids(p: seq<int>, taken: seq<int>) {
    forall i {:trigger p[i]} :: 0 <= i < |p| ==> p[i] !in taken
  }

  /** No target is reached from `a` around the nodes taken. */
  ghost predicate Blocked(code: Code, targets: set<int>, taken: seq<int>, a: int) {
    forall q {:trigger Path(code, q)} :: Path(code, q) && q[0] == a && Avoids(q, taken) ==> q[|q| - 1] !in targets
  }

  /** Past a called routine the way goes on only where the routine reaches no target around the way to
      it. */
  ghost predicate Justified(code: Code, targets: set<int>, taken: seq<int>, p: seq<int>) {
    forall k {:trigger p[k]} :: 0 <= k < |p| - 1 ==>
      code.peek(p[k]) == OP_JSR && p[k + 1] != code.Word(p[k] + 1) ==>
        Blocked(code, targets, taken + p[..k + 1], code.Word(p[k] + 1))
  }

  /** The first way to a target, depth first, around the nodes taken: through called routines first, and
      no further than the first target on it. */
  ghost predicate FirstWay(code: Code, targets: set<int>, taken: seq<int>, p: seq<int>) {
    && Path(code, p) && Distinct(p) && Avoids(p, taken) && Justified(code, targets, taken, p)
    && p[|p| - 1] in targets && forall i {:trigger p[i]} :: 0 <= i < |p| - 1 ==> p[i] !in targets
  }

  /** There is only one. */
  lemma FirstIsUnique(code: Code, targets: set<int>, p: seq<int>, q: seq<int>)
    requires FirstWay(code, targets, [], p) && FirstWay(code, targets, [], q) && p[0] == q[0]
    ensures p == q
  {
    hide Path, Distinct, Avoids, Justified;
    FirstNonEmpty(code, targets, [], p);
    FirstNonEmpty(code, targets, [], q);
    var n := if |p| < |q| then |p| else |q|;
    SamePrefix(code, targets, p, q, n);
    assert p[..n][n - 1] == p[n - 1] && q[..n][n - 1] == q[n - 1];
    assert |p| == |q|;
    assert p[..n] == p && q[..n] == q;
  }

  lemma {:induction false} SamePrefix(code: Code, targets: set<int>, p: seq<int>, q: seq<int>, n: nat)
    requires FirstWay(code, targets, [], p) && FirstWay(code, targets, [], q) && p[0] == q[0]
    requires n <= |p| && n <= |q|
    ensures p[..n] == q[..n]
  {
    hide FirstWay;
    if n <= 1 {
      assert n == 1 ==> p[..1] == [p[0]] && q[..1] == [q[0]];
    } else {
      SamePrefix(code, targets, p, q, n - 1);
      SameStep(code, targets, p, q, n - 2);
      assert p[..n] == p[..n - 1] + [p[n - 1]] && q[..n] == q[..n - 1] + [q[n - 1]];
    }
  }

  /** Two ways alike up to a node go on alike. */
  lemma SameStep(code: Code, targets: set<int>, p: seq<int>, q: seq<int>, k: nat)
    requires FirstWay(code, targets, [], p) && FirstWay(code, targets, [], q)
    requires k + 1 < |p| && k + 1 < |q| && p[..k + 1] == q[..k + 1]
    ensures p[k + 1] == q[k + 1]
  {
    assert p[..k + 1][k] == p[k] && q[..k + 1][k] == q[k];
    NotPastIt(code, targets, p, q, k);
    NotPastIt(code, targets, q, p, k);
    WayParts(code, targets, p);
    WayParts(code, targets, q);
    hide FirstWay;
    NextOf(code, p, k);
    NextOf(code, q, k);
  }

  lemma NextOf(code: Code, p: seq<int>, k: nat)
    requires Path(code, p) && k + 1 < |p|
    ensures p[k + 1] in code.Next(p[k])
  {
  }

  /** Where one way goes into a called routine, another does not go past it. */
  lemma NotPastIt(code: Code, targets: set<int>, p: seq<int>, q: seq<int>, k: nat)
    requires FirstWay(code, targets, [], p) && FirstWay(code, targets, [], q)
    requires k + 1 < |p| && k + 1 < |q| && p[..k + 1] == q[..k + 1] && p[k] == q[k]
    ensures code.peek(p[k]) == OP_JSR && p[k + 1] == code.Word(p[k] + 1) ==> q[k + 1] == p[k + 1]
  {
    hide FirstWay;
    WayParts(code, targets, p);
    WayParts(code, targets, q);
    if code.peek(p[k]) == OP_JSR && p[k + 1] == code.Word(p[k] + 1) {
      PathRest(code, p, k + 1);
      var rest := p[k + 1..];
      assert [] + q[..k + 1] == p[..k + 1];
      RestAvoids(p, k + 1);
      assert rest[|rest| - 1] == p[|p| - 1];
      assert !Blocked(code, targets, p[..k + 1], p[k + 1]);
      assert q[k] == q[k];
    }
  }

  lemma WayParts(code: Code, targets: set<int>, p: seq<int>)
    requires FirstWay(code, targets, [], p)
    ensures Path(code, p) && Distinct(p) && Justified(code, targets, [], p) && p[|p| - 1] in targets
  {
  }

  lemma PathRest(code: Code, p: seq<int>, k: nat)
    requires Path(code, p) && k < |p|
    ensures Path(code, p[k..])
  {
  }

  lemma RestAvoids(p: seq<int>, k: nat)
    requires Distinct(p) && k <= |p|
    ensures Avoids(p[k..], p[..k])
  {
    var rest := p[k..];
    forall i {:trigger rest[i]} | 0 <= i < |rest| ensures rest[i] !in p[..k] {
      assert rest[i] == p[k + i];
    }
  }

  // ----- the walk

  /** The shared set of the addresses walked, grown by every walk in progress. */
  class Visited {
    var pcs: set<int>

    constructor ()
      ensures pcs == {}
    {
      pcs := {};
    }
  }

  /** A walked node off the way is no target and leads on only to walked nodes. */
  ghost predicate Explored(code: Code, targets: set<int>, seen: set<int>, way: seq<int>) {
    forall n {:trigger n in seen} :: n in seen && n !in way ==> n !in targets && code.Next(n) <= seen
  }

  lemma ExploredNode(code: Code, targets: set<int>, seen: set<int>, way: seq<int>, n: int)
    requires Explored(code, targets, seen, way) && n in seen && n !in way
    ensures n !in targets && code.Next(n) <= seen
  {
  }

  /** From such a node no target is reached around the way. */
  lemma {:induction false} ExploredBlocks(code: Code, targets: set<int>, seen: set<int>, way: seq<int>, q: seq<int>)
    requires Explored(code, targets, seen, way) && Path(code, q) && q[0] in seen && Avoids(q, way)
    ensures q[|q| - 1] in seen && q[|q| - 1] !in targets
    decreases |q|
  {
    ExploredNode(code, targets, seen, way, q[0]);
    if |q| > 1 {
      hide Explored;
      PathRest(code, q, 1);
      NextOf(code, q, 0);
      var rest := q[1..];
      assert forall i {:trigger rest[i]} :: 0 <= i < |rest| ==> rest[i] == q[i + 1];
      ExploredBlocks(code, targets, seen, way, rest);
    }
  }

  /** What a call keeps of the way it has walked so far, about to walk `at`: a path, with nothing left to
      find beside it. */
  ghost predicate OnWay(code: Code, targets: set<int>, taken: seq<int>, way: seq<int>, at: int, seen: set<int>) {
    && Path(code, way + [at]) && Distinct(way) && Avoids(way, taken) && Justified(code, targets, taken, way + [at])
    && (forall i {:trigger way[i]} :: 0 <= i < |way| ==>
          way[i] in seen && way[i] !in targets && code.Next(way[i]) <= seen + {at})
    && Explored(code, targets, seen, taken + way)
  }

  lemma StartsWay(code: Code, targets: set<int>, taken: seq<int>, at: int, seen: set<int>)
    requires Explored(code, targets, seen, taken)
    ensures OnWay(code, targets, taken, [], at, seen)
  {
    assert taken + [] == taken && [] + [at] == [at];
  }

  /** A target at the end of the way makes it the first. */
  lemma WayEnds(code: Code, targets: set<int>, taken: seq<int>, way: seq<int>, at: int, seen: set<int>)
    requires OnWay(code, targets, taken, way, at, seen) && at in targets && at !in seen
    requires forall t :: t in taken ==> t in seen
    ensures FirstWay(code, targets, taken, way + [at])
  {
    hide Path, Justified, Explored;
    var p := way + [at];
    forall i {:trigger p[i]} | 0 <= i < |p| - 1 ensures p[i] == way[i] {
    }
    forall i, j | 0 <= i < j < |p| ensures p[i] != p[j] {
    }
  }

  /** A walk that ends leaves its way explored. */
  lemma WayExplored(code: Code, targets: set<int>, taken: seq<int>, way: seq<int>, at: int, seen: set<int>)
    requires OnWay(code, targets, taken, way, at, seen) && at in seen
    ensures Explored(code, targets, seen, taken)
  {
    forall n {:trigger n in seen} | n in seen && n !in taken ensures n !in targets && code.Next(n) <= seen {
      if n in way {
        var i :| 0 <= i < |way| && way[i] == n;
        assert code.Next(way[i]) <= seen + {at};
      }
    }
  }

  /** One step on: the node is on the way, its called routine, if any, has been walked, and the walk goes
      on at `next`. */
  lemma WayGrows(code: Code, targets: set<int>, taken: seq<int>, way: seq<int>, at: int, seen: set<int>, more: set<int>,
      next: int)
    requires OnWay(code, targets, taken, way, at, seen) && at !in seen && at !in targets
    requires forall t :: t in taken ==> t in seen
    requires seen + {at} <= more && Explored(code, targets, more, taken + (way + [at]))
    requires next in code.Next(at) && code.Next(at) <= more + {next}
    requires code.peek(at) == OP_JSR ==> code.Word(at + 1) in more
    ensures OnWay(code, targets, taken, way + [at], next, more)
  {
    hide Explored;
    var now := way + [at];
    forall i {:trigger now[i]} | 0 <= i < |now| ensures
      now[i] in more && now[i] !in targets && code.Next(now[i]) <= more + {next} && now[i] !in taken
    {
      if i < |way| {
        assert now[i] == way[i];
      }
    }
    forall i, j | 0 <= i < j < |now| ensures now[i] != now[j] {
      assert now[i] == way[i];
    }
    PathGrows(code, now, next);
    JustifiedGrows(code, targets, taken, way, at, more, next);
  }

  lemma PathGrows(code: Code, p: seq<int>, next: int)
    requires Path(code, p) && next in code.Next(p[|p| - 1])
    ensures Path(code, p + [next])
  {
  }

  lemma JustifiedGrows(code: Code, targets: set<int>, taken: seq<int>, way: seq<int>, at: int, more: set<int>,
        next: int)
    requires Justified(code, targets, taken, way + [at])
    requires Explored(code, targets, more, taken + (way + [at]))
    requires code.peek(at) == OP_JSR ==> code.Word(at + 1) in more
    ensures Justified(code, targets, taken, way + [at] + [next])
  {
    hide Explored, Blocked;
    var now, p := way + [at], way + [at] + [next];
    forall k {:trigger p[k]} | 0 <= k < |p| - 1 && code.peek(p[k]) == OP_JSR && p[k + 1] != code.Word(p[k] + 1)
      ensures Blocked(code, targets, taken + p[..k + 1], code.Word(p[k] + 1))
    {
      if k < |way| {
        assert now[k] == p[k] && now[k + 1] == p[k + 1] && now[..k + 1] == p[..k + 1];
      } else {
        assert p[..k + 1] == now;
        ExploredIsBlocked(code, targets, more, taken + now, code.Word(at + 1));
      }
    }
  }

  lemma ExploredIsBlocked(code: Code, targets: set<int>, seen: set<int>, way: seq<int>, a: int)
    requires Explored(code, targets, seen, way) && a in seen
    ensures Blocked(code, targets, way, a)
  {
    hide Explored, Avoids;
    forall q {:trigger Path(code, q)} | Path(code, q) && q[0] == a && Avoids(q, way) ensures q[|q| - 1] !in targets {
      ExploredBlocks(code, targets, seen, way, q);
    }
  }

  lemma MarkKeeps(code: Code, targets: set<int>, way: seq<int>, at: int, seen: set<int>)
    requires Explored(code, targets, seen, way)
    ensures Explored(code, targets, seen + {at}, way + [at])
  {
    forall n {:trigger n in seen + {at}} | n in seen + {at} && n !in way + [at]
      ensures n !in targets && code.Next(n) <= seen + {at}
    {
      assert (way + [at])[|way|] == at;
    }
  }

  /** A first way through a called routine goes on the way to it. */
  lemma WayJoins(code: Code, targets: set<int>, taken: seq<int>, way: seq<int>, at: int, seen: set<int>, p: seq<int>)
    requires OnWay(code, targets, taken, way, at, seen) && at !in seen && at !in targets
    requires forall t :: t in taken ==> t in seen
    requires code.peek(at) == OP_JSR && FirstWay(code, targets, taken + (way + [at]), p) && p[0] == code.Word(at + 1)
    ensures FirstWay(code, targets, taken, way + [at] + p)
  {
    hide Explored, Blocked, Justified, Path;
    FirstNonEmpty(code, targets, taken + (way + [at]), p);
    var now, all := way + [at], way + [at] + p;
    assert all[|all| - 1] == p[|p| - 1];
    forall i {:trigger all[i]} | 0 <= i < |all| ensures all[i] !in taken && (i < |all| - 1 ==> all[i] !in targets) {
      if i < |now| {
        assert all[i] == now[i];
        assert i < |way| ==> now[i] == way[i];
      } else {
        assert all[i] == p[i - |now|];
      }
    }
    JoinDistinct(taken, now, p, way, at, seen);
    JoinPath(code, now, p);
    JoinJustified(code, targets, taken, now, p);
  }

  lemma JoinDistinct(taken: seq<int>, now: seq<int>, p: seq<int>, way: seq<int>, at: int, seen: set<int>)
    requires now == way + [at] && Distinct(way) && (forall i {:trigger way[i]} :: 0 <= i < |way| ==> way[i] in seen)
    requires at !in seen && Distinct(p) && Avoids(p, taken + now)
    ensures Distinct(now + p)
  {
    var all := now + p;
    forall i, j | 0 <= i < j < |all| ensures all[i] != all[j] {
      if j < |now| {
        assert all[i] == way[i];
      } else if i < |now| {
        assert all[j] == p[j - |now|] && all[i] == now[i] && now[i] in taken + now;
      } else {
        assert all[j] == p[j - |now|] && all[i] == p[i - |now|];
      }
    }
  }

  lemma JoinPath(code: Code, now: seq<int>, p: seq<int>)
    requires Path(code, now) && Path(code, p) && p[0] in code.Next(now[|now| - 1])
    ensures Path(code, now + p)
  {
    var all := now + p;
    forall i, j | 0 <= i && j == i + 1 < |all| ensures all[j] in code.Next(all[i]) {
      if j < |now| {
        assert all[i] == now[i] && all[j] == now[j];
      } else if i < |now| {
        assert all[i] == now[|now| - 1] && all[j] == p[0];
      } else {
        assert all[i] == p[i - |now|] && all[j] == p[j - |now|];
      }
    }
  }

  lemma JoinJustified(code: Code, targets: set<int>, taken: seq<int>, now: seq<int>, p: seq<int>)
    requires Justified(code, targets, taken, now) && Justified(code, targets, taken + now, p)
    requires now != [] && p != [] && p[0] == code.Word(now[|now| - 1] + 1)
    ensures Justified(code, targets, taken, now + p)
  {
    hide Blocked;
    var all := now + p;
    forall k {:trigger all[k]} | 0 <= k < |all| - 1 && code.peek(all[k]) == OP_JSR &&
        all[k + 1] != code.Word(all[k] + 1)
      ensures Blocked(code, targets, taken + all[..k + 1], code.Word(all[k] + 1))
    {
      if k + 1 < |now| {
        assert all[k] == now[k] && all[k + 1] == now[k + 1] && all[..k + 1] == now[..k + 1];
      } else if k >= |now| {
        var m := k - |now|;
        assert all[k] == p[m] && all[k + 1] == p[m + 1];
        assert taken + all[..k + 1] == taken + now + p[..m + 1];
      }
    }
  }

  /** A walk sharing the visited set with the callers still in progress, whose ways to here are `taken`:
      it finds the first way to a target around them, or leaves nothing to find. */
  method WalkShared(code: Code, addr: int, targets: set<int>, seen: Visited, ghost taken: seq<int>)
      returns (found: Option<int>, ghost p: seq<int>)
    requires code.Valid() && 0 <= addr < 0x1_0000 && seen.pcs <= Addresses()
    requires Explored(code, targets, seen.pcs, taken) && forall t :: t in taken ==> t in seen.pcs
    modifies seen
    ensures old(seen.pcs) <= seen.pcs <= Addresses()
    ensures found.Some? ==> FirstWay(code, targets, taken, p) && p[0] == addr && p[|p| - 1] == found.value
    ensures found.None? ==> addr in seen.pcs && Explored(code, targets, seen.pcs, taken)
    decreases Addresses() - seen.pcs
  {
    hide OnWay, Explored, FirstWay, Addresses;
    var at := addr;
    ghost var way: seq<int> := [];
    p := [];
    StartsWay(code, targets, taken, at, seen.pcs);
    while at !in seen.pcs
      invariant 0 <= at < 0x1_0000 && (way + [at])[0] == addr && (way != [] ==> addr in seen.pcs)
      invariant old(seen.pcs) <= seen.pcs <= Addresses()
      invariant OnWay(code, targets, taken, way, at, seen.pcs)
      decreases Addresses() - seen.pcs
    {
      if at in targets {
        WayEnds(code, targets, taken, way, at, seen.pcs);
        return Some(at), way + [at];
      }
      InMemory(at);
      WayKept(code, targets, taken, way, at, seen.pcs);
      ghost var before := seen.pcs;
      seen.pcs := seen.pcs + {at};
      var op, target := code.peek(at), code.Word(at + 1);
      if op == OP_JMP {
        WayGrows(code, targets, taken, way, at, before, seen.pcs, target);
        at, way := target, way + [at];
        continue;
      }
      if op == OP_JSR {
        ghost var rest;
        found, rest := WalkShared(code, target, targets, seen, taken + (way + [at]));
        if found.Some? {
          WayJoins(code, targets, taken, way, at, before, rest);
          FirstNonEmpty(code, targets, taken + (way + [at]), rest);
          p := way + [at] + rest;
          return;
        }
      }
      if op in RETURNS {
        NoNext(code, targets, taken, way, at, before, seen.pcs);
        return None, [];
      }
      WayGrows(code, targets, taken, way, at, before, seen.pcs, code.After(at));
      at, way := code.After(at), way + [at];
    }
    WayExplored(code, targets, taken, way, at, seen.pcs);
    assert way == [] ==> at == addr;
    found := None;
  }

  lemma FirstNonEmpty(code: Code, targets: set<int>, taken: seq<int>, p: seq<int>)
    requires FirstWay(code, targets, taken, p)
    ensures p != []
  {
  }

  lemma WayKept(code: Code, targets: set<int>, taken: seq<int>, way: seq<int>, at: int, seen: set<int>)
    requires OnWay(code, targets, taken, way, at, seen)
    ensures Explored(code, targets, seen + {at}, taken + (way + [at]))
    ensures forall t :: t in way + [at] ==> t in seen + {at}
  {
    hide Explored;
    MarkKeeps(code, targets, taken + way, at, seen);
    assert taken + way + [at] == taken + (way + [at]);
    forall t | t in way + [at] ensures t in seen + {at} {
      if t != at {
        var i :| 0 <= i < |way + [at]| && (way + [at])[i] == t;
        assert way[i] == t;
      }
    }
  }

  /** The way ends at a return. */
  lemma NoNext(code: Code, targets: set<int>, taken: seq<int>, way: seq<int>, at: int, seen: set<int>, more: set<int>)
    requires OnWay(code, targets, taken, way, at, seen) && at !in targets && code.Next(at) == {}
    requires seen + {at} <= more && Explored(code, targets, more, taken + (way + [at]))
    ensures Explored(code, targets, more, taken)
  {
    forall n {:trigger n in more} | n in more && n !in taken ensures n !in targets && code.Next(n) <= more {
      if n in way {
        var i :| 0 <= i < |way| && way[i] == n;
        assert code.Next(way[i]) <= seen + {at};
      } else if n != at {
        assert n !in taken + (way + [at]);
      }
    }
  }

  lemma InMemory(a: int)
    requires 0 <= a < 0x1_0000
    ensures a in Addresses()
  {
    assert IsAddress(a);
  }

  /** A walk finds nothing exactly when no target is reachable; else it finds the one at the end of the
      first way to a target. */
  method WalkCalls(code: Code, addr: int, targets: set<int>) returns (found: Option<int>, ghost p: seq<int>)
    requires code.Valid() && 0 <= addr < 0x1_0000
    ensures found.None? <==> forall t :: t in targets ==> !Reaches(code, addr, t)
    ensures found.Some? ==> FirstWay(code, targets, [], p) && p[0] == addr && p[|p| - 1] == found.value
  {
    var seen := new Visited();
    found, p := WalkShared(code, addr, targets, seen, []);
    if found.None? {
      forall t | t in targets ensures !Reaches(code, addr, t) {
        forall q | Path(code, q) && q[0] == addr ensures q[|q| - 1] != t {
          ExploredBlocks(code, targets, seen.pcs, [], q);
        }
      }
    } else {
      assert Reaches(code, addr, found.value);
    }
  }

  // ----- trampolines

  /** Jump after jump from an address, none met twice before the last. */
  ghost predicate Trail(code: Code, addr: int, trail: seq<int>) {
    && trail != [] && trail[0] == addr
    && (forall i, j :: 0 <= i && j == i + 1 < |trail| ==> Jumps(code, trail[i], trail[j]))
    && forall i, j :: 0 <= i < j < |trail| - 1 ==> trail[i] != trail[j]
  }

  predicate Jumps(code: Code, a: int, b: int) {
    code.peek(a) == OP_JMP && b == code.Word(a + 1)
  }

  /** `follow_jmp`: the end of the chain of jumps at an address, or where the chain comes back to
      itself. */
  method FollowJmp(code: Code, addr: int) returns (end: int, ghost trail: seq<int>)
    requires code.Valid() && 0 <= addr < 0x1_0000
    ensures trail != [] && end == trail[|trail| - 1] && Trail(code, addr, trail)
    ensures code.peek(end) != OP_JMP || end in trail[..|trail| - 1]
  {
    hide Addresses, Trail;
    end, trail := addr, [addr];
    TrailStart(code, addr);
    var seen: set<int> := {};
    while code.peek(end) == OP_JMP && end !in seen
      invariant 0 <= end < 0x1_0000 && seen <= Addresses()
      invariant trail != [] && end == trail[|trail| - 1] && Trail(code, addr, trail)
      invariant forall a :: a in seen <==> a in trail[..|trail| - 1]
      decreases Addresses() - seen
    {
      InMemory(end);
      TrailOn(code, addr, trail);
      seen := seen + {end};
      ghost var was := trail;
      trail := trail + [code.Word(end + 1)];
      assert trail[..|trail| - 1] == was == was[..|was| - 1] + [end];
      end := code.Word(end + 1);
    }
  }

  lemma TrailStart(code: Code, addr: int)
    ensures Trail(code, addr, [addr])
  {
  }

  lemma TrailOn(code: Code, addr: int, trail: seq<int>)
    requires trail != [] && Trail(code, addr, trail) && code.peek(trail[|trail| - 1]) == OP_JMP
    requires trail[|trail| - 1] !in trail[..|trail| - 1]
    ensures Trail(code, addr, trail + [code.Word(trail[|trail| - 1] + 1)])
  {
    var n := |trail| - 1;
    var more := trail + [code.Word(trail[n] + 1)];
    forall i, j | 0 <= i && j == i + 1 < |more| ensures Jumps(code, more[i], more[j]) {
      if j < |trail| {
        assert more[i] == trail[i] && more[j] == trail[j];
      }
    }
    forall i, j | 0 <= i < j < |more| - 1 ensures more[i] != more[j] {
      assert more[i] == trail[i] && more[j] == trail[j] && trail[..n][i] == trail[i];
    }
    assert more[0] == addr;
  }
}
