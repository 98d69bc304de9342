/** `relevance.py`: the dynamic control parent of every executed step, from the post-dominators
    of a control-flow graph, by a stack of open branches.
 */
module Relevance {
  import opened Options

  // ----- control-flow graphs

  ghost predicate Path<N>(edges: set<(N, N)>, p: seq<N>, a: N, b: N) {
    && |p| > 0 && p[0] == a && p[|p| - 1] == b
    && forall i, j :: 0 <= i && j == i + 1 < |p| ==> (p[i], p[j]) in edges
  }

  ghost predicate Reaches<N(!new)>(edges: set<(N, N)>, a: N, b: N) {
    exists p :: Path(edges, p, a, b)
  }

  /** Every path from `n` to the exit goes through `j`. */
  ghost predicate PostDominates<N(!new)>(edges: set<(N, N)>, exit: N, j: N, n: N) {
    forall p :: Path(edges, p, n, exit) ==> j in p
  }

  /** `j` is the nearest of the nodes that post-dominate `n` strictly. */
  ghost predicate Immediate<N(!new)>(edges: set<(N, N)>, exit: N, n: N, j: N) {
    && j != n && PostDominates(edges, exit, j, n)
    && forall k :: k != n && PostDominates(edges, exit, k, n) ==> PostDominates(edges, exit, k, j)
  }

  /** What `postdominators` returns: the immediate post-dominators of the nodes that reach the exit. */
  ghost predicate TrueIpdom<N(!new)>(edges: set<(N, N)>, exit: N, ipdom: map<N, N>) {
    && (forall n :: n in ipdom <==> Reaches(edges, n, exit))
    && (exit in ipdom ==> ipdom[exit] == exit)
    && forall n :: n in ipdom && n != exit ==> Immediate(edges, exit, n, ipdom[n])
  }

  /** The immediate post-dominator of a node, the exit where none is known. */
  function Join<N>(ipdom: map<N, N>, exit: N, n: N): N {
    if n in ipdom then ipdom[n] else exit
  }

  lemma PathJoin<N>(edges: set<(N, N)>, p: seq<N>, q: seq<N>, a: N, b: N, c: N)
    requires Path(edges, p, a, b) && Path(edges, q, b, c)
    ensures Path(edges, p + q[1..], a, c)
  {
    var r := p + q[1..];
    forall i, j | 0 <= i && j == i + 1 < |r| ensures (r[i], r[j]) in edges {
      if j >= |p| {
        assert r[j] == q[j - |p| + 1];
        assert r[i] == q[i - |p| + 1];
      }
    }
  }

  lemma PathFrom<N>(edges: set<(N, N)>, p: seq<N>, a: N, b: N, k: nat)
    requires Path(edges, p, a, b) && k < |p|
    ensures Path(edges, p[k..], p[k], b)
  {
  }

  /** Two nodes that post-dominate each other are one. */
  lemma {:induction false} MutualPostDominators<N(!new)>(edges: set<(N, N)>, exit: N, x: N, y: N, p: seq<N>)
    requires Path(edges, p, x, exit)
    requires PostDominates(edges, exit, x, y) && PostDominates(edges, exit, y, x)
    ensures x == y
    decreases |p|
  {
    var k: nat :| k < |p| && p[k] == y;
    if k > 0 {
      PathFrom(edges, p, x, exit, k);
      var q := p[k..];
      var m: nat :| m < |q| && q[m] == x;
      PathFrom(edges, q, y, exit, m);
      MutualPostDominators(edges, exit, x, y, q[m..]);
    }
  }

  /** A node on every path on from `a`, not met on the way to `b`, is on every path on from `b`. */
  lemma PostDominatesOn<N(!new)>(edges: set<(N, N)>, exit: N, j: N, a: N, b: N, p: seq<N>)
    requires Path(edges, p, a, b) && PostDominates(edges, exit, j, a) && j !in p[1..]
    requires j == a ==> a == exit
    ensures PostDominates(edges, exit, j, b)
  {
    forall q | Path(edges, q, b, exit) ensures j in q {
      PathJoin(edges, p, q, a, b, exit);
      var r := p + q[1..];
      assert j in r;
      assert r == [a] + p[1..] + q[1..];
    }
  }

  lemma JoinReaches<N(!new)>(edges: set<(N, N)>, exit: N, ipdom: map<N, N>, n: N)
    requires TrueIpdom(edges, exit, ipdom) && n in ipdom
    ensures Reaches(edges, ipdom[n], exit) && PostDominates(edges, exit, ipdom[n], n)
  {
    var p :| Path(edges, p, n, exit);
    assert ipdom[n] in p;
    var k: nat :| k < |p| && p[k] == ipdom[n];
    PathFrom(edges, p, n, exit, k);
  }

  /** A branch run inside another's region joins no later: going on from the inner branch, the outer
      join is not met before the inner one unless they are the same. */
  lemma RegionsNest<N(!new)>(edges: set<(N, N)>, exit: N, ipdom: map<N, N>, a: N, b: N, p: seq<N>, q: seq<N>)
    requires TrueIpdom(edges, exit, ipdom)
    requires Path(edges, p, a, b) && Join(ipdom, exit, a) !in p[1..]
    requires Path(edges, q, b, Join(ipdom, exit, a)) && Join(ipdom, exit, b) !in q[1..]
    ensures Join(ipdom, exit, a) == Join(ipdom, exit, b)
  {
    var ja, jb := Join(ipdom, exit, a), Join(ipdom, exit, b);
    if a in ipdom {
      JoinReaches(edges, exit, ipdom, a);
      var r :| Path(edges, r, ja, exit);
      PathJoin(edges, q, r, b, ja, exit);
      assert b in ipdom;
      JoinReaches(edges, exit, ipdom, b);
      PostDominatesOn(edges, exit, ja, a, b, p);
      if b != exit && ja != b {
        PostDominatesOn(edges, exit, jb, b, ja, q);
        MutualPostDominators(edges, exit, ja, jb, r);
      } else if b == exit {
        assert Path(edges, [exit], exit, exit);
      }
    } else {
      ReachesBack(edges, p, a, b, exit);
    }
  }

  lemma ReachesBack<N(!new)>(edges: set<(N, N)>, p: seq<N>, a: N, b: N, exit: N)
    requires Path(edges, p, a, b)
    ensures Reaches(edges, b, exit) ==> Reaches(edges, a, exit)
  {
    forall q | Path(edges, q, b, exit) ensures Reaches(edges, a, exit) {
      PathJoin(edges, p, q, a, b, exit);
    }
  }

  // ----- runs

  /** The executed steps: their graph node if any, their call depth, and which return from it. */
  datatype Trace<N> = Trace(nodes: seq<Option<N>>, depth: seq<int>, leave: seq<bool>) {
    ghost predicate Valid() {
      |nodes| == |depth| == |leave|
    }
  }

  /** From step `i` up to step `j` the run stays in calls made at depth `d`, and none returns. */
  ghost predicate SameCall<N>(t: Trace<N>, i: int, j: int, d: int)
    requires t.Valid()
  {
    && 0 <= i <= j < |t.nodes|
    && (forall x {:trigger t.leave[x]} :: i <= x < j ==> !(t.leave[x] && t.depth[x] <= d))
    && (forall x {:trigger t.depth[x]} :: i < x <= j ==> t.depth[x] >= d)
  }

  ghost predicate At<N>(t: Trace<N>, x: int, d: int)
    requires t.Valid()
  {
    0 <= x < |t.nodes| && t.nodes[x].Some? && t.depth[x] == d
  }

  /** The graph holds an edge for every two consecutive steps of one call. */
  ghost predicate Executed<N>(t: Trace<N>, edges: set<(N, N)>)
    requires t.Valid()
  {
    forall i, j, d :: (i < j && SameCall(t, i, j, d) && At(t, i, d) && At(t, j, d)
                       && (forall x :: i < x < j ==> !At(t, x, d)))
                      ==> (t.nodes[i].value, t.nodes[j].value) in edges
  }

  /** The branch at step `b` is open at step `i`: its call goes on and its join was not met. */
  ghost predicate OpenAt<N>(t: Trace<N>, ipdom: map<N, N>, exit: N, branches: set<N>, b: int, i: int)
    requires t.Valid()
  {
    && 0 <= b < i < |t.nodes| && t.nodes[b].Some? && t.nodes[b].value in branches
    && SameCall(t, b, i, t.depth[b])
    && forall x {:trigger t.nodes[x]} :: b < x <= i ==>
         !(t.depth[x] == t.depth[b] && t.nodes[x] == Some(Join(ipdom, exit, t.nodes[b].value)))
  }

  /** The dynamic control parent: the most recent open branch, -1 none. */
  ghost predicate IsParent<N>(t: Trace<N>, ipdom: map<N, N>, exit: N, branches: set<N>, i: int, parent: int)
    requires t.Valid()
  {
    && (parent == -1 || OpenAt(t, ipdom, exit, branches, parent, i))
    && forall b :: OpenAt(t, ipdom, exit, branches, b, i) ==> b <= parent
  }

  /** The nodes a call runs through from step `b` to step `j` are a path of the graph. */
  lemma {:induction false} CallPath<N(!new)>(t: Trace<N>, edges: set<(N, N)>, b: int, j: int, d: int)
        returns (p: seq<N>)
    requires t.Valid() && Executed(t, edges) && SameCall(t, b, j, d) && At(t, b, d) && At(t, j, d)
    ensures Path(edges, p, t.nodes[b].value, t.nodes[j].value)
    ensures forall n :: n in p[1..] ==> exists x :: b < x <= j && At(t, x, d) && t.nodes[x].value == n
    decreases j - b
  {
    if b == j {
      p := [t.nodes[b].value];
    } else {
      var x := LastAt(t, b, j, d);
      var q := CallPath(t, edges, b, x, d);
      assert (t.nodes[x].value, t.nodes[j].value) in edges by {
        assert SameCall(t, x, j, d);
      }
      p := q + [t.nodes[j].value];
      forall n | n in p[1..] ensures exists x :: b < x <= j && At(t, x, d) && t.nodes[x].value == n {
        if n in q[1..] {
          var y :| b < y <= x && At(t, y, d) && t.nodes[y].value == n;
        } else {
          assert At(t, j, d) && t.nodes[j].value == n;
        }
      }
    }
  }

  lemma LastAt<N>(t: Trace<N>, b: int, j: int, d: int) returns (x: int)
    requires t.Valid() && b < j && At(t, b, d)
    ensures b <= x < j && At(t, x, d) && forall y :: x < y < j ==> !At(t, y, d)
    decreases j - b
  {
    if At(t, j - 1, d) || j - 1 == b {
      x := j - 1;
    } else {
      x := LastAt(t, b, j - 1, d);
    }
  }

  /** A branch and, once run inside its region, another with a different join: the outer join is
      not met while the inner one is open. */
  lemma OuterJoinWaits<N(!new)>(t: Trace<N>, edges: set<(N, N)>, ipdom: map<N, N>, exit: N, branches: set<N>,
      a: int, b: int, i: int)
    requires t.Valid() && Executed(t, edges) && TrueIpdom(edges, exit, ipdom) && a < b < i < |t.nodes|
    requires OpenBefore(t, ipdom, exit, branches, a, i) && OpenBefore(t, ipdom, exit, branches, b, i)
    requires t.depth[a] == t.depth[b] == t.depth[i]
    requires t.nodes[i] == Some(Join(ipdom, exit, t.nodes[a].value))
    ensures Join(ipdom, exit, t.nodes[a].value) == Join(ipdom, exit, t.nodes[b].value)
  {
    var d := t.depth[i];
    var ja, jb := Join(ipdom, exit, t.nodes[a].value), Join(ipdom, exit, t.nodes[b].value);
    assert SameCall(t, a, b, d) && SameCall(t, b, i, d);
    var p := CallPath(t, edges, a, b, d);
    var q := CallPath(t, edges, b, i, d);
    forall n | n in p[1..] ensures n != ja {
      var x :| a < x <= b && At(t, x, d) && t.nodes[x].value == n;
    }
    forall n | n in q[1..] ensures n == jb ==> ja == jb {
      var x :| b < x <= i && At(t, x, d) && t.nodes[x].value == n;
    }
    if ja != jb {
      RegionsNest(edges, exit, ipdom, t.nodes[a].value, t.nodes[b].value, p, q);
    }
  }

  // ----- the stack

  /** The branch at step `b` is still open when step `i` comes. */
  ghost predicate OpenBefore<N>(t: Trace<N>, ipdom: map<N, N>, exit: N, branches: set<N>, b: int, i: int)
    requires t.Valid()
  {
    && 0 <= b < i <= |t.nodes| && t.nodes[b].Some? && t.nodes[b].value in branches
    && (forall x {:trigger t.leave[x]} :: b <= x < i ==> !(t.leave[x] && t.depth[x] <= t.depth[b]))
    && (forall x {:trigger t.depth[x]} :: b < x < i ==> t.depth[x] >= t.depth[b])
    && forall x {:trigger t.nodes[x]} :: b < x < i ==>
         !(t.depth[x] == t.depth[b] && t.nodes[x] == Some(Join(ipdom, exit, t.nodes[b].value)))
  }

  lemma OpenAtStep<N>(t: Trace<N>, ipdom: map<N, N>, exit: N, branches: set<N>, b: int, i: int)
    requires t.Valid() && i < |t.nodes|
    ensures OpenAt(t, ipdom, exit, branches, b, i) <==>
      && OpenBefore(t, ipdom, exit, branches, b, i) && t.depth[i] >= t.depth[b]
      && !(t.depth[i] == t.depth[b] && t.nodes[i] == Some(Join(ipdom, exit, t.nodes[b].value)))
  {
  }

  lemma OpenNextStep<N>(t: Trace<N>, ipdom: map<N, N>, exit: N, branches: set<N>, b: int, i: int)
    requires t.Valid() && 0 <= b <= i < |t.nodes|
    ensures b < i ==> (OpenBefore(t, ipdom, exit, branches, b, i + 1) <==>
      OpenAt(t, ipdom, exit, branches, b, i) && !(t.leave[i] && t.depth[i] <= t.depth[b]))
    ensures b == i ==> (OpenBefore(t, ipdom, exit, branches, b, i + 1) <==>
      t.nodes[i].Some? && t.nodes[i].value in branches && !t.leave[i])
  {
  }

  datatype Entry<N> = Entry(step: int, join: N, depth: int)

  ghost predicate EntryOf<N>(t: Trace<N>, ipdom: map<N, N>, exit: N, e: Entry<N>, b: int)
    requires t.Valid()
  {
    && 0 <= b < |t.nodes| && t.nodes[b].Some?
    && e.join == Join(ipdom, exit, t.nodes[b].value) && e.depth == t.depth[b]
  }

  ghost predicate Sorted<N>(stack: seq<Entry<N>>) {
    forall k, l :: 0 <= k < l < |stack| ==> stack[k].step < stack[l].step && stack[k].depth <= stack[l].depth
  }

  /** A branch's join and depth are on the stack, from that branch or a later one. */
  ghost predicate Held<N>(t: Trace<N>, ipdom: map<N, N>, exit: N, stack: seq<Entry<N>>, b: int)
    requires t.Valid()
  {
    exists k :: 0 <= k < |stack| && stack[k].step >= b && EntryOf(t, ipdom, exit, stack[k], b)
  }

  /** Before step `i` the stack holds open branches only, and every open branch is held. */
  ghost predicate StackBefore<N>(t: Trace<N>, ipdom: map<N, N>, exit: N, branches: set<N>, stack: seq<Entry<N>>, i: int)
    requires t.Valid()
  {
    && Sorted(stack)
    && (forall k :: 0 <= k < |stack| ==>
          OpenBefore(t, ipdom, exit, branches, stack[k].step, i) && EntryOf(t, ipdom, exit, stack[k], stack[k].step))
    && forall b {:trigger Held(t, ipdom, exit, stack, b)} ::
         OpenBefore(t, ipdom, exit, branches, b, i) ==> Held(t, ipdom, exit, stack, b)
  }

  /** The same at step `i`, once the joins met and calls left are popped. */
  ghost predicate StackAt<N>(t: Trace<N>, ipdom: map<N, N>, exit: N, branches: set<N>, stack: seq<Entry<N>>, i: int)
    requires t.Valid()
  {
    && Sorted(stack)
    && (forall k :: 0 <= k < |stack| ==>
          OpenAt(t, ipdom, exit, branches, stack[k].step, i) && EntryOf(t, ipdom, exit, stack[k], stack[k].step))
    && forall b {:trigger Held(t, ipdom, exit, stack, b)} ::
         OpenAt(t, ipdom, exit, branches, b, i) ==> Held(t, ipdom, exit, stack, b)
  }

  /** An entry step `i` closes: its call was left, or its join met. */
  predicate Closes<N(==)>(e: Entry<N>, node: Option<N>, d: int) {
    e.depth > d || (Some(e.join) == node && e.depth == d)
  }

  lemma BelowOpen<N(!new)>(t: Trace<N>, edges: set<(N, N)>, ipdom: map<N, N>, exit: N, branches: set<N>,
      stack: seq<Entry<N>>, n: nat, k: nat, i: int)
    requires t.Valid() && Executed(t, edges) && TrueIpdom(edges, exit, ipdom) && 0 <= i < |t.nodes|
    requires StackBefore(t, ipdom, exit, branches, stack, i) && k < n <= |stack|
    requires !Closes(stack[n - 1], t.nodes[i], t.depth[i])
    ensures !Closes(stack[k], t.nodes[i], t.depth[i])
  {
    var e, top := stack[k], stack[n - 1];
    if Closes(e, t.nodes[i], t.depth[i]) && k < n - 1 {
      assert e.depth <= top.depth;
      OuterJoinWaits(t, edges, ipdom, exit, branches, e.step, top.step, i);
    }
  }

  lemma EntryStays<N>(t: Trace<N>, ipdom: map<N, N>, exit: N, branches: set<N>, e: Entry<N>, b: int, i: int)
    requires t.Valid() && 0 <= i < |t.nodes| && EntryOf(t, ipdom, exit, e, b)
    ensures OpenAt(t, ipdom, exit, branches, b, i) <==>
      OpenBefore(t, ipdom, exit, branches, b, i) && !Closes(e, t.nodes[i], t.depth[i])
  {
    OpenAtStep(t, ipdom, exit, branches, b, i);
  }

  /** Testing the top alone is enough: below an open top everything is open. */
  lemma PoppedEnough<N(!new)>(t: Trace<N>, edges: set<(N, N)>, ipdom: map<N, N>, exit: N, branches: set<N>,
      stack: seq<Entry<N>>, n: nat, i: int)
    requires t.Valid() && Executed(t, edges) && TrueIpdom(edges, exit, ipdom) && 0 <= i < |t.nodes|
    requires StackBefore(t, ipdom, exit, branches, stack, i) && n <= |stack|
    requires n > 0 ==> !Closes(stack[n - 1], t.nodes[i], t.depth[i])
    requires forall k {:trigger stack[k]} :: n <= k < |stack| ==> Closes(stack[k], t.nodes[i], t.depth[i])
    ensures StackAt(t, ipdom, exit, branches, stack[..n], i)
  {
    hide OpenAt, OpenBefore, Closes, Executed, TrueIpdom, EntryOf;
    forall k: nat | k < n
      ensures OpenAt(t, ipdom, exit, branches, stack[k].step, i) && EntryOf(t, ipdom, exit, stack[k], stack[k].step)
    {
      BelowOpen(t, edges, ipdom, exit, branches, stack, n, k, i);
      EntryStays(t, ipdom, exit, branches, stack[k], stack[k].step, i);
    }
    forall b | OpenAt(t, ipdom, exit, branches, b, i) ensures Held(t, ipdom, exit, stack[..n], b) {
      OpenWasOpen(t, ipdom, exit, branches, b, i);
      assert Held(t, ipdom, exit, stack, b);
      var k :| 0 <= k < |stack| && stack[k].step >= b && EntryOf(t, ipdom, exit, stack[k], b);
      EntryStays(t, ipdom, exit, branches, stack[k], b, i);
      assert stack[..n][k] == stack[k];
    }
  }

  lemma OpenWasOpen<N>(t: Trace<N>, ipdom: map<N, N>, exit: N, branches: set<N>, b: int, i: int)
    requires t.Valid() && OpenAt(t, ipdom, exit, branches, b, i)
    ensures OpenBefore(t, ipdom, exit, branches, b, i)
  {
  }

  /** The top of the stack is the control parent. */
  lemma TopIsParent<N>(t: Trace<N>, ipdom: map<N, N>, exit: N, branches: set<N>, stack: seq<Entry<N>>, i: int)
    requires t.Valid() && StackAt(t, ipdom, exit, branches, stack, i)
    ensures IsParent(t, ipdom, exit, branches, i, if stack == [] then -1 else stack[|stack| - 1].step)
  {
    hide OpenAt, EntryOf;
    forall b | OpenAt(t, ipdom, exit, branches, b, i) ensures stack != [] && b <= stack[|stack| - 1].step {
      assert Held(t, ipdom, exit, stack, b);
    }
  }

  /** The step's own branch goes on top, over an entry it re-runs. */
  function Pushed<N(==)>(stack: seq<Entry<N>>, e: Entry<N>): seq<Entry<N>> {
    if stack != [] && stack[|stack| - 1].join == e.join && stack[|stack| - 1].depth == e.depth
    then stack[..|stack| - 1] + [e] else stack + [e]
  }

  function Opened<N(==)>(stack: seq<Entry<N>>, node: Option<N>, d: int, i: int,
      ipdom: map<N, N>, exit: N, branches: set<N>): seq<Entry<N>>
  {
    if node.Some? && node.value in branches then Pushed(stack, Entry(i, Join(ipdom, exit, node.value), d)) else stack
  }

  /** The first entries of the stack a return from depth `d` leaves. */
  predicate Leaves<N>(stack: seq<Entry<N>>, n: nat, back: bool, d: int)
    requires n <= |stack|
  {
    if back then (forall k {:trigger stack[k]} :: 0 <= k < |stack| ==> (k < n <==> stack[k].depth < d))
    else n == |stack|
  }

  lemma StepStack<N>(t: Trace<N>, ipdom: map<N, N>, exit: N, branches: set<N>, stack: seq<Entry<N>>, i: int, n: nat)
    requires t.Valid() && 0 <= i < |t.nodes| && StackAt(t, ipdom, exit, branches, stack, i)
    requires n <= |Opened(stack, t.nodes[i], t.depth[i], i, ipdom, exit, branches)|
    requires Leaves(Opened(stack, t.nodes[i], t.depth[i], i, ipdom, exit, branches), n, t.leave[i], t.depth[i])
    ensures StackBefore(t, ipdom, exit, branches,
                        Opened(stack, t.nodes[i], t.depth[i], i, ipdom, exit, branches)[..n], i + 1)
  {
    var next := Opened(stack, t.nodes[i], t.depth[i], i, ipdom, exit, branches);
    OpenedSorted(t, ipdom, exit, branches, stack, i);
    hide OpenAt, OpenBefore, Opened, EntryOf;
    forall b | OpenBefore(t, ipdom, exit, branches, b, i + 1) ensures Held(t, ipdom, exit, next, b) {
      OpenedHolds(t, ipdom, exit, branches, stack, b, i);
    }
    LeaveStack(t, ipdom, exit, branches, next, i, n);
  }

  lemma LeaveStack<N>(t: Trace<N>, ipdom: map<N, N>, exit: N, branches: set<N>, stack: seq<Entry<N>>, i: int, n: nat)
    requires t.Valid() && 0 <= i < |t.nodes| && n <= |stack| && Sorted(stack)
    requires forall e :: e in stack ==>
      && EntryOf(t, ipdom, exit, e, e.step) && 0 <= e.step <= i
      && ((e.step < i && OpenAt(t, ipdom, exit, branches, e.step, i))
          || (e.step == i && t.nodes[i].Some? && t.nodes[i].value in branches))
    requires forall b {:trigger Held(t, ipdom, exit, stack, b)} ::
      OpenBefore(t, ipdom, exit, branches, b, i + 1) ==> Held(t, ipdom, exit, stack, b)
    requires Leaves(stack, n, t.leave[i], t.depth[i])
    ensures StackBefore(t, ipdom, exit, branches, stack[..n], i + 1)
  {
    hide OpenAt, OpenBefore;
    forall k: nat | k < n
      ensures OpenBefore(t, ipdom, exit, branches, stack[k].step, i + 1) &&
          EntryOf(t, ipdom, exit, stack[k], stack[k].step)
    {
      var e := stack[k];
      assert e in stack && t.depth[e.step] == e.depth;
      OpenNextStep(t, ipdom, exit, branches, e.step, i);
    }
    forall b | OpenBefore(t, ipdom, exit, branches, b, i + 1) ensures Held(t, ipdom, exit, stack[..n], b) {
      assert Held(t, ipdom, exit, stack, b);
      var k :| 0 <= k < |stack| && stack[k].step >= b && EntryOf(t, ipdom, exit, stack[k], b);
      NotLeft(t, ipdom, exit, branches, b, i);
      assert stack[..n][k] == stack[k];
    }
  }

  lemma NotLeft<N>(t: Trace<N>, ipdom: map<N, N>, exit: N, branches: set<N>, b: int, i: int)
    requires t.Valid() && 0 <= i < |t.nodes| && OpenBefore(t, ipdom, exit, branches, b, i + 1)
    ensures t.leave[i] ==> t.depth[b] < t.depth[i]
  {
  }

  lemma OpenedSorted<N>(t: Trace<N>, ipdom: map<N, N>, exit: N, branches: set<N>, stack: seq<Entry<N>>, i: int)
    requires t.Valid() && 0 <= i < |t.nodes| && StackAt(t, ipdom, exit, branches, stack, i)
    ensures Sorted(Opened(stack, t.nodes[i], t.depth[i], i, ipdom, exit, branches))
    ensures forall e :: e in Opened(stack, t.nodes[i], t.depth[i], i, ipdom, exit, branches) ==>
      && EntryOf(t, ipdom, exit, e, e.step) && 0 <= e.step <= i
      && ((e.step < i && OpenAt(t, ipdom, exit, branches, e.step, i))
          || (e.step == i && t.nodes[i].Some? && t.nodes[i].value in branches))
  {
    hide OpenAt, Sorted, Pushed;
    forall k {:trigger stack[k]} | 0 <= k < |stack| ensures 0 <= stack[k].step < i && stack[k].depth <= t.depth[i] {
      OpenBounds(t, ipdom, exit, branches, stack[k].step, i);
    }
    if t.nodes[i].Some? {
      PushedSorted(stack, Entry(i, Join(ipdom, exit, t.nodes[i].value), t.depth[i]));
    }
  }

  lemma PushedSorted<N>(stack: seq<Entry<N>>, e: Entry<N>)
    requires Sorted(stack)
    requires forall k {:trigger stack[k]} :: 0 <= k < |stack| ==> stack[k].step < e.step && stack[k].depth <= e.depth
    ensures Sorted(Pushed(stack, e))
    ensures forall x :: x in Pushed(stack, e) ==> x in stack || x == e
  {
  }

  lemma OpenBounds<N>(t: Trace<N>, ipdom: map<N, N>, exit: N, branches: set<N>, b: int, i: int)
    requires t.Valid() && 0 <= i < |t.nodes| && OpenAt(t, ipdom, exit, branches, b, i)
    ensures 0 <= b < i && t.depth[b] <= t.depth[i]
  {
  }

  lemma OpenedHolds<N>(t: Trace<N>, ipdom: map<N, N>, exit: N, branches: set<N>, stack: seq<Entry<N>>, b: int, i: int)
    requires t.Valid() && 0 <= i < |t.nodes| && StackAt(t, ipdom, exit, branches, stack, i)
    requires OpenBefore(t, ipdom, exit, branches, b, i + 1)
    ensures Held(t, ipdom, exit, Opened(stack, t.nodes[i], t.depth[i], i, ipdom, exit, branches), b)
  {
    var next := Opened(stack, t.nodes[i], t.depth[i], i, ipdom, exit, branches);
    OpenNextStep(t, ipdom, exit, branches, b, i);
    if b == i {
      var k := |next| - 1;
      assert next[k] == Entry(i, Join(ipdom, exit, t.nodes[i].value), t.depth[i]);
      assert EntryOf(t, ipdom, exit, next[k], b);
    } else {
      assert Held(t, ipdom, exit, stack, b);
      var k :| 0 <= k < |stack| && stack[k].step >= b && EntryOf(t, ipdom, exit, stack[k], b);
      assert stack[k].step < i by { OpenAtStep(t, ipdom, exit, branches, stack[k].step, i); }
      assert EntryOf(t, ipdom, exit, next[k], b) && next[k].step >= b;
    }
  }

  /** Leaves what a step to `node` at depth `d` ends: the branches of deeper calls, and those of its own
      call that join at it. */
  method PopClosed<N(==)>(stack: seq<Entry<N>>, node: Option<N>, d: int) returns (rest: seq<Entry<N>>)
    ensures |rest| <= |stack| && rest == stack[..|rest|]
    ensures rest != [] ==> !Closes(rest[|rest| - 1], node, d)
    ensures forall k {:trigger stack[k]} :: |rest| <= k < |stack| ==> Closes(stack[k], node, d)
  {
    rest := stack;
    while rest != [] && Closes(rest[|rest| - 1], node, d)
      invariant |rest| <= |stack| && rest == stack[..|rest|]
      invariant forall k {:trigger stack[k]} :: |rest| <= k < |stack| ==> Closes(stack[k], node, d)
      decreases |rest|
    {
      rest := rest[..|rest| - 1];
    }
  }

  /** Leaves the branches of the call at depth `d` and of deeper ones. */
  method PopLeft<N>(stack: seq<Entry<N>>, d: int) returns (rest: seq<Entry<N>>)
    ensures |rest| <= |stack| && rest == stack[..|rest|]
    ensures rest != [] ==> rest[|rest| - 1].depth < d
    ensures forall k {:trigger stack[k]} :: |rest| <= k < |stack| ==> stack[k].depth >= d
  {
    rest := stack;
    while rest != [] && rest[|rest| - 1].depth >= d
      invariant |rest| <= |stack| && rest == stack[..|rest|]
      invariant forall k {:trigger stack[k]} :: |rest| <= k < |stack| ==> stack[k].depth >= d
      decreases |rest|
    {
      rest := rest[..|rest| - 1];
    }
  }

  /** Each step's control parent is its most recent open branch, though only the top of the stack is
      ever tested and a branch run again in its own region takes the place of the earlier run. */
  method ControlParents<N(!new, ==)>(t: Trace<N>, ghost edges: set<(N, N)>, ipdom: map<N, N>, branches: set<N>, exit: N)
    returns (out: array<int>)
    requires t.Valid() && Executed(t, edges) && TrueIpdom(edges, exit, ipdom)
    ensures fresh(out) && out.Length == |t.nodes|
    ensures forall i :: 0 <= i < out.Length ==> IsParent(t, ipdom, exit, branches, i, out[i])
  {
    hide OpenBefore, OpenAt, Executed, TrueIpdom, IsParent, StackBefore, StackAt, Closes, Leaves, Opened, Pushed;
    out := new int[|t.nodes|](_ => -1);
    var stack: seq<Entry<N>> := [];
    EmptyStack(t, ipdom, exit, branches);
    var i := 0;
    while i < |t.nodes|
      invariant 0 <= i <= |t.nodes|
      invariant StackBefore(t, ipdom, exit, branches, stack, i)
      invariant forall j :: 0 <= j < i ==> IsParent(t, ipdom, exit, branches, j, out[j])
      invariant forall j :: i <= j < out.Length ==> out[j] == -1
    {
      var node, d := t.nodes[i], t.depth[i];
      ghost var was := stack;
      stack := PopClosed(stack, node, d);
      PoppedEnough(t, edges, ipdom, exit, branches, was, |stack|, i);
      TopIsParent(t, ipdom, exit, branches, stack, i);
      if stack != [] {
        out[i] := stack[|stack| - 1].step;
      }
      ghost var at := stack;
      if node.Some? && node.value in branches {
        var entry := Entry(i, Join(ipdom, exit, node.value), d);
        if stack != [] && stack[|stack| - 1].join == entry.join && stack[|stack| - 1].depth == entry.depth {
          stack := stack[..|stack| - 1] + [entry];
        } else {
          stack := stack + [entry];
        }
      }
      ghost var grown := stack;
      OpenedIs(at, grown, node, d, i, ipdom, exit, branches);
      if t.leave[i] {
        stack := PopLeft(stack, d);
      }
      LeavesBelow(t, ipdom, exit, branches, at, |stack|, i);
      StepStack(t, ipdom, exit, branches, at, i, |stack|);
      assert stack == grown[..|stack|];
      i := i + 1;
    }
  }

  lemma EmptyStack<N>(t: Trace<N>, ipdom: map<N, N>, exit: N, branches: set<N>)
    requires t.Valid()
    ensures StackBefore(t, ipdom, exit, branches, [], 0)
  {
  }

  lemma OpenedIs<N>(stack: seq<Entry<N>>, grown: seq<Entry<N>>, node: Option<N>, d: int, i: int,
      ipdom: map<N, N>, exit: N, branches: set<N>)
    requires if node.Some? && node.value in branches then
        var e := Entry(i, Join(ipdom, exit, node.value), d);
        grown == if stack != [] && stack[|stack| - 1].join == e.join && stack[|stack| - 1].depth == e.depth
                 then stack[..|stack| - 1] + [e] else stack + [e]
      else grown == stack
    ensures grown == Opened(stack, node, d, i, ipdom, exit, branches)
  {
  }

  lemma LeavesBelow<N>(t: Trace<N>, ipdom: map<N, N>, exit: N, branches: set<N>, stack: seq<Entry<N>>, n: nat, i: int)
    requires t.Valid() && 0 <= i < |t.nodes| && StackAt(t, ipdom, exit, branches, stack, i)
    requires n <= |Opened(stack, t.nodes[i], t.depth[i], i, ipdom, exit, branches)|
    requires var grown := Opened(stack, t.nodes[i], t.depth[i], i, ipdom, exit, branches);
      if t.leave[i] then
        && (n > 0 ==> grown[n - 1].depth < t.depth[i])
        && forall k {:trigger grown[k]} :: n <= k < |grown| ==> grown[k].depth >= t.depth[i]
      else n == |grown|
    ensures Leaves(Opened(stack, t.nodes[i], t.depth[i], i, ipdom, exit, branches), n, t.leave[i], t.depth[i])
  {
    OpenedSorted(t, ipdom, exit, branches, stack, i);
  }

  // ----- the 6502's steps

  /** What an executed instruction does to the calls: enters one, leaves one, or branches by an offset byte
      in its own. */
  datatype Flow = Enter | Return | Branch(offset: int) | Onward

  datatype CpuStep = CpuStep(pc: int, flow: Flow)

  const EXIT := -1

  /** Calls less returns before step `i`. */
  function Climb(steps: seq<CpuStep>, i: nat): int
    requires i <= |steps|
  {
    if i == 0 then 0
    else Climb(steps, i - 1) + match steps[i - 1].flow
      case Enter => 1
      case Return => -1
      case _ => 0
  }

  /** Where a step's own edge leads: past the call, out of it, or to the next step. */
  function Leads(steps: seq<CpuStep>, i: nat): int
    requires i < |steps|
  {
    match steps[i].flow
    case Enter => steps[i].pc + 3
    case Return => EXIT
    case _ => if i + 1 < |steps| then steps[i + 1].pc else EXIT
  }

  /** A branch's target. */
  function Arm(pc: int, offset: int): int {
    (pc + 2 + if offset >= 0x80 then offset - 0x100 else offset) % 0x1_0000
  }

  /** The graph `cpu_control` builds: the executed edges, both arms of every branch, and `code`'s. */
  function CpuEdges(steps: seq<CpuStep>, code: set<(int, int)>): (edges: set<(int, int)>)
    ensures forall i: nat {:trigger Leads(steps, i)} :: i < |steps| ==> (steps[i].pc, Leads(steps, i)) in edges
  {
    (set i: nat | i < |steps| :: (steps[i].pc, Leads(steps, i)))
    + (set i: nat | i < |steps| && steps[i].flow.Branch? :: (steps[i].pc, Arm(steps[i].pc, steps[i].flow.offset)))
    + (set i: nat | i < |steps| && steps[i].flow.Branch? :: (steps[i].pc, steps[i].pc + 2))
    + code
  }

  /** The steps as `control_parents` takes them: the depth is never below the first step's. */
  function CpuTrace(steps: seq<CpuStep>): (t: Trace<int>)
    ensures t.Valid() && |t.nodes| == |steps|
    ensures forall i {:trigger t.nodes[i]} :: 0 <= i < |steps| ==> t.nodes[i] == Some(steps[i].pc)
    ensures forall i {:trigger t.leave[i]} :: 0 <= i < |steps| ==> t.leave[i] == steps[i].flow.Return?
    ensures forall i {:trigger t.depth[i]} :: 0 <= i < |steps| ==>
      t.depth[i] == if Climb(steps, i) < 0 then 0 else Climb(steps, i)
  {
    Trace(seq(|steps|, i requires 0 <= i < |steps| => Some(steps[i].pc)),
          seq(|steps|, i requires 0 <= i < |steps| => if Climb(steps, i) < 0 then 0 else Climb(steps, i)),
          seq(|steps|, i requires 0 <= i < |steps| => steps[i].flow.Return?))
  }

  /** Step `j` is the first after the call at step `i` that is no deeper. */
  ghost predicate Back(steps: seq<CpuStep>, i: nat, j: nat) {
    && i < j < |steps| && steps[i].flow.Enter? && Climb(steps, j) == Climb(steps, i)
    && forall x: nat {:trigger Climb(steps, x)} :: i < x < j ==> Climb(steps, x) > Climb(steps, i)
  }

  /** Calls nest: none is made once the first step's call was left, and each goes on at its return site. */
  ghost predicate Nested(steps: seq<CpuStep>) {
    && (forall i: nat :: i < |steps| && steps[i].flow.Enter? ==> Climb(steps, i) >= 0)
    && forall i: nat, j: nat :: Back(steps, i, j) ==> steps[j].pc == steps[i].pc + 3
  }

  /** Where calls nest, the graph built holds an edge for every two consecutive steps of one call. */
  lemma CpuExecuted(steps: seq<CpuStep>, code: set<(int, int)>)
    requires Nested(steps)
    ensures Executed(CpuTrace(steps), CpuEdges(steps, code))
  {
    var t, edges := CpuTrace(steps), CpuEdges(steps, code);
    forall i, j, d | i < j && SameCall(t, i, j, d) && At(t, i, d) && At(t, j, d)
        && (forall x :: i < x < j ==> !At(t, x, d))
      ensures (t.nodes[i].value, t.nodes[j].value) in edges
    {
      LeadsOn(steps, i, j);
      assert (steps[i].pc, Leads(steps, i)) in edges;
    }
  }

  lemma LeadsOn(steps: seq<CpuStep>, i: nat, j: nat)
    requires Nested(steps) && i < j < |steps|
    requires var t := CpuTrace(steps);
      SameCall(t, i, j, t.depth[i]) && At(t, j, t.depth[i]) && forall x :: i < x < j ==> !At(t, x, t.depth[i])
    ensures Leads(steps, i) == steps[j].pc
  {
    var t := CpuTrace(steps);
    assert t.leave[i] == steps[i].flow.Return? && t.depth[i + 1] >= t.depth[i];
    if steps[i].flow.Enter? {
      forall x: nat {:trigger Climb(steps, x)} | i < x < j ensures Climb(steps, x) > Climb(steps, i) {
        assert !At(t, x, t.depth[i]) && t.nodes[x].Some? && t.depth[x] >= t.depth[i];
      }
      assert t.depth[j] == t.depth[i] && Climb(steps, i + 1) == Climb(steps, i) + 1;
      assert Climb(steps, j) >= Climb(steps, j - 1) - 1;
      assert Back(steps, i, j);
    } else {
      assert Climb(steps, i + 1) == Climb(steps, i) && t.nodes[i + 1].Some?;
      assert At(t, i + 1, t.depth[i]);
    }
  }

  /** A call that returns elsewhere than past its `JSR`. */
  function Skipping(): seq<CpuStep> {
    [CpuStep(0x1000, Enter), CpuStep(0x2000, Return), CpuStep(0x1005, Onward)]
  }

  /** Where one does, the graph misses the step to there. */
  lemma SkippingMisses()
    ensures !Nested(Skipping()) && !Executed(CpuTrace(Skipping()), CpuEdges(Skipping(), {}))
  {
    var steps := Skipping();
    var t := CpuTrace(steps);
    assert Climb(steps, 0) == 0 && Climb(steps, 1) == 1 && Climb(steps, 2) == 0;
    assert Back(steps, 0, 2);
    assert t.depth[0] == 0 && t.depth[1] == 1 && t.depth[2] == 0 && !t.leave[0] && t.leave[1];
    assert SameCall(t, 0, 2, 0) && At(t, 0, 0) && At(t, 2, 0);
    assert forall x :: 0 < x < 2 ==> !At(t, x, 0);
    assert Leads(steps, 0) == 0x1003 && Leads(steps, 1) == EXIT && Leads(steps, 2) == EXIT;
    assert (0x1000, 0x1005) !in CpuEdges(steps, {});
  }

  /** The nodes with more than one successor. */
  function Branching(edges: set<(int, int)>): set<int> {
    set e, f | e in edges && f in edges && e.0 == f.0 && e.1 != f.1 :: e.0
  }

  /** The code a branch's offset byte adds to the address after it: bytes from `$80` on go back. */
  lemma ArmIs(pc: int, offset: int)
    requires 0 <= pc < 0x1_0000 && 0 <= offset < 0x100
    ensures 0 <= Arm(pc, offset) < 0x1_0000
    ensures var moved := pc + 2 + if offset < 0x80 then offset else offset - 0x100;
      if moved < 0 then Arm(pc, offset) == moved + 0x1_0000
      else if moved < 0x1_0000 then Arm(pc, offset) == moved else Arm(pc, offset) == moved - 0x1_0000
  {
  }

  /** A step's edges: a call's past its three bytes, a return's to the exit, another's to the next step, or
      the exit after the last, and a branch's to both its arms. */
  predicate StepEdge(steps: seq<CpuStep>, i: nat, b: int)
    requires i < |steps|
  {
    match steps[i].flow
    case Enter => b == steps[i].pc + 3
    case Return => b == -1
    case Onward => (i + 1 < |steps| && b == steps[i + 1].pc) || (i + 1 == |steps| && b == -1)
    case Branch(offset) =>
      (i + 1 < |steps| && b == steps[i + 1].pc) || (i + 1 == |steps| && b == -1)
      || b == steps[i].pc + 2 || b == Arm(steps[i].pc, offset)
  }

  /** The graph holds those edges, the code's, and no other. */
  lemma EdgesAre(steps: seq<CpuStep>, code: set<(int, int)>, a: int, b: int)
    ensures (a, b) in CpuEdges(steps, code) <==>
      (a, b) in code || exists i: nat {:trigger steps[i]} :: i < |steps| && steps[i].pc == a && StepEdge(steps, i, b)
  {
    if (a, b) in CpuEdges(steps, code) && (a, b) !in code {
      var i: nat :| i < |steps| && steps[i].pc == a
        && (b == Leads(steps, i) || (steps[i].flow.Branch? && (b == Arm(a, steps[i].flow.offset) || b == a + 2)));
      assert StepEdge(steps, i, b);
    }
  }

  /** The calls before a step. */
  ghost function EntersBefore(steps: seq<CpuStep>, i: nat): set<nat>
    requires i <= |steps|
  {
    set k: nat | k < i && steps[k].flow.Enter?
  }

  /** The returns before a step. */
  ghost function ReturnsBefore(steps: seq<CpuStep>, i: nat): set<nat>
    requires i <= |steps|
  {
    set k: nat | k < i && steps[k].flow.Return?
  }

  lemma {:induction false} ClimbCounts(steps: seq<CpuStep>, i: nat)
    requires i <= |steps|
    ensures Climb(steps, i) == |EntersBefore(steps, i)| - |ReturnsBefore(steps, i)|
  {
    if i > 0 {
      ClimbCounts(steps, i - 1);
      OneBefore(steps, i - 1);
      hide EntersBefore, ReturnsBefore;
    }
  }

  lemma OneBefore(steps: seq<CpuStep>, i: nat)
    requires i < |steps|
    ensures |EntersBefore(steps, i + 1)| == |EntersBefore(steps, i)| + if steps[i].flow.Enter? then 1 else 0
    ensures |ReturnsBefore(steps, i + 1)| == |ReturnsBefore(steps, i)| + if steps[i].flow.Return? then 1 else 0
  {
    var enters, leaves := EntersBefore(steps, i), ReturnsBefore(steps, i);
    if steps[i].flow.Enter? {
      assert EntersBefore(steps, i + 1) == enters + {i} && i !in enters;
    } else {
      assert EntersBefore(steps, i + 1) == enters;
    }
    if steps[i].flow.Return? {
      assert ReturnsBefore(steps, i + 1) == leaves + {i} && i !in leaves;
    } else {
      assert ReturnsBefore(steps, i + 1) == leaves;
    }
  }

  /** A step is as deep as the calls before it exceed the returns, if they do. */
  lemma DepthCounts(steps: seq<CpuStep>, i: nat)
    requires i < |steps|
    ensures CpuTrace(steps).depth[i] == if |EntersBefore(steps, i)| < |ReturnsBefore(steps, i)| then 0
                                        else |EntersBefore(steps, i)| - |ReturnsBefore(steps, i)|
  {
    ClimbCounts(steps, i);
    hide EntersBefore, ReturnsBefore, Climb;
  }

  /** A node branches exactly when two different edges leave it. */
  lemma BranchingIs(edges: set<(int, int)>, n: int)
    ensures n in Branching(edges) <==> exists b, c :: (n, b) in edges && (n, c) in edges && b != c
  {
    if b, c :| (n, b) in edges && (n, c) in edges && b != c {
      assert (n, b).0 == n && (n, c).0 == n;
    }
  }

  /** An executed branch whose arm is not the code after it is the parent of the next step, unless that is
      its join. */
  lemma BranchIsParent(steps: seq<CpuStep>, code: set<(int, int)>, ipdom: map<int, int>, i: nat, parent: int)
    requires Nested(steps) && i + 1 < |steps| && steps[i].flow.Branch?
    requires Arm(steps[i].pc, steps[i].flow.offset) != steps[i].pc + 2
    requires IsParent(CpuTrace(steps), ipdom, EXIT, Branching(CpuEdges(steps, code)), i + 1, parent)
    ensures parent == i <==> steps[i + 1].pc != Join(ipdom, EXIT, steps[i].pc)
  {
    hide Nested, IsParent, OpenAt, CpuEdges, CpuTrace, Branching;
    BranchOpens(steps, code, ipdom, i);
    LatestParent(CpuTrace(steps), ipdom, EXIT, Branching(CpuEdges(steps, code)), i, parent);
  }

  /** The step before is the parent exactly when it is an open branch. */
  lemma LatestParent<N>(t: Trace<N>, ipdom: map<N, N>, exit: N, branches: set<N>, i: nat, parent: int)
    requires t.Valid() && i + 1 < |t.nodes| && IsParent(t, ipdom, exit, branches, i + 1, parent)
    ensures parent == i <==> OpenAt(t, ipdom, exit, branches, i, i + 1)
  {
  }

  lemma BranchOpens(steps: seq<CpuStep>, code: set<(int, int)>, ipdom: map<int, int>, i: nat)
    requires i + 1 < |steps| && steps[i].flow.Branch? && Arm(steps[i].pc, steps[i].flow.offset) != steps[i].pc + 2
    ensures OpenAt(CpuTrace(steps), ipdom, EXIT, Branching(CpuEdges(steps, code)), i, i + 1) <==>
      steps[i + 1].pc != Join(ipdom, EXIT, steps[i].pc)
  {
    var t := CpuTrace(steps);
    BranchIn(steps, code, i);
    assert Climb(steps, i + 1) == Climb(steps, i);
    assert t.nodes[i] == Some(steps[i].pc) && t.nodes[i + 1] == Some(steps[i + 1].pc);
    assert t.depth[i] == t.depth[i + 1] && !t.leave[i];
    hide CpuEdges, CpuTrace, Branching, Arm, Climb, OpenAt;
    OpenNext(t, ipdom, EXIT, Branching(CpuEdges(steps, code)), i);
  }

  lemma BranchIn(steps: seq<CpuStep>, code: set<(int, int)>, i: nat)
    requires i < |steps| && steps[i].flow.Branch? && Arm(steps[i].pc, steps[i].flow.offset) != steps[i].pc + 2
    ensures steps[i].pc in Branching(CpuEdges(steps, code))
  {
    var pc := steps[i].pc;
    EdgesAre(steps, code, pc, pc + 2);
    EdgesAre(steps, code, pc, Arm(pc, steps[i].flow.offset));
    BranchingIs(CpuEdges(steps, code), pc);
    hide CpuEdges, Branching, Arm;
  }

  lemma OpenNext<N>(t: Trace<N>, ipdom: map<N, N>, exit: N, branches: set<N>, i: nat)
    requires t.Valid() && i + 1 < |t.nodes| && t.nodes[i].Some? && t.nodes[i].value in branches
    requires t.depth[i] == t.depth[i + 1] && !t.leave[i]
    ensures OpenAt(t, ipdom, exit, branches, i, i + 1) <==> t.nodes[i + 1] != Some(Join(ipdom, exit, t.nodes[i].value))
  {
  }

  /** `cpu_control`: the control parents of a run whose calls nest. */
  method CpuControl(steps: seq<CpuStep>, code: set<(int, int)>, ipdom: map<int, int>) returns (out: array<int>)
    requires Nested(steps) && TrueIpdom(CpuEdges(steps, code), EXIT, ipdom)
    ensures fresh(out) && out.Length == |steps|
    ensures forall i :: 0 <= i < out.Length ==>
      IsParent(CpuTrace(steps), ipdom, EXIT, Branching(CpuEdges(steps, code)), i, out[i])
  {
    hide Nested, TrueIpdom, Executed, IsParent, Branching;
    CpuExecuted(steps, code);
    var edges := CpuEdges(steps, code);
    out := ControlParents(CpuTrace(steps), edges, ipdom, Branching(edges), EXIT);
  }

  // ----- line events

  /** A traced event: a line, a call or return of a function, or another. */
  datatype Kind = Line | CallOrReturn | Other

  datatype Event = Event(kind: Kind, depth: int)

  /** The first event from `k` on that belongs to the call at `depth`: a line, a call or a return. */
  function FirstIn(events: seq<Event>, depth: int, k: nat): (first: nat)
    requires k <= |events|
    ensures k <= first <= |events|
    ensures first < |events| ==> events[first].depth == depth && !events[first].kind.Other?
    ensures forall j {:trigger events[j]} :: k <= j < first ==> !(events[j].depth == depth && !events[j].kind.Other?)
    decreases |events| - k
  {
    if k == |events| || (events[k].depth == depth && !events[k].kind.Other?) then k else FirstIn(events, depth, k + 1)
  }

  /** The line event that comes next in the same call, -1 when the call goes on otherwise. */
  function NextLine(events: seq<Event>, depth: int, k: nat): int
    requires k <= |events|
  {
    var j := FirstIn(events, depth, k);
    if j < |events| && events[j].kind.Line? then j else -1
  }

  /** The line found belongs to the call, and between there and `k` the call has no line, call or return;
      none is found exactly when the call's first of these is no line, or it has none. */
  lemma NextLineIs(events: seq<Event>, depth: int, k: nat, j: int)
    requires k <= |events|
    ensures NextLine(events, depth, k) == j && j != -1 <==>
      && k <= j < |events| && events[j].depth == depth && events[j].kind.Line?
      && forall i {:trigger events[i]} :: k <= i < j && events[i].depth == depth ==> events[i].kind.Other?
  {
    var first := FirstIn(events, depth, k);
    if k <= j < |events| && events[j].depth == depth && events[j].kind.Line?
      && forall i {:trigger events[i]} :: k <= i < j && events[i].depth == depth ==> events[i].kind.Other?
    {
      assert first <= j;
      assert first >= j;
    }
  }

  lemma NextLineStep(events: seq<Event>, depth: int, i: nat)
    requires i < |events|
    ensures NextLine(events, depth, i) ==
      if events[i].depth != depth || events[i].kind.Other? then NextLine(events, depth, i + 1)
      else if events[i].kind.Line? then i else -1
  {
  }

  /** What each depth's line ahead is, as far as it is remembered. */
  ghost predicate Ahead(events: seq<Event>, i: nat, ahead: map<int, int>)
    requires i <= |events|
  {
    forall d {:trigger d in ahead} :: NextLine(events, d, i) == if d in ahead then ahead[d] else -1
  }

  lemma AheadNext(events: seq<Event>, i: nat, ahead: map<int, int>)
    requires i < |events| && Ahead(events, i + 1, ahead)
    ensures Ahead(events, i, match events[i].kind
      case Line => ahead[events[i].depth := i]
      case CallOrReturn => ahead[events[i].depth := -1]
      case Other => ahead)
  {
    hide NextLine;
    forall d ensures NextLine(events, d, i) ==
        if d == events[i].depth && events[i].kind.Line? then i
        else if d == events[i].depth && events[i].kind.CallOrReturn? then -1
        else if d in ahead then ahead[d] else -1
    {
      NextLineStep(events, d, i);
    }
  }

  /** One pass from the last event back, remembering each depth's line ahead. */
  method NextLines(events: seq<Event>) returns (out: array<int>)
    ensures fresh(out) && out.Length == |events|
    ensures forall i: nat :: i < |events| ==>
      out[i] == if events[i].kind.Line? then NextLine(events, events[i].depth, i + 1) else -1
  {
    hide NextLine, Ahead;
    out := new int[|events|](_ => -1);
    var ahead: map<int, int> := map[];
    NothingAhead(events);
    var i := |events|;
    while i > 0
      invariant 0 <= i <= |events|
      invariant Ahead(events, i, ahead)
      invariant forall j: nat :: j < i ==> out[j] == -1
      invariant forall j: nat :: i <= j < |events| ==>
        out[j] == if events[j].kind.Line? then NextLine(events, events[j].depth, j + 1) else -1
    {
      i := i - 1;
      var event := events[i];
      AheadOf(events, i + 1, ahead, event.depth);
      AheadNext(events, i, ahead);
      if event.kind.Line? {
        out[i] := if event.depth in ahead then ahead[event.depth] else -1;
        ahead := ahead[event.depth := i];
      } else if event.kind.CallOrReturn? {
        ahead := ahead[event.depth := -1];
      }
    }
  }

  lemma NothingAhead(events: seq<Event>)
    ensures Ahead(events, |events|, map[])
  {
  }

  lemma AheadOf(events: seq<Event>, i: nat, ahead: map<int, int>, d: int)
    requires i <= |events| && Ahead(events, i, ahead)
    ensures NextLine(events, d, i) == if d in ahead then ahead[d] else -1
  {
  }
}
