/** `gridcmp.py` and the lead mode of `pathdiff.py`: the comparison of two register grids up to a
    constant shift, and how many frames of them its verdict needs.
 */
module Gridcmp {
  import opened Options

  const LEAD: nat := 8

  type Frame = seq<int>

  predicate Grid(g: seq<Frame>, width: nat) {
    forall f {:trigger g[f]} :: 0 <= f < |g| ==> |g[f]| == width
  }

  // ----- the shifts tried

  function Abs(x: int): nat {
    if x < 0 then 0 - x else x
  }

  function Less(lead: int): nat {
    if lead < 0 then 0 - lead else 0
  }

  function More(lead: int): nat {
    if lead > 0 then lead else 0
  }

  /** The shifts from `-back` to `ahead`, nearest first, a shift back before the same one ahead. */
  function Leads(back: nat, ahead: nat): (leads: seq<int>)
    requires back <= ahead
    ensures |leads| == back + ahead + 1
  {
    if ahead == 0 then [0]
    else if ahead == back then Leads(back - 1, ahead - 1) + [0 - ahead, ahead]
    else Leads(back, ahead - 1) + [ahead]
  }

  /** Every shift once, by size, equal sizes in range order. */
  ghost predicate BySize(leads: seq<int>, back: nat, ahead: nat) {
    && (forall x {:trigger x in leads} :: x in leads <==> 0 - back <= x <= ahead)
    && forall i, j :: 0 <= i < j < |leads| ==>
         Abs(leads[i]) < Abs(leads[j]) || (Abs(leads[i]) == Abs(leads[j]) && leads[i] < leads[j])
  }

  /** Sorting all shifts by size alone gives this order: Python's sort is stable. */
  lemma {:induction false} LeadsSorted(back: nat, ahead: nat)
    requires back <= ahead
    ensures BySize(Leads(back, ahead), back, ahead)
  {
    if ahead > 0 {
      var b := if ahead == back then back - 1 else back;
      LeadsSorted(b, ahead - 1);
      MoreLeads(Leads(b, ahead - 1), back, ahead);
    }
  }

  lemma MoreLeads(rest: seq<int>, back: nat, ahead: nat)
    requires 0 < ahead && back <= ahead && BySize(rest, if ahead == back then back - 1 else back, ahead - 1)
    ensures ahead == back ==> BySize(rest + [0 - ahead, ahead], back, ahead)
    ensures ahead > back ==> BySize(rest + [ahead], back, ahead)
  {
    forall i {:trigger rest[i]} | 0 <= i < |rest| ensures Abs(rest[i]) < ahead {
      assert rest[i] in rest;
    }
    var leads := rest + if ahead == back then [0 - ahead, ahead] else [ahead];
    forall x ensures x in leads <==> 0 - back <= x <= ahead {
      assert x in leads <==> x in rest || x == ahead || (ahead == back && x == 0 - ahead);
    }
  }

  // ----- the scan

  /** Frame `f` of the pair shifted by `lead`: reference frame, render frame. */
  predicate Differs(a: seq<Frame>, b: seq<Frame>, lead: int, f: nat)
    requires f + Less(lead) < |a| && f + More(lead) < |b|
  {
    a[f + Less(lead)] != b[f + More(lead)]
  }

  /** The pair covers every shift up to `max` of the first `n` frames. */
  predicate Covers(a: seq<Frame>, b: seq<Frame>, n: nat, max: nat) {
    n <= |a| && n + max <= |b|
  }

  function Size(n: nat, lead: int): (size: nat)
    requires Less(lead) < n
  {
    n - Less(lead)
  }

  /** The first differing frame from `f` on, the window's size when there is none. */
  function FirstFrom(a: seq<Frame>, b: seq<Frame>, n: nat, lead: int, f: nat): (first: nat)
    requires Less(lead) < n && Covers(a, b, n, More(lead)) && f <= Size(n, lead)
    ensures f <= first <= Size(n, lead)
    ensures forall g :: f <= g < first ==> !Differs(a, b, lead, g)
    ensures first < Size(n, lead) ==> Differs(a, b, lead, first)
    decreases Size(n, lead) - f
  {
    if f == Size(n, lead) || Differs(a, b, lead, f) then f else FirstFrom(a, b, n, lead, f + 1)
  }

  function First(a: seq<Frame>, b: seq<Frame>, n: nat, lead: int): (first: nat)
    requires Less(lead) < n && Covers(a, b, n, More(lead))
    ensures first <= Size(n, lead)
  {
    FirstFrom(a, b, n, lead, 0)
  }

  /** A shorter window sees the same first difference, or none. */
  lemma FirstOfPrefix(a: seq<Frame>, b: seq<Frame>, n: nat, c: seq<Frame>, d: seq<Frame>, m: nat, lead: int)
    requires Less(lead) < m <= n && Covers(a, b, n, More(lead)) && Covers(c, d, m, More(lead))
    requires c <= a && d <= b
    ensures First(c, d, m, lead) ==
      if First(a, b, n, lead) < Size(m, lead) then First(a, b, n, lead) else Size(m, lead)
  {
    var x, y := First(a, b, n, lead), First(c, d, m, lead);
    forall g: nat | g < Size(m, lead) ensures Differs(a, b, lead, g) == Differs(c, d, lead, g) {
    }
  }

  /** How many frames differ from `f` on. */
  function BadFrom(a: seq<Frame>, b: seq<Frame>, n: nat, lead: int, f: nat): (bad: nat)
    requires Less(lead) < n && Covers(a, b, n, More(lead)) && f <= Size(n, lead)
    ensures bad == 0 <==> FirstFrom(a, b, n, lead, f) == Size(n, lead)
    decreases Size(n, lead) - f
  {
    if f == Size(n, lead) then 0
    else (if Differs(a, b, lead, f) then 1 else 0) + BadFrom(a, b, n, lead, f + 1)
  }

  /** The differing frames from `f` on. */
  function BadFrames(a: seq<Frame>, b: seq<Frame>, n: nat, lead: int, f: nat): set<int>
    requires Less(lead) < n && Covers(a, b, n, More(lead))
  {
    set g | f <= g < Size(n, lead) && Differs(a, b, lead, g)
  }

  lemma {:induction false} BadCounts(a: seq<Frame>, b: seq<Frame>, n: nat, lead: int, f: nat)
    requires Less(lead) < n && Covers(a, b, n, More(lead)) && f <= Size(n, lead)
    ensures BadFrom(a, b, n, lead, f) == |BadFrames(a, b, n, lead, f)|
    decreases Size(n, lead) - f
  {
    if f < Size(n, lead) {
      BadCounts(a, b, n, lead, f + 1);
      hide Differs;
      BadFramesNext(a, b, n, lead, f);
    } else {
      assert BadFrames(a, b, n, lead, f) == {};
    }
  }

  lemma BadFramesNext(a: seq<Frame>, b: seq<Frame>, n: nat, lead: int, f: nat)
    requires Less(lead) < n && Covers(a, b, n, More(lead)) && f < Size(n, lead)
    ensures |BadFrames(a, b, n, lead, f)| == |BadFrames(a, b, n, lead, f + 1)| + if Differs(a, b, lead, f) then 1 else 0
  {
    hide Differs;
    var rest := BadFrames(a, b, n, lead, f + 1);
    assert BadFrames(a, b, n, lead, f) == rest + if Differs(a, b, lead, f) then {f} else {};
    assert f !in rest;
  }

  /** Register `r` differs in some frame. */
  predicate RegisterDiffers(a: seq<Frame>, b: seq<Frame>, width: nat, n: nat, lead: int, r: nat)
    requires Grid(a, width) && Grid(b, width) && Less(lead) < n && Covers(a, b, n, More(lead)) && r < width
  {
    exists f :: 0 <= f < Size(n, lead) && Differs(a, b, lead, f) && a[f + Less(lead)][r] != b[f + More(lead)][r]
  }

  /** The registers below `count` that differ, in order. */
  function Regs(a: seq<Frame>, b: seq<Frame>, width: nat, n: nat, lead: int, count: nat): (regs: seq<nat>)
    requires Grid(a, width) && Grid(b, width) && Less(lead) < n && Covers(a, b, n, More(lead)) && count <= width
    ensures forall r: nat :: r in regs <==> r < count && RegisterDiffers(a, b, width, n, lead, r)
    ensures forall i, j :: 0 <= i < j < |regs| ==> regs[i] < regs[j]
  {
    if count == 0 then []
    else
      var rest := Regs(a, b, width, n, lead, count - 1);
      assert forall i {:trigger rest[i]} :: 0 <= i < |rest| ==> rest[i] in rest;
      if RegisterDiffers(a, b, width, n, lead, count - 1) then rest + [count - 1] else rest
  }

  // ----- the verdict

  ghost predicate IsArgMax(s: seq<nat>, i: nat) {
    i < |s| && (forall j :: 0 <= j < |s| ==> s[j] <= s[i]) && forall j :: 0 <= j < i ==> s[j] < s[i]
  }

  /** Where the greatest comes first. */
  function ArgMax(s: seq<nat>): (i: nat)
    requires s != []
    ensures IsArgMax(s, i)
  {
    if |s| == 1 then 0
    else
      var i := ArgMax(s[..|s| - 1]);
      if s[|s| - 1] > s[i] then |s| - 1 else i
  }

  ghost predicate IsArgMin(s: seq<nat>, i: nat) {
    i < |s| && (forall j :: 0 <= j < |s| ==> s[i] <= s[j]) && forall j :: 0 <= j < i ==> s[i] < s[j]
  }

  /** Where the least comes first. */
  function ArgMin(s: seq<nat>): (i: nat)
    requires s != []
    ensures IsArgMin(s, i)
  {
    if |s| == 1 then 0
    else
      var i := ArgMin(s[..|s| - 1]);
      if s[|s| - 1] < s[i] then |s| - 1 else i
  }

  /** The first register, from `r` on, two frames differ in. */
  function FirstRegister(x: Frame, y: Frame, r: nat): (reg: nat)
    requires |x| == |y| && exists k :: r <= k < |x| && x[k] != y[k]
    ensures r <= reg < |x| && x[reg] != y[reg] && forall k :: r <= k < reg ==> x[k] == y[k]
    decreases |x| - r
  {
    if x[r] != y[r] then r else FirstRegister(x, y, r + 1)
  }

  lemma SomewhereDiffers(x: Frame, y: Frame)
    requires |x| == |y| && x != y
    ensures exists k :: 0 <= k < |x| && x[k] != y[k]
  {
  }

  /** `scan_leads` takes every shift that overlaps the reference. */
  function Tried(n: nat, max: nat): (leads: seq<int>)
    requires n > 0
    ensures leads != []
  {
    Leads(Min(max, n - 1), max)
  }

  lemma TriedInRange(n: nat, max: nat)
    requires n > 0
    ensures forall i {:trigger Tried(n, max)[i]} :: 0 <= i < |Tried(n, max)| ==>
      Less(Tried(n, max)[i]) < n && Less(Tried(n, max)[i]) <= max && More(Tried(n, max)[i]) <= max
  {
    LeadsSorted(Min(max, n - 1), max);
    forall i {:trigger Tried(n, max)[i]} | 0 <= i < |Tried(n, max)|
      ensures Less(Tried(n, max)[i]) < n && Less(Tried(n, max)[i]) <= max && More(Tried(n, max)[i]) <= max
    {
      assert Tried(n, max)[i] in Leads(Min(max, n - 1), max);
    }
  }

  /** What the scan says of one shift: its first differing frame, how many differ, and the registers. */
  datatype Shift = Shift(lead: int, first: Option<nat>, bad: nat, regs: seq<nat>)

  function ShiftOf(a: seq<Frame>, b: seq<Frame>, width: nat, n: nat, lead: int): Shift
    requires Grid(a, width) && Grid(b, width) && Less(lead) < n && Covers(a, b, n, More(lead))
  {
    var bad := BadFrom(a, b, n, lead, 0);
    Shift(lead, if bad == 0 then None else Some(First(a, b, n, lead)), bad, Regs(a, b, width, n, lead, width))
  }

  /** The verdict: its shift's scan, the first differing register, and the shift with the fewest
      differing frames. */
  datatype Verdict = Verdict(n: nat, ok: bool, lead: int, first: Option<nat>, register: Option<nat>, bad: nat,
                             regs: seq<nat>, fewest: Shift)

  function Min(x: int, y: int): int {
    if x < y then x else y
  }

  function Firsts(a: seq<Frame>, b: seq<Frame>, n: nat, max: nat): (firsts: seq<nat>)
    requires n > 0 && Covers(a, b, n, max)
    ensures |firsts| == |Tried(n, max)|
    ensures forall i {:trigger firsts[i]} :: 0 <= i < |firsts| ==>
      var lead := Tried(n, max)[i];
      Less(lead) < n && More(lead) <= max && firsts[i] == First(a, b, n, lead)
  {
    TriedInRange(n, max);
    seq(|Tried(n, max)|, i requires 0 <= i < |Tried(n, max)| => First(a, b, n, Tried(n, max)[i]))
  }

  function Bads(a: seq<Frame>, b: seq<Frame>, n: nat, max: nat): (bads: seq<nat>)
    requires n > 0 && Covers(a, b, n, max)
    ensures |bads| == |Tried(n, max)|
    ensures forall i {:trigger bads[i]} :: 0 <= i < |bads| ==>
      var lead := Tried(n, max)[i];
      Less(lead) < n && More(lead) <= max && bads[i] == BadFrom(a, b, n, lead, 0)
  {
    TriedInRange(n, max);
    seq(|Tried(n, max)|, i requires 0 <= i < |Tried(n, max)| => BadFrom(a, b, n, Tried(n, max)[i], 0))
  }

  /** The verdict of the shifts at two places of those tried. */
  function VerdictOf(a: seq<Frame>, b: seq<Frame>, width: nat, n: nat, lead: int, fewest: int): (v: Verdict)
    requires Grid(a, width) && Grid(b, width) && Less(lead) < n && Covers(a, b, n, More(lead))
    requires Less(fewest) < n && Covers(a, b, n, More(fewest))
    ensures v.ok <==> v.first.None?
  {
    var shift, first := ShiftOf(a, b, width, n, lead), First(a, b, n, lead);
    if shift.bad == 0 then Verdict(n, true, lead, None, None, 0, shift.regs, ShiftOf(a, b, width, n, fewest))
    else
      var x, y := a[first + Less(lead)], b[first + More(lead)];
      SomewhereDiffers(x, y);
      Verdict(n, false, lead, shift.first, Some(FirstRegister(x, y, 0)), shift.bad, shift.regs,
              ShiftOf(a, b, width, n, fewest))
  }

  /** `verdict_lead`: None when the grids do not cover a frame and its shifts. */
  function VerdictLead(a: seq<Frame>, b: seq<Frame>, width: nat, max: nat): (v: Option<Verdict>)
    requires Grid(a, width) && Grid(b, width)
    ensures v.None? <==> |a| < 1 || |b| < 1 + max
    ensures v.Some? ==> (v.value.ok <==> v.value.first.None?)
  {
    var n := Min(|a|, |b| - max);
    if n < 1 then None
    else
      TriedInRange(n, max);
      Some(VerdictOf(a, b, width, n, Tried(n, max)[ArgMax(Firsts(a, b, n, max))],
        Tried(n, max)[ArgMin(Bads(a, b, n, max))]))
  }

  /** One shift is nearer than another: smaller, or of the same size and back. */
  predicate Nearer(x: int, y: int) {
    Abs(x) < Abs(y) || (Abs(x) == Abs(y) && x <= y)
  }

  /** The verdict's shift has the latest first mismatch of all, and its other one the fewest differing
      frames of all, each the nearest such; both are reported with their counts and registers. */
  lemma VerdictMeans(a: seq<Frame>, b: seq<Frame>, width: nat, max: nat, v: Verdict, lead: int)
    requires Grid(a, width) && Grid(b, width) && VerdictLead(a, b, width, max) == Some(v)
    requires 0 - Min(max, v.n - 1) <= lead <= max
    ensures v.n == Min(|a|, |b| - max) && 0 < v.n && Covers(a, b, v.n, max) && Less(lead) < v.n && More(lead) <= max
    ensures Less(v.lead) < v.n && More(v.lead) <= max
    ensures v.ok <==> First(a, b, v.n, v.lead) == Size(v.n, v.lead)
    ensures Shift(v.lead, v.first, v.bad, v.regs) == ShiftOf(a, b, width, v.n, v.lead)
    ensures First(a, b, v.n, lead) <= First(a, b, v.n, v.lead)
    ensures First(a, b, v.n, lead) == First(a, b, v.n, v.lead) ==> Nearer(v.lead, lead)
    ensures Less(v.fewest.lead) < v.n && More(v.fewest.lead) <= max
    ensures v.fewest == ShiftOf(a, b, width, v.n, v.fewest.lead)
    ensures v.fewest.bad <= BadFrom(a, b, v.n, lead, 0)
    ensures v.fewest.bad == BadFrom(a, b, v.n, lead, 0) ==> Nearer(v.fewest.lead, lead)
  {
    hide BadFrom, Regs, BySize, Tried, FirstFrom, FirstRegister;
    var n := Min(|a|, |b| - max);
    var leads := Tried(n, max);
    TriedInRange(n, max);
    var j := PlaceOf(n, max, lead);
    var i := ArgMax(Firsts(a, b, n, max));
    assert Firsts(a, b, n, max)[j] <= Firsts(a, b, n, max)[i];
    NearerFirst(n, max, i, j);
    var k := ArgMin(Bads(a, b, n, max));
    assert Bads(a, b, n, max)[k] <= Bads(a, b, n, max)[j];
    NearerFirst(n, max, k, j);
  }

  lemma PlaceOf(n: nat, max: nat, lead: int) returns (j: nat)
    requires n > 0 && 0 - Min(max, n - 1) <= lead <= max
    ensures j < |Tried(n, max)| && Tried(n, max)[j] == lead
  {
    LeadsSorted(Min(max, n - 1), max);
    assert lead in Tried(n, max);
    j :| 0 <= j < |Tried(n, max)| && Tried(n, max)[j] == lead;
  }

  lemma NearerFirst(n: nat, max: nat, i: nat, j: nat)
    requires n > 0 && i < |Tried(n, max)| && j < |Tried(n, max)|
    ensures i <= j ==> Nearer(Tried(n, max)[i], Tried(n, max)[j])
  {
    LeadsSorted(Min(max, n - 1), max);
  }

  // ----- the same, cell by cell

  /** The frames compared at a shift: those left when one grid starts later. */
  predicate InWindow(n: nat, lead: int, f: int) {
    0 <= f < n && (lead < 0 ==> f < n + lead)
  }

  /** Register `r` differs in frame `f` of the window: a shift ahead skips frames of the render, a shift back
      frames of the reference. */
  predicate CellDiffers(a: seq<Frame>, b: seq<Frame>, lead: int, f: nat, r: nat)
    requires if lead >= 0 then f < |a| && f + lead < |b| else f - lead < |a| && f < |b|
    requires if lead >= 0 then r < |a[f]| && r < |b[f + lead]| else r < |a[f - lead]| && r < |b[f]|
  {
    if lead >= 0 then a[f][r] != b[f + lead][r] else a[f - lead][r] != b[f][r]
  }

  /** The grids hold every frame and register of the shift's window. */
  ghost predicate Holds(a: seq<Frame>, b: seq<Frame>, width: nat, n: nat, lead: int) {
    && Grid(a, width) && Grid(b, width) && n <= |a| && (if lead >= 0 then n + lead <= |b| else n <= |b|) && n + lead > 0
  }

  /** Some register of frame `f` differs. */
  ghost predicate FrameDiffers(a: seq<Frame>, b: seq<Frame>, width: nat, n: nat, lead: int, f: nat)
    requires Holds(a, b, width, n, lead) && InWindow(n, lead, f)
  {
    exists r: nat :: r < width && CellDiffers(a, b, lead, f, r)
  }

  /** A shift's scan: the first frame of its window with a differing cell, how many have one, and the
      registers that differ anywhere in it, in order. */
  ghost predicate Scanned(a: seq<Frame>, b: seq<Frame>, width: nat, n: nat, shift: Shift)
    requires Holds(a, b, width, n, shift.lead)
  {
    && (forall f: nat :: InWindow(n, shift.lead, f) && FrameDiffers(a, b, width, n, shift.lead, f) ==>
          shift.first.Some? && shift.first.value <= f)
    && (shift.first.Some? ==> InWindow(n, shift.lead, shift.first.value)
                              && FrameDiffers(a, b, width, n, shift.lead, shift.first.value))
    && shift.bad == |BadSet(a, b, width, n, shift.lead)|
    && (forall r: nat {:trigger r in shift.regs} :: r in shift.regs <==>
          r < width && exists f: nat :: InWindow(n, shift.lead, f) && CellDiffers(a, b, shift.lead, f, r))
    && forall i, j :: 0 <= i < j < |shift.regs| ==> shift.regs[i] < shift.regs[j]
  }

  ghost function BadSet(a: seq<Frame>, b: seq<Frame>, width: nat, n: nat, lead: int): set<int>
    requires Holds(a, b, width, n, lead)
  {
    set f: int | 0 <= f < n && InWindow(n, lead, f) && FrameDiffers(a, b, width, n, lead, f)
  }

  lemma FrameByCells(a: seq<Frame>, b: seq<Frame>, width: nat, n: nat, lead: int, f: nat)
    requires Holds(a, b, width, n, lead) && InWindow(n, lead, f)
    ensures f + Less(lead) < |a| && f + More(lead) < |b| && f < Size(n, lead)
    ensures Differs(a, b, lead, f) <==> FrameDiffers(a, b, width, n, lead, f)
    ensures forall r: nat :: r < width ==>
      (CellDiffers(a, b, lead, f, r) <==> a[f + Less(lead)][r] != b[f + More(lead)][r])
  {
    var x, y := a[f + Less(lead)], b[f + More(lead)];
    if x != y {
      SomewhereDiffers(x, y);
      var r: nat :| r < |x| && x[r] != y[r];
      assert CellDiffers(a, b, lead, f, r);
    }
  }

  lemma WindowIs(a: seq<Frame>, b: seq<Frame>, width: nat, n: nat, lead: int)
    requires Grid(a, width) && Grid(b, width) && Less(lead) < n && Covers(a, b, n, More(lead))
    ensures Holds(a, b, width, n, lead) && forall f: int :: InWindow(n, lead, f) <==> 0 <= f < Size(n, lead)
  {
  }

  /** What the scan says of a shift is so. */
  lemma ShiftIs(a: seq<Frame>, b: seq<Frame>, width: nat, n: nat, lead: int)
    requires Grid(a, width) && Grid(b, width) && Less(lead) < n && Covers(a, b, n, More(lead))
    ensures Holds(a, b, width, n, lead) && Scanned(a, b, width, n, ShiftOf(a, b, width, n, lead))
  {
    WindowIs(a, b, width, n, lead);
    forall f: nat | InWindow(n, lead, f) ensures Differs(a, b, lead, f) <==> FrameDiffers(a, b, width, n, lead, f) {
      FrameByCells(a, b, width, n, lead, f);
    }
    BadCounts(a, b, n, lead, 0);
    assert BadFrames(a, b, n, lead, 0) == BadSet(a, b, width, n, lead);
    RegsAre(a, b, width, n, lead);
    hide Differs, FrameDiffers, CellDiffers, BadFrames, BadSet, RegisterDiffers, Less, More, InWindow;
  }

  lemma RegsAre(a: seq<Frame>, b: seq<Frame>, width: nat, n: nat, lead: int)
    requires Grid(a, width) && Grid(b, width) && Less(lead) < n && Covers(a, b, n, More(lead))
    requires Holds(a, b, width, n, lead)
    ensures forall r: nat {:trigger r in Regs(a, b, width, n, lead, width)} ::
      r in Regs(a, b, width, n, lead, width) <==>
      r < width && exists f: nat :: InWindow(n, lead, f) && CellDiffers(a, b, lead, f, r)
  {
    forall r: nat | r < width
      ensures RegisterDiffers(a, b, width, n, lead, r) <==>
        exists f: nat :: InWindow(n, lead, f) && CellDiffers(a, b, lead, f, r)
    {
      forall f: nat | InWindow(n, lead, f)
        ensures CellDiffers(a, b, lead, f, r) <==> a[f + Less(lead)][r] != b[f + More(lead)][r]
      {
        FrameByCells(a, b, width, n, lead, f);
      }
      if f: nat :| InWindow(n, lead, f) && CellDiffers(a, b, lead, f, r) {
        assert a[f + Less(lead)][r] != b[f + More(lead)][r];
        assert Differs(a, b, lead, f);
      }
      if RegisterDiffers(a, b, width, n, lead, r) {
        var f :| 0 <= f < Size(n, lead) && Differs(a, b, lead, f) && a[f + Less(lead)][r] != b[f + More(lead)][r];
        assert InWindow(n, lead, f) && CellDiffers(a, b, lead, f, r);
      }
    }
  }

  /** The verdict over the frames both grids cover with every shift: both its shifts are scanned so. */
  lemma VerdictCells(a: seq<Frame>, b: seq<Frame>, width: nat, max: nat, v: Verdict)
    requires Grid(a, width) && Grid(b, width) && VerdictLead(a, b, width, max) == Some(v)
    ensures v.n == if |a| + max <= |b| then |a| else |b| - max
    ensures Holds(a, b, width, v.n, v.lead) && Scanned(a, b, width, v.n, Shift(v.lead, v.first, v.bad, v.regs))
    ensures Holds(a, b, width, v.n, v.fewest.lead) && Scanned(a, b, width, v.n, v.fewest)
  {
    hide VerdictLead, Scanned, ShiftOf, BadFrom, Regs, First, FirstFrom, Nearer, Size;
    SomeFrames(a, b, width, max, v);
    VerdictMeans(a, b, width, max, v, 0);
    ShiftIs(a, b, width, v.n, v.lead);
    ShiftIs(a, b, width, v.n, v.fewest.lead);
  }

  lemma SomeFrames(a: seq<Frame>, b: seq<Frame>, width: nat, max: nat, v: Verdict)
    requires Grid(a, width) && Grid(b, width) && VerdictLead(a, b, width, max) == Some(v)
    ensures v.n == Min(|a|, |b| - max) >= 1 && v.ok == v.first.None? == v.register.None?
  {
    hide Tried, Firsts, Bads, Regs, BadFrom, FirstFrom;
  }

  /** Its register is the first that differs in its first differing frame. */
  lemma VerdictRegister(a: seq<Frame>, b: seq<Frame>, width: nat, max: nat, v: Verdict)
    requires Grid(a, width) && Grid(b, width) && VerdictLead(a, b, width, max) == Some(v)
    ensures v.ok == v.first.None? == v.register.None?
    ensures v.first.Some? ==>
      && Holds(a, b, width, v.n, v.lead) && v.register.value < width && InWindow(v.n, v.lead, v.first.value)
      && CellDiffers(a, b, v.lead, v.first.value, v.register.value)
      && forall r: nat :: r < v.register.value ==> !CellDiffers(a, b, v.lead, v.first.value, r)
  {
    hide VerdictLead, Scanned, FrameDiffers, InWindow;
    SomeFrames(a, b, width, max, v);
    if v.first.Some? {
      VerdictCells(a, b, width, max, v);
      RegisterIs(a, b, width, max, v);
      FirstInWindow(a, b, width, v.n, Shift(v.lead, v.first, v.bad, v.regs));
      FrameByCells(a, b, width, v.n, v.lead, v.first.value);
    }
  }

  lemma FirstInWindow(a: seq<Frame>, b: seq<Frame>, width: nat, n: nat, shift: Shift)
    requires Holds(a, b, width, n, shift.lead) && Scanned(a, b, width, n, shift) && shift.first.Some?
    ensures InWindow(n, shift.lead, shift.first.value)
  {
  }

  lemma RegisterIs(a: seq<Frame>, b: seq<Frame>, width: nat, max: nat, v: Verdict)
    requires Grid(a, width) && Grid(b, width) && VerdictLead(a, b, width, max) == Some(v) && v.first.Some?
    ensures v.register.Some? && v.first.value + Less(v.lead) < |a| && v.first.value + More(v.lead) < |b|
    ensures var x, y, r := a[v.first.value + Less(v.lead)], b[v.first.value + More(v.lead)], v.register.value;
      r < width && x[r] != y[r] && forall k :: 0 <= k < r ==> x[k] == y[k]
  {
    var n := Min(|a|, |b| - max);
    VerdictAt(a, b, width, max, n, ArgMax(Firsts(a, b, n, max)));
    hide VerdictLead, Tried, First;
  }

  // ----- truncation

  /** The verdict read off its shift's first mismatch. */
  lemma VerdictAt(a: seq<Frame>, b: seq<Frame>, width: nat, max: nat, n: nat, i: nat)
    requires Grid(a, width) && Grid(b, width) && n == Min(|a|, |b| - max) && n > 0
    requires IsArgMax(Firsts(a, b, n, max), i)
    ensures VerdictLead(a, b, width, max).Some?
    ensures Less(Tried(n, max)[i]) < n && More(Tried(n, max)[i]) <= max
    ensures var v, lead, first := VerdictLead(a, b, width, max).value, Tried(n, max)[i], Firsts(a, b, n, max)[i];
      && v.n == n && v.lead == lead && (v.ok <==> first == Size(n, lead))
      && (!v.ok ==>
            && v.first == Some(first) && Differs(a, b, lead, first)
            && Different(a[first + Less(lead)], b[first + More(lead)])
            && v.register == Some(FirstRegister(a[first + Less(lead)], b[first + More(lead)], 0)))
  {
    hide Regs, BadFrom, FirstFrom, Differs, Tried;
    var firsts := Firsts(a, b, n, max);
    var lead := Tried(n, max)[i];
    assert i == ArgMax(firsts);
    TriedInRange(n, max);
    if firsts[i] < Size(n, lead) {
      DiffersSomewhere(a, b, width, lead, firsts[i]);
    }
  }

  lemma DiffersSomewhere(a: seq<Frame>, b: seq<Frame>, width: nat, lead: int, f: nat)
    requires Grid(a, width) && Grid(b, width) && f + Less(lead) < |a| && f + More(lead) < |b| && Differs(a, b, lead, f)
    ensures Different(a[f + Less(lead)], b[f + More(lead)])
  {
    SomewhereDiffers(a[f + Less(lead)], b[f + More(lead)]);
  }

  ghost predicate Different(x: Frame, y: Frame) {
    |x| == |y| && exists k :: 0 <= k < |x| && x[k] != y[k]
  }

  /** Every shift's first mismatch comes no later than the verdict's, inside the cut window. */
  lemma CutKeepsFirsts(a: seq<Frame>, b: seq<Frame>, n: nat, c: seq<Frame>, d: seq<Frame>, m: nat, max: nat, i: nat)
    requires c <= a && d <= b && Covers(a, b, n, max) && Covers(c, d, m, max) && 0 < m <= n
    requires IsArgMax(Firsts(a, b, n, max), i) && Firsts(a, b, n, max)[i] + 1 + max <= m
    ensures Firsts(c, d, m, max) == Firsts(a, b, n, max)
  {
    var full, cut := Firsts(a, b, n, max), Firsts(c, d, m, max);
    TriedInRange(m, max);
    assert Tried(n, max) == Tried(m, max) == Leads(max, max);
    forall k {:trigger cut[k]} | 0 <= k < |cut| ensures cut[k] == full[k] {
      FirstOfPrefix(a, b, n, c, d, m, Tried(m, max)[k]);
      assert full[k] <= full[i];
    }
  }

  /** Cutting both grids keeps a mismatch's place, shift and register as long as every shift of the
      cut window still covers it. */
  lemma TruncationStable(a: seq<Frame>, b: seq<Frame>, c: seq<Frame>, d: seq<Frame>, width: nat, max: nat)
    requires Grid(a, width) && Grid(b, width) && Grid(c, width) && Grid(d, width) && c <= a && d <= b
    requires VerdictLead(a, b, width, max).Some? && !VerdictLead(a, b, width, max).value.ok
    requires Min(|c|, |d| - max) >= VerdictLead(a, b, width, max).value.first.value + 1 + max
    ensures VerdictLead(c, d, width, max).Some?
    ensures var v, w := VerdictLead(a, b, width, max).value, VerdictLead(c, d, width, max).value;
      !w.ok && w.lead == v.lead && w.first == v.first && w.register == v.register
  {
    hide VerdictLead, Tried, First, FirstRegister, Differs, Different;
    var n, m := Min(|a|, |b| - max), Min(|c|, |d| - max);
    var i := ArgMax(Firsts(a, b, n, max));
    VerdictAt(a, b, width, max, n, i);
    CutKeepsFirsts(a, b, n, c, d, m, max, i);
    SameTried(n, m, max);
    VerdictAt(c, d, width, max, m, i);
  }

  lemma SameTried(n: nat, m: nat, max: nat)
    requires n > max && m > max
    ensures Tried(n, max) == Tried(m, max)
    ensures forall i {:trigger Tried(n, max)[i]} :: 0 <= i < |Tried(n, max)| ==> Less(Tried(n, max)[i]) <= max
  {
    TriedInRange(n, max);
  }

  /** A mismatch of frame 0 is seen over any frames at all. */
  lemma OnsetZero(a: seq<Frame>, b: seq<Frame>, c: seq<Frame>, d: seq<Frame>, width: nat, max: nat)
    requires Grid(a, width) && Grid(b, width) && Grid(c, width) && Grid(d, width) && c <= a && d <= b
    requires VerdictLead(a, b, width, max).Some? && VerdictLead(a, b, width, max).value.first == Some(0)
    requires Min(|c|, |d| - max) >= 1
    ensures VerdictLead(c, d, width, max).Some?
    ensures var v, w := VerdictLead(a, b, width, max).value, VerdictLead(c, d, width, max).value;
      w.lead == v.lead == 0 && w.first == v.first && w.register == v.register
  {
    hide VerdictLead, Tried, First, FirstRegister, Differs, Different;
    var n, m := Min(|a|, |b| - max), Min(|c|, |d| - max);
    var full, cut := Firsts(a, b, n, max), Firsts(c, d, m, max);
    var i := ArgMax(full);
    VerdictAt(a, b, width, max, n, i);
    ZeroArgMax(full, i);
    TriedInRange(m, max);
    forall k {:trigger cut[k]} | 0 <= k < |cut| ensures cut[k] == 0 {
      var lead := Tried(m, max)[k];
      var j := PlaceOf(n, max, lead);
      FirstOfPrefix(a, b, n, c, d, m, lead);
      assert full[j] <= full[i];
    }
    NearestTried(n, max);
    NearestTried(m, max);
    VerdictAt(c, d, width, max, m, 0);
  }

  lemma NearestTried(n: nat, max: nat)
    requires n > 0
    ensures Tried(n, max) != [] && Tried(n, max)[0] == 0
  {
    LeadsSorted(Min(max, n - 1), max);
    var j := PlaceOf(n, max, 0);
    ZeroFirst(Tried(n, max), Min(max, n - 1), max, j);
  }

  lemma ZeroFirst(leads: seq<int>, back: nat, ahead: nat, j: nat)
    requires BySize(leads, back, ahead) && j < |leads| && leads[j] == 0
    ensures j == 0
  {
    assert leads[0] in leads;
  }

  lemma ZeroArgMax(s: seq<nat>, i: nat)
    requires IsArgMax(s, i) && s[i] == 0
    ensures i == 0
  {
    assert s[0] <= s[i];
  }

  function Flat(value: int): (f: Frame)
    ensures |f| == 25
  {
    seq(25, _ => value)
  }

  /** A reference that changes at frame `LEAD`... */
  function Late(n: nat): (a: seq<Frame>)
    ensures |a| == n && forall k {:trigger a[k]} :: 0 <= k < n ==> a[k] == Flat(if k < LEAD then 0 else 1)
  {
    seq(n, k => Flat(if k < LEAD then 0 else 1))
  }

  /** ... and a render that is ahead by as much, and wrong from its frame `onset` on. */
  function Early(n: nat, onset: nat): (b: seq<Frame>)
    ensures |b| == n && forall k {:trigger b[k]} :: 0 <= k < n ==> b[k] == Flat(if k < onset then 1 else 2)
  {
    seq(n, k => Flat(if k < onset then 1 else 2))
  }

  /** The verdict of two grids finds its mismatch at a frame, or none. */
  ghost predicate Finds(a: seq<Frame>, b: seq<Frame>, first: Option<nat>) {
    Grid(a, 25) && Grid(b, 25) && VerdictLead(a, b, 25, LEAD).Some? && VerdictLead(a, b, 25, LEAD).value.first == first
  }

  /** One frame fewer can turn the verdict, whatever the onset after frame 0: over `onset + 1 + LEAD`
      frames the mismatch at `onset` is seen, and over one fewer the shift furthest back matches on all
      its window. */
  lemma OneFewerPasses(onset: nat)
    requires onset >= 1
    ensures var frames := CaseFrames(onset) - LEAD;
      var a, b := Late(frames), Early(frames + LEAD, onset);
      Finds(a, b, Some(onset)) && Finds(a[..frames - 1], b[..frames + LEAD - 1], None)
  {
    hide Finds, Flat, Late, Early;
    assert Late(onset + 1 + LEAD)[..onset + LEAD] == Late(onset + LEAD);
    assert Early(onset + 1 + 2 * LEAD, onset)[..onset + 2 * LEAD] == Early(onset + 2 * LEAD, onset);
    LateEarly(onset + 1 + LEAD, onset);
    LateEarly(onset + LEAD, onset);
  }

  lemma LateEarly(n: nat, onset: nat)
    requires onset >= 1 && LEAD + onset <= n <= LEAD + onset + 1
    ensures Finds(Late(n), Early(n + LEAD, onset), if n == LEAD + onset then None else Some(onset))
  {
    hide VerdictLead, Firsts, Tried, Flat, Late, Early;
    var a, b := Late(n), Early(n + LEAD, onset);
    FurthestBack(n, onset);
    var i := ArgMax(Firsts(a, b, n, LEAD));
    VerdictAt(a, b, 25, LEAD, n, i);
  }

  /** Only the shift furthest back gets past frame 0. */
  lemma FurthestBack(n: nat, onset: nat)
    requires onset >= 1 && LEAD + onset <= n <= LEAD + onset + 1
    ensures forall i: nat :: IsArgMax(Firsts(Late(n), Early(n + LEAD, onset), n, LEAD), i) ==>
      Tried(n, LEAD)[i] == -8 && Firsts(Late(n), Early(n + LEAD, onset), n, LEAD)[i] == onset
  {
    hide First, BySize, Flat, Late, Early, Tried;
    var a, b := Late(n), Early(n + LEAD, onset);
    var leads, firsts := Tried(n, LEAD), Firsts(a, b, n, LEAD);
    var m := PlaceOf(n, LEAD, -8);
    TriedInRange(n, LEAD);
    forall k {:trigger firsts[k]} | 0 <= k < |firsts| ensures firsts[k] == (if leads[k] == -8 then onset else 0) {
      FirstByShift(n, onset, leads[k]);
    }
    assert firsts[m] == onset;
    forall i: nat | IsArgMax(firsts, i) ensures leads[i] == -8 && firsts[i] == onset {
      assert firsts[m] <= firsts[i];
    }
  }

  lemma FirstByShift(n: nat, onset: nat, lead: int)
    requires onset >= 1 && LEAD + onset <= n <= LEAD + onset + 1 && -8 <= lead <= 8
    ensures First(Late(n), Early(n + LEAD, onset), n, lead) == if lead == -8 then onset else 0
  {
    hide Late, Early, Flat;
    FlatsDiffer();
    var a, b := Late(n), Early(n + LEAD, onset);
    if lead == -8 {
      forall f: nat | f < onset ensures !Differs(a, b, lead, f) {
      }
      assert n == LEAD + onset + 1 ==> Differs(a, b, lead, onset);
    } else {
      assert Differs(a, b, lead, 0);
    }
  }

  lemma FlatsDiffer()
    ensures Flat(0) != Flat(1) && Flat(0) != Flat(2) && Flat(1) != Flat(2)
  {
    assert Flat(0)[0] == 0 && Flat(1)[0] == 1 && Flat(2)[0] == 2;
  }

  // ----- pathdiff's lead mode

  /** Where the right grid first departs from the left. */
  datatype Cut = Cut(lead: int, size: nat, frame: Option<nat>, register: Option<nat>)

  function PwMask(f: Frame): Frame
    requires |f| == 25
  {
    seq(25, r requires 0 <= r < 25 => if r in {3, 10, 17} then f[r] % 16 else f[r])
  }

  /** Of a pulse width's high byte only the low nibble is compared. */
  lemma PwMasked(f: Frame, r: nat, high: nat, low: nat)
    requires |f| == 25 && r < 25 && f[r] == 16 * high + low && low < 16
    ensures PwMask(f)[r] == if r == 3 || r == 10 || r == 17 then low else f[r]
  {
  }

  function MaskedGrid(g: seq<Frame>): (m: seq<Frame>)
    requires Grid(g, 25)
    ensures |m| == |g| && Grid(m, 25) && forall f {:trigger m[f]} :: 0 <= f < |g| ==> m[f] == PwMask(g[f])
  {
    seq(|g|, f requires 0 <= f < |g| => PwMask(g[f]))
  }

  function Compare(left: seq<Frame>, right: seq<Frame>): (cut: Option<Cut>)
    requires Grid(left, 25) && Grid(right, 25)
  {
    var v := VerdictLead(MaskedGrid(left), MaskedGrid(right), 25, LEAD);
    if v.None? then None else Some(Cut(v.value.lead, v.value.n - Less(v.value.lead), v.value.first, v.value.register))
  }

  function CaseFrames(onset: nat): nat {
    onset + 1 + 2 * LEAD
  }

  /** The cut of two grids is the verdict's on their masked frames, at most 8 apart: its shift, the frames
      compared, and the frame and register of the first difference. */
  lemma CompareIs(left: seq<Frame>, right: seq<Frame>)
    requires Grid(left, 25) && Grid(right, 25)
    ensures var v, cut := VerdictLead(MaskedGrid(left), MaskedGrid(right), 25, 8), Compare(left, right);
      && cut.None? == v.None? && (v.None? <==> |left| < 1 || |right| < 9)
      && (v.Some? ==> cut.value.lead == v.value.lead && cut.value.frame == v.value.first
                      && cut.value.register == v.value.register
                      && forall f: int :: InWindow(v.value.n, v.value.lead, f) <==> 0 <= f < cut.value.size)
  {
    var v := VerdictLead(MaskedGrid(left), MaskedGrid(right), 25, 8);
    if v.Some? {
      VerdictMeans(MaskedGrid(left), MaskedGrid(right), 25, 8, v.value, 0);
    }
    hide VerdictLead, PwMask, BadFrom, Regs, First;
  }

  /** A divergence found over full grids is found again, at the same place, over the frames its case
      is cut to, both sides `LEAD` frames more; indeed `LEAD` frames fewer would do. */
  lemma CaseReproduces(left: seq<Frame>, right: seq<Frame>, frames: nat)
    requires Grid(left, 25) && Grid(right, 25) && Compare(left, right).Some? && Compare(left, right).value.frame.Some?
    requires CaseFrames(Compare(left, right).value.frame.value) - LEAD <= frames
    requires frames + LEAD <= |left| && frames + LEAD <= |right|
    ensures var cut, again := Compare(left, right).value, Compare(left[..frames + LEAD], right[..frames + LEAD]);
      && again.Some? && again.value.lead == cut.lead
      && again.value.frame == cut.frame && again.value.register == cut.register
  {
    hide VerdictLead, PwMask, MaskedGrid;
    var a, b := MaskedGrid(left), MaskedGrid(right);
    var c, d := MaskedGrid(left[..frames + LEAD]), MaskedGrid(right[..frames + LEAD]);
    assert c == a[..frames + LEAD] && d == b[..frames + LEAD];
    TruncationStable(a, b, c, d, 25, LEAD);
  }
}
