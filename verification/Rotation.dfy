/** `automaton.py`, the two word algorithms `minimise` keys cycles by: the primitive
    period (Knuth, Morris and Pratt's failure function) and the start of the least
    rotation (Booth's algorithm).
 */
module Rotation {
  import opened Words

  // ----- borders

  /** The first `l` letters of `s` are also the last `l` of its first `i`. */
  ghost predicate BorderAt(s: seq<int>, i: nat, l: nat) {
    l <= i <= |s| && s[..l] == s[i - l..i]
  }

  /** `l` is the longest border of `s[..i]` other than all of it. */
  ghost predicate LongestBorder(s: seq<int>, i: nat, l: nat) {
    l < i && BorderAt(s, i, l) && forall m: nat :: l < m < i ==> !BorderAt(s, i, m)
  }

  lemma BorderOfBorder(s: seq<int>, i: nat, k: nat, l: nat)
    requires BorderAt(s, i, k) && l <= k
    ensures BorderAt(s, i, l) <==> BorderAt(s, k, l)
  {
    assert s[..l] == s[..k][..l];
    assert s[k - l..k] == s[..k][k - l..] == s[i - k..i][k - l..] == s[i - l..i];
  }

  lemma BorderPrefix(s: seq<int>, i: nat, l: nat)
    requires 0 < l && 0 < i && BorderAt(s, i, l)
    ensures BorderAt(s, i - 1, l - 1) && s[l - 1] == s[i - 1]
  {
    assert s[..l - 1] == s[..l][..l - 1] == s[i - l..i][..l - 1];
    assert s[l - 1] == s[..l][l - 1] == s[i - l..i][l - 1];
  }

  /** Stepping from one border to the next shorter skips none. */
  lemma NextBorder(s: seq<int>, i: nat, k: nat, next: nat)
    requires 0 < k < i && BorderAt(s, i, k) && LongestBorder(s, k, next)
    ensures BorderAt(s, i, next)
    ensures forall m: nat :: next < m < k ==> !BorderAt(s, i, m)
  {
    BorderOfBorder(s, i, k, next);
    forall m: nat | next < m < k ensures !BorderAt(s, i, m) {
      BorderOfBorder(s, i, k, m);
    }
  }

  lemma BorderGrows(s: seq<int>, i: nat, k: nat)
    requires k < i < |s| && BorderAt(s, i, k) && s[i] == s[k]
    ensures BorderAt(s, i + 1, k + 1)
  {
    assert s[..k + 1] == s[..k] + [s[k]];
    assert s[i - k..i + 1] == s[i - k..i] + [s[i]];
  }

  lemma NoBorder(s: seq<int>, i: nat)
    requires i <= |s|
    ensures BorderAt(s, i, 0)
  {
  }

  lemma ExtendBorder(s: seq<int>, i: nat, k: nat)
    requires k < i < |s| && BorderAt(s, i, k)
    requires forall m: nat :: k < m < i && BorderAt(s, i, m) ==> s[i] != s[m]
    requires s[i] == s[k] || k == 0
    ensures LongestBorder(s, i + 1, if s[i] == s[k] then k + 1 else 0)
  {
    hide BorderAt;
    var next, end := if s[i] == s[k] then k + 1 else 0, i + 1;
    if s[i] == s[k] {
      BorderGrows(s, i, k);
    } else {
      NoBorder(s, end);
    }
    forall m: nat | next < m < end ensures !BorderAt(s, end, m) {
      if BorderAt(s, end, m) {
        BorderPrefix(s, end, m);
      }
    }
  }

  lemma BorderIsPeriod(s: seq<int>, p: nat)
    requires p <= |s|
    ensures BorderAt(s, |s|, |s| - p) <==> HasPeriod(s, p)
  {
    if BorderAt(s, |s|, |s| - p) {
      forall i: nat | i + p < |s| ensures s[i] == s[i + p] {
        assert s[i] == s[..|s| - p][i] == s[p..][i];
      }
    }
  }

  /** A word with a period dividing its length is unchanged by rotating by it. */
  lemma RotationPeriod(s: seq<int>, p: nat)
    requires 0 < p <= |s| && |s| % p == 0 && HasPeriod(s, p)
    ensures Rotate(s, p) == s
  {
    hide HasPeriod, Rotate;
    forall i: nat | i < |s| ensures Rotate(s, p)[i] == s[i] {
      RotateAt(s, p, i);
      PeriodWraps(s, p, i);
    }
  }

  lemma PeriodWraps(s: seq<int>, p: nat, i: nat)
    requires 0 < p <= |s| && |s| % p == 0 && HasPeriod(s, p) && i < |s|
    ensures s[(i + p) % |s|] == s[i]
  {
    var n := |s|;
    if i + p < n {
      ModUnique(i + p, n, 0, i + p);
    } else {
      hide HasPeriod;
      var j: nat := i + p - n;
      ModUnique(i + p, n, 1, j);
      var t: nat := n / p - 1;
      assert t * p == n - p by {
        ExactMultiple(n, p);
      }
      PeriodMultiple(s, p, j, t);
    }
  }

  lemma ExactMultiple(n: nat, p: nat)
    requires 0 < p <= n && n % p == 0
    ensures n / p >= 1 && (n / p - 1) * p == n - p
  {
    assert (n / p) * p == n;
  }

  /** A rotation by `q` that changes nothing gives a period dividing the length. */
  lemma InvariantRotation(s: seq<int>, q: nat)
    requires 0 < q < |s| && Rotate(s, q) == s
    ensures var g := Gcd(q, |s|); |s| % g == 0 && HasPeriod(s, g)
  {
    var n, f := |s|, Unroll(s, 0);
    forall k: nat ensures f(k) == f(k + q) {
      RotateAt(s, q, k % n);
      ModAddMod(q, k, n);
    }
    UnrollPeriodic(s, 0);
    PeriodicGcd(f, q, n);
    GcdDivides(q, n);
    var g := Gcd(q, n);
    forall i: nat | i + g < n ensures s[i] == s[i + g] {
      assert f(i) == f(i + g);
      ModUnique(i, n, 0, i);
      ModUnique(i + g, n, 0, i + g);
    }
  }

  /** The least linear period is a cyclic one when it divides the length; otherwise no
      proper rotation leaves the word unchanged (Fine and Wilf). */
  lemma LeastPeriod(s: seq<int>, p: nat)
    requires 0 < p <= |s| && HasPeriod(s, p)
    requires forall q: nat :: 0 < q < p ==> !HasPeriod(s, q)
    ensures |s| % p == 0 ==> Rotate(s, p) == s
    ensures forall q: nat :: 0 < q < (if |s| % p == 0 then p else |s|) ==> Rotate(s, q) != s
  {
    var n := |s|;
    if n % p == 0 {
      RotationPeriod(s, p);
    }
    forall q: nat | 0 < q < (if n % p == 0 then p else n) && Rotate(s, q) == s ensures false {
      InvariantRotation(s, q);
      var g := Gcd(q, n);
      var t := n / g;
      assert n == t * g;
      ProperDivisor(g, t);
      FineWilf(s, p, g);
      var c := Gcd(p, g);
      assert c == p;
      GcdDivides(p, g);
      ModOfMultiple(0, p, p);
      DividesTransitive(n, g, p);
    }
  }

  lemma ProperDivisor(g: nat, t: nat)
    requires 0 < g < t * g
    ensures 2 * g <= t * g
  {
    if t >= 2 {
      assert t * g == (t - 2) * g + 2 * g;
    }
  }

  lemma DividesTransitive(n: nat, g: nat, p: nat)
    requires p > 0 && g > 0 && n % g == 0 && g % p == 0
    ensures n % p == 0
  {
    assert n == (n / g) * g && g == (g / p) * p;
    assert n == ((n / g) * (g / p)) * p by {
      assert (n / g) * ((g / p) * p) == ((n / g) * (g / p)) * p;
    }
    ModUnique(n, p, (n / g) * (g / p), 0);
  }

  /** The longest border leaves the least period. */
  lemma LeastBorder(s: seq<int>, k: nat)
    requires |s| > 0 && LongestBorder(s, |s|, k)
    ensures k < |s| && HasPeriod(s, |s| - k) && forall q: nat :: 0 < q < |s| - k ==> !HasPeriod(s, q)
  {
    BorderIsPeriod(s, |s| - k);
    forall q: nat | 0 < q < |s| - k ensures !HasPeriod(s, q) {
      BorderIsPeriod(s, q);
      assert !BorderAt(s, |s|, |s| - q);
    }
  }

  lemma OneLetterBorder(s: seq<int>)
    requires |s| > 0
    ensures LongestBorder(s, 1, 0)
  {
  }

  lemma LongestIs(s: seq<int>, i: nat, l: nat)
    requires LongestBorder(s, i, l)
    ensures l < i && BorderAt(s, i, l) && forall m: nat :: l < m < i ==> !BorderAt(s, i, m)
  {
  }

  lemma WholeRotation(s: seq<int>)
    requires |s| > 0
    ensures |s| % |s| == 0 && Rotate(s, |s|) == s
  {
    ModUnique(|s|, |s|, 1, 0);
    RotationPeriod(s, |s|);
  }

  /** `_period`: the primitive period of the cyclic word. */
  method Period(s: seq<int>) returns (period: nat)
    requires |s| > 0
    ensures 0 < period <= |s| && |s| % period == 0
    ensures Rotate(s, period) == s
    ensures forall q: nat :: 0 < q < period ==> Rotate(s, q) != s
  {
    hide BorderAt, HasPeriod, Rotate, LongestBorder;
    var fail := new nat[|s|](_ => 0);
    OneLetterBorder(s);
    for i := 1 to |s|
      invariant forall j: nat :: j < i ==> LongestBorder(s, j + 1, fail[j])
    {
      var k: nat := fail[i - 1];
      LongestIs(s, i, k);
      while k != 0 && s[i] != s[k]
        invariant forall j: nat :: j < i ==> LongestBorder(s, j + 1, fail[j])
        invariant k < i && BorderAt(s, i, k)
        invariant forall m: nat :: k < m < i && BorderAt(s, i, m) ==> s[i] != s[m]
      {
        LongestIs(s, k, fail[k - 1]);
        NextBorder(s, i, k, fail[k - 1]);
        k := fail[k - 1];
      }
      ExtendBorder(s, i, k);
      fail[i] := k + if s[i] == s[k] then 1 else 0;
    }
    var least := |s| - fail[|s| - 1];
    LeastBorder(s, fail[|s| - 1]);
    assert 0 < least <= |s|;
    LeastPeriod(s, least);
    WholeRotation(s);
    period := if |s| % least == 0 then least else |s|;
  }

  // ----- Booth's algorithm

  /** Reading `d` from `b` and from `t`, the first letters to differ, before `end`, favour `b`. */
  ghost predicate Beats(d: seq<int>, b: nat, t: nat, end: nat)
    requires end <= |d|
  {
    exists m: nat :: BeatsAt(d, b, t, m, end)
  }

  ghost predicate BeatsAt(d: seq<int>, b: nat, t: nat, m: nat, end: nat)
    requires end <= |d|
  {
    b + m < end && t + m < end && d[b + m] < d[t + m] && d[b..b + m] == d[t..t + m]
  }

  /** What `d` reads from `t` up to `end` it also reads from `b`. */
  ghost predicate Tied(d: seq<int>, b: nat, t: nat, end: nat)
    requires end <= |d|
  {
    b <= t <= end && d[t..end] == d[b..b + (end - t)]
  }

  /** `b` is the best start among those before `end`, as far as the letters before `end` tell. */
  ghost predicate Best(d: seq<int>, b: nat, end: nat)
    requires end <= |d|
  {
    b < end && forall t: nat :: t < end && t != b ==> Beats(d, b, t, end) || Tied(d, b, t, end)
  }

  /** While letter `j` is being placed: `b` has not lost to any start, and the starts it is
      still tied with have read at most `l` letters, `l` of them from `j - l`. */
  ghost predicate Open(d: seq<int>, b: nat, j: nat, l: nat) {
    && j < |d| && b + l < j && Tied(d, b, j - l, j)
    && forall t: nat :: t <= j && t != b ==> Accounted(d, b, j, l, t)
  }

  /** `b` beats `t` by letter `j`, or `t` is tied and has read at most `l` letters. */
  ghost predicate Accounted(d: seq<int>, b: nat, j: nat, l: nat, t: nat)
    requires j < |d|
  {
    Beats(d, b, t, j + 1) || (b < t <= j <= t + l && Tied(d, b, t, j))
  }

  /** `fail[k] + 1` is the length of the longest border of the first `k + 1` letters of `w`. */
  ghost predicate Failures(w: seq<int>, fail: seq<int>) {
    && |w| <= |fail|
    && forall k: nat :: k < |w| ==> fail[k] >= -1 && LongestBorder(w, k + 1, fail[k] + 1)
  }

  lemma BorderWithin(w: seq<int>, v: seq<int>, i: nat, l: nat)
    requires w <= v && i <= |w|
    ensures BorderAt(w, i, l) <==> BorderAt(v, i, l)
  {
    if l <= i {
      assert v[..l] == v[..|w|][..l] == w[..l];
      assert v[i - l..i] == v[..|w|][i - l..i] == w[i - l..i];
    }
  }

  lemma FailuresWithin(w: seq<int>, v: seq<int>, fail: seq<int>)
    requires w <= v && Failures(v, fail)
    ensures Failures(w, fail)
  {
    forall k: nat | k < |w| ensures LongestBorder(w, k + 1, fail[k] + 1) {
      var e := k + 1;
      BorderWithin(w, v, e, fail[k] + 1);
      forall m: nat | fail[k] + 1 < m < e ensures !BorderAt(w, e, m) {
        BorderWithin(w, v, e, m);
      }
    }
  }

  lemma TiedIsBorder(d: seq<int>, b: nat, t: nat, j: nat)
    requires b <= t <= j <= |d|
    ensures Tied(d, b, t, j) <==> BorderAt(d[b..j], j - b, j - t)
  {
    var w := d[b..j];
    assert w[..j - t] == d[b..b + (j - t)];
    assert w[(j - b) - (j - t)..j - b] == d[t..j];
  }

  lemma BeatsLonger(d: seq<int>, b: nat, t: nat, j: nat, end: nat)
    requires j <= end <= |d| && Beats(d, b, t, j)
    ensures Beats(d, b, t, end)
  {
    var m: nat :| BeatsAt(d, b, t, m, j);
    assert BeatsAt(d, b, t, m, end);
  }

  lemma OpenInitially(d: seq<int>, b: nat, j: nat, l: nat)
    requires j < |d| && Best(d, b, j) && LongestBorder(d[b..j], j - b, l)
    ensures Open(d, b, j, l)
  {
    TiedIsBorder(d, b, j - l, j);
    forall t: nat | t <= j && t != b ensures Accounted(d, b, j, l, t) {
      if t < j {
        if Beats(d, b, t, j) {
          BeatsLonger(d, b, t, j, j + 1);
        } else {
          TiedIsBorder(d, b, t, j);
        }
      }
    }
  }

  /** A tie with fewer letters than `l` is a border of the `l` letters tied from `j - l`. */
  lemma ShorterTie(d: seq<int>, b: nat, j: nat, l: nat, t: nat, next: nat)
    requires j <= |d| && b + l <= j && Tied(d, b, j - l, j)
    requires b <= t <= j < t + l && Tied(d, b, t, j)
    requires LongestBorder(d[b..j], l, next)
    ensures j <= t + next
    ensures Tied(d, j - l, t, j)
  {
    TiedIsBorder(d, b, j - l, j);
    TiedIsBorder(d, b, t, j);
    BorderOfBorder(d[b..j], j - b, l, j - t);
    SliceTake(d, b, b + l, j - t);
    SliceTake(d, j - l, j, j - t);
  }

  lemma SliceDrop(d: seq<int>, lo: nat, hi: nat, k: nat)
    requires lo + k <= hi <= |d|
    ensures d[lo..hi][k..] == d[lo + k..hi]
  {
  }

  lemma SliceTake(d: seq<int>, lo: nat, hi: nat, k: nat)
    requires lo <= hi <= |d| && lo + k <= hi
    ensures d[lo..hi][..k] == d[lo..lo + k]
  {
  }

  lemma NextTie(d: seq<int>, b: nat, j: nat, l: nat, next: nat)
    requires j <= |d| && b + l <= j && Tied(d, b, j - l, j)
    requires LongestBorder(d[b..j], l, next)
    ensures Tied(d, b, j - next, j) && Tied(d, j - l, j - next, j)
  {
    TiedIsBorder(d, b, j - l, j);
    BorderOfBorder(d[b..j], j - b, l, next);
    TiedIsBorder(d, b, j - next, j);
    ShorterTie(d, b, j, l, j - next, next);
  }

  /** The tied start `j - l` reads a greater letter: go on to the next shorter tie. */
  lemma KeepStart(d: seq<int>, b: nat, j: nat, l: nat, next: nat)
    requires Open(d, b, j, l) && l > 0 && d[j] > d[b + l]
    requires LongestBorder(d[b..j], l, next)
    ensures Open(d, b, j, next)
  {
    NextTie(d, b, j, l, next);
    assert BeatsAt(d, b, j - l, l, j + 1);
    forall t: nat | t <= j && t != b ensures Accounted(d, b, j, next, t) {
      assert Accounted(d, b, j, l, t);
      if t != j - l && !Beats(d, b, t, j + 1) {
        ShorterTie(d, b, j, l, t, next);
      }
    }
  }

  /** A start that beats one beating another beats the other. */
  lemma BeatsTransitive(d: seq<int>, c: nat, b: nat, l: nat, t: nat, j: nat)
    requires j < |d| && BeatsAt(d, c, b, l, j + 1) && c + l == j
    requires Beats(d, b, t, j + 1)
    ensures Beats(d, c, t, j + 1)
  {
    var m: nat :| BeatsAt(d, b, t, m, j + 1);
    var k := if m < l then m else l;
    SlicesEqual(d, c, b, l, k);
    SlicesEqual(d, b, t, m, k);
    if m < l {
      SliceAt(d, c, b, l, m);
    } else if l < m {
      SliceAt(d, b, t, m, l);
    }
    assert BeatsAt(d, c, t, k, j + 1);
  }

  lemma TiedBeats(d: seq<int>, b: nat, j: nat, l: nat)
    requires j < |d| && b + l < j && Tied(d, b, j - l, j) && d[j] < d[b + l]
    ensures BeatsAt(d, j - l, b, l, j + 1) && Beats(d, j - l, b, j + 1)
  {
    assert BeatsAt(d, j - l, b, l, j + 1);
  }

  lemma NextShorter(w: seq<int>, l: nat, next: nat)
    requires LongestBorder(w, l, next)
    ensures next < l
  {
  }

  /** The tied start `j - l` reads a smaller letter: it becomes the best. */
  lemma MoveStart(d: seq<int>, b: nat, j: nat, l: nat, next: nat)
    requires Open(d, b, j, l) && l > 0 && d[j] < d[b + l]
    requires LongestBorder(d[b..j], l, next)
    ensures Open(d, j - l, j, next)
  {
    hide Beats, BeatsAt, Tied, LongestBorder;
    var c := j - l;
    NextTie(d, b, j, l, next);
    TiedBeats(d, b, j, l);
    NextShorter(d[b..j], l, next);
    forall t: nat | t <= j && t != c ensures Accounted(d, c, j, next, t) {
      if t != b {
        assert Accounted(d, b, j, l, t);
        if Beats(d, b, t, j + 1) {
          BeatsTransitive(d, c, b, l, t, j);
        } else {
          ShorterTie(d, b, j, l, t, next);
        }
      }
    }
  }

  /** No tie is left to follow and the letter itself is smaller than the first: start there. */
  lemma RestartAt(d: seq<int>, b: nat, j: nat)
    requires Open(d, b, j, 0) && d[j] < d[b]
    ensures Best(d, j, j + 1)
  {
    var end := j + 1;
    assert BeatsAt(d, j, b, 0, end);
    forall t: nat | t < end && t != j ensures Beats(d, j, t, end) {
      if t != b {
        assert Accounted(d, b, j, 0, t);
        BeatsTransitive(d, j, b, 0, t, j);
      }
    }
  }

  lemma NoTieLeft(d: seq<int>, b: nat, j: nat)
    requires Open(d, b, j, 0) && d[j] > d[b]
    ensures Best(d, b, j + 1)
  {
    var end := j + 1;
    assert BeatsAt(d, b, j, 0, end);
    forall t: nat | t < end && t != b ensures Beats(d, b, t, end) {
      assert Accounted(d, b, j, 0, t);
    }
  }

  /** The letter extends the longest open tie: every shorter one is extended or lost. */
  lemma ExtendTie(d: seq<int>, b: nat, j: nat, l: nat)
    requires Open(d, b, j, l) && d[j] == d[b + l]
    ensures Best(d, b, j + 1)
  {
    var end := j + 1;
    forall t: nat | t < end && t != b ensures Beats(d, b, t, end) || Tied(d, b, t, end) {
      assert Accounted(d, b, j, l, t);
      if !Beats(d, b, t, end) {
        var x := j - t;
        assert d[t..j + 1] == d[t..j] + [d[j]];
        assert d[b..b + x + 1] == d[b..b + x] + [d[b + x]];
        if x < l {
          ShorterLetter(d, b, j, l, t);
        }
      }
    }
  }

  lemma ShorterLetter(d: seq<int>, b: nat, j: nat, l: nat, t: nat)
    requires Open(d, b, j, l) && d[j] == d[b + l]
    requires b < t <= j < t + l && Tied(d, b, t, j) && !Beats(d, b, t, j + 1)
    ensures d[b + (j - t)] == d[j]
  {
    hide Beats, Tied;
    var x := j - t;
    var u := b + l - x;
    ShorterSlices(d, b, j, l, t);
    assert Accounted(d, b, j, l, u);
    BestLetter(d, b, u, x, j);
    SmallerLetterBeats(d, b, t, x, j + 1);
  }

  lemma ShorterSlices(d: seq<int>, b: nat, j: nat, l: nat, t: nat)
    requires j < |d| && b + l < j && Tied(d, b, j - l, j) && b < t <= j < t + l && Tied(d, b, t, j)
    ensures var x := j - t; d[b + l - x..b + l] == d[b..b + x] == d[t..j]
  {
    var x := j - t;
    SliceDrop(d, b, b + l, l - x);
    SliceDrop(d, j - l, j, l - x);
  }

  lemma SmallerLetterBeats(d: seq<int>, b: nat, t: nat, x: nat, end: nat)
    requires b + x < end && t + x < end <= |d| && d[b..b + x] == d[t..t + x]
    ensures d[b + x] < d[t + x] ==> Beats(d, b, t, end)
  {
    if d[b + x] < d[t + x] {
      assert BeatsAt(d, b, t, x, end);
    }
  }

  lemma SliceAt(d: seq<int>, b: nat, t: nat, m: nat, k: nat)
    requires b + m <= |d| && t + m <= |d| && d[b..b + m] == d[t..t + m] && k < m
    ensures d[b + k] == d[t + k]
  {
    assert d[b + k] == d[b..b + m][k] && d[t + k] == d[t..t + m][k];
  }

  /** A start that `b` has not lost to reads, after a common stretch, no smaller letter. */
  lemma BestLetter(d: seq<int>, b: nat, u: nat, x: nat, j: nat)
    requires j < |d| && b < u && u + x < j && d[b..b + x] == d[u..u + x]
    requires Beats(d, b, u, j + 1) || Tied(d, b, u, j)
    ensures d[b + x] <= d[u + x]
  {
    if Tied(d, b, u, j) {
      SliceAt(d, b, u, j - u, x);
    } else {
      var m: nat :| BeatsAt(d, b, u, m, j + 1);
      if m < x {
        SliceAt(d, b, u, x, m);
      } else if m > x {
        SliceAt(d, b, u, m, x);
      }
    }
  }

  lemma OneLetterTable(w: seq<int>, fail: seq<int>)
    requires |w| == 1 <= |fail| && fail[0] == -1
    ensures Failures(w, fail)
  {
  }

  lemma SameTable(w: seq<int>, fail: seq<int>, changed: seq<int>)
    requires Failures(w, fail) && |changed| == |fail|
    requires forall k: nat :: k < |w| ==> changed[k] == fail[k]
    ensures Failures(w, changed)
  {
    forall k: nat | k < |w| ensures changed[k] >= -1 && LongestBorder(w, k + 1, changed[k] + 1) {
      assert fail[k] >= -1 && LongestBorder(w, k + 1, fail[k] + 1);
    }
  }

  lemma FailuresExtend(w: seq<int>, v: seq<int>, fail: seq<int>)
    requires w <= v && |v| == |w| + 1 <= |fail| && Failures(w, fail)
    requires fail[|w|] >= -1 && LongestBorder(v, |v|, fail[|w|] + 1)
    ensures Failures(v, fail)
  {
    forall k: nat | k < |v| ensures fail[k] >= -1 && LongestBorder(v, k + 1, fail[k] + 1) {
      if k < |w| {
        var e := k + 1;
        assert LongestBorder(w, e, fail[k] + 1);
        BorderWithin(w, v, e, fail[k] + 1);
        forall m: nat | fail[k] + 1 < m < e ensures !BorderAt(v, e, m) {
          BorderWithin(w, v, e, m);
        }
      }
    }
  }

  /** What beats a start it is tied with reads a smaller letter next. */
  lemma BeatsTied(d: seq<int>, b: nat, t: nat, j: nat)
    requires j < |d| && Tied(d, b, t, j) && Beats(d, b, t, j + 1)
    ensures d[b + (j - t)] < d[j]
  {
    var end, x: nat := j + 1, j - t;
    var m: nat :| BeatsAt(d, b, t, m, end);
    TiedLetters(d, b, t, x, m);
  }

  lemma TiedLetters(d: seq<int>, b: nat, t: nat, x: nat, m: nat)
    requires b + x <= |d| && t + x <= |d| && d[b..b + x] == d[t..t + x] && b + m < |d| && t + m < |d|
    ensures m < x ==> d[b + m] == d[t + m]
  {
    if m < x {
      SliceAt(d, b, t, x, m);
    }
  }

  /** A border longer than the open ties cannot be extended by letter `j`. */
  lemma LongerBorderLost(d: seq<int>, b: nat, j: nat, l: nat, m: nat)
    requires Open(d, b, j, l) && l < m < j - b && BorderAt(d[b..j], j - b, m)
    ensures d[j] != d[b + m]
  {
    var t: nat := j - m;
    TiedIsBorder(d, b, t, j);
    assert Accounted(d, b, j, l, t);
    BeatsTied(d, b, t, j);
  }

  /** Following the longest open tie when letter `j` does not extend it. */
  lemma FollowTie(d: seq<int>, b: nat, j: nat, l: nat, fail: seq<int>)
    requires Open(d, b, j, l) && Failures(d[b..j], fail) && l > 0 && d[j] != d[b + l]
    ensures -1 <= fail[l - 1] < l - 1
    ensures var c := if d[j] < d[b + l] then j - l else b;
            Open(d, c, j, fail[l - 1] + 1) && Failures(d[c..j], fail)
  {
    var w := d[b..j];
    assert LongestBorder(w, l - 1 + 1, fail[l - 1] + 1);
    if d[j] < d[b + l] {
      MoveStart(d, b, j, l, fail[l - 1] + 1);
      assert d[j - l..j] == d[b..b + l] == w[..l];
      FailuresWithin(w[..l], w, fail);
    } else {
      KeepStart(d, b, j, l, fail[l - 1] + 1);
    }
  }

  /** What placing letter `j` leaves when the ties are followed to the end. */
  lemma Place(d: seq<int>, b: nat, j: nat, l: nat, fail: seq<int>)
    requires Open(d, b, j, l) && Failures(d[b..j], fail) && j - b < |fail|
    requires l == 0 || d[j] == d[b + l]
    requires d[j] != d[b + l] ==> d[b] < d[j]
    requires fail[j - b] == if d[j] == d[b + l] then l else -1
    ensures Best(d, b, j + 1) && Failures(d[b..j + 1], fail)
  {
    ExtendFailures(d, b, j, l, fail);
    if d[j] == d[b + l] {
      ExtendTie(d, b, j, l);
    } else {
      NoTieLeft(d, b, j);
    }
  }

  lemma ExtendFailures(d: seq<int>, b: nat, j: nat, l: nat, fail: seq<int>)
    requires Open(d, b, j, l) && Failures(d[b..j], fail) && j - b < |fail|
    requires l == 0 || d[j] == d[b + l]
    requires fail[j - b] == if d[j] == d[b + l] then l else -1
    ensures Failures(d[b..j + 1], fail)
  {
    hide Failures, Tied, BorderAt, LongestBorder, Beats, Accounted;
    var w, v, i: nat := d[b..j], d[b..j + 1], j - b;
    SliceTake(d, b, j + 1, i);
    SliceLetter(d, b, j + 1, i);
    SliceLetter(d, b, j + 1, l);
    TiedIsBorder(d, b, j - l, j);
    BorderWithin(w, v, i, l);
    NoLongerBorder(d, b, j, l);
    ExtendBorder(v, i, l);
    FailuresExtend(w, v, fail);
  }

  lemma SliceLetter(d: seq<int>, lo: nat, hi: nat, k: nat)
    requires lo + k < hi <= |d|
    ensures d[lo..hi][k] == d[lo + k]
  {
  }

  lemma NoLongerBorder(d: seq<int>, b: nat, j: nat, l: nat)
    requires Open(d, b, j, l)
    ensures var v := d[b..j + 1]; forall m: nat :: l < m < j - b && BorderAt(v, j - b, m) ==> v[m] != d[j]
  {
    var w, v, i: nat := d[b..j], d[b..j + 1], j - b;
    forall m: nat | l < m < i && BorderAt(v, i, m) ensures v[m] != d[j] {
      BorderWithin(w, v, i, m);
      LongerBorderLost(d, b, j, l, m);
    }
  }

  /** The best start of a doubled word starts the word's least rotation. */
  lemma BestRotation(s: seq<int>, b: nat)
    requires |s| > 0 && Best(s + s, b, 2 * |s|)
    ensures b < |s| && forall t: nat :: t < |s| ==> LexLe(Rotate(s, b), Rotate(s, t))
  {
    BestInRange(s, b);
    forall t: nat | t < |s| ensures LexLe(Rotate(s, b), Rotate(s, t)) {
      BestAgainst(s, b, t);
    }
  }

  lemma BestInRange(s: seq<int>, b: nat)
    requires |s| > 0 && Best(s + s, b, 2 * |s|)
    ensures b < |s|
  {
    if b >= |s| {
      SameStart(s, b);
    }
  }

  /** A start in the second copy does not beat its equal in the first. */
  lemma SameStart(s: seq<int>, b: nat)
    requires |s| <= b < 2 * |s|
    ensures !Beats(s + s, b, b - |s|, 2 * |s|)
  {
    var t: nat, end := b - |s|, 2 * |s|;
    forall m: nat ensures !BeatsAt(s + s, b, t, m, end) {
      if b + m < end {
        DoubledAt(s, t + m);
      }
    }
  }

  lemma BestAgainst(s: seq<int>, b: nat, t: nat)
    requires b < |s| && t < |s| && Best(s + s, b, 2 * |s|)
    ensures LexLe(Rotate(s, b), Rotate(s, t))
  {
    var n, d, end := |s|, s + s, 2 * |s|;
    DoubledRotation(s, b);
    DoubledRotation(s, t);
    if t != b {
      if Beats(d, b, t, end) {
        BeatsRotation(d, b, t, n);
      } else {
        SlicesEqual(d, b, t, end - t, n);
      }
    }
  }

  lemma BeatsRotation(d: seq<int>, b: nat, t: nat, n: nat)
    requires b + n <= |d| && t + n <= |d| && Beats(d, b, t, |d|)
    ensures LexLe(d[b..b + n], d[t..t + n])
  {
    var m: nat :| BeatsAt(d, b, t, m, |d|);
    if m < n {
      SlicesSmaller(d, b, t, m, n);
    } else {
      SlicesEqual(d, b, t, m, n);
    }
  }

  lemma SlicesEqual(d: seq<int>, b: nat, t: nat, m: nat, n: nat)
    requires n <= m && b + m <= |d| && t + m <= |d| && d[b..b + m] == d[t..t + m]
    ensures d[b..b + n] == d[t..t + n]
  {
    assert d[b..b + n] == d[b..b + m][..n];
    assert d[t..t + n] == d[t..t + m][..n];
  }

  lemma DoubledAt(s: seq<int>, k: nat)
    requires k < |s|
    ensures (s + s)[k] == (s + s)[k + |s|]
  {
  }

  lemma DoubledRotation(s: seq<int>, k: nat)
    requires k < |s|
    ensures (s + s)[k..k + |s|] == Rotate(s, k)
  {
  }

  lemma SlicesSmaller(d: seq<int>, b: nat, t: nat, m: nat, n: nat)
    requires b + n <= |d| && t + n <= |d| && m < n && BeatsAt(d, b, t, m, |d|)
    ensures LexLe(d[b..b + n], d[t..t + n])
  {
    var x, y := d[b..b + n], d[t..t + n];
    forall i: nat | i < m ensures x[i] == y[i] {
      assert x[i] == d[b..b + m][i] == d[t..t + m][i] == y[i];
    }
    assert SmallerAt(x, y, m);
  }

  /** The inner loop of `_least_rotation`: fall back along the ties letter `j` does not extend. */
  method FollowTies(d: seq<int>, fail: array<int>, start: nat, j: nat) returns (best: nat, i: int)
    requires j < |d| && Best(d, start, j) && Failures(d[start..j], fail[..])
    ensures i >= -1 && Open(d, best, j, i + 1) && Failures(d[best..j], fail[..])
    ensures best + i + 1 < j && (i == -1 || d[j] == d[best + i + 1])
  {
    hide Beats, Tied, LongestBorder, BorderAt, Accounted, BeatsAt;
    best, i := start, fail[j - start - 1];
    assert LongestBorder(d[start..j], (j - start - 1) + 1, fail[..][j - start - 1] + 1);
    OpenInitially(d, best, j, i + 1);
    while i != -1 && d[j] != d[best + i + 1]
      invariant i >= -1 && Open(d, best, j, i + 1) && Failures(d[best..j], fail[..])
      decreases i
    {
      FollowTie(d, best, j, i + 1, fail[..]);
      if d[j] < d[best + i + 1] {
        best := j - i - 1;
      }
      i := fail[i];
    }
  }

  lemma FirstIsBest(d: seq<int>)
    requires |d| > 0
    ensures Best(d, 0, 1)
  {
  }

  /** `_least_rotation`: the start of the lexicographically least rotation. */
  method LeastRotation(s: seq<int>) returns (best: nat)
    ensures s == [] ==> best == 0
    ensures s != [] ==> best < |s|
    ensures forall t: nat :: t < |s| ==> LexLe(Rotate(s, best), Rotate(s, t))
  {
    hide Best, Failures, LexLe, Rotate, Open;
    best := 0;
    if s == [] { return; }
    var d := s + s;
    var fail := new int[|d|](_ => -1);
    FirstIsBest(d);
    OneLetterTable(d[0..1], fail[..]);
    for j := 1 to |d|
      invariant best < j && Best(d, best, j) && Failures(d[best..j], fail[..])
    {
      var i: int;
      best, i := FollowTies(d, fail, best, j);
      ghost var before := fail[..];
      if d[j] != d[best + i + 1] {
        if d[j] < d[best] {
          RestartAt(d, best, j);
          best := j;
        }
        fail[j - best] := -1;
      } else {
        fail[j - best] := i + 1;
      }
      if best == j {
        OneLetterTable(d[j..j + 1], fail[..]);
      } else {
        SameTable(d[best..j], before, fail[..]);
        Place(d, best, j, i + 1, fail[..]);
      }
    }
    BestRotation(s, best);
  }
}
