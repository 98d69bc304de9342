/** Periods, rotations and the lexicographic order of finite words.

    This is the theory `automaton.py` relies on to give every cyclic label word one
    canonical form: Fine and Wilf's theorem, the uniqueness of a primitive root and
    the uniqueness of a least rotation.
 */
module Words {

  /** The word read from position `k` cyclically. */
  function Rotate<T>(s: seq<T>, k: nat): (r: seq<T>)
    requires k <= |s|
    ensures |r| == |s|
  {
    s[k..] + s[..k]
  }

  lemma RotateAt<T>(s: seq<T>, k: nat, i: nat)
    requires k <= |s| && i < |s|
    ensures Rotate(s, k)[i] == s[(i + k) % |s|]
  {
    WrapOnce(i + k, |s|);
  }

  lemma WrapOnce(i: nat, n: nat)
    requires i < 2 * n
    ensures i % n == if i < n then i else i - n
  {
    if i < n {
      ModUnique(i, n, 0, i);
    } else {
      ModUnique(i, n, 1, i - n);
    }
  }

  /** `s` agrees with itself shifted by `p`, where both are defined. */
  ghost predicate HasPeriod<T>(s: seq<T>, p: nat) {
    forall i: nat :: i + p < |s| ==> s[i] == s[i + p]
  }

  /** No proper rotation leaves the word unchanged. */
  ghost predicate Primitive<T>(s: seq<T>) {
    |s| > 0 && forall k: nat :: 0 < k < |s| ==> Rotate(s, k) != s
  }

  // ----- modular arithmetic

  lemma ModUnique(n: int, m: int, q: int, r: int)
    requires 0 <= r < m && n == q * m + r
    ensures n % m == r && n / m == q
  {
    var d := n / m - q;
    assert n == (n / m) * m + n % m;
    assert d * m == r - n % m by {
      assert (n / m - q) * m == (n / m) * m - q * m;
    }
    MultipleIsFar(d, m);
  }

  lemma MultipleIsFar(d: int, m: int)
    requires m >= 0
    ensures d == 0 || d * m >= m || d * m <= -m
  {
    if d >= 1 {
      assert d * m == (d - 1) * m + m;
    } else if d <= -1 {
      assert d * m == (d + 1) * m - m;
    }
  }

  lemma ModAddMod(a: int, b: int, m: int)
    requires m > 0
    ensures (a + b % m) % m == (a + b) % m
  {
    var q := b / m;
    var r := (a + b % m) / m;
    assert b == q * m + b % m;
    assert a + b == (q + r) * m + (a + b % m) % m by {
      assert (q + r) * m == q * m + r * m;
    }
    ModUnique(a + b, m, q + r, (a + b % m) % m);
  }

  lemma ModAddMultiple(a: int, q: int, m: int)
    requires m > 0
    ensures (a + q * m) % m == a % m
  {
    assert (q + a / m) * m == q * m + (a / m) * m;
    ModUnique(a + q * m, m, q + a / m, a % m);
  }

  lemma ModOfMultiple(a: int, m: int, n: int)
    requires m > 0 && n > 0 && n % m == 0
    ensures (a % n) % m == a % m
  {
    var q, t := n / m, a / n;
    assert a == t * n + a % n;
    assert n == q * m;
    assert t * n == (t * q) * m by {
      assert t * (q * m) == (t * q) * m;
    }
    ModAddMultiple(a % n, t * q, m);
  }

  // ----- greatest common divisor by subtraction

  function Gcd(p: nat, q: nat): (g: nat)
    requires p > 0 && q > 0
    ensures 0 < g <= p && g <= q
    decreases p + q
  {
    if p == q then p else if p > q then Gcd(p - q, q) else Gcd(p, q - p)
  }

  lemma DividesSum(a: nat, b: nat, g: nat)
    requires g > 0 && a % g == 0 && b % g == 0
    ensures (a + b) % g == 0
  {
    ModAddMod(a, b, g);
  }

  lemma {:induction false} GcdDivides(p: nat, q: nat)
    requires p > 0 && q > 0
    ensures p % Gcd(p, q) == 0 && q % Gcd(p, q) == 0
    decreases p + q
  {
    var g := Gcd(p, q);
    if p == q {
      ModUnique(p, p, 1, 0);
    } else if p > q {
      GcdDivides(p - q, q);
      DividesSum(p - q, q, g);
    } else {
      GcdDivides(p, q - p);
      DividesSum(q - p, p, g);
    }
  }

  // ----- Fine and Wilf, on finite words

  lemma PeriodMultiple<T>(s: seq<T>, p: nat, i: nat, t: nat)
    requires HasPeriod(s, p) && i + t * p < |s|
    ensures s[i] == s[i + t * p]
    decreases t
  {
    if t > 0 {
      assert t * p == (t - 1) * p + p;
      PeriodMultiple(s, p, i, t - 1);
      var j: nat := i + (t - 1) * p;
      assert j + p < |s|;
    }
  }

  /** Two periods of a word at least as long as their sum give their gcd as a period. */
  lemma {:induction false} FineWilf<T>(s: seq<T>, p: nat, q: nat)
    requires p > 0 && q > 0 && p + q <= |s|
    requires HasPeriod(s, p) && HasPeriod(s, q)
    ensures HasPeriod(s, Gcd(p, q))
    decreases p + q
  {
    if p > q {
      FineWilfStep(s, p, q);
    } else if p < q {
      FineWilfStep(s, q, p);
      assert Gcd(q, p) == Gcd(p, q) by { GcdSymmetric(p, q); }
    }
  }

  lemma GcdSymmetric(p: nat, q: nat)
    requires p > 0 && q > 0
    ensures Gcd(p, q) == Gcd(q, p)
    decreases p + q
  {
    if p > q {
      GcdSymmetric(p - q, q);
    } else if p < q {
      GcdSymmetric(p, q - p);
    }
  }

  /** Drop the last `q` letters: what is left has periods `p - q` and `q`. */
  lemma {:induction false} FineWilfStep<T>(s: seq<T>, p: nat, q: nat)
    requires p > q > 0 && p + q <= |s|
    requires HasPeriod(s, p) && HasPeriod(s, q)
    ensures HasPeriod(s, Gcd(p, q))
    decreases p + q, 0
  {
    var u := s[..|s| - q];
    var g := Gcd(p - q, q);
    forall i: nat | i + (p - q) < |u|
      ensures u[i] == u[i + (p - q)]
    {
      var j: nat := i + (p - q);
      assert s[i] == s[i + p];
      assert s[j] == s[j + q];
    }
    assert HasPeriod(u, p - q);
    assert HasPeriod(u, q);
    FineWilf(u, p - q, q);
    GcdDivides(p - q, q);
    forall i: nat | i + g < |s|
      ensures s[i] == s[i + g]
    {
      if i + g < |u| {
        assert u[i] == u[i + g];
      } else {
        // Both ends lie past the first q letters once moved back by one period q.
        assert i >= q by { assert |u| >= p; }
        var j: nat := i - q;
        assert u[j] == u[j + g];
        assert s[j] == s[j + q] && s[j + g] == s[j + g + q];
      }
    }
  }

  // ----- lexicographic order of words of one length

  ghost predicate SmallerAt(a: seq<int>, b: seq<int>, m: nat) {
    m < |a| && m < |b| && a[m] < b[m] && forall i: nat :: i < m ==> a[i] == b[i]
  }

  ghost predicate LexLe(a: seq<int>, b: seq<int>) {
    a == b || exists m: nat :: SmallerAt(a, b, m)
  }

  lemma LexAntisymmetric(a: seq<int>, b: seq<int>)
    requires LexLe(a, b) && LexLe(b, a)
    ensures a == b
  {
  }

  // ----- canonical words of periodic streams

  /** A primitive word no greater than any of its rotations. */
  ghost predicate Canonical(r: seq<int>) {
    Primitive(r) && forall k: nat :: k < |r| ==> LexLe(r, Rotate(r, k))
  }

  ghost predicate Periodic<T>(f: nat -> T, p: nat) {
    forall k: nat :: f(k) == f(k + p)
  }

  lemma {:induction false} PeriodicGcd<T>(f: nat -> T, p: nat, q: nat)
    requires p > 0 && q > 0 && Periodic(f, p) && Periodic(f, q)
    ensures Periodic(f, Gcd(p, q))
    decreases p + q
  {
    if p > q {
      forall k: nat ensures f(k) == f(k + (p - q)) {
        assert f(k) == f(k + p);
        assert f(k + (p - q)) == f(k + (p - q) + q);
      }
      PeriodicGcd(f, p - q, q);
    } else if p < q {
      forall k: nat ensures f(k) == f(k + (q - p)) {
        assert f(k) == f(k + q);
        assert f(k + (q - p)) == f(k + (q - p) + p);
      }
      PeriodicGcd(f, p, q - p);
    }
  }

  /** The stream that repeats `r` from its position `i` on. */
  function Unroll<T>(r: seq<T>, i: nat): nat -> T
    requires |r| > 0
  {
    (k: nat) => r[(i + k) % |r|]
  }

  ghost predicate Agree<T>(r: seq<T>, i: nat, s: seq<T>, j: nat)
    requires |r| > 0 && |s| > 0
  {
    forall k: nat :: Unroll(r, i)(k) == Unroll(s, j)(k)
  }

  lemma UnrollPeriodic<T>(r: seq<T>, i: nat)
    requires |r| > 0
    ensures Periodic(Unroll(r, i), |r|)
  {
    forall k: nat ensures Unroll(r, i)(k) == Unroll(r, i)(k + |r|) {
      ModAddMultiple(i + k, 1, |r|);
    }
  }

  lemma PeriodRotates<T>(r: seq<T>, i: nat, g: nat)
    requires i < |r| && g <= |r| && Periodic(Unroll(r, i), g)
    ensures Rotate(r, g) == r
  {
    var p, f := |r|, Unroll(r, i);
    forall j: nat | j < p ensures Rotate(r, g)[j] == r[j] {
      var k: nat := j + p - i;
      RotateAt(r, g, j);
      ModAddMultiple(j, 1, p);
      ModAddMultiple(j + g, 1, p);
      assert f(k) == f(k + g);
      ModUnique(j, p, 0, j);
    }
  }

  lemma AgreeRotates<T>(r: seq<T>, i: nat, s: seq<T>, j: nat)
    requires |r| == |s| > 0 && i < |r| && j < |r| && Agree(r, i, s, j)
    ensures s == Rotate(r, (i + |r| - j) % |r|)
  {
    var d := (i + |r| - j) % |r|;
    forall x: nat | x < |r| ensures s[x] == Rotate(r, d)[x] {
      AgreeRotatesAt(r, i, s, j, x);
    }
  }

  lemma AgreeRotatesAt<T>(r: seq<T>, i: nat, s: seq<T>, j: nat, x: nat)
    requires |r| == |s| > 0 && i < |r| && j < |r| && x < |r| && Agree(r, i, s, j)
    ensures s[x] == Rotate(r, (i + |r| - j) % |r|)[x]
  {
    var p, k: nat := |r|, x + |r| - j;
    var d := (i + p - j) % p;
    Offsets(i, j, x, p);
    RotateAt(r, d, x);
    hide Rotate;
    assert Unroll(r, i)(k) == r[(i + k) % p] && Unroll(s, j)(k) == s[(j + k) % p];
    assert Unroll(r, i)(k) == Unroll(s, j)(k);
  }

  lemma Offsets(i: nat, j: nat, x: nat, p: nat)
    requires i < p && j < p && x < p
    ensures (j + (x + p - j)) % p == x
    ensures (i + (x + p - j)) % p == ((i + p - j) % p + x) % p
  {
    assert j + (x + p - j) == x + 1 * p;
    ModAddMultiple(x, 1, p);
    ModUnique(x, p, 0, x);
    assert i + (x + p - j) == x + (i + p - j);
    ModAddMod(x, i + p - j, p);
  }

  /** A periodic stream is unrolled from one canonical word, at one position, only. */
  lemma CanonicalUnique(r: seq<int>, i: nat, s: seq<int>, j: nat)
    requires Canonical(r) && Canonical(s) && i < |r| && j < |s| && Agree(r, i, s, j)
    ensures r == s && i == j
  {
    var p, q, f, h := |r|, |s|, Unroll(r, i), Unroll(s, j);
    UnrollPeriodic(r, i);
    UnrollPeriodic(s, j);
    forall k: nat ensures f(k) == f(k + q) && h(k) == h(k + p) {
      assert f(k) == h(k) && f(k + q) == h(k + q);
      assert f(k) == h(k) && f(k + p) == h(k + p);
      assert h(k) == h(k + q) && f(k) == f(k + p);
    }
    PeriodicGcd(f, p, q);
    PeriodicGcd(h, p, q);
    PeriodRotates(r, i, Gcd(p, q));
    PeriodRotates(s, j, Gcd(p, q));
    assert Gcd(p, q) == p == q;
    AgreeRotates(r, i, s, j);
    AgreeRotates(s, j, r, i);
    LexAntisymmetric(r, s);
    if i > j {
      ModUnique(i + p - j, p, 1, i - j);
    } else if i < j {
      ModUnique(i + p - j, p, 0, i + p - j);
    }
  }

  // ----- the canonical word of a cyclic word

  lemma RotateRotate<T>(w: seq<T>, a: nat, b: nat)
    requires a < |w| && b < |w|
    ensures Rotate(Rotate(w, a), b) == Rotate(w, (a + b) % |w|)
  {
    var v, c := Rotate(w, a), (a + b) % |w|;
    forall i: nat | i < |w| ensures Rotate(v, b)[i] == Rotate(w, c)[i] {
      RotateAt(v, b, i);
      RotateAt(w, a, (i + b) % |w|);
      RotateAt(w, c, i);
      assert ((i + b) % |w| + a) % |w| == (i + c) % |w| by {
        ModAddMod(a, i + b, |w|);
        ModAddMod(i, a + b, |w|);
      }
    }
  }

  lemma InvariantUnrotated<T>(w: seq<T>, a: nat, q: nat)
    requires a < |w| && q < |w| && Rotate(Rotate(w, a), q) == Rotate(w, a)
    ensures Rotate(w, q) == w
  {
    var v, n := Rotate(w, a), |w|;
    forall j: nat | j < n ensures Rotate(w, q)[j] == w[j] {
      var i := (j + n - a) % n;
      RotateAt(v, q, i);
      RotateAt(w, a, i);
      RotateAt(w, a, (i + q) % n);
      RotateAt(w, q, j);
      ModAddMod(a, j + n - a, n);
      ModAddMod(a, i + q, n);
      ModAddMod(a + q, j + n - a, n);
      ModAddMultiple(j, 1, n);
      ModAddMultiple(j + q, 1, n);
      ModUnique(j, n, 0, j);
    }
  }

  lemma RotatedPrimitive<T>(w: seq<T>, a: nat)
    requires Primitive(w) && a < |w|
    ensures Primitive(Rotate(w, a))
  {
    forall q: nat | 0 < q < |w| ensures Rotate(Rotate(w, a), q) != Rotate(w, a) {
      if Rotate(Rotate(w, a), q) == Rotate(w, a) {
        InvariantUnrotated(w, a, q);
      }
    }
  }

  lemma LeastIsCanonical(w: seq<int>, start: nat)
    requires Primitive(w) && start < |w|
    requires forall t: nat :: t < |w| ==> LexLe(Rotate(w, start), Rotate(w, t))
    ensures Canonical(Rotate(w, start))
  {
    RotatedPrimitive(w, start);
    forall k: nat | k < |w| ensures LexLe(Rotate(w, start), Rotate(Rotate(w, start), k)) {
      RotateRotate(w, start, k);
    }
  }

  /** A word unchanged by a rotation by `p` repeats its first `p` letters. */
  lemma RepeatsRootAt<T>(s: seq<T>, p: nat, j: nat)
    requires 0 < p <= |s| && Rotate(s, p) == s && j < |s|
    ensures s[j] == s[..p][j % p]
  {
    forall i: nat | i + p < |s| ensures s[i] == s[i + p] {
      assert Rotate(s, p)[i] == s[i + p];
    }
    assert j == j % p + (j / p) * p;
    PeriodMultiple(s, p, j % p, j / p);
  }

  lemma RootRotation<T>(s: seq<T>, p: nat, q: nat)
    requires 0 < p <= |s| && |s| % p == 0 && Rotate(s, p) == s && q < p
    requires Rotate(s[..p], q) == s[..p]
    ensures Rotate(s, q) == s
  {
    forall j: nat | j < |s| ensures Rotate(s, q)[j] == s[j] {
      RootRotationAt(s, p, q, j);
    }
  }

  lemma RootRotationAt<T>(s: seq<T>, p: nat, q: nat, j: nat)
    requires 0 < p <= |s| && |s| % p == 0 && Rotate(s, p) == s && q < p && j < |s|
    requires Rotate(s[..p], q) == s[..p]
    ensures Rotate(s, q)[j] == s[j]
  {
    hide Rotate;
    var w, k := s[..p], (j + q) % |s|;
    RepeatsRootAt(s, p, j);
    RepeatsRootAt(s, p, k);
    RotateAt(s, q, j);
    RotateAt(w, q, j % p);
    assert k % p == (q + j % p) % p by {
      ModOfMultiple(j + q, p, |s|);
      ModAddMod(q, j, p);
    }
  }

  lemma RootPrimitive<T>(s: seq<T>, p: nat)
    requires 0 < p <= |s| && |s| % p == 0 && Rotate(s, p) == s
    requires forall q: nat :: 0 < q < p ==> Rotate(s, q) != s
    ensures Primitive(s[..p])
  {
    forall q: nat | 0 < q < p ensures Rotate(s[..p], q) != s[..p] {
      if Rotate(s[..p], q) == s[..p] {
        RootRotation(s, p, q);
      }
    }
  }
}
