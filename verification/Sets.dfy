/** Sizes of finite sets. */
module Sets {

  lemma SubsetSize<T>(a: set<T>, b: set<T>)
    requires a <= b
    ensures |a| <= |b|
  {
    assert |b - a| == |b| - |a|;
  }

  lemma SubsetSame<T>(a: set<T>, b: set<T>)
    requires a <= b && |b| <= |a|
    ensures a == b
  {
    assert |b - a| == |b| - |a|;
  }

  lemma SplitSize<T>(all: set<T>, a: set<T>, b: set<T>)
    ensures |all| <= |a| + |b| + |all - a - b|
  {
    var rest := all - a - b;
    SubsetSize(all, a + (b + rest));
    assert |a + (b + rest)| <= |a| + |b + rest|;
    assert |b + rest| <= |b| + |rest|;
  }

  /** An injection into `b` bounds the size of its domain. */
  lemma ImageSize<A, B>(a: set<A>, f: A -> B, b: set<B>)
    requires forall x, y :: x in a && y in a && f(x) == f(y) ==> x == y
    requires forall x :: x in a ==> f(x) in b
    ensures |a| <= |b|
    decreases |a|
  {
    if x :| x in a {
      ImageSize(a - {x}, f, b - {f(x)});
    }
  }

  lemma Member<T>(s: set<T>) returns (x: T)
    requires s != {}
    ensures x in s
  {
    x :| x in s;
  }
}
