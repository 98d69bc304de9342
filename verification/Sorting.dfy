/** Python's `sorted` and `list.sort` by an integer key: stable. */
module Sorting {

  ghost predicate Sorted<T(!new)>(rows: seq<T>, key: T -> int) {
    forall i, j :: 0 <= i < j < |rows| ==> key(rows[i]) <= key(rows[j])
  }

  /** The rows of one key, in their order. */
  function WithKey<T>(rows: seq<T>, key: T -> int, k: int): seq<T> {
    if rows == [] then []
    else WithKey(rows[..|rows| - 1], key, k) + if key(rows[|rows| - 1]) == k then [rows[|rows| - 1]] else []
  }

  /** A row after every row of no later key. */
  function Insert<T>(rows: seq<T>, key: T -> int, e: T): seq<T> {
    if rows == [] || key(rows[|rows| - 1]) <= key(e) then rows + [e]
    else Insert(rows[..|rows| - 1], key, e) + [rows[|rows| - 1]]
  }

  function Sort<T>(rows: seq<T>, key: T -> int): seq<T> {
    if rows == [] then [] else Insert(Sort(rows[..|rows| - 1], key), key, rows[|rows| - 1])
  }

  lemma WithKeyAppend<T>(rows: seq<T>, key: T -> int, e: T, k: int)
    ensures WithKey(rows + [e], key, k) == WithKey(rows, key, k) + if key(e) == k then [e] else []
  {
    assert (rows + [e])[..|rows|] == rows;
  }

  lemma {:induction false} InsertWithKey<T>(rows: seq<T>, key: T -> int, e: T, k: int)
    ensures WithKey(Insert(rows, key, e), key, k) == WithKey(rows, key, k) + if key(e) == k then [e] else []
  {
    hide WithKey;
    var n := |rows| - 1;
    if rows == [] || key(rows[n]) <= key(e) {
      WithKeyAppend(rows, key, e, k);
    } else {
      var rest, last := rows[..n], rows[n];
      InsertWithKey(rest, key, e, k);
      WithKeyAppend(Insert(rest, key, e), key, last, k);
      WithKeyAppend(rest, key, last, k);
      assert rows == rest + [last];
      if key(e) == k {
        assert WithKey(rest, key, k) + [] == WithKey(rest, key, k);
        assert WithKey(rest, key, k) + [e] + [] == WithKey(rest, key, k) + [e];
      } else {
        assert WithKey(rest, key, k) + [] == WithKey(rest, key, k);
      }
    }
  }

  ghost predicate UpTo<T>(rows: seq<T>, key: T -> int, top: int) {
    forall i {:trigger rows[i]} :: 0 <= i < |rows| ==> key(rows[i]) <= top
  }

  lemma {:induction false} InsertSorted<T(!new)>(rows: seq<T>, key: T -> int, e: T, top: int)
    requires Sorted(rows, key) && key(e) <= top && UpTo(rows, key, top)
    ensures Sorted(Insert(rows, key, e), key) && UpTo(Insert(rows, key, e), key, top)
  {
    var n := |rows| - 1;
    if rows != [] && key(rows[n]) > key(e) {
      InsertSorted(rows[..n], key, e, key(rows[n]));
    }
  }

  function Highest<T>(rows: seq<T>, key: T -> int): (top: int)
    ensures UpTo(rows, key, top)
  {
    if rows == [] then 0
    else
      var rest, last := Highest(rows[..|rows| - 1], key), key(rows[|rows| - 1]);
      if last > rest then last else rest
  }

  /** Sorting puts the rows in key order and keeps the order of those of one key. */
  lemma {:induction false} SortIsStable<T(!new)>(rows: seq<T>, key: T -> int, k: int)
    ensures Sorted(Sort(rows, key), key) && WithKey(Sort(rows, key), key, k) == WithKey(rows, key, k)
  {
    if rows != [] {
      hide Insert;
      var rest, e := rows[..|rows| - 1], rows[|rows| - 1];
      SortIsStable(rest, key, k);
      var sorted := Sort(rest, key);
      var top := if key(e) > Highest(sorted, key) then key(e) else Highest(sorted, key);
      InsertSorted(sorted, key, e, top);
      InsertWithKey(sorted, key, e, k);
    }
  }

  /** Sorted rows stay as they are. */
  lemma {:induction false} SortedStay<T(!new)>(rows: seq<T>, key: T -> int)
    requires Sorted(rows, key)
    ensures Sort(rows, key) == rows
  {
    if rows != [] {
      var rest := rows[..|rows| - 1];
      SortedStay(rest, key);
      assert rest + [rows[|rows| - 1]] == rows;
    }
  }
}
