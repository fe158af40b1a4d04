/** Python's `sorted(xs, key=k)` for string keys: a stable sort that orders
    elements by their keys and keeps elements with equal keys in input order. */
module Sorting {
  import opened Strings

  /** Neighbouring elements are in key order. */
  predicate AdjacentSorted<T>(key: T -> string, s: seq<T>)
  {
    forall i :: 0 < i < |s| ==> LexLe(key(s[i - 1]), key(s[i]))
  }

  /** Every pair of elements is in key order. */
  predicate Sorted<T>(key: T -> string, s: seq<T>)
  {
    forall i, j :: 0 <= i < j < |s| ==> LexLe(key(s[i]), key(s[j]))
  }

  /** The elements of `s` whose key is `k`, in their order in `s`. */
  function WithKey<T>(key: T -> string, s: seq<T>, k: string): seq<T>
  {
    if |s| == 0 then []
    else (if key(s[0]) == k then [s[0]] else []) + WithKey(key, s[1..], k)
  }

  /** Inserts `x` into a sorted sequence, in front of the first element whose
      key is not smaller than its own. */
  function Insert<T(==)>(key: T -> string, x: T, s: seq<T>): (r: seq<T>)
    requires AdjacentSorted(key, s)
    ensures |r| == |s| + 1
    ensures r[0] == x || (|s| > 0 && r[0] == s[0])
    ensures AdjacentSorted(key, r)
    ensures multiset(r) == multiset(s) + multiset{x}
  {
    if |s| == 0 || LexLe(key(x), key(s[0])) then
      [x] + s
    else
      LexLeTotal(key(x), key(s[0]));
      assert s == [s[0]] + s[1..];
      [s[0]] + Insert(key, x, s[1..])
  }

  /** Stable insertion sort by key. */
  function SortByKey<T(==)>(key: T -> string, s: seq<T>): (r: seq<T>)
    ensures AdjacentSorted(key, r)
    ensures multiset(r) == multiset(s)
  {
    if |s| == 0 then []
    else
      assert s == [s[0]] + s[1..];
      Insert(key, s[0], SortByKey(key, s[1..]))
  }

  /** Order between neighbours extends to order between all pairs. */
  lemma {:induction false} AdjacentSortedIsSorted<T>(key: T -> string, s: seq<T>)
    requires AdjacentSorted(key, s)
    ensures Sorted(key, s)
    decreases |s|
  {
    if |s| > 1 {
      AdjacentSortedIsSorted(key, s[1..]);
      forall j | 1 <= j < |s|
        ensures LexLe(key(s[0]), key(s[j]))
      {
        if j > 1 {
          assert LexLe(key(s[1]), key(s[j])) by {
            assert s[1..][0] == s[1] && s[1..][j - 1] == s[j];
          }
          LexLeTransitive(key(s[0]), key(s[1]), key(s[j]));
        }
      }
      forall i, j | 0 <= i < j < |s|
        ensures LexLe(key(s[i]), key(s[j]))
      {
        if i > 0 {
          assert s[1..][i - 1] == s[i] && s[1..][j - 1] == s[j];
        }
      }
    }
  }

  /** Inserting `x` puts it ahead of every element that has its key. */
  lemma {:induction false} InsertStable<T>(key: T -> string, x: T, s: seq<T>, k: string)
    requires AdjacentSorted(key, s)
    ensures WithKey(key, Insert(key, x, s), k) == (if key(x) == k then [x] else []) + WithKey(key, s, k)
    decreases |s|
  {
    if |s| == 0 || LexLe(key(x), key(s[0])) {
      assert Insert(key, x, s) == [x] + s;
      assert ([x] + s)[1..] == s;
    } else {
      var r := Insert(key, x, s);
      var rest := Insert(key, x, s[1..]);
      assert r == [s[0]] + rest;
      assert r[1..] == rest;
      InsertStable(key, x, s[1..], k);
      if key(x) == k {
        // s[0] sorts strictly before x, so it cannot share x's key.
        if key(s[0]) == k {
          LexLeReflexive(k);
        }
      }
    }
  }

  /** The sort is stable: for every key, the elements with that key appear in
      the output in exactly their input order. */
  lemma {:induction false} SortStable<T>(key: T -> string, s: seq<T>, k: string)
    ensures WithKey(key, SortByKey(key, s), k) == WithKey(key, s, k)
    decreases |s|
  {
    if |s| > 0 {
      SortStable(key, s[1..], k);
      InsertStable(key, s[0], SortByKey(key, s[1..]), k);
    }
  }
}
