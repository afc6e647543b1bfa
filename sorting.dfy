/** The stable ascending sort that `Array.prototype.sort` performs with a
    comparator of the form `key(a) - key(b)`, for an integer key. */
module StableSort {

  /** `key(a) <= key(b)` for every earlier `a` and later `b`. */
  predicate SortedBy<T>(s: seq<T>, key: T -> int) {
    forall i, j :: 0 <= i < j < |s| ==> key(s[i]) <= key(s[j])
  }

  /** The elements whose key is `t`, in their order in `s`. */
  function WithKey<T>(s: seq<T>, key: T -> int, t: int): seq<T> {
    if s == [] then []
    else (if key(s[0]) == t then [s[0]] else []) + WithKey(s[1..], key, t)
  }

  /** `x` placed before the first element whose key is no smaller than its own. */
  function InsertBy<T>(x: T, s: seq<T>, key: T -> int): seq<T> {
    if s == [] || key(x) <= key(s[0]) then [x] + s
    else [s[0]] + InsertBy(x, s[1..], key)
  }

  /** Insertion sort: each element, from the last to the first, is inserted in
      front of the elements with an equal key, so equal keys keep their order. */
  function SortBy<T>(s: seq<T>, key: T -> int): seq<T> {
    if s == [] then [] else InsertBy(s[0], SortBy(s[1..], key), key)
  }

  lemma {:induction false} InsertBySorted<T>(x: T, s: seq<T>, key: T -> int)
    requires SortedBy(s, key)
    ensures SortedBy(InsertBy(x, s, key), key)
    ensures multiset(InsertBy(x, s, key)) == multiset{x} + multiset(s)
    ensures |InsertBy(x, s, key)| == |s| + 1
    ensures InsertBy(x, s, key)[0] == x || (s != [] && InsertBy(x, s, key)[0] == s[0])
  {
    if s != [] && key(x) > key(s[0]) {
      InsertBySorted(x, s[1..], key);
      assert s == [s[0]] + s[1..];
    }
  }

  /** Inserting adds `x` in front of the elements with its key and leaves the
      elements of every other key as they were. */
  lemma {:induction false} InsertByStable<T>(x: T, s: seq<T>, key: T -> int, t: int)
    ensures WithKey(InsertBy(x, s, key), key, t) == (if key(x) == t then [x] else []) + WithKey(s, key, t)
  {
    if s != [] && key(x) > key(s[0]) {
      var r := InsertBy(x, s, key);
      var a := if key(s[0]) == t then [s[0]] else [];
      var b := if key(x) == t then [x] else [];
      assert r[0] == s[0] && r[1..] == InsertBy(x, s[1..], key);
      assert WithKey(r, key, t) == a + WithKey(r[1..], key, t);
      InsertByStable(x, s[1..], key, t);
      assert a == [] || b == [];
      assert WithKey(r, key, t) == a + (b + WithKey(s[1..], key, t));
    }
  }

  /** The sort yields an ascending permutation of its input. */
  lemma {:induction false} SortBySortedPermutation<T>(s: seq<T>, key: T -> int)
    ensures SortedBy(SortBy(s, key), key)
    ensures multiset(SortBy(s, key)) == multiset(s)
    ensures |SortBy(s, key)| == |s|
  {
    if s != [] {
      SortBySortedPermutation(s[1..], key);
      InsertBySorted(s[0], SortBy(s[1..], key), key);
      assert s == [s[0]] + s[1..];
    }
  }

  /** The sort is stable: elements with equal keys keep their order. */
  lemma {:induction false} SortByStable<T>(s: seq<T>, key: T -> int, t: int)
    ensures WithKey(SortBy(s, key), key, t) == WithKey(s, key, t)
  {
    if s != [] {
      SortByStable(s[1..], key, t);
      InsertByStable(s[0], SortBy(s[1..], key), key, t);
    }
  }
}
