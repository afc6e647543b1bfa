/** Failure-aware result types shared by the whole model: `Option` stands for the
    source's `T | null` / `T | undefined`, `Result` for a call that can throw. */
module Wrappers {

  datatype Option<+T> = None | Some(value: T)

  datatype Result<+T, +E> = Ok(value: T) | Err(error: E)
}

/** Small sequence utilities used by several modules. */
module Seqs {

  /** Position of the first occurrence of `x` in `s` (JavaScript `indexOf`), or -1. */
  function IndexOf<T(==)>(s: seq<T>, x: T): (i: int)
    ensures -1 <= i && (i == -1 <==> x !in s)
    ensures 0 <= i ==> i < |s| && s[i] == x && x !in s[..i]
    decreases |s|
  {
    if |s| == 0 then -1
    else if s[0] == x then 0
    else
      assert s == [s[0]] + s[1..];
      var j := IndexOf(s[1..], x);
      assert j >= 0 ==> s[..j + 1] == [s[0]] + s[1..][..j];
      if j == -1 then -1 else j + 1
  }

  /** The elements of `s` that differ from `x`, in their original order. */
  function Without<T(==)>(s: seq<T>, x: T): (r: seq<T>)
    ensures multiset(r) == multiset(s)[x := 0]
    ensures x !in r
    decreases |s|
  {
    if |s| == 0 then []
    else
      assert s == [s[0]] + s[1..];
      if s[0] == x then Without(s[1..], x)
    else [s[0]] + Without(s[1..], x)
  }

  /** Appending an element moves no earlier first occurrence, and places the first
      occurrence of a new element at the old length. */
  lemma {:induction false} IndexOfAppend<T>(s: seq<T>, x: T, y: T)
    ensures IndexOf(s + [x], y) == if y in s then IndexOf(s, y) else if y == x then |s| else -1
    decreases |s|
  {
    if |s| > 0 {
      assert (s + [x])[1..] == s[1..] + [x];
      assert s == [s[0]] + s[1..];
      if s[0] != y {
        IndexOfAppend(s[1..], x, y);
      }
    }
  }

  /** The first occurrence in a concatenation: in the left part if there is one,
      otherwise shifted past it. */
  lemma {:induction false} IndexOfConcat<T>(a: seq<T>, b: seq<T>, x: T)
    ensures IndexOf(a + b, x) == if x in a then IndexOf(a, x) else if x in b then |a| + IndexOf(b, x) else -1
    decreases |a|
  {
    if |a| == 0 {
      assert a + b == b;
    } else {
      assert (a + b)[0] == a[0];
      assert (a + b)[1..] == a[1..] + b;
      assert a == [a[0]] + a[1..];
      if a[0] != x {
        IndexOfConcat(a[1..], b, x);
      }
    }
  }

  /** `s` with the `d` elements from position `i` replaced by `xs`. */
  function Splice<T>(s: seq<T>, i: nat, d: nat, xs: seq<T>): (r: seq<T>)
    requires i + d <= |s|
    ensures |r| == |s| - d + |xs|
  {
    s[..i] + xs + s[i + d..]
  }

  /** Splicing in at the very end appends. */
  lemma SpliceAtEnd<T>(s: seq<T>, xs: seq<T>)
    ensures Splice(s, |s|, 0, xs) == s + xs
  {
    assert s[..|s|] == s;
  }

  /** Splicing over the whole sequence yields the inserted elements. */
  lemma SpliceAll<T>(s: seq<T>, xs: seq<T>)
    ensures Splice(s, 0, |s|, xs) == xs
  {
    assert s[|s|..] == [];
  }

  /** A splice inside the left part of a concatenation is a splice of the whole. */
  lemma SpliceLeft<T>(a: seq<T>, b: seq<T>, i: nat, d: nat, xs: seq<T>, whole: seq<T>, spliced: seq<T>)
    requires i + d <= |a|
    requires whole == a + b && spliced == Splice(a, i, d, xs) + b
    ensures i + d <= |whole| && spliced == Splice(whole, i, d, xs)
  {
    assert (a + b)[..i] == a[..i];
    assert (a + b)[i + d..] == a[i + d..] + b;
  }

  /** A splice inside the right part of a concatenation is a splice of the whole,
      shifted past the left part. */
  lemma SpliceRight<T>(a: seq<T>, b: seq<T>, i: nat, d: nat, xs: seq<T>, whole: seq<T>, spliced: seq<T>, at: nat)
    requires i + d <= |b|
    requires whole == a + b && spliced == a + Splice(b, i, d, xs) && at == |a| + i
    ensures at + d <= |whole| && spliced == Splice(whole, at, d, xs)
  {
    assert (a + b)[..|a| + i] == a + b[..i];
    assert (a + b)[|a| + i + d..] == b[i + d..];
  }

  ghost predicate NoDuplicates<T>(s: seq<T>) {
    forall i, j :: 0 <= i < j < |s| ==> s[i] != s[j]
  }

  /** An element found at two positions occurs at least twice. */
  lemma TwoOccurrences<T>(s: seq<T>, i: nat, j: nat)
    requires i < j < |s| && s[i] == s[j]
    ensures multiset(s)[s[i]] >= 2
  {
    assert s == s[..j] + s[j..];
    assert s[i] in s[..j] && s[j] in s[j..];
  }

  /** `Array.from(new Set(s))`: each element once, in order of first occurrence. */
  function Dedup<T(==,!new)>(s: seq<T>): (d: seq<T>)
    ensures forall x :: x in d <==> x in s
    ensures NoDuplicates(d)
    ensures forall i, j :: 0 <= i < j < |d| ==> IndexOf(s, d[i]) < IndexOf(s, d[j])
    decreases |s|
  {
    if |s| == 0 then []
    else
      var init := s[..|s| - 1];
      var x := s[|s| - 1];
      assert s == init + [x];
      var d := Dedup(init);
      assert forall y :: IndexOf(s, y) == if y in init then IndexOf(init, y) else if y == x then |init| else -1 by {
        forall y ensures IndexOf(s, y) == if y in init then IndexOf(init, y) else if y == x then |init| else -1 {
          IndexOfAppend(init, x, y);
        }
      }
      if x in d then d else d + [x]
  }
}
