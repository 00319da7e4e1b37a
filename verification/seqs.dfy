/** Sequence helpers shared by the catalog views, the favorites store and
    the chat screen: order-preserving filtering, duplicate-freedom and
    first-occurrence deduplication. */
module Seqs {

  /** `r` can be obtained from `xs` by deleting elements, keeping order. */
  ghost predicate IsSubsequence<T>(r: seq<T>, xs: seq<T>)
    decreases |xs|
  {
    |r| == 0 ||
    (|xs| > 0 &&
     ((r[0] == xs[0] && IsSubsequence(r[1..], xs[1..])) || IsSubsequence(r, xs[1..])))
  }

  predicate NoDup<T(==)>(xs: seq<T>) {
    forall i, j :: 0 <= i < j < |xs| ==> xs[i] != xs[j]
  }

  /** Array.prototype.filter: the elements satisfying `f`, in their original order. */
  function Filter<T(!new)>(f: T -> bool, xs: seq<T>): (r: seq<T>)
    ensures |r| <= |xs|
    ensures multiset(r) <= multiset(xs)
    ensures forall i :: 0 <= i < |r| ==> f(r[i])
    ensures forall x :: multiset(r)[x] == if f(x) then multiset(xs)[x] else 0
    ensures forall x :: x in r <==> x in xs && f(x)
    decreases |xs|
  {
    if |xs| == 0 then []
    else
      var rest := Filter(f, xs[1..]);
      assert xs == [xs[0]] + xs[1..];
      assert multiset(xs) == multiset{xs[0]} + multiset(xs[1..]);
      if f(xs[0]) then
        assert ([xs[0]] + rest)[1..] == rest;
        [xs[0]] + rest
      else rest
  }

  /** Filtering a list with one element in front. */
  lemma FilterCons<T(!new)>(f: T -> bool, x: T, xs: seq<T>)
    ensures Filter(f, [x] + xs) == if f(x) then [x] + Filter(f, xs) else Filter(f, xs)
  {
    assert ([x] + xs)[1..] == xs;
  }

  /** The filtered list keeps the order of its input. */
  lemma {:induction false} FilterIsSubsequence<T(!new)>(f: T -> bool, xs: seq<T>)
    ensures IsSubsequence(Filter(f, xs), xs)
    decreases |xs|
  {
    if |xs| > 0 {
      FilterIsSubsequence(f, xs[1..]);
      var rest := Filter(f, xs[1..]);
      if f(xs[0]) {
        assert ([xs[0]] + rest)[1..] == rest;
      }
    }
  }

  /** A filter every element passes returns its input unchanged. */
  lemma {:induction false} FilterAll<T(!new)>(f: T -> bool, xs: seq<T>)
    requires forall i :: 0 <= i < |xs| ==> f(xs[i])
    ensures Filter(f, xs) == xs
    decreases |xs|
  {
    if |xs| > 0 {
      FilterAll(f, xs[1..]);
    }
  }

  /** Filtering keeps a duplicate-free list duplicate-free. */
  lemma {:induction false} FilterNoDup<T(!new)>(f: T -> bool, xs: seq<T>)
    requires NoDup(xs)
    ensures NoDup(Filter(f, xs))
    decreases |xs|
  {
    if |xs| > 0 {
      FilterNoDup(f, xs[1..]);
      var rest := Filter(f, xs[1..]);
      if f(xs[0]) {
        assert xs[0] !in xs[1..];
        assert xs[0] !in rest;
      }
    }
  }

  /** Filtering depends only on what the predicate says about the elements present. */
  lemma {:induction false} FilterCongruent<T(!new)>(f: T -> bool, g: T -> bool, xs: seq<T>)
    requires forall i :: 0 <= i < |xs| ==> f(xs[i]) == g(xs[i])
    ensures Filter(f, xs) == Filter(g, xs)
    decreases |xs|
  {
    if |xs| > 0 {
      FilterCongruent(f, g, xs[1..]);
    }
  }

  /** Filtering twice is filtering once by both predicates. */
  lemma {:induction false} FilterTwice<T(!new)>(f: T -> bool, g: T -> bool, h: T -> bool, xs: seq<T>)
    requires forall i :: 0 <= i < |xs| ==> h(xs[i]) == (f(xs[i]) && g(xs[i]))
    ensures Filter(g, Filter(f, xs)) == Filter(h, xs)
    decreases |xs|
  {
    if |xs| > 0 {
      FilterTwice(f, g, h, xs[1..]);
      var rest := Filter(f, xs[1..]);
      if f(xs[0]) {
        assert ([xs[0]] + rest)[1..] == rest;
      }
    }
  }

  /** slice(0, n). */
  function Take<T>(xs: seq<T>, n: nat): (r: seq<T>)
    ensures |r| == if |xs| < n then |xs| else n
    ensures r <= xs
  {
    if |xs| < n then xs else xs[..n]
  }

  /** The distinct elements of `xs`, each at its first occurrence: the
      iteration order of `new Set(xs)`. */
  function Dedup<T(==,!new)>(xs: seq<T>): (r: seq<T>)
    ensures NoDup(r)
    ensures forall x :: x in r <==> x in xs
    decreases |xs|
  {
    if |xs| == 0 then []
    else
      var init := xs[..|xs| - 1];
      var d := Dedup(init);
      assert xs == init + [xs[|xs| - 1]];
      if xs[|xs| - 1] in d then d else d + [xs[|xs| - 1]]
  }

  /** First-appearance order: deduplicating a prefix of `xs` yields a prefix
      of deduplicating all of `xs`, so a value that occurs earlier is listed
      earlier. */
  lemma {:induction false} DedupPrefix<T(!new)>(xs: seq<T>, n: nat)
    requires n <= |xs|
    ensures Dedup(xs[..n]) <= Dedup(xs)
    decreases |xs| - n
  {
    if n < |xs| {
      var init := xs[..|xs| - 1];
      assert init[..n] == xs[..n];
      DedupPrefix(init, n);
      assert xs[..|xs|] == xs;
    } else {
      assert xs[..n] == xs;
    }
  }
}
