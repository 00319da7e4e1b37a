/** `Array.prototype.sort` with a comparator `(a, b) => key(b) - key(a)`:
    a stable sort into non-increasing key order, written as an insertion
    sort over sequences. Keys are reals so that integer fields and rating
    averages share one ordering. */
module StableSort {
  import opened Seqs

  ghost predicate SortedDesc<T>(key: T -> real, xs: seq<T>) {
    forall i, j :: 0 <= i < j < |xs| ==> key(xs[i]) >= key(xs[j])
  }

  /** The elements whose key is exactly `v`, in their order in `xs`. */
  function Tied<T>(key: T -> real, xs: seq<T>, v: real): seq<T>
    decreases |xs|
  {
    if |xs| == 0 then []
    else (if key(xs[0]) == v then [xs[0]] else []) + Tied(key, xs[1..], v)
  }

  /** Places `x` in front of the first element whose key is not above its own. */
  function Insert<T>(key: T -> real, x: T, ys: seq<T>): (r: seq<T>)
    ensures multiset(r) == multiset(ys) + multiset{x}
    decreases |ys|
  {
    if |ys| == 0 || key(x) >= key(ys[0]) then [x] + ys
    else
      assert ys == [ys[0]] + ys[1..];
      [ys[0]] + Insert(key, x, ys[1..])
  }

  /** Insertion keeps the front element or puts `x` there. */
  lemma InsertHead<T>(key: T -> real, x: T, ys: seq<T>)
    ensures Insert(key, x, ys)[0] == x || (|ys| > 0 && Insert(key, x, ys)[0] == ys[0])
  {
  }

  /** A sorted list stays sorted when an element no smaller than its head
      is put in front. */
  lemma ConsSorted<T>(key: T -> real, a: T, s: seq<T>)
    requires SortedDesc(key, s)
    requires |s| > 0 ==> key(a) >= key(s[0])
    ensures SortedDesc(key, [a] + s)
  {
    var r := [a] + s;
    forall i, j | 0 <= i < j < |r|
      ensures key(r[i]) >= key(r[j])
    {
      if i == 0 {
        assert r[j] == s[j - 1];
        if j > 1 {
          assert key(s[0]) >= key(s[j - 1]);
        }
      } else {
        assert r[i] == s[i - 1] && r[j] == s[j - 1];
      }
    }
  }

  lemma {:induction false} InsertSorted<T>(key: T -> real, x: T, ys: seq<T>)
    requires SortedDesc(key, ys)
    ensures SortedDesc(key, Insert(key, x, ys))
    decreases |ys|
  {
    if |ys| > 0 && key(x) < key(ys[0]) {
      var tail := ys[1..];
      assert SortedDesc(key, tail) by {
        forall i, j | 0 <= i < j < |tail|
          ensures key(tail[i]) >= key(tail[j])
        {
          assert tail[i] == ys[i + 1] && tail[j] == ys[j + 1];
        }
      }
      InsertSorted(key, x, tail);
      InsertHead(key, x, tail);
      var rest := Insert(key, x, tail);
      if rest[0] != x {
        assert key(ys[0]) >= key(ys[1]);
      }
      ConsSorted(key, ys[0], rest);
    } else {
      ConsSorted(key, x, ys);
    }
  }

  /** `Tied` of a list with a known front element. */
  lemma TiedCons<T>(key: T -> real, a: T, s: seq<T>, v: real)
    ensures Tied(key, [a] + s, v) == (if key(a) == v then [a] else []) + Tied(key, s, v)
  {
    assert ([a] + s)[1..] == s;
  }

  /** Stability of one insertion: `x` lands after the elements already
      carrying its key. */
  lemma {:induction false} InsertTied<T>(key: T -> real, x: T, ys: seq<T>, v: real)
    ensures Tied(key, Insert(key, x, ys), v) == Tied(key, [x] + ys, v)
    decreases |ys|
  {
    if |ys| > 0 && key(x) < key(ys[0]) {
      InsertTied(key, x, ys[1..], v);
      InsertTiedStep(key, x, ys, v);
    } else {
      assert Insert(key, x, ys) == [x] + ys;
    }
  }

  /** The inductive step of `InsertTied`: `x` passes over a front element
      with a higher key, which therefore cannot share `x`'s tie class. */
  lemma InsertTiedStep<T>(key: T -> real, x: T, ys: seq<T>, v: real)
    requires |ys| > 0 && key(x) < key(ys[0])
    requires Tied(key, Insert(key, x, ys[1..]), v) == Tied(key, [x] + ys[1..], v)
    ensures Tied(key, Insert(key, x, ys), v) == Tied(key, [x] + ys, v)
  {
    var tail := ys[1..];
    var rest := Insert(key, x, tail);
    var hx: seq<T> := if key(x) == v then [x] else [];
    var hy: seq<T> := if key(ys[0]) == v then [ys[0]] else [];
    TiedCons(key, ys[0], rest, v);
    TiedCons(key, x, tail, v);
    TiedCons(key, x, ys, v);
    TiedCons(key, ys[0], tail, v);
    assert ys == [ys[0]] + tail;
    assert Insert(key, x, ys) == [ys[0]] + rest;
    assert hx == [] || hy == [];
    assert Tied(key, Insert(key, x, ys), v) == hy + (hx + Tied(key, tail, v));
    assert Tied(key, [x] + ys, v) == hx + (hy + Tied(key, tail, v));
  }

  /** Sorts `xs` by non-increasing key; elements with equal keys keep their
      relative order. */
  function Sort<T>(key: T -> real, xs: seq<T>): (r: seq<T>)
    ensures multiset(r) == multiset(xs)
    ensures |r| == |xs|
    ensures SortedDesc(key, r)
    ensures forall v :: Tied(key, r, v) == Tied(key, xs, v)
    decreases |xs|
  {
    if |xs| == 0 then []
    else
      var rest := Sort(key, xs[1..]);
      assert xs == [xs[0]] + xs[1..];
      var r := Insert(key, xs[0], rest);
      assert |r| == |multiset(r)|;
      InsertSorted(key, xs[0], rest);
      InsertTiedAll(key, xs[0], rest);
      r
  }

  lemma InsertTiedAll<T>(key: T -> real, x: T, ys: seq<T>)
    ensures forall v :: Tied(key, Insert(key, x, ys), v) == Tied(key, [x] + ys, v)
  {
    forall v {
      InsertTied(key, x, ys, v);
    }
  }

  /** `sort(...).slice(0, n)`: the `n` highest-ranked elements, best first. */
  function TopN<T>(key: T -> real, xs: seq<T>, n: nat): (r: seq<T>)
    ensures |r| == if |xs| < n then |xs| else n
    ensures SortedDesc(key, r)
    ensures multiset(r) <= multiset(xs)
    ensures forall i :: 0 <= i < |r| ==> r[i] in xs
  {
    var s := Sort(key, xs);
    SortedPrefix(key, xs, s, Take(s, n));
    Take(s, n)
  }

  /** A prefix of a sorted rearrangement of `xs` is sorted, and draws its
      elements from `xs`. */
  lemma SortedPrefix<T>(key: T -> real, xs: seq<T>, s: seq<T>, r: seq<T>)
    requires SortedDesc(key, s) && multiset(s) == multiset(xs) && r <= s
    ensures SortedDesc(key, r)
    ensures multiset(r) <= multiset(xs)
    ensures forall i :: 0 <= i < |r| ==> r[i] in xs
  {
    assert s == r + s[|r|..];
    assert multiset(s) == multiset(r) + multiset(s[|r|..]);
    forall i | 0 <= i < |r|
      ensures r[i] in xs
    {
      assert r[i] in multiset(r);
      assert r[i] in multiset(xs);
    }
    forall i, j | 0 <= i < j < |r|
      ensures key(r[i]) >= key(r[j])
    {
      assert r[i] == s[i] && r[j] == s[j];
    }
  }

  /** Tied elements of the top `n` are the first of the input's tied
      elements, in input order: the truncated view is stable too. */
  lemma TopNStable<T>(key: T -> real, xs: seq<T>, n: nat, v: real)
    ensures Tied(key, TopN(key, xs, n), v) <= Tied(key, xs, v)
  {
    var s := Sort(key, xs);
    TiedPrefix(key, s, |TopN(key, xs, n)|, v);
  }

  lemma {:induction false} TiedPrefix<T>(key: T -> real, s: seq<T>, k: nat, v: real)
    requires k <= |s|
    ensures Tied(key, s[..k], v) <= Tied(key, s, v)
    decreases k
  {
    if k > 0 {
      TiedPrefix(key, s[1..], k - 1, v);
      assert s[..k][1..] == s[1..][..k - 1];
    }
  }

  /** The first `n` elements of a sorted sequence rank at least as high as
      every element left out; and an element of the multiset `whole` that
      `Take` keeps fewer copies of than `whole` has, is one of those left out. */
  lemma {:induction false} TakeOfSortedIsTop<T>(key: T -> real, s: seq<T>, n: nat, q: T)
    requires SortedDesc(key, s)
    requires q in multiset(s) && multiset(s[..if |s| < n then |s| else n])[q] < multiset(s)[q]
    ensures forall i :: 0 <= i < |s| && i < n ==> key(q) <= key(s[i])
  {
    var k := if |s| < n then |s| else n;
    assert s == s[..k] + s[k..];
    assert multiset(s) == multiset(s[..k]) + multiset(s[k..]);
    assert q in multiset(s[k..]);
    var j :| k <= j < |s| && s[j] == q by {
      assert q in s[k..];
    }
  }
}
