/** Sequence helpers shared by the widgets and services: `Array.prototype.filter`
    and the no-duplicates property. */
module Seqs {

  /** No element occurs twice. */
  predicate NoDup<T(==)>(xs: seq<T>)
  {
    forall i, j :: 0 <= i < j < |xs| ==> xs[i] != xs[j]
  }

  /** The elements of `xs` that satisfy `p`, in their original order. */
  function Filter<T(!new)>(xs: seq<T>, p: T -> bool): (r: seq<T>)
    ensures |r| <= |xs|
    ensures forall x :: x in r <==> x in xs && p(x)
    decreases |xs|
  {
    if xs == [] then []
    else (if p(xs[0]) then [xs[0]] else []) + Filter(xs[1..], p)
  }

  /** Filtering distributes over concatenation: the kept elements of `xs`
      all come before the kept elements of `ys`, so order is preserved. */
  lemma {:induction false} FilterAppend<T(!new)>(xs: seq<T>, ys: seq<T>, p: T -> bool)
    ensures Filter(xs + ys, p) == Filter(xs, p) + Filter(ys, p)
    decreases |xs|
  {
    if xs == [] {
      assert xs + ys == ys;
    } else {
      assert (xs + ys)[1..] == xs[1..] + ys;
      FilterAppend(xs[1..], ys, p);
    }
  }

  /** Filtering one more element at the end appends it exactly when it is kept. */
  lemma FilterSnoc<T(!new)>(xs: seq<T>, x: T, p: T -> bool)
    ensures Filter(xs + [x], p) == Filter(xs, p) + (if p(x) then [x] else [])
  {
    FilterAppend(xs, [x], p);
    assert Filter([x], p) == (if p(x) then [x] else []) + Filter([x][1..], p);
  }

  /** A single element is kept exactly when it passes. */
  lemma FilterSingle<T(!new)>(x: T, p: T -> bool)
    ensures Filter([x], p) == if p(x) then [x] else []
  {
    assert Filter([x], p) == (if p(x) then [x] else []) + Filter([x][1..], p);
  }

  /** When every element passes, filtering changes nothing. */
  lemma {:induction false} FilterAll<T(!new)>(xs: seq<T>, p: T -> bool)
    requires forall i :: 0 <= i < |xs| ==> p(xs[i])
    ensures Filter(xs, p) == xs
    decreases |xs|
  {
    if xs != [] {
      FilterAll(xs[1..], p);
    }
  }

  /** When exactly the element at `k` fails, filtering cuts out just that element. */
  lemma FilterDropsOne<T(!new)>(xs: seq<T>, k: nat, p: T -> bool)
    requires k < |xs| && !p(xs[k])
    requires forall j :: 0 <= j < |xs| && j != k ==> p(xs[j])
    ensures Filter(xs, p) == xs[..k] + xs[k + 1..]
  {
    FilterAllSlice(xs, 0, k, p);
    FilterAllSlice(xs, k + 1, |xs|, p);
    FilterAt(xs, k, p);
  }

  /** Filtering cuts out a failing element whose two sides are kept whole. */
  lemma FilterAt<T(!new)>(xs: seq<T>, k: nat, p: T -> bool)
    requires k < |xs| && !p(xs[k])
    requires Filter(xs[0..k], p) == xs[0..k] && Filter(xs[k + 1..|xs|], p) == xs[k + 1..|xs|]
    ensures Filter(xs, p) == xs[..k] + xs[k + 1..]
  {
    assert xs[0..k] == xs[..k] && xs[k + 1..|xs|] == xs[k + 1..];
    FilterSkips(xs[..k], xs[k], xs[k + 1..], p);
    SplitAround(xs, k);
  }

  /** A sequence is its prefix, the element at `k`, and its suffix. */
  lemma SplitAround<T>(xs: seq<T>, k: nat)
    requires k < |xs|
    ensures xs == xs[..k] + ([xs[k]] + xs[k + 1..])
  {
    assert xs[..k] + [xs[k]] == xs[..k + 1];
  }

  /** A slice whose every element passes is kept whole. */
  lemma FilterAllSlice<T(!new)>(xs: seq<T>, lo: nat, hi: nat, p: T -> bool)
    requires lo <= hi <= |xs|
    requires forall j :: lo <= j < hi ==> p(xs[j])
    ensures Filter(xs[lo..hi], p) == xs[lo..hi]
  {
    var s := xs[lo..hi];
    forall j | 0 <= j < |s|
      ensures p(s[j])
    {
      assert s[j] == xs[lo + j];
    }
    FilterAll(s, p);
  }

  /** A failing element between two kept runs disappears from the result. */
  lemma FilterSkips<T(!new)>(a: seq<T>, x: T, b: seq<T>, p: T -> bool)
    requires Filter(a, p) == a && Filter(b, p) == b && !p(x)
    ensures Filter(a + ([x] + b), p) == a + b
  {
    var xb := [x] + b;
    assert Filter(xb, p) == b by {
      assert xb[0] == x && xb[1..] == b;
    }
    FilterAppend(a, xb, p);
  }

  /** Each element is kept as often as it occurs, or dropped entirely. */
  lemma {:induction false} FilterCount<T(!new)>(xs: seq<T>, p: T -> bool, x: T)
    ensures multiset(Filter(xs, p))[x] == if p(x) then multiset(xs)[x] else 0
    decreases |xs|
  {
    if xs != [] {
      FilterCount(xs[1..], p, x);
      assert xs == [xs[0]] + xs[1..];
    }
  }

  /** Filtering never introduces a duplicate. */
  lemma {:induction false} FilterNoDup<T(!new)>(xs: seq<T>, p: T -> bool)
    requires NoDup(xs)
    ensures NoDup(Filter(xs, p))
    decreases |xs|
  {
    if xs != [] {
      var tail := xs[1..];
      assert NoDup(tail) by {
        forall i, j | 0 <= i < j < |tail|
          ensures tail[i] != tail[j]
        {
          assert tail[i] == xs[i+1] && tail[j] == xs[j+1];
        }
      }
      FilterNoDup(tail, p);
      assert xs[0] !in tail by {
        forall k | 0 <= k < |tail|
          ensures tail[k] != xs[0]
        {
          assert tail[k] == xs[k+1];
        }
      }
      var head := if p(xs[0]) then [xs[0]] else [];
      var r := head + Filter(tail, p);
      forall i, j | 0 <= i < j < |r|
        ensures r[i] != r[j]
      {
        if head != [] && i == 0 {
          assert r[j] in Filter(tail, p);
        }
      }
    }
  }

  /** Appending a fresh element keeps a sequence free of duplicates. */
  lemma AppendFreshNoDup<T(!new)>(xs: seq<T>, x: T)
    requires NoDup(xs) && x !in xs
    ensures NoDup(xs + [x])
  {
    var r := xs + [x];
    forall i, j | 0 <= i < j < |r|
      ensures r[i] != r[j]
    {
      if j == |xs| {
        assert r[i] == xs[i];
      } else {
        assert r[i] == xs[i] && r[j] == xs[j];
      }
    }
  }
}
