/** `Array.prototype.filter` and the order-preservation facts the read-side views rely on. */
module Seqs {
  import opened Common

  /** `xs.filter(p)`: the elements satisfying `p`, in their original order. */
  function Filter<T>(xs: seq<T>, p: T -> bool): (r: seq<T>)
    ensures |r| <= |xs|
    ensures forall x :: x in r ==> x in xs && p(x)
    ensures forall x :: x in xs && p(x) ==> x in r
  {
    if xs == [] then [] else (if p(xs[0]) then [xs[0]] else []) + Filter(xs[1..], p)
  }

  /** Filtering keeps every passing element as often as it occurs and drops the others
      entirely: it never merges duplicates. */
  lemma {:induction false} FilterCounts<T>(xs: seq<T>, p: T -> bool, x: T)
    ensures multiset(Filter(xs, p))[x] == if p(x) then multiset(xs)[x] else 0
  {
    if xs != [] {
      FilterCounts(xs[1..], p, x);
      assert xs == [xs[0]] + xs[1..];
    }
  }

  /** `xs` is obtained from `ys` by deleting some elements, keeping the order of the rest. */
  ghost predicate IsSubsequence<T>(xs: seq<T>, ys: seq<T>)
    decreases |ys|
  {
    if ys == [] then xs == []
    else (xs != [] && xs[0] == ys[0] && IsSubsequence(xs[1..], ys[1..])) || IsSubsequence(xs, ys[1..])
  }

  /** A filtered list is an order-preserving subsequence of the list it came from. */
  lemma {:induction false} FilterIsSubsequence<T>(xs: seq<T>, p: T -> bool)
    ensures IsSubsequence(Filter(xs, p), xs)
  {
    if xs != [] {
      FilterIsSubsequence(xs[1..], p);
      if p(xs[0]) {
        assert Filter(xs, p) == [xs[0]] + Filter(xs[1..], p);
        assert Filter(xs, p)[1..] == Filter(xs[1..], p);
      } else {
        assert Filter(xs, p) == Filter(xs[1..], p);
      }
    }
  }

  /** Filtering by `p` and by its negation splits a list: the two lengths add up to the whole. */
  lemma {:induction false} FilterSplitsLength<T>(xs: seq<T>, p: T -> bool, q: T -> bool)
    requires forall x :: q(x) == !p(x)
    ensures |Filter(xs, p)| + |Filter(xs, q)| == |xs|
  {
    if xs != [] {
      FilterSplitsLength(xs[1..], p, q);
    }
  }

  /** Filtering keeps a list unchanged exactly when every element passes. */
  lemma {:induction false} FilterKeepsAll<T>(xs: seq<T>, p: T -> bool)
    ensures Filter(xs, p) == xs <==> forall x :: x in xs ==> p(x)
  {
    if xs != [] {
      FilterKeepsAll(xs[1..], p);
      if !p(xs[0]) {
        assert |Filter(xs, p)| <= |xs[1..]|;
      }
    }
  }

  /** A weaker predicate keeps at least as many elements. */
  lemma {:induction false} FilterMonotone<T>(xs: seq<T>, p: T -> bool, q: T -> bool)
    requires forall x :: p(x) ==> q(x)
    ensures |Filter(xs, p)| <= |Filter(xs, q)|
  {
    if xs != [] {
      FilterMonotone(xs[1..], p, q);
    }
  }

  /** Filtering a list extended by one element: the element is kept exactly when it passes. */
  lemma {:induction false} FilterSnoc<T>(xs: seq<T>, x: T, p: T -> bool)
    ensures Filter(xs + [x], p) == Filter(xs, p) + (if p(x) then [x] else [])
  {
    if xs == [] {
      assert [] + [x] == [x];
    } else {
      assert (xs + [x])[1..] == xs[1..] + [x];
      FilterSnoc(xs[1..], x, p);
    }
  }

  /** A filter keeps as many elements as the list has exactly when every element passes. */
  lemma {:induction false} FilterFullLength<T>(xs: seq<T>, p: T -> bool)
    ensures |Filter(xs, p)| == |xs| <==> forall x :: x in xs ==> p(x)
  {
    FilterKeepsAll(xs, p);
    if xs != [] {
      FilterFullLength(xs[1..], p);
      if |Filter(xs, p)| == |xs| {
        assert p(xs[0]);
        assert forall x :: x in xs ==> x == xs[0] || x in xs[1..];
      }
    }
  }

  /** Predicates that agree on every element filter alike. */
  lemma {:induction false} FilterCongruent<T>(xs: seq<T>, p: T -> bool, q: T -> bool)
    requires forall x :: x in xs ==> p(x) == q(x)
    ensures Filter(xs, p) == Filter(xs, q)
  {
    if xs != [] {
      FilterCongruent(xs[1..], p, q);
    }
  }

  /** Filtering twice by the same predicate is filtering once. */
  lemma {:induction false} FilterIdempotent<T>(xs: seq<T>, p: T -> bool)
    ensures Filter(Filter(xs, p), p) == Filter(xs, p)
  {
    FilterKeepsAll(Filter(xs, p), p);
  }

  /** The elements on which `f` is defined. */
  function Defined<T, U>(f: T -> Option<U>): T -> bool {
    (x: T) => f(x).Some?
  }

  /** The values `f` yields over `xs`, in order, skipping the elements where it yields none
      (a loop that pushes `f(x)` whenever it is not null). */
  function Collect<T, U>(xs: seq<T>, f: T -> Option<U>): (r: seq<U>)
    ensures |r| <= |xs|
    decreases |xs|
  {
    if xs == [] then []
    else
      var n := |xs| - 1;
      Collect(xs[..n], f) + match f(xs[n]) { case Some(y) => [y] case None => [] }
  }

  /** The collected values are, one for one and in order, the values of `f` at the elements
      where it is defined; there are none exactly when it is defined nowhere. */
  lemma {:induction false} CollectFollowsFilter<T, U>(xs: seq<T>, f: T -> Option<U>)
    ensures var r := Collect(xs, f);
            var kept := Filter(xs, Defined(f));
            && |r| == |kept|
            && (forall i :: 0 <= i < |r| ==> f(kept[i]) == Some(r[i]))
            && (r == [] <==> forall i :: 0 <= i < |xs| ==> f(xs[i]).None?)
    decreases |xs|
  {
    if xs != [] {
      var n := |xs| - 1;
      var front, x := xs[..n], xs[n];
      CollectFollowsFilter(front, f);
      assert xs == front + [x];
      FilterSnoc(front, x, Defined(f));
      var r0, k0 := Collect(front, f), Filter(front, Defined(f));
      var r, kept := Collect(xs, f), Filter(xs, Defined(f));
      forall i | 0 <= i < |r| ensures f(kept[i]) == Some(r[i]) {
        if i < |r0| {
          assert r[i] == r0[i] && kept[i] == k0[i];
        } else {
          assert r[i] == f(x).value && kept[i] == x;
        }
      }
      if r == [] {
        forall i | 0 <= i < |xs| ensures f(xs[i]).None? {
          if i < n {
            assert xs[i] == front[i];
          }
        }
      }
    }
  }
}
