/** Order-preserving selection from a sequence, the shape of `iter().filter(..).collect()`. */
module Seqs {

  /** `a` is obtained from `b` by deleting elements, keeping the order of the rest. */
  ghost predicate IsSubsequence<T(!new)>(a: seq<T>, b: seq<T>)
    decreases |b|
  {
    a == [] || (b != [] && ((a[0] == b[0] && IsSubsequence(a[1..], b[1..])) || IsSubsequence(a, b[1..])))
  }

  /**
    The elements of `xs` that satisfy `p`, in their order, each as often as
    it occurs in `xs`.
   */
  function Filter<T(==, !new)>(xs: seq<T>, p: T -> bool): (r: seq<T>)
    ensures |r| <= |xs|
    ensures IsSubsequence(r, xs)
    ensures forall x :: x in r <==> x in xs && p(x)
    ensures forall x :: multiset(r)[x] == if p(x) then multiset(xs)[x] else 0
  {
    if xs == [] then []
    else
      assert xs == [xs[0]] + xs[1..];
      if p(xs[0]) then [xs[0]] + Filter(xs[1..], p) else Filter(xs[1..], p)
  }

  /** A subsequence never holds an element more often than the sequence it comes from. */
  lemma {:induction false} SubsequenceMultiset<T(!new)>(a: seq<T>, b: seq<T>)
    requires IsSubsequence(a, b)
    ensures multiset(a) <= multiset(b)
    decreases |b|
  {
    if a != [] {
      assert b == [b[0]] + b[1..];
      if a[0] == b[0] && IsSubsequence(a[1..], b[1..]) {
        assert a == [a[0]] + a[1..];
        SubsequenceMultiset(a[1..], b[1..]);
      } else {
        SubsequenceMultiset(a, b[1..]);
      }
    }
  }

  /**
    `Filter` is the only subsequence of `xs` that keeps every element
    satisfying `p`, as often as it occurs, and nothing else.
   */
  lemma {:induction false} FilterUnique<T(!new)>(xs: seq<T>, p: T -> bool, r: seq<T>)
    requires IsSubsequence(r, xs)
    requires forall x :: multiset(r)[x] == if p(x) then multiset(xs)[x] else 0
    ensures r == Filter(xs, p)
    decreases |xs|
  {
    if xs == [] {
      assert |multiset(r)| == 0;
    } else {
      var x0, tail := xs[0], xs[1..];
      assert xs == [x0] + tail;
      if r != [] && r[0] == x0 && IsSubsequence(r[1..], tail) {
        assert r == [x0] + r[1..];
        assert p(x0) by {
          assert multiset(r)[x0] > 0;
        }
        FilterUnique(tail, p, r[1..]);
      } else {
        assert IsSubsequence(r, tail);
        SubsequenceMultiset(r, tail);
        assert !p(x0);
        FilterUnique(tail, p, r);
      }
    }
  }

  /** A weaker test keeps a subsequence of what a stronger test keeps. */
  lemma {:induction false} FilterMonotone<T(!new)>(xs: seq<T>, p: T -> bool, q: T -> bool)
    requires forall x :: p(x) ==> q(x)
    ensures IsSubsequence(Filter(xs, p), Filter(xs, q))
    decreases |xs|
  {
    if xs != [] {
      FilterMonotone(xs[1..], p, q);
      if q(xs[0]) && !p(xs[0]) {
        var a, b := Filter(xs[1..], p), Filter(xs[1..], q);
        assert Filter(xs, q) == [xs[0]] + b;
        assert ([xs[0]] + b)[1..] == b;
        if a != [] {
          assert IsSubsequence(a, ([xs[0]] + b)[1..]);
        }
      } else if p(xs[0]) {
        assert Filter(xs, p)[1..] == Filter(xs[1..], p);
        assert Filter(xs, q)[1..] == Filter(xs[1..], q);
      }
    }
  }

  /** Two tests that agree everywhere keep the same elements. */
  lemma {:induction false} FilterExtensional<T(!new)>(xs: seq<T>, p: T -> bool, q: T -> bool)
    requires forall x :: p(x) == q(x)
    ensures Filter(xs, p) == Filter(xs, q)
    decreases |xs|
  {
    if xs != [] {
      FilterExtensional(xs[1..], p, q);
    }
  }

  /** A test every element passes keeps the whole sequence. */
  lemma {:induction false} FilterAll<T(!new)>(xs: seq<T>, p: T -> bool)
    requires forall k :: 0 <= k < |xs| ==> p(xs[k])
    ensures Filter(xs, p) == xs
    decreases |xs|
  {
    if xs != [] {
      FilterAll(xs[1..], p);
      assert xs == [xs[0]] + xs[1..];
    }
  }
}
