/**
 * The array operations the log query chains together — `filter`,
 * `reverse` and `slice(0, n)` — on immutable sequences, with the
 * sub-sequence relation that describes what they keep.
 */
module Sequences {

  /** `a` is obtained from `b` by deleting elements, keeping the order of the rest. */
  predicate IsSubsequence<T(==)>(a: seq<T>, b: seq<T>)
    decreases |b|
  {
    || |a| == 0
    || (&& |b| > 0
        && ((a[0] == b[0] && IsSubsequence(a[1..], b[1..])) || IsSubsequence(a, b[1..])))
  }

  /** `Array.prototype.filter`: the elements that satisfy `keep`, in order. */
  function Filter<T(==)>(xs: seq<T>, keep: T -> bool): (r: seq<T>)
    ensures |r| <= |xs|
    ensures forall i :: 0 <= i < |r| ==> keep(r[i])
    ensures |r| == |xs| <==> forall i :: 0 <= i < |xs| ==> keep(xs[i])
  {
    if |xs| == 0 then []
    else if keep(xs[0]) then [xs[0]] + Filter(xs[1..], keep)
    else Filter(xs[1..], keep)
  }

  /** `Array.prototype.reverse`, as a new sequence. */
  function Reverse<T>(xs: seq<T>): (r: seq<T>)
    ensures |r| == |xs|
    ensures forall i {:trigger r[i]} :: 0 <= i < |xs| ==> r[i] == xs[|xs| - 1 - i]
  {
    if |xs| == 0 then [] else Reverse(xs[1..]) + [xs[0]]
  }

  /** `slice(0, n)` for a positive `n`: the first `n` elements, or all of them
      when there are fewer. */
  function Prefix<T>(xs: seq<T>, n: int): (r: seq<T>)
    requires n > 0
    ensures |r| == if n < |xs| then n else |xs|
    ensures r == xs[..|r|]
  {
    if n < |xs| then xs[..n] else xs
  }

  /** An element is kept exactly when it occurs in the input and passes the test. */
  lemma {:induction false} FilterMembers<T>(xs: seq<T>, keep: T -> bool)
    ensures forall x :: x in Filter(xs, keep) <==> x in xs && keep(x)
  {
    if |xs| > 0 {
      FilterMembers(xs[1..], keep);
      assert xs == [xs[0]] + xs[1..];
    }
  }

  lemma {:induction false} FilterIsSubsequence<T>(xs: seq<T>, keep: T -> bool)
    ensures IsSubsequence(Filter(xs, keep), xs)
  {
    if |xs| > 0 {
      FilterIsSubsequence(xs[1..], keep);
      if keep(xs[0]) {
        assert Filter(xs, keep)[1..] == Filter(xs[1..], keep);
      } else {
        SubsequenceOfTail(Filter(xs, keep), xs);
      }
    }
  }

  /** A sub-sequence of the tail is a sub-sequence of the whole. */
  lemma SubsequenceOfTail<T>(a: seq<T>, b: seq<T>)
    requires |b| > 0 && IsSubsequence(a, b[1..])
    ensures IsSubsequence(a, b)
  {
  }

  lemma {:induction false} PrefixIsSubsequence<T>(xs: seq<T>, n: nat)
    requires n <= |xs|
    ensures IsSubsequence(xs[..n], xs)
  {
    if n > 0 {
      PrefixIsSubsequence(xs[1..], n - 1);
      assert xs[..n][1..] == xs[1..][..n - 1];
    }
  }

  lemma {:induction false} SubsequenceTransitive<T>(a: seq<T>, b: seq<T>, c: seq<T>)
    requires IsSubsequence(a, b) && IsSubsequence(b, c)
    ensures IsSubsequence(a, c)
    decreases |c|
  {
    if |a| > 0 {
      if IsSubsequence(b, c[1..]) {
        SubsequenceTransitive(a, b, c[1..]);
      } else if a[0] == b[0] && IsSubsequence(a[1..], b[1..]) {
        SubsequenceTransitive(a[1..], b[1..], c[1..]);
      } else {
        SubsequenceTransitive(a, b[1..], c[1..]);
      }
    }
  }

  /** `filter` keeps every element that passes the test as often as it
      occurs in the input, and no other element. */
  lemma {:induction false} FilterCounts<T>(xs: seq<T>, keep: T -> bool)
    ensures forall x :: multiset(Filter(xs, keep))[x] == if keep(x) then multiset(xs)[x] else 0
  {
    if |xs| > 0 {
      FilterCounts(xs[1..], keep);
      assert xs == [xs[0]] + xs[1..];
    }
  }

  /** The positions among the first `n` whose element passes the test. */
  function PassingPositions<T>(xs: seq<T>, keep: T -> bool, n: nat): set<nat>
    requires n <= |xs|
  {
    set i: nat | i < n && keep(xs[i])
  }

  /** Filtering a single element keeps it exactly when it passes. */
  lemma FilterOne<T>(x: T, keep: T -> bool)
    ensures Filter([x], keep) == if keep(x) then [x] else []
  {
    assert [x][1..] == [];
  }

  /** One more position adds one to the passing positions exactly when its element passes. */
  lemma PassingPositionsStep<T>(xs: seq<T>, keep: T -> bool, n: nat)
    requires 0 < n <= |xs|
    ensures |PassingPositions(xs, keep, n)|
            == |PassingPositions(xs, keep, n - 1)| + if keep(xs[n - 1]) then 1 else 0
  {
    var upto := PassingPositions(xs, keep, n);
    var below := PassingPositions(xs, keep, n - 1);
    if keep(xs[n - 1]) {
      assert upto == below + {n - 1};
    } else {
      assert upto == below;
    }
  }

  /** The length of a filtered prefix is the number of its positions that pass. */
  lemma {:induction false} FilterPrefixLength<T>(xs: seq<T>, keep: T -> bool, n: nat)
    requires n <= |xs|
    ensures |Filter(xs[..n], keep)| == |PassingPositions(xs, keep, n)|
  {
    if n > 0 {
      FilterPrefixLength(xs, keep, n - 1);
      assert xs[..n] == xs[..n - 1] + [xs[n - 1]];
      FilterAppend(xs[..n - 1], [xs[n - 1]], keep);
      FilterOne(xs[n - 1], keep);
      PassingPositionsStep(xs, keep, n);
    }
  }

  /** `filter` returns as many elements as the input has positions that pass. */
  lemma FilterLength<T>(xs: seq<T>, keep: T -> bool)
    ensures |Filter(xs, keep)| == |PassingPositions(xs, keep, |xs|)|
  {
    FilterPrefixLength(xs, keep, |xs|);
    assert xs[..|xs|] == xs;
  }

  /** Filtering splits over concatenation. */
  lemma {:induction false} FilterAppend<T>(a: seq<T>, b: seq<T>, keep: T -> bool)
    ensures Filter(a + b, keep) == Filter(a, keep) + Filter(b, keep)
  {
    if |a| > 0 {
      FilterAppend(a[1..], b, keep);
      assert (a + b)[1..] == a[1..] + b;
    } else {
      assert a + b == b;
    }
  }

  /** Filtering and reversing commute: the code filters before it reverses,
      but the result is the same either way. */
  lemma {:induction false} FilterReverse<T>(xs: seq<T>, keep: T -> bool)
    ensures Filter(Reverse(xs), keep) == Reverse(Filter(xs, keep))
  {
    if |xs| > 0 {
      FilterReverse(xs[1..], keep);
      FilterAppend(Reverse(xs[1..]), [xs[0]], keep);
      if keep(xs[0]) {
        assert ([xs[0]] + Filter(xs[1..], keep))[1..] == Filter(xs[1..], keep);
      }
    }
  }

  /** Two filters in a row keep what satisfies both tests. */
  lemma {:induction false} FilterFilter<T>(xs: seq<T>, p: T -> bool, q: T -> bool, both: T -> bool)
    requires forall x :: both(x) == (p(x) && q(x))
    ensures Filter(Filter(xs, p), q) == Filter(xs, both)
  {
    if |xs| > 0 {
      FilterFilter(xs[1..], p, q, both);
      if p(xs[0]) {
        assert ([xs[0]] + Filter(xs[1..], p))[1..] == Filter(xs[1..], p);
      }
    }
  }

  /** A filter that accepts everything changes nothing. */
  lemma {:induction false} FilterAll<T>(xs: seq<T>, keep: T -> bool)
    requires forall x :: keep(x)
    ensures Filter(xs, keep) == xs
  {
    if |xs| > 0 {
      FilterAll(xs[1..], keep);
    }
  }

  /** The element appended last comes first after reversal. */
  lemma {:induction false} ReverseAppendOne<T>(xs: seq<T>, x: T)
    ensures Reverse(xs + [x]) == [x] + Reverse(xs)
  {
    if |xs| > 0 {
      ReverseAppendOne(xs[1..], x);
      assert (xs + [x])[1..] == xs[1..] + [x];
    } else {
      assert xs + [x] == [x];
    }
  }
}
