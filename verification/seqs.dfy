/** Sequence helpers shared by the position engine, the series queries
    and the universe filters: sums, quotient bounds and order-preserving
    filtering. */
module Seqs {

  /** Sum of a sequence of reals (Python's `sum`, `np.sum`). */
  function Sum(s: seq<real>): real {
    if |s| == 0 then 0.0 else s[0] + Sum(s[1..])
  }

  lemma {:induction false} SumAppend(a: seq<real>, b: seq<real>)
    ensures Sum(a + b) == Sum(a) + Sum(b)
  {
    if |a| == 0 {
      assert a + b == b;
    } else {
      assert (a + b)[1..] == a[1..] + b;
      SumAppend(a[1..], b);
    }
  }

  /** Every element lies in `[lo, hi]`, so the sum lies in `[|s|·lo, |s|·hi]`. */
  lemma {:induction false} SumBounds(s: seq<real>, lo: real, hi: real)
    requires forall i :: 0 <= i < |s| ==> lo <= s[i] <= hi
    ensures lo * (|s| as real) <= Sum(s) <= hi * (|s| as real)
  {
    if |s| > 0 {
      SumBounds(s[1..], lo, hi);
    }
  }

  /** A quotient `avg = value / total` with `lo·total <= value <= hi·total`
      lies in `[lo, hi]`. */
  lemma MeanBetween(avg: real, total: real, value: real, lo: real, hi: real)
    requires total > 0.0
    requires avg * total == value
    requires lo * total <= value <= hi * total
    ensures lo <= avg <= hi
  {
  }

  lemma QuotientTimes(value: real, total: real)
    requires total != 0.0
    ensures (value / total) * total == value
  {
  }

  lemma QuotientWithin(value: real, total: real, lo: real, hi: real)
    requires total > 0.0
    requires lo * total <= value <= hi * total
    ensures lo <= value / total <= hi
  {
    MeanBetween(value / total, total, value, lo, hi);
  }

  /** `a` occurs in `b` in order, possibly with gaps. */
  predicate Subseq<T(==)>(a: seq<T>, b: seq<T>)
    decreases |b|
  {
    if |a| == 0 then true
    else if |b| == 0 then false
    else if a[0] == b[0] then Subseq(a[1..], b[1..])
    else Subseq(a, b[1..])
  }

  /** Python's list comprehension `[x for x in s if p(x)]`. */
  function Filter<T(==,!new)>(s: seq<T>, p: T -> bool): (r: seq<T>)
    ensures |r| <= |s|
    ensures forall x :: x in r <==> x in s && p(x)
    ensures forall x :: multiset(r)[x] == if p(x) then multiset(s)[x] else 0
  {
    if |s| == 0 then []
    else
      assert s == [s[0]] + s[1..];
      var rest := Filter(s[1..], p);
      if p(s[0]) then [s[0]] + rest else rest
  }

  /** Filtering keeps the survivors in their original order. */
  lemma {:induction false} FilterIsSubseq<T(!new)>(s: seq<T>, p: T -> bool)
    ensures Subseq(Filter(s, p), s)
  {
    if |s| > 0 {
      FilterIsSubseq(s[1..], p);
      var rest := Filter(s[1..], p);
      if !p(s[0]) {
        SubseqSkip(rest, s);
      }
    }
  }

  /** Dropping the head of `b` is harmless when `a` is already in `b[1..]`. */
  lemma {:induction false} SubseqSkip<T>(a: seq<T>, b: seq<T>)
    requires |b| > 0
    requires Subseq(a, b[1..])
    ensures Subseq(a, b)
    decreases |b|, 0
  {
    if |a| > 0 && a[0] == b[0] {
      SubseqTail(a, b[1..]);
    }
  }

  /** A subsequence without its head is still a subsequence. */
  lemma {:induction false} SubseqTail<T>(a: seq<T>, b: seq<T>)
    requires |a| > 0
    requires Subseq(a, b)
    ensures Subseq(a[1..], b)
    decreases |b|, 1
  {
    if a[0] == b[0] {
      SubseqSkip(a[1..], b);
    } else {
      SubseqTail(a, b[1..]);
      SubseqSkip(a[1..], b);
    }
  }
}
