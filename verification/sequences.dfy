/**
 Generic operations over finite sequences that the statistics are built from:
 boolean-mask selection, column projection, extremal values, sums, means and
 percentages.
 */
module Sequences {
  import opened Wrappers

  /** Rows of `s` that satisfy the mask `p`, in their original order (`df[mask]`). */
  function Where<T>(s: seq<T>, p: T -> bool): (r: seq<T>)
    ensures |r| <= |s|
    ensures forall i :: 0 <= i < |r| ==> p(r[i])
  {
    if |s| == 0 then []
    else
      var front := Where(s[..|s| - 1], p);
      if p(s[|s| - 1]) then front + [s[|s| - 1]] else front
  }

  /** A selection keeps each matching row as often as the input holds it, and no other row. */
  lemma {:induction false} WhereMultiset<T>(s: seq<T>, p: T -> bool)
    ensures forall x :: multiset(Where(s, p))[x] == if p(x) then multiset(s)[x] else 0
  {
    if |s| > 0 {
      WhereMultiset(s[..|s| - 1], p);
      assert s == s[..|s| - 1] + [s[|s| - 1]];
    }
  }

  /** Every selected row is a row of the input. */
  lemma {:induction false} WhereSubset<T>(s: seq<T>, p: T -> bool)
    ensures forall i :: 0 <= i < |Where(s, p)| ==> Where(s, p)[i] in s
  {
    if |s| > 0 {
      WhereSubset(s[..|s| - 1], p);
      var front := Where(s[..|s| - 1], p);
      forall i | 0 <= i < |Where(s, p)| ensures Where(s, p)[i] in s {
        if i < |front| {
          assert Where(s, p)[i] == front[i];
          assert front[i] in s[..|s| - 1];
        }
      }
    }
  }

  /** Every row of the input that satisfies the mask is selected. */
  lemma {:induction false} WhereComplete<T>(s: seq<T>, p: T -> bool)
    ensures forall i :: 0 <= i < |s| && p(s[i]) ==> s[i] in Where(s, p)
  {
    if |s| > 0 {
      WhereComplete(s[..|s| - 1], p);
      var front := Where(s[..|s| - 1], p);
      forall i | 0 <= i < |s| && p(s[i]) ensures s[i] in Where(s, p) {
        if i < |s| - 1 {
          assert s[i] == s[..|s| - 1][i];
          assert s[i] in front;
        }
      }
    }
  }

  /** Column projection: `f` applied to every row, in order (`df[column]`). */
  function Map<T, U>(s: seq<T>, f: T -> U): (r: seq<U>)
    ensures |r| == |s|
    ensures forall i :: 0 <= i < |s| ==> r[i] == f(s[i])
  {
    if |s| == 0 then [] else Map(s[..|s| - 1], f) + [f(s[|s| - 1])]
  }

  /** A mask and its negation split a sequence: the two selections together are as long as it. */
  lemma {:induction false} WherePartition<T>(s: seq<T>, p: T -> bool, q: T -> bool)
    requires forall x :: q(x) <==> !p(x)
    ensures |Where(s, p)| + |Where(s, q)| == |s|
  {
    if |s| > 0 {
      WherePartition(s[..|s| - 1], p, q);
    }
  }

  /**
   Selecting rows never increases how often a projected value occurs: the
   column of a selection is a sub-multiset of the column of the whole.
   */
  lemma {:induction false} WhereMapCount<T, U>(s: seq<T>, p: T -> bool, f: T -> U, k: U)
    ensures multiset(Map(Where(s, p), f))[k] <= multiset(Map(s, f))[k]
  {
    if |s| > 0 {
      var front := s[..|s| - 1];
      var last := s[|s| - 1];
      WhereMapCount(front, p, f, k);
      assert Map(s, f) == Map(front, f) + [f(last)];
      if p(last) {
        assert Where(s, p) == Where(front, p) + [last];
        var w := Where(front, p);
        assert Map(w + [last], f) == Map(w, f) + [f(last)] by {
          assert (w + [last])[..|w + [last]| - 1] == w;
        }
      } else {
        assert Where(s, p) == Where(front, p);
      }
    }
  }

  /** The smallest element (`Series.min`). */
  function MinOf(xs: seq<int>): (m: int)
    requires |xs| > 0
    ensures m in xs
    ensures forall i :: 0 <= i < |xs| ==> m <= xs[i]
  {
    if |xs| == 1 then xs[0]
    else
      var rest := MinOf(xs[1..]);
      if xs[0] <= rest then xs[0] else rest
  }

  /** The largest element (`Series.max`). */
  function MaxOf(xs: seq<int>): (m: int)
    requires |xs| > 0
    ensures m in xs
    ensures forall i :: 0 <= i < |xs| ==> xs[i] <= m
  {
    if |xs| == 1 then xs[0]
    else
      var rest := MaxOf(xs[1..]);
      if rest <= xs[0] then xs[0] else rest
  }

  function SumOf(xs: seq<int>): int
  {
    if |xs| == 0 then 0 else xs[0] + SumOf(xs[1..])
  }

  /** Element-wise bounds carry over to the sum. */
  lemma {:induction false} SumBounds(xs: seq<int>, lo: int, hi: int)
    requires forall i :: 0 <= i < |xs| ==> lo <= xs[i] <= hi
    ensures |xs| * lo <= SumOf(xs) <= |xs| * hi
  {
    if |xs| > 0 {
      SumBounds(xs[1..], lo, hi);
    }
  }

  /** Division by a positive count preserves the bounds `n * lo <= s <= n * hi`. */
  lemma QuotientBounds(s: int, n: int, lo: int, hi: int)
    requires n > 0
    requires n * lo <= s <= n * hi
    ensures lo as real <= s as real / n as real <= hi as real
  {
    var q := s as real / n as real;
    assert q * n as real == s as real;
    assert lo as real * n as real <= s as real;
    assert hi as real * n as real >= s as real;
  }

  /** Multiplying a quotient back by its positive divisor gives the numerator. */
  lemma QuotientTimes(s: int, n: int)
    requires n > 0
    ensures (s as real / n as real) * n as real == s as real
  {
  }

  /** `v` is `k` out of `n` expressed as a percentage. */
  predicate IsPercentOf(v: real, k: int, n: int)
  {
    v * n as real == 100.0 * k as real
  }

  /** A percentage of a positive part of a whole lies in (0, 100]. */
  lemma PercentOfPositivePart(v: real, k: int, n: int)
    requires 0 < k <= n
    requires IsPercentOf(v, k, n)
    ensures 0.0 < v <= 100.0
  {
    assert v * n as real > 0.0;
    assert v * n as real <= 100.0 * n as real;
  }

  /** A quotient by a positive count equals an integer exactly when the numerator is that multiple. */
  lemma QuotientEquals(s: int, n: int, b: int)
    requires n > 0
    ensures s as real / n as real == b as real <==> s == b * n
  {
  }

  /**
   Arithmetic mean (`Series.mean`): absent (NaN) for an empty series,
   otherwise the number that, times the length, gives the sum.
   */
  function Mean(xs: seq<int>): (r: Option<real>)
    ensures r.None? <==> |xs| == 0
    ensures r.Some? ==> r.value * |xs| as real == SumOf(xs) as real
  {
    if |xs| == 0 then None
    else
      QuotientTimes(SumOf(xs), |xs|);
      Some(SumOf(xs) as real / |xs| as real)
  }

  /** The mean of a non-empty sequence lies between its minimum and its maximum. */
  lemma MeanBetweenMinAndMax(xs: seq<int>)
    requires |xs| > 0
    ensures Mean(xs).Some?
    ensures MinOf(xs) as real <= Mean(xs).value <= MaxOf(xs) as real
  {
    var lo, hi := MinOf(xs), MaxOf(xs);
    SumBounds(xs, lo, hi);
    QuotientBounds(SumOf(xs), |xs|, lo, hi);
  }

  /**
   `(mask).mean() * 100` for a mask with `k` true entries out of `n`:
   absent (NaN) when `n == 0`, otherwise the exact percentage.
   */
  function Percent(k: nat, n: nat): (r: Option<real>)
    requires k <= n
    ensures r.None? <==> n == 0
    ensures r.Some? ==> IsPercentOf(r.value, k, n)
    ensures r.Some? ==> 0.0 <= r.value <= 100.0
    ensures r.Some? ==> (r.value == 0.0 <==> k == 0)
    ensures r.Some? ==> (r.value == 100.0 <==> k == n)
  {
    if n == 0 then None
    else
      QuotientBounds(100 * k, n, 0, 100);
      QuotientEquals(100 * k, n, 0);
      QuotientEquals(100 * k, n, 100);
      Some((100 * k) as real / n as real)
  }

  /**
   An entry with the greatest value (`Series.idxmax` together with `Series.max`);
   absent for an empty series. Among equal maxima the first is kept.
   */
  function ArgMax<K>(l: seq<(K, real)>): (r: Option<(K, real)>)
    ensures r.None? <==> |l| == 0
    ensures r.Some? ==> r.value in l
    ensures r.Some? ==> forall i :: 0 <= i < |l| ==> l[i].1 <= r.value.1
  {
    if |l| == 0 then None
    else
      match ArgMax(l[1..])
      case None => Some(l[0])
      case Some(best) => if best.1 <= l[0].1 then Some(l[0]) else Some(best)
  }
}
