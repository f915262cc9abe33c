/** Running statistics, over exact reals instead of `f64`. */
module RunningStatistics {
  import opened Wrappers

  /** A named product, so that proofs can hide the multiplication and use its laws one by one. */
  function Times(a: real, b: real): real { a * b }

  lemma TimesSum(a: real, b: real, c: real)
    ensures Times(a + b, c) == Times(c, a + b) == Times(a, c) + Times(b, c)
    ensures Times(a, c) == Times(c, a) && Times(b, c) == Times(c, b)
  {
  }

  lemma SquareOfDifference(x: real, m: real)
    ensures Times(x - m, x - m) == Times(x, x) - 2.0 * Times(m, x) + Times(m, m)
  {
  }

  lemma PositiveProduct(a: real, b: real)
    requires a > 0.0 && b > 0.0
    ensures Times(a, b) > 0.0
  {
    assert a * b > 0.0;
  }

  lemma NegativeFactors(a: real, b: real)
    ensures Times(-a, -b) == Times(a, b)
  {
  }

  lemma SquareSign(d: real)
    ensures Times(d, d) >= 0.0 && (Times(d, d) == 0.0 <==> d == 0.0)
  {
    if d > 0.0 {
      PositiveProduct(d, d);
    } else if d < 0.0 {
      NegativeFactors(d, d);
      PositiveProduct(-d, -d);
    }
  }

  function Sum(s: seq<real>): real {
    if s == [] then 0.0 else Sum(s[..|s| - 1]) + s[|s| - 1]
  }

  function SumOfSquares(s: seq<real>): real {
    if s == [] then 0.0 else SumOfSquares(s[..|s| - 1]) + Times(s[|s| - 1], s[|s| - 1])
  }

  /** The two-pass sum of squared deviations from `m`. */
  function Deviations(s: seq<real>, m: real): real {
    if s == [] then 0.0 else Deviations(s[..|s| - 1], m) + Times(s[|s| - 1] - m, s[|s| - 1] - m)
  }

  function Mean(s: seq<real>): real {
    if s == [] then 0.0 else Sum(s) / |s| as real
  }

  lemma {:induction false} DeviationsExpand(s: seq<real>, m: real)
    ensures Deviations(s, m) == SumOfSquares(s) - 2.0 * Times(m, Sum(s)) + Times(|s| as real, Times(m, m))
  {
    if s == [] {
      assert Times(m, 0.0) == 0.0 && Times(0.0, Times(m, m)) == 0.0;
    } else {
      var front, x := s[..|s| - 1], s[|s| - 1];
      DeviationsExpand(front, m);
      SquareOfDifference(x, m);
      TimesSum(Sum(front), x, m);
      TimesSum(|front| as real, 1.0, Times(m, m));
      assert Times(1.0, Times(m, m)) == Times(m, m);
      hide Times;
    }
  }

  lemma {:induction false} DeviationsNonNegative(s: seq<real>, m: real)
    ensures Deviations(s, m) >= 0.0
    ensures Deviations(s, m) == 0.0 <==> forall i :: 0 <= i < |s| ==> s[i] == m
  {
    if s != [] {
      hide Times;
      var front, x := s[..|s| - 1], s[|s| - 1];
      DeviationsNonNegative(front, m);
      SquareSign(x - m);
      assert s == front + [x];
    }
  }

  lemma MeanTimesCount(s: seq<real>)
    requires s != []
    ensures Times(|s| as real, Mean(s)) == Sum(s)
  {
  }

  lemma Associative(a: real, b: real, c: real)
    ensures Times(Times(a, b), c) == Times(a, Times(b, c)) == a * b * c
  {
  }

  /** One pass suffices: the numerator of the variance is the sum of squared deviations from the mean. */
  lemma OnePass(s: seq<real>)
    requires s != []
    ensures SumOfSquares(s) - |s| as real * Mean(s) * Mean(s) == Deviations(s, Mean(s))
  {
    var m, n := Mean(s), |s| as real;
    DeviationsExpand(s, m);
    MeanTimesCount(s);
    Associative(n, m, m);
    TimesSum(Sum(s), 0.0, m);
    hide Times;
  }

  lemma {:induction false} SumBounds(s: seq<real>, lo: real, hi: real)
    requires forall i :: 0 <= i < |s| ==> lo <= s[i] <= hi
    ensures Times(|s| as real, lo) <= Sum(s) <= Times(|s| as real, hi)
  {
    if s != [] {
      var front := s[..|s| - 1];
      SumBounds(front, lo, hi);
      TimesSum(|front| as real, 1.0, lo);
      TimesSum(|front| as real, 1.0, hi);
      assert Times(1.0, lo) == lo && Times(1.0, hi) == hi;
      hide Times;
    }
  }

  /** A positive factor cancels. */
  lemma CancelFactor(n: real, a: real, b: real)
    requires n > 0.0 && Times(n, a) <= Times(n, b)
    ensures a <= b
  {
    assert a > b ==> n * (a - b) > 0.0;
  }

  lemma QuotientSign(a: real, b: real)
    requires a >= 0.0 && b > 0.0
    ensures a / b >= 0.0 && (a / b == 0.0 <==> a == 0.0)
  {
    var q := a / b;
    assert Times(q, b) == a;
    assert q < 0.0 ==> q * b < 0.0;
  }

  /** The mean lies between any bounds on the values. */
  lemma MeanBetween(s: seq<real>, lo: real, hi: real)
    requires s != [] && forall x :: x in s ==> lo <= x <= hi
    ensures lo <= Mean(s) <= hi
  {
    assert forall i :: 0 <= i < |s| ==> s[i] in s;
    SumBounds(s, lo, hi);
    MeanTimesCount(s);
    hide Times, Mean;
    CancelFactor(|s| as real, lo, Mean(s));
    CancelFactor(|s| as real, Mean(s), hi);
  }

  ghost predicate IsMinimum(s: seq<real>, min: Option<real>) {
    match min
    case None => s == []
    case Some(m) => m in s && forall x :: x in s ==> m <= x
  }

  ghost predicate IsMaximum(s: seq<real>, max: Option<real>) {
    match max
    case None => s == []
    case Some(m) => m in s && forall x :: x in s ==> x <= m
  }

  /** An empty minimum or maximum stands for plus or minus infinity. */
  class Statistics {
    var count: nat
    var sum: real
    var sumSquared: real
    var min: Option<real>
    var max: Option<real>

    /** The values added since construction or the last reset. */
    ghost var values: seq<real>

    ghost predicate Valid()
      reads this
    {
      && count == |values| && sum == Sum(values) && sumSquared == SumOfSquares(values)
      && IsMinimum(values, min) && IsMaximum(values, max)
    }

    constructor ()
      ensures Valid() && values == []
    {
      count, sum, sumSquared, min, max := 0, 0.0, 0.0, None, None;
      values := [];
    }

    method Add(value: real)
      requires Valid()
      modifies this
      ensures Valid() && values == old(values) + [value]
    {
      count := count + 1;
      sum := sum + value;
      sumSquared := sumSquared + value * value;
      min := if min.None? || value < min.value then Some(value) else min;
      max := if max.None? || value > max.value then Some(value) else max;
      assert (values + [value])[..|values|] == values;
      values := values + [value];
    }

    method GetMean() returns (mean: real)
      requires Valid()
      ensures mean == Mean(values)
      ensures values != [] ==> min.Some? && max.Some? && min.value <= mean <= max.value
    {
      if count > 0 {
        mean := sum / count as real;
        MeanBetween(values, min.value, max.value);
      } else {
        mean := 0.0;
      }
    }

    /** The sample variance; it is never negative, and zero only if all values are equal. */
    method Variance() returns (variance: real)
      requires Valid()
      ensures |values| >= 2 ==> variance == Deviations(values, Mean(values)) / (|values| - 1) as real
      ensures |values| < 2 ==> variance == 0.0
      ensures variance >= 0.0
      ensures variance == 0.0 <==> forall i :: 0 <= i < |values| ==> values[i] == Mean(values)
    {
      if count > 1 {
        var mean := GetMean();
        OnePass(values);
        DeviationsNonNegative(values, mean);
        variance := (sumSquared - count as real * mean * mean) / (count - 1) as real;
        QuotientSign(Deviations(values, mean), (count - 1) as real);
      } else {
        variance := 0.0;
        if count == 1 {
          assert values[..0] == [] && Sum(values) == 0.0 + values[0];
        }
      }
    }

    method Reset()
      modifies this
      ensures Valid() && values == []
    {
      count, sum, sumSquared, min, max := 0, 0.0, 0.0, None, None;
      values := [];
    }
  }
}
