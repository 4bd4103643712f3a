/**
 Descriptive statistics over a window of seasons, in exact real arithmetic:
 the mean (`np.mean`), the population variance (`np.std` squared, ddof = 0)
 and the coefficient of variation with the program's guards.

 The COV is std / mean * 100, where std is a square root. To stay exact
 without a square root, the model keeps the COV as its square: for a COV
 value c >= 0, CovSquared holds c * c (CovIsStdOverMean). Since squaring is
 increasing on non-negative reals, every comparison the program makes on a
 COV can be made on its square (Variability.ClassifySquaredAgrees).
 */
module Stats {
  import Reals

  function Sum(xs: seq<real>): real {
    if |xs| == 0 then 0.0 else xs[0] + Sum(xs[1..])
  }

  /** `np.mean` of a non-empty window: the value that, times the count, gives the sum. */
  function Mean(xs: seq<real>): (m: real)
    requires |xs| > 0
    ensures m * |xs| as real == Sum(xs)
  {
    Reals.DivMul(Sum(xs), |xs| as real);
    Sum(xs) / |xs| as real
  }

  /** The sum of squared deviations of the values from `c`; never negative. */
  function SquaredDeviations(xs: seq<real>, c: real): (r: real)
    ensures r >= 0.0
  {
    if |xs| == 0 then
      0.0
    else
      Reals.SquareNonNegative(xs[0] - c);
      (xs[0] - c) * (xs[0] - c) + SquaredDeviations(xs[1..], c)
  }

  /** Population variance: the mean squared deviation from the mean. */
  function Variance(xs: seq<real>): (v: real)
    requires |xs| > 0
    ensures v >= 0.0
  {
    SquaredDeviations(xs, Mean(xs)) / |xs| as real
  }

  /** The program's guard: a COV is reported only for two or more points with a positive mean. */
  predicate CovDefined(xs: seq<real>) {
    |xs| > 1 && Mean(xs) > 0.0
  }

  /**
   The square of the guarded COV: zero when the guard fails, otherwise
   variance * 100^2 / mean / mean.
   */
  function CovSquared(xs: seq<real>): (c: real)
    ensures c >= 0.0
    ensures !CovDefined(xs) ==> c == 0.0
  {
    if CovDefined(xs) then
      var m := Mean(xs);
      Reals.DivNonNegative(Variance(xs) * 10000.0, m);
      Reals.DivNonNegative(Variance(xs) * 10000.0 / m, m);
      Variance(xs) * 10000.0 / m / m
    else
      0.0
  }

  /**
   The squared COV is the square of std * 100 / mean for the std that is the
   non-negative square root of the variance, and that COV is non-negative.
   */
  lemma CovIsStdOverMean(xs: seq<real>, std: real)
    requires CovDefined(xs)
    requires std >= 0.0 && std * std == Variance(xs)
    ensures std * 100.0 / Mean(xs) >= 0.0
    ensures (std * 100.0 / Mean(xs)) * (std * 100.0 / Mean(xs)) == CovSquared(xs)
  {
    var m := Mean(xs);
    var cov := std * 100.0 / m;
    var c := CovSquared(xs);
    var w := Variance(xs) * 10000.0;
    Reals.DivMul(std * 100.0, m);
    Reals.DivNonNegative(std * 100.0, m);
    Reals.DivMul(w / m, m);
    Reals.DivMul(w, m);
    assert (c * m) * m == w;
    assert (cov * m) * (cov * m) == w;
    assert ((cov * cov) * m) * m == (cov * m) * (cov * m);
    Reals.CancelPositive((cov * cov) * m, c * m, m);
    Reals.CancelPositive(cov * cov, c, m);
  }

  lemma {:induction false} SumOfConstant(xs: seq<real>, c: real)
    requires forall i :: 0 <= i < |xs| ==> xs[i] == c
    ensures Sum(xs) == |xs| as real * c
  {
    if |xs| > 0 {
      SumOfConstant(xs[1..], c);
    }
  }

  lemma {:induction false} DeviationsFromConstant(xs: seq<real>, c: real)
    requires forall i :: 0 <= i < |xs| ==> xs[i] == c
    ensures SquaredDeviations(xs, c) == 0.0
  {
    if |xs| > 0 {
      DeviationsFromConstant(xs[1..], c);
    }
  }

  /** A window whose values are all equal has no variability: its COV is zero. */
  lemma ConstantWindowHasZeroCov(xs: seq<real>)
    requires |xs| > 0
    requires forall i :: 0 <= i < |xs| ==> xs[i] == xs[0]
    ensures Mean(xs) == xs[0]
    ensures Variance(xs) == 0.0
    ensures CovSquared(xs) == 0.0
  {
    SumOfConstant(xs, xs[0]);
    DeviationsFromConstant(xs, xs[0]);
  }

  /** Pointwise smaller values have a smaller sum. */
  lemma {:induction false} SumMonotone(xs: seq<real>, ys: seq<real>)
    requires |xs| == |ys|
    requires forall i :: 0 <= i < |xs| ==> xs[i] <= ys[i]
    ensures Sum(xs) <= Sum(ys)
  {
    if |xs| > 0 {
      SumMonotone(xs[1..], ys[1..]);
    }
  }

  /** Pointwise smaller values have a smaller mean. */
  lemma MeanMonotone(xs: seq<real>, ys: seq<real>)
    requires |xs| == |ys| > 0
    requires forall i :: 0 <= i < |xs| ==> xs[i] <= ys[i]
    ensures Mean(xs) <= Mean(ys)
  {
    SumMonotone(xs, ys);
    Reals.DivideMonotone(Sum(xs), Sum(ys), |xs| as real);
  }

  /** Non-negative values have a non-negative mean. */
  lemma MeanNonNegative(xs: seq<real>)
    requires |xs| > 0
    requires forall i :: 0 <= i < |xs| ==> xs[i] >= 0.0
    ensures Mean(xs) >= 0.0
  {
    var zeros := seq(|xs|, i => 0.0);
    SumOfConstant(zeros, 0.0);
    SumMonotone(zeros, xs);
    Reals.DivideMonotone(0.0, Sum(xs), |xs| as real);
  }
}
