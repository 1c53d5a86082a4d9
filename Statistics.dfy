/** Batch statistics used to seed the detector from its warm-up window:
    the arithmetic mean and the population variance (mean of squared
    deviations from the mean) of a finite, non-empty batch of readings. */
module Statistics {

  import opened Arith

  /** Sum of the readings, left to right. */
  function Sum(s: seq<real>): real
  {
    if s == [] then 0.0 else s[0] + Sum(s[1..])
  }

  /** Sum of the squared deviations of the readings from `m`. */
  function SumSquaredDeviations(s: seq<real>, m: real): real
  {
    if s == [] then 0.0 else Sq(s[0] - m) + SumSquaredDeviations(s[1..], m)
  }

  /** Arithmetic mean of a non-empty batch. */
  function Mean(s: seq<real>): real
    requires |s| > 0
  {
    Sum(s) / (|s| as real)
  }

  /** Population variance of a non-empty batch: the mean of the squared
      deviations from the batch mean (the divisor is |s|, not |s| - 1). */
  function PopVariance(s: seq<real>): real
    requires |s| > 0
  {
    SumSquaredDeviations(s, Mean(s)) / (|s| as real)
  }

  /** Every reading of the batch equals its first one. */
  predicate AllEqual(s: seq<real>)
  {
    forall i :: 0 <= i < |s| ==> s[i] == s[0]
  }

  /** A batch whose readings all equal `c` sums to |s| * c. */
  lemma {:induction false} SumOfConstant(s: seq<real>, c: real)
    requires forall i :: 0 <= i < |s| ==> s[i] == c
    ensures Sum(s) == (|s| as real) * c
  {
    if s != [] {
      SumOfConstant(s[1..], c);
    }
  }

  /** The mean of a batch whose readings all equal `c` is `c`. */
  lemma MeanOfConstant(s: seq<real>, c: real)
    requires |s| > 0
    requires forall i :: 0 <= i < |s| ==> s[i] == c
    ensures Mean(s) == c
  {
    SumOfConstant(s, c);
  }

  /** A sum of squares is never negative. */
  lemma {:induction false} SumSquaredDeviationsNonNegative(s: seq<real>, m: real)
    ensures SumSquaredDeviations(s, m) >= 0.0
  {
    if s != [] {
      SquareNonNegative(s[0] - m);
      SumSquaredDeviationsNonNegative(s[1..], m);
    }
  }

  /** The squared deviations sum to zero when every reading equals `m`. */
  lemma {:induction false} SumSquaredDeviationsOfConstant(s: seq<real>, m: real)
    requires forall i :: 0 <= i < |s| ==> s[i] == m
    ensures SumSquaredDeviations(s, m) == 0.0
  {
    if s != [] {
      SumSquaredDeviationsOfConstant(s[1..], m);
    }
  }

  /** The population variance of a batch is never negative. */
  lemma PopVarianceNonNegative(s: seq<real>)
    requires |s| > 0
    ensures PopVariance(s) >= 0.0
  {
    SumSquaredDeviationsNonNegative(s, Mean(s));
    DivNonNegative(SumSquaredDeviations(s, Mean(s)), |s| as real);
  }

  /** A batch whose readings are all equal has population variance zero. */
  lemma PopVarianceOfConstant(s: seq<real>)
    requires |s| > 0
    requires AllEqual(s)
    ensures PopVariance(s) == 0.0
  {
    MeanOfConstant(s, s[0]);
    SumSquaredDeviationsOfConstant(s, Mean(s));
  }

  /** A batch whose readings lie in `[lo, hi]` sums to between |s| * lo and |s| * hi. */
  lemma {:induction false} SumBounded(s: seq<real>, lo: real, hi: real)
    requires forall i :: 0 <= i < |s| ==> lo <= s[i] <= hi
    ensures (|s| as real) * lo <= Sum(s) <= (|s| as real) * hi
  {
    if s != [] {
      SumBounded(s[1..], lo, hi);
      AddOne(|s[1..]| as real, lo);
      AddOne(|s[1..]| as real, hi);
    }
  }

  /** The mean of a batch whose readings lie in `[lo, hi]` lies in `[lo, hi]`. */
  lemma MeanBounded(s: seq<real>, lo: real, hi: real)
    requires |s| > 0
    requires forall i :: 0 <= i < |s| ==> lo <= s[i] <= hi
    ensures lo <= Mean(s) <= hi
  {
    SumBounded(s, lo, hi);
    DivBounded(Sum(s), |s| as real, lo, hi);
  }
}
