/** The steady-state phase of the adaptive EWMA detector: its running
    statistics, the per-observation decision rule and the update step, as
    specification functions with their properties. */
module Ewma {

  import opened Arith
  import opened Statistics

  /** One reading pulled from the data stream, with the data stream's ground-truth
      label ("this point was injected as an anomaly"). */
  datatype Observation = Observation(value: real, isTrueAnomaly: bool)

  /** What the detector yields for one observation. The generator yields the
      standard deviation; this model yields the variance it is the square
      root of (see `AnomalyIsStdDevTest`). */
  datatype Verdict = Verdict(value: real, ewma: real, variance: real, isAnomaly: bool, isTrueAnomaly: bool)

  /** The running statistics: the smoothed level, the smoothed squared
      deviation and the number of data points absorbed. */
  datatype State = State(ewma: real, variance: real, count: nat)

  /** The state right after the warm-up batch: batch mean, batch population
      variance, and the batch size as the count. */
  function Seed(batch: seq<real>): State
    requires |batch| > 0
  {
    State(Mean(batch), PopVariance(batch), |batch|)
  }

  /** Distance of an observation from the current level. */
  function Deviation(x: real, s: State): real
  {
    Abs(x - s.ewma)
  }

  /** "The deviation `d` exceeds `t` standard deviations", for the variance
      `v`, decided without a square root: for `t >= 0` both sides of
      `d > t * sqrt(v)` are squared; for `t < 0` the right-hand side is
      negative unless `v` is zero. `ExceedsBandIsStdDevTest` shows this is
      the comparison against `t * sqrt(v)`. */
  predicate ExceedsBand(d: real, t: real, v: real)
  {
    if t >= 0.0 then d * d > t * t * v else d > 0.0 || v > 0.0
  }

  /** The decision rule, taken against the state BEFORE the update. */
  predicate IsAnomalous(x: real, s: State, threshold: real)
  {
    ExceedsBand(Deviation(x, s), threshold, s.variance)
  }

  /** The update step: the level first, then the variance against the NEW level. */
  function StepSpec(s: State, x: real, alpha: real): State
  {
    var e := Blend(alpha, x, s.ewma);
    State(e, Blend(alpha, Sq(x - e), s.variance), s.count + 1)
  }

  /** The verdict for one steady-state observation: the decision taken on the
      state before the update, the statistics reported after it. */
  function StepVerdict(s: State, o: Observation, alpha: real, threshold: real): Verdict
  {
    var next := StepSpec(s, o.value, alpha);
    Verdict(o.value, next.ewma, next.variance, IsAnomalous(o.value, s, threshold), o.isTrueAnomaly)
  }

  /** The state after absorbing `obs` one by one, starting from `s`. */
  function StateAfter(s: State, obs: seq<Observation>, alpha: real): State
  {
    if obs == [] then s
    else StepSpec(StateAfter(s, obs[..|obs| - 1], alpha), obs[|obs| - 1].value, alpha)
  }

  /** The verdicts yielded while absorbing `obs` one by one, starting from `s`. */
  function SteadyVerdicts(s: State, obs: seq<Observation>, alpha: real, threshold: real): seq<Verdict>
  {
    if obs == [] then []
    else
      var prefix := obs[..|obs| - 1];
      SteadyVerdicts(s, prefix, alpha, threshold)
        + [StepVerdict(StateAfter(s, prefix, alpha), obs[|obs| - 1], alpha, threshold)]
  }

  // ---------------------------------------------------------------------------
  // The seed

  /** The seeded variance is never negative and the count is the batch size. */
  lemma SeedIsValid(batch: seq<real>)
    requires |batch| > 0
    ensures Seed(batch).variance >= 0.0
    ensures Seed(batch).count == |batch|
  {
    PopVarianceNonNegative(batch);
  }

  /** A batch of identical readings `c` seeds the level at `c` and the variance at zero. */
  lemma SeedOfConstant(batch: seq<real>, c: real)
    requires |batch| > 0
    requires forall i :: 0 <= i < |batch| ==> batch[i] == c
    ensures Seed(batch) == State(c, 0.0, |batch|)
  {
    MeanOfConstant(batch, c);
    PopVarianceOfConstant(batch);
  }

  // ---------------------------------------------------------------------------
  // One step

  /** The band test is the comparison of the deviation with `t` standard
      deviations, for the non-negative square root `std` of the variance. */
  lemma ExceedsBandIsStdDevTest(d: real, t: real, std: real, v: real)
    requires d >= 0.0 && std >= 0.0 && std * std == v
    ensures ExceedsBand(d, t, v) <==> d > t * std
  {
    if t >= 0.0 {
      MulNonNegative(t, std);
      CompareSquares(d, t * std);
      assert (t * std) * (t * std) == t * t * (std * std);
    } else if std > 0.0 {
      MulPositive(-t, std);
      MulPositive(std, std);
    } else {
      assert std == 0.0;
    }
  }

  /** The decision rule is the generator's test `deviation > threshold * std_dev`
      on the state before the update. */
  lemma AnomalyIsStdDevTest(x: real, s: State, threshold: real, std: real)
    requires std >= 0.0 && std * std == s.variance
    ensures IsAnomalous(x, s, threshold) <==> Deviation(x, s) > threshold * std
  {
    ExceedsBandIsStdDevTest(Deviation(x, s), threshold, std, s.variance);
  }

  /** With a zero variance, any reading away from the level is flagged and
      the level itself is not, whatever the threshold. */
  lemma ZeroVarianceFlagsAnyDeviation(x: real, s: State, threshold: real)
    requires s.variance == 0.0
    ensures IsAnomalous(x, s, threshold) <==> x != s.ewma
  {
    var d := Deviation(x, s);
    if d > 0.0 {
      MulPositive(d, d);
    }
  }

  /** The new level lies between the old level and the observation, and moves
      toward the observation by the fraction `alpha` of the gap. */
  lemma StepEwmaBetween(s: State, x: real, alpha: real)
    requires 0.0 <= alpha <= 1.0
    ensures s.ewma <= x ==> s.ewma <= StepSpec(s, x, alpha).ewma <= x
    ensures x <= s.ewma ==> x <= StepSpec(s, x, alpha).ewma <= s.ewma
    ensures StepSpec(s, x, alpha).ewma - s.ewma == alpha * (x - s.ewma)
  {
    BlendBetween(alpha, x, s.ewma, StepSpec(s, x, alpha).ewma);
  }

  /** The update keeps the variance non-negative and counts one more data point. */
  lemma StepKeepsVarianceNonNegative(s: State, x: real, alpha: real)
    requires 0.0 <= alpha <= 1.0 && s.variance >= 0.0
    ensures StepSpec(s, x, alpha).variance >= 0.0
    ensures StepSpec(s, x, alpha).count == s.count + 1
  {
    var e := Blend(alpha, x, s.ewma);
    SquareNonNegative(x - e);
    BlendNonNegative(alpha, Sq(x - e), s.variance);
  }

  /** An observation equal to the level, with zero variance, changes neither
      and is not flagged. */
  lemma StepAtRest(s: State, x: real, alpha: real, threshold: real)
    requires s.ewma == x && s.variance == 0.0
    ensures StepSpec(s, x, alpha) == State(x, 0.0, s.count + 1)
    ensures !IsAnomalous(x, s, threshold)
  {
    BlendSame(alpha, x);
    assert Deviation(x, s) == 0.0;
  }

  // ---------------------------------------------------------------------------
  // Many steps

  /** The steady-state phase yields exactly one verdict per observation, in
      order: the i-th is the step verdict of the i-th observation against the
      state left by the observations before it. */
  lemma {:induction false} SteadyVerdictAt(s: State, obs: seq<Observation>, alpha: real, threshold: real, i: nat)
    requires i < |obs|
    ensures |SteadyVerdicts(s, obs, alpha, threshold)| == |obs|
    ensures SteadyVerdicts(s, obs, alpha, threshold)[i]
         == StepVerdict(StateAfter(s, obs[..i], alpha), obs[i], alpha, threshold)
  {
    var n := |obs|;
    var prefix := obs[..n - 1];
    if i < n - 1 {
      SteadyVerdictAt(s, prefix, alpha, threshold, i);
      assert prefix[..i] == obs[..i];
    } else {
      assert prefix == obs[..i];
      SteadyVerdictsLength(s, prefix, alpha, threshold);
    }
  }

  /** The steady-state phase yields one verdict per observation. */
  lemma {:induction false} SteadyVerdictsLength(s: State, obs: seq<Observation>, alpha: real, threshold: real)
    ensures |SteadyVerdicts(s, obs, alpha, threshold)| == |obs|
  {
    if obs != [] {
      SteadyVerdictsLength(s, obs[..|obs| - 1], alpha, threshold);
    }
  }

  /** Absorbing observations keeps the variance non-negative and adds one to
      the count per observation. */
  lemma {:induction false} StateAfterIsValid(s: State, obs: seq<Observation>, alpha: real)
    requires 0.0 <= alpha <= 1.0 && s.variance >= 0.0
    ensures StateAfter(s, obs, alpha).variance >= 0.0
    ensures StateAfter(s, obs, alpha).count == s.count + |obs|
  {
    if obs != [] {
      var prefix := obs[..|obs| - 1];
      StateAfterIsValid(s, prefix, alpha);
      StepKeepsVarianceNonNegative(StateAfter(s, prefix, alpha), obs[|obs| - 1].value, alpha);
    }
  }

  /** Absorbing observations adds one to the count per observation, for any `alpha`. */
  lemma {:induction false} StateAfterCount(s: State, obs: seq<Observation>, alpha: real)
    ensures StateAfter(s, obs, alpha).count == s.count + |obs|
  {
    if obs != [] {
      StateAfterCount(s, obs[..|obs| - 1], alpha);
    }
  }

  /** A stream that stays at the level `c` from a state at rest at `c` leaves
      the level at `c` and the variance at zero, and none of it is flagged. */
  lemma {:induction false} ConstantStreamAtRest(s: State, obs: seq<Observation>, alpha: real, threshold: real, c: real)
    requires s.ewma == c && s.variance == 0.0
    requires forall i :: 0 <= i < |obs| ==> obs[i].value == c
    ensures StateAfter(s, obs, alpha) == State(c, 0.0, s.count + |obs|)
    ensures |SteadyVerdicts(s, obs, alpha, threshold)| == |obs|
    ensures forall i :: 0 <= i < |obs| ==>
      var v := SteadyVerdicts(s, obs, alpha, threshold)[i];
      v.ewma == c && v.variance == 0.0 && !v.isAnomaly
  {
    SteadyVerdictsLength(s, obs, alpha, threshold);
    if obs != [] {
      var n := |obs|;
      var prefix := obs[..n - 1];
      ConstantStreamAtRest(s, prefix, alpha, threshold, c);
      StepAtRest(StateAfter(s, prefix, alpha), c, alpha, threshold);
      forall i | 0 <= i < n
        ensures SteadyVerdicts(s, obs, alpha, threshold)[i].ewma == c
        ensures SteadyVerdicts(s, obs, alpha, threshold)[i].variance == 0.0
        ensures !SteadyVerdicts(s, obs, alpha, threshold)[i].isAnomaly
      {
        SteadyVerdictAt(s, obs, alpha, threshold, i);
        if i < n - 1 {
          assert prefix[..i] == obs[..i];
          ConstantStreamAtRest(s, obs[..i], alpha, threshold, c);
        } else {
          assert prefix == obs[..i];
        }
        StepAtRest(StateAfter(s, obs[..i], alpha), c, alpha, threshold);
      }
    }
  }
}
