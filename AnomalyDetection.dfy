/** The `anomaly_detection` generator: a warm-up phase that echoes the first
    readings while collecting them, a seed of the running statistics from
    that batch, and a steady-state phase that flags each reading deviating
    from the running level by more than `threshold` standard deviations.

    The stream is a finite sequence of observations; the generator's yields
    are the sequence of verdicts, and the three ways the generator can stop
    with an exception are a `Failure` after the verdicts yielded so far. */
module AnomalyDetection {

  import opened Arith
  import opened Statistics
  import opened Ewma

  datatype Option<T> = None | Some(value: T)

  /** Why the generator stops with an exception. */
  datatype Failure =
    | WarmupExhausted    // `next` on a stream with fewer readings than the warm-up needs
    | EmptyWarmupBatch   // a warm-up of zero readings: the batch mean divides by zero
    | NegativeVariance   // the updated variance is negative: its square root is undefined

  /** Everything the generator yields, and how it ends. */
  datatype Outcome = Outcome(yielded: seq<Verdict>, failure: Option<Failure>)

  /** Number of warm-up readings: `min(minDataPoints, 10)`, and none when that is not positive. */
  function WarmupCount(minDataPoints: int): (k: nat)
    ensures k <= 10 && (k <= minDataPoints || k == 0)
    ensures minDataPoints >= 1 ==> k == 10 || k == minDataPoints
    ensures minDataPoints <= 0 ==> k == 0
  {
    if minDataPoints <= 0 then 0 else if minDataPoints < 10 then minDataPoints else 10
  }

  /** The placeholder yielded for a warm-up reading: the reading as its own
      level, a spread of zero, never flagged. */
  function WarmupVerdict(o: Observation): Verdict
  {
    Verdict(o.value, o.value, 0.0, false, o.isTrueAnomaly)
  }

  function WarmupVerdicts(obs: seq<Observation>): (r: seq<Verdict>)
    ensures |r| == |obs|
    ensures forall i :: 0 <= i < |obs| ==> r[i] == WarmupVerdict(obs[i])
  {
    if obs == [] then [] else WarmupVerdicts(obs[..|obs| - 1]) + [WarmupVerdict(obs[|obs| - 1])]
  }

  /** The readings of the observations, in order. */
  function Values(obs: seq<Observation>): (r: seq<real>)
    ensures |r| == |obs|
    ensures forall i :: 0 <= i < |obs| ==> r[i] == obs[i].value
  {
    if obs == [] then [] else Values(obs[..|obs| - 1]) + [obs[|obs| - 1].value]
  }

  /** The steady-state phase from the state `s`: one verdict per observation,
      stopping at the first update whose variance has no square root. */
  function SteadyRun(s: State, obs: seq<Observation>, alpha: real, threshold: real): Outcome
  {
    if obs == [] then Outcome([], None)
    else
      var prefix := obs[..|obs| - 1];
      var before := SteadyRun(s, prefix, alpha, threshold);
      if before.failure.Some? then before
      else
        var v := StepVerdict(StateAfter(s, prefix, alpha), obs[|obs| - 1], alpha, threshold);
        if v.variance < 0.0 then Outcome(before.yielded, Some(NegativeVariance))
        else Outcome(before.yielded + [v], None)
  }

  /** The whole generator run over a finite stream. */
  function Detect(stream: seq<Observation>, alpha: real, threshold: real, minDataPoints: int): Outcome
  {
    var k := WarmupCount(minDataPoints);
    if |stream| < k then Outcome(WarmupVerdicts(stream), Some(WarmupExhausted))
    else if k == 0 then Outcome([], Some(EmptyWarmupBatch))
    else
      var steady := SteadyRun(Seed(Values(stream[..k])), stream[k..], alpha, threshold);
      Outcome(WarmupVerdicts(stream[..k]) + steady.yielded, steady.failure)
  }

  /** One more observation after a run without failure is one more step. */
  lemma SteadyRunSnoc(s: State, obs: seq<Observation>, o: Observation, alpha: real, threshold: real)
    requires SteadyRun(s, obs, alpha, threshold).failure == None
    ensures StateAfter(s, obs + [o], alpha) == StepSpec(StateAfter(s, obs, alpha), o.value, alpha)
    ensures var v := StepVerdict(StateAfter(s, obs, alpha), o, alpha, threshold);
            SteadyRun(s, obs + [o], alpha, threshold)
            == if v.variance < 0.0 then Outcome(SteadyRun(s, obs, alpha, threshold).yielded, Some(NegativeVariance))
               else Outcome(SteadyRun(s, obs, alpha, threshold).yielded + [v], None)
  {
    assert (obs + [o])[..|obs|] == obs;
  }

  /** Once the steady-state phase has failed, later observations change nothing. */
  lemma {:induction false} SteadyRunStopsAtFailure(s: State, obs: seq<Observation>, j: nat, alpha: real, threshold: real)
    requires j <= |obs|
    requires SteadyRun(s, obs[..j], alpha, threshold).failure.Some?
    ensures SteadyRun(s, obs, alpha, threshold) == SteadyRun(s, obs[..j], alpha, threshold)
  {
    if j < |obs| {
      var prefix := obs[..|obs| - 1];
      assert prefix[..j] == obs[..j];
      SteadyRunStopsAtFailure(s, prefix, j, alpha, threshold);
    } else {
      assert obs[..j] == obs;
    }
  }

  // ---------------------------------------------------------------------------
  // The generator, step by step

  /** The warm-up loop: pulls `min(minDataPoints, 10)` readings, echoing
      each as a placeholder verdict and collecting its value; `exhausted`
      when the stream runs out first. */
  method Warmup(stream: seq<Observation>, minDataPoints: int)
    returns (initialData: seq<real>, out: seq<Verdict>, exhausted: bool)
    ensures exhausted <==> |stream| < WarmupCount(minDataPoints)
    ensures exhausted ==> out == WarmupVerdicts(stream)
    ensures !exhausted ==>
      var k := WarmupCount(minDataPoints);
      out == WarmupVerdicts(stream[..k]) && initialData == Values(stream[..k])
  {
    var n := if minDataPoints < 10 then minDataPoints else 10;
    initialData := [];
    out := [];
    var i := 0;
    while i < n
      invariant 0 <= i <= WarmupCount(minDataPoints) && i <= |stream|
      invariant initialData == Values(stream[..i])
      invariant out == WarmupVerdicts(stream[..i])
    {
      if i == |stream| {
        assert stream[..i] == stream;
        return initialData, out, true;
      }
      var o := stream[i];
      initialData := initialData + [o.value];
      out := out + [Verdict(o.value, o.value, 0.0, false, o.isTrueAnomaly)];
      i := i + 1;
      assert stream[..i] == stream[..i - 1] + [o];
    }
    return initialData, out, false;
  }

  /** The steady-state loop from the seeded statistics `s`: for each
      reading, decides against the old statistics, updates the level and then
      the variance, and yields the verdict; stops when the variance has no
      square root. */
  method SteadyLoop(s: State, rest: seq<Observation>, alpha: real, threshold: real)
    returns (out: seq<Verdict>, failure: Option<Failure>)
    ensures Outcome(out, failure) == SteadyRun(s, rest, alpha, threshold)
  {
    var ewma, variance, count := s.ewma, s.variance, s.count;
    out := [];
    var i := 0;
    while i < |rest|
      invariant i <= |rest|
      invariant State(ewma, variance, count) == StateAfter(s, rest[..i], alpha)
      invariant SteadyRun(s, rest[..i], alpha, threshold) == Outcome(out, None)
    {
      var o := rest[i];
      var deviation := Abs(o.value - ewma);
      var isAnomaly := ExceedsBand(deviation, threshold, variance);
      ewma := Blend(alpha, o.value, ewma);
      variance := Blend(alpha, Sq(o.value - ewma), variance);
      count := count + 1;
      var v := Verdict(o.value, ewma, variance, isAnomaly, o.isTrueAnomaly);
      SteadyRunSnoc(s, rest[..i], o, alpha, threshold);
      assert rest[..i + 1] == rest[..i] + [o];
      if variance < 0.0 {
        SteadyRunStopsAtFailure(s, rest, i + 1, alpha, threshold);
        return out, Some(NegativeVariance);
      }
      out := out + [v];
      i := i + 1;
    }
    assert rest[..i] == rest;
    return out, None;
  }

  /** Runs the detector over `stream`: the warm-up loop echoes and collects
      the first readings, the batch seeds the level and the variance, and the
      steady loop decides on each remaining reading. */
  method Process(stream: seq<Observation>, alpha: real, threshold: real, minDataPoints: int)
    returns (out: seq<Verdict>, failure: Option<Failure>)
    ensures Outcome(out, failure) == Detect(stream, alpha, threshold, minDataPoints)
  {
    var initialData, echoed, exhausted := Warmup(stream, minDataPoints);
    if exhausted {
      return echoed, Some(WarmupExhausted);
    }
    if |initialData| == 0 {
      return [], Some(EmptyWarmupBatch);
    }
    var k := |initialData|;
    var ewma := Mean(initialData);
    var variance := PopVariance(initialData);
    var count: nat := |initialData|;
    var steady;
    steady, failure := SteadyLoop(State(ewma, variance, count), stream[k..], alpha, threshold);
    out := echoed + steady;
  }
}
