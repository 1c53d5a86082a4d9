/** What the generator promises over a whole stream: when and how it stops
    early, one verdict per reading in stream order, the warm-up placeholders,
    the decision against the statistics before each update, a variance that
    never goes negative, a constant stream never flagged, and yields that
    never depend on later readings. */
module DetectionProperties {

  import opened Statistics
  import opened Ewma
  import opened AnomalyDetection

  // ---------------------------------------------------------------------------
  // The steady-state phase

  /** While no update has produced a negative variance, the steady-state
      phase yields exactly its verdicts and does not fail. */
  lemma {:induction false} SteadyRunWithoutFailure(s: State, obs: seq<Observation>, alpha: real, threshold: real)
    requires forall i :: 0 <= i < |SteadyVerdicts(s, obs, alpha, threshold)| ==>
      SteadyVerdicts(s, obs, alpha, threshold)[i].variance >= 0.0
    ensures SteadyRun(s, obs, alpha, threshold) == Outcome(SteadyVerdicts(s, obs, alpha, threshold), None)
  {
    if obs != [] {
      var prefix := obs[..|obs| - 1];
      var all := SteadyVerdicts(s, obs, alpha, threshold);
      var earlier := SteadyVerdicts(s, prefix, alpha, threshold);
      var v := StepVerdict(StateAfter(s, prefix, alpha), obs[|obs| - 1], alpha, threshold);
      assert all == earlier + [v];
      assert all[|earlier|] == v;
      assert forall i :: 0 <= i < |earlier| ==> earlier[i] == all[i];
      SteadyRunWithoutFailure(s, prefix, alpha, threshold);
    }
  }

  /** With `0 <= alpha <= 1` every steady-state verdict reports a
      non-negative variance, from any state with a non-negative variance. */
  lemma SteadyVariancesNonNegative(s: State, obs: seq<Observation>, alpha: real, threshold: real)
    requires 0.0 <= alpha <= 1.0 && s.variance >= 0.0
    ensures |SteadyVerdicts(s, obs, alpha, threshold)| == |obs|
    ensures forall i :: 0 <= i < |obs| ==> SteadyVerdicts(s, obs, alpha, threshold)[i].variance >= 0.0
  {
    SteadyVerdictsLength(s, obs, alpha, threshold);
    forall i | 0 <= i < |obs|
      ensures SteadyVerdicts(s, obs, alpha, threshold)[i].variance >= 0.0
    {
      SteadyVerdictAt(s, obs, alpha, threshold, i);
      StateAfterIsValid(s, obs[..i], alpha);
      StepKeepsVarianceNonNegative(StateAfter(s, obs[..i], alpha), obs[i].value, alpha);
    }
  }

  /** What the steady-state phase yields for a prefix of its observations is
      a prefix of what it yields for all of them. */
  lemma {:induction false} SteadyRunExtends(s: State, obs: seq<Observation>, j: nat, alpha: real, threshold: real)
    requires j <= |obs|
    ensures SteadyRun(s, obs[..j], alpha, threshold).yielded <= SteadyRun(s, obs, alpha, threshold).yielded
  {
    if j < |obs| {
      var prefix := obs[..|obs| - 1];
      assert prefix[..j] == obs[..j];
      SteadyRunExtends(s, prefix, j, alpha, threshold);
    } else {
      assert obs[..j] == obs;
    }
  }

  /** The level never leaves an interval holding the starting level and
      every reading absorbed. */
  lemma {:induction false} StateAfterEwmaBounded(s: State, obs: seq<Observation>, alpha: real, lo: real, hi: real)
    requires 0.0 <= alpha <= 1.0
    requires lo <= s.ewma <= hi
    requires forall i :: 0 <= i < |obs| ==> lo <= obs[i].value <= hi
    ensures lo <= StateAfter(s, obs, alpha).ewma <= hi
  {
    if obs != [] {
      var prefix := obs[..|obs| - 1];
      StateAfterEwmaBounded(s, prefix, alpha, lo, hi);
      StepEwmaBetween(StateAfter(s, prefix, alpha), obs[|obs| - 1].value, alpha);
    }
  }

  // ---------------------------------------------------------------------------
  // The whole run

  /** The generator stops early exactly when the stream is shorter than the
      warm-up, after echoing what it read, or when the warm-up is empty,
      before yielding anything. */
  lemma DetectStopsEarly(stream: seq<Observation>, alpha: real, threshold: real, minDataPoints: int)
    ensures var r := Detect(stream, alpha, threshold, minDataPoints);
      (r.failure == Some(WarmupExhausted) <==> |stream| < WarmupCount(minDataPoints))
      && (|stream| < WarmupCount(minDataPoints) ==> r.yielded == WarmupVerdicts(stream))
    ensures var r := Detect(stream, alpha, threshold, minDataPoints);
      (r.failure == Some(EmptyWarmupBatch) <==> minDataPoints <= 0)
      && (minDataPoints <= 0 ==> r.yielded == [])
  {
    var k := WarmupCount(minDataPoints);
    if k > 0 && k <= |stream| {
      SteadyRunFailure(Seed(Values(stream[..k])), stream[k..], alpha, threshold);
    }
  }

  /** The steady-state phase can only stop on a negative variance. */
  lemma {:induction false} SteadyRunFailure(s: State, obs: seq<Observation>, alpha: real, threshold: real)
    ensures SteadyRun(s, obs, alpha, threshold).failure in {None, Some(NegativeVariance)}
  {
    if obs != [] {
      SteadyRunFailure(s, obs[..|obs| - 1], alpha, threshold);
    }
  }

  /** Whatever `alpha` is, every verdict the steady-state phase yields
      reports a non-negative variance: an update that would report a
      negative one ends the phase instead. */
  lemma {:induction false} SteadyYieldsNonNegative(s: State, obs: seq<Observation>, alpha: real, threshold: real)
    ensures forall i :: 0 <= i < |SteadyRun(s, obs, alpha, threshold).yielded| ==>
      SteadyRun(s, obs, alpha, threshold).yielded[i].variance >= 0.0
  {
    if obs != [] {
      var prefix := obs[..|obs| - 1];
      SteadyYieldsNonNegative(s, prefix, alpha, threshold);
      var before := SteadyRun(s, prefix, alpha, threshold);
      var r := SteadyRun(s, obs, alpha, threshold);
      if before.failure == None && r.failure == None {
        assert forall i :: 0 <= i < |before.yielded| ==> r.yielded[i] == before.yielded[i];
      }
    }
  }

  /** When the steady-state phase fails, it has yielded one verdict for each
      observation before the failing one, and the update for the next
      observation is the one whose variance is negative: its verdict is
      not yielded. */
  lemma {:induction false} SteadyRunFailsAt(s: State, obs: seq<Observation>, alpha: real, threshold: real)
    ensures var r := SteadyRun(s, obs, alpha, threshold);
      r.failure.Some? ==>
        |r.yielded| < |obs|
        && StepVerdict(StateAfter(s, obs[..|r.yielded|], alpha), obs[|r.yielded|], alpha, threshold).variance < 0.0
  {
    if obs != [] {
      var prefix := obs[..|obs| - 1];
      var before := SteadyRun(s, prefix, alpha, threshold);
      SteadyRunFailsAt(s, prefix, alpha, threshold);
      if before.failure.Some? {
        var n := |before.yielded|;
        assert prefix[..n] == obs[..n];
        assert prefix[n] == obs[n];
      } else {
        SteadyRunVerdictAt(s, prefix, alpha, threshold, 0);
        assert prefix == obs[..|prefix|];
      }
    }
  }

  /** With `0 <= alpha <= 1` the variance never loses its square root. */
  lemma DetectKeepsVariance(stream: seq<Observation>, alpha: real, threshold: real, minDataPoints: int)
    requires 0.0 <= alpha <= 1.0
    ensures Detect(stream, alpha, threshold, minDataPoints).failure != Some(NegativeVariance)
  {
    var k := WarmupCount(minDataPoints);
    if k <= |stream| && k > 0 {
      var seed := Seed(Values(stream[..k]));
      SeedIsValid(Values(stream[..k]));
      SteadyVariancesNonNegative(seed, stream[k..], alpha, threshold);
      SteadyRunWithoutFailure(seed, stream[k..], alpha, threshold);
    }
  }

  /** Whatever the configuration, every verdict the generator yields reports
      a non-negative variance, so its standard deviation exists. */
  lemma DetectYieldsNonNegative(stream: seq<Observation>, alpha: real, threshold: real, minDataPoints: int)
    ensures forall i :: 0 <= i < |Detect(stream, alpha, threshold, minDataPoints).yielded| ==>
      Detect(stream, alpha, threshold, minDataPoints).yielded[i].variance >= 0.0
  {
    var k := WarmupCount(minDataPoints);
    if k > 0 && k <= |stream| {
      SteadyYieldsNonNegative(Seed(Values(stream[..k])), stream[k..], alpha, threshold);
      DetectAfterWarmup(stream, alpha, threshold, minDataPoints);
    }
  }

  /** When the generator stops at the square root, it has yielded the
      warm-up and one verdict for each steady-state reading before the
      failing one, and updating on that reading gives a negative variance. */
  lemma DetectFailsAt(stream: seq<Observation>, alpha: real, threshold: real, minDataPoints: int)
    ensures var r := Detect(stream, alpha, threshold, minDataPoints);
      var k := WarmupCount(minDataPoints);
      var n := |r.yielded|;
      r.failure == Some(NegativeVariance) ==>
        0 < k <= n < |stream|
        && StepVerdict(StateAfter(Seed(Values(stream[..k])), stream[k..n], alpha), stream[n], alpha, threshold).variance < 0.0
  {
    var k := WarmupCount(minDataPoints);
    if k > 0 && k <= |stream| {
      var seed := Seed(Values(stream[..k]));
      var rest := stream[k..];
      var steady := SteadyRun(seed, rest, alpha, threshold);
      DetectAfterWarmup(stream, alpha, threshold, minDataPoints);
      SteadyRunFailsAt(seed, rest, alpha, threshold);
      if steady.failure.Some? {
        var j := |steady.yielded|;
        PrefixOfSuffix(stream, k, k + j);
        assert rest[j] == stream[k + j];
      }
    }
  }

  /** With a usable configuration and enough readings for the warm-up, the
      generator yields one verdict per reading, carrying that reading's value
      and label through unchanged, and never reports a negative variance. */
  lemma DetectYieldsEveryReading(stream: seq<Observation>, alpha: real, threshold: real, minDataPoints: int)
    requires 0.0 <= alpha <= 1.0 && minDataPoints >= 1
    requires |stream| >= WarmupCount(minDataPoints)
    ensures Detect(stream, alpha, threshold, minDataPoints).failure == None
    ensures |Detect(stream, alpha, threshold, minDataPoints).yielded| == |stream|
    ensures forall i :: 0 <= i < |stream| ==>
      var v := Detect(stream, alpha, threshold, minDataPoints).yielded[i];
      v.value == stream[i].value && v.isTrueAnomaly == stream[i].isTrueAnomaly && v.variance >= 0.0
  {
    var k := WarmupCount(minDataPoints);
    var seed := Seed(Values(stream[..k]));
    var rest := stream[k..];
    SeedIsValid(Values(stream[..k]));
    SteadyVariancesNonNegative(seed, rest, alpha, threshold);
    SteadyRunWithoutFailure(seed, rest, alpha, threshold);
    var out := Detect(stream, alpha, threshold, minDataPoints).yielded;
    assert out == WarmupVerdicts(stream[..k]) + SteadyVerdicts(seed, rest, alpha, threshold);
    forall i | 0 <= i < |stream|
      ensures out[i].value == stream[i].value && out[i].isTrueAnomaly == stream[i].isTrueAnomaly
      ensures out[i].variance >= 0.0
    {
      if i >= k {
        SteadyVerdictAt(seed, rest, alpha, threshold, i - k);
      }
    }
  }

  /** The i-th verdict actually yielded, for every configuration, including
      runs that stop early: for a warm-up reading, the placeholder (the reading
      as its own level, zero spread, not flagged); afterwards, the decision
      against the statistics left by the readings before it, which have
      absorbed exactly `i` data points, reported with the statistics after it. */
  lemma DetectVerdictAt(stream: seq<Observation>, alpha: real, threshold: real, minDataPoints: int, i: nat)
    requires i < |Detect(stream, alpha, threshold, minDataPoints).yielded|
    ensures |Detect(stream, alpha, threshold, minDataPoints).yielded| <= |stream|
    ensures i < WarmupCount(minDataPoints) ==>
      Detect(stream, alpha, threshold, minDataPoints).yielded[i] == WarmupVerdict(stream[i])
    ensures i >= WarmupCount(minDataPoints) ==>
      var k := WarmupCount(minDataPoints);
      var before := StateAfter(Seed(Values(stream[..k])), stream[k..i], alpha);
      before.count == i
      && Detect(stream, alpha, threshold, minDataPoints).yielded[i] == StepVerdict(before, stream[i], alpha, threshold)
  {
    var k := WarmupCount(minDataPoints);
    if k > 0 && k <= |stream| {
      var batch := Values(stream[..k]);
      var seed := Seed(batch);
      var rest := stream[k..];
      var steady := SteadyRun(seed, rest, alpha, threshold);
      SteadyRunVerdictAt(seed, rest, alpha, threshold, 0);
      DetectAfterWarmup(stream, alpha, threshold, minDataPoints);
      if i >= k {
        SteadyRunVerdictAt(seed, rest, alpha, threshold, i - k);
        PrefixOfSuffix(stream, k, i);
        StateAfterCount(seed, rest[..i - k], alpha);
      }
    }
  }

  lemma PrefixOfSuffix<T>(s: seq<T>, k: nat, i: nat)
    requires k <= i <= |s|
    ensures s[k..][..i - k] == s[k..i]
  {
  }

  /** With a full, non-empty warm-up, the run yields the placeholders and
      then what the steady-state phase yields from the seeded statistics, and
      ends as that phase ends. */
  lemma DetectAfterWarmup(stream: seq<Observation>, alpha: real, threshold: real, minDataPoints: int)
    requires 0 < WarmupCount(minDataPoints) <= |stream|
    ensures var k := WarmupCount(minDataPoints);
      var steady := SteadyRun(Seed(Values(stream[..k])), stream[k..], alpha, threshold);
      Detect(stream, alpha, threshold, minDataPoints) == Outcome(WarmupVerdicts(stream[..k]) + steady.yielded, steady.failure)
  {
  }

  /** The j-th verdict the steady-state phase yields, whether or not it stops
      early, is the step verdict of the j-th observation against the state
      left by the observations before it; it yields at most one verdict per
      observation, and exactly one when it does not fail. */
  lemma {:induction false} SteadyRunVerdictAt(s: State, obs: seq<Observation>, alpha: real, threshold: real, j: nat)
    ensures |SteadyRun(s, obs, alpha, threshold).yielded| <= |obs|
    ensures SteadyRun(s, obs, alpha, threshold).failure == None ==> |SteadyRun(s, obs, alpha, threshold).yielded| == |obs|
    ensures j < |SteadyRun(s, obs, alpha, threshold).yielded| ==>
      SteadyRun(s, obs, alpha, threshold).yielded[j] == StepVerdict(StateAfter(s, obs[..j], alpha), obs[j], alpha, threshold)
  {
    if obs != [] {
      var prefix := obs[..|obs| - 1];
      SteadyRunVerdictAt(s, prefix, alpha, threshold, j);
      if j < |prefix| {
        assert prefix[..j] == obs[..j];
      } else if j == |prefix| {
        assert prefix == obs[..j];
      }
    }
  }

  /** A stream holding the same reading `c` throughout is never flagged: every
      verdict reports the level `c` and a zero variance, whatever `alpha` and
      `threshold` are. */
  lemma ConstantStreamNeverFlagged(stream: seq<Observation>, alpha: real, threshold: real, minDataPoints: int, c: real)
    requires minDataPoints >= 1 && |stream| >= WarmupCount(minDataPoints)
    requires forall i :: 0 <= i < |stream| ==> stream[i].value == c
    ensures Detect(stream, alpha, threshold, minDataPoints).failure == None
    ensures |Detect(stream, alpha, threshold, minDataPoints).yielded| == |stream|
    ensures forall i :: 0 <= i < |stream| ==>
      var v := Detect(stream, alpha, threshold, minDataPoints).yielded[i];
      !v.isAnomaly && v.ewma == c && v.variance == 0.0
  {
    var k := WarmupCount(minDataPoints);
    var batch := Values(stream[..k]);
    var rest := stream[k..];
    SeedOfConstant(batch, c);
    var seed := Seed(batch);
    ConstantStreamAtRest(seed, rest, alpha, threshold, c);
    SteadyRunWithoutFailure(seed, rest, alpha, threshold);
    var out := Detect(stream, alpha, threshold, minDataPoints).yielded;
    assert out == WarmupVerdicts(stream[..k]) + SteadyVerdicts(seed, rest, alpha, threshold);
  }

  /** The generator is causal: what it yields for the first `j` readings is
      a prefix of what it yields for the whole stream, for every
      configuration, whether or not the run stops early. */
  lemma DetectIsCausal(stream: seq<Observation>, alpha: real, threshold: real, minDataPoints: int, j: nat)
    requires j <= |stream|
    ensures Detect(stream[..j], alpha, threshold, minDataPoints).yielded
         <= Detect(stream, alpha, threshold, minDataPoints).yielded
  {
    var k := WarmupCount(minDataPoints);
    var prefix := stream[..j];
    if k > 0 && k <= j {
      assert prefix[..k] == stream[..k];
      assert prefix[k..] == stream[k..][..j - k];
      SteadyRunExtends(Seed(Values(stream[..k])), stream[k..], j - k, alpha, threshold);
    } else if k > 0 && j < k && k <= |stream| {
      assert WarmupVerdicts(prefix) == WarmupVerdicts(stream[..k])[..j];
    } else if k > 0 && |stream| < k {
      assert WarmupVerdicts(prefix) == WarmupVerdicts(stream)[..j];
    }
  }

  /** With readings and the warm-up batch inside `[lo, hi]`, every reported
      level stays inside `[lo, hi]`. */
  lemma DetectEwmaBounded(stream: seq<Observation>, alpha: real, threshold: real, minDataPoints: int, lo: real, hi: real)
    requires 0.0 <= alpha <= 1.0 && minDataPoints >= 1
    requires |stream| >= WarmupCount(minDataPoints)
    requires forall i :: 0 <= i < |stream| ==> lo <= stream[i].value <= hi
    ensures |Detect(stream, alpha, threshold, minDataPoints).yielded| == |stream|
    ensures forall i :: 0 <= i < |stream| ==>
      lo <= Detect(stream, alpha, threshold, minDataPoints).yielded[i].ewma <= hi
  {
    var k := WarmupCount(minDataPoints);
    var batch := Values(stream[..k]);
    var seed := Seed(batch);
    var rest := stream[k..];
    DetectYieldsEveryReading(stream, alpha, threshold, minDataPoints);
    MeanBounded(batch, lo, hi);
    forall i | 0 <= i < |stream|
      ensures lo <= Detect(stream, alpha, threshold, minDataPoints).yielded[i].ewma <= hi
    {
      DetectVerdictAt(stream, alpha, threshold, minDataPoints, i);
      if i >= k {
        StateAfterEwmaBounded(seed, stream[k..i], alpha, lo, hi);
        StepEwmaBetween(StateAfter(seed, stream[k..i], alpha), stream[i].value, alpha);
      }
    }
  }
}
