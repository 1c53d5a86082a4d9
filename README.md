# Adaptive EWMA anomaly detector — a verified Dafny model

This project models the `anomaly_detection` generator. The generator reads
`(data_point, is_true_anomaly)` pairs from a data stream and flags readings
that stray too far from an exponentially weighted moving average (EWMA).
It runs in three stages:

1. **Warm-up.** It pulls `min(min_data_points, 10)` readings. For each one it
   yields a placeholder `(x, x, 0, False, label)` and keeps `x` in a batch.
2. **Seed.** It sets the level `ewma` to the batch mean, the `variance` to
   the batch's population variance, and the data count to the batch size.
3. **Steady state.** For each later reading `x` it:
   - decides `|x - ewma| > threshold * sqrt(variance)`, using the statistics
     from *before* the update;
   - updates the level first, `ewma := alpha*x + (1-alpha)*ewma`;
   - then updates the variance against the *new* level,
     `variance := alpha*(x - ewma)^2 + (1-alpha)*variance`;
   - yields the reading, the new level, the new spread, the decision and the
     label.

The model has five modules:

- `Arith`: small facts about real arithmetic, each over plain real
  parameters. It also defines the smoothing blend `Blend`.
- `Statistics`: batch sum, mean and population variance.
- `Ewma`: the running `State`, the decision rule `IsAnomalous`, the update
  `StepSpec`, and the per-reading verdict. `StateAfter` and `SteadyVerdicts`
  fold these over a sequence of readings.
- `AnomalyDetection`: the whole run.
  - `Detect` specifies the run as a function.
  - `Warmup` and `SteadyLoop` are the generator's two loops as imperative
    methods. `Process` runs them in turn and is proved equal to `Detect`.
  - A run that the generator ends with an exception is an `Outcome` that pairs
    the verdicts yielded so far with a `Failure`:
    - `WarmupExhausted`: `next` on a stream that is too short, line 23.
    - `EmptyWarmupBatch`: division by zero when the warm-up is empty, line 29.
    - `NegativeVariance`: `sqrt` of a negative variance, line 53.
- `DetectionProperties`: theorems about `Detect` over whole streams.

Values are `real`. The stream is a finite sequence, and the yields are the
sequence of verdicts. A verdict carries the variance instead of the
standard deviation. The decision needs no square root:
- for `threshold >= 0` it compares `deviation * deviation` with
  `threshold * threshold * variance`;
- for a negative threshold it flags every reading while the variance is
  positive, and otherwise every reading that differs from the level.

`ExceedsBandIsStdDevTest` and `AnomalyIsStdDevTest` prove that both cases
are the generator's comparison `deviation > threshold * std_dev`, for the
non-negative square root of the variance.

## Model

| member | source | states |
|---|---|---|
| Arith.Abs | anomaly_detection.py:39 | the absolute value is non-negative and is either `x` or `-x` |
| Arith.CompareSquares | anomaly_detection.py:41 | for non-negative reals, `a > b` holds exactly when `a*a > b*b`; this is what lets the decision drop the square root |
| Arith.BlendBetween | anomaly_detection.py:48 | the blend `alpha*x + (1-alpha)*e` with `0 <= alpha <= 1` lies between `e` and `x` and equals `e + alpha*(x - e)` |
| Arith.BlendNonNegative | anomaly_detection.py:51 | with `0 <= alpha <= 1`, a blend of two non-negative values is non-negative |
| Arith.DivBounded | anomaly_detection.py:29 | dividing a value between `n*lo` and `n*hi` by `n > 0` gives a value in `[lo, hi]` |
| Statistics.Mean | anomaly_detection.py:29 | the batch mean `sum / len`; its properties are `MeanOfConstant` and `MeanBounded` |
| Statistics.PopVariance | anomaly_detection.py:30 | the batch population variance, dividing by `len` rather than `len - 1`; its properties are `PopVarianceNonNegative` and `PopVarianceOfConstant` |
| Statistics.SumOfConstant | anomaly_detection.py:29 | a batch of `n` copies of `c` sums to `n*c` |
| Statistics.MeanOfConstant | anomaly_detection.py:29 | the mean of a batch of copies of `c` is `c` |
| Statistics.SumBounded | anomaly_detection.py:29 | a batch with every reading in `[lo, hi]` sums to between `n*lo` and `n*hi` |
| Statistics.MeanBounded | anomaly_detection.py:29 | when every reading of the batch lies in `[lo, hi]`, so does the batch mean |
| Statistics.SumSquaredDeviationsNonNegative | anomaly_detection.py:30 | a sum of squared deviations is never negative |
| Statistics.SumSquaredDeviationsOfConstant | anomaly_detection.py:30 | the squared deviations of copies of `m` from `m` sum to zero |
| Statistics.PopVarianceNonNegative | anomaly_detection.py:30-31 | the seed variance is never negative, so its square root at line 31 exists |
| Statistics.PopVarianceOfConstant | anomaly_detection.py:30 | a batch of equal readings has population variance zero |
| Ewma.Seed | anomaly_detection.py:29-33 | the state after warm-up: batch mean, batch population variance, batch size as the count; its properties are `SeedIsValid` and `SeedOfConstant` |
| Ewma.Deviation | anomaly_detection.py:39 | the distance `abs(x - ewma)` from the level before the update |
| Ewma.ExceedsBand | anomaly_detection.py:41 | the band test without a square root; `ExceedsBandIsStdDevTest` proves it is `d > t * sqrt(v)` |
| Ewma.IsAnomalous | anomaly_detection.py:39-45 | the decision on the state before the update; `AnomalyIsStdDevTest` and `ZeroVarianceFlagsAnyDeviation` state its meaning |
| Ewma.StepSpec | anomaly_detection.py:48-53 | the update: the level first, then the variance against the new level, and the count plus one; its properties are `StepEwmaBetween`, `StepKeepsVarianceNonNegative` and `StepAtRest` |
| Ewma.StepVerdict | anomaly_detection.py:55 | the yielded tuple: the reading, the post-update level and variance, the pre-update decision, the label; `SteadyVerdictAt` and `DetectVerdictAt` place it in the run |
| Ewma.StateAfter | anomaly_detection.py:37-62 | the state after absorbing a sequence of readings in order; its properties are `StateAfterIsValid`, `StateAfterCount` and `StateAfterEwmaBounded` |
| Ewma.SteadyVerdicts | anomaly_detection.py:37-55 | the steady-state yields when no update fails; `SteadyVerdictAt` gives each element and `SteadyRunWithoutFailure` ties it to `SteadyRun` |
| Ewma.SeedIsValid | anomaly_detection.py:29-33 | the seeded variance is non-negative and the seeded count is the batch size |
| Ewma.SeedOfConstant | anomaly_detection.py:29-30 | a batch of equal readings `c` seeds the level at `c` and the variance at zero |
| Ewma.ExceedsBandIsStdDevTest | anomaly_detection.py:41 | the square-free band test equals `d > t * std` for every threshold, negative ones included, when `std >= 0` and `std*std == v` |
| Ewma.AnomalyIsStdDevTest | anomaly_detection.py:39-45 | the decision is `deviation > threshold * std_dev`, with the deviation from the level before the update |
| Ewma.ZeroVarianceFlagsAnyDeviation | anomaly_detection.py:39-45 | with zero variance a reading is flagged exactly when it differs from the level, whatever the threshold |
| Ewma.StepEwmaBetween | anomaly_detection.py:48 | with `0 <= alpha <= 1`, the new level lies between the old level and the reading, and moves toward the reading by `alpha` times the gap |
| Ewma.StepKeepsVarianceNonNegative | anomaly_detection.py:51-62 | with `0 <= alpha <= 1` the updated variance is non-negative, so `sqrt` succeeds, and the count grows by one |
| Ewma.StepAtRest | anomaly_detection.py:39-53 | a reading equal to the level with zero variance is not flagged and leaves the level and the variance unchanged |
| Ewma.SteadyVerdictAt | anomaly_detection.py:37-55 | the steady phase yields one verdict per reading, in order; the i-th is decided on the state left by the readings before it and reports the state after it |
| Ewma.SteadyVerdictsLength | anomaly_detection.py:37-55 | the steady phase yields exactly one verdict per reading |
| Ewma.StateAfterIsValid | anomaly_detection.py:48-62 | with `0 <= alpha <= 1` and from a non-negative variance, over any number of steps the variance stays non-negative, and the count grows by the number of readings absorbed |
| Ewma.StateAfterCount | anomaly_detection.py:62 | absorbing `n` readings adds `n` to the count, for any `alpha` |
| Ewma.ConstantStreamAtRest | anomaly_detection.py:37-55 | from a state at rest at `c`, readings equal to `c` leave the level at `c` and the variance at zero, and none is flagged |
| AnomalyDetection.WarmupCount | anomaly_detection.py:22 | the warm-up is at most ten readings and no more than `min_data_points`; it is exactly one of the two when `min_data_points >= 1`, and empty otherwise |
| AnomalyDetection.WarmupVerdict | anomaly_detection.py:25 | the warm-up placeholder `(x, x, 0, False, label)`; `WarmupVerdicts` and `DetectVerdictAt` place it in the run |
| AnomalyDetection.WarmupVerdicts | anomaly_detection.py:22-25 | one placeholder per warm-up reading, with the reading as its level, zero spread, not flagged, label passed through |
| AnomalyDetection.Values | anomaly_detection.py:24 | the collected batch holds the readings' values in stream order |
| AnomalyDetection.SteadyRun | anomaly_detection.py:37-55 | the steady-state phase with its `sqrt` failure; its properties are `SteadyRunVerdictAt`, `SteadyRunFailure`, `SteadyRunFailsAt`, `SteadyYieldsNonNegative`, `SteadyRunStopsAtFailure`, `SteadyRunWithoutFailure` and `SteadyRunExtends` |
| AnomalyDetection.Detect | anomaly_detection.py:3-62 | the whole run as a function; `Process` is proved equal to it, and the `DetectionProperties` lemmas state what it promises |
| AnomalyDetection.SteadyRunStopsAtFailure | anomaly_detection.py:53 | once an update has no square root, later readings yield nothing |
| AnomalyDetection.Warmup | anomaly_detection.py:21-25 | the warm-up loop runs out exactly when the stream is shorter than the warm-up; otherwise it echoes and collects the first `WarmupCount` readings |
| AnomalyDetection.SteadyLoop | anomaly_detection.py:37-62 | the steady-state loop, which updates the level, variance and count in place, yields exactly the verdicts `SteadyRun` specifies and stops at the same failure |
| AnomalyDetection.Process | anomaly_detection.py:3-62 | the generator (warm-up loop, seed, steady-state loop) yields exactly what `Detect` specifies and stops with the same failure |
| DetectionProperties.SteadyRunWithoutFailure | anomaly_detection.py:37-55 | when no update produces a negative variance, the steady phase yields all its verdicts and does not fail |
| DetectionProperties.SteadyVariancesNonNegative | anomaly_detection.py:51-55 | with `0 <= alpha <= 1` every steady verdict reports a non-negative variance |
| DetectionProperties.SteadyRunExtends | anomaly_detection.py:37-55 | the steady phase's yields on a prefix of the readings are a prefix of its yields on all of them |
| DetectionProperties.StateAfterEwmaBounded | anomaly_detection.py:48 | with `0 <= alpha <= 1`, the level stays in any interval that holds the starting level and every reading absorbed |
| DetectionProperties.DetectStopsEarly | anomaly_detection.py:22-29 | the run fails at warm-up exactly when the stream is shorter than the warm-up, after echoing what it read; it fails on an empty batch exactly when `min_data_points <= 0`, yielding nothing |
| DetectionProperties.SteadyRunFailure | anomaly_detection.py:37-55 | the steady phase can stop only on a negative variance |
| DetectionProperties.SteadyYieldsNonNegative | anomaly_detection.py:51-55 | for any `alpha`, every verdict the steady phase yields reports a non-negative variance, so its `sqrt` exists |
| DetectionProperties.SteadyRunFailsAt | anomaly_detection.py:51-55 | when the steady phase fails, it has yielded one verdict per reading before the failing one, and the update on that reading gives a negative variance; that verdict is not yielded |
| DetectionProperties.DetectYieldsNonNegative | anomaly_detection.py:21-55 | for every configuration, every yielded verdict reports a non-negative variance, so the variance a decision uses always has a square root |
| DetectionProperties.DetectFailsAt | anomaly_detection.py:21-55 | when the run stops at the `sqrt`, it has yielded the warm-up and one verdict per steady reading before the failing one, and the update on that reading gives a negative variance |
| DetectionProperties.DetectKeepsVariance | anomaly_detection.py:51-53 | with `0 <= alpha <= 1` the run never fails on a negative variance |
| DetectionProperties.DetectYieldsEveryReading | anomaly_detection.py:21-62 | with a usable configuration and enough readings, the run yields one verdict per reading, with that reading's value and label, and no negative variance |
| DetectionProperties.DetectVerdictAt | anomaly_detection.py:21-62 | for every configuration, runs that stop early included, every yielded verdict `i` is either the warm-up placeholder (when `i` is in the warm-up) or decided on the state left by the earlier readings, which has absorbed exactly `i` data points, and reported with the state after it; no more verdicts than readings |
| DetectionProperties.SteadyRunVerdictAt | anomaly_detection.py:37-55 | whether or not the steady phase stops early, its j-th yield is the step verdict of the j-th reading against the state left by the readings before it; at most one yield per reading, exactly one when it does not fail |
| DetectionProperties.ConstantStreamNeverFlagged | anomaly_detection.py:21-62 | a stream of one repeated reading `c` is never flagged; every verdict reports level `c` and variance zero, for any `alpha` and `threshold` |
| DetectionProperties.DetectIsCausal | anomaly_detection.py:21-62 | what the run yields for the first `j` readings is a prefix of what it yields for the whole stream, for every configuration |
| DetectionProperties.DetectEwmaBounded | anomaly_detection.py:29-55 | with `0 <= alpha <= 1`, with `min_data_points >= 1` and at least the warm-up's readings, when every reading lies in `[lo, hi]`, every reported level lies in `[lo, hi]` |

## Left out

- The `print` at line 43 and the `time` counter it reports (lines 34, 61) are console output. They are not modelled. The count of absorbed data points (`data_count`, line 62) is modelled as `State.count`.
- Floating point is modelled as exact `real` arithmetic: no rounding, overflow, NaN or infinity.
- Square roots are not computed. Verdicts and states carry the variance, not `std_dev`. For `threshold >= 0` the decision compares squares. For a negative threshold it is decided by the signs of the deviation and the variance. `AnomalyIsStdDevTest` proves that both are the generator's test.
- The default arguments `alpha=0.2, threshold=3, min_data_points=30` (line 3) are not modelled. `Detect` and `Process` take every argument explicitly.
- Laziness and infinite streams are not modelled. The stream is a finite sequence and the yields are a finite sequence. `DetectIsCausal` states the streaming property: verdicts never depend on later readings.
- A Python caller can interleave other work between yields. This is not modelled.
- The stream generator (`data_stream.py`) and the plotting consumer (`visualization.py`) are not part of this model. They use random numbers, trigonometry and a user interface.
- The code validates no configuration, so neither does the model. No `alpha`, `threshold` or `min_data_points` is rejected up front.
  - A non-positive `min_data_points` ends the run with `EmptyWarmupBatch`, as the division by zero at line 29 does.
  - An `alpha` outside `[0, 1]` can end the run with `NegativeVariance`, as `sqrt` at line 53 does.
  - The code has no error of its own for a bad configuration. The model follows the code.
- A stream that ends during warm-up ends the run with `WarmupExhausted`. In the code this happens because `next` raises inside the generator. The verdicts already yielded are kept.
- Statistics.PopVarianceOfConstant: only one direction is proved. A zero batch variance implying equal readings is not stated.
