# Uncertainty-zone discretiser

This project models the `UctZone` class of `UctZone.py`. The class turns an
efficient price path `x` into the path a market would show when prices move on
a tick grid of size `alpha`. The model uses the uncertainty-zone rule: the
observed level changes only when the efficient price leaves a band of
half-width `alpha * (L - 1/2 + eta)` around the last observed level. `L` is the
jump size in ticks and `eta` is the aversion to price change.

The project has four modules:

- `Common` (`common.dfy`): `Option`, `Result`, the errors the pipeline raises, and `Abs`/`Max`.
- `ExitTimes` (`exit_times.dfy`): `get_exit_times` and `jump_size`. `Scan`/`Detect` are the
  reference definition, and `ExitTimesOf` is the scan loop proved equal to them. `Explains` is a
  declarative reading of the crossing rule: `Detect` satisfies it and is the only result that
  does. The section at the end models the loop as written, which can never terminate normally
  on a path of two or more samples.
- `ObservedPrice` (`observed_price.dfy`): `get_obs_price` with `select_time`. `Reconstruct` is
  the reference definition. `ObservedSeries`, `PlaceJumps` and `ForwardFill` are its loops over
  an array of optional slots.
- `UctZoneModel` (`uct_zone.dfy`): the class `UctZone` with its fields `x`, `p`, `tau`,
  `obs_price` and the two stage methods. Each method raises the source's errors when an earlier
  stage has not run.

The initial level comes from `k = x0 // alpha` and the comparison
`k*alpha - x0 < (k+1)*alpha - x0` (UctZone.py:50-55). For `alpha > 0` the comparison always
holds, so the initial level is the grid value at or below `x0`. That is not always the nearest
grid value. The model computes the level the same way: `InitialLevel` states the result, and
`InitialLevelIsNotNearest` gives a price that is nearer the upper level.

In two places the model follows the evident intent rather than the code, because the code
cannot run as written. The scan stops at the end of the path (see "## Findings"), and the
reconstruction of the observed series is described next.

`get_obs_price` cannot run as written. `None * len(self.x)` is a TypeError, `p[0] =
self.obs_price` stores the whole level list in one slot, and `select_time` returns a float that
is then used as an index. The model follows the evident intent instead:

- the series starts as `n` unset slots, with the first level in slot 0;
- each interval's value is written at the jump position rounded to the nearest index, with ties
  going to the later index.

## Model

| member | source | states |
|---|---|---|
| ExitTimes.JumpSize | UctZone.py:32-38 | the jump size is at least one tick (it is the constant 1) |
| ExitTimes.HalfWidth | UctZone.py:64 | for a positive tick, a non-negative aversion and a jump of at least one tick, the zone reaches at least half a tick on either side of the level |
| ExitTimes.Ascends | UctZone.py:64 | the ascent test fires only for a price more than half a tick above the level (under the same conditions) |
| ExitTimes.Descends | UctZone.py:69 | the descent test fires only for a price more than half a tick below the level |
| ExitTimes.InZone | UctZone.py:64-69 | neither test fires exactly when the price lies in the closed zone `[last - w, last + w]` |
| ExitTimes.InitialLevel | UctZone.py:49-55 | the initial level is the grid value `floor(x0/alpha)*alpha`, the grid value at or below `x0` and less than a tick below it |
| ExitTimes.InitialLevelIsNotNearest | UctZone.py:51-55 | with `x0 = 0.9` and `alpha = 1` the code picks 0, although 1 is nearer |
| ExitTimes.AscentLowersPotential | UctZone.py:64-68 | an ascent lowers the rounded tick distance between the price and the level, so re-testing the same index terminates |
| ExitTimes.DescentLowersPotential | UctZone.py:69-73 | a descent lowers that distance in the same way |
| ExitTimes.Scan | UctZone.py:60-74 | the scan from index `i` at level `last`, stopped at the end of the path, records as many levels as indices |
| ExitTimes.ScanExplained | UctZone.py:60-74 | the scan's result, anchored at `(i, last)`, satisfies the declarative crossing rule: indices non-decreasing and in `[i, n)`, each a one-tick step in the tested direction, every other tested index inside the zone of the level then current |
| ExitTimes.ResumeAscent | UctZone.py:64-68 | appending an ascent and moving the level up one jump leaves the overall crossing sequence unchanged |
| ExitTimes.ResumeDescent | UctZone.py:69-73 | the same for a descent |
| ExitTimes.Detect | UctZone.py:49-77 | the crossing sequence of a non-empty path: parallel lists starting at index 0 with the initial level, indices non-decreasing, later indices in `[1, n)` |
| ExitTimes.ExitTimesOf | UctZone.py:49-77 | the scan loop (inner loop bounded by the path) returns exactly the detector's indices and levels |
| ExitTimes.NextCrossing | UctZone.py:62-74 | one pass of the inner loop ends at or after the index it started from, and what it appends is exactly the head of the crossings still to record: before the end of the path, one index and its new level, a one-tick step in the tested direction; at the end of the path, nothing |
| ExitTimes.StepLowersPotential | UctZone.py:63-74 | a crossing lowers the rounded tick distance between the price at its index and the level, so the outer loop's re-test of the same index terminates |
| ExitTimes.DetectExplains | UctZone.py:57-74 | the detector's result satisfies the declarative crossing rule: each crossing is in a tested direction, and every tested index not recorded lies inside the current zone |
| ExitTimes.ExplainsOnlyDetect | UctZone.py:57-74 | any crossing sequence satisfying that rule equals the detector's result |
| ExitTimes.StepRule | UctZone.py:64-73 | one crossing moves the level by exactly one tick: up if and only if the price is above the zone, down if and only if below |
| ExitTimes.DetectCrossingRule | UctZone.py:57-74 | in the detector's result every level differs from the previous one by one tick: up exactly when the price at the crossing is above the previous zone, down exactly when below |
| ExitTimes.DetectBand | UctZone.py:61-74 | every sample between two recorded crossings lies inside the zone of the level then current |
| ExitTimes.StepsStayOnGrid | UctZone.py:64-73 | a level sequence that starts on the grid and moves by one tick at each step has every level on the grid |
| ExitTimes.DetectOnGrid | UctZone.py:50-73 | every observed level the detector records is an integer multiple of `alpha`: the initial level is `floor(x0/alpha)*alpha`, and each crossing adds or subtracts one tick |
| ExitTimes.RepeatedIndex | UctZone.py:63-74 | an index is recorded twice only when its sample cleared two zones in the same direction, and the level moves two ticks that way |
| ExitTimes.AsWrittenScan | UctZone.py:60-74 | the inner loop as written, without a bound check: the only error it can end in is an IndexError |
| ExitTimes.AsWrittenScanFails | UctZone.py:60-74 | the unbounded inner loop, as written, always ends by reading past the end of the path |
| ExitTimes.AsWrittenDetect | UctZone.py:41-79 | `get_exit_times` as written: its only error is an IndexError, and a result it returns starts with index 0 at the initial level |
| ExitTimes.AsWrittenDetectCrashes | UctZone.py:41-79 | as written, `get_exit_times` raises an IndexError on every path of two or more samples; on one sample it agrees with `Detect` |
| ObservedPrice.SelectTime | UctZone.py:91-95 | the selected time lies in `[a, b]`; fraction 0 gives `a` and fraction 1 gives `b` |
| ObservedPrice.JumpIndex | UctZone.py:95-102 | the index written for an interval lies inside the interval `[a, b]` |
| ObservedPrice.JumpIndexNearest | UctZone.py:101-102 | that index is within half a step of the selected time |
| ObservedPrice.JumpIndices | UctZone.py:100-101 | there is one jump index per consecutive pair of crossings, lying between them |
| ObservedPrice.LastWriter | UctZone.py:100-102 | the last interval whose jump index is `k`, or none |
| ObservedPrice.Initial | UctZone.py:97-98 | before any write, the series has `n` slots: slot 0 holds the first level and every other slot is unset |
| ObservedPrice.Placed | UctZone.py:97-102 | after the interval writes the series still has `n` slots and slot 0 is set |
| ObservedPrice.PlacedSlot | UctZone.py:97-102 | after the writes, a slot holds the level of the last interval that wrote it; otherwise slot 0 holds the first level and the other slots are unset |
| ObservedPrice.Fill | UctZone.py:104-107 | forward fill keeps every set slot, and copies the predecessor's value into every unset one |
| ObservedPrice.FillUnique | UctZone.py:104-107 | those two rules determine the filled series |
| ObservedPrice.Reconstruct | UctZone.py:97-110 | the only error of the reconstruction is an IndexError |
| ObservedPrice.PlaceJumps | UctZone.py:100-102 | the interval loop succeeds exactly when every jump index is inside the series, and then leaves the slots as `Placed` describes |
| ObservedPrice.ForwardFill | UctZone.py:104-107 | after the fill loop every slot holds the forward-filled value of the slots before the loop |
| ObservedPrice.ObservedSeries | UctZone.py:97-110 | the array version of the slot and fill loops returns exactly the reconstruction |
| ObservedPrice.ReconstructSucceeds | UctZone.py:97-102 | reconstruction succeeds if and only if the series is non-empty and every jump index is below its length |
| ObservedPrice.ReconstructInRange | UctZone.py:100-102 | when every crossing index is below `n`, reconstruction succeeds |
| ObservedPrice.ReconstructShape | UctZone.py:97-107 | the series has `n` values: each written slot holds its last writer's level, an unwritten slot 0 holds the first level, and every other slot copies its predecessor |
| ObservedPrice.ReconstructStart | UctZone.py:98-102 | when no later crossing is at index 0, the series starts at the first level |
| ObservedPrice.ReconstructValues | UctZone.py:97-107 | every value of the series is one of the posted levels, which are all levels but the last, or the first level alone when there was no crossing |
| ObservedPrice.ReconstructOnGrid | UctZone.py:97-107 | when every level is an integer multiple of `alpha`, so is every value of the reconstructed series |
| ObservedPrice.PipelineSucceeds | UctZone.py:41-110 | on any non-empty path, the reconstruction from the detected crossings succeeds and has one value per sample; it starts at the initial level, shows only detected levels, and every value is an integer multiple of `alpha` |
| ExitTimes.NegativeAversionCycles | UctZone.py:60-74 | with `x = [0.0, 0.55]`, `alpha = 1` and `eta = -0.4` the scan starts at level 0; `x[1]` is above the zone of 0 and below the zone of 1, so the source alternates between the two levels at index 1 forever |
| UctZoneModel.UctZone.constructor | UctZone.py:4-13 | stores the parameters and leaves all four fields unset |
| UctZoneModel.UctZone.SetEfficientPrice | UctZone.py:28 | installs a price path and leaves the other fields alone |
| UctZoneModel.UctZone.GetExitTimes | UctZone.py:41-79 | raises when `x` is unset, gives an IndexError on an empty path, and otherwise stores and returns the detector's indices and levels, leaving `x` and `p` alone |
| UctZoneModel.UctZone.GetObsPrice | UctZone.py:81-110 | raises when `x` or `tau` is unset, and otherwise returns the reconstruction from `tau`, `obs_price` and the draws, storing it in `p` on success |

## Left out

- `get_eff_price` (the Euler–Maruyama simulation with `np.random.normal`) is not modelled. `SetEfficientPrice` installs a given path instead.
- The Beta(2, 5) draws of `select_time` are inputs (`draws`): fractions in `[0, 1]`, one per interval.
- `np.array` conversions are not modelled. `tau` and `obs_price` are kept as sequences, and floating point is modelled as exact reals.
- `JumpSize` is modelled as the constant 1, as in the source. Random jump sizes and the left/right jump modes are not part of the source and are not modelled.
- `UctZoneModel.UctZone.constructor`: requires `alpha > 0` and `eta >= 0`, which the source does not check. Outside that range the source need not terminate: with `x = [0.0, 0.55]`, `alpha = 1` and `eta = -0.4` the level alternates between 0 and 1 at index 1 while `tau` and `obs_price` grow without bound (`NegativeAversionCycles`). With `alpha = 0` the source divides by zero at `x[0] // alpha` (UctZone.py:50) before any zone exists. With `alpha < 0` the zone is reversed. `InitialLevel` is defined only for a positive tick.
- `ExitTimes.Scan`, `ExitTimes.Detect`, `ExitTimes.ExitTimesOf`, `ExitTimes.NextCrossing`, `ExitTimes.AsWrittenScan` and `ExitTimes.AsWrittenDetect`: require `alpha > 0` and `eta >= 0` for the same reason. Their termination argument (the rounded tick distance between price and level drops at each crossing) needs a zone at least half a tick wide.
- `test.py` (plotting and the demo run) is not part of this model.
- `ObservedSeries`: it computes all jump indices before the write loop rather than interleaving each draw with its write. The draws are inputs, so the result is the same.
- `GetObsPrice`: requires one draw per interval, because `draws` stands in for the random generator.
- `ObservedSeries`: a jump index past the end of the series can happen only with exit times left over from a longer path. It is modelled as the IndexError the source raises, and `p` is left unchanged; the slots written before it are not observable.

## Findings

| source | as written | input that shows it | evidently intended | confidence | as-written member | corrected member |
|---|---|---|---|---|---|---|
| UctZone.py:60-74 | the inner `while True` advances `i` without a bound check, and after a `break` the outer guard still holds for the same `i` | `x = [0.0, 0.0]`, `alpha = 1`, `eta = 0`: `x[2]` is read and an IndexError is raised | stop the scan at the end of the path | high, not executed | ExitTimes.AsWrittenDetectCrashes | ExitTimes.ExitTimesOf |
