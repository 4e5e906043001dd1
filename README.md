# Lightning sensor post-processing, in Dafny

This project models the `Lightning` class of BresserWeatherSensorReceiver
(`src/Lightning.h`). The class turns the readings of a lightning sensor into
three results:

- the number of events during the last update cycle;
- the timestamp, strike count and distance of the last lightning event;
- the number of strikes during the past 60 minutes.

A reading has a timestamp, the sensor's raw event counter, the distance of the
last strike and the sensor's startup flag. The raw counter wraps to zero at
1600. The data that must survive deep sleep is the structure `nvLightning_t`.

Two modules:

- `LightningSpec` (LightningSpec.dfy) holds the pure definitions: constants, valid update
  rates, the reconciliation of two counter readings (`Delta`, `Carry`), the
  histogram sums (`ValidBins`, `ValidSum`, `Quality`, `MeetsThreshold`) and the
  lemmas about them.
- `LightningSensor` (LightningSensor.dfy) holds the state:
  - class `NvLightning` is `nvLightning_t`, with its ten-entry `hist` array;
  - class `Lightning` has the fields `qualityThreshold`, `currCount`,
    `deltaEvents` and `nv`, and one method per operation.

  `Lightning.Valid()` is the class invariant:
  - `60 % updateRate == 0` and `60 / updateRate <= 10`;
  - `-1 <= prevCount < 1600`;
  - every `hist` entry is at least -1;
  - the last-event fields agree with a ghost record of the last event.

The model follows the declarations, field comments and doc comments of
`src/Lightning.h`. The implementation bodies of `update`, `pastHour`,
`hist_init`, `reset`, `lastCycle` and `lastEvent` are not modelled statement by
statement; their contracts state what that documentation promises.
`setUpdateRate` is modelled statement by statement from its body
(src/Lightning.h:213-227).

Where a contract needed a reading of the documentation, this is what the model does:

- `accCount` follows its field comment, "accumulated counts (overflows and
  startups)". It grows by 1600 when the raw counter wraps and by the previous
  raw count when the sensor restarts. So `accCount + raw count` is the unwrapped
  running total, and the events of one cycle are how much that total grew
  (`AccumulatedCountTracksEvents` for one update, `AccAfterRunTracksEvents`
  for a run). Reading `accCount` as the sum of all per-cycle events would give
  the same number of events per cycle.
- A sensor startup is detected when the startup flag is set now and was not
  set at the previous update. The counter then restarted from zero, so the
  events of that cycle are the new raw count. Otherwise, a raw count below the
  previous one is a wrap.
- The first update after construction or `reset` (`prevCount == -1`) only
  records the baseline: it reports 0 events and leaves the histogram alone.
- The in-class initializer `.hist = {0}` sets all ten bins to 0, which counts
  as valid. So a new object reports ten valid bins, not the invalid value -1.
  `reset` and a change of rate set the bins to -1.
- `reset` re-initializes every field of the non-volatile data, `updateRate`
  included, to the values of the initializer, except that the bins become -1.
  It does not touch `deltaEvents`, which is not part of the non-volatile data.
- `lastEvent` reports an event when the stored event count is positive. That is
  the case exactly when some update since construction or `reset` reported
  events.

## Model

| member | source | states |
|---|---|---|
| `LightningSensor.NvLightning.constructor` | src/Lightning.h:157-168 | Initial non-volatile state: no prior reading (`prevCount == -1`); counters, last-event fields and `lastUpdate` are 0; startup flag false; all ten bins 0; update rate 6 |
| `LightningSensor.Lightning.constructor` | src/Lightning.h:151-183 | Stores the quality threshold (default 0.8); `deltaEvents == -1`, so no update has happened; the non-volatile data has its initial values |
| `LightningSensor.Lightning.SetUpdateRate` | src/Lightning.h:213-227 | The rate becomes `rate`. A different rate sets every bin to -1, so no bin in use is valid. The same rate leaves the histogram alone. No other field changes |
| `LightningSensor.Lightning.HistInit` | src/Lightning.h:236-241 | Every histogram entry becomes `count` (default -1). Nothing else changes |
| `LightningSensor.Lightning.Reset` | src/Lightning.h:230-233 | Non-volatile data back to its defaults: no prior reading, no last event, update rate 6, every bin -1 so no bin is valid. `deltaEvents` is untouched |
| `LightningSensor.Lightning.Update` | src/Lightning.h:248-261 | First reading: baseline only, 0 events. Later readings: `deltaEvents` is the `Delta` of the two readings; that value goes into the cycle's bin; `accCount` gains the `Carry` (with uint32 wrap). `prevCount`, `startupPrev`, `lastUpdate` take the new reading. The last event changes only when events > 0 |
| `LightningSensor.Lightning.RecordCycle` | src/Lightning.h:248-261 | The cycle's bin gets the event count; when it is positive, it becomes the last event with its timestamp and distance, otherwise the last event is untouched |
| `LightningSensor.Lightning.PastHour` | src/Lightning.h:264-275 | Returns the sum and count of valid bins among the `60 / updateRate` in use, with `0 <= nbins <= bins` and sum >= 0. `quality = nbins / bins` lies in [0, 1]. `valid` holds iff `nbins >= threshold * 60 / updateRate`, and also iff `quality >= threshold` |
| `LightningSensor.Lightning.LastCycle` | src/Lightning.h:277-284 | Returns the events of the last update cycle; -1 exactly when no update has run |
| `LightningSensor.Lightning.LastEvent` | src/Lightning.h:286-297 | True iff an update since construction or reset reported events. When true, the outputs are that event's timestamp, count (in 1..1599) and distance |
| `LightningSpec.Bins` | src/Lightning.h:189-194 | For a valid rate, the bins in use number between 1 and 10, and bins times rate is 60 |
| `LightningSpec.ValidRates` | src/Lightning.h:192-199 | The valid rates are exactly 6, 10, 12, 15, 20, 30 and 60 minutes |
| `LightningSpec.DefaultRates` | src/Lightning.h:196-199 | Rate 6 gives 10 bins; rate 12 gives 5 bins |
| `LightningSpec.Delta` | src/Lightning.h:85-90 | The events of one cycle lie in [0, 1600). After a sensor startup they equal the new raw count. A wrap with no startup gives a positive number |
| `LightningSpec.Carry` | src/Lightning.h:125-128 | What accCount gains in one update: 0, the raw count before a startup, or 1600 at an overflow |
| `LightningSpec.CarryAccountsForDelta` | src/Lightning.h:127-131 | Carry plus new raw count equals previous raw count plus the cycle's events |
| `LightningSpec.DeltaIsCounterDistance` | src/Lightning.h:85-90 | With no startup, the events are the only d in [0, 1600) such that `(prevCount + d) mod 1600` is the new count (both directions) |
| `LightningSpec.OverflowExample` | src/Lightning.h:85-90 | A wrap from 1599 to 1 gives 2 events |
| `LightningSpec.AccumulatedWithoutWrap` | src/Lightning.h:253-257 | Over a run of non-decreasing readings with no startup, the summed events equal the last reading minus the first |
| `LightningSpec.AccumulatedModulo` | src/Lightning.h:85-90 | Over any run with no startup, wraps included, the first reading plus the summed events is the last reading, modulo 1600 |
| `LightningSpec.Uint32Add` | src/Lightning.h:128 | The unsigned 32-bit sum stays in range and equals the plain sum when that fits |
| `LightningSpec.AccumulatedCountTracksEvents` | src/Lightning.h:125-131 | `accCount + raw count` grows by the cycle's events modulo 2^32, wrap included. accCount never decreases unless it wraps |
| `LightningSpec.AccAfterRunTracksEvents` | src/Lightning.h:125-131 | Over any run without a startup, the accCount reached by adding each update's carry with uint32 wrap, plus the last raw reading, equals the first accCount plus the first reading plus the run's summed events, modulo 2^32 |
| `LightningSpec.ValidBins` | src/Lightning.h:270 | The number of valid (non-negative) bins is at most the number of bins |
| `LightningSpec.ValidSum` | src/Lightning.h:273 | The sum over valid bins is non-negative |
| `LightningSpec.ValidBinsAppend` | src/Lightning.h:264-275 | Count and sum of valid bins add up over concatenated bin ranges |
| `LightningSpec.AllValid` | src/Lightning.h:269-271 | All bins are counted iff every bin is valid |
| `LightningSpec.NoneValid` | src/Lightning.h:236-241 | No bin is counted iff every bin is invalid, and then the sum is 0 |
| `LightningSpec.Quality` | src/Lightning.h:271 | Quality lies in [0, 1]. It is 1 iff all bins are valid and 0 iff none is |
| `LightningSpec.ThresholdIsQuality` | src/Lightning.h:269-271 | `nbins >= threshold * 60 / updateRate` holds iff `nbins / (60 / updateRate) >= threshold` |
| `LightningSpec.EightOfTenIsValid` | src/Lightning.h:104-111 | With rate 6, eight valid bins and two invalid ones give `nbins = 8` and quality 0.8, which meets the default threshold |

## Left out

- Storage in Preferences (flash key-value store) and in RTC RAM is platform I/O. This covers `prefs_load`, `prefs_save`, the `preferences` member and the `#if` build variants. The model keeps the non-volatile data in `NvLightning`. `SetUpdateRate` takes the previous rate from `updateRate`, as the unit-test build does.
- `float` values (`qualityThreshold`, `quality`) are exact reals. IEEE rounding at the threshold boundary is not modelled.
- `time_t` timestamps are unbounded integers. Calendar conversion is not modelled.
- LightningSensor.Lightning.Update: the caller passes the histogram bin of the current cycle as `slot`. That bin comes from the timestamp and the update rate through calendar code that is not part of this model.
- LightningSensor.Lightning.Update: missed update cycles are not modelled. The bins between the previous cycle's bin and the current one are left as they were; the implementation invalidates them.
- LightningSensor.Lightning.Update: a startup seen one cycle late is not reconciled through `preStCount`. The model only records the raw count from before the startup in `preStCount`.
- LightningSensor.Lightning.Update: `accCount` grows only by the carry at a counter overflow (1600) or a sensor startup (the raw count before it), as the field comment at src/Lightning.h:128 ("Accumulated counts (overflows and startups)") says. It is not incremented by every cycle's events, so between overflows and startups it stays constant; the running event total is `accCount + raw count`.
- LightningSensor.Lightning.Update: the raw count must lie in [0, 1600), the range the sensor produces. Other `int16_t` values are not modelled.
- LightningSensor.Lightning.HistInit: `count` must be at least -1, meaning an event count or the invalid marker. Other negative `int16_t` values are not modelled.
- `currCount` is not initialized by the C++ constructor. The model starts it at 0.
- `lastUpdate` is stored but never compared, because the model has no missed-cycle detection.
- LightningSensor.Lightning.Reset: `deltaEvents` survives a reset, because it is a member of the class and not of the non-volatile data that `reset` initializes. So `LastCycle` after a reset returns the last cycle's events, not the -1 of a new object.
