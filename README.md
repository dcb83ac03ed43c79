# Read-request load scenario and its rate measurer

This project models the behaviour that the Flocker benchmark's tests for the
read-request load scenario pin down. The scenario sends node-listing requests
to a cluster's control service at a requested rate. Every answered request is
counted as a sample in a sliding-window rate measurer. At every monitor check,
the scenario compares the measured rate with the requested one.

The production classes are not part of this model: only their tests are. So
the model follows what the tests assert, and it proves each test's assertion
as a method contract. Where the tests leave the measurer's rules open, the
model makes its own choice, listed under "## Left out". The model has four
parts.

- **Rate measurer** (`rate_measurer.dfy`, module `RateMeasurement`):
  - Samples are counted in whole-second buckets of a virtual clock.
  - The rate is the number of samples in the last `windowSize` seconds, up to
    and including the newest sample's second, over `windowSize`.
  - There is no rate (NaN in the source) until `windowSize + 1` distinct
    seconds have received a sample.
  - On every sample, buckets older than `windowSize` seconds before the
    newest sample are evicted. The bucket of second `newest - windowSize`,
    just outside the window, is still kept, so at most `windowSize + 1`
    buckets remain.
  - Samples arrive in time order, and the invariant records that order.
  - The class keeps a bucket map, the newest second and the number of
    observed seconds. This representation is the model's own: the production
    class is not visible. A ghost history of sample
    seconds is its abstract state, and `RateOf` is the specification function
    over that history.
  - A rate is the exact fraction `EventRate(events, seconds)`; `None` stands
    for NaN.
- **Virtual clock** (`clock.dfy`): a whole-second, advance-only clock, in the
  role of Twisted's test `Clock`.
- **Request-dropping client** (`dropping_client.dfy`): the fake client whose
  `list_nodes` answers every request. When dropping is switched on, it drops
  and answers requests in turn, starting with a drop.
- **Scenario** (`read_request_load.dfy`):
  - Its lifecycle is NotStarted, then Running, then Stopped.
  - `Fire(issue)` runs the steps due in one second: it issues `issue`
    requests, and at every `interval`-th second after the start it checks the
    rate once.
  - The `maintained` signal is the `signal` field. It is Pending until it
    settles, and it settles at most once. A check that reads a number below
    the requested rate fails it with `RequestRateTooLow`. In this model, a
    stop while it is still pending makes it succeed; the tests do not assert
    this (see "## Left out").
  - A ghost trace of the checks and the stop explains the signal:
    `signal == Fold(Pending, trace)`.

The test modules (`rate_measurer_test.dfy`, `read_request_load_test.dfy`)
replay each test on the model. Their drivers put 5 requests in each second
for a scenario asked for 5 requests per second with an interval of 1. They
fire once at the start and once after every one-second tick, and the request
step runs before the check.

## Model

| member | source | states |
|---|---|---|
| `Clocks.VirtualClock.Advance` | benchmark/scenarios/test/test_read_request_load.py:36 | the clock moves forward by exactly the given number of seconds |
| `Clocks.VirtualClock.constructor` | benchmark/scenarios/test/test_read_request_load.py:32 | a new clock reads second 0 |
| `RateMeasurement.RateMeasurer.constructor` | benchmark/scenarios/test/test_read_request_load.py:45 | a new measurer on a clock with a window of `windowSize >= 1` seconds has seen no samples and satisfies its invariant |
| `RateMeasurement.RateMeasurer.NewSample` | benchmark/scenarios/test/test_read_request_load.py:50 | `new_sample` adds exactly one sample at the clock's current second. It keeps the invariant: the retained buckets cover only the last `windowSize + 1` seconds, each holds that second's sample count, and the observed-seconds counter equals the number of distinct seconds |
| `RateMeasurement.RateMeasurer.Rate` | benchmark/scenarios/test/test_read_request_load.py:55 | `rate()` computed from the buckets equals the specification rate of the whole history: none before `windowSize + 1` distinct seconds, otherwise the window sum over `windowSize`. It depends on the samples only, not on the time passed since the last one |
| `RateMeasurement.RetainedBucketsBounded` | benchmark/scenarios/test/test_read_request_load.py:57-75 | however many samples were taken, the measurer retains at most `windowSize + 1` buckets, so old seconds are evicted |
| `RateMeasurement.NoRateWhileSpanShort` | benchmark/scenarios/test/test_read_request_load.py:29-38 | while the samples span fewer than `windowSize + 1` seconds there is no rate, whatever their number |
| `RateMeasurement.MeasurerNoRateWhileSpanShort` | benchmark/scenarios/test/test_read_request_load.py:29-38 | every valid measurer's history is in time order, so it gives no rate while its samples span fewer than `windowSize + 1` seconds |
| `RateMeasurement.RunsRate` | benchmark/scenarios/test/test_read_request_load.py:40-75 | for a clock that saw `counts[i]` samples in second `t0 + i`, with no empty second: no rate while at most `w` seconds are covered, then exactly the sum of the last `w` counts over `w` |
| `RateMeasurement.SteadyRate` | benchmark/scenarios/test/test_read_request_load.py:40-55 | `c` samples in each of more than `w` seconds give a rate of exactly `c` per second |
| `RateMeasurement.OldSecondsForgotten` | benchmark/scenarios/test/test_read_request_load.py:57-75 | after seconds at `a` samples followed by at least `w` seconds at `b` samples, the rate is exactly `b`; the earlier seconds do not contribute |
| `RateMeasurerTest.SampleSeconds` | benchmark/scenarios/test/test_read_request_load.py:65-73 | running `n` seconds of `k` samples followed by an advance of one second each extends the history by `n` runs of `k` samples |
| `RateMeasurerTest.RateIsNanWhenNoSamples` | benchmark/scenarios/test/test_read_request_load.py:23-27 | a fresh measurer has no rate, for every window size |
| `RateMeasurerTest.RateIsNanWhenNotEnoughSamples` | benchmark/scenarios/test/test_read_request_load.py:29-38 | one sample and one second later there is still no rate, for every window size |
| `RateMeasurerTest.RateIsCorrectWhenEnoughSamples` | benchmark/scenarios/test/test_read_request_load.py:40-55 | one sample in each of `sampleSize + 1` seconds gives exactly `sampleSize / sampleSize`, a rate of 1, however far the clock moves afterwards |
| `RateMeasurerTest.OldSamplesAreNotConsidered` | benchmark/scenarios/test/test_read_request_load.py:57-75 | `sampleSize` seconds at 1 sample, then `sampleSize + 1` seconds at 2, give exactly `2 * sampleSize / sampleSize`, a rate of 2 |
| `DroppingClient.RequestDroppingClient.constructor` | benchmark/scenarios/test/test_read_request_load.py:82-85 | the client starts with the requested drop setting and with no request dropped yet |
| `DroppingClient.RequestDroppingClient.ListNodes` | benchmark/scenarios/test/test_read_request_load.py:87-94 | a request is answered unless dropping is on and the previous request was answered. With dropping on every call toggles the dropped flag; with it off the flag stays as it was. The drop setting never changes |
| `DroppingClient.NoDropAnswersAll` | benchmark/scenarios/test/test_read_request_load.py:88-89 | with dropping off, every one of `n` calls is answered and the flag is unchanged |
| `DroppingClient.DropToggles` | benchmark/scenarios/test/test_read_request_load.py:90-94 | with dropping on, the flag after `n` calls is the initial flag flipped `n` times |
| `DroppingClient.DropAlternates` | benchmark/scenarios/test/test_read_request_load.py:90-94 | from the initial state (nothing dropped yet), call number `i` (counting from 0) is answered exactly when `i` is odd: drop, answer, drop, answer |
| `DroppingClient.DropAnswersHalf` | benchmark/scenarios/test/test_read_request_load.py:90-94 | with dropping on, exactly `k` of any `2k` consecutive calls are answered and the flag returns to its initial value |
| `DroppingClient.DropAnswersOdd` | benchmark/scenarios/test/test_read_request_load.py:90-94 | with dropping on, `2k + 1` calls answer `k` requests, plus one more when the previous request was dropped, and end with the flag flipped |
| `ReadRequestLoad.ReadRequestLoadScenario.constructor` | benchmark/scenarios/test/test_read_request_load.py:122 | a scenario for a cluster client, a requested rate and an interval starts not started, with a pending signal and its own empty measurer |
| `ReadRequestLoad.ReadRequestLoadScenario.Start` | benchmark/scenarios/test/test_read_request_load.py:124 | starting a not-started scenario runs it from the current time and leaves the signal pending; starting it again is refused and changes nothing |
| `ReadRequestLoad.ReadRequestLoadScenario.Fire` | benchmark/scenarios/test/test_read_request_load.py:131 | in a running scenario one second's steps record one sample at the current second per answered request. When a check is due they append it to the trace and settle the signal by the rate just read. A scenario that is not running is left unchanged |
| `ReadRequestLoad.ReadRequestLoadScenario.IssueRequests` | benchmark/scenarios/test/test_read_request_load.py:141-144 | the request step advances the client by `issue` calls and adds one sample at the current second for each answered one, as many as the client's alternation answers |
| `ReadRequestLoad.ReadRequestLoadScenario.IssueRequest` | benchmark/scenarios/test/test_read_request_load.py:141-144 | one request: a sample at the current second exactly when the client answered it |
| `ReadRequestLoad.ReadRequestLoadScenario.CheckRate` | benchmark/scenarios/test/test_read_request_load.py:137-139 | the monitor step reads the measurer's rate, records the check in the trace, and fails a pending signal with `RequestRateTooLow(target, rate)` exactly when that rate is a number below the target |
| `ReadRequestLoad.ReadRequestLoadScenario.Stop` | benchmark/scenarios/test/test_read_request_load.py:133-134 | stopping a running scenario stops it and makes a pending signal succeed; a failed signal stays failed. Stopping a scenario that is not running is refused and changes nothing |
| `ReadRequestLoad.SettledIsFinal` | benchmark/scenarios/test/test_read_request_load.py:157-158 | once the signal has failed or succeeded, no later check or stop changes it |
| `ReadRequestLoad.PendingWhileQuiet` | benchmark/scenarios/test/test_read_request_load.py:132 | the signal is pending if and only if every event so far was a check that did not see a rate below target |
| `ReadRequestLoad.SettledByFirstLoud` | benchmark/scenarios/test/test_read_request_load.py:137-139 | the signal is settled by the first event that is not such a quiet check, and later events do not change it |
| `ReadRequestLoad.FirstLoud` | benchmark/scenarios/test/test_read_request_load.py:137-139 | when some event is not a quiet check, there is a first one, and every event before it is quiet |
| `ReadRequestLoad.FailsAtFirstLowRate` | benchmark/scenarios/test/test_read_request_load.py:137-139 | the signal fails with `RequestRateTooLow(target, r)` if and only if some check read the rate `r` below the target while every earlier event was quiet |
| `ReadRequestLoad.SucceedsOnlyOnStop` | benchmark/scenarios/test/test_read_request_load.py:116-118 | the signal succeeds if and only if a stop came while every earlier event was quiet |
| `ReadRequestLoad.AtTargetNeverBelow` | benchmark/scenarios/test/test_read_request_load.py:141-143 | while every second so far was answered at least at the target rate, no check can read a rate below target, for any window size |
| `ReadRequestLoadScenarioTest.Tick` | benchmark/scenarios/test/test_read_request_load.py:131 | one pumped second: the clock moves on, the second gets as many samples as the client answers of the 5 requests, and the signal is settled by the rate checked in that second |
| `ReadRequestLoadScenarioTest.StartScenario` | benchmark/scenarios/test/test_read_request_load.py:120-124 | a started scenario with a fully answering client has 5 samples in second 0 and a pending signal |
| `ReadRequestLoadScenarioTest.FirstSecond` | benchmark/scenarios/test/test_read_request_load.py:124 | the first firing records 5 samples in second 0, and the check that follows leaves the signal pending |
| `ReadRequestLoadScenarioTest.SteadyTick` | benchmark/scenarios/test/test_read_request_load.py:131 | a pumped second with every request answered adds 5 samples and keeps the signal pending |
| `ReadRequestLoadScenarioTest.SteadySecond` | benchmark/scenarios/test/test_read_request_load.py:131 | a fully answering client answers all 5 requests, and a run of seconds at 5 samples has no rate below 5 |
| `ReadRequestLoadScenarioTest.StartAndPump` | benchmark/scenarios/test/test_read_request_load.py:150-152 | after the start and six pumped seconds, each of the seven seconds 0 to 6 has 5 samples and the signal is still pending |
| `ReadRequestLoadScenarioTest.ReadRequestLoadSucceeds` | benchmark/scenarios/test/test_read_request_load.py:116-134 | with a fully answering client, `maintained` is still pending after six seconds, and the stop that follows completes. The model also settles the signal as a success at the stop, which the test does not assert |
| `ReadRequestLoadScenarioTest.DropTick` | benchmark/scenarios/test/test_read_request_load.py:154-155 | while the client drops alternate requests, a pumped second answers 2 or 3 of the 5 requests and flips the client's flag. A rate below 5 in that second fails the signal for target 5 |
| `ReadRequestLoadScenarioTest.DropPhase` | benchmark/scenarios/test/test_read_request_load.py:155-158 | the three seconds after dropping starts extend the history by seconds of 2, 3 and 2 samples, and leave the signal failed with a `RequestRateTooLow` for target 5 and a rate below 5 |
| `ReadRequestLoadScenarioTest.ScenarioFailsWhenRateDrops` | benchmark/scenarios/test/test_read_request_load.py:136-158 | six seconds at full rate and then three with alternate requests dropped leave `maintained` failed with `RequestRateTooLow` for the requested rate 5 and a measured rate below 5 |
| `ReadRequestLoadScenarioTest.DroppedWindowIsLow` | benchmark/scenarios/test/test_read_request_load.py:154-158 | seven seconds at 5 samples followed by 2, 3 and 2 give a rate below 5 for every window of at most nine seconds |
| `ReadRequestLoadScenarioTest.LowLastSecond` | benchmark/scenarios/test/test_read_request_load.py:137-139 | when no second has more than `target` samples and the latest has fewer, every window shorter than the run reads a rate below target |

## Left out

- The production `RateMeasurer` and `ReadRequestLoadScenario` are not part of
  this model; only their tests are. The tests' docstrings are empty or say
  nothing about the measurer's window, so three of its rules are the model's
  own choices:
  - The window covers the `windowSize` seconds that end at, and include, the
    newest sample's second, which may still be open. The comment at
    benchmark/scenarios/test/test_read_request_load.py:47-48 says only that
    the measurer learns that time has passed when a new sample arrives. The
    comment at lines 125-130 suggests another reading: a second's result is
    stored only when the next interval starts, so the rate would cover the
    `windowSize` finished seconds before the newest sample's second. The two
    readings give different rates: with a window of 2 and 1, 1 and 5 samples
    in seconds 0, 1 and 2, the model reads 6/2 and the other reading 2/2.
    No assertion in the tests tells the two readings apart. The model proves
    the tests under its own reading only.
  - There is no rate before `windowSize + 1` distinct seconds. This matches
    the `sample_size + 1` loop at line 49, which must produce a rate.
  - Buckets older than `windowSize` seconds before the newest sample are
    evicted. Nothing in the tests fixes when eviction happens; only its
    effect on the rate, at lines 57-75.
- `ReadRequestLoad.ReadRequestLoadScenario.Stop`: success on stop is the
  model's choice. Line 132 adds a failing callback for both outcomes of
  `maintained()` just before the `stop()` at line 133. The test therefore
  asserts nothing about how the signal settles at the stop, and the
  `final == Succeeded` that `ReadRequestLoadScenarioTest.ReadRequestLoadSucceeds`
  and `Stop` state goes beyond what the test asserts.
- The measurer's default window size is not visible. Every measurer and
  scenario takes it as a parameter. The NaN tests and the success test are
  proved for every window size of at least 1, and the two rate tests for
  every `sampleSize >= 1`, not only 2.
- `ReadRequestLoadScenarioTest.ScenarioFailsWhenRateDrops`: stated for window
  sizes from 1 to 9 only. The test has seen ten seconds (0 to 9) when it reads
  the signal. A window of ten seconds or more needs at least eleven seconds
  before it gives any rate, so the signal would still be pending. The test
  therefore relies on a default window of at most nine seconds, which is not
  visible.
- The scenario's request cadence is not visible. `Fire` takes the number of
  requests for the current second as a parameter. Only the scenario tests fix
  a cadence: 5 requests each second, fired at the start and after every tick,
  with the request step before the check of the same second.
- Twisted `Deferred` callbacks, `succeed`, `LoopingCall` and `Clock.pump`
  scheduling are not modelled. A pump of one second is a clock advance followed
  by `Fire`. The `maintained()` deferred is the `signal` field, and
  `successResultOf`/`failureResultOf` are read off that field.
- `list_nodes` returns nothing at all (Python `None`, not a deferred) when it
  drops a request. The model returns `None` of an option. The reply's payload
  is not modelled, because the scenario only counts answers.
- `FakeFlockerClient` is modelled as the request-dropping client with dropping
  switched off, which answers every call the same way.
- `make_cluster`, `BenchmarkCluster`, `Node`, `uuid4` and `IPAddress` are not
  modelled: they set up cluster topology and have no logic of their own.
- Floating-point rates, NaN and division are not modelled. A rate is the exact
  fraction `events / seconds`, and "below target" compares
  `events < target * seconds`.
- The sub-second clock and a monitor interval that does not divide the clock's
  second ticks are not modelled. The clock counts whole seconds.
- flocker/testtools/test/test_matchers.py is not part of this model. It holds
  file-system matchers and property tests against library matchers.
