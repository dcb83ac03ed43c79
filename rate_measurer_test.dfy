/**
 * The rate measurer's test cases, each driven by a virtual clock as in the
 * repository's tests; the window size is a parameter wherever the test
 * relies on the default one.
 */
module RateMeasurerTest {
  import opened Results
  import opened Sequences
  import opened Clocks
  import opened RateMeasurement

  /**
   * Test driver for one second: `k` samples in the current second, then the
   * clock moves on by one second.
   */
  method SampleThenAdvance(m: RateMeasurer, c: VirtualClock, ghost counts: seq<nat>, k: nat)
    requires m.Valid() && m.clock == c
    requires m.history == Runs(0, counts) && c.now == |counts|
    requires m.history != [] ==> Last(m.history) < c.now
    modifies m, c
    ensures m.Valid()
    ensures m.history == Runs(0, counts + [k]) && c.now == |counts| + 1
    ensures m.history != [] ==> Last(m.history) < c.now
  {
    for j := 0 to k
      invariant m.Valid() && c.now == |counts|
      invariant m.history == Runs(0, counts) + Repeat<int>(c.now, j)
      invariant m.history != [] ==> Last(m.history) <= c.now
    {
      m.NewSample();
    }
    assert m.history == Runs(0, counts) + Repeat<int>(|counts|, k);
    RunsAppend(0, counts, k);
    c.Advance(1);
  }

  /** No samples at all: no rate. */
  method RateIsNanWhenNoSamples(sampleSize: nat) returns (r: Option<EventRate>)
    requires sampleSize >= 1
    ensures r == None
  {
    var c := new VirtualClock();
    var m := new RateMeasurer(c, sampleSize);
    r := m.Rate();
  }

  /** One sample, then one second passes: still no rate. */
  method RateIsNanWhenNotEnoughSamples(sampleSize: nat) returns (r: Option<EventRate>)
    requires sampleSize >= 1
    ensures r == None
  {
    var c := new VirtualClock();
    var m := new RateMeasurer(c, sampleSize);
    m.NewSample();
    c.Advance(1);
    r := m.Rate();
    NoRateWhileSpanShort(m.history, sampleSize);
  }

  /** `n` seconds with `k` samples in each, after the seconds `counts`. */
  method SampleSeconds(m: RateMeasurer, c: VirtualClock, ghost counts: seq<nat>, k: nat, n: nat)
    requires m.Valid() && m.clock == c
    requires m.history == Runs(0, counts) && c.now == |counts|
    requires m.history != [] ==> Last(m.history) < c.now
    modifies m, c
    ensures m.Valid()
    ensures m.history == Runs(0, counts + Repeat<nat>(k, n)) && c.now == |counts| + n
    ensures m.history != [] ==> Last(m.history) < c.now
  {
    assert counts + Repeat<nat>(k, 0) == counts;
    for i := 0 to n
      invariant m.Valid() && c.now == |counts| + i
      invariant m.history == Runs(0, counts + Repeat<nat>(k, i))
      invariant m.history != [] ==> Last(m.history) < c.now
    {
      SampleThenAdvance(m, c, counts + Repeat<nat>(k, i), k);
      RepeatAppend(counts, k, i);
    }
  }

  /**
   * One sample in each of sampleSize + 1 seconds makes the warm-up complete:
   * the rate is exactly one per second (sampleSize events over sampleSize
   * seconds). Time passing after the last sample, by any `gap`, changes
   * nothing, because the measurer only learns the time from a sample.
   */
  method RateIsCorrectWhenEnoughSamples(sampleSize: nat, gap: nat) returns (r: Option<EventRate>)
    requires sampleSize >= 1
    ensures r == Some(EventRate(sampleSize, sampleSize))
  {
    var c := new VirtualClock();
    var m := new RateMeasurer(c, sampleSize);
    SampleSeconds(m, c, [], 1, sampleSize + 1);
    assert [] + Repeat<nat>(1, sampleSize + 1) == Repeat<nat>(1, sampleSize + 1);
    c.Advance(gap);
    r := m.Rate();
    SteadyRate(0, 1, sampleSize + 1, sampleSize);
  }

  /**
   * sampleSize seconds at one sample per second, then sampleSize + 1 seconds
   * at two: the rate is exactly two per second, the first seconds no longer count.
   */
  method OldSamplesAreNotConsidered(sampleSize: nat) returns (r: Option<EventRate>)
    requires sampleSize >= 1
    ensures r == Some(EventRate(2 * sampleSize, sampleSize))
  {
    var c := new VirtualClock();
    var m := new RateMeasurer(c, sampleSize);
    SampleSeconds(m, c, [], 1, sampleSize);
    assert [] + Repeat<nat>(1, sampleSize) == Repeat<nat>(1, sampleSize);
    SampleSeconds(m, c, Repeat<nat>(1, sampleSize), 2, sampleSize + 1);
    r := m.Rate();
    OldSecondsForgotten(0, 1, sampleSize, 2, sampleSize + 1, sampleSize);
  }
}
