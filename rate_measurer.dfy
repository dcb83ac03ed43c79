/**
 * The sliding-window event-rate estimator. A sample is one event, counted in
 * the whole-second bucket of the clock's current time; the rate is the mean
 * number of events per second over the most recent `windowSize` seconds, and
 * there is no rate ("not a number") until `windowSize + 1` distinct seconds
 * have received a sample.
 */
module RateMeasurement {
  import opened Results
  import opened Sequences
  import opened Clocks

  /** A rate as the exact fraction events / seconds (there are no floats in the model). */
  datatype EventRate = EventRate(events: nat, seconds: nat)

  /** Number of samples a history holds for second `t`. */
  function Count(h: seq<int>, t: int): nat
  {
    if h == [] then 0 else Count(h[..|h| - 1], t) + (if Last(h) == t then 1 else 0)
  }

  /** Total number of samples in the `n` seconds lo, ..., lo + n - 1. */
  function WindowSum(h: seq<int>, lo: int, n: nat): nat
  {
    if n == 0 then 0 else WindowSum(h, lo, n - 1) + Count(h, lo + n - 1)
  }

  /**
   * The rate a measurer with window `w` reports after the samples `h` (the
   * seconds they were taken in, in the order they were recorded): `None`
   * until `w + 1` distinct seconds are seen, otherwise the sum of the window
   * ending at the newest sample's second, over `w`.
   */
  function RateOf(h: seq<int>, w: nat): Option<EventRate>
  {
    if h == [] || |Values(h)| < w + 1 then None
    else Some(EventRate(WindowSum(h, Last(h) - w + 1, w), w))
  }

  /** Samples taken by a clock that saw counts[i] events in second t0 + i. */
  function Runs(t0: int, counts: seq<nat>): seq<int>
  {
    if counts == [] then [] else Runs(t0, counts[..|counts| - 1]) + Repeat<int>(t0 + |counts| - 1, Last(counts))
  }

  class RateMeasurer {
    const clock: VirtualClock
    const windowSize: nat
    /** Retained per-second counts; seconds older than the window are evicted. */
    var buckets: map<int, nat>
    /** The newest second a sample was taken in (meaningful once a sample exists). */
    var newest: int
    /** How many distinct seconds have received a sample so far. */
    var observed: nat
    /** Every sample ever recorded, by the second it was taken in. */
    ghost var history: seq<int>

    ghost predicate Valid()
      reads this
    {
      windowSize >= 1 &&
      observed == |Values(history)| && InOrder(history) &&
      (history == [] ==> buckets == map[]) &&
      (history != [] ==> newest == Last(history) && AtMost(history, newest) && WindowKept(buckets, newest, windowSize, history))
    }

    constructor (clock: VirtualClock, windowSize: nat)
      requires windowSize >= 1
      ensures Valid()
      ensures this.clock == clock && this.windowSize == windowSize && history == []
    {
      this.clock := clock;
      this.windowSize := windowSize;
      buckets := map[];
      newest := 0;
      observed := 0;
      history := [];
    }

    /**
     * Records one event in the bucket of the clock's current second and drops
     * every bucket older than `windowSize` seconds before it.
     */
    method NewSample()
      requires Valid()
      requires history != [] ==> Last(history) <= clock.now
      modifies this
      ensures Valid()
      ensures history == old(history) + [clock.now]
    {
      var t := clock.now;
      ghost var (h, b) := (history, buckets);
      NonEmptyValues(h);
      if observed == 0 || t > newest {
        observed := observed + 1;
        newest := t;
      }
      var kept := Evict(buckets, t - windowSize);
      buckets := kept[t := Get(kept, t) + 1];
      history := history + [t];
      InOrderAppend(h, t);
      SampleKeepsCounts(h, t);
      if h == [] {
        assert buckets == map[t := 1];
      } else {
        SampleKeepsWindow(h, b, windowSize, t);
      }
    }

    /** The current rate, or `None` while too few seconds have been observed. */
    method Rate() returns (r: Option<EventRate>)
      requires Valid()
      ensures r == RateOf(history, windowSize)
    {
      NonEmptyValues(history);
      if observed < windowSize + 1 {
        return None;
      }
      var lo := newest - windowSize + 1;
      var sum: nat := 0;
      var i := 0;
      while i < windowSize
        invariant 0 <= i <= windowSize
        invariant sum == WindowSum(history, lo, i)
      {
        sum := sum + Get(buckets, lo + i);
        i := i + 1;
      }
      r := Some(EventRate(sum, windowSize));
    }
  }

  function Get(b: map<int, nat>, k: int): nat
  {
    if k in b then b[k] else 0
  }

  /** The buckets of `b` for second `oldest` and later. */
  function Evict(b: map<int, nat>, oldest: int): (r: map<int, nat>)
    ensures forall k :: k in r <==> k in b && k >= oldest
    ensures forall k :: k in r ==> r[k] == b[k]
  {
    map k | k in b && k >= oldest :: b[k]
  }

  /**
   * Second `x` holds a sample of `h`. The invariants below quantify over
   * `Holds` and `Retained` terms only, so that they are instantiated where a
   * proof about the measurer names them and nowhere else.
   */
  ghost predicate Holds(h: seq<int>, x: int)
  {
    x in h
  }

  /** Second `k` has a retained bucket in `b`. */
  ghost predicate Retained(b: map<int, nat>, k: int)
  {
    k in b
  }

  /** No sample of `h` is later than second `t`. */
  ghost predicate AtMost(h: seq<int>, t: int)
  {
    forall x {:trigger Holds(h, x)} :: Holds(h, x) ==> x <= t
  }

  /** Positions `i` and `j` of `h`, with `i` not after `j`. */
  ghost predicate Before(h: seq<int>, i: int, j: int)
  {
    0 <= i <= j < |h|
  }

  /** The samples of `h` were taken in time order. */
  ghost predicate InOrder(h: seq<int>)
  {
    forall i, j {:trigger Before(h, i, j)} :: Before(h, i, j) ==> h[i] <= h[j]
  }

  lemma InOrderSorted(h: seq<int>)
    requires InOrder(h)
    ensures Sorted(h)
  {
    forall i, j | 0 <= i <= j < |h| ensures h[i] <= h[j] {
      assert Before(h, i, j);
    }
  }

  /** A sample no earlier than the newest one keeps the history in time order. */
  lemma InOrderAppend(h: seq<int>, t: int)
    requires InOrder(h) && (h != [] ==> Last(h) <= t)
    ensures InOrder(h + [t])
  {
    var h' := h + [t];
    forall i, j | Before(h', i, j) ensures h'[i] <= h'[j] {
      if j < |h| {
        assert Before(h, i, j);
      } else if i < |h| {
        assert Before(h, i, |h| - 1);
      }
    }
  }

  /**
   * The retained buckets `b` cover exactly the seconds newest - w, ..., newest
   * and hold, for each of them, the number of samples the history has there.
   */
  ghost predicate WindowKept(b: map<int, nat>, newest: int, w: nat, h: seq<int>)
  {
    (forall k {:trigger Retained(b, k)} :: Retained(b, k) ==> newest - w <= k <= newest) &&
    (forall k {:trigger Get(b, k)} :: newest - w <= k <= newest ==> Get(b, k) == Count(h, k))
  }

  /** Recording one more sample at second t >= newest keeps the window in step with the history. */
  lemma SampleKeepsWindow(h: seq<int>, b: map<int, nat>, w: nat, t: int)
    requires h != [] && AtMost(h, Last(h)) && t >= Last(h)
    requires WindowKept(b, Last(h), w, h)
    ensures WindowKept(Evict(b, t - w)[t := Get(Evict(b, t - w), t) + 1], t, w, h + [t])
  {
    var b' := Evict(b, t - w)[t := Get(Evict(b, t - w), t) + 1];
    var h' := h + [t];
    forall k | Retained(b', k) ensures t - w <= k <= t {
      if k != t {
        assert Retained(b, k);
      }
    }
    forall k | t - w <= k <= t
      ensures Get(b', k) == Count(h', k)
    {
      CountSnoc(h, t, k);
      if k != t {
        assert k in b' <==> k in b;
        assert k in b ==> b'[k] == b[k];
      }
      if k > Last(h) {
        assert !Holds(h, k);
        CountAbsent(h, k);
        assert !Retained(b, k);
      } else {
        assert Get(b, k) == Count(h, k);
      }
    }
  }

  /** One more sample at a second no earlier than the last keeps every sample at or before
      it, and adds a distinct second exactly when it is later than every earlier one. */
  lemma SampleKeepsCounts(h: seq<int>, t: int)
    requires h != [] ==> AtMost(h, Last(h)) && Last(h) <= t
    ensures AtMost(h + [t], t)
    ensures |Values(h + [t])| == |Values(h)| + (if h == [] || t > Last(h) then 1 else 0)
  {
    Values1(h, t);
    forall x | Holds(h + [t], x) ensures x <= t {
      if x != t {
        assert Holds(h, x);
      }
    }
    if h != [] && t == Last(h) {
      assert t in Values(h);
    } else if h != [] {
      assert !Holds(h, t);
      assert t !in Values(h);
    }
  }

  lemma NonEmptyValues(h: seq<int>)
    ensures h == [] <==> |Values(h)| == 0
  {
    if h != [] {
      assert h[0] in Values(h);
    }
  }

  lemma Values1(h: seq<int>, t: int)
    ensures Values(h + [t]) == Values(h) + {t}
  {
    ValuesAppend(h, [t]);
    assert Values([t]) == {t};
  }

  // Properties of the rate.

  /** The measurer never retains more than `windowSize + 1` buckets, however many samples it saw. */
  lemma RetainedBucketsBounded(m: RateMeasurer)
    requires m.Valid()
    ensures |m.buckets| <= m.windowSize + 1
  {
    if m.history != [] {
      forall k | k in m.buckets.Keys ensures m.newest - m.windowSize <= k < m.newest - m.windowSize + m.windowSize + 1 {
        assert Retained(m.buckets, k);
      }
      SubsetOfIntervalSize(m.buckets.Keys, m.newest - m.windowSize, m.windowSize + 1);
    }
  }

  /**
   * While the samples span fewer than w + 1 seconds there is no rate; in
   * particular any number of samples taken without time passing gives none.
   */
  lemma {:induction false} NoRateWhileSpanShort(h: seq<int>, w: nat)
    requires Sorted(h)
    requires h != [] ==> Last(h) - h[0] < w
    ensures RateOf(h, w) == None
  {
    if h != [] {
      forall k | k in Values(h) ensures h[0] <= k < h[0] + (Last(h) - h[0] + 1) {
        var i :| 0 <= i < |h| && h[i] == k;
        assert h[0] <= h[i] <= h[|h| - 1];
      }
      SubsetOfIntervalSize(Values(h), h[0], Last(h) - h[0] + 1);
    }
  }

  /**
   * A valid measurer's samples are in time order, so it has no rate while
   * they span fewer than `windowSize + 1` seconds, however many there are.
   */
  lemma MeasurerNoRateWhileSpanShort(m: RateMeasurer)
    requires m.Valid()
    requires m.history != [] ==> Last(m.history) - m.history[0] < m.windowSize
    ensures Sorted(m.history)
    ensures RateOf(m.history, m.windowSize) == None
  {
    InOrderSorted(m.history);
    NoRateWhileSpanShort(m.history, m.windowSize);
  }

  /** Every second of a run got at least one sample. */
  ghost predicate NoEmptySecond(counts: seq<nat>)
  {
    forall i :: 0 <= i < |counts| ==> counts[i] > 0
  }

  lemma NoEmptySecondAppend(counts: seq<nat>, c: nat)
    requires NoEmptySecond(counts) && c > 0
    ensures NoEmptySecond(counts + [c])
  {
    forall i | 0 <= i < |counts| + 1 ensures (counts + [c])[i] > 0 {
      if i < |counts| {
        assert (counts + [c])[i] == counts[i];
      }
    }
  }

  lemma RunsAppend(t0: int, counts: seq<nat>, c: nat)
    ensures Runs(t0, counts + [c]) == Runs(t0, counts) + Repeat<int>(t0 + |counts|, c)
  {
    assert (counts + [c])[..|counts|] == counts;
  }

  lemma {:induction false} RunsRange(t0: int, counts: seq<nat>)
    ensures forall x :: x in Runs(t0, counts) ==> t0 <= x < t0 + |counts|
  {
    if counts != [] {
      RunsRange(t0, counts[..|counts| - 1]);
      RepeatElements(t0 + |counts| - 1, Last(counts));
    }
  }

  /** With no empty second, the seconds of a run are exactly t0, ..., t0 + |counts| - 1. */
  lemma {:induction false} RunsValues(t0: int, counts: seq<nat>)
    requires NoEmptySecond(counts)
    ensures Values(Runs(t0, counts)) == Interval(t0, |counts|)
  {
    if counts != [] {
      var n := |counts|;
      var prefix := counts[..n - 1];
      forall i | 0 <= i < |prefix| ensures prefix[i] > 0 {
        assert prefix[i] == counts[i];
      }
      RunsValues(t0, counts[..n - 1]);
      ValuesAppend(Runs(t0, counts[..n - 1]), Repeat<int>(t0 + n - 1, counts[n - 1]));
      ValuesRepeat(t0 + n - 1, counts[n - 1]);
    }
  }

  lemma CountSnoc(h: seq<int>, x: int, k: int)
    ensures Count(h + [x], k) == Count(h, k) + (if x == k then 1 else 0)
  {
    assert (h + [x])[..|h|] == h;
  }

  lemma {:induction false} CountAppend(a: seq<int>, b: seq<int>, k: int)
    ensures Count(a + b, k) == Count(a, k) + Count(b, k)
    decreases |b|
  {
    if b == [] {
      assert a + b == a;
    } else {
      var front := b[..|b| - 1];
      assert b == front + [Last(b)];
      assert a + b == (a + front) + [Last(b)];
      CountSnoc(a + front, Last(b), k);
      CountSnoc(front, Last(b), k);
      CountAppend(a, front, k);
    }
  }

  lemma {:induction false} CountAbsent(h: seq<int>, k: int)
    requires k !in h
    ensures Count(h, k) == 0
  {
    if h != [] {
      var front := h[..|h| - 1];
      assert k !in front by {
        forall i | 0 <= i < |front| ensures front[i] != k {
          assert front[i] == h[i];
        }
      }
      CountAbsent(front, k);
    }
  }

  lemma {:induction false} CountRepeat(x: int, n: nat, y: int)
    ensures Count(Repeat(x, n), y) == if y == x then n else 0
  {
    if n > 0 {
      CountSnoc(Repeat(x, n - 1), x, y);
      CountRepeat(x, n - 1, y);
    }
  }

  /** The samples a run holds for second k: those of all but its last second, plus those of the last. */
  lemma RunsSplitCount(t0: int, counts: seq<nat>, k: int)
    requires counts != []
    ensures Count(Runs(t0, counts), k)
      == Count(Runs(t0, counts[..|counts| - 1]), k) + (if k == t0 + |counts| - 1 then Last(counts) else 0)
  {
    var n := |counts|;
    var prefix := Runs(t0, counts[..n - 1]);
    var tail := Repeat<int>(t0 + n - 1, counts[n - 1]);
    assert Runs(t0, counts) == prefix + tail;
    CountAppend(prefix, tail, k);
    CountRepeat(t0 + n - 1, counts[n - 1], k);
  }

  /** A run holds counts[j] samples for its second t0 + j. */
  lemma {:induction false} RunsCount(t0: int, counts: seq<nat>, j: nat)
    requires j < |counts|
    ensures Count(Runs(t0, counts), t0 + j) == counts[j]
  {
    var front := counts[..|counts| - 1];
    RunsSplitCount(t0, counts, t0 + j);
    if j == |counts| - 1 {
      RunsRange(t0, front);
      CountAbsent(Runs(t0, front), t0 + j);
    } else {
      RunsCount(t0, front, j);
      assert front[j] == counts[j];
    }
  }

  /** The window sum over seconds lo, ..., lo + n - 1 of a history holding counts[i] samples at lo + i. */
  lemma {:induction false} WindowSumOfCounts(h: seq<int>, lo: int, counts: seq<nat>, n: nat)
    requires n <= |counts|
    requires forall i :: 0 <= i < n ==> Count(h, lo + i) == counts[i]
    ensures WindowSum(h, lo, n) == Sum(counts[..n])
  {
    if n > 0 {
      WindowSumOfCounts(h, lo, counts, n - 1);
      assert counts[..n][..n - 1] == counts[..n - 1];
    }
  }

  lemma RunsWindowSum(t0: int, counts: seq<nat>, a: nat, n: nat)
    requires a + n <= |counts|
    ensures WindowSum(Runs(t0, counts), t0 + a, n) == Sum(counts[a..a + n])
  {
    var window := counts[a..a + n];
    forall i | 0 <= i < n ensures Count(Runs(t0, counts), t0 + a + i) == window[i] {
      RunsCount(t0, counts, a + i);
      assert window[i] == counts[a + i];
    }
    WindowSumOfCounts(Runs(t0, counts), t0 + a, window, n);
    assert window[..n] == window;
  }

  /** A run whose last second is not empty ends in that second. */
  lemma RunsLast(t0: int, counts: seq<nat>)
    requires counts != [] && Last(counts) > 0
    ensures Runs(t0, counts) != [] && Last(Runs(t0, counts)) == t0 + |counts| - 1
  {
    var n := |counts|;
    var tail := Repeat<int>(t0 + n - 1, counts[n - 1]);
    assert Runs(t0, counts) == Runs(t0, counts[..n - 1]) + tail;
    assert Last(tail) == t0 + n - 1;
  }

  /** A run of non-empty seconds ends in its last second, one per count. */
  lemma RunsShape(t0: int, counts: seq<nat>)
    requires NoEmptySecond(counts)
    ensures |Values(Runs(t0, counts))| == |counts|
    ensures counts != [] ==> Runs(t0, counts) != [] && Last(Runs(t0, counts)) == t0 + |counts| - 1
  {
    RunsValues(t0, counts);
    if counts != [] {
      RunsLast(t0, counts);
    }
  }

  /**
   * The rate after a run of seconds none of which is empty: no value while at
   * most w seconds are covered, afterwards the counts of the last w seconds
   * over w. Older seconds do not contribute.
   */
  lemma RunsRate(t0: int, counts: seq<nat>, w: nat)
    requires NoEmptySecond(counts)
    ensures |counts| <= w ==> RateOf(Runs(t0, counts), w) == None
    ensures |counts| > w ==> RateOf(Runs(t0, counts), w) == Some(EventRate(Sum(counts[|counts| - w..]), w))
  {
    var n := |counts|;
    var h := Runs(t0, counts);
    RunsShape(t0, counts);
    if n > w {
      RunsWindowSum(t0, counts, n - w, w);
      assert counts[n - w..n] == counts[n - w..];
    }
  }

  /** With c samples in every second of a run longer than the window, the rate is exactly c. */
  lemma SteadyRate(t0: int, c: nat, n: nat, w: nat)
    requires c > 0 && n > w
    ensures RateOf(Runs(t0, Repeat<nat>(c, n)), w) == Some(EventRate(c * w, w))
  {
    RepeatSuffix(c, n, w);
    SumRepeat(c, w);
    RepeatElements(c, n);
    RunsRate(t0, Repeat<nat>(c, n), w);
  }

  /**
   * Old samples are not considered: after n1 seconds at a samples per second
   * and then at least w seconds at b per second, the rate is exactly b.
   */
  lemma OldSecondsForgotten(t0: int, a: nat, n1: nat, b: nat, n2: nat, w: nat)
    requires a > 0 && b > 0 && n2 >= w && n1 + n2 > w
    ensures RateOf(Runs(t0, Repeat<nat>(a, n1) + Repeat<nat>(b, n2)), w) == Some(EventRate(b * w, w))
  {
    var counts := Repeat<nat>(a, n1) + Repeat<nat>(b, n2);
    RepeatElements(a, n1);
    RepeatElements(b, n2);
    assert NoEmptySecond(counts) by {
      forall i | 0 <= i < |counts| ensures counts[i] > 0 {
        if i >= n1 {
          assert counts[i] == Repeat<nat>(b, n2)[i - n1];
        }
      }
    }
    RunsRate(t0, counts, w);
    assert counts[|counts| - w..] == Repeat<nat>(b, n2)[n2 - w..];
    RepeatSuffix(b, n2, w);
    SumRepeat(b, w);
  }
}
