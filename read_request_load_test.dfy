/**
 * The scenario's test cases: a scenario asked for 5 requests per second and
 * checked every second, driven by a virtual clock. The request step issues
 * the requested number of requests once per second, at the start and after
 * every one-second tick, and runs before the check due in the same second.
 * The scenario's own window size is a parameter.
 */
module ReadRequestLoadScenarioTest {
  import opened Results
  import opened Sequences
  import opened Clocks
  import opened RateMeasurement
  import opened DroppingClient
  import opened ReadRequestLoad

  /**
   * One one-second tick: the clock moves on and the steps due then fire;
   * `answered` of the requested requests are answered in the new second.
   */
  method Tick(s: ReadRequestLoadScenario, c: VirtualClock, ghost counts: seq<nat>) returns (ghost answered: nat)
    requires s.Valid() && s.clock == c && s.state == Running && s.startTime == 0 && s.interval == 1
    requires s.measurer.history == Runs(0, counts) && c.now + 1 == |counts| && NoEmptySecond(counts)
    modifies s, s.client, s.measurer, c
    ensures answered == Answered(old(s.client.dropRequests), old(s.client.droppedLastRequest), s.requestRate)
    ensures s.Valid() && s.state == Running && s.startTime == 0
    ensures c.now == old(c.now) + 1 && s.client.dropRequests == old(s.client.dropRequests)
    ensures s.client.droppedLastRequest == DroppedAfter(old(s.client.dropRequests), old(s.client.droppedLastRequest), s.requestRate)
    ensures s.measurer.history == Runs(0, counts + [answered])
    ensures s.signal == Settle(old(s.signal), Checked(RateOf(s.measurer.history, s.measurer.windowSize)), s.requestRate)
  {
    RunsLast(0, counts);
    answered := Answered(s.client.dropRequests, s.client.droppedLastRequest, s.requestRate);
    c.Advance(1);
    s.Fire(s.requestRate);
    RunsAppend(0, counts, answered);
  }

  /**
   * Builds and starts the scenario against a client that answers everything;
   * the steps fire once immediately, at second 0.
   */
  method StartScenario(windowSize: nat) returns (c: VirtualClock, client: RequestDroppingClient, s: ReadRequestLoadScenario)
    requires windowSize >= 1
    ensures fresh(c) && fresh(client) && fresh(s) && fresh(s.measurer)
    ensures s.Valid() && s.clock == c && s.client == client && s.state == Running && s.startTime == 0
    ensures s.requestRate == 5 && s.interval == 1 && s.measurer.windowSize == windowSize
    ensures c.now == 0 && !client.dropRequests && !client.droppedLastRequest
    ensures s.measurer.history == Runs(0, Repeat<nat>(5, 1)) && s.signal == Pending
  {
    c := new VirtualClock();
    client := new RequestDroppingClient(false);
    s := new ReadRequestLoadScenario(c, client, 5, 1, windowSize);
    var started := s.Start();
    s.Fire(s.requestRate);
    FirstSecond(s.requestRate, windowSize);
  }

  /**
   * The first second, with every one of the `rate` requests answered. The
   * rate is a parameter pinned to 5 by the precondition, because a literal
   * argument would make Dafny unroll the recursive functions on it.
   */
  lemma FirstSecond(rate: nat, w: nat)
    requires rate == 5 && w >= 1
    ensures [] + Repeat<int>(0, Answered(false, false, rate)) == Runs(0, Repeat<nat>(rate, 1))
    ensures Settle(Pending, Checked(RateOf(Runs(0, Repeat<nat>(rate, 1)), w)), rate) == Pending
  {
    NoDropAnswersAll(false, rate);
    RunsAppend(0, [], rate);
    assert [] + [rate] == Repeat<nat>(rate, 1);
    RepeatElements<nat>(rate, 1);
    AtTargetNeverBelow(0, Repeat<nat>(rate, 1), w, rate);
  }

  /** After `k` seconds of the scenario with every request answered. */
  ghost predicate Steady(s: ReadRequestLoadScenario, c: VirtualClock, client: RequestDroppingClient, windowSize: nat, k: nat)
    reads s, s.measurer, c, client
  {
    s.Valid() && s.state == Running && s.startTime == 0 && s.clock == c && s.client == client &&
    s.requestRate == 5 && s.interval == 1 && s.measurer.windowSize == windowSize &&
    c.now + 1 == k && !client.dropRequests && !client.droppedLastRequest &&
    s.measurer.history == Runs(0, Repeat<nat>(5, k)) && s.signal == Pending
  }

  /** One tick with every request answered: five more answers, and the rate stays at target. */
  method SteadyTick(s: ReadRequestLoadScenario, c: VirtualClock, client: RequestDroppingClient, ghost windowSize: nat, ghost k: nat)
    requires k >= 1 && Steady(s, c, client, windowSize, k)
    modifies s, s.client, s.measurer, c
    ensures Steady(s, c, client, windowSize, k + 1)
  {
    RepeatElements<nat>(5, k);
    var answered := Tick(s, c, Repeat<nat>(5, k));
    SteadySecond(k, windowSize);
  }

  /** Five answers in one more second extend a steady run, and its rate is not below target. */
  lemma SteadySecond(k: nat, w: nat)
    ensures Answered(false, false, 5) == 5 && DroppedAfter(false, false, 5) == false
    ensures Repeat<nat>(5, k) + [5] == Repeat<nat>(5, k + 1)
    ensures !BelowTarget(RateOf(Runs(0, Repeat<nat>(5, k + 1)), w), 5)
  {
    NoDropAnswersAll(false, 5);
    RepeatElements<nat>(5, k + 1);
    AtTargetNeverBelow(0, Repeat<nat>(5, k + 1), w, 5);
  }

  /**
   * Starts the scenario and lets it run through six one-second ticks: every
   * one of the seven seconds so far got five answers and the signal is still
   * pending.
   */
  method StartAndPump(windowSize: nat)
    returns (c: VirtualClock, client: RequestDroppingClient, s: ReadRequestLoadScenario, ghost counts: seq<nat>)
    requires windowSize >= 1
    ensures fresh(c) && fresh(client) && fresh(s) && fresh(s.measurer)
    ensures s.Valid() && s.clock == c && s.client == client && s.state == Running && s.startTime == 0
    ensures s.requestRate == 5 && s.interval == 1 && s.measurer.windowSize == windowSize
    ensures c.now == 6 && !client.dropRequests && !client.droppedLastRequest
    ensures |counts| == 7 && forall i :: 0 <= i < |counts| ==> counts[i] == 5
    ensures s.measurer.history == Runs(0, counts) && s.signal == Pending
  {
    c, client, s := StartScenario(windowSize);
    for k := 1 to 7
      invariant Steady(s, c, client, windowSize, k)
      invariant fresh(c) && fresh(client) && fresh(s) && fresh(s.measurer)
    {
      SteadyTick(s, c, client, windowSize, k);
    }
    counts := Repeat<nat>(5, 7);
    RepeatElements<nat>(5, 7);
  }

  /**
   * With every request answered, the signal is still pending after six
   * ticks, and the stop that follows completes (and, as the only thing that
   * can, settles the signal successfully).
   */
  method ReadRequestLoadSucceeds(windowSize: nat) returns (maintained: Signal, stopped: Outcome<UsageError>, final: Signal)
    requires windowSize >= 1
    ensures maintained == Pending
    ensures stopped == Pass && final == Succeeded
  {
    var c, client, s, counts := StartAndPump(windowSize);
    maintained := s.signal;
    stopped := s.Stop();
    final := s.signal;
  }

  /**
   * Once the client drops every other request, three ticks later the signal
   * has failed with RequestRateTooLow, for the requested rate and a rate
   * below it. This holds for every window size of at most nine seconds.
   */
  method ScenarioFailsWhenRateDrops(windowSize: nat) returns (maintained: Signal)
    requires 1 <= windowSize <= 9
    ensures maintained.Failed?
    ensures maintained.error.target == 5 && BelowTarget(Some(maintained.error.actual), 5)
  {
    var c, client, s, counts := StartAndPump(windowSize);
    client.dropRequests := true;
    DropPhase(s, c, windowSize, counts);
    maintained := s.signal;
  }

  /** The signal is pending, or has failed for the requested rate of 5 and a rate below it. */
  predicate PendingOrLow(signal: Signal)
  {
    signal.Pending? || (signal.Failed? && signal.error.target == 5 && BelowTarget(Some(signal.error.actual), 5))
  }

  /**
   * One tick while the client drops every other request: of the five
   * requests, two are answered when the previous request was answered and
   * three when it was dropped, and the client ends on the opposite flag.
   */
  method DropTick(s: ReadRequestLoadScenario, c: VirtualClock, ghost counts: seq<nat>) returns (ghost answered: nat)
    requires s.Valid() && s.clock == c && s.state == Running && s.startTime == 0
    requires s.requestRate == 5 && s.interval == 1
    requires s.measurer.history == Runs(0, counts) && c.now + 1 == |counts| && NoEmptySecond(counts)
    requires s.client.dropRequests && PendingOrLow(s.signal)
    modifies s, s.client, s.measurer, c
    ensures answered == if old(s.client.droppedLastRequest) then 3 else 2
    ensures s.Valid() && s.state == Running && s.startTime == 0
    ensures c.now == old(c.now) + 1 && s.client.dropRequests
    ensures s.client.droppedLastRequest == !old(s.client.droppedLastRequest)
    ensures s.measurer.history == Runs(0, counts + [answered]) && NoEmptySecond(counts + [answered])
    ensures PendingOrLow(s.signal)
    ensures BelowTarget(RateOf(Runs(0, counts + [answered]), s.measurer.windowSize), 5) ==> s.signal.Failed?
  {
    DropAnswersOdd(s.client.droppedLastRequest, 2);
    answered := Tick(s, c, counts);
    NoEmptySecondAppend(counts, answered);
  }

  /** The three ticks after dropping starts: 2, 3 and 2 of five requests are answered. */
  method DropPhase(s: ReadRequestLoadScenario, c: VirtualClock, ghost windowSize: nat, ghost counts: seq<nat>)
    requires 1 <= windowSize <= 9
    requires s.Valid() && s.clock == c && s.state == Running && s.startTime == 0
    requires s.requestRate == 5 && s.interval == 1 && s.measurer.windowSize == windowSize
    requires c.now == 6 && s.client.dropRequests && !s.client.droppedLastRequest
    requires |counts| == 7 && forall i :: 0 <= i < |counts| ==> counts[i] == 5
    requires s.measurer.history == Runs(0, counts) && s.signal == Pending
    modifies s, s.client, s.measurer, c
    ensures s.measurer.history == Runs(0, counts + [2] + [3] + [2])
    ensures s.signal.Failed?
    ensures s.signal.error.target == 5 && BelowTarget(Some(s.signal.error.actual), 5)
  {
    var a1 := DropTick(s, c, counts);
    var a2 := DropTick(s, c, counts + [2]);
    DroppedWindowIsLow(windowSize, counts);
    var a3 := DropTick(s, c, counts + [2] + [3]);
  }

  /**
   * After seven seconds at five answers and three at 2, 3 and 2, any window
   * of at most nine seconds sees fewer than five answers a second.
   */
  lemma DroppedWindowIsLow(w: nat, counts: seq<nat>)
    requires 1 <= w <= 9
    requires |counts| == 7 && forall i :: 0 <= i < |counts| ==> counts[i] == 5
    ensures BelowTarget(RateOf(Runs(0, counts + [2] + [3] + [2]), w), 5)
  {
    var all := counts + [2] + [3] + [2];
    forall i | 0 <= i < |all| ensures 0 < all[i] <= 5 {
      if i < 7 { assert all[i] == counts[i]; }
    }
    LowLastSecond(all, w, 5);
  }

  /**
   * When every second got between one and `target` answers and the latest
   * second fewer than `target`, a window shorter than the run is below target.
   */
  lemma LowLastSecond(all: seq<nat>, w: nat, target: nat)
    requires 1 <= w < |all|
    requires forall i :: 0 <= i < |all| ==> 0 < all[i] <= target
    requires Last(all) < target
    ensures BelowTarget(RateOf(Runs(0, all), w), target)
  {
    RunsRate(0, all, w);
    var window := all[|all| - w..];
    forall i | 0 <= i < |window| ensures window[i] <= target {
      assert window[i] == all[|all| - w + i];
    }
    assert Last(window) == Last(all);
    SumBelowWhenLastBelow(window, target);
  }
}
