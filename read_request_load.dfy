/**
 * The read-request load scenario: while running it issues node-listing
 * requests against a client, counts every answered request as a sample in
 * its own rate measurer, and every `interval` seconds compares the measured
 * rate with the requested one. The `maintained` signal settles at most once:
 * it fails the first time a measured rate is below the requested rate, and it
 * succeeds only when the scenario is stopped while still pending.
 */
module ReadRequestLoad {
  import opened Results
  import opened Sequences
  import opened Clocks
  import opened RateMeasurement
  import opened DroppingClient

  datatype Lifecycle = NotStarted | Running | Stopped

  /** The scenario's failure: the rate it had to keep and the rate it measured. */
  datatype RequestRateTooLow = RequestRateTooLow(target: nat, actual: EventRate)

  /** The state of the `maintained` signal. */
  datatype Signal = Pending | Succeeded | Failed(error: RequestRateTooLow)

  /** Misuse of the lifecycle: starting twice (or after a stop), or stopping when not running. */
  datatype UsageError = AlreadyStarted | NotRunning

  /** What the signal reacts to: a monitor check that read a rate, or an orderly stop. */
  datatype Event = Checked(rate: Option<EventRate>) | StopRequested

  /**
   * A measured rate is below the target when it is a number and
   * events / seconds < target. A missing rate is never below target.
   */
  predicate BelowTarget(r: Option<EventRate>, target: nat)
  {
    r.Some? && r.value.events < target * r.value.seconds
  }

  /** How one event settles the signal; a settled signal never changes again. */
  function Settle(s: Signal, e: Event, target: nat): Signal
  {
    if !s.Pending? then s
    else match e
      case Checked(r) => if BelowTarget(r, target) then Failed(RequestRateTooLow(target, r.value)) else Pending
      case StopRequested => Succeeded
  }

  /** The signal after a sequence of events, oldest first. */
  function Fold(s: Signal, events: seq<Event>, target: nat): Signal
  {
    if events == [] then s
    else Settle(Fold(s, events[..|events| - 1], target), Last(events), target)
  }

  /** An event that leaves a pending signal pending: a check that did not see a low rate. */
  predicate Quiet(e: Event, target: nat)
  {
    e.Checked? && !BelowTarget(e.rate, target)
  }

  class ReadRequestLoadScenario {
    const clock: VirtualClock
    const client: RequestDroppingClient
    const measurer: RateMeasurer
    /** Requests per second the scenario has to sustain. */
    const requestRate: nat
    /** Seconds between two rate checks. */
    const interval: nat
    var state: Lifecycle
    /** What `maintained()` reports; the same signal for the whole life of the scenario. */
    var signal: Signal
    var startTime: int
    /** Every event the signal has seen. */
    ghost var trace: seq<Event>

    ghost predicate Valid()
      reads this, measurer
    {
      interval >= 1 &&
      measurer.Valid() && measurer.clock == clock &&
      signal == Fold(Pending, trace, requestRate) &&
      (state == NotStarted ==> trace == [] && measurer.history == []) &&
      (StopRequested in trace <==> state == Stopped)
    }

    constructor (clock: VirtualClock, client: RequestDroppingClient, requestRate: nat, interval: nat, windowSize: nat)
      requires interval >= 1 && windowSize >= 1
      ensures Valid() && fresh(measurer)
      ensures this.clock == clock && this.client == client
      ensures this.requestRate == requestRate && this.interval == interval
      ensures measurer.windowSize == windowSize && measurer.history == []
      ensures state == NotStarted && signal == Pending
    {
      this.clock := clock;
      this.client := client;
      this.requestRate := requestRate;
      this.interval := interval;
      measurer := new RateMeasurer(clock, windowSize);
      state := NotStarted;
      signal := Pending;
      startTime := 0;
      trace := [];
    }

    /** A rate check is due at whole multiples of `interval` after the start. */
    predicate MonitorDue()
      reads this, clock
    {
      interval > 0 && (clock.now - startTime) % interval == 0
    }

    /** Schedules the request and monitor steps from the current time on. */
    method Start() returns (res: Outcome<UsageError>)
      requires Valid()
      modifies this
      ensures Valid()
      ensures old(state) == NotStarted ==>
        res == Pass && state == Running && startTime == clock.now &&
        signal == old(signal) && trace == old(trace)
      ensures old(state) != NotStarted ==> res == Fail(AlreadyStarted) && unchanged(this)
    {
      if state != NotStarted {
        return Fail(AlreadyStarted);
      }
      state := Running;
      startTime := clock.now;
      res := Pass;
    }

    /**
     * The steps due at the current second: the request step, then, when a
     * check is due, the monitor step. Nothing fires unless running.
     */
    method Fire(issue: nat)
      requires Valid()
      requires measurer.history != [] ==> Last(measurer.history) <= clock.now
      modifies this, client, measurer
      ensures Valid()
      ensures old(state) != Running ==> unchanged(this, client, measurer)
      ensures old(state) == Running ==>
        state == Running && startTime == old(startTime) &&
        client.dropRequests == old(client.dropRequests) &&
        client.droppedLastRequest == DroppedAfter(old(client.dropRequests), old(client.droppedLastRequest), issue) &&
        measurer.history == old(measurer.history)
          + Repeat<int>(clock.now, Answered(old(client.dropRequests), old(client.droppedLastRequest), issue))
      ensures old(state) == Running && MonitorDue() ==>
        trace == old(trace) + [Checked(RateOf(measurer.history, measurer.windowSize))] &&
        signal == Settle(old(signal), Checked(RateOf(measurer.history, measurer.windowSize)), requestRate)
      ensures old(state) == Running && !MonitorDue() ==> trace == old(trace) && signal == old(signal)
    {
      if state != Running {
        return;
      }
      IssueRequests(issue);
      if MonitorDue() {
        CheckRate();
      }
    }

    /**
     * The request step: issues `issue` node listings and records one sample
     * for each request that is answered. Dropped requests leave no trace.
     */
    method IssueRequests(issue: nat)
      requires measurer.Valid()
      requires measurer.history != [] ==> Last(measurer.history) <= clock.now
      requires measurer.clock == clock
      modifies client, measurer
      ensures measurer.Valid()
      ensures client.dropRequests == old(client.dropRequests)
      ensures client.droppedLastRequest == DroppedAfter(old(client.dropRequests), old(client.droppedLastRequest), issue)
      ensures measurer.history == old(measurer.history)
          + Repeat<int>(clock.now, Answered(old(client.dropRequests), old(client.droppedLastRequest), issue))
    {
      ghost var (drop, dropped, h) := (client.dropRequests, client.droppedLastRequest, measurer.history);
      var i := 0;
      while i < issue
        invariant 0 <= i <= issue
        invariant Issued(drop, dropped, h, i)
      {
        IssueNext(drop, dropped, h, i);
        i := i + 1;
      }
    }

    /**
     * After `i` requests of a request step that began with the client's flags
     * `drop` and `dropped` and the samples `h`: the client is `i` calls on and
     * one sample at the current second was added per answered request.
     */
    ghost predicate Issued(drop: bool, dropped: bool, h: seq<int>, i: nat)
      reads this, client, measurer, clock
    {
      measurer.Valid() && measurer.clock == clock &&
      client.dropRequests == drop &&
      client.droppedLastRequest == DroppedAfter(drop, dropped, i) &&
      measurer.history == h + Repeat<int>(clock.now, Answered(drop, dropped, i)) &&
      (measurer.history != [] ==> Last(measurer.history) <= clock.now)
    }

    /** Request number `i` of a request step. */
    method IssueNext(ghost drop: bool, ghost dropped: bool, ghost h: seq<int>, ghost i: nat)
      requires Issued(drop, dropped, h, i)
      modifies client, measurer
      ensures Issued(drop, dropped, h, i + 1)
    {
      ghost var answered := Answered(drop, dropped, i);
      var ok := IssueRequest();
      assert Answered(drop, dropped, i + 1) == answered + (if ok then 1 else 0);
      if ok {
        RepeatAppend(h, clock.now, answered);
      }
    }

    /** One request of the request step; `ok` tells whether it was answered and sampled. */
    method IssueRequest() returns (ok: bool)
      requires measurer.Valid()
      requires measurer.history != [] ==> Last(measurer.history) <= clock.now
      requires measurer.clock == clock
      modifies client, measurer
      ensures measurer.Valid()
      ensures ok == Answers(old(client.dropRequests), old(client.droppedLastRequest))
      ensures client.dropRequests == old(client.dropRequests)
      ensures client.droppedLastRequest == NextDropped(old(client.dropRequests), old(client.droppedLastRequest))
      ensures measurer.history == old(measurer.history) + (if ok then [clock.now] else [])
    {
      var reply := client.ListNodes();
      ok := reply.Some?;
      if ok {
        measurer.NewSample();
      }
    }

    /**
     * The monitor step: reads the rate and fails a still-pending signal when
     * the rate is a number below the target.
     */
    method CheckRate()
      requires Valid() && state == Running
      modifies this
      ensures Valid()
      ensures state == old(state) && startTime == old(startTime)
      ensures trace == old(trace) + [Checked(RateOf(measurer.history, measurer.windowSize))]
      ensures signal == Settle(old(signal), Checked(RateOf(measurer.history, measurer.windowSize)), requestRate)
    {
      var rate := measurer.Rate();
      trace := trace + [Checked(rate)];
      if signal == Pending && BelowTarget(rate, requestRate) {
        signal := Failed(RequestRateTooLow(requestRate, rate.value));
      }
      assert trace[..|trace| - 1] == old(trace);
    }

    /**
     * Cancels both steps and stops the scenario; a still-pending signal
     * succeeds, a failed one stays failed.
     */
    method Stop() returns (res: Outcome<UsageError>)
      requires Valid()
      modifies this
      ensures Valid()
      ensures old(state) == Running ==>
        res == Pass && state == Stopped && startTime == old(startTime) && trace == old(trace) + [StopRequested] &&
        signal == (if old(signal) == Pending then Succeeded else old(signal))
      ensures old(state) != Running ==> res == Fail(NotRunning) && unchanged(this)
    {
      if state != Running {
        return Fail(NotRunning);
      }
      state := Stopped;
      trace := trace + [StopRequested];
      if signal == Pending {
        signal := Succeeded;
      }
      assert trace[..|trace| - 1] == old(trace);
      res := Pass;
    }
  }

  // Properties of the signal.

  lemma FoldAppend(s: Signal, a: seq<Event>, b: seq<Event>, target: nat)
    ensures Fold(s, a + b, target) == Fold(Fold(s, a, target), b, target)
    decreases |b|
  {
    if b == [] {
      assert a + b == a;
    } else {
      assert (a + b)[..|a + b| - 1] == a + b[..|b| - 1];
      FoldAppend(s, a, b[..|b| - 1], target);
    }
  }

  /** Once settled, the signal keeps its value whatever happens afterwards. */
  lemma {:induction false} SettledIsFinal(s: Signal, events: seq<Event>, target: nat)
    requires s != Pending
    ensures Fold(s, events, target) == s
  {
    if events != [] {
      SettledIsFinal(s, events[..|events| - 1], target);
    }
  }

  /** The signal stays pending exactly as long as every event is a quiet check. */
  lemma {:induction false} PendingWhileQuiet(events: seq<Event>, target: nat)
    ensures Fold(Pending, events, target) == Pending <==> forall j :: 0 <= j < |events| ==> Quiet(events[j], target)
  {
    if events != [] {
      var n := |events|;
      PendingWhileQuiet(events[..n - 1], target);
      if Fold(Pending, events[..n - 1], target) != Pending {
        var j :| 0 <= j < n - 1 && !Quiet(events[..n - 1][j], target);
        assert !Quiet(events[j], target);
      } else {
        forall j | 0 <= j < n - 1 ensures Quiet(events[j], target) {
          assert events[..n - 1][j] == events[j];
        }
      }
    }
  }

  /** The signal is settled by the first event that is not a quiet check. */
  lemma SettledByFirstLoud(events: seq<Event>, target: nat, i: nat)
    requires i < |events| && !Quiet(events[i], target)
    requires forall j :: 0 <= j < i ==> Quiet(events[j], target)
    ensures Fold(Pending, events, target) == Settle(Pending, events[i], target)
    ensures Fold(Pending, events, target) != Pending
  {
    var before := events[..i];
    forall j | 0 <= j < i ensures Quiet(before[j], target) {
    }
    PendingWhileQuiet(before, target);
    assert events == (before + [events[i]]) + events[i + 1..];
    FoldAppend(Pending, before + [events[i]], events[i + 1..], target);
    assert (before + [events[i]])[..i] == before;
    SettledIsFinal(Settle(Pending, events[i], target), events[i + 1..], target);
  }

  lemma {:induction false} FirstLoud(events: seq<Event>, target: nat) returns (i: nat)
    requires exists j :: 0 <= j < |events| && !Quiet(events[j], target)
    ensures i < |events| && !Quiet(events[i], target)
    ensures forall j :: 0 <= j < i ==> Quiet(events[j], target)
  {
    if !Quiet(events[0], target) {
      i := 0;
    } else {
      var j :| 0 <= j < |events| && !Quiet(events[j], target);
      assert !Quiet(events[1..][j - 1], target);
      var k := FirstLoud(events[1..], target);
      i := k + 1;
      forall j' | 0 <= j' < i ensures Quiet(events[j'], target) {
        if j' > 0 {
          assert events[j'] == events[1..][j' - 1];
        }
      }
    }
  }

  /**
   * The signal fails with `e` exactly when some check saw the low rate
   * `e.actual` against the scenario's target and every earlier event was a
   * quiet check: it fails on the first low rate, and only then.
   */
  lemma FailsAtFirstLowRate(events: seq<Event>, target: nat, e: RequestRateTooLow)
    ensures Fold(Pending, events, target) == Failed(e)
        <==> e.target == target &&
             exists i :: 0 <= i < |events| && events[i] == Checked(Some(e.actual)) &&
                         BelowTarget(events[i].rate, target) &&
                         forall j :: 0 <= j < i ==> Quiet(events[j], target)
  {
    if Fold(Pending, events, target) == Failed(e) {
      PendingWhileQuiet(events, target);
      var i := FirstLoud(events, target);
      SettledByFirstLoud(events, target, i);
    }
    if e.target == target &&
       exists i :: 0 <= i < |events| && events[i] == Checked(Some(e.actual)) &&
                   BelowTarget(events[i].rate, target) &&
                   forall j :: 0 <= j < i ==> Quiet(events[j], target)
    {
      var i :| 0 <= i < |events| && events[i] == Checked(Some(e.actual)) &&
               BelowTarget(events[i].rate, target) &&
               forall j :: 0 <= j < i ==> Quiet(events[j], target);
      SettledByFirstLoud(events, target, i);
    }
  }

  /** The signal succeeds exactly when a stop came while every earlier event was a quiet check. */
  lemma SucceedsOnlyOnStop(events: seq<Event>, target: nat)
    ensures Fold(Pending, events, target) == Succeeded
        <==> exists i :: 0 <= i < |events| && events[i] == StopRequested &&
                         forall j :: 0 <= j < i ==> Quiet(events[j], target)
  {
    if Fold(Pending, events, target) == Succeeded {
      PendingWhileQuiet(events, target);
      var i := FirstLoud(events, target);
      SettledByFirstLoud(events, target, i);
    }
    if exists i :: 0 <= i < |events| && events[i] == StopRequested &&
                   forall j :: 0 <= j < i ==> Quiet(events[j], target)
    {
      var i :| 0 <= i < |events| && events[i] == StopRequested &&
               forall j :: 0 <= j < i ==> Quiet(events[j], target);
      SettledByFirstLoud(events, target, i);
    }
  }

  /**
   * While every second so far was answered at least at the target rate, no
   * check can see a rate below target.
   */
  lemma AtTargetNeverBelow(t0: int, counts: seq<nat>, w: nat, target: nat)
    requires forall i :: 0 <= i < |counts| ==> counts[i] > 0 && counts[i] >= target
    ensures !BelowTarget(RateOf(Runs(t0, counts), w), target)
  {
    RunsRate(t0, counts, w);
    if |counts| > w {
      var window := counts[|counts| - w..];
      forall i | 0 <= i < |window| ensures window[i] >= target {
        assert window[i] == counts[|counts| - w + i];
      }
      SumAtLeast(window, target);
    }
  }
}
