/**
 * A fake control-service client whose node listing can drop every other
 * request. A dropped request gets no reply at all, so nothing ever completes
 * for it.
 */
module DroppingClient {
  import opened Results

  /** Whether a call made in this state is answered. */
  predicate Answers(dropRequests: bool, droppedLast: bool)
  {
    !dropRequests || droppedLast
  }

  /** The "dropped the last request" flag after one call made in this state. */
  function NextDropped(dropRequests: bool, droppedLast: bool): bool
  {
    if dropRequests then !droppedLast else droppedLast
  }

  /** The flag after `n` calls, starting from `droppedLast`. */
  function DroppedAfter(dropRequests: bool, droppedLast: bool, n: nat): bool
  {
    if n == 0 then droppedLast else NextDropped(dropRequests, DroppedAfter(dropRequests, droppedLast, n - 1))
  }

  /** How many of `n` consecutive calls, starting from `droppedLast`, are answered. */
  function Answered(dropRequests: bool, droppedLast: bool, n: nat): nat
  {
    if n == 0 then 0
    else Answered(dropRequests, droppedLast, n - 1)
         + (if Answers(dropRequests, DroppedAfter(dropRequests, droppedLast, n - 1)) then 1 else 0)
  }

  class RequestDroppingClient {
    var dropRequests: bool
    var droppedLastRequest: bool

    constructor (dropRequests: bool)
      ensures this.dropRequests == dropRequests && !droppedLastRequest
    {
      this.dropRequests := dropRequests;
      droppedLastRequest := false;
    }

    /**
     * Lists the nodes. The reply is `Some(true)` for an already-fired success
     * and `None` when this request is dropped (no reply object at all).
     */
    method ListNodes() returns (reply: Option<bool>)
      modifies this
      ensures dropRequests == old(dropRequests)
      ensures droppedLastRequest == NextDropped(old(dropRequests), old(droppedLastRequest))
      ensures reply == if Answers(old(dropRequests), old(droppedLastRequest)) then Some(true) else None
    {
      if !dropRequests {
        return Some(true);
      } else {
        if droppedLastRequest {
          droppedLastRequest := false;
          return Some(true);
        }
        droppedLastRequest := true;
        return None;
      }
    }
  }

  // Properties of the alternation.

  /** Without dropping, every call is answered and the flag never moves. */
  lemma {:induction false} NoDropAnswersAll(droppedLast: bool, n: nat)
    ensures Answered(false, droppedLast, n) == n
    ensures DroppedAfter(false, droppedLast, n) == droppedLast
  {
    if n > 0 {
      NoDropAnswersAll(droppedLast, n - 1);
    }
  }

  /** With dropping on, every call toggles the flag. */
  lemma {:induction false} DropToggles(droppedLast: bool, n: nat)
    ensures DroppedAfter(true, droppedLast, n) == (droppedLast != (n % 2 == 1))
  {
    if n > 0 {
      DropToggles(droppedLast, n - 1);
    }
  }

  /**
   * With dropping on and a fresh flag, call number i (from 0) is answered
   * exactly when i is odd: drop, answer, drop, answer, ...
   */
  lemma DropAlternates(i: nat)
    ensures Answers(true, DroppedAfter(true, false, i)) <==> i % 2 == 1
  {
    DropToggles(false, i);
  }

  /** With dropping on, of 2k calls exactly k are answered, from either flag. */
  lemma {:induction false} DropAnswersHalf(droppedLast: bool, k: nat)
    ensures Answered(true, droppedLast, 2 * k) == k
    ensures DroppedAfter(true, droppedLast, 2 * k) == droppedLast
  {
    if k > 0 {
      DropAnswersHalf(droppedLast, k - 1);
      assert DroppedAfter(true, droppedLast, 2 * k - 1) == !droppedLast;
    }
  }

  /** With dropping on, of 2k + 1 calls the extra one is answered only if the last request was dropped. */
  lemma DropAnswersOdd(droppedLast: bool, k: nat)
    ensures Answered(true, droppedLast, 2 * k + 1) == k + (if droppedLast then 1 else 0)
    ensures DroppedAfter(true, droppedLast, 2 * k + 1) == !droppedLast
  {
    DropAnswersHalf(droppedLast, k);
  }
}
