/** The controllable time source the measurer and the scenario are driven by. */
module Clocks {

  /**
   * A virtual clock that only an external driver moves forward. Time is kept
   * in whole seconds since the clock was created, which is also the bucket a
   * sample taken now falls into.
   */
  class VirtualClock {
    var now: nat

    constructor ()
      ensures now == 0
    {
      now := 0;
    }

    /** Moves time forward; the clock can never go back. */
    method Advance(amount: nat)
      modifies this
      ensures now == old(now) + amount
    {
      now := now + amount;
    }
  }
}
