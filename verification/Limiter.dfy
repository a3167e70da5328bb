/** The concurrency limiter and the measurement counters as objects (src/probe/limiter.rs,
    src/probe/stats.rs). Their interleaved use is the subject of `MeasurementDispatch`. */
module Limiter {
  import opened Wrappers

  const MAX_CONCURRENT: nat := 3

  class MeasurementLimiter {
    var available: nat
    const capacity: nat
    ghost var holders: nat

    ghost predicate Valid()
      reads this
    {
      available + holders == capacity
    }

    constructor ()
      ensures Valid() && capacity == 3 && holders == 0
    {
      available, capacity, holders := MAX_CONCURRENT, MAX_CONCURRENT, 0;
    }

    constructor WithCapacity(n: nat)
      ensures Valid() && capacity == n && holders == 0
    {
      available, capacity, holders := n, n, 0;
    }

    /** A slot, if one is free. */
    method TryAcquire() returns (acquired: bool)
      requires Valid()
      modifies this
      ensures Valid()
      ensures acquired <==> old(holders) < capacity
      ensures holders == old(holders) + if acquired then 1 else 0
    {
      acquired := available > 0;
      if acquired {
        available, holders := available - 1, holders + 1;
      }
    }

    /** Dropping a slot gives its permit back. */
    method DropSlot()
      requires Valid() && holders > 0
      modifies this
      ensures Valid() && holders == old(holders) - 1
    {
      available, holders := available + 1, holders - 1;
    }

    /** The subtraction never saturates. */
    method InFlight() returns (n: nat)
      requires Valid()
      ensures n == holders
    {
      n := SaturatingSub(capacity, available);
    }
  }

  class MeasurementStats {
    var started: nat
    var finished: nat

    constructor ()
      ensures started == 0 && finished == 0
    {
      started, finished := 0, 0;
    }

    method RecordStart()
      modifies this`started
      ensures started == old(started) + 1
    {
      started := started + 1;
    }

    method RecordFinish()
      modifies this`finished
      ensures finished == old(finished) + 1
    {
      finished := finished + 1;
    }

    /** Two swaps; uninterrupted, they return and clear both counters. */
    method Take() returns (s: nat, f: nat)
      modifies this
      ensures s == old(started) && f == old(finished)
      ensures started == 0 && finished == 0
    {
      s := started;
      started := 0;
      f := finished;
      finished := 0;
    }
  }
}
