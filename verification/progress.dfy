/**
 * The bookkeeping state of the `CheckKeys` actor: how many keys have been
 * checked, how many there are, and the (time, count) sample of the previous
 * progress tick. Instants are nanosecond readings of a monotonic clock, passed
 * in by the caller.
 */
module Progress {

  const NANOS_PER_SECOND: nat := 1000000000

  /** `(now - since).as_secs()`: the whole seconds between two instants, rounded down. */
  function ElapsedSeconds(since: nat, now: nat): (secs: nat)
    requires since <= now
    ensures secs * NANOS_PER_SECOND <= now - since < (secs + 1) * NANOS_PER_SECOND
  {
    (now - since) / NANOS_PER_SECOND
  }

  /** The integer keys-per-second rate of the tick: `checked` keys over `secs` seconds, rounded down. */
  function Rate(checked: nat, secs: nat): (avg: nat)
    requires secs >= 1
    ensures avg * secs <= checked < (avg + 1) * secs
  {
    checked / secs
  }

  class CheckKeys {
    /** Keys reported as checked (`count: u128`). */
    var count: nat
    /** The size of the search space (`max: u128`), used only for the progress ratio. */
    var max: nat
    /** `history`: the instant of the last tick and the count at that tick. */
    var history: (nat, nat)

    /** The count sampled at the last tick never exceeds the current count, so the tick's subtraction cannot underflow. */
    ghost predicate Valid()
      reads this
    {
      history.1 <= count
    }

    /** The actor as `main` starts it: nothing counted, the first sample taken at start-up. */
    constructor (totalKeys: nat, now: nat)
      ensures Valid()
      ensures count == 0 && max == totalKeys && history == (now, 0)
    {
      count := 0;
      max := totalKeys;
      history := (now, 0);
    }

    /** The `Count` handler: one more key checked. */
    method Count()
      requires Valid()
      modifies this
      ensures Valid()
      ensures count == old(count) + 1
      ensures max == old(max) && history == old(history)
    {
      count := count + 1;
    }

    /**
     * The `Tick` handler. It reads the clock twice: `sampledAt` for the
     * elapsed time, `recordedAt` for the new sample. It divides by the
     * elapsed whole seconds without a guard, so at least one second must
     * have passed since the previous tick. Returns the rate it reports.
     */
    method Tick(sampledAt: nat, recordedAt: nat) returns (avg: nat)
      requires Valid()
      requires history.0 <= sampledAt <= recordedAt
      requires ElapsedSeconds(history.0, sampledAt) >= 1
      modifies this
      ensures Valid()
      ensures avg == Rate(old(count) - old(history.1), ElapsedSeconds(old(history.0), sampledAt))
      ensures history == (recordedAt, old(count))
      ensures count == old(count) && max == old(max)
    {
      var (lastSampleTime, lastSampleNumber) := history;
      var timeSinceLastSample := (sampledAt - lastSampleTime) / NANOS_PER_SECOND;
      avg := (count - lastSampleNumber) / timeSinceLastSample;
      history := (recordedAt, count);
    }
  }
}
