/**
 * Missed-interval policies of the periodic timer.
 *
 * A policy is a pure function from the measured duration of one callback
 * invocation and the configured interval to the delay that is added to the
 * current deadline before the next invocation. Durations are clock ticks.
 */
module Policies {

  /** The policy a timer is instantiated with (a template parameter in the source). */
  datatype Policy = ScheduleNextMissedInterval | InvokeImmediatelyMissedInterval

  /**
   * Whether the policy's schedule is defined for this interval: the default
   * policy takes the callback time modulo the interval, so it needs a
   * positive interval; invoking immediately never looks at the interval.
   */
  predicate AdmitsInterval(policy: Policy, interval: nat)
  {
    policy.InvokeImmediatelyMissedInterval? || interval > 0
  }

  /**
   * The default policy. A callback that finished within the interval leaves
   * the rest of the interval as delay; one that overran skips the whole
   * intervals it missed (ScheduleNextSkipsMissedIntervals). The delay is
   * never zero and never more than one interval.
   */
  function ScheduleNext(callbackTime: nat, interval: nat): (delay: nat)
    requires interval > 0
    ensures 0 < delay <= interval
    ensures callbackTime < interval ==> callbackTime + delay == interval
  {
    if callbackTime >= interval then
      var appendTime := callbackTime % interval;
      if appendTime == 0 then interval else appendTime
    else
      interval - callbackTime
  }

  /**
   * The default policy as its on-time comment intends: an overrunning
   * callback is handled as by ScheduleNext, but a callback that finished
   * within the interval moves the absolute deadline on by a whole interval,
   * so that the next invocation starts one interval after this one.
   */
  function IntendedScheduleNext(callbackTime: nat, interval: nat): (delay: nat)
    requires interval > 0
    ensures 0 < delay <= interval
    ensures callbackTime < interval ==> delay == interval
    ensures interval <= callbackTime ==> delay == ScheduleNext(callbackTime, interval)
  {
    if callbackTime >= interval then ScheduleNext(callbackTime, interval) else interval
  }

  /** The invoke-immediately policy: no delay, whatever the callback took. */
  function InvokeImmediately(callbackTime: nat, interval: nat): (delay: nat)
    ensures delay == 0
  {
    0
  }

  /** The policy's schedule, dispatched on the policy the timer was built with. */
  function Schedule(policy: Policy, callbackTime: nat, interval: nat): (delay: nat)
    requires AdmitsInterval(policy, interval)
    ensures delay <= interval
    ensures policy.ScheduleNextMissedInterval? ==> 0 < delay
    ensures policy.InvokeImmediatelyMissedInterval? ==> delay == 0
  {
    match policy
    case ScheduleNextMissedInterval => ScheduleNext(callbackTime, interval)
    case InvokeImmediatelyMissedInterval => InvokeImmediately(callbackTime, interval)
  }

  /** A multiple of a positive number that lies strictly between its negation and itself is zero. */
  lemma SmallMultipleIsZero(k: int, interval: nat)
    requires interval > 0
    requires -(interval as int) < k * interval < interval
    ensures k == 0
  {
  }

  /** A whole multiple of a positive number leaves no remainder. */
  lemma ModOfMultiple(k: int, interval: nat)
    requires interval > 0
    ensures (k * interval) % interval == 0
  {
    var n := k * interval;
    var q, r := n / interval, n % interval;
    assert n == q * interval + r;
    assert r == (k - q) * interval;
    SmallMultipleIsZero(k - q, interval);
  }

  /**
   * An overrunning callback is followed by the delay that completes its
   * last, partial interval: the callback time minus the delay is a whole
   * number of intervals, and the delay is at most the callback time.
   */
  lemma ScheduleNextSkipsMissedIntervals(callbackTime: nat, interval: nat)
    requires 0 < interval <= callbackTime
    ensures ScheduleNext(callbackTime, interval) <= callbackTime
    ensures (callbackTime - ScheduleNext(callbackTime, interval)) % interval == 0
  {
    var q, r := callbackTime / interval, callbackTime % interval;
    assert callbackTime == q * interval + r;
    if r == 0 {
      assert callbackTime - interval == (q - 1) * interval;
      ModOfMultiple(q - 1, interval);
    } else {
      ModOfMultiple(q, interval);
    }
  }

  /**
   * The contract of ScheduleNext determines its result: any delay with the
   * same properties is the one the default policy computes.
   */
  lemma ScheduleNextDetermined(callbackTime: nat, interval: nat, delay: nat)
    requires interval > 0
    requires 0 < delay <= interval
    requires callbackTime < interval ==> callbackTime + delay == interval
    requires interval <= callbackTime ==> delay <= callbackTime && (callbackTime - delay) % interval == 0
    ensures delay == ScheduleNext(callbackTime, interval)
  {
    var r := ScheduleNext(callbackTime, interval);
    if interval <= callbackTime {
      ScheduleNextSkipsMissedIntervals(callbackTime, interval);
      var q, q' := (callbackTime - delay) / interval, (callbackTime - r) / interval;
      assert callbackTime - delay == q * interval;
      assert callbackTime - r == q' * interval;
      assert r - delay == (q - q') * interval;
      SmallMultipleIsZero(q - q', interval);
    }
  }

  /**
   * A callback that took an exact whole number of intervals (at least one)
   * is followed by a full interval of delay, never by a zero-delay repeat.
   */
  lemma ExactMultipleWaitsFullInterval(intervals: nat, interval: nat)
    requires interval > 0 && intervals >= 1
    ensures ScheduleNext(intervals * interval, interval) == interval
  {
    var callbackTime := intervals * interval;
    assert callbackTime - interval == (intervals - 1) * interval;
    assert (callbackTime - interval) % interval == 0 by {
      ModOfMultiple(intervals - 1, interval);
    }
    ScheduleNextDetermined(callbackTime, interval, interval);
  }
}
