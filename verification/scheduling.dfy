/**
 * The runner's scheduling loop, abstracted from threads and clocks.
 *
 * The runner waits until an absolute deadline, invokes the callback, measures
 * how long it took, truncates that to whole milliseconds and advances the
 * deadline by the policy's delay. Instants and durations are steady-clock
 * ticks; the measured duration of each callback is an input, and so is the
 * instant at which stop is requested.
 *
 * `measured[j]` is the raw measured duration of the j-th callback, and the
 * quantities below are indexed by a count k of callbacks that have run:
 * `Deadline(.., measured, k)` is the deadline the runner waits for after k
 * callbacks, and `FireTime(.., measured, k)` the instant at which callback k
 * starts.
 */
module Scheduling {
  import opened Policies

  /** Steady-clock ticks per millisecond (the clock counts nanoseconds). */
  const TICKS_PER_MS: nat := 1_000_000

  /** The measured duration cast down to whole milliseconds and back to ticks. */
  function TruncateToMs(raw: nat): (truncated: nat)
    ensures truncated <= raw < truncated + TICKS_PER_MS
    ensures truncated % TICKS_PER_MS == 0
  {
    (raw / TICKS_PER_MS) * TICKS_PER_MS
  }

  /** Sum of the raw durations of the first k callbacks. */
  function Sum(measured: seq<nat>, k: nat): nat
    requires k <= |measured|
  {
    if k == 0 then 0 else Sum(measured, k - 1) + measured[k - 1]
  }

  /** The total delay the policy has added to the first deadline after k callbacks. */
  function TotalDelay(policy: Policy, interval: nat, measured: seq<nat>, k: nat): nat
    requires AdmitsInterval(policy, interval) && k <= |measured|
  {
    if k == 0 then 0
    else TotalDelay(policy, interval, measured, k - 1) + Schedule(policy, TruncateToMs(measured[k - 1]), interval)
  }

  /**
   * The deadline the runner waits for after k callbacks: one interval after
   * the runner started, moved on by the policy's delay for each callback's
   * duration truncated to whole milliseconds.
   */
  function Deadline(policy: Policy, threadStart: nat, interval: nat, measured: seq<nat>, k: nat): (deadline: nat)
    requires AdmitsInterval(policy, interval) && k <= |measured|
    ensures threadStart + interval <= deadline
  {
    threadStart + interval + TotalDelay(policy, interval, measured, k)
  }

  /**
   * The instant at which callback k starts: the wait ends at the deadline,
   * or at once if the previous callback returned after it. No callback
   * starts before its deadline.
   */
  function FireTime(policy: Policy, threadStart: nat, interval: nat, measured: seq<nat>, k: nat): (start: nat)
    requires AdmitsInterval(policy, interval) && k <= |measured|
    ensures Deadline(policy, threadStart, interval, measured, k) <= start
  {
    var deadline := Deadline(policy, threadStart, interval, measured, k);
    if k == 0 then deadline
    else
      var previousEnd := FireTime(policy, threadStart, interval, measured, k - 1) + measured[k - 1];
      if previousEnd < deadline then deadline else previousEnd
  }

  /**
   * The deadline recurrence: the first deadline is one interval after the
   * runner started, and each callback moves the deadline on by the policy's
   * delay for its duration truncated to whole milliseconds.
   */
  lemma DeadlineRecurrence(policy: Policy, threadStart: nat, interval: nat, measured: seq<nat>, k: nat)
    requires AdmitsInterval(policy, interval) && k < |measured|
    ensures Deadline(policy, threadStart, interval, measured, 0) == threadStart + interval
    ensures Deadline(policy, threadStart, interval, measured, k + 1)
         == Deadline(policy, threadStart, interval, measured, k) + Schedule(policy, TruncateToMs(measured[k]), interval)
  {
  }

  /**
   * Callbacks never overlap: callback k + 1 starts no earlier than callback k
   * returns, and so callback k starts no earlier than the first deadline plus
   * the durations of all earlier callbacks run one after another.
   */
  lemma {:induction false} CallbacksNeverOverlap(policy: Policy, threadStart: nat, interval: nat, measured: seq<nat>, k: nat)
    requires AdmitsInterval(policy, interval) && k <= |measured|
    ensures k < |measured| ==>
      FireTime(policy, threadStart, interval, measured, k) + measured[k] <= FireTime(policy, threadStart, interval, measured, k + 1)
    ensures threadStart + interval + Sum(measured, k) <= FireTime(policy, threadStart, interval, measured, k)
  {
    if k > 0 {
      CallbacksNeverOverlap(policy, threadStart, interval, measured, k - 1);
    }
  }

  /**
   * Deadlines never decrease; under the default policy each callback moves
   * the deadline on by at least one tick, so they strictly increase.
   */
  lemma {:induction false} DeadlinesNonDecreasing(policy: Policy, threadStart: nat, interval: nat, measured: seq<nat>, j: nat, k: nat)
    requires AdmitsInterval(policy, interval)
    requires j <= k <= |measured|
    ensures Deadline(policy, threadStart, interval, measured, j) <= Deadline(policy, threadStart, interval, measured, k)
    ensures policy.ScheduleNextMissedInterval? ==>
      Deadline(policy, threadStart, interval, measured, j) + (k - j) <= Deadline(policy, threadStart, interval, measured, k)
    decreases k
  {
    if j < k {
      DeadlinesNonDecreasing(policy, threadStart, interval, measured, j, k - 1);
    }
  }

  /**
   * The deadlines never run ahead of the nominal grid: after k callbacks the
   * deadline is at most k + 1 intervals after the runner started, since no
   * policy delays by more than one interval.
   */
  lemma {:induction false} DeadlineWithinNominalGrid(policy: Policy, threadStart: nat, interval: nat, measured: seq<nat>, k: nat)
    requires AdmitsInterval(policy, interval) && k <= |measured|
    ensures Deadline(policy, threadStart, interval, measured, k) <= threadStart + (k + 1) * interval
  {
    if k > 0 {
      DeadlineWithinNominalGrid(policy, threadStart, interval, measured, k - 1);
      var grid := k * interval;
      assert (k + 1) * interval == grid + interval;
    }
  }

  /**
   * Under the invoke-immediately policy every deadline stays where the first
   * one was, one interval after the runner started.
   */
  lemma {:induction false} InvokeImmediatelyKeepsFirstDeadline(threadStart: nat, interval: nat, measured: seq<nat>, k: nat)
    requires k <= |measured|
    ensures Deadline(InvokeImmediatelyMissedInterval, threadStart, interval, measured, k) == threadStart + interval
  {
    if k > 0 {
      InvokeImmediatelyKeepsFirstDeadline(threadStart, interval, measured, k - 1);
    }
  }

  /**
   * Catching up: under the invoke-immediately policy, and under the default
   * policy when every callback overruns the interval, the deadline never gets
   * ahead of the previous callback's end, so the callbacks run back to back:
   * callback k starts one interval plus the total time of the earlier
   * callbacks after the runner started.
   */
  lemma {:induction false} CatchUpRunsBackToBack(policy: Policy, threadStart: nat, interval: nat, measured: seq<nat>, k: nat)
    requires AdmitsInterval(policy, interval) && k <= |measured|
    requires policy.ScheduleNextMissedInterval? ==>
      forall j :: 0 <= j < |measured| ==> interval <= TruncateToMs(measured[j])
    ensures FireTime(policy, threadStart, interval, measured, k) == threadStart + interval + Sum(measured, k)
  {
    CallbacksNeverOverlap(policy, threadStart, interval, measured, k);
    if k > 0 {
      CatchUpRunsBackToBack(policy, threadStart, interval, measured, k - 1);
      var truncated := TruncateToMs(measured[k - 1]);
      if policy.ScheduleNextMissedInterval? {
        ScheduleNextSkipsMissedIntervals(truncated, interval);
      }
      assert Schedule(policy, truncated, interval) <= measured[k - 1];
    }
  }

  /**
   * Callbacks shorter than a millisecond measure as zero, so under the
   * default policy each deadline lies one whole interval after the previous
   * one: after k such callbacks the deadline is k + 1 intervals after the
   * runner started.
   */
  lemma {:induction false} SubMillisecondDeadlinesOnGrid(threadStart: nat, interval: nat, measured: seq<nat>, k: nat)
    requires interval > 0 && k <= |measured|
    requires forall j :: 0 <= j < |measured| ==> measured[j] < TICKS_PER_MS
    ensures Deadline(ScheduleNextMissedInterval, threadStart, interval, measured, k)
         == threadStart + (k + 1) * interval
  {
    if k > 0 {
      SubMillisecondDeadlinesOnGrid(threadStart, interval, measured, k - 1);
      assert TruncateToMs(measured[k - 1]) == 0;
      var grid := k * interval;
      assert (k + 1) * interval == grid + interval;
    }
  }

  /**
   * Callbacks shorter than a millisecond and than the interval return before
   * the next deadline, so under the default policy every callback starts
   * exactly at its deadline (which SubMillisecondDeadlinesOnGrid places on
   * the grid of whole intervals).
   */
  lemma {:induction false} SubMillisecondCallbacksStartOnTime(threadStart: nat, interval: nat, measured: seq<nat>, k: nat)
    requires interval > 0 && k <= |measured|
    requires forall j :: 0 <= j < |measured| ==> measured[j] < TICKS_PER_MS && measured[j] <= interval
    ensures FireTime(ScheduleNextMissedInterval, threadStart, interval, measured, k)
         == Deadline(ScheduleNextMissedInterval, threadStart, interval, measured, k)
  {
    if k > 0 {
      SubMillisecondCallbacksStartOnTime(threadStart, interval, measured, k - 1);
      assert TruncateToMs(measured[k - 1]) == 0;
    }
  }

  /**
   * A callback that starts at its deadline and takes c < interval (after
   * truncation) moves the deadline on by interval - c from that start; when
   * it returns before that deadline, the next callback starts interval - c
   * after it, not one full interval after it.
   */
  lemma OnTimeCallbackShortensNextStart(threadStart: nat, interval: nat, measured: seq<nat>, k: nat)
    requires interval > 0 && k < |measured|
    requires FireTime(ScheduleNextMissedInterval, threadStart, interval, measured, k)
          == Deadline(ScheduleNextMissedInterval, threadStart, interval, measured, k)
    requires TruncateToMs(measured[k]) < interval
    requires measured[k] + TruncateToMs(measured[k]) <= interval
    ensures FireTime(ScheduleNextMissedInterval, threadStart, interval, measured, k + 1)
         == FireTime(ScheduleNextMissedInterval, threadStart, interval, measured, k) + interval - TruncateToMs(measured[k])
  {
  }

  /**
   * The on-time step with the corrected default policy: a callback that
   * starts at its deadline and returns within the interval is followed by one
   * starting exactly one interval after it: the wait for the next deadline
   * (as in FireTime) ends one interval after the callback started.
   */
  lemma IntendedOnTimeKeepsInterval(deadline: nat, duration: nat, interval: nat)
    requires 0 < interval && duration <= interval
    ensures var callbackEnd := deadline + duration;
            var nextDeadline := deadline + IntendedScheduleNext(TruncateToMs(duration), interval);
            (if callbackEnd < nextDeadline then nextDeadline else callbackEnd) == deadline + interval
  {
  }

  /**
   * The as-written on-time step on concrete values: with a 100 ms interval and
   * 10 ms callbacks, the second callback starts 90 ms after the first.
   */
  lemma OnTimePeriodShortfall()
    ensures var measured := [10 * TICKS_PER_MS, 10 * TICKS_PER_MS];
            var interval := 100 * TICKS_PER_MS;
            FireTime(ScheduleNextMissedInterval, 0, interval, measured, 1)
              == FireTime(ScheduleNextMissedInterval, 0, interval, measured, 0) + 90 * TICKS_PER_MS
  {
  }

  /** The runner's clock after k callbacks: when the thread started, or when callback k - 1 returned. */
  function PreviousEnd(policy: Policy, threadStart: nat, interval: nat, measured: seq<nat>, k: nat): nat
    requires AdmitsInterval(policy, interval) && k <= |measured|
  {
    if k == 0 then threadStart
    else FireTime(policy, threadStart, interval, measured, k - 1) + measured[k - 1]
  }

  /** Callback start times never decrease. */
  lemma {:induction false} FireTimesNonDecreasing(policy: Policy, threadStart: nat, interval: nat, measured: seq<nat>, j: nat, k: nat)
    requires AdmitsInterval(policy, interval)
    requires j <= k <= |measured|
    ensures FireTime(policy, threadStart, interval, measured, j) <= FireTime(policy, threadStart, interval, measured, k)
    decreases k
  {
    if j < k {
      FireTimesNonDecreasing(policy, threadStart, interval, measured, j, k - 1);
    }
  }

  /** The deadlines the runner waits for, up to the one after k callbacks. */
  function DeadlineSeq(policy: Policy, threadStart: nat, interval: nat, measured: seq<nat>, k: nat): seq<nat>
    requires AdmitsInterval(policy, interval) && k <= |measured|
  {
    if k == 0 then [Deadline(policy, threadStart, interval, measured, 0)]
    else DeadlineSeq(policy, threadStart, interval, measured, k - 1) + [Deadline(policy, threadStart, interval, measured, k)]
  }

  /** The start instants of the first k callbacks. */
  function FireTimeSeq(policy: Policy, threadStart: nat, interval: nat, measured: seq<nat>, k: nat): seq<nat>
    requires AdmitsInterval(policy, interval) && k <= |measured|
  {
    if k == 0 then []
    else FireTimeSeq(policy, threadStart, interval, measured, k - 1) + [FireTime(policy, threadStart, interval, measured, k - 1)]
  }

  /** DeadlineSeq lists the deadlines in order. */
  lemma {:induction false} DeadlineSeqAt(policy: Policy, threadStart: nat, interval: nat, measured: seq<nat>, k: nat)
    requires AdmitsInterval(policy, interval) && k <= |measured|
    ensures |DeadlineSeq(policy, threadStart, interval, measured, k)| == k + 1
    ensures forall j :: 0 <= j <= k ==>
      DeadlineSeq(policy, threadStart, interval, measured, k)[j] == Deadline(policy, threadStart, interval, measured, j)
  {
    if k > 0 {
      DeadlineSeqAt(policy, threadStart, interval, measured, k - 1);
    }
  }

  /** FireTimeSeq lists the callback start instants in order. */
  lemma {:induction false} FireTimeSeqAt(policy: Policy, threadStart: nat, interval: nat, measured: seq<nat>, k: nat)
    requires AdmitsInterval(policy, interval) && k <= |measured|
    ensures |FireTimeSeq(policy, threadStart, interval, measured, k)| == k
    ensures forall j :: 0 <= j < k ==>
      FireTimeSeq(policy, threadStart, interval, measured, k)[j] == FireTime(policy, threadStart, interval, measured, j)
  {
    if k > 0 {
      FireTimeSeqAt(policy, threadStart, interval, measured, k - 1);
    }
  }

  /** One turn of the runner's loop: where the wait before callback k ends, and where it leaves the clock and the deadline. */
  lemma LoopTurn(policy: Policy, threadStart: nat, interval: nat, measured: seq<nat>, k: nat)
    requires AdmitsInterval(policy, interval) && k < |measured|
    ensures var now := PreviousEnd(policy, threadStart, interval, measured, k);
            var deadline := Deadline(policy, threadStart, interval, measured, k);
            FireTime(policy, threadStart, interval, measured, k) == if now < deadline then deadline else now
    ensures PreviousEnd(policy, threadStart, interval, measured, k + 1)
         == FireTime(policy, threadStart, interval, measured, k) + measured[k]
    ensures Deadline(policy, threadStart, interval, measured, k + 1)
         == Deadline(policy, threadStart, interval, measured, k) + Schedule(policy, TruncateToMs(measured[k]), interval)
  {
  }

  /**
   * The runner thread. It waits for each deadline (interruptibly: a stop
   * request ends the wait), leaves the loop when stop has been requested by
   * the time the wait ends, and otherwise invokes the callback, whose
   * duration is the next element of `measured`, and advances the deadline.
   * The run is observed until stop or until `measured` is used up.
   *
   * Returns the deadlines it waited for and the instants at which it invoked
   * the callback: every invocation starts before stop was requested, and
   * when the loop ends early, stop was requested by the next wake-up.
   */
  method RunnerLoop(policy: Policy, threadStart: nat, interval: nat, measured: seq<nat>, stopAt: nat)
    returns (deadlines: seq<nat>, starts: seq<nat>)
    requires AdmitsInterval(policy, interval)
    ensures |starts| <= |measured|
    ensures deadlines == DeadlineSeq(policy, threadStart, interval, measured, |starts|)
    ensures starts == FireTimeSeq(policy, threadStart, interval, measured, |starts|)
    ensures forall k :: 0 <= k < |starts| ==> starts[k] < stopAt
    ensures |starts| < |measured| ==> stopAt <= FireTime(policy, threadStart, interval, measured, |starts|)
  {
    var futureTime := threadStart + interval;
    var now := threadStart;
    deadlines, starts := [futureTime], [];
    var k := 0;
    while k < |measured|
      invariant k <= |measured| && |starts| == k
      invariant futureTime == Deadline(policy, threadStart, interval, measured, k)
      invariant now == PreviousEnd(policy, threadStart, interval, measured, k)
      invariant deadlines == DeadlineSeq(policy, threadStart, interval, measured, k)
      invariant starts == FireTimeSeq(policy, threadStart, interval, measured, k)
      invariant forall j :: 0 <= j < k ==> starts[j] < stopAt
    {
      LoopTurn(policy, threadStart, interval, measured, k);
      // wait_until(futureTime), woken early by a stop request
      var wake := if now < futureTime then futureTime else now;
      if stopAt <= wake {
        break;
      }
      starts := starts + [wake];
      var callbackDuration := TruncateToMs(measured[k]);
      now := wake + measured[k];
      futureTime := futureTime + Schedule(policy, callbackDuration, interval);
      deadlines := deadlines + [futureTime];
      k := k + 1;
    }
  }
}
