# periodic_function — a Dafny model

`dp::periodic_function` is a header-only C++ timer. It calls a user callback
on a background thread once per interval until it is stopped or destroyed.
This project models its three parts and proves properties of the model:

- **Missed-interval policies** (`Policies`, `policies.dfy`). The default
  `schedule_next_missed_interval_policy` and the
  `invoke_immediately_missed_interval_policy` are pure functions from the
  callback's measured duration and the interval to the delay added to the
  next deadline. Durations are `nat` clock ticks.
- **The runner's scheduling loop** (`Scheduling`, `scheduling.dfy`). The
  first deadline is one interval after the runner starts. Each measured
  callback duration is cast down to whole milliseconds (`TICKS_PER_MS`
  nanosecond ticks) and passed to the policy. The deadline then moves on by
  the resulting delay. For each count k of callbacks run, `Deadline` and
  `FireTime` give the deadline the runner waits for and the instant at which
  callback k starts. `RunnerLoop` is the loop itself. It takes
  the measured durations and the instant at which stop is requested as
  inputs, and it is proved to produce exactly those deadlines and start
  instants.
- **The lifecycle** (`Timer`, `timer.dfy`). `PeriodicFunction<C>` is a class
  with the fields the source updates: `running` (the runner thread is
  joinable), `stopFlag`, `interval` and `callback`. It also has ghost counts
  of spawned and joined runners. `start`, `stop`, `is_running`, move
  construction, move assignment and the destructor are members of the class. Each one is
  tied to a function on the value `Lifecycle` (`Started`, `Stopped`,
  `MovedFrom`), and the lemmas are proved about those functions.

What the model shows about the schedule:

- Under the default policy, a callback that truncates to c < interval moves
  the deadline on by interval − c. The deadline is absolute and the callback
  starts at the old deadline. So when the callback returns in time, the next
  callback starts interval − c after this one (`OnTimeCallbackShortensNextStart`).
  The period of a timer whose callbacks return in time is therefore interval − c,
  not the configured interval. The comment at line 40 and the "Acceptable
  function timing" test (`tests/src/periodic_function_tests.cpp:45-69`, which
  checks that the average gap between calls is within 1 ms of the interval)
  both expect the configured interval. That test's callback takes under 1 ms,
  which truncates to zero. See "## Findings".
- Callbacks shorter than a millisecond truncate to zero, so the deadlines stay
  exactly on the whole-interval grid (`SubMillisecondDeadlinesOnGrid`). When
  those callbacks are also no longer than the interval, each one starts exactly
  at its deadline and the cadence is exactly one interval
  (`SubMillisecondCallbacksStartOnTime`). Longer ones run back to back.
- When every callback overruns the interval, the deadline stays behind the
  previous callback's end. The callbacks then run back to back
  (`CatchUpRunsBackToBack`). This is the behaviour
  `tests/src/periodic_function_tests.cpp:144-148` expects: an invocation
  count of total time divided by callback duration.
- The constructor (lines 65-66) accepts any duration, zero included, and
  nothing checks it. The default policy, however,
  computes `callback_time % interval` (line 34), which is a division by zero
  for a zero interval. The model follows the code: the default policy and
  the runner loop require a positive interval under that policy
  (`AdmitsInterval`). The constructor accepts any interval, as the source's
  constructor does.

## Model

| member | source | states |
|---|---|---|
| `Policies.ScheduleNext` | include/periodic_function/periodic_function.hpp:25-43 | For a positive interval, the default policy's delay is in (0, interval], never a zero-delay repeat. A callback that finished within the interval gets callback time + delay == interval. |
| `Policies.ScheduleNextSkipsMissedIntervals` | include/periodic_function/periodic_function.hpp:28-38 | When the callback overran, the delay is at most the callback time, and callback time − delay is a whole number of intervals: the missed intervals are skipped. |
| `Policies.ScheduleNextDetermined` | include/periodic_function/periodic_function.hpp:25-42 | Any delay in (0, interval] meeting the on-time and overrun conditions is the one the default policy returns. |
| `Policies.ExactMultipleWaitsFullInterval` | include/periodic_function/periodic_function.hpp:34-37 | A callback lasting an exact whole number (≥ 1) of intervals, such as 1000 ms with a 1000 ms interval, is followed by a full interval of delay. |
| `Policies.InvokeImmediately` | include/periodic_function/periodic_function.hpp:45-49 | The invoke-immediately policy's delay is always zero, whatever the callback time and interval. |
| `Policies.Schedule` | include/periodic_function/periodic_function.hpp:25-50 | Under either policy the delay is at most one interval. It is zero under invoke-immediately and positive under the default policy. |
| `Scheduling.TruncateToMs` | include/periodic_function/periodic_function.hpp:150-152 | The duration passed to the policy is a whole number of milliseconds. It is at most the measured duration and less than one millisecond below it. |
| `Scheduling.Deadline` | include/periodic_function/periodic_function.hpp:130-132 | No deadline is earlier than the first one, thread start + interval. |
| `Scheduling.DeadlineRecurrence` | include/periodic_function/periodic_function.hpp:130-155 | The first deadline is thread start + interval. Each later deadline is the previous one plus the policy's delay for that callback's duration truncated to milliseconds. |
| `Scheduling.DeadlineSeqAt` | include/periodic_function/periodic_function.hpp:130-155 | The deadline sequence lists the deadline after each count of callbacks, in order, starting from the first. |
| `Scheduling.DeadlinesNonDecreasing` | include/periodic_function/periodic_function.hpp:153-155 | Deadlines never decrease. Under the default policy, k − j later callbacks move a deadline on by at least k − j ticks, so deadlines strictly increase. |
| `Scheduling.DeadlineWithinNominalGrid` | include/periodic_function/periodic_function.hpp:130-155 | After k callbacks the deadline is at most k + 1 intervals after the runner started, under either policy. |
| `Scheduling.InvokeImmediatelyKeepsFirstDeadline` | include/periodic_function/periodic_function.hpp:45-49 | Under the invoke-immediately policy every deadline equals the first, thread start + interval. |
| `Scheduling.FireTime` | include/periodic_function/periodic_function.hpp:136-141 | No callback starts before its deadline. |
| `Scheduling.FireTimeSeqAt` | include/periodic_function/periodic_function.hpp:136-150 | The start sequence lists the start instant of each callback in order. A callback starts at its deadline, or when the previous callback returned if that was later (`FireTime`). |
| `Scheduling.FireTimesNonDecreasing` | include/periodic_function/periodic_function.hpp:134-156 | Callback start instants never decrease. |
| `Scheduling.CallbacksNeverOverlap` | include/periodic_function/periodic_function.hpp:134-156 | Invocations are serialized: callback k + 1 starts no earlier than callback k returns. Hence callback k starts no earlier than the first deadline plus the durations of all earlier callbacks. |
| `Scheduling.LoopTurn` | include/periodic_function/periodic_function.hpp:136-155 | One turn of the runner loop: the callback starts at the later of its deadline and the previous callback's end, it ends its own duration later, and the deadline moves on by the policy's delay for its truncated duration. |
| `Scheduling.CatchUpRunsBackToBack` | include/periodic_function/periodic_function.hpp:28-49 | Under invoke-immediately, or under the default policy when every callback overruns, callbacks run back to back. Each starts one interval plus the total earlier callback time after the runner started. |
| `Scheduling.SubMillisecondDeadlinesOnGrid` | include/periodic_function/periodic_function.hpp:150-155 | Under the default policy with callbacks shorter than 1 ms, the deadline after k callbacks is exactly k + 1 intervals after the runner started. |
| `Scheduling.SubMillisecondCallbacksStartOnTime` | include/periodic_function/periodic_function.hpp:136-155 | Under the default policy with callbacks shorter than 1 ms and than the interval, every callback starts exactly at its deadline. |
| `Scheduling.OnTimeCallbackShortensNextStart` | include/periodic_function/periodic_function.hpp:40-41 | A callback that starts at its deadline and returns before the next one (truncated c < interval) is followed by a callback starting interval − c later. |
| `Policies.IntendedScheduleNext` | include/periodic_function/periodic_function.hpp:25-41 | The corrected default policy: an on-time callback (c < interval) gets a full interval of delay, and an overrunning one gets exactly what `ScheduleNext` gives. The delay is in (0, interval]. |
| `Scheduling.IntendedOnTimeKeepsInterval` | include/periodic_function/periodic_function.hpp:136-155 | With the corrected policy, a callback that starts at its deadline and returns within the interval is followed by one starting exactly one interval after it. |
| `Scheduling.OnTimePeriodShortfall` | include/periodic_function/periodic_function.hpp:40-41 | As written, with a 100 ms interval and 10 ms callbacks, the second callback starts 90 ms after the first. |
| `Scheduling.RunnerLoop` | include/periodic_function/periodic_function.hpp:129-157 | The loop returns exactly `DeadlineSeq` and `FireTimeSeq` for the callbacks it ran: the deadline recurrence and the callback start instants. Every invocation starts before stop was requested. A loop that ends before the durations run out saw stop by its next wake-up. |
| `Timer.Stopped` | include/periodic_function/periodic_function.hpp:103-118 | After stop, from any state: not running, stop flag clear, no live runner. Interval and spawned count are unchanged. |
| `Timer.Started` | include/periodic_function/periodic_function.hpp:127-129 | After start, from any state: running with exactly one live runner, and one more runner spawned. A running timer is stopped first. |
| `Timer.MovedFrom` | include/periodic_function/periodic_function.hpp:70-90 | The destination takes the source's interval, and the source ends not running. A running source makes the destination run with one fresh runner, one live runner between the two. A running source keeps its spawned count and has its runner joined. An idle source is unchanged and leaves the destination's running state. Live runners never increase. |
| `Timer.StopIdempotent` | include/periodic_function/periodic_function.hpp:103-118 | Stopping twice gives the same state as stopping once. |
| `Timer.RepeatedStartsKeepOneRunner` | include/periodic_function/periodic_function.hpp:127-129 | After n ≥ 1 starts in a row, exactly one runner is alive and n were spawned. |
| `Timer.PeriodicFunction.constructor` | include/periodic_function/periodic_function.hpp:65-66 | Construction stores the callback and interval and starts nothing. |
| `Timer.PeriodicFunction.FromMoved` | include/periodic_function/periodic_function.hpp:70-76 | Move construction is `MovedFrom` applied to a freshly constructed timer. The destination gets the source's callback and policy. |
| `Timer.PeriodicFunction.IsRunning` | include/periodic_function/periodic_function.hpp:124 | `is_running` is true exactly when one runner thread is alive. |
| `Timer.PeriodicFunction.Start` | include/periodic_function/periodic_function.hpp:98 | The new state is `Started` of the old one, and the callback is untouched. |
| `Timer.PeriodicFunction.Stop` | include/periodic_function/periodic_function.hpp:103-118 | Sets the flag, joins a live runner and clears the flag. The new state is `Stopped` of the old one. |
| `Timer.PeriodicFunction.MoveAssign` | include/periodic_function/periodic_function.hpp:80-90 | Self-assignment changes nothing. Otherwise the two new states are `MovedFrom` of the old ones, and the destination gets the source's callback. |
| `Timer.PeriodicFunction.Destroy` | include/periodic_function/periodic_function.hpp:77 | The destructor leaves the timer stopped, with no live runner. |

## Findings

| source | as written | input that shows it | evidently intended | confidence | as-written member | corrected member |
|---|---|---|---|---|---|---|
| include/periodic_function/periodic_function.hpp:40-41, 155 | An on-time callback of truncated duration c < interval adds `interval - callback_time` to the absolute deadline `future_time`, although the callback started at that deadline. The next callback starts interval − c after this one. | Interval 100 ms, every callback 10 ms: the second callback starts 90 ms after the first. | The deadline moves on by a full interval, so the next callback starts one interval after this one. The overrun branch is unchanged. | high; not executed | `Scheduling.OnTimeCallbackShortensNextStart`, `Scheduling.OnTimePeriodShortfall` | `Policies.IntendedScheduleNext`, `Scheduling.IntendedOnTimeKeepsInterval` |

The runner model (`Schedule`, `Deadline`, `RunnerLoop`) keeps the policy as the library ships it. The corrected policy is proved on its own.

## Left out

- Threads, the mutex, the condition variable and `wait_until` (lines 105-111 and 136-141). A join is one atomic step of `Stop`. A wait ends at its deadline, or at once when stop was requested before the deadline or the previous callback returned late. Spurious wake-ups, clock granularity and the time spent between the steps of the loop are not modelled.
- The clock. `steady_clock::now()` readings are inputs: the runner's start instant, each callback's measured duration and the instant of the stop request. The tick is taken to be a nanosecond, so `TICKS_PER_MS` is 1 000 000; the standard leaves the steady clock's period to the implementation.
- Signed durations. `std::chrono` durations are signed 64-bit counts; the model uses unbounded `nat` and so does not capture negative intervals or overflow.
- Invoking the callback and the `try`/`catch (...)` around it (lines 144-150). A callback is represented only by its duration, so a throwing callback is one whose duration is measured like any other.
- The link between a timer object and its runner's schedule. `Start` models spawning by the ghost runner count only. `RunnerLoop` models what that runner does, as a separate method.
- Races in the move operations. The source moves the callback out of a source whose runner may still be calling it, and move assignment overwrites `interval_` and `callback_` while the destination's own runner may be reading them. The sequential model treats each operation as atomic.
- Timer.PeriodicFunction.FromMoved: says nothing about the moved-from callback, because C++ leaves a moved-from object in a valid but unspecified state.
- Timer.PeriodicFunction.MoveAssign: says nothing about the moved-from callback either, for the same reason.
- `details::has_default_operator` / `is_suitable_callback` and the deduction guide (lines 10-19, 171-172). These are compile-time only.
- The early variant `periodic_function/include/periodic_function/periodic_function.hpp`. Its runner resets the stop flag itself when it leaves its loop (line 63), and it waits with an uninterruptible `sleep_until` to a deadline recomputed from the clock on every turn (lines 57-59), so it has no missed-interval policy.
- The test files, which are timing tests on a wall clock. `RepeatedStartScenario` and `MoveScenario` in `timer.dfy` replay the repeated-start and move test cases as verified assertions; they have no contract of their own.
