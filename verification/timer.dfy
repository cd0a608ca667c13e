/**
 * The timer object and its start/stop lifecycle.
 *
 * The source keeps a runner thread, a stop flag guarded by a mutex and a
 * condition variable, the interval and the callback. `stop` resets the flag
 * on the caller's side after joining the runner, so every public operation is
 * a sequence of steps taken by the caller; the join is one atomic step here.
 * Ghost counters of spawned and joined runners make "how many runner threads
 * are alive" observable.
 */
module Timer {
  import opened Policies

  /** The timer's state: the fields the operations update and the runner counts. */
  datatype Lifecycle = Lifecycle(running: bool, stopRequested: bool, interval: nat, spawned: nat, joined: nat)
  {
    /**
     * Between public operations the stop flag is clear and a runner is alive
     * exactly when the timer reports that it is running.
     */
    predicate Valid()
    {
      !stopRequested && joined <= spawned && spawned - joined == (if running then 1 else 0)
    }

    /** Runner threads that were spawned and not yet joined. */
    function LiveRunners(): nat
      requires joined <= spawned
    {
      spawned - joined
    }
  }

  /** A timer as constructed: nothing started. */
  function Constructed(interval: nat): Lifecycle
  {
    Lifecycle(false, false, interval, 0, 0)
  }

  /**
   * The state after `stop`: whatever the state was, no runner is left alive
   * and the stop flag is clear again; a live runner has been joined.
   */
  function Stopped(s: Lifecycle): (t: Lifecycle)
    requires s.Valid()
    ensures t.Valid() && !t.running && t.LiveRunners() == 0
    ensures t.interval == s.interval && t.spawned == s.spawned
  {
    s.(running := false, joined := if s.running then s.joined + 1 else s.joined)
  }

  /**
   * The state after `start`: a running timer is stopped first, then one new
   * runner is spawned, so exactly one runner is alive afterwards.
   */
  function Started(s: Lifecycle): (t: Lifecycle)
    requires s.Valid()
    ensures t.Valid() && t.running && t.LiveRunners() == 1
    ensures t.interval == s.interval && t.spawned == s.spawned + 1
  {
    var idle := if s.running then Stopped(s) else s;
    idle.(running := true, spawned := idle.spawned + 1)
  }

  /** `start` called `n` times in a row. */
  function StartedTimes(s: Lifecycle, n: nat): Lifecycle
    requires s.Valid()
  {
    if n == 0 then s else Started(StartedTimes(s, n - 1))
  }

  /**
   * Moving `src` into a distinct timer `dst` (move construction, with `dst`
   * as constructed, or move assignment): the destination takes the source's
   * interval; a running source is stopped and the destination restarted, so
   * the source ends not running, and moving never adds a live runner.
   * Returns the destination's and the source's new states.
   */
  function MovedFrom(dst: Lifecycle, src: Lifecycle): (r: (Lifecycle, Lifecycle))
    requires dst.Valid() && src.Valid()
    ensures r.0.Valid() && r.1.Valid()
    ensures r.0.interval == src.interval && r.1.interval == src.interval
    ensures !r.1.running && r.0.running == (src.running || dst.running)
    ensures src.running ==> r.0.spawned == dst.spawned + 1 && r.1.spawned == src.spawned
    ensures src.running ==> r.0.LiveRunners() + r.1.LiveRunners() == 1
    ensures !src.running ==> r.0.spawned == dst.spawned && r.1 == src
    ensures r.0.LiveRunners() + r.1.LiveRunners() <= dst.LiveRunners() + src.LiveRunners()
  {
    var target := dst.(interval := src.interval);
    if src.running then (Started(target), Stopped(src)) else (target, src)
  }

  /** Stopping twice leaves the same state as stopping once. */
  lemma StopIdempotent(s: Lifecycle)
    requires s.Valid()
    ensures Stopped(Stopped(s)) == Stopped(s)
  {
  }

  /**
   * Starting repeatedly never accumulates runners: after n >= 1 starts in a
   * row exactly one runner is alive, the n spawned runners all but the last
   * have been joined, and the interval is unchanged.
   */
  lemma {:induction false} RepeatedStartsKeepOneRunner(s: Lifecycle, n: nat)
    requires s.Valid() && n >= 1
    ensures StartedTimes(s, n).Valid() && StartedTimes(s, n).running
    ensures StartedTimes(s, n).LiveRunners() == 1
    ensures StartedTimes(s, n).spawned == s.spawned + n
    ensures StartedTimes(s, n).interval == s.interval
  {
    if n > 1 {
      RepeatedStartsKeepOneRunner(s, n - 1);
    }
  }

  /**
   * A periodic function over callbacks of type C. `running` stands for the
   * runner thread being joinable, `stopFlag` for the shared stop flag; the
   * policy is fixed when the timer is built (a template parameter).
   */
  class PeriodicFunction<C> {
    const policy: Policy
    var callback: C
    var interval: nat
    var running: bool
    var stopFlag: bool
    ghost var spawned: nat
    ghost var joined: nat

    ghost function State(): Lifecycle
      reads this
    {
      Lifecycle(running, stopFlag, interval, spawned, joined)
    }

    ghost predicate Valid()
      reads this
    {
      State().Valid()
    }

    /** Stores the callback and the interval; starts nothing. */
    constructor (callback: C, interval: nat, policy: Policy)
      ensures Valid() && State() == Constructed(interval)
      ensures this.callback == callback && this.policy == policy
    {
      this.policy := policy;
      this.callback := callback;
      this.interval := interval;
      running, stopFlag := false, false;
      spawned, joined := 0, 0;
    }

    /**
     * Move construction: takes the other timer's interval and callback; if
     * the other timer was running, stops it and starts this one. The moved-
     * from callback is left unspecified.
     */
    constructor FromMoved(other: PeriodicFunction<C>)
      requires other.Valid()
      modifies other
      ensures Valid() && other.Valid()
      ensures policy == other.policy && callback == old(other.callback)
      ensures (State(), other.State()) == MovedFrom(Constructed(old(other.interval)), old(other.State()))
    {
      policy := other.policy;
      interval := other.interval;
      callback := other.callback;
      running, stopFlag := false, false;
      spawned, joined := 0, 0;
      new;
      if other.IsRunning() {
        other.Stop();
        Start();
      }
    }

    /** Whether a runner thread is alive. */
    function IsRunning(): (r: bool)
      reads this
      requires Valid()
      ensures r <==> State().LiveRunners() == 1
    {
      running
    }

    /** Stops a running timer first, then spawns a fresh runner. */
    method Start()
      requires Valid()
      modifies this
      ensures Valid() && State() == Started(old(State()))
      ensures callback == old(callback)
    {
      if IsRunning() {
        Stop();
      }
      // the runner thread executes Scheduling.RunnerLoop with this policy and interval
      running := true;
      spawned := spawned + 1;
    }

    /**
     * Sets the stop flag, joins a live runner (which sees the flag at its
     * wait and leaves its loop), then clears the flag again.
     */
    method Stop()
      requires Valid()
      modifies this
      ensures Valid() && State() == Stopped(old(State()))
      ensures callback == old(callback)
    {
      stopFlag := true;
      if running {
        running := false;
        joined := joined + 1;
      }
      stopFlag := false;
    }

    /**
     * Move assignment: does nothing when assigning a timer to itself;
     * otherwise takes the other timer's interval and callback and, if the
     * other timer was running, stops it and restarts this one. A running
     * destination whose source is idle keeps its runner.
     */
    method MoveAssign(other: PeriodicFunction<C>)
      requires Valid() && other.Valid() && other.policy == policy
      modifies this, other
      ensures Valid() && other.Valid()
      ensures other == this ==> State() == old(State()) && callback == old(callback)
      ensures other != this ==>
        (State(), other.State()) == MovedFrom(old(State()), old(other.State())) && callback == old(other.callback)
    {
      if this != other {
        interval := other.interval;
        callback := other.callback;
        if other.IsRunning() {
          other.Stop();
          Start();
        }
      }
    }

    /** The destructor stops the timer, so no runner outlives the object. */
    method Destroy()
      requires Valid()
      modifies this
      ensures Valid() && State() == Stopped(old(State()))
    {
      Stop();
    }
  }

  /** Five starts in a row leave one runner; stopping leaves none. */
  method RepeatedStartScenario(interval: nat)
  {
    var timer := new PeriodicFunction<bool>(true, interval, ScheduleNextMissedInterval);
    var i := 0;
    while i < 5
      invariant 0 <= i <= 5
      invariant timer.Valid() && timer.State() == StartedTimes(Constructed(interval), i)
    {
      timer.Start();
      i := i + 1;
    }
    RepeatedStartsKeepOneRunner(Constructed(interval), 5);
    assert timer.IsRunning() && timer.State().spawned == 5;
    timer.Stop();
    assert !timer.IsRunning();
  }

  /** Moving a running timer twice leaves the last destination running and the others idle. */
  method MoveScenario(interval: nat)
  {
    var first := new PeriodicFunction<bool>(true, interval, ScheduleNextMissedInterval);
    first.Start();
    var second := new PeriodicFunction<bool>.FromMoved(first);
    assert second.IsRunning() && !first.IsRunning();
    var third := new PeriodicFunction<bool>.FromMoved(second);
    assert third.IsRunning() && !second.IsRunning() && third.interval == interval;
  }
}
