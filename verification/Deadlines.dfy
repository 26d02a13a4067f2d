/**
  The times of periodic and delayed tasks: when a due task is to run next, and how long the event loop may
  sleep before a task is due.
 */
module Deadlines {
  import opened Bytes
  import opened Collections

  const MICROS_PER_SECOND := 1_000_000

  /** struct timeval. */
  datatype Time = Time(sec: int, usec: int) {
    /** The time in microseconds. */
    function Micros(): int {
      sec * MICROS_PER_SECOND + usec
    }

    predicate Normal() {
      0 <= usec < MICROS_PER_SECOND
    }

    /** timercmp with <. */
    predicate Before(other: Time) {
      sec < other.sec || (sec == other.sec && usec < other.usec)
    }
  }

  /** On normalized times the comparison by fields is comparison of microseconds. */
  lemma BeforeIsLess(a: Time, b: Time)
    requires a.Normal() && b.Normal()
    ensures a.Before(b) <==> a.Micros() < b.Micros()
  {
    if a.sec < b.sec {
      assert (a.sec + 1) * MICROS_PER_SECOND <= b.sec * MICROS_PER_SECOND;
    } else if b.sec < a.sec {
      assert (b.sec + 1) * MICROS_PER_SECOND <= a.sec * MICROS_PER_SECOND;
    }
  }

  // ---------- The next time of a task ----------

  /** When a task of the given period, due at `next` and looked at `now`, is due again. */
  function Following(next: int, period: int, now: int): int {
    if now <= next then next
    else if next + period > now then next + period
    else now + period
  }

  /** Passes of the event loop at the given times: the task's next deadline, and how often it came due. */
  function Served(next: int, period: int, passes: seq<int>): (int, nat)
    decreases |passes|
  {
    if passes == [] then (next, 0)
    else
      var (later, times) := Served(Following(next, period, passes[0]), period, passes[1..]);
      (later, times + if passes[0] > next then 1 else 0)
  }

  predicate Forward(passes: seq<int>) {
    forall i, j :: 0 <= i < j < |passes| ==> passes[i] <= passes[j]
  }

  /**
    A task of positive period never comes due more than once a period, and at the end of any run it is due
    no later than one period after the last pass, unless its first deadline has not been reached.
   */
  lemma {:induction false} OncePerPeriod(next: int, period: int, passes: seq<int>)
    requires period > 0 && Forward(passes)
    ensures var (later, times) := Served(next, period, passes);
      && later >= next + times * period
      && (passes != [] ==> later <= Max(next, passes[|passes| - 1] + period))
      && (passes != [] ==> later >= passes[|passes| - 1])
      && (times > 0 ==> next + (times - 1) * period < passes[|passes| - 1])
    decreases |passes|
  {
    if passes != [] {
      var rest := passes[1..];
      var following := Following(next, period, passes[0]);
      OncePerPeriod(following, period, rest);
      var last := passes[|passes| - 1];
      assert rest != [] ==> rest[|rest| - 1] == last && passes[0] <= last;
      var (later, times) := Served(following, period, rest);
      Distribute(times, period);
    }
  }

  /** Every pass that finds the task due comes less than a period after its deadline. */
  predicate Prompt(next: int, period: int, passes: seq<int>)
    decreases |passes|
  {
    passes == [] || (passes[0] < next + period && Prompt(Following(next, period, passes[0]), period, passes[1..]))
  }

  /** Served promptly, a task does not drift: its deadlines are exactly a period apart, however late the passes come. */
  lemma {:induction false} NoDrift(next: int, period: int, passes: seq<int>)
    requires period > 0 && Prompt(next, period, passes)
    ensures var (later, times) := Served(next, period, passes); later == next + times * period
    decreases |passes|
  {
    if passes != [] {
      var following := Following(next, period, passes[0]);
      NoDrift(following, period, passes[1..]);
      var (later, times) := Served(following, period, passes[1..]);
      Distribute(times, period);
    }
  }

  /** How often it came due by the last pass is then decided by the time that passed alone. */
  lemma OnTime(next: int, period: int, passes: seq<int>)
    requires period > 0 && Forward(passes) && passes != [] && Prompt(next, period, passes)
    ensures var (later, times) := Served(next, period, passes); var last := passes[|passes| - 1];
      && last <= next + times * period && (times > 0 ==> next + (times - 1) * period < last)
  {
    NoDrift(next, period, passes);
    OncePerPeriod(next, period, passes);
  }

  lemma Distribute(times: nat, period: int)
    ensures (times + 1) * period == times * period + period
    ensures (times - 1) * period == times * period - period
  {
  }

  class Task {
    var periodSec: int
    var periodUsec: int
    var executing: bool     // whether some thread is inside the task's function
    var nextTime: Time

    constructor (intervalSec: int, intervalUsec: int, now: Time)
      requires now.Normal() && intervalUsec >= 0
      ensures Valid() && !executing && periodSec == intervalSec && periodUsec == intervalUsec
      ensures nextTime.Micros() == now.Micros() + Period()
    {
      periodSec, periodUsec, executing := intervalSec, intervalUsec, false;
      nextTime := now;
      new;
      IncrementTime(intervalSec, intervalUsec);
    }

    /** Callers give intervals that are not negative. */
    ghost predicate Valid()
      reads this
    {
      nextTime.Normal() && periodUsec >= 0
    }

    ghost function Period(): int
      reads this
    {
      Time(periodSec, periodUsec).Micros()
    }

    /** increment_time on next_time. */
    method IncrementTime(sec: int, usec: int)
      requires nextTime.Normal() && usec >= 0
      modifies this`nextTime
      ensures nextTime.Normal()
      ensures nextTime.Micros() == old(nextTime.Micros()) + Time(sec, usec).Micros()
    {
      nextTime := nextTime.(usec := nextTime.usec + usec);
      nextTime := nextTime.(sec := nextTime.sec + sec);
      if nextTime.usec >= MICROS_PER_SECOND {
        nextTime := nextTime.(sec := nextTime.sec + nextTime.usec / MICROS_PER_SECOND);
        nextTime := nextTime.(usec := nextTime.usec % MICROS_PER_SECOND);
      }
    }

    /**
      What a pass does with one task.  A due task gets its next time, and runs unless it is running already;
      `runs` tells whether its function is called and `once` whether the task is removed after that.
     */
    method Service(now: Time) returns (runs: bool, once: bool)
      requires Valid() && now.Normal()
      modifies this`nextTime, this`executing
      ensures Valid()
      ensures nextTime.Micros() == Following(old(nextTime.Micros()), Period(), now.Micros())
      ensures now.Micros() <= old(nextTime.Micros()) ==> nextTime == old(nextTime)
      ensures old(nextTime.Micros()) < now.Micros() < old(nextTime.Micros()) + Period() ==>
                nextTime.Micros() == old(nextTime.Micros()) + Period()
      ensures old(nextTime.Micros()) < now.Micros() && old(nextTime.Micros()) + Period() <= now.Micros() ==>
                nextTime.Micros() == now.Micros() + Period()
      ensures runs == (now.Micros() > old(nextTime.Micros()) && !old(executing))
      ensures executing == (old(executing) || runs)
      ensures once == (runs && periodSec == 0 && periodUsec == 0)
      ensures Period() > 0 && now.Micros() > old(nextTime.Micros()) ==>
                now.Micros() < nextTime.Micros() <= now.Micros() + Period()
    {
      BeforeIsLess(nextTime, now);
      runs, once := false, false;
      if nextTime.Before(now) {
        IncrementTime(periodSec, periodUsec);
        BeforeIsLess(now, nextTime);
        if !now.Before(nextTime) {
          nextTime := now;
          IncrementTime(periodSec, periodUsec);
        }
        if !executing {
          executing := true;
          runs := true;
          once := periodSec == 0 && periodUsec == 0;
        }
      }
    }
  }

  // ---------- How long to sleep ----------

  /** How long until a task is due, in microseconds. */
  ghost function Delay(task: Task, now: Time): (delay: int)
    reads task
    ensures task.nextTime.Micros() <= now.Micros() ==> delay == 0
    ensures now.Micros() <= task.nextTime.Micros() ==> now.Micros() + delay == task.nextTime.Micros()
  {
    Max(0, task.nextTime.Micros() - now.Micros())
  }

  /** Nothing to wait for: timeout->tv_sec == -1. */
  predicate Endless(timeout: Time) {
    timeout.sec == -1
  }

  predicate Usable(timeout: Time) {
    timeout.Normal() && timeout.sec >= -1
  }

  /** Whether `t` bounds the timeout chosen so far and the delay of every idle task. */
  ghost predicate NoLater(t: Time, timeout: Time, tasks: seq<Task>, now: Time)
    reads set task <- tasks :: task
  {
    && (!Endless(timeout) ==> !Endless(t) && t.Micros() <= timeout.Micros())
    && (forall task <- tasks :: !task.executing ==> !Endless(t) && t.Micros() <= Delay(task, now))
  }

  /** Whether `t` is the timeout chosen so far or the delay of some idle task. */
  ghost predicate Attained(t: Time, timeout: Time, tasks: seq<Task>, now: Time)
    reads set task <- tasks :: task
  {
    t == timeout || exists task <- tasks :: !task.executing && t.Micros() == Delay(task, now)
  }

  /** set_soonest_timeout, which passes over the list by recursion: the least of all there is to wait for. */
  method SetSoonestTimeout(timeout: Time, tasks: seq<Task>, now: Time) returns (soonest: Time)
    requires Usable(timeout) && now.Normal()
    requires forall task <- tasks :: task.Valid()
    ensures Usable(soonest)
    ensures NoLater(soonest, timeout, tasks, now) && Attained(soonest, timeout, tasks, now)
    decreases |tasks|
  {
    if tasks == [] {
      return timeout;
    }
    var task := tasks[0];
    assert task in tasks && task.Valid();
    soonest := timeout;
    if !task.executing {
      var delay := UntilDue(task, now);
      BeforeIsLess(delay, timeout);
      if timeout.sec == -1 || delay.Before(timeout) {
        soonest := delay;
      }
    }
    soonest := SetSoonestTimeout(soonest, tasks[1..], now);
    assert tasks == [task] + tasks[1..];
  }

  method UntilDue(task: Task, now: Time) returns (delay: Time)
    requires task.Valid() && now.Normal()
    ensures delay.Normal() && delay.sec >= 0 && delay.Micros() == Delay(task, now)
  {
    delay := Time(task.nextTime.sec - now.sec, task.nextTime.usec - now.usec);
    if delay.usec < 0 {
      delay := Time(delay.sec - 1, delay.usec + MICROS_PER_SECOND);
    }
    if delay.sec < 0 {
      assert delay.Micros() < 0;
      delay := Time(0, 0);
    }
  }

  /** Something to wait for: the caller's timeout, if it gave one, or a task that is idle. */
  ghost predicate Waiting(timeout: int, tasks: seq<Task>)
    reads set task <- tasks :: task
  {
    timeout >= 0 || exists task <- tasks :: !task.executing
  }

  ghost predicate Candidate(t: int, timeout: int, tasks: seq<Task>, now: Time)
    reads set task <- tasks :: task
  {
    (timeout >= 0 && t == timeout) || exists task <- tasks :: !task.executing && t == Delay(task, now)
  }

  /**
    The sleep of socket_select in either event loop, in microseconds and in the milliseconds of epoll_wait;
    None blocks.  The sleep is the least of the caller's timeout and the idle tasks' delays; with all tasks
    running and no timeout it is a microsecond.  Whole milliseconds never sleep past it.
   */
  method ChooseTimeout(timeoutSec: int, timeoutUsec: int, tasks: seq<Task>, now: Time)
    returns (micros: Option<int>, millis: Option<int>)
    requires timeoutSec >= -1 && timeoutUsec >= 0 && now.Normal()
    requires forall task <- tasks :: task.Valid()
    ensures micros.None? <==> millis.None?
    ensures micros.None? <==> timeoutSec < 0 && tasks == []
    ensures var timeout := Time(timeoutSec, timeoutUsec).Micros();
      micros.Some? && Waiting(timeout, tasks) ==>
        && Candidate(micros.value, timeout, tasks, now)
        && (timeout >= 0 ==> micros.value <= timeout)
        && (forall task <- tasks :: !task.executing ==> micros.value <= Delay(task, now))
    ensures micros.Some? && !Waiting(Time(timeoutSec, timeoutUsec).Micros(), tasks) ==> micros.value == 1
    ensures micros.Some? ==> 0 <= millis.value * 1000 <= micros.value < millis.value * 1000 + 1000
  {
    if timeoutSec < 0 && tasks == [] {
      return None, None;
    }
    var timeout := Time(timeoutSec, timeoutUsec);
    if timeoutUsec >= MICROS_PER_SECOND {
      timeout := Time(timeoutSec + timeoutUsec / MICROS_PER_SECOND, timeoutUsec % MICROS_PER_SECOND);
    }
    assert timeout.Micros() == Time(timeoutSec, timeoutUsec).Micros();
    assert Endless(timeout) <==> timeout.Micros() < 0;
    var chosen := SetSoonestTimeout(timeout, tasks, now);
    if chosen.sec == -1 {
      chosen := Time(0, 1);
    }
    micros := Some(chosen.Micros());
    millis := Some(1000 * chosen.sec + chosen.usec / 1000);
  }
}
