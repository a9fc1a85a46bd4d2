/**
 * The countdown hook of src/hooks/useTimer.js. Its state is the remaining
 * `time` in seconds and the `isActive` / `isPaused` flags; the one-second
 * interval the hook installs while the timer runs is the `Tick` operation,
 * called explicitly. The `TimerState` functions say what each operation
 * does to the state; the `Timer` class holds the state and performs them in
 * place.
 */
module TimerHook {
  import opened Text
  import HelpersFormat

  /** `TIMER_SETTINGS.DEFAULT_POMODORO`: 25 minutes. */
  const DefaultPomodoro: int := 1500

  datatype TimerState = TimerState(time: int, isActive: bool, isPaused: bool)

  /** Counting down: the hook's interval is installed exactly in this state. */
  predicate Running(s: TimerState) {
    s.isActive && !s.isPaused && s.time > 0
  }

  /** `isCompleted`: the time ran out and the timer is not active. */
  predicate Completed(s: TimerState) {
    s.time == 0 && !s.isActive
  }

  function Started(s: TimerState): TimerState {
    s.(isActive := true, isPaused := false)
  }

  function Paused(s: TimerState): TimerState {
    s.(isPaused := true)
  }

  function Resumed(s: TimerState): TimerState {
    s.(isPaused := false)
  }

  /** `stop` and `reset` both go back to the initial time, idle. */
  function Initial(initialTime: int): TimerState {
    TimerState(initialTime, false, false)
  }

  /** `addTime(seconds)`: the time moves by `seconds`, never below zero. */
  function TimeAdded(s: TimerState, seconds: int): TimerState {
    s.(time := if s.time + seconds > 0 then s.time + seconds else 0)
  }

  /**
   * One interval callback: only while running; the last second takes the
   * time to zero and clears both flags.
   */
  function Ticked(s: TimerState): TimerState {
    if !Running(s) then s
    else if s.time <= 1 then TimerState(0, false, false)
    else s.(time := s.time - 1)
  }

  /** `getProgress()`: the share of the initial time that has elapsed, in percent. */
  function ProgressPercent(initialTime: int, time: int): real
    requires initialTime > 0
  {
    ((initialTime - time) as real / initialTime as real) * 100.0
  }

  /** Every operation leaves the time non-negative unless it is the initial time. */
  predicate Consistent(s: TimerState, initialTime: int) {
    s.time >= 0 || s.time == initialTime
  }

  /** Starting keeps the time, sets the timer active and unpaused, so it is not completed. */
  lemma StartEffect(s: TimerState)
    ensures Started(s).time == s.time && Started(s).isActive && !Started(s).isPaused
    ensures !Completed(Started(s))
    ensures s.time > 0 ==> Running(Started(s))
  {
  }

  /** Pausing a running timer and resuming it gives back exactly the running state. */
  lemma PauseThenResume(s: TimerState)
    requires s.isActive && !s.isPaused
    ensures Resumed(Paused(s)) == s
    ensures Paused(s).time == s.time && Paused(s).isActive && !Running(Paused(s))
  {
  }

  /** A tick from a running state takes exactly one second off, and nothing else happens otherwise. */
  lemma TickEffect(s: TimerState)
    ensures Running(s) ==> Ticked(s).time == s.time - 1
    ensures !Running(s) ==> Ticked(s) == s
    ensures Running(s) && s.time <= 1 ==> Completed(Ticked(s)) && !Ticked(s).isPaused
    ensures Running(s) && s.time > 1 ==> Running(Ticked(s))
  {
  }

  /** With the time at zero no tick changes anything. */
  lemma NoTickAtZero(s: TimerState)
    requires s.time == 0
    ensures Ticked(s) == s
  {
  }

  /** `addTime` never yields a negative time and does not cap at the initial time. */
  lemma AddTimeEffect(s: TimerState, seconds: int, initialTime: int)
    ensures TimeAdded(s, seconds).time >= 0
    ensures s.time + seconds >= 0 ==> TimeAdded(s, seconds).time == s.time + seconds
    ensures s.time + seconds < 0 ==> TimeAdded(s, seconds).time == 0
    ensures s.time == initialTime && seconds > 0 ==> TimeAdded(s, seconds).time > initialTime
  {
  }

  /** Every operation keeps the state `Consistent`. */
  lemma ConsistentKept(s: TimerState, initialTime: int, seconds: int)
    requires Consistent(s, initialTime)
    ensures Consistent(Started(s), initialTime) && Consistent(Paused(s), initialTime)
    ensures Consistent(Resumed(s), initialTime) && Consistent(Initial(initialTime), initialTime)
    ensures Consistent(TimeAdded(s, seconds), initialTime) && Consistent(Ticked(s), initialTime)
  {
  }

  /** `n` ticks from a running state. */
  function Ticks(s: TimerState, n: nat): TimerState
    decreases n
  {
    if n == 0 then s else Ticks(Ticked(s), n - 1)
  }

  /**
   * A started timer with `t` seconds left is completed after exactly `t`
   * ticks, and not before: after `n < t` ticks it is still running with
   * `t - n` seconds left.
   */
  lemma {:induction false} CountdownCompletes(s: TimerState, n: nat)
    requires Running(s) && n <= s.time
    decreases n
    ensures n < s.time ==> Running(Ticks(s, n)) && Ticks(s, n).time == s.time - n
    ensures n == s.time ==> Completed(Ticks(s, n)) && !Ticks(s, n).isPaused
  {
    if n > 0 {
      if s.time == 1 {
        assert Ticked(s) == TimerState(0, false, false);
        assert Ticks(Ticked(s), n - 1) == Ticked(s);
      } else {
        CountdownCompletes(Ticked(s), n - 1);
      }
    }
  }

  /** The progress is 0 at the initial time, 100 at zero, and grows as the time drops. */
  lemma ProgressBounds(initialTime: int, t1: int, t2: int)
    requires initialTime > 0
    ensures ProgressPercent(initialTime, initialTime) == 0.0
    ensures ProgressPercent(initialTime, 0) == 100.0
    ensures t1 <= t2 ==> ProgressPercent(initialTime, t1) >= ProgressPercent(initialTime, t2)
    ensures 0 <= t1 <= initialTime ==> 0.0 <= ProgressPercent(initialTime, t1) <= 100.0
  {
    var d := initialTime as real;
    ElapsedShare(d, t1 as real);
    ElapsedShare(d, t2 as real);
    if t1 <= t2 {
      assert t1 as real / d <= t2 as real / d;
    }
    if 0 <= t1 <= initialTime {
      assert t1 as real / d <= 1.0;
    }
  }

  lemma ElapsedShare(d: real, t: real)
    requires d > 0.0
    ensures ((d - t) / d) * 100.0 == 100.0 - (t / d) * 100.0
  {
    assert (d - t) / d == d / d - t / d;
  }

  /** The hook's state, changed in place by its operations. */
  class Timer {
    const initialTime: int
    var time: int
    var isActive: bool
    var isPaused: bool

    function State(): TimerState
      reads this
    {
      TimerState(time, isActive, isPaused)
    }

    /** The time is never negative unless it is a negative initial time. */
    predicate Valid()
      reads this
    {
      Consistent(State(), initialTime)
    }

    /** `useTimer(initialTime)`: the full time, idle. */
    constructor(initialTime: int := DefaultPomodoro)
      ensures this.initialTime == initialTime
      ensures State() == Initial(initialTime) && Valid()
    {
      this.initialTime := initialTime;
      time := initialTime;
      isActive := false;
      isPaused := false;
    }

    method Start()
      modifies this
      ensures State() == Started(old(State()))
      ensures old(Valid()) ==> Valid()
    {
      isActive := true;
      isPaused := false;
    }

    method Pause()
      modifies this
      ensures State() == Paused(old(State()))
      ensures old(Valid()) ==> Valid()
    {
      isPaused := true;
    }

    method Resume()
      modifies this
      ensures State() == Resumed(old(State()))
      ensures old(Valid()) ==> Valid()
    {
      isPaused := false;
    }

    /** `stop`: the same new state as `reset`. */
    method Stop()
      modifies this
      ensures State() == Initial(initialTime) && Valid()
    {
      isActive := false;
      isPaused := false;
      time := initialTime;
    }

    method Reset()
      modifies this
      ensures State() == Initial(initialTime) && Valid()
    {
      time := initialTime;
      isActive := false;
      isPaused := false;
    }

    method AddTime(seconds: int)
      modifies this
      ensures State() == TimeAdded(old(State()), seconds)
      ensures time >= 0 && Valid()
    {
      var t := time + seconds;
      time := if t > 0 then t else 0;
    }

    /** One call of the interval callback; it only exists while the timer runs. */
    method Tick()
      modifies this
      ensures State() == Ticked(old(State()))
      ensures old(Valid()) ==> Valid()
    {
      if isActive && !isPaused && time > 0 {
        if time <= 1 {
          isActive := false;
          isPaused := false;
          time := 0;
        } else {
          time := time - 1;
        }
      }
    }

    /** `isCompleted`: true exactly when the time ran out and the timer is not active, so it is not counting down. */
    function IsCompleted(): (done: bool)
      reads this
      ensures done <==> time == 0 && !isActive
      ensures done ==> !Running(State())
    {
      Completed(State())
    }

    /** `progress`: the elapsed share of the initial time, in percent. */
    function Progress(): (p: real)
      reads this
      requires initialTime > 0
      ensures time == initialTime ==> p == 0.0
      ensures time == 0 ==> p == 100.0
      ensures 0 <= time <= initialTime ==> 0.0 <= p <= 100.0
    {
      ProgressBounds(initialTime, time, time);
      ProgressPercent(initialTime, time)
    }

    /**
     * `formatTime()`: the clock text of the remaining time, which reads back as
     * that time, with the hours field only from one hour on.
     */
    function FormatTime(): (text: string)
      reads this
      requires time >= 0
      ensures HelpersFormat.DecodeClock(text) == Some(time)
      ensures Split(text, ':')
           == (if time >= 3600 then [PadTwo(time / 3600)] else [])
              + [PadTwo((time % 3600) / 60), PadTwo(time % 60)]
    {
      HelpersFormat.FormatTimeRoundTrip(time);
      HelpersFormat.FormatTime(time)
    }
  }
}
