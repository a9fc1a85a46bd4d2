/**
 * The Timer component of src/components/Timer.jsx on top of the countdown
 * hook: the play/pause toggle, reset, the five-minute minus and plus
 * controls, and the completion effect.
 *
 * The completion effect depends on `notifyTimerComplete`, which the
 * notifications hook creates anew on every render, so the effect runs after
 * every render and reacts whenever the timer is completed at that moment.
 * A render follows the mount and every handled event that changes the
 * timer's state; each reaction is recorded as the effect's two calls in
 * order, the notification and then the optional `onComplete` callback.
 */
module TimerComponent {
  import opened TimerHook

  /** The default `initialTime` prop: 25 minutes. */
  const DefaultInitialTime: int := 1500

  /** The five-minute step of the minus and plus controls, in minutes. */
  const Step: int := 5

  datatype Call = NotifyTimerComplete | OnComplete

  /** What one run of the completion effect calls. */
  function Reaction(hasOnComplete: bool): (calls: seq<Call>)
    ensures |calls| == (if hasOnComplete then 2 else 1) && calls[0] == NotifyTimerComplete
    ensures OnComplete in calls <==> hasOnComplete
  {
    [NotifyTimerComplete] + (if hasOnComplete then [OnComplete] else [])
  }

  /** The calls the effect makes after a render of state `s`. */
  function EffectCalls(s: TimerState, hasOnComplete: bool): seq<Call> {
    if Completed(s) then Reaction(hasOnComplete) else []
  }

  /**
   * `toggleTimer`: a running timer pauses, a paused one resumes, and any
   * other (idle or completed) one starts.
   */
  function Toggled(s: TimerState): (t: TimerState)
    ensures t.time == s.time
    ensures t.isPaused <==> s.isActive && !s.isPaused
    ensures t.isActive <==> s.isActive || !s.isPaused
  {
    if s.isActive && !s.isPaused then Paused(s)
    else if s.isPaused then Resumed(s)
    else Started(s)
  }

  /** Toggling twice from a running timer pauses it and then runs it again. */
  lemma ToggleTwice(s: TimerState)
    requires s.isActive && !s.isPaused
    ensures Toggled(Toggled(s)) == s
    ensures !Running(Toggled(s))
  {
  }

  /**
   * Toggling a timer that is not counting down leaves it unpaused with its
   * time; it becomes active unless it was paused while inactive, which
   * `resume` leaves inactive.
   */
  lemma ToggleResumesOrStarts(s: TimerState)
    requires !(s.isActive && !s.isPaused)
    ensures Toggled(s).isActive == (s.isActive || !s.isPaused)
    ensures !Toggled(s).isPaused && Toggled(s).time == s.time
  {
  }

  /**
   * The component only pauses an active timer, and stop, reset and the last
   * tick clear both flags, so a paused timer is always active.
   */
  predicate PausedOnlyWhenActive(s: TimerState) {
    s.isPaused ==> s.isActive
  }

  /** Every operation the component performs keeps a paused timer active. */
  lemma PausedOnlyWhenActiveKept(s: TimerState, initialTime: int, seconds: int)
    requires PausedOnlyWhenActive(s)
    ensures PausedOnlyWhenActive(Initial(initialTime))
    ensures PausedOnlyWhenActive(Toggled(s))
    ensures PausedOnlyWhenActive(TimeAdded(s, seconds))
    ensures PausedOnlyWhenActive(Ticked(s))
  {
  }

  /**
   * Toggling a completed timer starts it at zero: it is no longer completed,
   * so the effect does not react, and no tick ever changes it again, so it
   * stays without a reaction until it is reset.
   */
  lemma RestartNoReaction(s: TimerState, hasOnComplete: bool)
    requires Completed(s) && PausedOnlyWhenActive(s)
    ensures Toggled(s) == Started(s) && Toggled(s).time == 0
    ensures !Completed(Toggled(s)) && EffectCalls(Toggled(s), hasOnComplete) == []
    ensures Ticked(Toggled(s)) == Toggled(s)
  {
  }

  /** The minus control is disabled at five minutes or less. */
  predicate MinusEnabled(s: TimerState) {
    s.time > 300
  }

  /** An enabled minus control takes exactly five minutes off and leaves time on the clock. */
  lemma MinusStaysPositive(s: TimerState)
    requires MinusEnabled(s)
    ensures TimeAdded(s, -Step * 60).time == s.time - 300 > 0
  {
  }

  /** The component: the hook it renders and the calls its completion effect made. */
  class TimerView {
    const timer: Timer
    const hasOnComplete: bool
    var calls: seq<Call>

    /**
     * Mounts the component with `initialTime` seconds; the effect runs once
     * after the first render, and reacts when the initial time is zero.
     */
    constructor(initialTime: int := DefaultInitialTime, hasOnComplete: bool := false)
      ensures fresh(timer)
      ensures timer.initialTime == initialTime && timer.State() == Initial(initialTime)
      ensures this.hasOnComplete == hasOnComplete
      ensures calls == EffectCalls(Initial(initialTime), hasOnComplete)
    {
      var hook := new Timer(initialTime);
      timer := hook;
      this.hasOnComplete := hasOnComplete;
      calls := if hook.IsCompleted() then Reaction(hasOnComplete) else [];
    }

    /** A render after a state change, with the completion effect it runs. */
    method Rerender(before: TimerState)
      modifies this
      ensures calls == old(calls) + (if timer.State() != before then EffectCalls(timer.State(), hasOnComplete) else [])
    {
      if timer.State() != before && timer.IsCompleted() {
        calls := calls + Reaction(hasOnComplete);
      }
    }

    /** The play/pause button. */
    method Toggle()
      modifies this, timer
      ensures timer.State() == Toggled(old(timer.State()))
      ensures calls == old(calls) + (if timer.State() != old(timer.State()) then EffectCalls(timer.State(), hasOnComplete) else [])
    {
      var before := timer.State();
      if timer.isActive && !timer.isPaused {
        timer.Pause();
      } else if timer.isPaused {
        timer.Resume();
      } else {
        timer.Start();
      }
      Rerender(before);
    }

    /** The reset button. */
    method HandleReset()
      modifies this, timer
      ensures timer.State() == Initial(timer.initialTime)
      ensures calls == old(calls) + (if timer.State() != old(timer.State()) then EffectCalls(timer.State(), hasOnComplete) else [])
    {
      var before := timer.State();
      timer.Reset();
      Rerender(before);
    }

    /** `addMinutes(minutes)`: `addTime(minutes * 60)`. */
    method AddMinutes(minutes: int)
      modifies this, timer
      ensures timer.State() == TimeAdded(old(timer.State()), minutes * 60)
      ensures calls == old(calls) + (if timer.State() != old(timer.State()) then EffectCalls(timer.State(), hasOnComplete) else [])
    {
      var before := timer.State();
      timer.AddTime(minutes * 60);
      Rerender(before);
    }

    /** The minus control, clickable only while it is enabled. */
    method MinusFive()
      requires MinusEnabled(timer.State())
      modifies this, timer
      ensures timer.time == old(timer.time) - 300 > 0
      ensures timer.isActive == old(timer.isActive) && timer.isPaused == old(timer.isPaused)
      ensures calls == old(calls)
    {
      AddMinutes(-Step);
    }

    /** The plus control. */
    method PlusFive()
      modifies this, timer
      ensures timer.State() == TimeAdded(old(timer.State()), 300)
      ensures calls == old(calls) + (if timer.State() != old(timer.State()) then EffectCalls(timer.State(), hasOnComplete) else [])
    {
      AddMinutes(Step);
    }

    /** One second of the hook's interval. */
    method Tick()
      modifies this, timer
      ensures timer.State() == Ticked(old(timer.State()))
      ensures calls == old(calls) + (if timer.State() != old(timer.State()) then EffectCalls(timer.State(), hasOnComplete) else [])
    {
      var before := timer.State();
      timer.Tick();
      Rerender(before);
    }
  }

  /**
   * A two-second timer with an `onComplete` callback, started and left to
   * run out: the effect notifies and calls back exactly once, when the last
   * second ends.
   */
  method RunOut() returns (calls: seq<Call>)
    ensures calls == [NotifyTimerComplete, OnComplete]
  {
    var view := new TimerView(2, true);
    view.Toggle();
    view.Tick();
    view.Tick();
    calls := view.calls;
  }

  /** Starting a completed timer again does not react; it is running, not completed. */
  method RestartCompleted() returns (calls: seq<Call>)
    ensures calls == [NotifyTimerComplete]
  {
    var view := new TimerView(0);
    view.Toggle();
    view.Tick();
    calls := view.calls;
  }
}
