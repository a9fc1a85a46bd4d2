/**
 * The reading countdown written twice, in src/screens/ReadingModeScreen.jsx
 * (web) and screens/ReadingScreen.js (native): separate hours, minutes and
 * seconds fields that count down once a second while active, borrowing from
 * the minutes and then the hours, a play/pause toggle, a reset to 0:25:00,
 * and a subject switch. The two screens differ only in their initial
 * activity: the web screen starts paused, the native one running. The
 * one-second interval is the `Tick` operation, called explicitly.
 */
module Reading {
  import opened Text
  import HelpersFormat

  /** `initialSeconds`: the 25-minute session. */
  const SessionSeconds: nat := 1500

  datatype Clock = Clock(hours: nat, minutes: nat, seconds: nat)

  /** `totalSeconds`. */
  function Total(c: Clock): nat {
    c.hours * 3600 + c.minutes * 60 + c.seconds
  }

  /** Minutes and seconds within [0, 59]. */
  predicate Bounded(c: Clock) {
    c.minutes < 60 && c.seconds < 60
  }

  /** The state the reset button and the mount give: 0:25:00. */
  const Session: Clock := Clock(0, 25, 0)

  /** The fields one interval callback leaves, borrowing 59 where a field runs out. */
  function Ticked(c: Clock): Clock {
    if c.seconds > 0 then c.(seconds := c.seconds - 1)
    else if c.minutes > 0 then c.(minutes := c.minutes - 1, seconds := 59)
    else if c.hours > 0 then Clock(c.hours - 1, 59, 59)
    else c
  }

  /** The canonical fields of `t` seconds. */
  function ClockOf(t: nat): (c: Clock)
    ensures Bounded(c) && Total(c) == t
  {
    HelpersFormat.ClockArithmetic(t);
    Clock(t / 3600, (t % 3600) / 60, t % 60)
  }

  lemma DivModUnique(t: nat, d: nat, q: nat, r: nat)
    requires d > 0 && r < d && t == q * d + r
    ensures t / d == q && t % d == r
  {
    var q', r' := t / d, t % d;
    assert q' * d + r' == q * d + r;
    if q' < q {
      MulLess(q', q, d);
    } else if q' > q {
      MulLess(q, q', d);
    }
  }

  lemma MulLess(a: nat, b: nat, d: nat)
    requires a < b && d > 0
    ensures a * d + d <= b * d
  {
    HelpersFormat.MulMonotone(a + 1, b, d);
    assert (a + 1) * d == a * d + d;
  }

  /** Bounded fields are the canonical fields of their total. */
  lemma CanonicalClock(c: Clock)
    requires Bounded(c)
    ensures ClockOf(Total(c)) == c
  {
    var t := Total(c);
    var r := c.minutes * 60 + c.seconds;
    assert r < 3600;
    DivModUnique(t, 3600, c.hours, r);
    DivModUnique(r, 60, c.minutes, c.seconds);
    assert t % 60 == c.seconds by {
      DivModUnique(t, 60, c.hours * 60 + c.minutes, c.seconds);
    }
  }

  /**
   * While time remains, a tick takes exactly one second off the total and
   * keeps minutes and seconds within [0, 59]: it gives the canonical fields
   * of the previous second.
   */
  lemma TickCountsDown(c: Clock)
    requires Bounded(c) && Total(c) > 0
    ensures Bounded(Ticked(c)) && Total(Ticked(c)) == Total(c) - 1
    ensures Ticked(c) == ClockOf(Total(c) - 1)
  {
    CanonicalClock(Ticked(c));
  }

  /** A tick at 0:00:00 leaves every field at zero. */
  lemma TickAtZero(c: Clock)
    requires Total(c) == 0
    ensures Ticked(c) == c == Clock(0, 0, 0)
  {
    HelpersFormat.MulMonotone(1, 3600, c.hours);
    HelpersFormat.MulMonotone(1, 60, c.minutes);
  }

  /**
   * `progress`: the share of the 25-minute session that has elapsed, in
   * percent.
   */
  function Progress(c: Clock): real {
    ((SessionSeconds as real - Total(c) as real) / SessionSeconds as real) * 100.0
  }

  /** The progress is 0 at 0:25:00, 100 at zero, and each tick adds 1/15 of a percent. */
  lemma ProgressSteps(c: Clock)
    requires Bounded(c)
    ensures Progress(Session) == 0.0
    ensures Total(c) == 0 ==> Progress(c) == 100.0
    ensures Total(c) > 0 ==> Progress(Ticked(c)) == Progress(c) + 1.0 / 15.0
  {
    if Total(c) > 0 {
      TickCountsDown(c);
    }
  }

  /**
   * The `HH:MM:SS` text of the screen: every field through `formatNumber`,
   * the hours always shown. Its fields are the hours, minutes and seconds in
   * that order, and it reads back as the total.
   */
  function Display(c: Clock): (text: string)
    ensures HelpersFormat.DecodeClock(text) == Some(Total(c))
    ensures |Split(text, ':')| == 3
    ensures forall i :: 0 <= i < 3 ==> 2 <= |Split(text, ':')[i]|
    ensures Split(text, ':') == [PadTwo(c.hours), PadTwo(c.minutes), PadTwo(c.seconds)]
    ensures c.hours < 100 && c.minutes < 100 && c.seconds < 100 ==> |text| == 8
  {
    HelpersFormat.DecodeThreeFields(PadTwo(c.hours), PadTwo(c.minutes), PadTwo(c.seconds));
    PadTwo(c.hours) + ":" + PadTwo(c.minutes) + ":" + PadTwo(c.seconds)
  }

  /** The screen's state, changed in place by its handlers. */
  class ReadingTimer {
    var hours: nat
    var minutes: nat
    var seconds: nat
    var isActive: bool
    var currentSubject: string
    var nextSubject: string

    function Fields(): Clock
      reads this
    {
      Clock(hours, minutes, seconds)
    }

    ghost predicate Valid()
      reads this
    {
      Bounded(Fields())
    }

    /** The web screen: 0:25:00, paused, reading Biology with Math next. */
    constructor WebScreen()
      ensures Fields() == Session && !isActive && Valid()
      ensures currentSubject == "Biology" && nextSubject == "Math"
    {
      hours, minutes, seconds := 0, 25, 0;
      isActive := false;
      currentSubject, nextSubject := "Biology", "Math";
    }

    /** The native screen: the same, but already running. */
    constructor NativeScreen()
      ensures Fields() == Session && isActive && Valid()
      ensures currentSubject == "Biology" && nextSubject == "Math"
    {
      hours, minutes, seconds := 0, 25, 0;
      isActive := true;
      currentSubject, nextSubject := "Biology", "Math";
    }

    /** One interval callback; the interval exists only while active. */
    method Tick()
      modifies this
      ensures Fields() == if old(isActive) then Ticked(old(Fields())) else old(Fields())
      ensures isActive == (old(isActive) && Total(old(Fields())) > 0)
      ensures currentSubject == old(currentSubject) && nextSubject == old(nextSubject)
      ensures old(Valid()) ==> Valid()
    {
      if isActive {
        if seconds > 0 {
          seconds := seconds - 1;
        } else if minutes > 0 {
          minutes := minutes - 1;
          seconds := 59;
        } else if hours > 0 {
          hours := hours - 1;
          minutes := 59;
          seconds := 59;
        } else {
          isActive := false;
        }
      }
    }

    method Toggle()
      modifies this
      ensures isActive == !old(isActive)
      ensures Fields() == old(Fields())
      ensures currentSubject == old(currentSubject) && nextSubject == old(nextSubject)
    {
      isActive := !isActive;
    }

    method Reset()
      modifies this
      ensures Fields() == Session && !isActive && Valid()
      ensures currentSubject == old(currentSubject) && nextSubject == old(nextSubject)
    {
      isActive := false;
      hours, minutes, seconds := 0, 25, 0;
    }

    /** The next subject becomes the current one, "Chemistry" comes next, and the timer resets. */
    method HandleSubjectChange()
      modifies this
      ensures currentSubject == old(nextSubject) && nextSubject == "Chemistry"
      ensures Fields() == Session && !isActive && Valid()
    {
      currentSubject := nextSubject;
      nextSubject := "Chemistry";
      Reset();
    }
  }
}
