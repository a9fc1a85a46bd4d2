/**
 * The formatting and study helpers of src/utils/helpers.js: clock and duration
 * text, the capped progress percentage, and the study level ladder.
 */
module HelpersFormat {
  import opened Text

  /**
   * `formatTime(seconds)`: `HH:MM:SS` when there is at least one whole hour,
   * `MM:SS` otherwise, every field zero-padded to two digits.
   */
  function FormatTime(seconds: nat): (text: string)
    ensures forall i :: 0 <= i < |text| ==> IsDigit(text[i]) || text[i] == ':'
    ensures seconds < 360000 ==> |text| == if seconds >= 3600 then 8 else 5
  {
    var hours := seconds / 3600;
    var minutes := (seconds % 3600) / 60;
    var secs := seconds % 60;
    if hours > 0 then PadTwo(hours) + ":" + PadTwo(minutes) + ":" + PadTwo(secs)
    else PadTwo(minutes) + ":" + PadTwo(secs)
  }

  /** Reads a clock text `M:S` or `H:M:S` back into seconds. */
  function DecodeClock(text: string): Option<nat> {
    DecodeClockFields(Split(text, ':'))
  }

  /** Reads the fields of a clock text, most significant first. */
  function DecodeClockFields(fields: seq<string>): Option<nat> {
    if |fields| == 2 && AllDigits(fields[0]) && AllDigits(fields[1]) then
      Some(ParseDecimal(fields[0]) * 60 + ParseDecimal(fields[1]))
    else if |fields| == 3 && AllDigits(fields[0]) && AllDigits(fields[1]) && AllDigits(fields[2]) then
      Some(ParseDecimal(fields[0]) * 3600 + ParseDecimal(fields[1]) * 60 + ParseDecimal(fields[2]))
    else None
  }

  /** The three fields `h`, `m`, `s` joined by colons split back into themselves. */
  lemma SplitClock3(h: string, m: string, s: string)
    requires AllDigits(h) && AllDigits(m) && AllDigits(s)
    ensures Split(h + ":" + m + ":" + s, ':') == [h, m, s]
  {
    DigitsHaveNo(h, ':');
    DigitsHaveNo(m, ':');
    DigitsHaveNo(s, ':');
    assert h + ":" + m + ":" + s == h + [':'] + (m + [':'] + s);
    SplitField(h, ':', m + [':'] + s);
    SplitField(m, ':', s);
    SplitWhole(s, ':');
  }

  /** The two fields `m`, `s` joined by a colon split back into themselves. */
  lemma SplitClock2(m: string, s: string)
    requires AllDigits(m) && AllDigits(s)
    ensures Split(m + ":" + s, ':') == [m, s]
  {
    DigitsHaveNo(m, ':');
    DigitsHaveNo(s, ':');
    SplitField(m, ':', s);
    SplitWhole(s, ':');
  }

  /** Seconds split into hours, minutes of the hour and seconds of the minute. */
  lemma ClockArithmetic(seconds: nat)
    ensures (seconds % 3600) / 60 < 60
    ensures seconds / 3600 * 3600 + (seconds % 3600) / 60 * 60 + seconds % 60 == seconds
  {
    var r := seconds % 3600;
    assert seconds == seconds / 3600 * 3600 + r;
    assert r == r / 60 * 60 + r % 60;
    assert seconds % 60 == r % 60 by {
      assert seconds == (seconds / 3600 * 60) * 60 + r;
      ModShift(seconds / 3600 * 60, r);
    }
  }

  lemma ModShift(k: nat, r: nat)
    ensures (k * 60 + r) % 60 == r % 60
  {
    var n := k * 60 + r;
    assert n == (k + r / 60) * 60 + r % 60;
  }

  /** Three digit fields joined by colons read as hours, minutes and seconds. */
  lemma DecodeThreeFields(h: string, m: string, s: string)
    requires AllDigits(h) && AllDigits(m) && AllDigits(s)
    ensures Split(h + ":" + m + ":" + s, ':') == [h, m, s]
    ensures DecodeClock(h + ":" + m + ":" + s)
         == Some(ParseDecimal(h) * 3600 + ParseDecimal(m) * 60 + ParseDecimal(s))
  {
    SplitClock3(h, m, s);
    ThreeFieldsRead(h, m, s);
  }

  lemma ThreeFieldsRead(h: string, m: string, s: string)
    requires AllDigits(h) && AllDigits(m) && AllDigits(s)
    ensures DecodeClockFields([h, m, s]) == Some(ParseDecimal(h) * 3600 + ParseDecimal(m) * 60 + ParseDecimal(s))
  {
    var fields := [h, m, s];
    assert |fields| == 3 && fields[0] == h && fields[1] == m && fields[2] == s;
  }

  /** Two digit fields joined by a colon read as minutes and seconds. */
  lemma DecodeTwoFields(m: string, s: string)
    requires AllDigits(m) && AllDigits(s)
    ensures Split(m + ":" + s, ':') == [m, s]
    ensures DecodeClock(m + ":" + s) == Some(ParseDecimal(m) * 60 + ParseDecimal(s))
  {
    SplitClock2(m, s);
    assert [m, s][0] == m && [m, s][1] == s;
  }

  /**
   * The clock text reads back as the seconds it was made from; it has three
   * fields exactly when there is at least one hour, and the minutes and
   * seconds fields are exactly two digits. Field by field, the text holds the
   * whole hours (only from one hour on), the minutes within the hour and the
   * seconds within the minute, each zero-padded.
   */
  lemma {:induction false} FormatTimeRoundTrip(seconds: nat)
    ensures DecodeClock(FormatTime(seconds)) == Some(seconds)
    ensures |Split(FormatTime(seconds), ':')| == if seconds >= 3600 then 3 else 2
    ensures var parts := Split(FormatTime(seconds), ':');
            |parts[|parts| - 1]| == 2 && |parts[|parts| - 2]| == 2 && 2 <= |parts[0]|
    ensures Split(FormatTime(seconds), ':')
         == (if seconds >= 3600 then [PadTwo(seconds / 3600)] else [])
            + [PadTwo((seconds % 3600) / 60), PadTwo(seconds % 60)]
  {
    var hours := seconds / 3600;
    var minutes := (seconds % 3600) / 60;
    var secs := seconds % 60;
    assert minutes < 60 && hours * 3600 + minutes * 60 + secs == seconds by {
      ClockArithmetic(seconds);
    }
    assert hours > 0 <==> seconds >= 3600 by {
      if hours > 0 { MulMonotone(1, hours, 3600); }
    }
    var a, b := PadTwo(minutes), PadTwo(secs);
    if hours > 0 {
      var c := PadTwo(hours);
      assert FormatTime(seconds) == c + ":" + a + ":" + b;
      ThreeFieldClock(hours, minutes, secs);
      assert [c] + [a, b] == [c, a, b];
    } else {
      assert FormatTime(seconds) == a + ":" + b;
      TwoFieldClock(minutes, secs);
      assert [] + [a, b] == [a, b];
    }
  }

  lemma ThreeFieldClock(h: nat, m: nat, s: nat)
    requires m < 60 && s < 60
    ensures var text := PadTwo(h) + ":" + PadTwo(m) + ":" + PadTwo(s);
            DecodeClock(text) == Some(h * 3600 + m * 60 + s)
            && Split(text, ':') == [PadTwo(h), PadTwo(m), PadTwo(s)]
            && 2 <= |PadTwo(h)| && |PadTwo(m)| == 2 && |PadTwo(s)| == 2
  {
    DecodeThreeFields(PadTwo(h), PadTwo(m), PadTwo(s));
  }

  lemma TwoFieldClock(m: nat, s: nat)
    requires m < 60 && s < 60
    ensures var text := PadTwo(m) + ":" + PadTwo(s);
            DecodeClock(text) == Some(m * 60 + s)
            && Split(text, ':') == [PadTwo(m), PadTwo(s)]
            && |PadTwo(m)| == 2 && |PadTwo(s)| == 2
  {
    DecodeTwoFields(PadTwo(m), PadTwo(s));
  }

  /** Two-digit fields of small values, as the examples below need them. */
  lemma PadTwoSmall(n: nat)
    requires n < 10
    ensures PadTwo(n) == ['0', DigitChar(n)]
  {
    assert ToDecimal(n) == [DigitChar(n)];
    assert PadStart([DigitChar(n)], 2, '0') == PadStart(['0', DigitChar(n)], 2, '0');
  }

  /** `formatTime(3661)` is `"01:01:01"`, `formatTime(65)` is `"01:05"`, `formatTime(5)` is `"00:05"`. */
  lemma FormatTimeExamples()
    ensures FormatTime(3661) == "01:01:01"
    ensures FormatTime(65) == "01:05"
    ensures FormatTime(5) == "00:05"
  {
    PadTwoSmall(0);
    PadTwoSmall(1);
    PadTwoSmall(5);
    assert DigitChar(0) == '0' && DigitChar(1) == '1' && DigitChar(5) == '5';
    assert 3661 / 3600 == 1 && (3661 % 3600) / 60 == 1 && 3661 % 60 == 1;
    assert 65 / 3600 == 0 && (65 % 3600) / 60 == 1 && 65 % 60 == 5;
    assert 5 / 3600 == 0 && (5 % 3600) / 60 == 0 && 5 % 60 == 5;
    assert FormatTime(3661) == PadTwo(1) + ":" + PadTwo(1) + ":" + PadTwo(1);
    assert FormatTime(65) == PadTwo(1) + ":" + PadTwo(5);
    assert FormatTime(5) == PadTwo(0) + ":" + PadTwo(5);
  }

  /**
   * `formatDuration(minutes)`: `"{m}m"` below an hour, otherwise whole hours
   * `"{h}h"` or `"{h}h {r}m"` when minutes remain.
   */
  function FormatDuration(minutes: nat): (text: string)
    ensures 2 <= |text|
    ensures text[|text| - 1] == if minutes >= 60 && minutes % 60 == 0 then 'h' else 'm'
  {
    if minutes < 60 then ToDecimal(minutes) + "m"
    else
      var hours := minutes / 60;
      var remainingMinutes := minutes % 60;
      if remainingMinutes > 0 then ToDecimal(hours) + "h " + ToDecimal(remainingMinutes) + "m"
      else ToDecimal(hours) + "h"
  }

  /** Reads one `"{n}h"` or `"{n}m"` field as minutes. */
  function ParseUnit(field: string): Option<nat> {
    if 2 <= |field| && AllDigits(field[..|field| - 1]) then
      var n := ParseDecimal(field[..|field| - 1]);
      if field[|field| - 1] == 'm' then Some(n)
      else if field[|field| - 1] == 'h' then Some(n * 60)
      else None
    else None
  }

  /** Reads a duration text `"{m}m"`, `"{h}h"` or `"{h}h {m}m"` back into minutes. */
  function ParseDuration(text: string): Option<nat> {
    ParseDurationFields(Split(text, ' '))
  }

  /** Reads the space-separated fields of a duration text. */
  function ParseDurationFields(fields: seq<string>): Option<nat> {
    if |fields| == 1 then ParseUnit(fields[0])
    else if |fields| == 2 && 2 <= |fields[0]| && fields[0][|fields[0]| - 1] == 'h'
            && 2 <= |fields[1]| && fields[1][|fields[1]| - 1] == 'm' then
      match (ParseUnit(fields[0]), ParseUnit(fields[1]))
      case (Some(h), Some(m)) => Some(h + m)
      case _ => None
    else None
  }

  lemma DigitsHaveNo(s: string, c: char)
    requires AllDigits(s) && !IsDigit(c)
    ensures c !in s
  {
    assert forall i :: 0 <= i < |s| ==> s[i] != c;
  }

  lemma UnitField(n: nat, u: char)
    ensures var f := ToDecimal(n) + [u];
            2 <= |f| && f[|f| - 1] == u && f[..|f| - 1] == ToDecimal(n)
  {
    var f := ToDecimal(n) + [u];
    assert f[..|f| - 1] == ToDecimal(n);
  }

  /** A number followed by the unit `u` is a single field that reads back. */
  lemma UnitFieldReads(n: nat, u: char)
    requires u == 'm' || u == 'h'
    ensures var f := ToDecimal(n) + [u];
            ' ' !in f && Split(f, ' ') == [f]
            && ParseUnit(f) == Some(if u == 'm' then n else n * 60)
  {
    var f := ToDecimal(n) + [u];
    UnitField(n, u);
    DigitsHaveNo(ToDecimal(n), ' ');
    assert ' ' !in f;
    SplitWhole(f, ' ');
  }

  lemma DurationUnderAnHour(minutes: nat)
    requires minutes < 60
    ensures Split(FormatDuration(minutes), ' ') == [ToDecimal(minutes) + "m"]
    ensures ParseDuration(FormatDuration(minutes)) == Some(minutes)
    ensures 'h' !in FormatDuration(minutes)
  {
    UnitFieldReads(minutes, 'm');
    DigitsHaveNo(ToDecimal(minutes), 'h');
  }

  lemma DurationWholeHours(minutes: nat)
    requires minutes >= 60 && minutes % 60 == 0
    ensures Split(FormatDuration(minutes), ' ') == [ToDecimal(minutes / 60) + "h"]
    ensures ParseDuration(FormatDuration(minutes)) == Some(minutes)
    ensures 'h' in FormatDuration(minutes)
  {
    var hf := ToDecimal(minutes / 60) + "h";
    UnitFieldReads(minutes / 60, 'h');
    assert FormatDuration(minutes) == hf;
    assert hf[|hf| - 1] == 'h';
  }

  /** `"{h}h {r}m"` splits into its two unit fields. */
  lemma HoursAndMinutesFields(h: nat, r: nat, text: string)
    requires text == ToDecimal(h) + "h " + ToDecimal(r) + "m"
    ensures Split(text, ' ') == [ToDecimal(h) + "h", ToDecimal(r) + "m"]
  {
    var hf := ToDecimal(h) + "h";
    var mf := ToDecimal(r) + "m";
    UnitFieldReads(h, 'h');
    UnitFieldReads(r, 'm');
    assert text == hf + [' '] + mf;
    SplitField(hf, ' ', mf);
  }

  lemma TwoFieldsRead(hf: string, mf: string, a: nat, b: nat)
    requires 2 <= |hf| && hf[|hf| - 1] == 'h' && ParseUnit(hf) == Some(a)
    requires 2 <= |mf| && mf[|mf| - 1] == 'm' && ParseUnit(mf) == Some(b)
    ensures ParseDurationFields([hf, mf]) == Some(a + b)
  {
    var fields := [hf, mf];
    assert fields[0] == hf && fields[1] == mf;
  }

  lemma HoursAndMinutesReads(h: nat, r: nat, hf: string, mf: string)
    requires hf == ToDecimal(h) + "h" && mf == ToDecimal(r) + "m"
    ensures ParseDurationFields([hf, mf]) == Some(h * 60 + r)
  {
    assert ParseUnit(hf) == Some(h * 60) by { UnitFieldReads(h, 'h'); }
    assert ParseUnit(mf) == Some(r) by { UnitFieldReads(r, 'm'); }
    assert 2 <= |hf| && hf[|hf| - 1] == 'h' by { UnitField(h, 'h'); }
    assert 2 <= |mf| && mf[|mf| - 1] == 'm' by { UnitField(r, 'm'); }
    TwoFieldsRead(hf, mf, h * 60, r);
  }

  lemma DurationHoursAndMinutes(minutes: nat)
    requires minutes >= 60 && minutes % 60 > 0
    ensures Split(FormatDuration(minutes), ' ') == [ToDecimal(minutes / 60) + "h", ToDecimal(minutes % 60) + "m"]
    ensures ParseDuration(FormatDuration(minutes)) == Some(minutes)
    ensures 'h' in FormatDuration(minutes)
  {
    var hours, rem := minutes / 60, minutes % 60;
    var text := FormatDuration(minutes);
    assert text == ToDecimal(hours) + "h " + ToDecimal(rem) + "m";
    HoursAndMinutesFields(hours, rem, text);
    HoursAndMinutesReads(hours, rem, ToDecimal(hours) + "h", ToDecimal(rem) + "m");
    assert text[|ToDecimal(hours)|] == 'h';
  }

  /**
   * The duration text reads back as the minutes it was made from, and it
   * mentions hours exactly when there is at least one.
   */
  lemma FormatDurationRoundTrip(minutes: nat)
    ensures ParseDuration(FormatDuration(minutes)) == Some(minutes)
    ensures 'h' in FormatDuration(minutes) <==> minutes >= 60
  {
    if minutes < 60 {
      DurationUnderAnHour(minutes);
    } else if minutes % 60 == 0 {
      DurationWholeHours(minutes);
    } else {
      DurationHoursAndMinutes(minutes);
    }
  }

  /**
   * `Math.round(n / d)`: the nearest integer, halves rounded up. For a
   * positive divisor Dafny's division is floor division; a negative divisor
   * is turned positive first.
   */
  function RoundDiv(n: int, d: int): (r: int)
    requires d != 0
    ensures d > 0 ==> 2 * d * r - d <= 2 * n < 2 * d * r + d
    ensures d < 0 ==> 2 * d * r - d >= 2 * n > 2 * d * r + d
  {
    if d > 0 then
      var q := (2 * n + d) / (2 * d);
      assert 2 * d * q <= 2 * n + d < 2 * d * q + 2 * d;
      q
    else
      var q := (-(2 * n + d)) / (-2 * d);
      assert -2 * d * q <= -(2 * n + d) < -2 * d * q - 2 * d;
      q
  }

  /** Rounding `n / d` gives at least `k` when `n` is at least `k * d`. */
  lemma RoundDivAtLeast(n: int, d: int, k: int)
    requires d > 0 && n >= k * d
    ensures RoundDiv(n, d) >= k
  {
    var r := RoundDiv(n, d);
    if r < k {
      MulMonotone(r, k - 1, 2 * d);
      assert false;
    }
  }

  lemma MulMonotone(a: int, b: int, c: int)
    requires a <= b && c >= 0
    ensures a * c <= b * c
  {
  }

  /**
   * `calculateProgress(current, target)`: 0 when the target is missing or 0,
   * otherwise the percentage of the target reached, rounded and capped at 100.
   */
  function CalculateProgress(current: int, target: Option<int>): (r: int)
    ensures r <= 100
    ensures target == None || target == Some(0) ==> r == 0
    ensures target.Some? && target.value > 0 && current >= target.value ==> r == 100
    ensures target.Some? && target.value > 0 && current >= 0 ==> r >= 0
    ensures target.Some? && target.value != 0 && r < 100 ==> r == RoundDiv(100 * current, target.value)
    ensures target.Some? && target.value != 0 && RoundDiv(100 * current, target.value) < 100
            ==> r == RoundDiv(100 * current, target.value)
  {
    match target
    case None => 0
    case Some(t) =>
      if t == 0 then 0
      else
        var rounded := RoundDiv(100 * current, t);
        assert t > 0 && current >= t ==> rounded >= 100 by {
          if t > 0 && current >= t { RoundDivAtLeast(100 * current, t, 100); }
        }
        assert t > 0 && current >= 0 ==> rounded >= 0 by {
          if t > 0 && current >= 0 { RoundDivAtLeast(100 * current, t, 0); }
        }
        if rounded < 100 then rounded else 100
  }

  /** Below the cap, the percentage never falls as the current amount grows. */
  lemma ProgressMonotone(c1: int, c2: int, t: int)
    requires t > 0 && c1 <= c2
    ensures CalculateProgress(c1, Some(t)) <= CalculateProgress(c2, Some(t))
  {
    RoundDivMonotone(100 * c1, 100 * c2, t);
  }

  /** Rounding `n / d` for a positive `d` is monotone in `n`. */
  lemma RoundDivMonotone(n1: int, n2: int, d: int)
    requires d > 0 && n1 <= n2
    ensures RoundDiv(n1, d) <= RoundDiv(n2, d)
  {
    var r1 := RoundDiv(n1, d);
    var r2 := RoundDiv(n2, d);
    assert (r2 + 1) * (2 * d) == 2 * d * r2 + 2 * d;
    assert r1 * (2 * d) == 2 * d * r1;
    if r1 > r2 {
      MulMonotone(r2 + 1, r1, 2 * d);
      assert false;
    }
  }

  datatype StudyLevel = Beginner | Intermediate | Advanced | Expert | Master

  /** The position of a level on the ladder. */
  function Rank(l: StudyLevel): nat {
    match l
    case Beginner => 0
    case Intermediate => 1
    case Advanced => 2
    case Expert => 3
    case Master => 4
  }

  /** The fewest hours that earn a level. */
  function MinHours(l: StudyLevel): real {
    match l
    case Beginner => 0.0
    case Intermediate => 10.0
    case Advanced => 50.0
    case Expert => 100.0
    case Master => 200.0
  }

  /** The next level up; Master has none. */
  function Next(l: StudyLevel): StudyLevel
    requires l != Master
  {
    match l
    case Beginner => Intermediate
    case Intermediate => Advanced
    case Advanced => Expert
    case Expert => Master
  }

  /** `getStudyLevel(totalHours)`: thresholds at 10, 50, 100 and 200 hours. */
  function GetStudyLevel(totalHours: real): (l: StudyLevel)
    ensures l != Beginner ==> MinHours(l) <= totalHours
    ensures l != Master ==> totalHours < MinHours(Next(l))
  {
    if totalHours < 10.0 then Beginner
    else if totalHours < 50.0 then Intermediate
    else if totalHours < 100.0 then Advanced
    else if totalHours < 200.0 then Expert
    else Master
  }

  /** More hours never give a lower level. */
  lemma StudyLevelMonotone(h1: real, h2: real)
    requires h1 <= h2
    ensures Rank(GetStudyLevel(h1)) <= Rank(GetStudyLevel(h2))
  {
  }
}
