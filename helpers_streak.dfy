/**
 * `calculateStreak` of src/utils/helpers.js over whole days: a date is a day
 * number, `today` is the day number of the current date at midnight, and
 * the day difference of two midnights is the difference of their numbers.
 *
 * The code sorts the dates newest first, then walks them with a counter
 * `streak` and a reference day that starts at today. A date exactly
 * `streak` days before the reference day extends the streak AND moves the
 * reference day back one day; a date further back stops the walk; a date
 * closer (a duplicate or a future date) is skipped. Because the reference
 * day moves and the distance compared also grows, the days counted are
 * today, today - 2, today - 4, ...: `CalculateStreak` models that as written.
 * `CalculateStreakConsecutive` is the evidently intended count of
 * consecutive days ending today.
 */
module HelpersStreak {
  import opened Text
  import HelpersCollections

  /**
   * The number of days `day`, `day - step`, `day - 2 * step`, ... that are
   * all among the dates, stopping at the first one that is not.
   */
  function Run(dates: seq<int>, day: int, step: nat): (k: nat)
    requires step > 0
    decreases if day in dates then day - Lowest(dates) + 1 else 0
  {
    if day in dates then
      LowestBound(dates, day);
      1 + Run(dates, day - step, step)
    else 0
  }

  function Lowest(s: seq<int>): int
    requires |s| > 0
  {
    if |s| == 1 then s[0]
    else var m := Lowest(s[1..]); if s[0] < m then s[0] else m
  }

  lemma {:induction false} LowestBound(s: seq<int>, x: int)
    requires x in s
    ensures Lowest(s) <= x
  {
    if |s| > 1 && x != s[0] {
      LowestBound(s[1..], x);
    }
  }

  /** The `i`-th day of the walk from `day` back in steps of `step`. */
  function WalkDay(day: int, step: nat, i: nat): int {
    day - step * i
  }

  lemma WalkShift(day: int, step: nat, i: nat)
    ensures WalkDay(day, step, i + 1) == WalkDay(day - step, step, i)
  {
    assert step * (i + 1) == step * i + step;
  }

  /** All of the first `k` days of the walk from `day` are dates. */
  predicate Walked(dates: seq<int>, day: int, step: nat, k: nat) {
    forall i :: 0 <= i < k ==> WalkDay(day, step, i) in dates
  }

  lemma WalkedShift(dates: seq<int>, day: int, step: nat, k: nat)
    requires k > 0
    ensures Walked(dates, day, step, k) <==> day in dates && Walked(dates, day - step, step, k - 1)
  {
    assert WalkDay(day, step, 0) == day;
    var prev := day - step;
    if Walked(dates, day, step, k) {
      forall i | 0 <= i < k - 1
        ensures WalkDay(prev, step, i) in dates
      {
        WalkShift(day, step, i);
      }
    }
    if day in dates && Walked(dates, day - step, step, k - 1) {
      forall i | 0 < i < k ensures WalkDay(day, step, i) in dates {
        WalkShift(day, step, i - 1);
      }
    }
  }

  /**
   * `Run` is the unique count `k` such that the first `k` days of the walk
   * are all dates and the next one is not.
   */
  lemma {:induction false} RunCharacterized(dates: seq<int>, day: int, step: nat, k: nat)
    requires step > 0
    ensures k == Run(dates, day, step)
        <==> Walked(dates, day, step, k) && WalkDay(day, step, k) !in dates
    decreases if day in dates then day - Lowest(dates) + 1 else 0
  {
    assert WalkDay(day, step, 0) == day;
    if k > 0 {
      WalkedShift(dates, day, step, k);
      WalkShift(day, step, k - 1);
      if day in dates {
        LowestBound(dates, day);
        RunCharacterized(dates, day - step, step, k - 1);
      }
    }
  }

  /** At most one counted day per date. */
  lemma {:induction false} RunBound(dates: seq<int>, day: int, step: nat)
    requires step > 0
    ensures Run(dates, day, step) <= AtMost(dates, day)
    decreases if day in dates then day - Lowest(dates) + 1 else 0
  {
    if day in dates {
      LowestBound(dates, day);
      RunBound(dates, day - step, step);
      AtMostGrows(dates, day - step, day);
    }
  }

  /** The number of dates not after `day`. */
  function AtMost(dates: seq<int>, day: int): (n: nat)
    ensures n <= |dates|
  {
    if dates == [] then 0
    else AtMost(dates[1..], day) + (if dates[0] <= day then 1 else 0)
  }

  lemma {:induction false} AtMostGrows(dates: seq<int>, a: int, b: int)
    requires a < b
    ensures AtMost(dates, b) >= AtMost(dates, a) + (if b in dates then 1 else 0)
  {
    if dates != [] {
      AtMostGrows(dates[1..], a, b);
      assert b in dates <==> b == dates[0] || b in dates[1..] by {
        assert dates == [dates[0]] + dates[1..];
      }
    }
  }

  /**
   * `calculateStreak(studyDates)` as written: an absent or empty list gives
   * 0; otherwise the count of days today, today - 2, today - 4, ... that are
   * all among the dates.
   */
  method CalculateStreak(studyDates: Option<seq<int>>, today: int) returns (streak: nat)
    ensures studyDates.None? ==> streak == 0
    ensures studyDates.Some? ==> streak == Run(studyDates.value, today, 2)
    ensures studyDates.Some? ==> streak <= |studyDates.value|
  {
    if studyDates.None? || |studyDates.value| == 0 {
      return 0;
    }
    var dates := studyDates.value;
    var sorted := HelpersCollections.SortBy(dates, d => d, "desc");
    streak := 0;
    var current := today;
    var n := 0;
    while n < |sorted|
      invariant 0 <= n <= |sorted| && streak <= n
      invariant current == today - streak
      invariant Walked(sorted[..n], today, 2, streak)
      invariant forall j :: 0 <= j < n ==> sorted[j] > today - 2 * streak
    {
      var diff := current - sorted[n];
      if diff == streak {
        streak := streak + 1;
        current := current - 1;
      } else if diff > streak {
        forall j | n <= j < |sorted|
          ensures sorted[j] < today - 2 * streak
        {
          assert HelpersCollections.InOrder(sorted[n], sorted[j], true) || j == n;
        }
        break;
      }
      assert sorted[..n + 1] == sorted[..n] + [sorted[n]];
      n := n + 1;
    }
    StreakResult(dates, sorted, today, 2, streak, n);
  }

  /**
   * The count the streak is evidently meant to be: the consecutive days
   * ending today that are all among the dates. It is `calculateStreak` with
   * the reference day kept at today.
   */
  method CalculateStreakConsecutive(studyDates: Option<seq<int>>, today: int) returns (streak: nat)
    ensures studyDates.None? ==> streak == 0
    ensures studyDates.Some? ==> streak == Run(studyDates.value, today, 1)
    ensures studyDates.Some? ==> streak <= |studyDates.value|
  {
    if studyDates.None? || |studyDates.value| == 0 {
      return 0;
    }
    var dates := studyDates.value;
    var sorted := HelpersCollections.SortBy(dates, d => d, "desc");
    streak := 0;
    var n := 0;
    while n < |sorted|
      invariant 0 <= n <= |sorted| && streak <= n
      invariant Walked(sorted[..n], today, 1, streak)
      invariant forall j :: 0 <= j < n ==> sorted[j] > today - streak
    {
      var diff := today - sorted[n];
      if diff == streak {
        streak := streak + 1;
      } else if diff > streak {
        forall j | n <= j < |sorted|
          ensures sorted[j] < today - streak
        {
          assert HelpersCollections.InOrder(sorted[n], sorted[j], true) || j == n;
        }
        break;
      }
      assert sorted[..n + 1] == sorted[..n] + [sorted[n]];
      n := n + 1;
    }
    StreakResult(dates, sorted, today, 1, streak, n);
  }

  /** What both walks establish about their final count, restated as `Run`. */
  lemma StreakResult(dates: seq<int>, sorted: seq<int>, today: int, step: nat, streak: nat, n: nat)
    requires step > 0 && multiset(sorted) == multiset(dates)
    requires 0 <= n <= |sorted| && streak <= n
    requires Walked(sorted[..n], today, step, streak)
    requires forall j :: 0 <= j < |sorted| ==> sorted[j] != WalkDay(today, step, streak)
    ensures streak == Run(dates, today, step)
    ensures streak <= |dates|
  {
    forall x | x in sorted ensures x in dates {
      assert x in multiset(sorted);
    }
    forall x | x in dates ensures x in sorted {
      assert x in multiset(dates);
    }
    assert |sorted| == |multiset(sorted)| == |dates|;
    forall i | 0 <= i < streak ensures WalkDay(today, step, i) in dates {
      assert WalkDay(today, step, i) in sorted[..n];
    }
    RunCharacterized(dates, today, step, streak);
  }

  /**
   * The day dates today and yesterday make a streak of two consecutive days,
   * but the walk as written counts one: after today the reference day is
   * yesterday, and yesterday is then zero days away, not the one day the
   * walk looks for.
   */
  lemma StreakTodayAndYesterday(today: int)
    ensures Run([today, today - 1], today, 2) == 1
    ensures Run([today, today - 1], today, 1) == 2
  {
    var dates := [today, today - 1];
    assert today - 2 !in dates;
    assert Run(dates, today - 2, 2) == 0;
    assert Run(dates, today - 2, 1) == 0;
    assert Run(dates, today - 1, 1) == 1;
  }

  /** With no date today or later, both counts are zero. */
  lemma StreakNeedsToday(dates: seq<int>, today: int, step: nat)
    requires step > 0
    requires forall i :: 0 <= i < |dates| ==> dates[i] < today
    ensures Run(dates, today, step) == 0
  {
    assert today !in dates;
  }

  /** Either count is at most the number of dates. */
  lemma {:induction false} RunBoundedByDates(dates: seq<int>, today: int, step: nat)
    requires step > 0
    ensures Run(dates, today, step) <= |dates|
  {
    RunBound(dates, today, step);
  }
}
