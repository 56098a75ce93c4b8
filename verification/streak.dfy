/** The streak tracker of the Supabase-backed data layer: how one habit's
    `(current_streak, longest_streak, last_completion_date)` record changes when a
    completion is recorded for a given day, and what a history of completions adds up to. */
module Streak {
  import opened Wrappers
  import Dates

  /** One `habit_streaks` row, without its keys and timestamp. `lastDate` is `None`
      until the first completion. */
  datatype StreakState = StreakState(current: nat, longest: nat, lastDate: Option<int>)

  /** The zero record inserted alongside every new habit. */
  function Initial(): StreakState
  {
    StreakState(0, 0, None)
  }

  /** The invariant the tracker keeps: the longest streak is never below the current one. */
  predicate Valid(s: StreakState)
  {
    s.longest >= s.current
  }

  /** The streak record after a completion dated `date` (a day number). The day
      difference is taken, as the data layer does, from the two dates' midnight timestamps.
      A first completion starts a streak of 1; the next day extends it by one; a gap
      of more than one day restarts it at 1; the same day or an earlier day leaves
      the count alone. The longest streak absorbs the new count, and the last date
      becomes `date` in every case, even when `date` is earlier than it. */
  function Update(s: StreakState, date: int): (r: StreakState)
    ensures r.lastDate == Some(date)
    ensures s.lastDate.None? ==> r.current == 1
    ensures s.lastDate.Some? && date == s.lastDate.value + 1 ==> r.current == s.current + 1
    ensures s.lastDate.Some? && date > s.lastDate.value + 1 ==> r.current == 1
    ensures s.lastDate.Some? && date <= s.lastDate.value ==> r.current == s.current
    ensures r.longest >= s.longest && r.longest >= r.current
    ensures r.longest == s.longest || r.longest == r.current
  {
    var current :=
      (match s.lastDate
      case None => 1
      case Some(last) =>
        var daysDiff := Dates.DaysDiff(Dates.Midnight(date), Dates.Midnight(last));
        Dates.DaysDiffOfMidnights(date, last);
        if daysDiff == 1 then s.current + 1
        else if daysDiff > 1 then 1
        else s.current);
    var longest := if current > s.longest then current else s.longest;
    StreakState(current, longest, Some(date))
  }

  /** The record after completions on `dates`, in that order, starting from `s`. */
  function Replay(s: StreakState, dates: seq<int>): StreakState
  {
    if |dates| == 0 then s
    else Update(Replay(s, dates[..|dates| - 1]), dates[|dates| - 1])
  }

  /** The longest streak never decreases along a history, bounds every current
      streak seen on the way, and the invariant holds after any completion. */
  lemma {:induction false} ReplayLongestMonotone(s: StreakState, dates: seq<int>, k: nat)
    requires k <= |dates|
    ensures s.longest <= Replay(s, dates[..k]).longest <= Replay(s, dates).longest
    ensures k > 0 ==> Replay(s, dates[..k]).current <= Replay(s, dates).longest
    ensures |dates| > 0 ==> Valid(Replay(s, dates))
    decreases |dates|
  {
    if k == |dates| {
      assert dates[..k] == dates;
      if k > 0 {
        ReplayLongestMonotone(s, dates[..k - 1], k - 1);
        assert dates[..k - 1][..k - 1] == dates[..k - 1];
      }
    } else {
      var prefix := dates[..|dates| - 1];
      assert prefix[..k] == dates[..k];
      ReplayLongestMonotone(s, prefix, k);
    }
  }

  /** Starting from the zero record the invariant holds at every point of a history. */
  lemma ReplayFromInitialValid(dates: seq<int>)
    ensures Valid(Replay(Initial(), dates))
  {
    if |dates| > 0 {
      ReplayLongestMonotone(Initial(), dates, |dates|);
    }
  }

  predicate Sorted(dates: seq<int>)
  {
    forall i, j :: 0 <= i <= j < |dates| ==> dates[i] <= dates[j]
  }

  /** In the completion days `dates`, the `k` days ending at `last` are all present
      and the day before them is not: a run of exactly `k` consecutive days. */
  ghost predicate IsRunEndingAt(dates: seq<int>, last: int, k: nat)
  {
    (forall x :: last - k < x <= last ==> x in dates) && last - k !in dates
  }

  /** Recording the run's last day again leaves the run as it was. */
  lemma RunRepeatDay(dates: seq<int>, last: int, k: nat)
    requires IsRunEndingAt(dates, last, k) && last in dates
    ensures k >= 1 && IsRunEndingAt(dates + [last], last, k)
  {
    assert forall x :: x in dates + [last] <==> x in dates;
  }

  /** Recording the day after the run's last day lengthens the run by one. */
  lemma RunNextDay(dates: seq<int>, last: int, k: nat)
    requires IsRunEndingAt(dates, last, k)
    ensures IsRunEndingAt(dates + [last + 1], last + 1, k + 1)
  {
    var ds := dates + [last + 1];
    assert forall x :: x in ds <==> x in dates || x == last + 1;
    forall x | last + 1 - (k + 1) < x <= last + 1
      ensures x in ds
    {
      if x <= last {
        assert last - k < x;
      }
    }
  }

  /** Recording a day more than one past every recorded day starts a run of one. */
  lemma RunAfterGap(dates: seq<int>, last: int, d: int)
    requires forall x :: x in dates ==> x <= last
    requires d > last + 1
    ensures IsRunEndingAt(dates + [d], d, 1)
  {
    assert forall x :: x in dates + [d] <==> x in dates || x == d;
  }

  /** For completions recorded in date order, the current streak is exactly the
      number of consecutive calendar days with a completion that end at the latest
      one, whatever repeats the history holds. */
  lemma {:induction false} ReplayCountsTrailingRun(dates: seq<int>)
    requires |dates| > 0 && Sorted(dates)
    ensures Replay(Initial(), dates).lastDate == Some(dates[|dates| - 1])
    ensures IsRunEndingAt(dates, dates[|dates| - 1], Replay(Initial(), dates).current)
  {
    var n := |dates|;
    var d := dates[n - 1];
    var prefix := dates[..n - 1];
    assert dates == prefix + [d];
    if n == 1 {
      assert forall x :: x in dates <==> x == d;
    } else {
      var last := prefix[n - 2];
      ReplayCountsTrailingRun(prefix);
      var c := Replay(Initial(), prefix).current;
      assert dates[n - 2] <= dates[n - 1];
      if d == last {
        RunRepeatDay(prefix, last, c);
      } else if d == last + 1 {
        RunNextDay(prefix, last, c);
      } else {
        forall x | x in prefix
          ensures x <= last
        {
          var i :| 0 <= i < |prefix| && prefix[i] == x;
          assert dates[i] <= dates[n - 2];
        }
        RunAfterGap(prefix, last, d);
      }
    }
  }

  /** Three completions on consecutive days make a streak of three. */
  lemma ConsecutiveDaysStreak(day: int)
    ensures Replay(Initial(), [day, day + 1, day + 2]).current == 3
    ensures Replay(Initial(), [day, day + 1, day + 2]).longest >= 3
  {
    var ds := [day, day + 1, day + 2];
    assert ds[..2] == [day, day + 1];
    assert ds[..2][..1] == [day];
    assert ds[..2][..1][..0] == [];
    var s1 := Update(Initial(), day);
    var s2 := Update(s1, day + 1);
    assert Replay(Initial(), ds[..2][..1]) == s1;
    assert Replay(Initial(), ds[..2]) == s2;
    assert Replay(Initial(), ds) == Update(s2, day + 2);
  }

  /** A gap of more than a day restarts the count at 1, while the longest streak keeps
      its earlier maximum. */
  lemma GapRestartsStreak(s: StreakState, gap: int)
    requires s.lastDate.Some? && gap > 1
    ensures Update(s, s.lastDate.value + gap).current == 1
    ensures Update(s, s.lastDate.value + gap).longest >= s.longest
  {
  }

  /** Recording the same day twice counts once: the second record changes nothing. */
  lemma SameDayIdempotent(s: StreakState, date: int)
    ensures Update(Update(s, date), date) == Update(s, date)
  {
  }

  /** Backfilling an earlier day keeps the count but moves the last date back, so a
      completion on the day after the true latest one no longer continues the
      streak: it is seen as a gap and restarts the count at 1. */
  lemma BackfillBreaksNextDay(s: StreakState, back: int)
    requires s.lastDate.Some? && back < s.lastDate.value
    ensures Update(s, back).current == s.current
    ensures Update(s, back).lastDate == Some(back)
    ensures Update(s, s.lastDate.value + 1).current == s.current + 1
    ensures Update(Update(s, back), s.lastDate.value + 1).current == 1
  {
  }

  /** A completion on the calendar day after the last completion's calendar date
      continues the streak: calendar succession and the tracker's day difference agree,
      across month and year ends and leap days included. */
  lemma NextCalendarDayExtends(s: StreakState, last: Dates.CivilDate)
    requires Dates.ValidDate(last)
    requires s.lastDate == Some(Dates.DaysFromCivil(last))
    ensures Dates.ValidDate(Dates.NextDay(last))
    ensures Update(s, Dates.DaysFromCivil(Dates.NextDay(last))).current == s.current + 1
  {
    Dates.NextDayIsOneLater(last);
  }
}
