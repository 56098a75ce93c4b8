/** How the demo store's streak policy relates to the Supabase streak tracker's. The
    tracker counts recorded activity on consecutive calendar days, whatever the value;
    the demo store counts completion writes that meet the target, whatever the dates.
    `MockIgnoresDates` and `SameDayPolicies` state new facts; the other lemmas here set
    side by side, for one situation, what the contracts of `Streak.Update` and
    `MockStore.ApplyCompletion` already say. */
module StreakPolicies {
  import opened Wrappers
  import opened Habits
  import Streak
  import MockStore

  /** The demo store's write ignores the date: the store it leaves is the same for any
      completion date and any "today". */
  lemma MockIgnoresDates(store: MockStore.Store, habitId: string, userId: string, value: int,
                         d1: Option<int>, t1: int, d2: Option<int>, t2: int)
    ensures MockStore.RecordCompletion(store, habitId, userId, value, d1, t1).store
         == MockStore.RecordCompletion(store, habitId, userId, value, d2, t2).store
  {
  }

  /** The demo store never lowers a current streak, so a gap never resets it; the
      tracker restarts a streak at 1 after a gap of more than one day. */
  lemma GapPolicies(h: HabitWithProgress, value: int, s: Streak.StreakState, gap: int)
    requires s.lastDate.Some? && gap > 1
    ensures MockStore.ApplyCompletion(h, value).currentStreak >= h.currentStreak
    ensures Streak.Update(s, s.lastDate.value + gap).current == 1
  {
  }

  /** Two target-meeting writes on the same day add two to the demo store's streak,
      while the tracker counts the day once. */
  lemma SameDayPolicies(h: HabitWithProgress, v1: int, v2: int, s: Streak.StreakState, day: int)
    requires v1 >= h.habit.targetValue && v2 >= h.habit.targetValue
    ensures MockStore.ApplyCompletion(MockStore.ApplyCompletion(h, v1), v2).currentStreak == h.currentStreak + 2
    ensures Streak.Update(Streak.Update(s, day), day).current == Streak.Update(s, day).current
  {
    Streak.SameDayIdempotent(s, day);
  }

  /** Progress below the target leaves the demo store's streak alone, but the tracker
      still counts the day: a first partial completion starts a streak of 1. */
  lemma PartialProgressPolicies(h: HabitWithProgress, value: int, day: int)
    requires value < h.habit.targetValue
    ensures MockStore.ApplyCompletion(h, value).currentStreak == h.currentStreak
    ensures MockStore.ApplyCompletion(h, value).longestStreak == h.longestStreak
    ensures Streak.Update(Streak.Initial(), day).current == 1
  {
  }

  /** The two policies agree on the usual day: a target-meeting completion on the day
      after the last one adds exactly one in both. */
  lemma NextDayPoliciesAgree(h: HabitWithProgress, value: int, s: Streak.StreakState)
    requires value >= h.habit.targetValue && s.lastDate.Some?
    ensures MockStore.ApplyCompletion(h, value).currentStreak == h.currentStreak + 1
    ensures Streak.Update(s, s.lastDate.value + 1).current == s.current + 1
  {
  }

  /** Both policies keep the longest streak at or above the current one and never
      lower it. */
  lemma BothKeepLongestAtLeastCurrent(h: HabitWithProgress, value: int, s: Streak.StreakState, day: int)
    requires h.longestStreak >= h.currentStreak
    ensures MockStore.ApplyCompletion(h, value).longestStreak >= MockStore.ApplyCompletion(h, value).currentStreak
    ensures MockStore.ApplyCompletion(h, value).longestStreak >= h.longestStreak
    ensures Streak.Valid(Streak.Update(s, day)) && Streak.Update(s, day).longest >= s.longest
  {
  }
}
