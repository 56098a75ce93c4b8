/** The records the habit tracker stores and shows. Identifiers and timestamps are
    opaque strings; dates are day numbers (see module `Dates`); progress values and
    targets are integers, which is what the habit card and the add-habit form produce.
    Values that reach the data layer from a request body unchecked are assumed to be
    integers as well. */
module Habits {
  import opened Wrappers

  datatype Color = Primary | Secondary | Accent

  /** Stored with a habit; the streak logic treats every frequency as daily. */
  datatype Frequency = Daily | Weekly | Monthly

  /** A habit definition: one row of the `habits` table. */
  datatype Habit = Habit(
    id: string,
    userId: string,
    name: string,
    description: Option<string>,
    icon: Option<string>,
    color: Color,
    category: Option<string>,
    targetValue: int,
    targetUnit: string,
    frequency: Frequency,
    isActive: bool,
    createdAt: string,
    updatedAt: string)

  /** A habit joined with its streak counters and today's recorded progress: the view
      model that listings return and the statistics reduce. */
  datatype HabitWithProgress = HabitWithProgress(
    habit: Habit,
    currentStreak: nat,
    longestStreak: nat,
    todayProgress: int,
    isCompletedToday: bool)

  /** One day's recorded progress for a habit: an absolute value for that day, not an
      increment. The row's generated id, notes and creation time are not modelled. */
  datatype Completion = Completion(habitId: string, userId: string, date: int, value: int)
}
