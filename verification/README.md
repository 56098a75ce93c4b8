# Habit tracker core, modelled in Dafny

This project models the logic core of a habit-tracking web application. Users create
habits, record a value for a habit on a calendar day, and see streaks and daily
statistics. The model covers three pieces of sequential logic:

- **The Supabase data layer** (`supabase/database.ts`). This is the authoritative path:
  - the completion upsert, keyed by (habit, day), and the streak update it triggers;
  - the zero streak row created with each habit;
  - the step that joins habits, streak rows and today's completions into a listing;
  - the five dashboard statistics.
- **The in-memory demo store** (`lib/database.ts`). It is a list of habits edited in
  place, with its own streak policy.
- **The habit card** (`components/habit-card.tsx`). Its complete, plus and minus buttons
  write the new absolute progress through the Supabase layer. Local state changes only
  when that write succeeds.

Everything is immutable datatypes and total functions. Database failures, the signed-in
user and "today" are explicit parameters. Dates are day numbers (days since 1970-01-01).
The card and the default "today" supply a completion date as an ISO 8601 calendar date
in extended form, `YYYY-MM-DD` (ISO 8601:2004, section 4.1.2.2). JavaScript reads such a
string as midnight UTC, so the tracker's millisecond day difference is exact
(`Dates.DaysDiffOfMidnights`). A date sent in a request body is assumed to have the same
form (see "## Left out").
`Dates.DaysFromCivil` maps calendar dates to day numbers, and consecutive calendar dates
get consecutive numbers.

Modules, one per file:

| file | module | models |
|---|---|---|
| `wrappers.dfy` | `Wrappers` | `Option`, standing for `null` / `undefined` |
| `js_numbers.dfy` | `JsNumbers` | `Math.round` of a quotient, `Math.max` of a spread list, `NaN`, `-Infinity` |
| `dates.dfy` | `Dates` | millisecond day difference; proleptic-Gregorian day numbers |
| `habits.dfy` | `Habits` | the habit, habit-with-progress and completion records |
| `streak.dfy` | `Streak` | the Supabase streak transition and its replay over a history |
| `supabase_store.dfy` | `SupabaseStore` | completion write, habit creation, listing, single habit, statistics |
| `stats.dfy` | `HabitStats` | the statistics formulas of both data layers |
| `mock_store.dfy` | `MockStore` | the demo store's lookup, filter, update, delete, completion write, statistics |
| `habit_card.dfy` | `HabitCard` | the card's three buttons against the Supabase write |
| `streak_policies.dfy` | `StreakPolicies` | how the demo store's streak policy differs from the tracker's |

Edge behaviours of the code that the model keeps as they are:

- **Statistics over zero habits.** The average streak divides by zero, so it is `NaN`.
  The Supabase layer's longest streak is 0, because its `Math.max` gets a trailing 0.
  The demo store's `Math.max()` gets no arguments, so its longest streak is `-Infinity`.
- **Earlier-dated completions.** The tracker keeps the count but still moves the last date
  back. `Streak.BackfillBreaksNextDay` shows the effect: a completion on the day after the
  true latest day then restarts the streak at 1.
- **What the Supabase streak counts.** The tracker never looks at the value, so partial
  progress on consecutive days extends the streak. The demo store counts only
  target-meeting writes and ignores dates (`StreakPolicies`).
- **Unchecked streak writes.** Neither the streak row's read nor its update is checked for
  errors. A completion can therefore be returned while the streak row stays behind
  (`SupabaseStore.CompletionWithoutStreak`). Habit creation likewise returns the habit
  whether or not its streak row was inserted.
- **Ownership.** `getHabit` selects by id only. Whether another user's habit is visible is
  left to database policies this model does not see.
- **Demo updates.** The demo store spreads the update object as it arrives, so an update
  may overwrite the streak counters and today's progress
  (`MockStore.UpdateCanBreakStreakInvariant`).

## Model

| member | source | states |
|---|---|---|
| `Streak.Update` | supabase/database.ts:270-304 | A first completion gives a streak of 1. The next day adds exactly 1. A gap of more than one day restarts at 1, not 0. The same or an earlier day keeps the count. The last date becomes the completion date in every case. The longest streak is the maximum of the old longest and the new current, so it never drops and is never below the current. |
| `Streak.ReplayLongestMonotone` | supabase/database.ts:292-295 | Along any history the longest streak never decreases. It bounds the current streak of every prefix, and the longest-at-least-current invariant holds after any completion. |
| `Streak.ReplayFromInitialValid` | supabase/database.ts:186-193 | From the 0/0 row created with a habit, the longest streak is at least the current one at every point of any history. |
| `Streak.ReplayCountsTrailingRun` | supabase/database.ts:276-290 | For completions recorded in date order, the current streak is exactly the number of consecutive calendar days with a completion that end at the latest one. Repeated days make no difference. |
| `Streak.ConsecutiveDaysStreak` | supabase/database.ts:279-281 | Completions on days D, D+1 and D+2 give a current streak of 3 and a longest of at least 3. |
| `Streak.GapRestartsStreak` | supabase/database.ts:282-285 | After a gap of more than one day the current streak is 1, and the longest streak keeps its previous maximum. |
| `Streak.SameDayIdempotent` | supabase/database.ts:273-286 | Recording the same day again leaves the streak record unchanged. |
| `Streak.BackfillBreaksNextDay` | supabase/database.ts:273-304 | An earlier-dated completion keeps the count but overwrites the last date. A completion on the day after the true latest day then restarts the streak at 1 instead of extending it. |
| `Streak.NextCalendarDayExtends` | supabase/database.ts:270-281 | A completion on the next calendar date extends the streak by one, across month ends, year ends and leap days. |
| `Dates.DaysDiff` | supabase/database.ts:277 | The day difference is the floor of the millisecond difference divided by the length of a day. |
| `Dates.DaysDiffOfMidnights` | supabase/database.ts:270-277 | For two date-only timestamps, the day difference is exactly the difference of their day numbers. |
| `Dates.NextDayIsOneLater` | supabase/database.ts:234 | The calendar day after a valid `YYYY-MM-DD` date is valid and has the next day number. |
| `JsNumbers.RoundDiv` | supabase/database.ts:320-321 | `Math.round(a / b)` for b > 0 is the unique integer r with r - 1/2 <= a/b < r + 1/2. |
| `JsNumbers.MathMax` | lib/database.ts:295 | `Math.max` of a spread list is `-Infinity` exactly when the list is empty. Otherwise it is an element of the list and no element exceeds it. |
| `JsNumbers.MathMaxSeeded` | supabase/database.ts:322 | With a trailing 0 the maximum is at least 0 and bounds every element. It is 0 or one of the elements. |
| `SupabaseStore.UpdateHabitStreak` | supabase/database.ts:259-307 | The streak update never creates a row and touches only the row for its (habit, user). A missing row, or a failed read or update of it, means nothing is written. Otherwise that row advances by the completion date. |
| `SupabaseStore.RecordCompletion` | supabase/database.ts:228-257 | A failed upsert returns null and changes neither table. Otherwise the completion is dated with the given date, or today when none is given. It replaces any row for that (habit, day) and no other completion, and it is returned whether or not the streak update succeeds. A failed streak update leaves the streak table as it was. A successful one advances that habit and user's row by the completion date. No other streak row changes. |
| `SupabaseStore.CompletionWithoutStreak` | supabase/database.ts:253-268 | When the streak update fails after a successful upsert, the caller gets the same completion and the same completion table as on full success. The streak row, however, has not moved. |
| `SupabaseStore.RecordPreservesWellFormed` | supabase/database.ts:236-246 | Completion writes keep every completion under its own (habit, date) key and every streak row valid. |
| `SupabaseStore.SameDayUpsertOverwrites` | supabase/database.ts:236-254 | Recording a habit twice on one day leaves one row, holding the second value. The second write moves the streak only when the first streak update failed and the second succeeded. Once either succeeds, the streak row is where a single successful write would have left it. |
| `SupabaseStore.RecordAllReplaysStreak` | supabase/database.ts:253-254 | After a history of writes whose upserts and streak updates all succeed, the streak row is the tracker's replay of their dates. The values written play no part. |
| `SupabaseStore.CreateHabit` | supabase/database.ts:173-196 | A failed habit insert returns null and writes nothing. Otherwise the inserted habit is returned even when its streak row could not be inserted. When that insert succeeds, a 0/0 row with no last date is added under (habit id, user id). |
| `SupabaseStore.CreatedHabitStreak` | supabase/database.ts:186-193 | A new habit that then gets completions carries the tracker's replay from the zero record, and that replay keeps the streak invariant. |
| `SupabaseStore.FindTodayValue` | supabase/database.ts:124 | The lookup gives the value of the first completion row for the habit, or nothing when no row has that habit id. |
| `SupabaseStore.WithProgress` | supabase/database.ts:123-134 | Today's progress is today's value or 0. The habit is completed today exactly when that progress reaches the target. The streak counters come from the first joined streak row, or are 0 and 0 without one. |
| `SupabaseStore.ListHabits` | supabase/database.ts:95-135 | A failed habit query gives an empty listing. Otherwise there is one entry per habit row, in query order, combined with its first completion row of today. |
| `SupabaseStore.GetHabit` | supabase/database.ts:137-171 | A failed query gives null. Otherwise the habit is combined with today's value exactly as in the listing. |
| `SupabaseStore.ListedProgressIsStored` | supabase/database.ts:111-131 | When the completion rows are today's stored rows for the user, each listed habit's progress is the value stored for that habit and day, or 0. |
| `SupabaseStore.GetHabitStats` | supabase/database.ts:309-324 | A failed listing gives zero counters, a `NaN` average and a longest streak of 0. Otherwise the total is the number of habits. The completed count is the number of habits whose value today meets their target. |
| `HabitStats.Aggregate` | supabase/database.ts:311-321 | The total is the list length and the completed count is the number of habits flagged complete. Today's progress is 100 × progress ÷ target, rounded half up, or 0 when the targets sum to 0 or less. The average streak is the rounded mean current streak, and it is `NaN` exactly when there are no habits. |
| `HabitStats.SupabaseStats` | supabase/database.ts:309-324 | The longest streak is finite and at least 0. It bounds every habit's longest streak and is 0 or one of them. |
| `HabitStats.MockStats` | lib/database.ts:279-297 | The longest streak is `-Infinity` exactly when there are no habits. Otherwise it is the largest of the habits' longest streaks. |
| `HabitStats.CountCompletedIsCardinality` | supabase/database.ts:312 | Filtering on the completed flag and taking the length counts exactly the habits completed today. |
| `HabitStats.EmptyListingStats` | supabase/database.ts:315-322 | With no habits, both layers report zero counters and a `NaN` average. The longest streak is 0 in the Supabase layer and `-Infinity` in the demo store. |
| `HabitStats.StatsAgreeWhenNonEmpty` | lib/database.ts:283-295 | On a non-empty listing the two layers' statistics are identical. |
| `HabitStats.TwoHabitExample` | supabase/database.ts:312-320 | With targets 1 and 10 and progress 1 and 5, and each completed flag meaning progress ≥ target as the listing sets it, exactly one habit counts as completed and today's progress is 55. |
| `MockStore.FindIndex` | lib/database.ts:221-222 | Finds the first position holding the id, or reports that no position holds it. |
| `MockStore.GetUserHabits` | lib/database.ts:191-195 | The result holds exactly the habits owned by the user. |
| `MockStore.GetUserHabitsAppend` | lib/database.ts:194 | Filtering distributes over concatenation, so the store's order is kept. |
| `MockStore.GetHabit` | lib/database.ts:197-201 | Returns the first habit with the id, or null when there is none. |
| `MockStore.Merge` | lib/database.ts:224-228 | Every field the update object sets replaces the stored one, including the streak counters and today's progress. Every field it leaves out keeps its old value. The update time is `now` whatever the object says. |
| `MockStore.EmptyPatchOnlyStamps` | lib/database.ts:224-228 | A patch that sets no field changes only the update time. |
| `MockStore.UpdateCanBreakStreakInvariant` | lib/database.ts:224-230 | An update object that sets the current streak above the longest one is merged as given, and `UpdateHabit` stores the merged record. Updates therefore do not keep the longest-at-least-current relation. |
| `MockStore.UpdateHabit` | lib/database.ts:217-232 | An unknown id returns null and leaves the store unchanged. Otherwise only the first matching position is replaced, by the old record merged with the patch, and that record is returned. |
| `MockStore.DeleteHabit` | lib/database.ts:234-243 | An unknown id returns false and leaves the store unchanged. Otherwise the first matching habit is spliced out and true is returned. |
| `MockStore.DeleteRemovesExactlyOne` | lib/database.ts:238-242 | A successful delete shrinks the store by one. It loses only the first habit with that id and keeps the order of the others. |
| `MockStore.ApplyCompletion` | lib/database.ts:264-274 | Progress becomes the value, and the day is complete exactly when the value meets the target. Only then does the current streak grow by exactly one, with the longest streak raised to it if needed. Otherwise both streaks stay as they were. |
| `MockStore.RecordCompletion` | lib/database.ts:245-277 | A completion dated with the given date or today is always returned. An unknown habit id leaves every habit unchanged. Otherwise only the first matching habit changes. |
| `MockStore.GetHabitStats` | lib/database.ts:279-283 | Statistics cover the user's habits. The longest streak is `-Infinity` exactly when the user owns none. |
| `HabitCard.Commit` | components/habit-card.tsx:43-53 | With no user nothing is sent and nothing changes. Otherwise the new state is taken only if the write returns a completion. After a successful write the store holds the card's progress for today. |
| `HabitCard.ToggleComplete` | components/habit-card.tsx:37-58 | The button flips the completed flag. Progress becomes the target when completing and 0 when un-completing, and that absolute value is what the store holds. Without a signed-in user nothing is sent and the card and store stay as they were. |
| `HabitCard.Increment` | components/habit-card.tsx:60-83 | The plus button acts only below the target and adds exactly 1. It sets the flag when the new progress equals the target and otherwise leaves it. The store holds the new absolute progress. |
| `HabitCard.Decrement` | components/habit-card.tsx:85-108 | The minus button acts only above 0 and subtracts exactly 1. It clears the flag when the new progress is below the target and otherwise leaves it. The store holds the new absolute progress. |
| `HabitCard.ButtonsKeepBounds` | components/habit-card.tsx:61-87 | Progress that starts in [0, target] stays in [0, target] under every button. |
| `HabitCard.ButtonsKeepConsistent` | components/habit-card.tsx:37-108 | For a positive target, a flag that agrees with progress reaching the target keeps agreeing after every button, whether or not the write succeeds. |
| `HabitCard.ToggleNeedsPositiveTarget` | components/habit-card.tsx:39-40 | With a target of 0 or less, un-completing breaks the agreement between flag and progress. |
| `HabitCard.ListedCardConsistent` | components/habit-card.tsx:30-31 | A card started from a Supabase listing entry has its flag in agreement with its target. |
| `HabitCard.DecrementUndoesIncrement` | components/habit-card.tsx:60-108 | Below the target, a successful plus followed by a successful minus restores the card, and the store holds the original progress. |
| `HabitCard.ToggleTwiceClearsProgress` | components/habit-card.tsx:39-40 | Completing and then un-completing leaves progress 0, not the earlier progress. |
| `StreakPolicies.MockIgnoresDates` | lib/database.ts:254-274 | The demo store's write leaves the same store whatever the completion date or today. |
| `StreakPolicies.GapPolicies` | lib/database.ts:268-269 | The demo store never lowers a current streak, while the Supabase tracker restarts at 1 after a gap. |
| `StreakPolicies.SameDayPolicies` | lib/database.ts:268-269 | Two target-meeting writes on one day add 2 in the demo store, while the tracker counts the day once. |
| `StreakPolicies.PartialProgressPolicies` | lib/database.ts:266-273 | Below the target the demo store leaves both streaks alone, while the tracker counts a first partial completion as a streak of 1. |
| `StreakPolicies.NextDayPoliciesAgree` | lib/database.ts:268-272 | A target-meeting completion on the next day adds exactly one under both policies. |
| `StreakPolicies.BothKeepLongestAtLeastCurrent` | lib/database.ts:268-273 | Both policies keep the longest streak at or above the current one and never lower it. |

## Left out

- `updateHabit` and `deleteHabit` of the Supabase layer (supabase/database.ts:198-226): each is one database call whose error becomes `null` or `false`, with no logic of its own.
- Query building, the `is_active` filter, newest-first ordering and the `!inner` join: these are database behaviour. Their results are inputs (`SupabaseStore.HabitRow`, `SupabaseStore.TodayRow`). The joined `habit_streaks` value is modelled as a list, because the code indexes it with `[0]`.
- Uniqueness of completions per (habit, day) and of streak rows per (habit, user) rests on database constraints that are not visible. The completion upsert names no conflict columns and no row id. Whether a second write on the same day overwrites the first row, rather than adding one, therefore depends on the table's keys. The model stores both tables as maps keyed on those pairs, so it assumes the overwrite; `SupabaseStore.SameDayUpsertOverwrites` rests on that assumption.
- The race between the completion upsert and the streak update: there is no locking, and this is a concurrency concern, not sequential logic.
- Realtime subscriptions, user profile and settings functions, and authentication: these are network and foreign calls. The signed-in user is a parameter.
- The clock, time zones and random ids: "today", "now" and the inserted habit row (with its generated id) are parameters. Completion ids, notes and creation times are not modelled.
- Parsing of date strings: dates are day numbers. An empty date string is falsy and would default to today as well; the model's `None` covers only the missing date. The completion route passes the request body's `date` to the data layer unchecked (app/api/habits/[id]/complete/route.ts:8, :23). The model assumes it is a `YYYY-MM-DD` string; a date with a time or a time zone would make the day difference inexact, and a malformed one would give `NaN`.
- Floating point: values and targets are integers. The card and the add-habit form produce integers, though `parseInt` of an empty target field gives `NaN` (components/add-habit-modal.tsx:142). The completion route passes the request body's `value` (default 1) unchecked (app/api/habits/[id]/complete/route.ts:8, :23), and habit creation spreads the body, `target_value` included, into the new row (app/api/habits/route.ts:32-36); both are assumed to be integers. Today's progress is computed exactly as `Math.round(100 × progress ÷ target)`. The float product in the code could round differently at exact halves.
- The demo store's `createHabit` (lib/database.ts:203-215): it builds a record from a random id and the clock and never adds it to the habit list. The demo store's `getUser` (lib/database.ts:185-189): after a delay it returns the fixed demo user when the id matches, and `null` otherwise.
- The card's exception path (a thrown error is logged and the state kept, the same as a failed write) and its alert text. Also left out: its progress bar, and the button disabling that repeats the handlers' guards.
- The card shows the plus and minus buttons only when the target exceeds 1 (components/habit-card.tsx:154). `HabitCard.Increment` and `HabitCard.Decrement` also accept presses the screen never offers. The properties proved for them hold for every press, so they hold for the offered ones too.
- All other React and Next.js views, the API routes that wrap these functions, and the calendar and analytics pages' generated or fixed figures.
- `MockStore.Merge`: an update object's values are modelled with the stored record's field types. Keys that are not fields of the record, and keys present with the value `undefined`, are not modelled.
