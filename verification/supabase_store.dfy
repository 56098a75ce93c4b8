/** The Supabase-backed data layer: the completion upsert and the streak update it
    triggers, the zero streak row created with each habit, and the step that joins
    habits, streak rows and today's completions into the listing. Query building,
    filtering and ordering belong to the database; their results are inputs here. */
module SupabaseStore {
  import opened Wrappers
  import opened Habits
  import opened JsNumbers
  import Streak
  import HabitStats

  /** The two tables the write path touches. Completions are keyed by
      (habit id, completion date), the pair the upsert is keyed on; streak rows by
      (habit id, user id), the pair the streak update selects on. */
  datatype Backend = Backend(
    completions: map<(string, int), Completion>,
    streaks: map<(string, string), Streak.StreakState>)

  /** Every stored completion sits under its own (habit, date) key, and every streak
      row keeps the longest-at-least-current invariant. */
  ghost predicate WellFormed(db: Backend)
  {
    && (forall k :: k in db.completions ==>
          db.completions[k].habitId == k.0 && db.completions[k].date == k.1)
    && (forall k :: k in db.streaks ==> Streak.Valid(db.streaks[k]))
  }

  /** The streak update. `streakFails` is the outcome of the streak row's read or
      write, neither of which is checked: when either fails, or when there is no row,
      nothing is written. Otherwise that row, and only that row, advances by the
      completion date. */
  function UpdateHabitStreak(db: Backend, habitId: string, userId: string, date: int,
                             streakFails: bool): (r: Backend)
    ensures r.completions == db.completions
    ensures r.streaks.Keys == db.streaks.Keys
    ensures forall k :: k in db.streaks && k != (habitId, userId) ==> r.streaks[k] == db.streaks[k]
    ensures streakFails ==> r == db
    ensures !streakFails && (habitId, userId) in db.streaks ==>
      r.streaks[(habitId, userId)] == Streak.Update(db.streaks[(habitId, userId)], date)
  {
    var key := (habitId, userId);
    if streakFails || key !in db.streaks then db
    else db.(streaks := db.streaks[key := Streak.Update(db.streaks[key], date)])
  }

  /** What a completion write returns (`None` for `null`) and the tables after it. */
  datatype Recorded = Recorded(completion: Option<Completion>, db: Backend)

  /** Records `value` as the progress of `habitId` on `date`, or on `today` when no date
      is given, then updates the streak. `upsertFails` is the outcome of the completion
      write: when it fails the result is `None` and neither table changes.
      `streakFails` is the outcome of the streak update, which is not checked: the
      completion is returned either way, and on failure the streak row stays as it was. */
  function RecordCompletion(db: Backend, habitId: string, userId: string, value: int,
                            date: Option<int>, today: int,
                            upsertFails: bool, streakFails: bool): (r: Recorded)
    ensures r.completion.None? <==> upsertFails
    ensures upsertFails ==> r.db == db
    ensures !upsertFails ==> r.completion == Some(Completion(habitId, userId, date.GetOr(today), value))
    ensures !upsertFails ==>
      var key := (habitId, date.GetOr(today));
      && r.db.completions.Keys == db.completions.Keys + {key}
      && r.db.completions[key] == r.completion.value
      && (forall k :: k in db.completions && k != key ==> r.db.completions[k] == db.completions[k])
    ensures r.db.streaks.Keys == db.streaks.Keys
    ensures forall k :: k in db.streaks && k != (habitId, userId) ==> r.db.streaks[k] == db.streaks[k]
    ensures streakFails ==> r.db.streaks == db.streaks
    ensures !upsertFails && !streakFails && (habitId, userId) in db.streaks ==>
      r.db.streaks[(habitId, userId)] == Streak.Update(db.streaks[(habitId, userId)], date.GetOr(today))
  {
    var completionDate := date.GetOr(today);
    if upsertFails then Recorded(None, db)
    else
      var c := Completion(habitId, userId, completionDate, value);
      var stored := db.(completions := db.completions[(habitId, completionDate) := c]);
      Recorded(Some(c), UpdateHabitStreak(stored, habitId, userId, completionDate, streakFails))
  }

  /** A completion can be returned while the streak row stays behind: when the
      streak update fails after a successful upsert, the caller sees the same result
      as on full success, yet the row has not advanced. */
  lemma CompletionWithoutStreak(db: Backend, habitId: string, userId: string, value: int, day: int)
    requires (habitId, userId) in db.streaks
    ensures
      var ok := RecordCompletion(db, habitId, userId, value, Some(day), day, false, false);
      var lost := RecordCompletion(db, habitId, userId, value, Some(day), day, false, true);
      && lost.completion == ok.completion
      && lost.db.completions == ok.db.completions
      && lost.db.streaks[(habitId, userId)] == db.streaks[(habitId, userId)]
  {
  }

  /** Completion writes keep the tables well formed. */
  lemma RecordPreservesWellFormed(db: Backend, habitId: string, userId: string, value: int,
                                  date: Option<int>, today: int, upsertFails: bool, streakFails: bool)
    requires WellFormed(db)
    ensures WellFormed(RecordCompletion(db, habitId, userId, value, date, today, upsertFails, streakFails).db)
  {
  }

  /** Recording twice for the same habit and day leaves one row holding the second
      value. The second write moves the streak only if the first streak update failed
      and the second succeeds; as soon as one of the two succeeds the row is where a
      single successful write would have left it. */
  lemma SameDayUpsertOverwrites(db: Backend, habitId: string, userId: string,
                                v1: int, v2: int, day: int, fails1: bool, fails2: bool)
    ensures
      var first := RecordCompletion(db, habitId, userId, v1, Some(day), day, false, fails1).db;
      var second := RecordCompletion(first, habitId, userId, v2, Some(day), day, false, fails2).db;
      && second.completions.Keys == first.completions.Keys
      && second.completions[(habitId, day)].value == v2
      && (!fails1 || fails2 ==> second.streaks == first.streaks)
      && (!fails1 || !fails2 ==>
            second.streaks == RecordCompletion(db, habitId, userId, v2, Some(day), day, false, false).db.streaks)
  {
    var key := (habitId, userId);
    if key in db.streaks {
      Streak.SameDayIdempotent(db.streaks[key], day);
    }
  }

  /** Successive completion writes for one habit and user, dated `days`, each with
      both its upsert and its streak update succeeding. */
  function RecordAll(db: Backend, habitId: string, userId: string, values: seq<int>, days: seq<int>): Backend
    requires |values| == |days|
  {
    if |days| == 0 then db
    else
      var n := |days| - 1;
      RecordCompletion(RecordAll(db, habitId, userId, values[..n], days[..n]),
                       habitId, userId, values[n], Some(days[n]), days[n], false, false).db
  }

  /** The stored streak row after a history of fully successful writes is the streak
      tracker's replay of their dates, whatever values were written: the update never
      consults the value. */
  lemma {:induction false} RecordAllReplaysStreak(db: Backend, habitId: string, userId: string,
                                                 values: seq<int>, days: seq<int>)
    requires |values| == |days|
    requires (habitId, userId) in db.streaks
    ensures (habitId, userId) in RecordAll(db, habitId, userId, values, days).streaks
    ensures RecordAll(db, habitId, userId, values, days).streaks[(habitId, userId)]
         == Streak.Replay(db.streaks[(habitId, userId)], days)
  {
    if |days| > 0 {
      var n := |days| - 1;
      RecordAllReplaysStreak(db, habitId, userId, values[..n], days[..n]);
    }
  }

  /** What habit creation returns and the tables after it. */
  datatype Created = Created(habit: Option<Habit>, db: Backend)

  /** Creates a habit: `inserted` is the row the habit insert returns (with its
      database-assigned id), `insertFails` and `streakInsertFails` the outcomes of the two
      inserts. A failed habit insert returns `None`. Otherwise the habit is returned
      whether or not its zero streak row could be inserted: that second outcome is not checked. */
  function CreateHabit(db: Backend, inserted: Habit, insertFails: bool, streakInsertFails: bool): (r: Created)
    ensures insertFails ==> r.habit.None? && r.db == db
    ensures !insertFails ==> r.habit == Some(inserted)
    ensures r.db.completions == db.completions
    ensures !insertFails && !streakInsertFails ==>
      && r.db.streaks.Keys == db.streaks.Keys + {(inserted.id, inserted.userId)}
      && r.db.streaks[(inserted.id, inserted.userId)] == Streak.StreakState(0, 0, None)
    ensures streakInsertFails ==> r.db == db
    ensures forall k :: k in db.streaks && k != (inserted.id, inserted.userId) ==>
      k in r.db.streaks && r.db.streaks[k] == db.streaks[k]
  {
    if insertFails then Created(None, db)
    else if streakInsertFails then Created(Some(inserted), db)
    else Created(Some(inserted), db.(streaks := db.streaks[(inserted.id, inserted.userId) := Streak.Initial()]))
  }

  /** A newly created habit that then has completions recorded on `days` carries the
      streak the tracker replays from the zero record, which keeps the invariant. */
  lemma CreatedHabitStreak(db: Backend, inserted: Habit, values: seq<int>, days: seq<int>)
    requires |values| == |days|
    ensures
      var created := CreateHabit(db, inserted, false, false).db;
      var after := RecordAll(created, inserted.id, inserted.userId, values, days);
      && (inserted.id, inserted.userId) in after.streaks
      && after.streaks[(inserted.id, inserted.userId)] == Streak.Replay(Streak.Initial(), days)
      && Streak.Valid(after.streaks[(inserted.id, inserted.userId)])
  {
    var created := CreateHabit(db, inserted, false, false).db;
    RecordAllReplaysStreak(created, inserted.id, inserted.userId, values, days);
    Streak.ReplayFromInitialValid(days);
  }

  /** A habit as the joined query returns it: the habit row and its `habit_streaks` list. */
  datatype HabitRow = HabitRow(habit: Habit, streaks: seq<Streak.StreakState>)

  /** One row of the query for today's completions: `(habit_id, value)`. */
  datatype TodayRow = TodayRow(habitId: string, value: int)

  /** `rows.find(c => c.habit_id === id)?.value`: the value of the first row for `id`. */
  function FindTodayValue(rows: seq<TodayRow>, id: string): (r: Option<int>)
    ensures r.None? <==> forall i :: 0 <= i < |rows| ==> rows[i].habitId != id
    ensures r.Some? ==> exists i :: 0 <= i < |rows| && rows[i].habitId == id && rows[i].value == r.value
                          && forall j :: 0 <= j < i ==> rows[j].habitId != id
  {
    if |rows| == 0 then None
    else if rows[0].habitId == id then Some(rows[0].value)
    else
      var r := FindTodayValue(rows[1..], id);
      assert forall i :: 1 <= i < |rows| ==> rows[1..][i - 1] == rows[i];
      r
  }

  /** A listed habit with its progress: today's value or 0, completion when that value
      reaches the target, and the streak counters of the first joined streak row, or 0
      and 0 when the habit has none. */
  function WithProgress(row: HabitRow, todayValue: Option<int>): (r: HabitWithProgress)
    ensures r.habit == row.habit
    ensures r.todayProgress == todayValue.GetOr(0)
    ensures r.isCompletedToday <==> r.todayProgress >= row.habit.targetValue
    ensures |row.streaks| == 0 ==> r.currentStreak == 0 && r.longestStreak == 0
    ensures |row.streaks| > 0 ==>
      r.currentStreak == row.streaks[0].current && r.longestStreak == row.streaks[0].longest
  {
    var streak := if |row.streaks| > 0 then row.streaks[0] else Streak.StreakState(0, 0, None);
    var progress := todayValue.GetOr(0);
    HabitWithProgress(row.habit, streak.current, streak.longest, progress, progress >= row.habit.targetValue)
  }

  /** The listing: `habits` is the habit query's result (`None` when it failed) and
      `completions` today's completion rows (`None` when that query returned nothing).
      A failed habit query gives an empty listing; otherwise each habit, in query order,
      is combined with its first completion row of today. */
  function ListHabits(habits: Option<seq<HabitRow>>, completions: Option<seq<TodayRow>>): (r: seq<HabitWithProgress>)
    ensures habits.None? ==> r == []
    ensures habits.Some? ==> |r| == |habits.value|
    ensures habits.Some? ==> forall i :: 0 <= i < |r| ==>
      r[i] == WithProgress(habits.value[i], FindTodayValue(completions.GetOr([]), habits.value[i].habit.id))
  {
    match habits
    case None => []
    case Some(rows) =>
      var today := completions.GetOr([]);
      seq(|rows|, i requires 0 <= i < |rows| => WithProgress(rows[i], FindTodayValue(today, rows[i].habit.id)))
  }

  /** A single habit: `None` when the habit query failed, otherwise the habit combined,
      as in the listing, with today's completion value if there is one. */
  function GetHabit(habit: Option<HabitRow>, todayValue: Option<int>): (r: Option<HabitWithProgress>)
    ensures r.None? <==> habit.None?
    ensures r.Some? ==> r.value == WithProgress(habit.value, todayValue)
  {
    match habit
    case None => None
    case Some(row) => Some(WithProgress(row, todayValue))
  }

  /** The value stored for a habit and user on `day`, or 0 if there is none. */
  function StoredValue(db: Backend, habitId: string, userId: string, day: int): int
  {
    var key := (habitId, day);
    if key in db.completions && db.completions[key].userId == userId then db.completions[key].value else 0
  }

  /** `rows` is what the query for today's completions returns from `db` for `userId`:
      each row is a stored completion of that user for `today`, and every such
      completion of a listed habit has a row. */
  ghost predicate IsTodayQuery(db: Backend, userId: string, today: int,
                               habits: seq<HabitRow>, rows: seq<TodayRow>)
  {
    && (forall i :: 0 <= i < |rows| ==>
          var key := (rows[i].habitId, today);
          key in db.completions && db.completions[key].userId == userId
          && db.completions[key].value == rows[i].value)
    && (forall j :: 0 <= j < |habits| ==>
          StoredValue(db, habits[j].habit.id, userId, today) != 0 ==>
          exists i :: 0 <= i < |rows| && rows[i].habitId == habits[j].habit.id)
  }

  /** Because completions are unique per (habit, day), the listing's progress for each
      habit is exactly the value stored for that habit today, or 0. */
  lemma ListedProgressIsStored(db: Backend, userId: string, today: int,
                               habits: seq<HabitRow>, rows: seq<TodayRow>)
    requires IsTodayQuery(db, userId, today, habits, rows)
    ensures
      var listed := ListHabits(Some(habits), Some(rows));
      forall j :: 0 <= j < |listed| ==>
        listed[j].todayProgress == StoredValue(db, habits[j].habit.id, userId, today)
  {
    var listed := ListHabits(Some(habits), Some(rows));
    forall j | 0 <= j < |listed|
      ensures listed[j].todayProgress == StoredValue(db, habits[j].habit.id, userId, today)
    {
      var id := habits[j].habit.id;
      var found := FindTodayValue(rows, id);
      if found.Some? {
        var i :| 0 <= i < |rows| && rows[i].habitId == id && rows[i].value == found.value;
        assert (rows[i].habitId, today) == (id, today);
      }
    }
  }

  /** The statistics of a user's listing. A failed habit query lists nothing, so it
      yields zero counters, a `NaN` average and a longest streak of 0. Otherwise a habit
      counts as completed today exactly when its value recorded today (0 if none) meets
      its target. */
  function GetHabitStats(habits: Option<seq<HabitRow>>, completions: Option<seq<TodayRow>>): (r: HabitStats.Stats)
    ensures habits.None? ==> r == HabitStats.Stats(0, 0, 0, NaN, Finite(0))
    ensures habits.Some? ==> r.totalHabits == |habits.value|
    ensures habits.Some? ==>
      r.completedToday == |set j | 0 <= j < |habits.value| &&
        FindTodayValue(completions.GetOr([]), habits.value[j].habit.id).GetOr(0) >= habits.value[j].habit.targetValue|
  {
    var listed := ListHabits(habits, completions);
    if habits.None? then
      HabitStats.EmptyListingStats();
      HabitStats.SupabaseStats(listed)
    else
      var rows := habits.value;
      assert HabitStats.CompletedPositions(listed) == set j | 0 <= j < |rows| &&
        FindTodayValue(completions.GetOr([]), rows[j].habit.id).GetOr(0) >= rows[j].habit.targetValue;
      HabitStats.SupabaseStats(listed)
  }
}
