/** The in-memory demo store: a list of habits with their progress, searched by id
    and edited in place. Its completion write applies its own streak policy (the
    streak grows by one whenever the target is met and is never reset) and keeps no
    completion history. */
module MockStore {
  import opened Wrappers
  import opened Habits
  import HabitStats

  type Store = seq<HabitWithProgress>

  /** `findIndex(h => h.id === id)`: the first position holding `id`. */
  function FindIndex(store: Store, id: string): (r: Option<nat>)
    ensures r.None? <==> forall i :: 0 <= i < |store| ==> store[i].habit.id != id
    ensures r.Some? ==> r.value < |store| && store[r.value].habit.id == id
                        && forall j :: 0 <= j < r.value ==> store[j].habit.id != id
  {
    if |store| == 0 then None
    else if store[0].habit.id == id then Some(0)
    else
      match FindIndex(store[1..], id)
      case None => None
      case Some(i) => Some(i + 1)
  }

  /** The habits owned by `userId`, in store order. */
  function GetUserHabits(store: Store, userId: string): (r: Store)
    ensures forall h :: h in r <==> h in store && h.habit.userId == userId
    ensures |r| <= |store|
  {
    if |store| == 0 then []
    else
      var rest := GetUserHabits(store[..|store| - 1], userId);
      var last := store[|store| - 1];
      assert store == store[..|store| - 1] + [last];
      if last.habit.userId == userId then rest + [last] else rest
  }

  /** Filtering distributes over concatenation, so it keeps the store's order. */
  lemma {:induction false} GetUserHabitsAppend(a: Store, b: Store, userId: string)
    ensures GetUserHabits(a + b, userId) == GetUserHabits(a, userId) + GetUserHabits(b, userId)
    decreases |b|
  {
    if |b| > 0 {
      var n := |b| - 1;
      assert (a + b)[..|a + b| - 1] == a + b[..n];
      GetUserHabitsAppend(a, b[..n], userId);
    } else {
      assert a + b == a;
    }
  }

  /** The first habit with `id`, or `None`. */
  function GetHabit(store: Store, id: string): (r: Option<HabitWithProgress>)
    ensures r.None? <==> forall i :: 0 <= i < |store| ==> store[i].habit.id != id
    ensures r.Some? ==> exists i :: 0 <= i < |store| && store[i] == r.value && r.value.habit.id == id
                                     && forall j :: 0 <= j < i ==> store[j].habit.id != id
  {
    match FindIndex(store, id)
    case None => None
    case Some(i) => Some(store[i])
  }

  /** The fields an update sets, `None` for the ones it leaves out. The declared type
      is `Partial<Habit>`, but the object is spread as it arrives (an HTTP request body
      reaches it unchecked), so it may also carry the progress and streak keys of the
      stored record. */
  datatype HabitPatch = HabitPatch(
    id: Option<string>,
    userId: Option<string>,
    name: Option<string>,
    description: Option<string>,
    icon: Option<string>,
    color: Option<Color>,
    category: Option<string>,
    targetValue: Option<int>,
    targetUnit: Option<string>,
    frequency: Option<Frequency>,
    isActive: Option<bool>,
    createdAt: Option<string>,
    updatedAt: Option<string>,
    currentStreak: Option<nat>,
    longestStreak: Option<nat>,
    todayProgress: Option<int>,
    isCompletedToday: Option<bool>)

  /** `{ ...prev, ...patch, updated_at: now }`: every field the patch sets replaces the
      previous one, every field it leaves out is kept, and the update time is `now`
      whatever the patch says. */
  function Merge(prev: HabitWithProgress, p: HabitPatch, now: string): (r: HabitWithProgress)
    ensures r.habit.updatedAt == now
    ensures r.currentStreak == p.currentStreak.GetOr(prev.currentStreak)
    ensures r.longestStreak == p.longestStreak.GetOr(prev.longestStreak)
    ensures r.todayProgress == p.todayProgress.GetOr(prev.todayProgress)
    ensures r.isCompletedToday == p.isCompletedToday.GetOr(prev.isCompletedToday)
    ensures r.habit.id == p.id.GetOr(prev.habit.id)
    ensures r.habit.userId == p.userId.GetOr(prev.habit.userId)
    ensures r.habit.name == p.name.GetOr(prev.habit.name)
    ensures r.habit.description == (if p.description.Some? then p.description else prev.habit.description)
    ensures r.habit.icon == (if p.icon.Some? then p.icon else prev.habit.icon)
    ensures r.habit.color == p.color.GetOr(prev.habit.color)
    ensures r.habit.category == (if p.category.Some? then p.category else prev.habit.category)
    ensures r.habit.targetValue == p.targetValue.GetOr(prev.habit.targetValue)
    ensures r.habit.targetUnit == p.targetUnit.GetOr(prev.habit.targetUnit)
    ensures r.habit.frequency == p.frequency.GetOr(prev.habit.frequency)
    ensures r.habit.isActive == p.isActive.GetOr(prev.habit.isActive)
    ensures r.habit.createdAt == p.createdAt.GetOr(prev.habit.createdAt)
  {
    var h := prev.habit;
    var merged := Habit(
      p.id.GetOr(h.id),
      p.userId.GetOr(h.userId),
      p.name.GetOr(h.name),
      if p.description.Some? then p.description else h.description,
      if p.icon.Some? then p.icon else h.icon,
      p.color.GetOr(h.color),
      if p.category.Some? then p.category else h.category,
      p.targetValue.GetOr(h.targetValue),
      p.targetUnit.GetOr(h.targetUnit),
      p.frequency.GetOr(h.frequency),
      p.isActive.GetOr(h.isActive),
      p.createdAt.GetOr(h.createdAt),
      p.updatedAt.GetOr(h.updatedAt));
    HabitWithProgress(
      merged.(updatedAt := now),
      p.currentStreak.GetOr(prev.currentStreak),
      p.longestStreak.GetOr(prev.longestStreak),
      p.todayProgress.GetOr(prev.todayProgress),
      p.isCompletedToday.GetOr(prev.isCompletedToday))
  }

  /** An update can overwrite the streak counters and today's progress directly, so
      the demo store's longest-at-least-current relation does not survive updates. */
  lemma UpdateCanBreakStreakInvariant(prev: HabitWithProgress, now: string)
    ensures
      var p := HabitPatch(None, None, None, None, None, None, None, None, None, None, None, None, None,
                          Some(prev.longestStreak + 1), None, None, None);
      Merge(prev, p, now).currentStreak > Merge(prev, p, now).longestStreak
  {
  }

  /** A patch that sets no field only refreshes the update time. */
  lemma EmptyPatchOnlyStamps(prev: HabitWithProgress, now: string)
    ensures
      var empty := HabitPatch(None, None, None, None, None, None, None, None, None, None, None, None, None,
                              None, None, None, None);
      Merge(prev, empty, now) == prev.(habit := prev.habit.(updatedAt := now))
  {
  }

  /** What an update returns (`None` for `null`) and the store after it. */
  datatype Updated = Updated(habit: Option<HabitWithProgress>, store: Store)

  /** Updates the first habit with `id`. An unknown id returns `None` and changes
      nothing; otherwise exactly that position is replaced by the merged record,
      which is also returned. */
  function UpdateHabit(store: Store, id: string, p: HabitPatch, now: string): (r: Updated)
    ensures r.habit.None? <==> forall i :: 0 <= i < |store| ==> store[i].habit.id != id
    ensures r.habit.None? ==> r.store == store
    ensures |r.store| == |store|
    ensures r.habit.Some? ==>
      var i := FindIndex(store, id).value;
      && r.habit.value == Merge(store[i], p, now)
      && r.store[i] == r.habit.value
      && forall j :: 0 <= j < |store| && j != i ==> r.store[j] == store[j]
  {
    match FindIndex(store, id)
    case None => Updated(None, store)
    case Some(i) =>
      var updated := Merge(store[i], p, now);
      Updated(Some(updated), store[i := updated])
  }

  /** What a delete returns and the store after it. */
  datatype Deleted = Deleted(ok: bool, store: Store)

  /** Deletes the first habit with `id` and reports whether there was one. */
  function DeleteHabit(store: Store, id: string): (r: Deleted)
    ensures !r.ok <==> forall i :: 0 <= i < |store| ==> store[i].habit.id != id
    ensures !r.ok ==> r.store == store
    ensures r.ok ==>
      var i := FindIndex(store, id).value;
      r.store == store[..i] + store[i + 1..]
  {
    match FindIndex(store, id)
    case None => Deleted(false, store)
    case Some(i) => Deleted(true, store[..i] + store[i + 1..])
  }

  /** A successful delete removes exactly one habit, the first with that id: the
      store shrinks by one, the removed habit is the only element lost, and the
      habits before and after it keep their order. */
  lemma DeleteRemovesExactlyOne(store: Store, id: string)
    requires DeleteHabit(store, id).ok
    ensures
      var i := FindIndex(store, id).value;
      var after := DeleteHabit(store, id).store;
      && |after| == |store| - 1
      && multiset(after) + multiset{store[i]} == multiset(store)
      && (forall j :: 0 <= j < i ==> after[j] == store[j])
      && (forall j :: i <= j < |after| ==> after[j] == store[j + 1])
  {
    var i := FindIndex(store, id).value;
    assert store == store[..i] + [store[i]] + store[i + 1..];
  }

  /** What a completion write returns and the store after it. */
  datatype Recorded = Recorded(completion: Completion, store: Store)

  /** The habit after the demo store's completion write: progress is `value`, the day
      counts as complete when `value` meets the target, and only then does the current
      streak grow by one, with the longest streak following it. Dates play no part. */
  function ApplyCompletion(h: HabitWithProgress, value: int): (r: HabitWithProgress)
    ensures r.habit == h.habit
    ensures r.todayProgress == value
    ensures r.isCompletedToday <==> value >= h.habit.targetValue
    ensures r.currentStreak == if value >= h.habit.targetValue then h.currentStreak + 1 else h.currentStreak
    ensures value >= h.habit.targetValue ==>
      r.longestStreak == if r.currentStreak > h.longestStreak then r.currentStreak else h.longestStreak
    ensures value < h.habit.targetValue ==> r.longestStreak == h.longestStreak
  {
    var completed := value >= h.habit.targetValue;
    var progressed := h.(todayProgress := value, isCompletedToday := completed);
    if completed then
      var current := h.currentStreak + 1;
      progressed.(currentStreak := current,
                  longestStreak := if current > h.longestStreak then current else h.longestStreak)
    else progressed
  }

  /** Records `value` for `habitId` on `date`, or on `today` when none is given. The
      completion is returned in every case; only the first habit with that id is
      touched, and an unknown id leaves the store as it was. The user id is copied into
      the completion but not checked against the habit's owner. */
  function RecordCompletion(store: Store, habitId: string, userId: string, value: int,
                            date: Option<int>, today: int): (r: Recorded)
    ensures r.completion == Completion(habitId, userId, date.GetOr(today), value)
    ensures FindIndex(store, habitId).None? ==> r.store == store
    ensures |r.store| == |store|
    ensures FindIndex(store, habitId).Some? ==>
      var i := FindIndex(store, habitId).value;
      && r.store[i] == ApplyCompletion(store[i], value)
      && forall j :: 0 <= j < |store| && j != i ==> r.store[j] == store[j]
  {
    var completion := Completion(habitId, userId, date.GetOr(today), value);
    match FindIndex(store, habitId)
    case None => Recorded(completion, store)
    case Some(i) => Recorded(completion, store[i := ApplyCompletion(store[i], value)])
  }

  /** Statistics over the habits owned by `userId`. */
  function GetHabitStats(store: Store, userId: string): (r: HabitStats.Stats)
    ensures r.totalHabits == |GetUserHabits(store, userId)|
    ensures r.longestStreak.NegInfinity? <==> forall h :: h in store ==> h.habit.userId != userId
  {
    var habits := GetUserHabits(store, userId);
    assert |habits| > 0 ==> habits[0] in habits;
    HabitStats.MockStats(habits)
  }
}
