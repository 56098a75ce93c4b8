/** The habit card's local progress counter. Each button computes the new absolute
    progress, sends it through the Supabase completion write (dated today), and
    commits the new local state only when that write returns a completion. With no
    signed-in user nothing is sent and nothing changes. */
module HabitCard {
  import opened Wrappers
  import opened Habits
  import SupabaseStore

  /** The card's local state: `progress` and `isCompleted`. */
  datatype Card = Card(progress: int, isCompleted: bool)

  /** The card and the backend after a button press. */
  datatype Pressed = Pressed(card: Card, db: SupabaseStore.Backend)

  /** The card shown for a listed habit starts from its progress and completion flag. */
  function FromListing(h: HabitWithProgress): Card
  {
    Card(h.todayProgress, h.isCompletedToday)
  }

  /** The local completion flag agrees with the progress reaching the target. */
  predicate Consistent(c: Card, target: int)
  {
    c.isCompleted <==> c.progress >= target
  }

  /** Sends `next.progress` as today's value for the habit on behalf of `user`, and
      takes `next` as the new local state only if the write returned a completion.
      `upsertFails` and `streakFails` are the outcomes of the write's two steps. */
  function Commit(c: Card, next: Card, habitId: string, user: Option<string>,
                  db: SupabaseStore.Backend, today: int, upsertFails: bool, streakFails: bool): (r: Pressed)
    ensures user.None? ==> r == Pressed(c, db)
    ensures user.Some? ==> r.card == (if upsertFails then c else next)
    ensures user.Some? && !upsertFails ==>
      (habitId, today) in r.db.completions && r.db.completions[(habitId, today)].value == r.card.progress
  {
    match user
    case None => Pressed(c, db)
    case Some(uid) =>
      var written := SupabaseStore.RecordCompletion(db, habitId, uid, next.progress, None, today, upsertFails, streakFails);
      if written.completion.Some? then Pressed(next, written.db) else Pressed(c, written.db)
  }

  /** The complete button: completing sets the progress to the target, un-completing
      sets it to 0. There is no guard. */
  function ToggleComplete(c: Card, target: int, habitId: string, user: Option<string>,
                          db: SupabaseStore.Backend, today: int, upsertFails: bool, streakFails: bool): (r: Pressed)
    ensures user.None? ==> r == Pressed(c, db)
    ensures upsertFails ==> r.card == c
    ensures user.Some? && !upsertFails ==>
      && r.card.isCompleted == !c.isCompleted
      && r.card.progress == (if c.isCompleted then 0 else target)
      && (habitId, today) in r.db.completions && r.db.completions[(habitId, today)].value == r.card.progress
  {
    var completed := !c.isCompleted;
    var progress := if completed then target else 0;
    Commit(c, Card(progress, completed), habitId, user, db, today, upsertFails, streakFails)
  }

  /** The plus button: acts only below the target, adds exactly one, and marks the
      habit complete when the new progress equals the target. */
  function Increment(c: Card, target: int, habitId: string, user: Option<string>,
                     db: SupabaseStore.Backend, today: int, upsertFails: bool, streakFails: bool): (r: Pressed)
    ensures c.progress >= target ==> r == Pressed(c, db)
    ensures user.None? ==> r == Pressed(c, db)
    ensures upsertFails ==> r.card == c
    ensures c.progress < target && user.Some? && !upsertFails ==>
      && r.card.progress == c.progress + 1
      && (r.card.isCompleted <==> c.isCompleted || c.progress + 1 == target)
      && (habitId, today) in r.db.completions && r.db.completions[(habitId, today)].value == r.card.progress
  {
    if c.progress < target then
      var progress := c.progress + 1;
      var completed := if progress == target then true else c.isCompleted;
      Commit(c, Card(progress, completed), habitId, user, db, today, upsertFails, streakFails)
    else Pressed(c, db)
  }

  /** The minus button: acts only above 0, subtracts exactly one, and clears the
      completion flag when the new progress is below the target. */
  function Decrement(c: Card, target: int, habitId: string, user: Option<string>,
                     db: SupabaseStore.Backend, today: int, upsertFails: bool, streakFails: bool): (r: Pressed)
    ensures c.progress <= 0 ==> r == Pressed(c, db)
    ensures user.None? ==> r == Pressed(c, db)
    ensures upsertFails ==> r.card == c
    ensures c.progress > 0 && user.Some? && !upsertFails ==>
      && r.card.progress == c.progress - 1
      && (r.card.isCompleted <==> c.isCompleted && c.progress - 1 >= target)
      && (habitId, today) in r.db.completions && r.db.completions[(habitId, today)].value == r.card.progress
  {
    if c.progress > 0 then
      var progress := c.progress - 1;
      var completed := if progress < target then false else c.isCompleted;
      Commit(c, Card(progress, completed), habitId, user, db, today, upsertFails, streakFails)
    else Pressed(c, db)
  }

  /** Progress that starts between 0 and the target stays there under the plus and
      minus buttons, and under the complete button too. */
  lemma ButtonsKeepBounds(c: Card, target: int, habitId: string, user: Option<string>,
                          db: SupabaseStore.Backend, today: int, upsertFails: bool, streakFails: bool)
    requires 0 <= c.progress <= target
    ensures 0 <= Increment(c, target, habitId, user, db, today, upsertFails, streakFails).card.progress <= target
    ensures 0 <= Decrement(c, target, habitId, user, db, today, upsertFails, streakFails).card.progress <= target
    ensures 0 <= ToggleComplete(c, target, habitId, user, db, today, upsertFails, streakFails).card.progress <= target
  {
  }

  /** For a positive target, a card whose flag agrees with its progress keeps that
      agreement under every button, whatever the backend answers. */
  lemma ButtonsKeepConsistent(c: Card, target: int, habitId: string, user: Option<string>,
                              db: SupabaseStore.Backend, today: int, upsertFails: bool, streakFails: bool)
    requires target > 0 && Consistent(c, target)
    ensures Consistent(Increment(c, target, habitId, user, db, today, upsertFails, streakFails).card, target)
    ensures Consistent(Decrement(c, target, habitId, user, db, today, upsertFails, streakFails).card, target)
    ensures Consistent(ToggleComplete(c, target, habitId, user, db, today, upsertFails, streakFails).card, target)
  {
  }

  /** Un-completing with a target of 0 or less leaves a progress of 0 that meets the
      target while the flag says incomplete: the agreement needs a positive target. */
  lemma ToggleNeedsPositiveTarget(c: Card, target: int, habitId: string, uid: string,
                                  db: SupabaseStore.Backend, today: int, streakFails: bool)
    requires target <= 0 && c.isCompleted
    ensures !Consistent(ToggleComplete(c, target, habitId, Some(uid), db, today, false, streakFails).card, target)
  {
  }

  /** A card built from the Supabase listing starts consistent with its target. */
  lemma ListedCardConsistent(row: SupabaseStore.HabitRow, todayValue: Option<int>)
    ensures Consistent(FromListing(SupabaseStore.WithProgress(row, todayValue)), row.habit.targetValue)
  {
  }

  /** Below the target, a committed plus followed by a committed minus restores the
      card, and leaves the store holding the original progress. */
  lemma DecrementUndoesIncrement(c: Card, target: int, habitId: string, uid: string,
                                 db: SupabaseStore.Backend, today: int, fails1: bool, fails2: bool)
    requires 0 <= c.progress < target && Consistent(c, target)
    ensures
      var up := Increment(c, target, habitId, Some(uid), db, today, false, fails1);
      var down := Decrement(up.card, target, habitId, Some(uid), up.db, today, false, fails2);
      && down.card == c
      && down.db.completions[(habitId, today)].value == c.progress
  {
  }

  /** Completing and then un-completing brings the progress to 0, not back to where it
      was: the complete button is not undone by pressing it again. */
  lemma ToggleTwiceClearsProgress(c: Card, target: int, habitId: string, uid: string,
                                  db: SupabaseStore.Backend, today: int, fails1: bool, fails2: bool)
    requires !c.isCompleted
    ensures
      var on := ToggleComplete(c, target, habitId, Some(uid), db, today, false, fails1);
      var off := ToggleComplete(on.card, target, habitId, Some(uid), on.db, today, false, fails2);
      off.card == Card(0, false)
  {
  }
}
