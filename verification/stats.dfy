/** The dashboard statistics: five counters reduced from a listing of habits with
    their progress. Both data layers share the first four formulas; they differ in
    how the longest streak treats an empty listing. */
module HabitStats {
  import opened Habits
  import opened JsNumbers

  datatype Stats = Stats(
    totalHabits: nat,
    completedToday: nat,
    todayProgress: int,
    averageStreak: Num,
    longestStreak: Num)

  function SumProgress(hs: seq<HabitWithProgress>): int
  {
    if |hs| == 0 then 0 else SumProgress(hs[..|hs| - 1]) + hs[|hs| - 1].todayProgress
  }

  function SumTarget(hs: seq<HabitWithProgress>): int
  {
    if |hs| == 0 then 0 else SumTarget(hs[..|hs| - 1]) + hs[|hs| - 1].habit.targetValue
  }

  function SumCurrent(hs: seq<HabitWithProgress>): nat
  {
    if |hs| == 0 then 0 else SumCurrent(hs[..|hs| - 1]) + hs[|hs| - 1].currentStreak
  }

  /** `habits.filter(h => h.is_completed_today).length` */
  function CountCompleted(hs: seq<HabitWithProgress>): nat
  {
    if |hs| == 0 then 0
    else CountCompleted(hs[..|hs| - 1]) + (if hs[|hs| - 1].isCompletedToday then 1 else 0)
  }

  /** The positions of the habits completed today. */
  ghost function CompletedPositions(hs: seq<HabitWithProgress>): set<int>
  {
    set i | 0 <= i < |hs| && hs[i].isCompletedToday
  }

  /** The filter-and-count is the number of habits completed today. */
  lemma {:induction false} CountCompletedIsCardinality(hs: seq<HabitWithProgress>)
    ensures CountCompleted(hs) == |CompletedPositions(hs)|
  {
    if |hs| > 0 {
      var n := |hs| - 1;
      var prefix := hs[..n];
      CountCompletedIsCardinality(prefix);
      var before := CompletedPositions(prefix);
      assert forall i :: 0 <= i < n ==> prefix[i] == hs[i];
      if hs[n].isCompletedToday {
        assert CompletedPositions(hs) == before + {n};
        assert n !in before;
      } else {
        assert CompletedPositions(hs) == before;
      }
    }
  }

  function Longests(hs: seq<HabitWithProgress>): (r: seq<int>)
    ensures |r| == |hs| && forall i :: 0 <= i < |hs| ==> r[i] == hs[i].longestStreak
  {
    seq(|hs|, i requires 0 <= i < |hs| => hs[i].longestStreak)
  }

  /** The counters both data layers compute the same way, with `longest` as the
      longest-streak figure. `todayProgress` is `Math.round(100 * progress / target)`
      over the summed progress and targets, or 0 when the targets sum to 0 or less;
      `averageStreak` is `Math.round` of the mean current streak, which is `0 / 0`,
      `NaN`, for no habits. */
  function Aggregate(hs: seq<HabitWithProgress>, longest: Num): (r: Stats)
    ensures r.totalHabits == |hs|
    ensures r.completedToday == |CompletedPositions(hs)|
    ensures SumTarget(hs) <= 0 ==> r.todayProgress == 0
    ensures SumTarget(hs) > 0 ==>
      2 * SumTarget(hs) * r.todayProgress <= 200 * SumProgress(hs) + SumTarget(hs)
                                          < 2 * SumTarget(hs) * r.todayProgress + 2 * SumTarget(hs)
    ensures r.averageStreak == NaN <==> |hs| == 0
    ensures r.averageStreak.Finite? ==>
      2 * |hs| * r.averageStreak.value <= 2 * SumCurrent(hs) + |hs| < 2 * |hs| * r.averageStreak.value + 2 * |hs|
    ensures r.longestStreak == longest
  {
    CountCompletedIsCardinality(hs);
    var totalTarget := SumTarget(hs);
    Stats(
      |hs|,
      CountCompleted(hs),
      if totalTarget > 0 then RoundDiv(100 * SumProgress(hs), totalTarget) else 0,
      if |hs| == 0 then NaN else Finite(RoundDiv(SumCurrent(hs), |hs|)),
      longest)
  }

  /** The Supabase layer's statistics: the longest streak is `Math.max` over the
      habits' longest streaks and a trailing 0, so it is 0 for no habits. */
  function SupabaseStats(hs: seq<HabitWithProgress>): (r: Stats)
    ensures r.totalHabits == |hs|
    ensures r.completedToday == |CompletedPositions(hs)|
    ensures r.longestStreak.Finite? && r.longestStreak.value >= 0
    ensures forall i :: 0 <= i < |hs| ==> hs[i].longestStreak <= r.longestStreak.value
    ensures r.longestStreak.value == 0 || exists i :: 0 <= i < |hs| && hs[i].longestStreak == r.longestStreak.value
  {
    Aggregate(hs, Finite(MathMaxSeeded(Longests(hs))))
  }

  /** The demo store's statistics: the longest streak is `Math.max` over the habits'
      longest streaks alone, so it is `-Infinity` for no habits. */
  function MockStats(hs: seq<HabitWithProgress>): (r: Stats)
    ensures r.totalHabits == |hs|
    ensures r.completedToday == |CompletedPositions(hs)|
    ensures r.longestStreak == NegInfinity <==> |hs| == 0
    ensures r.longestStreak.Finite? ==>
      (forall i :: 0 <= i < |hs| ==> hs[i].longestStreak <= r.longestStreak.value)
      && exists i :: 0 <= i < |hs| && hs[i].longestStreak == r.longestStreak.value
  {
    Aggregate(hs, MathMax(Longests(hs)))
  }

  /** With no habits the counters are zero, the average is `NaN` in both layers, and
      the longest streak is 0 in one and `-Infinity` in the other. */
  lemma EmptyListingStats()
    ensures SupabaseStats([]) == Stats(0, 0, 0, NaN, Finite(0))
    ensures MockStats([]) == Stats(0, 0, 0, NaN, NegInfinity)
  {
    assert CompletedPositions([]) == {};
  }

  /** On a non-empty listing the two layers' statistics coincide: streaks are never
      negative, so the trailing 0 never wins. */
  lemma {:induction false} StatsAgreeWhenNonEmpty(hs: seq<HabitWithProgress>)
    requires |hs| > 0
    ensures SupabaseStats(hs) == MockStats(hs)
  {
    var s := SupabaseStats(hs).longestStreak.value;
    var m := MockStats(hs).longestStreak;
    var i :| 0 <= i < |hs| && hs[i].longestStreak == m.value;
    if s != 0 {
      var j :| 0 <= j < |hs| && hs[j].longestStreak == s;
      assert hs[j].longestStreak <= m.value;
    }
    assert hs[i].longestStreak <= s;
  }

  /** Two habits with targets 1 and 10 and progress 1 and 5, whose completed flags mean
      progress at or above the target (as the listing sets them): only the first counts
      as complete, and overall progress is `round(100 * 6 / 11)`, 55 percent. */
  lemma TwoHabitExample(a: HabitWithProgress, b: HabitWithProgress)
    requires a.habit.targetValue == 1 && a.todayProgress == 1
    requires b.habit.targetValue == 10 && b.todayProgress == 5
    requires a.isCompletedToday <==> a.todayProgress >= a.habit.targetValue
    requires b.isCompletedToday <==> b.todayProgress >= b.habit.targetValue
    ensures SupabaseStats([a, b]).completedToday == 1
    ensures SupabaseStats([a, b]).todayProgress == 55
  {
    var hs := [a, b];
    assert hs[..1] == [a] && hs[..1][..0] == [];
    assert CompletedPositions(hs) == {0};
    assert SumProgress(hs[..1]) == 1 && SumTarget(hs[..1]) == 1;
    assert SumProgress(hs) == 6 && SumTarget(hs) == 11;
    assert RoundDiv(600, 11) == 55;
  }
}
