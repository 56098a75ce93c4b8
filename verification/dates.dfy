/** Calendar dates as the habit tracker handles them. A completion date is an ISO 8601
    calendar date in extended form, `YYYY-MM-DD` (section 4.1.2.2 of ISO 8601:2004),
    which JavaScript's `Date` reads as midnight UTC of that day. The model represents a
    date by its day number (days since 1970-01-01); `DaysFromCivil` maps a
    proleptic-Gregorian calendar date to that number. */
module Dates {

  /** `1000 * 60 * 60 * 24`, the divisor in the streak tracker's day difference. */
  const MsPerDay: int := 1000 * 60 * 60 * 24

  /** `new Date("YYYY-MM-DD").getTime()`: milliseconds since the epoch at midnight UTC. */
  function Midnight(day: int): int
  {
    day * MsPerDay
  }

  /** `Math.floor((today - last) / MsPerDay)` on two timestamps. Dafny's `/` with a
      positive divisor already rounds towards negative infinity, as `Math.floor` does. */
  function DaysDiff(todayMs: int, lastMs: int): (r: int)
    ensures r * MsPerDay <= todayMs - lastMs < r * MsPerDay + MsPerDay
  {
    (todayMs - lastMs) / MsPerDay
  }

  /** Two date-only timestamps are a whole number of days apart, so the day difference
      the streak tracker computes is exact. */
  lemma DaysDiffOfMidnights(today: int, last: int)
    ensures DaysDiff(Midnight(today), Midnight(last)) == today - last
  {
    assert Midnight(today) - Midnight(last) == (today - last) * MsPerDay;
  }

  datatype CivilDate = CivilDate(year: int, month: int, day: int)

  predicate IsLeapYear(y: int)
  {
    y % 4 == 0 && (y % 100 != 0 || y % 400 == 0)
  }

  function DaysInMonth(y: int, m: int): int
  {
    if m == 2 then (if IsLeapYear(y) then 29 else 28)
    else if m == 4 || m == 6 || m == 9 || m == 11 then 30
    else 31
  }

  predicate ValidDate(c: CivilDate)
  {
    1 <= c.month <= 12 && 1 <= c.day <= DaysInMonth(c.year, c.month)
  }

  /** The calendar day after `c`. */
  function NextDay(c: CivilDate): CivilDate
  {
    if c.day < DaysInMonth(c.year, c.month) then CivilDate(c.year, c.month, c.day + 1)
    else if c.month < 12 then CivilDate(c.year, c.month + 1, 1)
    else CivilDate(c.year + 1, 1, 1)
  }

  /** Days from the start of a March-based year (March 1 is day 0) to the first of
      month `m`. */
  function DaysBeforeMonth(m: int): int
    requires 1 <= m <= 12
  {
    var mp := if m > 2 then m - 3 else m + 9;
    (153 * mp + 2) / 5
  }

  /** Days from 1970-01-01 to March 1 of the year `y` (a March-based year). */
  function MarchFirst(y: int): int
  {
    var era := y / 400;
    var yoe := y % 400;
    era * 146097 + yoe * 365 + yoe / 4 - yoe / 100 - 719468
  }

  /** The day number of a calendar date. January and February count as the tail of
      the previous March-based year, which puts the leap day at the end of a year. */
  function DaysFromCivil(c: CivilDate): int
    requires ValidDate(c)
  {
    var y := if c.month <= 2 then c.year - 1 else c.year;
    MarchFirst(y) + DaysBeforeMonth(c.month) + c.day - 1
  }

  /** Stepping `k` by one moves `k / n` by one exactly when `k + 1` is a multiple of `n`. */
  lemma DivStep(k: int, n: int)
    requires n == 4 || n == 100
    ensures (k + 1) / n - k / n == if (k + 1) % n == 0 then 1 else 0
  {
    if n == 4 {
      assert k == 4 * (k / 4) + k % 4;
    } else {
      assert k == 100 * (k / 100) + k % 100;
    }
  }

  /** Shifting by whole 400-year eras changes neither the year of era nor its
      divisibility by 4 and 100. */
  lemma EraShift(e: int, x: int)
    requires 0 <= x < 400
    ensures (400 * e + x) / 400 == e && (400 * e + x) % 400 == x
    ensures (400 * e + x) % 4 == x % 4 && (400 * e + x) % 100 == x % 100
  {
    assert 400 * e + x == 4 * (100 * e + x / 4) + x % 4;
    assert 400 * e + x == 100 * (4 * e + x / 100) + x % 100;
  }

  /** A March-based year holds 366 days exactly when the February that ends it has 29. */
  lemma MarchFirstStep(y: int)
    ensures MarchFirst(y + 1) - MarchFirst(y) == if IsLeapYear(y + 1) then 366 else 365
  {
    var era, yoe := y / 400, y % 400;
    assert y == 400 * era + yoe;
    if yoe < 399 {
      EraShift(era, yoe + 1);
      DivStep(yoe, 4);
      DivStep(yoe, 100);
      assert (y + 1) % 400 != 0;
    } else {
      EraShift(era + 1, 0);
      assert y + 1 == 400 * (era + 1) + 0;
    }
  }

  /** The epoch itself is day 0. */
  lemma EpochIsDayZero()
    ensures DaysFromCivil(CivilDate(1970, 1, 1)) == 0
  {
  }

  /** Consecutive calendar dates have consecutive day numbers, so "the next day" in the
      streak tracker's sense is the next calendar day. */
  lemma NextDayIsOneLater(c: CivilDate)
    requires ValidDate(c)
    ensures ValidDate(NextDay(c))
    ensures DaysFromCivil(NextDay(c)) == DaysFromCivil(c) + 1
  {
    if c.day < DaysInMonth(c.year, c.month) {
    } else if c.month == 2 {
      MarchFirstStep(c.year - 1);
    } else if c.month < 12 {
    } else {
    }
  }
}
