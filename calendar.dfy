/**
 * Proleptic Gregorian day numbers as Python's `datetime` computes them
 * (`_days_before_year`, `_days_before_month`, `_ymd2ord`): day 1 is
 * 0001-01-01 and the Unix epoch 1970-01-01 is day 719163. The closed
 * formulas are checked against a day-by-day count of year and month lengths.
 */
module Calendar {

  const MinYear := 1
  const MaxYear := 9999
  /** `date(1970, 1, 1).toordinal()`. */
  const EpochOrdinal := 719163

  predicate IsLeap(y: int) {
    y % 4 == 0 && (y % 100 != 0 || y % 400 == 0)
  }

  function DaysInYear(y: int): int {
    if IsLeap(y) then 366 else 365
  }

  function DaysInMonth(y: int, m: int): (n: int)
    requires 1 <= m <= 12
    ensures 28 <= n <= 31
    ensures m == 2 ==> (n == 29 <==> IsLeap(y))
  {
    if m == 2 then (if IsLeap(y) then 29 else 28)
    else if m == 4 || m == 6 || m == 9 || m == 11 then 30
    else 31
  }

  predicate ValidDate(y: int, m: int, d: int) {
    MinYear <= y <= MaxYear && 1 <= m <= 12 && 1 <= d <= DaysInMonth(y, m)
  }

  /** Python's closed formula for the days in the years before `y`. */
  function DaysBeforeYear(y: int): int
    requires y >= 1
  {
    var p := y - 1;
    p * 365 + p / 4 - p / 100 + p / 400
  }

  /** Python's table of the days in the months before `m`, plus the leap day. */
  function DaysBeforeMonth(y: int, m: int): int
    requires 1 <= m <= 12
  {
    var table := [0, 31, 59, 90, 120, 151, 181, 212, 243, 273, 304, 334];
    table[m - 1] + (if m > 2 && IsLeap(y) then 1 else 0)
  }

  /** `date(y, m, d).toordinal()`. */
  function Ordinal(y: int, m: int, d: int): int
    requires ValidDate(y, m, d)
  {
    DaysBeforeYear(y) + DaysBeforeMonth(y, m) + d
  }

  /** Reference count: the lengths of years 1 .. y-1 added one by one. */
  function YearsSpan(y: int): int
    requires y >= 1
    decreases y
  {
    if y == 1 then 0 else YearsSpan(y - 1) + DaysInYear(y - 1)
  }

  /** Reference count: the lengths of months 1 .. m-1 of year `y` added one by one. */
  function MonthsSpan(y: int, m: int): int
    requires 1 <= m <= 12
    decreases m
  {
    if m == 1 then 0 else MonthsSpan(y, m - 1) + DaysInMonth(y, m - 1)
  }

  /** Each of Python's quotients grows by one exactly at a multiple of its divisor. */
  lemma QuotientSteps(p: int)
    requires p >= 0
    ensures (p + 1) / 4 - p / 4 == if (p + 1) % 4 == 0 then 1 else 0
    ensures (p + 1) / 100 - p / 100 == if (p + 1) % 100 == 0 then 1 else 0
    ensures (p + 1) / 400 - p / 400 == if (p + 1) % 400 == 0 then 1 else 0
  {
  }

  /** Consecutive values of the closed formula differ by one year's length. */
  lemma DaysBeforeYearStep(y: int)
    requires y > 1
    ensures DaysBeforeYear(y) - DaysBeforeYear(y - 1) == DaysInYear(y - 1)
  {
    var p, q := y - 2, y - 1;
    QuotientSteps(p);
    var a, b, c := q / 4 - p / 4, q / 100 - p / 100, q / 400 - p / 400;
    assert DaysBeforeYear(y) - DaysBeforeYear(y - 1) == 365 + a - b + c;
    if q % 400 == 0 {
      assert q % 100 == 0 && q % 4 == 0;
    } else if q % 100 == 0 {
      assert q % 4 == 0;
    }
  }

  /** The closed formula counts every year's length, leap days included. */
  lemma {:induction false} DaysBeforeYearCounts(y: int)
    requires y >= 1
    ensures DaysBeforeYear(y) == YearsSpan(y)
  {
    if y > 1 {
      DaysBeforeYearCounts(y - 1);
      DaysBeforeYearStep(y);
    }
  }

  /** The month table counts every month's length, the leap day included. */
  lemma {:induction false} DaysBeforeMonthCounts(y: int, m: int)
    requires 1 <= m <= 12
    ensures DaysBeforeMonth(y, m) == MonthsSpan(y, m)
  {
    if m > 1 {
      DaysBeforeMonthCounts(y, m - 1);
    }
  }

  /** A year is exactly its twelve months long. */
  lemma YearIsTwelveMonths(y: int)
    ensures MonthsSpan(y, 12) + DaysInMonth(y, 12) == DaysInYear(y)
  {
    DaysBeforeMonthCounts(y, 12);
  }

  /** The calendar day after a valid date (the year may step past 9999). */
  function NextDay(y: int, m: int, d: int): (r: (int, int, int))
    requires ValidDate(y, m, d)
  {
    if d < DaysInMonth(y, m) then (y, m, d + 1)
    else if m < 12 then (y, m + 1, 1)
    else (y + 1, 1, 1)
  }

  /**
   * Consecutive calendar days have consecutive ordinals, so the day
   * numbering neither skips nor repeats a day. Only 9999-12-31, the last
   * date Python's `date` holds, has no next day.
   */
  lemma {:induction false} OrdinalNextDay(y: int, m: int, d: int)
    requires ValidDate(y, m, d) && !(y == MaxYear && m == 12 && d == 31)
    ensures var (y', m', d') := NextDay(y, m, d);
      ValidDate(y', m', d') && Ordinal(y', m', d') == Ordinal(y, m, d) + 1
  {
    var (y', m', d') := NextDay(y, m, d);
    if d == DaysInMonth(y, m) {
      if m < 12 {
        DaysBeforeMonthCounts(y, m);
        DaysBeforeMonthCounts(y, m + 1);
      } else {
        DaysBeforeMonthCounts(y, 12);
        YearIsTwelveMonths(y);
        DaysBeforeYearCounts(y);
        DaysBeforeYearCounts(y + 1);
      }
    }
  }

  /** The anchor Python uses for Unix time. */
  lemma EpochDay()
    ensures ValidDate(1970, 1, 1) && Ordinal(1970, 1, 1) == EpochOrdinal
  {
  }
}
