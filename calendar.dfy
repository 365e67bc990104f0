/**
 * Proleptic Gregorian calendar dates at day granularity, and the two comparison
 * anchors of src/utils.py: the previous month-end and the start of the year.
 * Dates are ordered and compared through their day number (`Ordinal`), which
 * is Python's `date.toordinal()` (January 1 of year 1 is day 1).
 */
module Calendar {

  datatype YMD = YMD(year: int, month: int, day: int)

  predicate IsLeapYear(y: int) {
    y % 4 == 0 && (y % 100 != 0 || y % 400 == 0)
  }

  function DaysInMonth(y: int, m: int): (n: int)
    requires 1 <= m <= 12
    ensures 28 <= n <= 31
  {
    if m == 2 then (if IsLeapYear(y) then 29 else 28)
    else if m == 4 || m == 6 || m == 9 || m == 11 then 30
    else 31
  }

  function DaysInYear(y: int): int {
    if IsLeapYear(y) then 366 else 365
  }

  predicate IsCalendarDate(d: YMD) {
    1 <= d.month <= 12 && 1 <= d.day <= DaysInMonth(d.year, d.month)
  }

  /** A calendar date: a month of the year and a day of that month. */
  type Date = d: YMD | IsCalendarDate(d) witness YMD(1970, 1, 1)

  /** Days in the years before `y`, counted from January 1 of year 1. */
  function DaysBeforeYear(y: int): int {
    var p := y - 1;
    365 * p + p / 4 - p / 100 + p / 400
  }

  /** Days of year `y` before the first of month `m`. */
  function DaysBeforeMonth(y: int, m: int): int
    requires 1 <= m <= 12
  {
    var leap := if IsLeapYear(y) then 1 else 0;
    if m == 1 then 0
    else if m == 2 then 31
    else [59, 90, 120, 151, 181, 212, 243, 273, 304, 334][m - 3] + leap
  }

  /** The day number of a date. */
  function Ordinal(d: Date): int {
    DaysBeforeYear(d.year) + DaysBeforeMonth(d.year, d.month) + d.day
  }

  function FirstOfMonth(d: Date): Date {
    YMD(d.year, d.month, 1)
  }

  /** Python's `datetime` comparison: lexicographic on year, month, day. */
  predicate Before(a: YMD, b: YMD) {
    a.year < b.year || (a.year == b.year && (a.month < b.month || (a.month == b.month && a.day < b.day)))
  }

  /** A year contributes exactly its own length to the count of days before the next one. */
  lemma YearStep(y: int)
    ensures DaysBeforeYear(y + 1) == DaysBeforeYear(y) + DaysInYear(y)
  {
    QuotientStep4(y);
    QuotientStep100(y);
    QuotientStep400(y);
    DivisibleChain(y);
  }

  /** The number of multiples of 4 up to `y` grows by one exactly at a multiple. */
  lemma QuotientStep4(y: int)
    ensures y / 4 - (y - 1) / 4 == if y % 4 == 0 then 1 else 0
  {
  }

  lemma QuotientStep100(y: int)
    ensures y / 100 - (y - 1) / 100 == if y % 100 == 0 then 1 else 0
  {
  }

  lemma QuotientStep400(y: int)
    ensures y / 400 - (y - 1) / 400 == if y % 400 == 0 then 1 else 0
  {
  }

  lemma DivisibleChain(y: int)
    ensures y % 400 == 0 ==> y % 100 == 0
    ensures y % 100 == 0 ==> y % 4 == 0
  {
  }

  lemma MonthStep(y: int, m: int)
    requires 1 <= m < 12
    ensures DaysBeforeMonth(y, m + 1) == DaysBeforeMonth(y, m) + DaysInMonth(y, m)
  {
  }

  lemma MonthFits(y: int, m: int)
    requires 1 <= m <= 12
    ensures DaysBeforeMonth(y, m) + DaysInMonth(y, m) <= DaysInYear(y)
  {
  }

  lemma {:induction false} DaysBeforeYearMonotone(x: int, y: int)
    requires x <= y
    ensures DaysBeforeYear(x) <= DaysBeforeYear(y)
    decreases y - x
  {
    if x < y {
      YearStep(x);
      DaysBeforeYearMonotone(x + 1, y);
    }
  }

  lemma {:induction false} DaysBeforeMonthMonotone(y: int, m: int, n: int)
    requires 1 <= m < n <= 12
    ensures DaysBeforeMonth(y, m) + DaysInMonth(y, m) <= DaysBeforeMonth(y, n)
    decreases n - m
  {
    MonthStep(y, m);
    if m + 1 < n {
      DaysBeforeMonthMonotone(y, m + 1, n);
    }
  }

  /** The day number orders dates exactly as the calendar does. */
  lemma OrdinalMonotone(a: Date, b: Date)
    requires Before(a, b)
    ensures Ordinal(a) < Ordinal(b)
  {
    if a.year < b.year {
      MonthFits(a.year, a.month);
      YearStep(a.year);
      DaysBeforeYearMonotone(a.year + 1, b.year);
    } else if a.month < b.month {
      DaysBeforeMonthMonotone(a.year, a.month, b.month);
    }
  }

  /** Two dates with the same day number are the same date. */
  lemma OrdinalInjective(a: Date, b: Date)
    requires Ordinal(a) == Ordinal(b)
    ensures a == b
  {
    if Before(a, b) {
      OrdinalMonotone(a, b);
    } else if Before(b, a) {
      OrdinalMonotone(b, a);
    }
  }

  /**
   * `get_previous_month_date`: the day before the first of the month of `d`,
   * which is the last day of the preceding month whatever the day of `d`.
   */
  function PreviousMonthEnd(d: Date): (r: Date)
    ensures Ordinal(r) == Ordinal(FirstOfMonth(d)) - 1
    ensures r.day == DaysInMonth(r.year, r.month)
    ensures 1 <= Ordinal(d) - Ordinal(r) <= 31
  {
    if d.month == 1 then
      YearStep(d.year - 1);
      YMD(d.year - 1, 12, 31)
    else
      MonthStep(d.year, d.month - 1);
      YMD(d.year, d.month - 1, DaysInMonth(d.year, d.month - 1))
  }

  /** `get_year_start_date`: January 1 of the year of `d`, at most a year's length before `d`. */
  function YearStart(d: Date): (r: Date)
    ensures r.year == d.year && r.month == 1 && r.day == 1
    ensures 0 <= Ordinal(d) - Ordinal(r) < DaysInYear(d.year)
  {
    MonthFits(d.year, d.month);
    YMD(d.year, 1, 1)
  }
}
