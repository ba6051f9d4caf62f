/** The proleptic Gregorian calendar as Python's `datetime` uses it. The
    source finds out whether a date exists by constructing a `datetime` and
    catching the exception; here the same test is the predicate
    `IsValidDate`. */
module Calendar {

  /** Python's `datetime.MINYEAR` and `datetime.MAXYEAR`. */
  const MinYear := 1
  const MaxYear := 9999

  predicate IsLeap(year: int) {
    year % 4 == 0 && (year % 100 != 0 || year % 400 == 0)
  }

  function DaysInMonth(year: int, month: int): (n: nat)
    requires 1 <= month <= 12
    ensures 28 <= n <= 31
    ensures month == 2 ==> (n == 29 <==> IsLeap(year)) && (n == 28 <==> !IsLeap(year))
    ensures month != 2 ==> (n == 30 <==> month in {4, 6, 9, 11})
  {
    if month == 2 then (if IsLeap(year) then 29 else 28)
    else if month == 4 || month == 6 || month == 9 || month == 11 then 30
    else 31
  }

  /** `datetime(year, month, day)` (and `date(...)`) returns without raising
      exactly when this holds. */
  predicate IsValidDate(year: int, month: int, day: int) {
    MinYear <= year <= MaxYear && 1 <= month <= 12 && 1 <= day <= DaysInMonth(year, month)
  }

  function YearLength(year: int): nat {
    if IsLeap(year) then 366 else 365
  }

  /** Days of the year that lie in the months before `month`. */
  function DaysBeforeMonth(year: int, month: int): (n: nat)
    requires 1 <= month <= 13
    ensures n <= 31 * (month - 1)
  {
    if month == 1 then 0 else DaysBeforeMonth(year, month - 1) + DaysInMonth(year, month - 1)
  }

  lemma {:induction false} DaysBeforeMonthMonotone(year: int, m1: int, m2: int)
    requires 1 <= m1 <= m2 <= 13
    ensures DaysBeforeMonth(year, m1) <= DaysBeforeMonth(year, m2)
    decreases m2 - m1
  {
    if m1 < m2 { DaysBeforeMonthMonotone(year, m1, m2 - 1); }
  }

  /** The twelve months together are the whole year: 365 days, or 366 in a
      leap year. */
  lemma YearIsTwelveMonths(year: int)
    ensures DaysBeforeMonth(year, 13) == YearLength(year)
  {
    var feb := DaysInMonth(year, 2);
    assert DaysBeforeMonth(year, 3) == 31 + feb;
    assert DaysBeforeMonth(year, 4) == 62 + feb;
    assert DaysBeforeMonth(year, 5) == 92 + feb;
    assert DaysBeforeMonth(year, 6) == 123 + feb;
    assert DaysBeforeMonth(year, 7) == 153 + feb;
    assert DaysBeforeMonth(year, 8) == 184 + feb;
    assert DaysBeforeMonth(year, 9) == 215 + feb;
    assert DaysBeforeMonth(year, 10) == 245 + feb;
    assert DaysBeforeMonth(year, 11) == 276 + feb;
    assert DaysBeforeMonth(year, 12) == 306 + feb;
    assert DaysBeforeMonth(year, 13) == 337 + feb;
  }

  /** `timetuple().tm_yday`: the position of a date in its year, from 1. */
  function DayOfYear(year: int, month: int, day: int): (n: nat)
    requires IsValidDate(year, month, day)
    ensures 1 <= n <= YearLength(year)
    ensures month == 1 ==> n == day
  {
    DaysBeforeMonthMonotone(year, month + 1, 13);
    YearIsTwelveMonths(year);
    DaysBeforeMonth(year, month) + day
  }

  /** Distinct dates of one year have distinct day numbers, in calendar order. */
  lemma DayOfYearOrdered(year: int, m1: int, d1: int, m2: int, d2: int)
    requires IsValidDate(year, m1, d1) && IsValidDate(year, m2, d2)
    requires m1 < m2 || (m1 == m2 && d1 < d2)
    ensures DayOfYear(year, m1, d1) < DayOfYear(year, m2, d2)
  {
    if m1 < m2 { DaysBeforeMonthMonotone(year, m1 + 1, m2); }
  }

  /** Days in the years before `year`, counted from year 1. */
  function DaysBeforeYear(year: int): int {
    var y := year - 1;
    365 * y + y / 4 - y / 100 + y / 400
  }

  /** `date(year, month, day).toordinal()`: 0001-01-01 is day 1. */
  function Ordinal(year: int, month: int, day: int): int
    requires IsValidDate(year, month, day)
  {
    DaysBeforeYear(year) + DayOfYear(year, month, day)
  }

  /** A year's worth of ordinals: the first of January follows the last day
      of the year before. */
  lemma OrdinalNewYear(year: int)
    requires MinYear < year <= MaxYear
    ensures Ordinal(year, 1, 1) == Ordinal(year - 1, 12, 31) + 1
  {
    YearIsTwelveMonths(year - 1);
    var y := year - 1;
    assert y / 4 - (y - 1) / 4 == (if y % 4 == 0 then 1 else 0);
    assert y / 100 - (y - 1) / 100 == (if y % 100 == 0 then 1 else 0);
    assert y / 400 - (y - 1) / 400 == (if y % 400 == 0 then 1 else 0);
  }
}
