/**
 * The proleptic Gregorian calendar, as JavaScript's `Date` uses it: leap
 * years, month lengths, and the numbering of days from 1970-01-01 that
 * turns date arithmetic into integer arithmetic.
 */
module Gregorian {

  predicate IsLeapYear(y: int)
  {
    y % 4 == 0 && (y % 100 != 0 || y % 400 == 0)
  }

  function DaysInYear(y: int): int
  {
    if IsLeapYear(y) then 366 else 365
  }

  function DaysInMonth(y: int, m: int): (n: int)
    requires 1 <= m <= 12
    ensures 28 <= n <= 31
  {
    if m == 2 then (if IsLeapYear(y) then 29 else 28)
    else if m == 4 || m == 6 || m == 9 || m == 11 then 30
    else 31
  }

  /** Days of year `y` before the first day of month `m`; month 13 stands for the next New Year. */
  function DaysBeforeMonth(y: int, m: int): (n: int)
    requires 1 <= m <= 13
    ensures m == 1 ==> n == 0
    ensures m == 13 ==> n == DaysInYear(y)
  {
    [0, 31, 59, 90, 120, 151, 181, 212, 243, 273, 304, 334, 365][m - 1]
      + (if m > 2 && IsLeapYear(y) then 1 else 0)
  }

  /** Consecutive months follow each other with no gap and no overlap. */
  lemma MonthStep(y: int, m: int)
    requires 1 <= m <= 12
    ensures DaysBeforeMonth(y, m + 1) == DaysBeforeMonth(y, m) + DaysInMonth(y, m)
  {
  }

  /** The number of the first day of year `y`, counting 1970-01-01 as day 0. */
  function YearStart(y: int): int
    decreases if y < 1970 then 1970 - y else y - 1970
  {
    if y == 1970 then 0
    else if y > 1970 then YearStart(y - 1) + DaysInYear(y - 1)
    else YearStart(y + 1) - DaysInYear(y)
  }

  /** Consecutive years follow each other with no gap and no overlap. */
  lemma YearStartStep(y: int)
    ensures YearStart(y + 1) == YearStart(y) + DaysInYear(y)
  {
  }

  /** Every day of an earlier year comes before every day of a later one. */
  lemma {:induction false} YearStartGrows(a: int, b: int)
    requires a < b
    ensures YearStart(a) + DaysInYear(a) <= YearStart(b)
    decreases b - a
  {
    YearStartStep(a);
    if a + 1 < b {
      YearStartGrows(a + 1, b);
    }
  }

  /** How far a year's first day lies from 1970-01-01: at most 366 days per year in between. */
  lemma {:induction false} YearStartBounds(y: int)
    ensures y >= 1970 ==> 0 <= YearStart(y) <= 366 * (y - 1970)
    ensures y < 1970 ==> -366 * (1970 - y) <= YearStart(y) < 0
    decreases if y < 1970 then 1970 - y else y - 1970
  {
    if y > 1970 {
      YearStartBounds(y - 1);
    } else if y < 1970 {
      YearStartBounds(y + 1);
    }
  }

  /**
   * The day number of day `d` of month `m` of year `y`. The day need not lie
   * inside the month: day 0 is the last day of the month before, day 32 a day
   * of the month after, as JavaScript's `MakeDay` counts them.
   */
  function DaysFromEpoch(y: int, m: int, d: int): int
    requires 1 <= m <= 12
  {
    YearStart(y) + DaysBeforeMonth(y, m) + d - 1
  }

  /** A calendar date: year, month 1 to 12, day of month from 1. */
  datatype Date = Date(year: int, month: int, day: int)

  predicate ValidDate(d: Date)
  {
    1 <= d.month <= 12 && 1 <= d.day <= DaysInMonth(d.year, d.month)
  }

  function DayNumber(d: Date): int
    requires ValidDate(d)
  {
    DaysFromEpoch(d.year, d.month, d.day)
  }

  /** The year holding day `n`. */
  function YearOf(n: int): (y: int)
    ensures YearStart(y) <= n < YearStart(y) + DaysInYear(y)
  {
    if n >= 0 then YearAtOrAfter(n, 1970) else YearAtOrBefore(n, 1969)
  }

  /** Searches forwards from year `y`, which starts no later than day `n`. */
  function YearAtOrAfter(n: int, y: int): (r: int)
    requires YearStart(y) <= n
    ensures YearStart(r) <= n < YearStart(r) + DaysInYear(r)
    decreases n - YearStart(y)
  {
    YearStartStep(y);
    if n < YearStart(y) + DaysInYear(y) then y else YearAtOrAfter(n, y + 1)
  }

  /** Searches backwards from year `y`, which ends after day `n`. */
  function YearAtOrBefore(n: int, y: int): (r: int)
    requires n < YearStart(y) + DaysInYear(y)
    ensures YearStart(r) <= n < YearStart(r) + DaysInYear(r)
    decreases YearStart(y) + DaysInYear(y) - n
  {
    YearStartStep(y - 1);
    if YearStart(y) <= n then y else YearAtOrBefore(n, y - 1)
  }

  /** The month of year `y` holding day `r` of that year (counted from 0), searching from month `m`. */
  function MonthFrom(y: int, r: int, m: int): (k: int)
    requires 1 <= m <= 12
    requires DaysBeforeMonth(y, m) <= r < DaysInYear(y)
    ensures m <= k <= 12
    ensures DaysBeforeMonth(y, k) <= r < DaysBeforeMonth(y, k + 1)
    decreases 12 - m
  {
    MonthStep(y, m);
    if r < DaysBeforeMonth(y, m + 1) then m else MonthFrom(y, r, m + 1)
  }

  /** The date of day number `n`: the inverse of `DayNumber`. */
  function DateOfDayNumber(n: int): (d: Date)
    ensures ValidDate(d) && DayNumber(d) == n
  {
    var y := YearOf(n);
    var r := n - YearStart(y);
    var m := MonthFrom(y, r, 1);
    MonthStep(y, m);
    Date(y, m, r - DaysBeforeMonth(y, m) + 1)
  }

  /** Months of one year follow each other in order. */
  lemma MonthsInOrder(y: int, a: int, b: int)
    requires 1 <= a < b <= 13
    ensures DaysBeforeMonth(y, a + 1) <= DaysBeforeMonth(y, b)
  {
  }

  /** A valid date's number lies inside its year, and inside its month within that year. */
  lemma DayNumberPlacement(d: Date)
    requires ValidDate(d)
    ensures YearStart(d.year) <= DayNumber(d) < YearStart(d.year) + DaysInYear(d.year)
    ensures DaysBeforeMonth(d.year, d.month) <= DayNumber(d) - YearStart(d.year) < DaysBeforeMonth(d.year, d.month + 1)
  {
    MonthStep(d.year, d.month);
  }

  /** Different valid dates have different day numbers. */
  lemma DayNumberInjective(d1: Date, d2: Date)
    requires ValidDate(d1) && ValidDate(d2)
    requires DayNumber(d1) == DayNumber(d2)
    ensures d1 == d2
  {
    DayNumberPlacement(d1);
    DayNumberPlacement(d2);
    if d1.year < d2.year {
      YearStartGrows(d1.year, d2.year);
    } else if d2.year < d1.year {
      YearStartGrows(d2.year, d1.year);
    }
    assert d1.year == d2.year;
    if d1.month < d2.month {
      MonthsInOrder(d1.year, d1.month, d2.month);
    } else if d2.month < d1.month {
      MonthsInOrder(d1.year, d2.month, d1.month);
    }
  }

  /** Numbering a date and reading the number back gives the date. */
  lemma DateRoundTrip(d: Date)
    requires ValidDate(d)
    ensures DateOfDayNumber(DayNumber(d)) == d
  {
    DayNumberInjective(DateOfDayNumber(DayNumber(d)), d);
  }

  /** The calendar's rule for the day after `d`: next day, else first of next month, else New Year. */
  function NextDate(d: Date): (e: Date)
    requires ValidDate(d)
    ensures ValidDate(e)
  {
    if d.day < DaysInMonth(d.year, d.month) then Date(d.year, d.month, d.day + 1)
    else if d.month < 12 then Date(d.year, d.month + 1, 1)
    else Date(d.year + 1, 1, 1)
  }

  /** The day numbering agrees with the calendar's rollover rule for the next day. */
  lemma NextDateIsNextDay(d: Date)
    requires ValidDate(d)
    ensures DayNumber(NextDate(d)) == DayNumber(d) + 1
    ensures DateOfDayNumber(DayNumber(d) + 1) == NextDate(d)
  {
    NextDayNumber(d);
    DateRoundTrip(NextDate(d));
  }

  lemma NextDayNumber(d: Date)
    requires ValidDate(d)
    ensures DayNumber(NextDate(d)) == DayNumber(d) + 1
  {
    MonthStep(d.year, d.month);
    if d.day < DaysInMonth(d.year, d.month) {
    } else if d.month < 12 {
      assert NextDate(d) == Date(d.year, d.month + 1, 1);
    } else {
      YearStartStep(d.year);
      assert NextDate(d) == Date(d.year + 1, 1, 1);
    }
  }

  /** February 28 rolls into February 29 exactly in leap years, and into March 1 otherwise. */
  lemma FebruaryRollover(y: int)
    ensures ValidDate(Date(y, 2, 28))
    ensures NextDate(Date(y, 2, 28)) == if IsLeapYear(y) then Date(y, 2, 29) else Date(y, 3, 1)
    ensures IsLeapYear(y) ==> NextDate(Date(y, 2, 29)) == Date(y, 3, 1)
  {
  }
}
