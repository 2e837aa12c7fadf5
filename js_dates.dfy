/**
 * JavaScript's `Date` as the calendar code uses it: built from local
 * year/month/day/hour/minute fields, read back through the local getters,
 * and moved with `setMinutes`. The time value is counted in minutes of
 * local wall-clock time from 1970-01-01T00:00; seconds and milliseconds are
 * always zero in this code, so a minute count is the whole state.
 */
module JsDates {
  import opened Gregorian
  import opened JsNumbers

  /** A local wall-clock date and time at minute resolution. */
  datatype DateTime = DateTime(date: Date, hour: int, minute: int)

  predicate ValidDateTime(t: DateTime)
  {
    ValidDate(t.date) && 0 <= t.hour < 24 && 0 <= t.minute < 60
  }

  /** Minutes from 1970-01-01T00:00 to `t`. */
  function MinuteNumber(t: DateTime): int
    requires ValidDateTime(t)
  {
    DayNumber(t.date) * 1440 + t.hour * 60 + t.minute
  }

  /** The wall-clock time `n` minutes after 1970-01-01T00:00: the inverse of `MinuteNumber`. */
  function DateTimeOf(n: int): (t: DateTime)
    ensures ValidDateTime(t) && MinuteNumber(t) == n
  {
    DateTime(DateOfDayNumber(n / 1440), (n % 1440) / 60, (n % 1440) % 60)
  }

  /** Minute numbers of different valid times differ. */
  lemma MinuteNumberInjective(t1: DateTime, t2: DateTime)
    requires ValidDateTime(t1) && ValidDateTime(t2)
    requires MinuteNumber(t1) == MinuteNumber(t2)
    ensures t1 == t2
  {
    var n := MinuteNumber(t1);
    var r1 := t1.hour * 60 + t1.minute;
    var r2 := t2.hour * 60 + t2.minute;
    assert DayNumber(t1.date) == n / 1440 && r1 == n % 1440;
    assert DayNumber(t2.date) == n / 1440 && r2 == n % 1440;
    DayNumberInjective(t1.date, t2.date);
  }

  /** Numbering a time and reading the number back gives the time. */
  lemma DateTimeRoundTrip(t: DateTime)
    requires ValidDateTime(t)
    ensures DateTimeOf(MinuteNumber(t)) == t
  {
    MinuteNumberInjective(DateTimeOf(MinuteNumber(t)), t);
  }

  /** The time value limit of `TimeClip`: 8.64e15 milliseconds, in minutes. */
  const MaxMinutes: int := 144_000_000_000

  /** A `Date` object: an invalid date (time value NaN) or a time value in minutes. */
  datatype JsDate = Invalid | At(minutes: int)

  /** `TimeClip`: time values beyond the limit make the date invalid. */
  function TimeClip(n: int): (d: JsDate)
    ensures d.At? <==> -MaxMinutes <= n <= MaxMinutes
    ensures d.At? ==> d.minutes == n
  {
    if -MaxMinutes <= n <= MaxMinutes then At(n) else Invalid
  }

  /**
   * `new Date(year, monthIndex, day, hours, minutes, 0, 0)`. Any non-finite
   * argument gives an invalid date; a year from 0 to 99 means 1900 to 1999;
   * a month index outside 0..11 moves whole years, and days, hours and
   * minutes outside their ranges roll over into the neighbouring units.
   */
  function NewDate(year: JsNum, monthIndex: JsNum, day: JsNum, hours: JsNum, minutes: JsNum): JsDate
  {
    if year.Finite? && monthIndex.Finite? && day.Finite? && hours.Finite? && minutes.Finite? then
      var y := if 0 <= year.value <= 99 then 1900 + year.value else year.value;
      var m := monthIndex.value;
      TimeClip(DaysFromEpoch(y + m / 12, m % 12 + 1, day.value) * 1440
               + hours.value * 60 + minutes.value)
    else Invalid
  }

  /** `d.getFullYear()`. */
  function GetFullYear(d: JsDate): JsNum
  {
    if d.At? then Finite(DateTimeOf(d.minutes).date.year) else NaN
  }

  /** `d.getMonth()`: the month counted from 0. */
  function GetMonth(d: JsDate): JsNum
  {
    if d.At? then Finite(DateTimeOf(d.minutes).date.month - 1) else NaN
  }

  /** `d.getDate()`: the day of the month. */
  function GetDate(d: JsDate): JsNum
  {
    if d.At? then Finite(DateTimeOf(d.minutes).date.day) else NaN
  }

  /** `d.getHours()`. */
  function GetHours(d: JsDate): JsNum
  {
    if d.At? then Finite(DateTimeOf(d.minutes).hour) else NaN
  }

  /** `d.getMinutes()`. */
  function GetMinutes(d: JsDate): JsNum
  {
    if d.At? then Finite(DateTimeOf(d.minutes).minute) else NaN
  }

  /** `d.getSeconds()`: always 0 for the dates this code builds. */
  function GetSeconds(d: JsDate): JsNum
  {
    if d.At? then Finite(0) else NaN
  }

  /** `d.setMinutes(m)`: keeps the day and the hour, replaces the minute field by `m`, and rolls over. */
  function SetMinutes(d: JsDate, m: JsNum): JsDate
  {
    if d.At? && m.Finite? then
      TimeClip(d.minutes - DateTimeOf(d.minutes).minute + m.value)
    else Invalid
  }

  /** Years within 100000 of 1970 lie well inside the time value limit. */
  lemma MinuteNumberInRange(t: DateTime)
    requires ValidDateTime(t)
    requires -100000 <= t.date.year - 1970 <= 100000
    ensures -MaxMinutes <= MinuteNumber(t) <= MaxMinutes
  {
    YearStartBounds(t.date.year);
    DayNumberPlacement(t.date);
  }

  /** The getters read back the fields of a valid wall-clock time. */
  lemma GettersOfValid(t: DateTime)
    requires ValidDateTime(t)
    ensures GetFullYear(At(MinuteNumber(t))) == Finite(t.date.year)
    ensures GetMonth(At(MinuteNumber(t))) == Finite(t.date.month - 1)
    ensures GetDate(At(MinuteNumber(t))) == Finite(t.date.day)
    ensures GetHours(At(MinuteNumber(t))) == Finite(t.hour)
    ensures GetMinutes(At(MinuteNumber(t))) == Finite(t.minute)
  {
    DateTimeRoundTrip(t);
  }

  /**
   * Building a date from in-range fields of a year after 99 gives exactly
   * that wall-clock time, with the month index one below the calendar month.
   */
  lemma NewDateOfFields(t: DateTime)
    requires ValidDateTime(t) && 100 <= t.date.year
    requires -100000 <= t.date.year - 1970 <= 100000
    ensures NewDate(Finite(t.date.year), Finite(t.date.month - 1), Finite(t.date.day),
                    Finite(t.hour), Finite(t.minute)) == At(MinuteNumber(t))
  {
    MinuteNumberInRange(t);
  }

  /** A month index of 12 is January of the following year. */
  lemma NewDateMonthOverflow(y: int, day: int, h: int, mi: int)
    requires 100 <= y
    ensures NewDate(Finite(y), Finite(12), Finite(day), Finite(h), Finite(mi))
         == NewDate(Finite(y + 1), Finite(0), Finite(day), Finite(h), Finite(mi))
  {
  }

  /** Day 0 of a month is the last day of the month before. */
  lemma NewDateDayZero(y: int, m: int)
    requires 100 <= y && 2 <= m <= 12
    ensures NewDate(Finite(y), Finite(m - 1), Finite(0), Finite(0), Finite(0))
         == NewDate(Finite(y), Finite(m - 2), Finite(DaysInMonth(y, m - 1)), Finite(0), Finite(0))
  {
    assert (m - 1) / 12 == 0 && (m - 1) % 12 == m - 1;
    assert (m - 2) / 12 == 0 && (m - 2) % 12 == m - 2;
    MonthStep(y, m - 1);
    assert DaysFromEpoch(y, m, 0) == DaysFromEpoch(y, m - 1, DaysInMonth(y, m - 1));
  }

  /** Adding `k` to the minute field moves a valid date by exactly `k` minutes. */
  lemma SetMinutesAdds(n: int, k: int)
    ensures SetMinutes(At(n), Plus(GetMinutes(At(n)), k)) == TimeClip(n + k)
  {
  }
}
