/**
 * The date and time text both the calendar route and the agenda page write:
 * two-digit zero padding, the local RFC 3339 form `YYYY-MM-DDTHH:MM:SS`
 * (section 5.6 of RFC 3339, `full-date "T" partial-time`, with no
 * `time-offset`), and the agenda's `YYYY-MM-DD` and `HH:MM` fields.
 */
module DateFormat {
  import opened JsStrings
  import opened JsNumbers
  import opened Gregorian
  import opened JsDates

  /** `pad(n)`: `String(n).padStart(2, "0")`. */
  function Pad(n: JsNum): string
  {
    PadStart(ToString(n), 2, '0')
  }

  /** A number from 0 to 99 pads to two decimal digits that read back as the number. */
  lemma PadTwoDigits(n: nat)
    requires n <= 99
    ensures |Pad(Finite(n))| == 2 && AllDigits(Pad(Finite(n)))
    ensures NumberOf(Pad(Finite(n))) == Finite(n)
  {
    if n < 10 {
      assert DecimalString(n) == [DigitChar(n)];
      assert Pad(Finite(n)) == ['0', DigitChar(n)];
      NumberOfLeadingZero(Pad(Finite(n)));
    } else {
      assert DecimalString(n) == DecimalString(n / 10) + [DigitChar(n % 10)];
      assert DecimalString(n / 10) == [DigitChar(n / 10)];
      NumberOfDecimal(n);
    }
  }

  /** `toLocalRFC3339(d)`: the local date and time with no "Z" and no milliseconds. */
  function ToLocalRfc3339(d: JsDate): string
  {
    ToString(GetFullYear(d)) + "-" + Pad(Plus(GetMonth(d), 1)) + "-" + Pad(GetDate(d))
    + "T" + Pad(GetHours(d)) + ":" + Pad(GetMinutes(d)) + ":" + Pad(GetSeconds(d))
  }

  /** `ymd(d)`: the local date, with the month counted from 1. */
  function Ymd(d: JsDate): string
  {
    ToString(GetFullYear(d)) + "-" + Pad(Plus(GetMonth(d), 1)) + "-" + Pad(GetDate(d))
  }

  /** `hm(d)`: the local hour and minute. */
  function Hm(d: JsDate): string
  {
    Pad(GetHours(d)) + ":" + Pad(GetMinutes(d))
  }

  /** An invalid date writes "NaN" in every field. */
  lemma ToLocalRfc3339OfInvalid()
    ensures ToLocalRfc3339(Invalid) == "NaN-NaN-NaNTNaN:NaN:NaN"
  {
  }

  /** A character that is not a digit does not occur in a digit string. */
  lemma NotInDigits(s: string, c: char)
    requires AllDigits(s) && !IsDigit(c)
    ensures c !in s
  {
    assert forall i :: 0 <= i < |s| ==> IsDigit(s[i]);
  }

  /** `ymd` of a valid time value writes its year, its calendar month and its day. */
  lemma YmdOfValid(n: int)
    ensures var t := DateTimeOf(n);
      Ymd(At(n)) == IntString(t.date.year) + "-" + Pad(Finite(t.date.month)) + "-" + Pad(Finite(t.date.day))
  {
  }

  /** `hm` of a valid time value writes its hour and minute. */
  lemma HmOfValid(n: int)
    ensures var t := DateTimeOf(n);
      Hm(At(n)) == Pad(Finite(t.hour)) + ":" + Pad(Finite(t.minute))
  {
  }

  /** The `ymd` text of a four-digit year, a month and a day, and how its fields read back. */
  lemma DateTextReadsBack(y: int, m: int, d: int)
    requires 1000 <= y <= 9999 && 1 <= m <= 12 && 1 <= d <= 31
    ensures var s := IntString(y) + "-" + Pad(Finite(m)) + "-" + Pad(Finite(d));
      && |s| == 10 && s[4] == '-' && s[7] == '-'
      && NumberOf(Slice(s, 0, 4)) == Finite(y)
      && NumberOf(Slice(s, 5, 7)) == Finite(m)
      && NumberOf(Slice(s, 8, 10)) == Finite(d)
  {
    var ys, ms, ds := DecimalString(y), Pad(Finite(m)), Pad(Finite(d));
    assert IntString(y) == ys;
    DecimalStringFourDigits(y);
    PadTwoDigits(m);
    PadTwoDigits(d);
    NumberOfDecimal(y);
    SlicesOfDateText(ys, ms, ds);
  }

  lemma SlicesOfDateText(ys: string, ms: string, ds: string)
    requires |ys| == 4 && |ms| == 2 && |ds| == 2
    ensures var s := ys + "-" + ms + "-" + ds;
      && |s| == 10 && s[4] == '-' && s[7] == '-'
      && Slice(s, 0, 4) == ys && Slice(s, 5, 7) == ms && Slice(s, 8, 10) == ds
  {
    var s := ys + "-" + ms + "-" + ds;
    assert s[0..4] == ys;
    assert s[5..7] == ms;
    assert s[8..10] == ds;
  }

  /** The `hm` text of an hour and a minute, and how its fields read back. */
  lemma TimeTextReadsBack(h: int, mi: int)
    requires 0 <= h < 24 && 0 <= mi < 60
    ensures var s := Pad(Finite(h)) + ":" + Pad(Finite(mi));
      && |s| == 5 && s[2] == ':'
      && Split(s, ':') == [Pad(Finite(h)), Pad(Finite(mi))]
      && NumberOf(Pad(Finite(h))) == Finite(h)
      && NumberOf(Pad(Finite(mi))) == Finite(mi)
  {
    PadTwoDigits(h);
    PadTwoDigits(mi);
    DigitClock(Pad(Finite(h)), Pad(Finite(mi)));
  }

  /**
   * Two two-digit fields joined by a colon: five characters, digits at both
   * ends, no dash, and splitting at the colon gives the fields back.
   */
  lemma DigitClock(hs: string, ms: string)
    requires |hs| == 2 && AllDigits(hs) && |ms| == 2 && AllDigits(ms)
    ensures var s := hs + ":" + ms;
      && |s| == 5 && s[2] == ':' && IsDigit(s[0]) && IsDigit(s[4]) && '-' !in s
      && Split(s, ':') == [hs, ms]
  {
    NotInDigits(hs, ':');
    NotInDigits(ms, ':');
    NotInDigits(hs, '-');
    NotInDigits(ms, '-');
    SplitJoin([hs, ms], ':');
    assert Join([hs, ms], [':']) == hs + ":" + ms;
  }

  /**
   * For a year with four digits, `ymd` writes exactly ten characters, dashes
   * at positions 4 and 7, and fields that read back as the year, the
   * calendar month (one above `getMonth`) and the day.
   */
  lemma YmdReadsBack(n: int)
    requires 1000 <= DateTimeOf(n).date.year <= 9999
    ensures var s, t := Ymd(At(n)), DateTimeOf(n);
      && |s| == 10 && s[4] == '-' && s[7] == '-'
      && NumberOf(Slice(s, 0, 4)) == Finite(t.date.year)
      && NumberOf(Slice(s, 5, 7)) == Finite(t.date.month)
      && NumberOf(Slice(s, 8, 10)) == Finite(t.date.day)
  {
    var t := DateTimeOf(n);
    YmdOfValid(n);
    DateTextReadsBack(t.date.year, t.date.month, t.date.day);
  }

  /**
   * `hm` writes exactly five characters with the colon at position 2; split
   * at the colon it gives the padded hour and minute, which read back.
   */
  lemma HmReadsBack(n: int)
    ensures var s, t := Hm(At(n)), DateTimeOf(n);
      && |s| == 5 && s[2] == ':'
      && Split(s, ':') == [Pad(Finite(t.hour)), Pad(Finite(t.minute))]
      && NumberOf(Pad(Finite(t.hour))) == Finite(t.hour)
      && NumberOf(Pad(Finite(t.minute))) == Finite(t.minute)
  {
    var t := DateTimeOf(n);
    HmOfValid(n);
    TimeTextReadsBack(t.hour, t.minute);
  }

  /** `toLocalRFC3339` writes the `ymd` text, "T", the `hm` text, a colon and the padded seconds. */
  lemma ToLocalRfc3339Parts(d: JsDate)
    ensures ToLocalRfc3339(d) == Ymd(d) + "T" + Hm(d) + ":" + Pad(GetSeconds(d))
  {
    Regroup(ToString(GetFullYear(d)), Pad(Plus(GetMonth(d), 1)), Pad(GetDate(d)),
            Pad(GetHours(d)), Pad(GetMinutes(d)), Pad(GetSeconds(d)));
  }

  lemma Regroup(y: string, m: string, d: string, h: string, mi: string, sec: string)
    ensures y + "-" + m + "-" + d + "T" + h + ":" + mi + ":" + sec
         == (y + "-" + m + "-" + d) + "T" + (h + ":" + mi) + ":" + sec
  {
  }

  /** `toLocalRFC3339` of a valid time value is its `ymd` text, "T", its `hm` text and ":00". */
  lemma ToLocalRfc3339OfValid(n: int)
    ensures ToLocalRfc3339(At(n)) == Ymd(At(n)) + "T" + Hm(At(n)) + ":00"
  {
    var d := At(n);
    ToLocalRfc3339Parts(d);
    assert GetSeconds(d) == Finite(0);
    PadZero();
    ZeroSeconds(Ymd(d) + "T" + Hm(d));
  }

  lemma ZeroSeconds(a: string)
    ensures a + ":" + "00" == a + ":00"
  {
  }

  lemma PadZero()
    ensures Pad(Finite(0)) == "00"
  {
    assert DecimalString(0) == "0";
  }

  /**
   * For a four-digit year the local RFC 3339 text is nineteen characters with
   * the separators of `YYYY-MM-DDTHH:MM:SS`, and has no "Z" and no fraction.
   */
  lemma LocalRfc3339Shape(n: int)
    requires 1000 <= DateTimeOf(n).date.year <= 9999
    ensures var s := ToLocalRfc3339(At(n));
      && |s| == 19 && s[4] == '-' && s[7] == '-' && s[10] == 'T' && s[13] == ':' && s[16] == ':'
      && s[17..] == "00" && 'Z' !in s && '.' !in s
  {
    var t := DateTimeOf(n);
    ToLocalRfc3339OfValid(n);
    YmdOfValid(n);
    HmOfValid(n);
    DecimalStringFourDigits(t.date.year);
    PadTwoDigits(t.date.month);
    PadTwoDigits(t.date.day);
    PadTwoDigits(t.hour);
    PadTwoDigits(t.minute);
    NoLetters(IntString(t.date.year), Pad(Finite(t.date.month)), Pad(Finite(t.date.day)),
              Pad(Finite(t.hour)), Pad(Finite(t.minute)));
  }

  lemma NoLetters(y: string, m: string, d: string, h: string, mi: string)
    requires |y| == 4 && AllDigits(y) && |m| == 2 && AllDigits(m) && |d| == 2 && AllDigits(d)
    requires |h| == 2 && AllDigits(h) && |mi| == 2 && AllDigits(mi)
    ensures var s := (y + "-" + m + "-" + d) + "T" + (h + ":" + mi) + ":00";
      && |s| == 19 && s[4] == '-' && s[7] == '-' && s[10] == 'T' && s[13] == ':' && s[16] == ':'
      && s[17..] == "00" && 'Z' !in s && '.' !in s
  {
    var s := (y + "-" + m + "-" + d) + "T" + (h + ":" + mi) + ":00";
    forall i | 0 <= i < |s|
      ensures s[i] != 'Z' && s[i] != '.'
    {
      if i < 4 {
        assert s[i] == y[i];
      } else if 5 <= i < 7 {
        assert s[i] == m[i - 5];
      } else if 8 <= i < 10 {
        assert s[i] == d[i - 8];
      } else if 11 <= i < 13 {
        assert s[i] == h[i - 11];
      } else if 14 <= i < 16 {
        assert s[i] == mi[i - 14];
      }
    }
  }

  /** The `YYYY-MM-DD` text of a calendar date. */
  function DateText(d: Date): string
  {
    IntString(d.year) + "-" + Pad(Finite(d.month)) + "-" + Pad(Finite(d.day))
  }

  /** The `HH:MM` text of an hour and a minute. */
  function TimeText(h: int, mi: int): string
  {
    Pad(Finite(h)) + ":" + Pad(Finite(mi))
  }

  /**
   * A time value built from the fields of a valid wall-clock time formats
   * back to those fields.
   */
  lemma TextsOfFields(t: DateTime)
    requires ValidDateTime(t)
    ensures var n := MinuteNumber(t);
      && Ymd(At(n)) == DateText(t.date) && Hm(At(n)) == TimeText(t.hour, t.minute)
      && ToLocalRfc3339(At(n)) == DateText(t.date) + "T" + TimeText(t.hour, t.minute) + ":00"
  {
    var n := MinuteNumber(t);
    DateTimeRoundTrip(t);
    YmdOfValid(n);
    HmOfValid(n);
    ToLocalRfc3339OfValid(n);
  }

  /** Two-digit padding written out digit by digit. */
  lemma PadDigits(n: nat)
    requires n <= 99
    ensures Pad(Finite(n)) == [DigitChar(n / 10), DigitChar(n % 10)]
  {
    if n < 10 {
      assert DecimalString(n) == [DigitChar(n)];
    } else {
      assert DecimalString(n / 10) == [DigitChar(n / 10)];
    }
  }
}
