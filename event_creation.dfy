/**
 * Creating an appointment (`POST /api/calendar/events`): the required-field
 * check, the local start and end texts, the summary and description, the
 * private properties and the monthly recurrence rule of the event sent to
 * the calendar.
 */
module EventCreation {
  import opened Wrappers
  import opened JsStrings
  import opened JsNumbers
  import opened JsArrays
  import opened Gregorian
  import opened JsDates
  import opened DateFormat

  /** The time zone every event is created in. */
  const TimeZone: string := "America/Sao_Paulo"

  /** A truthy string: present and not empty. */
  predicate Given(s: Option<string>)
  {
    s.Some? && s.value != ""
  }

  predicate NonEmpty(s: string)
  {
    s != ""
  }

  // ---------------------------------------------------------------------
  // The end of an appointment
  // ---------------------------------------------------------------------

  /** The numbers `new Date` receives for a "YYYY-MM-DD" date and an "HH:mm" time. */
  datatype DateArgs = DateArgs(year: JsNum, monthIndex: JsNum, day: JsNum, hours: JsNum, minutes: JsNum)

  /**
   * The year, month and day are read from fixed positions of the date; an
   * hour or minute that reads as 0 or NaN, or is missing, counts as 0.
   */
  function StartArgs(date: string, time: string): DateArgs
  {
    var parts := Split(time, ':');
    var hh := NumberOf(parts[0]);
    var mm := if |parts| > 1 then OrElse(NumberOf(parts[1]), 0) else Finite(0);
    DateArgs(NumberOf(Slice(date, 0, 4)), Plus(NumberOf(Slice(date, 5, 7)), -1),
             NumberOf(Slice(date, 8, 10)), OrElse(hh, 0), mm)
  }

  /** The `Date` built from a "YYYY-MM-DD" date and an "HH:mm" time. */
  function StartDate(date: string, time: string): JsDate
  {
    var a := StartArgs(date, time);
    NewDate(a.year, a.monthIndex, a.day, a.hours, a.minutes)
  }

  /**
   * `buildEndLocal(date, time, addMinutes)`: the start moved forward by
   * `addMinutes` minutes through `setMinutes`, or by 60 minutes when
   * `addMinutes` is not finite, written as local RFC 3339 text.
   */
  function BuildEndLocal(date: string, time: string, addMinutes: JsNum): string
  {
    var d := StartDate(date, time);
    var add := if addMinutes.Finite? then addMinutes.value else 60;
    ToLocalRfc3339(SetMinutes(d, Plus(GetMinutes(d), add)))
  }

  /** A date and a time whose fields read back as numbers give those numbers to `new Date`. */
  lemma StartArgsOfFields(date: string, time: string, ys: string, ms: string, ds: string, hs: string, mis: string,
                          y: int, m: int, d: int, h: int, mi: int)
    requires Slice(date, 0, 4) == ys && Slice(date, 5, 7) == ms && Slice(date, 8, 10) == ds
    requires Split(time, ':') == [hs, mis]
    requires NumberOf(ys) == Finite(y) && NumberOf(ms) == Finite(m) && NumberOf(ds) == Finite(d)
    requires NumberOf(hs) == Finite(h) && NumberOf(mis) == Finite(mi)
    ensures StartArgs(date, time) == DateArgs(Finite(y), Finite(m - 1), Finite(d), Finite(h), Finite(mi))
  {
    assert OrElse(NumberOf(hs), 0) == Finite(h);
    assert OrElse(NumberOf(mis), 0) == Finite(mi);
    assert Plus(NumberOf(ms), -1) == Finite(m - 1);
  }

  /** The date and time texts of a valid time with a four-digit year read back as that time. */
  lemma StartDateOfTexts(t: DateTime)
    requires ValidDateTime(t) && 1000 <= t.date.year <= 9999
    ensures StartDate(DateText(t.date), TimeText(t.hour, t.minute)) == At(MinuteNumber(t))
  {
    DateTextReadsBack(t.date.year, t.date.month, t.date.day);
    TimeTextReadsBack(t.hour, t.minute);
    var date := DateText(t.date);
    StartDateOfFields(date, TimeText(t.hour, t.minute),
                      Slice(date, 0, 4), Slice(date, 5, 7), Slice(date, 8, 10),
                      Pad(Finite(t.hour)), Pad(Finite(t.minute)), t);
  }

  /** A date and a time whose fields read back as those of a valid time `t` start at `t`. */
  lemma StartDateOfFields(date: string, time: string, ys: string, ms: string, ds: string, hs: string, mis: string,
                          t: DateTime)
    requires ValidDateTime(t) && 1000 <= t.date.year <= 9999
    requires Slice(date, 0, 4) == ys && Slice(date, 5, 7) == ms && Slice(date, 8, 10) == ds
    requires Split(time, ':') == [hs, mis]
    requires NumberOf(ys) == Finite(t.date.year) && NumberOf(ms) == Finite(t.date.month)
    requires NumberOf(ds) == Finite(t.date.day)
    requires NumberOf(hs) == Finite(t.hour) && NumberOf(mis) == Finite(t.minute)
    ensures StartDate(date, time) == At(MinuteNumber(t))
  {
    StartArgsOfFields(date, time, ys, ms, ds, hs, mis, t.date.year, t.date.month, t.date.day, t.hour, t.minute);
    NewDateOfFields(t);
  }

  /**
   * For a valid date and time with a four-digit year, the end is the local
   * text of the time exactly `k` minutes later, whatever day, month or year
   * boundary lies in between.
   */
  lemma BuildEndLocalAddsMinutes(t: DateTime, k: int)
    requires ValidDateTime(t) && 1000 <= t.date.year <= 9999
    requires -MaxMinutes <= MinuteNumber(t) + k <= MaxMinutes
    ensures BuildEndLocal(DateText(t.date), TimeText(t.hour, t.minute), Finite(k))
         == ToLocalRfc3339(At(MinuteNumber(t) + k))
  {
    StartDateOfTexts(t);
    EndOfStart(DateText(t.date), TimeText(t.hour, t.minute), MinuteNumber(t), k);
  }

  /**
   * An end beyond the range of `Date` makes the date invalid, and the end
   * text is then "NaN" in every field.
   */
  lemma FarEndIsNaN(date: string, time: string, n: int, k: int)
    requires StartDate(date, time) == At(n)
    requires n + k < -MaxMinutes || MaxMinutes < n + k
    ensures BuildEndLocal(date, time, Finite(k)) == "NaN-NaN-NaNTNaN:NaN:NaN"
  {
    var d := StartDate(date, time);
    SetMinutesAdds(n, k);
    assert SetMinutes(d, Plus(GetMinutes(d), k)) == Invalid;
    ToLocalRfc3339OfInvalid();
  }

  /** The end of an appointment whose start reads as minute `n` is the text of minute `n + k`. */
  lemma EndOfStart(date: string, time: string, n: int, k: int)
    requires StartDate(date, time) == At(n)
    requires -MaxMinutes <= n + k <= MaxMinutes
    ensures BuildEndLocal(date, time, Finite(k)) == ToLocalRfc3339(At(n + k))
  {
    var d := StartDate(date, time);
    var e := SetMinutes(d, Plus(GetMinutes(d), k));
    SetMinutesAdds(n, k);
    assert e == At(n + k);
  }

  /** The `ymd` and `hm` texts the agenda writes for a time value are the texts of its fields. */
  lemma AgendaTextsAreFieldTexts(n: int)
    ensures var t := DateTimeOf(n);
      Ymd(At(n)) == DateText(t.date) && Hm(At(n)) == TimeText(t.hour, t.minute)
  {
    TextsOfFields(DateTimeOf(n));
  }

  /** Adding no minutes gives back the start text `${date}T${time}:00`. */
  lemma BuildEndLocalOfZero(t: DateTime)
    requires ValidDateTime(t) && 1000 <= t.date.year <= 9999
    ensures BuildEndLocal(DateText(t.date), TimeText(t.hour, t.minute), Finite(0))
         == DateText(t.date) + "T" + TimeText(t.hour, t.minute) + ":00"
  {
    MinuteNumberInRange(t);
    BuildEndLocalAddsMinutes(t, 0);
    TextsOfFields(t);
  }

  /** An end before midnight keeps the date; the clock moves on by `k` minutes to `h`:`mi`. */
  lemma EndOnSameDay(t: DateTime, k: int, h: int, mi: int)
    requires ValidDateTime(t) && 1000 <= t.date.year <= 9999
    requires 0 <= h < 24 && 0 <= mi < 60 && h * 60 + mi == t.hour * 60 + t.minute + k
    ensures BuildEndLocal(DateText(t.date), TimeText(t.hour, t.minute), Finite(k))
         == DateText(t.date) + "T" + TimeText(h, mi) + ":00"
  {
    EndAt(t, k, t.date, h, mi);
  }

  /**
   * An end past midnight falls on the next calendar day (the first of the
   * next month after a month's last day, New Year's Day after 31 December,
   * 29 February after 28 February in a leap year) at `h`:`mi`, `k` minutes
   * after the start.
   */
  lemma EndOnNextDay(t: DateTime, k: int, h: int, mi: int)
    requires ValidDateTime(t) && 1000 <= t.date.year && NextDate(t.date).year <= 9999
    requires 0 <= h < 24 && 0 <= mi < 60 && 1440 + h * 60 + mi == t.hour * 60 + t.minute + k
    ensures BuildEndLocal(DateText(t.date), TimeText(t.hour, t.minute), Finite(k))
         == DateText(NextDate(t.date)) + "T" + TimeText(h, mi) + ":00"
  {
    NextDateIsNextDay(t.date);
    EndAt(t, k, NextDate(t.date), h, mi);
  }

  /**
   * The end of an appointment at `t` lasting `k` minutes is the text of the
   * date `d` and the clock `h`:`mi` exactly `k` minutes later.
   */
  lemma EndAt(t: DateTime, k: int, d: Date, h: int, mi: int)
    requires ValidDateTime(t) && 1000 <= t.date.year <= 9999
    requires ValidDateTime(DateTime(d, h, mi)) && 1000 <= d.year <= 9999
    requires MinuteNumber(DateTime(d, h, mi)) == MinuteNumber(t) + k
    ensures BuildEndLocal(DateText(t.date), TimeText(t.hour, t.minute), Finite(k))
         == DateText(d) + "T" + TimeText(h, mi) + ":00"
  {
    var e := DateTime(d, h, mi);
    MinuteNumberInRange(e);
    BuildEndLocalAddsMinutes(t, k);
    TextsOfFields(e);
  }

  /** A duration that is not a finite number adds one hour. */
  lemma NonFiniteDurationIsAnHour(date: string, time: string, addMinutes: JsNum)
    requires !addMinutes.Finite?
    ensures BuildEndLocal(date, time, addMinutes) == BuildEndLocal(date, time, Finite(60))
  {
  }

  /** An hour that is not a number counts as hour 0. */
  lemma NonNumericHourIsZero(date: string, hour: string, rest: string, addMinutes: JsNum)
    requires ':' !in hour && NumberOf(hour) == NaN
    ensures BuildEndLocal(date, hour + ":" + rest, addMinutes) == BuildEndLocal(date, "0:" + rest, addMinutes)
  {
    SplitAfterPiece(hour, ':', rest);
    SplitAfterPiece("0", ':', rest);
    assert hour + ":" + rest == hour + [':'] + rest;
    assert "0:" + rest == "0" + [':'] + rest;
    assert NumberOf("0") == Finite(0) by {
      TrimUnpadded("0");
      assert "0"[..0] == [];
    }
    var p1, p2 := Split(hour + ":" + rest, ':'), Split("0:" + rest, ':');
    assert p1[1..] == p2[1..];
    assert OrElse(NumberOf(p1[0]), 0) == OrElse(NumberOf(p2[0]), 0);
    assert StartArgs(date, hour + ":" + rest) == StartArgs(date, "0:" + rest);
  }

  /** A minute that is not a number, or no minute at all, counts as minute 0. */
  lemma NonNumericMinuteIsZero(date: string, hour: string, minute: string, addMinutes: JsNum)
    requires ':' !in hour && ':' !in minute && NumberOf(minute) == NaN
    ensures BuildEndLocal(date, hour + ":" + minute, addMinutes) == BuildEndLocal(date, hour, addMinutes)
  {
    SplitAfterPiece(hour, ':', minute);
    SplitNoSeparator(minute, ':');
    SplitNoSeparator(hour, ':');
    assert hour + ":" + minute == hour + [':'] + minute;
    var p1, p2 := Split(hour + ":" + minute, ':'), Split(hour, ':');
    assert p1 == [hour, minute] && p2 == [hour];
    assert OrElse(NumberOf(p1[1]), 0) == Finite(0);
    assert StartArgs(date, hour + ":" + minute) == StartArgs(date, hour);
  }

  /** A date whose year does not read as a number gives an end of "NaN" fields. */
  lemma MalformedYearIsNaN(date: string, time: string, addMinutes: JsNum)
    requires NumberOf(Slice(date, 0, 4)) == NaN
    ensures BuildEndLocal(date, time, addMinutes) == "NaN-NaN-NaNTNaN:NaN:NaN"
  {
    ToLocalRfc3339OfInvalid();
  }

  /** Half an hour after 23:45 on 31 January 2024 is 00:15 on 1 February. */
  lemma EndCrossesMonth()
    ensures BuildEndLocal(DateText(Date(2024, 1, 31)), TimeText(23, 45), Finite(30))
         == DateText(Date(2024, 2, 1)) + "T" + TimeText(0, 15) + ":00"
  {
    EndOnNextDay(DateTime(Date(2024, 1, 31), 23, 45), 30, 0, 15);
  }

  /** Twenty minutes after 23:50 on 28 February 2024, a leap year, is 00:10 on 29 February. */
  lemma EndReachesLeapDay()
    ensures BuildEndLocal(DateText(Date(2024, 2, 28)), TimeText(23, 50), Finite(20))
         == DateText(Date(2024, 2, 29)) + "T" + TimeText(0, 10) + ":00"
  {
    FebruaryRollover(2024);
    assert NextDate(Date(2024, 2, 28)) == Date(2024, 2, 29);
    EndOnNextDay(DateTime(Date(2024, 2, 28), 23, 50), 20, 0, 10);
  }

  /** Twenty minutes after 23:50 on 28 February 2023 is 00:10 on 1 March. */
  lemma EndSkipsLeapDay()
    ensures BuildEndLocal(DateText(Date(2023, 2, 28)), TimeText(23, 50), Finite(20))
         == DateText(Date(2023, 3, 1)) + "T" + TimeText(0, 10) + ":00"
  {
    EndOnNextDay(DateTime(Date(2023, 2, 28), 23, 50), 20, 0, 10);
  }

  /** Forty-five minutes after 23:30 on 31 December 2023 is 00:15 on 1 January 2024. */
  lemma EndCrossesYear()
    ensures BuildEndLocal(DateText(Date(2023, 12, 31)), TimeText(23, 30), Finite(45))
         == DateText(Date(2024, 1, 1)) + "T" + TimeText(0, 15) + ":00"
  {
    EndOnNextDay(DateTime(Date(2023, 12, 31), 23, 30), 45, 0, 15);
  }

  // ---------------------------------------------------------------------
  // Summary, description and recurrence
  // ---------------------------------------------------------------------

  /** The star marking a VIP patient. */
  const VipMarker: string := "\U{2B50} VIP"

  /** The pieces of the summary: the VIP marker, the patient, "– treatment", those not empty. */
  function SummaryParts(vip: bool, patientName: string, treatment: string): seq<string>
  {
    Keep([if vip then VipMarker else "", patientName,
          if treatment != "" then "\U{2013} " + treatment else ""], NonEmpty)
  }

  /** The summary: its pieces joined by spaces. */
  function Summary(vip: bool, patientName: string, treatment: string): string
  {
    Join(SummaryParts(vip, patientName, treatment), " ")
  }

  /** The non-empty ones of three texts, in order. */
  lemma KeepThree(a: string, b: string, c: string)
    ensures Keep([a, b, c], NonEmpty)
         == (if a != "" then [a] else []) + (if b != "" then [b] else []) + (if c != "" then [c] else [])
  {
    var s := [a, b, c];
    assert s[1..] == [b, c];
    assert s[1..][1..] == [c];
    assert s[1..][1..][1..] == [];
    assert Keep([c], NonEmpty) == (if c != "" then [c] else []);
    assert Keep([b, c], NonEmpty) == (if b != "" then [b] else []) + Keep([c], NonEmpty);
  }

  /**
   * The summary of a named patient, written out: the VIP marker and a space
   * exactly when the patient is a VIP, the name, and " – treatment" exactly
   * when a treatment is given.
   */
  lemma SummaryText(vip: bool, patientName: string, treatment: string)
    requires patientName != ""
    ensures Summary(vip, patientName, treatment)
         == (if vip then VipMarker + " " else "") + patientName
            + (if treatment != "" then " \U{2013} " + treatment else "")
  {
    var a := if vip then VipMarker else "";
    var c := if treatment != "" then "\U{2013} " + treatment else "";
    JoinAroundName(a, patientName, c);
    assert a != "" <==> vip;
    assert c != "" <==> treatment != "";
  }

  /** Three pieces joined by spaces once the empty ones are dropped, the middle one never empty. */
  lemma JoinAroundName(a: string, name: string, c: string)
    requires name != ""
    ensures Join(Keep([a, name, c], NonEmpty), " ")
         == (if a != "" then a + " " else "") + name + (if c != "" then " " + c else "")
  {
    KeepThree(a, name, c);
    var tail := [name] + (if c != "" then [c] else []);
    assert Join(tail, " ") == name + (if c != "" then " " + c else "") by {
      if c != "" {
        assert tail[1..] == [c];
      }
    }
    if a != "" {
      var parts := [a] + tail;
      assert parts[1..] == tail;
      assert Join(parts, " ") == a + " " + Join(tail, " ");
    } else {
      assert Keep([a, name, c], NonEmpty) == tail;
    }
  }

  /** The summary starts with the VIP marker for a VIP, and with the name otherwise. */
  lemma SummaryStart(vip: bool, patientName: string, treatment: string)
    requires patientName != ""
    ensures vip ==> StartsWith(Summary(vip, patientName, treatment), VipMarker + " " + patientName)
    ensures !vip ==> StartsWith(Summary(vip, patientName, treatment), patientName)
  {
    SummaryText(vip, patientName, treatment);
    var rest := if treatment != "" then " \U{2013} " + treatment else "";
    if vip {
      assert Summary(vip, patientName, treatment) == (VipMarker + " " + patientName) + rest;
    }
  }

  /** The summary ends with " – treatment" when a treatment is given, and with the name otherwise. */
  lemma SummaryEnd(vip: bool, patientName: string, treatment: string)
    requires patientName != ""
    ensures var s, suffix := Summary(vip, patientName, treatment),
                            (if treatment != "" then " \U{2013} " + treatment else patientName);
      |suffix| <= |s| && s[|s| - |suffix|..] == suffix
  {
    SummaryText(vip, patientName, treatment);
  }

  /** The description's lines: the non-empty fields among notes, age and professional, labelled. */
  function DescriptionLines(notes: string, age: string, professional: string): seq<string>
  {
    Keep([if notes != "" then "Observação: " + notes else "",
          if age != "" then "Idade: " + age else "",
          if professional != "" then "Profissional: " + professional else ""], NonEmpty)
  }

  /** The description: its lines joined by newlines. */
  function Description(notes: string, age: string, professional: string): string
  {
    Join(DescriptionLines(notes, age, professional), "\n")
  }

  /**
   * For any fields, multi-line notes included: the description is empty
   * exactly when all three fields are, and it is the labelled lines of the
   * non-empty fields, in the order notes, age, professional, joined by
   * newlines.
   */
  lemma DescriptionText(notes: string, age: string, professional: string)
    ensures Description(notes, age, professional) == "" <==> notes == "" && age == "" && professional == ""
    ensures Description(notes, age, professional)
         == Join((if notes != "" then ["Observação: " + notes] else [])
               + (if age != "" then ["Idade: " + age] else [])
               + (if professional != "" then ["Profissional: " + professional] else []), "\n")
  {
    var a := if notes != "" then "Observação: " + notes else "";
    var b := if age != "" then "Idade: " + age else "";
    var c := if professional != "" then "Profissional: " + professional else "";
    KeepThree(a, b, c);
    var lines := (if a != "" then [a] else []) + (if b != "" then [b] else []) + (if c != "" then [c] else []);
    assert a == "" <==> notes == "";
    assert b == "" <==> age == "";
    assert c == "" <==> professional == "";
    if lines != [] {
      JoinNonEmpty(lines, "\n");
    }
  }

  /**
   * For newline-free fields, splitting a non-empty description at newlines
   * gives back one labelled line per non-empty field, in the order notes,
   * age, professional.
   */
  lemma DescriptionSplits(notes: string, age: string, professional: string)
    requires '\n' !in notes && '\n' !in age && '\n' !in professional
    ensures Description(notes, age, professional) == "" <==> notes == "" && age == "" && professional == ""
    ensures notes != "" || age != "" || professional != "" ==>
      Split(Description(notes, age, professional), '\n')
        == (if notes != "" then ["Observação: " + notes] else [])
         + (if age != "" then ["Idade: " + age] else [])
         + (if professional != "" then ["Profissional: " + professional] else [])
  {
    var a := if notes != "" then "Observação: " + notes else "";
    var b := if age != "" then "Idade: " + age else "";
    var c := if professional != "" then "Profissional: " + professional else "";
    NoNewline("Observação: ", notes);
    NoNewline("Idade: ", age);
    NoNewline("Profissional: ", professional);
    assert a == "" <==> notes == "";
    assert b == "" <==> age == "";
    assert c == "" <==> professional == "";
    SplitNonEmptyLines(a, b, c);
  }

  /** Three newline-free texts, the empty ones dropped and the rest joined by newlines, split back. */
  lemma SplitNonEmptyLines(a: string, b: string, c: string)
    requires '\n' !in a && '\n' !in b && '\n' !in c
    ensures var lines := (if a != "" then [a] else []) + (if b != "" then [b] else []) + (if c != "" then [c] else []);
      && (Join(Keep([a, b, c], NonEmpty), "\n") == "" <==> lines == [])
      && (lines != [] ==> Split(Join(Keep([a, b, c], NonEmpty), "\n"), '\n') == lines)
  {
    KeepThree(a, b, c);
    var lines := (if a != "" then [a] else []) + (if b != "" then [b] else []) + (if c != "" then [c] else []);
    if lines != [] {
      assert forall i :: 0 <= i < |lines| ==> lines[i] == a || lines[i] == b || lines[i] == c;
      SplitJoin(lines, '\n');
      JoinNonEmpty(lines, "\n");
    }
  }

  lemma NoNewline(tag: string, field: string)
    requires '\n' !in tag && '\n' !in field
    ensures '\n' !in tag + field
  {
  }

  /** Joining non-empty pieces gives a non-empty text. */
  lemma JoinNonEmpty(parts: seq<string>, sep: string)
    requires |parts| >= 1 && parts[0] != ""
    ensures Join(parts, sep) != ""
  {
  }

  const RulePrefix: string := "RRULE:FREQ=MONTHLY;COUNT="

  /** `Number(x) > 0`. */
  predicate Positive(x: JsNum)
  {
    (x.Finite? && x.value > 0) || x == PosInfinity
  }

  /**
   * The monthly recurrence rule (section 3.3.10 of RFC 5545) for
   * `recurrenceMonths` further months: present only for a positive number,
   * and counting the first occurrence in `COUNT`.
   */
  function RecurrenceRule(months: JsNum): Option<string>
  {
    if Positive(months) then Some(RulePrefix + ToString(Plus(months, 1))) else None
  }

  /**
   * A rule is attached exactly for a positive number of months `n`, and its
   * `COUNT` reads back as `n + 1`: the first occurrence and `n` repeats.
   */
  lemma RecurrenceCount(n: int)
    ensures RecurrenceRule(Finite(n)).Some? <==> n > 0
    ensures n > 0 ==> var rule := RecurrenceRule(Finite(n)).value;
      && StartsWith(rule, RulePrefix)
      && rule[|RulePrefix|..] == DecimalString(n + 1)
      && NumberOf(rule[|RulePrefix|..]) == Finite(n + 1)
  {
    if n > 0 {
      NumberOfDecimal(n + 1);
      var rule := RecurrenceRule(Finite(n)).value;
      assert rule == RulePrefix + DecimalString(n + 1);
    }
  }

  /** Three further months make four occurrences. */
  lemma RecurrenceOfThree()
    ensures RecurrenceRule(Finite(3)) == Some("RRULE:FREQ=MONTHLY;COUNT=4")
  {
    assert DecimalString(4) == "4";
    assert RulePrefix + "4" == "RRULE:FREQ=MONTHLY;COUNT=4";
  }

  /** No rule for a missing, zero or unreadable number of months. */
  lemma NoRecurrence(months: JsNum)
    requires months == Finite(0) || months == NaN || months == NegInfinity
    ensures RecurrenceRule(months) == None
  {
  }

  // ---------------------------------------------------------------------
  // The request
  // ---------------------------------------------------------------------

  /**
   * The JSON body of the request; an absent field is `None`. The two
   * numbers are given as the values `Number` makes of what was sent, so a
   * `null` is `Some(Finite(0))`, unlike an absent field, which takes the
   * route's default.
   */
  datatype PostBody = PostBody(
    date: Option<string>, time: Option<string>, patientName: Option<string>,
    age: Option<string>, treatment: Option<string>, notes: Option<string>,
    vip: Option<bool>, professional: Option<string>,
    durationMinutes: Option<JsNum>, recurrenceMonths: Option<JsNum>,
    idempotencyKey: Option<string>)

  /** A start or end of an event: local wall-clock text and its time zone. */
  datatype EventTime = EventTime(dateTime: string, timeZone: string)

  /** The event sent to the calendar. */
  datatype EventRequest = EventRequest(
    summary: string, description: string, start: EventTime, end: EventTime,
    privateProps: map<string, string>, recurrence: Option<seq<string>>)

  /** The answer of the handler: a 400, a 500 for a missing calendar id, or the insertion it asks for. */
  datatype PostOutcome =
    | MissingFields
    | MissingCalendarId
    | Insert(calendarId: string, request: EventRequest)

  /** The body is present and has a non-empty date, time and patient name. */
  predicate HasRequiredFields(body: Option<PostBody>)
  {
    body.Some? && Given(body.value.date) && Given(body.value.time) && Given(body.value.patientName)
  }

  /** The private properties kept on the event; `idemKey` only for a non-empty key. */
  function PrivateProps(b: PostBody): map<string, string>
    requires b.patientName.Some?
  {
    var props := map[
      "patientName" := b.patientName.value,
      "age" := b.age.GetOr(""),
      "treatment" := b.treatment.GetOr(""),
      "notes" := b.notes.GetOr(""),
      "vip" := if b.vip.GetOr(false) then "true" else "false",
      "professional" := b.professional.GetOr("")];
    if Given(b.idempotencyKey) then props["idemKey" := b.idempotencyKey.value] else props
  }

  /** The stored properties record the six fields of the body, "true" for a VIP, and the key iff given. */
  lemma PrivatePropsContents(b: PostBody)
    requires b.patientName.Some?
    ensures var p := PrivateProps(b);
      && p.Keys >= {"patientName", "age", "treatment", "notes", "vip", "professional"}
      && p["patientName"] == b.patientName.value
      && p["age"] == b.age.GetOr("") && p["treatment"] == b.treatment.GetOr("")
      && p["notes"] == b.notes.GetOr("") && p["professional"] == b.professional.GetOr("")
      && (Given(b.idempotencyKey) ==> p["idemKey"] == b.idempotencyKey.value)
      && (p["vip"] == "true" <==> b.vip == Some(true))
      && ("idemKey" in p <==> Given(b.idempotencyKey))
      && p.Keys <= {"patientName", "age", "treatment", "notes", "vip", "professional", "idemKey"}
  {
  }

  /**
   * `POST /api/calendar/events` up to the calendar call: a body without a
   * date, a time or a patient name is refused before anything else; then a
   * missing calendar id is a server error; otherwise the event is built, and
   * the recurrence is added to it when the number of months is positive.
   */
  method Post(body: Option<PostBody>, calendarId: Option<string>) returns (r: PostOutcome)
    ensures r.MissingFields? <==> !HasRequiredFields(body)
    ensures r.MissingCalendarId? <==> HasRequiredFields(body) && !Given(calendarId)
    ensures r.Insert? ==>
      var b, q := body.value, r.request;
      var date, time := b.date.value, b.time.value;
      && r.calendarId == calendarId.value
      && q.start == EventTime(date + "T" + time + ":00", TimeZone)
      && q.end == EventTime(BuildEndLocal(date, time, b.durationMinutes.GetOr(Finite(60))), TimeZone)
      && q.summary == Summary(b.vip.GetOr(false), b.patientName.value, b.treatment.GetOr(""))
      && q.description == Description(b.notes.GetOr(""), b.age.GetOr(""), b.professional.GetOr(""))
      && q.privateProps == PrivateProps(b)
      && (q.recurrence.Some? <==> Positive(b.recurrenceMonths.GetOr(Finite(0))))
      && (q.recurrence.Some? ==> q.recurrence == Some([RecurrenceRule(b.recurrenceMonths.GetOr(Finite(0))).value]))
  {
    if !HasRequiredFields(body) {
      return MissingFields;
    }
    if !Given(calendarId) {
      return MissingCalendarId;
    }
    var b := body.value;
    var date, time := b.date.value, b.time.value;
    var startLocal := date + "T" + time + ":00";
    var endLocal := BuildEndLocal(date, time, b.durationMinutes.GetOr(Finite(60)));
    var request := EventRequest(
      Summary(b.vip.GetOr(false), b.patientName.value, b.treatment.GetOr("")),
      Description(b.notes.GetOr(""), b.age.GetOr(""), b.professional.GetOr("")),
      EventTime(startLocal, TimeZone),
      EventTime(endLocal, TimeZone),
      PrivateProps(b),
      None);
    var months := b.recurrenceMonths.GetOr(Finite(0));
    if Positive(months) {
      request := request.(recurrence := Some([RulePrefix + ToString(Plus(months, 1))]));
    }
    return Insert(calendarId.value, request);
  }
}
