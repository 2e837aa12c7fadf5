/**
 * The agenda page (`app/agenda/page.tsx`): the duration of a clock range,
 * the duration and prefill of the edit form for a clicked event, the clamps
 * of the number inputs, the listing query, and the body it posts to create
 * an appointment. The page's form state is the class `AgendaState`.
 */
module Agenda {
  import opened Wrappers
  import opened JsStrings
  import opened JsNumbers
  import opened JsDates
  import opened DateFormat
  import opened EventCreation
  import opened EventListing

  // ---------------------------------------------------------------------
  // getDurationInMinutes
  // ---------------------------------------------------------------------

  const MinutesPerDay: int := 1440

  /** `Number(pieces[i])`, or `undefined` past the end, which is NaN in arithmetic. */
  function NumberAt(pieces: seq<string>, i: nat): (x: JsNum)
    ensures x.Finite? || x == NaN
    ensures i >= |pieces| ==> x == NaN
  {
    if i < |pieces| then NumberOf(pieces[i]) else NaN
  }

  /** `h * 60 + m` for `[h, m] = clock.split(":").map(Number)`; NaN once either is NaN. */
  function ClockMinutes(clock: string): (r: JsNum)
    ensures r.Finite? || r == NaN
  {
    var hm := Split(clock, ':');
    var h, m := NumberAt(hm, 0), NumberAt(hm, 1);
    if h.Finite? && m.Finite? then Finite(h.value * 60 + m.value) else NaN
  }

  /**
   * `eTot - sTot` once `eTot` has moved a day on when it is earlier than
   * `sTot`: the forward distance on the clock face. NaN once either is NaN.
   */
  function ClockDistance(s: JsNum, e: JsNum): (r: JsNum)
    ensures r.Finite? <==> s.Finite? && e.Finite?
    ensures r.Finite? && 0 <= s.value < MinutesPerDay && 0 <= e.value < MinutesPerDay ==>
      && 0 <= r.value < MinutesPerDay
      && (s.value + r.value == e.value || s.value + r.value == e.value + MinutesPerDay)
      && (e.value >= s.value ==> r.value == e.value - s.value)
  {
    if s.Finite? && e.Finite? then
      Finite((if e.value < s.value then e.value + MinutesPerDay else e.value) - s.value)
    else NaN
  }

  /** The minutes of the trimmed clocks before and after the first "-", or `None` when there is no "-". */
  function RangeClocks(range: string): Option<(JsNum, JsNum)>
  {
    var pieces := Split(range, '-');
    if |pieces| < 2 then None
    else Some((ClockMinutes(Trim(pieces[0])), ClockMinutes(Trim(pieces[1]))))
  }

  /**
   * `getDurationInMinutes(range)` for `"HH:MM - HH:MM"`: the minutes from the
   * first clock to the second, a day later when the second is earlier.
   * `None` is the `TypeError` of a range with no "-", whose end is
   * `undefined`; a malformed clock gives NaN.
   */
  function DurationInMinutes(range: string): Option<JsNum>
  {
    match RangeClocks(range)
    case None => None
    case Some((s, e)) => Some(ClockDistance(s, e))
  }

  /** The `hm` text of a valid clock is "HH:MM": five characters, ":" in the middle, no "-", a digit at each end. */
  lemma ClockTextShape(h: int, mi: int)
    requires 0 <= h < 24 && 0 <= mi < 60
    ensures var s := TimeText(h, mi);
      |s| == 5 && s[2] == ':' && '-' !in s && IsDigit(s[0]) && IsDigit(s[4])
  {
    PadTwoDigits(h);
    PadTwoDigits(mi);
    DigitClock(Pad(Finite(h)), Pad(Finite(mi)));
  }

  /** Only a range without a "-" throws; every other range gives a number or NaN. */
  lemma DurationThrowsWithoutDash(range: string)
    ensures DurationInMinutes(range).None? <==> '-' !in range
  {
    SplitHasPieces(range, '-');
  }

  /** A clock that splits into an hour and a minute piece is `h * 60 + m` minutes into the day. */
  lemma ClockMinutesOfPieces(clock: string, hs: string, ms: string, h: int, mi: int)
    requires Split(clock, ':') == [hs, ms]
    requires NumberOf(hs) == Finite(h) && NumberOf(ms) == Finite(mi)
    ensures ClockMinutes(clock) == Finite(h * 60 + mi)
  {
    var hm := Split(clock, ':');
    assert NumberAt(hm, 0) == Finite(h);
    assert NumberAt(hm, 1) == Finite(mi);
  }

  /** The `hm` text of a valid clock reads back as its minute of the day. */
  lemma ClockTextMinutes(h: int, mi: int)
    requires 0 <= h < 24 && 0 <= mi < 60
    ensures ClockMinutes(TimeText(h, mi)) == Finite(h * 60 + mi)
  {
    TimeTextReadsBack(h, mi);
    ClockMinutesOfPieces(TimeText(h, mi), Pad(Finite(h)), Pad(Finite(mi)), h, mi);
  }

  /** Trimming the blanks around a clock that starts and ends with a digit leaves its minutes unchanged. */
  lemma PaddedClockMinutes(padded: string, ws1: string, clock: string, ws2: string)
    requires padded == ws1 + clock + ws2
    requires AllWhitespace(ws1) && AllWhitespace(ws2)
    requires |clock| > 0 && IsDigit(clock[0]) && IsDigit(clock[|clock| - 1])
    ensures ClockMinutes(Trim(padded)) == ClockMinutes(clock)
  {
    assert !IsWhitespace(clock[0]) && !IsWhitespace(clock[|clock| - 1]);
    TrimDropsPadding(ws1, clock, ws2);
  }

  /** The duration of a range split at its one "-" into the pieces `left` and `right`. */
  lemma DurationOfPieces(range: string, left: string, right: string, s: int, e: int)
    requires Split(range, '-') == [left, right]
    requires ClockMinutes(Trim(left)) == Finite(s) && ClockMinutes(Trim(right)) == Finite(e)
    requires 0 <= s < MinutesPerDay && 0 <= e < MinutesPerDay
    ensures var r := DurationInMinutes(range);
      && r.Some? && r.value.Finite?
      && 0 <= r.value.value < MinutesPerDay
      && (s + r.value.value == e || s + r.value.value == e + MinutesPerDay)
      && (e >= s ==> r.value.value == e - s)
  {
    var pieces := Split(range, '-');
    assert |pieces| == 2 && pieces[0] == left && pieces[1] == right;
    assert RangeClocks(range) == Some((Finite(s), Finite(e)));
  }

  /** A clock text with a digit at each end and no "-" that reads back as minute `s` of the day. */
  predicate ClockText(a: string, s: int)
  {
    && |a| > 0 && IsDigit(a[0]) && IsDigit(a[|a| - 1]) && '-' !in a
    && ClockMinutes(a) == Finite(s) && 0 <= s < MinutesPerDay
  }

  /** The `hm` text of a valid clock is such a clock text. */
  lemma ClockTextOfTime(h: int, mi: int)
    requires 0 <= h < 24 && 0 <= mi < 60
    ensures ClockText(TimeText(h, mi), h * 60 + mi)
  {
    ClockTextShape(h, mi);
    ClockTextMinutes(h, mi);
  }

  /** A range `a - b` splits at its "-" into `a` with the blank after it and `b` with the blank before it. */
  lemma SplitRange(a: string, b: string)
    requires '-' !in a && '-' !in b
    ensures Split(a + " - " + b, '-') == [a + " ", " " + b]
  {
    var left, right := a + " ", " " + b;
    assert '-' !in left && '-' !in right;
    assert a + " - " + b == left + ['-'] + right;
    SplitTwoPieces(a + " - " + b, left, '-', right);
  }

  /** The blanks around the "-" of a range do not change the minutes of its clocks. */
  lemma TrimmedClocks(a: string, b: string, s: int, e: int)
    requires ClockText(a, s) && ClockText(b, e)
    ensures ClockMinutes(Trim(a + " ")) == Finite(s) && ClockMinutes(Trim(" " + b)) == Finite(e)
  {
    assert AllWhitespace(" ") && AllWhitespace([]);
    PaddedClockMinutes(a + " ", [], a, " ");
    PaddedClockMinutes(" " + b, " ", b, []);
  }

  /** The duration of the range `a - b` between two clocks that read back as `s` and `e` minutes. */
  lemma DurationOfTexts(a: string, b: string, s: int, e: int)
    requires ClockText(a, s) && ClockText(b, e)
    ensures var r := DurationInMinutes(a + " - " + b);
      && r.Some? && r.value.Finite?
      && 0 <= r.value.value < MinutesPerDay
      && (s + r.value.value == e || s + r.value.value == e + MinutesPerDay)
      && (e >= s ==> r.value.value == e - s)
  {
    SplitRange(a, b);
    TrimmedClocks(a, b, s, e);
    DurationOfPieces(a + " - " + b, a + " ", " " + b, s, e);
  }

  /**
   * For well-formed clocks `"HH:MM - HH:MM"` the duration is the forward
   * distance from start to end on the clock face: between 0 and a day
   * (exclusive), reaching the end either the same day or the next.
   */
  lemma DurationOfClockRange(h1: int, m1: int, h2: int, m2: int)
    requires 0 <= h1 < 24 && 0 <= m1 < 60 && 0 <= h2 < 24 && 0 <= m2 < 60
    ensures var s, e := h1 * 60 + m1, h2 * 60 + m2;
      var r := DurationInMinutes(TimeText(h1, m1) + " - " + TimeText(h2, m2));
      && r.Some? && r.value.Finite?
      && 0 <= r.value.value < MinutesPerDay
      && (s + r.value.value == e || s + r.value.value == e + MinutesPerDay)
      && (e >= s ==> r.value.value == e - s)
  {
    ClockTextOfTime(h1, m1);
    ClockTextOfTime(h2, m2);
    DurationOfTexts(TimeText(h1, m1), TimeText(h2, m2), h1 * 60 + m1, h2 * 60 + m2);
  }

  /** The example of the page's own comment: "16:00 - 17:00" lasts an hour. */
  lemma DurationExample()
    ensures DurationInMinutes(TimeText(16, 0) + " - " + TimeText(17, 0)) == Some(Finite(60))
  {
    DurationOfClockRange(16, 0, 17, 0);
  }

  /** A range that ends before it starts wraps past midnight: "23:30 - 00:15" lasts 45 minutes. */
  lemma DurationPastMidnight()
    ensures DurationInMinutes(TimeText(23, 30) + " - " + TimeText(0, 15)) == Some(Finite(45))
  {
    DurationOfClockRange(23, 30, 0, 15);
  }

  // ---------------------------------------------------------------------
  // The edit form for a clicked event
  // ---------------------------------------------------------------------

  const MsPerMinute: int := 60000
  const DefaultEventMinutes: int := 50
  const MinDuration: int := 15

  /** `Math.round(ms / 60000)`: the nearest whole minute, a half rounding up. */
  function RoundMinutes(ms: int): (r: int)
    ensures r * MsPerMinute - MsPerMinute / 2 <= ms < r * MsPerMinute + MsPerMinute / 2
  {
    (ms + MsPerMinute / 2) / MsPerMinute
  }

  /** A whole number of minutes rounds to itself. */
  lemma {:induction false} RoundWholeMinutes(k: int)
    ensures RoundMinutes(k * MsPerMinute) == k
  {
    var r := RoundMinutes(k * MsPerMinute);
    assert r * MsPerMinute - 30000 <= k * MsPerMinute < r * MsPerMinute + 30000;
    assert (r - k) * MsPerMinute <= 30000 && (k - r) * MsPerMinute < 30000;
  }

  /**
   * The duration the edit form shows for an event from `startMs` to
   * `endMs` (milliseconds; an event without an end lasts 50 minutes): the
   * length rounded to whole minutes, and never below 15.
   */
  function EventDuration(startMs: int, endMs: Option<int>): (r: int)
    ensures r >= MinDuration
    ensures endMs.None? ==> r == DefaultEventMinutes
    ensures endMs.Some? ==> var k := RoundMinutes(endMs.value - startMs);
      (k >= MinDuration ==> r == k) && (k < MinDuration ==> r == MinDuration)
  {
    var end := endMs.GetOr(startMs + DefaultEventMinutes * MsPerMinute);
    RoundWholeMinutes(DefaultEventMinutes);
    var k := RoundMinutes(end - startMs);
    if k >= MinDuration then k else MinDuration
  }

  /** An event of a whole number `k >= 15` of minutes keeps its length in the form. */
  lemma EventDurationOfWholeMinutes(startMs: int, k: int)
    requires k >= MinDuration
    ensures EventDuration(startMs, Some(startMs + k * MsPerMinute)) == k
  {
    RoundWholeMinutes(k);
    assert startMs + k * MsPerMinute - startMs == k * MsPerMinute;
  }

  /**
   * An event shorter than a quarter of an hour shows 15 minutes, and so does
   * one that rounds to 15 minutes (less than 15.5 minutes long).
   */
  lemma ShortEventShowsFifteen(startMs: int, endMs: int)
    requires endMs - startMs < 15 * MsPerMinute + MsPerMinute / 2
    ensures EventDuration(startMs, Some(endMs)) == MinDuration
  {
  }

  /** The appointment form. */
  datatype Form = Form(
    date: string, time: string, patientName: string, age: string, treatment: string,
    notes: string, professional: string, durationMinutes: JsNum, recurrenceMonths: JsNum)

  /** The form's initial and reset value: empty fields, 50 minutes, no recurrence. */
  const InitialForm: Form := Form("", "", "", "", "", "", "", Finite(DefaultEventMinutes), Finite(0))

  /** The attendance of an appointment that has not been recorded. */
  const Unfilled: string := "NAO_PREENCHIDO"

  /** A clicked calendar event: its id, title, start and end in milliseconds, and its string extended properties. */
  datatype ClickedEvent = ClickedEvent(
    id: string, title: string, startMs: int, endMs: Option<int>, props: map<string, string>)

  /** The local date a time in milliseconds falls in, at minute resolution. */
  function LocalDate(ms: int): JsDate
  {
    At(ms / MsPerMinute)
  }

  /**
   * `openEditFromEvent`'s form: the start's date and clock, the patient from
   * the properties or else the title, the other details from the
   * properties or empty, the event's duration, and no recurrence.
   */
  function PrefillForm(ev: ClickedEvent): (f: Form)
    ensures f.durationMinutes.Finite? && f.durationMinutes.value >= MinDuration
    ensures f.recurrenceMonths == Finite(0)
    ensures f.patientName == if Prop(ev.props, "patientName") != "" then ev.props["patientName"] else ev.title
  {
    Form(
      Ymd(LocalDate(ev.startMs)),
      Hm(LocalDate(ev.startMs)),
      if Prop(ev.props, "patientName") != "" then ev.props["patientName"] else ev.title,
      Prop(ev.props, "age"), Prop(ev.props, "treatment"), Prop(ev.props, "notes"),
      Prop(ev.props, "professional"),
      Finite(EventDuration(ev.startMs, ev.endMs)),
      Finite(0))
  }

  /** `xp.presence ?? "NAO_PREENCHIDO"`. */
  function PrefillPresence(props: map<string, string>): (p: string)
    ensures "presence" !in props ==> p == Unfilled
  {
    if "presence" in props then props["presence"] else Unfilled
  }

  /**
   * A clicked event that starts at the local time `t` prefills the date and
   * clock texts of `t`, and submitting those texts back starts the event at
   * the same minute.
   */
  lemma PrefillRoundTrip(ev: ClickedEvent, t: DateTime)
    requires ValidDateTime(t) && 1000 <= t.date.year <= 9999
    requires MinuteNumber(t) * MsPerMinute <= ev.startMs < (MinuteNumber(t) + 1) * MsPerMinute
    ensures var f := PrefillForm(ev);
      && f.date == DateText(t.date) && f.time == TimeText(t.hour, t.minute)
      && StartDate(f.date, f.time) == At(MinuteNumber(t))
  {
    var n := MinuteNumber(t);
    assert ev.startMs / MsPerMinute == n;
    TextsOfFields(t);
    StartDateOfTexts(t);
  }

  // ---------------------------------------------------------------------
  // The number inputs
  // ---------------------------------------------------------------------

  /** `Math.max(lo, x)`: NaN stays NaN. */
  function AtLeast(lo: int, x: JsNum): (r: JsNum)
    ensures r.Finite? ==> r.value >= lo
    ensures r == NaN <==> x == NaN
    ensures x.Finite? && x.value >= lo ==> r == x
    ensures x.Finite? && x.value < lo ==> r == Finite(lo)
  {
    match x
    case NaN => NaN
    case PosInfinity => PosInfinity
    case NegInfinity => Finite(lo)
    case Finite(v) => if v >= lo then x else Finite(lo)
  }

  /** The duration input: `Math.max(15, Number(value || 50))`. */
  function ClampDurationInput(value: string): (r: JsNum)
    ensures value == "" ==> r == Finite(DefaultEventMinutes)
    ensures r.Finite? || r == NaN
    ensures r.Finite? ==> r.value >= MinDuration
    ensures r == NaN <==> value != "" && NumberOf(value) == NaN
    ensures value != "" && NumberOf(value).Finite? ==>
      r == Finite(if NumberOf(value).value >= MinDuration then NumberOf(value).value else MinDuration)
  {
    AtLeast(MinDuration, if value == "" then Finite(DefaultEventMinutes) else NumberOf(value))
  }

  /** The recurrence input: `Math.max(0, Number(value || 0))`. */
  function ClampRecurrenceInput(value: string): (r: JsNum)
    ensures value == "" ==> r == Finite(0)
    ensures r.Finite? || r == NaN
    ensures r.Finite? ==> r.value >= 0
    ensures r == NaN <==> value != "" && NumberOf(value) == NaN
    ensures value != "" && NumberOf(value).Finite? ==>
      r == Finite(if NumberOf(value).value >= 0 then NumberOf(value).value else 0)
  {
    AtLeast(0, if value == "" then Finite(0) else NumberOf(value))
  }

  /**
   * A duration the input stores is shown back as its decimal text, and
   * reading that text again stores the same duration; a number typed below
   * 15 is raised to 15.
   */
  lemma DurationInputStable(value: string)
    ensures var r := ClampDurationInput(value);
      r.Finite? ==> ClampDurationInput(ToString(r)) == r
    ensures NumberOf(value).Finite? && value != "" && NumberOf(value).value < MinDuration
      ==> ClampDurationInput(value) == Finite(MinDuration)
  {
    var r := ClampDurationInput(value);
    if r.Finite? {
      NumberOfDecimal(r.value);
      assert ToString(r) == DecimalString(r.value);
      assert ToString(r) != "";
    }
  }

  /** The same for the recurrence input. */
  lemma RecurrenceInputStable(value: string)
    ensures var r := ClampRecurrenceInput(value);
      r.Finite? ==> ClampRecurrenceInput(ToString(r)) == r
  {
    var r := ClampRecurrenceInput(value);
    if r.Finite? {
      NumberOfDecimal(r.value);
      assert ToString(r) == DecimalString(r.value);
      assert ToString(r) != "";
    }
  }

  /** A negative whole number typed into either input is raised to the input's minimum. */
  lemma NegativeInputsClamp(k: nat)
    ensures ClampDurationInput("-" + DecimalString(k)) == Finite(MinDuration)
    ensures ClampRecurrenceInput("-" + DecimalString(k)) == Finite(0)
  {
    NumberOfSigned(k);
  }

  // ---------------------------------------------------------------------
  // The listing query
  // ---------------------------------------------------------------------

  /** The page's filters; `dateFrom` and `dateTo` are never sent. */
  datatype AgendaFilters = AgendaFilters(
    patient: Option<string>, dateFrom: Option<string>, dateTo: Option<string>,
    date: Option<string>, time: Option<string>, treatment: Option<string>,
    professional: Option<string>)

  /** `params.set(name, value)` when the filter is set and not empty. */
  function WithFilter(q: Params, name: string, value: Option<string>): (r: Params)
    ensures name in r <==> name in q || Given(value)
    ensures Given(value) ==> r[name] == value.value
    ensures forall k :: k != name ==> (k in r <==> k in q)
    ensures forall k :: k != name && k in q ==> r[k] == q[k]
  {
    if Given(value) then q[name := value.value] else q
  }

  /** The query `fetchEvents` sends: the visible range, then each non-empty filter. */
  function QueryOf(from: string, to: string, f: AgendaFilters): Params
  {
    var q0 := map["from" := from, "to" := to];
    var q1 := WithFilter(q0, "patient", f.patient);
    var q2 := WithFilter(q1, "date", f.date);
    var q3 := WithFilter(q2, "time", f.time);
    var q4 := WithFilter(q3, "treatment", f.treatment);
    WithFilter(q4, "professional", f.professional)
  }

  /** The query always carries the visible range, and no parameter besides the range and the five filters: never a VIP filter. */
  lemma QueryRange(from: string, to: string, f: AgendaFilters)
    ensures var q := QueryOf(from, to, f);
      && "from" in q && q["from"] == from && "to" in q && q["to"] == to
      && q.Keys <= {"from", "to", "patient", "date", "time", "treatment", "professional"}
      && "vip" !in q
  {
    var q0 := map["from" := from, "to" := to];
    var q1 := WithFilter(q0, "patient", f.patient);
    var q2 := WithFilter(q1, "date", f.date);
    var q3 := WithFilter(q2, "time", f.time);
    var q4 := WithFilter(q3, "treatment", f.treatment);
    assert q1.Keys <= {"from", "to", "patient"} && q1["from"] == from && q1["to"] == to;
    assert q2.Keys <= {"from", "to", "patient", "date"} && q2["from"] == from && q2["to"] == to;
    assert q3.Keys <= {"from", "to", "patient", "date", "time"} && q3["from"] == from && q3["to"] == to;
    assert q4.Keys <= {"from", "to", "patient", "date", "time", "treatment"};
    assert q4["from"] == from && q4["to"] == to;
  }

  /** The query carries each filter exactly when it is set and not empty, with the value typed. */
  lemma QueryFilters(from: string, to: string, f: AgendaFilters)
    ensures var q := QueryOf(from, to, f);
      && ("patient" in q <==> Given(f.patient)) && (Given(f.patient) ==> q["patient"] == f.patient.value)
      && ("date" in q <==> Given(f.date)) && (Given(f.date) ==> q["date"] == f.date.value)
      && ("time" in q <==> Given(f.time)) && (Given(f.time) ==> q["time"] == f.time.value)
      && ("treatment" in q <==> Given(f.treatment)) && (Given(f.treatment) ==> q["treatment"] == f.treatment.value)
      && ("professional" in q <==> Given(f.professional))
      && (Given(f.professional) ==> q["professional"] == f.professional.value)
  {
  }

  /** `fetchEvents`' `URLSearchParams`, set one parameter after the other. */
  method BuildQuery(from: string, to: string, f: AgendaFilters) returns (params: Params)
    ensures params == QueryOf(from, to, f)
  {
    params := map[];
    params := params["from" := from];
    params := params["to" := to];
    if Given(f.patient) {
      params := params["patient" := f.patient.value];
    }
    if Given(f.date) {
      params := params["date" := f.date.value];
    }
    if Given(f.time) {
      params := params["time" := f.time.value];
    }
    if Given(f.treatment) {
      params := params["treatment" := f.treatment.value];
    }
    if Given(f.professional) {
      params := params["professional" := f.professional.value];
    }
  }

  /** The parameter the route reads back for a filter the page set or left out. */
  lemma EntryReadsBack(q: Params, name: string, value: Option<string>)
    requires name in q <==> Given(value)
    requires Given(value) ==> q[name] == value.value
    ensures ParamText(q, name) == value.GetOr("")
  {
  }

  /**
   * The route reads the page's query back: it is accepted exactly when the
   * range is not empty, and then carries the page's filters, normalised as
   * the route normalises them, and no VIP filter.
   */
  lemma QueryReadsBack(from: string, to: string, f: AgendaFilters)
    ensures ParseQuery(QueryOf(from, to, f)).Some? <==> from != "" && to != ""
    ensures from != "" && to != "" ==>
      ParseQuery(QueryOf(from, to, f)) == Some(ListRequest(from, to, Filters(
        ToLower(Trim(f.patient.GetOr(""))), Trim(f.date.GetOr("")), Trim(f.time.GetOr("")),
        ToLower(Trim(f.treatment.GetOr(""))), None, ToLower(Trim(f.professional.GetOr(""))))))
  {
    var q := QueryOf(from, to, f);
    QueryRange(from, to, f);
    QueryFilters(from, to, f);
    EntryReadsBack(q, "patient", f.patient);
    EntryReadsBack(q, "date", f.date);
    EntryReadsBack(q, "time", f.time);
    EntryReadsBack(q, "treatment", f.treatment);
    EntryReadsBack(q, "professional", f.professional);
  }

  // ---------------------------------------------------------------------
  // Creating an appointment
  // ---------------------------------------------------------------------

  /** The body `onSubmitNew` posts to create: the form, the idempotency key and the presence. */
  datatype CreatePayload = CreatePayload(form: Form, idempotencyKey: string, presence: string)

  /**
   * The create payload: the form with its duration forced to 50 minutes,
   * the current idempotency key, and an unrecorded presence.
   */
  function NewPayload(form: Form, key: string): (p: CreatePayload)
    ensures p.form.durationMinutes == Finite(DefaultEventMinutes)
    ensures p.idempotencyKey == key && p.presence == Unfilled
    ensures p.form.(durationMinutes := form.durationMinutes) == form
  {
    CreatePayload(form.(durationMinutes := Finite(DefaultEventMinutes)), key, Unfilled)
  }

  /**
   * A number sent with `JSON.stringify` as the route's `Number(...)` reads
   * it: a finite number as itself, any other is written as `null`, and
   * `Number(null)` is 0.
   */
  function JsonNumber(x: JsNum): Option<JsNum>
  {
    if x.Finite? then Some(x) else Some(Finite(0))
  }

  /** The body the route receives from a payload: no `vip` field, and `presence` ignored. */
  function PostBodyOf(p: CreatePayload): PostBody
  {
    var f := p.form;
    PostBody(Some(f.date), Some(f.time), Some(f.patientName), Some(f.age), Some(f.treatment),
             Some(f.notes), None, Some(f.professional), JsonNumber(f.durationMinutes),
             JsonNumber(f.recurrenceMonths), Some(p.idempotencyKey))
  }

  /**
   * Posting a form from the agenda: accepted exactly when its date, time and
   * patient are filled in; stored as not VIP, with the idempotency key
   * exactly when there is one; and repeated monthly exactly for a positive
   * number of months.
   */
  lemma SubmittedBodyFields(form: Form, key: string)
    ensures var b := PostBodyOf(NewPayload(form, key));
      && (HasRequiredFields(Some(b)) <==> form.date != "" && form.time != "" && form.patientName != "")
      && PrivateProps(b)["vip"] == "false"
      && ("idemKey" in PrivateProps(b) <==> key != "")
      && (Positive(b.recurrenceMonths.GetOr(Finite(0)))
          <==> form.recurrenceMonths.Finite? && form.recurrenceMonths.value > 0)
  {
    PrivatePropsContents(PostBodyOf(NewPayload(form, key)));
  }

  /**
   * Whatever duration the form shows, an appointment created from the agenda
   * at the local time `t` ends 50 minutes later.
   */
  lemma SubmittedEventLastsFiftyMinutes(form: Form, key: string, t: DateTime)
    requires ValidDateTime(t) && 1000 <= t.date.year <= 9999
    requires -MaxMinutes <= MinuteNumber(t) + DefaultEventMinutes <= MaxMinutes
    requires form.date == DateText(t.date) && form.time == TimeText(t.hour, t.minute)
    ensures var b := PostBodyOf(NewPayload(form, key));
      BuildEndLocal(b.date.value, b.time.value, b.durationMinutes.GetOr(Finite(60)))
        == ToLocalRfc3339(At(MinuteNumber(t) + DefaultEventMinutes))
  {
    var b := PostBodyOf(NewPayload(form, key));
    assert b.durationMinutes.GetOr(Finite(60)) == Finite(DefaultEventMinutes);
    BuildEndLocalAddsMinutes(t, DefaultEventMinutes);
  }

  /**
   * Posting the create payload of a form: refused exactly when the date,
   * time or patient is empty, and otherwise ending 50 minutes after the
   * form's start.
   */
  method PostForm(form: Form, key: string, calendarId: Option<string>) returns (r: PostOutcome)
    ensures r.MissingFields? <==> !(form.date != "" && form.time != "" && form.patientName != "")
    ensures r.Insert? ==>
      r.request.end.dateTime == BuildEndLocal(form.date, form.time, Finite(DefaultEventMinutes))
  {
    var body := PostBodyOf(NewPayload(form, key));
    r := Post(Some(body), calendarId);
  }

  // ---------------------------------------------------------------------
  // The page's form state
  // ---------------------------------------------------------------------

  datatype Mode = Create | Edit

  /** A duration the form can hold: NaN (a rejected number) or at least 15. */
  predicate DurationOk(x: JsNum)
  {
    x == NaN || (x.Finite? && x.value >= MinDuration)
  }

  /** A recurrence the form can hold: NaN or at least 0. */
  predicate RecurrenceOk(x: JsNum)
  {
    x == NaN || (x.Finite? && x.value >= 0)
  }

  /** The agenda's modal and form state, updated by its event handlers. */
  class AgendaState {
    var form: Form
    var presence: string
    var mode: Mode
    var editingId: Option<string>
    var open: bool

    /** Every value the form's inputs and prefill can store, and an edit always names its event. */
    predicate Valid()
      reads this
    {
      && DurationOk(form.durationMinutes) && RecurrenceOk(form.recurrenceMonths)
      && (mode == Edit ==> editingId.Some?)
    }

    /** The page's initial state: a closed modal in create mode with the initial form. */
    constructor ()
      ensures Valid()
      ensures form == InitialForm && presence == Unfilled && mode == Create
      ensures editingId == None && !open
    {
      form := InitialForm;
      presence := Unfilled;
      mode := Create;
      editingId := None;
      open := false;
    }

    /** `openEditFromEvent`: prefill the form and open it to edit the event. */
    method OpenEditFromEvent(ev: ClickedEvent)
      requires Valid()
      modifies this
      ensures Valid()
      ensures form == PrefillForm(ev) && presence == PrefillPresence(ev.props)
      ensures mode == Edit && editingId == Some(ev.id) && open
    {
      StartEditing(PrefillForm(ev), PrefillPresence(ev.props), ev.id);
    }

    /** Opens the modal to edit the event `id` with the form `f` and the presence `p`. */
    method StartEditing(f: Form, p: string, id: string)
      requires DurationOk(f.durationMinutes) && RecurrenceOk(f.recurrenceMonths)
      modifies this
      ensures Valid()
      ensures form == f && presence == p && mode == Edit && editingId == Some(id) && open
    {
      form := f;
      presence := p;
      mode := Edit;
      editingId := Some(id);
      open := true;
    }

    /** After a successful submission: close the modal and go back to the initial form in create mode. */
    method Reset()
      modifies this
      ensures Valid()
      ensures form == InitialForm && presence == Unfilled && mode == Create && editingId == None && !open
    {
      open := false;
      mode := Create;
      editingId := None;
      presence := Unfilled;
      form := InitialForm;
    }

    /** The duration input's change handler. */
    method SetDurationInput(value: string)
      requires Valid()
      modifies this
      ensures Valid()
      ensures form == old(form).(durationMinutes := ClampDurationInput(value))
      ensures presence == old(presence) && mode == old(mode)
      ensures editingId == old(editingId) && open == old(open)
    {
      form := form.(durationMinutes := ClampDurationInput(value));
    }

    /** The recurrence input's change handler. */
    method SetRecurrenceInput(value: string)
      requires Valid()
      modifies this
      ensures Valid()
      ensures form == old(form).(recurrenceMonths := ClampRecurrenceInput(value))
      ensures presence == old(presence) && mode == old(mode)
      ensures editingId == old(editingId) && open == old(open)
    {
      form := form.(recurrenceMonths := ClampRecurrenceInput(value));
    }

    /**
     * `onSubmitNew` in create mode: post the create payload; when the route
     * accepts it, close the modal and reset mode, presence and form; when it
     * refuses, leave everything as it was.
     */
    method SubmitCreate(key: string, calendarId: Option<string>) returns (r: PostOutcome)
      requires Valid()
      requires !(mode == Edit && editingId.Some?)
      modifies this
      ensures Valid()
      ensures r.MissingFields? <==> !(old(form).date != "" && old(form).time != "" && old(form).patientName != "")
      ensures r.Insert? ==>
        r.request.end.dateTime == BuildEndLocal(old(form).date, old(form).time, Finite(DefaultEventMinutes))
      ensures r.Insert? ==>
        form == InitialForm && presence == Unfilled && mode == Create && editingId == None && !open
      ensures !r.Insert? ==>
        form == old(form) && presence == old(presence) && mode == old(mode)
        && editingId == old(editingId) && open == old(open)
    {
      r := PostForm(form, key, calendarId);
      if r.Insert? {
        Reset();
      }
    }
  }
}
