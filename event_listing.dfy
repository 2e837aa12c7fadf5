/**
 * Listing appointments (`GET /api/calendar/events`): the query check, the
 * projection of each stored calendar event to the record the agenda shows,
 * and the optional filters applied one after the other over the projected
 * list.
 */
module EventListing {
  import opened Wrappers
  import opened JsStrings
  import opened JsArrays
  import opened EventCreation

  // ---------------------------------------------------------------------
  // The query
  // ---------------------------------------------------------------------

  /** The query string: the first value of each parameter, by name. */
  type Params = map<string, string>

  /** `url.searchParams.get(name)`. */
  function Param(params: Params, name: string): Option<string>
  {
    if name in params then Some(params[name]) else None
  }

  /** `url.searchParams.get(name) || ""`. */
  function ParamText(params: Params, name: string): string
  {
    if name in params then params[name] else ""
  }

  /** The filters of a listing, normalised: the text filters trimmed, three of them lower-cased. */
  datatype Filters = Filters(
    patient: string, date: string, time: string, treatment: string,
    vip: Option<string>, professional: string)

  /** A listing request that passed the check: the visible range and the filters. */
  datatype ListRequest = ListRequest(from: string, to: string, filters: Filters)

  /** The filters read from the query. */
  function FiltersOf(params: Params): Filters
  {
    Filters(
      ToLower(Trim(ParamText(params, "patient"))),
      Trim(ParamText(params, "date")),
      Trim(ParamText(params, "time")),
      ToLower(Trim(ParamText(params, "treatment"))),
      Param(params, "vip"),
      ToLower(Trim(ParamText(params, "professional"))))
  }

  /** The query check: `None` (a 400 answer) exactly when `from` or `to` is missing or empty. */
  function ParseQuery(params: Params): (r: Option<ListRequest>)
    ensures r.None? <==> !Given(Param(params, "from")) || !Given(Param(params, "to"))
    ensures r.Some? ==> r.value.from == params["from"] && r.value.to == params["to"]
  {
    if !Given(Param(params, "from")) || !Given(Param(params, "to")) then None
    else Some(ListRequest(params["from"], params["to"], FiltersOf(params)))
  }

  /**
   * The text filters ignore case and surrounding white space: a parameter
   * and its lower-cased form give the same filter value.
   */
  lemma TextFilterIgnoresCase(p: string)
    ensures ToLower(Trim(ToLower(p))) == ToLower(Trim(p))
  {
    TrimToLowerCommute(p);
    ToLowerIdempotent(Trim(p));
  }

  // ---------------------------------------------------------------------
  // Projection
  // ---------------------------------------------------------------------

  /** A stored start or end: a timed `dateTime`, or the `date` of an all-day event. */
  datatype StoredTime = StoredTime(dateTime: Option<string>, date: Option<string>)

  /** An event as the calendar stores it; every part of it may be missing. */
  datatype StoredEvent = StoredEvent(
    id: string, summary: Option<string>, privateProps: Option<map<string, string>>,
    start: Option<StoredTime>, end: Option<StoredTime>)

  /** The appointment details the agenda shows with an event. */
  datatype EventProps = EventProps(
    patientName: string, age: string, treatment: string, notes: string,
    vip: bool, professional: string)

  /** An event as the agenda receives it. */
  datatype CalendarEvent = CalendarEvent(
    id: string, title: string, start: Option<string>, end: Option<string>, props: EventProps)

  const StarPrefix: string := "\U{2B50} "
  const DefaultTitle: string := "Agendamento"

  /** `priv[key] || ""`. */
  function Prop(priv: map<string, string>, key: string): string
  {
    if key in priv then priv[key] else ""
  }

  /** `t?.dateTime || t?.date`: the timed value when it is not empty, else the all-day date. */
  function TimeOf(t: Option<StoredTime>): Option<string>
  {
    if t.None? then None
    else if Given(t.value.dateTime) then t.value.dateTime
    else t.value.date
  }

  /**
   * The projection of a stored event: VIP exactly when the private `vip` is
   * "true"; the patient is the private name, else the summary, else empty;
   * the title is the name, or "Agendamento", behind a star for a VIP.
   */
  function Project(ev: StoredEvent): CalendarEvent
  {
    var priv := ev.privateProps.GetOr(map[]);
    var isVip := Prop(priv, "vip") == "true";
    var patientName :=
      if Prop(priv, "patientName") != "" then priv["patientName"]
      else if Given(ev.summary) then ev.summary.value
      else "";
    CalendarEvent(
      ev.id,
      (if isVip then StarPrefix else "") + (if patientName != "" then patientName else DefaultTitle),
      TimeOf(ev.start),
      TimeOf(ev.end),
      EventProps(patientName, Prop(priv, "age"), Prop(priv, "treatment"), Prop(priv, "notes"),
                 isVip, Prop(priv, "professional")))
  }

  /**
   * Every stored event projects this way: it keeps its id and times, is a VIP
   * exactly when its private `vip` is "true", names as patient its private
   * name when that is not empty, else its summary, and is titled by that
   * name (or "Agendamento" when there is none) behind a star for a VIP.
   */
  lemma ProjectRule(ev: StoredEvent)
    ensures var e := Project(ev);
      var priv := ev.privateProps.GetOr(map[]);
      && e.id == ev.id
      && e.start == TimeOf(ev.start) && e.end == TimeOf(ev.end)
      && (e.props.vip <==> "vip" in priv && priv["vip"] == "true")
      && e.props.patientName ==
           (if "patientName" in priv && priv["patientName"] != "" then priv["patientName"]
            else if ev.summary.Some? && ev.summary.value != "" then ev.summary.value
            else "")
      && e.title == (if e.props.vip then StarPrefix else "")
                    + (if e.props.patientName == "" then DefaultTitle else e.props.patientName)
      && e.props.age == Prop(priv, "age") && e.props.treatment == Prop(priv, "treatment")
      && e.props.notes == Prop(priv, "notes") && e.props.professional == Prop(priv, "professional")
  {
  }

  /**
   * An event created outside the agenda, with no private properties, shows
   * its summary as the patient and as the title (or "Agendamento" when it
   * has none), is not a VIP, and has every detail empty.
   */
  lemma ProjectWithoutProps(ev: StoredEvent)
    requires ev.privateProps.None?
    ensures var e := Project(ev);
      && e.props == EventProps(if Given(ev.summary) then ev.summary.value else "", "", "", "", false, "")
      && e.title == (if Given(ev.summary) then ev.summary.value else DefaultTitle)
  {
    assert StarPrefix != "";
    var e := Project(ev);
    assert !e.props.vip;
    assert e.title == [] + (if e.props.patientName != "" then e.props.patientName else DefaultTitle);
  }

  /** The event the calendar keeps for an insertion request, with the id it assigned. */
  function StoredOf(id: string, q: EventRequest): StoredEvent
  {
    StoredEvent(id, Some(q.summary), Some(q.privateProps),
                Some(StoredTime(Some(q.start.dateTime), None)),
                Some(StoredTime(Some(q.end.dateTime), None)))
  }

  /**
   * An event created from a body reads back, once listed, with the body's
   * patient, details and VIP flag, a title that is the name behind a star
   * exactly for a VIP, and the start and end that were sent.
   */
  lemma CreatedEventReadsBack(b: PostBody, id: string, q: EventRequest)
    requires HasRequiredFields(Some(b))
    requires q.privateProps == PrivateProps(b)
    requires q.start.dateTime == b.date.value + "T" + b.time.value + ":00"
    requires q.end.dateTime != ""
    ensures var e := Project(StoredOf(id, q));
      && e.id == id
      && e.props == EventProps(b.patientName.value, b.age.GetOr(""), b.treatment.GetOr(""),
                               b.notes.GetOr(""), b.vip == Some(true), b.professional.GetOr(""))
      && e.title == (if b.vip == Some(true) then StarPrefix else "") + b.patientName.value
      && e.start == Some(q.start.dateTime)
      && e.end == Some(q.end.dateTime)
  {
    PrivatePropsContents(b);
  }

  // ---------------------------------------------------------------------
  // Filters
  // ---------------------------------------------------------------------

  /** `(e.start as string) || ""`. */
  function StartText(e: CalendarEvent): string
  {
    if Given(e.start) then e.start.value else ""
  }

  /** A text field matches a (lower-cased) needle when its lower-cased form includes it. */
  predicate TextMatches(field: string, needle: string)
  {
    Includes(ToLower(field), needle)
  }

  /** `start.split("T")[1]?.slice(0, 5) === time`: the clock after the first "T" starts with `time`. */
  predicate TimeMatches(start: string, time: string)
  {
    var parts := Split(start, 'T');
    |parts| > 1 && Slice(parts[1], 0, 5) == time
  }

  /** The VIP filter applies only for the values "true" and "false". */
  predicate VipFilterActive(vip: Option<string>)
  {
    vip == Some("true") || vip == Some("false")
  }

  // Each stage holds for every event when its filter is not supplied.

  predicate PatientStage(f: Filters, e: CalendarEvent)
  {
    f.patient == "" || TextMatches(e.props.patientName, f.patient)
  }

  predicate TreatmentStage(f: Filters, e: CalendarEvent)
  {
    f.treatment == "" || TextMatches(e.props.treatment, f.treatment)
  }

  predicate ProfessionalStage(f: Filters, e: CalendarEvent)
  {
    f.professional == "" || TextMatches(e.props.professional, f.professional)
  }

  predicate VipStage(f: Filters, e: CalendarEvent)
  {
    !VipFilterActive(f.vip) || e.props.vip == (f.vip == Some("true"))
  }

  predicate DateStage(f: Filters, e: CalendarEvent)
  {
    f.date == "" || StartsWith(StartText(e), f.date)
  }

  predicate TimeStage(f: Filters, e: CalendarEvent)
  {
    f.time == "" || TimeMatches(StartText(e), f.time)
  }

  /** An event passes the filters when it passes every supplied one. */
  predicate Passes(f: Filters, e: CalendarEvent)
  {
    && PatientStage(f, e) && TreatmentStage(f, e) && ProfessionalStage(f, e)
    && VipStage(f, e) && DateStage(f, e) && TimeStage(f, e)
  }

  /**
   * The filter pipeline: each supplied filter in turn replaces the list by
   * the events that satisfy it. The result is the events that pass every
   * supplied filter, in their original order.
   */
  method ApplyFilters(f: Filters, events: seq<CalendarEvent>) returns (kept: seq<CalendarEvent>)
    ensures kept == Keep(events, e => Passes(f, e))
  {
    kept := events;
    if f.patient != "" {
      kept := Keep(kept, e => PatientStage(f, e));
    }
    if f.treatment != "" {
      kept := Keep(kept, e => TreatmentStage(f, e));
    }
    if f.professional != "" {
      kept := Keep(kept, e => ProfessionalStage(f, e));
    }
    if VipFilterActive(f.vip) {
      kept := Keep(kept, e => VipStage(f, e));
    }
    if f.date != "" {
      kept := Keep(kept, e => DateStage(f, e));
    }
    if f.time != "" {
      kept := Keep(kept, e => TimeStage(f, e));
    }
    SixStages(events,
              e => PatientStage(f, e), e => TreatmentStage(f, e), e => ProfessionalStage(f, e),
              e => VipStage(f, e), e => DateStage(f, e), e => TimeStage(f, e),
              f.patient != "", f.treatment != "", f.professional != "",
              VipFilterActive(f.vip), f.date != "", f.time != "",
              e => Passes(f, e));
  }

  /** `if (active) list = list.filter(s)`. */
  function Stage(list: seq<CalendarEvent>, s: CalendarEvent -> bool, active: bool): seq<CalendarEvent>
  {
    if active then Keep(list, s) else list
  }

  /**
   * Six stages in a row, each skipped only when it holds for every event,
   * keep exactly the events that satisfy all six.
   */
  lemma SixStages(events: seq<CalendarEvent>,
                  s1: CalendarEvent -> bool, s2: CalendarEvent -> bool, s3: CalendarEvent -> bool,
                  s4: CalendarEvent -> bool, s5: CalendarEvent -> bool, s6: CalendarEvent -> bool,
                  a1: bool, a2: bool, a3: bool, a4: bool, a5: bool, a6: bool,
                  all: CalendarEvent -> bool)
    requires forall e :: all(e) == (s1(e) && s2(e) && s3(e) && s4(e) && s5(e) && s6(e))
    requires !a1 ==> forall e :: s1(e)
    requires !a2 ==> forall e :: s2(e)
    requires !a3 ==> forall e :: s3(e)
    requires !a4 ==> forall e :: s4(e)
    requires !a5 ==> forall e :: s5(e)
    requires !a6 ==> forall e :: s6(e)
    ensures Stage(Stage(Stage(Stage(Stage(Stage(events, s1, a1), s2, a2), s3, a3), s4, a4), s5, a5), s6, a6)
         == Keep(events, all)
  {
    var p2 := e => s1(e) && s2(e);
    var p3 := e => p2(e) && s3(e);
    var p4 := e => p3(e) && s4(e);
    var p5 := e => p4(e) && s5(e);
    KeepAll(events, e => true);
    StageStep(events, e => true, s1, s1, a1);
    StageStep(events, s1, s2, p2, a2);
    StageStep(events, p2, s3, p3, a3);
    StageStep(events, p3, s4, p4, a4);
    StageStep(events, p4, s5, p5, a5);
    StageStep(events, p5, s6, all, a6);
  }

  /**
   * One stage of the pipeline: when the list so far is filtered by `p`,
   * applying the stage `s` (or skipping it when it is inactive and holds
   * for every event) leaves the list filtered by `p` and `s` together.
   */
  lemma StageStep(events: seq<CalendarEvent>, p: CalendarEvent -> bool, s: CalendarEvent -> bool,
                  ps: CalendarEvent -> bool, active: bool)
    requires forall e :: ps(e) == (p(e) && s(e))
    requires !active ==> forall e :: s(e)
    ensures (if active then Keep(Keep(events, p), s) else Keep(events, p)) == Keep(events, ps)
  {
    if active {
      KeepKeep(events, p, s, ps);
    } else {
      KeepAgree(events, p, ps);
    }
  }

  /**
   * The listing keeps an order-preserving subsequence of the projected
   * events, and an event is kept (as often as it occurs) exactly when it
   * passes every supplied filter.
   */
  lemma FilterKeepsExactlyPassing(f: Filters, events: seq<CalendarEvent>, x: CalendarEvent)
    ensures IsSubsequence(Keep(events, e => Passes(f, e)), events)
    ensures x in Keep(events, e => Passes(f, e)) <==> x in events && Passes(f, x)
    ensures multiset(Keep(events, e => Passes(f, e)))[x] == if Passes(f, x) then multiset(events)[x] else 0
  {
    KeepIsSubsequence(events, e => Passes(f, e));
    KeepMembership(events, e => Passes(f, e), x);
    KeepCounts(events, e => Passes(f, e), x);
  }

  /** Every kept event satisfies every supplied filter. */
  lemma KeptEventsMatch(f: Filters, events: seq<CalendarEvent>, i: int)
    requires 0 <= i < |Keep(events, e => Passes(f, e))|
    ensures var e := Keep(events, e => Passes(f, e))[i];
      && (f.patient != "" ==> Includes(ToLower(e.props.patientName), f.patient))
      && (f.treatment != "" ==> Includes(ToLower(e.props.treatment), f.treatment))
      && (f.professional != "" ==> Includes(ToLower(e.props.professional), f.professional))
      && (f.vip == Some("true") ==> e.props.vip)
      && (f.vip == Some("false") ==> !e.props.vip)
      && (f.date != "" ==> StartsWith(StartText(e), f.date))
      && (f.time != "" ==> TimeMatches(StartText(e), f.time))
  {
  }

  /** No filter parameter (and a VIP value other than "true" or "false") keeps the whole list. */
  lemma NoFiltersKeepAll(f: Filters, events: seq<CalendarEvent>)
    requires f.patient == "" && f.treatment == "" && f.professional == ""
    requires f.date == "" && f.time == "" && !VipFilterActive(f.vip)
    ensures Keep(events, e => Passes(f, e)) == events
  {
    KeepAll(events, e => Passes(f, e));
  }

  /** Filtering a filtered list again with the same query changes nothing. */
  lemma FilterIdempotent(f: Filters, events: seq<CalendarEvent>)
    ensures Keep(Keep(events, e => Passes(f, e)), e => Passes(f, e)) == Keep(events, e => Passes(f, e))
  {
    KeepIdempotent(events, e => Passes(f, e));
  }

  /** Applying the filters of two queries one after the other gives the same list in either order. */
  lemma FiltersCommute(f: Filters, g: Filters, events: seq<CalendarEvent>)
    ensures Keep(Keep(events, e => Passes(f, e)), e => Passes(g, e))
         == Keep(Keep(events, e => Passes(g, e)), e => Passes(f, e))
  {
    KeepCommute(events, e => Passes(f, e), e => Passes(g, e));
  }

  /** The VIP filter is three-valued: "true" keeps only VIPs, "false" only others, anything else all. */
  lemma VipFilterThreeValued(f: Filters, e: CalendarEvent)
    ensures f.vip == Some("true") ==> (VipStage(f, e) <==> e.props.vip)
    ensures f.vip == Some("false") ==> (VipStage(f, e) <==> !e.props.vip)
    ensures !VipFilterActive(f.vip) ==> VipStage(f, e)
  {
  }

  /**
   * A local start `date T hh:mm:ss`, with no "T" in the date, matches the
   * time filter `hh:mm` and the date filter `date`.
   */
  lemma LocalStartMatches(date: string, time: string, rest: string)
    requires 'T' !in date && 'T' !in time && 'T' !in rest && |time| == 5
    ensures TimeMatches(date + "T" + time + rest, time)
    ensures StartsWith(date + "T" + time + rest, date)
  {
    var s := date + "T" + time + rest;
    assert s == date + ['T'] + (time + rest);
    SplitAfterPiece(date, 'T', time + rest);
    SplitNoSeparator(time + rest, 'T');
    assert (time + rest)[0..5] == time;
    assert s[..|date|] == date;
  }

  /** The start the route writes, `date T time :00`, matches its own date and time filters. */
  lemma CreatedStartMatches(date: string, time: string)
    requires 'T' !in date && 'T' !in time && |time| == 5
    ensures TimeMatches(date + "T" + time + ":00", time)
    ensures StartsWith(date + "T" + time + ":00", date)
  {
    var rest := ":00";
    assert rest[0] != 'T' && rest[1] != 'T' && rest[2] != 'T';
    LocalStartMatches(date, time, rest);
  }

  /** An all-day start `YYYY-MM-DD` never matches a time filter. */
  lemma AllDayStartHasNoTime(date: string, time: string)
    requires 'T' !in date
    ensures !TimeMatches(date, time)
  {
    SplitNoSeparator(date, 'T');
  }

  /**
   * An event created from a body is found again by the listing filters
   * built from that body: its own patient name, treatment, date, time and
   * VIP flag.
   */
  lemma CreatedEventMatchesItsFilters(b: PostBody, id: string, q: EventRequest)
    requires HasRequiredFields(Some(b))
    requires q.privateProps == PrivateProps(b)
    requires q.start.dateTime == b.date.value + "T" + b.time.value + ":00"
    requires q.end.dateTime != ""
    requires 'T' !in b.date.value && 'T' !in b.time.value && |b.time.value| == 5
    ensures var e := Project(StoredOf(id, q));
      var f := Filters(ToLower(Trim(b.patientName.value)), b.date.value, b.time.value,
                       ToLower(Trim(b.treatment.GetOr(""))),
                       Some(if b.vip == Some(true) then "true" else "false"),
                       ToLower(Trim(b.professional.GetOr(""))));
      Passes(f, e)
  {
    CreatedEventReadsBack(b, id, q);
    var e := Project(StoredOf(id, q));
    var f := Filters(ToLower(Trim(b.patientName.value)), b.date.value, b.time.value,
                     ToLower(Trim(b.treatment.GetOr(""))),
                     Some(if b.vip == Some(true) then "true" else "false"),
                     ToLower(Trim(b.professional.GetOr(""))));
    IncludesOwnTrim(e.props.patientName);
    assert PatientStage(f, e);
    IncludesOwnTrim(e.props.treatment);
    assert TreatmentStage(f, e);
    IncludesOwnTrim(e.props.professional);
    assert ProfessionalStage(f, e);
    assert VipStage(f, e);
    var start := b.date.value + "T" + b.time.value + ":00";
    CreatedStartMatches(b.date.value, b.time.value);
    assert StartText(e) == start;
    assert DateStage(f, e);
    assert TimeStage(f, e);
  }
}
