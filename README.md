# Clinic agenda: appointment logic of the calendar API and the agenda page

This project models, in Dafny, the scheduling core of a pilates/physiotherapy
clinic web application:

- the calendar events API route (`GET` lists the appointments of a range and
  filters them; `POST` builds a new appointment: start and end wall-clock
  times, summary, description, private properties and an optional monthly
  recurrence rule), and
- the agenda page's appointment logic (date and time formatting, the duration
  read back from a clicked event's time range, the prefill of the edit form,
  the clamps on the number inputs, the query string of the listing request,
  the create payload and the form state kept by the page).

The JavaScript runtime pieces the code relies on are modelled explicitly:
`Number(string)`, `String(number)`, `padStart`, `split`/`join`, `trim`,
`toLowerCase`, `includes`, `startsWith`, `slice`, `Array.prototype.filter`,
`||` against `??`, `Math.round`, `Math.max`, and the `Date` constructor,
getters and `setMinutes` (with month/day overflow and the valid time range).

Files, one module each:

| file | module | contents |
|---|---|---|
| `wrappers.dfy` | `Wrappers` | `Option` |
| `js_strings.dfy` | `JsStrings` | string built-ins |
| `js_numbers.dfy` | `JsNumbers` | JS numbers (finite, NaN, ±Infinity), `Number(string)`, `String(number)` |
| `js_arrays.dfy` | `JsArrays` | `filter` |
| `gregorian.dfy` | `Gregorian` | proleptic Gregorian calendar, day numbers from 1970-01-01 and their inverse |
| `js_dates.dfy` | `JsDates` | `Date` at minute resolution |
| `date_format.dfy` | `DateFormat` | `pad`, `toLocalRFC3339`, `ymd`, `hm` |
| `event_creation.dfy` | `EventCreation` | `buildEndLocal` and `POST` |
| `event_listing.dfy` | `EventListing` | `GET`: query, projection, filters |
| `agenda.dfy` | `Agenda` | the agenda page, its form state as the class `AgendaState` |

The route has no attendance-status colours, never reads or writes a presence
value, and has no `PUT` handler. The page never sends `vip`, so appointments
created from the agenda are stored as not VIP.

## Model

| member | source | states |
|---|---|---|
| JsStrings.Slice | app/api/calendar/events/route.ts:26-28 | `slice` with clamped bounds: the characters of the input from `start`, of length `end - start` when both ends are in range, the rest of the input when only `end` is past its length, empty when the range is empty |
| JsStrings.SplitPieces | app/api/calendar/events/route.ts:24 | the pieces of `split` contain no separator and joining them with it gives back the input |
| JsStrings.SplitNoSeparator | app/api/calendar/events/route.ts:24 | a string without the separator splits into itself alone |
| JsStrings.SplitAfterPiece | app/api/calendar/events/route.ts:24 | splitting `a + sep + b` gives `a` followed by the pieces of `b` |
| JsStrings.SplitTwoPieces | app/agenda/page.tsx:53 | a string with one separator splits into the two sides |
| JsStrings.SplitHasPieces | app/agenda/page.tsx:53-55 | `split` yields more than one piece iff the separator occurs |
| JsStrings.SplitJoin | app/agenda/page.tsx:53 | `split` undoes `join` of separator-free pieces |
| JsStrings.TrimStartSuffix | app/api/calendar/events/route.ts:56-61 | left trim returns a suffix, starts with a non-space, and drops only whitespace |
| JsStrings.TrimEndPrefix | app/api/calendar/events/route.ts:56-61 | right trim returns a prefix, ends with a non-space, and drops only whitespace |
| JsStrings.TrimUnpadded | app/api/calendar/events/route.ts:56-61 | `trim` leaves a string without outer whitespace unchanged |
| JsStrings.TrimStartDropsPrefix | app/agenda/page.tsx:53 | left trim removes exactly a leading whitespace run |
| JsStrings.TrimEndDropsSuffix | app/agenda/page.tsx:53 | right trim removes exactly a trailing whitespace run |
| JsStrings.TrimDropsPadding | app/agenda/page.tsx:53 | `trim` of a whitespace-padded word is the word |
| JsStrings.ToLowerIdempotent | app/api/calendar/events/route.ts:56 | lower-casing twice is lower-casing once |
| JsStrings.LowerCharKeepsWhitespace | app/api/calendar/events/route.ts:56 | lower-casing neither creates nor removes whitespace |
| JsStrings.TrimStartToLower | app/api/calendar/events/route.ts:56 | left trim and lower-casing commute |
| JsStrings.TrimEndToLower | app/api/calendar/events/route.ts:56 | right trim and lower-casing commute |
| JsStrings.TrimToLowerCommute | app/api/calendar/events/route.ts:56 | `trim` and `toLowerCase` commute |
| JsStrings.IncludesIff | app/api/calendar/events/route.ts:99-122 | `includes` holds iff the needle occurs at some position |
| JsStrings.ToLowerSlice | app/api/calendar/events/route.ts:99-122 | lower-casing commutes with taking a slice |
| JsStrings.IncludesOwnTrim | app/api/calendar/events/route.ts:99-122 | a field always includes its own trimmed, lower-cased text, so filtering by a stored value finds it |
| JsStrings.PadStart | app/api/calendar/events/route.ts:11 | `padStart` has length max(width, input), ends with the input, and is filled before it |
| JsNumbers.OrElse | app/api/calendar/events/route.ts:29-30 | `x \|\| d` is either `x` or `d`, keeps a truthy `x`, and is never falsy when `d` is not 0 |
| JsNumbers.Plus | app/api/calendar/events/route.ts:34 | adding an integer keeps NaN and the infinities and adds to a finite value |
| JsNumbers.DigitValue | app/api/calendar/events/route.ts:24 | a digit's value is below ten and writes back as that digit |
| JsNumbers.DecimalString | app/api/calendar/events/route.ts:11 | `String(n)` of a natural is digits with no leading zero |
| JsNumbers.DecimalRoundTrip | app/api/calendar/events/route.ts:11 | the digits of `String(n)` read back as `n` |
| JsNumbers.DecimalStringFourDigits | app/api/calendar/events/route.ts:17 | a year from 1000 to 9999 prints as four digits |
| JsNumbers.IntStringReadsBack | app/api/calendar/events/route.ts:17 | `Number` reads `String(n)` back as `n`, negative numbers included |
| JsNumbers.NumberOf | app/api/calendar/events/route.ts:24 | `Number(s)` is a finite value or NaN, and negative only when the trimmed text starts with "-" |
| JsNumbers.NumberOfDigits | app/api/calendar/events/route.ts:24 | `Number` of a digit string is its decimal value |
| JsNumbers.NumberOfDecimal | app/api/calendar/events/route.ts:24 | `Number(String(n)) == n` |
| JsNumbers.NumberOfLeadingZero | app/api/calendar/events/route.ts:24 | a zero-padded two-digit string reads as its last digit |
| JsNumbers.NumberOfSignedDigits | app/agenda/page.tsx:593-596 | a "-" or "+" followed by a run of digits reads as the run's value with that sign |
| JsNumbers.NumberOfSigned | app/agenda/page.tsx:593-596 | a "-" or "+" followed by `String(k)` reads as `-k` or `k` |
| JsArrays.Keep | app/api/calendar/events/route.ts:99-143 | `filter` keeps only elements satisfying the predicate and never grows the list |
| JsArrays.KeepIsSubsequence | app/api/calendar/events/route.ts:99-143 | `filter` keeps the order of the elements it keeps |
| JsArrays.KeepCounts | app/api/calendar/events/route.ts:99-143 | `filter` keeps every copy of a passing element and no copy of a failing one |
| JsArrays.KeepMembership | app/api/calendar/events/route.ts:99-143 | an element is kept iff it is in the list and passes |
| JsArrays.KeepAll | app/api/calendar/events/route.ts:99-143 | filtering by a predicate every element passes changes nothing |
| JsArrays.KeepAgree | app/api/calendar/events/route.ts:99-143 | predicates that agree on the list filter it alike |
| JsArrays.KeepKeep | app/api/calendar/events/route.ts:99-143 | two filters in a row are one filter by the conjunction |
| JsArrays.KeepAppend | app/api/calendar/events/route.ts:99-143 | filtering distributes over concatenation |
| JsArrays.KeepIdempotent | app/api/calendar/events/route.ts:99-143 | filtering twice by the same predicate is filtering once |
| JsArrays.KeepCommute | app/api/calendar/events/route.ts:99-143 | the order of two filters does not matter |
| Gregorian.DaysInMonth | app/api/calendar/events/route.ts:25-33 | every month has 28 to 31 days |
| Gregorian.DaysBeforeMonth | app/api/calendar/events/route.ts:25-33 | no days precede January and a whole year precedes month 13 |
| Gregorian.MonthStep | app/api/calendar/events/route.ts:25-33 | the days before the next month are those before this one plus its length |
| Gregorian.YearStartStep | app/api/calendar/events/route.ts:25-33 | the next year starts a year's length later |
| Gregorian.YearStartGrows | app/api/calendar/events/route.ts:25-33 | later years start after earlier years end |
| Gregorian.YearStartBounds | app/api/calendar/events/route.ts:25-33 | a year starts within 366 days per year of 1970 |
| Gregorian.YearOf | app/api/calendar/events/route.ts:17 | the year found for a day number contains that day |
| Gregorian.YearAtOrAfter | app/api/calendar/events/route.ts:17 | the year search upwards ends at the containing year |
| Gregorian.YearAtOrBefore | app/api/calendar/events/route.ts:17 | the year search downwards ends at the containing year |
| Gregorian.MonthFrom | app/api/calendar/events/route.ts:17 | the month found for a day of the year contains it |
| Gregorian.DateOfDayNumber | app/api/calendar/events/route.ts:17 | every day number is the day number of a valid date (the `Date` getters) |
| Gregorian.MonthsInOrder | app/api/calendar/events/route.ts:17 | months start in calendar order |
| Gregorian.DayNumberPlacement | app/api/calendar/events/route.ts:17 | a date's day number falls in its year and in its month |
| Gregorian.DayNumberInjective | app/api/calendar/events/route.ts:25-33 | different valid dates have different day numbers |
| Gregorian.DateRoundTrip | app/api/calendar/events/route.ts:15-33 | the date read back from a date's day number is that date |
| Gregorian.NextDate | app/api/calendar/events/route.ts:34 | the day after a valid date is valid |
| Gregorian.NextDayNumber | app/api/calendar/events/route.ts:34 | the next date's day number is one more |
| Gregorian.NextDateIsNextDay | app/api/calendar/events/route.ts:34 | the next date is the date of the next day number |
| Gregorian.FebruaryRollover | app/api/calendar/events/route.ts:34 | 28 February is followed by 29 February exactly in leap years, then by 1 March |
| JsDates.DateTimeOf | app/api/calendar/events/route.ts:15-20 | every minute number is the minute number of a valid wall-clock time |
| JsDates.MinuteNumberInjective | app/api/calendar/events/route.ts:25-33 | different wall-clock times are different minutes |
| JsDates.DateTimeRoundTrip | app/api/calendar/events/route.ts:15-33 | reading a wall-clock time back from its minute number gives it back |
| JsDates.MinuteNumberInRange | app/api/calendar/events/route.ts:25-33 | times within 100000 years of 1970 are within the valid range |
| JsDates.GettersOfValid | app/api/calendar/events/route.ts:17-18 | the getters of a valid date return its year, 0-based month, day, hours and minutes |
| JsDates.NewDate | app/api/calendar/events/route.ts:25-33 | no contract of its own: the `Date` constructor; NewDateOfFields, NewDateMonthOverflow and NewDateDayZero state its results |
| JsDates.SetMinutes | app/api/calendar/events/route.ts:34 | no contract of its own: `setMinutes`; SetMinutesAdds states that it moves the time by the added minutes, then clips |
| JsDates.NewDateOfFields | app/api/calendar/events/route.ts:25-33 | `new Date(y, m - 1, d, h, mi)` of in-range fields is that wall-clock time |
| JsDates.NewDateMonthOverflow | app/api/calendar/events/route.ts:25-33 | month index 12 is January of the following year |
| JsDates.NewDateDayZero | app/api/calendar/events/route.ts:25-33 | day 0 is the last day of the previous month |
| JsDates.SetMinutesAdds | app/api/calendar/events/route.ts:34 | `setMinutes(getMinutes() + k)` moves the time by `k` minutes (then clips) |
| DateFormat.Pad | app/api/calendar/events/route.ts:10-12 | no contract of its own: `pad`; PadTwoDigits, PadDigits and PadZero state its text |
| DateFormat.ToLocalRfc3339 | app/api/calendar/events/route.ts:15-20 | no contract of its own: `toLocalRFC3339`; ToLocalRfc3339OfValid, ToLocalRfc3339OfInvalid and LocalRfc3339Shape state its text |
| DateFormat.Ymd | app/agenda/page.tsx:42-43 | no contract of its own: `ymd`; YmdOfValid and YmdReadsBack state its text |
| DateFormat.Hm | app/agenda/page.tsx:44 | no contract of its own: `hm`; HmOfValid, HmReadsBack and Agenda.ClockTextShape state its text |
| DateFormat.PadTwoDigits | app/api/calendar/events/route.ts:10-12 | `pad` of 0..99 is two digits that read back as the number |
| DateFormat.PadDigits | app/agenda/page.tsx:41 | `pad` of 0..99 is its tens digit then its units digit |
| DateFormat.PadZero | app/api/calendar/events/route.ts:18 | `pad(0)` is "00" |
| DateFormat.ToLocalRfc3339OfInvalid | app/api/calendar/events/route.ts:15-20 | an invalid date formats as "NaN-NaN-NaNTNaN:NaN:NaN" |
| DateFormat.YmdOfValid | app/agenda/page.tsx:42-43 | `ymd` of a valid date is the year, the padded month and the padded day |
| DateFormat.HmOfValid | app/agenda/page.tsx:44 | `hm` of a valid date is the padded hours and minutes |
| DateFormat.DateTextReadsBack | app/agenda/page.tsx:42-43 | the date text splits on "-" into three pieces that `Number` reads back as year, month and day |
| DateFormat.TimeTextReadsBack | app/agenda/page.tsx:44 | the "HH:MM" text has length 5 and splits on ":" into pieces that read back as hours and minutes |
| DateFormat.YmdReadsBack | app/agenda/page.tsx:42-43 | the page's `ymd` of a four-digit-year date reads back as that date |
| DateFormat.HmReadsBack | app/agenda/page.tsx:44 | the page's `hm` reads back as the hours and minutes |
| DateFormat.ToLocalRfc3339Parts | app/api/calendar/events/route.ts:15-20 | the route's format is the page's `ymd`, "T", `hm`, ":" and the padded seconds |
| DateFormat.ToLocalRfc3339OfValid | app/api/calendar/events/route.ts:15-20 | a valid date formats with seconds ":00" |
| DateFormat.LocalRfc3339Shape | app/api/calendar/events/route.ts:14-20 | a four-digit-year date formats as 19 characters with "-", "T" and ":" in place and no "Z" or fraction |
| DateFormat.TextsOfFields | app/agenda/page.tsx:41-44 | `ymd`/`hm` of a wall-clock time's minute are its date and time texts |
| EventCreation.BuildEndLocal | app/api/calendar/events/route.ts:23-36 | no contract of its own: `buildEndLocal`; BuildEndLocalAddsMinutes, EndAt, NonFiniteDurationIsAnHour, MalformedYearIsNaN and FarEndIsNaN state its result |
| EventCreation.StartArgs | app/api/calendar/events/route.ts:24-33 | no contract of its own: the `Date` arguments read from the texts; StartArgsOfFields, NonNumericHourIsZero and NonNumericMinuteIsZero state them |
| EventCreation.StartArgsOfFields | app/api/calendar/events/route.ts:24-33 | the `Date` arguments read from well-formed date and time texts are the numbers they show, month minus one |
| EventCreation.StartDateOfFields | app/api/calendar/events/route.ts:24-33 | the start date built from well-formed texts is the wall-clock time they show |
| EventCreation.StartDateOfTexts | app/api/calendar/events/route.ts:24-33 | the start built from a wall-clock time's texts is that time |
| EventCreation.EndOfStart | app/api/calendar/events/route.ts:23-36 | the end is the start plus the minutes to add, formatted |
| EventCreation.BuildEndLocalAddsMinutes | app/api/calendar/events/route.ts:23-36 | `buildEndLocal` of a time's texts is that time plus `k` minutes, formatted |
| EventCreation.AgendaTextsAreFieldTexts | app/agenda/page.tsx:42-44 | the texts the page sends are the texts of a wall-clock time |
| EventCreation.BuildEndLocalOfZero | app/api/calendar/events/route.ts:23-36 | adding zero minutes gives the start with ":00" seconds |
| EventCreation.EndOnSameDay | app/api/calendar/events/route.ts:23-36 | an end before midnight keeps the date and shows the summed clock |
| EventCreation.EndOnNextDay | app/api/calendar/events/route.ts:23-36 | an end past midnight is on the next calendar date |
| EventCreation.EndAt | app/api/calendar/events/route.ts:23-36 | the end is the formatted wall-clock time at start plus `k` minutes |
| EventCreation.FarEndIsNaN | app/api/calendar/events/route.ts:34-35 | an end beyond the ±8.64e15 ms range of `Date` is an invalid date, so the end text is "NaN" in every field |
| EventCreation.NonFiniteDurationIsAnHour | app/api/calendar/events/route.ts:34 | a NaN or infinite duration ends the event an hour later |
| EventCreation.NonNumericHourIsZero | app/api/calendar/events/route.ts:24-29 | a non-numeric hour counts as 0 |
| EventCreation.NonNumericMinuteIsZero | app/api/calendar/events/route.ts:24-30 | a non-numeric or missing minute counts as 0 |
| EventCreation.MalformedYearIsNaN | app/api/calendar/events/route.ts:24-35 | a date whose year is not a number gives the NaN text |
| EventCreation.EndCrossesMonth | app/api/calendar/events/route.ts:34 | 31 January 23:45 plus 30 minutes ends on 1 February |
| EventCreation.EndReachesLeapDay | app/api/calendar/events/route.ts:34 | in a leap year 28 February 23:50 plus 20 minutes ends on 29 February |
| EventCreation.EndSkipsLeapDay | app/api/calendar/events/route.ts:34 | otherwise it ends on 1 March |
| EventCreation.EndCrossesYear | app/api/calendar/events/route.ts:34 | 31 December 23:30 plus 45 minutes ends on 1 January of the next year |
| EventCreation.KeepThree | app/api/calendar/events/route.ts:212-216 | dropping empty parts keeps exactly the non-empty ones in order |
| EventCreation.Summary | app/api/calendar/events/route.ts:212-216 | no contract of its own: the summary; SummaryText, SummaryStart and SummaryEnd state its text |
| EventCreation.SummaryText | app/api/calendar/events/route.ts:212-216 | the summary is the VIP marker and a space iff VIP, the name, and " – treatment" iff a treatment is given |
| EventCreation.JoinAroundName | app/api/calendar/events/route.ts:212-216 | joining three parts around a non-empty name puts single spaces only next to the present parts |
| EventCreation.SummaryStart | app/api/calendar/events/route.ts:212-216 | the summary starts with the marker and the name for a VIP, with the name otherwise |
| EventCreation.SummaryEnd | app/api/calendar/events/route.ts:212-216 | the summary ends with " – treatment" when given, else with the name |
| EventCreation.Description | app/api/calendar/events/route.ts:218-224 | no contract of its own: the description; DescriptionText and DescriptionSplits state its text |
| EventCreation.DescriptionText | app/api/calendar/events/route.ts:218-224 | for all fields, multi-line notes included: the description is empty iff all three fields are, and is the labelled lines of the non-empty fields, in order, joined by newlines |
| EventCreation.DescriptionSplits | app/api/calendar/events/route.ts:218-224 | for newline-free fields, a non-empty description splits at newlines into exactly one labelled line per non-empty field, in order |
| EventCreation.SplitNonEmptyLines | app/api/calendar/events/route.ts:218-224 | newline-joining the non-empty lines and splitting again gives those lines |
| EventCreation.RecurrenceRule | app/api/calendar/events/route.ts:250-253 | no contract of its own: the recurrence rule; RecurrenceCount, RecurrenceOfThree and NoRecurrence state it |
| EventCreation.RecurrenceCount | app/api/calendar/events/route.ts:250-253 | a rule exists iff the month count is positive, and it is monthly with COUNT one more than it |
| EventCreation.RecurrenceOfThree | app/api/calendar/events/route.ts:250-253 | three months give "RRULE:FREQ=MONTHLY;COUNT=4" |
| EventCreation.NoRecurrence | app/api/calendar/events/route.ts:250 | zero, negative or NaN months give no rule |
| EventCreation.PrivateProps | app/api/calendar/events/route.ts:232-241 | no contract of its own: the private properties; PrivatePropsContents states their keys and values |
| EventCreation.PrivatePropsContents | app/api/calendar/events/route.ts:232-241 | the stored properties have exactly the six field keys plus `idemKey` iff a key was given; each field holds the body's value or "" when absent, `vip` is "true" iff the body says so, and `idemKey` holds the key |
| EventCreation.Post | app/api/calendar/events/route.ts:175-253 | missing date, time or patient is refused first, then a missing calendar id; otherwise the request has the local start, the computed end, summary, description, properties, and a recurrence iff the months are positive |
| EventListing.ParseQuery | app/api/calendar/events/route.ts:46-61 | the request is refused iff `from` or `to` is missing or empty, and otherwise carries them |
| EventListing.TextFilterIgnoresCase | app/api/calendar/events/route.ts:56-61 | the text filters are the same whatever the case of the parameter |
| EventListing.Project | app/api/calendar/events/route.ts:77-96 | no contract of its own: the projection of a stored event; ProjectRule, ProjectWithoutProps and CreatedEventReadsBack state it |
| EventListing.ProjectRule | app/api/calendar/events/route.ts:77-96 | every stored event keeps its id and times, is VIP iff its private `vip` is "true", has as patient its private name if non-empty, else its summary, else "", and is titled by that name (or "Agendamento") behind a star iff VIP |
| EventListing.ProjectWithoutProps | app/api/calendar/events/route.ts:77-96 | an event without private properties takes its summary as patient name and title, and is not VIP |
| EventListing.CreatedEventReadsBack | app/api/calendar/events/route.ts:77-96 | an event created by `POST` lists with its id, its six fields, a star title iff VIP, and its start and end |
| EventListing.ApplyFilters | app/api/calendar/events/route.ts:98-143 | the six filter stages in sequence keep exactly the events passing all active filters |
| EventListing.SixStages | app/api/calendar/events/route.ts:98-143 | six optional filter stages equal one filter by their conjunction |
| EventListing.StageStep | app/api/calendar/events/route.ts:98-143 | an inactive stage keeps everything, an active one adds its test |
| EventListing.FilterKeepsExactlyPassing | app/api/calendar/events/route.ts:98-143 | the listing keeps order, keeps an event iff it passes, and keeps every copy of it |
| EventListing.KeptEventsMatch | app/api/calendar/events/route.ts:98-143 | every listed event matches every active filter |
| EventListing.NoFiltersKeepAll | app/api/calendar/events/route.ts:98-143 | with no active filter every event is listed |
| EventListing.FilterIdempotent | app/api/calendar/events/route.ts:98-143 | filtering a filtered listing again changes nothing |
| EventListing.FiltersCommute | app/api/calendar/events/route.ts:98-143 | filtering by two filter sets in either order gives the same listing |
| EventListing.VipFilterThreeValued | app/api/calendar/events/route.ts:123-126 | vip "true" keeps VIPs, "false" keeps the others, anything else keeps all |
| EventListing.LocalStartMatches | app/api/calendar/events/route.ts:127-143 | a timed start matches its own date and its own "HH:MM" |
| EventListing.CreatedStartMatches | app/api/calendar/events/route.ts:127-143 | the start written by `POST` matches its date and time filters |
| EventListing.AllDayStartHasNoTime | app/api/calendar/events/route.ts:135-143 | an all-day start never matches a time filter |
| EventListing.CreatedEventMatchesItsFilters | app/api/calendar/events/route.ts:77-143 | an event created by `POST` passes the filters made of its own patient, date, time, treatment, VIP flag and professional |
| Agenda.NumberAt | app/agenda/page.tsx:54-55 | a piece read as a number is finite or NaN, and a missing piece is NaN |
| Agenda.ClockMinutes | app/agenda/page.tsx:54-56 | a clock reads as a finite number of minutes or NaN |
| Agenda.ClockDistance | app/agenda/page.tsx:56-59 | the duration is finite iff both clocks are, and then lies in 0..1439, wrapping past midnight |
| Agenda.ClockTextShape | app/agenda/page.tsx:44 | a padded clock is five characters with ":" in the middle, no "-" and a digit at each end |
| Agenda.DurationInMinutes | app/agenda/page.tsx:52-60 | no contract of its own: `getDurationInMinutes`; DurationThrowsWithoutDash, ClockDistance and DurationOfClockRange state its result |
| Agenda.DurationThrowsWithoutDash | app/agenda/page.tsx:52-55 | the duration throws (no second clock) iff the range has no "-" |
| Agenda.ClockMinutesOfPieces | app/agenda/page.tsx:54-55 | a clock whose pieces read as `h` and `mi` is `h*60 + mi` minutes |
| Agenda.ClockTextMinutes | app/agenda/page.tsx:54-55 | a padded clock text reads as `h*60 + mi` |
| Agenda.PaddedClockMinutes | app/agenda/page.tsx:53-55 | whitespace around a clock does not change its minutes |
| Agenda.DurationOfPieces | app/agenda/page.tsx:52-60 | a range of two clocks has duration end minus start, plus a day if negative |
| Agenda.ClockTextOfTime | app/agenda/page.tsx:53-55 | a padded clock text is a clock of its minutes |
| Agenda.SplitRange | app/agenda/page.tsx:53 | "a - b" splits on "-" into "a " and " b" |
| Agenda.TrimmedClocks | app/agenda/page.tsx:53-55 | the trimmed halves read as their clocks |
| Agenda.DurationOfTexts | app/agenda/page.tsx:52-60 | the duration of "a - b" for clocks `a`, `b` is their distance |
| Agenda.DurationOfClockRange | app/agenda/page.tsx:52-60 | the duration of "HH:MM - HH:MM" is the end minus the start, wrapped past midnight |
| Agenda.DurationExample | app/agenda/page.tsx:51 | "16:00 - 17:00" lasts 60 minutes |
| Agenda.DurationPastMidnight | app/agenda/page.tsx:58 | "23:30 - 00:15" lasts 45 minutes |
| Agenda.RoundMinutes | app/agenda/page.tsx:118 | `Math.round(ms / 60000)` is the nearest minute count, halves upwards |
| Agenda.RoundWholeMinutes | app/agenda/page.tsx:118 | a whole number of minutes rounds to itself |
| Agenda.EventDuration | app/agenda/page.tsx:106-119 | the prefilled duration is at least 15, 50 without an end, otherwise the rounded length clamped to 15 |
| Agenda.EventDurationOfWholeMinutes | app/agenda/page.tsx:116-119 | an event of `k >= 15` whole minutes prefills `k` |
| Agenda.ShortEventShowsFifteen | app/agenda/page.tsx:116-119 | an event shorter than 15.5 minutes (so every event under 15 minutes) prefills 15 |
| Agenda.PrefillForm | app/agenda/page.tsx:108-121 | the edit form has a duration of at least 15, no recurrence, and the stored patient name or else the title |
| Agenda.PrefillPresence | app/agenda/page.tsx:123 | a missing presence prefills as not filled |
| Agenda.PrefillRoundTrip | app/agenda/page.tsx:109-110 | the prefilled date and time are the event's wall-clock texts and the route reads them back as the same start |
| Agenda.AtLeast | app/agenda/page.tsx:593-596 | `Math.max(lo, x)`: NaN stays NaN, values below `lo` become `lo`, others are kept |
| Agenda.ClampDurationInput | app/agenda/page.tsx:593-596 | an empty input gives 50; a number typed is kept when at least 15 and raised to 15 otherwise; NaN only from a non-numeric text; never an infinity |
| Agenda.ClampRecurrenceInput | app/agenda/page.tsx:614-617 | an empty input gives 0; a number typed is kept when at least 0 and raised to 0 otherwise; NaN only from a non-numeric text; never an infinity |
| Agenda.DurationInputStable | app/agenda/page.tsx:593-596 | typing back the clamped duration gives the same value; a short duration becomes 15 |
| Agenda.RecurrenceInputStable | app/agenda/page.tsx:614-617 | typing back the clamped month count gives the same value |
| Agenda.NegativeInputsClamp | app/agenda/page.tsx:593-617 | a negative whole number typed gives 15 minutes in the duration input and 0 months in the recurrence input |
| Agenda.WithFilter | app/agenda/page.tsx:170-174 | a filter is added to the query iff it is non-empty, and no other entry changes |
| Agenda.QueryOf | app/agenda/page.tsx:166-174 | no contract of its own: the listing query; QueryRange, QueryFilters, BuildQuery and QueryReadsBack state it |
| Agenda.QueryRange | app/agenda/page.tsx:166-174 | the query carries the range's `from` and `to`, and no key besides the range and the five filters, so never `vip` |
| Agenda.QueryFilters | app/agenda/page.tsx:170-174 | the query carries each filter exactly when it is set and non-empty, with its value |
| Agenda.BuildQuery | app/agenda/page.tsx:166-174 | building the query entry by entry gives the query of the range and filters |
| Agenda.EntryReadsBack | app/api/calendar/events/route.ts:56-61 | the route reads an optional query entry back as the value or "" |
| Agenda.QueryReadsBack | app/agenda/page.tsx:166-174 | the route accepts the page's query iff the range is non-empty, and reads back the page's filters trimmed and lower-cased |
| Agenda.NewPayload | app/agenda/page.tsx:232-237 | the create payload is the form with the duration forced to 50, the key, and presence not filled |
| Agenda.PostBodyOf | app/agenda/page.tsx:232-244 | no contract of its own: the JSON body the page posts; SubmittedBodyFields and PostForm state what the route makes of it |
| Agenda.SubmittedBodyFields | app/agenda/page.tsx:232-242 | the route accepts the payload iff date, time and patient are non-empty; it is stored not VIP, with the key iff non-empty, and recurs iff the months are positive |
| Agenda.SubmittedEventLastsFiftyMinutes | app/agenda/page.tsx:234 | an appointment created from the agenda ends 50 minutes after its start, whatever the form showed |
| Agenda.PostForm | app/agenda/page.tsx:232-244 | posting the form is refused exactly when date, time or patient is empty, and otherwise ends 50 minutes after the start |
| Agenda.AgendaState.constructor | app/agenda/page.tsx:66-95 | the page starts in create mode, closed, nothing being edited, presence not filled, the initial form |
| Agenda.AgendaState.OpenEditFromEvent | app/agenda/page.tsx:103-127 | clicking an event opens the editor on it with the prefilled form and presence |
| Agenda.AgendaState.StartEditing | app/agenda/page.tsx:108-126 | the editor state is set to the given form, presence and id, in edit mode and open |
| Agenda.AgendaState.Reset | app/agenda/page.tsx:247-261 | after a save the page is back in its initial state |
| Agenda.AgendaState.SetDurationInput | app/agenda/page.tsx:590-597 | typing a duration sets the form's duration to its clamp and changes nothing else |
| Agenda.AgendaState.SetRecurrenceInput | app/agenda/page.tsx:611-618 | typing a month count sets the form's months to its clamp and changes nothing else |
| Agenda.AgendaState.SubmitCreate | app/agenda/page.tsx:217-264 | submitting in create mode is refused iff a required field is empty; an accepted submission ends 50 minutes after the start and resets the page, a refused one changes nothing |

## Left out

- Time zones: dates are naive local wall-clock times. The `America/Sao_Paulo` zone is carried as a constant, but no zone or daylight-saving conversion is modelled.
- `Date` is modelled at minute resolution. The route always builds dates with zero seconds, so nothing is lost there. The page's millisecond event times are kept as integers only for the duration rounding.
- `Number(string)` is modelled for empty or blank text (0), plain digit strings and a sign followed by digits; everything else reads as NaN. Decimals, exponents, hexadecimal and "Infinity" texts read as NaN in the model, where JavaScript gives a number.
- ClampDurationInput: a fractional typed duration ("17.5") reads as NaN in the model, where the page keeps 17.5, because `Number(string)` is modelled on whole numbers.
- ClampRecurrenceInput: a fractional typed month count ("2.5") reads as NaN in the model, where the page keeps 2.5, for the same reason.
- Floating-point arithmetic is not modelled: `Math.round` and the division by 60000 are exact integer arithmetic.
- JSON values of the wrong type are not modelled: string fields are strings or absent and `vip` is a boolean or absent; the model reads a `null` there as absent, where the route would store `null` in the private properties.
- PostBody: the two number fields hold `Number` of the value sent. A `null` is `Some(Finite(0))`, so a `null` duration ends the event at its start, while an absent one adds 60 minutes.
- JsNum: holds whole numbers only, so fractional JSON numbers are not modelled. The route would write a fractional month count into the rule (2.5 gives "COUNT=3.5"), and `setMinutes` would truncate a fractional duration.
- DescriptionSplits: the split-back is stated only for newline-free fields, because a multi-line note splits into several lines; DescriptionText states the description for all fields.
- The Google Calendar client is not modelled: authentication, `events.list`, `events.insert` and their errors. The listing starts from the already-fetched stored events, and an insert is assumed to succeed. The calendar id is a parameter instead of an environment variable.
- `singleEvents`, `orderBy` and `maxResults` of the listing call are left out; they are passed through to the calendar service.
- The `toISOString` conversion of the range is left out: `from` and `to` are opaque texts.
- Exceptions turned into 500 responses and the page's `alert` messages are left out. Only the refusals the code makes itself are modelled.
- `makeKey` is random, so the idempotency key is a parameter.
- The page's edit branch of `onSubmitNew` is left out: it sends a `PUT` that the route does not implement.
- The page's rendering and its calendar widget are left out: `onEventClick` wiring, view changes, the `saving` flag, and the handling of the response of `fetchEvents`.
- JsStrings.ToLower: lower-cases ASCII and Latin-1 capitals only, not full Unicode case mapping.
- DateFormat.YmdReadsBack and the other read-back lemmas are stated for four-digit years (1000 to 9999) only. Other years print with another number of digits.
