# Lyon Tech Hub calendar pipeline, modelled in Dafny

This project models the core of the Lyon Tech Hub calendar aggregator. The aggregator reads
each community group's ICS feed and turns every VEVENT into canonical calendar events. It
stores the calendar as JSON and publishes it again as an ICS feed. The model covers:

- `Name` (module `Names`): the whitespace normalisation `trim()` followed by
  `replaceAll(/\s+/g, ' ')`, with JavaScript's set of whitespace characters.
- `CalendarEvent` (module `CalendarEvents`): the builder, the immutable event with its
  timestamp defaults, `toBuilder` and `fullTitle`.
- `IcsParser` (module `IcsParser`):
  - the url and geo shape checks with their errors;
  - the data defaults, and full-day versus timed intervals;
  - recurrence expansion inside the window, with the EXDATE exclusions;
  - the map over all VEVENT records, which aborts on the first bad record.
- `IcsCalendarEvent` (module `IcsCalendarEvent`): the materializer that builds one
  canonical event per single event, and one per occurrence of a recurring event. Ids are
  `group-uid` and `group-uid-key`.
- `JsonCalendar` (module `JsonCalendar`): serialising and deserialising records, with the
  round trips between them.
- `IcsExposedCalendar` (module `IcsExposedCalendar`): the projection of each event onto
  the attribute record of the ICS export.

The model stays pure, as the source is: every core function is an expression over its
inputs, and the `CalendarEvent` object is immutable. A JavaScript `Date` is its time
value in milliseconds (`Instant = int`). A thrown exception becomes an `Err` or a `None`.

Three things come in as parameters:

- the runtime's local-time facilities (`IcsParser.LocalTime`: `getFullYear`, `getMonth`,
  `getDate`, `startOfDay`, `addDays`, `addYears`, the daylight-saving fix, `formatDate`);
- the ISO codec (`JsonCalendar.IsoCodec`: `toISOString` and `new Date(string)`);
- the clock reading taken when an event is built (`now`).

The ICS text decoder (`node-ical`) is not modelled. The parser starts from its decoded
records (`IcsParser.Component`, `IcsParser.VEvent`). A recurrence rule is the list of
instants it generates (`IcsParser.RRule`).

Where the code and its documentation disagree, the model follows the code:

- A full-day end is turned back into an inclusive day by subtracting 1 from the
  day-of-month only. The day is not rolled back to the previous month. So an exclusive
  end on the 1st of a month becomes day 0 of that month, not an exact inverse of the wire
  format (`IcsParser.EndOnFirstOfMonthIsDayZero`).
- The ICS export reads `(date.start as Date).getTime()`, which throws on a calendar-day
  interval. The export maps the whole calendar synchronously, so a single full-day event
  makes the whole export throw, and no event is exported
  (`IcsExposedCalendar.ToEventAttributesList`).
- The attribute record handed to the ICS library carries no uid, created stamp, geo or
  url, for timed events as well as full-day ones: only the product id, the full title,
  start, end, location and description (`IcsExposedCalendar.ToEventAttributes`). Any uid
  or stamp in the ICS text is the library's own default.
- Occurrences of a recurring event always get instant intervals, even when the event is
  a full-day one (`IcsParser.Occurrences`).
- Event ids are built from the raw group string, not from its normalised `Name`
  (`IcsCalendarEvent.Convert`).
- An occurrence id is keyed by its local calendar day. Two instant occurrences on the same
  local day therefore get the same id (`IcsCalendarEvent.OccurrenceIdsDistinct` states
  exactly when ids collide). Calendar-day occurrences collide only on the same day
  (`IcsCalendarEvent.DayOccurrenceIdsDistinct`).
- An empty location or url becomes no value (`|| undefined`). A missing description
  becomes `""`, not no value.
- `deserializeInterval` trusts its `as IntervalDateOnly` cast. The model requires
  records of that kind to carry day objects (`JsonCalendar.WellKinded`). Records of any
  other kind are read as instants, and a day object there is read as the string
  `"[object Object]"`.

## Model

| member | source | states |
|---|---|---|
| Names.TrimStart | src/domain/Name.ts:5 | `trimStart` drops exactly the leading run of whitespace: the result is a suffix of the input, what it drops is all whitespace, and it starts with a non-whitespace character or is empty |
| Names.TrimEnd | src/domain/Name.ts:5 | `trimEnd` drops exactly the trailing whitespace run: the result is a prefix, what it drops is all whitespace, and it ends with a non-whitespace character or is empty |
| Names.Trim | src/domain/Name.ts:5 | the trimmed string has no whitespace at either end, and it is empty exactly when the input is all whitespace |
| Names.Collapse | src/domain/Name.ts:5 | after `replaceAll(/\s+/g, ' ')` the only whitespace left is the plain space and no two whitespace characters are adjacent; the result is empty only for an empty input, and each end character is the input's, with whitespace turned into a space |
| Names.Of | src/domain/Name.ts:4-10 | `Name.of` always yields a name in normal form (the subset type), which is empty exactly when the input is all whitespace |
| Names.OfIsJoinedWords | src/domain/Name.ts:5 | `Name.of(s)` equals the words of `s` (its maximal runs of non-whitespace) joined by single spaces |
| Names.CollapseIsJoin | src/domain/Name.ts:5 | on a string without edge whitespace, collapsing whitespace runs is joining its words with one space |
| Names.Words | src/domain/Name.ts:5 | every word is non-empty and contains no whitespace |
| Names.WordsTrimStart | src/domain/Name.ts:5 | trimming the start does not change the words |
| Names.WordsTrimEnd | src/domain/Name.ts:5 | trimming the end does not change the words |
| Names.WordsAppendSpace | src/domain/Name.ts:5 | a trailing whitespace character adds no word |
| Names.CollapseWordPrefix | src/domain/Name.ts:5 | a whitespace-free prefix passes through the collapse unchanged |
| Names.OfKeepsNonSpace | src/domain/Name.ts:5 | normalisation keeps every non-whitespace character, in order |
| Names.TrimStartKeepsNonSpace | src/domain/Name.ts:5 | `trimStart` keeps every non-whitespace character |
| Names.TrimEndKeepsNonSpace | src/domain/Name.ts:5 | `trimEnd` keeps every non-whitespace character |
| Names.CollapseKeepsNonSpace | src/domain/Name.ts:5 | the whitespace collapse keeps every non-whitespace character |
| Names.NonSpaceAppend | src/domain/Name.ts:5 | the non-whitespace characters of a concatenation are those of each part, in order |
| Names.CollapseKeepsNormal | src/domain/Name.ts:5 | a string that already has only single plain spaces is left unchanged by the collapse |
| Names.NormalIffFixed | src/domain/Name.ts:4-10 | `Name.of(s) == s` exactly when `s` is in normal form: no edge whitespace, only plain spaces, never two in a row |
| Names.OfIdempotent | src/domain/Name.ts:8-10 | normalising a name again changes nothing |
| Names.ConcatNormal | src/domain/Name.ts:5 | two normal strings joined directly stay normal |
| Names.SpaceJoinNormal | src/domain/Name.ts:5 | two non-empty normal strings joined by one space stay normal |
| Names.OfTrailingSpace | src/domain/Name.ts:5 | a non-empty normal string followed by one space normalises back to itself |
| CalendarEvents.Of | src/domain/CalendarEvent.ts:42-53 | `CalendarEvent.of` copies every builder field, and a missing `createdAt` or `updatedAt` falls back to the current time |
| CalendarEvents.ToBuilder | src/domain/CalendarEvent.ts:59-72 | `toBuilder` carries both timestamps, and building from it gives back the same event whatever the clock says |
| CalendarEvents.ToBuilderOf | src/domain/CalendarEvent.ts:59-76 | `toBuilder` of a new event is its builder, with each missing timestamp filled in from the clock |
| CalendarEvents.FullTitle | src/domain/CalendarEvent.ts:55-57 | `fullTitle` is exactly `[group] title`, or `[group]` for an empty title: normalisation changes nothing else, since both parts are names |
| CalendarEvents.BracketedTitle | src/domain/CalendarEvent.ts:56 | `Name.of("[" + group + "] " + title)` for two names is the text itself, minus the trailing space when the title is empty |
| IcsParser.TryToExtractUrl | src/secondary/IcsParser.ts:29-38 | absent or null gives no url, a string is the url, an object with a string `val` gives that `val`; every other shape, and only those, is an invalid-url error naming the uid |
| IcsParser.TryToExtractGeo | src/secondary/IcsParser.ts:40-46 | absent or null gives no geo; an object with numeric `lat` and `lon` gives exactly those coordinates, and any geo returned comes from such an object; every other shape, and only those, is an invalid-geo error naming the uid |
| IcsParser.ExtractEventData | src/secondary/IcsParser.ts:48-56 | succeeds exactly when both shape checks pass, and the url error takes precedence; the title is the summary; the description defaults to `""`; an empty or missing location becomes no location |
| IcsParser.ToDateOnly | src/secondary/IcsParser.ts:58-60 | the local year, the 1-based month, and the day-of-month minus 1 for an end |
| IcsParser.ExtractInterval | src/secondary/IcsParser.ts:62-67 | a `date`-typed event gives calendar days (start day, and end day minus 1); every other event keeps its two instants |
| IcsParser.EndOnFirstOfMonthIsDayZero | src/secondary/IcsParser.ts:59 | an exclusive full-day end on the 1st of a month becomes day 0 of that month |
| IcsParser.Prop | src/secondary/IcsParser.ts:35 | reading a property of a decoded value gives the object's entry, and `undefined` for a missing key or a value that is not an object |
| IcsParser.Between | src/secondary/IcsParser.ts:98 | `between(after, before)` keeps exactly the generated instants strictly inside the window |
| IcsParser.BetweenAppend | src/secondary/IcsParser.ts:98 | the window keeps generation order: windowing a concatenation is the concatenation of the windowed parts |
| IcsParser.WindowStart | src/secondary/IcsParser.ts:98 | the expansion window opens one local day (`addDays(start, -1)`) before the event's start |
| IcsParser.ExcludedDays | src/secondary/IcsParser.ts:73 | one excluded day per EXDATE: the start of its local day |
| IcsParser.KeepNotExcluded | src/secondary/IcsParser.ts:99 | keeps exactly the instants whose local day is not excluded, and keeps everything when nothing is excluded |
| IcsParser.KeepAppend | src/secondary/IcsParser.ts:99 | the filter keeps generator order: filtering a concatenation concatenates the filtered parts |
| IcsParser.KeepSameOnDays | src/secondary/IcsParser.ts:99 | only the excluded days of the generated instants matter to the filter |
| IcsParser.DropExcluded | src/secondary/IcsParser.ts:99 | an instant on an excluded day can be removed beforehand without changing the result |
| IcsParser.ExclusionCount | src/secondary/IcsParser.ts:97-99 | when the occurrences fall on distinct days and each distinct EXDATE hits one of them, exactly that many occurrences are removed |
| IcsParser.KeptOccurrences | src/secondary/IcsParser.ts:97-99 | an instant is kept exactly when the rule generates it strictly between one day before the start and `limitMax`, and its local day is not excluded |
| IcsParser.KeptOccurrencesAppend | src/secondary/IcsParser.ts:97-99 | the kept instants come out in generation order: the kept instants of a rule generating `a` then `b` are those of `a` followed by those of `b` |
| IcsParser.KeptOccurrencesSingle | src/secondary/IcsParser.ts:97-99 | one generated instant is kept exactly when it lies inside the window and its local day is not excluded; with `KeptOccurrencesAppend` this fixes the kept list completely |
| IcsParser.Occurrences | src/secondary/IcsParser.ts:97-104 | one instant interval per kept occurrence, in order; each starts at the corrected instant and lasts exactly as long as the event |
| IcsParser.ParseEvent | src/secondary/IcsParser.ts:69-115 | fails exactly when the url or geo check fails; otherwise the id is the uid, the event is recurrent exactly when it has a rule, and its dates are the expanded occurrences or the extracted interval |
| IcsParser.VEvents | src/secondary/IcsParser.ts:119 | keeps exactly the VEVENT records |
| IcsParser.VEventsAppend | src/secondary/IcsParser.ts:119 | the filter keeps component order |
| IcsParser.ParseAll | src/secondary/IcsParser.ts:122 | succeeds exactly when every record is well shaped, with one parsed event per record in order; otherwise it fails with the error of the first bad record |
| IcsParser.Parse | src/secondary/IcsParser.ts:117-123 | parses every VEVENT, in order: each event is `parseEvent` of its record with the limit one year after `now`, so its id is the uid, its data and interval or dates come from that record |
| IcsCalendarEvent.NatToString | src/secondary/IcsCalendarEvent.ts:32 | the decimal form of a natural number is non-empty and all digits, and it has one digit exactly below 10 |
| IcsCalendarEvent.IntToString | src/secondary/IcsCalendarEvent.ts:32 | the decimal form of an integer starts with `-` exactly when it is negative, is otherwise all digits, and has one character exactly for 0 to 9 (no padding) |
| IcsCalendarEvent.NatToStringInjective | src/secondary/IcsCalendarEvent.ts:32 | different natural numbers have different decimal forms |
| IcsCalendarEvent.DigitsBeforeDash | src/secondary/IcsCalendarEvent.ts:32 | a run of digits followed by a dash is read back unambiguously |
| IcsCalendarEvent.IntBeforeDash | src/secondary/IcsCalendarEvent.ts:32 | an integer followed by a dash is read back unambiguously, including negative ones |
| IcsCalendarEvent.NegativeBeforeDash | src/secondary/IcsCalendarEvent.ts:32 | a negative integer followed by a dash is read back unambiguously |
| IcsCalendarEvent.DayKey | src/secondary/IcsCalendarEvent.ts:32 | `${year}-${month}-${day}` is made of digits and dashes only, and its length is the three unpadded numbers plus two dashes (year plus 4 characters for a one-digit month and day) |
| IcsCalendarEvent.FormatKey | src/secondary/IcsCalendarEvent.ts:28-33 | an instant is keyed by its local day as formatted by `formatDate(d, 'yyyy-MM-dd')`, and a calendar day by its unpadded `DayKey` |
| IcsCalendarEvent.DayKeyInjective | src/secondary/IcsCalendarEvent.ts:32 | `${year}-${month}-${day}` keys are equal exactly for equal days |
| IcsCalendarEvent.Truthy | src/secondary/IcsCalendarEvent.ts:15-17 | `value \|\| undefined` keeps a non-empty string and drops an empty or missing one |
| IcsCalendarEvent.Convert | src/secondary/IcsCalendarEvent.ts:8-19 | the id is `group-id` from the raw group; the interval is kept; the title and group are normalised names; the location and url are dropped when empty; both timestamps are the clock |
| IcsCalendarEvent.ToCalendarEvents | src/secondary/IcsCalendarEvent.ts:21-38 | a single event gives one event with id `group-uid`; a recurring one gives one event per occurrence, in order, with id `group-uid-key`; all share the converted details |
| IcsCalendarEvent.ConvertOccurrences | src/secondary/IcsCalendarEvent.ts:34-36 | one event per occurrence, in order, each keyed by its start |
| IcsCalendarEvent.Occurrence | src/secondary/IcsCalendarEvent.ts:35 | the event for one occurrence has id `group-uid-key`, where the key is formatted from the occurrence's start |
| IcsCalendarEvent.OccurrenceIdsDistinct | src/secondary/IcsCalendarEvent.ts:35 | two occurrences of one event get the same id exactly when their start keys agree |
| IcsCalendarEvent.DayOccurrenceIdsDistinct | src/secondary/IcsCalendarEvent.ts:28-36 | calendar-day occurrences get the same id exactly when they start on the same day |
| JsonCalendar.FaithfulIsStable | src/primary/JsonCalendar.ts:26-34 | a codec that reads every ISO string back to its instant also re-encodes every such string to itself |
| JsonCalendar.SerializeInterval | src/primary/JsonCalendar.ts:23-29 | the kind names the variant exactly; calendar days pass through; instants become ISO strings |
| JsonCalendar.ToInstant | src/primary/JsonCalendar.ts:34 | `new Date(x as string)` reads an ISO string through the codec, and a day object as the string `"[object Object]"`, so every day object gives the same instant |
| JsonCalendar.DeserializeInterval | src/primary/JsonCalendar.ts:30-36 | the kind `IntervalDateOnly`, and only that kind, gives calendar days from the record; any other kind reads both ends as instants |
| JsonCalendar.ReadTimestamp | src/primary/JsonCalendar.ts:66-67 | a missing or empty timestamp string gives no timestamp; any other string is read as an instant |
| JsonCalendar.SerializeEvent | src/primary/JsonCalendar.ts:38-53 | every field is copied from the builder; the interval is serialised; both timestamps are ISO strings |
| JsonCalendar.DeserializeEvent | src/primary/JsonCalendar.ts:56-68 | the title and group are normalised; the other fields are copied; missing timestamps fall back to the clock |
| JsonCalendar.Serialize | src/primary/JsonCalendar.ts:38-54 | one record per event, in order, with the same ids |
| JsonCalendar.Deserialize | src/primary/JsonCalendar.ts:55-70 | one event per record, in order, with the same ids |
| JsonCalendar.DeserializeSerializeInterval | src/primary/JsonCalendar.ts:23-36 | reading a serialised interval back gives the interval |
| JsonCalendar.DeserializeSerializeEvent | src/primary/JsonCalendar.ts:38-70 | reading a serialised event back gives the event, whatever the clock says |
| JsonCalendar.DeserializeSerialize | src/primary/JsonCalendar.ts:38-70 | `deserialize(serialize(calendar))` is `calendar` |
| JsonCalendar.SerializeDeserializeSerializeInterval | src/primary/JsonCalendar.ts:23-36 | serialising a read-back interval reproduces its record |
| JsonCalendar.SerializeDeserializeSerializeEvent | src/primary/JsonCalendar.ts:38-70 | serialising a read-back event reproduces its record |
| JsonCalendar.SerializeDeserializeSerialize | src/primary/JsonCalendar.spec.ts:29-34 | `serialize(deserialize(serialize(calendar)))` is `serialize(calendar)` |
| IcsExposedCalendar.ToEventAttributes | src/primary/IcsExposedCalendar.ts:19-26 | an event exports exactly when its interval is instants; the product id is `lyontechhub/ics`, the title is the full title, start and end are the interval's time values, and the location and description are copied |
| IcsExposedCalendar.ToEventAttributesList | src/primary/IcsExposedCalendar.ts:28 | the list exports exactly when every event is on instants, with one record per event, in order |
| IcsExposedCalendar.RecurrentOccurrencesExport | src/primary/IcsExposedCalendar.ts:22-23 | every occurrence of a parsed recurring event exports, and each exported occurrence lasts exactly as long as the original event |

## Left out

- The ICS text decoder (`ical.sync.parseICS`) is external. The model starts from its decoded records.
- `rrule.between` is external. A rule is modelled by the finite list of instants it generates, in order. `IcsParser.Between` keeps the part inside the window.
- The daylight-saving correction `fixDate` is left abstract: `IcsParser.LocalTime.fixDate`. It depends on the time-zone database and the host's local zone. So do `startOfDay`, `getFullYear`, `getMonth`, `getDate`, `addDays`, `addYears` and `formatDate`, which are parameters.
- `toISOString` and `new Date(string)` are runtime facilities, given as `JsonCalendar.IsoCodec`.
  - Their round-trip guarantee is a hypothesis: `JsonCalendar.Faithful`, or the weaker `JsonCalendar.Stable`.
  - An invalid `Date` (NaN) is not modelled.
  - The `RangeError` that `toISOString` throws on an out-of-range date is not modelled either.
- `ics.createEvents` and the Promise around it are not modelled. They format the attribute records as ICS text in an external library, asynchronously.
- IcsCalendarRepository, CalendarGenerator, the CLI entry points (`main`, `update`, `export`) and the persistence of the JSON calendar are not part of this model. They are I/O, HTTP fetching and concurrency around the core.
- Geo coordinates are floating-point numbers in the source. They are carried as `real` and never computed with.
- `CalendarEvents.Of`: the source reads the clock once per missing timestamp. The model uses one reading, `now`, for both.
- `IcsCalendarEvent.ToCalendarEvents`: one clock reading `now` serves both timestamps of every event built, single or per occurrence (also in `IcsCalendarEvent.ConvertOccurrences`, `IcsCalendarEvent.Occurrence` and `IcsCalendarEvent.Convert`). The source reads the clock separately for each timestamp of each occurrence.
- `JsonCalendar.Deserialize`: one clock reading `now` serves every record. The source reads the clock per record.
- `JsonCalendar.DeserializeInterval`: requires records of kind `IntervalDateOnly` to carry day objects (`WellKinded`). The source casts without checking, so other shapes give an ill-typed interval, which the model does not represent. `JsonCalendar.DeserializeEvent` and `JsonCalendar.Deserialize` carry the same requirement, for the same reason.
- `JsonCalendar.DeserializeEvent`: requires its record's interval to be `WellKinded`, as `JsonCalendar.DeserializeInterval` does.
- `JsonCalendar.Deserialize`: requires every record's interval to be `WellKinded`, as `JsonCalendar.DeserializeInterval` does.
- `IcsParser.ParseAll`: `Array.prototype.map` stops at the first throw. Which records were visited before it has no visible effect, so only the first error is modelled.
- `IcsParser.ExtractEventData`: the summary is taken as a string. A record without a summary (`undefined` title) is not modelled.
