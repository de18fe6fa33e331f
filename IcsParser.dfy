/** What src/secondary/IcsParser.ts does after the ICS text has been decoded:
    shape checks on `url` and `geo`, defaults, full-day versus timed
    intervals, recurrence expansion with exclusions, and one `Event` per
    VEVENT. The decoder's output is the input here; the runtime's local-time
    facilities are a parameter. */
module IcsParser {
  import opened Wrappers
  import opened CalendarEvents

  /** A JavaScript value as the decoder hands it over for a property whose
      shape is not fixed. */
  datatype JsValue =
    | Undefined
    | Null
    | Bool(b: bool)
    | Num(n: real)
    | Str(s: string)
    | Obj(props: map<string, JsValue>)

  /** `v.key` on a value that is an object; anything else reads `undefined`. */
  function Prop(v: JsValue, key: string): (r: JsValue)
    ensures v.Obj? && key in v.props ==> r == v.props[key]
    ensures !(v.Obj? && key in v.props) ==> r.Undefined?
  {
    if v.Obj? && key in v.props then v.props[key] else Undefined
  }

  /** A decoded recurrence rule: its time zone (`origOptions.tzid`) and the
      instants it generates, in generation order, far enough to pass any
      window it is asked about. */
  datatype RRule = RRule(tzid: Option<string>, occurrences: seq<Instant>)

  /** A decoded VEVENT. `None` is a property the record does not carry;
      `exdate` lists the EXDATE values (empty when there are none). */
  datatype VEvent = VEvent(
    uid: string,
    summary: string,
    description: Option<string>,
    location: Option<string>,
    url: JsValue,
    geo: JsValue,
    datetype: string,
    start: Instant,
    end: Instant,
    rrule: Option<RRule>,
    exdate: seq<Instant>)

  /** One entry of the decoded calendar. */
  datatype Component = VEventComponent(event: VEvent) | OtherComponent(kind: string)

  /** The runtime's local-time facilities; all of them depend on the local
      time zone and its daylight-saving rules. */
  datatype LocalTime = LocalTime(
    fullYear: Instant -> int,                          // Date.prototype.getFullYear
    month: Instant -> int,                             // Date.prototype.getMonth, 0-based
    date: Instant -> int,                              // Date.prototype.getDate
    startOfDay: Instant -> Instant,                    // dateFns.startOfDay
    addDays: (Instant, int) -> Instant,                // dateFns.addDays
    addYears: (Instant, int) -> Instant,               // dateFns.addYears
    fixDate: (Option<string>, Instant, Instant) -> Instant,  // daylight-saving fix of a generated
                                                       // instant: (rule tzid, event start, instant)
    formatDay: Instant -> string)                      // dateFns.formatDate(d, 'yyyy-MM-dd')

  datatype EventData = EventData(
    title: string,
    description: string,
    url: Option<string>,
    location: Option<string>,
    geo: Option<Geo>)

  datatype Event =
    | Single(id: string, date: Interval, data: EventData)
    | Recurrent(id: string, dates: seq<Interval>, data: EventData)

  /** The errors thrown while parsing, naming the offending event. */
  datatype ParseError = InvalidUrl(uid: string) | InvalidGeo(uid: string)

  /** `tryToExtractUrl`: absent or null gives no url, a string is the url,
      an object carrying a string `val` gives that `val`; any other shape is
      an error naming the event. */
  function TryToExtractUrl(event: VEvent): (r: Result<Option<string>, ParseError>)
    ensures (event.url.Undefined? || event.url.Null?) ==> r == Ok(None)
    ensures event.url.Str? ==> r == Ok(Some(event.url.s))
    ensures event.url.Obj? && Prop(event.url, "val").Str? ==> r == Ok(Some(Prop(event.url, "val").s))
    ensures r.Err? <==> !(event.url.Undefined? || event.url.Null? || event.url.Str?
                          || (event.url.Obj? && Prop(event.url, "val").Str?))
    ensures r.Err? ==> r.error == InvalidUrl(event.uid)
  {
    match event.url
    case Undefined => Ok(None)
    case Null => Ok(None)
    case Str(s) => Ok(Some(s))
    case Obj(_) =>
      (match Prop(event.url, "val")
       case Str(v) => Ok(Some(v))
       case _ => Err(InvalidUrl(event.uid)))
    case _ => Err(InvalidUrl(event.uid))
  }

  /** `tryToExtractGeo`: absent or null gives no geo, an object with numeric
      `lat` and `lon` is kept; anything else is an error naming the event. */
  function TryToExtractGeo(event: VEvent): (r: Result<Option<Geo>, ParseError>)
    ensures (event.geo.Undefined? || event.geo.Null?) ==> r == Ok(None)
    ensures event.geo.Obj? && Prop(event.geo, "lat").Num? && Prop(event.geo, "lon").Num? ==>
              r == Ok(Some(Geo(Prop(event.geo, "lat").n, Prop(event.geo, "lon").n)))
    ensures r.Ok? && r.value.Some? ==>
              Prop(event.geo, "lat") == Num(r.value.value.lat) && Prop(event.geo, "lon") == Num(r.value.value.lon)
    ensures r.Err? <==> !(event.geo.Undefined? || event.geo.Null?
                          || (event.geo.Obj? && Prop(event.geo, "lat").Num? && Prop(event.geo, "lon").Num?))
    ensures r.Err? ==> r.error == InvalidGeo(event.uid)
  {
    match event.geo
    case Undefined => Ok(None)
    case Null => Ok(None)
    case Obj(_) =>
      (match (Prop(event.geo, "lat"), Prop(event.geo, "lon"))
       case (Num(lat), Num(lon)) => Ok(Some(Geo(lat, lon)))
       case _ => Err(InvalidGeo(event.uid)))
    case _ => Err(InvalidGeo(event.uid))
  }

  /** `extractEventData`: the url is checked before the geo, so a bad url is
      the error reported when both are bad. A missing or empty description
      becomes `""`; a missing or empty location becomes none. */
  function ExtractEventData(event: VEvent): (r: Result<EventData, ParseError>)
    ensures r.Ok? <==> TryToExtractUrl(event).Ok? && TryToExtractGeo(event).Ok?
    ensures r.Err? ==> r.error == (if TryToExtractUrl(event).Err? then InvalidUrl(event.uid)
                                   else InvalidGeo(event.uid))
    ensures r.Ok? ==> r.value.title == event.summary
    ensures r.Ok? ==> r.value.url == TryToExtractUrl(event).value && r.value.geo == TryToExtractGeo(event).value
    ensures r.Ok? ==> (r.value.description == "" <==> event.description.None? || event.description.value == "")
    ensures r.Ok? && r.value.description != "" ==> event.description == Some(r.value.description)
    ensures r.Ok? ==> (r.value.location.Some? <==> event.location.Some? && event.location.value != "")
    ensures r.Ok? && r.value.location.Some? ==> event.location == r.value.location
  {
    match TryToExtractUrl(event)
    case Err(e) => Err(e)
    case Ok(url) =>
      match TryToExtractGeo(event)
      case Err(e) => Err(e)
      case Ok(geo) =>
        Ok(EventData(
          event.summary,
          event.description.GetOr(""),
          url,
          if event.location == Some("") then None else event.location,
          geo))
  }

  /** `toDateOnly`: the local calendar day of `d`. For an end, one is taken
      off the day number alone, with no borrow into the month or year. */
  function ToDateOnly(zone: LocalTime, d: Instant, end: bool): (r: DateOnly)
    ensures r.year == zone.fullYear(d) && r.month == zone.month(d) + 1
    ensures r.day + (if end then 1 else 0) == zone.date(d)
  {
    DateOnly(zone.fullYear(d), zone.month(d) + 1, zone.date(d) - (if end then 1 else 0))
  }

  /** `extractInterval`: a `date`-typed event gives calendar days with the
      exclusive wire end turned into an inclusive one; any other event keeps
      its two instants. */
  function ExtractInterval(event: VEvent, zone: LocalTime): (r: Interval)
    ensures r.IntervalDateOnly? <==> event.datetype == "date"
    ensures r.IntervalDateTime? ==> r.start == event.start && r.end == event.end
    ensures r.IntervalDateOnly? ==>
              r.startDay == ToDateOnly(zone, event.start, false) && r.endDay == ToDateOnly(zone, event.end, true)
  {
    if event.datetype == "date" then
      IntervalDateOnly(ToDateOnly(zone, event.start, false), ToDateOnly(zone, event.end, true))
    else
      IntervalDateTime(event.start, event.end)
  }

  /** A wire end on the first of a month becomes day 0 of that same month. */
  lemma EndOnFirstOfMonthIsDayZero(event: VEvent, zone: LocalTime)
    requires event.datetype == "date" && zone.date(event.end) == 1
    ensures ExtractInterval(event, zone).endDay
            == DateOnly(zone.fullYear(event.end), zone.month(event.end) + 1, 0)
  {
  }

  /** `rrule.between(after, before)`: the generated instants strictly inside
      the window, in generation order. */
  function Between(occurrences: seq<Instant>, after: Instant, before: Instant): (r: seq<Instant>)
    ensures |r| <= |occurrences|
    ensures forall d :: d in r <==> d in occurrences && after < d < before
  {
    if occurrences == [] then []
    else
      var rest := Between(occurrences[1..], after, before);
      if after < occurrences[0] < before then [occurrences[0]] + rest else rest
  }

  /** The window keeps generation order: windowing a concatenation is the
      concatenation of the windowed parts. */
  lemma {:induction false} BetweenAppend(a: seq<Instant>, b: seq<Instant>, after: Instant, before: Instant)
    ensures Between(a + b, after, before) == Between(a, after, before) + Between(b, after, before)
    decreases |a|
  {
    if a == [] {
      assert a + b == b;
    } else {
      assert (a + b)[0] == a[0];
      assert (a + b)[1..] == a[1..] + b;
      BetweenAppend(a[1..], b, after, before);
    }
  }

  /** `excludeDates`: the start of the local day of each EXDATE. */
  function ExcludedDays(event: VEvent, zone: LocalTime): (r: seq<Instant>)
    ensures |r| == |event.exdate|
    ensures forall i :: 0 <= i < |r| ==> r[i] == zone.startOfDay(event.exdate[i])
  {
    seq(|event.exdate|, i requires 0 <= i < |event.exdate| => zone.startOfDay(event.exdate[i]))
  }

  /** The exclusion filter: keeps, in generator order, each generated instant
      whose local day is none of the excluded days. */
  function KeepNotExcluded(generated: seq<Instant>, excluded: seq<Instant>,
                           startOfDay: Instant -> Instant): (kept: seq<Instant>)
    ensures |kept| <= |generated|
    ensures forall d :: d in kept <==> d in generated && startOfDay(d) !in excluded
    ensures excluded == [] ==> kept == generated
  {
    if generated == [] then []
    else
      var rest := KeepNotExcluded(generated[1..], excluded, startOfDay);
      assert generated == [generated[0]] + generated[1..];
      if startOfDay(generated[0]) in excluded then rest else [generated[0]] + rest
  }

  /** The filter keeps generator order: filtering a concatenation is the
      concatenation of the filtered parts. */
  lemma {:induction false} KeepAppend(a: seq<Instant>, b: seq<Instant>, excluded: seq<Instant>,
                                      startOfDay: Instant -> Instant)
    ensures KeepNotExcluded(a + b, excluded, startOfDay)
            == KeepNotExcluded(a, excluded, startOfDay) + KeepNotExcluded(b, excluded, startOfDay)
  {
    if a == [] {
      assert a + b == b;
    } else {
      assert (a + b)[0] == a[0];
      assert (a + b)[1..] == a[1..] + b;
      KeepAppend(a[1..], b, excluded, startOfDay);
    }
  }

  /** Two exclusion lists that agree on the days of `generated` filter it
      alike. */
  lemma {:induction false} KeepSameOnDays(generated: seq<Instant>, e1: seq<Instant>, e2: seq<Instant>,
                                          startOfDay: Instant -> Instant)
    requires forall i :: 0 <= i < |generated| ==> (startOfDay(generated[i]) in e1 <==> startOfDay(generated[i]) in e2)
    ensures KeepNotExcluded(generated, e1, startOfDay) == KeepNotExcluded(generated, e2, startOfDay)
  {
    if generated != [] {
      assert forall i :: 0 <= i < |generated| - 1 ==> generated[1..][i] == generated[i + 1];
      KeepSameOnDays(generated[1..], e1, e2, startOfDay);
    }
  }

  predicate Distinct(s: seq<Instant>) {
    forall i, j :: 0 <= i < j < |s| ==> s[i] != s[j]
  }

  /** Dropping one instant whose day is excluded does not change what the
      filter keeps. */
  lemma DropExcluded(before: seq<Instant>, x: Instant, after: seq<Instant>, excluded: seq<Instant>,
                     startOfDay: Instant -> Instant)
    requires startOfDay(x) in excluded
    ensures KeepNotExcluded(before + [x] + after, excluded, startOfDay)
            == KeepNotExcluded(before + after, excluded, startOfDay)
  {
    assert [x][1..] == [];
    assert KeepNotExcluded([x], excluded, startOfDay) == [];
    KeepAppend(before + [x], after, excluded, startOfDay);
    KeepAppend(before, [x], excluded, startOfDay);
    KeepAppend(before, after, excluded, startOfDay);
  }

  /** Instants that fall on pairwise different local days. */
  predicate DistinctDays(generated: seq<Instant>, startOfDay: Instant -> Instant) {
    forall i, j :: 0 <= i < j < |generated| ==> startOfDay(generated[i]) != startOfDay(generated[j])
  }

  /** The local day of each generated instant. */
  function DaysOf(generated: seq<Instant>, startOfDay: Instant -> Instant): (days: seq<Instant>)
    ensures |days| == |generated|
    ensures forall i :: 0 <= i < |days| ==> days[i] == startOfDay(generated[i])
  {
    seq(|generated|, i requires 0 <= i < |generated| => startOfDay(generated[i]))
  }

  /** Every listed day is the day of some generated instant. */
  predicate AllHit(excluded: seq<Instant>, generated: seq<Instant>, startOfDay: Instant -> Instant) {
    forall x :: x in excluded ==> x in DaysOf(generated, startOfDay)
  }

  function RemoveAt(s: seq<Instant>, i: nat): (r: seq<Instant>)
    requires i < |s|
    ensures |r| == |s| - 1
    ensures forall j :: 0 <= j < |r| ==> r[j] == s[if j < i then j else j + 1]
  {
    s[..i] + s[i + 1..]
  }

  lemma DropExcludedAt(generated: seq<Instant>, i: nat, excluded: seq<Instant>, startOfDay: Instant -> Instant)
    requires i < |generated| && startOfDay(generated[i]) in excluded
    ensures KeepNotExcluded(generated, excluded, startOfDay)
            == KeepNotExcluded(RemoveAt(generated, i), excluded, startOfDay)
  {
    var before, x, after := generated[..i], generated[i], generated[i + 1..];
    assert generated == before + [x] + after;
    DropExcluded(before, x, after, excluded, startOfDay);
  }

  lemma RemoveAtKeepsDistinctDays(generated: seq<Instant>, i: nat, startOfDay: Instant -> Instant)
    requires i < |generated| && DistinctDays(generated, startOfDay)
    ensures DistinctDays(RemoveAt(generated, i), startOfDay)
    ensures forall j :: 0 <= j < |RemoveAt(generated, i)| ==>
              startOfDay(RemoveAt(generated, i)[j]) != startOfDay(generated[i])
  {
    var r := RemoveAt(generated, i);
    forall a, b | 0 <= a < b < |r| ensures startOfDay(r[a]) != startOfDay(r[b]) {
      var a', b' := if a < i then a else a + 1, if b < i then b else b + 1;
      assert r[a] == generated[a'] && r[b] == generated[b'];
    }
    forall j | 0 <= j < |r| ensures startOfDay(r[j]) != startOfDay(generated[i]) {
      var j' := if j < i then j else j + 1;
      assert r[j] == generated[j'];
    }
  }

  lemma RemoveAtKeepsHits(generated: seq<Instant>, i: nat, excluded: seq<Instant>, startOfDay: Instant -> Instant)
    requires i < |generated| && excluded != [] && Distinct(excluded)
    requires AllHit(excluded, generated, startOfDay) && startOfDay(generated[i]) == excluded[0]
    ensures AllHit(excluded[1..], RemoveAt(generated, i), startOfDay)
  {
    var r := RemoveAt(generated, i);
    var others := excluded[1..];
    var days, rdays := DaysOf(generated, startOfDay), DaysOf(r, startOfDay);
    forall x | x in others ensures x in rdays {
      var m :| 0 <= m < |others| && others[m] == x;
      assert x == excluded[m + 1] && x != excluded[0];
      assert x in excluded;
      var g :| 0 <= g < |days| && days[g] == x;
      var j := if g < i then g else g - 1;
      assert r[j] == generated[g];
      assert rdays[j] == x;
    }
  }

  /** How many occurrences the exclusions remove: when the generated instants
      fall on distinct days and each excluded day, listed once, is the day of
      one of them, exactly that many are dropped (a monthly rule with 7
      EXDATEs keeps 18 of its 25 occurrences). */
  lemma {:induction false} ExclusionCount(generated: seq<Instant>, excluded: seq<Instant>,
                                          startOfDay: Instant -> Instant)
    requires DistinctDays(generated, startOfDay)
    requires Distinct(excluded)
    requires AllHit(excluded, generated, startOfDay)
    ensures |KeepNotExcluded(generated, excluded, startOfDay)| == |generated| - |excluded|
    decreases |excluded|
  {
    if excluded != [] {
      var others := excluded[1..];
      assert excluded[0] in excluded;
      var i :| 0 <= i < |generated| && DaysOf(generated, startOfDay)[i] == excluded[0];
      var remaining := RemoveAt(generated, i);
      DropExcludedAt(generated, i, excluded, startOfDay);
      RemoveAtKeepsDistinctDays(generated, i, startOfDay);
      RemoveAtKeepsHits(generated, i, excluded, startOfDay);
      assert excluded == [excluded[0]] + others;
      KeepSameOnDays(remaining, excluded, others, startOfDay);
      ExclusionCount(remaining, others, startOfDay);
    }
  }

  /** The window recurrences are expanded in: from one local day before the
      event's start up to `limitMax`. */
  function WindowStart(event: VEvent, zone: LocalTime): (w: Instant)
    ensures w == zone.addDays(event.start, -1)
  {
    zone.addDays(event.start, -1)
  }

  /** The generated instants the parser keeps for a recurring event: those in
      the window, minus those on an excluded day. */
  function KeptOccurrences(event: VEvent, rule: RRule, limitMax: Instant, zone: LocalTime): (kept: seq<Instant>)
    ensures forall d :: d in kept <==>
              d in rule.occurrences && WindowStart(event, zone) < d < limitMax
              && zone.startOfDay(d) !in ExcludedDays(event, zone)
  {
    KeepNotExcluded(Between(rule.occurrences, WindowStart(event, zone), limitMax),
                    ExcludedDays(event, zone), zone.startOfDay)
  }

  /** The kept instants come out in generation order: for a rule whose
      instants are those of `a` followed by those of `b`, the kept instants
      of `a` come first, then those of `b`. */
  lemma KeptOccurrencesAppend(event: VEvent, tzid: Option<string>, a: seq<Instant>, b: seq<Instant>,
                              limitMax: Instant, zone: LocalTime)
    ensures KeptOccurrences(event, RRule(tzid, a + b), limitMax, zone)
            == KeptOccurrences(event, RRule(tzid, a), limitMax, zone) + KeptOccurrences(event, RRule(tzid, b), limitMax, zone)
  {
    var start := WindowStart(event, zone);
    BetweenAppend(a, b, start, limitMax);
    KeepAppend(Between(a, start, limitMax), Between(b, start, limitMax), ExcludedDays(event, zone), zone.startOfDay);
  }

  /** One generated instant is kept exactly when it is inside the window and
      not on an excluded day. */
  lemma KeptOccurrencesSingle(event: VEvent, tzid: Option<string>, d: Instant, limitMax: Instant, zone: LocalTime)
    ensures KeptOccurrences(event, RRule(tzid, [d]), limitMax, zone)
            == if WindowStart(event, zone) < d < limitMax && zone.startOfDay(d) !in ExcludedDays(event, zone)
               then [d] else []
  {
    var start := WindowStart(event, zone);
    assert Between([d], start, limitMax) == if start < d < limitMax then [d] else [];
  }

  /** The recurrent event's `dates`: one instant interval per kept occurrence,
      in order, starting at the corrected instant and lasting exactly as long
      as the event itself. */
  function Occurrences(event: VEvent, rule: RRule, limitMax: Instant, zone: LocalTime): (dates: seq<Interval>)
    ensures |dates| == |KeptOccurrences(event, rule, limitMax, zone)|
    ensures forall i :: 0 <= i < |dates| ==> dates[i].IntervalDateTime?
    ensures forall i :: 0 <= i < |dates| ==>
              dates[i].start == zone.fixDate(rule.tzid, event.start, KeptOccurrences(event, rule, limitMax, zone)[i])
    ensures forall i :: 0 <= i < |dates| ==> dates[i].end - dates[i].start == event.end - event.start
  {
    var kept := KeptOccurrences(event, rule, limitMax, zone);
    var duration := event.end - event.start;
    seq(|kept|, i requires 0 <= i < |kept| =>
      var start := zone.fixDate(rule.tzid, event.start, kept[i]);
      IntervalDateTime(start, start + duration))
  }

  /** `parseEvent(limitMax)(event)`: a recurrent event when the record has a
      rule, a single one otherwise, both with `id = uid`; it fails exactly
      when the url or geo has a bad shape. */
  function ParseEvent(limitMax: Instant, event: VEvent, zone: LocalTime): (r: Result<Event, ParseError>)
    ensures r.Ok? <==> ExtractEventData(event).Ok?
    ensures r.Err? ==> r.error == ExtractEventData(event).error
    ensures r.Ok? ==> r.value.id == event.uid && r.value.data == ExtractEventData(event).value
    ensures r.Ok? ==> (r.value.Recurrent? <==> event.rrule.Some?)
    ensures r.Ok? && r.value.Single? ==> r.value.date == ExtractInterval(event, zone)
    ensures r.Ok? && r.value.Recurrent? ==> r.value.dates == Occurrences(event, event.rrule.value, limitMax, zone)
  {
    match ExtractEventData(event)
    case Err(e) => Err(e)
    case Ok(data) =>
      match event.rrule
      case Some(rule) => Ok(Recurrent(event.uid, Occurrences(event, rule, limitMax, zone), data))
      case None => Ok(Single(event.uid, ExtractInterval(event, zone), data))
  }

  /** The VEVENT records of a decoded calendar, in order. */
  function VEvents(components: seq<Component>): (events: seq<VEvent>)
    ensures |events| <= |components|
    ensures forall e :: e in events <==> VEventComponent(e) in components
  {
    if components == [] then []
    else
      var rest := VEvents(components[1..]);
      assert components == [components[0]] + components[1..];
      match components[0]
      case VEventComponent(e) => [e] + rest
      case OtherComponent(_) => rest
  }

  /** Components keep their order: the records of a concatenation are the
      records of each part, one after the other. */
  lemma {:induction false} VEventsAppend(a: seq<Component>, b: seq<Component>)
    ensures VEvents(a + b) == VEvents(a) + VEvents(b)
  {
    if a == [] {
      assert a + b == b;
    } else {
      assert (a + b)[0] == a[0];
      assert (a + b)[1..] == a[1..] + b;
      VEventsAppend(a[1..], b);
    }
  }

  /** Every record parses. */
  predicate AllWellShaped(events: seq<VEvent>) {
    forall i :: 0 <= i < |events| ==> ExtractEventData(events[i]).Ok?
  }

  /** `events.map(parseEvent(limitMax))`: the first record that throws aborts
      the whole map. */
  function ParseAll(limitMax: Instant, events: seq<VEvent>, zone: LocalTime): (r: Result<seq<Event>, ParseError>)
    ensures r.Ok? <==> AllWellShaped(events)
    ensures r.Ok? ==> |r.value| == |events|
    ensures r.Ok? ==> forall i :: 0 <= i < |events| ==> r.value[i] == ParseEvent(limitMax, events[i], zone).value
    ensures r.Err? ==> exists i :: 0 <= i < |events| && AllWellShaped(events[..i])
                                   && ExtractEventData(events[i]).Err? && r.error == ExtractEventData(events[i]).error
  {
    if events == [] then Ok([])
    else
      WellShapedCons(events);
      match ParseEvent(limitMax, events[0], zone)
      case Err(e) =>
        assert AllWellShaped(events[..0]);
        Err(e)
      case Ok(first) =>
        match ParseAll(limitMax, events[1..], zone)
        case Err(e) =>
          var i :| 0 <= i < |events[1..]| && AllWellShaped(events[1..][..i])
                   && ExtractEventData(events[1..][i]).Err? && e == ExtractEventData(events[1..][i]).error;
          WellShapedPrefixCons(events, i);
          Err(e)
        case Ok(rest) =>
          var all := [first] + rest;
          assert forall k :: 1 <= k < |events| ==> all[k] == rest[k - 1] && events[k] == events[1..][k - 1];
          Ok(all)
  }

  lemma WellShapedCons(events: seq<VEvent>)
    requires events != []
    ensures AllWellShaped(events) <==> ExtractEventData(events[0]).Ok? && AllWellShaped(events[1..])
  {
    assert forall k :: 1 <= k < |events| ==> events[k] == events[1..][k - 1];
  }

  /** A well-shaped prefix of the tail extends to a well-shaped prefix of
      the whole when the first record is well shaped. */
  lemma WellShapedPrefixCons(events: seq<VEvent>, i: nat)
    requires i < |events| - 1 && ExtractEventData(events[0]).Ok?
    requires AllWellShaped(events[1..][..i])
    ensures AllWellShaped(events[..i + 1]) && events[i + 1] == events[1..][i]
  {
    var prefix := events[..i + 1];
    forall j | 0 <= j < |prefix| ensures ExtractEventData(prefix[j]).Ok? {
      if j > 0 {
        assert prefix[j] == events[1..][..i][j - 1];
      }
    }
  }

  /** `parse(content, now)` on the decoded calendar: expansion runs up to one
      year after `now`. */
  function Parse(components: seq<Component>, now: Instant, zone: LocalTime): (r: Result<seq<Event>, ParseError>)
    ensures r.Ok? <==> AllWellShaped(VEvents(components))
    ensures r.Ok? ==> |r.value| == |VEvents(components)|
    ensures r.Ok? ==> forall i :: 0 <= i < |r.value| ==>
              r.value[i] == ParseEvent(zone.addYears(now, 1), VEvents(components)[i], zone).value
    ensures r.Ok? ==> forall i :: 0 <= i < |r.value| ==>
              r.value[i].id == VEvents(components)[i].uid
              && (r.value[i].Recurrent? <==> VEvents(components)[i].rrule.Some?)
    ensures r.Ok? ==> forall i :: 0 <= i < |r.value| && r.value[i].Recurrent? ==>
              r.value[i].dates == Occurrences(VEvents(components)[i], VEvents(components)[i].rrule.value,
                                              zone.addYears(now, 1), zone)
  {
    ParseAll(zone.addYears(now, 1), VEvents(components), zone)
  }
}
