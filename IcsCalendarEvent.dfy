/** The materializer (src/secondary/IcsCalendarEvent.ts): turns one parsed
    event into canonical events with deterministic ids, `group-uid` for a
    single event and `group-uid-key` for each occurrence of a recurring one. */
module IcsCalendarEvent {
  import opened Wrappers
  import Names
  import opened CalendarEvents
  import opened IcsParser

  predicate IsDigit(c: char) {
    '0' <= c <= '9'
  }

  function DigitChar(d: nat): (c: char)
    requires d < 10
    ensures IsDigit(c) && c as int - '0' as int == d
  {
    ('0' as int + d) as char
  }

  /** The decimal digits of `n`, without leading zeros. */
  function NatToString(n: nat): (s: string)
    ensures s != [] && forall i :: 0 <= i < |s| ==> IsDigit(s[i])
    ensures |s| == 1 <==> n < 10
  {
    if n < 10 then [DigitChar(n)] else NatToString(n / 10) + [DigitChar(n % 10)]
  }

  /** `${n}` for a number with an integer value. */
  function IntToString(n: int): (s: string)
    ensures s != [] && (s[0] == '-' <==> n < 0)
    ensures forall i :: 0 <= i < |s| ==> IsDigit(s[i]) || (i == 0 && s[0] == '-')
    ensures |s| == 1 <==> 0 <= n < 10
  {
    if n < 0 then "-" + NatToString(-n) else NatToString(n)
  }

  lemma {:induction false} NatToStringInjective(a: nat, b: nat)
    requires NatToString(a) == NatToString(b)
    ensures a == b
  {
    if a >= 10 {
      var sa, sb := NatToString(a), NatToString(b);
      assert sa[..|sa| - 1] == NatToString(a / 10) && sb[..|sb| - 1] == NatToString(b / 10);
      NatToStringInjective(a / 10, b / 10);
      assert DigitChar(a % 10) == sa[|sa| - 1] == DigitChar(b % 10);
    }
  }

  lemma DashAt(x: string, p: string)
    ensures (x + "-" + p)[|x|] == '-'
    ensures forall i :: 0 <= i < |x| ==> (x + "-" + p)[i] == x[i]
  {
  }

  /** A run of digits followed by a dash ends exactly at that dash. */
  lemma DigitsBeforeDash(x: string, y: string, p: string, q: string)
    requires forall i :: 0 <= i < |x| ==> IsDigit(x[i])
    requires forall i :: 0 <= i < |y| ==> IsDigit(y[i])
    requires x + "-" + p == y + "-" + q
    ensures x == y && p == q
  {
    var s := x + "-" + p;
    DashAt(x, p);
    DashAt(y, q);
    if |x| < |y| {
      assert false;
    } else if |y| < |x| {
      assert false;
    } else {
      assert x == s[..|x|] == y;
      assert p == s[|x| + 1..] == q;
    }
  }

  /** A decimal number followed by a dash can be read back unambiguously,
      even when the number itself is negative. */
  lemma IntBeforeDash(a: int, b: int, p: string, q: string)
    requires IntToString(a) + "-" + p == IntToString(b) + "-" + q
    ensures a == b && p == q
  {
    var s := IntToString(a) + "-" + p;
    assert s[0] == IntToString(a)[0] && s[0] == IntToString(b)[0];
    if a < 0 {
      NegativeBeforeDash(a, b, p, q);
    } else {
      DigitsBeforeDash(NatToString(a), NatToString(b), p, q);
      NatToStringInjective(a, b);
    }
  }

  lemma NegativeBeforeDash(a: int, b: int, p: string, q: string)
    requires a < 0 && b < 0
    requires IntToString(a) + "-" + p == IntToString(b) + "-" + q
    ensures a == b && p == q
  {
    var na, nb := NatToString(-a), NatToString(-b);
    DropSign(na, p);
    DropSign(nb, q);
    DigitsBeforeDash(na, nb, p, q);
    NatToStringInjective(-a, -b);
  }

  lemma DropSign(x: string, p: string)
    ensures ("-" + x + "-" + p)[1..] == x + "-" + p
  {
  }

  /** The key of a calendar day: `${year}-${month}-${day}`, unpadded, so a
      month or day below 10 takes one character. */
  function DayKey(d: DateOnly): (k: string)
    ensures forall i :: 0 <= i < |k| ==> IsDigit(k[i]) || k[i] == '-'
    ensures |k| == |IntToString(d.year)| + |IntToString(d.month)| + |IntToString(d.day)| + 2
    ensures 0 <= d.month < 10 && 0 <= d.day < 10 ==> |k| == |IntToString(d.year)| + 4
  {
    IntToString(d.year) + "-" + IntToString(d.month) + "-" + IntToString(d.day)
  }

  /** Distinct calendar days always get distinct keys. */
  lemma DayKeyInjective(a: DateOnly, b: DateOnly)
    ensures DayKey(a) == DayKey(b) <==> a == b
  {
    if DayKey(a) == DayKey(b) {
      var ya, ma, da := IntToString(a.year), IntToString(a.month), IntToString(a.day);
      var yb, mb, db := IntToString(b.year), IntToString(b.month), IntToString(b.day);
      assert DayKey(a) == ya + "-" + (ma + "-" + da);
      assert DayKey(b) == yb + "-" + (mb + "-" + db);
      IntBeforeDash(a.year, b.year, ma + "-" + da, mb + "-" + db);
      IntBeforeDash(a.month, b.month, da, db);
      assert da + "-" == db + "-";
      IntBeforeDash(a.day, b.day, [], []);
    }
  }

  /** `formatKey(date.start)`: an instant start gives its local day as
      `yyyy-MM-dd`; a calendar-day start gives `DayKey`. */
  function FormatKey(date: Interval, zone: LocalTime): (k: string)
    ensures date.IntervalDateTime? ==> k == zone.formatDay(date.start)
    ensures date.IntervalDateOnly? ==> k == DayKey(date.startDay)
  {
    match date
    case IntervalDateTime(start, _) => zone.formatDay(start)
    case IntervalDateOnly(startDay, _) => DayKey(startDay)
  }

  /** `value || undefined` on a string that may be missing: the empty string
      counts as missing. */
  function Truthy(value: Option<string>): (r: Option<string>)
    ensures r.Some? <==> value.Some? && value.value != ""
    ensures r.Some? ==> r == value
  {
    if value == Some("") then None else value
  }

  /** Everything but the id, the interval and the timestamps comes from the
      group and the event's data. */
  predicate DrawnFrom(e: CalendarEvent, group: string, data: EventData) {
    && e.title == Names.Of(data.title) && e.group == Names.Of(group)
    && e.description == Some(data.description) && e.address == Truthy(data.location)
    && e.geo == data.geo && e.url == Truthy(data.url)
  }

  /** `convertToCalendarEvent(group)(data)(id)(date)`; `now` is the clock at
      construction, which fills both timestamps. */
  function Convert(group: string, data: EventData, id: string, date: Interval, now: Instant): (e: CalendarEvent)
    ensures e.id == group + "-" + id && e.date == date
    ensures DrawnFrom(e, group, data) && e.createdAt == e.updatedAt == now
  {
    CalendarEvents.Of(
      CalendarEventBuilder(
        group + "-" + id, Names.Of(data.title), Names.Of(group), date, Some(data.description),
        Truthy(data.location), data.geo, Truthy(data.url), None, None),
      now)
  }

  /** `toCalendarEvents(group)(event)`: one event for a single event, one per
      occurrence, in order, for a recurring one; all of them share the
      details drawn from the event's data. */
  function ToCalendarEvents(group: string, event: Event, now: Instant, zone: LocalTime): (r: seq<CalendarEvent>)
    ensures event.Single? ==> |r| == 1 && r[0].id == group + "-" + event.id && r[0].date == event.date
    ensures event.Recurrent? ==> |r| == |event.dates|
    ensures event.Recurrent? ==> forall i :: 0 <= i < |r| ==>
              r[i].date == event.dates[i] && r[i].id == group + "-" + event.id + "-" + FormatKey(event.dates[i], zone)
    ensures forall i :: 0 <= i < |r| ==> DrawnFrom(r[i], group, event.data) && r[i].createdAt == r[i].updatedAt == now
  {
    match event
    case Single(id, date, data) => [Convert(group, data, id, date, now)]
    case Recurrent(id, dates, data) => ConvertOccurrences(group, data, id, dates, now, zone)
  }

  /** One event per occurrence, its id suffixed with the occurrence's key. */
  function ConvertOccurrences(group: string, data: EventData, id: string, dates: seq<Interval>, now: Instant, zone: LocalTime)
    : (r: seq<CalendarEvent>)
    ensures |r| == |dates|
    ensures forall i :: 0 <= i < |r| ==>
              r[i].date == dates[i] && r[i].id == group + "-" + id + "-" + FormatKey(dates[i], zone)
    ensures forall i :: 0 <= i < |r| ==> DrawnFrom(r[i], group, data) && r[i].createdAt == r[i].updatedAt == now
  {
    seq(|dates|, i requires 0 <= i < |dates| => Occurrence(group, data, id, dates[i], now, zone))
  }

  /** The event for one occurrence starting on `date`. */
  function Occurrence(group: string, data: EventData, id: string, date: Interval, now: Instant, zone: LocalTime)
    : (e: CalendarEvent)
    ensures e.date == date && e.id == group + "-" + id + "-" + FormatKey(date, zone)
    ensures DrawnFrom(e, group, data) && e.createdAt == e.updatedAt == now
  {
    var key := FormatKey(date, zone);
    OccurrenceId(group, id, key);
    Convert(group, data, id + "-" + key, date, now)
  }

  lemma OccurrenceId(group: string, id: string, key: string)
    ensures group + "-" + (id + "-" + key) == group + "-" + id + "-" + key
  {
  }

  /** Two occurrences of one recurring event get the same id exactly when
      their keys agree, since the ids share the `group-uid-` prefix. */
  lemma OccurrenceIdsDistinct(group: string, event: Event, now: Instant, zone: LocalTime, i: nat, j: nat)
    requires event.Recurrent? && i < |event.dates| && j < |event.dates|
    ensures ToCalendarEvents(group, event, now, zone)[i].id == ToCalendarEvents(group, event, now, zone)[j].id
            <==> FormatKey(event.dates[i], zone) == FormatKey(event.dates[j], zone)
  {
    var prefix := group + "-" + event.id + "-";
    var ki, kj := FormatKey(event.dates[i], zone), FormatKey(event.dates[j], zone);
    assert (prefix + ki)[|prefix|..] == ki && (prefix + kj)[|prefix|..] == kj;
  }

  /** For occurrences on calendar days, ids collide only for the same start
      day. */
  lemma DayOccurrenceIdsDistinct(group: string, event: Event, now: Instant, zone: LocalTime, i: nat, j: nat)
    requires event.Recurrent? && i < |event.dates| && j < |event.dates|
    requires event.dates[i].IntervalDateOnly? && event.dates[j].IntervalDateOnly?
    ensures ToCalendarEvents(group, event, now, zone)[i].id == ToCalendarEvents(group, event, now, zone)[j].id
            <==> event.dates[i].startDay == event.dates[j].startDay
  {
    OccurrenceIdsDistinct(group, event, now, zone, i, j);
    DayKeyInjective(event.dates[i].startDay, event.dates[j].startDay);
  }
}
