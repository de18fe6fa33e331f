/** The ICS export mapping (src/primary/IcsExposedCalendar.ts): each
    canonical event is projected onto the attribute record that the `ics`
    library turns into a VEVENT. */
module IcsExposedCalendar {
  import opened Wrappers
  import opened CalendarEvents
  import IcsParser
  import IcsCalendarEvent

  /** The attributes set by the export; `start` and `end` are milliseconds
      since the Unix epoch. */
  datatype EventAttributes = EventAttributes(
    productId: string,
    title: string,
    start: int,
    end: int,
    location: Option<string>,
    description: Option<string>)

  const ProductId: string := "lyontechhub/ics"

  /** `toEventAttributes`. The ends are read with `(date.start as
      Date).getTime()`; on a calendar-day interval there is no `getTime`, the
      call throws a `TypeError`, and the result is `None`. */
  function ToEventAttributes(e: CalendarEvent): (r: Option<EventAttributes>)
    ensures r.Some? <==> e.date.IntervalDateTime?
    ensures r.Some? ==> r.value.productId == ProductId && r.value.title == FullTitle(e)
    ensures r.Some? ==> r.value.start == e.date.start && r.value.end == e.date.end
    ensures r.Some? ==> r.value.location == e.address && r.value.description == e.description
  {
    match e.date
    case IntervalDateTime(start, end) =>
      Some(EventAttributes(ProductId, FullTitle(e), start, end, e.address, e.description))
    case IntervalDateOnly(_, _) => None
  }

  /** `toEventAttributesList`: `calendar.map(toEventAttributes)`, which
      throws as soon as one event is on calendar days. */
  function ToEventAttributesList(calendar: seq<CalendarEvent>): (r: Option<seq<EventAttributes>>)
    ensures r.Some? <==> forall i :: 0 <= i < |calendar| ==> calendar[i].date.IntervalDateTime?
    ensures r.Some? ==> |r.value| == |calendar|
    ensures r.Some? ==> forall i :: 0 <= i < |calendar| ==> ToEventAttributes(calendar[i]) == Some(r.value[i])
  {
    if forall i :: 0 <= i < |calendar| ==> calendar[i].date.IntervalDateTime? then
      Some(seq(|calendar|, i requires 0 <= i < |calendar| => ToEventAttributes(calendar[i]).value))
    else None
  }

  /** A recurring event read from a feed always exports: every occurrence
      is a pair of instants, and each exported occurrence lasts as long as
      the original event. */
  lemma RecurrentOccurrencesExport(limitMax: Instant, event: IcsParser.VEvent, zone: IcsParser.LocalTime,
                                   group: string, now: Instant)
    requires IcsParser.ParseEvent(limitMax, event, zone).Ok?
    requires event.rrule.Some?
    ensures var exported := ToEventAttributesList(
              IcsCalendarEvent.ToCalendarEvents(group, IcsParser.ParseEvent(limitMax, event, zone).value, now, zone));
            exported.Some? && forall i :: 0 <= i < |exported.value| ==>
              exported.value[i].end - exported.value[i].start == event.end - event.start
  {
    var parsed := IcsParser.ParseEvent(limitMax, event, zone).value;
    var events := IcsCalendarEvent.ToCalendarEvents(group, parsed, now, zone);
    assert forall i :: 0 <= i < |events| ==> events[i].date == parsed.dates[i];
  }
}
