/** The JSON form of a calendar (src/primary/JsonCalendar.ts): each event
    becomes a plain record whose instants are ISO-8601 strings, and back. */
module JsonCalendar {
  import opened Wrappers
  import Names
  import opened CalendarEvents

  /** One end of a serialised interval: an ISO string, or a calendar day
      passed through as an object. */
  datatype DtoMoment = IsoString(iso: string) | DayObject(day: DateOnly)

  datatype IntervalDto = IntervalDto(kind: string, start: DtoMoment, end: DtoMoment)

  /** `EventDto`; `None` is a property left `undefined`. */
  datatype EventDto = EventDto(
    id: string,
    title: string,
    group: string,
    date: IntervalDto,
    description: Option<string>,
    address: Option<string>,
    geo: Option<Geo>,
    url: Option<string>,
    createdAt: Option<string>,
    updatedAt: Option<string>)

  /** `Date.prototype.toISOString` and `new Date(string)`, which the runtime
      provides. */
  datatype IsoCodec = IsoCodec(encode: Instant -> string, decode: string -> Instant)

  /** What the runtime guarantees of the pair: an ISO string is never empty,
      and reading it back gives the same instant. */
  ghost predicate Faithful(iso: IsoCodec) {
    forall t :: iso.encode(t) != "" && iso.decode(iso.encode(t)) == t
  }

  /** The weaker guarantee that a string produced by `encode` is re-encoded
      to itself after a read. */
  ghost predicate Stable(iso: IsoCodec) {
    forall t {:trigger iso.decode(iso.encode(t))} ::
      iso.encode(t) != "" && iso.encode(iso.decode(iso.encode(t))) == iso.encode(t)
  }

  lemma FaithfulIsStable(iso: IsoCodec)
    requires Faithful(iso)
    ensures Stable(iso)
  {
  }

  /** `serializeInterval`: the kind names the interval's variant; calendar
      days pass through and instants become ISO strings. */
  function SerializeInterval(value: Interval, iso: IsoCodec): (dto: IntervalDto)
    ensures dto.kind == "IntervalDateTime" <==> value.IntervalDateTime?
    ensures dto.kind == "IntervalDateOnly" <==> value.IntervalDateOnly?
    ensures value.IntervalDateOnly? ==> dto.start == DayObject(value.startDay) && dto.end == DayObject(value.endDay)
    ensures value.IntervalDateTime? ==>
              dto.start == IsoString(iso.encode(value.start)) && dto.end == IsoString(iso.encode(value.end))
  {
    match value
    case IntervalDateTime(start, end) =>
      IntervalDto("IntervalDateTime", IsoString(iso.encode(start)), IsoString(iso.encode(end)))
    case IntervalDateOnly(startDay, endDay) =>
      IntervalDto("IntervalDateOnly", DayObject(startDay), DayObject(endDay))
  }

  /** `new Date(m as string)`: a day object is converted to the string
      `"[object Object]"` before it is read. */
  function ToInstant(m: DtoMoment, iso: IsoCodec): (t: Instant)
    ensures m.IsoString? ==> t == iso.decode(m.iso)
    ensures m.DayObject? ==> t == iso.decode("[object Object]")
  {
    match m
    case IsoString(s) => iso.decode(s)
    case DayObject(_) => iso.decode("[object Object]")
  }

  /** The shape the `as IntervalDateOnly` cast takes for granted. */
  predicate WellKinded(dto: IntervalDto) {
    dto.kind == "IntervalDateOnly" ==> dto.start.DayObject? && dto.end.DayObject?
  }

  /** `deserializeInterval`: calendar days for the kind `IntervalDateOnly`,
      instants read from both ends for any other kind. */
  function DeserializeInterval(dto: IntervalDto, iso: IsoCodec): (value: Interval)
    requires WellKinded(dto)
    ensures value.IntervalDateOnly? <==> dto.kind == "IntervalDateOnly"
    ensures value.IntervalDateOnly? ==> DayObject(value.startDay) == dto.start && DayObject(value.endDay) == dto.end
    ensures value.IntervalDateTime? ==>
              value.start == ToInstant(dto.start, iso) && value.end == ToInstant(dto.end, iso)
  {
    if dto.kind == "IntervalDateOnly" then IntervalDateOnly(dto.start.day, dto.end.day)
    else IntervalDateTime(ToInstant(dto.start, iso), ToInstant(dto.end, iso))
  }

  /** `dto.createdAt ? new Date(dto.createdAt) : undefined`: a missing or
      empty string gives no timestamp. */
  function ReadTimestamp(s: Option<string>, iso: IsoCodec): (t: Option<Instant>)
    ensures t.Some? <==> s.Some? && s.value != ""
    ensures t.Some? ==> t.value == iso.decode(s.value)
  {
    if s.Some? && s.value != "" then Some(iso.decode(s.value)) else None
  }

  /** One element of `serialize`, read through `toBuilder`. */
  function SerializeEvent(e: CalendarEvent, iso: IsoCodec): (dto: EventDto)
    ensures dto.id == e.id && dto.title == e.title && dto.group == e.group
    ensures dto.date == SerializeInterval(e.date, iso) && WellKinded(dto.date)
    ensures dto.description == e.description && dto.address == e.address
    ensures dto.geo == e.geo && dto.url == e.url
    ensures dto.createdAt == Some(iso.encode(e.createdAt)) && dto.updatedAt == Some(iso.encode(e.updatedAt))
  {
    var b := ToBuilder(e);
    EventDto(e.id, b.title, b.group, SerializeInterval(b.date, iso), b.description, b.address, b.geo, b.url,
             Some(iso.encode(b.createdAt.value)), Some(iso.encode(b.updatedAt.value)))
  }

  /** One element of `deserialize`; `now` is the clock reading taken while
      the event is constructed. */
  function DeserializeEvent(dto: EventDto, iso: IsoCodec, now: Instant): (e: CalendarEvent)
    requires WellKinded(dto.date)
    ensures e.id == dto.id && e.title == Names.Of(dto.title) && e.group == Names.Of(dto.group)
    ensures e.date == DeserializeInterval(dto.date, iso)
    ensures e.description == dto.description && e.address == dto.address
    ensures e.geo == dto.geo && e.url == dto.url
    ensures e.createdAt == ReadTimestamp(dto.createdAt, iso).GetOr(now)
    ensures e.updatedAt == ReadTimestamp(dto.updatedAt, iso).GetOr(now)
  {
    CalendarEvents.Of(
      CalendarEventBuilder(
        dto.id, Names.Of(dto.title), Names.Of(dto.group), DeserializeInterval(dto.date, iso),
        dto.description, dto.address, dto.geo, dto.url,
        ReadTimestamp(dto.createdAt, iso), ReadTimestamp(dto.updatedAt, iso)),
      now)
  }

  /** `serialize(calendar)`: one record per event, in order. */
  function Serialize(calendar: seq<CalendarEvent>, iso: IsoCodec): (dtos: seq<EventDto>)
    ensures |dtos| == |calendar|
    ensures forall i :: 0 <= i < |dtos| ==> dtos[i] == SerializeEvent(calendar[i], iso)
    ensures forall i :: 0 <= i < |dtos| ==> dtos[i].id == calendar[i].id && WellKinded(dtos[i].date)
  {
    seq(|calendar|, i requires 0 <= i < |calendar| => SerializeEvent(calendar[i], iso))
  }

  /** `deserialize(dtos)`: one event per record, in order. */
  function Deserialize(dtos: seq<EventDto>, iso: IsoCodec, now: Instant): (calendar: seq<CalendarEvent>)
    requires forall i :: 0 <= i < |dtos| ==> WellKinded(dtos[i].date)
    ensures |calendar| == |dtos|
    ensures forall i :: 0 <= i < |calendar| ==> calendar[i] == DeserializeEvent(dtos[i], iso, now)
    ensures forall i :: 0 <= i < |calendar| ==> calendar[i].id == dtos[i].id
  {
    seq(|dtos|, i requires 0 <= i < |dtos| => DeserializeEvent(dtos[i], iso, now))
  }

  /** Reading back a serialised interval gives the interval itself. */
  lemma DeserializeSerializeInterval(value: Interval, iso: IsoCodec)
    requires Faithful(iso)
    ensures DeserializeInterval(SerializeInterval(value, iso), iso) == value
  {
    if value.IntervalDateTime? {
      assert iso.decode(iso.encode(value.start)) == value.start;
      assert iso.decode(iso.encode(value.end)) == value.end;
    }
  }

  /** Reading back a serialised event gives the event itself: names are
      already normal, and ISO strings read back to the same instants. */
  lemma DeserializeSerializeEvent(e: CalendarEvent, iso: IsoCodec, now: Instant)
    requires Faithful(iso)
    ensures DeserializeEvent(SerializeEvent(e, iso), iso, now) == e
  {
    var back := DeserializeEvent(SerializeEvent(e, iso), iso, now);
    Names.NormalIffFixed(e.title);
    Names.NormalIffFixed(e.group);
    assert back.title == e.title && back.group == e.group;
    assert iso.encode(e.createdAt) != "" && iso.decode(iso.encode(e.createdAt)) == e.createdAt;
    assert iso.encode(e.updatedAt) != "" && iso.decode(iso.encode(e.updatedAt)) == e.updatedAt;
    assert back.createdAt == e.createdAt && back.updatedAt == e.updatedAt;
    DeserializeSerializeInterval(e.date, iso);
    assert back.date == e.date;
  }

  /** `deserialize(serialize(cs))` equals `cs`, whatever the clock says. */
  lemma DeserializeSerialize(calendar: seq<CalendarEvent>, iso: IsoCodec, now: Instant)
    requires Faithful(iso)
    ensures Deserialize(Serialize(calendar, iso), iso, now) == calendar
  {
    var back := Deserialize(Serialize(calendar, iso), iso, now);
    forall i | 0 <= i < |calendar| ensures back[i] == calendar[i] {
      DeserializeSerializeEvent(calendar[i], iso, now);
    }
  }

  /** Serialising a read-back interval reproduces its record. */
  lemma SerializeDeserializeSerializeInterval(value: Interval, iso: IsoCodec)
    requires Stable(iso)
    ensures SerializeInterval(DeserializeInterval(SerializeInterval(value, iso), iso), iso) == SerializeInterval(value, iso)
  {
    if value.IntervalDateTime? {
      assert iso.encode(iso.decode(iso.encode(value.start))) == iso.encode(value.start);
      assert iso.encode(iso.decode(iso.encode(value.end))) == iso.encode(value.end);
    }
  }

  /** Serialising a read-back event reproduces its record. */
  lemma SerializeDeserializeSerializeEvent(e: CalendarEvent, iso: IsoCodec, now: Instant)
    requires Stable(iso)
    ensures SerializeEvent(DeserializeEvent(SerializeEvent(e, iso), iso, now), iso) == SerializeEvent(e, iso)
  {
    var dto := SerializeEvent(e, iso);
    var back := DeserializeEvent(dto, iso, now);
    Names.NormalIffFixed(e.title);
    Names.NormalIffFixed(e.group);
    assert back.title == e.title && back.group == e.group;
    assert iso.encode(iso.decode(iso.encode(e.createdAt))) == iso.encode(e.createdAt) && iso.encode(e.createdAt) != "";
    assert iso.encode(iso.decode(iso.encode(e.updatedAt))) == iso.encode(e.updatedAt) && iso.encode(e.updatedAt) != "";
    assert iso.encode(back.createdAt) == iso.encode(e.createdAt);
    assert iso.encode(back.updatedAt) == iso.encode(e.updatedAt);
    SerializeDeserializeSerializeInterval(e.date, iso);
    assert SerializeInterval(back.date, iso) == SerializeInterval(e.date, iso);
  }

  /** `serialize(deserialize(serialize(cs)))` equals `serialize(cs)`. */
  lemma SerializeDeserializeSerialize(calendar: seq<CalendarEvent>, iso: IsoCodec, now: Instant)
    requires Stable(iso)
    ensures Serialize(Deserialize(Serialize(calendar, iso), iso, now), iso) == Serialize(calendar, iso)
  {
    var again := Serialize(Deserialize(Serialize(calendar, iso), iso, now), iso);
    forall i | 0 <= i < |calendar| ensures again[i] == Serialize(calendar, iso)[i] {
      SerializeDeserializeSerializeEvent(calendar[i], iso, now);
    }
  }
}
