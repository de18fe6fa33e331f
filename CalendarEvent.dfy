/** The canonical event entity (src/domain/CalendarEvent.ts): intervals of
    instants or of calendar days, and the immutable `CalendarEvent` with its
    builder. */
module CalendarEvents {
  import opened Wrappers
  import opened Names

  /** A JavaScript `Date` as its time value: milliseconds since the Unix
      epoch. */
  type Instant = int

  /** A calendar day with no time of day; `month` is 1-based. */
  datatype DateOnly = DateOnly(year: int, month: int, day: int)

  /** Both ends have the same kind. For calendar days the end is the last day
      the event covers (inclusive). */
  datatype Interval =
    | IntervalDateTime(start: Instant, end: Instant)
    | IntervalDateOnly(startDay: DateOnly, endDay: DateOnly)

  /** Coordinates, carried as decoded and never computed with. */
  datatype Geo = Geo(lat: real, lon: real)

  /** `CalendarEventBuilder`: `None` is a property left `undefined`. */
  datatype CalendarEventBuilder = CalendarEventBuilder(
    id: string,
    title: Name,
    group: Name,
    date: Interval,
    description: Option<string>,
    address: Option<string>,
    geo: Option<Geo>,
    url: Option<string>,
    createdAt: Option<Instant>,
    updatedAt: Option<Instant>)

  /** An immutable event; unlike the builder it always has both timestamps. */
  datatype CalendarEvent = CalendarEvent(
    id: string,
    title: Name,
    group: Name,
    date: Interval,
    description: Option<string>,
    address: Option<string>,
    geo: Option<Geo>,
    url: Option<string>,
    createdAt: Instant,
    updatedAt: Instant)

  /** `CalendarEvent.of(builder)`, where `now` is the clock reading taken
      while the event is constructed. */
  function Of(b: CalendarEventBuilder, now: Instant): (e: CalendarEvent)
    ensures e.id == b.id && e.title == b.title && e.group == b.group && e.date == b.date
    ensures e.description == b.description && e.address == b.address
    ensures e.geo == b.geo && e.url == b.url
    ensures b.createdAt.Some? ==> e.createdAt == b.createdAt.value
    ensures b.createdAt.None? ==> e.createdAt == now
    ensures b.updatedAt.Some? ==> e.updatedAt == b.updatedAt.value
    ensures b.updatedAt.None? ==> e.updatedAt == now
  {
    CalendarEvent(b.id, b.title, b.group, b.date, b.description, b.address, b.geo, b.url,
                  b.createdAt.GetOr(now), b.updatedAt.GetOr(now))
  }

  /** `event.toBuilder()`: it supplies both timestamps, so building it again
      gives back the same event whatever the clock says. */
  function ToBuilder(e: CalendarEvent): (b: CalendarEventBuilder)
    ensures b.createdAt.Some? && b.updatedAt.Some?
    ensures forall now :: Of(b, now) == e
  {
    CalendarEventBuilder(e.id, e.title, e.group, e.date, e.description, e.address, e.geo, e.url,
                         Some(e.createdAt), Some(e.updatedAt))
  }

  /** `event.fullTitle`: `Name.of("[" + group + "] " + title)`. Since both
      names are already normal, that is the text itself, minus the trailing
      space when the title is empty. */
  function FullTitle(e: CalendarEvent): (t: Name)
    ensures e.title != [] ==> t == "[" + e.group + "] " + e.title
    ensures e.title == [] ==> t == "[" + e.group + "]"
  {
    BracketedTitle(e.group, e.title);
    Names.Of("[" + e.group + "] " + e.title)
  }

  /** Normalising `[group] title` built from two names changes nothing but a
      trailing space left by an empty title. */
  lemma BracketedTitle(group: Name, title: Name)
    ensures title != [] ==> Names.Of("[" + group + "] " + title) == "[" + group + "] " + title
    ensures title == [] ==> Names.Of("[" + group + "] " + title) == "[" + group + "]"
  {
    var bracketed := "[" + group + "]";
    ConcatNormal("[", group);
    ConcatNormal("[" + group, "]");
    if title == [] {
      assert "[" + group + "] " + title == bracketed + " ";
      OfTrailingSpace(bracketed);
    } else {
      assert "[" + group + "] " + title == bracketed + " " + title;
      SpaceJoinNormal(bracketed, title);
      NormalIffFixed(bracketed + " " + title);
    }
  }

  /** `toBuilder()` of a new event returns what it was built from, with each
      missing timestamp filled in from the clock. */
  lemma ToBuilderOf(b: CalendarEventBuilder, now: Instant)
    ensures ToBuilder(Of(b, now)) == b.(createdAt := Some(b.createdAt.GetOr(now)),
                                        updatedAt := Some(b.updatedAt.GetOr(now)))
  {
  }
}
