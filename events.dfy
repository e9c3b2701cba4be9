/** The events page: each event's status is derived from its start time and
    the current time, and the events are split into the upcoming, ongoing and
    past tabs (src/pages/Events.tsx). Times are JavaScript time values, whole
    milliseconds since the epoch. */
module Events {
  import opened JsValues
  import opened JsArray

  datatype Status = Upcoming | Ongoing | Past

  /** A row of the `events` table. */
  datatype Event = Event(
    id: string,
    title: string,
    description: string,
    imageUrl: Option<string>,
    eventDate: string,
    status: Status,
    createdAt: string)

  /** The largest magnitude of a `Date` time value, 8.64e15 ms either side of the epoch. */
  const MaxTimeMs: int := 8_640_000_000_000_000

  type TimeValue = t: int | -MaxTimeMs <= t <= MaxTimeMs

  /** The time a `Date` object holds; `None` is an Invalid Date, whose time value is NaN. */
  type Instant = Option<TimeValue>

  /** `new Date(s)` on a stored date string, a host-library parser. It is left
      abstract, except that the empty string never parses. */
  type DateParser = parse: string -> Instant | parse("") == None witness (s: string) => None

  const EventDurationHours: int := 3
  const EventDurationMs: int := EventDurationHours * 60 * 60 * 1000

  /** `new Date(ms)`: a time value outside the representable range gives an Invalid Date. */
  function DateFromMs(ms: int): Instant
  {
    if -MaxTimeMs <= ms <= MaxTimeMs then Some(ms) else None
  }

  /** `a > b`, `a >= b` and `a <= b` on dates compare time values, and every
      comparison with NaN is false. */
  predicate Later(a: Instant, b: Instant)
  {
    a.Some? && b.Some? && a.value > b.value
  }

  predicate NotEarlier(a: Instant, b: Instant)
  {
    a.Some? && b.Some? && a.value >= b.value
  }

  predicate NotLater(a: Instant, b: Instant)
  {
    a.Some? && b.Some? && a.value <= b.value
  }

  /** getEventStatus: `now` is the clock reading `new Date()`. */
  function GetEventStatus(eventDateString: string, now: TimeValue, parse: DateParser): (s: Status)
    ensures eventDateString == "" || parse(eventDateString) == None ==> s == Upcoming
    ensures s == Ongoing ==> (eventDateString != "" && parse(eventDateString).Some? &&
      parse(eventDateString).value <= now <= parse(eventDateString).value + 10_800_000)
    ensures s == Past ==> (eventDateString != "" && parse(eventDateString).Some? &&
      now > parse(eventDateString).value + 10_800_000)
  {
    if eventDateString == "" then Upcoming
    else
      var eventDate := parse(eventDateString);
      var eventEndDate := if eventDate.Some? then DateFromMs(eventDate.value + EventDurationMs) else None;
      if Later(Some(now), eventEndDate) then Past
      else if NotEarlier(Some(now), eventDate) && NotLater(Some(now), eventEndDate) then Ongoing
      else Upcoming
  }

  /** A missing or unparseable start makes every comparison false: the event is upcoming. */
  lemma UnknownStartIsUpcoming(eventDateString: string, now: TimeValue, parse: DateParser)
    requires eventDateString == "" || parse(eventDateString) == None
    ensures GetEventStatus(eventDateString, now, parse) == Upcoming
  {
  }

  /** With a parsed start whose end is representable, the three statuses are
      the three parts of the time line, both ends of the window included. */
  lemma StatusWindow(eventDateString: string, now: TimeValue, parse: DateParser, start: TimeValue)
    requires parse(eventDateString) == Some(start)
    requires start + EventDurationMs <= MaxTimeMs
    ensures GetEventStatus(eventDateString, now, parse) == Upcoming <==> now < start
    ensures GetEventStatus(eventDateString, now, parse) == Ongoing <==> start <= now <= start + 10_800_000
    ensures GetEventStatus(eventDateString, now, parse) == Past <==> now > start + 10_800_000
  {
  }

  /** A start less than three hours before the largest time value has no
      representable end, so every comparison with the end is false and the
      event never leaves `upcoming`. */
  lemma UnrepresentableEndIsUpcoming(eventDateString: string, now: TimeValue, parse: DateParser, start: TimeValue)
    requires parse(eventDateString) == Some(start)
    requires start + EventDurationMs > MaxTimeMs
    ensures GetEventStatus(eventDateString, now, parse) == Upcoming
  {
  }

  function StatusRank(s: Status): nat
  {
    match s
    case Upcoming => 0
    case Ongoing => 1
    case Past => 2
  }

  /** As time passes an event only moves forward: upcoming, then ongoing, then past. */
  lemma StatusMonotone(eventDateString: string, earlier: TimeValue, later: TimeValue, parse: DateParser)
    requires earlier <= later
    ensures StatusRank(GetEventStatus(eventDateString, earlier, parse))
         <= StatusRank(GetEventStatus(eventDateString, later, parse))
  {
  }

  /** The event with its stored status replaced by the derived one:
      `{ ...event, status: getEventStatus(event.event_date) }`. */
  function WithDerivedStatus(e: Event, now: TimeValue, parse: DateParser): (r: Event)
    ensures r.status == GetEventStatus(e.eventDate, now, parse)
    ensures r.(status := e.status) == e
  {
    e.(status := GetEventStatus(e.eventDate, now, parse))
  }

  /** `data.map(...)` in fetchEvents, with one clock reading for the whole pass. */
  function ProcessEvents(data: seq<Event>, now: TimeValue, parse: DateParser): (r: seq<Event>)
    ensures |r| == |data|
    ensures forall i :: 0 <= i < |r| ==> r[i] == WithDerivedStatus(data[i], now, parse)
  {
    if data == [] then []
    else [WithDerivedStatus(data[0], now, parse)] + ProcessEvents(data[1..], now, parse)
  }

  function StatusOf(e: Event): Status
  {
    e.status
  }

  /** The sort key of the upcoming tab: `new Date(e.event_date)`. */
  function DateKey(parse: DateParser): Event -> Instant
  {
    (e: Event) => parse(e.eventDate)
  }

  /** `(a, b) => a.getTime() - b.getTime()` is negative: both times are numbers
      and the first is smaller. A NaN difference counts as zero (equal). */
  predicate EarlierDate(a: Instant, b: Instant)
  {
    a.Some? && b.Some? && a.value < b.value
  }

  datatype Buckets = Buckets(upcoming: seq<Event>, ongoing: seq<Event>, past: seq<Event>)

  /** Every event a status filter keeps has that status. */
  lemma TabHasStatus(s: seq<Event>, st: Status)
    ensures forall e :: e in Select(s, StatusOf, st) ==> e.status == st
  {
    SelectMembers(s, StatusOf, st);
  }

  /** The three lists that fetchEvents hands to the page: filter by derived
      status, and sort only the upcoming one by start time. */
  function FetchEvents(data: seq<Event>, now: TimeValue, parse: DateParser): (r: Buckets)
    ensures forall e :: e in r.upcoming ==> e.status == Upcoming
    ensures forall e :: e in r.ongoing ==> e.status == Ongoing
    ensures forall e :: e in r.past ==> e.status == Past
  {
    var processed := ProcessEvents(data, now, parse);
    var upcoming := Select(processed, StatusOf, Upcoming);
    TabHasStatus(processed, Upcoming);
    TabHasStatus(processed, Ongoing);
    TabHasStatus(processed, Past);
    SortByMembers(upcoming, DateKey(parse), EarlierDate);
    Buckets(
      SortBy(Select(processed, StatusOf, Upcoming), DateKey(parse), EarlierDate),
      Select(processed, StatusOf, Ongoing),
      Select(processed, StatusOf, Past))
  }

  lemma StatusSplit(s: seq<Event>)
    ensures multiset(Select(s, StatusOf, Upcoming)) + multiset(Select(s, StatusOf, Ongoing))
          + multiset(Select(s, StatusOf, Past)) == multiset(s)
  {
    assert forall e :: e in s ==> StatusOf(e) == Upcoming || StatusOf(e) == Ongoing || StatusOf(e) == Past;
    SelectPartition3(s, StatusOf, Upcoming, Ongoing, Past);
  }

  /** Every processed event is in exactly one tab: the three tabs together
      hold the processed events, each once, so their sizes add up to the
      number of rows. */
  lemma BucketsPartition(data: seq<Event>, now: TimeValue, parse: DateParser)
    ensures var b := FetchEvents(data, now, parse);
      && multiset(b.upcoming) + multiset(b.ongoing) + multiset(b.past)
         == multiset(ProcessEvents(data, now, parse))
      && |b.upcoming| + |b.ongoing| + |b.past| == |data|
  {
    var processed := ProcessEvents(data, now, parse);
    StatusSplit(processed);
    var b := FetchEvents(data, now, parse);
    assert |multiset(b.upcoming) + multiset(b.ongoing) + multiset(b.past)| == |multiset(processed)|;
  }

  /** An event is in a tab exactly when its derived status names that tab. */
  lemma BucketMembership(data: seq<Event>, now: TimeValue, parse: DateParser, e: Event)
    ensures var b := FetchEvents(data, now, parse);
      var processed := ProcessEvents(data, now, parse);
      && (e in b.upcoming <==> e in processed && e.status == Upcoming)
      && (e in b.ongoing <==> e in processed && e.status == Ongoing)
      && (e in b.past <==> e in processed && e.status == Past)
  {
    var processed := ProcessEvents(data, now, parse);
    var upcoming := Select(processed, StatusOf, Upcoming);
    SelectMembers(processed, StatusOf, Upcoming);
    SelectMembers(processed, StatusOf, Ongoing);
    SelectMembers(processed, StatusOf, Past);
    var sorted := SortBy(upcoming, DateKey(parse), EarlierDate);
    assert e in sorted <==> e in multiset(sorted);
    assert e in upcoming <==> e in multiset(upcoming);
  }

  /** Sorted under EarlierDate with every time known means ascending time values. */
  lemma AscendingTimes(up: seq<Event>, parse: DateParser)
    requires SortedBy(up, DateKey(parse), EarlierDate)
    requires forall e :: e in up ==> parse(e.eventDate).Some?
    ensures forall i, j :: 0 <= i < j < |up| ==>
      parse(up[i].eventDate).Some? && parse(up[j].eventDate).Some? &&
      parse(up[i].eventDate).value <= parse(up[j].eventDate).value
  {
    var key := DateKey(parse);
    forall i, j | 0 <= i < j < |up|
      ensures parse(up[i].eventDate).Some? && parse(up[j].eventDate).Some?
      ensures parse(up[i].eventDate).value <= parse(up[j].eventDate).value
    {
      assert up[i] in up && up[j] in up;
      assert key(up[i]) == parse(up[i].eventDate) && key(up[j]) == parse(up[j].eventDate);
      assert !EarlierDate(key(up[j]), key(up[i]));
    }
  }

  /** Deriving the status keeps the start date, so the upcoming events have
      known start times when all the input's do. */
  lemma UpcomingTimesKnown(data: seq<Event>, now: TimeValue, parse: DateParser)
    requires forall e :: e in data ==> parse(e.eventDate).Some?
    ensures forall e :: e in Select(ProcessEvents(data, now, parse), StatusOf, Upcoming) ==> parse(e.eventDate).Some?
  {
    var processed := ProcessEvents(data, now, parse);
    SelectMembers(processed, StatusOf, Upcoming);
    forall e | e in Select(processed, StatusOf, Upcoming)
      ensures parse(e.eventDate).Some?
    {
      var i :| 0 <= i < |processed| && processed[i] == e;
      assert data[i] in data;
    }
  }

  /** On known times the comparator is a strict total order. */
  lemma EarlierDateStrictTotal(s: seq<Event>, parse: DateParser)
    requires forall e :: e in s ==> parse(e.eventDate).Some?
    ensures StrictTotalOn(EarlierDate, KeySet(s, DateKey(parse)))
  {
    var ks := KeySet(s, DateKey(parse));
    assert forall k :: k in ks ==> k.Some?;
  }

  /** When every start time parses, the upcoming tab is in ascending order of
      start time, and events with the same start keep their input order. */
  lemma UpcomingSorted(data: seq<Event>, now: TimeValue, parse: DateParser)
    requires forall e :: e in data ==> parse(e.eventDate).Some?
    ensures var up := FetchEvents(data, now, parse).upcoming;
      && (forall i, j :: 0 <= i < j < |up| ==>
            parse(up[i].eventDate).Some? && parse(up[j].eventDate).Some? &&
            parse(up[i].eventDate).value <= parse(up[j].eventDate).value)
      && StableFor(up, Select(ProcessEvents(data, now, parse), StatusOf, Upcoming), DateKey(parse))
  {
    var upcoming := Select(ProcessEvents(data, now, parse), StatusOf, Upcoming);
    var key := DateKey(parse);
    var up := SortBy(upcoming, key, EarlierDate);
    UpcomingTimesKnown(data, now, parse);
    EarlierDateStrictTotal(upcoming, parse);
    SortBySorted(upcoming, key, EarlierDate);
    SortByStable(upcoming, key, EarlierDate);
    assert forall e :: e in up ==> parse(e.eventDate).Some? by {
      forall e | e in up
        ensures parse(e.eventDate).Some?
      {
        assert e in multiset(up);
      }
    }
    AscendingTimes(up, parse);
    assert up == FetchEvents(data, now, parse).upcoming;
  }

  /** The scenario of an event starting at 2024-03-15T09:00:00Z
      (1710493200000 ms), looked at 08:00, 10:00 and 12:30 the same day. */
  lemma ThreeHourScenario()
    ensures var parse: DateParser := s => if s == "2024-03-15T09:00:00Z" then Some(1710493200000) else None;
      && GetEventStatus("2024-03-15T09:00:00Z", 1710489600000, parse) == Upcoming
      && GetEventStatus("2024-03-15T09:00:00Z", 1710496800000, parse) == Ongoing
      && GetEventStatus("2024-03-15T09:00:00Z", 1710505800000, parse) == Past
  {
  }
}
