/** The `useCalendarEvents` hook of `src/hooks/useCalendarEvents.ts`: the
    public feed URL of a calendar, the choice of the next ten events, and
    what one run of `fetchEvents` leaves in the hook's state. */
module CalendarEvents {
  import opened Wrappers
  import opened JsStrings
  import opened LocalTimes
  import UriCoding
  import opened Calendar

  // ---------------------------------------------------------------------
  // The feed URL
  // ---------------------------------------------------------------------

  const FeedPrefix := "https://calendar.google.com/calendar/ical/"
  const FeedSuffix := "/public/basic.ics"

  /** The public iCalendar feed of a calendar id. */
  function FeedUrl(calendarId: string): (r: string)
    ensures |r| == |FeedPrefix| + |UriCoding.EncodeURIComponent(calendarId)| + |FeedSuffix|
    ensures r[..|FeedPrefix|] == FeedPrefix && r[|r| - |FeedSuffix|..] == FeedSuffix
    ensures r[|FeedPrefix|..|r| - |FeedSuffix|] == UriCoding.EncodeURIComponent(calendarId)
  {
    var segment := UriCoding.EncodeURIComponent(calendarId);
    var r := FeedPrefix + segment + FeedSuffix;
    assert r[|FeedPrefix|..|r| - |FeedSuffix|] == segment;
    r
  }

  /** The id lands in one path segment: its encoding has no `/`, `?` or
      `#`, whatever the id holds. */
  lemma FeedIdIsOneSegment(calendarId: string)
    ensures var segment := FeedUrl(calendarId)[|FeedPrefix|..|FeedUrl(calendarId)| - |FeedSuffix|];
      forall i :: 0 <= i < |segment| ==> segment[i] != '/' && segment[i] != '?' && segment[i] != '#'
  {
    var url := FeedUrl(calendarId);
    var segment := url[|FeedPrefix|..|url| - |FeedSuffix|];
    assert segment == UriCoding.EncodeURIComponent(calendarId);
    forall i | 0 <= i < |segment|
      ensures segment[i] != '/' && segment[i] != '?' && segment[i] != '#'
    {
      assert UriCoding.IsUnreserved(segment[i]) || segment[i] == '%';
    }
  }

  /** Different calendars have different feeds. */
  lemma FeedUrlInjective(a: string, b: string)
    requires FeedUrl(a) == FeedUrl(b)
    ensures a == b
  {
    UriCoding.EncodeURIComponentInjective(a, b);
  }

  // ---------------------------------------------------------------------
  // The upcoming selection
  // ---------------------------------------------------------------------

  /** How many events the hook keeps. */
  const MaxEvents := 10

  /** `new Date(event.start)` for the texts `parseICSData` writes; `None`
      is an invalid date. */
  function StartTime(e: CalendarEvent): Option<LocalTime> {
    ParseLocalIso(e.start)
  }

  /** Milliseconds within a second. */
  type Millis = m: nat | m < 1000

  /** `new Date()`: the local time to the second and the milliseconds past
      it. */
  datatype Clock = Clock(time: LocalTime, ms: Millis)

  /** `getTime()` of a clock reading, in milliseconds on the local time
      line. */
  function ClockMs(now: Clock): int {
    Instant(now.time) * 1000 + now.ms
  }

  /** `new Date(event.start) >= now`; the start text has no milliseconds,
      and an invalid date compares false. */
  predicate IsUpcoming(e: CalendarEvent, now: Clock) {
    StartTime(e).Some? && Instant(StartTime(e).value) * 1000 >= ClockMs(now)
  }

  /** A start counts as upcoming exactly when it is a later second than
      `now`'s, or the same second with no milliseconds past it. */
  lemma UpcomingBySecond(e: CalendarEvent, now: Clock)
    ensures IsUpcoming(e, now) <==>
      && StartTime(e).Some?
      && (|| Instant(StartTime(e).value) > Instant(now.time)
          || (Instant(StartTime(e).value) == Instant(now.time) && now.ms == 0))
  {
  }

  /** `new Date(event.start).getTime()`, on the local time line. Only
      upcoming events, whose starts are valid, are ever compared. */
  function StartKey(e: CalendarEvent): int {
    if StartTime(e).Some? then Instant(StartTime(e).value) else 0
  }

  /** `s.filter(p)`: every element that passes as often as it occurs, and
      no other. */
  function Filter<T(!new)>(s: seq<T>, p: T -> bool): (r: seq<T>)
    ensures |r| <= |s|
    ensures forall x :: x in r <==> x in s && p(x)
    ensures forall x :: multiset(r)[x] == if p(x) then multiset(s)[x] else 0
  {
    if |s| == 0 then []
    else
      assert s == [s[0]] + s[1..];
      if p(s[0]) then [s[0]] + Filter(s[1..], p) else Filter(s[1..], p)
  }

  lemma FilterCons<T(!new)>(h: T, t: seq<T>, p: T -> bool)
    ensures Filter([h] + t, p) == (if p(h) then [h] else []) + Filter(t, p)
  {
    assert ([h] + t)[0] == h && ([h] + t)[1..] == t;
  }

  lemma Assoc<T>(x: seq<T>, y: seq<T>, z: seq<T>)
    ensures x + (y + z) == (x + y) + z
  {
  }

  /** The filter keeps order: filtering a concatenation is concatenating
      what each part keeps. */
  lemma {:induction false} FilterAppend<T(!new)>(a: seq<T>, b: seq<T>, p: T -> bool)
    ensures Filter(a + b, p) == Filter(a, p) + Filter(b, p)
    decreases |a|
  {
    if |a| == 0 {
      assert a + b == b;
    } else {
      FilterAppend(a[1..], b, p);
      FilterAppendCons(a[0], a[1..], b, p);
      assert a == [a[0]] + a[1..];
    }
  }

  lemma FilterAppendCons<T(!new)>(h: T, t: seq<T>, b: seq<T>, p: T -> bool)
    requires Filter(t + b, p) == Filter(t, p) + Filter(b, p)
    ensures Filter([h] + t + b, p) == Filter([h] + t, p) + Filter(b, p)
  {
    var x: seq<T> := if p(h) then [h] else [];
    Assoc([h], t, b);
    FilterCons(h, t + b, p);
    FilterCons(h, t, p);
    Assoc(x, Filter(t, p), Filter(b, p));
  }

  /** Filtering and picking the elements of one key commute. */
  lemma {:induction false} FilterWithKey<T(!new)>(s: seq<T>, p: T -> bool, key: T -> int, k: int)
    ensures WithKey(Filter(s, p), key, k) == Filter(WithKey(s, key, k), p)
    decreases |s|
  {
    if |s| > 0 {
      assert s == [s[0]] + s[1..];
      WithKeyOfFilterCons(s[0], s[1..], p, key, k);
      FilterOfWithKeyCons(s[0], s[1..], p, key, k);
      FilterWithKey(s[1..], p, key, k);
    }
  }

  lemma WithKeyOfFilterCons<T(!new)>(h: T, t: seq<T>, p: T -> bool, key: T -> int, k: int)
    ensures WithKey(Filter([h] + t, p), key, k)
         == (if p(h) && key(h) == k then [h] else []) + WithKey(Filter(t, p), key, k)
  {
    FilterCons(h, t, p);
    if p(h) {
      WithKeyCons(h, Filter(t, p), key, k);
    } else {
      assert [] + Filter(t, p) == Filter(t, p);
    }
  }

  lemma FilterOfWithKeyCons<T(!new)>(h: T, t: seq<T>, p: T -> bool, key: T -> int, k: int)
    ensures Filter(WithKey([h] + t, key, k), p)
         == (if p(h) && key(h) == k then [h] else []) + Filter(WithKey(t, key, k), p)
  {
    WithKeyCons(h, t, key, k);
    if key(h) == k {
      FilterCons(h, WithKey(t, key, k), p);
    } else {
      assert [] + WithKey(t, key, k) == WithKey(t, key, k);
    }
  }

  /** When every element of key `k` passes, the filter keeps all of them. */
  lemma {:induction false} FilterOfPassingKey<T(!new)>(s: seq<T>, p: T -> bool, key: T -> int, k: int)
    requires forall x :: x in s && key(x) == k ==> p(x)
    ensures Filter(WithKey(s, key, k), p) == WithKey(s, key, k)
    decreases |s|
  {
    if |s| > 0 {
      var h, t := s[0], s[1..];
      assert s == [h] + t;
      assert forall x :: x in t ==> x in s;
      FilterOfPassingKey(t, p, key, k);
      WithKeyCons(h, t, key, k);
      if key(h) == k {
        assert h in s;
        FilterCons(h, WithKey(t, key, k), p);
      } else {
        assert [] + WithKey(t, key, k) == WithKey(t, key, k);
      }
    }
  }

  /** `new Date(event.start) >= now`, as the filter's callback. */
  function UpcomingTest(now: Clock): CalendarEvent -> bool {
    e => IsUpcoming(e, now)
  }

  /** The `filter` step. */
  function Upcoming(events: seq<CalendarEvent>, now: Clock): (r: seq<CalendarEvent>)
    ensures |r| <= |events|
    ensures forall e :: e in r <==> e in events && IsUpcoming(e, now)
    ensures forall e :: multiset(r)[e] == if IsUpcoming(e, now) then multiset(events)[e] else 0
  {
    Filter(events, UpcomingTest(now))
  }

  /** A parsed event with a valid start no earlier than `now` is upcoming. */
  lemma LaterKeyIsUpcoming(events: seq<CalendarEvent>, now: Clock, k: int)
    requires forall e :: e in events ==> StartTime(e).Some?
    requires k * 1000 >= ClockMs(now)
    ensures forall e :: e in events && StartKey(e) == k ==> UpcomingTest(now)(e)
  {
  }

  /** Non-decreasing in `key`. */
  predicate SortedBy<T>(s: seq<T>, key: T -> int) {
    forall i, j :: 0 <= i < j < |s| ==> key(s[i]) <= key(s[j])
  }

  /** `x` placed before the first element whose key is no smaller. */
  function Insert<T>(x: T, s: seq<T>, key: T -> int): (r: seq<T>)
    ensures multiset(r) == multiset(s) + multiset{x}
  {
    if |s| == 0 then [x]
    else if key(s[0]) >= key(x) then [x] + s
    else
      assert s == [s[0]] + s[1..];
      [s[0]] + Insert(x, s[1..], key)
  }

  lemma ConsSorted<T>(h: T, t: seq<T>, key: T -> int)
    requires SortedBy(t, key)
    requires forall y :: y in t ==> key(h) <= key(y)
    ensures SortedBy([h] + t, key)
  {
    var r := [h] + t;
    forall i, j | 0 <= i < j < |r|
      ensures key(r[i]) <= key(r[j])
    {
      assert r[j] == t[j - 1];
      if i > 0 {
        assert r[i] == t[i - 1];
      }
    }
  }

  /** Inserting into a sorted sequence keeps it sorted. */
  lemma {:induction false} InsertSorted<T>(x: T, s: seq<T>, key: T -> int)
    requires SortedBy(s, key)
    ensures SortedBy(Insert(x, s, key), key)
    decreases |s|
  {
    if |s| == 0 {
    } else if key(s[0]) >= key(x) {
      forall y | y in s
        ensures key(x) <= key(y)
      {
        var i :| 0 <= i < |s| && s[i] == y;
        assert i == 0 || key(s[0]) <= key(s[i]);
      }
      ConsSorted(x, s, key);
    } else {
      var tail := s[1..];
      var rest := Insert(x, tail, key);
      assert SortedBy(tail, key) by {
        forall i, j | 0 <= i < j < |tail|
          ensures key(tail[i]) <= key(tail[j])
        {
          assert tail[i] == s[i + 1] && tail[j] == s[j + 1];
        }
      }
      InsertSorted(x, tail, key);
      forall y | y in rest
        ensures key(s[0]) <= key(y)
      {
        assert y in multiset(rest);
        if y != x {
          assert y in tail;
          var i :| 0 <= i < |tail| && tail[i] == y;
          assert s[i + 1] == y;
        }
      }
      ConsSorted(s[0], rest, key);
    }
  }

  /** A stable sort by `key`: insertion from the right. */
  function SortBy<T>(s: seq<T>, key: T -> int): (r: seq<T>)
    ensures multiset(r) == multiset(s) && |r| == |s|
    ensures SortedBy(r, key)
  {
    if |s| == 0 then []
    else
      var rest := SortBy(s[1..], key);
      assert s == [s[0]] + s[1..];
      InsertSorted(s[0], rest, key);
      Insert(s[0], rest, key)
  }

  /** The `sort` step: `Array.prototype.sort` with the start-time
      comparator. The algorithm is the engine's; the standard requires it to
      be stable, as `SortBy` is. */
  function SortByStart(s: seq<CalendarEvent>): seq<CalendarEvent> {
    SortBy(s, StartKey)
  }

  predicate SortedByStart(s: seq<CalendarEvent>) {
    SortedBy(s, StartKey)
  }

  /** The selection the hook stores: upcoming, by start, at most ten. */
  function Select(events: seq<CalendarEvent>, now: Clock): seq<CalendarEvent> {
    var sorted := SortByStart(Upcoming(events, now));
    sorted[..if |sorted| < MaxEvents then |sorted| else MaxEvents]
  }

  /** Every selected event is one of the parsed events and starts now or
      later; the selection is in start order and has `min(10, upcoming)`
      events. */
  lemma SelectionShape(events: seq<CalendarEvent>, now: Clock)
    ensures var r := Select(events, now);
      && (forall e :: e in r ==> e in events && IsUpcoming(e, now))
      && SortedByStart(r)
      && |r| == (if |Upcoming(events, now)| < MaxEvents then |Upcoming(events, now)| else MaxEvents)
  {
    var sorted := SortByStart(Upcoming(events, now));
    var r := Select(events, now);
    forall e | e in r
      ensures e in events && IsUpcoming(e, now)
    {
      assert e in multiset(sorted);
    }
  }

  /** An upcoming event left out is preceded by ten selected ones that all
      start no later than it. */
  lemma SelectionIsEarliest(events: seq<CalendarEvent>, now: Clock, e: CalendarEvent)
    requires e in events && IsUpcoming(e, now) && e !in Select(events, now)
    ensures |Select(events, now)| == MaxEvents
    ensures forall s :: s in Select(events, now) ==> StartKey(s) <= StartKey(e)
  {
    var sorted := SortByStart(Upcoming(events, now));
    assert e in multiset(Upcoming(events, now));
    assert e in multiset(sorted);
    var j :| 0 <= j < |sorted| && sorted[j] == e;
    var r := Select(events, now);
    assert forall i :: 0 <= i < |r| ==> r[i] == sorted[i];
    assert j >= |r|;
    forall s | s in r
      ensures StartKey(s) <= StartKey(e)
    {
      var i :| 0 <= i < |r| && r[i] == s;
      assert sorted[i] == s;
    }
  }

  /** The elements with key `k`, in order. */
  function WithKey<T>(s: seq<T>, key: T -> int, k: int): (r: seq<T>)
    ensures |r| <= |s|
  {
    if |s| == 0 then [] else (if key(s[0]) == k then [s[0]] else []) + WithKey(s[1..], key, k)
  }

  lemma WithKeyCons<T>(h: T, t: seq<T>, key: T -> int, k: int)
    ensures WithKey([h] + t, key, k) == (if key(h) == k then [h] else []) + WithKey(t, key, k)
  {
    assert ([h] + t)[0] == h && ([h] + t)[1..] == t;
  }

  /** The step of `InsertWithKey` past a smaller head `h`. */
  lemma WithKeyPast<T>(x: T, h: T, t: seq<T>, rest: seq<T>, key: T -> int, k: int)
    requires key(h) < key(x)
    requires WithKey(rest, key, k) == (if key(x) == k then [x] else []) + WithKey(t, key, k)
    ensures WithKey([h] + rest, key, k) == (if key(x) == k then [x] else []) + WithKey([h] + t, key, k)
  {
    var kx := if key(x) == k then [x] else [];
    var kh := if key(h) == k then [h] else [];
    var w := WithKey(t, key, k);
    WithKeyCons(h, rest, key, k);
    WithKeyCons(h, t, key, k);
    assert kx == [] || kh == [];
    assert kh + (kx + w) == kx + (kh + w);
  }

  lemma {:induction false} InsertWithKey<T>(x: T, s: seq<T>, key: T -> int, k: int)
    ensures WithKey(Insert(x, s, key), key, k) == (if key(x) == k then [x] else []) + WithKey(s, key, k)
    decreases |s|
  {
    if |s| == 0 {
      WithKeyCons(x, [], key, k);
      assert [x] + [] == [x];
    } else if key(s[0]) >= key(x) {
      WithKeyCons(x, s, key, k);
    } else {
      InsertWithKey(x, s[1..], key, k);
      WithKeyPast(x, s[0], s[1..], Insert(x, s[1..], key), key, k);
      assert [s[0]] + s[1..] == s;
    }
  }

  /** The sort is stable: elements with one key keep their order. */
  lemma {:induction false} SortIsStable<T>(s: seq<T>, key: T -> int, k: int)
    ensures WithKey(SortBy(s, key), key, k) == WithKey(s, key, k)
    decreases |s|
  {
    if |s| > 0 {
      SortIsStable(s[1..], key, k);
      InsertWithKey(s[0], SortBy(s[1..], key), key, k);
    }
  }

  lemma {:induction false} WithKeyOfPrefix<T>(s: seq<T>, n: nat, key: T -> int, k: int)
    requires n <= |s|
    ensures WithKey(s[..n], key, k) <= WithKey(s, key, k)
    decreases n
  {
    if n > 0 {
      assert s[..n][1..] == s[1..][..n - 1];
      WithKeyOfPrefix(s[1..], n - 1, key, k);
    }
  }

  /** Within the selection, the events with one start are the first of the
      parsed events with that start that are upcoming, in parse order; when
      every start is a valid date, the first of all parsed events with a
      start no earlier than `now`. */
  lemma SelectionIsStable(events: seq<CalendarEvent>, now: Clock, k: int)
    ensures WithKey(Select(events, now), StartKey, k) <= Upcoming(WithKey(events, StartKey, k), now)
    ensures (forall e :: e in events ==> StartTime(e).Some?) && k * 1000 >= ClockMs(now) ==>
              WithKey(Select(events, now), StartKey, k) <= WithKey(events, StartKey, k)
  {
    var sorted := SortByStart(Upcoming(events, now));
    SortIsStable(Upcoming(events, now), StartKey, k);
    WithKeyOfPrefix(sorted, if |sorted| < MaxEvents then |sorted| else MaxEvents, StartKey, k);
    FilterWithKey(events, UpcomingTest(now), StartKey, k);
    if (forall e :: e in events ==> StartTime(e).Some?) && k * 1000 >= ClockMs(now) {
      LaterKeyIsUpcoming(events, now, k);
      FilterOfPassingKey(events, UpcomingTest(now), StartKey, k);
    }
  }

  /** For starts written by the event conversion with four-digit years,
      comparing the texts as strings orders events exactly as comparing the
      dates, and the upcoming test is a string comparison with `now`'s
      second, where the same second counts only with no milliseconds past
      it. */
  lemma StartOrderIsTextOrder(a: LocalTime, b: LocalTime, now: Clock, x: CalendarEvent, y: CalendarEvent)
    requires Valid(a) && HasFourDigitYear(a) && Valid(b) && HasFourDigitYear(b)
    requires Valid(now.time) && HasFourDigitYear(now.time)
    requires x.start == ToLocalISOString(a) && y.start == ToLocalISOString(b)
    ensures StartKey(x) < StartKey(y) <==> StrLess(x.start, y.start)
    ensures StartKey(x) == StartKey(y) <==> x.start == y.start
    ensures IsUpcoming(x, now) <==>
      StrLess(ToLocalISOString(now.time), x.start) || (x.start == ToLocalISOString(now.time) && now.ms == 0)
  {
    IsoRoundTrip(a);
    IsoRoundTrip(b);
    InstantOrder(a, b);
    InstantOrder(now.time, a);
    IsoOrderIsChronological(a, b);
    IsoOrderIsChronological(now.time, a);
    UpcomingBySecond(x, now);
  }

  // ---------------------------------------------------------------------
  // fetchEvents
  // ---------------------------------------------------------------------

  /** A value thrown inside the `try`: an `Error` with its message, or
      anything else, of which only its truthiness matters. */
  datatype Thrown = ErrorObject(message: string) | OtherValue(truthy: bool)

  predicate IsTruthy(x: Thrown) {
    x.ErrorObject? || x.truthy
  }

  /** `err instanceof Error ? err.message : 'Failed to load events'`. */
  function ErrorMessage(x: Thrown): string {
    if x.ErrorObject? then x.message else "Failed to load events"
  }

  /** What `response.text()` settles to. */
  datatype BodyRead = BodyText(text: string) | BodyThrows(reason: Thrown)

  datatype Response = Response(status: nat, body: BodyRead)

  predicate Ok(r: Response) {
    200 <= r.status <= 299
  }

  /** What `fetch(request)` settles to. */
  datatype FetchResult = Rejected | Resolved(response: Response)

  /** What the iCalendar library makes of a text: its `VEVENT`s, or what
      it throws. */
  datatype IcalResult = Parsed(vevents: seq<RawEvent>) | ParseThrows(reason: Thrown)

  /** The outcome of the `try`/`catch`: events to store, or the value `err`
      holds after it. */
  datatype TryOutcome = Selected(events: seq<CalendarEvent>) | Failed(err: Thrown)

  const NoDataPrefix := "Unable to fetch calendar. Last error: "

  /** The text that stands as the unknown-error message. */
  function NoDataMessage(calErr: Option<string>): string {
    NoDataPrefix + if calErr.Some? && calErr.value != "" then calErr.value else "Unknown error"
  }

  /** The `try` block and its `catch`, for a resolved fetch. */
  function TryBlock(response: Response, ical: string -> IcalResult, now: Clock): TryOutcome {
    var calErr := if Ok(response) then None else Some("HTTP " + NatToString(response.status));
    if Ok(response) && response.body.BodyThrows? then Failed(response.body.reason)
    else
      var icsData := if Ok(response) then response.body.text else "";
      if icsData == "" then Failed(ErrorObject(NoDataMessage(calErr)))
      else match ical(icsData)
        case ParseThrows(x) => Failed(x)
        case Parsed(vevents) => Selected(Select(ParseICSData(vevents), now))
  }

  /** The hook's state. */
  datatype HookState = HookState(events: seq<CalendarEvent>, loading: bool, error: Option<string>)

  /** The state one run of `fetchEvents` leaves, from the state before it.
      A rejected `fetch` ends the run after its first two updates. */
  function FetchOutcome(calendarId: string, network: string -> FetchResult, ical: string -> IcalResult,
                        now: Clock, before: HookState): (r: HookState)
    ensures r.loading <==> network(FeedUrl(calendarId)).Rejected?
    ensures r.loading ==> r.error.None? && r.events == before.events
    ensures r.error.Some? ==> r.events == []
  {
    match network(FeedUrl(calendarId))
    case Rejected => HookState(before.events, true, None)
    case Resolved(response) =>
      match TryBlock(response, ical, now)
      case Selected(events) => HookState(events, false, None)
      case Failed(err) =>
        if IsTruthy(err) then HookState([], false, Some(ErrorMessage(err)))
        else HookState(before.events, false, None)
  }

  /** A non-ok status stores the HTTP error and no events. */
  lemma HttpErrorOutcome(calendarId: string, network: string -> FetchResult, ical: string -> IcalResult,
                         now: Clock, before: HookState)
    requires network(FeedUrl(calendarId)).Resolved? && !Ok(network(FeedUrl(calendarId)).response)
    ensures FetchOutcome(calendarId, network, ical, now, before)
         == HookState([], false, Some(NoDataPrefix + ("HTTP " + NatToString(network(FeedUrl(calendarId)).response.status))))
  {
    HttpErrorTry(network(FeedUrl(calendarId)).response, ical, now);
  }

  lemma HttpErrorTry(response: Response, ical: string -> IcalResult, now: Clock)
    requires !Ok(response)
    ensures TryBlock(response, ical, now) == Failed(ErrorObject(NoDataPrefix + ("HTTP " + NatToString(response.status))))
  {
    assert "HTTP " + NatToString(response.status) != "";
  }

  /** An ok response with an empty body stores the unknown error and no
      events. */
  lemma EmptyBodyOutcome(calendarId: string, network: string -> FetchResult, ical: string -> IcalResult,
                         now: Clock, before: HookState)
    requires network(FeedUrl(calendarId)).Resolved?
    requires Ok(network(FeedUrl(calendarId)).response) && network(FeedUrl(calendarId)).response.body == BodyText("")
    ensures FetchOutcome(calendarId, network, ical, now, before)
         == HookState([], false, Some(NoDataPrefix + "Unknown error"))
  {
    EmptyBodyTry(network(FeedUrl(calendarId)).response, ical, now);
  }

  /** An ok response whose body cannot be read ends as the `catch` of what
      `text()` threw: its message and no events for a truthy value, else
      the old events and no error. */
  lemma BodyReadFailsOutcome(calendarId: string, network: string -> FetchResult, ical: string -> IcalResult,
                             now: Clock, before: HookState)
    requires network(FeedUrl(calendarId)).Resolved?
    requires Ok(network(FeedUrl(calendarId)).response) && network(FeedUrl(calendarId)).response.body.BodyThrows?
    ensures var x := network(FeedUrl(calendarId)).response.body.reason;
      FetchOutcome(calendarId, network, ical, now, before)
      == if IsTruthy(x) then HookState([], false, Some(ErrorMessage(x))) else HookState(before.events, false, None)
  {
  }

  lemma EmptyBodyTry(response: Response, ical: string -> IcalResult, now: Clock)
    requires Ok(response) && response.body == BodyText("")
    ensures TryBlock(response, ical, now) == Failed(ErrorObject(NoDataPrefix + "Unknown error"))
  {
  }

  /** An ok response with a feed stores the selection, or, when the
      library throws, the thrown error's message and no events. */
  lemma FeedOutcome(calendarId: string, network: string -> FetchResult, ical: string -> IcalResult,
                    now: Clock, before: HookState, text: string)
    requires network(FeedUrl(calendarId)).Resolved?
    requires Ok(network(FeedUrl(calendarId)).response) && network(FeedUrl(calendarId)).response.body == BodyText(text)
    requires text != ""
    ensures ical(text).Parsed? ==> FetchOutcome(calendarId, network, ical, now, before)
                                   == HookState(Select(ParseICSData(ical(text).vevents), now), false, None)
    ensures ical(text).ParseThrows? && IsTruthy(ical(text).reason) ==>
              FetchOutcome(calendarId, network, ical, now, before)
              == HookState([], false, Some(ErrorMessage(ical(text).reason)))
    ensures ical(text).ParseThrows? && !IsTruthy(ical(text).reason) ==>
              FetchOutcome(calendarId, network, ical, now, before) == HookState(before.events, false, None)
  {
  }

  /** The state `useCalendarEvents` holds for one calendar. */
  class CalendarEventsHook {
    const calendarId: string
    var events: seq<CalendarEvent>
    var loading: bool
    var error: Option<string>

    /** The initial `useState` values. */
    constructor (calendarId: string)
      ensures this.calendarId == calendarId
      ensures events == [] && loading && error == None
    {
      this.calendarId := calendarId;
      events := [];
      loading := true;
      error := None;
    }

    function State(): HookState
      reads this
    {
      HookState(events, loading, error)
    }

    /** One run of `fetchEvents`, with the network, the iCalendar library
      and the clock as parameters. */
    method FetchEvents(network: string -> FetchResult, ical: string -> IcalResult, now: Clock)
      modifies this
      ensures State() == FetchOutcome(calendarId, network, ical, now, old(State()))
    {
      loading := true;
      error := None;

      var icsUrl := FeedUrl(calendarId);
      var fetched := network(icsUrl);
      if fetched.Rejected? {
        return;
      }
      var response := fetched.response;

      var icsData := "";
      var calErr: Option<string> := None;
      var err: Option<Thrown> := None;

      // try
      var thrown: Option<Thrown> := None;
      if Ok(response) {
        match response.body
        case BodyText(text) => icsData := text;
        case BodyThrows(x) => thrown := Some(x);
      } else {
        calErr := Some("HTTP " + NatToString(response.status));
      }
      if thrown.None? {
        if icsData != "" {
          match ical(icsData)
          case ParseThrows(x) => thrown := Some(x);
          case Parsed(vevents) =>
            var calendarEvents := ParseICSData(vevents);
            events := Select(calendarEvents, now);
        } else {
          err := Some(ErrorObject(NoDataMessage(calErr)));
        }
      }
      // catch (e) { err = e; }
      if thrown.Some? {
        err := thrown;
      }

      if err.Some? && IsTruthy(err.value) {
        error := Some(ErrorMessage(err.value));
        events := [];
      }

      loading := false;
    }
  }
}
