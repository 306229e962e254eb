/** The event helpers in `src/utils/calendar.ts`: recognising a `{body,
    link}` payload in an event description, turning the events the iCalendar
    library yields into `CalendarEvent` records, and preparing the single
    event export (its component tree and its file name). */
module Calendar {
  import opened Wrappers
  import opened JsStrings
  import opened LocalTimes
  import Json

  /** An event as the site shows it. `start` and `end` are local date-time
      texts; an absent `location` or `description` is `undefined`. */
  datatype CalendarEvent = CalendarEvent(
    id: string,
    title: string,
    start: string,
    end: string,
    location: Option<string>,
    description: Option<string>)

  /** `!s` for a string that may be `undefined`: absent or empty. */
  predicate Falsy(s: Option<string>) {
    s.None? || s.value == ""
  }

  // ---------------------------------------------------------------------
  // parseEventDescription
  // ---------------------------------------------------------------------

  /** A parse result whose `body` and `link` are both truthy. */
  predicate IsPayload(parsed: Json.Json) {
    Json.IsTruthy(Json.GetProperty(parsed, "body")) && Json.IsTruthy(Json.GetProperty(parsed, "link"))
  }

  /** `parseEventDescription`: the parsed description itself, extra keys and
      all, when it is JSON with truthy `body` and `link`; `None` (`null`)
      otherwise. The `SyntaxError` of bad JSON and the `TypeError` of
      reading `body` from `null` are both caught, so it never throws. */
  function ParseEventDescription(description: Option<string>): (r: Option<Json.Json>)
    ensures Falsy(description) ==> r.None?
    ensures r.Some? <==> !Falsy(description) && Json.Parse(description.value).Some?
                         && IsPayload(Json.Parse(description.value).value)
    ensures r.Some? ==> r == Json.Parse(description.value) && r.value.Obj?
  {
    if Falsy(description) then None
    else
      match Json.Parse(description.value)
      case None => None
      case Some(parsed) =>
        var body := Json.GetProperty(parsed, "body");
        if body.Throws? then None
        else if !Json.IsTruthy(body) then None
        else if Json.IsTruthy(Json.GetProperty(parsed, "link")) then Some(parsed)
        else None
  }

  /** The members `JSON.stringify({body, link})` writes. */
  function PayloadMembers(body: string, link: string): seq<(string, string)> {
    [("body", body), ("link", link)]
  }

  /** The value `JSON.parse` gives back for a written payload. */
  function PayloadObject(body: string, link: string): Json.Json {
    Json.Obj([("body", Json.Str(body)), ("link", Json.Str(link))])
  }

  /** A written payload parses back to the object it was written from. */
  lemma PayloadParses(body: string, link: string)
    ensures Json.Parse(Json.StringifyObject(PayloadMembers(body, link))) == Some(PayloadObject(body, link))
  {
    Json.ParseStringifiedPair("body", body, "link", link);
  }

  /** In that object `body` and `link` read as the two strings. */
  lemma PayloadLookups(body: string, link: string)
    ensures Json.GetProperty(PayloadObject(body, link), "body") == Json.Found(Json.Str(body))
    ensures Json.GetProperty(PayloadObject(body, link), "link") == Json.Found(Json.Str(link))
  {
    var ms := [("body", Json.Str(body)), ("link", Json.Str(link))];
    assert "link" != "body" by { assert "link"[0] != "body"[0]; }
    assert ms[..1] == [("body", Json.Str(body))];
    assert Json.LastMember(ms, "body") == Json.LastMember(ms[..1], "body");
    assert Json.LastMember(ms[..1], "body") == Json.Found(Json.Str(body));
  }

  /** A written payload is recognised exactly when both its strings are
      non-empty, and then `body` and `link` read back as written. */
  lemma PayloadDecodes(body: string, link: string)
    ensures var r := ParseEventDescription(Some(Json.StringifyObject(PayloadMembers(body, link))));
      && (r.Some? <==> body != "" && link != "")
      && (r.Some? ==>
            Json.GetProperty(r.value, "body") == Json.Found(Json.Str(body))
            && Json.GetProperty(r.value, "link") == Json.Found(Json.Str(link)))
  {
    var text := Json.StringifyObject(PayloadMembers(body, link));
    PayloadParses(body, link);
    Json.StringifiedStart(PayloadMembers(body, link));
    RecognisedPayload(text, body, link);
    PayloadLookups(body, link);
  }

  /** A non-empty text that parses to a payload object is recognised exactly
      when both of its strings are non-empty. */
  lemma RecognisedPayload(text: string, body: string, link: string)
    requires text != "" && Json.Parse(text) == Some(PayloadObject(body, link))
    ensures var r := ParseEventDescription(Some(text));
      && (r.Some? <==> body != "" && link != "")
      && (r.Some? ==> r.value == PayloadObject(body, link))
  {
    PayloadIsPayload(body, link);
    assert !Falsy(Some(text));
  }

  /** The object is a payload exactly when both of its strings are truthy. */
  lemma PayloadIsPayload(body: string, link: string)
    ensures IsPayload(PayloadObject(body, link)) <==> body != "" && link != ""
  {
    PayloadLookups(body, link);
  }

  // ---------------------------------------------------------------------
  // parseICSData
  // ---------------------------------------------------------------------

  /** What the iCalendar library reports for one `VEVENT`: its properties
      when present, and its start and end as local date-time fields. */
  datatype RawEvent = RawEvent(
    uid: Option<string>,
    summary: Option<string>,
    startDate: Option<LocalTime>,
    endDate: Option<LocalTime>,
    location: Option<string>,
    description: Option<string>)

  /** The completeness gate: a non-empty UID and summary and both dates. */
  predicate IsComplete(e: RawEvent) {
    !Falsy(e.uid) && !Falsy(e.summary) && e.startDate.Some? && e.endDate.Some?
  }

  /** `s || undefined`. */
  function OrUndefined(s: Option<string>): (r: Option<string>)
    ensures r.Some? <==> !Falsy(s)
    ensures r.Some? ==> r == s
  {
    if Falsy(s) then None else s
  }

  /** The record built for a complete event. */
  function ToCalendarEvent(e: RawEvent): CalendarEvent
    requires IsComplete(e)
  {
    CalendarEvent(e.uid.value, e.summary.value,
                  ToLocalISOString(e.startDate.value), ToLocalISOString(e.endDate.value),
                  OrUndefined(e.location), OrUndefined(e.description))
  }

  /** The `map` step: `null` for an incomplete event. */
  function MapEvent(e: RawEvent): (r: Option<CalendarEvent>)
    ensures r.Some? <==> IsComplete(e)
  {
    if !IsComplete(e) then None else Some(ToCalendarEvent(e))
  }

  /** The `filter(Boolean)` step: the non-null entries, in order. */
  function NonNull(xs: seq<Option<CalendarEvent>>): (r: seq<CalendarEvent>)
    ensures |r| <= |xs|
    ensures forall e :: e in r ==> Some(e) in xs
    ensures forall i :: 0 <= i < |xs| && xs[i].Some? ==> xs[i].value in r
  {
    if |xs| == 0 then []
    else
      var rest := NonNull(xs[1..]);
      assert forall i :: 1 <= i < |xs| ==> xs[i] == xs[1..][i - 1];
      if xs[0].Some? then [xs[0].value] + rest else rest
  }

  /** `vevents.map(...)`. */
  function MapEvents(vevents: seq<RawEvent>): (r: seq<Option<CalendarEvent>>)
    ensures |r| == |vevents|
    ensures forall i :: 0 <= i < |vevents| ==> r[i] == MapEvent(vevents[i])
  {
    if |vevents| == 0 then [] else [MapEvent(vevents[0])] + MapEvents(vevents[1..])
  }

  /** `parseICSData` after the library has produced the `VEVENT` list:
      the map-then-filter pipeline. */
  function ParseICSData(vevents: seq<RawEvent>): (r: seq<CalendarEvent>)
    ensures |r| <= |vevents|
    ensures forall ev :: ev in r ==> exists i :: 0 <= i < |vevents| && IsComplete(vevents[i]) && ev == ToCalendarEvent(vevents[i])
    ensures forall i :: 0 <= i < |vevents| && IsComplete(vevents[i]) ==> ToCalendarEvent(vevents[i]) in r
  {
    NonNull(MapEvents(vevents))
  }

  /** The complete events, in order. */
  function Complete(vevents: seq<RawEvent>): (r: seq<RawEvent>)
    ensures forall e :: e in r ==> IsComplete(e)
  {
    if |vevents| == 0 then []
    else if IsComplete(vevents[0]) then [vevents[0]] + Complete(vevents[1..])
    else Complete(vevents[1..])
  }

  /** The conversion of every event of a list of complete ones. */
  function ToCalendarEvents(vs: seq<RawEvent>): (r: seq<CalendarEvent>)
    requires forall e :: e in vs ==> IsComplete(e)
    ensures |r| == |vs|
  {
    if |vs| == 0 then [] else [ToCalendarEvent(vs[0])] + ToCalendarEvents(vs[1..])
  }

  lemma {:induction false} NonNullMapped(vevents: seq<RawEvent>)
    ensures NonNull(MapEvents(vevents)) == ToCalendarEvents(Complete(vevents))
    decreases |vevents|
  {
    if |vevents| > 0 {
      var tail := vevents[1..];
      var mapped := MapEvents(vevents);
      assert mapped == [MapEvent(vevents[0])] + MapEvents(tail);
      assert mapped[1..] == MapEvents(tail);
      NonNullMapped(tail);
      if IsComplete(vevents[0]) {
        assert Complete(vevents) == [vevents[0]] + Complete(tail);
        var c := Complete(vevents);
        assert c[1..] == Complete(tail);
      }
    }
  }

  /** `parseICSData` keeps exactly the complete events, in their order, and
      converts each one: it is filter-then-map. */
  lemma ParseICSDataIsFilterMap(vevents: seq<RawEvent>)
    ensures ParseICSData(vevents) == ToCalendarEvents(Complete(vevents))
  {
    NonNullMapped(vevents);
  }

  /** A kept event carries its source's UID and summary, keeps only
      non-empty location and description texts, and its start and end read
      back as the source's fields whenever those have four-digit years. */
  lemma ParsedEventFields(vevents: seq<RawEvent>, ev: CalendarEvent)
    requires ev in ParseICSData(vevents)
    ensures exists i :: (0 <= i < |vevents| && IsComplete(vevents[i])
      && var e := vevents[i];
      && ev.id == e.uid.value && ev.title == e.summary.value
      && ev.id != "" && ev.title != ""
      && (ev.location.Some? ==> ev.location == e.location && ev.location.value != "")
      && (ev.description.Some? ==> ev.description == e.description && ev.description.value != "")
      && (Valid(e.startDate.value) && HasFourDigitYear(e.startDate.value) ==> ParseLocalIso(ev.start) == e.startDate)
      && (Valid(e.endDate.value) && HasFourDigitYear(e.endDate.value) ==> ParseLocalIso(ev.end) == e.endDate))
  {
    var i :| 0 <= i < |vevents| && IsComplete(vevents[i]) && ev == ToCalendarEvent(vevents[i]);
    ConvertedTimes(vevents[i]);
  }

  /** The start and end texts of a converted event read back as its
      fields when those have four-digit years. */
  lemma ConvertedTimes(e: RawEvent)
    requires IsComplete(e)
    ensures Valid(e.startDate.value) && HasFourDigitYear(e.startDate.value) ==> ParseLocalIso(ToCalendarEvent(e).start) == e.startDate
    ensures Valid(e.endDate.value) && HasFourDigitYear(e.endDate.value) ==> ParseLocalIso(ToCalendarEvent(e).end) == e.endDate
  {
    if Valid(e.startDate.value) && HasFourDigitYear(e.startDate.value) {
      IsoRoundTrip(e.startDate.value);
    }
    if Valid(e.endDate.value) && HasFourDigitYear(e.endDate.value) {
      IsoRoundTrip(e.endDate.value);
    }
  }

  // ---------------------------------------------------------------------
  // downloadICSFile
  // ---------------------------------------------------------------------

  /** A property value as the export sets it: a text, a non-string value
      taken from a payload's `body`, a date-time, the date-time of an
      unparsable text, or `undefined`. */
  datatype PropValue = Text(s: string) | Value(json: Json.Json) | Time(t: LocalTime) | InvalidTime | Undefined

  /** A parse-result value used where a property value goes. */
  function BodyValue(v: Json.Json): PropValue {
    if v.Str? then Text(v.s) else Value(v)
  }

  /** `parsedDescription?.body || event.description || ''`. */
  function ExportDescription(description: Option<string>): (r: PropValue)
    ensures ParseEventDescription(description).Some? ==>
      r == BodyValue(Json.GetProperty(ParseEventDescription(description).value, "body").value)
    ensures ParseEventDescription(description).None? ==>
      r == Text(if description.Some? then description.value else "")
  {
    match ParseEventDescription(description)
    case Some(p) => BodyValue(Json.GetProperty(p, "body").value)
    case None => if !Falsy(description) then Text(description.value) else Text("")
  }

  /** A non-empty description that is no JSON is not recognised and is
      exported as it is. */
  lemma UnparsedDescription(text: string)
    requires text != "" && Json.Parse(text).None?
    ensures ParseEventDescription(Some(text)).None?
    ensures ExportDescription(Some(text)) == Text(text)
  {
  }

  /** A written payload with a non-empty body and link exports its body;
      any other description that is not a payload exports as it is. */
  lemma PayloadExportsBody(body: string, link: string)
    requires body != "" && link != ""
    ensures ExportDescription(Some(Json.StringifyObject(PayloadMembers(body, link)))) == Text(body)
  {
    PayloadDecodes(body, link);
  }

  /** The UID the export gives an event. */
  function Uid(id: string): (r: string)
    ensures |r| == |id| + 15 && r[..|id|] == id && r[|id|..] == "@longtoque.club"
  {
    id + "@longtoque.club"
  }

  /** Different event ids get different UIDs. */
  lemma UidInjective(a: string, b: string)
    requires Uid(a) == Uid(b)
    ensures a == b
  {
    assert a == Uid(a)[..|a|] && b == Uid(b)[..|b|];
  }

  /** `ICAL.Time.fromJSDate(new Date(text))` for the local date-time texts
      the site stores. */
  function TimeOf(text: string): PropValue {
    match ParseLocalIso(text)
    case Some(t) => Time(t)
    case None => InvalidTime
  }

  /** A named property with its value. */
  datatype Property = Property(name: string, value: PropValue)

  /** A component as a value: what `toString` serialises. */
  datatype ComponentValue = ComponentValue(name: string, properties: seq<Property>, subcomponents: seq<ComponentValue>)

  /** The index of the first property called `n`. */
  function FindProperty(ps: seq<Property>, n: string): (r: Option<nat>)
    ensures r.Some? ==> r.value < |ps| && ps[r.value].name == n
                        && forall j :: 0 <= j < r.value ==> ps[j].name != n
    ensures r.None? ==> forall j :: 0 <= j < |ps| ==> ps[j].name != n
  {
    if |ps| == 0 then None
    else if ps[0].name == n then Some(0)
    else
      match FindProperty(ps[1..], n)
      case None => None
      case Some(i) => Some(i + 1)
  }

  /** `getFirstPropertyValue(n)`. */
  function PropertyValue(ps: seq<Property>, n: string): Option<PropValue> {
    match FindProperty(ps, n)
    case None => None
    case Some(i) => Some(ps[i].value)
  }

  /** The properties after `updatePropertyWithValue(n, v)`: the first
      property called `n` takes the value, or a new one is appended. */
  function UpdatedProperties(ps: seq<Property>, n: string, v: PropValue): seq<Property> {
    match FindProperty(ps, n)
    case Some(i) => ps[i := Property(n, v)]
    case None => ps + [Property(n, v)]
  }

  /** After `updatePropertyWithValue(n, v)` the name `n` reads `v`, every
      other name reads what it did, and no other property moves. */
  lemma UpdatedPropertiesLookup(ps: seq<Property>, n: string, v: PropValue)
    ensures var r := UpdatedProperties(ps, n, v);
      && |r| == (if FindProperty(ps, n).Some? then |ps| else |ps| + 1)
      && PropertyValue(r, n) == Some(v)
      && (forall m :: m != n ==> FindProperty(r, m) == FindProperty(ps, m))
      && (forall j :: 0 <= j < |ps| && ps[j].name != n ==> r[j] == ps[j])
  {
    var r := UpdatedProperties(ps, n, v);
    match FindProperty(ps, n)
    case Some(i) =>
      forall m
        ensures FindProperty(r, m) == FindProperty(ps, m)
      {
        FindReplaced(ps, i, Property(n, v), m);
      }
    case None =>
      FindAppended(ps, Property(n, v));
      forall m | m != n
        ensures FindProperty(r, m) == FindProperty(ps, m)
      {
        FindAppendedOther(ps, Property(n, v), m);
      }
  }

  /** Replacing a property by one of the same name moves no lookup. */
  lemma {:induction false} FindReplaced(ps: seq<Property>, i: nat, p: Property, m: string)
    requires i < |ps| && ps[i].name == p.name
    ensures FindProperty(ps[i := p], m) == FindProperty(ps, m)
    decreases |ps|
  {
    var qs := ps[i := p];
    if i > 0 {
      assert qs[1..] == ps[1..][i - 1 := p];
      FindReplaced(ps[1..], i - 1, p, m);
    }
  }

  /** The lookup of a name at a known first position. */
  lemma {:induction false} FindAt(ps: seq<Property>, k: nat, m: string)
    requires k < |ps| && ps[k].name == m
    requires forall j :: 0 <= j < k ==> ps[j].name != m
    ensures FindProperty(ps, m) == Some(k)
    decreases k
  {
    if k > 0 {
      FindAt(ps[1..], k - 1, m);
    }
  }

  /** `updatePropertyWithValue` of a name not yet present appends. */
  lemma UpdateAbsent(ps: seq<Property>, n: string, v: PropValue)
    requires forall j :: 0 <= j < |ps| ==> ps[j].name != n
    ensures UpdatedProperties(ps, n, v) == ps + [Property(n, v)]
  {
  }

  lemma {:induction false} FindAppended(ps: seq<Property>, p: Property)
    requires FindProperty(ps, p.name).None?
    ensures FindProperty(ps + [p], p.name) == Some(|ps|)
  {
    if |ps| > 0 {
      assert (ps + [p])[1..] == ps[1..] + [p];
      FindAppended(ps[1..], p);
    }
  }

  lemma {:induction false} FindAppendedOther(ps: seq<Property>, p: Property, m: string)
    requires p.name != m
    ensures FindProperty(ps + [p], m) == FindProperty(ps, m)
  {
    if |ps| == 0 {
      assert FindProperty([p], m) == FindProperty([p][1..], m) by {
        assert [p][1..] == [];
      }
    } else {
      assert (ps + [p])[1..] == ps[1..] + [p];
      FindAppendedOther(ps[1..], p, m);
    }
  }

  /** A calendar component being built. */
  class Component {
    var name: string
    var properties: seq<Property>
    var subcomponents: seq<ComponentValue>

    constructor (name: string)
      ensures this.name == name && properties == [] && subcomponents == []
    {
      this.name := name;
      properties := [];
      subcomponents := [];
    }

    /** The component as it stands. */
    function Snapshot(): ComponentValue
      reads this
    {
      ComponentValue(name, properties, subcomponents)
    }

    /** `addPropertyWithValue(n, v)`: a new property, after the others. */
    method AddPropertyWithValue(n: string, v: PropValue)
      modifies this
      ensures properties == old(properties) + [Property(n, v)]
      ensures name == old(name) && subcomponents == old(subcomponents)
    {
      properties := properties + [Property(n, v)];
    }

    /** `updatePropertyWithValue(n, v)`, which the event field setters use. */
    method UpdatePropertyWithValue(n: string, v: PropValue)
      modifies this
      ensures properties == UpdatedProperties(old(properties), n, v)
      ensures name == old(name) && subcomponents == old(subcomponents)
    {
      properties := UpdatedProperties(properties, n, v);
    }

    /** `addSubcomponent(c)`, taking `c` as it stands. */
    method AddSubcomponent(c: Component)
      requires c != this
      modifies this
      ensures subcomponents == old(subcomponents) + [c.Snapshot()]
      ensures name == old(name) && properties == old(properties)
    {
      subcomponents := subcomponents + [c.Snapshot()];
    }
  }

  /** The calendar-level properties of every export. */
  function CalendarHeader(): seq<Property> {
    [Property("version", Text("2.0")),
     Property("prodid", Text("-//Long Toque Club//Event Calendar//EN")),
     Property("calscale", Text("GREGORIAN")),
     Property("method", Text("PUBLISH"))]
  }

  /** The exported `VEVENT`, property by property in the order they are
      set. */
  function ExportedEvent(event: CalendarEvent): ComponentValue {
    ComponentValue("vevent",
      EventProperties(Text(Uid(event.id)), Text(event.title), ExportDescription(event.description),
                      if Falsy(event.location) then Undefined else Text(event.location.value),
                      TimeOf(event.start), TimeOf(event.end)),
      [])
  }

  /** The properties the event setters leave on a fresh `VEVENT`. */
  function EventProperties(uid: PropValue, summary: PropValue, description: PropValue,
                           location: PropValue, start: PropValue, end: PropValue): seq<Property>
  {
    [Property("uid", uid), Property("summary", summary), Property("description", description),
     Property("location", location), Property("dtstart", start), Property("dtend", end)]
  }

  /** Each of the six names reads the value set for it. */
  lemma EventPropertiesLookup(uid: PropValue, summary: PropValue, description: PropValue,
                              location: PropValue, start: PropValue, end: PropValue)
    ensures var ps := EventProperties(uid, summary, description, location, start, end);
      && PropertyValue(ps, "uid") == Some(uid)
      && PropertyValue(ps, "summary") == Some(summary)
      && PropertyValue(ps, "description") == Some(description)
      && PropertyValue(ps, "location") == Some(location)
      && PropertyValue(ps, "dtstart") == Some(start)
      && PropertyValue(ps, "dtend") == Some(end)
  {
    EventNamesDistinct();
    SixLookups(Property("uid", uid), Property("summary", summary), Property("description", description),
               Property("location", location), Property("dtstart", start), Property("dtend", end));
  }

  /** The six event property names differ from one another. */
  lemma EventNamesDistinct()
    ensures "uid" != "summary" && "uid" != "description" && "uid" != "location"
    ensures "uid" != "dtstart" && "uid" != "dtend"
    ensures "summary" != "description" && "summary" != "location" && "summary" != "dtstart" && "summary" != "dtend"
    ensures "description" != "location" && "description" != "dtstart" && "description" != "dtend"
    ensures "location" != "dtstart" && "location" != "dtend" && "dtstart" != "dtend"
  {
    assert |"uid"| == 3 && |"summary"| == 7 && |"description"| == 11;
    assert |"location"| == 8 && |"dtstart"| == 7 && |"dtend"| == 5;
    assert "summary"[0] != "dtstart"[0];
  }

  /** In six properties with distinct names, each name reads its own value. */
  lemma SixLookups(a: Property, b: Property, c: Property, d: Property, e: Property, f: Property)
    requires a.name != b.name && a.name != c.name && a.name != d.name && a.name != e.name && a.name != f.name
    requires b.name != c.name && b.name != d.name && b.name != e.name && b.name != f.name
    requires c.name != d.name && c.name != e.name && c.name != f.name
    requires d.name != e.name && d.name != f.name && e.name != f.name
    ensures var ps := [a, b, c, d, e, f];
      && PropertyValue(ps, a.name) == Some(a.value) && PropertyValue(ps, b.name) == Some(b.value)
      && PropertyValue(ps, c.name) == Some(c.value) && PropertyValue(ps, d.name) == Some(d.value)
      && PropertyValue(ps, e.name) == Some(e.value) && PropertyValue(ps, f.name) == Some(f.value)
  {
    var ps := [a, b, c, d, e, f];
    FindFirst(ps, 0);
    FindFirst(ps, 1);
    FindFirst(ps, 2);
    FindFirst(ps, 3);
    FindFirst(ps, 4);
    FindFirst(ps, 5);
  }

  /** A property whose name no earlier property has is what its name reads. */
  lemma FindFirst(ps: seq<Property>, k: nat)
    requires k < |ps|
    requires forall j :: 0 <= j < k ==> ps[j].name != ps[k].name
    ensures PropertyValue(ps, ps[k].name) == Some(ps[k].value)
  {
    FindAt(ps, k, ps[k].name);
  }

  /** The six setters on a fresh `VEVENT`, as values: each name is new, so
      each update appends. */
  lemma EventUpdates(uid: PropValue, summary: PropValue, description: PropValue,
                     location: PropValue, start: PropValue, end: PropValue)
    ensures UpdatedProperties(UpdatedProperties(UpdatedProperties(UpdatedProperties(UpdatedProperties(
              UpdatedProperties([], "uid", uid), "summary", summary), "description", description),
              "location", location), "dtstart", start), "dtend", end)
            == EventProperties(uid, summary, description, location, start, end)
  {
    var a, b, c := Property("uid", uid), Property("summary", summary), Property("description", description);
    var d, e, f := Property("location", location), Property("dtstart", start), Property("dtend", end);
    var q := UpdatedProperties(UpdatedProperties(UpdatedProperties([], a.name, a.value), b.name, b.value), c.name, c.value);
    AppendSteps([], a, b, c);
    assert q == [a, b, c];
    AppendSteps(q, d, e, f);
    assert q + [d, e, f] == [a, b, c, d, e, f];
  }

  /** Three updates of names not yet present append in order. */
  lemma AppendSteps(ps: seq<Property>, a: Property, b: Property, c: Property)
    requires forall j :: 0 <= j < |ps| ==> ps[j].name !in {a.name, b.name, c.name}
    requires a.name != b.name && a.name != c.name && b.name != c.name
    ensures UpdatedProperties(UpdatedProperties(UpdatedProperties(ps, a.name, a.value), b.name, b.value), c.name, c.value)
            == ps + [a, b, c]
  {
    UpdateAbsent(ps, a.name, a.value);
    assert ps + [a] + [b] == ps + [a, b];
    UpdateAbsent(ps + [a], b.name, b.value);
    assert ps + [a, b] + [c] == ps + [a, b, c];
    UpdateAbsent(ps + [a, b], c.name, c.value);
  }

  /** The `uid`, `summary`, `description`, `location`, `startDate` and
      `endDate` setters of the event wrapper, each an
      `updatePropertyWithValue` on the wrapped component, in that order. */
  method SetEventProperties(vevent: Component, uid: PropValue, summary: PropValue, description: PropValue,
                            location: PropValue, start: PropValue, end: PropValue)
    requires vevent.properties == []
    modifies vevent
    ensures vevent.properties == EventProperties(uid, summary, description, location, start, end)
    ensures vevent.name == old(vevent.name) && vevent.subcomponents == old(vevent.subcomponents)
  {
    EventUpdates(uid, summary, description, location, start, end);
    vevent.UpdatePropertyWithValue("uid", uid);
    vevent.UpdatePropertyWithValue("summary", summary);
    vevent.UpdatePropertyWithValue("description", description);
    vevent.UpdatePropertyWithValue("location", location);
    vevent.UpdatePropertyWithValue("dtstart", start);
    vevent.UpdatePropertyWithValue("dtend", end);
  }

  /** The exported calendar: the header and the one event. */
  function ExportedCalendar(event: CalendarEvent): ComponentValue {
    ComponentValue("vcalendar", CalendarHeader(), [ExportedEvent(event)])
  }

  /** One file-name character, per UTF-16 code unit of the title: an ASCII
      letter or digit stays (lower-cased afterwards), anything else is `_`,
      twice for a character outside the Basic Multilingual Plane. */
  function ReplaceUnsafeChar(c: char): (r: string)
    ensures |r| == Utf16Units(c)
    ensures IsAsciiAlnum(c) ==> r == [c]
    ensures !IsAsciiAlnum(c) ==> forall i :: 0 <= i < |r| ==> r[i] == '_'
  {
    if IsAsciiAlnum(c) then [c] else if c as int >= 0x1_0000 then "__" else "_"
  }

  /** `title.replace(/[^a-z0-9]/gi, '_')`. */
  function ReplaceUnsafe(title: string): (r: string)
    ensures |r| == Utf16Length(title)
    ensures forall i :: 0 <= i < |r| ==> IsAsciiAlnum(r[i]) || r[i] == '_'
  {
    if |title| == 0 then "" else ReplaceUnsafeChar(title[0]) + ReplaceUnsafe(title[1..])
  }

  /** The download name: the sanitised title, lower-cased, plus `.ics`. On
      the ASCII text the replacement leaves, `toLowerCase` is ASCII
      lower-casing. */
  function FileName(title: string): string {
    ToLowerAscii(ReplaceUnsafe(title)) + ".ics"
  }

  predicate IsFileNameChar(c: char) {
    IsAsciiLower(c) || IsDigit(c) || c == '_'
  }

  /** The name is as long, in code units, as the title plus four; before
      `.ics` it has only lower-case letters, digits and `_`. */
  lemma FileNameShape(title: string)
    ensures var f := FileName(title);
      && |f| == Utf16Length(title) + 4
      && f[|f| - 4..] == ".ics"
      && forall i :: 0 <= i < |f| - 4 ==> IsFileNameChar(f[i])
  {
    var r := ReplaceUnsafe(title);
    var f := FileName(title);
    forall i | 0 <= i < |f| - 4
      ensures IsFileNameChar(f[i])
    {
      assert f[i] == LowerAscii(r[i]);
    }
  }

  /** Where the code units of `title[i]` start: the JavaScript length of
      the characters before it. */
  function UnitOffset(title: string, i: nat): nat
    requires i <= |title|
  {
    Utf16Length(title[..i])
  }

  /** The replacement works part by part. */
  lemma {:induction false} ReplaceUnsafeAppend(a: string, b: string)
    ensures ReplaceUnsafe(a + b) == ReplaceUnsafe(a) + ReplaceUnsafe(b)
    decreases |a|
  {
    if |a| == 0 {
      assert a + b == b;
    } else {
      var x := ReplaceUnsafeChar(a[0]);
      calc {
        ReplaceUnsafe(a + b);
        { assert (a + b)[0] == a[0] && (a + b)[1..] == a[1..] + b; }
        x + ReplaceUnsafe(a[1..] + b);
        { ReplaceUnsafeAppend(a[1..], b); }
        x + (ReplaceUnsafe(a[1..]) + ReplaceUnsafe(b));
        (x + ReplaceUnsafe(a[1..])) + ReplaceUnsafe(b);
        ReplaceUnsafe(a) + ReplaceUnsafe(b);
      }
    }
  }

  /** The code units of `title[i]` become its replacement, in place. */
  lemma ReplaceUnsafeAt(title: string, i: nat)
    requires i < |title|
    ensures var o, r := UnitOffset(title, i), ReplaceUnsafe(title);
      o + Utf16Units(title[i]) <= |r| && r[o..o + Utf16Units(title[i])] == ReplaceUnsafeChar(title[i])
  {
    ReplaceUnsafeSplit(title, i);
    SliceMiddle(ReplaceUnsafe(title[..i]), ReplaceUnsafeChar(title[i]), ReplaceUnsafe(title[i + 1..]));
  }

  lemma ReplaceUnsafeSplit(title: string, i: nat)
    requires i < |title|
    ensures ReplaceUnsafe(title)
         == ReplaceUnsafe(title[..i]) + (ReplaceUnsafeChar(title[i]) + ReplaceUnsafe(title[i + 1..]))
  {
    SplitAt(title, i);
    ReplaceUnsafeAppend(title[..i], [title[i]] + title[i + 1..]);
    ReplaceUnsafeCons(title[i], title[i + 1..]);
  }

  lemma SplitAt(s: string, i: nat)
    requires i < |s|
    ensures s == s[..i] + ([s[i]] + s[i + 1..])
  {
  }

  lemma ReplaceUnsafeCons(c: char, b: string)
    ensures ReplaceUnsafe([c] + b) == ReplaceUnsafeChar(c) + ReplaceUnsafe(b)
  {
    assert ([c] + b)[0] == c && ([c] + b)[1..] == b;
  }

  lemma SliceMiddle(x: string, y: string, z: string)
    ensures |x| + |y| <= |x + (y + z)| && (x + (y + z))[|x|..|x| + |y|] == y
  {
  }

  /** Every character of the title, in or outside the Basic Multilingual
      Plane, becomes its own run of code units in the name: itself
      lower-cased when it is an ASCII letter or digit, else one `_` per
      code unit. */
  lemma FileNamePerChar(title: string)
    ensures forall i :: 0 <= i < |title| ==>
      UnitOffset(title, i) + Utf16Units(title[i]) <= |FileName(title)| - 4
      && FileName(title)[UnitOffset(title, i)..UnitOffset(title, i) + Utf16Units(title[i])]
         == ToLowerAscii(ReplaceUnsafeChar(title[i]))
  {
    forall i | 0 <= i < |title|
      ensures UnitOffset(title, i) + Utf16Units(title[i]) <= |FileName(title)| - 4
      ensures FileName(title)[UnitOffset(title, i)..UnitOffset(title, i) + Utf16Units(title[i])]
              == ToLowerAscii(ReplaceUnsafeChar(title[i]))
    {
      ReplaceUnsafeAt(title, i);
      LowerSlice(ReplaceUnsafe(title), UnitOffset(title, i), Utf16Units(title[i]), ".ics");
    }
  }

  /** Lower-casing commutes with taking a slice. */
  lemma LowerSlice(r: string, o: nat, u: nat, tail: string)
    requires o + u <= |r|
    ensures o + u <= |ToLowerAscii(r) + tail| - |tail|
    ensures (ToLowerAscii(r) + tail)[o..o + u] == ToLowerAscii(r[o..o + u])
  {
    var x := ToLowerAscii(r);
    var a, b, c := x[o..o + u], ToLowerAscii(r[o..o + u]), r[o..o + u];
    assert (x + tail)[o..o + u] == a;
    forall j | 0 <= j < u
      ensures a[j] == b[j]
    {
      assert c[j] == r[o + j];
    }
  }

  /** For a title without characters outside the Basic Multilingual Plane
      the replacement maps character to character. */
  lemma {:induction false} FileNamePerCharBmp(title: string)
    requires forall i :: 0 <= i < |title| ==> title[i] as int < 0x1_0000
    ensures |ReplaceUnsafe(title)| == |title|
    ensures forall i :: 0 <= i < |title| ==>
      ReplaceUnsafe(title)[i] == if IsAsciiAlnum(title[i]) then title[i] else '_'
    decreases |title|
  {
    if |title| > 0 {
      FileNamePerCharBmp(title[1..]);
      var r := ReplaceUnsafe(title);
      assert r == ReplaceUnsafeChar(title[0]) + ReplaceUnsafe(title[1..]);
      assert forall i :: 1 <= i < |title| ==> title[i] == title[1..][i - 1];
    }
  }

  /** Sanitising the produced stem again changes nothing: the stem is a
      fixed point of the replacement and lower-casing. */
  lemma FileNameStable(title: string)
    ensures var stem := ToLowerAscii(ReplaceUnsafe(title));
      ToLowerAscii(ReplaceUnsafe(stem)) == stem
  {
    var stem := ToLowerAscii(ReplaceUnsafe(title));
    FileNameShape(title);
    assert forall i :: 0 <= i < |stem| ==> IsFileNameChar(stem[i]) by {
      forall i | 0 <= i < |stem|
        ensures IsFileNameChar(stem[i])
      {
        assert FileName(title)[i] == stem[i];
      }
    }
    FileNamePerCharBmp(stem);
  }

  /** `downloadICSFile` up to the download itself: the calendar it
      serialises and the name it offers the file under. */
  method DownloadICSFile(event: CalendarEvent) returns (calendar: ComponentValue, fileName: string)
    ensures calendar == ExportedCalendar(event)
    ensures fileName == FileName(event.title)
  {
    var descriptionText := ExportDescription(event.description);

    var vcalendar := new Component("vcalendar");
    vcalendar.AddPropertyWithValue("version", Text("2.0"));
    vcalendar.AddPropertyWithValue("prodid", Text("-//Long Toque Club//Event Calendar//EN"));
    vcalendar.AddPropertyWithValue("calscale", Text("GREGORIAN"));
    vcalendar.AddPropertyWithValue("method", Text("PUBLISH"));
    assert vcalendar.properties == CalendarHeader();

    var vevent := new Component("vevent");
    SetEventProperties(vevent, Text(Uid(event.id)), Text(event.title), descriptionText,
                       if Falsy(event.location) then Undefined else Text(event.location.value),
                       TimeOf(event.start), TimeOf(event.end));
    vcalendar.AddSubcomponent(vevent);

    calendar := vcalendar.Snapshot();
    fileName := FileName(event.title);
  }

  /** What the export says about an event: its UID, title and description
      choice, and, for an event read from a feed with valid four-digit-year
      times, those very times. */
  lemma ExportedFields(event: CalendarEvent)
    ensures var ps := ExportedCalendar(event).subcomponents[0].properties;
      && PropertyValue(ps, "uid") == Some(Text(event.id + "@longtoque.club"))
      && PropertyValue(ps, "summary") == Some(Text(event.title))
      && PropertyValue(ps, "description") == Some(ExportDescription(event.description))
      && PropertyValue(ps, "dtstart") == Some(TimeOf(event.start))
      && PropertyValue(ps, "dtend") == Some(TimeOf(event.end))
      && PropertyValue(ps, "location") == Some(if Falsy(event.location) then Undefined else Text(event.location.value))
  {
    EventPropertiesLookup(Text(Uid(event.id)), Text(event.title), ExportDescription(event.description),
                          if Falsy(event.location) then Undefined else Text(event.location.value),
                          TimeOf(event.start), TimeOf(event.end));
  }

  /** Exporting an event read from a feed reproduces its times exactly when
      they have four-digit years. */
  lemma ExportKeepsTimes(e: RawEvent)
    requires IsComplete(e)
    requires Valid(e.startDate.value) && HasFourDigitYear(e.startDate.value)
    requires Valid(e.endDate.value) && HasFourDigitYear(e.endDate.value)
    ensures var ps := ExportedCalendar(ToCalendarEvent(e)).subcomponents[0].properties;
      && PropertyValue(ps, "dtstart") == Some(Time(e.startDate.value))
      && PropertyValue(ps, "dtend") == Some(Time(e.endDate.value))
  {
    var event := ToCalendarEvent(e);
    ExportedFields(event);
    ConvertedTimes(e);
  }
}
