# Long Toque site: event data, payload encoder and stage tabs

This project models the event-data path of the Long Toque club web site in
Dafny and proves properties about it:

- **Event helpers** (`src/utils/calendar.ts`):
  - recognising a `{body, link}` payload in an event description;
  - the fixed-width local time text `toLocalISOString`;
  - the completeness gate and field mapping that turn the calendar
    library's `VEVENT`s into site events;
  - the iCalendar export of one event, together with its UID and file name.
- **The `useCalendarEvents` hook** (`src/hooks/useCalendarEvents.ts`):
  - the public feed URL of a calendar;
  - the choice of at most ten upcoming events in start order;
  - the state one run of `fetchEvents` leaves behind.
- **The event creator page** (`app/event-creator/page.tsx`): the string
  `handleGenerate` writes, which is
  `btoa(unescape(encodeURIComponent(JSON.stringify({body, link}))))`.
- **The Stage section** (`app/components/Stage.tsx`): the `#stage-<id>` hash
  rule, tab clicks, and the find-or-first lookup of the tab to show. The
  menu links of `app/components/Navigation.tsx` that lead to a tab are
  modelled as the hashes they produce.

The JavaScript built-ins the core relies on are modelled from their
standards:

- `JSON.parse` as a recursive-descent reader of RFC 8259 (module `Json`).
- `JSON.stringify` of a string-valued object (module `Json`).
- `encodeURIComponent` as UTF-8 (RFC 3629) percent-encoding, and
  `unescape` (module `UriCoding`).
- `btoa` as the base64 of section 4 of RFC 4648 (module `Base64`).
- The UTF-8 codec itself (module `Utf8`).
- String helpers: `padStart`, `startsWith`, `replace`, `indexOf`,
  `toLowerCase` and number printing (module `JsStrings`).

Calls into code that is not part of the model become parameters:

- the iCalendar library's parse of a feed is `ical: string -> IcalResult`;
- `fetch` is `network: string -> FetchResult`;
- the clock, `new Date()`, is `now`: a local time to the second and the
  milliseconds past it;
- `window.location.hash` is the `locationHash` argument of
  `HandleHashChange`.

Where the source changes state step by step, the model does too:

- `Calendar.Component` is the iCalendar component that `downloadICSFile`
  builds call by call.
- `CalendarEvents.CalendarEventsHook` holds the hook's three state variables.
  Its `FetchEvents` follows the locals `icsData`, `calErr` and `err` of
  `fetchEvents`. It is proved equal to the pure `FetchOutcome`.
- `EventCreator.EventCreatorPage` holds the page's three fields.
- `Stage.StageSection` holds `activeTab`.

Two behaviours of the code are modelled as written, because they are what
the site does:

- **The encoder and the decoder disagree.** The page writes base64
  (`app/event-creator/page.tsx:18`). The decoder calls `JSON.parse` on the
  description directly (`src/utils/calendar.ts:21`). So a generated string,
  which always starts with `e`, is never recognised as a payload. The page's
  instruction at `app/event-creator/page.tsx:97` promises the opposite.
  `EventCreator.GeneratedStringNeverRecognised` proves this for every input.
  What the decoder does recognise is the plain JSON text
  (`Calendar.PayloadDecodes`).
- **A rejected `fetch` is not caught.** The request and `fetch` at
  `src/hooks/useCalendarEvents.ts:16-17` sit before the `try`. A rejected
  fetch therefore ends the run with `loading` still true and no error. There
  is no second, proxied attempt. `CalendarEvents.FetchOutcome` states
  `loading` iff the fetch was rejected.

The model also follows the code in these respects:

- The export sets no `DTSTAMP` or `STATUS`. It sets exactly `uid`,
  `summary`, `description`, `location`, `dtstart` and `dtend`, in that
  order.
- The description is never base64-decoded on the read side.

## Model

| member | source | states |
|---|---|---|
| Calendar.ParseEventDescription | src/utils/calendar.ts:17-30 | `null` for an absent or empty description; non-null exactly when the text is JSON whose `body` and `link` are truthy, and then it is the parsed value itself, extra keys and all; a `SyntaxError` or a `null` parse result gives `null`, never an exception |
| Calendar.PayloadParses | src/utils/calendar.ts:21 | `JSON.parse` of `JSON.stringify({body, link})` is the object with exactly those two string members, for any strings, empty ones included |
| Calendar.PayloadLookups | src/utils/calendar.ts:22 | in that object `.body` and `.link` read the two strings |
| Calendar.PayloadIsPayload | src/utils/calendar.ts:22 | that object passes the truthiness test exactly when both strings are non-empty |
| Calendar.RecognisedPayload | src/utils/calendar.ts:18-25 | a non-empty text that parses to the payload object is recognised exactly when both strings are non-empty, and the result is that object |
| Calendar.PayloadDecodes | src/utils/calendar.ts:17-30 | a written payload is recognised iff `body` and `link` are both non-empty, and then they read back as written |
| Calendar.UnparsedDescription | src/utils/calendar.ts:26-29 | a non-empty description that is no JSON is not recognised, and the export keeps it as it is |
| LocalTimes.InstantOrder | src/hooks/useCalendarEvents.ts:34-35 | the number standing for `getTime()` orders valid times chronologically and equal numbers mean equal times |
| LocalTimes.IsoIsFixedWidth | src/utils/calendar.ts:32-40 | for a four-digit year the text has 19 characters in the shape `DDDD-DD-DDTDD:DD:DD` |
| LocalTimes.DisplayShape | src/utils/calendar.ts:33-39 | the two-digit fields of the text are the month index plus one, the day, hours, minutes and seconds, and the year's two halves |
| LocalTimes.IsoDisplay | src/utils/calendar.ts:32-40 | the text of a valid time with a four-digit year is its nineteen digits and separators |
| LocalTimes.ParseLocalIso | src/hooks/useCalendarEvents.ts:34 | a text `new Date` accepts has the fixed shape and in-range fields (a day from 1 to 31 in every month), and the year is the text's first four digits while the month, day, hours, minutes and seconds are its later digit pairs |
| LocalTimes.IsoRoundTrip | src/utils/calendar.ts:32-40 | reading the fields back from the text gives the time that was printed |
| LocalTimes.IsoOrderIsChronological | src/utils/calendar.ts:32-40 | for four-digit years the string order of two texts is the chronological order of the times, and equal texts mean equal times |
| JsStrings.PadStart | src/utils/calendar.ts:34-38 | `padStart(2, '0')` gives the width, keeps the text at the end and fills in front |
| JsStrings.NatToStringValue | src/hooks/useCalendarEvents.ts:27 | the decimal text of a number reads back as that number, without leading zeros |
| Calendar.OrUndefined | src/utils/calendar.ts:62-63 | `s \|\| undefined` is present exactly for a non-empty text and then unchanged |
| Calendar.MapEvent | src/utils/calendar.ts:48-64 | the `map` callback returns an event exactly when UID, summary, start and end are all present and truthy |
| Calendar.MapEvents | src/utils/calendar.ts:47-65 | the `map` keeps length and position |
| Calendar.NonNull | src/utils/calendar.ts:66 | `filter(Boolean)` keeps exactly the non-null entries and is never longer |
| Calendar.ParseICSData | src/utils/calendar.ts:42-67 | the result is no longer than the `VEVENT` list, every kept event is the conversion of a complete one, and every complete one is kept |
| Calendar.NonNullMapped | src/utils/calendar.ts:47-66 | map-then-filter equals the conversion of the complete events, in order |
| Calendar.ParseICSDataIsFilterMap | src/utils/calendar.ts:47-66 | `parseICSData` keeps exactly the complete events in their order and converts each |
| Calendar.ParsedEventFields | src/utils/calendar.ts:57-63 | a kept event has `id` = UID and `title` = summary, both non-empty; location and description are the source's non-empty texts or absent; for valid times with four-digit years, start and end read back as the source's times |
| Calendar.ConvertedTimes | src/utils/calendar.ts:60-61 | the start and end texts read back as the source's fields for four-digit years |
| Calendar.ExportDescription | src/utils/calendar.ts:70-71 | the payload's `body` when the description is recognised, else the description, else the empty text |
| Calendar.PayloadExportsBody | src/utils/calendar.ts:70-71 | a written payload with non-empty strings exports its body |
| Calendar.Uid | src/utils/calendar.ts:81 | the UID is the event id followed by `@longtoque.club` |
| Calendar.UidInjective | src/utils/calendar.ts:81 | different ids give different UIDs |
| Calendar.FindProperty | src/utils/calendar.ts:81-86 | the index of the first property with a name, or none when no property has it |
| Calendar.UpdatedPropertiesLookup | src/utils/calendar.ts:81-86 | after an update the name reads the new value, other names read what they did, other properties stay, and the list grows only for a new name |
| Calendar.UpdateAbsent | src/utils/calendar.ts:81-86 | updating a name not yet present appends it |
| Calendar.Component.constructor | src/utils/calendar.ts:73 | a new component has its name and no properties or subcomponents |
| Calendar.Component.AddPropertyWithValue | src/utils/calendar.ts:74-77 | appends one property and changes nothing else |
| Calendar.Component.UpdatePropertyWithValue | src/utils/calendar.ts:81-86 | the event field setters: the properties become the updated list, nothing else changes |
| Calendar.Component.AddSubcomponent | src/utils/calendar.ts:87 | appends the event's component and changes nothing else |
| Calendar.SetEventProperties | src/utils/calendar.ts:79-86 | on a fresh `VEVENT` the six setters leave exactly `uid`, `summary`, `description`, `location`, `dtstart`, `dtend` in that order |
| Calendar.EventUpdates | src/utils/calendar.ts:81-86 | the six updates, as values, append in order because every name is new |
| Calendar.EventPropertiesLookup | src/utils/calendar.ts:81-86 | each of the six names reads the value set for it |
| Calendar.DownloadICSFile | src/utils/calendar.ts:69-95 | the calendar built step by step is the header plus the one exported event, and the file name is the sanitised title |
| Calendar.ExportedFields | src/utils/calendar.ts:70-86 | the exported event's UID, summary, description, location, start and end are the event's, as chosen at lines 71, 81-86 |
| Calendar.ExportKeepsTimes | src/utils/calendar.ts:85-86 | exporting an event read from a feed gives back exactly its start and end times, for four-digit years |
| Calendar.ReplaceUnsafeChar | src/utils/calendar.ts:95 | one replacement per UTF-16 code unit: an ASCII letter or digit is kept, any other character becomes `_` for each of its code units |
| Calendar.ReplaceUnsafe | src/utils/calendar.ts:95 | the replaced title is as long as the title in code units and holds only ASCII letters, digits and `_` |
| Calendar.FileNameShape | src/utils/calendar.ts:95 | the name is the title's code-unit length plus four, ends in `.ics`, and uses only `a-z`, `0-9` and `_` before it |
| Calendar.ReplaceUnsafeAppend | src/utils/calendar.ts:95 | the replacement of a concatenation is the concatenation of the replacements |
| Calendar.ReplaceUnsafeAt | src/utils/calendar.ts:95 | the code units of each title character are replaced, in place, by that character's replacement |
| Calendar.FileNamePerChar | src/utils/calendar.ts:95 | for every title, astral characters included, each character's code units in the name are that character lower-cased when it is an ASCII letter or digit, else one `_` per code unit |
| Calendar.FileNamePerCharBmp | src/utils/calendar.ts:95 | for a title inside the Basic Multilingual Plane the replacement maps position to position: kept or `_` |
| Calendar.FileNameStable | src/utils/calendar.ts:95 | an extra property, not a behaviour of the site: sanitising the produced stem (the name without `.ics`) again changes nothing |
| CalendarEvents.FeedUrl | src/hooks/useCalendarEvents.ts:15 | the URL is the fixed prefix, the encoded id and the fixed suffix |
| CalendarEvents.FeedIdIsOneSegment | src/hooks/useCalendarEvents.ts:15 | the encoded id contains no `/`, `?` or `#`, whatever the id |
| CalendarEvents.FeedUrlInjective | src/hooks/useCalendarEvents.ts:15 | different calendars have different feed URLs |
| UriCoding.EncodeURIComponent | src/hooks/useCalendarEvents.ts:15 | the encoding holds only unreserved characters and `%`, and a text of unreserved characters is left as it is |
| UriCoding.EncodeURIComponentInjective | src/hooks/useCalendarEvents.ts:15 | the encoding loses nothing |
| UriCoding.UnescapeEncoded | app/event-creator/page.tsx:18 | `unescape(encodeURIComponent(s))` is the binary string of the UTF-8 octets of `s` |
| CalendarEvents.Filter | src/hooks/useCalendarEvents.ts:34 | `filter` keeps each passing element exactly as often as it occurs and drops every other |
| CalendarEvents.FilterAppend | src/hooks/useCalendarEvents.ts:34 | `filter` keeps order: filtering a concatenation concatenates what each part keeps |
| CalendarEvents.FilterWithKey | src/hooks/useCalendarEvents.ts:34-35 | filtering and then taking the elements of one key equals taking them and then filtering, in order |
| CalendarEvents.FilterOfPassingKey | src/hooks/useCalendarEvents.ts:34 | when all elements of a key pass, the filter keeps all of them, in order |
| CalendarEvents.UpcomingBySecond | src/hooks/useCalendarEvents.ts:32-34 | against `new Date()` with milliseconds, a start (whole seconds) is upcoming exactly when it is a later second, or the same second with no milliseconds past it |
| CalendarEvents.Upcoming | src/hooks/useCalendarEvents.ts:34 | the filter keeps exactly the events that start now or later, each as often as it occurs |
| CalendarEvents.Insert | src/hooks/useCalendarEvents.ts:35 | insertion adds the element and loses none |
| CalendarEvents.InsertSorted | src/hooks/useCalendarEvents.ts:35 | insertion keeps a sorted list sorted |
| CalendarEvents.SortBy | src/hooks/useCalendarEvents.ts:35 | the sort is a permutation in ascending key order |
| CalendarEvents.SelectionShape | src/hooks/useCalendarEvents.ts:33-36 | every selected event is a parsed one starting now or later; the selection is in start order and has `min(10, upcoming)` events |
| CalendarEvents.SelectionIsEarliest | src/hooks/useCalendarEvents.ts:35-36 | an upcoming event left out is preceded by ten selected ones that start no later |
| CalendarEvents.InsertWithKey | src/hooks/useCalendarEvents.ts:35 | insertion puts the element among those of its key after none of them |
| CalendarEvents.SortIsStable | src/hooks/useCalendarEvents.ts:35 | the sort keeps the order of elements with equal keys |
| CalendarEvents.WithKeyOfPrefix | src/hooks/useCalendarEvents.ts:36 | `slice(0, n)` keeps a prefix of the elements of each key |
| CalendarEvents.SelectionIsStable | src/hooks/useCalendarEvents.ts:33-36 | the selected events with one start are a prefix, in parse order, of the parsed events with that start that are upcoming; when every start is a valid date and the start is no earlier than `now`, a prefix of all parsed events with that start |
| CalendarEvents.StartOrderIsTextOrder | src/hooks/useCalendarEvents.ts:34-35 | for starts written by the conversion, comparing dates is comparing texts, and a start is upcoming exactly when its text is later than the text of `now`'s second, or equal to it with no milliseconds past that second |
| CalendarEvents.FetchOutcome | src/hooks/useCalendarEvents.ts:10-52 | `loading` ends true iff the fetch was rejected; then the events stay and there is no error; any error comes with no events |
| CalendarEvents.HttpErrorOutcome | src/hooks/useCalendarEvents.ts:24-50 | a non-ok status `s` gives no events and the error `Unable to fetch calendar. Last error: HTTP s` |
| CalendarEvents.BodyReadFailsOutcome | src/hooks/useCalendarEvents.ts:30-50 | an ok response whose `text()` rejects gives that value's message and no events when it is truthy, else the old events and no error |
| CalendarEvents.EmptyBodyOutcome | src/hooks/useCalendarEvents.ts:24-50 | an ok empty body gives no events and the error ending in `Unknown error` |
| CalendarEvents.FeedOutcome | src/hooks/useCalendarEvents.ts:30-50 | for an ok feed: the selection when the library parses it; the message of a truthy thrown value and no events when it throws; the old events and no error when the thrown value is falsy |
| CalendarEvents.CalendarEventsHook.constructor | src/hooks/useCalendarEvents.ts:5-7 | no events, loading, no error |
| CalendarEvents.CalendarEventsHook.FetchEvents | src/hooks/useCalendarEvents.ts:10-52 | the state after a run is `FetchOutcome` of the state before |
| EventCreator.Generate | app/event-creator/page.tsx:13-18 | the generated string is the base64 of the UTF-8 of `{"body":…,"link":…}`, and `btoa` never throws on it |
| EventCreator.GeneratedShape | app/event-creator/page.tsx:18 | for `n` octets the string has `4 * ceil(n / 3)` characters from the base64 alphabet with at most two closing `=`, never fewer than four |
| EventCreator.EncodedShape | app/event-creator/page.tsx:18 | the same for the base64 of the UTF-8 of any non-empty text |
| EventCreator.GeneratedDecodes | app/event-creator/page.tsx:18 | base64-decoding and then UTF-8-decoding the string gives back the JSON text |
| EventCreator.GeneratedStringNeverRecognised | app/event-creator/page.tsx:17-19 | every generated string starts with `e`, is never recognised by the description decoder, and is exported as it is, contrary to the instruction at line 97 |
| EventCreator.BraceTextUnrecognised | src/utils/calendar.ts:20-29 | the base64 of any text starting with `{` is no JSON, so the decoder returns `null` |
| EventCreator.BraceStartsWithE | app/event-creator/page.tsx:18 | the base64 of the UTF-8 of a text starting with `{` starts with `e` |
| EventCreator.EventCreatorPage.constructor | app/event-creator/page.tsx:8-10 | all three fields start empty |
| EventCreator.EventCreatorPage.SetDescription | app/event-creator/page.tsx:45 | the description field takes the typed value; nothing else changes |
| EventCreator.EventCreatorPage.SetTicketLink | app/event-creator/page.tsx:62 | the ticket link field takes the typed value; nothing else changes |
| EventCreator.EventCreatorPage.HandleGenerate | app/event-creator/page.tsx:12-19 | the stored string is `Generate` of the two fields, and the results block shows after every click (line 73) |
| Utf8.DecodeEncode | app/event-creator/page.tsx:18 | strict UTF-8 decoding inverts the encoding |
| Base64.EncodeLength | app/event-creator/page.tsx:18 | `4 * ceil(n / 3)` characters for `n` octets |
| Base64.EncodeCharacters | app/event-creator/page.tsx:18 | alphabet characters with `(3 - n mod 3) mod 3` closing `=` |
| Base64.DecodeEncode | app/event-creator/page.tsx:18 | decoding inverts the encoding |
| Base64.Btoa | app/event-creator/page.tsx:18 | `btoa` succeeds exactly when every character is below U+0100 |
| Base64.BtoaByteString | app/event-creator/page.tsx:18 | `btoa` of a binary string is the encoding of its octets |
| Json.GetProperty | src/utils/calendar.ts:22 | reading a property throws exactly on `null`, and is found only in an object |
| Json.LastMember | src/utils/calendar.ts:22 | a key is found iff some member has it, and then with its last value |
| Json.ParseStringified | src/utils/calendar.ts:21 | `JSON.parse` of a stringified string-valued object gives back its members |
| Json.ParseRejectsStart | src/utils/calendar.ts:21 | a text whose first character starts no JSON value is a `SyntaxError` |
| Stage.TabIdsDistinct | app/components/Stage.tsx:27-93 | the three tab ids are distinct |
| Stage.HashTarget | app/components/Stage.tsx:11-13 | a tab is asked for exactly when the hash, past its first character `#`, starts with `stage-`, and the tab is the rest of it |
| Stage.FindTab | app/components/Stage.tsx:95 | `find` gives a tab with the id, present exactly when one exists |
| Stage.ResolveTab | app/components/Stage.tsx:95 | the tab shown is a tab; the one with the id when it exists, else the first |
| Stage.HashOf | app/components/Navigation.tsx:10 | the hash of an address is empty or starts with `#` |
| Stage.HashTargetOfStageHash | app/components/Stage.tsx:11-13 | the hash `#stage-<id>` asks for exactly `<id>` |
| Stage.SubsectionLinksResolve | app/components/Navigation.tsx:8-13 | following a tab's menu link selects that tab, and the fallback to the first tab never applies |
| Stage.StageSection.constructor | app/components/Stage.tsx:6 | the active tab starts as `didi` |
| Stage.StageSection.HandleHashChange | app/components/Stage.tsx:10-18 | a `#stage-` hash sets the active tab to its rest; any other hash leaves it |
| Stage.StageSection.ClickTab | app/components/Stage.tsx:110 | a click makes the tab's id active |
| Stage.InitialTabIsFirst | app/components/Stage.tsx:6-47 | initially the first tab shows, only its button is active, and its calendar `didi` is listed |
| Stage.UnknownTabShowsFirstUnhighlighted | app/components/Stage.tsx:95-133 | for an unknown id the first tab's content and its calendar `didi` show, while the shown tab's button is not the one styled active |
| Stage.KnownTabShowsItself | app/components/Stage.tsx:95-133 | for a known id exactly its button is active, its tab shows, and the calendar listed is that tab's own |

## Left out

- The iCalendar library (`./ical.js`) is not part of this model. Its parsing (line unfolding, text unescaping, date-time decoding) becomes the parameter `ical`, whose result is a list of `RawEvent` records with optional fields or a thrown value. The export's `toString` serialisation is not modelled: the export is the component value that would be serialised.
- Time zones and daylight saving time: a time is its local field tuple. `getTime()` stands as a number that grows with that tuple, which is all the filter and sort compare.
- `new Date(text)` accepts in the model only the `YYYY-MM-DDTHH:MM:SS` texts the site writes, with years 0000 to 9999. Expanded years and other date formats are not modelled; such a text is an invalid date, which the filter drops.
- LocalTimes.ParseLocalIso: accepts a day from 1 to 31 in every month, so a day past the end of its month (such as 31 February) is kept as a date of its own, ordered among the others by its fields. ECMAScript leaves such a text to the engine, which may reject it or roll it into the next month. The texts the site compares are written by `toLocalISOString` from real dates and never hold such a day.
- Strings are sequences of Unicode scalar values, so lone UTF-16 surrogates cannot occur. A lone surrogate escape in JSON or in `%uXXXX` becomes U+FFFD. For the same reason the `URIError` that `encodeURIComponent` throws on a lone surrogate cannot arise.
- JSON numbers keep their digit text. Their truthiness is "some non-zero digit", so the underflow of a huge negative exponent to zero is not modelled.
- `Array.prototype.sort` is the engine's algorithm. The model uses a stable insertion sort, as the standard requires the sort to be stable.
- Calendar.Component.AddSubcomponent: stores the event component as a value snapshot, not a shared reference. The event component is complete before it is added and is never changed after, so the two agree here.
- The `Blob`, the object URL and the DOM link that start the download (`src/utils/calendar.ts:91-99`) are I/O and not modelled. `DownloadICSFile` returns the calendar and the file name instead.
- `console.error`, `setTimeout`, `scrollIntoView`, the clipboard, and the registration and removal of the `hashchange` listener are I/O and not modelled.
- React scheduling: each `setState` is applied at once and in program order. The hook's effect re-running on a new `calendarId`, and overlapping runs, are not modelled.
- `window.location.hash` is taken as the text after navigation, without the percent-encoding a browser may apply to it.
- Tab images, body text and styling are presentation and not modelled, beyond whether a button is styled active.
