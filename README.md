# Rebble events: a Dafny model

This project models the core of the Rebble community events service.

- **Developer API.** It reads the `limit`, `start` and `end` query arguments into a window. A missing argument gets its default: 60 events, today, and six calendar months after today. Any argument that does not parse gives the client error 410. The API then selects the approved events overlapping the window, ordered by start date and cut at the limit. These become a JSON list or an RSS/Atom feed whose entries point at `…/community/events/#event-<id>`.
- **`feed_type` URL converter.** It maps the `atom` and `rss` path segments to the `FeedType` enumeration and back.
- **`validate_yaml.py`.** It checks every event and location record of the YAML data files. Key presence, value types, the event type, date order and coordinate bounds are each checked in that order, and the first failure ends the run.
- **`generate_json.py`.** It puts every event in one bucket per calendar month its dates touch, under a `YYYY-MM` key, and writes dates as ISO 8601 text.

## How it is modelled

- **Pure modules.**
  - `Decimal` is Python's `int()` on text and zero-padded formatting.
  - `Calendar` covers proleptic Gregorian dates in years 1 to 9999, the `relativedelta(months=n)` clamp, and `isoformat`.
  - `Window` is `strptime("%Y/%m/%d")` with CPython's own digit patterns, plus the argument handling.
  - `Selector` is the database query.
  - `FeedTypes` is the converter.
  - `ValidateYaml` holds the record checks. Each check returns an `Outcome`: `Accepted`, a deliberate `Exit(reason)` (`sys.exit`), or a `KeyError(key)` crash. The two failure kinds are kept apart.
- **Imperative parts.**
  - `Feed.FeedGenerator` is a class. `AddLink` appends a link. `AddEntry` puts the new entry in front, which is what feedgen's `add_entry` does by default (`order='prepend'`).
  - `Feed.UpcomingEventsFeed` fills it in a loop (`Feed.AddEntries`). The feed therefore holds the selected events last one first.
  - `ValidateYaml.ValidateEvents` and `ValidateYaml.ValidateLocations` loop over the loaded document.
  - `Bucketing.GenerateEvents` and `Bucketing.AddEvent` are the nested loops of `generate_events`, proved against the specification function `Bucketing.Bucketed`.
- **Records.** A YAML record is a sequence of key/value pairs in file order, with no key twice, like the dict `yaml.safe_load` builds. The order matters: the type check reports the first ill-typed key in iteration order.
- **Inputs passed in as parameters.** The clock (`today`), the event table (`store`), the configured developer URL and the URL the router builds for the feed route.

## Model

| member | source | states |
|---|---|---|
| Decimal.ParseInt | developer_api/api.py:73 | plain digit text reads as its decimal value; accepted text holds a digit, and a negative value a minus sign |
| Decimal.ParseIntOfString | developer_api/api.py:73 | `int()` reads back the decimal text of any integer |
| Decimal.ParseIntAlphabet | developer_api/api.py:73 | text `int()` accepts holds only whitespace, digits, a sign and underscores |
| Decimal.SeparatorNotStripped | developer_api/api.py:73 | only `\t\n\v\f\r` and space are stripped: `int("\x1c5")` is refused, while `" 5\n"` reads as 5 |
| Decimal.Pad | scripts/generate_json.py:41 | `%0wd` gives digits only, at least `w` of them, with the value `n` |
| Decimal.NatToString | developer_api/api.py:107 | `str(n)` of an id: at least one digit, digits only, no leading zero, and the digits read back as `n` |
| Calendar.DaysInMonth | developer_api/api.py:75 | months have 28 to 31 days, and 29 exactly for February of a leap year |
| Calendar.AddMonths | developer_api/api.py:75 | `+ relativedelta(months=n)` moves the month number by `n` and keeps the day, or clamps it to the month's last day; it fails exactly when the result passes year 9999 |
| Calendar.DateText | scripts/generate_json.py:11 | the `%Y`, `%m` and `%d` fields shared by `isoformat()` and `strftime("%Y/%m/%d")`: ten characters, the separator at offsets 4 and 7, the zero-padded year, month and day between |
| Calendar.IsoFormat | scripts/generate_json.py:11 | `isoformat()` text is ten characters with dashes at offsets 4 and 7; IsoRoundTrip reads it back as the date |
| Calendar.IsoRoundTrip | scripts/generate_json.py:10-11 | `isoformat()` gives 10 characters that parse back to the same date |
| Calendar.SixMonthsAfterMidAugust | developer_api/api.py:75 | 2024-08-15 gives 2025-02-15; 2023-08-31 is clamped to 2024-02-29 |
| Window.ParseSlashed | developer_api/api.py:74 | accepted text is 8 to 10 characters long, with four year digits holding the year, then `/` |
| Window.FormatSlashed | developer_api/api.py:74-75 | `strftime("%Y/%m/%d")` text is ten characters with slashes at offsets 4 and 7; SlashedRoundTrip reads it back as the date |
| Window.DefaultEnd | developer_api/api.py:75 | the default end exists exactly for dates before July 9999; it lies six calendar months later and keeps the day, or clamps it to a shorter month's last day |
| Window.SlashedRoundTrip | developer_api/api.py:74-75 | the default `strftime("%Y/%m/%d")` text is read back by `strptime` as the same date |
| Window.ParseWindow | developer_api/api.py:72-78 | the window parses exactly when every given argument parses and the default end exists; missing arguments take the defaults 60, today and today + 6 months; every failure is 410 |
| Window.DefaultWindow | developer_api/api.py:73-75 | with no arguments: limit 60, today to six months later |
| Window.NonIntegerLimitRejected | developer_api/api.py:73-78 | a non-integer limit gives 410 whatever the dates |
| Window.MalformedDatesRejected | developer_api/api.py:74-78 | dash-separated and non-existent dates are refused |
| Selector.Qualifying | developer_api/api.py:80 | exactly the store's approved events with `start <= end of window` and `end >= start of window` are kept |
| Selector.QualifyingCount | developer_api/api.py:80 | each qualifying event is kept as often as the store holds it, every other event not at all |
| Selector.Insert | developer_api/api.py:80 | inserting into a start-ordered list keeps it ordered and adds exactly the one event |
| Selector.SortByStart | developer_api/api.py:80 | `order_by(start_date.asc())` gives a start-ordered permutation |
| Selector.Select | developer_api/api.py:80 | every selected event qualifies, and the result is ordered by start date |
| Selector.Cut | developer_api/api.py:80 | `LIMIT` keeps `min(limit, n)` rows, or all when the limit is negative |
| Selector.SelectSize | developer_api/api.py:80 | the result is a sub-multiset of the qualifying events of size `min(limit, n)`, and all of them when the limit allows |
| Selector.SelectEarliest | developer_api/api.py:80 | no qualifying event left out starts before one that is kept |
| Selector.InvertedWindowCanMatch | developer_api/api.py:80 | the window is not required to be ordered: an event covering an inverted window matches |
| Selector.Overlaps | developer_api/api.py:80 | the overlap test `start_date <= end` and `end_date >= start`, both comparisons inclusive; OverlapsShareDay gives its meaning |
| Selector.OverlapsShareDay | developer_api/api.py:80 | for an ordered event and an ordered window, the test holds exactly when they have a day in common |
| Selector.Qualifies | developer_api/api.py:80 | the overlap test together with `approved == True`; Qualifying and QualifyingCount state what the filter keeps |
| Feed.EnvelopeFor | developer_api/api.py:113-116 | the RSS envelope exactly for `rss`, Atom otherwise |
| Feed.ContentType | developer_api/api.py:113-116 | `application/rss+xml` for RSS, `application/atom+xml` for Atom |
| Feed.EventUrlInjective | developer_api/api.py:107 | different event ids give different entry URLs |
| Feed.EventUrl | developer_api/api.py:107 | the URL is the developer URL and `/community/events/#event-` followed by `str(id)`: digits only, reading back as the id |
| Feed.Synopsis | developer_api/api.py:111 | the f-string of the entry description; SynopsisDates locates both dates in it |
| Feed.SynopsisFrame | developer_api/api.py:111 | the description opens with `Where? `, the location and `.\nWhen? `, and closes with a blank line and the event description |
| Feed.SynopsisDates | developer_api/api.py:111 | the entry description carries the start and end dates as ISO text at fixed offsets |
| Feed.FeedGenerator.constructor | developer_api/api.py:95 | a new feed has no links and no entries |
| Feed.FeedGenerator.AddLink | developer_api/api.py:99-101 | appends one link and changes nothing else |
| Feed.FeedGenerator.AddEntry | developer_api/api.py:106-111 | puts one entry in front of the earlier ones and changes nothing else |
| Feed.EntryFor | developer_api/api.py:107-111 | an entry's id and link are the same URL, under the developer URL and the `#event-` anchor, ending in the digits of the event id; the title is the event's and the description is its synopsis |
| Feed.AddEntries | developer_api/api.py:105-111 | after the loop the feed holds every selected event's entry, in reverse order, and nothing else of the feed changes |
| Feed.UpcomingEvents | developer_api/api.py:71-81 | a parse failure gives 410; otherwise the result is exactly the selection for the parsed window and limit, so the size and order facts of the selection hold for it |
| Feed.NewChannel | developer_api/api.py:95-102 | feed id, title, description, logo, language and the alternate and self links are set |
| Feed.UpcomingEventsFeed | developer_api/api.py:86-116 | 410 on a parse failure; otherwise status 200, the envelope and content type for the feed type, the fixed channel metadata, and one entry per selected event, last selected first |
| FeedTypes.ToPython | developer_api/__init__.py:20-25 | `atom` and `rss` convert to their members; every other segment is a validation error |
| FeedTypes.ValuesDistinct | developer_api/__init__.py:13-16 | the members' values differ (`@unique`) |
| FeedTypes.SegmentRoundTrip | developer_api/__init__.py:20-28 | `to_url(to_python(s)) == s` for an accepted segment |
| FeedTypes.ToUrl | developer_api/__init__.py:27-28 | a member is written as `atom` or `rss`, and `to_python(to_url(t)) == t` |
| ValidateYaml.Lookup | scripts/validate_yaml.py:26 | `key in record` is false exactly when no pair has the key |
| ValidateYaml.LookupAt | scripts/validate_yaml.py:29-30 | looking up the key of any pair of a record gives that pair's value |
| ValidateYaml.FirstMissing | scripts/validate_yaml.py:48-50 | none is reported exactly when all keys are present; otherwise the first absent key in list order |
| ValidateYaml.CheckTypes | scripts/validate_yaml.py:52-54 | accepted exactly when every value has its key's declared type; otherwise the first offending key decides: an undeclared key crashes with KeyError, a wrong type exits |
| ValidateYaml.CheckBounds | scripts/validate_yaml.py:62-64 | accepted exactly when every coordinate is within -180 to 180; otherwise the first failing coordinate in list order decides: a missing one crashes with KeyError, an out-of-range one exits |
| ValidateYaml.KindAt | scripts/validate_yaml.py:8-17 | in a well-typed record every declared key holds a value of its declared kind |
| ValidateYaml.CoordinateKinds | scripts/validate_yaml.py:16-17 | in a well-typed record latitude and longitude are floats where present |
| ValidateYaml.RequiredEventKeys | scripts/validate_yaml.py:48-50 | after the key check the type and both dates are present |
| ValidateYaml.EventFieldKinds | scripts/validate_yaml.py:52-54 | after the type check the event type is text and both dates are dates |
| ValidateYaml.ValidateEvent | scripts/validate_yaml.py:47-66 | each failure names its cause: a missing key is absent, a wrong type belongs to a present key, an unknown type is not one of the four, dates out of order are both present, an out-of-range coordinate is present; a KeyError is an undeclared key or a missing coordinate |
| ValidateYaml.ValidateLocation | scripts/validate_yaml.py:24-37 | each failure names its cause in the same way, and a location never exits for its type or dates |
| ValidateYaml.EventAcceptedExactly | scripts/validate_yaml.py:47-66 | an event is accepted exactly when all its keys are present, all values are well typed, its type is one of the four known types, the end is not before the start, and both coordinates are present and within bounds |
| ValidateYaml.LocationAcceptedExactly | scripts/validate_yaml.py:24-37 | a location is accepted exactly when its keys are present, its values are well typed and its coordinates are within bounds |
| ValidateYaml.MissingKeyReportedFirst | scripts/validate_yaml.py:48-50 | a missing required key is the reported failure, whatever else is wrong |
| ValidateYaml.TypeFailureReportedSecond | scripts/validate_yaml.py:52-54 | with all keys present, the first ill-typed pair is reported |
| ValidateYaml.UnknownTypeReportedThird | scripts/validate_yaml.py:56-57 | with keys and types passed, an unknown event type is reported, whatever the dates and coordinates |
| ValidateYaml.EndBeforeStartRefused | scripts/validate_yaml.py:59-60 | an otherwise valid event ending before it starts exits with that reason |
| ValidateYaml.MissingLatitudeCrashes | scripts/validate_yaml.py:62-63 | an otherwise valid event without a latitude crashes with KeyError, since the coordinates are not among the required event keys |
| ValidateYaml.LatitudeCheckedFirst | scripts/validate_yaml.py:62-64 | latitude is checked before longitude: an out-of-range latitude is reported whatever the longitude |
| ValidateYaml.ValidateEvents | scripts/validate_yaml.py:69-73 | an empty document or one whose every event is accepted is accepted; otherwise the outcome is that of the first event not accepted |
| ValidateYaml.ValidateLocations | scripts/validate_yaml.py:40-44 | the same for locations |
| Bucketing.IndexInjective | scripts/generate_json.py:38-39 | two months have the same calendar position exactly when they are equal |
| Bucketing.NextMonth | scripts/generate_json.py:48-52 | the intended step lands on the month with the next calendar position |
| Bucketing.MonthKey | scripts/generate_json.py:41 | a key is seven characters: four digits, a dash, two digits |
| Bucketing.MonthKeyShape | scripts/generate_json.py:41 | a bucket key is four year digits, a dash and two month digits, holding the year and the month |
| Bucketing.MonthKeyInjective | scripts/generate_json.py:41 | different months have different keys |
| Bucketing.Append | scripts/generate_json.py:43-46 | one event goes at the end of one bucket, the bucket is created if missing, and every other bucket is unchanged |
| Bucketing.AddSpan | scripts/generate_json.py:40-52 | the intended walk of one event; AddSpanGet and AddSpanKeys state what it adds |
| Bucketing.AddSpanStep | scripts/generate_json.py:40-52 | one loop turn appends to the current month and continues from the next |
| Bucketing.AddSpanGet | scripts/generate_json.py:40-54 | one event is appended exactly to the buckets of the months from its start month to its end month |
| Bucketing.AddSpanKeys | scripts/generate_json.py:43-46 | existing keys stay, buckets never shrink, and the only new keys are those of the walked months, with non-empty buckets |
| Bucketing.BucketedContents | scripts/generate_json.py:34-54 | every month's bucket holds exactly the events touching that month, in input order |
| Bucketing.Bucketed | scripts/generate_json.py:32-54 | every key is a month key, and no bucket is empty |
| Bucketing.BucketKeys | scripts/generate_json.py:41-46 | a month has a bucket exactly when some event touches it, and that bucket is the events touching it |
| Bucketing.CoveringMembers | scripts/generate_json.py:43-46 | a bucket holds only events of the input touching its month, and all of them |
| Bucketing.CoveringGrows | scripts/generate_json.py:46 | later events only extend a bucket; earlier contents keep their order |
| Bucketing.SingleMonthEvent | scripts/generate_json.py:40-54 | an event within one month is added to that month's bucket only |
| Bucketing.GenerateEvents | scripts/generate_json.py:32-54 | the dictionary built is empty for an empty file and otherwise the month bucketing of the events in input order |
| Bucketing.AddEvent | scripts/generate_json.py:38-54 | the inner loop adds one event to every month of its span |
| Bucketing.ShippedMonths | scripts/generate_json.py:38-54 | the shipped loop crashes exactly when the event touches a month other than its start month |
| Bucketing.RestartStep | scripts/generate_json.py:49-52 | the shipped step goes to the month after the start month, whatever the current month, and from December it leaves the calendar |
| Bucketing.ShippedAgreesOnSingleMonth | scripts/generate_json.py:48-54 | the shipped loop completes exactly for events within one month, and then fills the intended bucket |
| Bucketing.RestartStepStalls | scripts/generate_json.py:49-52 | the shipped step always restarts from the start month; from December it leaves the calendar |
| Bucketing.WinterEventBuckets | scripts/generate_json.py:38-54 | 2023-12-20 to 2024-02-05 crashes as shipped, and belongs to exactly the 2023-12, 2024-01 and 2024-02 buckets as intended |
| Bucketing.IsoEncode | scripts/generate_json.py:9-13 | the `default` hook returns ISO text that parses back for a date and raises TypeError for any other value; `json.dump` only calls it for values it cannot encode itself |

## Left out

- Flask routing, CORS, proxy handling, the heartbeat route, honeycomb/beeline tracing and the error handlers. These are framework plumbing; only the status codes 410 and 200 are modelled.
- The JSON body of `upcoming_events`: `Event.to_json` lives in `developer_api/models.py`, which is not part of this model. `Feed.UpcomingEvents` models the list of events it serialises.
- Event submission and approval (`submit_event`, `approve_event`), the empty `locations` route, the Discord announcement and `developer_api/settings.py`. They are outside the modelled core.
- Rendering of the RSS and Atom XML by `feedgen`. The model keeps the feed's fields and the chosen envelope.
- Selector.Cut: a negative limit is read as "no limit", as SQLite does. Other databases may reject it.
- Selector.Cut: a limit outside the signed 64-bit range makes the sqlite3 driver raise OverflowError, an unhandled server error; the model answers 200 with the cut list.
- Selector.SortByStart: ties between equal start dates are ordered as the insertion sort leaves them. The database leaves that order unspecified, so the properties do not depend on it.
- The clock, the event table, the configured developer URL and the URL `url_for` builds are parameters.
- Decimal.ParseInt: non-ASCII digits and Unicode whitespace, which Python's `int()` also accepts, are not modelled.
- Decimal.ParseInt: the limit of 4300 digits that CPython 3.11 and later put on `int()` of text is not modelled. Longer text raises ValueError there, which gives 410; the model reads it.
- Window.ParseSlashed: only ASCII digits are recognised, while CPython's `\d` also matches other Unicode digits. `strftime("%Y")` zero-padding for years below 1000 is platform-dependent; the model pads to four digits.
- Calendar.AddMonths: only the month shift of `relativedelta` is modelled, which is all the source uses.
- File reading, YAML parsing and JSON writing (`load_yaml_from_file`, `write_json_to_file`, `generate_locations`, `generate_404`, the `__main__` blocks). A loaded document is a parameter: `None` stands for an empty file.
- The key order in which `generate_events` writes its files. The bucket contents and keys are modelled, not the dictionary's insertion order.
- Bucketing.GenerateEvents: requires every event to carry both dates with the end month not before the start month, as validated data does. Without it the intended walk would not stop. As shipped, a missing date raises KeyError (`scripts/generate_json.py:36-39`), and any event whose end month differs from its start month raises AttributeError in the step (`scripts/generate_json.py:52`).
- Records with a repeated key: `yaml.safe_load` keeps the last value of the key. The model's records have distinct keys, which stand for the dict after loading.
- Float NaN and infinities in coordinates, and YAML values of kinds other than text, dates, booleans, floats and integers.
- Messages printed by the scripts. Only the outcome and the failing key or reason are kept.
- The `feed_type` converter is registered but the feed route's plain `<feed_type>` segment does not use it. The model keeps the two apart: the feed route takes any segment.

## Findings

| source | as written | input that shows it | evidently intended | confidence | as-written member | corrected member |
|---|---|---|---|---|---|---|
| scripts/generate_json.py:48-52 | the step compares the list `current_month` with `12`, which is never equal. It then reads `event.start_date`, but a YAML event is a dict, so this raises AttributeError. | an event from 2023-12-20 to 2024-02-05 | step from `current_month` to the next month, with December followed by January of the next year | not executed | Bucketing.ShippedMonths, Bucketing.WinterEventBuckets | Bucketing.NextMonth, Bucketing.BucketedContents |
