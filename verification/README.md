# Flight tracker core, modelled in Dafny

This project models the data-handling core of a small flight-tracking web
application. The application asks an aviation data provider for flights, maps
the provider's records to its own flight shape, decorates departures with
airport information for a map, and shows each flight as a card that links to
a Google Calendar event. The model covers four parts:

- **Flight service** (`flight_api.dfy`, module `FlightApi`). It covers:
  - the outcomes of `searchFlight`: missing key, HTTP failure, provider error, empty data, mapped list;
  - the record-to-flight mapping;
  - the status table `mapStatus`;
  - `calculateDuration`, which renders "{H}h {M}m".
- **Airport search handler** (`enrichment.dfy`, module `Enrichment`). This is `handleAirportSearch`:
  - it reads the origin's airport information cache-first;
  - it parses each destination's IATA code out of "Name (IATA)";
  - it deduplicates those codes in first-seen order and caps them at 10;
  - it resolves them against the cache and a lookup service;
  - it annotates every departure with its code, name and cached information.
- **Flight card** (`flight_card.dfy`, module `FlightCard`). It covers:
  - the calendar link, including the compacted timestamps in `dates`;
  - the airport code and city read back out of "Name (IATA)";
  - the airline caption, status text and status CSS class.
- **Mock departures** (`mock_data.dfy`, module `MockData`). These are the fixture tables and `getMockDepartures`.

Supporting modules model the JavaScript behaviour the code relies on:

- `Wrappers` has `Option` and `Result`.
- `Strings` models `indexOf`, `split`/`join`, `replace` with a string pattern, `trim`, ASCII `toLowerCase`, and decimal rendering of integers.
- `JsValues` models:
  - a JSON field that may be `undefined`, `null` or a string;
  - truthiness and `||`;
  - template interpolation;
  - `Math.floor` of a quotient;
  - the `%` operator, which truncates.
- `Sequences` models `[...new Set(xs)]` as first-occurrence deduplication.

Some parts of the program are taken as parameters:

- `Date` parsing is a function `string -> Option<int>` of milliseconds. `None` means the text does not parse.
- The airport lookup (`getAirportInfo`) is a function `string -> Option<Info>`. `Info` is left abstract, and `None` is a rejected lookup.
- `encodeURIComponent` is `string -> Option<string>`. `None` is the URIError it throws.
- `toLocaleDateString` is `string -> Option<string>`; `None` stands for a call that throws, which `formatDate` catches.
- The departures search (`searchFlightsByAirport`) enters the handler as its result: a list of flights or an error message.

One duration behaviour is modelled as the code has it. For a negative difference that is not a whole number of hours, the rendering reads 60 minutes more negative than the difference. The hours use `Math.floor`, but the minutes come from a remainder that keeps the sign of the difference. `DurationNegativeSkew` states this, and one millisecond backwards renders "-1h -1m".

## Model

| member | source | states |
|---|---|---|
| FlightApi.MapStatus | src/services/flightApi.js:54-65 | A known provider code becomes its display text; any other value is returned unchanged. |
| FlightApi.MapStatusKnownCodes | src/services/flightApi.js:56-63 | The six codes map to On Time, In Air, Landed, Cancelled, Incident and Diverted. |
| FlightApi.MapStatusTotal | src/services/flightApi.js:64 | The result is the input or a display text, and mapping twice equals mapping once. |
| FlightApi.DurationParts | src/services/flightApi.js:74-75 | H is the floor of the difference in hours. M is the whole minutes of the truncated remainder, so -60 <= M < 60, and M >= 0 for a non-negative difference. |
| FlightApi.FormatDurationRoundTrip | src/services/flightApi.js:76 | "{H}h {M}m" reads back as exactly H and M, for every pair of integers. |
| FlightApi.Duration | src/services/flightApi.js:67-77 | The result is "N/A" exactly when a timestamp is missing, empty or unparseable. Otherwise it is the canonical "{H}h {M}m" rendering (no leading zeros, no "-0") of the hours and minutes DurationParts states for end - start. |
| FlightApi.DurationCanonical | src/services/flightApi.js:74-76 | With both instants present, the text equals the rendering of DurationParts(end - start). |
| FlightApi.DurationWholeHours | src/services/flightApi.js:74-75 | A whole number of hours, of either sign, gives M = 0 and H hours equal to the difference, so -3600000 ms reads "-1h 0m". |
| FlightApi.DurationNonNegative | src/services/flightApi.js:74-76 | For a difference d >= 0: H >= 0, 0 <= M < 60, and H hours plus M minutes is the largest whole-minute amount not above d. |
| FlightApi.DurationNegativeSkew | src/services/flightApi.js:74-75 | For d < 0 and not a whole hour, 60*H + M is the floor of d in minutes, minus 60. |
| FlightApi.DurationOfEqualInstants | src/services/flightApi.js:68-76 | Equal instants give "0h 0m"; a missing start gives "N/A". |
| FlightApi.DurationOfSixHours | src/services/flightApi.test.js:36 | A six-hour difference reads "6h 0m". |
| FlightApi.DurationOfEightAndAHalfHours | src/services/flightApi.test.js:72 | An 8.5-hour difference reads "8h 30m". |
| FlightApi.DurationOfOneMillisecondBackwards | src/services/flightApi.js:74-76 | An end one millisecond before the start reads "-1h -1m". |
| FlightApi.Instant | src/services/flightApi.js:68-72 | A falsy timestamp has no instant; a present one is what the parser makes of it. |
| FlightApi.ResolveFlightNumber | src/services/flightApi.js:38 | The flight number is the IATA code, else the ICAO code, else the searched number. |
| FlightApi.Normalize | src/services/flightApi.js:36-46 | The mapped flight's fields, each in terms of the record: id is the position; origin and destination are "<airport> (<iata>)"; times are copied verbatim; duration, status and airline come from the record. |
| FlightApi.NormalizeBatch | src/services/flightApi.js:36-37 | Same length and order as the data array; element i is record i mapped with id i. |
| FlightApi.FirstUnreadable | src/services/flightApi.js:38-45 | Finds the first record that lacks a sub-object the mapping dereferences. |
| FlightApi.SearchFlight | src/services/flightApi.js:4-52 | The outcomes, in order: <ul><li>missing key;</li><li>non-ok status;</li><li>undecodable body;</li><li>provider error with `info` or the default message;</li><li>missing or empty data gives an empty list;</li><li>data holding an unreadable record fails the call, naming the first one;</li><li>all-readable data gives the mapped list, record i mapped with id i.</li></ul> |
| FlightApi.ErrorMessage | src/services/flightApi.js:4-29 | A missing key reads "API Key is missing. Please set VITE_AVIATION_STACK_KEY in .env"; a bad status reads "API Error: " + statusText; a provider error reads its message. Undecodable bodies and unreadable records are engine errors with no composed message. |
| FlightApi.NormalizeSample | src/services/flightApi.test.js:8-39 | The test record maps to AA123, "JFK (JFK)" to "LAX (LAX)", "6h 0m", In Air, American Airlines. |
| FlightApi.SearchFlightMapsSample | src/services/flightApi.test.js:26-39 | A response holding only that record yields exactly that flight. |
| FlightApi.SearchFlightOutcomes | src/services/flightApi.js:5-33 | Worked cases: <ul><li>empty data gives [];</li><li>an error with info reports the info;</li><li>an error without info reports "API returned an error";</li><li>an empty key fails first.</li></ul> |
| Enrichment.LeftmostGroup | src/App.jsx:59 | Finds the leftmost "(" followed by a non-empty, ")"-free run and a ")". |
| Enrichment.GroupEndUnique | src/App.jsx:59 | A group's closing parenthesis is determined by its opening one. |
| Enrichment.ParseIata | src/App.jsx:59-60 | A parsed code is non-empty and holds no ")"; ParseIataLeftmost states which code it is. |
| Enrichment.ParseIataLeftmost | src/App.jsx:59-60 | No code exactly when no "(…)" group with non-empty, ")"-free content occurs; otherwise the code is the content of the leftmost such group. |
| Enrichment.ParseLabel | src/App.jsx:81-83 | Round trip with the service's "Name (IATA)" label: the code and the name come back. |
| Enrichment.DestinationName | src/App.jsx:83 | The name is a prefix of the destination holding no " (" at any earlier position, and it is either the whole text or followed by " (". |
| Enrichment.ParsedCodes | src/App.jsx:57-61 | A code is in the list exactly when some flight's destination parses to it; unparseable ones are dropped. |
| Enrichment.ParsedCodesAppend | src/App.jsx:57-61 | The codes of two flight lists joined are the codes of the first followed by those of the second, so the list keeps flight order. |
| Enrichment.ParsedCodesOne | src/App.jsx:57-61 | One flight contributes its parsed code, or nothing when its destination does not parse. |
| Enrichment.UniqueDestinations | src/App.jsx:57-61 | The lookup list: <ul><li>is a prefix of the distinct codes in first-seen order;</li><li>has exactly min(10, number of distinct codes) codes;</li><li>has no duplicates;</li><li>holds only parsed codes;</li><li>holds every parsed code when there are at most 10 distinct ones.</li></ul> |
| Enrichment.UniqueDestinationsFirstSeen | src/App.jsx:57-61 | The list keeps first-seen order, and the cap keeps a prefix of that order. |
| Enrichment.ResolveAll | src/App.jsx:63-75 | The resolved cache: <ul><li>extends the cache it started from;</li><li>adds only successful lookups;</li><li>never looks up a cached code;</li><li>keeps going past failed lookups;</li><li>looks up each uncached code once.</li></ul> |
| Enrichment.ResolveOrigin | src/App.jsx:43-52 | A cached origin is read without a lookup; otherwise it is looked up once. A success is cached as the lookup returned it; a failure leaves the cache unchanged. No other entry is added. |
| Enrichment.Annotate | src/App.jsx:80-90 | Same length and order, every flight kept; adds the parsed code, the text before " (", and the cache entry or null. |
| Enrichment.ErrorText | src/App.jsx:94 | The error shown is the message when it is non-empty, and "An error occurred while fetching departures." when it is empty. |
| Enrichment.AirportSearch | src/App.jsx:34-98 | The corrected handler: <ul><li>the cache only grows, with successful lookups;</li><li>lookups are cache-first, and only failures repeat;</li><li>at most 11 lookups, each of the origin or of a listed code;</li><li>the origin's information is cached;</li><li>an error gives no flights.</li></ul> |
| Enrichment.LookupsRepeatOnlyFailures | src/App.jsx:66-75 | Assume the destination lookups are duplicate-free, and that a preceding origin lookup reappears among them only if it failed. Then the combined lookups repeat a code only after a failure. AirportSearch meets both assumptions: it resolves the list from the cache that already holds a successful origin. The as-written handler does not (AsWrittenFetchesOriginTwice). |
| Enrichment.AirportSearchCoordinates | src/App.jsx:80-90 | A flight whose code is on the lookup list gets coordinates exactly when the code was cached or its lookup succeeded. A flight whose code is neither listed nor the origin gets coordinates exactly when the cache already held them; this covers codes beyond the cap and unparseable destinations, read as "null". Any coordinates come from a prior cache entry or a lookup made in this search. |
| Enrichment.AirportSearchAsWritten | src/App.jsx:43-77 | The handler as written: the cache grows only by successful lookups and is read cache-first. |
| Enrichment.AsWrittenDropsOrigin | src/App.jsx:47-77 | As written, a freshly fetched origin that is not also a destination is missing from the final cache. |
| Enrichment.AsWrittenFetchesOriginTwice | src/App.jsx:46-69 | As written, an origin that is also a destination is looked up twice even when the first lookup succeeded. |
| Enrichment.ResolveAllAgreeAwayFrom | src/App.jsx:63-75 | Resolution from two caches that differ only at one key gives results that differ only at that key. |
| Enrichment.AsWrittenAgreesAwayFromOrigin | src/App.jsx:80-90 | The as-written and corrected handlers annotate every flight not bound for the origin identically. |
| Enrichment.LaxLaxCdgLookupList | src/App.jsx:57-61 | Destinations LAX, LAX, CDG give the lookup list [LAX, CDG]. |
| Enrichment.LaxCdgResolution | src/App.jsx:43-75 | From an empty cache, JFK, then LAX and CDG are each looked up once and cached. |
| Enrichment.ThreeDeparturesScenario | src/App.jsx:34-98 | A full search from JFK with three departures: lookups JFK, LAX, CDG; coordinates LAX, LAX, CDG. |
| FlightCard.CompactTimestamp | src/components/FlightCard.jsx:22-24 | The result: <ul><li>holds no "-", ":" or ".";</li><li>is a prefix of the input with "-" and ":" removed;</li><li>is all of that when there is no ".";</li><li>otherwise stops at the first ".".</li></ul> |
| FlightCard.CompactTimestampIdempotent | src/components/FlightCard.jsx:22-24 | Compacting twice equals compacting once. |
| FlightCard.CompactTimestampCutsFraction | src/components/FlightCard.jsx:23 | "head.tail" compacts to head with its "-" and ":" removed. |
| FlightCard.CalendarUrl | src/components/FlightCard.jsx:19-37 | The link is "#" exactly when a time is falsy or an encoding throws; otherwise it is the render URL with the query. |
| FlightCard.CalendarQueryParameters | src/components/FlightCard.jsx:33 | With "&"-free values, splitting the query at "&" gives back its five name=value pairs in order. |
| FlightCard.CalendarUrlParameters | src/components/FlightCard.jsx:27-33 | The link's query: <ul><li>title, details and location are as encoded;</li><li>dates is "<compact start>/<compact end>".</li></ul> |
| FlightCard.AirportCode | src/components/FlightCard.jsx:54 | "N/A" without "("; otherwise a code without "(". |
| FlightCard.City | src/components/FlightCard.jsx:55 | Never empty and holds no "("; it is "N/A" or the non-blank, trimmed text before the first "(". |
| FlightCard.RouteEndSegments | src/components/FlightCard.jsx:54-55 | After the first "(": the code is the segment up to any next "(" with its first ")" removed, and the city is the part before "(" trimmed. |
| FlightCard.RouteEndWithoutParenthesis | src/components/FlightCard.jsx:54-55 | Without "(", the code is "N/A" and the city is the whole text trimmed, or "N/A". |
| FlightCard.CardReadsLabel | src/components/FlightCard.jsx:54-55 | Round trip with "Name (IATA)": the code is IATA, and the city is trim(Name) or "N/A" when Name is blank. |
| FlightCard.CardAgreesWithSearch | src/components/FlightCard.jsx:69 | The card and the airport search read the same code from a service label. |
| FlightCard.AirlineCaption | src/components/FlightCard.jsx:48 | A truthy airline name is shown as is; a missing or empty one shows "Unknown Airline". |
| FlightCard.StatusText | src/components/FlightCard.jsx:49 | A truthy status is shown as is; a missing or empty one shows "Unknown". |
| FlightCard.StatusClass | src/components/FlightCard.jsx:49 | With s the status or "unknown": same length as s, and character i is "-" at the first space of s and s[i] lower-cased everywhere else. |
| FlightCard.StatusClassTwoWords | src/components/FlightCard.jsx:49 | A status "a b" whose first word has no space gets the class lower(a) + "-" + lower(b). |
| FlightCard.HyphenateTwoWords | src/components/FlightCard.jsx:49 | Only the first space is replaced: "a b" becomes "a-b" when a has no space. |
| FlightCard.StatusClassInAir | src/components/FlightCard.jsx:49 | "In Air" gives the class "in-air". |
| FlightCard.StatusClassOnTime | src/components/FlightCard.jsx:49 | "On Time" gives the class "on-time". |
| FlightCard.StatusClassLanded | src/components/FlightCard.jsx:49 | "Landed" gives the class "landed". |
| FlightCard.StatusClassMissing | src/components/FlightCard.jsx:49 | A missing status gives the class "unknown" and the text "Unknown". |
| FlightCard.DisplayTime | src/components/FlightCard.jsx:4-17 | A missing time shows "N/A"; a locale rendering that throws is caught and also shows "N/A"; otherwise the locale rendering is shown. |
| MockData.Without | src/services/mockData.js:92 | `filter(code => code !== iata)`: <ul><li>on a duplicate-free pool holding the argument, the result is the pool with that one element cut out, the rest in their order;</li><li>membership is the pool minus the argument;</li><li>without the argument the pool comes back unchanged;</li><li>at most one element of a duplicate-free pool is lost.</li></ul> |
| MockData.DestinationPoolFacts | src/services/mockData.js:92 | The five pool codes are distinct, and each is a fixture airport. |
| MockData.Destinations | src/services/mockData.js:92 | At least four codes, distinct, none equal to the argument, all fixture airports. |
| MockData.FixtureName | src/services/mockData.js:89-93 | An unknown code gives the fallback. |
| MockData.MockDepartures | src/services/mockData.js:85-96 | The generated records: <ul><li>there are three, in fixture order, all readable;</li><li>flight, date, status, airline and both times are copied;</li><li>the departure carries the argument and its fixture name.</li></ul> |
| MockData.MockArrivals | src/services/mockData.js:90-94 | No arrival equals the argument; the arrival codes are pairwise distinct; each is a fixture airport labelled with its fixture name. |
| MockData.FixtureNamesNonEmpty | src/services/mockData.js:52-83 | Every fixture name is non-empty, so the "|| fallback" reads the name. |
| MockData.MockDepartureNames | src/services/mockData.js:89 | The departure name is the fixture's name, or "Local Airport" for an unknown code. |
| MockData.MockArrival | src/services/mockData.js:92-93 | The i-th arrival is a pool code labelled with its fixture name. |
| MockData.MockDestinationsParse | src/services/mockData.js:85-96 | After mapping, the airport search parses each mock destination back to its arrival code. |
| Strings.SplitThenJoin | src/components/FlightCard.jsx:23 | Joining the pieces of a split gives the string back. |
| Strings.JoinThenSplit | src/components/FlightCard.jsx:33 | Splitting separator-free pieces after joining gives the pieces back. |
| Strings.Trim | src/components/FlightCard.jsx:55 | `trim` gives a slice with only white space around it and none at its ends. |
| Strings.IntToStringRoundTrip | src/services/flightApi.js:76 | Rendering an integer in decimal and parsing it back gives the integer. |
| Sequences.Distinct | src/App.jsx:57 | `[...new Set(xs)]`: no duplicates, same elements, no longer than the input. |
| Sequences.DistinctFirstSeenOrder | src/App.jsx:57 | Deduplication keeps the order in which values are first seen. |
| JsValues.JsRem | src/services/flightApi.js:75 | `%` takes the sign of the dividend: a == trunc(a/b)*b + r with abs(r) < b. |

## Left out

- `fetch`, the DEV/production URL switch, the proxy route and the environment variables. The API key is a parameter of `SearchFlight`.
- Console logging.
- Real `Date` parsing, `toLocaleDateString` and `encodeURIComponent`. They are parameters, as described above.
- Async ordering and React state updates. `AirportSearch` returns the state the handler leaves behind: flights, error, origin information and cache.
- The loading flags and `handleFlightSearch`.
- `searchFlightsByAirport` and `getAirportInfo`. Their source is not part of this model. The handler takes their results as parameters.
- The map component and its separate cap of 5 featured flights.
- The serverless `api/` handlers, the dev-server middleware and the form widgets.
- Airport coordinates and other floating-point data. `Info` is abstract, and fixture coordinates are omitted.
- The airport lookup is a pure function `lookup`, so two lookups of the same code always give the same outcome. In the program each `getAirportInfo` call is a network request that can fail once and succeed later, or the reverse. A repeated lookup happens in the corrected handler when a failed origin is also a listed destination. In the handler as written it happens at lines 46 and 69 of `src/App.jsx`. For such a repeat, AirportSearchCoordinates and AsWrittenFetchesOriginTwice assume the second call returns what the first did.
- FlightApi.DurationParts: `Date` values are IEEE doubles, while the model subtracts unbounded integers. The difference `endDate - startDate` is exact only when its magnitude is at most 2^53 ms. Beyond that, JavaScript rounds it first: start -8.64e15 and end 8.64e15 - 1 render "4800000000h 0m" there but "4799999999h 59m" here. The `parse` parameter is also unconstrained, while `Date` limits instants to ±8.64e15 ms.
- Property names inherited from `Object.prototype` (`"constructor"`, `"toString"`, ...) used as cache or fixture keys. In JavaScript they read an inherited value; here they read as absent.
- FlightApi.MapStatus: a provider status that names an inherited property (`"constructor"`, `"toString"`, ...) makes `map[status]` a function in JavaScript. Here the status passes through unchanged, and MapStatusTotal's "the input or a display text" holds only for the model.
- JavaScript strings are UTF-16 code units. Here a string is a sequence of Unicode scalar values, so lengths differ for characters outside the Basic Multilingual Plane, and a lone surrogate cannot be written down. A lone surrogate is the only input on which `encodeURIComponent` throws, so the `None` of the `encode` parameter stands for an input this string type cannot hold.
- `src/services/flightApi.js` as written does not parse: the `try {` at line 9 is closed at line 52 without a `catch` or `finally`, and the function opened at line 4 is never closed. The model follows the evident structure: an outer `try` around the inner one, with `mapStatus` and `calculateDuration` in scope of `searchFlight`.
- `toLowerCase` on non-ASCII letters. Only A-Z are lowered.
- Non-string truthy values (numbers, objects) in the provider's fields. A JSON field is undefined, null or a string.
- Flight.origin: the card's `?.` guard against an absent origin is not modelled, because the service always builds origin and destination as strings.
- FlightApi.MapStatus: a missing or null status stays as it is. The property lookup on the word "undefined" or "null" is not modelled; the table holds neither.

## Findings

| source | as written | input that shows it | evidently intended | confidence | as-written member | corrected member |
|---|---|---|---|---|---|---|
| src/App.jsx:63 | The destination map starts from `airportCache` as captured when the handler began. It then replaces the cache at line 77, which discards the origin entry queued at line 47. | Search from an uncached airport whose lookup succeeds and which is no destination: the origin is absent from the final cache. If the origin is also a destination, it is looked up a second time. | Start the destination map from the cache including the origin just fetched, so the origin is kept and never re-fetched. | not executed | Enrichment.AirportSearchAsWritten | Enrichment.AirportSearch |
