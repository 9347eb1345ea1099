/**
 * The flight-search service: the status table, the duration formatter,
 * the mapping of one upstream aviation record into the application's
 * flight shape, and the outcomes of a search response (thrown error,
 * empty list, or mapped list).
 *
 * The network call and `new Date(...)` are not modelled: the response is
 * a parameter, and date parsing is an abstract `parse` function giving
 * epoch milliseconds, or `None` for an unparseable string.
 */
module FlightApi {
  import opened Wrappers
  import opened Strings
  import opened JsValues

  // ---------------------------------------------------------------------
  // Upstream record shape (the subset of fields the service reads)

  datatype FlightIds = FlightIds(iata: Field, icao: Field)

  datatype Endpoint = Endpoint(airport: Field, iata: Field, scheduled: Field)

  datatype AirlineInfo = AirlineInfo(name: Field)

  /** One element of the provider's `data` array; each sub-object may be absent. */
  datatype RawRecord = RawRecord(
    flight: Option<FlightIds>,
    flightDate: Field,
    flightStatus: Field,
    departure: Option<Endpoint>,
    arrival: Option<Endpoint>,
    airline: Option<AirlineInfo>)

  /** The record has every sub-object the mapping dereferences. */
  predicate Readable(rec: RawRecord)
  {
    rec.flight.Some? && rec.departure.Some? && rec.arrival.Some? && rec.airline.Some?
  }

  /** The application's flight shape. */
  datatype Flight = Flight(
    id: nat,
    flightNumber: string,
    origin: string,
    destination: string,
    startTime: Field,
    endTime: Field,
    duration: string,
    status: Field,
    airline: Field)

  // ---------------------------------------------------------------------
  // Status table

  /** Provider status codes and the display text they map to. */
  const StatusDisplay: map<string, string> := map[
    "scheduled" := "On Time",
    "active" := "In Air",
    "landed" := "Landed",
    "cancelled" := "Cancelled",
    "incident" := "Incident",
    "diverted" := "Diverted"]

  /** `map[status] || status`: a known code becomes its display text, anything else passes through. */
  function MapStatus(status: Field): (r: Field)
    ensures status.Str? && status.s in StatusDisplay ==> r == Str(StatusDisplay[status.s])
    ensures !(status.Str? && status.s in StatusDisplay) ==> r == status
  {
    if status.Str? && status.s in StatusDisplay then Str(StatusDisplay[status.s]) else status
  }

  /** The six provider codes map to their display texts. */
  lemma MapStatusKnownCodes()
    ensures MapStatus(Str("scheduled")) == Str("On Time")
    ensures MapStatus(Str("active")) == Str("In Air")
    ensures MapStatus(Str("landed")) == Str("Landed")
    ensures MapStatus(Str("cancelled")) == Str("Cancelled")
    ensures MapStatus(Str("incident")) == Str("Incident")
    ensures MapStatus(Str("diverted")) == Str("Diverted")
  {
  }

  /**
   * The mapping is total and never invents a value: the result is either
   * a display text of the table or the input itself, and mapping an
   * already mapped status changes nothing (no display text is a code).
   */
  lemma MapStatusTotal(status: Field)
    ensures MapStatus(status) == status || MapStatus(status).s in StatusDisplay.Values
    ensures MapStatus(MapStatus(status)) == MapStatus(status)
  {
    if status.Str? && status.s in StatusDisplay {
      var d := StatusDisplay[status.s];
      assert d in StatusDisplay.Values;
      assert d !in StatusDisplay;
    }
  }

  // ---------------------------------------------------------------------
  // Duration

  const MsPerHour: int := 3600000
  const MsPerMinute: int := 60000

  /**
   * `Math.floor(diff / 3600000)` and `Math.floor((diff % 3600000) / 60000)`:
   * the hours round down, and the minutes are the whole minutes of the
   * remainder, which keeps the sign of the difference.
   */
  function DurationParts(diff: int): (p: (int, int))
    ensures p.0 * MsPerHour <= diff < p.0 * MsPerHour + MsPerHour
    ensures p.1 * MsPerMinute <= JsRem(diff, MsPerHour) < p.1 * MsPerMinute + MsPerMinute
    ensures -60 <= p.1 < 60
    ensures diff >= 0 ==> p.1 >= 0
  {
    (FloorDiv(diff, MsPerHour), FloorDiv(JsRem(diff, MsPerHour), MsPerMinute))
  }

  /** "{H}h {M}m". */
  function FormatDuration(hours: int, minutes: int): string
  {
    IntToString(hours) + "h " + IntToString(minutes) + "m"
  }

  /** Reads "{H}h {M}m" back into its hours and minutes. */
  function ReadDuration(s: string): Option<(int, int)>
  {
    var parts := Split(s, ' ');
    if |parts| == 2 && |parts[0]| > 0 && |parts[1]| > 0
       && parts[0][|parts[0]| - 1] == 'h' && parts[1][|parts[1]| - 1] == 'm'
    then
      match (ParseInt(parts[0][..|parts[0]| - 1]), ParseInt(parts[1][..|parts[1]| - 1]))
      case (Some(h), Some(m)) => Some((h, m))
      case _ => None
    else None
  }

  /** A rendered integer holds no space. */
  lemma IntToStringNoSpace(i: int)
    ensures ' ' !in IntToString(i)
  {
    var s := IntToString(i);
    if i < 0 {
      assert forall j :: 1 <= j < |s| ==> s[j] == s[1..][j - 1];
    }
  }

  /** The rendered duration reads back as the hours and minutes it was made from. */
  lemma FormatDurationRoundTrip(hours: int, minutes: int)
    ensures ReadDuration(FormatDuration(hours, minutes)) == Some((hours, minutes))
  {
    var h, m := IntToString(hours), IntToString(minutes);
    var a, b := h + "h", m + "m";
    IntToStringNoSpace(hours);
    IntToStringNoSpace(minutes);
    assert ' ' !in a && ' ' !in b;
    assert FormatDuration(hours, minutes) == a + [' '] + b;
    SplitAround(a, ' ', b);
    SplitNoSeparator(b, ' ');
    assert a[..|a| - 1] == h && b[..|b| - 1] == m;
    IntToStringRoundTrip(hours);
    IntToStringRoundTrip(minutes);
  }

  /**
   * `calculateDuration`: "N/A" when either timestamp is missing or
   * unparseable, otherwise "{H}h {M}m" for the difference end - start.
   */
  function Duration(start: Option<int>, end: Option<int>): (r: string)
    ensures r == "N/A" <==> start.None? || end.None?
    ensures start.Some? && end.Some? ==> ReadDuration(r) == Some(DurationParts(end.value - start.value))
    ensures start.Some? && end.Some? ==>
      ReadDuration(r).Some? && r == FormatDuration(ReadDuration(r).value.0, ReadDuration(r).value.1)
  {
    if start.None? || end.None? then "N/A"
    else
      var (h, m) := DurationParts(end.value - start.value);
      FormatDurationRoundTrip(h, m);
      FormatDuration(h, m)
  }

  /**
   * The two facts above pin the text exactly: it is the canonical
   * rendering of the hours and minutes DurationParts states.
   */
  lemma DurationCanonical(start: int, end: int)
    ensures Duration(Some(start), Some(end))
      == FormatDuration(DurationParts(end - start).0, DurationParts(end - start).1)
  {
    var r := Duration(Some(start), Some(end));
    var read := ReadDuration(r);
    assert read == Some(DurationParts(end - start));
    assert r == FormatDuration(read.value.0, read.value.1);
  }

  /** A whole number of hours, of either sign, reads "{H}h 0m" with H hours making up the difference. */
  lemma DurationWholeHours(diff: int)
    requires JsRem(diff, MsPerHour) == 0
    ensures var (h, m) := DurationParts(diff);
      h * MsPerHour == diff && m == 0
  {
  }

  /**
   * For a non-negative difference the parts are whole hours and the
   * remaining whole minutes: 0 <= M < 60 and H:M is the largest
   * hour-and-minute amount not exceeding the difference.
   */
  lemma DurationNonNegative(diff: int)
    requires diff >= 0
    ensures var (h, m) := DurationParts(diff);
      && h >= 0 && 0 <= m < 60
      && h * MsPerHour + m * MsPerMinute <= diff < h * MsPerHour + (m + 1) * MsPerMinute
  {
    var (h, m) := DurationParts(diff);
    var rem := JsRem(diff, MsPerHour);
    assert rem == diff - h * MsPerHour;
  }

  /**
   * A negative difference that is not a whole number of hours reads
   * 60 minutes more negative than it is: hours round down while the
   * minutes come from a remainder that keeps the sign of the difference.
   */
  lemma DurationNegativeSkew(diff: int)
    requires diff < 0 && JsRem(diff, MsPerHour) != 0
    ensures var (h, m) := DurationParts(diff);
      h * 60 + m == FloorDiv(diff, MsPerMinute) - 60
  {
    var (h, m) := DurationParts(diff);
    var q := TruncDiv(diff, MsPerHour);
    var rem := JsRem(diff, MsPerHour);
    assert diff == q * MsPerHour + rem;
    assert h == q - 1 by {
      assert (q - 1) * MsPerHour <= diff < q * MsPerHour;
    }
    var f := FloorDiv(diff, MsPerMinute);
    assert f == q * 60 + m by {
      assert m * MsPerMinute <= rem < (m + 1) * MsPerMinute;
      assert (q * 60 + m) * MsPerMinute <= diff < (q * 60 + m + 1) * MsPerMinute;
    }
  }

  /** Equal instants give "0h 0m"; a missing instant gives "N/A". */
  lemma DurationOfEqualInstants(t: int)
    ensures Duration(Some(t), Some(t)) == "0h 0m"
    ensures Duration(None, Some(t)) == "N/A"
  {
    assert DurationParts(0) == (0, 0);
    assert IntToString(0) == "0";
  }

  /** A six-hour flight reads "6h 0m". */
  lemma DurationOfSixHours(t: int)
    ensures Duration(Some(t), Some(t + 6 * MsPerHour)) == "6h 0m"
  {
    var d := 6 * MsPerHour;
    assert (t + d) - t == 21600000;
    assert DurationParts(21600000) == (6, 0);
    assert IntToString(6) == "6";
    assert IntToString(0) == "0";
  }

  /** An eight-and-a-half-hour flight reads "8h 30m". */
  lemma DurationOfEightAndAHalfHours(t: int)
    ensures Duration(Some(t), Some(t + 8 * MsPerHour + 30 * MsPerMinute)) == "8h 30m"
  {
    assert (t + 8 * MsPerHour + 30 * MsPerMinute) - t == 30600000;
    assert DurationParts(30600000) == (8, 30);
    assert IntToString(8) == "8";
    assert NatToString(3) == "3";
    assert IntToString(30) == "30";
  }

  /** One millisecond backwards reads "-1h -1m". */
  lemma DurationOfOneMillisecondBackwards(t: int)
    ensures Duration(Some(t), Some(t - 1)) == "-1h -1m"
  {
    assert (t - 1) - t == -1;
    assert JsRem(-1, MsPerHour) == -1;
    assert DurationParts(-1) == (-1, -1);
    assert IntToString(-1) == "-1";
  }

  // ---------------------------------------------------------------------
  // Record -> flight

  /** A timestamp field as an instant: falsy fields and unparseable strings give `None`. */
  function Instant(f: Field, parse: string -> Option<int>): (r: Option<int>)
    ensures !Truthy(f) ==> r.None?
    ensures Truthy(f) ==> r == parse(f.s)
  {
    if Truthy(f) then parse(f.s) else None
  }

  /** The label template `${airport} (${iata})` over plain texts. */
  function Label(name: string, code: string): string
  {
    name + " (" + code + ")"
  }

  /** `${airport} (${iata})`, each field interpolated as JavaScript does. */
  function EndpointLabel(e: Endpoint): string
  {
    Label(Interpolate(e.airport), Interpolate(e.iata))
  }

  /** `iata || icao || searched`. */
  function ResolveFlightNumber(ids: FlightIds, searched: string): (r: string)
    ensures Truthy(ids.iata) ==> r == ids.iata.s
    ensures !Truthy(ids.iata) && Truthy(ids.icao) ==> r == ids.icao.s
    ensures !Truthy(ids.iata) && !Truthy(ids.icao) ==> r == searched
  {
    if Truthy(ids.iata) then ids.iata.s else OrElse(ids.icao, searched)
  }

  /** Maps the record at position `index` of a batch searched for `searched`. */
  function Normalize(rec: RawRecord, index: nat, searched: string, parse: string -> Option<int>): (r: Flight)
    requires Readable(rec)
    ensures r.id == index
    ensures r.flightNumber == ResolveFlightNumber(rec.flight.value, searched)
    ensures r.origin == EndpointLabel(rec.departure.value)
    ensures r.destination == EndpointLabel(rec.arrival.value)
    ensures r.startTime == rec.departure.value.scheduled && r.endTime == rec.arrival.value.scheduled
    ensures r.duration == Duration(Instant(r.startTime, parse), Instant(r.endTime, parse))
    ensures r.status == MapStatus(rec.flightStatus)
    ensures r.airline == rec.airline.value.name
  {
    var dep := rec.departure.value;
    var arr := rec.arrival.value;
    Flight(
      index,
      ResolveFlightNumber(rec.flight.value, searched),
      EndpointLabel(dep),
      EndpointLabel(arr),
      dep.scheduled,
      arr.scheduled,
      Duration(Instant(dep.scheduled, parse), Instant(arr.scheduled, parse)),
      MapStatus(rec.flightStatus),
      rec.airline.value.name)
  }

  // ---------------------------------------------------------------------
  // Response outcomes

  datatype ProviderError = ProviderError(info: Field)

  /** The decoded JSON body: an optional `error` object and an optional `data` array. */
  datatype ResponseBody = ResponseBody(error: Option<ProviderError>, data: Option<seq<RawRecord>>)

  /** A fetch response; `body` is `None` when `response.json()` rejects. */
  datatype Response = Response(ok: bool, statusText: string, body: Option<ResponseBody>)

  /** Why `searchFlight` throws. */
  datatype SearchError =
    | MissingApiKey
    | HttpFailure(statusText: string)
    | InvalidJson
    | ProviderFailure(message: string)
    | MalformedRecord(index: nat)

  const MissingKeyMessage: string := "API Key is missing. Please set VITE_AVIATION_STACK_KEY in .env"
  const DefaultProviderMessage: string := "API returned an error"

  /** The message of the thrown Error, where the service composes it (not for engine TypeErrors). */
  function ErrorMessage(e: SearchError): (r: Option<string>)
    ensures r.None? <==> e.InvalidJson? || e.MalformedRecord?
    ensures e.MissingApiKey? ==> r == Some(MissingKeyMessage)
    ensures e.HttpFailure? ==> r == Some("API Error: " + e.statusText)
    ensures e.ProviderFailure? ==> r == Some(e.message)
  {
    match e
    case MissingApiKey => Some(MissingKeyMessage)
    case HttpFailure(t) => Some("API Error: " + t)
    case ProviderFailure(m) => Some(m)
    case InvalidJson => None
    case MalformedRecord(_) => None
  }

  /** Position of the first record lacking a sub-object, at or after `from`. */
  function FirstUnreadable(recs: seq<RawRecord>, from: nat): (r: Option<nat>)
    decreases |recs| - from
    ensures r.Some? ==> from <= r.value < |recs| && !Readable(recs[r.value])
    ensures r.Some? ==> forall j :: from <= j < r.value ==> Readable(recs[j])
    ensures r.None? ==> forall j :: from <= j < |recs| ==> Readable(recs[j])
  {
    if from >= |recs| then None
    else if !Readable(recs[from]) then Some(from)
    else FirstUnreadable(recs, from + 1)
  }

  /** `data.map((flight, index) => ...)`. */
  function NormalizeBatch(recs: seq<RawRecord>, searched: string, parse: string -> Option<int>): (r: seq<Flight>)
    requires forall j :: 0 <= j < |recs| ==> Readable(recs[j])
    ensures |r| == |recs|
    ensures forall i :: 0 <= i < |r| ==> r[i] == Normalize(recs[i], i, searched, parse) && r[i].id == i
  {
    seq(|recs|, i requires 0 <= i < |recs| => Normalize(recs[i], i, searched, parse))
  }

  /**
   * `searchFlight(searched)` against a given response. The key check comes
   * first, then the HTTP status, the JSON decoding, the provider's error
   * object, and finally the data array: missing or empty data is an empty
   * list, and a record lacking a sub-object makes the mapping throw.
   */
  function SearchFlight(searched: string, apiKey: Field, response: Response, parse: string -> Option<int>)
    : (r: Result<seq<Flight>, SearchError>)
    ensures !Truthy(apiKey) ==> r == Failure(MissingApiKey)
    ensures Truthy(apiKey) && !response.ok ==> r == Failure(HttpFailure(response.statusText))
    ensures Truthy(apiKey) && response.ok && response.body.None? ==> r == Failure(InvalidJson)
    ensures Truthy(apiKey) && response.ok && response.body.Some? && response.body.value.error.Some? ==>
      r == Failure(ProviderFailure(OrElse(response.body.value.error.value.info, DefaultProviderMessage)))
    ensures (Truthy(apiKey) && response.ok && response.body.Some? && response.body.value.error.None?
             && (response.body.value.data.None? || response.body.value.data.value == [])) ==> r == Success([])
    ensures r.Failure? && r.error.MalformedRecord? ==>
      && response.body.Some? && response.body.value.data.Some?
      && var recs := response.body.value.data.value;
      && r.error.index < |recs| && !Readable(recs[r.error.index])
      && forall j :: 0 <= j < r.error.index ==> Readable(recs[j])
    ensures Truthy(apiKey) && response.ok && response.body.Some? && response.body.value.error.None?
            && response.body.value.data.Some? ==>
      && var recs := response.body.value.data.value;
      && ((forall j :: 0 <= j < |recs| ==> Readable(recs[j])) ==> r.Success?)
      && ((exists j :: 0 <= j < |recs| && !Readable(recs[j])) ==> r.Failure? && r.error.MalformedRecord?)
    ensures r.Success? && response.body.Some? && response.body.value.data.Some? ==>
      && var recs := response.body.value.data.value;
      && |r.value| == |recs|
      && forall i :: 0 <= i < |recs| ==> Readable(recs[i]) && r.value[i] == Normalize(recs[i], i, searched, parse)
  {
    if !Truthy(apiKey) then Failure(MissingApiKey)
    else if !response.ok then Failure(HttpFailure(response.statusText))
    else if response.body.None? then Failure(InvalidJson)
    else
      var body := response.body.value;
      if body.error.Some? then Failure(ProviderFailure(OrElse(body.error.value.info, DefaultProviderMessage)))
      else if body.data.None? || |body.data.value| == 0 then Success([])
      else
        var recs := body.data.value;
        match FirstUnreadable(recs, 0)
        case Some(k) => Failure(MalformedRecord(k))
        case None => Success(NormalizeBatch(recs, searched, parse))
  }

  /** The record of the first service test: an active American Airlines flight from JFK to LAX. */
  function SampleRecord(): RawRecord
  {
    RawRecord(
      Some(FlightIds(Str("AA123"), Undefined)), Undefined, Str("active"),
      Some(Endpoint(Str("JFK"), Str("JFK"), Str("2026-01-30T10:00:00Z"))),
      Some(Endpoint(Str("LAX"), Str("LAX"), Str("2026-01-30T16:00:00Z"))),
      Some(AirlineInfo(Str("American Airlines"))))
  }

  /** The first service test: the sample record maps to the expected flight. */
  lemma NormalizeSample(parse: string -> Option<int>, t: int)
    requires parse("2026-01-30T10:00:00Z") == Some(t)
    requires parse("2026-01-30T16:00:00Z") == Some(t + 6 * MsPerHour)
    ensures Normalize(SampleRecord(), 0, "AA123", parse)
      == Flight(0, "AA123", "JFK (JFK)", "LAX (LAX)",
                Str("2026-01-30T10:00:00Z"), Str("2026-01-30T16:00:00Z"),
                "6h 0m", Str("In Air"), Str("American Airlines"))
  {
    SampleDuration(parse, t);
    SampleLabels();
  }

  lemma SampleDuration(parse: string -> Option<int>, t: int)
    requires parse("2026-01-30T10:00:00Z") == Some(t)
    requires parse("2026-01-30T16:00:00Z") == Some(t + 6 * MsPerHour)
    ensures Normalize(SampleRecord(), 0, "AA123", parse).duration == "6h 0m"
  {
    DurationOfSixHours(t);
  }

  lemma SampleLabels()
    ensures EndpointLabel(SampleRecord().departure.value) == "JFK (JFK)"
    ensures EndpointLabel(SampleRecord().arrival.value) == "LAX (LAX)"
  {
  }

  /** The first service test end to end: a one-record response yields exactly that flight. */
  lemma SearchFlightMapsSample(parse: string -> Option<int>, t: int)
    requires parse("2026-01-30T10:00:00Z") == Some(t)
    requires parse("2026-01-30T16:00:00Z") == Some(t + 6 * MsPerHour)
    ensures SearchFlight("AA123", Str("key"), Response(true, "OK", Some(ResponseBody(None, Some([SampleRecord()])))), parse)
      == Success([Flight(0, "AA123", "JFK (JFK)", "LAX (LAX)",
                         Str("2026-01-30T10:00:00Z"), Str("2026-01-30T16:00:00Z"),
                         "6h 0m", Str("In Air"), Str("American Airlines"))])
  {
    NormalizeSample(parse, t);
    var recs := [SampleRecord()];
    assert FirstUnreadable(recs, 0) == None;
    assert NormalizeBatch(recs, "AA123", parse) == [Normalize(SampleRecord(), 0, "AA123", parse)];
  }

  /** An empty data array and a provider error object. */
  lemma SearchFlightOutcomes(parse: string -> Option<int>)
    ensures SearchFlight("ZZ000", Str("key"), Response(true, "OK", Some(ResponseBody(None, Some([])))), parse)
      == Success([])
    ensures SearchFlight("ZZ000", Str("key"),
                         Response(true, "OK", Some(ResponseBody(Some(ProviderError(Str("quota exceeded"))), None))), parse)
      == Failure(ProviderFailure("quota exceeded"))
    ensures SearchFlight("ZZ000", Str("key"),
                         Response(true, "OK", Some(ResponseBody(Some(ProviderError(Undefined)), None))), parse)
      == Failure(ProviderFailure(DefaultProviderMessage))
    ensures SearchFlight("ZZ000", Str(""), Response(true, "OK", None), parse) == Failure(MissingApiKey)
  {
  }
}
