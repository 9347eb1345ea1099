/**
 * The fixture tables and the deterministic departure generator used
 * when no live provider is at hand. The generator re-labels the three
 * fixture flights as departures from the requested airport and sends
 * them to three different other airports of a fixed pool.
 */
module MockData {
  import opened Wrappers
  import opened JsValues
  import opened Sequences
  import opened FlightApi
  import Enrichment

  /** A fixture airport; its coordinates (floating point) are not modelled. */
  datatype FixtureAirport = FixtureAirport(iata: string, name: string)

  const MockAirports: map<string, FixtureAirport> := map[
    "JFK" := FixtureAirport("JFK", "John F. Kennedy International"),
    "LHR" := FixtureAirport("LHR", "London Heathrow"),
    "LAX" := FixtureAirport("LAX", "Los Angeles International"),
    "CDG" := FixtureAirport("CDG", "Charles de Gaulle"),
    "SFO" := FixtureAirport("SFO", "San Francisco International")]

  function FixtureFlight(iata: string, icao: string, status: string, from: Endpoint, to: Endpoint, airline: string)
    : RawRecord
  {
    RawRecord(Some(FlightIds(Str(iata), Str(icao))), Str("2026-01-30"), Str(status),
      Some(from), Some(to), Some(AirlineInfo(Str(airline))))
  }

  const MockFlights: seq<RawRecord> := [
    FixtureFlight("BA123", "BAW123", "active",
      Endpoint(Str("London Heathrow"), Str("LHR"), Str("2026-01-30T10:00:00+00:00")),
      Endpoint(Str("John F. Kennedy International"), Str("JFK"), Str("2026-01-30T13:00:00+00:00")),
      "British Airways"),
    FixtureFlight("AA456", "AAL456", "scheduled",
      Endpoint(Str("John F. Kennedy International"), Str("JFK"), Str("2026-01-30T15:00:00+00:00")),
      Endpoint(Str("Los Angeles International"), Str("LAX"), Str("2026-01-30T18:00:00+00:00")),
      "American Airlines"),
    FixtureFlight("AF789", "AFR789", "landed",
      Endpoint(Str("Charles de Gaulle"), Str("CDG"), Str("2026-01-30T08:00:00+00:00")),
      Endpoint(Str("London Heathrow"), Str("LHR"), Str("2026-01-30T09:15:00+00:00")),
      "Air France")]

  /** The airports a generated flight may arrive at, in the order they are handed out. */
  const DestinationPool: seq<string> := ["LAX", "SFO", "LHR", "CDG", "JFK"]

  /** `s.filter(code => code !== x)`. */
  function Without(s: seq<string>, x: string): (r: seq<string>)
    ensures forall c :: c in r <==> c in s && c != x
    ensures x !in s ==> r == s
    ensures NoDuplicates(s) ==> NoDuplicates(r) && |r| >= |s| - 1
    ensures NoDuplicates(s) && x in s ==> r == s[..FirstIndex(s, x)] + s[FirstIndex(s, x) + 1..]
  {
    if |s| == 0 then []
    else
      var rest := Without(s[1..], x);
      if s[0] == x then
        assert NoDuplicates(s) ==> x !in s[1..] && NoDuplicates(s[1..]);
        rest
      else
        var r := [s[0]] + rest;
        assert NoDuplicates(s) && x in s ==> r == s[..FirstIndex(s, x)] + s[FirstIndex(s, x) + 1..] by {
          if NoDuplicates(s) && x in s {
            DropAfterHead(s, x);
          }
        }
        assert NoDuplicates(s) ==> NoDuplicates(r) by {
          if NoDuplicates(s) {
            assert s[0] !in s[1..] && NoDuplicates(s[1..]);
            ConsNoDuplicates(s[0], rest);
          }
        }
        r
  }

  /** Putting a new value in front of a duplicate-free list keeps it duplicate-free. */
  lemma ConsNoDuplicates(h: string, rest: seq<string>)
    requires h !in rest && NoDuplicates(rest)
    ensures NoDuplicates([h] + rest)
  {
    var r := [h] + rest;
    assert forall j :: 1 <= j < |r| ==> r[j] == rest[j - 1] && r[j] in rest;
  }

  /** Dropping the first `x` from a list whose head is not `x` keeps the head in front. */
  lemma DropAfterHead(s: seq<string>, x: string)
    requires |s| > 0 && s[0] != x && x in s
    ensures x in s[1..] && FirstIndex(s, x) == FirstIndex(s[1..], x) + 1
    ensures [s[0]] + (s[1..][..FirstIndex(s[1..], x)] + s[1..][FirstIndex(s[1..], x) + 1..])
      == s[..FirstIndex(s, x)] + s[FirstIndex(s, x) + 1..]
  {
    var t := s[1..];
    assert x in t;
    var k := FirstIndex(t, x);
    assert s[..k + 1] == [s[0]] + t[..k];
    assert s[k + 2..] == t[k + 1..];
  }

  /** `mockAirports[code]?.name || fallback`. */
  function FixtureName(code: string, fallback: string): (r: string)
    ensures code !in MockAirports ==> r == fallback
  {
    match Get(MockAirports, code)
    case Some(a) => OrElse(Str(a.name), fallback)
    case None => fallback
  }

  /** The pool's codes are distinct, and each names a fixture airport. */
  lemma DestinationPoolFacts()
    ensures |DestinationPool| == 5
    ensures NoDuplicates(DestinationPool)
    ensures forall c :: c in DestinationPool ==> c in MockAirports
  {
    var pool := DestinationPool;
    assert pool[0][0] == 'L' && pool[1][0] == 'S' && pool[2][0] == 'L' && pool[3][0] == 'C' && pool[4][0] == 'J';
    assert pool[0][1] != pool[2][1];
  }

  /** The destinations handed out when departing from `iata`: the pool without `iata`. */
  function Destinations(iata: string): (r: seq<string>)
    ensures |r| >= 4
    ensures NoDuplicates(r)
    ensures forall c :: c in r ==> c != iata && c in MockAirports
  {
    DestinationPoolFacts();
    Without(DestinationPool, iata)
  }

  /** The `i`-th generated departure from `iata`, from the `i`-th fixture flight. */
  function MockDeparture(f: RawRecord, i: nat, iata: string): (r: RawRecord)
    requires f.departure.Some? && f.arrival.Some?
  {
    var to := Destinations(iata)[i % 4];
    f.(
      departure := Some(f.departure.value.(iata := Str(iata), airport := Str(FixtureName(iata, "Local Airport")))),
      arrival := Some(f.arrival.value.(iata := Str(to), airport := Str(FixtureName(to, "Destination Airport")))))
  }

  /** `getMockDepartures(iata)`. */
  function MockDepartures(iata: string): (r: seq<RawRecord>)
    ensures |r| == |MockFlights| == 3
    ensures forall i :: 0 <= i < |r| ==> Readable(r[i])
    ensures forall i :: 0 <= i < |r| ==>
      && r[i].departure.Some? && r[i].arrival.Some?
      && MockFlights[i].departure.Some? && MockFlights[i].arrival.Some?
      && r[i].flight == MockFlights[i].flight
      && r[i].flightDate == MockFlights[i].flightDate
      && r[i].flightStatus == MockFlights[i].flightStatus
      && r[i].airline == MockFlights[i].airline
      && r[i].departure.value.scheduled == MockFlights[i].departure.value.scheduled
      && r[i].arrival.value.scheduled == MockFlights[i].arrival.value.scheduled
    ensures forall i :: 0 <= i < |r| ==>
      && r[i].departure.Some?
      && r[i].departure.value.iata == Str(iata)
      && r[i].departure.value.airport == Str(FixtureName(iata, "Local Airport"))
  {
    assert forall i :: 0 <= i < |MockFlights| ==> Readable(MockFlights[i]);
    seq(|MockFlights|, i requires 0 <= i < |MockFlights| => MockDeparture(MockFlights[i], i, iata))
  }

  /** The `i`-th generated arrival goes to the `i`-th destination handed out, under its fixture name. */
  lemma MockDepartureArrival(iata: string, i: nat)
    requires i < 3
    ensures MockDepartures(iata)[i].arrival.Some?
    ensures MockDepartures(iata)[i].arrival.value.iata == Str(Destinations(iata)[i])
    ensures MockDepartures(iata)[i].arrival.value.airport == Str(FixtureName(Destinations(iata)[i], "Destination Airport"))
  {
    assert i % 4 == i;
    assert MockDepartures(iata)[i] == MockDeparture(MockFlights[i], i, iata);
  }

  /**
   * No generated flight arrives where it departs, the three arrival codes
   * are pairwise different, and each is a fixture airport whose name the
   * arrival carries, so the "Destination Airport" fallback never shows.
   */
  lemma MockArrivals(iata: string)
    ensures forall i :: 0 <= i < 3 ==> MockDepartures(iata)[i].arrival.value.iata != Str(iata)
    ensures forall i, j :: 0 <= i < j < 3 ==>
      MockDepartures(iata)[i].arrival.value.iata != MockDepartures(iata)[j].arrival.value.iata
    ensures forall i :: 0 <= i < 3 ==>
      && var code := MockDepartures(iata)[i].arrival.value.iata.s;
      && code in MockAirports
      && MockDepartures(iata)[i].arrival.value.airport == Str(MockAirports[code].name)
  {
    var d := Destinations(iata);
    forall i | 0 <= i < 3
      ensures MockDepartures(iata)[i].arrival.value.iata != Str(iata)
      ensures var code := MockDepartures(iata)[i].arrival.value.iata.s;
        && code in MockAirports
        && MockDepartures(iata)[i].arrival.value.airport == Str(MockAirports[code].name)
    {
      MockDepartureArrival(iata, i);
      assert d[i] in d;
      var c := MockArrival(iata, i);
    }
    forall i, j | 0 <= i < j < 3
      ensures MockDepartures(iata)[i].arrival.value.iata != MockDepartures(iata)[j].arrival.value.iata
    {
      MockDepartureArrival(iata, i);
      MockDepartureArrival(iata, j);
    }
  }

  /** Every fixture airport has a name, so `?.name || fallback` reads the name. */
  lemma FixtureNamesNonEmpty()
    ensures forall c :: c in MockAirports ==> MockAirports[c].name != ""
    ensures forall c :: c in MockAirports ==> FixtureName(c, "Destination Airport") == MockAirports[c].name
  {
  }

  /** A departure from a fixture airport carries the fixture's name; any other code gets "Local Airport". */
  lemma MockDepartureNames(iata: string)
    ensures iata in MockAirports ==>
      forall i :: 0 <= i < 3 ==> MockDepartures(iata)[i].departure.value.airport == Str(MockAirports[iata].name)
    ensures iata !in MockAirports ==>
      forall i :: 0 <= i < 3 ==> MockDepartures(iata)[i].departure.value.airport == Str("Local Airport")
  {
    FixtureNamesNonEmpty();
  }

  /** Fixture names hold no parenthesis and the pool's codes are non-empty and hold none either. */
  lemma FixtureTextsPlain()
    ensures forall c :: c in MockAirports ==> '(' !in MockAirports[c].name
    ensures forall c :: c in DestinationPool ==> c != [] && '(' !in c && ')' !in c
  {
    var names := ["John F. Kennedy International", "London Heathrow", "Los Angeles International",
      "Charles de Gaulle", "San Francisco International"];
    assert forall k :: 0 <= k < |names| ==> forall j :: 0 <= j < |names[k]| ==> names[k][j] != '(';
    assert forall c :: c in MockAirports ==> MockAirports[c].name in names;
  }

  /** The `i`-th arrival is a pool code labelled with its fixture name. */
  lemma MockArrival(iata: string, i: nat) returns (code: string)
    requires i < 3
    ensures MockDepartures(iata)[i].arrival.Some?
    ensures code in DestinationPool && code in MockAirports
    ensures MockDepartures(iata)[i].arrival.value.iata == Str(code)
    ensures MockDepartures(iata)[i].arrival.value.airport == Str(MockAirports[code].name)
  {
    var d := Destinations(iata);
    MockDepartureArrival(iata, i);
    code := d[i];
    assert code in d;
    DestinationPoolFacts();
    FixtureNamesNonEmpty();
  }

  /** The service label of an endpoint with a plain name and code parses back to the code. */
  lemma PlainLabelParses(e: Endpoint, name: string, code: string)
    requires e.airport == Str(name) && e.iata == Str(code)
    requires '(' !in name && code != [] && ')' !in code
    ensures Enrichment.ParseIata(EndpointLabel(e)) == Some(code)
  {
    Enrichment.ParseLabel(name, code);
  }

  /**
   * The airport search reads each generated departure's destination back
   * to the arrival code the generator chose.
   */
  lemma MockDestinationsParse(iata: string, i: nat, searched: string, parse: string -> Option<int>)
    requires i < 3
    ensures Readable(MockDepartures(iata)[i])
    ensures Enrichment.ParseIata(Normalize(MockDepartures(iata)[i], i, searched, parse).destination)
      == Some(MockDepartures(iata)[i].arrival.value.iata.s)
  {
    var r := MockDepartures(iata)[i];
    var code := MockArrival(iata, i);
    FixtureTextsPlain();
    var name := MockAirports[code].name;
    assert '(' !in name && code != [] && ')' !in code;
    PlainLabelParses(r.arrival.value, name, code);
  }
}
