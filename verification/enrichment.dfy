/**
 * The airport-departures search handler of the application shell: resolve
 * the origin airport cache-first, take the departures list, collect the
 * distinct destination codes (at most ten), resolve them one by one
 * cache-first while tolerating failures, and annotate every flight with
 * its destination code, name and coordinates.
 *
 * Airport information is an opaque type parameter `Info`; the airport
 * lookup service is an oracle `lookup` whose `None` stands for a rejected
 * lookup. The departures search is given as its outcome.
 */
module Enrichment {
  import opened Wrappers
  import opened Strings
  import opened Sequences
  import opened FlightApi

  // ---------------------------------------------------------------------
  // Destination parsing

  /**
   * The regular expression `/\(([^)]+)\)/` matches `s[i..k+1]`: an opening
   * parenthesis at `i`, a closing one at `k`, and at least one character
   * between them, none of them a closing parenthesis.
   */
  predicate GroupAt(s: string, i: nat, k: nat)
  {
    i + 1 < k < |s| && s[i] == '(' && s[k] == ')' && forall j :: i < j < k ==> s[j] != ')'
  }

  /** The leftmost match at or after `from`, as the positions of its two parentheses. */
  function LeftmostGroup(s: string, from: nat): (r: Option<(nat, nat)>)
    decreases |s| - from
    ensures r.Some? ==> from <= r.value.0 && GroupAt(s, r.value.0, r.value.1)
    ensures r.Some? ==> forall i, k :: from <= i < r.value.0 ==> !GroupAt(s, i, k)
    ensures r.None? ==> forall i, k :: from <= i ==> !GroupAt(s, i, k)
  {
    if from >= |s| then None
    else if s[from] != '(' then LeftmostGroup(s, from + 1)
    else match IndexOfFrom(s, ')', from + 1)
      case Some(k) =>
        if k > from + 1 then Some((from, k))
        else
          assert forall k' :: !GroupAt(s, from, k') by {
            assert s[from + 1] == ')';
          }
          LeftmostGroup(s, from + 1)
      case None => LeftmostGroup(s, from + 1)
  }

  /** A match starting at a given parenthesis ends at one place only. */
  lemma GroupEndUnique(s: string, i: nat, k: nat, k': nat)
    requires GroupAt(s, i, k) && GroupAt(s, i, k')
    ensures k == k'
  {
    assert s[k] == ')' && s[k'] == ')';
  }

  /**
   * `match ? match[1] : null` for `destination.match(/\(([^)]+)\)/)`: the
   * content of the leftmost parenthesised group, or nothing when no group
   * matches.
   */
  function ParseIata(destination: string): (r: Option<string>)
    ensures r.Some? ==> r.value != [] && ')' !in r.value
  {
    match LeftmostGroup(destination, 0)
    case Some((i, k)) =>
      var code := destination[i + 1..k];
      assert forall j :: 0 <= j < |code| ==> code[j] != ')' by {
        forall j | 0 <= j < |code|
          ensures code[j] != ')'
        {
          assert code[j] == destination[i + 1 + j];
        }
      }
      Some(code)
    case None => None
  }

  /** `destination.split(' (')[0]`. */
  function DestinationName(destination: string): (r: string)
    ensures r <= destination
    ensures forall j :: 0 <= j < |r| ==> !OccursAt(destination, " (", j)
    ensures r == destination || OccursAt(destination, " (", |r|)
  {
    HeadBefore(destination, " (")
  }

  /**
   * Parsing inverts the service's label: for a name without "(" and a
   * non-empty code without ")", the code and the name come back.
   */
  lemma ParseLabel(name: string, code: string)
    requires '(' !in name && code != [] && ')' !in code
    ensures ParseIata(Label(name, code)) == Some(code)
    ensures DestinationName(Label(name, code)) == name
  {
    var s := Label(name, code);
    var i0 := |name| + 1;
    var k0 := |s| - 1;
    assert forall j :: 0 <= j < |name| ==> s[j] == name[j];
    assert s[|name|] == ' ' && s[i0] == '(';
    assert forall j :: i0 < j < k0 ==> s[j] == code[j - i0 - 1];
    assert GroupAt(s, i0, k0);
    var r := LeftmostGroup(s, 0);
    assert r.Some?;
    var (i, k) := r.value;
    assert i == i0 by {
      assert s[i] == '(';
      assert i >= i0;
    }
    GroupEndUnique(s, i0, k, k0);
    assert s[i0 + 1..k0] == code;
    assert OccursAt(s, " (", |name|) by {
      assert s[|name|..|name| + 2] == " (";
    }
    assert forall j :: 0 <= j < |name| ==> !OccursAt(s, " (", j) by {
      forall j | 0 <= j < |name|
        ensures !OccursAt(s, " (", j)
      {
        assert s[j + 1] != '(';
        assert s[j..j + 2][1] == s[j + 1];
      }
    }
    assert s[..|name|] == name;
  }

  /** No part of `s` matches the pattern. */
  ghost predicate NoGroup(s: string)
  {
    forall i: nat, k: nat :: !GroupAt(s, i, k)
  }

  /** `c` is the captured content of the leftmost match in `s`. */
  ghost predicate LeftmostContent(s: string, c: string)
  {
    exists i: nat, k: nat ::
      && GroupAt(s, i, k)
      && c == s[i + 1..k]
      && forall i': nat, k': nat :: i' < i ==> !GroupAt(s, i', k')
  }

  /**
   * Parsing finds nothing exactly when nothing matches, and otherwise
   * captures the content of the leftmost match.
   */
  lemma ParseIataLeftmost(destination: string)
    ensures ParseIata(destination).None? <==> NoGroup(destination)
    ensures ParseIata(destination).Some? ==> LeftmostContent(destination, ParseIata(destination).value)
  {
  }

  // ---------------------------------------------------------------------
  // The lookup list

  /** Most destinations resolved per search. */
  const EnrichmentCap: nat := 10

  /** `results.map(parse).filter(Boolean)`: the parsed codes in flight order. */
  function ParsedCodes(results: seq<Flight>): (r: seq<string>)
    decreases |results|
    ensures forall c :: c in r <==> exists i :: 0 <= i < |results| && ParseIata(results[i].destination) == Some(c)
  {
    if |results| == 0 then []
    else
      var rest := ParsedCodes(results[1..]);
      assert forall i :: 1 <= i < |results| ==> results[i] == results[1..][i - 1];
      match ParseIata(results[0].destination)
      case Some(c) => [c] + rest
      case None => rest
  }

  /** Parsing distributes over concatenation: the codes keep the order of their flights. */
  lemma {:induction false} ParsedCodesAppend(a: seq<Flight>, b: seq<Flight>)
    ensures ParsedCodes(a + b) == ParsedCodes(a) + ParsedCodes(b)
    decreases |a|
  {
    if |a| == 0 {
      assert a + b == b;
    } else {
      assert (a + b)[0] == a[0];
      assert (a + b)[1..] == a[1..] + b;
      ParsedCodesAppend(a[1..], b);
    }
  }

  /** One flight contributes its parsed code, or nothing when its destination does not parse. */
  lemma ParsedCodesOne(f: Flight)
    ensures ParseIata(f.destination).Some? ==> ParsedCodes([f]) == [ParseIata(f.destination).value]
    ensures ParseIata(f.destination).None? ==> ParsedCodes([f]) == []
  {
    assert [f][1..] == [];
  }

  /** `[...new Set(codes)].slice(0, 10)`. */
  function UniqueDestinations(results: seq<Flight>): (r: seq<string>)
    ensures r <= Distinct(ParsedCodes(results))
    ensures |r| == if |Distinct(ParsedCodes(results))| <= EnrichmentCap then |Distinct(ParsedCodes(results))| else EnrichmentCap
    ensures NoDuplicates(r)
    ensures forall c :: c in r ==> c in ParsedCodes(results)
    ensures |Distinct(ParsedCodes(results))| <= EnrichmentCap ==> forall c :: c in ParsedCodes(results) ==> c in r
  {
    var d := Distinct(ParsedCodes(results));
    if |d| <= EnrichmentCap then d
    else
      assert forall i :: 0 <= i < EnrichmentCap ==> d[..EnrichmentCap][i] == d[i];
      d[..EnrichmentCap]
  }

  /**
   * The lookup list keeps first-seen order and drops only late arrivals:
   * if a code is kept, every code seen first before it is kept, and kept
   * codes are listed in the order they were first seen.
   */
  lemma UniqueDestinationsFirstSeen(results: seq<Flight>, x: string, y: string)
    requires x in UniqueDestinations(results)
    requires y in ParsedCodes(results)
    requires FirstIndex(ParsedCodes(results), y) <= FirstIndex(ParsedCodes(results), x)
    ensures y in UniqueDestinations(results)
    ensures forall i, j :: 0 <= i < j < |UniqueDestinations(results)| ==>
      FirstIndex(ParsedCodes(results), UniqueDestinations(results)[i])
        < FirstIndex(ParsedCodes(results), UniqueDestinations(results)[j])
  {
    var codes := ParsedCodes(results);
    var d := Distinct(codes);
    DistinctPrefixClosed(codes, EnrichmentCap, x, y);
    DistinctFirstSeenOrder(codes);
    var u := UniqueDestinations(results);
    assert forall i :: 0 <= i < |u| ==> u[i] == d[i];
  }

  // ---------------------------------------------------------------------
  // Cache-first resolution

  /** Every entry of `before` is in `after`, with the same value. */
  ghost predicate Extends<Info>(before: map<string, Info>, after: map<string, Info>)
  {
    forall k :: k in before ==> k in after && after[k] == before[k]
  }

  /** The cache after a resolution step, and the codes passed to the lookup service, in order. */
  datatype Resolution<Info> = Resolution(cache: map<string, Info>, lookups: seq<string>)

  /**
   * The `for (const iata of uniqueDestinations)` loop: a code missing from
   * the cache is looked up; a successful lookup is stored, a failed one is
   * skipped and the loop goes on.
   */
  function ResolveAll<Info>(codes: seq<string>, cache: map<string, Info>, lookup: string -> Option<Info>)
    : (r: Resolution<Info>)
    decreases |codes|
    ensures Extends(cache, r.cache)
    ensures forall k :: k in r.cache && k !in cache ==> k in r.lookups && lookup(k) == Some(r.cache[k])
    ensures forall c :: c in codes ==> (c in r.cache <==> c in cache || lookup(c).Some?)
    ensures forall k :: k in r.cache ==> k in cache || k in codes
    ensures forall q :: q in r.lookups ==> q in codes && q !in cache
    ensures |r.lookups| <= |codes|
    ensures NoDuplicates(codes) ==> NoDuplicates(r.lookups)
    ensures NoDuplicates(codes) ==> forall c :: c in codes && c !in cache ==> c in r.lookups
  {
    if |codes| == 0 then Resolution(cache, [])
    else
      var c := codes[0];
      assert forall x :: x in codes <==> x == c || x in codes[1..];
      if c in cache then ResolveAll(codes[1..], cache, lookup)
      else
        var next := match lookup(c) case Some(info) => cache[c := info] case None => cache;
        var rest := ResolveAll(codes[1..], next, lookup);
        assert NoDuplicates(codes) ==> c !in codes[1..] by {
          if NoDuplicates(codes) {
            assert forall j :: 0 <= j < |codes[1..]| ==> codes[1..][j] == codes[j + 1];
          }
        }
        assert NoDuplicates(codes) ==> NoDuplicates(codes[1..]) by {
          if NoDuplicates(codes) {
            assert forall j :: 0 <= j < |codes[1..]| ==> codes[1..][j] == codes[j + 1];
          }
        }
        Resolution(rest.cache, [c] + rest.lookups)
  }

  /** Origin coordinates: the cached entry, or one lookup whose success is cached. */
  datatype OriginStep<Info> = OriginStep(info: Option<Info>, cache: map<string, Info>, lookups: seq<string>)

  function ResolveOrigin<Info>(code: string, cache: map<string, Info>, lookup: string -> Option<Info>)
    : (r: OriginStep<Info>)
    ensures code in cache ==> r.info == Some(cache[code]) && r.cache == cache && r.lookups == []
    ensures code !in cache ==> r.info == lookup(code) && r.lookups == [code]
    ensures Extends(cache, r.cache)
    ensures r.info.Some? ==> code in r.cache && r.cache[code] == r.info.value
    ensures forall k :: k in r.cache && k !in cache ==> k == code && lookup(code) == Some(r.cache[k])
    ensures code !in cache && lookup(code).None? ==> r.cache == cache
  {
    if code in cache then OriginStep(Some(cache[code]), cache, [])
    else match lookup(code)
      case Some(info) => OriginStep(Some(info), cache[code := info], [code])
      case None => OriginStep(None, cache, [code])
  }

  // ---------------------------------------------------------------------
  // Annotation

  /** A departures entry with the three fields added for the map. */
  datatype AnnotatedFlight<Info> = AnnotatedFlight(
    flight: Flight,
    destinationIata: Option<string>,
    destinationName: string,
    destinationCoords: Option<Info>)

  /** The property name `destinationMap[iata]` reads: a null code reads the key "null". */
  function CacheKey(iata: Option<string>): string
  {
    match iata
    case Some(c) => c
    case None => "null"
  }

  /** `results.map(f => ({...f, destinationIata, destinationName, destinationCoords}))`. */
  function Annotate<Info>(results: seq<Flight>, destinations: map<string, Info>): (r: seq<AnnotatedFlight<Info>>)
    ensures |r| == |results|
    ensures forall i :: 0 <= i < |r| ==>
      && r[i].flight == results[i]
      && r[i].destinationIata == ParseIata(results[i].destination)
      && r[i].destinationName == DestinationName(results[i].destination)
      && r[i].destinationCoords == Get(destinations, CacheKey(r[i].destinationIata))
  {
    seq(|results|, i requires 0 <= i < |results| =>
      var iata := ParseIata(results[i].destination);
      AnnotatedFlight(results[i], iata, DestinationName(results[i].destination), Get(destinations, CacheKey(iata))))
  }

  // ---------------------------------------------------------------------
  // The handler

  const DeparturesErrorMessage: string := "An error occurred while fetching departures."

  /** The state the handler leaves: flights shown, error text, origin coordinates, cache, and lookups issued. */
  datatype SearchView<Info> = SearchView(
    flights: seq<AnnotatedFlight<Info>>,
    error: Option<string>,
    originCoords: Option<Info>,
    cache: map<string, Info>,
    lookups: seq<string>)

  /** `err.message || 'An error occurred while fetching departures.'`. */
  function ErrorText(message: string): (r: string)
    ensures r != ""
    ensures message != "" ==> r == message
    ensures message == "" ==> r == DeparturesErrorMessage
  {
    if message != "" then message else DeparturesErrorMessage
  }

  /**
   * The handler with the origin entry kept: the destination map starts
   * from the cache as updated by the origin lookup. `departures` is the
   * outcome of the departures search (`Failure` carries the error message).
   */
  function AirportSearch<Info>(
    airportCode: string, cache: map<string, Info>, lookup: string -> Option<Info>,
    departures: Result<seq<Flight>, string>): (v: SearchView<Info>)
    ensures Extends(cache, v.cache)
    ensures forall k :: k in v.cache && k !in cache ==> k in v.lookups && lookup(k) == Some(v.cache[k])
    ensures forall q :: q in v.lookups ==> q !in cache
    ensures RepeatsOnlyFailures(v.lookups, lookup)
    ensures |v.lookups| <= EnrichmentCap + 1
    ensures forall q :: q in v.lookups ==>
      q == airportCode || (departures.Success? && q in UniqueDestinations(departures.value))
    ensures airportCode in cache ==> v.originCoords == Some(cache[airportCode])
    ensures airportCode !in cache ==> v.originCoords == lookup(airportCode)
    ensures v.originCoords.Some? ==> airportCode in v.cache && v.cache[airportCode] == v.originCoords.value
    ensures departures.Failure? ==> v.flights == [] && v.error == Some(ErrorText(departures.error))
    ensures departures.Success? ==> v.error.None? && |v.flights| == |departures.value|
    ensures departures.Success? ==> forall i :: 0 <= i < |v.flights| ==>
      && v.flights[i].flight == departures.value[i]
      && v.flights[i].destinationIata == ParseIata(departures.value[i].destination)
      && v.flights[i].destinationName == DestinationName(departures.value[i].destination)
      && v.flights[i].destinationCoords == Get(v.cache, CacheKey(v.flights[i].destinationIata))
  {
    var origin := ResolveOrigin(airportCode, cache, lookup);
    match departures
    case Failure(message) =>
      SearchView([], Some(ErrorText(message)), origin.info, origin.cache, origin.lookups)
    case Success(results) =>
      var codes := UniqueDestinations(results);
      var res := ResolveAll(codes, origin.cache, lookup);
      LookupsRepeatOnlyFailures(airportCode, origin.lookups, res.lookups, lookup);
      SearchView(Annotate(results, res.cache), None, origin.info, res.cache, origin.lookups + res.lookups)
  }

  /** Only codes whose lookup failed are looked up more than once. */
  ghost predicate RepeatsOnlyFailures<Info>(lookups: seq<string>, lookup: string -> Option<Info>)
  {
    forall i, j :: 0 <= i < j < |lookups| && lookups[i] == lookups[j] ==> lookup(lookups[i]).None?
  }

  /** The origin lookup, if any, is repeated among the destination lookups only when it failed. */
  lemma LookupsRepeatOnlyFailures<Info>(
    airportCode: string, first: seq<string>, rest: seq<string>, lookup: string -> Option<Info>)
    requires first == [] || (first == [airportCode] && (airportCode !in rest || lookup(airportCode).None?))
    requires NoDuplicates(rest)
    ensures RepeatsOnlyFailures(first + rest, lookup)
  {
    var all := first + rest;
    if first != [] {
      assert forall j :: 0 < j < |all| ==> all[j] == rest[j - 1];
    } else {
      assert all == rest;
    }
  }

  /**
   * Coordinates are attached exactly where the code is known: a flight whose
   * code is on the lookup list gets coordinates iff it was cached or its
   * lookup succeeded; a flight whose code is neither listed nor the
   * origin (beyond the cap, or unparseable and read as "null") gets
   * coordinates iff the cache already held them; and a flight gets
   * coordinates only from a prior cache entry or a successful lookup made
   * during this search.
   */
  lemma AirportSearchCoordinates<Info>(
    airportCode: string, cache: map<string, Info>, lookup: string -> Option<Info>,
    results: seq<Flight>, i: nat)
    requires i < |results|
    ensures var v := AirportSearch(airportCode, cache, lookup, Success(results));
      var key := CacheKey(ParseIata(results[i].destination));
      && (key in UniqueDestinations(results) ==>
            (v.flights[i].destinationCoords.Some? <==> key in cache || lookup(key).Some?))
      && (key !in UniqueDestinations(results) && key != airportCode ==>
            (v.flights[i].destinationCoords.Some? <==> key in cache))
      && (v.flights[i].destinationCoords.Some? ==>
            (key in cache && v.flights[i].destinationCoords == Some(cache[key]))
            || (key in v.lookups && v.flights[i].destinationCoords == lookup(key)))
  {
  }

  /** The handler as written: the destination map is copied from the cache as it was before the origin lookup. */
  function AirportSearchAsWritten<Info>(
    airportCode: string, cache: map<string, Info>, lookup: string -> Option<Info>,
    departures: Result<seq<Flight>, string>): (v: SearchView<Info>)
    ensures Extends(cache, v.cache)
    ensures forall k :: k in v.cache && k !in cache ==> k in v.lookups && lookup(k) == Some(v.cache[k])
    ensures forall q :: q in v.lookups ==> q !in cache
    ensures departures.Success? ==> |v.flights| == |departures.value|
  {
    var origin := ResolveOrigin(airportCode, cache, lookup);
    match departures
    case Failure(message) =>
      SearchView([], Some(ErrorText(message)), origin.info, origin.cache, origin.lookups)
    case Success(results) =>
      var codes := UniqueDestinations(results);
      var res := ResolveAll(codes, cache, lookup);
      SearchView(Annotate(results, res.cache), None, origin.info, res.cache, origin.lookups + res.lookups)
  }

  /**
   * As written, a successfully fetched origin that is not also a resolved
   * destination is missing from the cache the handler leaves behind, so the
   * next search for the same airport fetches it again.
   */
  lemma AsWrittenDropsOrigin<Info>(
    airportCode: string, cache: map<string, Info>, lookup: string -> Option<Info>, results: seq<Flight>)
    requires airportCode !in cache && lookup(airportCode).Some?
    requires airportCode !in UniqueDestinations(results)
    ensures var v := AirportSearchAsWritten(airportCode, cache, lookup, Success(results));
      v.originCoords.Some? && airportCode !in v.cache
  {
  }

  /** As written, an origin that is also a destination is fetched twice even when the first fetch succeeded. */
  lemma AsWrittenFetchesOriginTwice<Info>(
    airportCode: string, cache: map<string, Info>, lookup: string -> Option<Info>, results: seq<Flight>)
    requires airportCode !in cache && lookup(airportCode).Some?
    requires airportCode in UniqueDestinations(results)
    ensures var v := AirportSearchAsWritten(airportCode, cache, lookup, Success(results));
      !RepeatsOnlyFailures(v.lookups, lookup)
  {
    var res := ResolveAll(UniqueDestinations(results), cache, lookup);
    assert airportCode in res.lookups;
    var v := AirportSearchAsWritten(airportCode, cache, lookup, Success(results));
    var j :| 0 <= j < |res.lookups| && res.lookups[j] == airportCode;
    assert v.lookups[0] == v.lookups[j + 1];
  }

  /** Two caches hold the same entries for every key other than `x`. */
  ghost predicate AgreeAwayFrom<Info>(m1: map<string, Info>, m2: map<string, Info>, x: string)
  {
    forall k :: k != x ==> (k in m1 <==> k in m2) && (k in m1 ==> m1[k] == m2[k])
  }

  /** Resolving the same codes from caches that differ only at `x` gives caches that differ only at `x`. */
  lemma {:induction false} ResolveAllAgreeAwayFrom<Info>(
    codes: seq<string>, m1: map<string, Info>, m2: map<string, Info>, x: string, lookup: string -> Option<Info>)
    requires AgreeAwayFrom(m1, m2, x)
    ensures AgreeAwayFrom(ResolveAll(codes, m1, lookup).cache, ResolveAll(codes, m2, lookup).cache, x)
    decreases |codes|
  {
    if |codes| > 0 {
      var c := codes[0];
      var n1 := if c in m1 then m1 else match lookup(c) case Some(info) => m1[c := info] case None => m1;
      var n2 := if c in m2 then m2 else match lookup(c) case Some(info) => m2[c := info] case None => m2;
      assert AgreeAwayFrom(n1, n2, x);
      ResolveAllAgreeAwayFrom(codes[1..], n1, n2, x, lookup);
    }
  }

  /**
   * The stale copy changes nothing else: every flight whose cache key is
   * not the searched airport is annotated exactly as with the origin kept.
   */
  lemma AsWrittenAgreesAwayFromOrigin<Info>(
    airportCode: string, cache: map<string, Info>, lookup: string -> Option<Info>,
    results: seq<Flight>, i: nat)
    requires i < |results|
    requires CacheKey(ParseIata(results[i].destination)) != airportCode
    ensures AirportSearchAsWritten(airportCode, cache, lookup, Success(results)).flights[i]
         == AirportSearch(airportCode, cache, lookup, Success(results)).flights[i]
  {
    var origin := ResolveOrigin(airportCode, cache, lookup);
    ResolveAllAgreeAwayFrom(UniqueDestinations(results), origin.cache, cache, airportCode, lookup);
  }

  // ---------------------------------------------------------------------
  // Worked scenario

  /** Deduplicating [LAX, LAX, CDG] gives [LAX, CDG]. */
  lemma DistinctLaxLaxCdg()
    ensures Distinct(["LAX", "LAX", "CDG"]) == ["LAX", "CDG"]
  {
    var lax, cdg := "LAX", "CDG";
    var none: seq<string> := [];
    assert lax != cdg by { assert lax[0] != cdg[0]; }
    assert [lax][..0] == none;
    assert Distinct([lax]) == [lax];
    assert [lax, lax][..1] == [lax];
    assert Distinct([lax, lax]) == [lax];
    assert [lax, lax, cdg][..2] == [lax, lax];
    assert cdg !in [lax];
  }

  /** Destinations reading LAX, LAX and CDG give the lookup list [LAX, CDG]. */
  lemma LaxLaxCdgLookupList(f0: Flight, f1: Flight, f2: Flight)
    requires ParseIata(f0.destination) == Some("LAX") && ParseIata(f1.destination) == Some("LAX")
    requires ParseIata(f2.destination) == Some("CDG")
    ensures UniqueDestinations([f0, f1, f2]) == ["LAX", "CDG"]
  {
    var none: seq<Flight> := [];
    assert [f2][1..] == none;
    assert ParsedCodes([f2]) == ["CDG"];
    assert [f1, f2][1..] == [f2];
    assert ParsedCodes([f1, f2]) == ["LAX", "CDG"];
    assert [f0, f1, f2][1..] == [f1, f2];
    assert ParsedCodes([f0, f1, f2]) == ["LAX", "LAX", "CDG"];
    DistinctLaxLaxCdg();
  }

  /** Resolving [LAX, CDG] after JFK, from an empty cache, with every lookup succeeding. */
  lemma LaxCdgResolution<Info>(lookup: string -> Option<Info>, jfk: Info, lax: Info, cdg: Info)
    requires lookup("JFK") == Some(jfk) && lookup("LAX") == Some(lax) && lookup("CDG") == Some(cdg)
    ensures ResolveOrigin("JFK", map[], lookup) == OriginStep(Some(jfk), map["JFK" := jfk], ["JFK"])
    ensures ResolveAll(["LAX", "CDG"], map["JFK" := jfk], lookup)
      == Resolution(map["JFK" := jfk, "LAX" := lax, "CDG" := cdg], ["LAX", "CDG"])
  {
    var lx, cd, jf := "LAX", "CDG", "JFK";
    assert lx != cd by { assert lx[0] != cd[0]; }
    assert jf != lx by { assert jf[0] != lx[0]; }
    assert jf != cd by { assert jf[0] != cd[0]; }
    var none: seq<string> := [];
    assert [lx, cd][1..] == [cd];
    assert [cd][1..] == none;
    var m1 := map[jf := jfk, lx := lax];
    assert ResolveAll([cd], m1, lookup) == Resolution(m1[cd := cdg], [cd]);
  }

  /**
   * Three departures from JFK whose destinations read LAX, LAX and CDG
   * (as the labels "Los Angeles (LAX)" and "Paris (CDG)" do, by
   * `ParseLabel`), with an empty cache and every lookup succeeding: the
   * lookup list is [LAX, CDG], JFK, LAX and CDG are each looked up once,
   * all three flights are annotated, and the two LAX flights share their
   * coordinates.
   */
  lemma ThreeDeparturesScenario<Info>(
    f0: Flight, f1: Flight, f2: Flight, lookup: string -> Option<Info>, jfk: Info, lax: Info, cdg: Info)
    requires ParseIata(f0.destination) == Some("LAX") && ParseIata(f1.destination) == Some("LAX")
    requires ParseIata(f2.destination) == Some("CDG")
    requires lookup("JFK") == Some(jfk) && lookup("LAX") == Some(lax) && lookup("CDG") == Some(cdg)
    ensures UniqueDestinations([f0, f1, f2]) == ["LAX", "CDG"]
    ensures
      var v := AirportSearch("JFK", map[], lookup, Success([f0, f1, f2]));
      && v.lookups == ["JFK", "LAX", "CDG"]
      && |v.flights| == 3
      && v.flights[0].destinationCoords == Some(lax)
      && v.flights[1].destinationCoords == Some(lax)
      && v.flights[2].destinationCoords == Some(cdg)
      && v.cache == map["JFK" := jfk, "LAX" := lax, "CDG" := cdg]
  {
    ScenarioState(f0, f1, f2, lookup, jfk, lax, cdg);
    var v := AirportSearch("JFK", map[], lookup, Success([f0, f1, f2]));
    var lx, cd := "LAX", "CDG";
    assert CacheKey(ParseIata(f0.destination)) == lx && CacheKey(ParseIata(f1.destination)) == lx;
    assert CacheKey(ParseIata(f2.destination)) == cd;
    assert lx in v.cache && v.cache[lx] == lax;
    assert cd in v.cache && v.cache[cd] == cdg;
  }

  /** The cache and the lookups the JFK scenario leaves. */
  lemma ScenarioState<Info>(
    f0: Flight, f1: Flight, f2: Flight, lookup: string -> Option<Info>, jfk: Info, lax: Info, cdg: Info)
    requires ParseIata(f0.destination) == Some("LAX") && ParseIata(f1.destination) == Some("LAX")
    requires ParseIata(f2.destination) == Some("CDG")
    requires lookup("JFK") == Some(jfk) && lookup("LAX") == Some(lax) && lookup("CDG") == Some(cdg)
    ensures UniqueDestinations([f0, f1, f2]) == ["LAX", "CDG"]
    ensures var v := AirportSearch("JFK", map[], lookup, Success([f0, f1, f2]));
      && v.lookups == ["JFK", "LAX", "CDG"]
      && v.cache == map["JFK" := jfk, "LAX" := lax, "CDG" := cdg]
  {
    LaxLaxCdgLookupList(f0, f1, f2);
    LaxCdgResolution(lookup, jfk, lax, cdg);
    assert ["JFK"] + ["LAX", "CDG"] == ["JFK", "LAX", "CDG"];
  }
}
