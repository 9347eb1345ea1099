/**
 * What a flight card derives from a normalised flight: the Google
 * Calendar link it opens, the airport code and city shown for each end of
 * the route, the airline caption, and the status text with its CSS class.
 *
 * `encodeURIComponent` is a parameter: `None` stands for the URIError it
 * throws (on an unpaired surrogate), which the link builder catches.
 */
module FlightCard {
  import opened Wrappers
  import opened Strings
  import opened JsValues
  import opened Sequences
  import opened FlightApi
  import Enrichment

  // ---------------------------------------------------------------------
  // Calendar link

  /** `formatTime`: dashes and colons dropped, then everything from the first "." cut off. */
  function CompactTimestamp(s: string): (r: string)
    ensures '-' !in r && ':' !in r && '.' !in r
    ensures r <= RemoveAll(s, {'-', ':'})
    ensures '.' !in s ==> r == RemoveAll(s, {'-', ':'})
    ensures '.' in s ==> RemoveAll(s, {'-', ':'})[|r|] == '.'
  {
    var t := RemoveAll(s, {'-', ':'});
    SplitHead(t, '.');
    Split(t, '.')[0]
  }

  /** Compacting a compacted timestamp changes nothing. */
  lemma CompactTimestampIdempotent(s: string)
    ensures CompactTimestamp(CompactTimestamp(s)) == CompactTimestamp(s)
  {
    var r := CompactTimestamp(s);
    RemoveAllAbsent(r, {'-', ':'});
    SplitHead(r, '.');
  }

  /** Removing characters other than "." keeps a "." and everything on either side of it apart. */
  lemma RemoveAllAroundDot(head: string, tail: string, cs: set<char>)
    requires '.' !in cs
    ensures RemoveAll(head + "." + tail, cs) == RemoveAll(head, cs) + ['.'] + RemoveAll(tail, cs)
  {
    var dt := "." + tail;
    assert head + "." + tail == head + dt;
    RemoveAllAppend(head, dt, cs);
    assert dt[0] == '.' && dt[1..] == tail;
    assert RemoveAll(dt, cs) == ['.'] + RemoveAll(tail, cs);
  }

  /** Fractional seconds are cut: only the part before the first "." survives, without its separators. */
  lemma CompactTimestampCutsFraction(head: string, tail: string)
    requires '.' !in head
    ensures CompactTimestamp(head + "." + tail) == RemoveAll(head, {'-', ':'})
  {
    var cs := {'-', ':'};
    var h := RemoveAll(head, cs);
    var rt := RemoveAll(tail, cs);
    RemoveAllAroundDot(head, tail, cs);
    SplitAround(h, '.', rt);
    assert CompactTimestamp(head + "." + tail) == Split(h + ['.'] + rt, '.')[0];
  }

  const CalendarBase := "https://calendar.google.com/calendar/render"

  /** The event title before encoding: flight number and airline. */
  function EventTitle(f: Flight): string
  {
    "Flight " + f.flightNumber + " (" + OrElse(f.airline, "") + ")"
  }

  /** The event description before encoding: route, status and duration, on three lines. */
  function EventDetails(f: Flight): string
  {
    "Flight from " + f.origin + " to " + f.destination + ".\nStatus: " + OrElse(f.status, "")
      + " \nDuration: " + f.duration + " "
  }

  /** The event location before encoding. */
  function EventLocation(f: Flight): string
  {
    f.origin + " to " + f.destination + " "
  }

  /** One `name=value` pair of the query. */
  function Param(name: string, value: string): string
  {
    name + "=" + value
  }

  /** The query's pairs, in the order the template lists them, from already encoded values. */
  function QueryParams(title: string, start: string, end: string, details: string, location: string): seq<string>
  {
    [Param("action", "TEMPLATE"), Param("text", title), Param("dates", start + "/" + end),
     Param("details", details), Param("location", location)]
  }

  /** The query string: the pairs joined by "&". */
  function CalendarQuery(title: string, start: string, end: string, details: string, location: string): string
  {
    Join(QueryParams(title, start, end, details, location), '&')
  }

  /**
   * `generateGoogleCalendarUrl`: "#" when either time is missing or when
   * encoding throws, and otherwise the render URL with the event's title,
   * compacted times, details and location in its query.
   */
  function CalendarUrl(f: Flight, encode: string -> Option<string>): (r: string)
    ensures r == "#" <==>
      || !Truthy(f.startTime) || !Truthy(f.endTime)
      || encode(EventTitle(f)).None? || encode(EventDetails(f)).None? || encode(EventLocation(f)).None?
    ensures r != "#" ==>
      r == CalendarBase + "?" + CalendarQuery(
        encode(EventTitle(f)).value,
        CompactTimestamp(f.startTime.s), CompactTimestamp(f.endTime.s),
        encode(EventDetails(f)).value, encode(EventLocation(f)).value)
  {
    if !Truthy(f.startTime) || !Truthy(f.endTime) then "#"
    else
      match (encode(EventTitle(f)), encode(EventDetails(f)), encode(EventLocation(f)))
      case (Some(title), Some(details), Some(location)) =>
        var url := CalendarBase + "?" + CalendarQuery(
          title, CompactTimestamp(f.startTime.s), CompactTimestamp(f.endTime.s), details, location);
        assert |url| > 1;
        url
      case _ => "#"
  }

  lemma ParamWithout(name: string, value: string, c: char)
    requires c !in name && c != '=' && c !in value
    ensures c !in Param(name, value)
  {
  }

  /**
   * The query carries exactly five parameters, in this order, whenever no
   * value contains "&" (which `encodeURIComponent` never leaves in its
   * output): splitting it at "&" gives back each name with its value.
   */
  lemma CalendarQueryParameters(title: string, start: string, end: string, details: string, location: string)
    requires '&' !in title && '&' !in start && '&' !in end && '&' !in details && '&' !in location
    ensures Split(CalendarQuery(title, start, end, details, location), '&')
      == QueryParams(title, start, end, details, location)
  {
    ParamWithout("action", "TEMPLATE", '&');
    ParamWithout("text", title, '&');
    ParamWithout("dates", start + "/" + end, '&');
    ParamWithout("details", details, '&');
    ParamWithout("location", location, '&');
    JoinThenSplit(QueryParams(title, start, end, details, location), '&');
  }

  /**
   * A link for a flight whose times carry no "&", built with an encoder
   * whose output never holds "&", opens the render page with the five
   * expected parameters, the dates being the two compacted times.
   */
  lemma CalendarUrlParameters(f: Flight, encode: string -> Option<string>)
    requires forall s :: encode(s).Some? ==> '&' !in encode(s).value
    requires CalendarUrl(f, encode) != "#"
    requires '&' !in f.startTime.s && '&' !in f.endTime.s
    ensures CalendarUrl(f, encode)[..|CalendarBase| + 1] == CalendarBase + "?"
    ensures Split(CalendarUrl(f, encode)[|CalendarBase| + 1..], '&') ==
      QueryParams(encode(EventTitle(f)).value, CompactTimestamp(f.startTime.s), CompactTimestamp(f.endTime.s),
        encode(EventDetails(f)).value, encode(EventLocation(f)).value)
  {
    var start, end := CompactTimestamp(f.startTime.s), CompactTimestamp(f.endTime.s);
    assert '&' !in start && '&' !in end;
    var q := CalendarQuery(encode(EventTitle(f)).value, start, end,
      encode(EventDetails(f)).value, encode(EventLocation(f)).value);
    var url := CalendarUrl(f, encode);
    assert url == (CalendarBase + "?") + q;
    assert url[|CalendarBase| + 1..] == q;
    CalendarQueryParameters(encode(EventTitle(f)).value, start, end,
      encode(EventDetails(f)).value, encode(EventLocation(f)).value);
  }

  // ---------------------------------------------------------------------
  // Route ends

  /** The code shown for one end of the route: the text after the first "(", less its first ")". */
  function AirportCode(text: string): (r: string)
    ensures '(' !in text ==> r == "N/A"
    ensures '(' in text ==> '(' !in r
  {
    if '(' in text then
      SplitHead(text, '(');
      ReplaceFirst(Split(text, '(')[1], ')', "")
    else "N/A"
  }

  /** The city shown for one end of the route: the trimmed text before the first "(", or "N/A". */
  function City(text: string): (r: string)
    ensures r != ""
    ensures '(' !in r
    ensures r == "N/A" || (r == Trim(Split(text, '(')[0]) && !IsJsSpace(r[0]) && !IsJsSpace(r[|r| - 1]))
  {
    var head := Split(text, '(')[0];
    var t := Trim(head);
    TrimKeepsAbsent(head, '(');
    if t == "" then "N/A" else t
  }

  /**
   * For a text whose first "(" follows `before`, the code is the segment
   * after it up to any next "(", with the segment's first ")" removed,
   * and the city is `before` trimmed, or "N/A" when that is blank.
   */
  lemma RouteEndSegments(before: string, after: string)
    requires '(' !in before
    ensures var segment := Split(after, '(')[0];
      && segment <= after && '(' !in segment
      && ('(' in after ==> after[|segment|] == '(')
      && AirportCode(before + "(" + after) == ReplaceFirst(segment, ')', "")
    ensures City(before + "(" + after) == if Trim(before) == "" then "N/A" else Trim(before)
  {
    var text := before + "(" + after;
    assert text == before + ['('] + after;
    SplitAround(before, '(', after);
    SplitHead(after, '(');
    assert text[|before|] == '(';
  }

  /** Without any "(", the code is "N/A" and the city is the whole text trimmed (or "N/A"). */
  lemma RouteEndWithoutParenthesis(text: string)
    requires '(' !in text
    ensures AirportCode(text) == "N/A"
    ensures City(text) == if Trim(text) == "" then "N/A" else Trim(text)
  {
    SplitNoSeparator(text, '(');
  }

  /**
   * The card reads back the service's "<airport> (<code>)" text: the
   * code, and the trimmed airport name (or "N/A" when it is blank),
   * provided neither part holds a parenthesis.
   */
  lemma CardReadsLabel(name: string, code: string)
    requires '(' !in name && '(' !in code && ')' !in code
    ensures AirportCode(name + " (" + code + ")") == code
    ensures City(name + " (" + code + ")") == if Trim(name) == "" then "N/A" else Trim(name)
  {
    var text := name + " (" + code + ")";
    var a, b := name + " ", code + ")";
    assert '(' !in a && '(' !in b;
    assert text == a + ['('] + b;
    SplitAround(a, '(', b);
    SplitNoSeparator(b, '(');
    assert Split(text, '(') == [a, b];
    assert '(' in text by { assert text[|a|] == '('; }
    DropClosing(code);
    TrimTrailingSpace(name);
  }

  /** Removing the first ")" of "<code>)" gives the code back when the code holds none. */
  lemma DropClosing(code: string)
    requires ')' !in code
    ensures ReplaceFirst(code + ")", ')', "") == code
  {
    var b := code + ")";
    assert b[|code|] == ')';
    var k :| 0 <= k < |b| && b[k] == ')' && ')' !in b[..k] && ReplaceFirst(b, ')', "") == b[..k] + "" + b[k + 1..];
    assert k == |code| by {
      assert forall j :: 0 <= j < |code| ==> b[j] != ')';
    }
    assert b[..k] == code;
  }

  /** The card and the airport search read the same code out of a service text. */
  lemma CardAgreesWithSearch(ep: Endpoint)
    requires ep.airport.Str? && ep.iata.Str?
    requires '(' !in ep.airport.s && ep.iata.s != [] && '(' !in ep.iata.s && ')' !in ep.iata.s
    ensures Some(AirportCode(EndpointLabel(ep))) == Enrichment.ParseIata(EndpointLabel(ep))
  {
    Enrichment.ParseLabel(ep.airport.s, ep.iata.s);
    CardReadsLabel(ep.airport.s, ep.iata.s);
  }

  // ---------------------------------------------------------------------
  // Header

  /** The airline caption: the airline name, or "Unknown Airline". */
  function AirlineCaption(f: Flight): (r: string)
    ensures r != ""
    ensures Truthy(f.airline) ==> r == f.airline.s
    ensures !Truthy(f.airline) ==> r == "Unknown Airline"
  {
    OrElse(f.airline, "Unknown Airline")
  }

  /** The status text: the display status, or "Unknown". */
  function StatusText(f: Flight): (r: string)
    ensures r != ""
    ensures Truthy(f.status) ==> r == f.status.s
    ensures !Truthy(f.status) ==> r == "Unknown"
  {
    OrElse(f.status, "Unknown")
  }

  /** The status CSS class: the status (or "unknown") in lower case, with its first space turned into "-". */
  function StatusClass(f: Flight): (r: string)
    ensures |r| == |OrElse(f.status, "unknown")|
    ensures forall i :: 0 <= i < |r| ==> !('A' <= r[i] <= 'Z')
    ensures var s := OrElse(f.status, "unknown");
      forall i :: 0 <= i < |r| ==>
        r[i] == if ' ' in s && i == FirstIndex(s, ' ') then '-' else LowerChar(s[i])
  {
    var s := OrElse(f.status, "unknown");
    LowerThenHyphenate(s);
    ReplaceFirst(AsciiLower(s), ' ', "-")
  }

  /** Replacing the first `c` by one character changes that position only. */
  lemma ReplaceFirstChar(t: string, c: char, d: char)
    ensures |ReplaceFirst(t, c, [d])| == |t|
    ensures forall i :: 0 <= i < |t| ==>
      ReplaceFirst(t, c, [d])[i] == if c in t && i == FirstIndex(t, c) then d else t[i]
  {
    if c in t {
      var r := ReplaceFirst(t, c, [d]);
      var k :| 0 <= k < |t| && t[k] == c && c !in t[..k] && r == t[..k] + [d] + t[k + 1..];
      assert forall j :: 0 <= j < k ==> t[..k][j] == t[j];
      var fi := FirstIndex(t, c);
      assert !(fi < k) && !(k < fi);
    }
  }

  /** The first space of the lower-cased text is where the original's first space is. */
  lemma LowerFirstSpace(s: string)
    requires ' ' in s
    ensures ' ' in AsciiLower(s) && FirstIndex(AsciiLower(s), ' ') == FirstIndex(s, ' ')
  {
    LowerKeepsSpaces(s);
    var l := AsciiLower(s);
    var k, fi := FirstIndex(l, ' '), FirstIndex(s, ' ');
    assert s[k] == ' ' && l[fi] == ' ';
    assert !(fi < k) && !(k < fi);
  }

  /** Lower-casing and then hyphenating the first space touches each character on its own. */
  lemma LowerThenHyphenate(s: string)
    ensures |ReplaceFirst(AsciiLower(s), ' ', "-")| == |s|
    ensures forall i :: 0 <= i < |s| ==>
      ReplaceFirst(AsciiLower(s), ' ', "-")[i] == if ' ' in s && i == FirstIndex(s, ' ') then '-' else LowerChar(s[i])
  {
    LowerKeepsSpaces(s);
    ReplaceFirstChar(AsciiLower(s), ' ', '-');
    if ' ' in s {
      LowerFirstSpace(s);
    }
  }

  /** Lower-casing neither creates nor removes a space. */
  lemma LowerKeepsSpaces(s: string)
    ensures forall i :: 0 <= i < |s| ==> (AsciiLower(s)[i] == ' ' <==> s[i] == ' ')
    ensures ' ' in AsciiLower(s) <==> ' ' in s
  {
    var l := AsciiLower(s);
    if ' ' in l {
      var i :| 0 <= i < |l| && l[i] == ' ';
      assert s[i] == ' ';
    }
    if ' ' in s {
      var i :| 0 <= i < |s| && s[i] == ' ';
      assert l[i] == ' ';
    }
  }

  /** Only the first space is hyphenated: two words give one hyphenated word. */
  lemma HyphenateTwoWords(a: string, b: string)
    requires ' ' !in a
    ensures ReplaceFirst(a + " " + b, ' ', "-") == a + "-" + b
  {
    var s := a + " " + b;
    assert s[|a|] == ' ';
    var k :| 0 <= k < |s| && s[k] == ' ' && ' ' !in s[..k] && ReplaceFirst(s, ' ', "-") == s[..k] + "-" + s[k + 1..];
    assert k == |a| by {
      assert forall j :: 0 <= j < |a| ==> s[j] != ' ';
    }
    assert s[..k] == a && s[k + 1..] == b;
  }

  /** Lower-casing two words keeps the space between them. */
  lemma LowerTwoWords(a: string, b: string)
    ensures AsciiLower(a + " " + b) == AsciiLower(a) + " " + AsciiLower(b)
  {
    var s := a + " " + b;
    var l := AsciiLower(a) + " " + AsciiLower(b);
    assert |AsciiLower(s)| == |l|;
    forall i | 0 <= i < |s|
      ensures AsciiLower(s)[i] == l[i]
    {
      if i < |a| {
        assert s[i] == a[i];
      } else if i > |a| {
        assert s[i] == b[i - |a| - 1];
      }
    }
  }

  /** A flight with the given status (other fields are irrelevant to the header). */
  function WithStatus(status: Field): Flight
  {
    Flight(0, "", "", "", Undefined, Undefined, "", status, Undefined)
  }

  /** A two-word status gets both words lower-cased and joined by "-". */
  lemma StatusClassTwoWords(a: string, b: string)
    requires a != "" && ' ' !in a
    ensures StatusClass(WithStatus(Str(a + " " + b))) == AsciiLower(a) + "-" + AsciiLower(b)
  {
    var s := a + " " + b;
    assert StatusClass(WithStatus(Str(s))) == ReplaceFirst(AsciiLower(s), ' ', "-");
    LowerTwoWords(a, b);
    LowerKeepsSpaces(a);
    HyphenateTwoWords(AsciiLower(a), AsciiLower(b));
  }

  /** "In Air", shown for an airborne flight, gets the class "in-air". */
  lemma StatusClassInAir()
    ensures StatusClass(WithStatus(Str("In Air"))) == "in-air"
  {
    StatusClassTwoWords("In", "Air");
    InAirWords();
  }

  lemma InAirWords()
    ensures "In" + " " + "Air" == "In Air"
    ensures AsciiLower("In") + "-" + AsciiLower("Air") == "in-air"
  {
    assert AsciiLower("In") == "in";
    assert AsciiLower("Air") == "air";
  }

  /** "On Time", shown for a scheduled flight, gets the class "on-time". */
  lemma StatusClassOnTime()
    ensures StatusClass(WithStatus(Str("On Time"))) == "on-time"
  {
    StatusClassTwoWords("On", "Time");
    OnTimeWords();
  }

  lemma OnTimeWords()
    ensures "On" + " " + "Time" == "On Time"
    ensures AsciiLower("On") + "-" + AsciiLower("Time") == "on-time"
  {
    assert AsciiLower("On") == "on";
    assert AsciiLower("Time") == "time";
  }

  /** A one-word status is only lower-cased. */
  lemma StatusClassLanded()
    ensures StatusClass(WithStatus(Str("Landed"))) == "landed"
  {
    assert AsciiLower("Landed") == "landed";
    assert ' ' !in "landed";
  }

  /** A missing or empty status gets the class "unknown" and the text "Unknown". */
  lemma StatusClassMissing(status: Field)
    requires !Truthy(status)
    ensures StatusClass(WithStatus(status)) == "unknown"
    ensures StatusText(WithStatus(status)) == "Unknown"
  {
    assert AsciiLower("unknown") == "unknown";
    assert ' ' !in "unknown";
  }

  /**
   * `formatDate`: "N/A" for a missing time, otherwise the locale rendering
   * of the date, a parameter whose `None` stands for a call that throws and
   * is caught.
   */
  function DisplayTime(time: Field, render: string -> Option<string>): (r: string)
    ensures !Truthy(time) ==> r == "N/A"
    ensures Truthy(time) && render(time.s).Some? ==> r == render(time.s).value
    ensures Truthy(time) && render(time.s).None? ==> r == "N/A"
  {
    if !Truthy(time) then "N/A"
    else match render(time.s)
      case Some(text) => text
      case None => "N/A"
  }
}
