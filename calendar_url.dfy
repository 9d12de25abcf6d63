/**
  The Google Calendar "render?action=TEMPLATE" link that generateCalendarURL
  assembles from the parsed event (google-calendar-chatgpt-assisted.ts:99-107):
  four independently conditional parameters, in a fixed order, after a fixed
  base URL. JavaScript truthiness decides each one, so an absent field and an
  empty string both contribute nothing.
*/
module CalendarUrl {
  import opened Wrappers
  import opened Unicode
  import opened UriComponent
  import opened ZuluTime
  import opened Query

  const GoogleCalendarBaseUrl: string := "https://calendar.google.com/calendar/render?action=TEMPLATE"

  /** The `dates` object of the parsed reply; either end may be missing. */
  datatype Dates = Dates(start: Option<JSString>, end: Option<JSString>)

  /** IEventDetails: every field optional. */
  datatype EventDetails = EventDetails(eventName: Option<JSString>, dates: Option<Dates>,
                                       details: Option<JSString>, location: Option<JSString>)

  /**
    `new Date(s).toISOString()` as the host computes it: the ISO text, or None
    where the Date is invalid and toISOString throws a RangeError.
  */
  type DateToIso = JSString -> Option<string>

  /** JavaScript truthiness of an optional string: present and not "". */
  predicate Truthy(v: Option<JSString>)
  {
    v.Some? && v.value != []
  }

  /** `parsedResponse.dates?.start || ""` */
  function StartText(d: EventDetails): JSString
  {
    if d.dates.Some? && d.dates.value.start.Some? then d.dates.value.start.value else []
  }

  /** `parsedResponse.dates?.end || ""` */
  function EndText(d: EventDetails): JSString
  {
    if d.dates.Some? && d.dates.value.end.Some? then d.dates.value.end.value else []
  }

  /**
    `value ? \`&key=${encodeURIComponent(value)}\` : ''`; None where
    encodeURIComponent throws.
  */
  function TextParam(key: string, v: Option<JSString>): Option<string>
  {
    if !Truthy(v) then Some("")
    else
      match EncodeURIComponent(v.value)
      case None => None
      case Some(e) => Some("&" + key + "=" + e)
  }

  /** `startDate && endDate ? \`&dates=${startDate}/${endDate}\` : ''` */
  function DateParam(startDate: string, endDate: string): string
  {
    if startDate != "" && endDate != "" then "&dates=" + startDate + "/" + endDate else ""
  }

  /** The calendar URL, or None where one of the encodeURIComponent calls throws a URIError. */
  function BuildCalendarURL(d: EventDetails, toIso: DateToIso): Option<string>
  {
    var eventName := TextParam("text", d.eventName);
    var startDate := ConvertToZulu(toIso(StartText(d)));
    var endDate := ConvertToZulu(toIso(EndText(d)));
    var dateParam := DateParam(startDate, endDate);
    var details := TextParam("details", d.details);
    var location := TextParam("location", d.location);
    if eventName.None? || details.None? || location.None? then None
    else Some(GoogleCalendarBaseUrl + eventName.value + dateParam + details.value + location.value)
  }

  // ------------------------------------------------------------ what the URL holds

  /** toISOString never writes '&' (it writes digits, '-', '+', ':', '.', 'T' and 'Z'). */
  ghost predicate IsoTextHasNoAmpersand(toIso: DateToIso)
  {
    forall s :: toIso(s).Some? ==> '&' !in toIso(s).value
  }

  /** The order in which the parameters are appended. */
  function KeyRank(key: string): nat
  {
    if key == "text" then 0 else if key == "dates" then 1
    else if key == "details" then 2 else if key == "location" then 3 else 4
  }

  ghost predicate Encodable(v: Option<JSString>)
  {
    Truthy(v) ==> EncodeURIComponent(v.value).Some?
  }

  /** The parameter a text field contributes, as a list of zero or one. */
  ghost function TextParams(key: string, v: Option<JSString>): seq<Param>
    requires Encodable(v)
  {
    if Truthy(v) then [Param(key, EncodeURIComponent(v.value).value)] else []
  }

  ghost function DateParams(d: EventDetails, toIso: DateToIso): seq<Param>
  {
    var s, e := toIso(StartText(d)), toIso(EndText(d));
    if s.Some? && e.Some? then [Param("dates", CompactZulu(s.value) + "/" + CompactZulu(e.value))] else []
  }

  ghost function UrlParams(d: EventDetails, toIso: DateToIso): seq<Param>
    requires Encodable(d.eventName) && Encodable(d.details) && Encodable(d.location)
  {
    TextParams("text", d.eventName) + DateParams(d, toIso)
    + TextParams("details", d.details) + TextParams("location", d.location)
  }

  ghost predicate KeysOrdered(ps: seq<Param>)
  {
    forall i, j :: 0 <= i < j < |ps| ==> KeyRank(ps[i].key) < KeyRank(ps[j].key)
  }

  // ------------------------------------------------------------ lemmas

  /** A URIError is thrown exactly when a truthy text field holds an unpaired surrogate. */
  lemma BuildFailsIffUnpairedSurrogate(d: EventDetails, toIso: DateToIso)
    ensures BuildCalendarURL(d, toIso).Some? <==>
      && (Truthy(d.eventName) ==> WellFormed(d.eventName.value))
      && (Truthy(d.details) ==> WellFormed(d.details.value))
      && (Truthy(d.location) ==> WellFormed(d.location.value))
  {
    if Truthy(d.eventName) { EncodeDefinedIffWellFormed(d.eventName.value); }
    if Truthy(d.details) { EncodeDefinedIffWellFormed(d.details.value); }
    if Truthy(d.location) { EncodeDefinedIffWellFormed(d.location.value); }
  }

  lemma TextParamRendered(key: string, v: Option<JSString>)
    requires Encodable(v)
    ensures TextParam(key, v) == Some(RenderQuery(TextParams(key, v)))
  {
    if Truthy(v) {
      var p := TextParams(key, v)[0];
      assert RenderQuery([p]) == RenderParam(p) + RenderQuery([]);
      assert RenderParam(p) + "" == RenderParam(p);
    }
  }

  lemma DateParamRendered(startDate: string, endDate: string)
    ensures DateParam(startDate, endDate) ==
      RenderQuery(if startDate != "" && endDate != "" then [Param("dates", startDate + "/" + endDate)] else [])
  {
    if startDate != "" && endDate != "" {
      var p := Param("dates", startDate + "/" + endDate);
      assert RenderQuery([p]) == RenderParam(p) + RenderQuery([]);
      assert RenderParam(p) + "" == RenderParam(p);
      assert "&dates=" == "&" + "dates" + "=";
    }
  }

  lemma DateParamsRendered(d: EventDetails, toIso: DateToIso)
    ensures DateParam(ConvertToZulu(toIso(StartText(d))), ConvertToZulu(toIso(EndText(d))))
            == RenderQuery(DateParams(d, toIso))
  {
    var s, e := toIso(StartText(d)), toIso(EndText(d));
    DateParamRendered(ConvertToZulu(s), ConvertToZulu(e));
  }

  lemma ConcatFive(base: string, a: string, b: string, c: string, e: string)
    ensures base + a + b + c + e == base + (a + b + c + e)
  {
  }

  /** The URL is the base followed by the rendered list of present parameters. */
  lemma BuildRendersParams(d: EventDetails, toIso: DateToIso)
    requires BuildCalendarURL(d, toIso).Some?
    ensures Encodable(d.eventName) && Encodable(d.details) && Encodable(d.location)
    ensures BuildCalendarURL(d, toIso).value == GoogleCalendarBaseUrl + RenderQuery(UrlParams(d, toIso))
  {
    var a, b := TextParams("text", d.eventName), DateParams(d, toIso);
    var c, e := TextParams("details", d.details), TextParams("location", d.location);
    TextParamRendered("text", d.eventName);
    DateParamsRendered(d, toIso);
    TextParamRendered("details", d.details);
    TextParamRendered("location", d.location);
    RenderQueryAppend(a, b);
    RenderQueryAppend(a + b, c);
    RenderQueryAppend(a + b + c, e);
    assert UrlParams(d, toIso) == a + b + c + e;
    ConcatFive(GoogleCalendarBaseUrl, RenderQuery(a), RenderQuery(b), RenderQuery(c), RenderQuery(e));
  }

  ghost predicate AllPlain(ps: seq<Param>)
  {
    forall i :: 0 <= i < |ps| ==> Plain(ps[i])
  }

  lemma AllPlainAppend(a: seq<Param>, b: seq<Param>)
    requires AllPlain(a) && AllPlain(b)
    ensures AllPlain(a + b)
  {
    assert forall i :: |a| <= i < |a + b| ==> (a + b)[i] == b[i - |a|];
  }

  lemma TextParamsPlain(key: string, v: Option<JSString>)
    requires Encodable(v) && '&' !in key && '=' !in key
    ensures AllPlain(TextParams(key, v))
  {
    if Truthy(v) {
      EncodedAlphabet(v.value);
    }
  }

  lemma DateParamsPlain(d: EventDetails, toIso: DateToIso)
    requires IsoTextHasNoAmpersand(toIso)
    ensures AllPlain(DateParams(d, toIso))
  {
    var s, e := toIso(StartText(d)), toIso(EndText(d));
    if s.Some? && e.Some? {
      CompactZuluLacks(s.value, '&');
      CompactZuluLacks(e.value, '&');
    }
  }

  lemma UrlParamsPlain(d: EventDetails, toIso: DateToIso)
    requires Encodable(d.eventName) && Encodable(d.details) && Encodable(d.location)
    requires IsoTextHasNoAmpersand(toIso)
    ensures AllPlain(UrlParams(d, toIso))
  {
    var a, b := TextParams("text", d.eventName), DateParams(d, toIso);
    var c, e := TextParams("details", d.details), TextParams("location", d.location);
    TextParamsPlain("text", d.eventName);
    DateParamsPlain(d, toIso);
    TextParamsPlain("details", d.details);
    TextParamsPlain("location", d.location);
    AllPlainAppend(a, b);
    AllPlainAppend(a + b, c);
    AllPlainAppend(a + b + c, e);
  }

  /** Reading the query back gives exactly the list of present parameters. */
  lemma QueryReadsBack(d: EventDetails, toIso: DateToIso)
    requires BuildCalendarURL(d, toIso).Some? && IsoTextHasNoAmpersand(toIso)
    ensures Encodable(d.eventName) && Encodable(d.details) && Encodable(d.location)
    ensures var url := BuildCalendarURL(d, toIso).value;
      && GoogleCalendarBaseUrl <= url
      && ParseQuery(url[|GoogleCalendarBaseUrl|..]) == Some(UrlParams(d, toIso))
  {
    BuildRendersParams(d, toIso);
    UrlParamsPlain(d, toIso);
    var ps := UrlParams(d, toIso);
    ParseRenderQuery(ps);
    var url := BuildCalendarURL(d, toIso).value;
    assert url[|GoogleCalendarBaseUrl|..] == RenderQuery(ps);
  }

  lemma OrderedAppendRank(a: seq<Param>, q: seq<Param>, r: nat)
    requires KeysOrdered(a) && (forall i :: 0 <= i < |a| ==> KeyRank(a[i].key) < r)
    requires |q| <= 1 && (forall i :: 0 <= i < |q| ==> KeyRank(q[i].key) == r)
    ensures KeysOrdered(a + q) && (forall i :: 0 <= i < |a + q| ==> KeyRank((a + q)[i].key) <= r)
  {
  }

  /** A text field contributes at most one parameter, under its own key. */
  lemma TextParamsRank(key: string, v: Option<JSString>, r: nat)
    requires Encodable(v) && KeyRank(key) == r
    ensures |TextParams(key, v)| <= 1
    ensures forall i :: 0 <= i < |TextParams(key, v)| ==> KeyRank(TextParams(key, v)[i].key) == r
  {
  }

  lemma DateParamsRank(d: EventDetails, toIso: DateToIso)
    ensures |DateParams(d, toIso)| <= 1
    ensures forall i :: 0 <= i < |DateParams(d, toIso)| ==> KeyRank(DateParams(d, toIso)[i].key) == 1
  {
    assert "dates" != "text";
  }

  lemma KeyRanks()
    ensures KeyRank("text") == 0 && KeyRank("dates") == 1
    ensures KeyRank("details") == 2 && KeyRank("location") == 3
  {
    assert "dates" != "text";
    assert "details" != "text" && "details" != "dates";
    assert "location" != "text" && "location" != "dates" && "location" != "details";
  }

  lemma OrderedFour(a: seq<Param>, b: seq<Param>, c: seq<Param>, e: seq<Param>)
    requires |a| <= 1 && forall i :: 0 <= i < |a| ==> KeyRank(a[i].key) == 0
    requires |b| <= 1 && forall i :: 0 <= i < |b| ==> KeyRank(b[i].key) == 1
    requires |c| <= 1 && forall i :: 0 <= i < |c| ==> KeyRank(c[i].key) == 2
    requires |e| <= 1 && forall i :: 0 <= i < |e| ==> KeyRank(e[i].key) == 3
    ensures KeysOrdered(a + b + c + e)
    ensures forall i :: 0 <= i < |a + b + c + e| ==> KeyRank((a + b + c + e)[i].key) < 4
  {
    OrderedAppendRank([], a, 0);
    assert [] + a == a;
    OrderedAppendRank(a, b, 1);
    OrderedAppendRank(a + b, c, 2);
    OrderedAppendRank(a + b + c, e, 3);
  }

  /** The parameters appear in the order text, dates, details, location, each at most once. */
  lemma UrlParamsOrdered(d: EventDetails, toIso: DateToIso)
    requires Encodable(d.eventName) && Encodable(d.details) && Encodable(d.location)
    ensures KeysOrdered(UrlParams(d, toIso))
    ensures forall i :: 0 <= i < |UrlParams(d, toIso)| ==> KeyRank(UrlParams(d, toIso)[i].key) < 4
  {
    KeyRanks();
    TextParamsRank("text", d.eventName, 0);
    DateParamsRank(d, toIso);
    TextParamsRank("details", d.details, 2);
    TextParamsRank("location", d.location, 3);
    OrderedFour(TextParams("text", d.eventName), DateParams(d, toIso),
                TextParams("details", d.details), TextParams("location", d.location));
  }

  lemma LookupFour(a: seq<Param>, b: seq<Param>, c: seq<Param>, e: seq<Param>, key: string)
    ensures Lookup(a + b + c + e, key) ==
      if Lookup(a, key).Some? then Lookup(a, key)
      else if Lookup(b, key).Some? then Lookup(b, key)
      else if Lookup(c, key).Some? then Lookup(c, key)
      else Lookup(e, key)
  {
    LookupAppend(a, b, key);
    LookupAppend(a + b, c, key);
    LookupAppend(a + b + c, e, key);
  }

  lemma TextParamsLookup(key: string, v: Option<JSString>, other: string)
    requires Encodable(v) && other != key
    ensures Lookup(TextParams(key, v), key) == (if Truthy(v) then EncodeURIComponent(v.value) else None)
    ensures Lookup(TextParams(key, v), other) == None
  {
  }

  lemma DateParamsLookup(d: EventDetails, toIso: DateToIso, other: string)
    requires other != "dates"
    ensures var s, e := toIso(StartText(d)), toIso(EndText(d));
      Lookup(DateParams(d, toIso), "dates") ==
        if s.Some? && e.Some? then Some(CompactZulu(s.value) + "/" + CompactZulu(e.value)) else None
    ensures Lookup(DateParams(d, toIso), other) == None
  {
  }

  /** Which parameters are present, and what each holds. */
  lemma UrlParamsLookup(d: EventDetails, toIso: DateToIso)
    requires Encodable(d.eventName) && Encodable(d.details) && Encodable(d.location)
    ensures var ps, s, e := UrlParams(d, toIso), toIso(StartText(d)), toIso(EndText(d));
      && Lookup(ps, "text") == (if Truthy(d.eventName) then EncodeURIComponent(d.eventName.value) else None)
      && Lookup(ps, "details") == (if Truthy(d.details) then EncodeURIComponent(d.details.value) else None)
      && Lookup(ps, "location") == (if Truthy(d.location) then EncodeURIComponent(d.location.value) else None)
      && Lookup(ps, "dates") == (if s.Some? && e.Some? then Some(CompactZulu(s.value) + "/" + CompactZulu(e.value)) else None)
  {
    var a, b := TextParams("text", d.eventName), DateParams(d, toIso);
    var c, e := TextParams("details", d.details), TextParams("location", d.location);
    KeyRanks();
    LookupFour(a, b, c, e, "text");
    LookupFour(a, b, c, e, "dates");
    LookupFour(a, b, c, e, "details");
    LookupFour(a, b, c, e, "location");
    TextParamsLookup("text", d.eventName, "dates");
    TextParamsLookup("text", d.eventName, "details");
    TextParamsLookup("text", d.eventName, "location");
    DateParamsLookup(d, toIso, "details");
    DateParamsLookup(d, toIso, "location");
    TextParamsLookup("details", d.details, "location");
    TextParamsLookup("location", d.location, "text");
  }

  /**
    What a calendar URL says: after the base, a query that reads back into
    parameters in the order text, dates, details, location; a text parameter
    is present exactly when its field is truthy and decodes back to the
    field; the range is present exactly when both ends convert, and holds the
    two compact Zulu times separated by '/'.
  */
  lemma CalendarUrlRoundTrip(d: EventDetails, toIso: DateToIso)
    requires BuildCalendarURL(d, toIso).Some? && IsoTextHasNoAmpersand(toIso)
    ensures var url := BuildCalendarURL(d, toIso).value;
      && GoogleCalendarBaseUrl <= url
      && ParseQuery(url[|GoogleCalendarBaseUrl|..]).Some?
    ensures var ps := ParseQuery(BuildCalendarURL(d, toIso).value[|GoogleCalendarBaseUrl|..]).value;
      && KeysOrdered(ps)
      && (forall i :: 0 <= i < |ps| ==> KeyRank(ps[i].key) < 4)
      && (Lookup(ps, "text").Some? <==> Truthy(d.eventName))
      && (Lookup(ps, "text").Some? ==> DecodeComponent(Lookup(ps, "text").value) == d.eventName)
      && (Lookup(ps, "details").Some? <==> Truthy(d.details))
      && (Lookup(ps, "details").Some? ==> DecodeComponent(Lookup(ps, "details").value) == d.details)
      && (Lookup(ps, "location").Some? <==> Truthy(d.location))
      && (Lookup(ps, "location").Some? ==> DecodeComponent(Lookup(ps, "location").value) == d.location)
    ensures var ps := ParseQuery(BuildCalendarURL(d, toIso).value[|GoogleCalendarBaseUrl|..]).value;
      var s, e := toIso(StartText(d)), toIso(EndText(d));
      Lookup(ps, "dates") == if s.Some? && e.Some? then Some(CompactZulu(s.value) + "/" + CompactZulu(e.value)) else None
  {
    QueryReadsBack(d, toIso);
    UrlParamsOrdered(d, toIso);
    UrlParamsLookup(d, toIso);
    var ps := UrlParams(d, toIso);
    FieldReadsBack(ps, "text", d.eventName);
    FieldReadsBack(ps, "details", d.details);
    FieldReadsBack(ps, "location", d.location);
  }

  lemma FieldReadsBack(ps: seq<Param>, key: string, v: Option<JSString>)
    requires Encodable(v)
    requires Lookup(ps, key) == if Truthy(v) then EncodeURIComponent(v.value) else None
    ensures Lookup(ps, key).Some? <==> Truthy(v)
    ensures Lookup(ps, key).Some? ==> DecodeComponent(Lookup(ps, key).value) == v
  {
    if Truthy(v) { EncodeRoundTrip(v.value); }
  }

  /**
    The URL is the bare base exactly when no text field is truthy and at
    least one end of the range fails to convert.
  */
  lemma BaseUrlOnly(d: EventDetails, toIso: DateToIso)
    ensures BuildCalendarURL(d, toIso) == Some(GoogleCalendarBaseUrl) <==>
      && !Truthy(d.eventName) && !Truthy(d.details) && !Truthy(d.location)
      && (toIso(StartText(d)).None? || toIso(EndText(d)).None?)
  {
    var url := BuildCalendarURL(d, toIso);
    if url == Some(GoogleCalendarBaseUrl) {
      var a, c, e := TextParam("text", d.eventName), TextParam("details", d.details), TextParam("location", d.location);
      var b := DateParam(ConvertToZulu(toIso(StartText(d))), ConvertToZulu(toIso(EndText(d))));
      assert |url.value| == |GoogleCalendarBaseUrl| + |a.value| + |b| + |c.value| + |e.value|;
      assert a.value == [] && b == [] && c.value == [] && e.value == [];
    } else if !Truthy(d.eventName) && !Truthy(d.details) && !Truthy(d.location) {
      assert GoogleCalendarBaseUrl + "" + "" + "" + "" == GoogleCalendarBaseUrl;
    }
  }

  /**
    An event whose text fields are all absent or empty and which lacks a
    start or an end gives the bare base URL, since `new Date("")` is an
    invalid date.
  */
  lemma EmptyEventGivesBaseUrl(d: EventDetails, toIso: DateToIso)
    requires toIso([]).None?
    requires d.eventName in {None, Some([])} && d.details in {None, Some([])} && d.location in {None, Some([])}
    requires StartText(d) == [] || EndText(d) == []
    ensures BuildCalendarURL(d, toIso) == Some(GoogleCalendarBaseUrl)
  {
    BaseUrlOnly(d, toIso);
  }

  /** A field holding "" builds the same URL as the field left out. */
  lemma EmptyStringActsAsAbsent(d: EventDetails, toIso: DateToIso)
    requires toIso([]).None?
    ensures BuildCalendarURL(d.(eventName := Some([])), toIso) == BuildCalendarURL(d.(eventName := None), toIso)
    ensures BuildCalendarURL(d.(details := Some([])), toIso) == BuildCalendarURL(d.(details := None), toIso)
    ensures BuildCalendarURL(d.(location := Some([])), toIso) == BuildCalendarURL(d.(location := None), toIso)
    ensures BuildCalendarURL(d.(dates := Some(Dates(Some([]), Some([])))), toIso)
            == BuildCalendarURL(d.(dates := None), toIso)
  {
  }

  /**
    A missing `dates` object, or a missing or empty start or end, leaves the
    range out.
  */
  lemma MissingEndOmitsRange(d: EventDetails, toIso: DateToIso)
    requires toIso([]).None?
    requires StartText(d) == [] || EndText(d) == []
    ensures DateParam(ConvertToZulu(toIso(StartText(d))), ConvertToZulu(toIso(EndText(d)))) == ""
    ensures DateParams(d, toIso) == []
  {
  }

  /**
    Both ends given in toISOString's own four-digit-year form yield the range
    "YYYYMMDDTHHMMSSZ/YYYYMMDDTHHMMSSZ".
  */
  lemma RangeOfTimestamps(d: EventDetails, toIso: DateToIso, t1: Timestamp, t2: Timestamp)
    requires t1.Valid() && t2.Valid()
    requires toIso(StartText(d)) == Some(t1.IsoText()) && toIso(EndText(d)) == Some(t2.IsoText())
    ensures DateParams(d, toIso) == [Param("dates", t1.ZuluText() + "/" + t2.ZuluText())]
    ensures DateParam(ConvertToZulu(toIso(StartText(d))), ConvertToZulu(toIso(EndText(d))))
            == "&dates=" + t1.ZuluText() + "/" + t2.ZuluText()
  {
    CompactZuluOfIso(t1);
    CompactZuluOfIso(t2);
  }
}
