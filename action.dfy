/**
  The outcome of the extension's action once the chat reply is in: either the
  calendar URL, or the error the action throws. An HTTP 401 from the API is
  turned into a settings error; every other failure, including a URIError
  from encodeURIComponent, is thrown again unchanged
  (google-calendar-chatgpt-assisted.ts:112-121).
*/
module Action {
  import opened Wrappers
  import opened CalendarUrl
  import Unicode

  datatype HttpResponse = HttpResponse(status: int)

  /** A thrown JavaScript error: its name, its message and, for an HTTP failure, the response. */
  datatype ThrownError = ThrownError(name: string, message: string, response: Option<HttpResponse>)

  const ApiKeyError := ThrownError("Error", "Settings error: Incorrect or missing API key", None)

  /**
    What encodeURIComponent throws on an unpaired surrogate. ECMA-262 fixes
    only the name; the message is the engine's own wording (V8's is used here,
    JavaScriptCore words it differently).
  */
  const UriError := ThrownError("URIError", "URI malformed", None)

  predicate IsUnauthorized(e: ThrownError)
  {
    e.response.Some? && e.response.value.status == 401
  }

  /** The catch block: a 401 becomes the settings error, anything else is rethrown. */
  function Classify(e: ThrownError): (r: ThrownError)
    ensures !IsUnauthorized(r)
    ensures r == e <==> !IsUnauthorized(e)
    ensures IsUnauthorized(e) ==> r.message == "Settings error: Incorrect or missing API key"
  {
    if IsUnauthorized(e) then ApiKeyError else e
  }

  /**
    generateCalendarURL after the request: `reply` is the parsed event, or the
    error the request or JSON.parse threw; `toIso` is the host's
    `new Date(s).toISOString()`.
  */
  function GenerateCalendarURL(reply: Result<EventDetails, ThrownError>, toIso: DateToIso)
    : (r: Result<string, ThrownError>)
    ensures r.Ok? <==> reply.Ok? && BuildCalendarURL(reply.value, toIso).Some?
    ensures r.Ok? ==> r.value == BuildCalendarURL(reply.value, toIso).value
    ensures r.Err? ==> !IsUnauthorized(r.error)
  {
    match reply
    case Err(e) => Err(Classify(e))
    case Ok(d) =>
      match BuildCalendarURL(d, toIso)
      case None => Err(Classify(UriError))
      case Some(url) => Ok(url)
  }

  /** A failed request surfaces as the settings error exactly when it was a 401. */
  lemma FailedRequestOutcome(e: ThrownError, toIso: DateToIso)
    ensures GenerateCalendarURL(Err(e), toIso) == Err(ApiKeyError) <==> IsUnauthorized(e) || e == ApiKeyError
    ensures !IsUnauthorized(e) ==> GenerateCalendarURL(Err(e), toIso) == Err(e)
  {
  }

  /**
    A parsed reply fails exactly when a truthy text field holds an unpaired
    surrogate, and then with the URIError itself.
  */
  lemma ParsedReplyOutcome(d: EventDetails, toIso: DateToIso)
    ensures GenerateCalendarURL(Ok(d), toIso).Err? <==>
      || (Truthy(d.eventName) && !Unicode.WellFormed(d.eventName.value))
      || (Truthy(d.details) && !Unicode.WellFormed(d.details.value))
      || (Truthy(d.location) && !Unicode.WellFormed(d.location.value))
    ensures GenerateCalendarURL(Ok(d), toIso).Err? ==> GenerateCalendarURL(Ok(d), toIso).error == UriError
  {
    BuildFailsIffUnpairedSurrogate(d, toIso);
  }
}
