/**
 * `check_url`: one probe of one URL. The HTTP exchange is a parameter: it
 * either answers with a status code or fails with an exception message,
 * and reports the elapsed milliseconds. The record it builds carries the
 * URL, the status, the query keys, the time and the error.
 */
module Probe {
  import opened Wrappers
  import opened Strings
  import opened Query

  /** The record `check_url` returns: the keys `url`, `status`, `params`, `time_ms`, `error`. */
  datatype ProbeResult = ProbeResult(
    url: string,
    status: Option<nat>,
    params: seq<string>,
    timeMs: nat,
    error: Option<string>)

  /** The request `check_url` sends: `session.get(url)` or `session.post(url, data=data)`. */
  datatype Request = Get | Post(data: Option<string>)

  /** What the session call ends in: a response with its status code, or an exception and its `str()`. */
  datatype Outcome = Response(code: nat) | Failure(message: string)

  /** The outcome and the elapsed time, `int(elapsed * 1000)`, measured around the call. */
  datatype Exchange = Exchange(outcome: Outcome, elapsedMs: nat)

  /** `method.upper() == "GET"`. */
  predicate IsGetMethod(verb: string)
  {
    Upper(verb) == "GET"
  }

  /**
   * The request for a method string: GET exactly when the method is "get"
   * in any mix of letter cases, POST with the body otherwise, whatever the
   * string is.
   */
  function RequestFor(verb: string, data: Option<string>): (r: Request)
    ensures r.Get? <==> SpellsGet(verb)
    ensures r.Post? ==> r.data == data
  {
    GetMethodSpelling(verb);
    if IsGetMethod(verb) then Get else Post(data)
  }

  /** "get" in any mix of letter cases. */
  predicate SpellsGet(verb: string)
  {
    && |verb| == 3
    && (verb[0] == 'g' || verb[0] == 'G')
    && (verb[1] == 'e' || verb[1] == 'E')
    && (verb[2] == 't' || verb[2] == 'T')
  }

  /** A string upper-cases to "GET" exactly when it spells "get" in some mix of cases. */
  lemma GetMethodSpelling(verb: string)
    ensures IsGetMethod(verb) <==> SpellsGet(verb)
  {
    var u := Upper(verb);
    if |verb| == 3 {
      assert u == [UpperChar(verb[0]), UpperChar(verb[1]), UpperChar(verb[2])];
    } else {
      assert |u| != |"GET"|;
    }
  }

  /**
   * `check_url(session, url, method, data)`, with the session call given as
   * `send`. It never fails: a response gives the status, the URL's query
   * keys and no error; an exception gives no status, no keys (even when the
   * URL has a query) and the exception's message.
   */
  function CheckUrl(url: string, verb: string, data: Option<string>,
                    send: Request -> Exchange, unescape: Unescape): (r: ProbeResult)
    ensures r.url == url
    ensures r.timeMs == send(RequestFor(verb, data)).elapsedMs
    ensures WellFormed(r, unescape)
    ensures OutcomeOf(r) == send(RequestFor(verb, data)).outcome
  {
    var exchange := send(RequestFor(verb, data));
    match exchange.outcome
    case Response(code) => ProbeResult(url, Some(code), ExtractParams(url, unescape), exchange.elapsedMs, None)
    case Failure(message) => ProbeResult(url, None, [], exchange.elapsedMs, Some(message))
  }

  /**
   * The shape every record of `check_url` has: exactly one of status and
   * error is set; a record with an error has no keys, and a record with a
   * status has the URL's query keys.
   */
  predicate WellFormed(r: ProbeResult, unescape: Unescape)
  {
    && (r.status.Some? <==> r.error.None?)
    && (r.error.Some? ==> r.params == [])
    && (r.status.Some? ==> r.params == ExtractParams(r.url, unescape))
  }

  /** The outcome a well-formed record was built from. */
  function OutcomeOf(r: ProbeResult): Outcome
  {
    if r.status.Some? then Response(r.status.value)
    else if r.error.Some? then Failure(r.error.value)
    else Failure("")
  }

  /** A well-formed record is the one `check_url` builds from its URL and the outcome it records. */
  lemma WellFormedIsCheckUrl(r: ProbeResult, verb: string, data: Option<string>, unescape: Unescape)
    requires WellFormed(r, unescape)
    ensures CheckUrl(r.url, verb, data, _ => Exchange(OutcomeOf(r), r.timeMs), unescape) == r
  {
  }

  /** A failed probe never reports keys, whatever its URL holds. */
  lemma FailureHasNoParams(url: string, verb: string, data: Option<string>,
                           send: Request -> Exchange, unescape: Unescape)
    requires send(RequestFor(verb, data)).outcome.Failure?
    ensures CheckUrl(url, verb, data, send, unescape).params == []
    ensures CheckUrl(url, verb, data, send, unescape).status.None?
  {
    assert OutcomeOf(CheckUrl(url, verb, data, send, unescape)).Failure?;
  }

  /** The method string "GET" (any case) sends a GET; "POST" and everything else a POST with the body. */
  lemma MethodChoice(data: Option<string>)
    ensures RequestFor("GET", data) == Get && RequestFor("get", data) == Get
    ensures RequestFor("POST", data) == Post(data) && RequestFor("", data) == Post(data)
  {
  }
}
