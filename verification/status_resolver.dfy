/** `HttpStatusResolver`: reduces a URL to one of the symbols `:success`,
    `:not_found` or `:error`, asking the HTTP client's `response_for` only for
    http and https URLs. */
module StatusResolver {
  import opened Wrappers
  import HttpTypes
  import HttpClient
  import RequestFlow

  /** The three symbols `resolve` returns. */
  datatype Verdict = Success | NotFound | Failure

  /** The verdict, and whether `response_for` was called to reach it. */
  datatype Resolved = Resolved(verdict: Verdict, asked: bool)

  predicate WebScheme(scheme: Option<string>) {
    scheme == Some("http") || scheme == Some("https")
  }

  /** The status `request_status` reports: the client's hash, or `nil` when
      the client returned `nil` or raised. */
  function ReportedStatus(answer: Result<Option<HttpClient.StatusReport>, HttpTypes.Error>): Option<int> {
    match answer
    case Ok(Some(report)) => Some(report.status)
    case _ => None
  }

  /** `resolve(url)`. `uri` is `URI.parse(url)` (`None` when it raises) and
      `answer` is what `response_for(url)` returns or raises; it is consulted
      only when the scheme is http or https. */
  function Resolve(uri: Option<HttpTypes.Uri>, answer: Result<Option<HttpClient.StatusReport>, HttpTypes.Error>): (r: Resolved)
    ensures r.asked <==> uri.Some? && WebScheme(uri.value.scheme)
    ensures !r.asked ==> r.verdict == Failure
    ensures r.verdict == Success <==> r.asked && ReportedStatus(answer).Some? && 200 <= ReportedStatus(answer).value <= 299
    ensures r.verdict == NotFound <==>
              r.asked && (ReportedStatus(answer) == Some(404) || ReportedStatus(answer) == Some(410))
    ensures r.asked && ReportedStatus(answer).None? ==> r.verdict == Failure
  {
    if uri.None? || !WebScheme(uri.value.scheme) then Resolved(Failure, false)
    else
      match ReportedStatus(answer)
      case None => Resolved(Failure, true)
      case Some(status) =>
        if 200 <= status <= 299 then Resolved(Success, true)
        else if status == 404 || status == 410 then Resolved(NotFound, true)
        else Resolved(Failure, true)
  }

  /** What a call of the client's `response_for` gives back to the resolver:
      the block's value, `nil` on exhaustion, or the raised error. */
  function ClientAnswer(run: HttpClient.Retried<Option<HttpClient.StatusReport>>): Result<Option<HttpClient.StatusReport>, HttpTypes.Error> {
    match run.outcome
    case Done(v) => Ok(v)
    case GaveUp => Ok(None)
    case Raised(e) => Err(e)
  }

  /** Through the client's `response_for`, a 404 reaches the resolver as the
      report `response_for` builds from `NotFoundError`, and becomes `:not_found`. */
  lemma NotFoundThroughClient(s: HttpClient.Settings, flows: nat -> Result<(HttpTypes.Response, RequestFlow.Payload), HttpTypes.Error>,
                              pick: nat -> real, uri: HttpTypes.Uri, u: string, origin: string, op: string)
    requires s.maxRetries >= 1
    requires forall i :: -1.0 <= pick(i) <= 1.0
    requires WebScheme(uri.scheme)
    requires flows(1) == Err(HttpTypes.NotFound(u, origin, op, 404))
    ensures Resolve(Some(uri), ClientAnswer(HttpClient.ResponseForAsWritten(s, flows, pick))).verdict == NotFound
    ensures Resolve(Some(uri), ClientAnswer(HttpClient.ResponseFor(s, flows, pick))) == Resolved(NotFound, true)
  {
    var r := HttpClient.ResponseFor(s, flows, pick);
    assert !HttpTypes.Retryable(flows(1).error);
    assert r.attempts == 1;
  }

  /** A 410 is classified by the response processor as a plain HTTP error,
      which `response_for` turns into `nil`; so through the client the
      resolver answers `:error` for it, and `:not_found` only for 404. */
  lemma GoneThroughClient(s: HttpClient.Settings, flows: nat -> Result<(HttpTypes.Response, RequestFlow.Payload), HttpTypes.Error>,
                          pick: nat -> real, uri: HttpTypes.Uri, u: string, origin: string, op: string, resp: HttpTypes.Response)
    requires s.maxRetries >= 1
    requires forall i :: -1.0 <= pick(i) <= 1.0
    requires WebScheme(uri.scheme)
    requires flows(1) == Err(HttpTypes.HttpError(u, origin, op, 410, resp))
    ensures Resolve(Some(uri), ClientAnswer(HttpClient.ResponseForAsWritten(s, flows, pick))) == Resolved(Failure, true)
    ensures Resolve(Some(uri), ClientAnswer(HttpClient.ResponseFor(s, flows, pick))) == Resolved(Failure, true)
  {
    var r := HttpClient.ResponseFor(s, flows, pick);
    assert !HttpTypes.Retryable(flows(1).error);
    assert r.attempts == 1;
  }
}
