/** `HttpClient::ResponseProcessor`: classifies a response by status code,
    recognises redirects, and reads `Retry-After` (delay-seconds or an
    HTTP-date, section 10.2.3 of RFC 9110). Raised exceptions are the `Err`
    side of a `Result`; `Time.now` is the `now` parameter and `Time.httpdate`
    the partial function `httpDate` (seconds since the epoch, `None` where
    Ruby raises `ArgumentError`). */
module ResponseProcessor {
  import opened Wrappers
  import opened Assoc
  import opened Strings
  import opened Numbers
  import opened HttpTypes

  const DefaultTooManyRequestsDelay: real := 60.0
  const DefaultServiceUnavailableDelay: real := 60.0

  /** The two fallback delays a processor is built with. */
  datatype Processor = Processor(tooManyRequestsDelay: real, serviceUnavailableDelay: real)

  const DefaultProcessor := Processor(DefaultTooManyRequestsDelay, DefaultServiceUnavailableDelay)

  /** The clock and date parser a classification reads. */
  datatype Clock = Clock(now: real, httpDate: string -> Option<real>)

  /** `redirect?`: a 3xx status other than 304. */
  predicate IsRedirect(r: Response) {
    300 <= r.status < 400 && r.status != 304
  }

  /** `extract_redirect_location`: the `location` header as sent, or `nil`. */
  function RedirectLocation(r: Response): (loc: Option<string>)
    ensures loc.Some? ==> ("location", loc.value) in r.headers
    ensures loc.None? <==> "location" !in Keys(r.headers)
  {
    var v := Header(r, "location");
    if v.Some? then GetIn(r.headers, "location"); v else v
  }

  /** `parse_retry_after_value`: a digits-only value is read as an integer,
      anything else as an HTTP-date whose distance from now is rounded up;
      `nil` when absent or unreadable. */
  function RetryAfterValue(value: Option<string>, clock: Clock): (r: Option<int>)
    ensures value.None? ==> r.None?
    ensures value.Some? && IsDigits(value.value) ==> r == Some(DigitsValue(value.value))
    ensures value.Some? && !IsDigits(value.value) && clock.httpDate(value.value).Some? ==>
              r.Some? && r.value as real >= clock.httpDate(value.value).value - clock.now
                      && ((r.value - 1) as real) < clock.httpDate(value.value).value - clock.now
    ensures value.Some? && !IsDigits(value.value) && clock.httpDate(value.value).None? ==> r.None?
  {
    match value
    case None => None
    case Some(v) =>
      if IsDigits(v) then Some(DigitsValue(v))
      else
        match clock.httpDate(v)
        case Some(t) => Some(Ceil(t - clock.now))
        case None => None
  }

  /** `parse_retry_after`: the parsed wait when it is positive, the default otherwise. */
  function RetryAfter(r: Response, default: real, clock: Clock): (wait: real)
    ensures default > 0.0 ==> wait > 0.0
    ensures wait == default || wait > 0.0
    ensures RetryAfterValue(Header(r, "retry-after"), clock).None? ==> wait == default
    ensures var p := RetryAfterValue(Header(r, "retry-after"), clock);
            p.Some? && p.value > 0 ==> wait == p.value as real
    ensures var p := RetryAfterValue(Header(r, "retry-after"), clock);
            p.Some? && p.value <= 0 ==> wait == default
  {
    var parsed := RetryAfterValue(Header(r, "retry-after"), clock);
    var w := if parsed.Some? then parsed.value as real else default;
    if w <= 0.0 then default else w
  }

  /** The URL, origin and operation every structured error carries. */
  datatype Context = Context(url: string, originUrl: string, operation: string)

  /** `check_status?`: 304, 429, 503, 403 and 404 raise their own errors, in
      that order; any other status passes exactly when it is 2xx and raises
      `HttpError` with the response otherwise. */
  function CheckStatus(p: Processor, r: Response, uri: Uri, originUrl: string, operation: string, clock: Clock): (res: Result<(), Error>)
    ensures res.Ok? <==> 200 <= r.status < 300
    ensures res.Err? ==> Structured(res.error) && res.error.url == uri.text
                         && res.error.originUrl == originUrl && res.error.operation == operation
  {
    var s := r.status;
    var url := uri.text;
    if s == 304 then Err(NotModified(url, originUrl, operation))
    else if s == 429 then Err(TooManyRequests(url, Some(RetryAfter(r, p.tooManyRequestsDelay, clock)), originUrl, operation))
    else if s == 503 then Err(ServiceUnavailable(url, Some(RetryAfter(r, p.serviceUnavailableDelay, clock)), originUrl, operation))
    else if s == 403 then Err(Forbidden(url, originUrl, operation, 403))
    else if s == 404 then Err(NotFound(url, originUrl, operation, 404))
    else if 200 <= s < 300 then Ok(())
    else Err(HttpError(url, originUrl, operation, s, r))
  }

  /** An independent statement of the status table `check_status?` implements. */
  predicate Classifies(p: Processor, r: Response, uri: Uri, originUrl: string, operation: string, clock: Clock, res: Result<(), Error>) {
    var s := r.status;
    match res
    case Ok(_) => 200 <= s < 300
    case Err(e) =>
      match e
      case NotModified(_, _, _) => s == 304
      case TooManyRequests(_, after, _, _) => s == 429 && after == Some(RetryAfter(r, p.tooManyRequestsDelay, clock))
      case ServiceUnavailable(_, after, _, _) => s == 503 && after == Some(RetryAfter(r, p.serviceUnavailableDelay, clock))
      case Forbidden(_, _, _, status) => s == 403 && status == 403
      case NotFound(_, _, _, status) => s == 404 && status == 404
      case HttpError(_, _, _, status, resp) =>
        status == s && resp == r && !(200 <= s < 300) && s !in {304, 429, 503, 403, 404}
      case _ => false
  }

  /** `check_status?` follows the status table. */
  lemma CheckStatusClassifies(p: Processor, r: Response, uri: Uri, originUrl: string, operation: string, clock: Clock)
    ensures Classifies(p, r, uri, originUrl, operation, clock, CheckStatus(p, r, uri, originUrl, operation, clock))
  {
  }

  /** No other outcome with the same context follows the table: it determines the result. */
  lemma ClassifiesOnly(p: Processor, r: Response, uri: Uri, originUrl: string, operation: string, clock: Clock, res: Result<(), Error>)
    requires Classifies(p, r, uri, originUrl, operation, clock, res)
    requires res.Err? ==> Structured(res.error) && res.error.url == uri.text
                          && res.error.originUrl == originUrl && res.error.operation == operation
    ensures res == CheckStatus(p, r, uri, originUrl, operation, clock)
  {
    match res
    case Ok(u) => assert u == ();
    case Err(e) =>
  }

  /** The errors `with_retries` retries come exactly from 429 and 503. */
  lemma CheckStatusRetryable(p: Processor, r: Response, uri: Uri, originUrl: string, operation: string, clock: Clock)
    requires CheckStatus(p, r, uri, originUrl, operation, clock).Err?
    ensures Retryable(CheckStatus(p, r, uri, originUrl, operation, clock).error) <==> r.status == 429 || r.status == 503
  {
  }

  /** A redirect never passes the status check. */
  lemma RedirectIsNotSuccess(p: Processor, r: Response, uri: Uri, originUrl: string, operation: string, clock: Clock)
    requires IsRedirect(r)
    ensures CheckStatus(p, r, uri, originUrl, operation, clock).Err?
    ensures r.status != 304
  {
  }

  /** A `Retry-After` of delay-seconds is the wait, whatever the default,
      when the number it spells is positive; leading zeros are allowed. */
  lemma RetryAfterSeconds(r: Response, d: string, default: real, clock: Clock)
    requires IsDigits(d) && DigitsValue(d) > 0 && Header(r, "retry-after") == Some(d)
    ensures RetryAfter(r, default, clock) == DigitsValue(d) as real
  {
  }

  /** `Retry-After: 007`, or `120` with any number of zeros before it, waits
      the seconds the digits spell. */
  lemma {:induction false} RetryAfterPadded(r: Response, zeros: nat, n: nat, default: real, clock: Clock)
    requires n > 0 && Header(r, "retry-after") == Some(Zeros(zeros) + NatToString(n))
    ensures RetryAfter(r, default, clock) == n as real
  {
    DigitsRoundTrip(n);
    LeadingZeros(zeros, NatToString(n));
    RetryAfterSeconds(r, Zeros(zeros) + NatToString(n), default, clock);
  }

  /** `Retry-After: 0` falls back to the default. */
  lemma RetryAfterZero(r: Response, default: real, clock: Clock)
    requires Header(r, "retry-after") == Some("0")
    ensures RetryAfter(r, default, clock) == default
  {
    assert DigitsValue("0") == 0;
  }

  /** An HTTP-date in the future gives the whole seconds until it, rounded up;
      one in the past gives the default. */
  lemma RetryAfterDate(r: Response, v: string, t: real, default: real, clock: Clock)
    requires Header(r, "retry-after") == Some(v) && !IsDigits(v) && clock.httpDate(v) == Some(t)
    ensures t > clock.now ==> RetryAfter(r, default, clock) == Ceil(t - clock.now) as real
    ensures t <= clock.now ==> RetryAfter(r, default, clock) == default
  {
  }
}
