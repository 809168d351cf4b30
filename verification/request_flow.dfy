/** `HttpClient::RequestFlow`: follows GET and HEAD redirect chains with a
    budget that shrinks by one per hop. The transport is an oracle from a
    parsed URI to a response or a raised error; `URI.parse` and
    `UrlUtils.absolutize` are parameters too. Each run also returns the URIs
    it asked the transport for, in order. */
module RequestFlow {
  import opened Wrappers
  import opened Assoc
  import opened Numbers
  import opened HttpTypes
  import opened ResponseProcessor

  /** What one logical request can see of the outside world. */
  datatype Env = Env(
    parse: string -> Option<Uri>,                 // URI.parse; None where it raises
    absolutize: (string, string) -> Option<string>,  // UrlUtils.absolutize(base, href)
    exchange: Uri -> Result<Response, Error>,     // one transport call
    processor: Processor,
    clock: Clock)

  /** The payload `fetch_with_redirects` returns next to the response. */
  datatype Payload = Payload(body: string, contentType: Option<string>, finalUrl: string)

  /** `{ url:, status: }` from `resolve_head_redirects`. */
  datatype HeadResult = HeadResult(url: string, status: int)

  /** A result together with the URIs the transport was asked for. */
  datatype Run<T> = Run(result: Result<T, Error>, requested: seq<Uri>)

  /** The hops a budget still allows: `remaining` if positive, else none. */
  function Budget(remaining: int): nat {
    if remaining > 0 then remaining else 0
  }

  /** The next target of a redirect: `absolutize(current, location) || location`. */
  function NextUrl(env: Env, current: Uri, location: string): string {
    env.absolutize(current.text, location).GetOr(location)
  }

  /** `perform_request`/`follow_redirect` (GET). A redirect is followed while
      the budget is positive; otherwise the status is checked and, when it
      passes, the body is read and the final URL is the one last requested. */
  function Get(env: Env, url: string, remaining: int, originUrl: string, operation: string): (run: Run<(Response, Payload)>)
    ensures |run.requested| <= Budget(remaining) + 1
    ensures env.parse(url).None? <==> run.requested == []
    ensures env.parse(url).None? ==> run.result == Err(InvalidUri(url))
    ensures run.requested != [] ==> run.requested[0] == env.parse(url).value
    ensures run.result.Ok? ==>
              var (resp, payload) := run.result.value;
              run.requested != []
              && payload.finalUrl == run.requested[|run.requested| - 1].text
              && 200 <= resp.status < 300
              && payload.contentType == Header(resp, "content-type")
              && payload.body == resp.body
              && env.exchange(run.requested[|run.requested| - 1]) == Ok(resp)
    decreases Budget(remaining)
  {
    match env.parse(url)
    case None => Run(Err(InvalidUri(url)), [])
    case Some(uri) =>
      match env.exchange(uri)
      case Err(e) => Run(Err(e), [uri])
      case Ok(resp) =>
        if IsRedirect(resp) then
          if remaining <= 0 then Run(Err(TooManyRedirects), [uri])
          else
            match RedirectLocation(resp)
            case None => Run(Err(MissingLocation), [uri])
            case Some(loc) =>
              var rest := Get(env, NextUrl(env, uri, loc), remaining - 1, originUrl, operation);
              var requested := [uri] + rest.requested;
              assert rest.requested != [] ==> requested[|requested| - 1] == rest.requested[|rest.requested| - 1];
              Run(rest.result, requested)
        else Settle(env, uri, resp, originUrl, operation)
  }

  /** The end of a GET chain: the status is checked and, when it passes, the
      body is read from the response of the one URI requested. */
  function Settle(env: Env, uri: Uri, resp: Response, originUrl: string, operation: string): (run: Run<(Response, Payload)>)
    ensures run.requested == [uri]
    ensures run.result.Ok? <==> 200 <= resp.status < 300
    ensures run.result.Ok? ==>
              run.result.value == (resp, Payload(resp.body, Header(resp, "content-type"), uri.text))
  {
    match CheckStatus(env.processor, resp, uri, originUrl, operation, env.clock)
    case Err(e) => Run(Err(e), [uri])
    case Ok(_) =>
      Run(Ok((resp, Payload(resp.body, Header(resp, "content-type"), uri.text))), [uri])
  }

  /** `fetch_with_redirects`. */
  function FetchWithRedirects(env: Env, maxRedirects: int, url: string, originUrl: string, operation: string): (run: Run<(Response, Payload)>)
    ensures |run.requested| <= Budget(maxRedirects) + 1
  {
    Get(env, url, maxRedirects, originUrl, operation)
  }

  /** A redirect that arrives with no budget left fails with "Too many
      redirects" before its Location is read. */
  lemma GetOutOfBudget(env: Env, url: string, remaining: int, originUrl: string, operation: string, uri: Uri, resp: Response)
    requires env.parse(url) == Some(uri) && env.exchange(uri) == Ok(resp)
    requires IsRedirect(resp) && remaining <= 0
    ensures Get(env, url, remaining, originUrl, operation) == Run(Err(TooManyRedirects), [uri])
  {
  }

  /** A redirect within budget but without Location fails with "Redirect missing location header". */
  lemma GetMissingLocation(env: Env, url: string, remaining: int, originUrl: string, operation: string, uri: Uri, resp: Response)
    requires env.parse(url) == Some(uri) && env.exchange(uri) == Ok(resp)
    requires IsRedirect(resp) && remaining > 0 && "location" !in Keys(resp.headers)
    ensures Get(env, url, remaining, originUrl, operation) == Run(Err(MissingLocation), [uri])
  {
  }

  /** A followed redirect is exactly a request for `absolutize(current,
      location) || location` with one hop less, after the current one. */
  lemma GetFollows(env: Env, url: string, remaining: int, originUrl: string, operation: string, uri: Uri, resp: Response, loc: string)
    requires env.parse(url) == Some(uri) && env.exchange(uri) == Ok(resp)
    requires IsRedirect(resp) && remaining > 0 && Header(resp, "location") == Some(loc)
    ensures var rest := Get(env, NextUrl(env, uri, loc), remaining - 1, originUrl, operation);
            Get(env, url, remaining, originUrl, operation) == Run(rest.result, [uri] + rest.requested)
  {
  }

  /** A response that is not a redirect is classified once: its status error
      propagates as raised, and success returns it. */
  lemma GetClassifies(env: Env, url: string, remaining: int, originUrl: string, operation: string, uri: Uri, resp: Response)
    requires env.parse(url) == Some(uri) && env.exchange(uri) == Ok(resp) && !IsRedirect(resp)
    ensures var run := Get(env, url, remaining, originUrl, operation);
            run.requested == [uri]
            && (run.result.Err? <==> CheckStatus(env.processor, resp, uri, originUrl, operation, env.clock).Err?)
            && (run.result.Err? ==> run.result.error == CheckStatus(env.processor, resp, uri, originUrl, operation, env.clock).error)
  {
  }

  /** Every error a GET run ends with is an error the last hop produced. */
  lemma {:induction false} GetErrorOrigin(env: Env, url: string, remaining: int, originUrl: string, operation: string)
    requires Get(env, url, remaining, originUrl, operation).result.Err?
    requires Get(env, url, remaining, originUrl, operation).requested != []
    ensures var run := Get(env, url, remaining, originUrl, operation);
            var last := run.requested[|run.requested| - 1];
            var e := run.result.error;
            env.exchange(last) == Err(e)
            || (env.exchange(last).Ok? && IsRedirect(env.exchange(last).value) && (e == TooManyRedirects || e == MissingLocation))
            || (env.exchange(last).Ok? && !IsRedirect(env.exchange(last).value)
                && CheckStatus(env.processor, env.exchange(last).value, last, originUrl, operation, env.clock) == Err(e))
            || (env.exchange(last).Ok? && IsRedirect(env.exchange(last).value) && e.InvalidUri?)
    decreases Budget(remaining)
  {
    var uri := env.parse(url).value;
    var resp := env.exchange(uri);
    if resp.Ok? && IsRedirect(resp.value) && remaining > 0 && RedirectLocation(resp.value).Some? {
      var next := NextUrl(env, uri, RedirectLocation(resp.value).value);
      var rest := Get(env, next, remaining - 1, originUrl, operation);
      if rest.requested != [] {
        GetErrorOrigin(env, next, remaining - 1, originUrl, operation);
      }
    }
  }

  // ---------------------------------------------------------------------------
  // HEAD

  /** `follow_head_redirect`. Only 429 is classified (and raises); a redirect
      is followed while the budget lasts, a redirect without Location ends the
      chain at the current URI, and any other status is returned as is. */
  function Head(env: Env, uri: Uri, remaining: int, originUrl: string, operation: string): (run: Run<HeadResult>)
    ensures 1 <= |run.requested| <= Budget(remaining) + 1
    ensures run.requested[0] == uri
    ensures run.result.Ok? ==>
              var last := run.requested[|run.requested| - 1];
              run.result.value.url == last.text
              && env.exchange(last).Ok?
              && env.exchange(last).value.status == run.result.value.status
              && run.result.value.status != 429
              && (IsRedirect(env.exchange(last).value) ==> "location" !in Keys(env.exchange(last).value.headers))
    decreases Budget(remaining)
  {
    match env.exchange(uri)
    case Err(e) => Run(Err(e), [uri])
    case Ok(resp) =>
      if resp.status == 429 then
        Run(Err(CheckStatus(env.processor, resp, uri, originUrl, operation, env.clock).error), [uri])
      else if IsRedirect(resp) then
        if remaining <= 0 then Run(Err(TooManyRedirects), [uri])
        else
          match RedirectLocation(resp)
          case None => Run(Ok(HeadResult(uri.text, resp.status)), [uri])
          case Some(loc) =>
            var next := NextUrl(env, uri, loc);
            match env.parse(next)
            case None => Run(Err(InvalidUri(next)), [uri])
            case Some(nextUri) =>
              var rest := Head(env, nextUri, remaining - 1, originUrl, operation);
              Run(rest.result, [uri] + rest.requested)
      else
        Run(Ok(HeadResult(uri.text, resp.status)), [uri])
  }

  /** A 429 answer to HEAD raises `TooManyRequests`, with its Retry-After. */
  lemma HeadTooManyRequests(env: Env, uri: Uri, remaining: int, originUrl: string, operation: string, resp: Response)
    requires env.exchange(uri) == Ok(resp) && resp.status == 429
    ensures Head(env, uri, remaining, originUrl, operation).result
         == Err(TooManyRequests(uri.text, Some(RetryAfter(resp, env.processor.tooManyRequestsDelay, env.clock)), originUrl, operation))
  {
  }

  /** Any other status that is not a redirect — 403, 404 and 503 included — is returned, not raised. */
  lemma HeadReturnsStatus(env: Env, uri: Uri, remaining: int, originUrl: string, operation: string, resp: Response)
    requires env.exchange(uri) == Ok(resp) && resp.status != 429 && !IsRedirect(resp)
    ensures Head(env, uri, remaining, originUrl, operation) == Run(Ok(HeadResult(uri.text, resp.status)), [uri])
  {
  }

  /** A HEAD redirect with no budget left fails before its Location is read. */
  lemma HeadOutOfBudget(env: Env, uri: Uri, remaining: int, originUrl: string, operation: string, resp: Response)
    requires env.exchange(uri) == Ok(resp) && IsRedirect(resp) && remaining <= 0
    ensures Head(env, uri, remaining, originUrl, operation) == Run(Err(TooManyRedirects), [uri])
  {
  }

  /** A HEAD redirect without Location ends the chain at the current URI instead of raising. */
  lemma HeadMissingLocation(env: Env, uri: Uri, remaining: int, originUrl: string, operation: string, resp: Response)
    requires env.exchange(uri) == Ok(resp) && IsRedirect(resp) && remaining > 0
    requires "location" !in Keys(resp.headers)
    ensures Head(env, uri, remaining, originUrl, operation) == Run(Ok(HeadResult(uri.text, resp.status)), [uri])
  {
  }

  /** A followed HEAD redirect continues at the parsed `absolutize(current, location) || location` with one hop less. */
  lemma HeadFollows(env: Env, uri: Uri, remaining: int, originUrl: string, operation: string, resp: Response, loc: string, next: Uri)
    requires env.exchange(uri) == Ok(resp) && IsRedirect(resp) && remaining > 0
    requires Header(resp, "location") == Some(loc) && env.parse(NextUrl(env, uri, loc)) == Some(next)
    ensures var rest := Head(env, next, remaining - 1, originUrl, operation);
            Head(env, uri, remaining, originUrl, operation) == Run(rest.result, [uri] + rest.requested)
  {
  }
}
