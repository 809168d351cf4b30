/** `HttpClient::HttpTransport`: which HTTP versions and TLS settings a
    request is tried with, the request headers, the connection's base URL,
    and the order of delay, request and cookie storage around each call.
    One network exchange is the oracle `send(version, verify)`. */
module HttpTransport {
  import opened Wrappers
  import opened Assoc
  import opened Strings
  import opened HttpTypes
  import opened CookieRules
  import opened CookieParse
  import opened CookieJar
  import opened DelayManager
  import RequestFlow

  /** `HTTP_VERSIONS`, in the order they are tried. */
  datatype Version = Http2 | Http11 | Http10

  const Versions: seq<Version> := [Http2, Http11, Http10]

  datatype Method = GetMethod | HeadMethod | OtherMethod(name: string)

  /** One exchange attempted: the version and whether the certificate was verified. */
  datatype Call = Call(version: Version, verify: bool)

  /** A result together with the exchanges made for it. */
  datatype Attempted = Attempted(result: Result<Response, Error>, calls: seq<Call>)

  /** A failure after which the next HTTP version is tried. */
  predicate FallsBack(e: Error) {
    e == Transport(ConnectionFailed) || e == Transport(TimeoutFailure)
  }

  /** The caller's block run on a received response: the response, or the error the block raised. */
  function Deliver(block: Response -> Option<Error>, resp: Response): (r: Result<Response, Error>)
    ensures r.Ok? <==> block(resp).None?
    ensures r.Ok? ==> r.value == resp
  {
    match block(resp)
    case None => Ok(resp)
    case Some(e) => Err(e)
  }

  /** One exchange followed by the block, as `perform_request` makes it for GET or HEAD. */
  function Exchange(send: Call -> Result<Response, Error>, block: Response -> Option<Error>, call: Call): (r: Result<Response, Error>)
    ensures r.Ok? ==> send(call) == r && block(r.value).None?
  {
    match send(call)
    case Ok(resp) => Deliver(block, resp)
    case Err(e) => Err(e)
  }

  /** `perform_with_fallbacks` from version index `i` on. Any method but GET
      and HEAD raises before an exchange is made. A TLS failure is retried
      once at the same version without verification when allowed, and
      re-raised otherwise; a connection failure or timeout moves on to the
      next version, and is re-raised after the last one. */
  function Fallbacks(m: Method, send: Call -> Result<Response, Error>, block: Response -> Option<Error>, allowInsecure: bool, i: nat): (r: Attempted)
    requires i < |Versions|
    ensures m.OtherMethod? <==> r.calls == []
    ensures m.OtherMethod? ==> r.result == Err(UnsupportedMethod)
    ensures !m.OtherMethod? ==> 1 <= |r.calls| <= |Versions| - i + 1 && r.calls[0] == Call(Versions[i], true)
    ensures r.result.Ok? ==> send(r.calls[|r.calls| - 1]) == r.result && block(r.result.value).None?
    decreases |Versions| - i
  {
    if m.OtherMethod? then Attempted(Err(UnsupportedMethod), [])
    else
      var call := Call(Versions[i], true);
      match send(call)
      case Ok(resp) => Attempted(Deliver(block, resp), [call])
      case Err(e) =>
        if e == Transport(SslFailure) then
          if !allowInsecure then Attempted(Err(e), [call])
          else
            var insecure := Call(Versions[i], false);
            Attempted(Exchange(send, block, insecure), [call, insecure])
        else if FallsBack(e) && i + 1 < |Versions| then
          var rest := Fallbacks(m, send, block, allowInsecure, i + 1);
          Attempted(rest.result, [call] + rest.calls)
        else Attempted(Err(e), [call])
  }

  /** The version order: while exchanges fail to connect or time out, the
      k-th one is made at the k-th version with verification, and the last
      version's failure is what is raised. */
  lemma {:induction false} FallbackOrder(m: Method, send: Call -> Result<Response, Error>, block: Response -> Option<Error>, allowInsecure: bool, i: nat)
    requires i < |Versions| && !m.OtherMethod?
    requires forall j :: i <= j < |Versions| ==> send(Call(Versions[j], true)).Err? && FallsBack(send(Call(Versions[j], true)).error)
    ensures var r := Fallbacks(m, send, block, allowInsecure, i);
            r.calls == seq(|Versions| - i, k requires 0 <= k < |Versions| - i => Call(Versions[i + k], true))
            && r.result == send(Call(Versions[|Versions| - 1], true))
    decreases |Versions| - i
  {
    var e := send(Call(Versions[i], true)).error;
    assert e != Transport(SslFailure);
    if i + 1 < |Versions| {
      FallbackOrder(m, send, block, allowInsecure, i + 1);
    }
  }

  /** A TLS failure is retried exactly once, at the same version and without
      verification, when insecure fallback is allowed; otherwise it is raised
      as it came. No later version is tried either way. */
  lemma SslFallback(m: Method, send: Call -> Result<Response, Error>, block: Response -> Option<Error>, allowInsecure: bool, i: nat)
    requires i < |Versions| && !m.OtherMethod?
    requires send(Call(Versions[i], true)) == Err(Transport(SslFailure))
    ensures var r := Fallbacks(m, send, block, allowInsecure, i);
            (allowInsecure ==> r == Attempted(Exchange(send, block, Call(Versions[i], false)),
                                              [Call(Versions[i], true), Call(Versions[i], false)]))
            && (!allowInsecure ==> r == Attempted(Err(Transport(SslFailure)), [Call(Versions[i], true)]))
  {
  }

  /** Any other failure of the first exchange, and any error from the block,
      is raised without another exchange. */
  lemma NoFallback(m: Method, send: Call -> Result<Response, Error>, block: Response -> Option<Error>, allowInsecure: bool, i: nat)
    requires i < |Versions| && !m.OtherMethod?
    requires send(Call(Versions[i], true)).Err? ==>
               (!FallsBack(send(Call(Versions[i], true)).error) && send(Call(Versions[i], true)).error != Transport(SslFailure))
    ensures Fallbacks(m, send, block, allowInsecure, i).calls == [Call(Versions[i], true)]
  {
  }

  // ---------------------------------------------------------------------------
  // Request headers

  /** What the transport was built with. */
  datatype Identity = Identity(userAgent: string, fromEmail: Option<string>)

  /** The headers a request is sent with. */
  type RequestHeaders = map<string, string>

  /** `request.headers[name] = value if value`. */
  function PutIf(h: RequestHeaders, name: string, value: Option<string>): (r: RequestHeaders)
    ensures name in r <==> name in h || value.Some?
    ensures value.Some? ==> r[name] == value.value
    ensures forall k :: k != name ==> (k in r <==> k in h) && (k in h ==> r[k] == h[k])
  {
    if value.Some? then h[name := value.value] else h
  }

  /** The set of names an optional value contributes. */
  function NameIf(name: string, value: Option<string>): set<string> {
    if value.Some? then {name} else {}
  }

  /** `apply_get_headers`; `cookie` is what the jar's `cookie_header_for` gave. */
  function GetHeaders(id: Identity, accept: string, referer: Option<string>, cookie: Option<string>): (h: RequestHeaders)
    ensures h.Keys == {"User-Agent", "Accept", "Accept-Encoding"} + NameIf("Referer", referer) + NameIf("From", id.fromEmail) + NameIf("Cookie", cookie)
    ensures h["User-Agent"] == id.userAgent && h["Accept"] == accept && h["Accept-Encoding"] == "identity"
    ensures referer.Some? ==> h["Referer"] == referer.value
    ensures id.fromEmail.Some? ==> h["From"] == id.fromEmail.value
    ensures cookie.Some? ==> h["Cookie"] == cookie.value
  {
    HeaderNamesDiffer();
    var h := map["User-Agent" := id.userAgent, "Accept" := accept, "Accept-Encoding" := "identity"];
    PutIf(PutIf(PutIf(h, "Referer", referer), "From", id.fromEmail), "Cookie", cookie)
  }

  /** `apply_head_headers`: no Accept, no Accept-Encoding, no Referer. */
  function HeadHeaders(id: Identity, cookie: Option<string>): (h: RequestHeaders)
    ensures h.Keys == {"User-Agent"} + NameIf("From", id.fromEmail) + NameIf("Cookie", cookie)
    ensures h["User-Agent"] == id.userAgent
    ensures id.fromEmail.Some? ==> h["From"] == id.fromEmail.value
    ensures cookie.Some? ==> h["Cookie"] == cookie.value
  {
    HeaderNamesDiffer();
    PutIf(PutIf(map["User-Agent" := id.userAgent], "From", id.fromEmail), "Cookie", cookie)
  }

  /** A HEAD request never asks for a content type or encoding. */
  lemma HeadHasNoAccept(id: Identity, cookie: Option<string>)
    ensures "Accept" !in HeadHeaders(id, cookie) && "Accept-Encoding" !in HeadHeaders(id, cookie)
    ensures "Referer" !in HeadHeaders(id, cookie)
  {
    HeaderNamesDiffer();
  }

  /** The header names are pairwise different. */
  lemma HeaderNamesDiffer()
    ensures "User-Agent" != "Accept" && "User-Agent" != "Accept-Encoding" && "User-Agent" != "Referer"
    ensures "User-Agent" != "From" && "User-Agent" != "Cookie"
    ensures "Accept" != "Accept-Encoding" && "Accept" != "Referer" && "Accept" != "From" && "Accept" != "Cookie"
    ensures "Accept-Encoding" != "Referer" && "Accept-Encoding" != "From" && "Accept-Encoding" != "Cookie"
    ensures "Referer" != "From" && "Referer" != "Cookie" && "From" != "Cookie"
  {
    assert "User-Agent"[0] == 'U' && "Accept"[0] == 'A' && "Accept-Encoding"[0] == 'A';
    assert "Referer"[0] == 'R' && "From"[0] == 'F' && "Cookie"[0] == 'C';
    assert |"Accept"| != |"Accept-Encoding"|;
  }

  // ---------------------------------------------------------------------------
  // Base URL

  function DefaultPort(scheme: Option<string>): nat {
    if scheme == Some("https") then 443 else 80
  }

  /** `"#{uri.scheme}://#{uri.host}"`; a missing part interpolates as the empty string. */
  function Origin(uri: Uri): string {
    uri.scheme.GetOr("") + "://" + uri.host.GetOr("")
  }

  /** `base_url_for`: the origin, with `:port` only when it is not the scheme's default. */
  function BaseUrlFor(uri: Uri): (r: string)
    ensures StartsWith(r, Origin(uri))
    ensures r == Origin(uri) <==> uri.port.None? || uri.port.value == DefaultPort(uri.scheme)
  {
    if uri.port.Some? && uri.port.value != DefaultPort(uri.scheme) then
      var r := Origin(uri) + ":" + NatToString(uri.port.value);
      assert r[..|Origin(uri)|] == Origin(uri);
      r
    else Origin(uri)
  }

  /** The port a base URL connects to: the one after `:`, or the scheme's default. */
  function ConnectPort(scheme: Option<string>, suffix: string): nat {
    if suffix == [] then DefaultPort(scheme)
    else if suffix[0] == ':' && IsDigits(suffix[1..]) then DigitsValue(suffix[1..])
    else 0
  }

  /** Leaving out the default port loses nothing: the base URL still connects
      to the URI's port, or to the default when it has none. */
  lemma BaseUrlKeepsPort(uri: Uri)
    ensures ConnectPort(uri.scheme, BaseUrlFor(uri)[|Origin(uri)|..]) == uri.port.GetOr(DefaultPort(uri.scheme))
  {
    var r := BaseUrlFor(uri);
    if uri.port.Some? && uri.port.value != DefaultPort(uri.scheme) {
      var suffix := ":" + NatToString(uri.port.value);
      assert r[|Origin(uri)|..] == suffix;
      assert suffix[1..] == NatToString(uri.port.value);
      DigitsRoundTrip(uri.port.value);
    } else {
      assert r[|Origin(uri)|..] == [];
    }
  }

  // ---------------------------------------------------------------------------
  // execute_get / execute_head

  /** What the transport carries from one call to the next. */
  datatype State = State(schedule: Schedule, jar: Option<Jar>)

  /** The clocks and parsers one call reads. */
  datatype Clocks = Clocks(monotonic: real, wall: int, parseTime: string -> Option<int>)

  /** The outcome of one `execute_get`/`execute_head`. */
  datatype Executed = Executed(result: Result<Response, Error>, wait: real, calls: seq<Call>, state: State)

  /** `execute_get`/`execute_head`: the operation delay is computed first, then
      the request is made with its fallbacks, then — only when it succeeded,
      a jar is configured and the response has headers — its Set-Cookie
      headers are stored, which may itself raise. `headersOf` is
      `response&.headers` as the jar reads it. */
  function Execute(m: Method, st: State, delays: Delays, op: Option<Key>, uri: Uri, clocks: Clocks,
                   send: Call -> Result<Response, Error>, block: Response -> Option<Error>,
                   allowInsecure: bool, headersOf: Response -> Option<RawHeaders>): (r: Executed)
    ensures var step := ApplyDelay(delays, st.schedule, op, Some(uri), clocks.monotonic);
            r.wait == step.wait && r.state.schedule == step.schedule
    ensures r.calls == Fallbacks(m, send, block, allowInsecure, 0).calls
    ensures r.result.Err? && Fallbacks(m, send, block, allowInsecure, 0).result.Err? ==> r.state.jar == st.jar
    ensures st.jar.None? ==> r.state.jar.None?
    ensures r.result.Ok? ==> r.result == Fallbacks(m, send, block, allowInsecure, 0).result
  {
    var step := ApplyDelay(delays, st.schedule, op, Some(uri), clocks.monotonic);
    var attempted := Fallbacks(m, send, block, allowInsecure, 0);
    match attempted.result
    case Err(e) => Executed(Err(e), step.wait, attempted.calls, State(step.schedule, st.jar))
    case Ok(resp) =>
      if st.jar.None? || headersOf(resp).None? then
        Executed(Ok(resp), step.wait, attempted.calls, State(step.schedule, st.jar))
      else
        var stored := StoreFromResponse(st.jar.value, uri, headersOf(resp), clocks.wall, clocks.parseTime);
        var result := if stored.raised.Some? then Err(stored.raised.value) else Ok(resp);
        Executed(result, step.wait, attempted.calls, State(step.schedule, Some(stored.jar)))
  }

  /** The Cookie header a request carries: only when a jar is configured and yields one. */
  function CookieFor(jar: Option<Jar>, uri: Uri, now: int): (c: Option<string>)
    ensures jar.None? || uri.host.None? ==> c.None?
    ensures jar.Some? ==> (c.None? <==> CookiesFor(jar.value, uri, now) == [])
  {
    if jar.Some? then CookieHeaderFor(jar.value, uri, now) else None
  }

  /** A response whose Set-Cookie headers parse without raising is stored in the
      jar exactly as `store_from_response` would store them. */
  lemma ExecuteStoresCookies(m: Method, st: State, delays: Delays, op: Option<Key>, uri: Uri, clocks: Clocks,
                             send: Call -> Result<Response, Error>, block: Response -> Option<Error>,
                             allowInsecure: bool, headersOf: Response -> Option<RawHeaders>, resp: Response)
    requires Fallbacks(m, send, block, allowInsecure, 0).result == Ok(resp)
    requires st.jar.Some? && headersOf(resp).Some?
    ensures var r := Execute(m, st, delays, op, uri, clocks, send, block, allowInsecure, headersOf);
            var stored := StoreFromResponse(st.jar.value, uri, headersOf(resp), clocks.wall, clocks.parseTime);
            r.state.jar == Some(stored.jar)
            && (r.result.Ok? <==> stored.raised.None?)
  {
  }

  // ---------------------------------------------------------------------------
  // The transport under the redirect flow

  /** `execute_get` as the exchange `RequestFlow` calls for each hop, with
      the transport's state and clocks those of the chain's start.
      `sendFor(u)` is the connection made for `u`. */
  function TransportExchange(m: Method, st: State, delays: Delays, op: Option<Key>, clocks: Clocks,
                             sendFor: Uri -> (Call -> Result<Response, Error>), block: Response -> Option<Error>,
                             allowInsecure: bool, headersOf: Response -> Option<RawHeaders>): Uri -> Result<Response, Error>
  {
    (u: Uri) => Execute(m, st, delays, op, u, clocks, sendFor(u), block, allowInsecure, headersOf).result
  }

  /** An exchange whose every success is what the fallback chain for that
      URI delivered, accepted by the block. */
  ghost predicate Delivers(m: Method, ex: Uri -> Result<Response, Error>, sendFor: Uri -> (Call -> Result<Response, Error>),
                     block: Response -> Option<Error>, allowInsecure: bool) {
    forall u {:trigger sendFor(u)} :: ex(u).Ok? ==> Fallbacks(m, sendFor(u), block, allowInsecure, 0).result == ex(u)
  }

  /** The transport is such an exchange, whatever its state and whether or
      not the response's cookies are stored. */
  lemma TransportDelivers(m: Method, st: State, delays: Delays, op: Option<Key>, clocks: Clocks,
                          sendFor: Uri -> (Call -> Result<Response, Error>), block: Response -> Option<Error>,
                          allowInsecure: bool, headersOf: Response -> Option<RawHeaders>)
    ensures Delivers(m, TransportExchange(m, st, delays, op, clocks, sendFor, block, allowInsecure, headersOf),
                     sendFor, block, allowInsecure)
  {
    var ex := TransportExchange(m, st, delays, op, clocks, sendFor, block, allowInsecure, headersOf);
    forall u | ex(u).Ok? ensures Fallbacks(m, sendFor(u), block, allowInsecure, 0).result == ex(u) {
      var e := Execute(m, st, delays, op, u, clocks, sendFor(u), block, allowInsecure, headersOf);
      assert ex(u) == e.result;
    }
  }

  /** A GET chain run over such an exchange ends on a response that the
      last URI's fallback chain received from its last call and the block
      accepted. */
  lemma GetThroughTransport(env: RequestFlow.Env, url: string, remaining: int, originUrl: string, operation: string,
                            sendFor: Uri -> (Call -> Result<Response, Error>), block: Response -> Option<Error>,
                            allowInsecure: bool)
    requires Delivers(GetMethod, env.exchange, sendFor, block, allowInsecure)
    ensures var run := RequestFlow.Get(env, url, remaining, originUrl, operation);
            run.result.Ok? ==>
              var last := run.requested[|run.requested| - 1];
              var attempted := Fallbacks(GetMethod, sendFor(last), block, allowInsecure, 0);
              attempted.result == Ok(run.result.value.0)
              && sendFor(last)(attempted.calls[|attempted.calls| - 1]) == Ok(run.result.value.0)
              && block(run.result.value.0).None?
  {
    var run := RequestFlow.Get(env, url, remaining, originUrl, operation);
    if run.result.Ok? {
      var last := run.requested[|run.requested| - 1];
      assert env.exchange(last) == Ok(run.result.value.0);
    }
  }
}
