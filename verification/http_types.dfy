/** The values that flow between the client's components: parsed URIs,
    responses, and the exceptions the Ruby code raises, as one error type. */
module HttpTypes {
  import opened Wrappers
  import opened Assoc

  /** The parts of a Ruby `URI` the client reads. `text` is `uri.to_s`. */
  datatype Uri = Uri(
    scheme: Option<string>,
    host: Option<string>,
    port: Option<nat>,
    path: string,
    query: Option<string>,
    text: string)

  /** Response headers, by lower-case name (the transport's header hash is
      case-insensitive, so every lookup in the client uses lower-case names). */
  type Headers = Assoc<string, string>

  datatype Response = Response(status: int, headers: Headers, body: string)

  /** `response.headers[name]`. */
  function Header(r: Response, name: string): (v: Option<string>)
    ensures v.Some? <==> name in Keys(r.headers)
  {
    Get(r.headers, name)
  }

  /** The network-level exceptions the transport can raise. */
  datatype Fault =
    | ConnectionFailed    // Faraday::ConnectionFailed
    | TimeoutFailure      // Faraday::TimeoutError
    | SslFailure          // Faraday::SSLError
    | SocketFailure       // SocketError
    | BlockTimeout        // Timeout::Error
    | EndOfFile           // EOFError
    | ConnectionReset     // Errno::ECONNRESET
    | ConnectionRefused   // Errno::ECONNREFUSED
    | HostUnreachable     // Errno::EHOSTUNREACH
    | SocketTimedOut      // Errno::ETIMEDOUT
    | OtherFault          // any other StandardError from the network stack

  /** Everything the client's components raise. */
  datatype Error =
    | NotModified(url: string, originUrl: string, operation: string)
    | TooManyRequests(url: string, retryAfter: Option<real>, originUrl: string, operation: string)
    | ServiceUnavailable(url: string, retryAfter: Option<real>, originUrl: string, operation: string)
    | Forbidden(url: string, originUrl: string, operation: string, status: int)
    | NotFound(url: string, originUrl: string, operation: string, status: int)
    | HttpError(url: string, originUrl: string, operation: string, status: int, response: Response)
    | TooManyRedirects           // RuntimeError 'Too many redirects'
    | MissingLocation            // RuntimeError 'Redirect missing location header'
    | InvalidUri(text: string)   // URI::InvalidURIError
    | Transport(fault: Fault)
    | UnsupportedMethod          // ArgumentError from the transport
    | NilCoercion                // TypeError from adding `nil` to a Float
    | NilTimeValue               // exception from parsing a `nil` cookie time
    | InvalidTime                // ArgumentError/TypeError from `Time.parse` on a snapshot expiry

  /** The errors raised about one response, carrying `url`, `origin_url` and `operation`. */
  predicate Structured(e: Error) {
    e.NotModified? || e.TooManyRequests? || e.ServiceUnavailable? || e.Forbidden? || e.NotFound? || e.HttpError?
  }

  /** The classes in `HttpClient::RETRYABLE_ERRORS`. */
  predicate RetryableFault(f: Fault) {
    f != SslFailure && f != OtherFault
  }

  /** Errors `with_retries` retries: 429, 503 and the retryable network errors. */
  predicate Retryable(e: Error) {
    e.TooManyRequests? || e.ServiceUnavailable? || (e.Transport? && RetryableFault(e.fault))
  }
}
