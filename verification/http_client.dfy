/** `HttpClient`: the retry loop around each public operation, the jitter
    applied to its waits, and how `fetch`, `resolve_final_url` and
    `response_for` turn a logical request's outcome into their results.
    Each attempt's outcome is a parameter (the redirect flow run on that
    attempt), `rand` is a choice `u` in [-1, 1] per attempt, and the waits
    are returned instead of slept. */
module HttpClient {
  import opened Wrappers
  import opened Numbers
  import opened HttpTypes
  import opened ResponseProcessor
  import opened RequestFlow

  /** The settings the retry loop reads. */
  datatype Settings = Settings(
    maxRetries: nat,
    retryInitialDelay: real,
    retryBackoffFactor: real,
    retryJitter: Option<real>,
    tooManyRequestsDelay: real,
    serviceUnavailableDelay: real)

  /** `[max_retries.to_i, 1].max`. */
  function MaxRetries(given: real): (r: nat)
    ensures r >= 1
    ensures given >= 1.0 ==> r as real <= given < r as real + 1.0
    ensures given < 2.0 ==> r == 1
  {
    var n := Truncate(given);
    if n >= 1 then n else 1
  }

  /** `HttpClient::DEFAULTS` as the retry loop sees them. */
  const Defaults: Settings := Settings(MaxRetries(3.0), 0.5, 2.0, Some(0.25), 60.0, 60.0)

  /** Settings whose every wait is non-negative, as the defaults are. */
  predicate NonNegative(s: Settings) {
    s.retryInitialDelay >= 0.0 && s.retryBackoffFactor >= 0.0
    && s.tooManyRequestsDelay >= 0.0 && s.serviceUnavailableDelay >= 0.0
  }

  /** `apply_jitter(base)` with `rand` returning `base * jitter * u`. When the
      range is empty (a negative base) `rand` returns `nil`, and adding it to
      the base raises `TypeError`. */
  function ApplyJitter(base: real, jitter: Option<real>, u: real): (r: Result<real, Error>)
    requires -1.0 <= u <= 1.0
    ensures jitter.None? || jitter.value <= 0.0 ==> r == Ok(base)
    ensures jitter.Some? && jitter.value > 0.0 && base >= 0.0 ==>
              r.Ok? && r.value >= 0.0
              && Max(base - base * jitter.value, 0.0) <= r.value <= base + base * jitter.value
    ensures jitter.Some? && jitter.value > 0.0 && base < 0.0 ==> r == Err(NilCoercion)
  {
    match jitter
    case None => Ok(base)
    case Some(j) =>
      if j <= 0.0 then Ok(base)
      else
        var range := base * j;
        JitterRange(base, j, u);
        if 0.0 - range > range then Err(NilCoercion)
        else Ok(Max(base + u * range, 0.0))
  }

  /** The arithmetic behind `apply_jitter`'s bounds. */
  lemma JitterRange(base: real, j: real, u: real)
    requires j > 0.0 && -1.0 <= u <= 1.0
    ensures base < 0.0 ==> 0.0 - base * j > base * j
    ensures base >= 0.0 ==> !(0.0 - base * j > base * j)
    ensures base >= 0.0 ==> Max(base - base * j, 0.0) <= Max(base + u * (base * j), 0.0) <= base + base * j
  {
    var range := base * j;
    if base < 0.0 {
      assert range < 0.0;
    } else {
      assert range >= 0.0;
      assert (1.0 - u) * range >= 0.0;
      assert (1.0 + u) * range >= 0.0;
      assert base - range <= base + u * range <= base + range;
    }
  }

  /** The wait before retrying after `e` on attempt `attempt`: the error's
      Retry-After or the status's default for 429/503, exponential backoff
      for a network error. */
  function BaseWait(s: Settings, e: Error, attempt: nat): (w: real)
    requires Retryable(e) && attempt >= 1
    ensures NonNegative(s) && !e.Transport? && (e.retryAfter.Some? ==> e.retryAfter.value >= 0.0) ==> w >= 0.0
    ensures NonNegative(s) && e.Transport? ==> w >= 0.0
  {
    match e
    case TooManyRequests(_, after, _, _) => after.GetOr(s.tooManyRequestsDelay)
    case ServiceUnavailable(_, after, _, _) => after.GetOr(s.serviceUnavailableDelay)
    case Transport(_) => s.retryInitialDelay * Pow(s.retryBackoffFactor, attempt - 1)
  }

  /** With a factor of at least 1, each network-error retry waits at least as long as the one before. */
  lemma BackoffGrows(s: Settings, e: Error, attempt: nat)
    requires e.Transport? && RetryableFault(e.fault) && attempt >= 1
    requires s.retryBackoffFactor >= 1.0 && s.retryInitialDelay >= 0.0
    ensures BaseWait(s, e, attempt + 1) >= BaseWait(s, e, attempt)
  {
    PowMonotone(s.retryBackoffFactor, attempt - 1);
  }

  /** How a call ended: the block's value, a raised error, or `nil` from `log_exhaustion`. */
  datatype Outcome<T> = Done(value: T) | Raised(error: Error) | GaveUp

  /** The outcome, the waits slept between attempts, and how many attempts ran. */
  datatype Retried<T> = Retried(outcome: Outcome<T>, waits: seq<real>, attempts: nat)

  /** `with_retries` from attempt `attempt` on. `block(i)` is the outcome of
      the block on attempt `i` and `pick(i)` the `rand` draw after it. */
  function WithRetries<T>(s: Settings, returnOnExhaust: bool, block: nat -> Result<T, Error>, pick: nat -> real, attempt: nat): (r: Retried<T>)
    requires 1 <= attempt <= s.maxRetries + 1
    requires forall i :: -1.0 <= pick(i) <= 1.0
    ensures r.attempts == |r.waits| + 1
    ensures 1 <= r.attempts <= s.maxRetries + 2 - attempt
    ensures forall i :: attempt <= i < attempt + r.attempts - 1 ==> block(i).Err? && Retryable(block(i).error)
    ensures var last := block(attempt + r.attempts - 1);
            match r.outcome
            case Done(v) => last == Ok(v)
            case GaveUp => returnOnExhaust && last.Err? && Retryable(last.error) && attempt + r.attempts - 1 == s.maxRetries + 1
            case Raised(e) =>
              last.Err?
              && (e == last.error || (e == NilCoercion && Retryable(last.error)))
              && (Retryable(e) ==> attempt + r.attempts - 1 == s.maxRetries + 1 && !returnOnExhaust)
    decreases s.maxRetries + 1 - attempt
  {
    match block(attempt)
    case Ok(v) => Retried(Done(v), [], 1)
    case Err(e) =>
      if !Retryable(e) then Retried(Raised(e), [], 1)
      else if attempt > s.maxRetries then
        if returnOnExhaust then Retried(GaveUp, [], 1) else Retried(Raised(e), [], 1)
      else
        match ApplyJitter(BaseWait(s, e, attempt), s.retryJitter, pick(attempt))
        case Err(j) => Retried(Raised(j), [], 1)
        case Ok(w) =>
          var rest := WithRetries(s, returnOnExhaust, block, pick, attempt + 1);
          var waits := [w] + rest.waits;
          Retried(rest.outcome, waits, rest.attempts + 1)
  }

  /** A loop that ran more than one attempt retried after its first one: that
      attempt failed with a retryable error, the wait after it is the jittered
      base wait, and the rest is the loop from the next attempt. */
  lemma FirstRetried<T>(s: Settings, returnOnExhaust: bool, block: nat -> Result<T, Error>, pick: nat -> real, attempt: nat) returns (w: real)
    requires 1 <= attempt <= s.maxRetries + 1
    requires forall i :: -1.0 <= pick(i) <= 1.0
    requires WithRetries(s, returnOnExhaust, block, pick, attempt).attempts > 1
    ensures attempt <= s.maxRetries && block(attempt).Err? && Retryable(block(attempt).error)
    ensures ApplyJitter(BaseWait(s, block(attempt).error, attempt), s.retryJitter, pick(attempt)) == Ok(w)
    ensures var rest := WithRetries(s, returnOnExhaust, block, pick, attempt + 1);
            WithRetries(s, returnOnExhaust, block, pick, attempt) == Retried(rest.outcome, [w] + rest.waits, rest.attempts + 1)
  {
    w := ApplyJitter(BaseWait(s, block(attempt).error, attempt), s.retryJitter, pick(attempt)).value;
  }

  /** A failure that stays retryable is attempted exactly `max_retries + 1`
      times, then reported as `nil` or re-raised unchanged. */
  lemma {:induction false} PersistentFailure<T>(s: Settings, returnOnExhaust: bool, block: nat -> Result<T, Error>, pick: nat -> real, attempt: nat, e: Error)
    requires 1 <= attempt <= s.maxRetries + 1
    requires forall i :: -1.0 <= pick(i) <= 1.0
    requires forall i :: block(i) == Err(e)
    requires Retryable(e) && NonNegative(s) && (!e.Transport? && e.retryAfter.Some? ==> e.retryAfter.value >= 0.0)
    ensures var r := WithRetries(s, returnOnExhaust, block, pick, attempt);
            r.attempts == s.maxRetries + 2 - attempt
            && r.outcome == if returnOnExhaust then GaveUp else Raised(e)
    decreases s.maxRetries + 1 - attempt
  {
    if attempt <= s.maxRetries {
      PersistentFailure(s, returnOnExhaust, block, pick, attempt + 1, e);
      var w := JitteredWait(s, e, attempt, pick(attempt));
      RetryStep(s, returnOnExhaust, block, pick, attempt, e, w);
    } else {
      LastAttempt(s, returnOnExhaust, block, pick, attempt, e);
    }
  }

  /** With non-negative settings the wait after a retryable error always computes. */
  lemma JitteredWait(s: Settings, e: Error, attempt: nat, u: real) returns (w: real)
    requires attempt >= 1 && -1.0 <= u <= 1.0
    requires Retryable(e) && NonNegative(s) && (!e.Transport? && e.retryAfter.Some? ==> e.retryAfter.value >= 0.0)
    ensures ApplyJitter(BaseWait(s, e, attempt), s.retryJitter, u) == Ok(w)
  {
    w := ApplyJitter(BaseWait(s, e, attempt), s.retryJitter, u).value;
  }

  /** A retryable failure on the last attempt gives up or re-raises. */
  lemma LastAttempt<T>(s: Settings, returnOnExhaust: bool, block: nat -> Result<T, Error>, pick: nat -> real, attempt: nat, e: Error)
    requires attempt == s.maxRetries + 1
    requires forall i :: -1.0 <= pick(i) <= 1.0
    requires block(attempt) == Err(e) && Retryable(e)
    ensures WithRetries(s, returnOnExhaust, block, pick, attempt) == Retried(if returnOnExhaust then GaveUp else Raised(e), [], 1)
  {
  }

  /** A retryable failure before the last attempt whose wait computes: one
      more wait, then the loop from the next attempt. */
  lemma RetryStep<T>(s: Settings, returnOnExhaust: bool, block: nat -> Result<T, Error>, pick: nat -> real, attempt: nat, e: Error, w: real)
    requires 1 <= attempt <= s.maxRetries
    requires forall i :: -1.0 <= pick(i) <= 1.0
    requires block(attempt) == Err(e) && Retryable(e)
    requires ApplyJitter(BaseWait(s, e, attempt), s.retryJitter, pick(attempt)) == Ok(w)
    ensures var rest := WithRetries(s, returnOnExhaust, block, pick, attempt + 1);
            WithRetries(s, returnOnExhaust, block, pick, attempt) == Retried(rest.outcome, [w] + rest.waits, rest.attempts + 1)
  {
  }

  /** An error outside the retryable set ends the loop on the attempt that raised it. */
  lemma NotRetried<T>(s: Settings, returnOnExhaust: bool, block: nat -> Result<T, Error>, pick: nat -> real, attempt: nat)
    requires 1 <= attempt <= s.maxRetries + 1
    requires forall i :: -1.0 <= pick(i) <= 1.0
    requires block(attempt).Err? && !Retryable(block(attempt).error)
    ensures WithRetries(s, returnOnExhaust, block, pick, attempt) == Retried(Raised(block(attempt).error), [], 1)
  {
  }

  // ---------------------------------------------------------------------------
  // fetch

  /** What `fetch` returns: the payload, or `{ not_modified: true, final_url: url }`. */
  datatype FetchResult = Fetched(payload: Payload) | NotModifiedResult(finalUrl: string)

  /** The block of `fetch`: 304 returns from `fetch` at once; 403 and every
      other error propagate to `with_retries`. */
  function FetchAttempt(url: string, flow: Result<(Response, Payload), Error>): (r: Result<FetchResult, Error>)
    ensures flow.Err? && flow.error.NotModified? ==> r == Ok(NotModifiedResult(url))
    ensures flow.Err? && !flow.error.NotModified? ==> r == Err(flow.error)
    ensures flow.Ok? ==> r == Ok(Fetched(flow.value.1))
  {
    match flow
    case Ok((_, payload)) => Ok(Fetched(payload))
    case Err(e) => if e.NotModified? then Ok(NotModifiedResult(url)) else Err(e)
  }

  /** `fetch(url)`: `flows(i)` is `fetch_with_redirects` on attempt `i`.
      Every attempt but the last failed with a retryable error (429, 503 or
      a network error); the last one's payload, or its 304, is the result,
      and anything else it raised propagates — a retryable error only once
      the retries are used up. */
  function Fetch(s: Settings, url: string, flows: nat -> Result<(Response, Payload), Error>, pick: nat -> real): (r: Retried<FetchResult>)
    requires s.maxRetries >= 1
    requires forall i :: -1.0 <= pick(i) <= 1.0
    ensures !r.outcome.GaveUp?
    ensures 1 <= r.attempts <= s.maxRetries + 1 && |r.waits| == r.attempts - 1
    ensures forall i :: 1 <= i < r.attempts ==> flows(i).Err? && Retryable(flows(i).error)
    ensures r.outcome.Done? ==> FetchAttempt(url, flows(r.attempts)) == Ok(r.outcome.value)
    ensures r.outcome.Raised? ==>
              var last := flows(r.attempts);
              last.Err? && !last.error.NotModified?
              && (r.outcome.error == last.error || (r.outcome.error == NilCoercion && Retryable(last.error)))
              && (Retryable(r.outcome.error) ==> r.attempts == s.maxRetries + 1)
    ensures flows(1).Err? && flows(1).error.Forbidden? ==> r == Retried(Raised(flows(1).error), [], 1)
    ensures flows(1).Err? && flows(1).error.NotModified? ==> r == Retried(Done(NotModifiedResult(url)), [], 1)
  {
    var r := WithRetries(s, false, FetchBlock(url, flows), pick, 1);
    assert forall i :: 1 <= i < r.attempts ==> FetchBlock(url, flows)(i).Err?;
    r
  }

  /** The block `fetch` hands to `with_retries`. */
  function FetchBlock(url: string, flows: nat -> Result<(Response, Payload), Error>): (block: nat -> Result<FetchResult, Error>)
    ensures forall i :: block(i) == FetchAttempt(url, flows(i))
  {
    (i: nat) => FetchAttempt(url, flows(i))
  }

  /** A 429 carrying `Retry-After` and then a success: `fetch` waits once,
      about the advertised delay, and returns the second attempt's payload. */
  lemma FetchAfterTooManyRequests(s: Settings, pick: nat -> real, url: string, after: real, ok: Response, payload: Payload)
    requires s.maxRetries >= 1 && NonNegative(s) && after >= 0.0
    requires forall i :: -1.0 <= pick(i) <= 1.0
    ensures var flows := (i: nat) => if i == 1 then Err(TooManyRequests(url, Some(after), url, "content_fetch"))
                                     else Ok((ok, payload));
            var r := Fetch(s, url, flows, pick);
            r.outcome == Done(Fetched(payload)) && r.attempts == 2 && |r.waits| == 1
            && (s.retryJitter.None? ==> r.waits[0] == after)
  {
    var e := TooManyRequests(url, Some(after), url, "content_fetch");
    var flows := (i: nat) => if i == 1 then Err(e) else Ok((ok, payload));
    var block := FetchBlock(url, flows);
    assert flows(1) == Err(e) && flows(2) == Ok((ok, payload));
    var w := JitteredWait(s, e, 1, pick(1));
    RetryStep(s, false, block, pick, 1, e, w);
  }

  // ---------------------------------------------------------------------------
  // resolve_final_url and response_for, as written

  /** The block of `resolve_final_url`: the resolved URL for a 2xx status, and
      `nil` for any other status and for every error — its `rescue
      StandardError` catches 429, 503 and network errors as well. */
  function ResolveAttemptAsWritten(head: Result<HeadResult, Error>): (r: Result<Option<string>, Error>)
    ensures r.Ok?
    ensures r.value.Some? <==> head.Ok? && 200 <= head.value.status < 300
    ensures r.value.Some? ==> r.value.value == head.value.url
  {
    match head
    case Ok(h) => if 200 <= h.status < 300 then Ok(Some(h.url)) else Ok(None)
    case Err(_) => Ok(None)
  }

  /** `resolve_final_url(url)` as written: `heads(i)` is `URI.parse` followed
      by `resolve_head_redirects` on attempt `i`. It makes one attempt. */
  function ResolveFinalUrlAsWritten(s: Settings, heads: nat -> Result<HeadResult, Error>, pick: nat -> real): (r: Retried<Option<string>>)
    requires s.maxRetries >= 1
    requires forall i :: -1.0 <= pick(i) <= 1.0
    ensures r.attempts == 1 && r.waits == []
    ensures r.outcome == Done(if heads(1).Ok? && 200 <= heads(1).value.status < 300 then Some(heads(1).value.url) else None)
  {
    WithRetries(s, false, i => ResolveAttemptAsWritten(heads(i)), pick, 1)
  }

  /** `{ status:, final_url:, response: }`. */
  datatype StatusReport = StatusReport(status: int, finalUrl: string, response: Option<Response>)

  /** The block of `response_for`: success reports the response, 403 and 404
      report their status without one, and every other error gives `nil`. */
  function ResponseForAttemptAsWritten(flow: Result<(Response, Payload), Error>): (r: Result<Option<StatusReport>, Error>)
    ensures r.Ok?
    ensures flow.Ok? ==> r.value == Some(StatusReport(flow.value.0.status, flow.value.1.finalUrl, Some(flow.value.0)))
    ensures flow.Err? && flow.error.Forbidden? ==> r.value == Some(StatusReport(403, flow.error.url, None))
    ensures flow.Err? && flow.error.NotFound? ==> r.value == Some(StatusReport(flow.error.status, flow.error.url, None))
    ensures flow.Err? && !flow.error.Forbidden? && !flow.error.NotFound? ==> r.value.None?
  {
    match flow
    case Ok((resp, payload)) => Ok(Some(StatusReport(resp.status, payload.finalUrl, Some(resp))))
    case Err(e) =>
      match e
      case Forbidden(u, _, _, _) => Ok(Some(StatusReport(403, u, None)))
      case NotFound(u, _, _, status) => Ok(Some(StatusReport(status, u, None)))
      case _ => Ok(None)
  }

  /** `response_for(url)` as written. It makes one attempt. */
  function ResponseForAsWritten(s: Settings, flows: nat -> Result<(Response, Payload), Error>, pick: nat -> real): (r: Retried<Option<StatusReport>>)
    requires s.maxRetries >= 1
    requires forall i :: -1.0 <= pick(i) <= 1.0
    ensures r.attempts == 1 && r.waits == []
    ensures r.outcome == Done(ResponseForAttemptAsWritten(flows(1)).value)
  {
    WithRetries(s, true, i => ResponseForAttemptAsWritten(flows(i)), pick, 1)
  }

  // ---------------------------------------------------------------------------
  // resolve_final_url and response_for, with the retryable errors left to with_retries

  /** The block of `resolve_final_url` when its catch-all leaves retryable errors to `with_retries`. */
  function ResolveAttempt(head: Result<HeadResult, Error>): (r: Result<Option<string>, Error>)
    ensures r.Err? <==> head.Err? && Retryable(head.error)
    ensures head.Err? && Retryable(head.error) ==> r == Err(head.error)
    ensures !(head.Err? && Retryable(head.error)) ==> r == ResolveAttemptAsWritten(head)
  {
    if head.Err? && Retryable(head.error) then Err(head.error) else ResolveAttemptAsWritten(head)
  }

  /** `resolve_final_url(url)` retried, and `nil` once the retries are used
      up: the final URL of the last attempt's HEAD chain when it ended on a
      2xx status, `nil` for any other status and any other error. Only a
      jitter computed from a negative wait raises. */
  function ResolveFinalUrl(s: Settings, heads: nat -> Result<HeadResult, Error>, pick: nat -> real): (r: Retried<Option<string>>)
    requires s.maxRetries >= 1
    requires forall i :: -1.0 <= pick(i) <= 1.0
    ensures 1 <= r.attempts <= s.maxRetries + 1
    ensures forall i :: 1 <= i < r.attempts ==> heads(i).Err? && Retryable(heads(i).error)
    ensures r.outcome.Done? ==> ResolveAttemptAsWritten(heads(r.attempts)) == Ok(r.outcome.value)
    ensures r.outcome.Done? ==>
              (r.outcome.value.Some? <==> heads(r.attempts).Ok? && 200 <= heads(r.attempts).value.status < 300)
    ensures r.outcome.GaveUp? ==>
              r.attempts == s.maxRetries + 1 && heads(r.attempts).Err? && Retryable(heads(r.attempts).error)
    ensures r.outcome.Raised? ==> r.outcome.error == NilCoercion
  {
    var r := WithRetries(s, true, ResolveBlock(heads), pick, 1);
    assert forall i :: 1 <= i < r.attempts ==> ResolveBlock(heads)(i).Err?;
    r
  }

  /** The block `resolve_final_url` hands to `with_retries`. */
  function ResolveBlock(heads: nat -> Result<HeadResult, Error>): (block: nat -> Result<Option<string>, Error>)
    ensures forall i :: block(i) == ResolveAttempt(heads(i))
  {
    (i: nat) => ResolveAttempt(heads(i))
  }

  /** A network error on every attempt: `resolve_final_url` tries
      `max_retries + 1` times and then answers `nil` instead of raising. */
  lemma ResolveExhausted(s: Settings, pick: nat -> real, e: Error)
    requires s.maxRetries >= 1 && NonNegative(s)
    requires forall i :: -1.0 <= pick(i) <= 1.0
    requires e.Transport? && RetryableFault(e.fault)
    ensures var r := ResolveFinalUrl(s, (i: nat) => Err(e), pick);
            r.outcome == GaveUp && r.attempts == s.maxRetries + 1
  {
    PersistentFailure(s, true, ResolveBlock((i: nat) => Err(e)), pick, 1, e);
  }

  /** The block of `response_for` when its catch-all leaves retryable errors to `with_retries`. */
  function ResponseForAttempt(flow: Result<(Response, Payload), Error>): (r: Result<Option<StatusReport>, Error>)
    ensures r.Err? <==> flow.Err? && Retryable(flow.error)
    ensures flow.Err? && Retryable(flow.error) ==> r == Err(flow.error)
    ensures !(flow.Err? && Retryable(flow.error)) ==> r == ResponseForAttemptAsWritten(flow)
  {
    if flow.Err? && Retryable(flow.error) then Err(flow.error) else ResponseForAttemptAsWritten(flow)
  }

  /** The block `response_for` hands to `with_retries`. */
  function ResponseForBlock(flows: nat -> Result<(Response, Payload), Error>): (block: nat -> Result<Option<StatusReport>, Error>)
    ensures forall i :: block(i) == ResponseForAttempt(flows(i))
  {
    (i: nat) => ResponseForAttempt(flows(i))
  }

  /** `response_for(url)` retried, and `nil` once the retries are used up:
      the status report of the last attempt, where every earlier attempt
      failed with a retryable error. Only a jitter computed from a negative
      wait raises. */
  function ResponseFor(s: Settings, flows: nat -> Result<(Response, Payload), Error>, pick: nat -> real): (r: Retried<Option<StatusReport>>)
    requires s.maxRetries >= 1
    requires forall i :: -1.0 <= pick(i) <= 1.0
    ensures 1 <= r.attempts <= s.maxRetries + 1
    ensures forall i :: 1 <= i < r.attempts ==> flows(i).Err? && Retryable(flows(i).error)
    ensures r.outcome.Done? ==> ResponseForAttemptAsWritten(flows(r.attempts)) == Ok(r.outcome.value)
    ensures r.outcome.GaveUp? ==>
              r.attempts == s.maxRetries + 1 && flows(r.attempts).Err? && Retryable(flows(r.attempts).error)
    ensures r.outcome.Raised? ==> r.outcome.error == NilCoercion
  {
    var r := WithRetries(s, true, ResponseForBlock(flows), pick, 1);
    assert forall i :: 1 <= i < r.attempts ==> ResponseForBlock(flows)(i).Err?;
    r
  }

  /** A 429 on the first attempt and a 200 on the second: as written,
      `response_for` gives up with `nil` after one attempt; with the
      retryable errors left to `with_retries` it waits and reports the 200. */
  lemma ResponseForRetryCounterexample(s: Settings, pick: nat -> real, url: string, ok: Response, payload: Payload)
    requires s.maxRetries >= 1 && NonNegative(s)
    requires forall i :: -1.0 <= pick(i) <= 1.0
    requires ok.status == 200
    ensures var flows := (i: nat) => if i == 1 then Err(TooManyRequests(url, Some(1.0), url, "status_check"))
                                     else Ok((ok, payload));
            ResponseForAsWritten(s, flows, pick) == Retried(Done(None), [], 1)
            && ResponseFor(s, flows, pick).outcome == Done(Some(StatusReport(200, payload.finalUrl, Some(ok))))
            && ResponseFor(s, flows, pick).attempts == 2
  {
    var flows := (i: nat) => if i == 1 then Err(TooManyRequests(url, Some(1.0), url, "status_check"))
                             else Ok((ok, payload));
    var r := ResponseFor(s, flows, pick);
    assert flows(1).Err? && Retryable(flows(1).error);
    assert flows(2) == Ok((ok, payload));
  }

  /** The same for `resolve_final_url`: a 429 then a 2xx HEAD resolves only when retried. */
  lemma ResolveRetryCounterexample(s: Settings, pick: nat -> real, url: string)
    requires s.maxRetries >= 1 && NonNegative(s)
    requires forall i :: -1.0 <= pick(i) <= 1.0
    ensures var heads := (i: nat) => if i == 1 then Err(TooManyRequests(url, Some(1.0), url, "canonical_head"))
                                     else Ok(HeadResult(url, 200));
            ResolveFinalUrlAsWritten(s, heads, pick).outcome == Done(None)
            && ResolveFinalUrl(s, heads, pick).outcome == Done(Some(url))
            && ResolveFinalUrl(s, heads, pick).attempts == 2
  {
    var heads := (i: nat) => if i == 1 then Err(TooManyRequests(url, Some(1.0), url, "canonical_head"))
                             else Ok(HeadResult(url, 200));
    assert heads(1).Err? && Retryable(heads(1).error);
    assert heads(2) == Ok(HeadResult(url, 200));
  }
}
