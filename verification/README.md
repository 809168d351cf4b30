# Seldon's resilient HTTP client, modelled in Dafny

Seldon fetches web pages and feeds politely and robustly. This project
models the decision logic of its HTTP client and proves properties of it:

- a session cookie jar that parses `Set-Cookie` headers (section 5.2 of
  RFC 6265, with `Max-Age` taking precedence over `Expires`), selects the
  cookies a request carries, sweeps expired cookies and round-trips through
  a plain-Hash snapshot;
- the response processor, which classifies a status code and reads
  `Retry-After` as delay-seconds or an HTTP-date (section 10.2.3 of
  RFC 9110);
- the GET and HEAD redirect chains, with a decreasing hop budget;
- the per-(operation, host) politeness scheduler;
- the retry loop with rate-limit waits, exponential backoff and jitter, and
  how `fetch`, `resolve_final_url` and `response_for` turn outcomes into
  results;
- the transport policy: the HTTP-version fallback order, the
  TLS-verification fallback, the request headers and the base URL;
- the status resolver, the tracking-parameter filter of the URL
  normaliser, the `href` and `https` helpers and the value normaliser.

Everything is a pure function over immutable datatypes. Ruby's insertion-ordered
`Hash` is an association list (`Assoc`). Exceptions become a `Result` and
`nil` becomes `Option`. The outside world is a parameter:

- the network is an oracle from URI to response or error;
- clocks are values (an integer wall clock for cookies, a real monotonic
  clock for the scheduler);
- `rand` is a chosen value in [-1, 1];
- `URI.parse`, `URI.join`, `Time.httpdate`, `Time.parse`, `iso8601` and
  the query-string codec are uninterpreted functions.

Waits are returned instead of slept.

Files, one module each: `wrappers`, `numbers`, `strings` (Ruby `strip`,
ASCII `downcase`, `split`, `index`, `to_i`), `assoc`, `pair_order` (the
`sort_by [key, value]` order), `http_types`, `cookie_rules`,
`cookie_parse`, `cookie_jar`, `cookie_persist`, `response_processor`,
`request_flow`, `delay_manager`, `http_client`, `http_transport`,
`status_resolver`, `url_normalizer`, `url_utils`, `value_normalizer`.

## Model

| member | source | states |
|---|---|---|
| CookieRules.DomainExamples | lib/seldon/support/cookie_jar.rb:242-246 | `example.com` matches `www.example.com` and itself, but not `other.com` or `notexample.com` |
| CookieRules.SubdomainMatches | lib/seldon/support/cookie_jar.rb:242-246 | every host of the form `sub.` + domain matches the domain |
| CookieRules.DomainMatchShape | lib/seldon/support/cookie_jar.rb:242-246 | a host that matches a domain without equalling it is some prefix, a dot, then the domain |
| CookieRules.SuffixWithoutDotDoesNotMatch | lib/seldon/support/cookie_jar.rb:242-246 | a host that only ends in the domain's letters, with no dot before them, does not match |
| CookieRules.PathExamples | lib/seldon/support/cookie_jar.rb:248-253 | `/app` matches `/app` and `/app/page` but not `/other` or `/application`; `/` matches everything |
| CookieRules.ChildPathMatches | lib/seldon/support/cookie_jar.rb:248-253 | every path below the cookie path matches it |
| CookieRules.PathMatchShape | lib/seldon/support/cookie_jar.rb:248-253 | outside the root, a matching request path is the cookie path itself or the cookie path, "/" and a rest |
| CookieRules.RequestPath | lib/seldon/support/cookie_jar.rb:41 | an empty request path is matched as a non-empty path, and any other path as itself |
| CookieRules.DefaultPath | lib/seldon/support/cookie_jar.rb:225-231 | the default path starts with "/" and is either "/" or a proper prefix of the request path that ends just before its last "/" |
| CookieRules.DefaultPathMatches | lib/seldon/support/cookie_jar.rb:225-231 | a cookie stored with the default path matches the request it came from |
| CookieRules.DefaultPathExamples | lib/seldon/support/cookie_jar.rb:225-231 | `/a/b/c` gives `/a/b`; `/a`, the empty path and a relative path give `/` |
| CookieParse.KeyValue | lib/seldon/support/cookie_jar.rb:195 | without "=" the key is the whole stripped part and there is no value; with "=" there is a value and the key has no "=" |
| CookieParse.DropLineStartDot | lib/seldon/support/cookie_jar.rb:198 | removes a leading "." and at most one character in all, keeps lower case, and changes nothing when no line starts with "." |
| CookieParse.ParsePart | lib/seldon/support/cookie_jar.rb:195-196 | an attribute has a value exactly when its part contains "=" |
| CookieParse.AttrStep | lib/seldon/support/cookie_jar.rb:196-209 | one attribute fails only when it is `Expires` without a value while no expiry is set; a valued `Expires` sets an unset expiry to its parsed time; a valued `Max-Age` sets the expiry to now plus its `to_i`; anything else keeps a set expiry; `Domain` sets the cleaned domain (or none), `Path` sets the path to its value (or none), `Secure` and `HttpOnly` raise their flag, other names change nothing; only `Secure` and `HttpOnly` touch the flags |
| CookieParse.ParseAttributes | lib/seldon/support/cookie_jar.rb:191-213 | a parsed domain is always lower case |
| CookieParse.SecureIff | lib/seldon/support/cookie_jar.rb:192-206 | the parsed attributes are secure exactly when some part is named `Secure` |
| CookieParse.HttpOnlyIff | lib/seldon/support/cookie_jar.rb:192-208 | the parsed attributes are http-only exactly when some part is named `HttpOnly` |
| CookieParse.LastPathWins | lib/seldon/support/cookie_jar.rb:199-200 | the last `Path` part decides the path, its value or none |
| CookieParse.NoPathAttribute | lib/seldon/support/cookie_jar.rb:192-200 | without a `Path` part the parsed path is absent, so the default path is used |
| CookieParse.FirstExpiresWins | lib/seldon/support/cookie_jar.rb:201-202 | with no `Max-Age` value, the first `Expires` whose date parses sets the expiry, and later ones are ignored |
| CookieParse.NoExpiryAttributesBefore | lib/seldon/support/cookie_jar.rb:191-213 | parts with no `Expires` and no valued `Max-Age` parse without error and leave the expiry unset |
| CookieParse.LastMaxAgeWins | lib/seldon/support/cookie_jar.rb:201-204 | the last valued `Max-Age` decides the expiry, whatever `Expires` attributes come before or after it |
| CookieParse.NoExpiryAttributes | lib/seldon/support/cookie_jar.rb:191-213 | with neither `Expires` nor `Max-Age` the attributes parse and the cookie has no expiry |
| CookieParse.LastDomainWins | lib/seldon/support/cookie_jar.rb:197-198 | the last `Domain` attribute decides the domain, lower-cased with its leading dot removed, or none when it has no value |
| CookieParse.NoDomainAttribute | lib/seldon/support/cookie_jar.rb:191-198 | without a `Domain` attribute the parsed domain is absent, so the request host is used |
| CookieParse.ParseSetCookie | lib/seldon/support/cookie_jar.rb:162-189 | a blank header, one whose first part has no "=", and one whose name before the first "=" strips to nothing yield no cookie; a cookie's name and value are the stripped text before and after that "=", the name is non-empty and free of "=", and the domain is lower case; for a named header the result fails exactly when the attribute loop over the later parts fails, and otherwise takes the loop's domain or the lower-cased host, the loop's path or the default path, and the loop's expiry and flags |
| CookieParse.NamePair | lib/seldon/support/cookie_jar.rb:163-175 | a header yields a name and value exactly when it is not blank, its first field holds "=" and the name before it strips to something; they are the stripped text around that "=", the name free of "=" and the value already stripped |
| CookieParse.BuildCookie | lib/seldon/support/cookie_jar.rb:178-188 | the cookie fails exactly when the attribute loop failed, with its error; otherwise it carries the given name and value and takes domain, path, expiry and flags from the loop or the defaults |
| CookieParse.AttrPartsNamed | lib/seldon/support/cookie_jar.rb:165-196 | an attribute name occurs in the loop's input exactly when some header field after the first classifies as it |
| CookieParse.SecureFromHeader | lib/seldon/support/cookie_jar.rb:162-206 | a parsed cookie is secure exactly when some field after the first of its header is named `Secure` |
| CookieParse.HttpOnlyFromHeader | lib/seldon/support/cookie_jar.rb:162-208 | a parsed cookie is http-only exactly when some field after the first of its header is named `HttpOnly` |
| CookieParse.SecurePair | lib/seldon/support/cookie_jar.rb:162-206 | the header `name=value;attr` with `attr` naming `Secure` parses to the cookie with the stripped name and value, the lower-cased host, the default path, no expiry, secure and not http-only |
| CookieParse.PairHeader | lib/seldon/support/cookie_jar.rb:165-174 | `name=value;attr` splits into the pair and `attr`, and its first field's "=" separates text that strips to `name` and to `value` |
| CookieParse.SecureOnly | lib/seldon/support/cookie_jar.rb:162-206 | a header `name=value; Secure` gives the stripped name and value, the host domain, the default path, no expiry, secure and not http-only |
| CookieParse.ParseWithoutAttributes | lib/seldon/support/cookie_jar.rb:162-189 | a header without attributes gives the stripped name and value, the lower-cased request host, the default path, no expiry and no flags |
| CookieParse.SetCookieValue | lib/seldon/support/cookie_jar.rb:152 | the value looked up under `Set-Cookie` or `set-cookie` is never `nil` |
| CookieParse.Compact | lib/seldon/support/cookie_jar.rb:153-154 | keeps exactly the non-nil, non-empty values, and only those, never more entries than it was given |
| CookieParse.CompactAppend | lib/seldon/support/cookie_jar.rb:153-154 | compacting a concatenation is compacting each part and concatenating, so order and repetitions are kept |
| CookieParse.CompactAllKept | lib/seldon/support/cookie_jar.rb:153-154 | a list of non-empty strings comes through unchanged |
| CookieParse.SetCookieHeaders | lib/seldon/support/cookie_jar.rb:149-155 | a single String header is the one value, or none when empty; a list is compacted in order; no extracted value is empty |
| CookieParse.SetCookieHeadersExamples | lib/seldon/support/cookie_jar.rb:149-155 | no headers give none; a single string is wrapped; `nil` and empty entries of a list are dropped in order |
| CookieJar.Store | lib/seldon/support/cookie_jar.rb:234-240 | a cookie without a domain leaves the jar unchanged |
| CookieJar.StoreLookup | lib/seldon/support/cookie_jar.rb:234-240 | after storing, the cookie's own (domain, path, name) finds it and every other key finds what it found before |
| CookieJar.StoreReplaces | lib/seldon/support/cookie_jar.rb:234-240 | storing under a key that already holds a cookie keeps the size and serves the new cookie |
| CookieJar.StoreSize | lib/seldon/support/cookie_jar.rb:234-240 | storing adds one to the size for a new key and nothing for an existing one |
| CookieJar.StoreWellFormed | lib/seldon/support/cookie_jar.rb:234-240 | storing keeps every cookie filed under its own domain, path and name, with no duplicate keys or empty buckets |
| CookieJar.EmptyIffSizeZero | lib/seldon/support/cookie_jar.rb:85-94 | without empty buckets, `empty?` holds exactly when `size` is 0 |
| CookieJar.Clear | lib/seldon/support/cookie_jar.rb:66-68 | after `clear` the jar is empty, has size 0 and finds nothing |
| CookieJar.CookiesFor | lib/seldon/support/cookie_jar.rb:37-63 | a URI without a host gets no cookies; no cookie sent is Secure over a non-https scheme or expired |
| CookieJar.CookiesForExactly | lib/seldon/support/cookie_jar.rb:37-63 | a stored cookie is sent exactly when it is sendable under its key: domain and path match, not Secure over plain http, not expired |
| CookieJar.CookiesForSelects | lib/seldon/support/cookie_jar.rb:37-63 | `cookies_for` equals a reference filter over the flat list of all stored cookies, in the jar's order |
| CookieJar.SelectMembers | lib/seldon/support/cookie_jar.rb:47-57 | the reference filter keeps a cookie exactly when some entry holding it is sendable |
| CookieJar.EmptyPathIsRoot | lib/seldon/support/cookie_jar.rb:41 | a request with an empty path gets the cookies of the same request with path "/" |
| CookieJar.CookieHeaderFor | lib/seldon/support/cookie_jar.rb:29-34 | there is a Cookie header exactly when some cookie matches, and never for a URI without a host |
| CookieJar.CookieHeaderFields | lib/seldon/support/cookie_jar.rb:29-34 | split at ";" and stripped, the Cookie header gives back the matched cookies' `name=value` pairs, one field per cookie and in order, when no pair holds ";" or edge whitespace |
| CookieJar.PairsHeaderFields | lib/seldon/support/cookie_jar.rb:33 | split at ";" and stripped, the `"; "`-join of a run of pairs gives the pairs back one by one |
| CookieJar.ClearExpired | lib/seldon/support/cookie_jar.rb:71-82 | the swept jar has no empty bucket and no more domains than before |
| CookieJar.ClearExpiredLookup | lib/seldon/support/cookie_jar.rb:71-82 | after the sweep, every key finds its old cookie if that has not expired, and nothing otherwise |
| CookieJar.Surviving | lib/seldon/support/cookie_jar.rb:76 | a cookie survives the sweep exactly when it has no expiry before now, and survives unchanged |
| CookieJar.ClearExpiredEmptyIffSizeZero | lib/seldon/support/cookie_jar.rb:71-94 | on a swept jar `empty?` holds exactly when `size` is 0 |
| CookieJar.ClearExpiredWellFormed | lib/seldon/support/cookie_jar.rb:71-82 | the sweep keeps the jar well formed |
| CookieJar.StoreFromResponse | lib/seldon/support/cookie_jar.rb:19-26 | without headers, or with no Set-Cookie value, the jar is unchanged and nothing is raised |
| CookieJar.StoreAllNothingParsed | lib/seldon/support/cookie_jar.rb:157-160 | headers that are blank, lack "=" or have an empty name store nothing |
| CookieJar.StoreAllWellFormed | lib/seldon/support/cookie_jar.rb:19-26 | storing a response's cookies keeps the jar well formed |
| CookieJar.PlainPairParses | lib/seldon/support/cookie_jar.rb:162-189 | a plain `name=value` header parses into that name and value under the lower-cased request host and the default path |
| CookieJar.SetThenSend | lib/seldon/support/cookie_jar.rb:19-34 | after a response sets one plain `name=value` cookie in an empty jar, the next request to the same URI carries exactly `name=value` |
| CookiePersist.ToH | lib/seldon/support/cookie_jar.rb:97-116 | the snapshot is a Hash with one entry per domain, with the jar's domains in order |
| CookiePersist.SavedAttrs | lib/seldon/support/cookie_jar.rb:105-110 | the saved attributes hold the value, the ISO expiry or `nil`, and both flags |
| CookiePersist.ValueOf | lib/seldon/support/cookie_jar.rb:134 | a String value loads as itself, `true` and `false` as the text they print as, and `nil` or a missing value as none |
| CookiePersist.ValueRoundTrip | lib/seldon/support/cookie_jar.rb:134 | the value `to_h` saves is the value `load` reads back |
| CookiePersist.LoadedFlagValue | lib/seldon/support/cookie_jar.rb:33 | a loaded boolean value is sent as `name=true` or `name=false` |
| CookiePersist.ExpiresOf | lib/seldon/support/cookie_jar.rb:137 | a missing, `nil` or `false` expiry loads as no expiry |
| CookiePersist.ExpiresRoundTrip | lib/seldon/support/cookie_jar.rb:137 | when the time parser reads back ISO times, a saved expiry loads as the same expiry |
| CookiePersist.RebuildSaved | lib/seldon/support/cookie_jar.rb:132-140 | the cookie rebuilt from its saved attributes, domain, path and name is the original cookie |
| CookiePersist.LoadCookieRebuilds | lib/seldon/support/cookie_jar.rb:129-140 | loading one saved cookie stores exactly that cookie and raises nothing |
| CookiePersist.Load | lib/seldon/support/cookie_jar.rb:119-120 | loading anything but a Hash changes nothing |
| CookiePersist.LoadToHRoundTrip | lib/seldon/support/cookie_jar.rb:97-145 | loading a well-formed jar's snapshot into an empty jar gives back the same jar, key order included, and raises nothing |
| ResponseProcessor.RedirectLocation | lib/seldon/support/http_client/response_processor.rb:41-43 | the Location is the `location` header as sent, and is absent exactly when there is no such header |
| ResponseProcessor.RetryAfterValue | lib/seldon/support/http_client/response_processor.rb:83-93 | no header gives nothing; a digits-only value gives its decimal value; an HTTP-date gives the seconds until it rounded up; anything else gives nothing |
| ResponseProcessor.RetryAfter | lib/seldon/support/http_client/response_processor.rb:45-51 | a positive parsed value is the wait; a missing, unreadable, zero or negative one gives the default |
| ResponseProcessor.RetryAfterSeconds | lib/seldon/support/http_client/response_processor.rb:83-87 | any digit string whose value is positive is the wait, whatever the default |
| ResponseProcessor.RetryAfterPadded | lib/seldon/support/http_client/response_processor.rb:83-87 | zeros before a number, as in `007`, do not change the wait it gives |
| Strings.LeadingZeros | lib/seldon/support/http_client/response_processor.rb:83-84 | zeros before a digit string keep it a digit string of the same value |
| ResponseProcessor.RetryAfterZero | lib/seldon/support/http_client/response_processor.rb:48-49 | `Retry-After: 0` falls back to the default |
| ResponseProcessor.RetryAfterDate | lib/seldon/support/http_client/response_processor.rb:83-90 | a future HTTP-date gives the whole seconds until it, rounded up; a past or present one gives the default |
| ResponseProcessor.CheckStatus | lib/seldon/support/http_client/response_processor.rb:22-34 | the check passes exactly for 2xx; every error carries the request URI, the origin URL and the operation |
| ResponseProcessor.CheckStatusClassifies | lib/seldon/support/http_client/response_processor.rb:22-34 | the outcome follows the status table: 304, 429, 503, 403 and 404 raise their own errors, 429 and 503 with their Retry-After waits, and any other non-2xx raises HttpError with the status and response |
| ResponseProcessor.ClassifiesOnly | lib/seldon/support/http_client/response_processor.rb:22-34 | the status table admits only one outcome per response and context |
| ResponseProcessor.CheckStatusRetryable | lib/seldon/support/http_client/response_processor.rb:26-27 | a status error is one the retry loop retries exactly when the status is 429 or 503 |
| ResponseProcessor.RedirectIsNotSuccess | lib/seldon/support/http_client/response_processor.rb:36-39 | a redirect is never 304 and never passes the status check |
| RequestFlow.Get | lib/seldon/support/http_client/request_flow.rb:30-83 | a chain makes at most budget + 1 requests; an unparsable URL makes none; success is a 2xx answer to the last URI requested, with its body, its content type and that URI as final URL |
| RequestFlow.Settle | lib/seldon/support/http_client/request_flow.rb:56-66 | a non-redirect answer succeeds exactly when it is 2xx and then reports its body, its content type and the requested URI |
| RequestFlow.FetchWithRedirects | lib/seldon/support/http_client/request_flow.rb:20-22 | a logical GET makes at most `max_redirects` + 1 requests |
| RequestFlow.GetOutOfBudget | lib/seldon/support/http_client/request_flow.rb:70 | a redirect arriving with no budget left fails with "Too many redirects", whatever its Location |
| RequestFlow.GetMissingLocation | lib/seldon/support/http_client/request_flow.rb:72-73 | a redirect within budget but without Location fails with "Redirect missing location header" |
| RequestFlow.GetFollows | lib/seldon/support/http_client/request_flow.rb:75-82 | a followed redirect continues at `absolutize(current, location) \|\| location` with one hop less |
| RequestFlow.GetClassifies | lib/seldon/support/http_client/request_flow.rb:35-57 | a non-redirect answer is classified once, and its status error is what the chain raises |
| RequestFlow.GetErrorOrigin | lib/seldon/support/http_client/request_flow.rb:30-83 | a failed chain fails at its last hop: a transport error, a redirect limit, a missing Location, an unparsable target or a status error |
| RequestFlow.Head | lib/seldon/support/http_client/request_flow.rb:85-108 | a HEAD chain makes between 1 and budget + 1 requests; its result is the last URI requested and that answer's status, never 429, and a redirect only when it has no Location |
| RequestFlow.HeadTooManyRequests | lib/seldon/support/http_client/request_flow.rb:89 | a 429 answer raises TooManyRequests with its Retry-After wait |
| RequestFlow.HeadReturnsStatus | lib/seldon/support/http_client/request_flow.rb:105-106 | any other non-redirect status, 403, 404 and 503 included, is returned with the current URI |
| RequestFlow.HeadOutOfBudget | lib/seldon/support/http_client/request_flow.rb:92 | a HEAD redirect with no budget left fails with "Too many redirects" |
| RequestFlow.HeadMissingLocation | lib/seldon/support/http_client/request_flow.rb:94-95 | a HEAD redirect without Location returns the current URI and status instead of raising |
| RequestFlow.HeadFollows | lib/seldon/support/http_client/request_flow.rb:97-104 | a followed HEAD redirect continues at the parsed next URL with one hop less |
| DelayManager.Normalize | lib/seldon/support/http_client/operation_delay_manager.rb:42-43 | a configuration that is not a Hash gives an empty table |
| DelayManager.NormalizeReads | lib/seldon/support/http_client/operation_delay_manager.rb:42-60 | the table answers each (operation, host) with the last kept delay for that host among all Hash-valued operations whose key reads as that operation, symbols and strings merged |
| DelayManager.ConfiguredKept | lib/seldon/support/http_client/operation_delay_manager.rb:50-57 | every delay in the table is positive and filed under a non-empty, lower-case host |
| DelayManager.DelayedKey | lib/seldon/support/http_client/operation_delay_manager.rb:16-22 | there is no key without an operation, a URI or a host; otherwise the key is the operation's `to_s` and the lower-cased host, and the delay is the one configured for them |
| DelayManager.Reserve | lib/seldon/support/http_client/operation_delay_manager.rb:24-32 | the wait is never negative; the key's new start is now plus the wait, which is `max(last + delay, now)` after an earlier start and now for the first; no other key changes |
| DelayManager.ApplyDelay | lib/seldon/support/http_client/operation_delay_manager.rb:15-34 | the wait is never negative, and without a configured key the call waits 0 and changes nothing |
| DelayManager.ApplyDelayTiming | lib/seldon/support/http_client/operation_delay_manager.rb:21-32 | the first call for a configured key waits 0 and records now; a later one waits `max(last + delay - now, 0)`; other keys keep their schedule |
| DelayManager.StartsSpaced | lib/seldon/support/http_client/operation_delay_manager.rb:28-31 | successive requests for one configured key start no earlier than they are made and at least `delay` apart, even with a clock that goes backwards |
| DelayManager.RunSpaced | lib/seldon/support/http_client/operation_delay_manager.rb:28-31 | any step that reserves its key this way spaces the starts of a run |
| HttpClient.MaxRetries | lib/seldon/support/http_client.rb:144 | the retry count is at least 1, is the truncated setting when that is at least 1, and is 1 below 2 |
| HttpClient.ApplyJitter | lib/seldon/support/http_client.rb:310-315 | without a positive jitter the base is returned; otherwise a non-negative base gives a value in `[max(base - base·j, 0), base + base·j]`, and a negative base raises |
| HttpClient.BaseWait | lib/seldon/support/http_client.rb:278-300 | with non-negative settings the wait before a retry is never negative |
| HttpClient.BackoffGrows | lib/seldon/support/http_client.rb:300 | with a factor of at least 1, each network-error retry waits at least as long as the previous one |
| HttpClient.WithRetries | lib/seldon/support/http_client.rb:265-308 | at most `max_retries` + 1 attempts; every attempt but the last failed retryably; the result is the last attempt's value, `nil` after a retryable failure of the last allowed attempt when asked for, or a raised error, which is the last attempt's own or the failure to compute a jittered wait |
| HttpClient.FirstRetried | lib/seldon/support/http_client.rb:271-306 | a loop that ran more than once failed retryably before its last attempt, waited the jittered base wait for that error, and went on with the next attempt |
| HttpClient.RetryStep | lib/seldon/support/http_client.rb:271-306 | a retryable failure before the last attempt waits the jittered base wait and continues with the next attempt |
| HttpClient.LastAttempt | lib/seldon/support/http_client.rb:271-297 | a retryable failure on the last attempt gives `nil` when asked for and re-raises otherwise |
| HttpClient.NotRetried | lib/seldon/support/http_client.rb:259-270 | an error outside the retryable set ends the loop on the attempt that raised it |
| HttpClient.PersistentFailure | lib/seldon/support/http_client.rb:265-308 | a failure that stays retryable is attempted exactly `max_retries` + 1 times, then gives `nil` or is re-raised unchanged |
| HttpClient.JitteredWait | lib/seldon/support/http_client.rb:310-315 | with non-negative settings the jittered wait after a retryable error always computes |
| HttpClient.FetchAttempt | lib/seldon/support/http_client.rb:177-195 | 304 becomes `{not_modified: true, final_url: url}`, any other error is raised, and success returns the payload |
| HttpClient.Fetch | lib/seldon/support/http_client.rb:175-196 | every attempt before the last failed with a 429, 503 or network error; a result is the last attempt's payload or its 304 answer; a raised error is the last attempt's, or the jitter's, and a retryable one only after `max_retries + 1` attempts; `fetch` never gives up with `nil`; a first 403 is raised and a first 304 returned at once |
| HttpClient.FetchAfterTooManyRequests | lib/seldon/support/http_client.rb:175-196 | a 429 with Retry-After and then a success give the second payload after two attempts and one wait, the advertised delay when there is no jitter |
| HttpClient.ResolveAttemptAsWritten | lib/seldon/support/http_client.rb:199-218 | the block never raises, and returns the resolved URL exactly when the HEAD chain ended with a 2xx |
| HttpClient.ResolveFinalUrlAsWritten | lib/seldon/support/http_client.rb:198-219 | as written, `resolve_final_url` makes one attempt and answers the URL only for a 2xx |
| HttpClient.ResponseForAttemptAsWritten | lib/seldon/support/http_client.rb:222-254 | success reports status, final URL and response; 403 reports 403 and the error's URL; 404 reports its status and URL; every other error gives `nil` |
| HttpClient.ResponseForAsWritten | lib/seldon/support/http_client.rb:221-255 | as written, `response_for` makes one attempt |
| HttpClient.ResponseForRetryCounterexample | lib/seldon/support/http_client.rb:251-253 | a 429 then a 200: as written the answer is `nil` after one attempt, corrected it is the 200 after two |
| HttpClient.ResolveRetryCounterexample | lib/seldon/support/http_client.rb:215-217 | a 429 then a 2xx HEAD: as written the answer is `nil`, corrected it is the URL after two attempts |
| HttpClient.ResolveAttempt | lib/seldon/support/http_client.rb:199-218 | the corrected block raises exactly the retryable errors and otherwise answers as written |
| HttpClient.ResolveFinalUrl | lib/seldon/support/http_client.rb:198-219 | every attempt before the last failed retryably; the answer is a URL exactly when the last HEAD chain ended on a 2xx status, and that chain's URL; once retries are used up the answer is `nil`; only the jitter can raise |
| HttpClient.ResolveExhausted | lib/seldon/support/http_client.rb:198-219 | a network error on every attempt gives `nil` after `max_retries + 1` attempts |
| HttpClient.ResponseForAttempt | lib/seldon/support/http_client.rb:222-254 | the corrected block raises exactly the retryable errors and otherwise answers as written |
| HttpClient.ResponseFor | lib/seldon/support/http_client.rb:221-255 | at most `max_retries` + 1 attempts; every earlier attempt failed retryably; a report is the as-written answer of the last attempt; `nil` on exhaustion comes only after `max_retries` + 1 attempts, the last of which also failed retryably; only the jitter (`NilCoercion`) can raise |
| HttpTransport.Fallbacks | lib/seldon/support/http_client/http_transport.rb:51-67 | an unsupported method raises before any exchange; otherwise the first exchange is at the first version with verification, there are at most one more exchanges than versions left, and success is the last exchange's response accepted by the block |
| HttpTransport.FallbackOrder | lib/seldon/support/http_client/http_transport.rb:52-66 | while exchanges fail to connect or time out, the k-th is made at the k-th version of HTTP/2, 1.1, 1.0, and the last failure is raised |
| HttpTransport.SslFallback | lib/seldon/support/http_client/http_transport.rb:141-151 | a TLS failure is retried once at the same version without verification when allowed, and raised as it came otherwise; no later version is tried |
| HttpTransport.NoFallback | lib/seldon/support/http_client/http_transport.rb:52-66 | any other failure, and any block error, is raised after a single exchange |
| HttpTransport.Deliver | lib/seldon/support/http_client/http_transport.rb:83-84 | the response comes back exactly when the caller's block accepts it |
| HttpTransport.PutIf | lib/seldon/support/http_client/http_transport.rb:117-118 | an optional header is set exactly when its value is present, and no other header changes |
| HttpTransport.GetHeaders | lib/seldon/support/http_client/http_transport.rb:113-120 | GET always sends User-Agent, Accept and `Accept-Encoding: identity`, adds Referer, From and Cookie exactly when present, and sends nothing else |
| HttpTransport.HeadHeaders | lib/seldon/support/http_client/http_transport.rb:122-133 | HEAD sends User-Agent, adds From and Cookie exactly when present, and sends nothing else |
| HttpTransport.HeadHasNoAccept | lib/seldon/support/http_client/http_transport.rb:122-126 | HEAD never sends Accept, Accept-Encoding or Referer |
| HttpTransport.CookieFor | lib/seldon/support/http_client/http_transport.rb:128-133 | there is no Cookie header without a jar or host, and with a jar there is one exactly when some cookie matches |
| HttpTransport.BaseUrlFor | lib/seldon/support/http_client/http_transport.rb:97-104 | the base URL is `scheme://host`, followed by the port exactly when it differs from the scheme's default |
| HttpTransport.BaseUrlKeepsPort | lib/seldon/support/http_client/http_transport.rb:97-104 | leaving out the default port loses nothing: the base URL connects to the URI's port |
| HttpTransport.Execute | lib/seldon/support/http_client/http_transport.rb:35-47 | the operation delay is applied before the exchanges; a failed request leaves the jar alone; without a jar there is still none |
| HttpTransport.TransportDelivers | lib/seldon/support/http_client/http_transport.rb:35-40 | every success `execute_get` or `execute_head` answers is what its fallback chain delivered |
| HttpTransport.GetThroughTransport | lib/seldon/support/http_client/request_flow.rb:30-62 | a GET chain run over such a transport ends on the response the last URI's fallback chain received and the block accepted |
| HttpTransport.ExecuteStoresCookies | lib/seldon/support/http_client/http_transport.rb:135-139 | with a jar and response headers, the jar becomes what `store_from_response` gives, and the call fails exactly when storing raised |
| StatusResolver.Resolve | lib/seldon/support/http_status_resolver.rb:38-65 | the client is asked exactly for an http or https URI; `:success` exactly for a reported 2xx, `:not_found` exactly for 404 or 410, and `:error` otherwise, for no report or a failure |
| StatusResolver.NotFoundThroughClient | lib/seldon/support/http_status_resolver.rb:42-50 | a 404 reaches the resolver through `response_for` as `:not_found` |
| StatusResolver.GoneThroughClient | lib/seldon/support/http_status_resolver.rb:42-54 | a 410 reaches the resolver as a plain HTTP error, so it resolves to `:error` |
| UrlNormalizer.Kept | lib/seldon/support/url_normalizer.rb:71-80 | each pair survives exactly as often as it occurred unless its key is a tracking parameter, and no tracking key survives |
| UrlNormalizer.HostSpecificParams | lib/seldon/support/url_normalizer.rb:10-25 | `FC` is dropped on PubMed in any case, `fc` is kept on other hosts, `utm_*` and `fbclid` are dropped, and `foo` is kept |
| UrlNormalizer.FilteredQuery | lib/seldon/support/url_normalizer.rb:64-87 | an absent or empty query gives none; an undecodable one is kept as it was; otherwise the result is absent exactly when nothing survives, and is the encoding of the sorted survivors |
| UrlNormalizer.FilteredQueryOrder | lib/seldon/support/url_normalizer.rb:84 | the encoded order is the one sorted arrangement of the surviving pairs |
| UrlNormalizer.AllTrackingDropped | lib/seldon/support/url_normalizer.rb:82 | a query made only of tracking parameters disappears |
| UrlNormalizer.Canonical | lib/seldon/support/url_normalizer.rb:55-62 | a canonical string exists exactly for a URI with a host and scheme `http` or `https`, and is that URI with its query filtered |
| UrlNormalizer.ParseWithFallback | lib/seldon/support/url_normalizer.rb:99-107 | a string that does not parse is parsed again behind `https://` |
| UrlNormalizer.Normalize | lib/seldon/support/url_normalizer.rb:27-51 | blank input gives none; any result is an http(s) URI with a host and filtered query; a direct parse wins; otherwise only a non-empty base that joins can give a result |
| UrlNormalizer.ProtocolRelative | lib/seldon/support/url_normalizer.rb:28-33 | `//host/x` is read exactly as `https://host/x` |
| UrlUtils.Absolutize | lib/seldon/support/url_utils.rb:16-29 | `nil`, empty, fragment and `javascript:`/`data:`/`mailto:` links give none; every other link is the join of the base and the stripped link |
| UrlUtils.AbsolutizePadding | lib/seldon/support/url_utils.rb:19 | whitespace around a link makes no difference |
| UrlUtils.AbsolutizeRejectsScript | lib/seldon/support/url_utils.rb:22-23 | a `JavaScript:` link is rejected whatever its case |
| UrlUtils.EnforceHttps | lib/seldon/support/url_utils.rb:37-48 | the candidate changes exactly when it is http, the base is https and both hosts parse equal, and then only `http:` becomes `https:` |
| UrlUtils.EnforceHttpsIdempotent | lib/seldon/support/url_utils.rb:37-48 | a second pass changes nothing |
| UrlUtils.AnyWordAt | lib/seldon/support/url_utils.rb:9-12 | the search over the alternatives agrees with the declarative "some alternative occurs here" |
| UrlUtils.ScanFromMatches | lib/seldon/support/url_utils.rb:50-54 | the left-to-right scan succeeds exactly when a pattern matches at some later position |
| UrlUtils.NonFeedUrl | lib/seldon/support/url_utils.rb:50-54 | `nil` is not a non-feed URL; a URL is one exactly when an extension pattern or a DocumentCenter path occurs in it |
| UrlUtils.UpperCaseExtension | lib/seldon/support/url_utils.rb:10 | `.PDF?` is recognised, ignoring case |
| UrlUtils.ExtensionMustEnd | lib/seldon/support/url_utils.rb:10 | `.pdfxy` is no extension match: the extension must end at "?" or the end of a line |
| UrlUtils.LineBreakEndsExtension | lib/seldon/support/url_utils.rb:10 | `.zip` before a line break is recognised, as Ruby's `$` matches there |
| ValueNormalizer.NormalizeValue | lib/seldon/support/value_normalizer.rb:8-21 | the result is normalized; a string maps to `nil` exactly when blank and is otherwise stripped; empty collections map to `nil` and every other value is unchanged |
| ValueNormalizer.NormalizeFixed | lib/seldon/support/value_normalizer.rb:8-21 | the values left unchanged are exactly the normalized ones |
| ValueNormalizer.NormalizeIdempotent | lib/seldon/support/value_normalizer.rb:8-21 | normalizing twice is normalizing once |
| ValueNormalizer.NormalizePadding | lib/seldon/support/value_normalizer.rb:12 | whitespace around a string does not change its normal form |
| Strings.Strip | lib/seldon/support/value_normalizer.rb:12 | `strip` removes only whitespace, is empty exactly for blank text, and neither begins nor ends with whitespace |
| Strings.StripAround | lib/seldon/support/cookie_jar.rb:170-174 | after `strip`, the first "=" still separates text that strips to what stood before and after it |
| Strings.SplitJoined | lib/seldon/support/cookie_jar.rb:33 | splitting a separator-joined run of separator-free parts gives one field per part, each with the padding put back before it |
| Strings.JoinedFields | lib/seldon/support/cookie_jar.rb:33 | splitting a `"; "`-join of stripped parts without ";" and stripping each field gives the parts back |
| Strings.SplitJoin | lib/seldon/support/cookie_jar.rb:165 | joining the fields of `split` with the separator gives back the header |
| Strings.ToIOfDigits | lib/seldon/support/cookie_jar.rb:204 | `to_i` of a digit string, with or without a sign, is its decimal value |
| PairOrder.SortSorted | lib/seldon/support/url_normalizer.rb:84 | the sort yields the `[key, value]` order |
| PairOrder.SortedUnique | lib/seldon/support/url_normalizer.rb:84 | only one sorted arrangement exists, so an unstable `sort_by` gives the same result |

## Left out

- Network I/O: Faraday connections, adapters, timeouts and request execution
  become the oracle `send`/`exchange`. Reading the body is left to the
  oracle, so a body read that fails with a connection error or timeout, which
  in Ruby would move on to the next HTTP version, is not modelled.
- Mutexes and `sleep`: the model is sequential and returns each wait instead
  of sleeping. The fixed `sleep @delay` in `fetch` is not modelled.
- Clocks and date parsing: `Time.now`, the monotonic clock, `Time.httpdate`,
  `Time.parse` and `iso8601` are parameters. Cookie times are whole seconds.
- `rand` is a chosen factor in [-1, 1] and delays are reals, not floats.
- The URI library (`URI.parse`, `URI.join`, `to_s`, the query codec) is
  uninterpreted. `UrlUtils.parse_host` and `UrlUtils.base_url_for` are thin
  wrappers around it and are not part of this model.
- Logging, environment and encoding helpers, and `ResponseBodyReader` are not
  part of this model.
- Keyword arguments that `http_client.rb` passes but the callees do not
  accept (lines 161, 166, 183-185, 228) are treated as absent. Ruby would
  raise `ArgumentError`; the model follows what the callees do. So there is
  no Retry-After cap, no Referer threading across redirects and no
  conditional-request headers.
- Case folding is ASCII only, for `downcase` and for the `/i` patterns.
- Response header names are looked up in lower case, as the transport's
  header hash provides them.
- `Strings.Split` keeps trailing empty fields, which Ruby's `split` drops.
  An empty trailing part is an unknown attribute and an empty first part has
  no "=", so the parsed cookie is the same.
- A `Domain` attribute is never checked against the request host, as in
  the code.
- Delays are taken as already converted by `to_f`. Host keys are strings or
  symbols.
- CookiePersist.ValueOf: a number, Array or Hash saved as a cookie value
  loads as no value. Ruby keeps the object and prints its `to_s`, which is
  not modelled.
- HttpTransport.GetThroughTransport: the transport's delay schedule and jar
  are those of the chain's start for every hop. The link states where each
  response came from, not how the schedule and jar change between hops.
- The outer `rescue StandardError` in `filtered_query`
  (lib/seldon/support/url_normalizer.rb:85-86) returns the query unchanged;
  no cause of it is represented over string pairs. An undecodable query is
  covered by `decode_query`'s own `rescue ArgumentError` and its
  `return query unless params`, modelled as the codec's decode giving `None`.
- The status resolver's own `URI.parse` failure is the `None` URI.
- The resolver's `:not_found` for 410 is only reachable when the client
  reports a 410. `response_for` never does, because the response processor
  raises a plain HTTP error for 410. The resolver is modelled as written,
  and `StatusResolver.GoneThroughClient` states what the client delivers.
- HttpClient.WithRetries: the contract states the attempts, which attempts
  failed and the outcome. The wait taken after each retried attempt is
  stated one step at a time by `HttpClient.FirstRetried` and
  `HttpClient.RetryStep`, not for the whole list of waits.
- HttpClient.Fetch: the redirect flow result of every attempt is an
  argument, so a retry sees a fresh flow and no state is carried between
  attempts.

## Findings

| source | as written | input that shows it | evidently intended | confidence | as-written member | corrected member |
|---|---|---|---|---|---|---|
| lib/seldon/support/http_client.rb:215-217 | the block's `rescue StandardError` catches 429, 503 and network errors, so `with_retries` never sees them and `resolve_final_url` gives `nil` after one attempt | a HEAD answered 429, then 200 on the next attempt | retryable errors reach `with_retries`, which waits and tries again, giving the URL, and `nil` once the retries are used up | not executed | HttpClient.ResolveRetryCounterexample | HttpClient.ResolveFinalUrl |
| lib/seldon/support/http_client.rb:251-253 | the block's `rescue StandardError` catches 429, 503 and network errors, so `response_for` gives `nil` after one attempt and its `return_on_exhaust` path is never reached | a GET answered 429, then 200 on the next attempt | retryable errors reach `with_retries`, which retries and reports the 200 | not executed | HttpClient.ResponseForRetryCounterexample | HttpClient.ResponseFor |
