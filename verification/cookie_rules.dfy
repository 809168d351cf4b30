/** The cookie record and the matching rules of the session cookie jar: the
    simplified domain-match and path-match of section 5.1.3 and 5.1.4 of
    RFC 6265, and the default-path rule. */
module CookieRules {
  import opened Wrappers
  import opened Strings

  /** `CookieJar::Cookie`. `value` is `None` only for cookies loaded from a
      snapshot without a string value; `domain` is `None` when neither a Domain
      attribute nor the request host supplied one. Times are whole seconds. */
  datatype Cookie = Cookie(
    name: string,
    value: Option<string>,
    domain: Option<string>,
    path: string,
    expires: Option<int>,
    secure: bool,
    httpOnly: bool)

  /** `cookie.expires && cookie.expires < now`. */
  predicate Expired(c: Cookie, now: int) {
    c.expires.Some? && c.expires.value < now
  }

  /** `domain_matches?`: the host is the cookie domain or a subdomain of it. */
  predicate DomainMatches(host: string, domain: string) {
    host == domain || EndsWith(host, "." + domain)
  }

  /** `path_matches?`: the request path is the cookie path, lies below it, or
      the cookie path is the root. */
  predicate PathMatches(requestPath: string, cookiePath: string) {
    requestPath == cookiePath || StartsWith(requestPath, cookiePath + "/") || cookiePath == "/"
  }

  /** Every subdomain of `d` matches `d`. */
  lemma SubdomainMatches(sub: string, d: string)
    ensures DomainMatches(sub + "." + d, d)
  {
    var h := sub + "." + d;
    assert h[|h| - |"." + d|..] == "." + d;
  }

  /** A host matching `d` is `d` itself or some sub followed by "." and `d`. */
  lemma DomainMatchShape(host: string, d: string)
    requires DomainMatches(host, d) && host != d
    ensures |host| > |d|
    ensures host == host[..|host| - |d| - 1] + "." + d
  {
    var k := |host| - |d| - 1;
    assert host[k..] == "." + d;
    assert host == host[..k] + host[k..];
  }

  /** A host that merely ends in the same letters, without the dot, does not match. */
  lemma SuffixWithoutDotDoesNotMatch(sub: string, d: string)
    requires |sub| > 0 && sub[|sub| - 1] != '.'
    ensures !DomainMatches(sub + d, d)
  {
    var h := sub + d;
    var k := |h| - |d| - 1;
    assert h[k] == sub[|sub| - 1];
    assert h[k..][0] == h[k];
  }

  lemma DomainExamples()
    ensures DomainMatches("www.example.com", "example.com")
    ensures DomainMatches("example.com", "example.com")
    ensures !DomainMatches("other.com", "example.com")
    ensures !DomainMatches("notexample.com", "example.com")
  {
    SubdomainMatches("www", "example.com");
    assert "www.example.com" == "www" + "." + "example.com";
    SuffixWithoutDotDoesNotMatch("not", "example.com");
    assert "notexample.com" == "not" + "example.com";
    assert !EndsWith("other.com", ".example.com");
  }

  /** Every path below the cookie path matches it. */
  lemma ChildPathMatches(cookiePath: string, rest: string)
    ensures PathMatches(cookiePath + "/" + rest, cookiePath)
  {
    assert (cookiePath + "/" + rest)[..|cookiePath + "/"|] == cookiePath + "/";
  }

  /** Outside the root, a matching request path is the cookie path or lies below it. */
  lemma PathMatchShape(requestPath: string, cookiePath: string)
    requires PathMatches(requestPath, cookiePath) && cookiePath != "/" && requestPath != cookiePath
    ensures |requestPath| > |cookiePath|
    ensures requestPath == cookiePath + "/" + requestPath[|cookiePath| + 1..]
  {
    var k := |cookiePath| + 1;
    assert requestPath[..k] == cookiePath + "/";
    assert requestPath == requestPath[..k] + requestPath[k..];
  }

  lemma PathExamples()
    ensures PathMatches("/app/page", "/app")
    ensures PathMatches("/app", "/app")
    ensures PathMatches("/anything", "/")
    ensures !PathMatches("/other", "/app")
    ensures !PathMatches("/application", "/app")
  {
    ChildPathMatches("/app", "page");
    assert "/app/page" == "/app" + "/" + "page";
    assert "/other"[..5][1] == 'o';
    assert "/application"[..5][4] == 'l';
  }

  /** The path `cookies_for` matches against: an empty request path counts as "/". */
  function RequestPath(path: string): (r: string)
    ensures |r| > 0
    ensures path != [] ==> r == path
  {
    if path == [] then "/" else path
  }

  /** `default_path`: the request path up to, not including, its last "/",
      or "/" when that would be empty or the path is not absolute. */
  function DefaultPath(path: string): (r: string)
    ensures |r| > 0 && r[0] == '/'
    ensures r == "/" || (StartsWith(path, r) && |r| < |path| && path[|r|] == '/' && '/' !in path[|r| + 1..])
  {
    if path == [] || path[0] != '/' then "/"
    else
      match LastIndexOf(path, '/')
      case None => "/"
      case Some(i) => if i == 0 then "/" else path[..i]
  }

  /** A cookie stored with the default path is sent back on the request it came from. */
  lemma DefaultPathMatches(path: string)
    ensures PathMatches(RequestPath(path), DefaultPath(path))
  {
    var r := DefaultPath(path);
    if r != "/" {
      ChildPathMatches(r, path[|r| + 1..]);
      assert path == r + "/" + path[|r| + 1..];
    }
  }

  lemma DefaultPathExamples()
    ensures DefaultPath("/a/b/c") == "/a/b"
    ensures DefaultPath("/a") == "/"
    ensures DefaultPath("") == "/"
    ensures DefaultPath("x/y") == "/"
  {
    assert LastIndexOf("/a/b/c", '/') == Some(4);
    assert "/a/b/c"[..4] == "/a/b";
    assert LastIndexOf("/a", '/') == Some(0);
  }
}
