/** The session cookie jar: a nested Hash `domain -> path -> name -> Cookie`,
    with `store`, the lookups behind `cookies_for`/`cookie_header_for`, the
    expiry sweep and the size queries. */
module CookieJar {
  import opened Wrappers
  import opened Assoc
  import opened Strings
  import opened HttpTypes
  import opened CookieRules
  import opened CookieParse

  type Names = Assoc<string, Cookie>
  type Paths = Assoc<string, Names>
  type Jar = Assoc<string, Paths>

  const Empty: Jar := []

  /** `@cookies.dig(d, p, n)`. */
  function Lookup(jar: Jar, d: string, p: string, n: string): (r: Option<Cookie>)
    ensures r.Some? ==> d in Keys(jar)
  {
    match Get(jar, d)
    case None => None
    case Some(ps) => PathLookup(ps, p, n)
  }

  /** `paths.dig(p, n)`. */
  function PathLookup(ps: Paths, p: string, n: string): Option<Cookie> {
    match Get(ps, p)
    case None => None
    case Some(ns) => Get(ns, n)
  }

  // ---------------------------------------------------------------------------
  // The invariant

  predicate NamesOk(d: string, p: string, ns: Names) {
    |ns| > 0 && Unique(ns)
    && forall k :: 0 <= k < |ns| ==> ns[k].1.domain == Some(d) && ns[k].1.path == p && ns[k].1.name == ns[k].0
  }

  predicate PathsOk(d: string, ps: Paths) {
    |ps| > 0 && Unique(ps) && forall j :: 0 <= j < |ps| ==> NamesOk(d, ps[j].0, ps[j].1)
  }

  /** What every jar built by `store`, `clear_expired` and `load` satisfies:
      no key repeats at any level, no bucket is empty, and each cookie is
      filed under its own domain, path and name. */
  predicate WellFormed(jar: Jar) {
    Unique(jar) && forall i :: 0 <= i < |jar| ==> PathsOk(jar[i].0, jar[i].1)
  }

  predicate NoEmptyBuckets(jar: Jar) {
    forall i :: 0 <= i < |jar| ==> |jar[i].1| > 0 && forall j :: 0 <= j < |jar[i].1| ==> |jar[i].1[j].1| > 0
  }

  lemma WellFormedNoEmptyBuckets(jar: Jar)
    requires WellFormed(jar)
    ensures NoEmptyBuckets(jar)
  {
    forall i | 0 <= i < |jar| ensures |jar[i].1| > 0 && forall j :: 0 <= j < |jar[i].1| ==> |jar[i].1[j].1| > 0 {
      assert PathsOk(jar[i].0, jar[i].1);
    }
  }

  // ---------------------------------------------------------------------------
  // store

  /** `store`: files the cookie under its domain, path and name, creating the
      buckets on the way; a cookie without a domain is dropped. */
  function Store(jar: Jar, c: Cookie): (r: Jar)
    ensures c.domain.None? ==> r == jar
  {
    match c.domain
    case None => jar
    case Some(d) =>
      var ps := Get(jar, d).GetOr([]);
      var ns := Get(ps, c.path).GetOr([]);
      Put(jar, d, Put(ps, c.path, Put(ns, c.name, c)))
  }

  /** After `store`, the cookie is found under its own key and every other key
      finds what it found before. */
  lemma StoreLookup(jar: Jar, c: Cookie, d: string, p: string, n: string)
    requires c.domain.Some?
    ensures Lookup(Store(jar, c), d, p, n)
         == if (d, p, n) == (c.domain.value, c.path, c.name) then Some(c) else Lookup(jar, d, p, n)
  {
    var cd := c.domain.value;
    var ps := Get(jar, cd).GetOr([]);
    var ns := Get(ps, c.path).GetOr([]);
    var ns' := Put(ns, c.name, c);
    var ps' := Put(ps, c.path, ns');
    GetPut(jar, cd, ps');
    if d != cd {
      GetPutOther(jar, cd, ps', d);
    } else {
      GetPut(ps, c.path, ns');
      if p != c.path {
        GetPutOther(ps, c.path, ns', p);
      } else {
        GetPut(ns, c.name, c);
        if n != c.name {
          GetPutOther(ns, c.name, c, n);
        }
      }
    }
  }

  lemma StoreWellFormed(jar: Jar, c: Cookie)
    requires WellFormed(jar)
    ensures WellFormed(Store(jar, c))
  {
    if c.domain.Some? {
      var d := c.domain.value;
      var ps := Get(jar, d).GetOr([]);
      var ns := Get(ps, c.path).GetOr([]);
      var ns' := Put(ns, c.name, c);
      var ps' := Put(ps, c.path, ns');
      if Get(jar, d).Some? {
        GetIn(jar, d);
      }
      assert ps == [] || PathsOk(d, ps);
      if Get(ps, c.path).Some? {
        GetIn(ps, c.path);
      }
      assert ns == [] || NamesOk(d, c.path, ns);
      PutUnique(ns, c.name, c);
      PutElements(ns, c.name, c);
      assert NamesOk(d, c.path, ns');
      PutUnique(ps, c.path, ns');
      PutElements(ps, c.path, ns');
      assert PathsOk(d, ps');
      PutUnique(jar, d, ps');
      PutElements(jar, d, ps');
    }
  }

  // ---------------------------------------------------------------------------
  // size and empty?

  function NamesCount(e: (string, Names)): nat {
    |e.1|
  }

  function PathsCount(e: (string, Paths)): nat {
    SumOf(e.1, NamesCount)
  }

  /** `size`: the number of cookies in all buckets. */
  function Size(jar: Jar): nat {
    SumOf(jar, PathsCount)
  }

  /** `empty?`: whether the jar has no domain bucket. */
  predicate IsEmpty(jar: Jar) {
    |jar| == 0
  }

  /** Without empty buckets, `empty?` and `size == 0` agree. */
  lemma EmptyIffSizeZero(jar: Jar)
    requires NoEmptyBuckets(jar)
    ensures IsEmpty(jar) <==> Size(jar) == 0
  {
    if |jar| > 0 {
      var ps := jar[|jar| - 1].1;
      assert |ps| > 0 && |ps[|ps| - 1].1| > 0;
      assert SumOf(ps, NamesCount) >= NamesCount(ps[|ps| - 1]);
      assert Size(jar) >= PathsCount(jar[|jar| - 1]);
    }
  }

  /** How `hash[k] = v` changes a sum over the Hash. */
  lemma SumOfPut<V>(a: Assoc<string, V>, k: string, v: V, f: ((string, V)) -> nat)
    ensures k in Keys(a) ==> SumOf(Put(a, k, v), f) + f((k, Get(a, k).value)) == SumOf(a, f) + f((k, v))
    ensures k !in Keys(a) ==> SumOf(Put(a, k, v), f) == SumOf(a, f) + f((k, v))
  {
    match KeyIndex(a, k)
    case Some(i) =>
      assert a[i] == (k, Get(a, k).value);
      SumOfUpdate(a, i, (k, v), f);
    case None =>
      SumOfAppend(a, [(k, v)], f);
      assert [(k, v)][..0] == [];
  }

  /** `store` adds one cookie for a new key and keeps the count for an existing one. */
  lemma StoreSize(jar: Jar, c: Cookie)
    requires c.domain.Some?
    ensures Size(Store(jar, c)) == Size(jar) + (if Lookup(jar, c.domain.value, c.path, c.name).Some? then 0 else 1)
  {
    var d := c.domain.value;
    var ps := Get(jar, d).GetOr([]);
    var ns := Get(ps, c.path).GetOr([]);
    var ns' := Put(ns, c.name, c);
    var ps' := Put(ps, c.path, ns');
    SumOfPut(ps, c.path, ns', NamesCount);
    SumOfPut(jar, d, ps', PathsCount);
    if Get(ps, c.path).None? {
      assert ns == [];
    }
    if Get(jar, d).None? {
      assert ps == [];
    }
  }

  /** Storing a cookie under a key that already holds one replaces it: the
      size is unchanged and the new cookie is what the key finds. */
  lemma StoreReplaces(jar: Jar, c: Cookie)
    requires c.domain.Some? && Lookup(jar, c.domain.value, c.path, c.name).Some?
    ensures Size(Store(jar, c)) == Size(jar)
    ensures Lookup(Store(jar, c), c.domain.value, c.path, c.name) == Some(c)
  {
    StoreSize(jar, c);
    StoreLookup(jar, c, c.domain.value, c.path, c.name);
  }

  /** `clear`. */
  function Clear(jar: Jar): (r: Jar)
    ensures IsEmpty(r) && Size(r) == 0
    ensures forall d, p, n :: Lookup(r, d, p, n).None?
  {
    Empty
  }

  // ---------------------------------------------------------------------------
  // cookies_for and cookie_header_for

  /** The three request facts `cookies_for` matches against: the lower-cased
      host, the path ("/" for an empty one) and whether the scheme is https. */
  datatype Target = Target(host: string, path: string, https: bool)

  /** Whether `cookies_for` sends `c`, filed under domain `d` and path `p`. */
  predicate Sendable(t: Target, now: int, d: string, p: string, c: Cookie) {
    DomainMatches(t.host, d) && PathMatches(t.path, p) && !(c.secure && !t.https) && !Expired(c, now)
  }

  /** The innermost loop: cookies of one bucket that may go over this scheme and have not expired. */
  function FromNames(ns: Names, t: Target, now: int): (r: seq<Cookie>)
    ensures forall k :: 0 <= k < |r| ==> !(r[k].secure && !t.https) && !Expired(r[k], now)
    decreases |ns|
  {
    if |ns| == 0 then []
    else
      var c := ns[|ns| - 1].1;
      FromNames(ns[..|ns| - 1], t, now) + (if !(c.secure && !t.https) && !Expired(c, now) then [c] else [])
  }

  function FromPaths(ps: Paths, t: Target, now: int): (r: seq<Cookie>)
    ensures forall k :: 0 <= k < |r| ==> !(r[k].secure && !t.https) && !Expired(r[k], now)
    decreases |ps|
  {
    if |ps| == 0 then []
    else
      var (p, ns) := ps[|ps| - 1];
      FromPaths(ps[..|ps| - 1], t, now) + (if PathMatches(t.path, p) then FromNames(ns, t, now) else [])
  }

  function FromDomains(jar: Jar, t: Target, now: int): (r: seq<Cookie>)
    ensures forall k :: 0 <= k < |r| ==> !(r[k].secure && !t.https) && !Expired(r[k], now)
    decreases |jar|
  {
    if |jar| == 0 then []
    else
      var (d, ps) := jar[|jar| - 1];
      FromDomains(jar[..|jar| - 1], t, now) + (if DomainMatches(t.host, d) then FromPaths(ps, t, now) else [])
  }

  /** `cookies_for`: no cookies for a URI without a host; otherwise the
      cookies, in jar order, whose domain matches the host and whose path
      matches the request path, leaving out Secure cookies on a non-https
      request and cookies that expired before `now`. */
  function CookiesFor(jar: Jar, uri: Uri, now: int): (r: seq<Cookie>)
    ensures uri.host.None? ==> r == []
    ensures forall k :: 0 <= k < |r| ==> !(r[k].secure && uri.scheme != Some("https")) && !Expired(r[k], now)
  {
    match uri.host
    case None => []
    case Some(h) => FromDomains(jar, Target(Lower(h), RequestPath(uri.path), uri.scheme == Some("https")), now)
  }

  /** `"#{c.name}=#{c.value}"`; a `nil` value prints as nothing. */
  function CookiePair(c: Cookie): string {
    c.name + "=" + c.value.GetOr("")
  }

  /** `cookie_header_for`: the matching cookies as `name=value` pairs joined
      by "; ", or `None` when nothing matches. */
  function CookieHeaderFor(jar: Jar, uri: Uri, now: int): (r: Option<string>)
    ensures r.None? <==> CookiesFor(jar, uri, now) == []
    ensures uri.host.None? ==> r.None?
  {
    var m := CookiesFor(jar, uri, now);
    if m == [] then None
    else Some(Join(CookiePairs(m), "; "))
  }

  /** The `name=value` pair of each cookie, in order. */
  function CookiePairs(m: seq<Cookie>): (ps: seq<string>)
    ensures |ps| == |m|
  {
    seq(|m|, i requires 0 <= i < |m| => CookiePair(m[i]))
  }

  /** Read back at its ";" separators, a joined run of pairs gives the pairs
      one by one when none holds a ";" or whitespace at its ends. */
  lemma PairsHeaderFields(m: seq<Cookie>)
    requires forall c :: c in m ==> ';' !in CookiePair(c) && Strip(CookiePair(c)) == CookiePair(c)
    ensures m != [] ==>
              var fields := Split(Join(CookiePairs(m), "; "), ';');
              |fields| == |m| && forall k :: 0 <= k < |m| ==> Strip(fields[k]) == CookiePair(m[k])
  {
    if m != [] {
      var pairs := CookiePairs(m);
      assert forall k :: 0 <= k < |m| ==> m[k] in m && pairs[k] == CookiePair(m[k]);
      JoinedFields(pairs);
    }
  }

  /** Read back at its ";" separators, the Cookie header gives the matched
      cookies' `name=value` pairs one by one and in order, when no pair holds
      a ";" or whitespace at its ends. */
  lemma CookieHeaderFields(jar: Jar, uri: Uri, now: int)
    requires forall c :: c in CookiesFor(jar, uri, now) ==> ';' !in CookiePair(c) && Strip(CookiePair(c)) == CookiePair(c)
    ensures CookieHeaderFor(jar, uri, now).Some? ==>
              var m := CookiesFor(jar, uri, now);
              var fields := Split(CookieHeaderFor(jar, uri, now).value, ';');
              |fields| == |m| && forall k :: 0 <= k < |m| ==> Strip(fields[k]) == CookiePair(m[k])
  {
    PairsHeaderFields(CookiesFor(jar, uri, now));
  }

  /** An empty request path is matched as "/". */
  lemma EmptyPathIsRoot(jar: Jar, uri: Uri, now: int)
    requires uri.path == []
    ensures CookiesFor(jar, uri, now) == CookiesFor(jar, uri.(path := "/"), now)
  {
  }

  // ---------------------------------------------------------------------------
  // The flat view of the jar

  /** One stored cookie with the domain and path it is filed under. */
  datatype Entry = Entry(domain: string, path: string, cookie: Cookie)

  function NameEntries(d: string, p: string, ns: Names): (r: seq<Entry>)
    ensures |r| == |ns|
    ensures forall k :: 0 <= k < |r| ==> r[k] == Entry(d, p, ns[k].1)
    decreases |ns|
  {
    if |ns| == 0 then [] else NameEntries(d, p, ns[..|ns| - 1]) + [Entry(d, p, ns[|ns| - 1].1)]
  }

  function PathEntries(d: string, ps: Paths): seq<Entry>
    decreases |ps|
  {
    if |ps| == 0 then [] else PathEntries(d, ps[..|ps| - 1]) + NameEntries(d, ps[|ps| - 1].0, ps[|ps| - 1].1)
  }

  /** Every cookie of the jar, in the order `cookies_for` visits them. */
  function Entries(jar: Jar): seq<Entry>
    decreases |jar|
  {
    if |jar| == 0 then [] else Entries(jar[..|jar| - 1]) + PathEntries(jar[|jar| - 1].0, jar[|jar| - 1].1)
  }

  /** The reference selection: the sendable entries of a flat list, in order. */
  function Select(es: seq<Entry>, t: Target, now: int): (r: seq<Cookie>)
    decreases |es|
  {
    if |es| == 0 then []
    else
      var e := es[|es| - 1];
      Select(es[..|es| - 1], t, now) + (if Sendable(t, now, e.domain, e.path, e.cookie) then [e.cookie] else [])
  }

  lemma {:induction false} SelectAppend(a: seq<Entry>, b: seq<Entry>, t: Target, now: int)
    ensures Select(a + b, t, now) == Select(a, t, now) + Select(b, t, now)
    decreases |b|
  {
    if |b| == 0 {
      assert a + b == a;
    } else {
      assert (a + b)[..|a + b| - 1] == a + b[..|b| - 1];
      SelectAppend(a, b[..|b| - 1], t, now);
    }
  }

  /** A cookie is selected exactly when some entry holding it is sendable. */
  lemma {:induction false} SelectMembers(es: seq<Entry>, t: Target, now: int)
    ensures forall k :: 0 <= k < |es| && Sendable(t, now, es[k].domain, es[k].path, es[k].cookie)
              ==> es[k].cookie in Select(es, t, now)
    ensures forall c :: c in Select(es, t, now)
              ==> exists k :: 0 <= k < |es| && es[k].cookie == c && Sendable(t, now, es[k].domain, es[k].path, c)
    decreases |es|
  {
    if |es| > 0 {
      SelectMembers(es[..|es| - 1], t, now);
      assert forall k :: 0 <= k < |es| - 1 ==> es[..|es| - 1][k] == es[k];
    }
  }

  lemma {:induction false} FromNamesSelect(d: string, p: string, ns: Names, t: Target, now: int)
    ensures Select(NameEntries(d, p, ns), t, now)
         == if DomainMatches(t.host, d) && PathMatches(t.path, p) then FromNames(ns, t, now) else []
    decreases |ns|
  {
    if |ns| > 0 {
      FromNamesSelect(d, p, ns[..|ns| - 1], t, now);
      assert NameEntries(d, p, ns)[..|ns| - 1] == NameEntries(d, p, ns[..|ns| - 1]);
    }
  }

  lemma {:induction false} FromPathsSelect(d: string, ps: Paths, t: Target, now: int)
    ensures Select(PathEntries(d, ps), t, now) == if DomainMatches(t.host, d) then FromPaths(ps, t, now) else []
    decreases |ps|
  {
    if |ps| > 0 {
      var last := ps[|ps| - 1];
      FromPathsSelect(d, ps[..|ps| - 1], t, now);
      SelectAppend(PathEntries(d, ps[..|ps| - 1]), NameEntries(d, last.0, last.1), t, now);
      FromNamesSelect(d, last.0, last.1, t, now);
    }
  }

  lemma {:induction false} FromDomainsSelect(jar: Jar, t: Target, now: int)
    ensures Select(Entries(jar), t, now) == FromDomains(jar, t, now)
    decreases |jar|
  {
    if |jar| > 0 {
      var last := jar[|jar| - 1];
      FromDomainsSelect(jar[..|jar| - 1], t, now);
      SelectAppend(Entries(jar[..|jar| - 1]), PathEntries(last.0, last.1), t, now);
      FromPathsSelect(last.0, last.1, t, now);
    }
  }

  /** `cookies_for` is the reference selection over the flat view of the jar. */
  lemma CookiesForSelects(jar: Jar, uri: Uri, now: int)
    requires uri.host.Some?
    ensures CookiesFor(jar, uri, now)
         == Select(Entries(jar), Target(Lower(uri.host.value), RequestPath(uri.path), uri.scheme == Some("https")), now)
  {
    FromDomainsSelect(jar, Target(Lower(uri.host.value), RequestPath(uri.path), uri.scheme == Some("https")), now);
  }

  lemma {:induction false} NameEntriesMember(d: string, p: string, ns: Names, n: string, c: Cookie)
    requires (n, c) in ns
    ensures Entry(d, p, c) in NameEntries(d, p, ns)
  {
    var k :| 0 <= k < |ns| && ns[k] == (n, c);
    assert NameEntries(d, p, ns)[k] == Entry(d, p, c);
  }

  lemma {:induction false} PathEntriesMember(d: string, ps: Paths, p: string, ns: Names, e: Entry)
    requires (p, ns) in ps && e in NameEntries(d, p, ns)
    ensures e in PathEntries(d, ps)
    decreases |ps|
  {
    if ps[|ps| - 1] != (p, ns) {
      assert (p, ns) in ps[..|ps| - 1];
      PathEntriesMember(d, ps[..|ps| - 1], p, ns, e);
    }
  }

  lemma {:induction false} EntriesMember(jar: Jar, d: string, ps: Paths, e: Entry)
    requires (d, ps) in jar && e in PathEntries(d, ps)
    ensures e in Entries(jar)
    decreases |jar|
  {
    if jar[|jar| - 1] != (d, ps) {
      assert (d, ps) in jar[..|jar| - 1];
      EntriesMember(jar[..|jar| - 1], d, ps, e);
    }
  }

  /** Every stored cookie appears in the flat view under its key. */
  lemma LookupEntry(jar: Jar, d: string, p: string, n: string)
    requires Lookup(jar, d, p, n).Some?
    ensures Entry(d, p, Lookup(jar, d, p, n).value) in Entries(jar)
  {
    var ps := Get(jar, d).value;
    var ns := Get(ps, p).value;
    var c := Get(ns, n).value;
    GetIn(jar, d);
    GetIn(ps, p);
    GetIn(ns, n);
    NameEntriesMember(d, p, ns, n, c);
    PathEntriesMember(d, ps, p, ns, Entry(d, p, c));
    EntriesMember(jar, d, ps, Entry(d, p, c));
  }

  lemma {:induction false} NameEntriesLookup(d: string, p: string, ns: Names, e: Entry)
    requires NamesOk(d, p, ns) && e in NameEntries(d, p, ns)
    ensures e.domain == d && e.path == p && Get(ns, e.cookie.name) == Some(e.cookie)
  {
    var k :| 0 <= k < |ns| && NameEntries(d, p, ns)[k] == e;
    InGet(ns, k);
  }

  lemma {:induction false} PathEntriesLookup(d: string, ps: Paths, e: Entry)
    requires PathsOk(d, ps) && e in PathEntries(d, ps)
    ensures e.domain == d && Get(ps, e.path).Some? && Get(Get(ps, e.path).value, e.cookie.name) == Some(e.cookie)
    decreases |ps|
  {
    var n := |ps|;
    var init := ps[..n - 1];
    if e in NameEntries(d, ps[n - 1].0, ps[n - 1].1) {
      NameEntriesLookup(d, ps[n - 1].0, ps[n - 1].1, e);
      InGet(ps, n - 1);
    } else {
      assert e in PathEntries(d, init);
      if |init| > 0 {
        assert forall j :: 0 <= j < |init| ==> init[j] == ps[j];
        PathEntriesLookup(d, init, e);
        var j := KeyIndex(init, e.path).value;
        assert ps[j] == init[j];
        InGet(ps, j);
        InGet(init, j);
      }
    }
  }

  lemma WellFormedPrefix(jar: Jar)
    requires WellFormed(jar) && |jar| > 0
    ensures WellFormed(jar[..|jar| - 1])
  {
    var init := jar[..|jar| - 1];
    assert forall i :: 0 <= i < |init| ==> init[i] == jar[i];
  }

  lemma {:induction false} EntriesLookup(jar: Jar, e: Entry)
    requires WellFormed(jar) && e in Entries(jar)
    ensures Lookup(jar, e.domain, e.path, e.cookie.name) == Some(e.cookie)
    decreases |jar|
  {
    var n := |jar|;
    var init := jar[..n - 1];
    var last := jar[n - 1];
    assert jar == init + [last];
    assert PathsOk(last.0, last.1);
    if e in PathEntries(last.0, last.1) {
      PathEntriesLookup(last.0, last.1, e);
      InGet(jar, n - 1);
    } else {
      assert e in Entries(init);
      WellFormedPrefix(jar);
      EntriesLookup(init, e);
      GetAppend(init, last.0, last.1, e.domain);
    }
  }

  /** `cookies_for` sends exactly the stored cookies that are sendable under
      the key they are filed under: each such cookie is sent, and every cookie
      sent is stored under a key whose domain and path match the request. */
  lemma CookiesForExactly(jar: Jar, uri: Uri, now: int, d: string, p: string, n: string, c: Cookie)
    requires WellFormed(jar) && uri.host.Some?
    ensures var t := Target(Lower(uri.host.value), RequestPath(uri.path), uri.scheme == Some("https"));
            Lookup(jar, d, p, n) == Some(c) && Sendable(t, now, d, p, c) ==> c in CookiesFor(jar, uri, now)
    ensures var t := Target(Lower(uri.host.value), RequestPath(uri.path), uri.scheme == Some("https"));
            c in CookiesFor(jar, uri, now) ==>
              c.domain.Some? && Lookup(jar, c.domain.value, c.path, c.name) == Some(c)
                  && Sendable(t, now, c.domain.value, c.path, c)
  {
    var t := Target(Lower(uri.host.value), RequestPath(uri.path), uri.scheme == Some("https"));
    var es := Entries(jar);
    CookiesForSelects(jar, uri, now);
    SelectMembers(es, t, now);
    if Lookup(jar, d, p, n) == Some(c) {
      LookupEntry(jar, d, p, n);
    }
    if c in CookiesFor(jar, uri, now) {
      var k :| 0 <= k < |es| && es[k].cookie == c && Sendable(t, now, es[k].domain, es[k].path, c);
      EntriesLookup(jar, es[k]);
      EntryFields(jar, es[k]);
    }
  }

  /** A cookie in the flat view carries the domain and path it is filed under. */
  lemma EntryFields(jar: Jar, e: Entry)
    requires WellFormed(jar) && Lookup(jar, e.domain, e.path, e.cookie.name) == Some(e.cookie)
    ensures e.cookie.domain == Some(e.domain) && e.cookie.path == e.path
  {
    var ps := Get(jar, e.domain).value;
    var ns := Get(ps, e.path).value;
    GetIn(jar, e.domain);
    GetIn(ps, e.path);
    GetIn(ns, e.cookie.name);
    var i :| 0 <= i < |jar| && jar[i] == (e.domain, ps);
    assert PathsOk(e.domain, ps);
    var j :| 0 <= j < |ps| && ps[j] == (e.path, ns);
    assert NamesOk(e.domain, e.path, ns);
  }

  // ---------------------------------------------------------------------------
  // clear_expired

  function KeepLive(now: int): Cookie -> Option<Cookie> {
    c => if Expired(c, now) then None else Some(c)
  }

  /** `names.delete_if expired`, then `None` when the bucket is left empty. */
  function SweepNames(now: int): Names -> Option<Names> {
    ns => var r := MapFilter(ns, KeepLive(now)); if r == [] then None else Some(r)
  }

  function SweepPaths(now: int): Paths -> Option<Paths> {
    ps => var r := MapFilter(ps, SweepNames(now)); if r == [] then None else Some(r)
  }

  /** `clear_expired`: drops the cookies that expired before `now`, then the
      path and domain buckets left empty. */
  function ClearExpired(jar: Jar, now: int): (r: Jar)
    ensures NoEmptyBuckets(r)
    ensures |r| <= |jar|
  {
    var r := MapFilter(jar, SweepPaths(now));
    assert forall i :: 0 <= i < |r| ==> SweepPaths(now)(r[i].1).Some? ==> |r[i].1| > 0;
    NoEmptyAfterSweep(jar, now, r);
    r
  }

  lemma NoEmptyAfterSweep(jar: Jar, now: int, r: Jar)
    requires r == MapFilter(jar, SweepPaths(now))
    ensures NoEmptyBuckets(r)
  {
    forall i | 0 <= i < |r| ensures |r[i].1| > 0 && forall j :: 0 <= j < |r[i].1| ==> |r[i].1[j].1| > 0 {
      var i0 :| 0 <= i0 < |jar| && jar[i0].0 == r[i].0 && SweepPaths(now)(jar[i0].1) == Some(r[i].1);
      SweptPathsNonEmpty(jar[i0].1, now, r[i].1);
    }
  }

  /** A path bucket that survives the sweep holds only non-empty name buckets. */
  lemma SweptPathsNonEmpty(ps0: Paths, now: int, ps: Paths)
    requires SweepPaths(now)(ps0) == Some(ps)
    ensures |ps| > 0 && forall j :: 0 <= j < |ps| ==> |ps[j].1| > 0
  {
    assert ps == MapFilter(ps0, SweepNames(now));
    forall j | 0 <= j < |ps| ensures |ps[j].1| > 0 {
      var j0 :| 0 <= j0 < |ps0| && ps0[j0].0 == ps[j].0 && SweepNames(now)(ps0[j0].1) == Some(ps[j].1);
    }
  }

  /** A cookie as `clear_expired` leaves it: gone once expired. */
  function Surviving(c: Option<Cookie>, now: int): (r: Option<Cookie>)
    ensures r.Some? <==> c.Some? && !Expired(c.value, now)
    ensures r.Some? ==> r == c
  {
    match c case Some(x) => KeepLive(now)(x) case None => None
  }

  /** Sweeping one name bucket; a bucket swept away finds nothing. */
  lemma SweptNamesGet(ns: Names, now: int, n: string)
    requires Unique(ns)
    ensures Get(SweepNames(now)(ns).GetOr([]), n) == Surviving(Get(ns, n), now)
  {
    GetMapFilter(ns, KeepLive(now), n);
  }

  /** Sweeping one path bucket of a well-formed domain. */
  lemma SweptPathsLookup(d: string, ps: Paths, now: int, p: string, n: string)
    requires PathsOk(d, ps)
    ensures PathLookup(SweepPaths(now)(ps).GetOr([]), p, n) == Surviving(PathLookup(ps, p, n), now)
  {
    GetMapFilter(ps, SweepNames(now), p);
    match Get(ps, p)
    case None =>
    case Some(ns) =>
      GetIn(ps, p);
      var j :| 0 <= j < |ps| && ps[j] == (p, ns);
      assert NamesOk(d, p, ns);
      SweptNamesGet(ns, now, n);
  }

  /** After `clear_expired`, a key finds its old cookie if that has not
      expired, and nothing otherwise. */
  lemma ClearExpiredLookup(jar: Jar, now: int, d: string, p: string, n: string)
    requires WellFormed(jar)
    ensures Lookup(ClearExpired(jar, now), d, p, n) == Surviving(Lookup(jar, d, p, n), now)
  {
    GetMapFilter(jar, SweepPaths(now), d);
    match Get(jar, d)
    case None =>
    case Some(ps) =>
      GetIn(jar, d);
      var i :| 0 <= i < |jar| && jar[i] == (d, ps);
      assert PathsOk(d, ps);
      SweptPathsLookup(d, ps, now, p, n);
  }

  /** On the swept jar, `empty?` holds exactly when `size` is 0. */
  lemma ClearExpiredEmptyIffSizeZero(jar: Jar, now: int)
    ensures IsEmpty(ClearExpired(jar, now)) <==> Size(ClearExpired(jar, now)) == 0
  {
    EmptyIffSizeZero(ClearExpired(jar, now));
  }

  lemma SweptNamesOk(d: string, p: string, ns0: Names, ns: Names, now: int)
    requires NamesOk(d, p, ns0) && SweepNames(now)(ns0) == Some(ns)
    ensures NamesOk(d, p, ns)
  {
    MapFilterUnique(ns0, KeepLive(now));
    forall k | 0 <= k < |ns| ensures ns[k].1.domain == Some(d) && ns[k].1.path == p && ns[k].1.name == ns[k].0 {
      var k0 :| 0 <= k0 < |ns0| && ns0[k0].0 == ns[k].0 && KeepLive(now)(ns0[k0].1) == Some(ns[k].1);
    }
  }

  lemma SweptPathsOk(d: string, ps0: Paths, ps: Paths, now: int)
    requires PathsOk(d, ps0) && SweepPaths(now)(ps0) == Some(ps)
    ensures PathsOk(d, ps)
  {
    MapFilterUnique(ps0, SweepNames(now));
    forall j | 0 <= j < |ps| ensures NamesOk(d, ps[j].0, ps[j].1) {
      var j0 :| 0 <= j0 < |ps0| && ps0[j0].0 == ps[j].0 && SweepNames(now)(ps0[j0].1) == Some(ps[j].1);
      SweptNamesOk(d, ps[j].0, ps0[j0].1, ps[j].1, now);
    }
  }

  lemma ClearExpiredWellFormed(jar: Jar, now: int)
    requires WellFormed(jar)
    ensures WellFormed(ClearExpired(jar, now))
  {
    var r := ClearExpired(jar, now);
    MapFilterUnique(jar, SweepPaths(now));
    forall i | 0 <= i < |r| ensures PathsOk(r[i].0, r[i].1) {
      var i0 :| 0 <= i0 < |jar| && jar[i0].0 == r[i].0 && SweepPaths(now)(jar[i0].1) == Some(r[i].1);
      SweptPathsOk(r[i].0, jar[i0].1, r[i].1, now);
    }
  }

  // ---------------------------------------------------------------------------
  // store_from_response

  /** The jar after storing, and the exception that stopped the loop, if any.
      Cookies from headers before the one that raised stay stored. */
  datatype StoreOutcome = StoreOutcome(jar: Jar, raised: Option<Error>)

  /** The loop of `store_from_response` over the Set-Cookie values. */
  function StoreAll(jar: Jar, uri: Uri, headers: seq<string>, now: int, parseTime: string -> Option<int>): (r: StoreOutcome)
    decreases |headers|
  {
    if |headers| == 0 then StoreOutcome(jar, None)
    else
      var prev := StoreAll(jar, uri, headers[..|headers| - 1], now, parseTime);
      if prev.raised.Some? then prev
      else Absorb(prev.jar, ParseSetCookie(uri, headers[|headers| - 1], now, parseTime))
  }

  /** One parsed Set-Cookie value applied to the jar: an error is raised, a
      cookie is stored, a skipped value changes nothing. */
  function Absorb(jar: Jar, parsed: Result<Option<Cookie>, Error>): StoreOutcome {
    match parsed
    case Err(e) => StoreOutcome(jar, Some(e))
    case Ok(None) => StoreOutcome(jar, None)
    case Ok(Some(c)) => StoreOutcome(Store(jar, c), None)
  }

  /** `store_from_response`: nothing happens without headers; otherwise every
      non-empty Set-Cookie value is parsed and stored in order. */
  function StoreFromResponse(jar: Jar, uri: Uri, headers: Option<RawHeaders>, now: int, parseTime: string -> Option<int>): (r: StoreOutcome)
    ensures headers.None? ==> r == StoreOutcome(jar, None)
    ensures headers.Some? && SetCookieHeaders(headers.value) == [] ==> r == StoreOutcome(jar, None)
  {
    match headers
    case None => StoreOutcome(jar, None)
    case Some(h) => StoreAll(jar, uri, SetCookieHeaders(h), now, parseTime)
  }

  /** `store_from_response` with a single Set-Cookie value. */
  lemma StoreAllSingle(jar: Jar, uri: Uri, h: string, now: int, parseTime: string -> Option<int>)
    ensures StoreAll(jar, uri, [h], now, parseTime) == Absorb(jar, ParseSetCookie(uri, h, now, parseTime))
  {
    assert [h][..0] == [];
  }

  lemma {:induction false} StoreAllWellFormed(jar: Jar, uri: Uri, headers: seq<string>, now: int, parseTime: string -> Option<int>)
    requires WellFormed(jar)
    ensures WellFormed(StoreAll(jar, uri, headers, now, parseTime).jar)
    decreases |headers|
  {
    if |headers| > 0 {
      var prev := StoreAll(jar, uri, headers[..|headers| - 1], now, parseTime);
      StoreAllWellFormed(jar, uri, headers[..|headers| - 1], now, parseTime);
      match ParseSetCookie(uri, headers[|headers| - 1], now, parseTime)
      case Ok(Some(c)) => StoreWellFormed(prev.jar, c);
      case _ =>
    }
  }

  /** Headers that all fail to parse into a cookie leave the jar unchanged. */
  lemma {:induction false} StoreAllNothingParsed(jar: Jar, uri: Uri, headers: seq<string>, now: int, parseTime: string -> Option<int>)
    requires forall k :: 0 <= k < |headers| ==> ParseSetCookie(uri, headers[k], now, parseTime) == Ok(None)
    ensures StoreAll(jar, uri, headers, now, parseTime) == StoreOutcome(jar, None)
    decreases |headers|
  {
    if |headers| > 0 {
      StoreAllNothingParsed(jar, uri, headers[..|headers| - 1], now, parseTime);
    }
  }

  /** A plain `name=value` pair: no whitespace at its ends, no ";" anywhere,
      no "=" in the name. */
  predicate PlainPair(name: string, value: string) {
    name != [] && Strip(name) == name && '=' !in name && ';' !in name
    && Strip(value) == value && ';' !in value
  }

  lemma PlainPairHeader(name: string, value: string)
    requires PlainPair(name, value)
    ensures var header := name + "=" + value;
            SetCookieHeaders([("Set-Cookie", Text(header))]) == [header]
            && !IsBlank(header) && Split(header, ';') == [header] && Strip(header) == header
            && IndexOf(header, '=') == Some(|name|)
  {
    var header := name + "=" + value;
    PlainHeaderValues(header);
    PlainHeaderSplit(name, value);
    PlainHeaderStrip(name, value);
    PlainHeaderIndex(name, value);
  }

  lemma PlainHeaderValues(header: string)
    requires header != []
    ensures SetCookieHeaders([("Set-Cookie", Text(header))]) == [header]
  {
    var headers: RawHeaders := [("Set-Cookie", Text(header))];
    assert SetCookieValue(headers) == Text(header);
    assert [Some(header)][..0] == [];
    assert Compact([Some(header)]) == [header];
  }

  lemma PlainHeaderSplit(name: string, value: string)
    requires ';' !in name && ';' !in value
    ensures Split(name + "=" + value, ';') == [name + "=" + value]
  {
    assert ';' !in name + "=" + value;
  }

  lemma PlainHeaderStrip(name: string, value: string)
    requires PlainPair(name, value)
    ensures !IsBlank(name + "=" + value) && Strip(name + "=" + value) == name + "=" + value
  {
    var header := name + "=" + value;
    assert header[0] == name[0];
    assert !IsSpace(name[0]) by {
      assert Strip(name) == name;
    }
    if value == [] {
      assert header[|header| - 1] == '=';
    } else {
      assert header[|header| - 1] == value[|value| - 1];
    }
    StripFixed(header);
  }

  lemma PlainHeaderIndex(name: string, value: string)
    requires '=' !in name
    ensures IndexOf(name + "=" + value, '=') == Some(|name|)
  {
    var header := name + "=" + value;
    assert header[|name|] == '=';
    assert header[..|name|] == name;
    IndexOfFirst(header, '=', |name|);
  }

  lemma PlainPairParses(uri: Uri, name: string, value: string, now: int, parseTime: string -> Option<int>)
    requires uri.host.Some? && PlainPair(name, value)
    ensures ParseSetCookie(uri, name + "=" + value, now, parseTime)
         == Ok(Some(Cookie(name, Some(value), Some(Lower(uri.host.value)), DefaultPath(uri.path), None, false, false)))
  {
    var header := name + "=" + value;
    PlainPairHeader(name, value);
    assert Strip(header)[..|name|] == name;
    assert Strip(header)[|name| + 1..] == value;
    ParseWithoutAttributes(uri, header, now, parseTime, |name|);
  }

  lemma SingleCookieSent(uri: Uri, c: Cookie, now: int)
    requires uri.host.Some?
    requires c == Cookie(c.name, c.value, Some(Lower(uri.host.value)), DefaultPath(uri.path), None, false, false)
    ensures CookieHeaderFor(Store(Empty, c), uri, now) == Some(CookiePair(c))
  {
    var d := Lower(uri.host.value);
    var jar := Store(Empty, c);
    var p := DefaultPath(uri.path);
    assert Get(Empty, d) == None;
    var ns: Names := [];
    assert Get(ns, c.name).None?;
    assert Put(ns, c.name, c) == [(c.name, c)];
    var ps: Paths := [];
    assert Get(ps, p).None?;
    assert Put(ps, p, [(c.name, c)]) == [(p, [(c.name, c)])];
    assert Put(Empty, d, [(p, [(c.name, c)])]) == [(d, [(p, [(c.name, c)])])];
    assert jar == [(d, [(p, [(c.name, c)])])];
    var t := Target(d, RequestPath(uri.path), uri.scheme == Some("https"));
    DefaultPathMatches(uri.path);
    assert DomainMatches(t.host, d);
    assert [(c.name, c)][..0] == [];
    assert FromNames([(c.name, c)], t, now) == [c];
    assert [(p, [(c.name, c)])][..0] == [];
    assert FromPaths([(p, [(c.name, c)])], t, now) == [c];
    assert jar[..0] == [];
    assert FromDomains(jar, t, now) == [c];
    assert CookiesFor(jar, uri, now) == [c];
  }

  /** A response setting one plain `name=value` cookie on an empty jar makes
      the next request to the same URI carry exactly `name=value`. */
  lemma SetThenSend(uri: Uri, name: string, value: string, now: int, parseTime: string -> Option<int>)
    requires uri.host.Some? && PlainPair(name, value)
    ensures var out := StoreFromResponse(Empty, uri, Some([("Set-Cookie", Text(name + "=" + value))]), now, parseTime);
            out.raised.None? && CookieHeaderFor(out.jar, uri, now) == Some(name + "=" + value)
  {
    var header := name + "=" + value;
    PlainPairHeader(name, value);
    PlainPairParses(uri, name, value, now, parseTime);
    var c := Cookie(name, Some(value), Some(Lower(uri.host.value)), DefaultPath(uri.path), None, false, false);
    StoreAllSingle(Empty, uri, header, now, parseTime);
    SingleCookieSent(uri, c, now);
  }
}
