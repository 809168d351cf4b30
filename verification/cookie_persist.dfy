/** The jar's snapshot format: `to_h` turns the jar into plain nested Hashes,
    and `load` stores the cookies of such a Hash back into a jar. */
module CookiePersist {
  import opened Wrappers
  import opened Assoc
  import opened HttpTypes
  import opened CookieRules
  import opened CookieJar

  /** The plain values a snapshot is made of; `Other` stands for any value of
      another class (a number, an Array, ...). */
  datatype Data = Nil | Bool(b: bool) | Str(s: string) | Hash(entries: Assoc<string, Data>) | Other

  /** Ruby truthiness: everything but `nil` and `false`. */
  predicate Truthy(v: Data) {
    v != Nil && v != Bool(false)
  }

  // ---------------------------------------------------------------------------
  // to_h

  function ValueData(v: Option<string>): Data {
    match v
    case Some(s) => Str(s)
    case None => Nil
  }

  /** The four attributes a cookie is saved with; `iso` is `Time#iso8601`. */
  function CookieData(c: Cookie, iso: int -> string): Data {
    Hash([
      ("value", ValueData(c.value)),
      ("expires", if c.expires.Some? then Str(iso(c.expires.value)) else Nil),
      ("secure", Bool(c.secure)),
      ("http_only", Bool(c.httpOnly))])
  }

  function NamesData(ns: Names, iso: int -> string): (r: Assoc<string, Data>)
    ensures |r| == |ns|
    ensures forall k :: 0 <= k < |ns| ==> r[k] == (ns[k].0, CookieData(ns[k].1, iso))
  {
    seq(|ns|, k requires 0 <= k < |ns| => (ns[k].0, CookieData(ns[k].1, iso)))
  }

  function PathsData(ps: Paths, iso: int -> string): (r: Assoc<string, Data>)
    ensures |r| == |ps|
    ensures forall j :: 0 <= j < |ps| ==> r[j] == (ps[j].0, Hash(NamesData(ps[j].1, iso)))
  {
    seq(|ps|, j requires 0 <= j < |ps| => (ps[j].0, Hash(NamesData(ps[j].1, iso))))
  }

  function DomainsData(jar: Jar, iso: int -> string): (r: Assoc<string, Data>)
    ensures |r| == |jar|
    ensures forall i :: 0 <= i < |jar| ==> r[i] == (jar[i].0, Hash(PathsData(jar[i].1, iso)))
  {
    seq(|jar|, i requires 0 <= i < |jar| => (jar[i].0, Hash(PathsData(jar[i].1, iso))))
  }

  /** `to_h`: domain -> path -> name -> {value, expires, secure, http_only},
      in the jar's order. */
  function ToH(jar: Jar, iso: int -> string): (r: Data)
    ensures r.Hash? && |r.entries| == |jar| && Keys(r.entries) == Keys(jar)
  {
    Hash(DomainsData(jar, iso))
  }

  // ---------------------------------------------------------------------------
  // load

  /** `attrs['value']` as the cookie keeps it for `"#{c.value}"`: a String
      as it is, `true` and `false` by their names, and `nil` or a missing key
      as no value. */
  function ValueOf(v: Option<Data>): (r: Option<string>)
    ensures v.None? || v.value == Nil ==> r.None?
    ensures v.Some? && v.value.Str? ==> r == Some(v.value.s)
    ensures v.Some? && v.value.Bool? ==> r.Some? && (r.value == "true" <==> v.value.b)
  {
    match v
    case Some(Str(s)) => Some(s)
    case Some(Bool(b)) => Some(if b then "true" else "false")
    case _ => None
  }

  /** What `to_h` saves as a value, `load` reads back. */
  lemma ValueRoundTrip(x: Option<string>)
    ensures ValueOf(Some(ValueData(x))) == x
  {
  }

  /** A boolean value in a snapshot is sent the way Ruby interpolates it. */
  lemma LoadedFlagValue(d: string, p: string, n: string, b: bool, expires: Option<int>)
    ensures CookiePair(Rebuild(d, p, n, [("value", Bool(b))], expires)) == n + "=" + (if b then "true" else "false")
  {
    assert Get([("value", Bool(b))], "value") == Some(Bool(b));
  }

  /** `attrs['expires'] ? Time.parse(attrs['expires']) : nil`. `Time.parse`
      raises on text it cannot read and on anything that is not a string. */
  function ExpiresOf(v: Option<Data>, parseIso: string -> Option<int>): (r: Result<Option<int>, Error>)
    ensures v.None? || !Truthy(v.value) ==> r == Ok(None)
  {
    match v
    case None => Ok(None)
    case Some(d) =>
      if !Truthy(d) then Ok(None)
      else
        match d
        case Str(s) =>
          (match parseIso(s)
           case Some(t) => Ok(Some(t))
           case None => Err(InvalidTime))
        case _ => Err(InvalidTime)
  }

  function FlagOf(v: Option<Data>): bool {
    v.Some? && Truthy(v.value)
  }

  /** The body of the innermost loop of `load`: one cookie rebuilt from its attributes and stored. */
  function LoadCookie(jar: Jar, d: string, p: string, n: string, attrs: Assoc<string, Data>, parseIso: string -> Option<int>): (r: StoreOutcome)
    ensures r.raised.None? ==> WellFormed(jar) ==> WellFormed(r.jar)
  {
    match ExpiresOf(Get(attrs, "expires"), parseIso)
    case Err(e) => StoreOutcome(jar, Some(e))
    case Ok(expires) =>
      var c := Rebuild(d, p, n, attrs, expires);
      StoreWellFormedIf(jar, c);
      StoreOutcome(Store(jar, c), None)
  }

  /** The cookie `load` builds from one saved attribute Hash. */
  function Rebuild(d: string, p: string, n: string, attrs: Assoc<string, Data>, expires: Option<int>): Cookie {
    Cookie(n, ValueOf(Get(attrs, "value")), Some(d), p, expires,
           FlagOf(Get(attrs, "secure")), FlagOf(Get(attrs, "http_only")))
  }

  lemma StoreWellFormedIf(jar: Jar, c: Cookie)
    ensures WellFormed(jar) ==> WellFormed(Store(jar, c))
  {
    if WellFormed(jar) {
      StoreWellFormed(jar, c);
    }
  }

  function LoadNames(jar: Jar, d: string, p: string, ns: Assoc<string, Data>, parseIso: string -> Option<int>): (r: StoreOutcome)
    decreases |ns|
  {
    if |ns| == 0 then StoreOutcome(jar, None)
    else
      var prev := LoadNames(jar, d, p, ns[..|ns| - 1], parseIso);
      var (n, attrs) := ns[|ns| - 1];
      if prev.raised.Some? then prev
      else if attrs.Hash? then LoadCookie(prev.jar, d, p, n, attrs.entries, parseIso)
      else prev
  }

  function LoadPaths(jar: Jar, d: string, ps: Assoc<string, Data>, parseIso: string -> Option<int>): (r: StoreOutcome)
    decreases |ps|
  {
    if |ps| == 0 then StoreOutcome(jar, None)
    else
      var prev := LoadPaths(jar, d, ps[..|ps| - 1], parseIso);
      var (p, names) := ps[|ps| - 1];
      if prev.raised.Some? then prev
      else if names.Hash? then LoadNames(prev.jar, d, p, names.entries, parseIso)
      else prev
  }

  function LoadDomains(jar: Jar, ds: Assoc<string, Data>, parseIso: string -> Option<int>): (r: StoreOutcome)
    decreases |ds|
  {
    if |ds| == 0 then StoreOutcome(jar, None)
    else
      var prev := LoadDomains(jar, ds[..|ds| - 1], parseIso);
      var (d, paths) := ds[|ds| - 1];
      if prev.raised.Some? then prev
      else if paths.Hash? then LoadPaths(prev.jar, d, paths.entries, parseIso)
      else prev
  }

  /** `load`: ignores anything but a Hash, skips entries that are not Hashes
      at each level, and stores every cookie it rebuilds; an unreadable expiry
      stops the load with what was stored so far. `parseIso` is `Time.parse`. */
  function Load(jar: Jar, data: Data, parseIso: string -> Option<int>): (r: StoreOutcome)
    ensures !data.Hash? ==> r == StoreOutcome(jar, None)
  {
    match data
    case Hash(ds) => LoadDomains(jar, ds, parseIso)
    case _ => StoreOutcome(jar, None)
  }

  // ---------------------------------------------------------------------------
  // Round trip

  /** A jar with a bucket `ps` for domain `d` at its end, or without one while `ps` is still empty. */
  function Attach<V>(a: Assoc<string, seq<V>>, k: string, v: seq<V>): Assoc<string, seq<V>> {
    if v == [] then a else a + [(k, v)]
  }

  /** `store` into the last bucket of a jar whose other domains differ from the cookie's. */
  lemma StoreIntoLast(jar: Jar, d: string, ps: Paths, c: Cookie)
    requires c.domain == Some(d) && d !in Keys(jar)
    ensures Store(Attach(jar, d, ps), c)
         == jar + [(d, Put(ps, c.path, Put(Get(ps, c.path).GetOr([]), c.name, c)))]
  {
    var x := Put(ps, c.path, Put(Get(ps, c.path).GetOr([]), c.name, c));
    if ps == [] {
      assert Get(jar, d).None?;
    } else {
      var a := jar + [(d, ps)];
      KeysAppend(jar, [(d, ps)]);
      GetAppend(jar, d, ps, d);
      assert KeyIndex(a, d) == Some(|jar|) by {
        assert forall m :: 0 <= m < |jar| ==> a[m].0 == Keys(jar)[m];
      }
    }
  }

  /** `hash[k] = v` on a Hash whose last pair has key `k` and whose other keys differ. */
  lemma PutIntoLast<V>(a: Assoc<string, seq<V>>, k: string, first: seq<V>, v: seq<V>)
    requires k !in Keys(a)
    ensures Put(Attach(a, k, first), k, v) == a + [(k, v)]
    ensures Get(Attach(a, k, first), k).GetOr([]) == first
  {
    if first == [] {
      assert Get(a, k).None?;
    } else {
      var b := a + [(k, first)];
      KeysAppend(a, [(k, first)]);
      GetAppend(a, k, first, k);
      assert KeyIndex(b, k) == Some(|a|) by {
        assert forall m :: 0 <= m < |a| ==> b[m].0 == Keys(a)[m];
      }
    }
  }

  /** The saved attribute Hash has four distinct keys, each holding its attribute. */
  lemma SavedAttrs(c: Cookie, iso: int -> string)
    ensures var attrs := CookieData(c, iso).entries;
            && Get(attrs, "value") == Some(ValueData(c.value))
            && Get(attrs, "expires") == Some(if c.expires.Some? then Str(iso(c.expires.value)) else Nil)
            && Get(attrs, "secure") == Some(Bool(c.secure))
            && Get(attrs, "http_only") == Some(Bool(c.httpOnly))
  {
    var attrs := CookieData(c, iso).entries;
    assert "value"[0] == 'v' && "expires"[0] == 'e' && "secure"[0] == 's' && "http_only"[0] == 'h';
    assert Unique(attrs);
    InGet(attrs, 0);
    InGet(attrs, 1);
    InGet(attrs, 2);
    InGet(attrs, 3);
  }

  /** `Time.parse` of a saved expiry gives back the expiry. */
  lemma ExpiresRoundTrip(c: Cookie, iso: int -> string, parseIso: string -> Option<int>)
    requires forall t :: parseIso(iso(t)) == Some(t)
    ensures ExpiresOf(Some(if c.expires.Some? then Str(iso(c.expires.value)) else Nil), parseIso) == Ok(c.expires)
  {
    if c.expires.Some? {
      var t: int := c.expires.value;
      assert parseIso(iso(t)) == Some(t);
    }
  }

  /** The saved attributes describe the cookie they were saved from. */
  lemma RebuildSaved(c: Cookie, iso: int -> string)
    requires c.domain.Some?
    ensures Rebuild(c.domain.value, c.path, c.name, CookieData(c, iso).entries, c.expires) == c
  {
    SavedAttrs(c, iso);
    ValueRoundTrip(c.value);
    assert FlagOf(Some(Bool(c.secure))) == c.secure;
    assert FlagOf(Some(Bool(c.httpOnly))) == c.httpOnly;
  }

  /** A readable expiry: the rebuilt cookie is stored and nothing is raised. */
  lemma LoadCookieStores(jar: Jar, d: string, p: string, n: string, attrs: Assoc<string, Data>,
                         parseIso: string -> Option<int>, expires: Option<int>)
    requires ExpiresOf(Get(attrs, "expires"), parseIso) == Ok(expires)
    ensures LoadCookie(jar, d, p, n, attrs, parseIso) == StoreOutcome(Store(jar, Rebuild(d, p, n, attrs, expires)), None)
  {
  }

  /** Loading the saved attributes of a cookie rebuilds that very cookie. */
  lemma LoadCookieRebuilds(jar: Jar, c: Cookie, iso: int -> string, parseIso: string -> Option<int>)
    requires c.domain.Some?
    requires forall t :: parseIso(iso(t)) == Some(t)
    ensures LoadCookie(jar, c.domain.value, c.path, c.name, CookieData(c, iso).entries, parseIso)
         == StoreOutcome(Store(jar, c), None)
  {
    SavedAttrs(c, iso);
    ExpiresRoundTrip(c, iso, parseIso);
    LoadCookieStores(jar, c.domain.value, c.path, c.name, CookieData(c, iso).entries, parseIso, c.expires);
    RebuildSaved(c, iso);
  }

  /** One more entry in a snapshot: one more step of each loop of `load`. */
  lemma LoadNamesSnoc(jar: Jar, d: string, p: string, ns: Assoc<string, Data>, n: string, v: Data,
                      parseIso: string -> Option<int>)
    ensures LoadNames(jar, d, p, ns + [(n, v)], parseIso)
         == (var prev := LoadNames(jar, d, p, ns, parseIso);
             if prev.raised.Some? then prev
             else if v.Hash? then LoadCookie(prev.jar, d, p, n, v.entries, parseIso)
             else prev)
  {
    assert (ns + [(n, v)])[..|ns|] == ns;
  }

  lemma LoadPathsSnoc(jar: Jar, d: string, ps: Assoc<string, Data>, p: string, v: Data, parseIso: string -> Option<int>)
    ensures LoadPaths(jar, d, ps + [(p, v)], parseIso)
         == (var prev := LoadPaths(jar, d, ps, parseIso);
             if prev.raised.Some? then prev
             else if v.Hash? then LoadNames(prev.jar, d, p, v.entries, parseIso)
             else prev)
  {
    assert (ps + [(p, v)])[..|ps|] == ps;
  }

  lemma LoadDomainsSnoc(jar: Jar, ds: Assoc<string, Data>, d: string, v: Data, parseIso: string -> Option<int>)
    ensures LoadDomains(jar, ds + [(d, v)], parseIso)
         == (var prev := LoadDomains(jar, ds, parseIso);
             if prev.raised.Some? then prev
             else if v.Hash? then LoadPaths(prev.jar, d, v.entries, parseIso)
             else prev)
  {
    assert (ds + [(d, v)])[..|ds|] == ds;
  }

  /** The snapshot of a longer prefix is the snapshot of the shorter one and one more entry. */
  lemma NamesDataSnoc(ns: Names, k: nat, iso: int -> string)
    requires 0 < k <= |ns|
    ensures NamesData(ns[..k], iso) == NamesData(ns[..k - 1], iso) + [(ns[k - 1].0, CookieData(ns[k - 1].1, iso))]
  {
  }

  lemma PathsDataSnoc(ps: Paths, k: nat, iso: int -> string)
    requires 0 < k <= |ps|
    ensures PathsData(ps[..k], iso) == PathsData(ps[..k - 1], iso) + [(ps[k - 1].0, Hash(NamesData(ps[k - 1].1, iso)))]
  {
  }

  lemma DomainsDataSnoc(jar: Jar, k: nat, iso: int -> string)
    requires 0 < k <= |jar|
    ensures DomainsData(jar[..k], iso) == DomainsData(jar[..k - 1], iso) + [(jar[k - 1].0, Hash(PathsData(jar[k - 1].1, iso)))]
  {
  }

  /** The names of a bucket, loaded into a jar whose last domain is `d` with
      paths `ps` not yet holding `p`, are stored back in order. */
  lemma {:induction false} LoadNamesPrefix(jar: Jar, d: string, ps: Paths, p: string, ns: Names, k: nat,
                                           iso: int -> string, parseIso: string -> Option<int>)
    requires d !in Keys(jar) && p !in Keys(ps) && NamesOk(d, p, ns) && k <= |ns|
    requires forall t :: parseIso(iso(t)) == Some(t)
    ensures LoadNames(Attach(jar, d, ps), d, p, NamesData(ns[..k], iso), parseIso)
         == StoreOutcome(Attach(jar, d, Attach(ps, p, ns[..k])), None)
    decreases k
  {
    if k > 0 {
      LoadNamesPrefix(jar, d, ps, p, ns, k - 1, iso, parseIso);
      LoadNamesExtend(jar, d, ps, p, ns, k, iso, parseIso);
    }
  }

  /** The induction step of `LoadNamesPrefix`: one more saved name, one more stored cookie. */
  lemma LoadNamesExtend(jar: Jar, d: string, ps: Paths, p: string, ns: Names, k: nat,
                        iso: int -> string, parseIso: string -> Option<int>)
    requires d !in Keys(jar) && p !in Keys(ps) && NamesOk(d, p, ns) && 0 < k <= |ns|
    requires forall t :: parseIso(iso(t)) == Some(t)
    requires LoadNames(Attach(jar, d, ps), d, p, NamesData(ns[..k - 1], iso), parseIso)
          == StoreOutcome(Attach(jar, d, Attach(ps, p, ns[..k - 1])), None)
    ensures LoadNames(Attach(jar, d, ps), d, p, NamesData(ns[..k], iso), parseIso)
         == StoreOutcome(Attach(jar, d, Attach(ps, p, ns[..k])), None)
  {
    var init := ns[..k - 1];
    var n := ns[k - 1].0;
    var c := ns[k - 1].1;
    var saved := CookieData(c, iso);
    assert ns[..k] == init + [(n, c)];
    NamesDataSnoc(ns, k, iso);
    assert NamesData(ns[..k], iso) == NamesData(init, iso) + [(n, saved)];
    LoadNamesSnoc(Attach(jar, d, ps), d, p, NamesData(init, iso), n, saved, parseIso);
    assert LoadNames(Attach(jar, d, ps), d, p, NamesData(ns[..k], iso), parseIso)
        == LoadCookie(Attach(jar, d, Attach(ps, p, init)), d, p, n, saved.entries, parseIso);
    LastKeyFresh(ns, k);
    assert c.domain == Some(d) && c.path == p && c.name == n;
    LoadNamesStep(jar, d, ps, p, init, n, c, iso, parseIso);
  }

  /** One step of `LoadNamesPrefix`: the next cookie lands after the ones before it. */
  lemma LoadNamesStep(jar: Jar, d: string, ps: Paths, p: string, init: Names, n: string, c: Cookie,
                      iso: int -> string, parseIso: string -> Option<int>)
    requires d !in Keys(jar) && p !in Keys(ps) && n !in Keys(init)
    requires c.domain == Some(d) && c.path == p && c.name == n
    requires forall t :: parseIso(iso(t)) == Some(t)
    ensures LoadCookie(Attach(jar, d, Attach(ps, p, init)), d, p, n, CookieData(c, iso).entries, parseIso)
         == StoreOutcome(Attach(jar, d, Attach(ps, p, init + [(n, c)])), None)
  {
    var before := Attach(jar, d, Attach(ps, p, init));
    LoadCookieRebuilds(before, c, iso, parseIso);
    StoreIntoLast(jar, d, Attach(ps, p, init), c);
    PutIntoLast(ps, p, init, Put(init, n, c));
    assert Put(init, n, c) == init + [(n, c)];
  }

  lemma {:induction false} LoadPathsPrefix(jar: Jar, d: string, ps: Paths, k: nat,
                                           iso: int -> string, parseIso: string -> Option<int>)
    requires d !in Keys(jar) && PathsOk(d, ps) && k <= |ps|
    requires forall t :: parseIso(iso(t)) == Some(t)
    ensures LoadPaths(jar, d, PathsData(ps[..k], iso), parseIso) == StoreOutcome(Attach(jar, d, ps[..k]), None)
    decreases k
  {
    if k > 0 {
      LoadPathsPrefix(jar, d, ps, k - 1, iso, parseIso);
      var pre := ps[..k - 1];
      var (p, ns) := ps[k - 1];
      PathsDataSnoc(ps, k, iso);
      LoadPathsSnoc(jar, d, PathsData(pre, iso), p, Hash(NamesData(ns, iso)), parseIso);
      LastKeyFresh(ps, k);
      assert NamesOk(d, p, ns);
      LoadNamesPrefix(jar, d, pre, p, ns, |ns|, iso, parseIso);
      assert ns[..|ns|] == ns;
      assert ps[..k] == pre + [(p, ns)];
    }
  }

  lemma {:induction false} LoadDomainsPrefix(jar: Jar, k: nat, iso: int -> string, parseIso: string -> Option<int>)
    requires WellFormed(jar) && k <= |jar|
    requires forall t :: parseIso(iso(t)) == Some(t)
    ensures LoadDomains(Empty, DomainsData(jar[..k], iso), parseIso) == StoreOutcome(jar[..k], None)
    decreases k
  {
    if k > 0 {
      LoadDomainsPrefix(jar, k - 1, iso, parseIso);
      var pre := jar[..k - 1];
      var (d, ps) := jar[k - 1];
      DomainsDataSnoc(jar, k, iso);
      LoadDomainsSnoc(Empty, DomainsData(pre, iso), d, Hash(PathsData(ps, iso)), parseIso);
      LastKeyFresh(jar, k);
      assert PathsOk(d, ps);
      LoadPathsPrefix(pre, d, ps, |ps|, iso, parseIso);
      assert ps[..|ps|] == ps;
      assert jar[..k] == pre + [(d, ps)];
    }
  }

  /** Loading a jar's own snapshot into an empty jar gives back the same jar:
      every domain, path and name, with equal value, expiry, secure and
      http_only, in the same order — provided `Time.parse` reads back what
      `iso8601` wrote. */
  lemma LoadToHRoundTrip(jar: Jar, iso: int -> string, parseIso: string -> Option<int>)
    requires WellFormed(jar)
    requires forall t :: parseIso(iso(t)) == Some(t)
    ensures Load(Empty, ToH(jar, iso), parseIso) == StoreOutcome(jar, None)
  {
    LoadDomainsPrefix(jar, |jar|, iso, parseIso);
    assert jar[..|jar|] == jar;
  }
}
