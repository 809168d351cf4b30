/** `UrlNormalizer`: canonical http(s) URL strings with tracking parameters
    removed from the query and the rest sorted. `URI.parse`, `URI.join`,
    `decode_www_form`, `encode_www_form` and `URI#to_s` are parameters. */
module UrlNormalizer {
  import opened Wrappers
  import opened Strings
  import opened Assoc
  import opened HttpTypes
  import opened PairOrder

  /** `TRACKING_PARAM_PREFIXES`. */
  const TrackingPrefixes: seq<string> := ["utm_"]

  /** `GLOBAL_TRACKING_PARAMS`. */
  const GlobalTrackingParams: seq<string> :=
    ["fbclid", "gclid", "msclkid", "mc_cid", "mc_eid", "mkt_tok", "icid", "ref", "ref_src", "ref_url"]

  /** `HOST_TRACKING_PARAMS`: further parameters dropped on one host. */
  const HostTrackingParams: Assoc<string, seq<string>> := [("pubmed.ncbi.nlm.nih.gov", ["fc", "ff", "v"])]

  /** `tracking_prefix?(param)`. */
  predicate TrackingPrefix(param: string) {
    exists p :: p in TrackingPrefixes && StartsWith(param, p)
  }

  /** Whether the parameter named `key` is dropped from a URL whose host is
      `host`: its lower-cased name has a tracking prefix, is a global
      tracking parameter, or is one of the lower-cased host's own. */
  predicate Tracking(key: string, host: Option<string>) {
    var k := Lower(key);
    TrackingPrefix(k)
    || k in GlobalTrackingParams
    || (host.Some? && k in Get(HostTrackingParams, Lower(host.value)).GetOr([]))
  }

  /** `params.reject { tracking }`: each pair survives as often as it
      occurred, unless its key is a tracking parameter. */
  function Kept(params: seq<Pair>, host: Option<string>): (r: seq<Pair>)
    ensures forall p :: multiset(r)[p] == if Tracking(p.0, host) then 0 else multiset(params)[p]
    ensures forall k :: 0 <= k < |r| ==> !Tracking(r[k].0, host)
    decreases |params|
  {
    if |params| == 0 then []
    else
      var init := params[..|params| - 1];
      var last := params[|params| - 1];
      assert params == init + [last];
      var r := Kept(init, host);
      if Tracking(last.0, host) then r
      else
        assert forall k :: 0 <= k < |r| ==> (r + [last])[k] == r[k];
        r + [last]
  }

  /** The query-string codec: `decode_www_form` (`None` when it raises
      `ArgumentError`) and `encode_www_form`. */
  datatype Codec = Codec(decode: string -> Option<seq<Pair>>, encode: seq<Pair> -> string)

  /** `filtered_query(uri)` for a URI with query `query` and host `host`. */
  function FilteredQuery(query: Option<string>, host: Option<string>, codec: Codec): (r: Option<string>)
    ensures query.None? || query == Some("") ==> r.None?
    ensures query.Some? && query.value != "" && codec.decode(query.value).None? ==> r == query
    ensures query.Some? && query.value != "" && codec.decode(query.value).Some? ==>
              var kept := Kept(codec.decode(query.value).value, host);
              (r.None? <==> kept == [])
              && (r.Some? ==> Sorted(Sort(kept)) && r.value == codec.encode(Sort(kept)))
  {
    match query
    case None => None
    case Some(q) =>
      if q == "" then None
      else
        match codec.decode(q)
        case None => query
        case Some(params) =>
          var kept := Kept(params, host);
          if kept == [] then None
          else
            SortSorted(kept);
            Some(codec.encode(Sort(kept)))
  }

  /** The surviving parameters are encoded in the one sorted order of the
      non-tracking pairs: any arrangement that is sorted and has each
      non-tracking pair as often as the query had it is the one encoded. */
  lemma FilteredQueryOrder(q: string, host: Option<string>, codec: Codec, o: seq<Pair>)
    requires q != "" && codec.decode(q).Some?
    requires Sorted(o)
    requires forall p :: multiset(o)[p] == if Tracking(p.0, host) then 0 else multiset(codec.decode(q).value)[p]
    requires o != []
    ensures FilteredQuery(Some(q), host, codec) == Some(codec.encode(o))
  {
    var kept := Kept(codec.decode(q).value, host);
    assert multiset(o) == multiset(kept);
    SortSorted(kept);
    SortedUnique(o, Sort(kept));
  }

  /** A query made only of tracking parameters disappears. */
  lemma AllTrackingDropped(q: string, host: Option<string>, codec: Codec)
    requires q != "" && codec.decode(q).Some?
    requires forall k :: 0 <= k < |codec.decode(q).value| ==> Tracking(codec.decode(q).value[k].0, host)
    ensures FilteredQuery(Some(q), host, codec).None?
  {
    var params := codec.decode(q).value;
    var kept := Kept(params, host);
    if kept != [] {
      assert false;
    }
  }

  /** The host-specific parameters are dropped on their host, in any case,
      and kept elsewhere. */
  lemma HostSpecificParams()
    ensures Tracking("FC", Some("PubMed.ncbi.nlm.nih.gov"))
    ensures !Tracking("fc", Some("example.com"))
    ensures Tracking("UTM_Source", None) && Tracking("fbclid", None) && !Tracking("foo", None)
  {
    PubMedParam();
    OtherHostParam();
    GlobalParams();
  }

  lemma PubMedParam()
    ensures Tracking("FC", Some("PubMed.ncbi.nlm.nih.gov"))
  {
    assert Lower("FC") == "fc";
    assert Lower("PubMed.ncbi.nlm.nih.gov") == "pubmed.ncbi.nlm.nih.gov";
    assert Get(HostTrackingParams, "pubmed.ncbi.nlm.nih.gov") == Some(["fc", "ff", "v"]);
  }

  lemma OtherHostParam()
    ensures !Tracking("fc", Some("example.com"))
  {
    assert Lower("fc") == "fc";
    assert Lower("example.com") == "example.com";
    assert Keys(HostTrackingParams) == ["pubmed.ncbi.nlm.nih.gov"];
    assert !StartsWith("fc", "utm_");
  }

  lemma GlobalParams()
    ensures Tracking("UTM_Source", None) && Tracking("fbclid", None) && !Tracking("foo", None)
  {
    assert Lower("UTM_Source") == "utm_source";
    assert StartsWith("utm_source", "utm_");
    assert Lower("fbclid") == "fbclid";
    assert Lower("foo") == "foo";
    assert !StartsWith("foo", "utm_");
  }

  // ---------------------------------------------------------------------------
  // normalize

  /** A URI `canonical_uri_string` accepts: it has a host and its scheme is
      exactly `http` or `https`. */
  predicate WebUri(u: Uri) {
    u.host.Some? && (u.scheme == Some("http") || u.scheme == Some("https"))
  }

  /** `canonical_uri_string(uri)`; `render(u)` is `u.to_s`. */
  function Canonical(uri: Option<Uri>, codec: Codec, render: Uri -> string): (r: Option<string>)
    ensures r.Some? <==> uri.Some? && WebUri(uri.value)
    ensures r.Some? ==> r.value == render(uri.value.(query := FilteredQuery(uri.value.query, uri.value.host, codec)))
  {
    match uri
    case None => None
    case Some(u) =>
      if u.scheme.None? || u.host.None? then None
      else if u.scheme.value != "http" && u.scheme.value != "https" then None
      else Some(render(u.(query := FilteredQuery(u.query, u.host, codec))))
  }

  /** `parse_uri_with_https_fallback(s)`: `URI.parse(s)`, or failing that `URI.parse("https://" + s)`. */
  function ParseWithFallback(parse: string -> Option<Uri>, s: string): (u: Option<Uri>)
    ensures parse(s).Some? ==> u == parse(s)
    ensures parse(s).None? ==> u == parse("https://" + s)
  {
    match parse(s)
    case Some(v) => Some(v)
    case None => parse("https://" + s)
  }

  /** The link text `normalize` parses: `link.to_s.strip`, with `https:` put
      before a protocol-relative `//host/...`. */
  function Prepared(link: Option<string>): string {
    var s := Strip(link.GetOr(""));
    if StartsWith(s, "//") then "https:" + s else s
  }

  /** `normalize(link, base:)`. `join(base, s)` is `URI.join(base, s).to_s`,
      `None` when it raises. */
  function Normalize(link: Option<string>, base: Option<string>, parse: string -> Option<Uri>,
                     join: (string, string) -> Option<string>, codec: Codec, render: Uri -> string): (r: Option<string>)
    ensures IsBlank(link.GetOr("")) ==> r.None?
    ensures r.Some? ==> exists u :: WebUri(u) && r.value == render(u.(query := FilteredQuery(u.query, u.host, codec)))
    ensures Canonical(ParseWithFallback(parse, Prepared(link)), codec, render).Some? && !IsBlank(link.GetOr("")) ==>
              r == Canonical(ParseWithFallback(parse, Prepared(link)), codec, render)
    ensures r.Some? && Canonical(ParseWithFallback(parse, Prepared(link)), codec, render).None? ==>
              base.Some? && base.value != [] && join(base.value, Prepared(link)).Some?
  {
    if Strip(link.GetOr("")) == [] then None
    else
      var s := Prepared(link);
      var direct := Canonical(ParseWithFallback(parse, s), codec, render);
      if direct.Some? then direct
      else if base.Some? && base.value != [] then
        match join(base.value, s)
        case None => None
        case Some(joined) => Canonical(parse(joined), codec, render)
      else None
  }

  /** A protocol-relative link is read as an https link. */
  lemma ProtocolRelative(x: string)
    ensures Prepared(Some("//" + x)) == Prepared(Some("https://" + x))
  {
    StripPrefixed("//", x);
    StripPrefixed("https://", x);
    PrefixedForms(TrimRight(x));
  }

  lemma PrefixedForms(t: string)
    ensures StartsWith("//" + t, "//") && "https:" + ("//" + t) == "https://" + t
    ensures !StartsWith("https://" + t, "//")
  {
    assert ("//" + t)[..2] == "//";
    assert ("https://" + t)[0] == 'h';
  }
}
