/** `Set-Cookie` parsing (section 5.2 of RFC 6265, as the jar implements it):
    the name/value pair, the attribute loop, and the choice of the header
    values to parse. */
module CookieParse {
  import opened Wrappers
  import opened Assoc
  import opened Strings
  import opened HttpTypes
  import opened CookieRules

  // ---------------------------------------------------------------------------
  // Attributes

  /** The attribute hash built by `parse_cookie_attributes`. */
  datatype Attrs = Attrs(
    domain: Option<string>,
    path: Option<string>,
    expires: Option<int>,
    secure: bool,
    httpOnly: bool)

  const NoAttrs := Attrs(None, None, None, false, false)

  /** `part.split('=', 2)` with both halves stripped: the key, and the value
      when there is an "=". */
  function KeyValue(part: string): (kv: (string, Option<string>))
    ensures '=' !in part ==> kv == (Strip(part), None)
    ensures '=' in part ==> kv.1.Some? && '=' !in kv.0
  {
    match IndexOf(part, '=')
    case None => (Strip(part), None)
    case Some(i) => (Strip(part[..i]), Some(Strip(part[i + 1..])))
  }

  /** `s[i]` is a "." at the start of a line, where `/^\./` can match. */
  predicate IsLineStartDot(s: string, i: nat)
    requires i < |s|
  {
    s[i] == '.' && (i == 0 || s[i - 1] == '\n')
  }

  /** The first position at or after `from` where `/^\./` matches. */
  function LineStartDot(s: string, from: nat): (r: Option<nat>)
    requires from <= |s|
    ensures r.Some? ==> from <= r.value < |s| && IsLineStartDot(s, r.value)
    ensures r.Some? ==> forall j :: from <= j < r.value ==> !IsLineStartDot(s, j)
    ensures r.None? ==> forall j :: from <= j < |s| ==> !IsLineStartDot(s, j)
    decreases |s| - from
  {
    if from == |s| then None
    else if IsLineStartDot(s, from) then Some(from)
    else LineStartDot(s, from + 1)
  }

  /** `sub(/^\./, '')`: removes the first "." that begins a line. */
  function DropLineStartDot(s: string): (r: string)
    ensures |s| > 0 && s[0] == '.' ==> r == s[1..]
    ensures IsLower(s) ==> IsLower(r)
    ensures LineStartDot(s, 0).None? ==> r == s
    ensures LineStartDot(s, 0).Some? ==> |r| + 1 == |s|
  {
    match LineStartDot(s, 0)
    case None => s
    case Some(i) => s[..i] + s[i + 1..]
  }

  /** The domain a `Domain=` value yields: lower-cased, leading dot removed. */
  function DomainValue(v: string): (r: string)
    ensures IsLower(r)
  {
    DropLineStartDot(Lower(v))
  }

  /** The attribute names the loop recognises, after lower-casing. */
  datatype AttrName = DomainAttr | PathAttr | ExpiresAttr | MaxAgeAttr | SecureAttr | HttpOnlyAttr | OtherAttr

  function Classify(key: string): AttrName {
    var k := Lower(key);
    if k == "domain" then DomainAttr
    else if k == "path" then PathAttr
    else if k == "expires" then ExpiresAttr
    else if k == "max-age" then MaxAgeAttr
    else if k == "secure" then SecureAttr
    else if k == "httponly" then HttpOnlyAttr
    else OtherAttr
  }

  /** One attribute part, split at its first "=" and classified by name. */
  datatype Attr = Attr(name: AttrName, val: Option<string>)

  function ParsePart(part: string): (r: Attr)
    ensures r.val.Some? <==> '=' in part
  {
    var kv := KeyValue(part);
    Attr(Classify(kv.0), kv.1)
  }

  predicate IsMaxAgeWithValue(t: Attr) {
    t.name == MaxAgeAttr && t.val.Some?
  }

  /** One iteration of the attribute loop. Parsing `Expires` with no value
      raises (the time parser is handed `nil`). `parseTime` is `Time.httpdate`
      falling back to `Time.parse`, `None` when both reject the text. */
  function AttrStep(a: Attrs, t: Attr, now: int, parseTime: string -> Option<int>): (r: Result<Attrs, Error>)
    ensures r.Err? <==> t.name == ExpiresAttr && a.expires.None? && t.val.None?
    ensures r.Ok? && a.expires.Some? && !IsMaxAgeWithValue(t) ==> r.value.expires == a.expires
    ensures IsMaxAgeWithValue(t) ==> r == Ok(a.(expires := Some(now + RubyToI(t.val.value))))
    ensures t.name == ExpiresAttr && a.expires.None? && t.val.Some? ==> r == Ok(a.(expires := parseTime(t.val.value)))
    ensures t.name == DomainAttr ==> r == Ok(a.(domain := if t.val.Some? then Some(DomainValue(t.val.value)) else None))
    ensures t.name == PathAttr ==> r == Ok(a.(path := t.val))
    ensures t.name == SecureAttr ==> r == Ok(a.(secure := true))
    ensures t.name == HttpOnlyAttr ==> r == Ok(a.(httpOnly := true))
    ensures t.name == OtherAttr ==> r == Ok(a)
    ensures r.Ok? && t.name != DomainAttr ==> r.value.domain == a.domain
    ensures r.Ok? && t.name != PathAttr ==> r.value.path == a.path
    ensures r.Ok? && t.name != SecureAttr ==> r.value.secure == a.secure
    ensures r.Ok? && t.name != HttpOnlyAttr ==> r.value.httpOnly == a.httpOnly
  {
    match t.name
    case DomainAttr => Ok(a.(domain := if t.val.Some? then Some(DomainValue(t.val.value)) else None))
    case PathAttr => Ok(a.(path := t.val))
    case ExpiresAttr =>
      if a.expires.Some? then Ok(a)
      else if t.val.None? then Err(NilTimeValue)
      else Ok(a.(expires := parseTime(t.val.value)))
    case MaxAgeAttr => if t.val.Some? then Ok(a.(expires := Some(now + RubyToI(t.val.value)))) else Ok(a)
    case SecureAttr => Ok(a.(secure := true))
    case HttpOnlyAttr => Ok(a.(httpOnly := true))
    case OtherAttr => Ok(a)
  }

  /** `parse_cookie_attributes`: the attribute loop over the parts after the
      name/value pair, stopping at the first part that raises. */
  function ParseAttributes(ts: seq<Attr>, now: int, parseTime: string -> Option<int>): (r: Result<Attrs, Error>)
    ensures r.Ok? ==> r.value.domain.Some? ==> IsLower(r.value.domain.value)
    decreases |ts|
  {
    if |ts| == 0 then Ok(NoAttrs)
    else
      match ParseAttributes(ts[..|ts| - 1], now, parseTime)
      case Err(e) => Err(e)
      case Ok(a) => AttrStep(a, ts[|ts| - 1], now, parseTime)
  }

  /** The last `Max-Age` with a value decides the expiry, whatever `Expires`
      attributes come before or after it. */
  lemma {:induction false} LastMaxAgeWins(ts: seq<Attr>, i: nat, now: int, parseTime: string -> Option<int>)
    requires i < |ts| && IsMaxAgeWithValue(ts[i])
    requires forall j :: i < j < |ts| ==> !IsMaxAgeWithValue(ts[j])
    requires ParseAttributes(ts[..i], now, parseTime).Ok?
    ensures ParseAttributes(ts, now, parseTime).Ok?
    ensures ParseAttributes(ts, now, parseTime).value.expires == Some(now + RubyToI(ts[i].val.value))
    decreases |ts|
  {
    var n := |ts|;
    if n == i + 1 {
      assert ts[..n - 1] == ts[..i];
    } else {
      assert ts[..n - 1][..i] == ts[..i];
      LastMaxAgeWins(ts[..n - 1], i, now, parseTime);
    }
  }

  /** With neither `Expires` nor `Max-Age` among the attributes, the cookie is a session cookie. */
  lemma {:induction false} NoExpiryAttributes(ts: seq<Attr>, now: int, parseTime: string -> Option<int>)
    requires forall j :: 0 <= j < |ts| ==> ts[j].name != ExpiresAttr && ts[j].name != MaxAgeAttr
    ensures ParseAttributes(ts, now, parseTime).Ok?
    ensures ParseAttributes(ts, now, parseTime).value.expires.None?
    decreases |ts|
  {
    if |ts| > 0 {
      NoExpiryAttributes(ts[..|ts| - 1], now, parseTime);
    }
  }

  /** The last `Domain` attribute decides the domain; with none, there is none. */
  lemma {:induction false} LastDomainWins(ts: seq<Attr>, i: nat, now: int, parseTime: string -> Option<int>)
    requires i < |ts| && ts[i].name == DomainAttr
    requires forall j :: i < j < |ts| ==> ts[j].name != DomainAttr
    requires ParseAttributes(ts, now, parseTime).Ok?
    ensures ParseAttributes(ts, now, parseTime).value.domain
         == (if ts[i].val.Some? then Some(DomainValue(ts[i].val.value)) else None)
    decreases |ts|
  {
    var n := |ts|;
    if n > i + 1 {
      LastDomainWins(ts[..n - 1], i, now, parseTime);
    }
  }

  lemma {:induction false} NoDomainAttribute(ts: seq<Attr>, now: int, parseTime: string -> Option<int>)
    requires forall j :: 0 <= j < |ts| ==> ts[j].name != DomainAttr
    requires ParseAttributes(ts, now, parseTime).Ok?
    ensures ParseAttributes(ts, now, parseTime).value.domain.None?
    decreases |ts|
  {
    if |ts| > 0 {
      NoDomainAttribute(ts[..|ts| - 1], now, parseTime);
    }
  }

  /** The cookie is Secure exactly when some attribute is `Secure`, with or
      without a value. */
  lemma {:induction false} SecureIff(ts: seq<Attr>, now: int, parseTime: string -> Option<int>)
    requires ParseAttributes(ts, now, parseTime).Ok?
    ensures ParseAttributes(ts, now, parseTime).value.secure <==> exists j :: 0 <= j < |ts| && ts[j].name == SecureAttr
    decreases |ts|
  {
    if |ts| > 0 {
      var init := ts[..|ts| - 1];
      SecureIff(init, now, parseTime);
      assert forall j :: 0 <= j < |init| ==> init[j] == ts[j];
    }
  }

  /** The cookie is HttpOnly exactly when some attribute is `HttpOnly`. */
  lemma {:induction false} HttpOnlyIff(ts: seq<Attr>, now: int, parseTime: string -> Option<int>)
    requires ParseAttributes(ts, now, parseTime).Ok?
    ensures ParseAttributes(ts, now, parseTime).value.httpOnly <==> exists j :: 0 <= j < |ts| && ts[j].name == HttpOnlyAttr
    decreases |ts|
  {
    if |ts| > 0 {
      var init := ts[..|ts| - 1];
      HttpOnlyIff(init, now, parseTime);
      assert forall j :: 0 <= j < |init| ==> init[j] == ts[j];
    }
  }

  /** The last `Path` attribute decides the path: its value, or none when it
      has no "=". */
  lemma {:induction false} LastPathWins(ts: seq<Attr>, i: nat, now: int, parseTime: string -> Option<int>)
    requires i < |ts| && ts[i].name == PathAttr
    requires forall j :: i < j < |ts| ==> ts[j].name != PathAttr
    requires ParseAttributes(ts, now, parseTime).Ok?
    ensures ParseAttributes(ts, now, parseTime).value.path == ts[i].val
    decreases |ts|
  {
    var n := |ts|;
    if n > i + 1 {
      LastPathWins(ts[..n - 1], i, now, parseTime);
    }
  }

  lemma {:induction false} NoPathAttribute(ts: seq<Attr>, now: int, parseTime: string -> Option<int>)
    requires forall j :: 0 <= j < |ts| ==> ts[j].name != PathAttr
    requires ParseAttributes(ts, now, parseTime).Ok?
    ensures ParseAttributes(ts, now, parseTime).value.path.None?
    decreases |ts|
  {
    if |ts| > 0 {
      NoPathAttribute(ts[..|ts| - 1], now, parseTime);
    }
  }

  /** Without a valued `Max-Age`, the first `Expires` decides the expiry when
      it has a value the time parser reads; later ones are skipped. */
  lemma {:induction false} FirstExpiresWins(ts: seq<Attr>, i: nat, now: int, parseTime: string -> Option<int>)
    requires i < |ts| && ts[i].name == ExpiresAttr && ts[i].val.Some?
    requires parseTime(ts[i].val.value).Some?
    requires forall j :: 0 <= j < i ==> ts[j].name != ExpiresAttr
    requires forall j :: 0 <= j < |ts| ==> !IsMaxAgeWithValue(ts[j])
    ensures ParseAttributes(ts, now, parseTime).Ok?
    ensures ParseAttributes(ts, now, parseTime).value.expires == parseTime(ts[i].val.value)
    decreases |ts|
  {
    var n := |ts|;
    if n == i + 1 {
      var init := ts[..i];
      NoExpiryAttributesBefore(init, now, parseTime);
    } else {
      FirstExpiresWins(ts[..n - 1], i, now, parseTime);
    }
  }

  /** Parts with no `Expires` and no valued `Max-Age` parse and leave the expiry unset. */
  lemma {:induction false} NoExpiryAttributesBefore(ts: seq<Attr>, now: int, parseTime: string -> Option<int>)
    requires forall j :: 0 <= j < |ts| ==> ts[j].name != ExpiresAttr && !IsMaxAgeWithValue(ts[j])
    ensures ParseAttributes(ts, now, parseTime).Ok?
    ensures ParseAttributes(ts, now, parseTime).value.expires.None?
    decreases |ts|
  {
    if |ts| > 0 {
      NoExpiryAttributesBefore(ts[..|ts| - 1], now, parseTime);
    }
  }

  // ---------------------------------------------------------------------------
  // The Set-Cookie header

  /** One header field read as an attribute: stripped, then split at its first "=". */
  function FieldAttr(part: string): Attr {
    ParsePart(Strip(part))
  }

  /** The attribute parts of a split header: every part after the first, stripped and classified. */
  function AttrParts(parts: seq<string>): (ts: seq<Attr>)
    requires |parts| >= 1
    ensures |ts| == |parts| - 1
  {
    seq(|parts| - 1, j requires 0 <= j < |parts| - 1 => FieldAttr(parts[j + 1]))
  }

  /** The cookie takes the attribute loop's domain, or else the lower-cased
      request host; the loop's path, or else the default path; and the
      loop's expiry and flags. */
  predicate FromAttributes(c: Cookie, a: Attrs, uri: Uri) {
    && c.domain == (if a.domain.Some? then a.domain else if uri.host.Some? then Some(Lower(uri.host.value)) else None)
    && c.path == a.path.GetOr(DefaultPath(uri.path))
    && c.expires == a.expires
    && c.secure == a.secure
    && c.httpOnly == a.httpOnly
  }

  /** The first field of a header, stripped: the name/value pair. */
  function FirstField(header: string): string {
    Strip(Split(header, ';')[0])
  }

  /** A header that yields a cookie: not blank, with an "=" in its first
      field and a name before it that does not strip to nothing. */
  predicate Named(header: string) {
    var first := FirstField(header);
    !IsBlank(header) && IndexOf(first, '=').Some? && Strip(first[..IndexOf(first, '=').value]) != []
  }

  /** The stripped name and value of a named header's first field, split at
      its first "=". */
  function NamePair(header: string): (nv: Option<(string, string)>)
    ensures nv.Some? <==> Named(header)
    ensures nv.Some? ==>
              var first := FirstField(header);
              var i := IndexOf(first, '=').value;
              nv.value == (Strip(first[..i]), Strip(first[i + 1..]))
              && '=' !in nv.value.0 && Strip(nv.value.1) == nv.value.1
  {
    if IsBlank(header) then None
    else
      var first := FirstField(header);
      match IndexOf(first, '=')
      case None => None
      case Some(i) =>
        var name := Strip(first[..i]);
        if name == [] then None
        else
          StripKeepsOut(first[..i], '=');
          StripIdempotent(first[i + 1..]);
          Some((name, Strip(first[i + 1..])))
  }

  /** The cookie a named header gives once the attribute loop has run, or
      the loop's error. */
  function BuildCookie(uri: Uri, name: string, value: string, attrs: Result<Attrs, Error>): (r: Result<Option<Cookie>, Error>)
    ensures r.Err? <==> attrs.Err?
    ensures attrs.Err? ==> r == Err(attrs.error)
    ensures attrs.Ok? ==>
              r.Ok? && r.value.Some? && r.value.value.name == name && r.value.value.value == Some(value)
              && FromAttributes(r.value.value, attrs.value, uri)
  {
    match attrs
    case Err(e) => Err(e)
    case Ok(a) =>
      Ok(Some(Cookie(
        name,
        Some(value),
        if a.domain.Some? then a.domain else if uri.host.Some? then Some(Lower(uri.host.value)) else None,
        a.path.GetOr(DefaultPath(uri.path)),
        a.expires,
        a.secure,
        a.httpOnly)))
  }

  /** `parse_set_cookie`: `Ok(None)` when the header yields no cookie (blank,
      no "=" in the first part, empty name), `Err` when the attribute loop
      raises. The value and attributes are stripped. */
  function ParseSetCookie(uri: Uri, header: string, now: int, parseTime: string -> Option<int>): (r: Result<Option<Cookie>, Error>)
    ensures IsBlank(header) ==> r == Ok(None)
    ensures var first := FirstField(header);
            '=' !in first ==> r == Ok(None)
    ensures var first := FirstField(header);
            IndexOf(first, '=').Some? && Strip(first[..IndexOf(first, '=').value]) == [] ==> r == Ok(None)
    ensures r.Ok? && r.value.Some? ==>
              var c := r.value.value;
              var first := FirstField(header);
              IndexOf(first, '=').Some?
              && c.name == Strip(first[..IndexOf(first, '=').value])
              && c.value == Some(Strip(first[IndexOf(first, '=').value + 1..]))
              && c.name != [] && '=' !in c.name && Strip(c.value.value) == c.value.value
              && (c.domain.Some? ==> IsLower(c.domain.value))
    ensures Named(header) ==>
              var a := ParseAttributes(AttrParts(Split(header, ';')), now, parseTime);
              (r.Err? <==> a.Err?)
              && (a.Err? ==> r == Err(a.error))
              && (a.Ok? ==> r.Ok? && r.value.Some? && FromAttributes(r.value.value, a.value, uri))
  {
    match NamePair(header)
    case None => Ok(None)
    case Some(nv) => BuildCookie(uri, nv.0, nv.1, ParseAttributes(AttrParts(Split(header, ';')), now, parseTime))
  }

  /** A header with no attribute parts gives the cookie its stripped name and
      value, the request's host and the default path. */
  lemma ParseWithoutAttributes(uri: Uri, header: string, now: int, parseTime: string -> Option<int>, i: nat)
    requires !IsBlank(header) && Split(header, ';') == [header]
    requires IndexOf(Strip(header), '=') == Some(i) && Strip(Strip(header)[..i]) != []
    ensures ParseSetCookie(uri, header, now, parseTime)
         == Ok(Some(Cookie(Strip(Strip(header)[..i]), Some(Strip(Strip(header)[i + 1..])),
                           if uri.host.Some? then Some(Lower(uri.host.value)) else None,
                           DefaultPath(uri.path), None, false, false)))
  {
    var parts := Split(header, ';');
    assert parts[0] == header;
    assert AttrParts(parts) == [];
    assert ParseAttributes(AttrParts(parts), now, parseTime) == Ok(NoAttrs);
  }

  lemma AttrPartAt(parts: seq<string>, j: nat)
    requires 0 <= j < |parts| - 1
    ensures AttrParts(parts)[j] == FieldAttr(parts[j + 1])
  {
  }

  /** The attribute a header field names once stripped: its text before any
      "=", stripped and compared without case. */
  function FieldName(part: string): AttrName {
    FieldAttr(part).name
  }

  /** An attribute name occurs among the attribute parts exactly when some
      field after the first classifies as it. */
  lemma AttrPartsNamed(parts: seq<string>, n: AttrName)
    requires |parts| >= 1
    ensures (exists j :: 0 <= j < |parts| - 1 && AttrParts(parts)[j].name == n)
        <==> (exists j :: 1 <= j < |parts| && FieldName(parts[j]) == n)
  {
    if exists k :: 1 <= k < |parts| && FieldName(parts[k]) == n {
      var k :| 1 <= k < |parts| && FieldName(parts[k]) == n;
      AttrPartAt(parts, k - 1);
      assert AttrParts(parts)[k - 1].name == n;
    }
    if exists j :: 0 <= j < |parts| - 1 && AttrParts(parts)[j].name == n {
      var j :| 0 <= j < |parts| - 1 && AttrParts(parts)[j].name == n;
      AttrPartAt(parts, j);
      assert FieldName(parts[j + 1]) == n;
    }
  }

  /** A parsed cookie is Secure exactly when some part after the first names
      the `Secure` attribute, in any case and with or without a value. */
  lemma SecureFromHeader(uri: Uri, header: string, now: int, parseTime: string -> Option<int>)
    requires ParseSetCookie(uri, header, now, parseTime).Ok?
    requires ParseSetCookie(uri, header, now, parseTime).value.Some?
    ensures var parts := Split(header, ';');
            ParseSetCookie(uri, header, now, parseTime).value.value.secure
            <==> exists j :: 1 <= j < |parts| && FieldName(parts[j]) == SecureAttr
  {
    var parts := Split(header, ';');
    var ts := AttrParts(parts);
    assert Named(header);
    assert ParseAttributes(ts, now, parseTime).Ok?;
    SecureIff(ts, now, parseTime);
    AttrPartsNamed(parts, SecureAttr);
  }

  /** A parsed cookie is HttpOnly exactly when some part after the first
      names the `HttpOnly` attribute. */
  lemma HttpOnlyFromHeader(uri: Uri, header: string, now: int, parseTime: string -> Option<int>)
    requires ParseSetCookie(uri, header, now, parseTime).Ok?
    requires ParseSetCookie(uri, header, now, parseTime).value.Some?
    ensures var parts := Split(header, ';');
            ParseSetCookie(uri, header, now, parseTime).value.value.httpOnly
            <==> exists j :: 1 <= j < |parts| && FieldName(parts[j]) == HttpOnlyAttr
  {
    var parts := Split(header, ';');
    var ts := AttrParts(parts);
    assert Named(header);
    assert ParseAttributes(ts, now, parseTime).Ok?;
    HttpOnlyIff(ts, now, parseTime);
    AttrPartsNamed(parts, HttpOnlyAttr);
  }

  /** A header with one attribute part, and that part `Secure` (such as
      `a=b; Secure`, in any case, padded or with a value), gives a Secure
      session cookie that is not HttpOnly, under the lower-cased request
      host and the default path. */
  lemma SecureOnly(uri: Uri, header: string, now: int, parseTime: string -> Option<int>, i: nat)
    requires !IsBlank(header) && |Split(header, ';')| == 2
    requires var first := FirstField(header);
             IndexOf(first, '=') == Some(i) && Strip(first[..i]) != []
    requires FieldName(Split(header, ';')[1]) == SecureAttr
    ensures var r := ParseSetCookie(uri, header, now, parseTime);
            var first := FirstField(header);
            r.Ok? && r.value.Some?
            && r.value.value.name == Strip(first[..i]) && r.value.value.value == Some(Strip(first[i + 1..]))
            && r.value.value.domain == (if uri.host.Some? then Some(Lower(uri.host.value)) else None)
            && r.value.value.path == DefaultPath(uri.path)
            && r.value.value.expires.None? && r.value.value.secure && !r.value.value.httpOnly
  {
    var parts := Split(header, ';');
    var a := NoAttrs.(secure := true);
    assert Named(header);
    OnePartAttributes(parts, now, parseTime, a);
    var r := ParseSetCookie(uri, header, now, parseTime);
    assert FromAttributes(r.value.value, a, uri);
  }

  /** `name=value;attr` with `attr` naming `Secure` is a secure, session-only
      cookie on the request host and default path, named and valued by the
      stripped text on either side of the "=". */
  lemma SecurePair(uri: Uri, name: string, value: string, attr: string, now: int, parseTime: string -> Option<int>)
    requires '=' !in name && ';' !in name && ';' !in value && ';' !in attr
    requires Strip(name) != [] && FieldName(attr) == SecureAttr
    ensures ParseSetCookie(uri, name + "=" + value + ";" + attr, now, parseTime)
            == Ok(Some(Cookie(Strip(name), Some(Strip(value)),
                              if uri.host.Some? then Some(Lower(uri.host.value)) else None,
                              DefaultPath(uri.path), None, true, false)))
  {
    var i := PairHeader(name, value, attr);
    SecureOnly(uri, name + "=" + value + ";" + attr, now, parseTime, i);
  }

  /** The header `name=value;attr` splits into its pair and `attr`, and its
      first field splits at "=" into what strips to `name` and `value`. */
  lemma PairHeader(name: string, value: string, attr: string) returns (i: nat)
    requires '=' !in name && ';' !in name && ';' !in value && ';' !in attr
    ensures var header := name + "=" + value + ";" + attr;
            var first := FirstField(header);
            && !IsBlank(header)
            && Split(header, ';') == [name + "=" + value, attr]
            && IndexOf(first, '=') == Some(i)
            && Strip(first[..i]) == Strip(name)
            && Strip(first[i + 1..]) == Strip(value)
  {
    var x := name + ['='] + value;
    var header := x + [';'] + attr;
    assert name + "=" + value + ";" + attr == header;
    assert Split(header, ';') == [x, attr] by {
      assert ';' !in x;
      SplitCons(x, attr, ';');
      assert Split(attr, ';') == [attr];
    }
    assert !IsBlank(header) by {
      assert header[|name|] == '=';
    }
    assert FirstField(header) == Strip(x);
    StripAround(name, value, '=');
    i := IndexOf(Strip(x), '=').value;
  }

  /** The attributes of a header with one attribute part are those the one
      loop step sets. */
  lemma OnePartAttributes(parts: seq<string>, now: int, parseTime: string -> Option<int>, a: Attrs)
    requires |parts| == 2
    requires AttrStep(NoAttrs, FieldAttr(parts[1]), now, parseTime) == Ok(a)
    ensures ParseAttributes(AttrParts(parts), now, parseTime) == Ok(a)
  {
    var ts := AttrParts(parts);
    assert ts == [FieldAttr(parts[1])];
    assert ts[..0] == [];
  }

  // ---------------------------------------------------------------------------
  // Choosing the header values

  /** A header value as the jar can receive it: one string, a list whose
      entries may be `nil`, or an explicit `nil`. */
  datatype HeaderValue = Text(s: string) | List(items: seq<Option<string>>) | Nil

  type RawHeaders = Assoc<string, HeaderValue>

  /** `headers['Set-Cookie'] || headers['set-cookie'] || []`. */
  function SetCookieValue(headers: RawHeaders): (v: HeaderValue)
    ensures v != Nil
  {
    var upper := Get(headers, "Set-Cookie");
    var lower := Get(headers, "set-cookie");
    if upper.Some? && upper.value != Nil then upper.value
    else if lower.Some? && lower.value != Nil then lower.value
    else List([])
  }

  /** An entry `compact.reject(&:empty?)` keeps: present and not empty. */
  predicate Present(x: Option<string>) {
    x.Some? && x.value != []
  }

  /** `compact.reject(&:empty?)`, keeping order. */
  function Compact(items: seq<Option<string>>): (r: seq<string>)
    ensures |r| <= |items|
    ensures forall k :: 0 <= k < |r| ==> r[k] != [] && Some(r[k]) in items
    ensures forall k :: 0 <= k < |items| && Present(items[k]) ==> items[k].value in r
    decreases |items|
  {
    if |items| == 0 then []
    else
      var init := Compact(items[..|items| - 1]);
      var last := items[|items| - 1];
      assert forall k :: 0 <= k < |items| - 1 ==> items[..|items| - 1][k] == items[k];
      if Present(last) then init + [last.value] else init
  }

  /** One entry is kept as itself or dropped. */
  lemma CompactSingle(x: Option<string>)
    ensures Compact([x]) == if Present(x) then [x.value] else []
  {
    assert [x][..0] == [];
  }

  /** Compacting works piece by piece: the kept entries of a concatenation
      are those of the first part followed by those of the second, so order
      and repetitions survive. */
  lemma {:induction false} CompactAppend(a: seq<Option<string>>, b: seq<Option<string>>)
    ensures Compact(a + b) == Compact(a) + Compact(b)
    decreases |b|
  {
    if |b| == 0 {
      assert a + b == a;
    } else {
      var init := b[..|b| - 1];
      assert (a + b)[..|a + b| - 1] == a + init;
      assert (a + b)[|a + b| - 1] == b[|b| - 1];
      CompactAppend(a, init);
    }
  }

  /** A list with no dropped entries comes through unchanged. */
  lemma {:induction false} CompactAllKept(xs: seq<string>)
    requires forall k :: 0 <= k < |xs| ==> xs[k] != []
    ensures Compact(seq(|xs|, k requires 0 <= k < |xs| => Some(xs[k]))) == xs
    decreases |xs|
  {
    if |xs| > 0 {
      var items := seq(|xs|, k requires 0 <= k < |xs| => Some(xs[k]));
      var init := xs[..|xs| - 1];
      assert items[..|items| - 1] == seq(|init|, k requires 0 <= k < |init| => Some(init[k]));
      CompactAllKept(init);
      assert Present(items[|items| - 1]);
      assert Compact(items) == Compact(items[..|items| - 1]) + [xs[|xs| - 1]];
      assert xs == init + [xs[|xs| - 1]];
    }
  }

  /** `extract_set_cookie_headers`: the non-nil, non-empty Set-Cookie values.
      A single String is a one-element list; a list keeps its order. */
  function SetCookieHeaders(headers: RawHeaders): (r: seq<string>)
    ensures forall k :: 0 <= k < |r| ==> r[k] != []
    ensures SetCookieValue(headers).Text? ==>
              r == if SetCookieValue(headers).s == [] then [] else [SetCookieValue(headers).s]
    ensures SetCookieValue(headers).List? ==> r == Compact(SetCookieValue(headers).items)
  {
    match SetCookieValue(headers)
    case Text(s) => CompactSingle(Some(s)); Compact([Some(s)])
    case List(items) => Compact(items)
  }

  lemma SetCookieHeadersExamples(headers: RawHeaders)
    ensures SetCookieHeaders([]) == []
    ensures SetCookieHeaders([("Set-Cookie", Text("a=1"))]) == ["a=1"]
    ensures SetCookieHeaders([("set-cookie", List([Some("a=1"), None, Some(""), Some("b=2")]))]) == ["a=1", "b=2"]
    ensures SetCookieHeaders([("Set-Cookie", Text(""))]) == []
  {
    var items := [Some("a=1"), None, Some(""), Some("b=2")];
    assert "set-cookie"[0] != "Set-Cookie"[0];
    assert SetCookieValue([("set-cookie", List(items))]) == List(items);
    assert items[..1][..0] == [];
    assert Compact(items[..1]) == ["a=1"];
    assert items[..2][..1] == items[..1];
    assert Compact(items[..2]) == ["a=1"];
    assert items[..3][..2] == items[..2];
    assert Compact(items[..3]) == ["a=1"];
    assert items[..3] == items[..|items| - 1];
  }
}
