/** `UrlUtils`: resolving an `href` against a page, upgrading same-host links
    to https, and recognising links to documents that cannot be feeds.
    `URI.parse`/`URI.join` and host extraction are parameters. */
module UrlUtils {
  import opened Wrappers
  import opened Strings

  // ---------------------------------------------------------------------------
  // absolutize

  /** The trimmed `href` values `absolutize` answers with `nil` before
      joining: empty, a fragment, or a `javascript:`, `data:` or `mailto:`
      link in any case. */
  predicate Rejected(cleaned: string) {
    cleaned == [] || cleaned[0] == '#'
    || StartsWith(Lower(cleaned), "javascript:")
    || StartsWith(Lower(cleaned), "data:")
    || StartsWith(Lower(cleaned), "mailto:")
  }

  /** `absolutize(base, href)`. `join(base, cleaned)` is
      `URI.join(URI.parse(base), cleaned).to_s`, `None` when either raises
      `URI::Error`. */
  function Absolutize(base: string, href: Option<string>, join: (string, string) -> Option<string>): (r: Option<string>)
    ensures href.None? ==> r.None?
    ensures r.Some? ==> href.Some? && !Rejected(Strip(href.value)) && join(base, Strip(href.value)) == r
    ensures href.Some? && !Rejected(Strip(href.value)) ==> r == join(base, Strip(href.value))
  {
    match href
    case None => None
    case Some(h) =>
      var cleaned := Strip(h);
      if Rejected(cleaned) then None else join(base, cleaned)
  }

  /** Whitespace around an `href` makes no difference. */
  lemma AbsolutizePadding(base: string, pre: string, h: string, post: string, join: (string, string) -> Option<string>)
    requires IsBlank(pre) && IsBlank(post)
    ensures Absolutize(base, Some(pre + h + post), join) == Absolutize(base, Some(h), join)
  {
    StripPadded(pre, h, post);
  }

  /** Stripping never removes a non-space character, so a prefix ending in
      one survives `strip` of a string that starts without whitespace. */
  lemma StripKeepsPrefix(p: string, rest: string)
    requires |p| > 0 && !IsSpace(p[0]) && !IsSpace(p[|p| - 1])
    ensures StartsWith(Strip(p + rest), p)
  {
    StripPrefixed(p, rest);
    assert (p + TrimRight(rest))[..|p|] == p;
  }

  /** A script link is rejected whatever the case of its scheme. */
  lemma AbsolutizeRejectsScript(base: string, rest: string, join: (string, string) -> Option<string>)
    ensures Absolutize(base, Some("JavaScript:" + rest), join).None?
  {
    var p := "JavaScript:";
    StripKeepsPrefix(p, rest);
    LowerKeepsPrefix(Strip(p + rest), p);
    assert Lower(p) == "javascript:";
  }

  /** Lower-casing a string lower-cases its prefix. */
  lemma LowerKeepsPrefix(s: string, p: string)
    requires StartsWith(s, p)
    ensures StartsWith(Lower(s), Lower(p))
  {
    assert Lower(s)[..|p|] == Lower(p);
  }

  // ---------------------------------------------------------------------------
  // enforce_https

  /** When `enforce_https` rewrites the candidate: it is an http URL, the
      base is an https URL, and both have the same host. */
  predicate Upgrades(base: Option<string>, candidate: string, host: string -> Option<string>) {
    StartsWith(candidate, "http://")
    && base.Some? && StartsWith(base.value, "https://")
    && host(candidate).Some? && host(base.value).Some? && host(candidate) == host(base.value)
  }

  /** `enforce_https(base, candidate)`; `host(url)` is `parse_host(url)`. */
  function EnforceHttps(base: Option<string>, candidate: Option<string>, host: string -> Option<string>): (r: Option<string>)
    ensures candidate.None? ==> r.None?
    ensures candidate.Some? ==> r.Some? && (r == candidate <==> !Upgrades(base, candidate.value, host))
    ensures candidate.Some? && Upgrades(base, candidate.value, host) ==>
              r.value == "https:" + candidate.value[5..] && StartsWith(r.value, "https://")
  {
    match candidate
    case None => None
    case Some(c) =>
      if !(StartsWith(c, "http://") || StartsWith(c, "https://")) then candidate
      else if StartsWith(c, "https://") then
        assert c[4] == "https://"[4];
        candidate
      else if base.None? || !StartsWith(base.value, "https://") then candidate
      else if host(c).None? || host(base.value).None? || host(c) != host(base.value) then candidate
      else
        var u := "https:" + c[5..];
        assert c[5] == "http://"[5] && c[6] == "http://"[6];
        assert u[..8] == "https://" by {
          assert u[6] == c[5] && u[7] == c[6];
        }
        assert u != c by { assert u[4] != c[4]; }
        Some(u)
  }

  /** An upgraded URL is already https, so a second pass changes nothing. */
  lemma EnforceHttpsIdempotent(base: Option<string>, candidate: Option<string>, host: string -> Option<string>)
    ensures EnforceHttps(base, EnforceHttps(base, candidate, host), host) == EnforceHttps(base, candidate, host)
  {
    var r := EnforceHttps(base, candidate, host);
    if r.Some? && r != candidate {
      assert !Upgrades(base, r.value, host) by {
        assert r.value[4] == 's';
      }
    }
  }

  // ---------------------------------------------------------------------------
  // non_feed_url?

  /** The file extensions of `/\.(pdf|docx?|xlsx?|pptx?|zip)(\?|$)/i`, one per alternative. */
  const Extensions: seq<string> := ["pdf", "doc", "docx", "xls", "xlsx", "ppt", "pptx", "zip"]

  /** The two spellings of `%r{DocumentCenter/(View|Download)/}i`, lower-cased. */
  const DocumentCenterPaths: seq<string> := ["documentcenter/view/", "documentcenter/download/"]

  /** The lower-case word `w` occurs at position `j` of `s`, ignoring ASCII case. */
  predicate MatchesAt(s: string, j: nat, w: string) {
    j + |w| <= |s| && Lower(s[j..j + |w|]) == w
  }

  /** `(\?|$)`: a question mark, the end of the string, or a line break,
      where Ruby's `$` also matches. */
  predicate EndsSegment(s: string, j: nat) {
    j == |s| || (j < |s| && (s[j] == '?' || s[j] == '\n'))
  }

  /** Some word of `words` occurs at `j`, followed by a segment end when `anchored`. */
  predicate WordAt(s: string, j: nat, words: seq<string>, anchored: bool) {
    exists k :: 0 <= k < |words| && MatchesAt(s, j, words[k]) && (anchored ==> EndsSegment(s, j + |words[k]|))
  }

  /** One of the two patterns matches starting at position `i`. */
  predicate HitAt(s: string, i: nat) {
    (i < |s| && s[i] == '.' && WordAt(s, i + 1, Extensions, true))
    || WordAt(s, i, DocumentCenterPaths, false)
  }

  predicate NonFeed(url: string) {
    exists i :: 0 <= i <= |url| && HitAt(url, i)
  }

  /** `WordAt`, computed by trying the words from the last to the first. */
  function AnyWordAt(s: string, j: nat, words: seq<string>, anchored: bool): (b: bool)
    ensures b <==> WordAt(s, j, words, anchored)
    decreases |words|
  {
    if |words| == 0 then false
    else
      var w := words[|words| - 1];
      var init := words[..|words| - 1];
      assert forall k :: 0 <= k < |init| ==> init[k] == words[k];
      (MatchesAt(s, j, w) && (anchored ==> EndsSegment(s, j + |w|))) || AnyWordAt(s, j, init, anchored)
  }

  /** The left-to-right search a regular-expression engine performs, from position `i`. */
  function ScanFrom(s: string, i: nat): (b: bool)
    requires i <= |s|
    decreases |s| - i
  {
    if i == |s| then false
    else
      (s[i] == '.' && AnyWordAt(s, i + 1, Extensions, true))
      || AnyWordAt(s, i, DocumentCenterPaths, false)
      || ScanFrom(s, i + 1)
  }

  /** The scan from `i` succeeds exactly when a pattern matches at some position from `i` on. */
  lemma {:induction false} ScanFromMatches(s: string, i: nat)
    requires i <= |s|
    ensures ScanFrom(s, i) <==> exists k :: i <= k <= |s| && HitAt(s, k)
    decreases |s| - i
  {
    if i == |s| {
      NoHitAtEnd(s);
    } else {
      ScanFromMatches(s, i + 1);
      ScanStep(s, i);
      if ScanFrom(s, i) {
        if !HitAt(s, i) {
          var k :| i + 1 <= k <= |s| && HitAt(s, k);
        }
      } else {
        forall k | i <= k <= |s| ensures !HitAt(s, k) {
          if k > i {
            assert i + 1 <= k <= |s|;
          }
        }
      }
    }
  }

  /** Nothing matches at the very end of the string: every pattern needs a character. */
  lemma NoHitAtEnd(s: string)
    ensures !HitAt(s, |s|)
  {
    forall k | 0 <= k < |DocumentCenterPaths| ensures !MatchesAt(s, |s|, DocumentCenterPaths[k]) {
      assert |DocumentCenterPaths[k]| > 0;
    }
  }

  /** One step of the scan tries both patterns at `i`. */
  lemma ScanStep(s: string, i: nat)
    requires i < |s|
    ensures ScanFrom(s, i) == (HitAt(s, i) || ScanFrom(s, i + 1))
  {
    assert AnyWordAt(s, i + 1, Extensions, true) == WordAt(s, i + 1, Extensions, true);
    assert AnyWordAt(s, i, DocumentCenterPaths, false) == WordAt(s, i, DocumentCenterPaths, false);
  }

  /** `non_feed_url?(url)`. */
  function NonFeedUrl(url: Option<string>): (r: bool)
    ensures url.None? ==> !r
    ensures url.Some? ==> (r <==> NonFeed(url.value))
  {
    match url
    case None => false
    case Some(u) =>
      ScanFromMatches(u, 0);
      ScanFrom(u, 0)
  }

  /** An extension in upper case before a query string is recognised. */
  lemma UpperCaseExtension(prefix: string, query: string)
    ensures NonFeedUrl(Some(prefix + ".PDF?" + query))
  {
    var s := prefix + ".PDF?" + query;
    var i := |prefix|;
    assert s[i + 1..i + 4] == "PDF";
    assert Lower("PDF") == "pdf";
    assert MatchesAt(s, i + 1, Extensions[0]) && EndsSegment(s, i + 4);
    assert HitAt(s, i);
  }

  /** A longer extension that merely starts like a listed one is not recognised. */
  lemma ExtensionMustEnd(s: string, i: nat)
    requires i + 6 <= |s| && s[i..i + 6] == ".pdfxy"
    ensures !WordAt(s, i + 1, Extensions, true)
  {
    assert s[i + 1] == 'p' && s[i + 2] == 'd' && s[i + 4] == 'x' by {
      assert s[i + 1] == s[i..i + 6][1] && s[i + 2] == s[i..i + 6][2] && s[i + 4] == s[i..i + 6][4];
    }
    forall k | 0 <= k < |Extensions| && MatchesAt(s, i + 1, Extensions[k])
      ensures !EndsSegment(s, i + 1 + |Extensions[k]|)
    {
      var e := Extensions[k];
      var low := Lower(s[i + 1..i + 1 + |e|]);
      assert low[0] == LowerChar(s[i + 1]) == 'p';
      assert low[1] == LowerChar(s[i + 2]) == 'd';
      assert e == "pdf";
    }
  }

  /** Ruby's `$` also matches before a line break inside the string. */
  lemma LineBreakEndsExtension(prefix: string, rest: string)
    ensures NonFeedUrl(Some(prefix + ".zip\n" + rest))
  {
    var s := prefix + ".zip\n" + rest;
    var i := |prefix|;
    assert s[i + 1..i + 4] == "zip";
    assert Lower("zip") == "zip";
    assert MatchesAt(s, i + 1, Extensions[7]) && EndsSegment(s, i + 4);
    assert HitAt(s, i);
  }
}
