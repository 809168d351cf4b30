/** The handful of Ruby `String` operations the client relies on, over
    `string = seq<char>`: `strip`, ASCII `downcase`, `start_with?`/`end_with?`,
    `index`/`rindex`, `split` on one character, `join`, `Integer#to_s` and
    `String#to_i`. */
module Strings {
  import opened Wrappers

  // ---------------------------------------------------------------------------
  // Whitespace and strip

  /** The characters Ruby's `String#strip` removes: NUL, tab, line feed,
      vertical tab, form feed, carriage return and space. */
  predicate IsSpace(c: char) {
    c == ' ' || c == '\t' || c == '\n' || c == '\U{B}' || c == '\U{C}' || c == '\r' || c == '\0'
  }

  predicate IsBlank(s: string) {
    forall i :: 0 <= i < |s| ==> IsSpace(s[i])
  }

  /** The number of whitespace characters `s` starts with. */
  function LeadingSpaces(s: string): (n: nat)
    ensures n <= |s|
    ensures forall k :: 0 <= k < n ==> IsSpace(s[k])
    ensures n < |s| ==> !IsSpace(s[n])
    decreases |s|
  {
    if |s| > 0 && IsSpace(s[0]) then
      var m := LeadingSpaces(s[1..]);
      assert forall k :: 1 <= k < |s| ==> s[k] == s[1..][k - 1];
      1 + m
    else 0
  }

  /** The number of whitespace characters `s` ends with. */
  function TrailingSpaces(s: string): (n: nat)
    ensures n <= |s|
    ensures forall k :: |s| - n <= k < |s| ==> IsSpace(s[k])
    ensures n < |s| ==> !IsSpace(s[|s| - 1 - n])
    decreases |s|
  {
    if |s| > 0 && IsSpace(s[|s| - 1]) then
      var m := TrailingSpaces(s[..|s| - 1]);
      assert forall k :: 0 <= k < |s| - 1 ==> s[k] == s[..|s| - 1][k];
      1 + m
    else 0
  }

  /** The leading whitespace is the one run of spaces followed by a
      non-space or the end. */
  lemma LeadingUnique(s: string, n: nat)
    requires n <= |s| && forall k :: 0 <= k < n ==> IsSpace(s[k])
    requires n < |s| ==> !IsSpace(s[n])
    ensures LeadingSpaces(s) == n
  {
  }

  lemma TrailingUnique(s: string, n: nat)
    requires n <= |s| && forall k :: |s| - n <= k < |s| ==> IsSpace(s[k])
    requires n < |s| ==> !IsSpace(s[|s| - 1 - n])
    ensures TrailingSpaces(s) == n
  {
  }

  /** `rstrip`: the longest prefix of `s` that does not end with whitespace. */
  function TrimRight(s: string): (r: string)
    ensures |r| <= |s| && r == s[..|r|]
    ensures forall k :: |r| <= k < |s| ==> IsSpace(s[k])
    ensures |r| > 0 ==> !IsSpace(r[|r| - 1])
  {
    s[..|s| - TrailingSpaces(s)]
  }

  /** `strip`: `s` without its leading and trailing whitespace. */
  function Strip(s: string): (r: string)
    ensures |r| <= |s|
    ensures |r| > 0 ==> !IsSpace(r[0]) && !IsSpace(r[|r| - 1])
    ensures r == [] <==> IsBlank(s)
  {
    var l := s[LeadingSpaces(s)..];
    assert |l| > 0 ==> l[0] == s[LeadingSpaces(s)];
    TrimRight(l)
  }

  /** `strip` keeps a slice of the string with blank text on either side. */
  lemma StripParts(s: string) returns (i: nat, j: nat)
    ensures i <= j <= |s| && Strip(s) == s[i..j]
    ensures IsBlank(s[..i]) && IsBlank(s[j..])
  {
    i := LeadingSpaces(s);
    var l := s[i..];
    var t := TrailingSpaces(l);
    j := |s| - t;
    assert Strip(s) == l[..|l| - t] == s[i..j];
    forall k | 0 <= k < i ensures IsSpace(s[..i][k]) {
      assert s[..i][k] == s[k];
    }
    forall k | 0 <= k < t ensures IsSpace(s[j..][k]) {
      assert s[j..][k] == l[|l| - t + k];
    }
  }

  /** `strip` is determined by any split of the string into blank padding
      around a core that does not start or end with whitespace. */
  lemma StripUnique(x: string, u: string, r: string, w: string)
    requires x == u + r + w && IsBlank(u) && IsBlank(w)
    requires |r| > 0 ==> !IsSpace(r[0]) && !IsSpace(r[|r| - 1])
    ensures Strip(x) == r
  {
    if |r| > 0 {
      assert forall k :: 0 <= k < |u| ==> x[k] == u[k];
      assert x[|u|] == r[0];
      LeadingUnique(x, |u|);
      var l := x[|u|..];
      assert l == r + w;
      assert forall k :: |r| <= k < |l| ==> l[k] == w[k - |r|];
      assert l[|r| - 1] == r[|r| - 1];
      TrailingUnique(l, |w|);
      assert l[..|r|] == r;
    } else {
      assert forall k :: 0 <= k < |x| ==> x[k] == if k < |u| then u[k] else w[k - |u|];
    }
  }

  /** `strip` only removes characters, so it adds none. */
  lemma StripKeepsOut(s: string, c: char)
    requires c !in s
    ensures c !in Strip(s)
  {
    var i, j := StripParts(s);
    assert forall k :: 0 <= k < j - i ==> s[i..j][k] == s[i + k];
  }

  /** A string with no whitespace at either end is its own `strip`. */
  lemma StripFixed(s: string)
    requires |s| > 0 ==> !IsSpace(s[0]) && !IsSpace(s[|s| - 1])
    ensures Strip(s) == s
  {
    assert IsBlank([]);
    assert s == [] + s + [];
    StripUnique(s, [], s, []);
  }

  lemma StripIdempotent(s: string)
    ensures Strip(Strip(s)) == Strip(s)
  {
    StripFixed(Strip(s));
  }

  lemma BlankConcat(a: string, b: string)
    requires IsBlank(a) && IsBlank(b)
    ensures IsBlank(a + b)
  {
    assert forall k :: 0 <= k < |a + b| ==> (a + b)[k] == if k < |a| then a[k] else b[k - |a|];
  }

  lemma Regroup(pre: string, s: string, post: string, i: nat, j: nat)
    requires i <= j <= |s|
    ensures pre + s + post == (pre + s[..i]) + s[i..j] + (s[j..] + post)
  {
    assert s == s[..i] + s[i..j] + s[j..];
  }

  /** Whitespace added around a string does not change its `strip`. */
  lemma StripPadded(pre: string, s: string, post: string)
    requires IsBlank(pre) && IsBlank(post)
    ensures Strip(pre + s + post) == Strip(s)
  {
    var i, j := StripParts(s);
    BlankConcat(pre, s[..i]);
    BlankConcat(s[j..], post);
    Regroup(pre, s, post, i, j);
    StripUnique(pre + s + post, pre + s[..i], s[i..j], s[j..] + post);
  }

  /** Behind a prefix that starts and ends without whitespace, `strip` only
      trims the end of the rest. */
  lemma StripPrefixed(p: string, x: string)
    requires |p| > 0 && !IsSpace(p[0]) && !IsSpace(p[|p| - 1])
    ensures Strip(p + x) == p + TrimRight(x)
  {
    var t := TrimRight(x);
    var tail := x[|t|..];
    assert IsBlank(tail) by {
      assert forall k :: 0 <= k < |tail| ==> tail[k] == x[|t| + k];
    }
    assert IsBlank([]);
    assert x == t + tail;
    assert p + x == [] + (p + t) + tail;
    StripUnique(p + x, [], p + t, tail);
  }

  // ---------------------------------------------------------------------------
  // Case

  function LowerChar(c: char): char {
    if 'A' <= c <= 'Z' then (c as int + 32) as char else c
  }

  predicate IsLower(s: string) {
    forall i :: 0 <= i < |s| ==> !('A' <= s[i] <= 'Z')
  }

  /** `downcase`, restricted to ASCII letters. */
  function Lower(s: string): (r: string)
    ensures |r| == |s|
    ensures forall i :: 0 <= i < |s| ==> r[i] == LowerChar(s[i])
    ensures IsLower(r)
  {
    seq(|s|, i requires 0 <= i < |s| => LowerChar(s[i]))
  }

  lemma LowerIdempotent(s: string)
    ensures Lower(Lower(s)) == Lower(s)
  {
  }

  // ---------------------------------------------------------------------------
  // Prefixes, suffixes, searching

  predicate StartsWith(s: string, p: string) {
    |p| <= |s| && s[..|p|] == p
  }

  predicate EndsWith(s: string, p: string) {
    |p| <= |s| && s[|s| - |p|..] == p
  }

  /** `index(c)`: the first position of `c` in `s`. */
  function IndexOf(s: string, c: char): (r: Option<nat>)
    ensures r.Some? ==> r.value < |s| && s[r.value] == c && c !in s[..r.value]
    ensures r.None? <==> c !in s
    decreases |s|
  {
    if |s| == 0 then None
    else if s[0] == c then Some(0)
    else
      match IndexOf(s[1..], c)
      case None => None
      case Some(i) =>
        assert s[..i + 1] == [s[0]] + s[1..][..i];
        Some(i + 1)
  }

  /** The first occurrence of `c` is what `index` finds. */
  lemma {:induction false} IndexOfFirst(s: string, c: char, k: nat)
    requires k < |s| && s[k] == c && c !in s[..k]
    ensures IndexOf(s, c) == Some(k)
    decreases k
  {
    if k > 0 {
      assert s[0] == s[..k][0];
      assert s[1..][..k - 1] == s[1..k];
      assert s[1..k] == s[..k][1..];
      IndexOfFirst(s[1..], c, k - 1);
    }
  }

  /** `rindex(c)`: the last position of `c` in `s`. */
  function LastIndexOf(s: string, c: char): (r: Option<nat>)
    ensures r.Some? ==> r.value < |s| && s[r.value] == c && c !in s[r.value + 1..]
    ensures r.None? <==> c !in s
    decreases |s|
  {
    if |s| == 0 then None
    else if s[|s| - 1] == c then Some(|s| - 1)
    else
      match LastIndexOf(s[..|s| - 1], c)
      case None => None
      case Some(i) =>
        assert s[i + 1..] == s[..|s| - 1][i + 1..] + [s[|s| - 1]];
        Some(i)
  }

  // ---------------------------------------------------------------------------
  // split / join

  /** `split(c)` keeping every field, including empty trailing ones. */
  function Split(s: string, c: char): (r: seq<string>)
    ensures |r| >= 1
    ensures forall k :: 0 <= k < |r| ==> c !in r[k]
    decreases |s|
  {
    match IndexOf(s, c)
    case None => [s]
    case Some(i) => [s[..i]] + Split(s[i + 1..], c)
  }

  /** The fields joined back with the separator `sep` between consecutive ones. */
  function Join(parts: seq<string>, sep: string): string
    decreases |parts|
  {
    if |parts| == 0 then []
    else if |parts| == 1 then parts[0]
    else parts[0] + sep + Join(parts[1..], sep)
  }

  lemma {:induction false} SplitJoin(s: string, c: char)
    ensures Join(Split(s, c), [c]) == s
    decreases |s|
  {
    match IndexOf(s, c)
    case None =>
    case Some(i) =>
      var rest := Split(s[i + 1..], c);
      SplitJoin(s[i + 1..], c);
      assert Split(s, c) == [s[..i]] + rest;
      assert s == s[..i] + [c] + s[i + 1..];
  }

  /** Text up to the first `c` is the first field; the rest is split on. */
  lemma SplitCons(a: string, b: string, c: char)
    requires c !in a
    ensures Split(a + [c] + b, c) == [a] + Split(b, c)
  {
    var s := a + [c] + b;
    assert s[..|a|] == a;
    IndexOfFirst(s, c, |a|);
    assert s[|a| + 1..] == b;
  }

  /** Splitting fields joined by `[c] + pad` gives them back, each after the
      first behind the padding, when `c` occurs in no field and not in the
      padding. `pre` is text already in front of the first field. */
  lemma {:induction false} SplitJoined(pre: string, parts: seq<string>, c: char, pad: string)
    requires |parts| >= 1 && c !in pre && c !in pad
    requires forall k :: 0 <= k < |parts| ==> c !in parts[k]
    ensures var r := Split(pre + Join(parts, [c] + pad), c);
            |r| == |parts| && r[0] == pre + parts[0]
            && forall k :: 1 <= k < |parts| ==> r[k] == pad + parts[k]
    decreases |parts|
  {
    var sep := [c] + pad;
    if |parts| == 1 {
      assert c !in pre + parts[0];
    } else {
      var rest := Join(parts[1..], sep);
      assert pre + Join(parts, sep) == (pre + parts[0]) + [c] + (pad + rest);
      SplitCons(pre + parts[0], pad + rest, c);
      SplitJoined(pad, parts[1..], c, pad);
      var tail := Split(pad + rest, c);
      assert forall k :: 1 <= k < |parts| ==> ([pre + parts[0]] + tail)[k] == tail[k - 1];
    }
  }

  /** Fields joined by "; " and split again at ";" strip back to themselves
      when none holds a ";" or whitespace at its ends. */
  lemma JoinedFields(parts: seq<string>)
    requires |parts| >= 1
    requires forall k :: 0 <= k < |parts| ==> ';' !in parts[k] && Strip(parts[k]) == parts[k]
    ensures var r := Split(Join(parts, "; "), ';');
            |r| == |parts| && forall k :: 0 <= k < |parts| ==> Strip(r[k]) == parts[k]
  {
    var r := Split(Join(parts, "; "), ';');
    JoinedSplit(parts);
    forall k | 1 <= k < |parts|
      ensures Strip(r[k]) == parts[k]
    {
      StripSpaced(" ", parts[k]);
    }
  }

  /** Fields joined by "; " and split again at ";" come back, each after the
      first behind one space, when none holds a ";". */
  lemma JoinedSplit(parts: seq<string>)
    requires |parts| >= 1
    requires forall k :: 0 <= k < |parts| ==> ';' !in parts[k]
    ensures var r := Split(Join(parts, "; "), ';');
            |r| == |parts| && r[0] == parts[0] && forall k :: 1 <= k < |parts| ==> r[k] == " " + parts[k]
  {
    assert "; " == [';'] + " ";
    assert ';' !in " ";
    SplitJoined([], parts, ';', " ");
    assert [] + Join(parts, "; ") == Join(parts, "; ");
    assert [] + parts[0] == parts[0];
  }

  /** Around a separator that is not whitespace, `strip` of `x c y` still has
      `c` first where `x` ends, and the two sides strip back to `x` and `y`. */
  lemma StripAround(x: string, y: string, c: char)
    requires c !in x && !IsSpace(c)
    ensures var f := Strip(x + [c] + y);
            IndexOf(f, c).Some?
            && Strip(f[..IndexOf(f, c).value]) == Strip(x)
            && Strip(f[IndexOf(f, c).value + 1..]) == Strip(y)
  {
    var s := x + [c] + y;
    var i, j := StripParts(s);
    AroundBounds(x, y, c, i, j);
    AroundSlices(x, y, c, i, j);
    var f, k := s[i..j], |x| - i;
    IndexOfFirst(f, c, k);
    assert Strip(f[..k]) == Strip(x) by {
      StripSpaced(s[..i], x[i..]);
    }
    assert Strip(f[k + 1..]) == Strip(y) by {
      assert IsBlank([]);
      StripPadded([], s[|x| + 1..j], s[j..]);
    }
  }

  /** A separator that is not whitespace lies inside what `strip` keeps. */
  lemma AroundBounds(x: string, y: string, c: char, i: nat, j: nat)
    requires !IsSpace(c) && i <= j <= |x + [c] + y|
    requires IsBlank((x + [c] + y)[..i]) && IsBlank((x + [c] + y)[j..])
    ensures i <= |x| < j
  {
    var s := x + [c] + y;
    assert s[|x|] == c;
    BlankLacks(s[..i], c);
    BlankLacks(s[j..], c);
  }

  /** Blank text holds no character that is not whitespace. */
  lemma BlankLacks(s: string, c: char)
    requires IsBlank(s) && !IsSpace(c)
    ensures c !in s
  {
  }

  /** The pieces of `x c y` on either side of the separator, cut at `i` and `j`. */
  lemma AroundSlices(x: string, y: string, c: char, i: nat, j: nat)
    requires i <= |x| < j <= |x + [c] + y|
    ensures var s := x + [c] + y;
            && s[i..j][|x| - i] == c
            && s[i..j][..|x| - i] == x[i..]
            && s[i..j][|x| - i + 1..] == s[|x| + 1..j]
            && x == s[..i] + x[i..]
            && y == [] + s[|x| + 1..j] + s[j..]
  {
    var s := x + [c] + y;
    assert s[|x| + 1..] == y;
  }

  /** Blank text in front does not change a string's `strip`. */
  lemma StripSpaced(pad: string, x: string)
    requires IsBlank(pad)
    ensures Strip(pad + x) == Strip(x)
  {
    assert IsBlank([]);
    assert pad + x == pad + x + [];
    StripPadded(pad, x, []);
  }

  // ---------------------------------------------------------------------------
  // Decimal digits

  predicate IsDigit(c: char) {
    '0' <= c <= '9'
  }

  /** Matches the regular expression `\A\d+\z`. */
  predicate IsDigits(s: string) {
    |s| > 0 && forall i :: 0 <= i < |s| ==> IsDigit(s[i])
  }

  function DigitValue(c: char): nat
    requires IsDigit(c)
  {
    c as int - '0' as int
  }

  function DigitChar(d: nat): (c: char)
    requires d < 10
    ensures IsDigit(c) && DigitValue(c) == d
  {
    ('0' as int + d) as char
  }

  /** Left-to-right decimal accumulation: `acc` followed by the digits of `s`. */
  function DigitsFrom(s: string, acc: nat): nat
    requires forall i :: 0 <= i < |s| ==> IsDigit(s[i])
    decreases |s|
  {
    if |s| == 0 then acc else DigitsFrom(s[1..], acc * 10 + DigitValue(s[0]))
  }

  function DigitsValue(s: string): nat
    requires IsDigits(s)
  {
    DigitsFrom(s, 0)
  }

  lemma {:induction false} DigitsFromSnoc(s: string, x: char, acc: nat)
    requires forall i :: 0 <= i < |s| ==> IsDigit(s[i])
    requires IsDigit(x)
    ensures forall i :: 0 <= i < |s + [x]| ==> IsDigit((s + [x])[i])
    ensures DigitsFrom(s + [x], acc) == DigitsFrom(s, acc) * 10 + DigitValue(x)
    decreases |s|
  {
    if |s| > 0 {
      assert (s + [x])[1..] == s[1..] + [x];
      DigitsFromSnoc(s[1..], x, acc * 10 + DigitValue(s[0]));
    }
  }

  /** `k` zero digits. */
  function Zeros(k: nat): (z: string)
    ensures |z| == k && forall i :: 0 <= i < k ==> z[i] == '0'
  {
    seq(k, _ => '0')
  }

  /** Zeros in front of a number do not change its value, as `\A\d+\z`
      followed by `to_i` reads it. */
  lemma {:induction false} LeadingZeros(k: nat, s: string)
    requires IsDigits(s)
    ensures IsDigits(Zeros(k) + s)
    ensures DigitsValue(Zeros(k) + s) == DigitsValue(s)
    decreases k
  {
    var t := Zeros(k) + s;
    assert forall i :: 0 <= i < |t| ==> IsDigit(t[i]) by {
      forall i | 0 <= i < |t| ensures IsDigit(t[i]) {
        if i >= k {
          assert t[i] == s[i - k];
        }
      }
    }
    if k > 0 {
      LeadingZeros(k - 1, s);
      assert t[1..] == Zeros(k - 1) + s;
      assert DigitsFrom(t, 0) == DigitsFrom(t[1..], 0 * 10 + DigitValue(t[0]));
    } else {
      assert t == s;
    }
  }

  /** `Integer#to_s` for non-negative integers. */
  function NatToString(n: nat): (r: string)
    ensures IsDigits(r)
    decreases n
  {
    if n < 10 then [DigitChar(n)] else NatToString(n / 10) + [DigitChar(n % 10)]
  }

  /** Printing a number in decimal and reading it back gives the number. */
  lemma {:induction false} DigitsRoundTrip(n: nat)
    ensures DigitsValue(NatToString(n)) == n
    decreases n
  {
    if n >= 10 {
      DigitsRoundTrip(n / 10);
      DigitsFromSnoc(NatToString(n / 10), DigitChar(n % 10), 0);
      assert NatToString(n) == NatToString(n / 10) + [DigitChar(n % 10)];
    } else {
      var t := [DigitChar(n)];
      assert NatToString(n) == t;
      assert t[1..] == [];
      assert DigitsFrom(t, 0) == DigitsFrom(t[1..], DigitValue(t[0]));
    }
  }

  // ---------------------------------------------------------------------------
  // String#to_i

  /** The whitespace `String#to_i` skips before the number. */
  predicate IsNumberSpace(c: char) {
    c == ' ' || c == '\t' || c == '\n' || c == '\U{B}' || c == '\U{C}' || c == '\r'
  }

  /** Digits following a digit: further digits, or one underscore between two digits. */
  function DigitRun(s: string, acc: nat): nat
    decreases |s|
  {
    if |s| == 0 then acc
    else if IsDigit(s[0]) then DigitRun(s[1..], acc * 10 + DigitValue(s[0]))
    else if s[0] == '_' && |s| > 1 && IsDigit(s[1]) then DigitRun(s[2..], acc * 10 + DigitValue(s[1]))
    else acc
  }

  function UnsignedToI(s: string): nat {
    if |s| > 0 && IsDigit(s[0]) then DigitRun(s[1..], DigitValue(s[0])) else 0
  }

  /** `String#to_i`: leading whitespace, an optional sign, then a decimal run;
      0 when no digits follow. */
  function RubyToI(s: string): int
    decreases |s|
  {
    if |s| > 0 && IsNumberSpace(s[0]) then RubyToI(s[1..])
    else if |s| > 0 && s[0] == '-' then 0 - UnsignedToI(s[1..]) as int
    else if |s| > 0 && s[0] == '+' then UnsignedToI(s[1..])
    else UnsignedToI(s)
  }

  lemma {:induction false} DigitRunOfDigits(s: string, acc: nat)
    requires forall i :: 0 <= i < |s| ==> IsDigit(s[i])
    ensures DigitRun(s, acc) == DigitsFrom(s, acc)
    decreases |s|
  {
    if |s| > 0 {
      DigitRunOfDigits(s[1..], acc * 10 + DigitValue(s[0]));
    }
  }

  /** On a plain digit string, with or without a sign, `to_i` reads its decimal value. */
  lemma ToIOfDigits(d: string)
    requires IsDigits(d)
    ensures RubyToI(d) == DigitsValue(d)
    ensures RubyToI("-" + d) == 0 - DigitsValue(d) as int
    ensures RubyToI("+" + d) == DigitsValue(d)
  {
    DigitRunOfDigits(d[1..], DigitValue(d[0]));
    assert ("-" + d)[1..] == d;
    assert ("+" + d)[1..] == d;
  }
}
