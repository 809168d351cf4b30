/** `ValueNormalizer.normalize_value`: trims strings and turns blank strings
    and empty collections into `nil`, leaving every other value alone. */
module ValueNormalizer {
  import opened Strings

  /** The Ruby values a scraped field can hold. */
  datatype Value =
    | Nil
    | Str(s: string)
    | Sym(name: string)                  // a Symbol, which answers `empty?`
    | Arr(items: seq<Value>)
    | Hash(entries: seq<(Value, Value)>)
    | Int(i: int)
    | Float(f: real)
    | Bool(b: bool)
    | Other                              // any object without `empty?`

  /** `value.respond_to?(:empty?) && value.empty?` for a value that is not a String. */
  predicate EmptyCollection(v: Value) {
    (v.Sym? && v.name == []) || (v.Arr? && v.items == []) || (v.Hash? && v.entries == [])
  }

  /** A value `normalize_value` leaves as it is: `nil`, a string with
      something other than whitespace at both ends, a non-empty collection,
      or a value without `empty?`. */
  predicate Normalized(v: Value) {
    match v
    case Str(s) => |s| > 0 && !IsSpace(s[0]) && !IsSpace(s[|s| - 1])
    case _ => !EmptyCollection(v)
  }

  function NormalizeValue(v: Value): (r: Value)
    ensures Normalized(r)
    ensures v.Str? ==> (r.Nil? <==> IsBlank(v.s))
    ensures v.Str? && r.Str? ==> r.s == Strip(v.s)
    ensures !v.Str? ==> r == (if EmptyCollection(v) then Nil else v)
  {
    match v
    case Nil => Nil
    case Str(s) =>
      var trimmed := Strip(s);
      if trimmed == [] then Nil else Str(trimmed)
    case _ => if EmptyCollection(v) then Nil else v
  }

  /** The values `normalize_value` leaves unchanged are exactly the normalized ones. */
  lemma NormalizeFixed(v: Value)
    ensures NormalizeValue(v) == v <==> Normalized(v)
  {
    if v.Str? && Normalized(v) {
      StripFixed(v.s);
    }
  }

  /** Normalizing twice is normalizing once. */
  lemma NormalizeIdempotent(v: Value)
    ensures NormalizeValue(NormalizeValue(v)) == NormalizeValue(v)
  {
    NormalizeFixed(NormalizeValue(v));
  }

  /** Padding a string with whitespace does not change its normal form. */
  lemma NormalizePadding(pre: string, s: string, post: string)
    requires IsBlank(pre) && IsBlank(post)
    ensures NormalizeValue(Str(pre + s + post)) == NormalizeValue(Str(s))
  {
    StripPadded(pre, s, post);
  }
}
