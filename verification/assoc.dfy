/** Ruby's `Hash` as the program uses it: an association list that remembers
    insertion order, where assigning to an existing key replaces the value in
    place and assigning to a new key appends it. */
module Assoc {
  import opened Wrappers

  type Assoc<K, V> = seq<(K, V)>

  function Keys<K, V>(a: Assoc<K, V>): (ks: seq<K>)
    ensures |ks| == |a|
    ensures forall i :: 0 <= i < |a| ==> ks[i] == a[i].0
  {
    seq(|a|, i requires 0 <= i < |a| => a[i].0)
  }

  /** No key occurs twice, as in every Ruby Hash. */
  predicate Unique<K(==), V>(a: Assoc<K, V>) {
    forall i, j :: 0 <= i < j < |a| ==> a[i].0 != a[j].0
  }

  /** The position of `k`, if present. */
  function KeyIndex<K(==), V>(a: Assoc<K, V>, k: K): (r: Option<nat>)
    ensures r.Some? ==> r.value < |a| && a[r.value].0 == k
    ensures r.Some? ==> forall m :: 0 <= m < r.value ==> a[m].0 != k
    ensures r.None? <==> k !in Keys(a)
    decreases |a|
  {
    if |a| == 0 then None
    else if a[0].0 == k then Some(0)
    else
      match KeyIndex(a[1..], k)
      case None =>
        assert Keys(a) == [a[0].0] + Keys(a[1..]);
        None
      case Some(i) =>
        Some(i + 1)
  }

  /** `hash[k]`: the value stored under `k`, or `None` (Ruby's `nil`). */
  function Get<K(==), V>(a: Assoc<K, V>, k: K): (r: Option<V>)
    ensures r.Some? <==> k in Keys(a)
  {
    match KeyIndex(a, k)
    case Some(i) => Some(a[i].1)
    case None => None
  }

  /** `hash[k] = v`. */
  function Put<K(==), V>(a: Assoc<K, V>, k: K, v: V): (r: Assoc<K, V>)
    ensures k in Keys(a) ==> |r| == |a| && Keys(r) == Keys(a)
    ensures k !in Keys(a) ==> r == a + [(k, v)]
  {
    match KeyIndex(a, k)
    case Some(i) => a[i := (k, v)]
    case None => a + [(k, v)]
  }

  /** After `hash[k] = v`, `hash[k]` is `v`. */
  lemma GetPut<K, V>(a: Assoc<K, V>, k: K, v: V)
    ensures Get(Put(a, k, v), k) == Some(v)
  {
    var r := Put(a, k, v);
    match KeyIndex(a, k)
    case Some(i) =>
      assert r[i].0 == k;
      assert forall m :: 0 <= m < i ==> r[m] == a[m];
    case None =>
      assert r[|a|].0 == k;
      assert forall m :: 0 <= m < |a| ==> r[m] == a[m] && Keys(a)[m] == a[m].0;
  }

  /** `hash[k] = v` leaves every other key's value alone. */
  lemma GetPutOther<K, V>(a: Assoc<K, V>, k: K, v: V, k': K)
    requires k' != k
    ensures Get(Put(a, k, v), k') == Get(a, k')
  {
    var r := Put(a, k, v);
    assert forall m :: 0 <= m < |a| && a[m].0 == k' ==> r[m] == a[m];
    assert forall m :: 0 <= m < |a| ==> Keys(a)[m] == a[m].0;
    assert forall m :: 0 <= m < |r| ==> Keys(r)[m] == r[m].0;
  }

  lemma PutUnique<K, V>(a: Assoc<K, V>, k: K, v: V)
    requires Unique(a)
    ensures Unique(Put(a, k, v))
  {
    var r := Put(a, k, v);
    if k !in Keys(a) {
      forall i, j | 0 <= i < j < |r| ensures r[i].0 != r[j].0 {
        if j == |a| {
          assert Keys(a)[i] == r[i].0;
        }
      }
    } else {
      forall i, j | 0 <= i < j < |r| ensures r[i].0 != r[j].0 {
        assert Keys(r)[i] == Keys(a)[i] && Keys(r)[j] == Keys(a)[j];
      }
    }
  }

  /** The value found under a key is one of the stored pairs. */
  lemma GetIn<K, V>(a: Assoc<K, V>, k: K)
    requires Get(a, k).Some?
    ensures (k, Get(a, k).value) in a
  {
  }

  /** In a Hash without duplicate keys, every stored pair is found by its key. */
  lemma InGet<K, V>(a: Assoc<K, V>, i: nat)
    requires Unique(a) && i < |a|
    ensures Get(a, a[i].0) == Some(a[i].1)
  {
    assert Keys(a)[i] == a[i].0;
  }

  /** In a Hash without duplicate keys, the key at position `k - 1` is not
      among the keys before it. */
  lemma LastKeyFresh<K, V>(a: Assoc<K, V>, k: nat)
    requires Unique(a) && 0 < k <= |a|
    ensures a[k - 1].0 !in Keys(a[..k - 1])
  {
    assert forall m :: 0 <= m < k - 1 ==> Keys(a[..k - 1])[m] == a[m].0;
  }

  /** Keys of a concatenation. */
  lemma KeysAppend<K, V>(a: Assoc<K, V>, b: Assoc<K, V>)
    ensures Keys(a + b) == Keys(a) + Keys(b)
  {
  }

  /** Looking a key up in a Hash extended by one pair. */
  lemma GetAppend<K, V>(a: Assoc<K, V>, k': K, v: V, k: K)
    ensures Get(a + [(k', v)], k) == if k in Keys(a) then Get(a, k) else if k' == k then Some(v) else None
  {
    var r := a + [(k', v)];
    KeysAppend(a, [(k', v)]);
    assert Keys(r) == Keys(a) + [k'];
    match KeyIndex(a, k)
    case Some(i) =>
      assert r[i] == a[i];
      assert forall m :: 0 <= m < i ==> r[m] == a[m];
    case None =>
      assert forall m :: 0 <= m < |a| ==> r[m] == a[m] && Keys(a)[m] == a[m].0;
  }

  /** Every pair of the result of `hash[k] = v` is the new pair or an old one. */
  lemma PutElements<K, V>(a: Assoc<K, V>, k: K, v: V)
    ensures forall i :: 0 <= i < |Put(a, k, v)| ==> Put(a, k, v)[i] == (k, v) || Put(a, k, v)[i] in a
  {
  }

  // ---------------------------------------------------------------------------
  // Sums

  /** `sum { |x| f(x) }`, accumulated from the left. */
  function SumOf<T>(s: seq<T>, f: T -> nat): nat
    decreases |s|
  {
    if |s| == 0 then 0 else SumOf(s[..|s| - 1], f) + f(s[|s| - 1])
  }

  lemma {:induction false} SumOfAppend<T>(a: seq<T>, b: seq<T>, f: T -> nat)
    ensures SumOf(a + b, f) == SumOf(a, f) + SumOf(b, f)
    decreases |b|
  {
    if |b| > 0 {
      assert (a + b)[..|a + b| - 1] == a + b[..|b| - 1];
      SumOfAppend(a, b[..|b| - 1], f);
    } else {
      assert a + b == a;
    }
  }

  /** Replacing one element changes the sum by the difference of the two. */
  lemma SumOfUpdate<T>(s: seq<T>, i: nat, x: T, f: T -> nat)
    requires i < |s|
    ensures SumOf(s[i := x], f) + f(s[i]) == SumOf(s, f) + f(x)
  {
    assert s == s[..i] + [s[i]] + s[i + 1..];
    assert s[i := x] == s[..i] + [x] + s[i + 1..];
    SumOfAppend(s[..i] + [s[i]], s[i + 1..], f);
    SumOfAppend(s[..i] + [x], s[i + 1..], f);
    SumOfAppend(s[..i], [s[i]], f);
    SumOfAppend(s[..i], [x], f);
    assert [s[i]][..0] == [];
    assert [x][..0] == [];
  }

  // ---------------------------------------------------------------------------
  // Transforming and filtering values

  /** `each_with_object`/`delete_if` in one pass: every value is transformed by
      `g`, and the pairs for which `g` gives `None` are dropped. */
  function MapFilter<K, V, W>(a: Assoc<K, V>, g: V -> Option<W>): (r: Assoc<K, W>)
    ensures |r| <= |a|
    ensures forall j :: 0 <= j < |r| ==> exists i :: 0 <= i < |a| && a[i].0 == r[j].0 && g(a[i].1) == Some(r[j].1)
    decreases |a|
  {
    if |a| == 0 then []
    else
      var init := MapFilter(a[..|a| - 1], g);
      var last := a[|a| - 1];
      assert forall i :: 0 <= i < |a| - 1 ==> a[..|a| - 1][i] == a[i];
      match g(last.1)
      case Some(w) => init + [(last.0, w)]
      case None => init
  }

  lemma {:induction false} MapFilterKeys<K, V, W>(a: Assoc<K, V>, g: V -> Option<W>, k: K)
    requires k !in Keys(a)
    ensures k !in Keys(MapFilter(a, g))
  {
    var r := MapFilter(a, g);
    forall j | 0 <= j < |r| ensures Keys(r)[j] != k {
      var i :| 0 <= i < |a| && a[i].0 == r[j].0 && g(a[i].1) == Some(r[j].1);
      assert Keys(a)[i] == a[i].0;
    }
  }

  lemma {:induction false} MapFilterUnique<K, V, W>(a: Assoc<K, V>, g: V -> Option<W>)
    requires Unique(a)
    ensures Unique(MapFilter(a, g))
    decreases |a|
  {
    if |a| > 0 {
      var init := a[..|a| - 1];
      MapFilterUnique(init, g);
      var last := a[|a| - 1];
      assert forall m :: 0 <= m < |init| ==> Keys(init)[m] == init[m].0 && init[m] == a[m];
      MapFilterKeys(init, g, last.0);
      var ri := MapFilter(init, g);
      assert forall m :: 0 <= m < |ri| ==> Keys(ri)[m] == ri[m].0;
    }
  }

  /** `MapFilter` of a Hash extended by one pair. */
  lemma MapFilterSnoc<K, V, W>(init: Assoc<K, V>, last: (K, V), g: V -> Option<W>)
    ensures MapFilter(init + [last], g)
         == match g(last.1) case Some(w) => MapFilter(init, g) + [(last.0, w)] case None => MapFilter(init, g)
  {
    assert (init + [last])[..|init|] == init;
  }

  /** With unique keys, a key's entry after `MapFilter` is its old value transformed. */
  lemma {:induction false} GetMapFilter<K, V, W>(a: Assoc<K, V>, g: V -> Option<W>, k: K)
    requires Unique(a)
    ensures Get(MapFilter(a, g), k) == match Get(a, k) case None => None case Some(v) => g(v)
    decreases |a|
  {
    if |a| > 0 {
      var init := a[..|a| - 1];
      var last := a[|a| - 1];
      assert a == init + [last];
      LastKeyFresh(a, |a|);
      assert Unique(init);
      GetMapFilter(init, g, k);
      MapFilterSnoc(init, last, g);
      GetAppend(init, last.0, last.1, k);
      var ri := MapFilter(init, g);
      if last.0 == k {
        MapFilterKeys(init, g, k);
      }
      match g(last.1)
      case Some(w) =>
        GetAppend(ri, last.0, w, k);
      case None =>
    }
  }
}
