/** The order `sort_by { |key, value| [key, value] }` puts query parameters
    in: Ruby compares the two-element arrays element by element, and strings
    by their code points from the left, a shorter string coming before any
    longer string it is a prefix of. */
module PairOrder {

  type Pair = (string, string)

  /** `a <= b` for Ruby strings. */
  predicate StrLe(a: string, b: string)
    decreases |a|
  {
    |a| == 0 || (|b| > 0 && (a[0] < b[0] || (a[0] == b[0] && StrLe(a[1..], b[1..]))))
  }

  lemma {:induction false} StrLeTotal(a: string, b: string)
    ensures StrLe(a, b) || StrLe(b, a)
    decreases |a|
  {
    if |a| > 0 && |b| > 0 && a[0] == b[0] {
      StrLeTotal(a[1..], b[1..]);
    }
  }

  lemma {:induction false} StrLeTrans(a: string, b: string, c: string)
    requires StrLe(a, b) && StrLe(b, c)
    ensures StrLe(a, c)
    decreases |a|
  {
    if |a| > 0 && a[0] == b[0] && b[0] == c[0] {
      StrLeTrans(a[1..], b[1..], c[1..]);
    }
  }

  lemma {:induction false} StrLeAntisym(a: string, b: string)
    requires StrLe(a, b) && StrLe(b, a)
    ensures a == b
    decreases |a|
  {
    if |a| > 0 {
      StrLeAntisym(a[1..], b[1..]);
      assert a == [a[0]] + a[1..];
      assert b == [b[0]] + b[1..];
    }
  }

  /** `[p.0, p.1] <= [q.0, q.1]`. */
  predicate PairLe(p: Pair, q: Pair) {
    (p.0 != q.0 && StrLe(p.0, q.0)) || (p.0 == q.0 && StrLe(p.1, q.1))
  }

  lemma PairLeTotal(p: Pair, q: Pair)
    ensures PairLe(p, q) || PairLe(q, p)
  {
    StrLeTotal(p.0, q.0);
    StrLeTotal(p.1, q.1);
  }

  lemma PairLeTrans(p: Pair, q: Pair, r: Pair)
    requires PairLe(p, q) && PairLe(q, r)
    ensures PairLe(p, r)
  {
    if p.0 == q.0 && q.0 == r.0 {
      StrLeTrans(p.1, q.1, r.1);
    } else if p.0 != q.0 && q.0 != r.0 {
      StrLeTrans(p.0, q.0, r.0);
      if p.0 == r.0 {
        StrLeAntisym(p.0, q.0);
      }
    }
  }

  lemma PairLeAntisym(p: Pair, q: Pair)
    requires PairLe(p, q) && PairLe(q, p)
    ensures p == q
  {
    if p.0 == q.0 {
      StrLeAntisym(p.1, q.1);
    } else {
      StrLeAntisym(p.0, q.0);
    }
  }

  predicate Sorted(s: seq<Pair>) {
    forall i, j :: 0 <= i < j < |s| ==> PairLe(s[i], s[j])
  }

  /** Every element of `s` is at least `x`. */
  predicate AllAbove(x: Pair, s: seq<Pair>) {
    forall k :: 0 <= k < |s| ==> PairLe(x, s[k])
  }

  /** `x` inserted into the sorted `s` before the first element it does not exceed. */
  function Insert(x: Pair, s: seq<Pair>): (r: seq<Pair>)
    ensures multiset(r) == multiset(s) + multiset{x}
    ensures |r| == |s| + 1
    decreases |s|
  {
    if |s| == 0 then [x]
    else if PairLe(x, s[0]) then [x] + s
    else
      assert s == [s[0]] + s[1..];
      [s[0]] + Insert(x, s[1..])
  }

  lemma {:induction false} InsertBelow(y: Pair, x: Pair, s: seq<Pair>)
    requires PairLe(y, x) && AllAbove(y, s)
    ensures AllAbove(y, Insert(x, s))
  {
    var r := Insert(x, s);
    forall k | 0 <= k < |r| ensures PairLe(y, r[k]) {
      assert r[k] in multiset(r);
      assert r[k] == x || r[k] in multiset(s);
    }
  }

  lemma {:induction false} InsertSorted(x: Pair, s: seq<Pair>)
    requires Sorted(s)
    ensures Sorted(Insert(x, s))
    decreases |s|
  {
    if |s| > 0 {
      if PairLe(x, s[0]) {
        var r := [x] + s;
        forall i, j | 0 <= i < j < |r| ensures PairLe(r[i], r[j]) {
          if i == 0 && j > 1 {
            PairLeTrans(x, s[0], s[j - 1]);
          }
        }
      } else {
        PairLeTotal(x, s[0]);
        InsertSorted(x, s[1..]);
        assert AllAbove(s[0], s[1..]);
        InsertBelow(s[0], x, s[1..]);
      }
    }
  }

  /** Insertion sort. */
  function Sort(s: seq<Pair>): (r: seq<Pair>)
    ensures multiset(r) == multiset(s)
    ensures |r| == |s|
    decreases |s|
  {
    if |s| == 0 then []
    else
      assert s == s[..|s| - 1] + [s[|s| - 1]];
      Insert(s[|s| - 1], Sort(s[..|s| - 1]))
  }

  lemma {:induction false} SortSorted(s: seq<Pair>)
    ensures Sorted(Sort(s))
    decreases |s|
  {
    if |s| > 0 {
      SortSorted(s[..|s| - 1]);
      InsertSorted(s[|s| - 1], Sort(s[..|s| - 1]));
    }
  }

  /** The first element of a sorted sequence is at most every element. */
  lemma SortedHead(s: seq<Pair>, x: Pair)
    requires Sorted(s) && |s| > 0 && x in multiset(s)
    ensures PairLe(s[0], x)
  {
    var k :| 0 <= k < |s| && s[k] == x;
    if k == 0 {
      StrLeTotal(x.0, x.0);
      StrLeTotal(x.1, x.1);
    }
  }

  /** There is only one sorted arrangement of a collection of pairs, so any
      sorting algorithm, stable or not, gives the same sequence. */
  lemma {:induction false} SortedUnique(a: seq<Pair>, b: seq<Pair>)
    requires Sorted(a) && Sorted(b) && multiset(a) == multiset(b)
    ensures a == b
    decreases |a|
  {
    assert |a| == |multiset(a)| == |b|;
    if |a| > 0 {
      assert a[0] in multiset(b) by { assert a[0] in multiset(a); }
      assert b[0] in multiset(a) by { assert b[0] in multiset(b); }
      SortedHead(b, a[0]);
      SortedHead(a, b[0]);
      PairLeAntisym(a[0], b[0]);
      assert a == [a[0]] + a[1..];
      assert b == [b[0]] + b[1..];
      assert multiset(a) == multiset{a[0]} + multiset(a[1..]);
      assert multiset(b) == multiset{b[0]} + multiset(b[1..]);
      assert multiset(a[1..]) == multiset(a) - multiset{a[0]};
      assert multiset(b[1..]) == multiset(b) - multiset{b[0]};
      SortedUnique(a[1..], b[1..]);
    }
  }
}
