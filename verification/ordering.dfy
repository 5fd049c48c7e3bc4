/**
 * ORDER BY, as the queries of the services use it: rows are ordered by one
 * key, ascending or descending. A NULL key sorts after every value when
 * ascending and before every value when descending (PostgreSQL's default);
 * text compares by code point.
 */
module Ordering {

  datatype SortKey = Num(n: int) | Text(s: string) | Absent

  /** Lexicographic order on strings, by code point. */
  predicate LexLe(a: string, b: string) {
    if a == [] then true
    else if b == [] then false
    else a[0] < b[0] || (a[0] == b[0] && LexLe(a[1..], b[1..]))
  }

  lemma {:induction false} LexLeTotal(a: string, b: string)
    ensures LexLe(a, b) || LexLe(b, a)
  {
    if a != [] && b != [] && a[0] == b[0] {
      LexLeTotal(a[1..], b[1..]);
    }
  }

  lemma {:induction false} LexLeTransitive(a: string, b: string, c: string)
    requires LexLe(a, b) && LexLe(b, c)
    ensures LexLe(a, c)
  {
    if a != [] && b != [] && c != [] && a[0] == b[0] == c[0] {
      LexLeTransitive(a[1..], b[1..], c[1..]);
    }
  }

  function Rank(k: SortKey): nat {
    match k
    case Num(_) => 0
    case Text(_) => 1
    case Absent => 2
  }

  /** The ascending order on keys; NULL is the greatest key. */
  predicate KeyLe(a: SortKey, b: SortKey) {
    match (a, b)
    case (Num(x), Num(y)) => x <= y
    case (Text(s), Text(t)) => LexLe(s, t)
    case _ => Rank(a) <= Rank(b)
  }

  /** `a` may come before `b` under ORDER BY ASC (desc false) or DESC (desc true). */
  predicate KeyOrder(a: SortKey, b: SortKey, desc: bool) {
    if desc then KeyLe(b, a) else KeyLe(a, b)
  }

  lemma KeyOrderTotal(a: SortKey, b: SortKey, desc: bool)
    ensures KeyOrder(a, b, desc) || KeyOrder(b, a, desc)
  {
    if a.Text? && b.Text? {
      LexLeTotal(a.s, b.s);
    }
  }

  lemma KeyOrderTransitive(a: SortKey, b: SortKey, c: SortKey, desc: bool)
    requires KeyOrder(a, b, desc) && KeyOrder(b, c, desc)
    ensures KeyOrder(a, c, desc)
  {
    if a.Text? && b.Text? && c.Text? {
      if desc {
        LexLeTransitive(c.s, b.s, a.s);
      } else {
        LexLeTransitive(a.s, b.s, c.s);
      }
    }
  }

  /** `s` is in the order ORDER BY key (ASC or DESC) produces. */
  predicate OrderedBy<T>(s: seq<T>, key: T -> SortKey, desc: bool) {
    forall i, j :: 0 <= i < j < |s| ==> KeyOrder(key(s[i]), key(s[j]), desc)
  }

  /** Inserts `x` into an ordered sequence before the first element it may precede. */
  function InsertBy<T>(x: T, s: seq<T>, key: T -> SortKey, desc: bool): (r: seq<T>)
    requires OrderedBy(s, key, desc)
    ensures multiset(r) == multiset(s) + multiset{x}
    ensures OrderedBy(r, key, desc)
  {
    if s == [] then [x]
    else if KeyOrder(key(x), key(s[0]), desc) then
      assert forall j :: 0 < j < |s| ==> KeyOrder(key(s[0]), key(s[j]), desc);
      forall j | 0 < j < |s| ensures KeyOrder(key(x), key(s[j]), desc) {
        KeyOrderTransitive(key(x), key(s[0]), key(s[j]), desc);
      }
      [x] + s
    else
      var rest := InsertBy(x, s[1..], key, desc);
      assert s == [s[0]] + s[1..];
      KeyOrderTotal(key(x), key(s[0]), desc);
      forall j | 0 <= j < |rest| ensures KeyOrder(key(s[0]), key(rest[j]), desc) {
        assert rest[j] in multiset(rest);
        assert rest[j] == x || rest[j] in s[1..];
      }
      [s[0]] + rest
  }

  /**
   * ORDER BY key: an insertion sort. The database leaves the order of ties
   * open; this sort keeps them in row order.
   */
  function SortBy<T>(s: seq<T>, key: T -> SortKey, desc: bool): (r: seq<T>)
    ensures multiset(r) == multiset(s)
    ensures |r| == |s|
    ensures OrderedBy(r, key, desc)
  {
    if s == [] then []
    else
      assert s == [s[0]] + s[1..];
      var r := InsertBy(s[0], SortBy(s[1..], key, desc), key, desc);
      assert |r| == |multiset(r)|;
      r
  }

  /** Sorting neither adds nor drops rows. */
  lemma SortByKeepsRows<T>(s: seq<T>, key: T -> SortKey, desc: bool)
    ensures forall i :: 0 <= i < |SortBy(s, key, desc)| ==> SortBy(s, key, desc)[i] in s
    ensures forall i :: 0 <= i < |s| ==> s[i] in SortBy(s, key, desc)
  {
    var r := SortBy(s, key, desc);
    forall i | 0 <= i < |r| ensures r[i] in s {
      assert r[i] in multiset(r);
    }
    forall i | 0 <= i < |s| ensures s[i] in r {
      assert s[i] in multiset(s);
    }
  }
}
