/**
 * Values shared by every service of the backend: identifiers, optional
 * values, the HTTP-flavoured errors the services throw, and the password
 * hashing the user store relies on.
 */
module Common {

  /** Primary keys. The store hands them out from a counter (see Store.Table). */
  type Id = nat

  datatype Option<T> = None | Some(value: T) {
    function GetOr(default: T): (r: T)
      ensures Some? ==> r == value
      ensures None? ==> r == default
    {
      if Some? then value else default
    }
  }

  /**
   * The exceptions the services raise, one constructor per Nest exception
   * class; `reason` is the message the service throws. `Internal` stands
   * for a JavaScript runtime error (a property read on null), which the
   * global filter turns into a 500.
   */
  datatype Error =
    | NotFound(reason: string)
    | Forbidden(reason: string)
    | BadRequest(reason: string)
    | Conflict(reason: string)
    | Unauthorized(reason: string)
    | Internal(reason: string)

  /** Outcome of an operation that returns a value or throws. */
  datatype Result<T> = Ok(value: T) | Err(error: Error)

  /** Outcome of an operation that returns nothing or throws. */
  datatype Outcome = Pass | Fail(error: Error)

  /**
   * A bcrypt digest, kept abstract: the model only ever builds one with
   * Hash and only ever inspects one with Compare. Salting is not modelled,
   * so Hash is a function.
   */
  datatype PasswordHash = Digest(secret: string)

  function Hash(password: string): (h: PasswordHash)
    ensures forall p :: Compare(p, h) <==> p == password
  {
    Digest(password)
  }

  /** bcrypt.compare: true exactly for the password the digest was made from. */
  predicate Compare(password: string, hash: PasswordHash) {
    hash == Digest(password)
  }

  /**
   * The elements of `s` that satisfy `p`, in their original order: each
   * one as often as in `s`, and nothing else.
   */
  function Filter<T(==)>(s: seq<T>, p: T -> bool): (r: seq<T>)
    ensures |r| <= |s|
    ensures forall i :: 0 <= i < |r| ==> r[i] in s && p(r[i])
    ensures forall i :: 0 <= i < |s| && p(s[i]) ==> s[i] in r
  {
    if s == [] then []
    else (if p(s[0]) then [s[0]] else []) + Filter(s[1..], p)
  }

  /** Filter keeps each element that satisfies `p` as often as `s` holds it, and drops every other. */
  lemma {:induction false} FilterMultiplicity<T(!new)>(s: seq<T>, p: T -> bool)
    ensures forall x :: multiset(Filter(s, p))[x] == if p(x) then multiset(s)[x] else 0
  {
    if s != [] {
      var tail := s[1..];
      FilterMultiplicity(tail, p);
      var head := if p(s[0]) then [s[0]] else [];
      assert s == [s[0]] + tail;
      assert multiset(s) == multiset([s[0]]) + multiset(tail);
      assert multiset(Filter(s, p)) == multiset(head) + multiset(Filter(tail, p));
    }
  }

  /** Filtering a sequence without repeats leaves none. */
  lemma {:induction false} FilterDistinct<T(!new)>(s: seq<T>, p: T -> bool)
    requires Distinct(s)
    ensures Distinct(Filter(s, p))
  {
    if s != [] {
      var tail := s[1..];
      assert Distinct(tail) by {
        forall i, j | 0 <= i < j < |tail| ensures tail[i] != tail[j] {
          assert tail[i] == s[i + 1] && tail[j] == s[j + 1];
        }
      }
      FilterDistinct(tail, p);
      var r := Filter(s, p);
      var ft := Filter(tail, p);
      if p(s[0]) {
        assert r == [s[0]] + ft;
        forall i, j | 0 <= i < j < |r| ensures r[i] != r[j] {
          assert r[j] == ft[j - 1] && ft[j - 1] in tail;
          if i > 0 {
            assert r[i] == ft[i - 1];
          }
        }
      }
    }
  }

  /** The first element of `s` that satisfies `p` (TypeORM's findOne). */
  function First<T>(s: seq<T>, p: T -> bool): (r: Option<T>)
    ensures r.Some? ==> r.value in s && p(r.value)
    ensures r.None? <==> forall i :: 0 <= i < |s| ==> !p(s[i])
  {
    if s == [] then None
    else if p(s[0]) then Some(s[0])
    else First(s[1..], p)
  }

  /** Extending a sequence at the end does not change the first match it already had. */
  lemma {:induction false} FirstPrefix<T>(s: seq<T>, s': seq<T>, p: T -> bool)
    requires s <= s' && First(s, p).Some?
    ensures First(s', p) == First(s, p)
  {
    assert s'[0] == s[0];
    if !p(s[0]) {
      assert s[1..] <= s'[1..];
      FirstPrefix(s[1..], s'[1..], p);
    }
  }

  /** `s` holds no element twice. */
  predicate Distinct<T(==)>(s: seq<T>) {
    forall i, j :: 0 <= i < j < |s| ==> s[i] != s[j]
  }

  /** The elements of a sequence, as a set. */
  function Elements<T(==)>(s: seq<T>): (r: set<T>)
    ensures forall i :: 0 <= i < |s| ==> s[i] in r
    ensures forall x :: x in r ==> x in s
  {
    set x | x in s
  }

  /** Reordering a sequence without repeats leaves none. */
  lemma DistinctPermutation<T>(a: seq<T>, b: seq<T>)
    requires multiset(a) == multiset(b) && Distinct(a)
    ensures Distinct(b)
  {
    ElementsCount(a);
    ElementsCount(b);
    assert |a| == |multiset(a)| == |multiset(b)| == |b|;
    assert forall x :: x in a <==> x in multiset(a);
    assert forall x :: x in b <==> x in multiset(b);
    assert Elements(a) == Elements(b);
  }

  /** A sequence without repeats that holds exactly the elements of `S` has one entry per element. */
  lemma DistinctCount<T>(s: seq<T>, S: set<T>)
    requires Distinct(s) && forall x :: x in s <==> x in S
    ensures |s| == |S|
  {
    ElementsCount(s);
    assert Elements(s) == S;
  }

  /** A sequence has at most as many distinct elements as entries, and exactly as many iff none repeats. */
  lemma {:induction false} ElementsCount<T>(s: seq<T>)
    ensures |Elements(s)| <= |s|
    ensures |Elements(s)| == |s| <==> Distinct(s)
  {
    if s != [] {
      var tail := s[1..];
      ElementsCount(tail);
      assert Elements(s) == {s[0]} + Elements(tail);
      if s[0] in tail {
        assert Elements(s) == Elements(tail);
        var j :| 0 <= j < |tail| && tail[j] == s[0];
        assert s[0] == s[j + 1];
      } else {
        assert |Elements(s)| == 1 + |Elements(tail)|;
        if Distinct(tail) {
          forall i, j | 0 <= i < j < |s| ensures s[i] != s[j] {
            if i > 0 {
              assert s[i] == tail[i - 1] && s[j] == tail[j - 1];
            } else {
              assert s[j] == tail[j - 1];
            }
          }
        } else {
          var i, j :| 0 <= i < j < |tail| && tail[i] == tail[j];
          assert s[i + 1] == s[j + 1];
        }
      }
    }
  }
}
