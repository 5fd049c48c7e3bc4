/**
 * Offset pagination: SKIP/TAKE on a result set and the page count
 * Math.ceil(total / limit), for the integer limit (at least 1) that the
 * query DTOs guarantee.
 */
module Paging {

  /** Math.ceil(total / limit), computed on integers. */
  function TotalPages(total: nat, limit: nat): (pages: nat)
    requires limit >= 1
    ensures total == 0 ==> pages == 0
    ensures total > 0 ==> (pages - 1) * limit < total <= pages * limit
  {
    if total == 0 then 0
    else
      var q := (total - 1) / limit;
      assert q * limit <= total - 1 < (q + 1) * limit;
      q + 1
  }

  /** The bounds pin the page count down: no other count satisfies them. */
  lemma TotalPagesUnique(total: nat, limit: nat, p: nat)
    requires limit >= 1 && total > 0
    requires (p - 1) * limit < total <= p * limit
    ensures p == TotalPages(total, limit)
  {
    var n := TotalPages(total, limit);
    if p < n {
      MulMonotonic(p, n - 1, limit);
    } else if p > n {
      MulMonotonic(n, p - 1, limit);
    }
  }

  /** The page counts the controller and end-to-end tests expect. */
  lemma TotalPagesExamples()
    ensures TotalPages(25, 10) == 3
    ensures TotalPages(0, 20) == 0
    ensures TotalPages(2, 1) == 2
    ensures TotalPages(3, 2) == 2
    ensures TotalPages(2, 20) == 1
  {
  }

  /** `.skip(skip).take(take)`: at most `take` rows, starting at row `skip`. */
  function Page<T>(s: seq<T>, skip: nat, take: nat): (r: seq<T>)
    ensures |r| == if skip >= |s| then 0 else if |s| - skip < take then |s| - skip else take
    ensures forall i :: 0 <= i < |r| ==> r[i] == s[skip + i]
  {
    if skip >= |s| then []
    else if |s| - skip < take then s[skip..]
    else s[skip..skip + take]
  }

  /** The row offset of page `page` (1-based) of size `limit`. */
  function Skip(page: int, limit: int): (skip: nat)
    requires page >= 1 && limit >= 1
    ensures skip == (page - 1) * limit
  {
    (page - 1) * limit
  }

  /** Multiplying by a count of at least 0 keeps the order. */
  lemma MulMonotonic(a: int, b: int, c: nat)
    requires a <= b
    ensures a * c <= b * c
  {
  }

  /** A page past the last one holds no rows; every page up to the last holds some. */
  lemma PageEmptyIff<T>(s: seq<T>, page: int, limit: int)
    requires page >= 1 && limit >= 1
    ensures Page(s, Skip(page, limit), limit) == [] <==> (|s| == 0 || page > TotalPages(|s|, limit))
  {
    var skip := Skip(page, limit);
    assert |Page(s, skip, limit)| == 0 <==> skip >= |s|;
    if |s| > 0 {
      var n := TotalPages(|s|, limit);
      if page > n {
        MulMonotonic(n, page - 1, limit);
        assert skip >= |s|;
      } else {
        MulMonotonic(page - 1, n - 1, limit);
        assert skip < |s|;
      }
    }
  }
}
