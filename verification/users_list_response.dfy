/**
 * UsersListResponseDto: one page of users with its paging metadata. The
 * page count is Math.ceil(total / limit) on JavaScript numbers, so a zero
 * or negative limit is stated too.
 */
module UsersListResponse {
  import opened Entities
  import opened Paging
  import opened QueryDto

  datatype Meta = Meta(total: nat, page: int, limit: int, totalPages: JsNumber)

  datatype UsersListResponseDto = UsersListResponseDto(data: seq<PublicUser>, meta: Meta)

  /** Math.ceil(total / limit) for an integer total of at least 0 and an integer limit. */
  function CeilDiv(total: nat, limit: int): (n: JsNumber)
    ensures limit >= 1 ==> n == Finite(TotalPages(total, limit) as real)
    ensures limit == 0 ==> n == (if total == 0 then NaN else PosInfinity)
    ensures limit < 0 ==> n.Finite? && n.x <= 0.0
  {
    if limit >= 1 then Finite(TotalPages(total, limit) as real)
    else if limit == 0 then (if total == 0 then NaN else PosInfinity)
    else Finite(-((total / -limit) as real))
  }

  /** The constructor: the users as given, and total, page and limit echoed back. */
  function New(users: seq<PublicUser>, total: nat, page: int, limit: int): (r: UsersListResponseDto)
    ensures r.data == users
    ensures r.meta.total == total && r.meta.page == page && r.meta.limit == limit
    ensures r.meta.totalPages == CeilDiv(total, limit)
  {
    UsersListResponseDto(users, Meta(total, page, limit, CeilDiv(total, limit)))
  }

  /** With a positive limit, totalPages is the least page count that covers every row. */
  lemma {:induction false} TotalPagesCovers(users: seq<PublicUser>, total: nat, page: int, limit: int)
    requires limit >= 1
    ensures var m := New(users, total, page, limit).meta;
      && IsInteger(m.totalPages)
      && (total == 0 ==> AsInt(m.totalPages) == 0)
      && (total > 0 ==> (AsInt(m.totalPages) - 1) * limit < total <= AsInt(m.totalPages) * limit)
  {
    var n := TotalPages(total, limit);
    assert New(users, total, page, limit).meta.totalPages == Finite(n as real);
    assert (n as real).Floor == n;
  }

  /** A zero limit gives Infinity pages, or NaN when there are no rows either. */
  lemma ZeroLimit(users: seq<PublicUser>, total: nat, page: int)
    ensures New(users, total, page, 0).meta.totalPages == (if total == 0 then NaN else PosInfinity)
    ensures !IsInteger(New(users, total, page, 0).meta.totalPages)
  {
  }
}
