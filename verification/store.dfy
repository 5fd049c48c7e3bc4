/**
 * The database, in memory: one table per entity, each a map from id to row
 * with a counter that hands out fresh ids, and the log of notifications the
 * gateway has pushed.
 */
module Store {
  import opened Common
  import opened Entities

  /** The rows of `m` with ids below `n`, in id (insertion) order. */
  function RowsBelow<T(==)>(m: map<Id, T>, n: nat): (r: seq<T>)
    ensures |r| <= n
    ensures forall i :: 0 <= i < |r| ==> r[i] in m.Values
    ensures forall k :: k in m && k < n ==> m[k] in r
  {
    if n == 0 then []
    else RowsBelow(m, n - 1) + (if n - 1 in m then [m[n - 1]] else [])
  }

  /** Rows below the first id of `m` not yet handed out are unaffected by adding a row there. */
  lemma {:induction false} RowsBelowAdd<T>(m: map<Id, T>, n: nat, k: Id, x: T)
    requires k >= n
    ensures RowsBelow(m[k := x], n) == RowsBelow(m, n)
  {
    if n > 0 {
      RowsBelowAdd(m, n - 1, k, x);
    }
  }

  /** A table: rows by id, and the next id to hand out. */
  datatype Table<T(==)> = Table(rows: map<Id, T>, nextId: nat) {

    /** Every row's id was handed out already. */
    predicate Bounded() {
      forall k :: k in rows ==> k < nextId
    }

    /** A query without ORDER BY: every row, in insertion order. */
    function Rows(): (r: seq<T>)
      ensures forall i :: 0 <= i < |r| ==> r[i] in rows.Values
      ensures Bounded() ==> forall k :: k in rows ==> rows[k] in r
    {
      RowsBelow(rows, nextId)
    }

    /** INSERT with a fresh id: the row `x` (which carries id `nextId`) goes last. */
    function Insert(x: T): (t: Table<T>)
      requires Bounded()
      ensures t.Bounded() && t.nextId == nextId + 1 && t.rows == rows[nextId := x]
      ensures t.Rows() == Rows() + [x]
    {
      RowsBelowAdd(rows, nextId, nextId, x);
      Table(rows[nextId := x], nextId + 1)
    }

    /** `t` holds every row this table holds, unchanged, with this table's rows first. */
    predicate ExtendedBy(t: Table<T>) {
      && Rows() <= t.Rows() && nextId <= t.nextId
      && forall k :: k in rows ==> k in t.rows && t.rows[k] == rows[k]
    }

    /** UPDATE of an existing row: `x` replaces it, every other row stays. */
    function Put(id: Id, x: T): (t: Table<T>)
      requires id in rows
      ensures t.nextId == nextId && t.rows == rows[id := x]
      ensures Bounded() ==> t.Bounded()
    {
      Table(rows[id := x], nextId)
    }

    /** DELETE of the row `id`; deleting an absent row changes nothing. */
    function Delete(id: Id): (t: Table<T>)
      ensures t.nextId == nextId && t.rows == rows - {id}
      ensures Bounded() ==> t.Bounded()
    {
      Table(rows - {id}, nextId)
    }

    /** TRUNCATE: no rows are left; ids are never reused. */
    function Cleared(): (t: Table<T>)
      ensures t.rows == map[] && t.nextId == nextId && t.Bounded()
    {
      Table(map[], nextId)
    }
  }

  lemma ExtendedByRefl<T>(t: Table<T>)
    ensures t.ExtendedBy(t)
  {
  }

  lemma ExtendedByTrans<T>(a: Table<T>, b: Table<T>, c: Table<T>)
    requires a.ExtendedBy(b) && b.ExtendedBy(c)
    ensures a.ExtendedBy(c)
  {
    assert a.Rows() == b.Rows()[..|a.Rows()|];
    assert b.Rows() == c.Rows()[..|b.Rows()|];
  }

  lemma InsertExtends<T>(t: Table<T>, x: T)
    requires t.Bounded()
    ensures t.ExtendedBy(t.Insert(x))
  {
  }

  /** Rows below `n` of a map whose rows carry their own key: none twice, every key below `n`. */
  lemma {:induction false} RowsBelowDistinct<T>(m: map<Id, T>, n: nat, key: T -> Id)
    requires forall k :: k in m ==> key(m[k]) == k
    ensures Distinct(RowsBelow(m, n))
    ensures forall i :: 0 <= i < |RowsBelow(m, n)| ==> key(RowsBelow(m, n)[i]) < n
  {
    if n > 0 {
      RowsBelowDistinct(m, n - 1, key);
      var prev := RowsBelow(m, n - 1);
      var r := RowsBelow(m, n);
      if n - 1 in m {
        assert r == prev + [m[n - 1]];
        forall i, j | 0 <= i < j < |r| ensures r[i] != r[j] {
          assert r[i] == prev[i];
          if j < |prev| {
            assert r[j] == prev[j];
          } else {
            assert key(r[i]) < n - 1 && key(r[j]) == n - 1;
          }
        }
      } else {
        assert r == prev;
      }
    }
  }

  /** A table whose rows carry their own key lists each row once. */
  lemma RowsDistinct<T>(t: Table<T>, key: T -> Id)
    requires forall k :: k in t.rows ==> key(t.rows[k]) == k
    ensures Distinct(t.Rows())
  {
    RowsBelowDistinct(t.rows, t.nextId, key);
  }

  /**
   * A listing that holds the rows satisfying `p` as often as the table
   * does (a WHERE clause, ORDER BY or not) holds each such row exactly
   * once, and nothing else.
   */
  lemma SelectedOnce<T(!new)>(t: Table<T>, key: T -> Id, p: T -> bool, r: seq<T>)
    requires t.Bounded() && forall k :: k in t.rows ==> key(t.rows[k]) == k
    requires forall x :: multiset(r)[x] == if p(x) then multiset(t.Rows())[x] else 0
    ensures Distinct(r)
    ensures forall x :: x in r <==> x in t.rows.Values && p(x)
  {
    var rows := t.Rows();
    var f := Filter(rows, p);
    FilterMultiplicity(rows, p);
    assert multiset(r) == multiset(f);
    RowsDistinct(t, key);
    FilterDistinct(rows, p);
    DistinctPermutation(f, r);
    forall x
      ensures x in r <==> x in t.rows.Values && p(x)
    {
      assert x in r <==> x in multiset(r);
      assert x in rows <==> x in multiset(rows);
      if x in t.rows.Values {
        var k :| k in t.rows && t.rows[k] == x;
        assert x in rows;
      }
    }
  }

  function EmptyTable<T(==)>(): (t: Table<T>)
    ensures t.rows == map[] && t.Bounded()
  {
    Table(map[], 0)
  }

  /** Row ids agree with their keys. */
  predicate UserIds(m: map<Id, User>) { forall k :: k in m ==> m[k].id == k }
  predicate SkillIds(m: map<Id, Skill>) { forall k :: k in m ==> m[k].id == k }
  predicate CategoryIds(m: map<Id, Category>) { forall k :: k in m ==> m[k].id == k }
  predicate CityIds(m: map<Id, City>) { forall k :: k in m ==> m[k].id == k }
  predicate RequestIds(m: map<Id, Request>) { forall k :: k in m ==> m[k].id == k }

  /** The unique constraint on users.email. */
  predicate UniqueEmails(m: map<Id, User>) {
    forall a, b :: a in m && b in m && m[a].email == m[b].email ==> a == b
  }

  /** Loading a many-to-one relation: the row the id names, or null when there is none. */
  function Load<T(==)>(t: Table<T>, id: Option<Id>): (r: Option<T>)
    ensures r.Some? <==> id.Some? && id.value in t.rows
    ensures r.Some? ==> r.value == t.rows[id.value]
  {
    if id.Some? && id.value in t.rows then Some(t.rows[id.value]) else None
  }

  class Db {
    var users: Table<User>
    var skills: Table<Skill>
    var categories: Table<Category>
    var cities: Table<City>
    var requests: Table<Request>
    var notifications: seq<Notification>

    /** Every table hands out fresh ids, rows carry their own key, and emails are unique. */
    ghost predicate Valid()
      reads this
    {
      && users.Bounded() && UserIds(users.rows) && UniqueEmails(users.rows)
      && skills.Bounded() && SkillIds(skills.rows)
      && categories.Bounded() && CategoryIds(categories.rows)
      && cities.Bounded() && CityIds(cities.rows)
      && requests.Bounded() && RequestIds(requests.rows)
    }

    /** An empty database. */
    constructor ()
      ensures Valid()
      ensures users.rows == map[] && skills.rows == map[] && categories.rows == map[]
      ensures cities.rows == map[] && requests.rows == map[] && notifications == []
    {
      users := EmptyTable();
      skills := EmptyTable();
      categories := EmptyTable();
      cities := EmptyTable();
      requests := EmptyTable();
      notifications := [];
    }
  }
}
