/**
 * UsersSeeder: loads the fixed list of demo users, creating a user only
 * when no user has that email yet, so that running it again adds nothing.
 */
module UsersSeeder {
  import opened Common
  import opened Entities
  import opened Store
  import Users

  /** One entry of the demo data. `skills` names owned skills; the user row does not hold them. */
  datatype UserData = UserData(
    name: string, email: string, password: string, gender: Gender,
    skills: Option<seq<Id>>, favoriteSkills: Option<seq<Id>>)

  /** The row seed builds for an entry: role USER, the password hashed, favourites defaulting to none. */
  function NewUser(id: Id, d: UserData): (u: User)
    ensures u.id == id && u.name == d.name && u.email == d.email && u.gender == d.gender
    ensures u.role == UserRole
    ensures forall p :: Compare(p, u.password) <==> p == d.password
    ensures u.favoriteSkills == d.favoriteSkills.GetOr([]) && u.wantToLearn == []
  {
    User(id, d.name, d.email, Hash(d.password), None, None, None, d.gender, None, UserRole,
         [], d.favoriteSkills.GetOr([]), None)
  }

  /** Some user has the email (what findOne by email finds, see FoundIff). */
  predicate Taken(t: Table<User>, email: string) {
    exists k :: k in t.rows && t.rows[k].email == email
  }

  /** The user table after a seed, and the users seed returns. */
  datatype SeedResult = SeedResult(users: Table<User>, seeded: seq<User>)

  /**
   * What seed does with the entries `data`, one after the other: an entry
   * whose email is taken is skipped, any other becomes a new row. The new
   * rows are exactly the users returned, in the order they were created.
   */
  function Seeding(t: Table<User>, data: seq<UserData>): (r: SeedResult)
    requires t.Bounded()
    ensures r.users.Bounded()
    decreases |data|
  {
    if data == [] then SeedResult(t, [])
    else
      var prev := Seeding(t, data[..|data| - 1]);
      var d := data[|data| - 1];
      if Taken(prev.users, d.email) then prev
      else
        var u := NewUser(prev.users.nextId, d);
        SeedResult(prev.users.Insert(u), prev.seeded + [u])
  }

  /** Seed only adds rows: the old rows stay as they were, and the new ones are the users returned. */
  lemma {:induction false} SeedingAppends(t: Table<User>, data: seq<UserData>)
    requires t.Bounded()
    ensures var r := Seeding(t, data); t.ExtendedBy(r.users) && r.users.Rows() == t.Rows() + r.seeded
  {
    if data == [] {
      ExtendedByRefl(t);
    } else {
      var prev := Seeding(t, data[..|data| - 1]);
      SeedingAppends(t, data[..|data| - 1]);
      var d := data[|data| - 1];
      if !Taken(prev.users, d.email) {
        var u := NewUser(prev.users.nextId, d);
        InsertExtends(prev.users, u);
        ExtendedByTrans(t, prev.users, prev.users.Insert(u));
        assert prev.users.Insert(u).Rows() == t.Rows() + (prev.seeded + [u]);
      }
    }
  }

  /** Adding a user whose email no row has keeps emails unique and ids matching their keys. */
  lemma InsertFresh(t: Table<User>, u: User)
    requires t.Bounded() && UserIds(t.rows) && UniqueEmails(t.rows)
    requires u.id == t.nextId && !Taken(t, u.email)
    ensures UserIds(t.Insert(u).rows) && UniqueEmails(t.Insert(u).rows)
  {
  }

  /** Seeding keeps the table's ids and the unique constraint on emails. */
  lemma {:induction false} SeedingKeepsValid(t: Table<User>, data: seq<UserData>)
    requires t.Bounded() && UserIds(t.rows) && UniqueEmails(t.rows)
    ensures UserIds(Seeding(t, data).users.rows) && UniqueEmails(Seeding(t, data).users.rows)
  {
    if data != [] {
      var prev := Seeding(t, data[..|data| - 1]);
      SeedingKeepsValid(t, data[..|data| - 1]);
      var d := data[|data| - 1];
      if !Taken(prev.users, d.email) {
        InsertFresh(prev.users, NewUser(prev.users.nextId, d));
      }
    }
  }

  /** In a bounded table, findOne by email finds a user exactly when the email is taken. */
  lemma FoundIff(t: Table<User>, email: string)
    requires t.Bounded()
    ensures Users.FindByEmail(t, email).Some? <==> Taken(t, email)
  {
  }

  /** A taken email stays taken in any extension of the table. */
  lemma TakenStaysTaken(t: Table<User>, t2: Table<User>, email: string)
    requires t.ExtendedBy(t2) && Taken(t, email)
    ensures Taken(t2, email)
  {
    var k :| k in t.rows && t.rows[k].email == email;
    assert t2.rows[k].email == email;
  }

  /** After seed, every entry's email belongs to some user. */
  lemma {:induction false} SeedCovers(t: Table<User>, data: seq<UserData>)
    requires t.Bounded()
    ensures forall i :: 0 <= i < |data| ==> Taken(Seeding(t, data).users, data[i].email)
  {
    if data != [] {
      var init := data[..|data| - 1];
      var prev := Seeding(t, init);
      var r := Seeding(t, data);
      var d := data[|data| - 1];
      SeedCovers(t, init);
      SeedingAppends(t, init);
      assert prev.users.ExtendedBy(r.users) by {
        if Taken(prev.users, d.email) {
          ExtendedByRefl(prev.users);
        } else {
          InsertExtends(prev.users, NewUser(prev.users.nextId, d));
        }
      }
      forall i | 0 <= i < |data|
        ensures Taken(r.users, data[i].email)
      {
        if i < |data| - 1 {
          assert data[i] == init[i];
          TakenStaysTaken(prev.users, r.users, data[i].email);
        } else if Taken(prev.users, d.email) {
          TakenStaysTaken(prev.users, r.users, d.email);
        } else {
          var k := prev.users.nextId;
          assert k in r.users.rows && r.users.rows[k].email == d.email;
        }
      }
    }
  }

  /** When every entry's email is taken already, seed creates nothing and returns nothing. */
  lemma {:induction false} SeedNothingNew(t: Table<User>, data: seq<UserData>)
    requires t.Bounded()
    requires forall i :: 0 <= i < |data| ==> Taken(t, data[i].email)
    ensures Seeding(t, data) == SeedResult(t, [])
  {
    if data != [] {
      var init := data[..|data| - 1];
      assert forall i :: 0 <= i < |init| ==> init[i] == data[i];
      SeedNothingNew(t, init);
    }
  }

  /** A second run of seed creates no user and returns none. */
  lemma SeedIdempotent(t: Table<User>, data: seq<UserData>)
    requires t.Bounded()
    ensures var r := Seeding(t, data); Seeding(r.users, data) == SeedResult(r.users, [])
  {
    SeedCovers(t, data);
    SeedNothingNew(Seeding(t, data).users, data);
  }

  /** Every user seed returns is built from one of the entries: role USER, that entry's password hashed. */
  lemma {:induction false} SeededFromData(t: Table<User>, data: seq<UserData>)
    requires t.Bounded()
    ensures forall i :: 0 <= i < |Seeding(t, data).seeded| ==>
      exists j :: 0 <= j < |data| && Seeding(t, data).seeded[i] == NewUser(Seeding(t, data).seeded[i].id, data[j])
  {
    if data != [] {
      var init := data[..|data| - 1];
      var prev := Seeding(t, init);
      var d := data[|data| - 1];
      SeededFromData(t, init);
      var s := Seeding(t, data).seeded;
      assert s == prev.seeded || s == prev.seeded + [NewUser(prev.users.nextId, d)];
      forall i | 0 <= i < |s|
        ensures exists j :: 0 <= j < |data| && s[i] == NewUser(s[i].id, data[j])
      {
        if i < |prev.seeded| {
          assert s[i] == prev.seeded[i];
          var j :| 0 <= j < |init| && prev.seeded[i] == NewUser(prev.seeded[i].id, init[j]);
          assert init[j] == data[j];
        } else {
          assert s[i] == NewUser(s[i].id, data[|data| - 1]);
        }
      }
    } else {
      assert Seeding(t, data).seeded == [];
    }
  }

  /** No user seed returns had an email that was taken when seed started. */
  lemma {:induction false} SeededWereAbsent(t: Table<User>, data: seq<UserData>)
    requires t.Bounded()
    ensures forall i :: 0 <= i < |Seeding(t, data).seeded| ==> !Taken(t, Seeding(t, data).seeded[i].email)
  {
    if data != [] {
      var init := data[..|data| - 1];
      var prev := Seeding(t, init);
      var d := data[|data| - 1];
      SeededWereAbsent(t, init);
      var s := Seeding(t, data).seeded;
      if !Taken(prev.users, d.email) {
        assert !Taken(t, d.email) by {
          SeedingAppends(t, init);
          if Taken(t, d.email) {
            TakenStaysTaken(t, prev.users, d.email);
          }
        }
        assert s == prev.seeded + [NewUser(prev.users.nextId, d)];
        forall i | 0 <= i < |s|
          ensures !Taken(t, s[i].email)
        {
          if i < |prev.seeded| {
            assert s[i] == prev.seeded[i];
          }
        }
      }
    }
  }

  /** seed: the loop over the entries, with findOne by email, create and save for a new one. */
  method Seed(db: Db, data: seq<UserData>) returns (seeded: seq<User>)
    requires db.Valid()
    modifies db`users
    ensures db.Valid()
    ensures Seeding(old(db.users), data) == SeedResult(db.users, seeded)
  {
    seeded := [];
    var i := 0;
    while i < |data|
      invariant 0 <= i <= |data|
      invariant Seeding(old(db.users), data[..i]) == SeedResult(db.users, seeded)
      invariant db.users.Bounded()
    {
      var d := data[i];
      assert data[..i + 1][..i] == data[..i];
      var existing := Users.FindByEmail(db.users, d.email);
      FoundIff(db.users, d.email);
      if existing.None? {
        var u := NewUser(db.users.nextId, d);
        db.users := db.users.Insert(u);
        seeded := seeded + [u];
      }
      i := i + 1;
    }
    assert data[..|data|] == data;
    SeedingKeepsValid(old(db.users), data);
  }

  /** clear: TRUNCATE of the user table. */
  method Clear(db: Db)
    requires db.Valid()
    modifies db`users
    ensures db.Valid()
    ensures db.users == old(db.users).Cleared()
  {
    db.users := db.users.Cleared();
  }
}
