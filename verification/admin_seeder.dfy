/**
 * AdminSeeder: creates the administrator from the ADMIN_EMAIL and
 * ADMIN_PASSWORD settings, unless a setting is missing or a user with that
 * email exists already.
 */
module AdminSeeder {
  import opened Common
  import opened Entities
  import opened Store
  import Users
  import opened UsersSeeder

  /** A setting that is missing or empty counts as not set. */
  predicate IsSet(setting: Option<string>) {
    setting.Some? && setting.value != ""
  }

  /** The administrator row: name ADMIN, role ADMIN, gender male, the password hashed. */
  function NewAdmin(id: Id, email: string, password: string): (u: User)
    ensures u.id == id && u.name == "ADMIN" && u.email == email
    ensures u.role == AdminRole && u.gender == Male
    ensures forall p :: Compare(p, u.password) <==> p == password
    ensures u.favoriteSkills == [] && u.wantToLearn == []
  {
    User(id, "ADMIN", email, Hash(password), None, None, None, Male, None, AdminRole, [], [], None)
  }

  /**
   * What seed does: nothing when a setting is not set or the email is
   * taken; otherwise one new row, the administrator, which is also the
   * only user returned.
   */
  function AdminSeeding(t: Table<User>, email: Option<string>, password: Option<string>): (r: SeedResult)
    requires t.Bounded()
    ensures !IsSet(email) || !IsSet(password) ==> r == SeedResult(t, [])
    ensures IsSet(email) && Taken(t, email.value) ==> r == SeedResult(t, [])
    ensures r.seeded != [] <==> IsSet(email) && IsSet(password) && !Taken(t, email.value)
    ensures r.seeded != [] ==>
      && r.seeded == [NewAdmin(t.nextId, email.value, password.value)]
      && r.users == t.Insert(r.seeded[0])
  {
    if !IsSet(email) || !IsSet(password) then SeedResult(t, [])
    else if Taken(t, email.value) then SeedResult(t, [])
    else
      var admin := NewAdmin(t.nextId, email.value, password.value);
      SeedResult(t.Insert(admin), [admin])
  }

  /** A second run creates nothing: the administrator's email is taken by then. */
  lemma AdminSeedIdempotent(t: Table<User>, email: Option<string>, password: Option<string>)
    requires t.Bounded()
    ensures var r := AdminSeeding(t, email, password);
      AdminSeeding(r.users, email, password) == SeedResult(r.users, [])
  {
    var r := AdminSeeding(t, email, password);
    if r.seeded != [] {
      assert r.users.rows[t.nextId].email == email.value;
    }
  }

  /** seed: reads both settings, looks the email up, and creates and saves the administrator if needed. */
  method Seed(db: Db, adminEmail: Option<string>, adminPassword: Option<string>) returns (seeded: seq<User>)
    requires db.Valid()
    modifies db`users
    ensures db.Valid()
    ensures AdminSeeding(old(db.users), adminEmail, adminPassword) == SeedResult(db.users, seeded)
  {
    if !IsSet(adminEmail) || !IsSet(adminPassword) {
      return [];
    }
    seeded := [];
    var existingUser := Users.FindByEmail(db.users, adminEmail.value);
    FoundIff(db.users, adminEmail.value);
    if existingUser.None? {
      var user := NewAdmin(db.users.nextId, adminEmail.value, adminPassword.value);
      InsertFresh(db.users, user);
      db.users := db.users.Insert(user);
      seeded := seeded + [user];
    }
  }
}
