/**
 * UsersService: registration with a unique email, password change behind
 * a check of the old password, profile update by merging fields, and the
 * filtered, sorted, paged user listing that never exposes credentials.
 */
module Users {
  import opened Common
  import opened Entities
  import opened Store
  import opened Ordering
  import opened Paging
  import opened QueryDto
  import Text

  const UserNotFound := "Пользователь не найден"
  const WrongPassword := "Неправильный текущий пароль"
  const EmailTaken := "Пользователь с таким email уже существует"
  const CategoriesNotFound := "Одна или несколько категорий не найдены"

  /** What the exception filter answers for a unique-constraint violation (Postgres code 23505). */
  const DuplicateEntry := "Duplicate entry"

  /** findByEmail: findOne({ where: { email } }). */
  function FindByEmail(users: Table<User>, email: string): (r: Option<User>)
    ensures r.Some? ==> r.value in users.rows.Values && r.value.email == email
    ensures users.Bounded() ==> (r.None? <==> forall k :: k in users.rows ==> users.rows[k].email != email)
  {
    First(users.Rows(), (u: User) => u.email == email)
  }

  /** With emails unique, findByEmail finds the one row that has the email. */
  lemma FindByEmailUnique(users: Table<User>, email: string, k: Id)
    requires UniqueEmails(users.rows) && users.Bounded()
    requires k in users.rows && users.rows[k].email == email
    ensures FindByEmail(users, email) == Some(users.rows[k])
  {
    var r := FindByEmail(users, email);
    var j :| j in users.rows && users.rows[j] == r.value;
  }

  // ---- changePassword ----

  /** The checks of changePassword: the user exists and the old password matches its hash. */
  function PasswordCheck(users: Table<User>, userId: Id, oldPassword: string): (r: Result<User>)
    ensures userId !in users.rows ==> r == Err(NotFound(UserNotFound))
    ensures userId in users.rows && !Compare(oldPassword, users.rows[userId].password) ==>
      r == Err(Unauthorized(WrongPassword))
    ensures r.Ok? <==> userId in users.rows && Compare(oldPassword, users.rows[userId].password)
    ensures r.Ok? ==> r.value == users.rows[userId]
  {
    if userId !in users.rows then Err(NotFound(UserNotFound))
    else if !Compare(oldPassword, users.rows[userId].password) then Err(Unauthorized(WrongPassword))
    else Ok(users.rows[userId])
  }

  /** changePassword: only the password column changes, to the hash of the new password. */
  method ChangePassword(db: Db, userId: Id, oldPassword: string, newPassword: string) returns (r: Outcome)
    requires db.Valid()
    modifies db`users
    ensures db.Valid()
    ensures var checked := PasswordCheck(old(db.users), userId, oldPassword);
      && (checked.Err? ==> r == Fail(checked.error) && db.users == old(db.users))
      && (checked.Ok? ==>
            r == Pass && db.users == old(db.users).Put(userId, checked.value.(password := Hash(newPassword))))
  {
    var checked := PasswordCheck(db.users, userId, oldPassword);
    if checked.Err? {
      return Fail(checked.error);
    }
    db.users := db.users.Put(userId, checked.value.(password := Hash(newPassword)));
    r := Pass;
  }

  /** After a password change the new password is accepted, and the old one only if it is the same. */
  lemma ChangedPasswordAccepts(users: Table<User>, userId: Id, oldPassword: string, newPassword: string, p: string)
    requires PasswordCheck(users, userId, oldPassword).Ok?
    ensures var changed := PasswordCheck(users, userId, oldPassword).value.(password := Hash(newPassword));
      var after := users.Put(userId, changed);
      && PasswordCheck(after, userId, newPassword).Ok?
      && (PasswordCheck(after, userId, p).Ok? <==> p == newPassword)
  {
  }

  // ---- create ----

  /** The fields of CreateUserDto the service reads, plus the optional category ids. */
  datatype CreateUserDto = CreateUserDto(
    name: string, email: string, password: string, about: Option<string>, birthdate: Option<int>,
    city: Option<string>, gender: Option<Gender>, avatar: Option<string>, role: Option<Role>,
    wantToLearnCategoryIds: Option<seq<Id>>)

  /** findByIds: the categories that exist among the requested ids, each once. */
  function FoundCategories(categories: Table<Category>, ids: seq<Id>): (r: set<Id>)
    ensures forall k :: k in r <==> k in ids && k in categories.rows
  {
    set k | k in ids && k in categories.rows
  }

  /**
   * The category-count test passes exactly when every requested id names a
   * category and no id is repeated: findByIds returns each row once, so a
   * repeated id makes the counts differ.
   */
  lemma {:induction false} CategoriesResolveIff(categories: Table<Category>, ids: seq<Id>)
    ensures |FoundCategories(categories, ids)| == |ids| <==>
      (forall i :: 0 <= i < |ids| ==> ids[i] in categories.rows) && Distinct(ids)
  {
    var found := FoundCategories(categories, ids);
    var all := Elements(ids);
    ElementsCount(ids);
    assert found <= all;
    if |found| == |ids| {
      assert |found| <= |all|;
      assert |all - found| == |all| - |found| == 0;
      assert all == found;
    }
  }

  /** The row create saves: the password as its hash, the DTO's fields, the column defaults. */
  function NewUser(id: Id, dto: CreateUserDto, wantToLearn: seq<Id>): (u: User)
    ensures u.id == id && u.email == dto.email && u.name == dto.name
    ensures forall p :: Compare(p, u.password) <==> p == dto.password
    ensures u.role == dto.role.GetOr(UserRole) && u.gender == dto.gender.GetOr(Unspecified)
    ensures u.favoriteSkills == [] && u.refreshToken.None? && u.wantToLearn == wantToLearn
  {
    User(id, dto.name, dto.email, Hash(dto.password), dto.about, dto.birthdate, dto.city,
         dto.gender.GetOr(Unspecified), dto.avatar, dto.role.GetOr(UserRole), wantToLearn, [], None)
  }

  /**
   * The checks of create, in order: the email is free, then every given
   * category id resolves. On success: the categories the user wants to learn.
   */
  function CreateCheck(users: Table<User>, categories: Table<Category>, dto: CreateUserDto): (r: Result<seq<Id>>)
    ensures FindByEmail(users, dto.email).Some? ==> r == Err(Conflict(EmailTaken))
    ensures FindByEmail(users, dto.email).None? && dto.wantToLearnCategoryIds.Some? && dto.wantToLearnCategoryIds.value != []
      && |FoundCategories(categories, dto.wantToLearnCategoryIds.value)| != |dto.wantToLearnCategoryIds.value|
      ==> r == Err(NotFound(CategoriesNotFound))
    ensures r.Ok? ==> FindByEmail(users, dto.email).None?
    ensures r.Ok? ==> r.value == dto.wantToLearnCategoryIds.GetOr([])
    ensures r.Ok? ==> forall i :: 0 <= i < |r.value| ==> r.value[i] in categories.rows
    ensures r.Ok? ==> Distinct(r.value)
  {
    if FindByEmail(users, dto.email).Some? then Err(Conflict(EmailTaken))
    else if dto.wantToLearnCategoryIds.Some? && dto.wantToLearnCategoryIds.value != [] then
      var ids := dto.wantToLearnCategoryIds.value;
      CategoriesResolveIff(categories, ids);
      if |FoundCategories(categories, ids)| != |ids| then Err(NotFound(CategoriesNotFound))
      else Ok(ids)
    else Ok([])
  }

  /** create: on success one new row, with the hashed password; on failure nothing is stored. */
  method Create(db: Db, dto: CreateUserDto) returns (r: Result<User>)
    requires db.Valid()
    modifies db`users
    ensures db.Valid()
    ensures var checked := CreateCheck(old(db.users), db.categories, dto);
      && (checked.Err? ==> r == Err(checked.error) && db.users == old(db.users))
      && (checked.Ok? ==>
            var u := NewUser(old(db.users.nextId), dto, checked.value);
            r == Ok(u) && db.users == old(db.users).Insert(u))
  {
    var checked := CreateCheck(db.users, db.categories, dto);
    if checked.Err? {
      return Err(checked.error);
    }
    var u := NewUser(db.users.nextId, dto, checked.value);
    db.users := db.users.Insert(u);
    r := Ok(u);
  }

  /** A second registration with the same email is refused. */
  lemma CreateTwiceConflicts(users: Table<User>, categories: Table<Category>, dto: CreateUserDto, dto2: CreateUserDto)
    requires users.Bounded() && CreateCheck(users, categories, dto).Ok? && dto2.email == dto.email
    ensures var after := users.Insert(NewUser(users.nextId, dto, CreateCheck(users, categories, dto).value));
      CreateCheck(after, categories, dto2) == Err(Conflict(EmailTaken))
  {
    var u := NewUser(users.nextId, dto, CreateCheck(users, categories, dto).value);
    var after := users.Insert(u);
    assert after.rows[users.nextId].email == dto2.email;
  }

  // ---- findAll ----

  const AllowedSortFields: seq<string> := ["name", "email", "city", "birthdate"]

  /** The ORDER BY column: sortBy if whitelisted, otherwise name. */
  function SortField(sortBy: string): (f: string)
    ensures f in AllowedSortFields
    ensures sortBy in AllowedSortFields ==> f == sortBy
    ensures sortBy !in AllowedSortFields ==> f == "name"
  {
    if sortBy in AllowedSortFields then sortBy else "name"
  }

  /** The value of a sort column; city and birthdate are nullable. */
  function Column(field: string, u: User): SortKey {
    if field == "email" then SortKey.Text(u.email)
    else if field == "city" then (if u.city.Some? then SortKey.Text(u.city.value) else Absent)
    else if field == "birthdate" then (if u.birthdate.Some? then Num(u.birthdate.value) else Absent)
    else SortKey.Text(u.name)
  }

  /** `if (x)` on an optional query string: absent and '' both mean no filter. */
  predicate Given(s: Option<string>) {
    s.Some? && s.value != ""
  }

  /** The WHERE clause of findAll: every filter given must hold (ILIKE for search). */
  predicate Matches(q: UsersQuery, u: User) {
    && (Given(q.city) ==> u.city == q.city)
    && (q.gender.Some? ==> u.gender == q.gender.value)
    && (q.role.Some? ==> u.role == q.role.value)
    && (Given(q.search) ==>
          Text.ContainsFolded(u.name, q.search.value) || Text.ContainsFolded(u.email, q.search.value))
  }

  /** The matching rows, in ORDER BY sortField order (ASC unless DESC is asked for). */
  function Listing(users: Table<User>, q: UsersQuery): (r: seq<User>)
    ensures OrderedBy(r, (u: User) => Column(SortField(q.sortBy.GetOr("name")), u), q.order == Some(Desc))
    ensures forall i :: 0 <= i < |r| ==> r[i] in users.rows.Values && Matches(q, r[i])
    ensures users.Bounded() ==> forall k :: k in users.rows ==> (users.rows[k] in r <==> Matches(q, users.rows[k]))
    ensures forall u :: multiset(r)[u] == if Matches(q, u) then multiset(users.Rows())[u] else 0
  {
    var matching := Filter(users.Rows(), (u: User) => Matches(q, u));
    FilterMultiplicity(users.Rows(), (u: User) => Matches(q, u));
    var key := (u: User) => Column(SortField(q.sortBy.GetOr("name")), u);
    SortByKeepsRows(matching, key, q.order == Some(Desc));
    SortBy(matching, key, q.order == Some(Desc))
  }

  /** The listing holds each matching user exactly once, so its length is the number of matching users. */
  lemma ListingOnce(users: Table<User>, q: UsersQuery)
    requires users.Bounded() && UserIds(users.rows)
    ensures Distinct(Listing(users, q))
    ensures |Listing(users, q)| == |set u | u in users.rows.Values && Matches(q, u)|
  {
    var l := Listing(users, q);
    SelectedOnce(users, (u: User) => u.id, (u: User) => Matches(q, u), l);
    DistinctCount(l, set u | u in users.rows.Values && Matches(q, u));
  }

  datatype UsersPage = UsersPage(users: seq<PublicUser>, total: nat)

  /**
   * findAll: page `page` (default 1) of `limit` rows (default 20) of the
   * listing, projected to the public columns, and the number of matches.
   */
  function FindAll(users: Table<User>, q: UsersQuery): (r: UsersPage)
    requires ValidUsersQuery(q)
    ensures r.total == |Listing(users, q)|
    ensures var skip := Skip(q.page.GetOr(1), q.limit.GetOr(20));
      && |r.users| == |Page(Listing(users, q), skip, q.limit.GetOr(20))|
      && forall i :: 0 <= i < |r.users| ==> r.users[i] == Public(Listing(users, q)[skip + i])
  {
    var listing := Listing(users, q);
    var rows := Page(listing, Skip(q.page.GetOr(1), q.limit.GetOr(20)), q.limit.GetOr(20));
    UsersPage(seq(|rows|, i requires 0 <= i < |rows| => Public(rows[i])), |listing|)
  }

  /** The total findAll reports is the number of users that match the filters. */
  lemma FindAllTotal(users: Table<User>, q: UsersQuery)
    requires ValidUsersQuery(q) && users.Bounded() && UserIds(users.rows)
    ensures FindAll(users, q).total == |set u | u in users.rows.Values && Matches(q, u)|
  {
    ListingOnce(users, q);
  }

  /** The query with no parameter given. */
  const EmptyQuery := UsersQuery(None, None, None, None, None, None, None, None)

  /**
   * The filters of the WHERE clause are independent: the empty query admits
   * every user, and each given filter only narrows the result.
   */
  lemma MatchesNarrows(q: UsersQuery, u: User)
    ensures Matches(EmptyQuery, u)
    ensures Matches(q, u) ==>
      && Matches(q.(city := None), u) && Matches(q.(gender := None), u)
      && Matches(q.(role := None), u) && Matches(q.(search := None), u)
  {
  }

  /** The search is case-insensitive: folding the search text beforehand selects the same users. */
  lemma SearchIgnoresCase(q: UsersQuery, u: User, t: string)
    ensures Matches(q.(search := Some(Text.LowerStr(t))), u) <==> Matches(q.(search := Some(t)), u)
  {
    Text.ContainsFoldedLaws(u.name, t);
    Text.ContainsFoldedLaws(u.email, t);
  }

  /** An empty query reads at most the first 20 rows of the listing. */
  lemma FindAllDefaults(users: Table<User>)
    ensures |FindAll(users, EmptyQuery).users| == (if |Listing(users, EmptyQuery)| < 20 then |Listing(users, EmptyQuery)| else 20)
  {
    assert Skip(1, 20) == 0;
  }

  /** An empty query lists the rows by name, ascending. */
  lemma DefaultOrderIsName(users: Table<User>)
    ensures OrderedBy(Listing(users, EmptyQuery), (u: User) => SortKey.Text(u.name), false)
  {
    var l := Listing(users, EmptyQuery);
    assert SortField(EmptyQuery.sortBy.GetOr("name")) == "name";
    forall i, j | 0 <= i < j < |l| ensures KeyOrder(SortKey.Text(l[i].name), SortKey.Text(l[j].name), false) {
      assert Column("name", l[i]) == SortKey.Text(l[i].name);
      assert Column("name", l[j]) == SortKey.Text(l[j].name);
    }
  }

  // ---- findById ----

  /** findById: the public columns of the user, or NotFound. */
  function FindById(users: Table<User>, id: Id): (r: Result<PublicUser>)
    ensures id !in users.rows ==> r == Err(NotFound(UserNotFound))
    ensures id in users.rows ==> r == Ok(Public(users.rows[id]))
  {
    if id in users.rows then Ok(Public(users.rows[id])) else Err(NotFound(UserNotFound))
  }

  // ---- remove ----

  /** The remove stub: a message that names the id; nothing is read or written. */
  function RemoveStub(id: int): (msg: string)
    ensures Text.Contains(msg, IntText(id)) && Text.OccursAt(msg, "removes", 12)
  {
    Text.ActionMessage("removes", IntText(id), "user")
  }

  // ---- update ----

  /** The fields of an update; an absent field keeps its stored value. */
  datatype UserPatch = UserPatch(
    name: Option<string>, email: Option<string>, about: Option<string>, birthdate: Option<int>,
    city: Option<string>, gender: Option<Gender>, avatar: Option<string>, role: Option<Role>)

  /** `{ ...existingUser, ...dto }`: the DTO's fields overwrite, the others (and the id) stay. */
  function Merge(u: User, p: UserPatch): (v: User)
    ensures v.id == u.id && v.password == u.password && v.refreshToken == u.refreshToken
    ensures v.wantToLearn == u.wantToLearn && v.favoriteSkills == u.favoriteSkills
    ensures v.name == p.name.GetOr(u.name) && v.email == p.email.GetOr(u.email)
    ensures v.about == (if p.about.Some? then p.about else u.about)
    ensures v.birthdate == (if p.birthdate.Some? then p.birthdate else u.birthdate)
    ensures v.city == (if p.city.Some? then p.city else u.city)
    ensures v.avatar == (if p.avatar.Some? then p.avatar else u.avatar)
    ensures v.gender == p.gender.GetOr(u.gender) && v.role == p.role.GetOr(u.role)
  {
    u.(name := p.name.GetOr(u.name), email := p.email.GetOr(u.email),
       about := if p.about.Some? then p.about else u.about,
       birthdate := if p.birthdate.Some? then p.birthdate else u.birthdate,
       city := if p.city.Some? then p.city else u.city,
       gender := p.gender.GetOr(u.gender),
       avatar := if p.avatar.Some? then p.avatar else u.avatar,
       role := p.role.GetOr(u.role))
  }

  /** An empty patch changes nothing, and applying a patch twice is applying it once. */
  lemma MergeLaws(u: User, p: UserPatch)
    ensures Merge(u, UserPatch(None, None, None, None, None, None, None, None)) == u
    ensures Merge(Merge(u, p), p) == Merge(u, p)
  {
  }

  /**
   * update: NotFound for an unknown id; an email another user already has
   * violates the unique constraint on save. On success: the merged row.
   */
  function UpdateCheck(users: Table<User>, id: Id, p: UserPatch): (r: Result<User>)
    ensures id !in users.rows ==> r == Err(NotFound(UserNotFound))
    ensures r.Ok? ==> id in users.rows && r.value == Merge(users.rows[id], p)
    ensures id in users.rows ==> (r.Err? <==>
      exists k :: k in users.rows && k != id && users.rows[k].email == Merge(users.rows[id], p).email)
  {
    if id !in users.rows then Err(NotFound(UserNotFound))
    else
      var v := Merge(users.rows[id], p);
      if exists k :: k in users.rows && k != id && users.rows[k].email == v.email then Err(Conflict(DuplicateEntry))
      else Ok(v)
  }

  /** update: the merged row replaces the stored one; on failure nothing changes. */
  method Update(db: Db, id: Id, p: UserPatch) returns (r: Result<User>)
    requires db.Valid()
    modifies db`users
    ensures db.Valid()
    ensures var checked := UpdateCheck(old(db.users), id, p);
      && (checked.Err? ==> r == Err(checked.error) && db.users == old(db.users))
      && (checked.Ok? ==> r == checked && db.users == old(db.users).Put(id, checked.value))
  {
    var checked := UpdateCheck(db.users, id, p);
    if checked.Err? {
      return Err(checked.error);
    }
    db.users := db.users.Put(id, checked.value);
    r := checked;
  }

  // ---- updateRefreshToken ----

  /** A column value passed to update(): a value, or undefined. */
  datatype ColumnValue = Assign(value: string) | Undefined

  /** updateRefreshToken's argument: `refreshToken ?? undefined`, so null is never written as such. */
  function RefreshTokenValue(token: Option<string>): (c: ColumnValue)
    ensures token.Some? ==> c == Assign(token.value)
    ensures token.None? ==> c == Undefined
  {
    if token.Some? then Assign(token.value) else Undefined
  }
}
