/**
 * SkillsService: publishing a skill under an existing category, the
 * searchable paged catalogue, owner-only update and delete, and the
 * favourites list of a user.
 */
module Skills {
  import opened Common
  import opened Entities
  import opened Store
  import opened Paging
  import opened QueryDto
  import Text
  import Users

  function CategoryNotFound(id: Id): string {
    "Категория с ID \"" + Text.Decimal(id) + "\" не найдена."
  }

  function SkillNotFound(id: Id): string {
    "Навык с ID \"" + Text.Decimal(id) + "\" не найден."
  }

  const NoAccess := "Нет доступа."
  const FavoriteSkillNotFound := "Навык не найден"
  const AlreadyFavorite := "Навык уже добавлен в избранное"

  /** The TypeError JavaScript raises when `skill.owner.id` is read on a null owner. */
  const NullOwner := "Cannot read properties of null (reading 'id')"

  /**
   * The ORM's EntityPropertyNotFoundError for an update key that names no
   * property of Skill: `categoryId` is only the join column of `category`.
   */
  const UnknownCategoryProperty := "Property \"categoryId\" was not found in \"Skill\". Make sure your query is correct."

  /** PostgreSQL's foreign-key violation (23503) for deleting a skill that a request still names. */
  const SkillStillReferenced := "update or delete on table \"skill\" violates foreign key constraint on table \"requests\""

  /** The ORM's UpdateValuesMissingError for an update with no column to set. */
  const NoUpdateValues := "Cannot perform update query because update values are not defined. Call \"qb.set(...)\" method to specify updated values."

  function PageNotFound(page: nat, totalPages: nat): string {
    "Page " + Text.Decimal(page) + " does not exist. Total pages: " + Text.Decimal(totalPages)
  }

  // ---- create ----

  datatype CreateSkillDto = CreateSkillDto(
    title: string, description: Option<string>, categoryId: Id, images: Option<seq<string>>)

  /** The row create saves: the DTO's fields, its category and the given owner. */
  function NewSkill(id: Id, dto: CreateSkillDto, ownerId: Id): (s: Skill)
    ensures s.id == id && s.category == Some(dto.categoryId) && s.owner == Some(ownerId)
    ensures s.title == dto.title && s.description == dto.description && s.images == dto.images
  {
    Skill(id, dto.title, dto.description, Some(dto.categoryId), dto.images, Some(ownerId))
  }

  /** create: NotFound when the category does not exist, and then nothing is stored. */
  method Create(db: Db, dto: CreateSkillDto, ownerId: Id) returns (r: Result<Skill>)
    requires db.Valid()
    modifies db`skills
    ensures db.Valid()
    ensures dto.categoryId !in db.categories.rows ==>
      r == Err(NotFound(CategoryNotFound(dto.categoryId))) && db.skills == old(db.skills)
    ensures dto.categoryId in db.categories.rows ==>
      var s := NewSkill(old(db.skills.nextId), dto, ownerId);
      r == Ok(s) && db.skills == old(db.skills).Insert(s)
  {
    if dto.categoryId !in db.categories.rows {
      return Err(NotFound(CategoryNotFound(dto.categoryId)));
    }
    var s := NewSkill(db.skills.nextId, dto, ownerId);
    db.skills := db.skills.Insert(s);
    r := Ok(s);
  }

  // ---- findAll ----

  /**
   * The WHERE clause of findAll. The category filter compares the joined
   * category's id with the query string; the search is a case-insensitive
   * substring of the title, the category's name or its parent's name. A
   * null join matches neither.
   */
  predicate Matches(categories: Table<Category>, q: FindSkillsQuery, s: Skill) {
    var category := Load(categories, s.category);
    var parent := if category.Some? then Load(categories, category.value.parent) else None;
    && (Users.Given(q.category) ==> category.Some? && Text.Decimal(category.value.id) == q.category.value)
    && (q.search != "" ==>
          || Text.ContainsFolded(s.title, q.search)
          || (category.Some? && Text.ContainsFolded(category.value.name, q.search))
          || (parent.Some? && Text.ContainsFolded(parent.value.name, q.search)))
  }

  /**
   * The two filters are independent: with neither every skill matches, each
   * only narrows the result, and a title containing the search (in any
   * case) is enough when no category is given.
   */
  lemma MatchesNarrows(categories: Table<Category>, q: FindSkillsQuery, s: Skill)
    ensures Matches(categories, q.(category := None, search := ""), s)
    ensures Matches(categories, q, s) ==>
      Matches(categories, q.(category := None), s) && Matches(categories, q.(search := ""), s)
    ensures !Users.Given(q.category) && Text.Contains(s.title, q.search) ==> Matches(categories, q, s)
  {
    Text.ContainsFoldedLaws(s.title, q.search);
  }

  /** The matching skills, in row order (the query has no ORDER BY). */
  function Matching(skills: Table<Skill>, categories: Table<Category>, q: FindSkillsQuery): (r: seq<Skill>)
    ensures forall i :: 0 <= i < |r| ==> r[i] in skills.rows.Values && Matches(categories, q, r[i])
    ensures skills.Bounded() ==>
      forall k :: k in skills.rows ==> (skills.rows[k] in r <==> Matches(categories, q, skills.rows[k]))
    ensures forall s :: multiset(r)[s] == if Matches(categories, q, s) then multiset(skills.Rows())[s] else 0
  {
    FilterMultiplicity(skills.Rows(), (s: Skill) => Matches(categories, q, s));
    Filter(skills.Rows(), (s: Skill) => Matches(categories, q, s))
  }

  /** The matching skills are listed once each, so their number is the total findAll counts. */
  lemma MatchingOnce(skills: Table<Skill>, categories: Table<Category>, q: FindSkillsQuery)
    requires skills.Bounded() && SkillIds(skills.rows)
    ensures Distinct(Matching(skills, categories, q))
    ensures |Matching(skills, categories, q)| == |set s | s in skills.rows.Values && Matches(categories, q, s)|
  {
    var m := Matching(skills, categories, q);
    SelectedOnce(skills, (s: Skill) => s.id, (s: Skill) => Matches(categories, q, s), m);
    DistinctCount(m, set s | s in skills.rows.Values && Matches(categories, q, s));
  }

  /**
   * A well-formed category in the query selects the skills whose category
   * has the id it denotes, and no other.
   */
  lemma CategoryFilterById(categories: Table<Category>, q: FindSkillsQuery, s: Skill)
    requires Users.Given(q.category) && Text.IsDecimal(q.category.value) && q.search == ""
    ensures Matches(categories, q, s) <==>
      s.category.Some? && s.category.value in categories.rows
      && categories.rows[s.category.value].id == Text.DigitsValue(q.category.value)
  {
    Text.DecimalOfValue(q.category.value);
    if s.category.Some? && s.category.value in categories.rows {
      var id := categories.rows[s.category.value].id;
      if Text.Decimal(id) == q.category.value {
        assert Text.DigitsValue(Text.Decimal(id)) == id;
      }
    }
  }

  /** The database's answer to a category that is not a well-formed id; the global filter turns it into a 500. */
  function InvalidId(text: string): string {
    "invalid input syntax for type uuid: \"" + text + "\""
  }

  datatype SkillsPage = SkillsPage(data: seq<Skill>, page: int, totalPages: nat)

  /** The category filter names something that is not an id, which the database refuses. */
  predicate MalformedCategory(q: FindSkillsQuery) {
    Users.Given(q.category) && !Text.IsDecimal(q.category.value)
  }

  /**
   * findAll: the query fails when the category is not a well-formed id;
   * otherwise rows (page-1)*limit onwards, at most limit of them, with
   * totalPages = ceil(total/limit); a page past the last one is NotFound,
   * unless nothing matched at all.
   */
  function FindAll(skills: Table<Skill>, categories: Table<Category>, q: FindSkillsQuery): (r: Result<SkillsPage>)
    requires ValidFindSkills(q)
    ensures MalformedCategory(q) ==> r == Err(Internal(InvalidId(q.category.value)))
    ensures !MalformedCategory(q) ==> var total := |Matching(skills, categories, q)|;
      && (r.Err? <==> q.page > TotalPages(total, q.limit) && total > 0)
      && (r.Err? ==> r.error == NotFound(PageNotFound(q.page, TotalPages(total, q.limit))))
      && (r.Ok? ==> r.value == SkillsPage(
            Page(Matching(skills, categories, q), Skip(q.page, q.limit), q.limit), q.page, TotalPages(total, q.limit)))
  {
    if MalformedCategory(q) then Err(Internal(InvalidId(q.category.value)))
    else
      var matching := Matching(skills, categories, q);
      var data := Page(matching, Skip(q.page, q.limit), q.limit);
      var totalPages := TotalPages(|matching|, q.limit);
      if q.page > totalPages && |matching| > 0 then Err(NotFound(PageNotFound(q.page, totalPages)))
      else Ok(SkillsPage(data, q.page, totalPages))
  }

  /** totalPages counts each matching skill once: it is ceil(matches/limit). */
  lemma FindAllTotalPages(skills: Table<Skill>, categories: Table<Category>, q: FindSkillsQuery)
    requires ValidFindSkills(q) && skills.Bounded() && SkillIds(skills.rows)
    requires FindAll(skills, categories, q).Ok?
    ensures FindAll(skills, categories, q).value.totalPages ==
      TotalPages(|set s | s in skills.rows.Values && Matches(categories, q, s)|, q.limit)
  {
    MatchingOnce(skills, categories, q);
  }

  /**
   * A page findAll answers holds between 1 and `limit` skills, all matching,
   * unless nothing matched, in which case it is empty with totalPages 0.
   */
  lemma {:induction false} FindAllAnswers(skills: Table<Skill>, categories: Table<Category>, q: FindSkillsQuery)
    requires ValidFindSkills(q) && FindAll(skills, categories, q).Ok?
    ensures var r := FindAll(skills, categories, q).value;
      var total := |Matching(skills, categories, q)|;
      && |r.data| <= q.limit
      && (total == 0 ==> r.data == [] && r.totalPages == 0)
      && (total > 0 ==> |r.data| >= 1)
      && forall i :: 0 <= i < |r.data| ==> Matches(categories, q, r.data[i])
  {
    PageEmptyIff(Matching(skills, categories, q), q.page, q.limit);
  }

  // ---- findOne ----

  /** The findOne stub: a message that names the id; nothing is read. */
  function FindOneStub(id: int): (msg: string)
    ensures Text.Contains(msg, IntText(id)) && Text.OccursAt(msg, "returns", 12)
  {
    Text.ActionMessage("returns", IntText(id), "skill")
  }

  // ---- update and remove: the shared checks ----

  /** The checks of update and remove: the skill exists, its owner is loaded, and the owner is the caller. */
  function OwnedSkill(users: Table<User>, skills: Table<Skill>, id: Id, userId: Id): (r: Result<Skill>)
    ensures id !in skills.rows ==> r == Err(NotFound(SkillNotFound(id)))
    ensures id in skills.rows && Load(users, skills.rows[id].owner).None? ==> r == Err(Internal(NullOwner))
    ensures (id in skills.rows && Load(users, skills.rows[id].owner).Some?
             && Load(users, skills.rows[id].owner).value.id != userId) ==> r == Err(Forbidden(NoAccess))
    ensures r.Ok? <==>
      id in skills.rows && Load(users, skills.rows[id].owner).Some? && Load(users, skills.rows[id].owner).value.id == userId
    ensures r.Ok? ==> r.value == skills.rows[id]
  {
    if id !in skills.rows then Err(NotFound(SkillNotFound(id)))
    else
      var owner := Load(users, skills.rows[id].owner);
      if owner.None? then Err(Internal(NullOwner))
      else if owner.value.id != userId then Err(Forbidden(NoAccess))
      else Ok(skills.rows[id])
  }

  /** Only the owner gets past the checks. */
  lemma OnlyOwnerPasses(users: Table<User>, skills: Table<Skill>, id: Id, userId: Id)
    requires UserIds(users.rows) && OwnedSkill(users, skills, id, userId).Ok?
    ensures skills.rows[id].owner == Some(userId)
  {
  }

  // ---- update ----

  datatype UpdateSkillDto = UpdateSkillDto(
    title: Option<string>, description: Option<string>, categoryId: Option<Id>, images: Option<seq<string>>)

  /**
   * The columns update writes: title, description and images. The id, the
   * owner and the category stay, since a `categoryId` key never reaches a
   * column (see `Update`).
   */
  function PatchSkill(s: Skill, dto: UpdateSkillDto): (t: Skill)
    ensures t.id == s.id && t.owner == s.owner && t.category == s.category
    ensures t.title == dto.title.GetOr(s.title)
    ensures t.description == (if dto.description.Some? then dto.description else s.description)
    ensures t.images == (if dto.images.Some? then dto.images else s.images)
  {
    s.(title := dto.title.GetOr(s.title),
       description := if dto.description.Some? then dto.description else s.description,
       images := if dto.images.Some? then dto.images else s.images)
  }

  /** An empty update changes nothing; applying an update twice is applying it once. */
  lemma PatchSkillLaws(s: Skill, dto: UpdateSkillDto)
    ensures PatchSkill(s, UpdateSkillDto(None, None, None, None)) == s
    ensures PatchSkill(PatchSkill(s, dto), dto) == PatchSkill(s, dto)
  {
  }

  /** A body with no field left after the whitelist: the ORM has nothing to set. */
  predicate EmptyPatch(dto: UpdateSkillDto) {
    dto.title.None? && dto.description.None? && dto.categoryId.None? && dto.images.None?
  }

  /**
   * update: after the ownership checks, a given categoryId must exist. The
   * whole DTO then goes to the ORM's update, which throws for the key
   * `categoryId` (no such property) and for an empty DTO; both become a 500.
   * Only a non-empty patch of title, description and images is stored.
   */
  method Update(db: Db, id: Id, dto: UpdateSkillDto, userId: Id) returns (r: Result<Skill>)
    requires db.Valid()
    modifies db`skills
    ensures db.Valid()
    ensures var owned := OwnedSkill(db.users, old(db.skills), id, userId);
      && (owned.Err? ==> r == Err(owned.error) && db.skills == old(db.skills))
      && (owned.Ok? && dto.categoryId.Some? && dto.categoryId.value !in db.categories.rows ==>
            r == Err(NotFound(CategoryNotFound(dto.categoryId.value))) && db.skills == old(db.skills))
      && (owned.Ok? && dto.categoryId.Some? && dto.categoryId.value in db.categories.rows ==>
            r == Err(Internal(UnknownCategoryProperty)) && db.skills == old(db.skills))
      && (owned.Ok? && EmptyPatch(dto) ==> r == Err(Internal(NoUpdateValues)) && db.skills == old(db.skills))
      && (owned.Ok? && dto.categoryId.None? && !EmptyPatch(dto) ==>
            r == Ok(PatchSkill(owned.value, dto)) && db.skills == old(db.skills).Put(id, PatchSkill(owned.value, dto)))
  {
    var owned := OwnedSkill(db.users, db.skills, id, userId);
    if owned.Err? {
      return Err(owned.error);
    }
    if dto.categoryId.Some? {
      if dto.categoryId.value !in db.categories.rows {
        return Err(NotFound(CategoryNotFound(dto.categoryId.value)));
      }
      return Err(Internal(UnknownCategoryProperty));
    }
    if EmptyPatch(dto) {
      return Err(Internal(NoUpdateValues));
    }
    var patched := PatchSkill(owned.value, dto);
    db.skills := db.skills.Put(id, patched);
    r := Ok(patched);
  }

  // ---- remove ----

  /** The upload file one image URL names: the text after its last '/', unless that is empty. */
  function FileOf(url: string): (files: seq<string>)
    ensures |files| <= 1
    ensures forall i :: 0 <= i < |files| ==> files[i] != [] && '/' !in files[i]
  {
    var name := Text.LastSegment(url);
    if name != [] then [name] else []
  }

  /** The upload files remove considers, one image URL after the other. */
  function ImageFiles(images: seq<string>): (names: seq<string>)
    ensures |names| <= |images|
    ensures forall i :: 0 <= i < |names| ==> names[i] != [] && '/' !in names[i]
  {
    if images == [] then []
    else ImageFiles(images[..|images| - 1]) + FileOf(images[|images| - 1])
  }

  /** The loop of remove over the skill's images, collecting the file names it would unlink. */
  method FilesToUnlink(urls: seq<string>) returns (names: seq<string>)
    ensures names == ImageFiles(urls)
  {
    names := [];
    var i := 0;
    while i < |urls|
      invariant 0 <= i <= |urls|
      invariant names == ImageFiles(urls[..i])
    {
      assert urls[..i + 1][..i] == urls[..i];
      var fileName := Text.LastSegment(urls[i]);
      if fileName != [] {
        names := names + [fileName];
      }
      i := i + 1;
    }
    assert urls[..i] == urls;
  }

  /** An image URL `dir/name` makes remove consider the upload file `name`. */
  lemma ImageFileOfUrl(dir: string, name: string)
    requires '/' !in name && name != []
    ensures ImageFiles([dir + "/" + name]) == [name]
  {
    Text.LastSegmentAfterSlash(dir, name);
    assert [dir + "/" + name][..0] == [];
  }

  /** Some request names the skill as its offered or its requested skill. */
  predicate Referenced(requests: Table<Request>, id: Id) {
    exists k | k in requests.rows :: requests.rows[k].offeredSkill == id || requests.rows[k].requestedSkill == id
  }

  /**
   * remove: after the ownership checks, the image files are considered for
   * unlinking (the file system is not modelled: their names are returned)
   * and the row is deleted. The requests' skill columns are foreign keys
   * with no ON DELETE action, so deleting a skill that a request names is
   * refused by the database (a 500) after the files were considered.
   */
  method Remove(db: Db, id: Id, userId: Id) returns (r: Outcome, files: seq<string>)
    requires db.Valid()
    modifies db`skills
    ensures db.Valid()
    ensures var owned := OwnedSkill(db.users, old(db.skills), id, userId);
      && (owned.Err? ==> r == Fail(owned.error) && files == [] && db.skills == old(db.skills))
      && (owned.Ok? ==> files == if owned.value.images.Some? then ImageFiles(owned.value.images.value) else [])
      && (owned.Ok? && Referenced(db.requests, id) ==>
            r == Fail(Internal(SkillStillReferenced)) && db.skills == old(db.skills))
      && (owned.Ok? && !Referenced(db.requests, id) ==> r == Pass && db.skills == old(db.skills).Delete(id))
  {
    var owned := OwnedSkill(db.users, db.skills, id, userId);
    if owned.Err? {
      return Fail(owned.error), [];
    }
    files := [];
    if owned.value.images.Some? && |owned.value.images.value| > 0 {
      files := FilesToUnlink(owned.value.images.value);
    }
    if Referenced(db.requests, id) {
      return Fail(Internal(SkillStillReferenced)), files;
    }
    db.skills := db.skills.Delete(id);
    r := Pass;
  }

  // ---- addToFavorites ----

  /**
   * The checks of addToFavorites, in order: the skill exists, a user has
   * the email, and the skill is not yet among the user's favourites. On
   * success: the user with the skill appended.
   */
  function FavoriteCheck(users: Table<User>, skills: Table<Skill>, skillId: Id, userEmail: string): (r: Result<User>)
    ensures skillId !in skills.rows ==> r == Err(NotFound(FavoriteSkillNotFound))
    ensures skillId in skills.rows && Users.FindByEmail(users, userEmail).None? ==> r == Err(NotFound(Users.UserNotFound))
    ensures (skillId in skills.rows && Users.FindByEmail(users, userEmail).Some?
             && skillId in Users.FindByEmail(users, userEmail).value.favoriteSkills) ==> r == Err(Conflict(AlreadyFavorite))
    ensures r.Ok? <==>
      && skillId in skills.rows && Users.FindByEmail(users, userEmail).Some?
      && skillId !in Users.FindByEmail(users, userEmail).value.favoriteSkills
    ensures r.Ok? ==> var u := Users.FindByEmail(users, userEmail).value;
      r.value == u.(favoriteSkills := u.favoriteSkills + [skillId])
  {
    if skillId !in skills.rows then Err(NotFound(FavoriteSkillNotFound))
    else
      var u := Users.FindByEmail(users, userEmail);
      if u.None? then Err(NotFound(Users.UserNotFound))
      else if skillId in u.value.favoriteSkills then Err(Conflict(AlreadyFavorite))
      else Ok(u.value.(favoriteSkills := u.value.favoriteSkills + [skillId]))
  }

  /** A favourites list without repeats keeps none after an accepted addToFavorites. */
  lemma FavoritesStayDistinct(users: Table<User>, skills: Table<Skill>, skillId: Id, userEmail: string)
    requires FavoriteCheck(users, skills, skillId, userEmail).Ok?
    requires Distinct(Users.FindByEmail(users, userEmail).value.favoriteSkills)
    ensures Distinct(FavoriteCheck(users, skills, skillId, userEmail).value.favoriteSkills)
  {
    var before := Users.FindByEmail(users, userEmail).value.favoriteSkills;
    var after := FavoriteCheck(users, skills, skillId, userEmail).value.favoriteSkills;
    forall i, j | 0 <= i < j < |after| ensures after[i] != after[j] {
      if j == |before| {
        assert after[i] == before[i];
      }
    }
  }

  /** addToFavorites: the user's favourites grow by exactly the skill; on failure nothing changes. */
  method AddToFavorites(db: Db, skillId: Id, userEmail: string) returns (r: Outcome)
    requires db.Valid()
    modifies db`users
    ensures db.Valid()
    ensures var checked := FavoriteCheck(old(db.users), db.skills, skillId, userEmail);
      && (checked.Err? ==> r == Fail(checked.error) && db.users == old(db.users))
      && (checked.Ok? ==>
            r == Pass && checked.value.id in old(db.users.rows)
            && db.users == old(db.users).Put(checked.value.id, checked.value))
  {
    var checked := FavoriteCheck(db.users, db.skills, skillId, userEmail);
    if checked.Err? {
      return Fail(checked.error);
    }
    var u := checked.value;
    db.users := db.users.Put(u.id, u);
    r := Pass;
  }
}
