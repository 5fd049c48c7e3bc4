/**
 * The list-query DTOs as class-validator and class-transformer read them:
 * a numeric query field is converted with Number(...) and then checked
 * with @IsInt and @Min/@Max; an absent field skips its checks and keeps
 * the declared default. A query fails validation when any constraint is
 * violated, and the ValidationPipe then answers 400 with every message.
 */
module QueryDto {
  import opened Common
  import opened Entities
  import Text

  /** A JavaScript number after Number(...) conversion of the query string. */
  datatype JsNumber = Finite(x: real) | NaN | PosInfinity | NegInfinity

  /** Number.isInteger. */
  predicate IsInteger(n: JsNumber) {
    n.Finite? && n.x.Floor as real == n.x
  }

  /** class-validator's min: a number at least `bound` (NaN never is). */
  predicate AtLeast(n: JsNumber, bound: int) {
    n.PosInfinity? || (n.Finite? && n.x >= bound as real)
  }

  /** class-validator's max: a number at most `bound` (NaN never is). */
  predicate AtMost(n: JsNumber, bound: int) {
    n.NegInfinity? || (n.Finite? && n.x <= bound as real)
  }

  /** The messages @IsInt, @Min(min) and (when given) @Max(max) produce for one field. */
  function IntViolations(field: string, n: JsNumber, min: int, max: Option<int>): (v: seq<string>)
    ensures v == [] <==> IsInteger(n) && AtLeast(n, min) && (max.Some? ==> AtMost(n, max.value))
  {
    (if IsInteger(n) then [] else [field + " must be an integer number"])
    + (if AtLeast(n, min) then [] else [field + " must not be less than " + IntText(min)])
    + (if max.None? || AtMost(n, max.value) then [] else [field + " must not be greater than " + IntText(max.value)])
  }

  function IntText(i: int): string {
    if i < 0 then "-" + Text.Decimal(-i) else Text.Decimal(i)
  }

  /** An integer-valued JsNumber as a Dafny integer. */
  function AsInt(n: JsNumber): (i: int)
    requires IsInteger(n)
    ensures i as real == n.x
  {
    n.x.Floor
  }

  /** A field declared with @IsOptional @IsInt @Min(min) [@Max(max)] and a default. */
  function IntField(field: string, raw: Option<JsNumber>, default: int, min: int, max: Option<int>)
    : (r: Result<int>)
    ensures raw.None? ==> r == Ok(default)
    ensures raw.Some? ==>
      (r.Ok? <==> IsInteger(raw.value) && AtLeast(raw.value, min) && (max.Some? ==> AtMost(raw.value, max.value)))
    ensures raw.Some? && r.Ok? ==> r.value as real == raw.value.x && r.value >= min
    ensures raw.Some? && r.Ok? && max.Some? ==> r.value <= max.value
  {
    if raw.None? then Ok(default)
    else
      var v := IntViolations(field, raw.value, min, max);
      if v == [] then Ok(AsInt(raw.value)) else Err(BadRequest(v[0]))
  }

  // ---- FindSkillsDto ----

  /** The query string of GET /skills, after conversion. */
  datatype FindSkillsInput = FindSkillsInput(
    page: Option<JsNumber>, limit: Option<JsNumber>, search: Option<string>, category: Option<string>)

  /** A validated FindSkillsDto: defaults filled in. */
  datatype FindSkillsQuery = FindSkillsQuery(page: int, limit: int, search: string, category: Option<string>)

  /** What the validated DTO guarantees the service: page at least 1, limit between 1 and 100. */
  predicate ValidFindSkills(q: FindSkillsQuery) {
    q.page >= 1 && 1 <= q.limit <= 100
  }

  /** FindSkillsDto: page defaults to 1, limit to 20 (at most 100), search to ''; category has no default. */
  function ValidateFindSkills(input: FindSkillsInput): (r: Result<FindSkillsQuery>)
    ensures r.Ok? ==> ValidFindSkills(r.value)
    ensures r.Ok? ==> r.value.search == input.search.GetOr("") && r.value.category == input.category
    ensures input.page.None? && r.Ok? ==> r.value.page == 1
    ensures input.limit.None? && r.Ok? ==> r.value.limit == 20
    ensures r.Err? ==> r.error.BadRequest?
    ensures r.Ok? <==>
      && (input.page.Some? ==> IsInteger(input.page.value) && AtLeast(input.page.value, 1))
      && (input.limit.Some? ==>
            IsInteger(input.limit.value) && AtLeast(input.limit.value, 1) && AtMost(input.limit.value, 100))
  {
    var page := IntField("page", input.page, 1, 1, None);
    var limit := IntField("limit", input.limit, 20, 1, Some(100));
    if page.Err? then Err(page.error)
    else if limit.Err? then Err(limit.error)
    else Ok(FindSkillsQuery(page.value, limit.value, input.search.GetOr(""), input.category))
  }

  /** page=0, limit=101 and a fractional page are refused; an empty query gives the defaults. */
  lemma FindSkillsExamples()
    ensures ValidateFindSkills(FindSkillsInput(Some(Finite(0.0)), None, None, None)).Err?
    ensures ValidateFindSkills(FindSkillsInput(None, Some(Finite(101.0)), None, None)).Err?
    ensures ValidateFindSkills(FindSkillsInput(Some(Finite(1.5)), None, None, None)).Err?
    ensures ValidateFindSkills(FindSkillsInput(Some(NaN), None, None, None)).Err?
    ensures ValidateFindSkills(FindSkillsInput(None, None, None, None)) == Ok(FindSkillsQuery(1, 20, "", None))
    ensures ValidateFindSkills(FindSkillsInput(None, Some(Finite(100.0)), None, None)).Ok?
  {
    assert !IsInteger(Finite(1.5)) by {
      assert (1.5).Floor == 1;
    }
  }

  // ---- GetUsersQueryDto ----

  datatype SortOrder = Asc | Desc

  /** The query string of GET /users, after conversion; enum fields arrive as strings. */
  datatype UsersInput = UsersInput(
    page: Option<JsNumber>, limit: Option<JsNumber>, city: Option<string>, gender: Option<string>,
    role: Option<string>, search: Option<string>, sortBy: Option<string>, order: Option<string>)

  /** A validated GetUsersQueryDto. The service applies its own defaults again, so fields stay optional. */
  datatype UsersQuery = UsersQuery(
    page: Option<int>, limit: Option<int>, city: Option<string>, gender: Option<Gender>,
    role: Option<Role>, search: Option<string>, sortBy: Option<string>, order: Option<SortOrder>)

  /** What a validated query guarantees: page and limit, when present, are at least 1. */
  predicate ValidUsersQuery(q: UsersQuery) {
    (q.page.Some? ==> q.page.value >= 1) && (q.limit.Some? ==> q.limit.value >= 1)
  }

  /** @IsEnum(Gender). */
  function ParseGender(s: string): (g: Option<Gender>)
    ensures g.Some? ==> GenderName(g.value) == s
    ensures g.None? ==> s != "male" && s != "female" && s != "unspecified"
  {
    if s == "male" then Some(Male)
    else if s == "female" then Some(Female)
    else if s == "unspecified" then Some(Unspecified)
    else None
  }

  /** @IsEnum(Role). */
  function ParseRole(s: string): (r: Option<Role>)
    ensures r.Some? ==> RoleName(r.value) == s
    ensures r.None? ==> s != "USER" && s != "ADMIN"
  {
    if s == "USER" then Some(UserRole) else if s == "ADMIN" then Some(AdminRole) else None
  }

  /** @IsEnum(['ASC', 'DESC']). */
  function ParseOrder(s: string): (o: Option<SortOrder>)
    ensures o == Some(Asc) <==> s == "ASC"
    ensures o == Some(Desc) <==> s == "DESC"
  {
    if s == "ASC" then Some(Asc) else if s == "DESC" then Some(Desc) else None
  }

  /** The query-string spelling of a sort order. */
  function OrderName(o: SortOrder): string {
    match o
      case Asc => "ASC"
      case Desc => "DESC"
  }

  /** ParseOrder accepts exactly the spellings of the two orders, and reads each back as its order. */
  lemma ParseOrderRoundTrip(s: string, o: SortOrder)
    ensures ParseOrder(OrderName(o)) == Some(o)
    ensures ParseOrder(s) == Some(o) <==> s == OrderName(o)
  {
  }

  /** An optional field declared with @IsEnum: absent is fine, present must parse. */
  function EnumField<E>(field: string, raw: Option<string>, parse: string -> Option<E>, values: string)
    : (r: Result<Option<E>>)
    ensures raw.None? ==> r == Ok(None)
    ensures raw.Some? ==> (r.Ok? <==> parse(raw.value).Some?)
    ensures raw.Some? && r.Ok? ==> r.value == parse(raw.value)
    ensures r.Err? ==> r.error == BadRequest(field + " must be one of the following values: " + values)
  {
    if raw.None? then Ok(None)
    else if parse(raw.value).Some? then Ok(parse(raw.value))
    else Err(BadRequest(field + " must be one of the following values: " + values))
  }

  /**
   * GetUsersQueryDto: page and limit default to 1 and 20 and must be
   * integers of at least 1 (no upper bound); gender, role and order must be
   * members of their enums; sortBy (default 'name'), city and search are any
   * string; order defaults to ASC.
   */
  function ValidateUsersQuery(input: UsersInput): (r: Result<UsersQuery>)
    ensures r.Ok? ==> ValidUsersQuery(r.value)
    ensures r.Err? ==> r.error.BadRequest?
    ensures r.Ok? <==>
      && IntField("page", input.page, 1, 1, None).Ok?
      && IntField("limit", input.limit, 20, 1, None).Ok?
      && (input.gender.Some? ==> ParseGender(input.gender.value).Some?)
      && (input.role.Some? ==> ParseRole(input.role.value).Some?)
      && (input.order.Some? ==> ParseOrder(input.order.value).Some?)
    ensures r.Ok? ==>
      && r.value.page == Some(IntField("page", input.page, 1, 1, None).value)
      && r.value.limit == Some(IntField("limit", input.limit, 20, 1, None).value)
      && r.value.sortBy == Some(input.sortBy.GetOr("name"))
      && r.value.order == Some(if input.order.None? then Asc else ParseOrder(input.order.value).value)
      && r.value.city == input.city && r.value.search == input.search
  {
    var page := IntField("page", input.page, 1, 1, None);
    var limit := IntField("limit", input.limit, 20, 1, None);
    var gender := EnumField("gender", input.gender, ParseGender, "male, female, unspecified");
    var role := EnumField("role", input.role, ParseRole, "USER, ADMIN");
    var order := EnumField("order", input.order, ParseOrder, "ASC, DESC");
    if page.Err? then Err(page.error)
    else if limit.Err? then Err(limit.error)
    else if gender.Err? then Err(gender.error)
    else if role.Err? then Err(role.error)
    else if order.Err? then Err(order.error)
    else Ok(UsersQuery(Some(page.value), Some(limit.value), input.city, gender.value, role.value,
                       input.search, Some(input.sortBy.GetOr("name")), Some(order.value.GetOr(Asc))))
  }

  /** page=0 and limit=-1 are refused; a limit above 100 is allowed here, unlike for skills. */
  lemma UsersQueryExamples()
    ensures ValidateUsersQuery(UsersInput(Some(Finite(0.0)), None, None, None, None, None, None, None)).Err?
    ensures ValidateUsersQuery(UsersInput(None, Some(Finite(-1.0)), None, None, None, None, None, None)).Err?
    ensures ValidateUsersQuery(UsersInput(None, Some(Finite(500.0)), None, None, None, None, None, None)).Ok?
    ensures ValidateUsersQuery(UsersInput(None, None, None, Some("other"), None, None, None, None)).Err?
    ensures ValidateUsersQuery(UsersInput(None, None, None, None, None, None, None, Some("asc"))).Err?
    ensures ValidateUsersQuery(UsersInput(None, None, None, None, None, None, None, None))
      == Ok(UsersQuery(Some(1), Some(20), None, None, None, None, Some("name"), Some(Asc)))
  {
  }
}
