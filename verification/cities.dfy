/**
 * CitiesService: the city directory, with a trimmed, case-insensitive
 * name search, ordered by name.
 */
module Cities {
  import opened Common
  import opened Entities
  import opened Store
  import opened Ordering
  import Text

  const CityNotFound := "Город не найден"

  datatype CreateCityDto = CreateCityDto(name: string, subject: string)

  /** create: one new row with exactly the given name and subject. */
  method Create(db: Db, dto: CreateCityDto) returns (c: City)
    requires db.Valid()
    modifies db`cities
    ensures db.Valid()
    ensures c == City(old(db.cities.nextId), dto.name, dto.subject)
    ensures db.cities == old(db.cities).Insert(c)
  {
    c := City(db.cities.nextId, dto.name, dto.subject);
    db.cities := db.cities.Insert(c);
  }

  function NameKey(c: City): SortKey {
    SortKey.Text(c.name)
  }

  /** The search term in effect: the trimmed search, when it is not blank. */
  function SearchTerm(search: Option<string>): (t: Option<string>)
    ensures t.Some? <==> search.Some? && !Text.AllSpace(search.value)
    ensures t.Some? ==> t.value == Text.Trim(search.value) && t.value != []
  {
    if search.None? then None
    else
      Text.TrimEmptyIff(search.value);
      if Text.Trim(search.value) != "" then Some(Text.Trim(search.value)) else None
  }

  /** The WHERE clause of findAll: LOWER(name) LIKE LOWER('%term%') when a term is in effect. */
  predicate Matches(term: Option<string>, c: City) {
    term.Some? ==> Text.ContainsFolded(c.name, term.value)
  }

  /** The name search ignores case: a folded term selects the same cities, and an exact substring always matches. */
  lemma MatchesIgnoresCase(t: string, c: City)
    ensures Matches(Some(Text.LowerStr(t)), c) <==> Matches(Some(t), c)
    ensures Text.Contains(c.name, t) ==> Matches(Some(t), c)
  {
    Text.ContainsFoldedLaws(c.name, t);
  }

  /**
   * findAll: every city when the search is absent or blank, otherwise the
   * cities whose name contains the trimmed search ignoring case; by name.
   */
  function FindAll(cities: Table<City>, search: Option<string>): (r: seq<City>)
    ensures OrderedBy(r, NameKey, false)
    ensures forall i :: 0 <= i < |r| ==> r[i] in cities.rows.Values && Matches(SearchTerm(search), r[i])
    ensures cities.Bounded() ==>
      forall k :: k in cities.rows ==> (cities.rows[k] in r <==> Matches(SearchTerm(search), cities.rows[k]))
    ensures forall c :: multiset(r)[c] == if Matches(SearchTerm(search), c) then multiset(cities.Rows())[c] else 0
  {
    var term := SearchTerm(search);
    var found := Filter(cities.Rows(), (c: City) => Matches(term, c));
    FilterMultiplicity(cities.Rows(), (c: City) => Matches(term, c));
    SortByKeepsRows(found, NameKey, false);
    SortBy(found, NameKey, false)
  }

  /** findAll lists each matching city once. */
  lemma FindAllOnce(cities: Table<City>, search: Option<string>)
    requires cities.Bounded() && CityIds(cities.rows)
    ensures Distinct(FindAll(cities, search))
    ensures |FindAll(cities, search)| == |set c | c in cities.rows.Values && Matches(SearchTerm(search), c)|
  {
    var r := FindAll(cities, search);
    SelectedOnce(cities, (c: City) => c.id, (c: City) => Matches(SearchTerm(search), c), r);
    DistinctCount(r, set c | c in cities.rows.Values && Matches(SearchTerm(search), c));
  }

  /** A blank search is no search: it lists every city. */
  lemma BlankSearchListsAll(cities: Table<City>, search: string)
    requires cities.Bounded() && Text.AllSpace(search)
    ensures forall k :: k in cities.rows ==> cities.rows[k] in FindAll(cities, Some(search))
    ensures FindAll(cities, Some(search)) == FindAll(cities, None)
  {
  }

  /** Surrounding blanks in the search do not change the result. */
  lemma SearchIgnoresSurroundingBlanks(cities: Table<City>, search: string)
    ensures FindAll(cities, Some(search)) == FindAll(cities, Some(Text.Trim(search)))
  {
    Text.TrimIdempotent(search);
    Text.TrimEmptyIff(search);
    Text.TrimEmptyIff(Text.Trim(search));
  }

  datatype UpdateCityDto = UpdateCityDto(name: Option<string>, subject: Option<string>)

  /** Object.assign(city, dto): the given fields overwrite, the id and the rest stay. */
  function Assign(c: City, dto: UpdateCityDto): (d: City)
    ensures d.id == c.id
    ensures d.name == dto.name.GetOr(c.name) && d.subject == dto.subject.GetOr(c.subject)
  {
    c.(name := dto.name.GetOr(c.name), subject := dto.subject.GetOr(c.subject))
  }

  /** update: NotFound for an unknown id; otherwise the assigned row replaces the stored one. */
  method Update(db: Db, id: Id, dto: UpdateCityDto) returns (r: Result<City>)
    requires db.Valid()
    modifies db`cities
    ensures db.Valid()
    ensures id !in old(db.cities.rows) ==> r == Err(NotFound(CityNotFound)) && db.cities == old(db.cities)
    ensures id in old(db.cities.rows) ==>
      var c := Assign(old(db.cities.rows[id]), dto);
      r == Ok(c) && db.cities == old(db.cities).Put(id, c)
  {
    if id !in db.cities.rows {
      return Err(NotFound(CityNotFound));
    }
    var c := Assign(db.cities.rows[id], dto);
    db.cities := db.cities.Put(id, c);
    r := Ok(c);
  }

  /** remove: the DELETE must affect a row, otherwise NotFound. */
  method Remove(db: Db, id: Id) returns (r: Outcome)
    requires db.Valid()
    modifies db`cities
    ensures db.Valid()
    ensures db.cities == old(db.cities).Delete(id)
    ensures r == (if id in old(db.cities.rows) then Pass else Fail(NotFound(CityNotFound)))
  {
    var affected := if id in db.cities.rows then 1 else 0;
    db.cities := db.cities.Delete(id);
    if affected == 0 {
      return Fail(NotFound(CityNotFound));
    }
    r := Pass;
  }
}
