/**
 * CategoriesService: a two-level catalogue of categories. A category is
 * created under an existing parent or as a root; the listing shows the
 * roots by name, each with its children by name.
 */
module Categories {
  import opened Common
  import opened Entities
  import opened Store
  import opened Ordering
  import Text

  const ParentNotFound := "Родительская категория не найдена"

  datatype CreateCategoryDto = CreateCategoryDto(name: string, parentId: Option<Id>)

  /** The parent create attaches: none without a parentId, the named row when it exists. */
  function ParentOf(categories: Table<Category>, dto: CreateCategoryDto): (r: Result<Option<Id>>)
    ensures dto.parentId.None? ==> r == Ok(None)
    ensures dto.parentId.Some? && dto.parentId.value !in categories.rows ==> r == Err(NotFound(ParentNotFound))
    ensures dto.parentId.Some? && dto.parentId.value in categories.rows ==> r == Ok(dto.parentId)
  {
    if dto.parentId.None? then Ok(None)
    else if dto.parentId.value in categories.rows then Ok(dto.parentId)
    else Err(NotFound(ParentNotFound))
  }

  /** create: one new row with the given name, under the parent if one was given. */
  method Create(db: Db, dto: CreateCategoryDto) returns (r: Result<Category>)
    requires db.Valid()
    modifies db`categories
    ensures db.Valid()
    ensures var parent := ParentOf(old(db.categories), dto);
      && (parent.Err? ==> r == Err(parent.error) && db.categories == old(db.categories))
      && (parent.Ok? ==>
            var c := Category(old(db.categories.nextId), dto.name, parent.value);
            r == Ok(c) && db.categories == old(db.categories).Insert(c))
  {
    var parent := ParentOf(db.categories, dto);
    if parent.Err? {
      return Err(parent.error);
    }
    var c := Category(db.categories.nextId, dto.name, parent.value);
    db.categories := db.categories.Insert(c);
    r := Ok(c);
  }

  /** A created category is a root exactly when no parentId was given. */
  lemma CreatedRootIff(categories: Table<Category>, dto: CreateCategoryDto)
    requires ParentOf(categories, dto).Ok?
    ensures ParentOf(categories, dto).value.None? <==> dto.parentId.None?
    ensures dto.parentId.Some? ==> ParentOf(categories, dto).value.value in categories.rows
  {
  }

  function NameKey(c: Category): SortKey {
    SortKey.Text(c.name)
  }

  /** The categories whose parent is `id`, by name. */
  function ChildrenOf(categories: Table<Category>, id: Id): (r: seq<Category>)
    ensures OrderedBy(r, NameKey, false)
    ensures forall i :: 0 <= i < |r| ==> r[i] in categories.rows.Values && r[i].parent == Some(id)
    ensures categories.Bounded() ==>
      forall k :: k in categories.rows ==> (categories.rows[k] in r <==> categories.rows[k].parent == Some(id))
    ensures forall c :: multiset(r)[c] == if c.parent == Some(id) then multiset(categories.Rows())[c] else 0
  {
    var children := Filter(categories.Rows(), (c: Category) => c.parent == Some(id));
    FilterMultiplicity(categories.Rows(), (c: Category) => c.parent == Some(id));
    SortByKeepsRows(children, NameKey, false);
    SortBy(children, NameKey, false)
  }

  /** A category with its children loaded. */
  datatype CategoryTree = CategoryTree(category: Category, children: seq<Category>)

  /** The root categories (parent IS NULL), by name. */
  function Roots(categories: Table<Category>): (r: seq<Category>)
    ensures OrderedBy(r, NameKey, false)
    ensures forall i :: 0 <= i < |r| ==> r[i] in categories.rows.Values && r[i].parent.None?
    ensures categories.Bounded() ==>
      forall k :: k in categories.rows ==> (categories.rows[k] in r <==> categories.rows[k].parent.None?)
    ensures forall c :: multiset(r)[c] == if c.parent.None? then multiset(categories.Rows())[c] else 0
  {
    var roots := Filter(categories.Rows(), (c: Category) => c.parent.None?);
    FilterMultiplicity(categories.Rows(), (c: Category) => c.parent.None?);
    SortByKeepsRows(roots, NameKey, false);
    SortBy(roots, NameKey, false)
  }

  /** findAll: the root categories by name, each with its children by name. */
  function FindAll(categories: Table<Category>): (r: seq<CategoryTree>)
    ensures |r| == |Roots(categories)|
    ensures forall i :: 0 <= i < |r| ==>
      r[i].category == Roots(categories)[i] && r[i].children == ChildrenOf(categories, r[i].category.id)
  {
    var roots := Roots(categories);
    seq(|roots|, i requires 0 <= i < |roots| => CategoryTree(roots[i], ChildrenOf(categories, roots[i].id)))
  }

  /** findOne: the category with its parent and children, or null. */
  datatype CategoryView = CategoryView(category: Category, parent: Option<Category>, children: seq<Category>)

  function FindOne(categories: Table<Category>, id: Id): (r: Option<CategoryView>)
    ensures r.None? <==> id !in categories.rows
    ensures r.Some? ==>
      && r.value.category == categories.rows[id]
      && r.value.parent == Load(categories, categories.rows[id].parent)
      && (categories.Bounded() ==> forall k :: k in categories.rows ==>
            (categories.rows[k] in r.value.children <==> categories.rows[k].parent == Some(id)))
    ensures r.Some? ==> forall c :: multiset(r.value.children)[c] == if c.parent == Some(id) then multiset(categories.Rows())[c] else 0
  {
    if id !in categories.rows then None
    else
      var c := categories.rows[id];
      var children := Filter(categories.Rows(), (x: Category) => x.parent == Some(id));
      FilterMultiplicity(categories.Rows(), (x: Category) => x.parent == Some(id));
      Some(CategoryView(c, Load(categories, c.parent), children))
  }

  /** The children of a category are listed once each. */
  lemma ChildrenOnce(categories: Table<Category>, id: Id)
    requires categories.Bounded() && CategoryIds(categories.rows)
    ensures Distinct(ChildrenOf(categories, id))
    ensures |ChildrenOf(categories, id)| == |set c | c in categories.rows.Values && c.parent == Some(id)|
  {
    var r := ChildrenOf(categories, id);
    SelectedOnce(categories, (c: Category) => c.id, (c: Category) => c.parent == Some(id), r);
    DistinctCount(r, set c | c in categories.rows.Values && c.parent == Some(id));
  }

  /** The roots are listed once each. */
  lemma RootsOnce(categories: Table<Category>)
    requires categories.Bounded() && CategoryIds(categories.rows)
    ensures Distinct(Roots(categories))
    ensures |Roots(categories)| == |set c | c in categories.rows.Values && c.parent.None?|
  {
    var r := Roots(categories);
    SelectedOnce(categories, (c: Category) => c.id, (c: Category) => c.parent.None?, r);
    DistinctCount(r, set c | c in categories.rows.Values && c.parent.None?);
  }

  /** findAll lists every root once, each with every one of its children once. */
  lemma FindAllOnce(categories: Table<Category>)
    requires categories.Bounded() && CategoryIds(categories.rows)
    ensures |FindAll(categories)| == |set c | c in categories.rows.Values && c.parent.None?|
    ensures forall i, j :: 0 <= i < j < |FindAll(categories)| ==>
      FindAll(categories)[i].category != FindAll(categories)[j].category
    ensures forall i :: 0 <= i < |FindAll(categories)| ==> Distinct(FindAll(categories)[i].children)
  {
    RootsOnce(categories);
    var r := FindAll(categories);
    forall i | 0 <= i < |r| ensures Distinct(r[i].children) {
      ChildrenOnce(categories, r[i].category.id);
    }
  }

  /** findOne loads each child of the category once. */
  lemma FindOneChildrenOnce(categories: Table<Category>, id: Id)
    requires categories.Bounded() && CategoryIds(categories.rows) && id in categories.rows
    ensures Distinct(FindOne(categories, id).value.children)
    ensures |FindOne(categories, id).value.children| ==
      |set c | c in categories.rows.Values && c.parent == Some(id)|
  {
    var r := FindOne(categories, id).value.children;
    SelectedOnce(categories, (c: Category) => c.id, (c: Category) => c.parent == Some(id), r);
    DistinctCount(r, set c | c in categories.rows.Values && c.parent == Some(id));
  }

  /** The update stub: a message that names the id; nothing is read or written. */
  function UpdateStub(id: string): (msg: string)
    ensures Text.Contains(msg, id) && Text.OccursAt(msg, "updates", 12)
  {
    Text.ActionMessage("updates", id, "category")
  }

  /** The remove stub: a message that names the id; nothing is read or written. */
  function RemoveStub(id: string): (msg: string)
    ensures Text.Contains(msg, id) && Text.OccursAt(msg, "removes", 12)
  {
    Text.ActionMessage("removes", id, "category")
  }
}
