/**
 * CategoriesSeeder: loads the fixed two-level catalogue. Each entry names
 * a root category and its children; a root is looked up by name among the
 * roots, a child by name among that root's children, and only what is
 * missing is created, so that running it again adds nothing.
 */
module CategoriesSeeder {
  import opened Common
  import opened Entities
  import opened Store

  /** One entry of the catalogue: a root category and the names of its children. */
  datatype CategoryData = CategoryData(name: string, children: seq<string>)

  /** findOne where name matches and parent IS NULL: the first such root. */
  function FindRoot(t: Table<Category>, name: string): (r: Option<Category>)
    ensures r.Some? ==> r.value in t.rows.Values && r.value.name == name && r.value.parent.None?
  {
    First(t.Rows(), (c: Category) => c.name == name && c.parent.None?)
  }

  /** findOne where name matches and the parent is the given category: the first such child. */
  function FindChild(t: Table<Category>, name: string, parentId: Id): (r: Option<Category>)
    ensures r.Some? ==> r.value in t.rows.Values && r.value.name == name && r.value.parent == Some(parentId)
  {
    First(t.Rows(), (c: Category) => c.name == name && c.parent == Some(parentId))
  }

  /** The category table, and the categories seed has collected so far. */
  datatype SeedResult = SeedResult(categories: Table<Category>, seeded: seq<Category>)

  /** The inner loop: each child name missing under `parentId` becomes a new row, collected in order. */
  function SeedChildren(t: Table<Category>, parentId: Id, names: seq<string>): (r: SeedResult)
    requires t.Bounded()
    ensures r.categories.Bounded()
    decreases |names|
  {
    if names == [] then SeedResult(t, [])
    else
      var prev := SeedChildren(t, parentId, names[..|names| - 1]);
      var name := names[|names| - 1];
      if FindChild(prev.categories, name, parentId).Some? then prev
      else
        var c := Category(prev.categories.nextId, name, Some(parentId));
        SeedResult(prev.categories.Insert(c), prev.seeded + [c])
  }

  /** The root an entry attaches its children to: the existing one, or a new row. */
  function ParentFor(t: Table<Category>, name: string): (r: (Table<Category>, Category))
    requires t.Bounded()
    ensures r.0.Bounded() && r.1.name == name && r.1.parent.None?
    ensures FindRoot(t, name).Some? ==> r == (t, FindRoot(t, name).value)
    ensures FindRoot(t, name).None? ==>
      var p := Category(t.nextId, name, None); r == (t.Insert(p), p)
  {
    if FindRoot(t, name).Some? then (t, FindRoot(t, name).value)
    else
      var p := Category(t.nextId, name, None);
      (t.Insert(p), p)
  }

  /** One pass of the outer loop: the root, then its children; collects the new children, then the root. */
  function SeedEntry(t: Table<Category>, d: CategoryData): (r: SeedResult)
    requires t.Bounded()
    ensures r.categories.Bounded()
  {
    var (t1, parent) := ParentFor(t, d.name);
    var kids := SeedChildren(t1, parent.id, d.children);
    SeedResult(kids.categories, kids.seeded + [parent])
  }

  /** What seed does with the entries `data`, one after the other. */
  function Seeding(t: Table<Category>, data: seq<CategoryData>): (r: SeedResult)
    requires t.Bounded()
    ensures r.categories.Bounded()
    decreases |data|
  {
    if data == [] then SeedResult(t, [])
    else
      var prev := Seeding(t, data[..|data| - 1]);
      var e := SeedEntry(prev.categories, data[|data| - 1]);
      SeedResult(e.categories, prev.seeded + e.seeded)
  }

  // ---- seeding only adds rows ----

  /** The new children are appended rows under `parentId`, and they are exactly the ones collected. */
  lemma {:induction false} SeedChildrenAppends(t: Table<Category>, parentId: Id, names: seq<string>)
    requires t.Bounded()
    ensures var r := SeedChildren(t, parentId, names);
      t.ExtendedBy(r.categories) && r.categories.Rows() == t.Rows() + r.seeded
  {
    if names == [] {
      ExtendedByRefl(t);
    } else {
      var prev := SeedChildren(t, parentId, names[..|names| - 1]);
      SeedChildrenAppends(t, parentId, names[..|names| - 1]);
      var name := names[|names| - 1];
      if FindChild(prev.categories, name, parentId).None? {
        var c := Category(prev.categories.nextId, name, Some(parentId));
        InsertExtends(prev.categories, c);
        ExtendedByTrans(t, prev.categories, prev.categories.Insert(c));
        assert prev.categories.Insert(c).Rows() == t.Rows() + (prev.seeded + [c]);
      }
    }
  }

  /** Every child the inner loop collects is a new row, placed under `parentId`. */
  lemma {:induction false} SeedChildrenUnder(t: Table<Category>, parentId: Id, names: seq<string>)
    requires t.Bounded()
    ensures forall i :: 0 <= i < |SeedChildren(t, parentId, names).seeded| ==>
      SeedChildren(t, parentId, names).seeded[i].parent == Some(parentId) &&
      SeedChildren(t, parentId, names).seeded[i].id >= t.nextId
  {
    if names != [] {
      var init := names[..|names| - 1];
      var prev := SeedChildren(t, parentId, init);
      SeedChildrenUnder(t, parentId, init);
      SeedChildrenAppends(t, parentId, init);
      var s := SeedChildren(t, parentId, names).seeded;
      forall i | 0 <= i < |s|
        ensures s[i].parent == Some(parentId) && s[i].id >= t.nextId
      {
        if i < |prev.seeded| {
          assert s[i] == prev.seeded[i];
        }
      }
    } else {
      assert SeedChildren(t, parentId, names).seeded == [];
    }
  }

  lemma ParentForExtends(t: Table<Category>, name: string)
    requires t.Bounded()
    ensures t.ExtendedBy(ParentFor(t, name).0)
  {
    if FindRoot(t, name).Some? {
      ExtendedByRefl(t);
    } else {
      InsertExtends(t, Category(t.nextId, name, None));
    }
  }

  lemma SeedEntryExtends(t: Table<Category>, d: CategoryData)
    requires t.Bounded()
    ensures t.ExtendedBy(SeedEntry(t, d).categories)
  {
    var (t1, parent) := ParentFor(t, d.name);
    ParentForExtends(t, d.name);
    SeedChildrenAppends(t1, parent.id, d.children);
    ExtendedByTrans(t, t1, SeedChildren(t1, parent.id, d.children).categories);
  }

  lemma {:induction false} SeedingExtends(t: Table<Category>, data: seq<CategoryData>)
    requires t.Bounded()
    ensures t.ExtendedBy(Seeding(t, data).categories)
  {
    if data == [] {
      ExtendedByRefl(t);
    } else {
      var prev := Seeding(t, data[..|data| - 1]);
      SeedingExtends(t, data[..|data| - 1]);
      SeedEntryExtends(prev.categories, data[|data| - 1]);
      ExtendedByTrans(t, prev.categories, Seeding(t, data).categories);
    }
  }

  /**
   * One entry adds at most its root, then exactly the children it collects,
   * all under that root; what it returns is those children followed by the
   * root, and that root is the one findOne now finds for the entry's name.
   */
  lemma SeedEntryReturns(t: Table<Category>, d: CategoryData)
    requires t.Bounded()
    ensures var r := SeedEntry(t, d);
      var parent := r.seeded[|r.seeded| - 1];
      var kids := r.seeded[..|r.seeded| - 1];
      && FindRoot(r.categories, d.name) == Some(parent)
      && r.categories.Rows() == t.Rows() + (if FindRoot(t, d.name).None? then [parent] else []) + kids
      && forall i :: 0 <= i < |kids| ==> kids[i].parent == Some(parent.id) && kids[i].id >= t.nextId
  {
    var (t1, parent) := ParentFor(t, d.name);
    var k := SeedChildren(t1, parent.id, d.children);
    SeedChildrenAppends(t1, parent.id, d.children);
    SeedChildrenUnder(t1, parent.id, d.children);
    ParentForExtends(t, d.name);
    var r := SeedEntry(t, d);
    assert r.seeded[..|r.seeded| - 1] == k.seeded;
    assert FindRoot(t1, d.name) == Some(parent) by {
      if FindRoot(t, d.name).None? {
        FirstAfterMisses(t.Rows(), parent, (c: Category) => c.name == d.name && c.parent.None?);
      }
    }
    FirstPrefix(t1.Rows(), k.categories.Rows(), (c: Category) => c.name == d.name && c.parent.None?);
  }

  /** When nothing before `x` matches and `x` does, the first match after appending `x` is `x`. */
  lemma {:induction false} FirstAfterMisses<T>(s: seq<T>, x: T, p: T -> bool)
    requires First(s, p).None? && p(x)
    ensures First(s + [x], p) == Some(x)
  {
    if s != [] {
      assert (s + [x])[1..] == s[1..] + [x];
      FirstAfterMisses(s[1..], x, p);
    }
  }

  // ---- after seed, the catalogue is there ----

  /** The entry's root exists, and every child it lists exists under that root. */
  predicate Covered(t: Table<Category>, d: CategoryData) {
    && FindRoot(t, d.name).Some?
    && forall j :: 0 <= j < |d.children| ==> FindChild(t, d.children[j], FindRoot(t, d.name).value.id).Some?
  }

  /** Adding rows never hides a root or a child that was already found. */
  lemma CoveredStays(t: Table<Category>, t2: Table<Category>, d: CategoryData)
    requires t.ExtendedBy(t2) && Covered(t, d)
    ensures Covered(t2, d) && FindRoot(t2, d.name) == FindRoot(t, d.name)
  {
    FirstPrefix(t.Rows(), t2.Rows(), (c: Category) => c.name == d.name && c.parent.None?);
    var pid := FindRoot(t, d.name).value.id;
    forall j | 0 <= j < |d.children|
      ensures FindChild(t2, d.children[j], pid).Some?
    {
      FirstPrefix(t.Rows(), t2.Rows(), (c: Category) => c.name == d.children[j] && c.parent == Some(pid));
    }
  }

  /** After the inner loop, every listed child exists under the given root. */
  lemma {:induction false} SeedChildrenCovers(t: Table<Category>, parentId: Id, names: seq<string>)
    requires t.Bounded()
    ensures forall j :: 0 <= j < |names| ==> FindChild(SeedChildren(t, parentId, names).categories, names[j], parentId).Some?
  {
    if names != [] {
      var init := names[..|names| - 1];
      var prev := SeedChildren(t, parentId, init);
      var r := SeedChildren(t, parentId, names);
      var name := names[|names| - 1];
      SeedChildrenCovers(t, parentId, init);
      assert prev.categories.ExtendedBy(r.categories) && prev.categories.Rows() <= r.categories.Rows() by {
        if FindChild(prev.categories, name, parentId).Some? {
          ExtendedByRefl(prev.categories);
        } else {
          InsertExtends(prev.categories, Category(prev.categories.nextId, name, Some(parentId)));
        }
      }
      forall j | 0 <= j < |names|
        ensures FindChild(r.categories, names[j], parentId).Some?
      {
        if j < |names| - 1 {
          assert names[j] == init[j];
          FirstPrefix(prev.categories.Rows(), r.categories.Rows(),
                      (c: Category) => c.name == names[j] && c.parent == Some(parentId));
        } else if FindChild(prev.categories, name, parentId).Some? {
          assert r == prev;
        } else {
          var c := Category(prev.categories.nextId, name, Some(parentId));
          FirstAfterMisses(prev.categories.Rows(), c, (x: Category) => x.name == name && x.parent == Some(parentId));
        }
      }
    }
  }

  /** One entry covers itself. */
  lemma SeedEntryCovers(t: Table<Category>, d: CategoryData)
    requires t.Bounded()
    ensures Covered(SeedEntry(t, d).categories, d)
  {
    var (t1, parent) := ParentFor(t, d.name);
    SeedEntryReturns(t, d);
    SeedChildrenCovers(t1, parent.id, d.children);
  }

  /** After seed, the root of every entry exists and every listed child exists under it. */
  lemma {:induction false} SeedCovers(t: Table<Category>, data: seq<CategoryData>)
    requires t.Bounded()
    ensures forall i :: 0 <= i < |data| ==> Covered(Seeding(t, data).categories, data[i])
  {
    if data != [] {
      var init := data[..|data| - 1];
      var prev := Seeding(t, init);
      var r := Seeding(t, data);
      SeedCovers(t, init);
      SeedEntryExtends(prev.categories, data[|data| - 1]);
      SeedEntryCovers(prev.categories, data[|data| - 1]);
      forall i | 0 <= i < |data| - 1
        ensures Covered(r.categories, data[i])
      {
        assert data[i] == init[i];
        CoveredStays(prev.categories, r.categories, data[i]);
      }
    }
  }

  // ---- running it again ----

  /** The inner loop over children that all exist already adds nothing. */
  lemma {:induction false} SeedChildrenNothingNew(t: Table<Category>, parentId: Id, names: seq<string>)
    requires t.Bounded()
    requires forall j :: 0 <= j < |names| ==> FindChild(t, names[j], parentId).Some?
    ensures SeedChildren(t, parentId, names) == SeedResult(t, [])
  {
    if names != [] {
      var init := names[..|names| - 1];
      assert forall j :: 0 <= j < |init| ==> init[j] == names[j];
      SeedChildrenNothingNew(t, parentId, init);
    }
  }

  /** When every entry is covered already, seed adds no row. */
  lemma {:induction false} SeedNothingNew(t: Table<Category>, data: seq<CategoryData>)
    requires t.Bounded()
    requires forall i :: 0 <= i < |data| ==> Covered(t, data[i])
    ensures Seeding(t, data).categories == t
  {
    if data != [] {
      var init := data[..|data| - 1];
      assert forall i :: 0 <= i < |init| ==> init[i] == data[i];
      SeedNothingNew(t, init);
      var d := data[|data| - 1];
      SeedChildrenNothingNew(t, FindRoot(t, d.name).value.id, d.children);
    }
  }

  /** A second run of seed adds no category. */
  lemma SeedIdempotent(t: Table<Category>, data: seq<CategoryData>)
    requires t.Bounded()
    ensures var r := Seeding(t, data); Seeding(r.categories, data).categories == r.categories
  {
    SeedCovers(t, data);
    SeedNothingNew(Seeding(t, data).categories, data);
  }

  /**
   * Children are looked up under their own root: one child name listed
   * under two roots of different names yields two different categories.
   */
  lemma ChildrenScopedByRoot(t: Table<Category>, data: seq<CategoryData>, i: nat, j: nat, a: nat, b: nat)
    requires t.Bounded() && CategoryIds(t.rows)
    requires i < |data| && j < |data| && data[i].name != data[j].name
    requires a < |data[i].children| && b < |data[j].children|
    ensures FindRoot(Seeding(t, data).categories, data[i].name).Some?
    ensures FindRoot(Seeding(t, data).categories, data[j].name).Some?
    ensures var r := Seeding(t, data).categories;
      var x := FindChild(r, data[i].children[a], FindRoot(r, data[i].name).value.id);
      var y := FindChild(r, data[j].children[b], FindRoot(r, data[j].name).value.id);
      x.Some? && y.Some? && x.value != y.value
  {
    var r := Seeding(t, data).categories;
    SeedCovers(t, data);
    assert Covered(r, data[i]) && Covered(r, data[j]);
    var p := FindRoot(r, data[i].name).value;
    var q := FindRoot(r, data[j].name).value;
    SeedingKeepsIds(t, data);
    assert p.id != q.id by {
      var kp :| kp in r.rows && r.rows[kp] == p;
      var kq :| kq in r.rows && r.rows[kq] == q;
    }
    assert FindChild(r, data[i].children[a], p.id).Some?;
    assert FindChild(r, data[j].children[b], q.id).Some?;
  }

  /** Every entry's root is among the categories seed returns. */
  lemma {:induction false} SeedReturnsRoots(t: Table<Category>, data: seq<CategoryData>)
    requires t.Bounded()
    ensures var r := Seeding(t, data);
      forall i :: 0 <= i < |data| ==>
        (FindRoot(r.categories, data[i].name).Some? && FindRoot(r.categories, data[i].name).value in r.seeded)
  {
    if data != [] {
      var init := data[..|data| - 1];
      var d := data[|data| - 1];
      var prev := Seeding(t, init);
      var e := SeedEntry(prev.categories, d);
      var r := Seeding(t, data);
      SeedReturnsRoots(t, init);
      SeedCovers(t, init);
      SeedEntryExtends(prev.categories, d);
      SeedEntryReturns(prev.categories, d);
      assert r.seeded == prev.seeded + e.seeded;
      forall i | 0 <= i < |data|
        ensures FindRoot(r.categories, data[i].name).Some? && FindRoot(r.categories, data[i].name).value in r.seeded
      {
        if i < |data| - 1 {
          assert data[i] == init[i];
          CoveredStays(prev.categories, r.categories, data[i]);
        } else {
          assert e.seeded[|e.seeded| - 1] in e.seeded;
        }
      }
    }
  }

  /** One entry returns its new children, all created after `t`, and then its root. */
  lemma SeedEntryChildrenNew(t: Table<Category>, d: CategoryData)
    requires t.Bounded()
    ensures var s := SeedEntry(t, d).seeded; |s| >= 1 && s[|s| - 1].parent.None?
    ensures forall i :: 0 <= i < |SeedEntry(t, d).seeded| - 1 ==>
      SeedEntry(t, d).seeded[i].id >= t.nextId
  {
    var (t1, parent) := ParentFor(t, d.name);
    ParentForExtends(t, d.name);
    SeedChildrenUnder(t1, parent.id, d.children);
    var k := SeedChildren(t1, parent.id, d.children).seeded;
    assert SeedEntry(t, d).seeded == k + [parent];
  }

  /** Every child seed returns is a row seed created: none existed when seed started. */
  lemma {:induction false} SeedReturnsOnlyNewChildren(t: Table<Category>, data: seq<CategoryData>)
    requires t.Bounded()
    ensures forall i :: 0 <= i < |Seeding(t, data).seeded| && Seeding(t, data).seeded[i].parent.Some? ==>
      Seeding(t, data).seeded[i].id >= t.nextId
  {
    if data != [] {
      var init := data[..|data| - 1];
      var d := data[|data| - 1];
      var prev := Seeding(t, init);
      var es := SeedEntry(prev.categories, d).seeded;
      var s := Seeding(t, data).seeded;
      SeedReturnsOnlyNewChildren(t, init);
      SeedingExtends(t, init);
      SeedEntryChildrenNew(prev.categories, d);
      assert s == prev.seeded + es;
      forall i | 0 <= i < |s| && s[i].parent.Some?
        ensures s[i].id >= t.nextId
      {
        if i < |prev.seeded| {
          assert s[i] == prev.seeded[i];
        } else {
          var m := i - |prev.seeded|;
          assert s[i] == es[m];
          assert m < |es| - 1;
        }
      }
    } else {
      assert Seeding(t, data).seeded == [];
    }
  }

  /** Seeding keeps every row's id equal to its key. */
  lemma {:induction false} SeedChildrenKeepsIds(t: Table<Category>, parentId: Id, names: seq<string>)
    requires t.Bounded() && CategoryIds(t.rows)
    ensures CategoryIds(SeedChildren(t, parentId, names).categories.rows)
  {
    if names != [] {
      SeedChildrenKeepsIds(t, parentId, names[..|names| - 1]);
    }
  }

  lemma {:induction false} SeedingKeepsIds(t: Table<Category>, data: seq<CategoryData>)
    requires t.Bounded() && CategoryIds(t.rows)
    ensures CategoryIds(Seeding(t, data).categories.rows)
  {
    if data != [] {
      var prev := Seeding(t, data[..|data| - 1]);
      SeedingKeepsIds(t, data[..|data| - 1]);
      var d := data[|data| - 1];
      var (t1, parent) := ParentFor(prev.categories, d.name);
      SeedChildrenKeepsIds(t1, parent.id, d.children);
    }
  }

  // ---- the service ----

  /** The inner loop of seed: findOne by name under `parentId`, create and save for a missing child. */
  method SeedChildrenOf(db: Db, parentId: Id, names: seq<string>) returns (created: seq<Category>)
    requires db.categories.Bounded()
    modifies db`categories
    ensures SeedChildren(old(db.categories), parentId, names) == SeedResult(db.categories, created)
  {
    created := [];
    for j := 0 to |names|
      invariant db.categories.Bounded()
      invariant SeedChildren(old(db.categories), parentId, names[..j]) == SeedResult(db.categories, created)
    {
      var childName := names[j];
      var existingChild := FindChild(db.categories, childName, parentId);
      if existingChild.None? {
        var childCategory := Category(db.categories.nextId, childName, Some(parentId));
        db.categories := db.categories.Insert(childCategory);
        created := created + [childCategory];
      }
      assert names[..j + 1][..j] == names[..j];
    }
    assert names[..|names|] == names;
  }

  /** seed: the outer loop over the entries; for each, the root found or created, then its children. */
  method Seed(db: Db, data: seq<CategoryData>) returns (seeded: seq<Category>)
    requires db.Valid()
    modifies db`categories
    ensures db.Valid()
    ensures Seeding(old(db.categories), data) == SeedResult(db.categories, seeded)
  {
    seeded := [];
    for i := 0 to |data|
      invariant db.categories.Bounded()
      invariant Seeding(old(db.categories), data[..i]) == SeedResult(db.categories, seeded)
    {
      var categoryData := data[i];
      ghost var t0 := db.categories;
      var parentCategory := FindRoot(db.categories, categoryData.name);
      var parent: Category;
      if parentCategory.None? {
        parent := Category(db.categories.nextId, categoryData.name, None);
        db.categories := db.categories.Insert(parent);
      } else {
        parent := parentCategory.value;
      }
      assert ParentFor(t0, categoryData.name) == (db.categories, parent);
      var children := SeedChildrenOf(db, parent.id, categoryData.children);
      seeded := seeded + children + [parent];
      assert SeedEntry(t0, categoryData) == SeedResult(db.categories, children + [parent]);
      assert data[..i + 1][..i] == data[..i];
    }
    assert data[..|data|] == data;
    SeedingKeepsIds(old(db.categories), data);
  }

  /** clear: TRUNCATE of the category table. */
  method Clear(db: Db)
    requires db.Valid()
    modifies db`categories
    ensures db.Valid()
    ensures db.categories == old(db.categories).Cleared()
  {
    db.categories := db.categories.Cleared();
  }
}
