/**
 * SkillsSeeder: loads the fixed list of demo skills, creating a skill only
 * when no skill has that title yet, so that running it again adds nothing.
 */
module SkillsSeeder {
  import opened Common
  import opened Entities
  import opened Store

  /** One entry of the demo data. */
  datatype SkillData = SkillData(title: string, description: Option<string>, images: Option<seq<string>>)

  /** The row seed builds: title and description copied, no images becomes an empty list, no category or owner. */
  function NewSkill(id: Id, d: SkillData): (s: Skill)
    ensures s.id == id && s.title == d.title && s.description == d.description
    ensures s.images == Some(d.images.GetOr([]))
    ensures s.category.None? && s.owner.None?
  {
    Skill(id, d.title, d.description, None, Some(d.images.GetOr([])), None)
  }

  /** findOne by title: the first skill with that title. */
  function FindByTitle(t: Table<Skill>, title: string): (r: Option<Skill>)
    ensures r.Some? ==> r.value in t.rows.Values && r.value.title == title
  {
    First(t.Rows(), (s: Skill) => s.title == title)
  }

  /** Some skill has the title. */
  predicate Titled(t: Table<Skill>, title: string) {
    exists k :: k in t.rows && t.rows[k].title == title
  }

  /** In a bounded table, findOne by title finds a skill exactly when the title is in use. */
  lemma FoundIff(t: Table<Skill>, title: string)
    requires t.Bounded()
    ensures FindByTitle(t, title).Some? <==> Titled(t, title)
  {
    if Titled(t, title) {
      var k :| k in t.rows && t.rows[k].title == title;
      assert t.rows[k] in t.Rows();
    }
  }

  /** The skill table after a seed, and the skills seed returns. */
  datatype SeedResult = SeedResult(skills: Table<Skill>, seeded: seq<Skill>)

  /**
   * What seed does with the entries `data`, one after the other: an entry
   * whose title is in use is skipped, any other becomes a new row.
   */
  function Seeding(t: Table<Skill>, data: seq<SkillData>): (r: SeedResult)
    requires t.Bounded()
    ensures r.skills.Bounded()
    decreases |data|
  {
    if data == [] then SeedResult(t, [])
    else
      var prev := Seeding(t, data[..|data| - 1]);
      var d := data[|data| - 1];
      if Titled(prev.skills, d.title) then prev
      else
        var s := NewSkill(prev.skills.nextId, d);
        SeedResult(prev.skills.Insert(s), prev.seeded + [s])
  }

  /** Seed only adds rows: the old rows stay as they were, and the new ones are the skills returned, in order. */
  lemma {:induction false} SeedingAppends(t: Table<Skill>, data: seq<SkillData>)
    requires t.Bounded()
    ensures var r := Seeding(t, data); t.ExtendedBy(r.skills) && r.skills.Rows() == t.Rows() + r.seeded
  {
    if data == [] {
      ExtendedByRefl(t);
    } else {
      var prev := Seeding(t, data[..|data| - 1]);
      SeedingAppends(t, data[..|data| - 1]);
      var d := data[|data| - 1];
      if !Titled(prev.skills, d.title) {
        var s := NewSkill(prev.skills.nextId, d);
        InsertExtends(prev.skills, s);
        ExtendedByTrans(t, prev.skills, prev.skills.Insert(s));
        assert prev.skills.Insert(s).Rows() == t.Rows() + (prev.seeded + [s]);
      }
    }
  }

  /** Seeding keeps every row's id equal to its key. */
  lemma {:induction false} SeedingKeepsIds(t: Table<Skill>, data: seq<SkillData>)
    requires t.Bounded() && SkillIds(t.rows)
    ensures SkillIds(Seeding(t, data).skills.rows)
  {
    if data != [] {
      SeedingKeepsIds(t, data[..|data| - 1]);
    }
  }

  lemma TitledStaysTitled(t: Table<Skill>, t2: Table<Skill>, title: string)
    requires t.ExtendedBy(t2) && Titled(t, title)
    ensures Titled(t2, title)
  {
    var k :| k in t.rows && t.rows[k].title == title;
    assert t2.rows[k].title == title;
  }

  /** After seed, every entry's title belongs to some skill. */
  lemma {:induction false} SeedCovers(t: Table<Skill>, data: seq<SkillData>)
    requires t.Bounded()
    ensures forall i :: 0 <= i < |data| ==> Titled(Seeding(t, data).skills, data[i].title)
  {
    if data != [] {
      var init := data[..|data| - 1];
      var prev := Seeding(t, init);
      var r := Seeding(t, data);
      var d := data[|data| - 1];
      SeedCovers(t, init);
      assert prev.skills.ExtendedBy(r.skills) by {
        if Titled(prev.skills, d.title) {
          ExtendedByRefl(prev.skills);
        } else {
          InsertExtends(prev.skills, NewSkill(prev.skills.nextId, d));
        }
      }
      forall i | 0 <= i < |data|
        ensures Titled(r.skills, data[i].title)
      {
        if i < |data| - 1 {
          assert data[i] == init[i];
          TitledStaysTitled(prev.skills, r.skills, data[i].title);
        } else if Titled(prev.skills, d.title) {
          TitledStaysTitled(prev.skills, r.skills, d.title);
        } else {
          var k := prev.skills.nextId;
          assert k in r.skills.rows && r.skills.rows[k].title == d.title;
        }
      }
    }
  }

  /** When every entry's title is in use already, seed creates nothing and returns nothing. */
  lemma {:induction false} SeedNothingNew(t: Table<Skill>, data: seq<SkillData>)
    requires t.Bounded()
    requires forall i :: 0 <= i < |data| ==> Titled(t, data[i].title)
    ensures Seeding(t, data) == SeedResult(t, [])
  {
    if data != [] {
      var init := data[..|data| - 1];
      assert forall i :: 0 <= i < |init| ==> init[i] == data[i];
      SeedNothingNew(t, init);
    }
  }

  /** A second run of seed creates no skill and returns none. */
  lemma SeedIdempotent(t: Table<Skill>, data: seq<SkillData>)
    requires t.Bounded()
    ensures var r := Seeding(t, data); Seeding(r.skills, data) == SeedResult(r.skills, [])
  {
    SeedCovers(t, data);
    SeedNothingNew(Seeding(t, data).skills, data);
  }

  /** Every skill seed returns is built from one of the entries, and its title was free when seed started. */
  lemma {:induction false} SeededFromData(t: Table<Skill>, data: seq<SkillData>)
    requires t.Bounded()
    ensures forall i :: 0 <= i < |Seeding(t, data).seeded| ==>
      && !Titled(t, Seeding(t, data).seeded[i].title)
      && exists j :: 0 <= j < |data| && Seeding(t, data).seeded[i] == NewSkill(Seeding(t, data).seeded[i].id, data[j])
  {
    if data != [] {
      var init := data[..|data| - 1];
      var prev := Seeding(t, init);
      var d := data[|data| - 1];
      SeededFromData(t, init);
      var s := Seeding(t, data).seeded;
      if !Titled(prev.skills, d.title) {
        assert !Titled(t, d.title) by {
          SeedingAppends(t, init);
          if Titled(t, d.title) {
            TitledStaysTitled(t, prev.skills, d.title);
          }
        }
        assert s == prev.seeded + [NewSkill(prev.skills.nextId, d)];
      } else {
        assert s == prev.seeded;
      }
      forall i | 0 <= i < |s|
        ensures !Titled(t, s[i].title)
        ensures exists j :: 0 <= j < |data| && s[i] == NewSkill(s[i].id, data[j])
      {
        if i < |prev.seeded| {
          assert s[i] == prev.seeded[i];
          var j :| 0 <= j < |init| && prev.seeded[i] == NewSkill(prev.seeded[i].id, init[j]);
          assert init[j] == data[j];
        } else {
          assert s[i] == NewSkill(s[i].id, data[|data| - 1]);
        }
      }
    } else {
      assert Seeding(t, data).seeded == [];
    }
  }

  /** seed: the loop over the entries, with findOne by title, create and save for a new one. */
  method Seed(db: Db, data: seq<SkillData>) returns (seeded: seq<Skill>)
    requires db.Valid()
    modifies db`skills
    ensures db.Valid()
    ensures Seeding(old(db.skills), data) == SeedResult(db.skills, seeded)
  {
    seeded := [];
    var i := 0;
    while i < |data|
      invariant 0 <= i <= |data|
      invariant Seeding(old(db.skills), data[..i]) == SeedResult(db.skills, seeded)
      invariant db.skills.Bounded()
    {
      var d := data[i];
      var existingSkill := FindByTitle(db.skills, d.title);
      FoundIff(db.skills, d.title);
      if existingSkill.None? {
        var skill := NewSkill(db.skills.nextId, d);
        db.skills := db.skills.Insert(skill);
        seeded := seeded + [skill];
      }
      assert data[..i + 1][..i] == data[..i];
      i := i + 1;
    }
    assert data[..|data|] == data;
    SeedingKeepsIds(old(db.skills), data);
  }

  /** clear: TRUNCATE of the skill table. */
  method Clear(db: Db)
    requires db.Valid()
    modifies db`skills
    ensures db.Valid()
    ensures db.skills == old(db.skills).Cleared()
  {
    db.skills := db.skills.Cleared();
  }
}
