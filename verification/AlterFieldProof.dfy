/** The script's statements, taken together, lead to the database in closed form. */
module AlterFieldProof {
  import opened Wrappers
  import opened SqlServer
  import opened Fields
  import opened AlterFieldSpec
  import opened AlterFieldSteps

  // The databases that the parts of the script leave behind.

  function Stage1(db: Database, a: Alteration): Database { Without(db, FirstToDrop(db, a)) }

  function Stage2(db: Database, a: Alteration): Database
    requires db.HasColumn(a.table, a.oldField.column)
  {
    ColumnAltered(Stage1(db, a), a)
  }

  function Stage3(db: Database, a: Alteration): Database
    requires db.HasColumn(a.table, a.oldField.column)
  {
    AddIf(a.AddsIndex(), AddIf(a.AddsUnique(), Stage2(db, a), a.OnNewColumn(Unique)), a.OnNewColumn(Index))
  }

  function Stage4(db: Database, a: Alteration): Database
    requires db.HasColumn(a.table, a.oldField.column)
  {
    KeyMoved(Stage3(db, a), a)
  }

  function Stage5(db: Database, a: Alteration): Database
    requires db.HasColumn(a.table, a.oldField.column)
  {
    Stage4(db, a).(tables := RetypeRelated(Stage4(db, a).tables, a.RelatedToRetype()))
  }

  // The remaining parts only add constraints, and drop the default at the end.

  function WithForeignKey(db: Database, a: Alteration): Database {
    if a.newField.WantsForeignKey() then WithConstraint(db, a.CreatedForeignKey()[0]) else db
  }

  function WithInbound(db: Database, a: Alteration): Database { WithAll(db, a.RebuiltForeignKeys()) }

  function WithCheck(db: Database, a: Alteration): Database {
    if a.AddsCheck() then WithConstraint(db, a.CreatedCheck()[0]) else db
  }

  function WithoutDefault(db: Database, a: Alteration): Database {
    if a.NeedsDatabaseDefault() then Without(db, DefaultsOn(db, a.table, a.newField.column)) else db
  }

  function Finished(db: Database, a: Alteration): Database {
    WithoutDefault(WithCheck(WithInbound(WithForeignKey(db, a), a), a), a)
  }

  // ---------- From stages to the closed form ----------

  function CreatedDefault(a: Alteration): seq<Constraint> {
    if a.NeedsDatabaseDefault() then [a.OnNewColumn(Default(a.newField.effectiveDefault.value))] else []
  }

  lemma AddIfIsWithAll(condition: bool, db: Database, cs: seq<Constraint>, c: Constraint)
    ensures AddIf(condition, WithAll(db, cs), c) == WithAll(db, cs + (if condition then [c] else []))
  {
    WithAllSnoc(db, cs, c);
    assert cs + [] == cs;
  }

  /** Old constraints can be dropped before or after new ones are added. */
  lemma WithoutCommutes(db: Database, cs: seq<Constraint>, ids: set<nat>)
    requires forall id :: id in ids ==> id < db.next
    ensures Without(WithAll(db, cs), ids) == WithAll(Without(db, ids), cs)
  {
    assert (db.constraints + Numbered(cs, db.next)) - ids == (db.constraints - ids) + Numbered(cs, db.next);
  }

  /** The database before anything is created: stale constraints gone, the column altered. */
  function Base(db: Database, a: Alteration): Database
    requires db.HasColumn(a.table, a.oldField.column)
  {
    db.(tables := db.tables[a.table := a.AlteredTable(db.tables[a.table])],
        constraints := FollowAll(a, Stage1(db, a).constraints))
  }

  lemma Stage3Form(db: Database, a: Alteration)
    requires db.HasColumn(a.table, a.oldField.column)
    ensures Stage3(db, a) == WithAll(Base(db, a), CreatedDefault(a) + a.CreatedUnique() + a.CreatedIndex())
  {
    WithAllNothing(Base(db, a));
    WithAllSnoc(Base(db, a), [], a.OnNewColumn(Default(DefaultCell(a.newField))));
    assert Stage2(db, a) == WithAll(Base(db, a), CreatedDefault(a));
    AddIfIsWithAll(a.AddsUnique(), Base(db, a), CreatedDefault(a), a.OnNewColumn(Unique));
    AddIfIsWithAll(a.AddsIndex(), Base(db, a), CreatedDefault(a) + a.CreatedUnique(), a.OnNewColumn(Index));
  }

  /** The old primary key is among the constraints that were there from the start. */
  lemma OldKeys(db: Database, a: Alteration)
    requires Valid(db) && db.HasColumn(a.table, a.oldField.column)
    ensures ConstraintNames(Stage3(db, a), a.table, None, IsPrimaryKey)
         == ConstraintNames(Base(db, a), a.table, None, IsPrimaryKey)
    ensures forall id :: id in Base(db, a).constraints ==> id < db.next
  {
    var created := CreatedDefault(a) + a.CreatedUnique() + a.CreatedIndex();
    Stage3Form(db, a);
    forall i | 0 <= i < |created|
      ensures !created[i].kind.PrimaryKey?
    {
    }
    forall id | id in Numbered(created, db.next)
      ensures !Matches(Numbered(created, db.next)[id], a.table, None, IsPrimaryKey)
    {
      assert !created[id - db.next].kind.PrimaryKey?;
    }
  }

  function KeptBase(db: Database, a: Alteration): Database
    requires db.HasColumn(a.table, a.oldField.column)
  {
    Base(db, a).(constraints := Surviving(a, db.constraints))
  }

  lemma KeptForm(db: Database, a: Alteration)
    requires db.HasColumn(a.table, a.oldField.column)
    ensures
      var keys := ConstraintNames(Base(db, a), a.table, None, IsPrimaryKey);
      Base(db, a).constraints - (if a.BecomesPrimaryKey() then keys else {}) == Surviving(a, db.constraints)
  {
    var cs := Base(db, a).constraints;
    var keys := ConstraintNames(Base(db, a), a.table, None, IsPrimaryKey);
    forall id | id in cs
      ensures Matches(cs[id], a.table, None, IsPrimaryKey) <==> Matches(db.constraints[id], a.table, None, IsPrimaryKey)
    {
    }
  }

  lemma Stage4Form(db: Database, a: Alteration)
    requires Valid(db) && db.HasColumn(a.table, a.oldField.column)
    ensures Stage4(db, a) == WithAll(KeptBase(db, a), CreatedDefault(a) + a.CreatedUnique() + a.CreatedIndex() + a.CreatedKey())
  {
    Stage3Form(db, a);
    OldKeys(db, a);
    KeptForm(db, a);
    Stage4Assembled(Base(db, a), KeptBase(db, a), a, CreatedDefault(a) + a.CreatedUnique() + a.CreatedIndex());
  }

  lemma Stage4Assembled(base: Database, kept: Database, a: Alteration, created: seq<Constraint>)
    requires forall id :: id in base.constraints ==> id < base.next
    requires ConstraintNames(WithAll(base, created), a.table, None, IsPrimaryKey) == ConstraintNames(base, a.table, None, IsPrimaryKey)
    requires kept == Without(base, if a.BecomesPrimaryKey() then ConstraintNames(base, a.table, None, IsPrimaryKey) else {})
    ensures KeyMoved(WithAll(base, created), a) == WithAll(kept, created + a.CreatedKey())
  {
    var keys := ConstraintNames(base, a.table, None, IsPrimaryKey);
    if a.BecomesPrimaryKey() {
      WithoutCommutes(base, created, keys);
      WithAllSnoc(kept, created, a.OnNewColumn(PrimaryKey));
    } else {
      assert Without(base, {}) == base;
      assert created + [] == created;
    }
  }

  lemma Stage5Form(db: Database, a: Alteration)
    requires Valid(db) && db.HasColumn(a.table, a.oldField.column)
    ensures
      Stage5(db, a) == WithAll(Kept(db, a), FirstCreated(a))
  {
    Stage4Form(db, a);
    assert CreatedDefault(a) + a.CreatedUnique() + a.CreatedIndex() + a.CreatedKey()
        == CreatedDefault(a) + (a.CreatedUnique() + a.CreatedIndex() + a.CreatedKey());
  }

  lemma ForeignKeyAdded(kept: Database, a: Alteration, cs: seq<Constraint>)
    ensures WithForeignKey(WithAll(kept, cs), a) == WithAll(kept, cs + a.CreatedForeignKey())
  {
    if a.newField.WantsForeignKey() {
      WithAllSnoc(kept, cs, a.CreatedForeignKey()[0]);
      assert [a.CreatedForeignKey()[0]] == a.CreatedForeignKey();
    } else {
      assert cs + a.CreatedForeignKey() == cs;
    }
  }

  lemma CheckAdded(kept: Database, a: Alteration, cs: seq<Constraint>)
    ensures WithCheck(WithAll(kept, cs), a) == WithAll(kept, cs + a.CreatedCheck())
  {
    if a.AddsCheck() {
      WithAllSnoc(kept, cs, a.CreatedCheck()[0]);
      assert [a.CreatedCheck()[0]] == a.CreatedCheck();
    } else {
      assert cs + a.CreatedCheck() == cs;
    }
  }

  lemma AllAdded(kept: Database, a: Alteration, first: seq<Constraint>)
    ensures WithCheck(WithInbound(WithForeignKey(WithAll(kept, first), a), a), a)
         == WithAll(kept, first + (a.CreatedForeignKey() + a.RebuiltForeignKeys() + a.CreatedCheck()))
  {
    var upTo6 := first + a.CreatedForeignKey();
    ForeignKeyAdded(kept, a, first);
    WithAllTwice(kept, upTo6, a.RebuiltForeignKeys());
    CheckAdded(kept, a, upTo6 + a.RebuiltForeignKeys());
    assert upTo6 + a.RebuiltForeignKeys() + a.CreatedCheck()
        == first + (a.CreatedForeignKey() + a.RebuiltForeignKeys() + a.CreatedCheck());
  }

  function FirstCreated(a: Alteration): seq<Constraint> {
    CreatedDefault(a) + (a.CreatedUnique() + a.CreatedIndex() + a.CreatedKey())
  }

  lemma CreationOrder(a: Alteration)
    ensures FirstCreated(a) + (a.CreatedForeignKey() + a.RebuiltForeignKeys() + a.CreatedCheck())
         == CreatedDefault(a) + a.Created()
  {
    var d, u, i, k := CreatedDefault(a), a.CreatedUnique(), a.CreatedIndex(), a.CreatedKey();
    Regroup(d, u + i + k, a.CreatedForeignKey(), a.RebuiltForeignKeys(), a.CreatedCheck());
  }

  lemma Regroup<T>(s: seq<T>, t: seq<T>, u: seq<T>, v: seq<T>, w: seq<T>)
    ensures (s + t) + (u + v + w) == s + (t + u + v + w)
  {
  }

  function Kept(db: Database, a: Alteration): Database
    requires db.HasColumn(a.table, a.oldField.column)
  {
    KeptBase(db, a).(tables := AlterTables(a, db.tables))
  }

  lemma FinishedForm(kept: Database, a: Alteration)
    ensures Finished(WithAll(kept, FirstCreated(a)), a) == WithoutDefault(WithAll(kept, CreatedDefault(a) + a.Created()), a)
  {
    AllAdded(kept, a, FirstCreated(a));
    CreationOrder(a);
  }

  lemma KeptForms(db: Database, a: Alteration)
    requires Valid(db) && db.HasColumn(a.table, a.oldField.column)
    requires DefaultsOn(db, a.table, a.oldField.column) == {}
    requires a.Renames() ==> a.newField.column !in db.tables[a.table].columns
    ensures forall id :: id in Kept(db, a).constraints ==> id < Kept(db, a).next
    ensures DefaultsOn(Kept(db, a), a.table, a.newField.column) == {}
  {
    KeptHasNoDefault(db, a);
    SameDefaults(Kept(db, a), KeptBase(db, a), a);
  }

  /** The stages end in the closed form. */
  lemma StagesEndInClosedForm(db: Database, a: Alteration)
    requires Valid(db) && db.HasColumn(a.table, a.oldField.column)
    requires DefaultsOn(db, a.table, a.oldField.column) == {}
    requires a.Renames() ==> a.newField.column !in db.tables[a.table].columns
    ensures Finished(Stage5(db, a), a) == AlteredDatabase(a, db)
  {
    hide Valid, Numbered, WithAll, FirstCreated, Kept, AlteredDatabase, Stage5, Alteration.Created, DefaultsOn;
    Stage5Form(db, a);
    KeptForms(db, a);
    FinishedForm(Kept(db, a), a);
    DefaultDropped(Kept(db, a), a);
    ClosedForm(db, a);
  }

  lemma ClosedForm(db: Database, a: Alteration)
    requires db.HasColumn(a.table, a.oldField.column)
    ensures
      var kept := Kept(db, a);
      AlteredDatabase(a, db)
      == kept.(constraints := kept.constraints + Numbered(a.Created(), kept.next + a.Passing()),
               next := kept.next + a.Passing() + |a.Created()|)
  {
    hide Numbered, Alteration.Created, Surviving, RetypeRelated;
  }

  lemma SameDefaults(db: Database, db': Database, a: Alteration)
    requires db.constraints == db'.constraints
    ensures DefaultsOn(db, a.table, a.newField.column) == DefaultsOn(db', a.table, a.newField.column)
  {
  }

  lemma DefaultDropped(kept: Database, a: Alteration)
    requires forall id :: id in kept.constraints ==> id < kept.next
    requires DefaultsOn(kept, a.table, a.newField.column) == {}
    ensures
      WithoutDefault(WithAll(kept, CreatedDefault(a) + a.Created()), a)
      == kept.(constraints := kept.constraints + Numbered(a.Created(), kept.next + a.Passing()),
               next := kept.next + a.Passing() + |a.Created()|)
  {
    hide Numbered, Alteration.Created;
    if a.NeedsDatabaseDefault() {
      DefaultIsFirst(kept, a);
      FirstGoes(kept, CreatedDefault(a)[0], a.Created());
      assert CreatedDefault(a) == [CreatedDefault(a)[0]];
    } else {
      assert CreatedDefault(a) + a.Created() == a.Created();
    }
  }

  lemma KeptHasNoDefault(db: Database, a: Alteration)
    requires Valid(db) && db.HasColumn(a.table, a.oldField.column)
    requires DefaultsOn(db, a.table, a.oldField.column) == {}
    requires a.Renames() ==> a.newField.column !in db.tables[a.table].columns
    ensures forall id :: id in KeptBase(db, a).constraints ==> id < db.next
    ensures DefaultsOn(KeptBase(db, a), a.table, a.newField.column) == {}
  {
    forall id | id in KeptBase(db, a).constraints
      ensures !IsDefaultOn(a.Follow(db.constraints[id]), a.table, a.newField.column)
    {
      var c := db.constraints[id];
      assert ValidConstraint(db, c);
      NoDefaultOnColumn(db, a.table, a.oldField.column, id);
      if c.kind.Default? && c.table == a.table {
        assert c.columns[0] in c.columns;
        assert a.Follow(c).columns[0] == c.columns[0];
      }
    }
  }

  /** The only default on the new column is the one the script added first. */
  lemma DefaultIsFirst(kept: Database, a: Alteration)
    requires a.NeedsDatabaseDefault()
    requires forall id :: id in kept.constraints ==> id < kept.next
    requires DefaultsOn(kept, a.table, a.newField.column) == {}
    ensures DefaultsOn(WithAll(kept, CreatedDefault(a) + a.Created()), a.table, a.newField.column) == {kept.next}
  {
    hide Numbered, Alteration.Created;
    var cs := CreatedDefault(a) + a.Created();
    var all := WithAll(kept, cs);
    forall id | id in all.constraints
      ensures IsDefaultOn(all.constraints[id], a.table, a.newField.column) <==> id == kept.next
    {
      if id < kept.next {
        assert id !in DefaultsOn(kept, a.table, a.newField.column);
      } else {
        assert all.constraints[id] == cs[id - kept.next];
        if id > kept.next {
          CreatedHasNoDefault(a, id - kept.next - 1);
        }
      }
    }
    assert kept.next in all.constraints;
  }

  lemma FirstGoes(kept: Database, c: Constraint, cs: seq<Constraint>)
    requires kept.next !in kept.constraints
    ensures WithAll(kept, [c] + cs).constraints - {kept.next} == kept.constraints + Numbered(cs, kept.next + 1)
  {
    hide Numbered;
    var after := WithAll(kept, [c] + cs).constraints - {kept.next};
    var want := kept.constraints + Numbered(cs, kept.next + 1);
    assert after.Keys == want.Keys;
    forall id | id in after
      ensures after[id] == want[id]
    {
    }
  }

  lemma RebuiltIsNoDefault(a: Alteration, i: nat)
    requires i < |a.RebuiltForeignKeys()|
    ensures !a.RebuiltForeignKeys()[i].kind.Default?
  {
  }

  lemma CreatedHasNoDefault(a: Alteration, i: nat)
    requires i < |a.Created()|
    ensures !a.Created()[i].kind.Default?
  {
    hide HasFlag, RelatedForeignKey;
    var before := a.CreatedUnique() + a.CreatedIndex() + a.CreatedKey() + a.CreatedForeignKey();
    assert a.Created() == before + a.RebuiltForeignKeys() + a.CreatedCheck();
    if i < |before| {
      assert a.Created()[i] == before[i];
    } else if i < |before| + |a.RebuiltForeignKeys()| {
      RebuiltIsNoDefault(a, i - |before|);
    }
  }
}
