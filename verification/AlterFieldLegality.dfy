/** What each part of the script meets, told by the database that the script started from. */
module AlterFieldLegality {
  import opened Wrappers
  import opened SqlServer
  import opened Fields
  import opened AlterFieldSpec
  import opened AlterFieldSteps
  import opened AlterFieldProof

  /** The column after the first drops, and what stops its own changes, as told by the database before. */
  lemma ColumnOutcome(db: Database, a: Alteration)
    requires Prepared(db, a) && Valid(Stage1(db, a))
    ensures ColumnFound(Stage1(db, a), a)
    ensures NameFits(Stage1(db, a), a) <==> RenameAllowed(db, a)
    ensures TypeRefused(Stage1(db, a), a) <==> TypeBlocked(db, a)
    ensures NullsRemain(Stage1(db, a), a) <==> NullsRemain(db, a)
  {
    var db1 := Stage1(db, a);
    assert DefaultsOn(db1, a.table, a.oldField.column) <= DefaultsOn(db, a.table, a.oldField.column);
    BlockersRemain(db, a);
    NameOutcome(db, a);
  }

  lemma NameOutcome(db: Database, a: Alteration)
    requires a.table in db.tables
    ensures NameFits(Stage1(db, a), a) <==> RenameAllowed(db, a)
  {
    var db1 := Stage1(db, a);
    if !RenameAllowed(db, a) && a.newField.column !in db.tables[a.table].columns {
      var id :| id in db.constraints && db.constraints[id].kind.Check? && OnColumn(db.constraints[id], a.table, a.oldField.column)
                && !a.DropsFirst(db.constraints[id]);
      assert id in db1.constraints;
    }
  }

  /** What stands in the way after the drops is what stood there before and is not dropped. */
  lemma BlockersRemain(db: Database, a: Alteration)
    ensures RetypeIsFree(db, a, a.table, a.oldField.column) <==>
              forall id :: id in Stage1(db, a).constraints
                           ==> !BlocksRetype(db.strict, Stage1(db, a).constraints[id], a.table, a.oldField.column)
  {
    var db1 := Stage1(db, a);
    if !RetypeIsFree(db, a, a.table, a.oldField.column) {
      var id :| id in db.constraints && BlocksRetype(db.strict, db.constraints[id], a.table, a.oldField.column)
                && !a.DropsFirst(db.constraints[id]);
      assert id in db1.constraints;
    }
  }

  // ---------- Where columns and constraints are in the middle of the script ----------

  lemma {:induction false} RetypeOthers(tables: map<Name, Table>, rs: seq<RelatedObject>, t: Name, c: Name)
    requires t in tables && c in tables[t].columns
    requires forall i :: 0 <= i < |rs| ==> (rs[i].table, rs[i].field.column) != (t, c)
    ensures
      var tables' := RetypeRelated(tables, rs);
      t in tables' && c in tables'[t].columns && tables'[t].columns[c] == tables[t].columns[c]
    decreases |rs|
  {
    if rs != [] {
      assert (rs[0].table, rs[0].field.column) != (t, c);
      RetypeOthers(RetypeOne(tables, rs[0]), rs[1..], t, c);
    }
  }

  lemma {:induction false} RetypeHits(tables: map<Name, Table>, rs: seq<RelatedObject>, k: nat)
    requires k < |rs|
    requires rs[k].table in tables && rs[k].field.column in tables[rs[k].table].columns
    requires forall i, j :: 0 <= i < j < |rs| ==> (rs[i].table, rs[i].field.column) != (rs[j].table, rs[j].field.column)
    ensures
      var t, c := rs[k].table, rs[k].field.column;
      var tables' := RetypeRelated(tables, rs);
      t in tables' && c in tables'[t].columns
      && tables'[t].columns[c] == Column(rs[k].field.ty, true, Retyped(tables[t].columns[c], rs[k].field.ty))
    decreases |rs|
  {
    var t, c := rs[k].table, rs[k].field.column;
    var tables1 := RetypeOne(tables, rs[0]);
    if k == 0 {
      RetypeOthers(tables1, rs[1..], t, c);
    } else {
      assert (rs[0].table, rs[0].field.column) != (t, c);
      RetypeHits(tables1, rs[1..], k - 1);
    }
  }

  lemma UntouchedColumn(db: Database, a: Alteration, t: Name, c: Name)
    requires db.HasColumn(a.table, a.oldField.column)
    requires a.Renames() ==> a.newField.column !in db.tables[a.table].columns
    requires db.HasColumn(t, c) && Untouched(a, t, c)
    ensures
      var tables := AlterTables(a, db.tables);
      t in tables && c in tables[t].columns && tables[t].columns[c] == db.Column(t, c)
  {
    RetypeOthers(db.tables[a.table := a.AlteredTable(db.tables[a.table])], a.RelatedToRetype(), t, c);
  }

  lemma AlteredColumnPlace(db: Database, a: Alteration)
    requires db.HasColumn(a.table, a.oldField.column) && SeparateColumns(a)
    ensures
      var tables := AlterTables(a, db.tables);
      && a.table in tables && a.newField.column in tables[a.table].columns
      && tables[a.table].columns[a.newField.column] == a.AlteredColumn(db.Column(a.table, a.oldField.column))
  {
    RetypeOthers(db.tables[a.table := a.AlteredTable(db.tables[a.table])], a.RelatedToRetype(), a.table, a.newField.column);
  }

  lemma RelatedColumnPlace(db: Database, a: Alteration, k: nat)
    requires db.HasColumn(a.table, a.oldField.column)
    requires RenameAllowed(db, a) && RelatedAllowed(db, a) && k < |a.RelatedToRetype()|
    ensures
      var r := a.RelatedToRetype()[k];
      var tables := AlterTables(a, db.tables);
      && db.HasColumn(r.table, r.field.column)
      && r.table in tables && r.field.column in tables[r.table].columns
      && tables[r.table].columns[r.field.column]
         == Column(r.field.ty, true, Retyped(db.Column(r.table, r.field.column), r.field.ty))
  {
    RetypeHits(db.tables[a.table := a.AlteredTable(db.tables[a.table])], a.RelatedToRetype(), k);
  }

  /** After the key was moved there are followed survivors, and new constraints on the altered column alone. */
  lemma Stage4Content(db: Database, a: Alteration, id: nat)
    requires Valid(db) && db.HasColumn(a.table, a.oldField.column) && id in Stage4(db, a).constraints
    ensures
      var c := Stage4(db, a).constraints[id];
      || (id in db.constraints && a.Survives(db.constraints[id]) && c == a.Follow(db.constraints[id]))
      || (c == a.OnNewColumn(c.kind) && !c.kind.ForeignKey? && !c.kind.Check?)
  {
    Stage4Form(db, a);
    var created := CreatedDefault(a) + a.CreatedUnique() + a.CreatedIndex() + a.CreatedKey();
    if id in Numbered(created, db.next) {
      Stage4Created(a, id - db.next);
    }
  }

  lemma Stage4Created(a: Alteration, i: nat)
    requires i < |CreatedDefault(a) + a.CreatedUnique() + a.CreatedIndex() + a.CreatedKey()|
    ensures
      var c := (CreatedDefault(a) + a.CreatedUnique() + a.CreatedIndex() + a.CreatedKey())[i];
      c == a.OnNewColumn(c.kind) && !c.kind.ForeignKey? && !c.kind.Check?
  {
  }

  lemma SurvivorStays(db: Database, a: Alteration, id: nat)
    requires Valid(db) && db.HasColumn(a.table, a.oldField.column)
    requires id in db.constraints && a.Survives(db.constraints[id])
    ensures id in Stage4(db, a).constraints && Stage4(db, a).constraints[id] == a.Follow(db.constraints[id])
  {
    Stage4Form(db, a);
    assert id < db.next;
  }

  // ---------- Moving the primary key ----------

  /** A foreign key refers to a key of the table exactly when it does so after both have followed the rename. */
  lemma FollowKeepsReferenced(db: Database, a: Alteration, key: Constraint, fk: Constraint)
    requires RenameAllowed(db, a) && db.HasColumn(a.table, a.oldField.column)
    requires ValidConstraint(db, key) && ValidConstraint(db, fk) && key.table == a.table
    ensures RefersTo(a.Follow(fk), a.Follow(key)) <==> RefersTo(fk, key)
  {
    if a.Renames() && fk.kind.ForeignKey? && fk.kind.toTable == a.table {
      if |key.columns| == 1 {
        assert key.columns[0] in key.columns && key.columns == [key.columns[0]];
        assert a.Follow(key).columns == [RenameName(key.columns[0], a.oldField.column, a.newField.column)];
      } else {
        assert |a.Follow(key).columns| != 1;
      }
    }
  }

  /** None of the first drops takes a primary key when another column becomes it. */
  lemma OldKeyNames(db: Database, a: Alteration)
    requires Prepared(db, a) && a.BecomesPrimaryKey()
    ensures ConstraintNames(Stage3(db, a), a.table, None, IsPrimaryKey) == ConstraintNames(db, a.table, None, IsPrimaryKey)
    ensures forall id :: id in ConstraintNames(db, a.table, None, IsPrimaryKey) ==>
              !a.DropsFirst(db.constraints[id]) && Stage3(db, a).constraints[id] == a.Follow(db.constraints[id])
  {
    var names := ConstraintNames(db, a.table, None, IsPrimaryKey);
    OldKeys(db, a);
    forall id | id in names
      ensures !a.DropsFirst(db.constraints[id])
    {
      assert id !in ConstraintNames(db, a.table, Some([a.oldField.column]), IsPrimaryKey);
    }
    assert ConstraintNames(Base(db, a), a.table, None, IsPrimaryKey) == names;
    Stage3Form(db, a);
    assert forall id :: id in names ==> id < db.next;
  }

  /** The old key is referred to after the column was altered exactly when a foreign key was left that refers to it. */
  lemma StillReferencedLater(db: Database, a: Alteration, id: nat)
    requires Prepared(db, a) && RenameAllowed(db, a) && a.BecomesPrimaryKey()
    requires id in ConstraintNames(db, a.table, None, IsPrimaryKey)
    ensures Referenced(Stage3(db, a), a.Follow(db.constraints[id])) <==> StillReferenced(db, a, db.constraints[id])
  {
    hide Stage3, ForeignKeyAgrees, UniqueAgrees, CheckAgrees;
    var db3 := Stage3(db, a);
    var key := db.constraints[id];
    assert ValidConstraint(db, key);
    if Referenced(db3, a.Follow(key)) {
      var fk :| fk in db3.constraints && RefersTo(db3.constraints[fk], a.Follow(key));
      Stage3ForeignKey(db, a, fk);
      assert ValidConstraint(db, db.constraints[fk]);
      FollowKeepsReferenced(db, a, key, db.constraints[fk]);
    }
    if StillReferenced(db, a, key) {
      var fk :| fk in db.constraints && RefersTo(db.constraints[fk], key) && !a.DropsFirst(db.constraints[fk]);
      assert ValidConstraint(db, db.constraints[fk]);
      FollowKeepsReferenced(db, a, key, db.constraints[fk]);
      Stage3Survivor(db, a, fk);
    }
  }

  lemma Stage3Survivor(db: Database, a: Alteration, id: nat)
    requires Valid(db) && db.HasColumn(a.table, a.oldField.column)
    requires id in db.constraints && !a.DropsFirst(db.constraints[id])
    ensures id in Stage3(db, a).constraints && Stage3(db, a).constraints[id] == a.Follow(db.constraints[id])
  {
    Stage3Form(db, a);
    assert id < db.next;
  }

  lemma Stage3ForeignKey(db: Database, a: Alteration, id: nat)
    requires Valid(db) && db.HasColumn(a.table, a.oldField.column)
    requires id in Stage3(db, a).constraints && Stage3(db, a).constraints[id].kind.ForeignKey?
    ensures id in db.constraints && !a.DropsFirst(db.constraints[id])
    ensures Stage3(db, a).constraints[id] == a.Follow(db.constraints[id])
  {
    Stage3Form(db, a);
    var created := CreatedDefault(a) + a.CreatedUnique() + a.CreatedIndex();
    if id in Numbered(created, db.next) {
      Stage3Created(a, id - db.next);
    }
  }

  lemma Stage3Created(a: Alteration, i: nat)
    requires i < |CreatedDefault(a) + a.CreatedUnique() + a.CreatedIndex()|
    ensures !(CreatedDefault(a) + a.CreatedUnique() + a.CreatedIndex())[i].kind.ForeignKey?
  {
  }

  /** What the move of the primary key meets. */
  lemma KeyOutcome(db: Database, a: Alteration, strict: bool)
    requires Prepared(db, a) && RenameAllowed(db, a) && a.BecomesPrimaryKey() && Valid(Stage3(db, a))
    ensures
      var names := ConstraintNames(db, a.table, None, IsPrimaryKey);
      && ConstraintNames(Stage3(db, a), a.table, None, IsPrimaryKey) == names
      && (names != {} ==> |names| == 1)
      && if KeyReferenced(db, a) then SomeReferenced(Stage3(db, a), names)
         else names != {} || !strict ==> KeyMovable(Stage3(db, a), a, strict)
  {
    hide Stage3, ForeignKeyAgrees, UniqueAgrees, CheckAgrees;
    var db3 := Stage3(db, a);
    var names := ConstraintNames(db, a.table, None, IsPrimaryKey);
    OldKeyNames(db, a);
    if names != {} {
      OneKey(db, a.table);
    }
    forall id | id in names
      ensures Referenced(db3, db3.constraints[id]) <==> StillReferenced(db, a, db.constraints[id])
    {
      StillReferencedLater(db, a, id);
    }
    AlteredColumnPresent(db, a);
  }

  /** A table has at most one primary key. */
  lemma OneKey(db: Database, t: Name)
    requires Valid(db) && ConstraintNames(db, t, None, IsPrimaryKey) != {}
    ensures |ConstraintNames(db, t, None, IsPrimaryKey)| == 1
  {
    var names := ConstraintNames(db, t, None, IsPrimaryKey);
    var id :| id in names;
    forall j | j in names
      ensures j == id
    {
    }
    assert names == {id};
  }

  // ---------- Retyping the related columns ----------

  lemma FollowKeepsOthers(db: Database, a: Alteration, c: Constraint, t: Name, col: Name)
    requires RenameAllowed(db, a) && db.HasColumn(a.table, a.oldField.column)
    requires ValidConstraint(db, c) && db.HasColumn(t, col) && (t, col) != (a.table, a.oldField.column)
    ensures OnColumn(a.Follow(c), t, col) <==> OnColumn(c, t, col)
    ensures ReferencesColumn(a.Follow(c), t, col) <==> ReferencesColumn(c, t, col)
  {
    if a.Renames() && c.table == a.table == t {
      var c' := a.Follow(c);
      if OnColumn(c, t, col) {
        var k :| 0 <= k < |c.columns| && c.columns[k] == col;
        assert c'.columns[k] == col;
      }
      if OnColumn(c', t, col) {
        var k :| 0 <= k < |c'.columns| && c'.columns[k] == col;
        assert c.columns[k] in c.columns;
        assert c.columns[k] == col;
      }
    }
  }

  lemma RelatedColumnLater(db: Database, a: Alteration, t: Name, c: Name)
    requires db.HasColumn(a.table, a.oldField.column)
    requires (t, c) != (a.table, a.oldField.column) && (t, c) != (a.table, a.newField.column)
    ensures Stage4(db, a).HasColumn(t, c) <==> db.HasColumn(t, c)
    ensures db.HasColumn(t, c) ==> Stage4(db, a).Column(t, c) == db.Column(t, c)
    ensures Stage4(db, a).strict == db.strict
  {
  }

  /** What stands in the way of a related column's type is what stood there before and survives. */
  lemma RelatedColumnOutcome(db: Database, a: Alteration, r: RelatedObject)
    requires Valid(db) && db.HasColumn(a.table, a.oldField.column) && RenameAllowed(db, a)
    requires (r.table, r.field.column) != (a.table, a.oldField.column) && (r.table, r.field.column) != (a.table, a.newField.column)
    ensures RelatedColumnRetypable(Stage4(db, a), r) <==> RelatedTakesType(db, a, r)
  {
    hide Alteration.Survives, KeyExists, Stage4;
    var db4 := Stage4(db, a);
    RelatedColumnLater(db, a, r.table, r.field.column);
    if db.HasColumn(r.table, r.field.column) {
      forall id | id in db4.constraints && BlocksRetype(db.strict, db4.constraints[id], r.table, r.field.column)
        ensures id in db.constraints && a.Survives(db.constraints[id])
        ensures BlocksRetype(db.strict, db.constraints[id], r.table, r.field.column)
      {
        Stage4Content(db, a, id);
        BlockerFollows(db, a, id, r.table, r.field.column);
      }
      forall id | id in db.constraints && BlocksRetype(db.strict, db.constraints[id], r.table, r.field.column)
                  && a.Survives(db.constraints[id])
        ensures id in db4.constraints && BlocksRetype(db.strict, db4.constraints[id], r.table, r.field.column)
      {
        SurvivorStays(db, a, id);
        BlockerFollows(db, a, id, r.table, r.field.column);
      }
    }
  }

  lemma BlockerFollows(db: Database, a: Alteration, id: nat, t: Name, c: Name)
    requires Valid(db) && db.HasColumn(a.table, a.oldField.column) && RenameAllowed(db, a)
    requires db.HasColumn(t, c) && (t, c) != (a.table, a.oldField.column)
    ensures id in db.constraints ==>
              (BlocksRetype(db.strict, a.Follow(db.constraints[id]), t, c) <==> BlocksRetype(db.strict, db.constraints[id], t, c))
  {
    if id in db.constraints {
      assert ValidConstraint(db, db.constraints[id]);
      FollowKeepsOthers(db, a, db.constraints[id], t, c);
    }
  }

  /** What the retyping of the related columns meets. */
  lemma RelatedOutcome(db: Database, a: Alteration)
    requires Prepared(db, a) && RenameAllowed(db, a)
    ensures
      var run := Run(Stage4(db, a), RetypeScript(a.RelatedToRetype()));
      if RelatedRefused(db, a) then run.Failure? else run == Success(Stage5(db, a))
  {
    hide Stage4, RelatedColumnRetypable, RelatedTakesType, ForeignKeyAgrees, UniqueAgrees, CheckAgrees, Run, RetypeScript, RetypeRelated;
    var rs := a.RelatedToRetype();
    forall i | 0 <= i < |rs|
      ensures RelatedColumnRetypable(Stage4(db, a), rs[i]) <==> RelatedTakesType(db, a, rs[i])
    {
      RelatedColumnOutcome(db, a, rs[i]);
    }
    if RelatedRefused(db, a) {
      RetypeScriptFails(Stage4(db, a), rs);
    } else {
      RetypeScriptEffect(Stage4(db, a), rs);
    }
  }

  // ---------- Creating foreign keys ----------

  lemma Stage5Tables(db: Database, a: Alteration)
    requires db.HasColumn(a.table, a.oldField.column)
    ensures Stage5(db, a).tables == AlterTables(a, db.tables)
  {
  }

  lemma RelationsAreRelations(a: Alteration)
    ensures forall i :: 0 <= i < |a.RebuiltForeignKeys()| ==> IsRelation(a.RebuiltForeignKeys()[i])
    ensures forall i :: 0 <= i < |a.RebuiltForeignKeys()| ==> !a.RebuiltForeignKeys()[i].kind.IsKey()
  {
  }

  lemma {:induction false} AllKeysUnchanged(db: Database, cs: seq<Constraint>)
    requires forall id :: id in db.constraints ==> id < db.next
    requires forall i :: 0 <= i < |cs| ==> !cs[i].kind.IsKey()
    ensures SameKeys(db, WithAll(db, cs))
    decreases |cs|
  {
    if cs == [] {
      WithAllNothing(db);
    } else {
      KeysUnchanged(db, cs[0]);
      AllKeysUnchanged(WithConstraint(db, cs[0]), cs[1..]);
      WithAllCons(db, cs[0], cs[1..]);
      assert [cs[0]] + cs[1..] == cs;
    }
  }

  lemma DefaultsAreNoKeys(db: Database, t: Name, c: Name)
    ensures SameKeys(db, Without(db, DefaultsOn(db, t, c)))
  {
    var db1 := Without(db, DefaultsOn(db, t, c));
    forall kt, kc
      ensures KeyExists(db, kt, kc) ==> KeyExists(db1, kt, kc)
    {
      if KeyExists(db, kt, kc) {
        var id :| id in db.constraints && IsKeyOn(db.constraints[id], kt, kc);
        assert id in db1.constraints;
      }
    }
  }

  /** The end of the script makes no key and takes none. */
  lemma FinishedKeys(db: Database, a: Alteration)
    requires forall id :: id in db.constraints ==> id < db.next
    ensures SameKeys(db, Finished(db, a)) && Finished(db, a).tables == db.tables
  {
    hide KeyExists;
    var db1 := WithForeignKey(db, a);
    if a.newField.WantsForeignKey() { KeysUnchanged(db, a.CreatedForeignKey()[0]); }
    RelationsAreRelations(a);
    AllKeysUnchanged(db1, a.RebuiltForeignKeys());
    var db2 := WithInbound(db1, a);
    if a.AddsCheck() { KeysUnchanged(db2, a.CreatedCheck()[0]); }
    DefaultsAreNoKeys(WithCheck(db2, a), a.table, a.newField.column);
  }

  /** A foreign key is legal at the end of the script exactly when it is legal where the script creates it. */
  lemma LegalAtTheEnd(db: Database, a: Alteration, c: Constraint)
    requires Prepared(db, a) && RenameAllowed(db, a) && Valid(Stage5(db, a))
    ensures ForeignKeyLegal(AlteredDatabase(a, db), c) <==> ForeignKeyLegal(Stage5(db, a), c)
  {
    hide Stage5, AlteredDatabase, Finished, ForeignKeyAgrees, UniqueAgrees, CheckAgrees;
    StagesEndInClosedForm(db, a);
    FinishedKeys(Stage5(db, a), a);
    LegalAlike(Stage5(db, a), AlteredDatabase(a, db), c);
  }

  /** What the creation of the foreign keys meets. */
  lemma RelationsOutcome(db: Database, a: Alteration)
    requires Prepared(db, a) && RenameAllowed(db, a) && Valid(Stage5(db, a))
    ensures Stage5(db, a).HasColumn(a.table, a.newField.column)
    ensures
      var db5 := Stage5(db, a);
      var created, rebuilt := ForeignKeysLegal(db5, a.CreatedForeignKey()), ForeignKeysLegal(db5, a.RebuiltForeignKeys());
      var run := Run(WithForeignKey(db5, a), AddScript(a.RebuiltForeignKeys()));
      && (ForeignKeysRefused(db, a) <==> !(created && rebuilt))
      && (created ==> if rebuilt then run == Success(WithInbound(WithForeignKey(db5, a), a)) else run.Failure?)
  {
    hide Stage5, AlteredDatabase, ForeignKeyLegal, ForeignKeyAgrees, UniqueAgrees, CheckAgrees, Run;
    forall c
      ensures ForeignKeyLegal(AlteredDatabase(a, db), c) <==> ForeignKeyLegal(Stage5(db, a), c)
    {
      LegalAtTheEnd(db, a, c);
    }
    AlteredColumnPlace(db, a);
    Stage5Tables(db, a);
    RebuildOutcome(Stage5(db, a), a);
  }

  lemma RebuildOutcome(db: Database, a: Alteration)
    requires Valid(db)
    ensures
      var run := Run(WithForeignKey(db, a), AddScript(a.RebuiltForeignKeys()));
      ForeignKeysLegal(db, a.CreatedForeignKey()) ==>
        if ForeignKeysLegal(db, a.RebuiltForeignKeys()) then run == Success(WithInbound(WithForeignKey(db, a), a)) else run.Failure?
  {
    if ForeignKeysLegal(db, a.CreatedForeignKey()) {
      var db' := WithForeignKey(db, a);
      var cs := a.RebuiltForeignKeys();
      if a.newField.WantsForeignKey() {
        var c := a.CreatedForeignKey()[0];
        assert ForeignKeyLegal(db, c);
        AddConstraintKeepsValid(db, c);
        forall i | 0 <= i < |cs|
          ensures ForeignKeyLegal(db', cs[i]) <==> ForeignKeyLegal(db, cs[i])
        {
          ForeignKeyStaysLegal(db, c, cs[i]);
        }
      }
      RelationsAreRelations(a);
      if ForeignKeysLegal(db, cs) {
        AddScriptEffect(db', cs);
      } else {
        var i :| 0 <= i < |cs| && !ForeignKeyLegal(db, cs[i]);
        assert !ForeignKeyLegal(db', cs[i]);
        AddScriptFails(db', cs);
      }
    }
  }

  lemma AlteredColumnPresent(db: Database, a: Alteration)
    requires db.HasColumn(a.table, a.oldField.column)
    ensures Stage2(db, a).HasColumn(a.table, a.newField.column)
    ensures Stage3(db, a).HasColumn(a.table, a.newField.column)
    ensures Stage3(db, a).Column(a.table, a.newField.column).nullable == a.newField.nullable
  {
  }

  // ---------- How far the script has come ----------

  /** Nothing stops the drops and the changes of the column itself. */
  ghost predicate PastColumn(db: Database, a: Alteration, strict: bool)
    requires db.HasColumn(a.table, a.oldField.column)
  {
    FirstObstacle(db, a, strict)
    in {None, Some(WrongKeyCount), Some(ReferencedKey), Some(RefusedRelatedType), Some(RefusedForeignKey)}
  }

  /** Nor the changes of keys and related columns. */
  ghost predicate PastKeys(db: Database, a: Alteration, strict: bool)
    requires db.HasColumn(a.table, a.oldField.column)
  {
    FirstObstacle(db, a, strict) in {None, Some(RefusedForeignKey)}
  }

  ghost predicate ColumnDone(db: Database, start: Database, a: Alteration, strict: bool) {
    Prepared(start, a) && PastColumn(start, a, strict) && db == Stage2(start, a)
  }

  ghost predicate KeysDone(db: Database, start: Database, a: Alteration, strict: bool) {
    Prepared(start, a) && PastKeys(start, a, strict) && db == Stage5(start, a)
  }

  ghost predicate RelationsDone(db: Database, start: Database, a: Alteration, strict: bool) {
    Prepared(start, a) && FirstObstacle(start, a, strict) == None && db == Finished(Stage5(start, a), a)
  }
}
