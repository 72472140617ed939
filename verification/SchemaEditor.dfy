/** The schema editor: it changes the database one statement at a time. */
module SchemaEditing {
  import opened Wrappers
  import opened SqlServer
  import opened Fields
  import opened AlterFieldSpec
  import opened AlterFieldSteps
  import opened AlterFieldProof
  import opened AlterFieldLegality
  import opened AddRemoveSpec

  class SchemaEditor {
    var db: Database
    var deferred: seq<Stmt>

    method Execute(s: Stmt) returns (r: Outcome<Error>)
      requires Valid(db)
      modifies this`db
      ensures Valid(db)
      ensures match Exec(old(db), s)
              case Success(d) => r.Pass? && db == d
              case Failure(e) => r == Fail(e) && db == old(db)
    {
      match Exec(db, s) {
        case Success(d) =>
          ExecKeepsValid(db, s);
          db := d;
          r := Pass;
        case Failure(e) =>
          r := Fail(e);
      }
    }

    /** Drops the named constraints one by one, in no particular order. */
    method DeleteConstraints(t: Name, names: set<nat>, asIndex: bool) returns (r: Outcome<Error>)
      requires Valid(db)
      modifies this`db
      ensures Valid(db)
      ensures r.Pass? ==> db == Without(old(db), names)
      ensures Droppable(old(db), t, names, asIndex) ==> r.Pass?
      ensures r.Pass? ==> forall id :: id in names && id in old(db).constraints ==> old(db).constraints[id].kind.Index? == asIndex
      ensures !asIndex && NoForeignKeys(old(db), names) && SomeReferenced(old(db), KeysAmong(old(db), names)) ==> r.Fail?
    {
      hide Valid;
      var left := names;
      while left != {}
        invariant Valid(db)
        invariant left <= names
        invariant db == Without(old(db), names - left)
        invariant Droppable(old(db), t, names, asIndex) ==> Droppable(db, t, left, asIndex)
        invariant forall id :: id in names - left && id in old(db).constraints ==> old(db).constraints[id].kind.Index? == asIndex
        invariant !asIndex && NoForeignKeys(old(db), names) ==> !SomeReferenced(old(db), KeysAmong(old(db), names - left))
      {
        var name :| name in left;
        ghost var before := db;
        if NoForeignKeys(old(db), names) && name in old(db).constraints {
          ReferencedWithout(old(db), names - left, old(db).constraints[name]);
        }
        :- Execute(if asIndex then DropIndex(t, name) else DropConstraint(t, name));
        left := left - {name};
        assert names - left == (names - (left + {name})) + {name};
        assert db.constraints == old(db).constraints - (names - left);
      }
      assert names - left == names;
      r := Pass;
    }

    // ---------- The constraint drops that open _alter_field ----------

    /** Drops the column's outgoing foreign keys and remembers whether there were any. */
    method DropForeignKeys(a: Alteration, strict: bool) returns (r: Outcome<Error>, fksDropped: set<Name>)
      requires Valid(db)
      modifies this`db
      ensures Valid(db)
      ensures r.Pass? ==> db == Without(old(db), ForeignKeysToDrop(old(db), a))
      ensures r.Pass? ==> (fksDropped != {} <==> ForeignKeysToDrop(old(db), a) != {})
      ensures if strict && a.oldField.WantsForeignKey() && |ForeignKeysToDrop(old(db), a)| != 1 then r == Fail(WrongCount) else r.Pass?
    {
      fksDropped := {};
      if a.oldField.rel.Some? && a.oldField.dbConstraint {
        var names := ConstraintNames(db, a.table, Some([a.oldField.column]), IsForeignKey);
        if strict && |names| != 1 {
          return Fail(WrongCount), fksDropped;
        }
        if names != {} {
          fksDropped := fksDropped + {a.oldField.column};
        }
        r := DeleteConstraints(a.table, names, false);
      } else {
        r := Pass;
        assert Without(db, {}) == db;
      }
    }

    method DropUniques(a: Alteration, strict: bool) returns (r: Outcome<Error>)
      requires Valid(db)
      modifies this`db
      ensures Valid(db)
      ensures r.Pass? ==> db == Without(old(db), UniquesToDrop(old(db), a))
      ensures
        && (strict && a.RemovesUnique() ==> |UniquesToDrop(old(db), a)| == 1)
        && Droppable(old(db), a.table, UniquesToDrop(old(db), a), false)
        ==> r.Pass?
      ensures strict && a.RemovesUnique() && |UniquesToDrop(old(db), a)| != 1 ==> r == Fail(WrongCount)
      ensures SomeReferenced(old(db), UniquesToDrop(old(db), a)) ==> r.Fail?
    {
      if a.oldField.Unique() && (!a.newField.Unique() || (!a.oldField.primaryKey && a.newField.primaryKey)) {
        var names := ConstraintNames(db, a.table, Some([a.oldField.column]), IsUnique);
        if strict && |names| != 1 {
          return Fail(WrongCount);
        }
        r := DeleteConstraints(a.table, names, false);
      } else {
        r := Pass;
        assert Without(db, {}) == db;
      }
    }

    /** Drops the foreign keys that point to a primary key about to change its type. */
    method DropInboundForeignKeys(a: Alteration) returns (r: Outcome<Error>)
      requires Valid(db)
      modifies this`db
      ensures Valid(db)
      ensures r.Pass? && db == Without(old(db), InboundToDrop(old(db), a))
    {
      hide RelatedNonM2mObjects, Alteration.Paired, Valid;
      if a.RetypesPrimaryKey() {
        var rels := RelatedNonM2mObjects(a.oldRelated, a.newRelated);
        PairedSeconds(a);
        var i := 0;
        assert Without(db, {}) == db;
        assert InboundBelow(db, a, 0) == {};
        while i < |rels|
          invariant 0 <= i <= |rels|
          invariant Valid(db)
          invariant db == Without(old(db), InboundBelow(old(db), a, i))
        {
          var newRel := rels[i].1;
          ghost var gone := InboundBelow(old(db), a, i);
          InboundStep(old(db), a, i);
          var names := ConstraintNames(db, newRel.table, Some([newRel.field.column]), IsForeignKey);
          // a foreign key can always be dropped
          r := DeleteConstraints(newRel.table, names, false);
          assert r.Pass?;
          WithoutTwice(old(db), gone, names);
          i := i + 1;
        }
        assert InboundBelow(old(db), a, |rels|) == InboundToDrop(old(db), a);
      } else {
        assert InboundToDrop(db, a) == {} && Without(db, {}) == db;
      }
      r := Pass;
    }

    method DropIndexes(a: Alteration) returns (r: Outcome<Error>)
      requires Valid(db)
      modifies this`db
      ensures Valid(db)
      ensures r.Pass? ==> db == Without(old(db), IndexesToDrop(old(db), a))
      ensures Droppable(old(db), a.table, IndexesToDrop(old(db), a), true) ==> r.Pass?
    {
      if a.oldField.dbIndex && !a.newField.dbIndex && !a.oldField.Unique()
         && !(!a.newField.Unique() && a.oldField.Unique())
      {
        var names := ConstraintNames(db, a.table, Some([a.oldField.column]), IsIndex);
        r := DeleteConstraints(a.table, names, true);
      } else {
        r := Pass;
        assert Without(db, {}) == db;
      }
    }

    method DropChecks(a: Alteration, strict: bool) returns (r: Outcome<Error>)
      requires Valid(db)
      modifies this`db
      ensures Valid(db)
      ensures r.Pass? ==> db == Without(old(db), ChecksToDrop(old(db), a))
      ensures if strict && a.RemovesCheck() && |ChecksToDrop(old(db), a)| != 1 then r == Fail(WrongCount) else r.Pass?
    {
      if a.oldField.check != a.newField.check && a.oldField.check.Some? {
        var names := ConstraintNames(db, a.table, Some([a.oldField.column]), IsCheck);
        if strict && |names| != 1 {
          return Fail(WrongCount);
        }
        r := DeleteConstraints(a.table, names, false);
      } else {
        r := Pass;
        assert Without(db, {}) == db;
      }
    }

    method DropStaleConstraints(a: Alteration, strict: bool) returns (r: Outcome<Error>, fksDropped: set<Name>)
      requires Valid(db)
      modifies this`db
      ensures Valid(db)
      ensures Prepared(old(db), a) ==>
                if strict && a.RemovesUnique() && |UniquesToDrop(old(db), a)| != 1 then r == Fail(WrongCount)
                else if UniqueReferenced(old(db), a) then r.Fail?
                else
                  && r.Pass?
                  && db == Without(old(db), FirstToDrop(old(db), a))
                  && (fksDropped != {} <==> a.oldField.WantsForeignKey())
    {
      ghost var db0 := db;
      if Prepared(db0, a) {
        ForeignKeyDropPossible(db0, a);
        UniqueDropOutcome(db0, a);
        IndexDropPossible(db0, a);
        CheckDropPossible(db0, a);
        DropsCompose(db0, a);
      }
      r, fksDropped := DropForeignKeys(a, strict);
      if r.Fail? { return; }
      r := DropUniques(a, strict);
      if r.Fail? { return; }
      r := DropInboundForeignKeys(a);
      r := DropIndexes(a);
      if r.Fail? { return; }
      r := DropChecks(a, strict);
    }

    // ---------- Renaming and retyping the column ----------

    method ExecuteAll(stmts: seq<Stmt>) returns (r: Outcome<Error>)
      requires Valid(db)
      modifies this`db
      ensures Valid(db)
      ensures match Run(old(db), stmts)
              case Success(d) => r.Pass? && db == d
              case Failure(e) => r == Fail(e)
    {
      var i := 0;
      while i < |stmts|
        invariant 0 <= i <= |stmts|
        invariant Valid(db)
        invariant Run(old(db), stmts) == Run(db, stmts[i..])
      {
        :- Execute(stmts[i]);
        i := i + 1;
      }
      r := Pass;
    }

    /** Renames the column, changes its type and default, and then its nullability, filling NULL cells when it can. */
    method AlterColumn(a: Alteration) returns (r: Outcome<Error>)
      requires Valid(db)
      modifies this`db
      ensures Valid(db)
      ensures ColumnFound(old(db), a) && !NameFits(old(db), a) ==> r.Fail?
      ensures ColumnAlterable(old(db), a) ==>
                if NullsRemain(old(db), a) then r == Fail(NullViolation) else r.Pass? && db == ColumnAltered(old(db), a)
      ensures ColumnReady(old(db), a) && TypeRefused(old(db), a) ==> r.Fail?
    {
      hide Valid, NullsRemain, ColumnAltered, Renamed, TypeRefused, ColumnReady, ColumnFound, NameFits, Exec;
      ghost var db0 := db;
      RenameOutcome(db0, a);
      if ColumnReady(db0, a) { RenameEffect(db0, a); }
      if a.oldField.column != a.newField.column {
        :- Execute(RenameColumn(a.table, a.oldField.column, a.newField.column));
      }
      ghost var renamed := db;
      if ColumnReady(db0, a) {
        if TypeRefused(db0, a) {
          RetypeStops(db0, renamed, a);
        } else {
          ActionsEffect(db0, renamed, a);
        }
      }
      var actions, nullActions, postActions := [], [], [];
      if a.Retypes() {
        var (fragment, otherActions) := AlterColumnTypeSql(a.table, a.newField);
        actions := actions + [fragment];
        postActions := postActions + otherActions;
      }
      var needsDatabaseDefault := a.NeedsDatabaseDefault();
      if needsDatabaseDefault {
        actions := actions + [AddConstraint(a.OnNewColumn(Default(a.newField.effectiveDefault.value)))];
      }
      if a.oldField.nullable != a.newField.nullable || a.Retypes() {
        nullActions := nullActions + [AlterNull(a.table, a.newField.column, a.newField.ty, a.newField.nullable, a.newField.auto)];
      }
      assert actions == TypeActions(a) + DefaultActions(a) && nullActions == NullActions(a);
      var fourWay := a.FourWay();
      if actions != [] || nullActions != [] {
        if !fourWay {
          actions := actions + nullActions;
        }
        :- ExecuteAll(actions);
        if fourWay {
          :- Execute(FillNulls(a.table, a.newField.column, DefaultCell(a.newField)));
          :- ExecuteAll(nullActions);
        }
      }
      r := ExecuteAll(postActions);
    }

    // ---------- Constraints on the new column ----------

    method AddUnique(a: Alteration) returns (r: Outcome<Error>)
      requires Valid(db)
      modifies this`db
      ensures Valid(db)
      ensures old(db).HasColumn(a.table, a.newField.column) ==> r.Pass? && db == AddIf(a.AddsUnique(), old(db), a.OnNewColumn(Unique))
    {
      if (!a.oldField.Unique() && a.newField.Unique())
         || (a.oldField.primaryKey && !a.newField.primaryKey && a.newField.Unique())
      {
        SimpleConstraintLegal(db, a, Unique);
        :- Execute(AddConstraint(a.OnNewColumn(Unique)));
      }
      r := Pass;
    }

    method AddIndex(a: Alteration) returns (r: Outcome<Error>)
      requires Valid(db)
      modifies this`db
      ensures Valid(db)
      ensures old(db).HasColumn(a.table, a.newField.column) ==> r.Pass? && db == AddIf(a.AddsIndex(), old(db), a.OnNewColumn(Index))
    {
      if !a.oldField.dbIndex && a.newField.dbIndex && !a.newField.Unique()
         && !(!a.oldField.Unique() && a.newField.Unique())
      {
        SimpleConstraintLegal(db, a, Index);
        :- Execute(AddConstraint(a.OnNewColumn(Index)));
      }
      r := Pass;
    }

    /** Replaces the table's primary key by one on the altered column. */
    method MovePrimaryKey(a: Alteration, strict: bool) returns (r: Outcome<Error>)
      requires Valid(db)
      modifies this`db
      ensures Valid(db)
      ensures KeyMovable(old(db), a, strict) ==> r.Pass? && db == KeyMoved(old(db), a)
      ensures
        var names := ConstraintNames(old(db), a.table, None, IsPrimaryKey);
        a.BecomesPrimaryKey() ==>
          && (strict && |names| != 1 ==> r == Fail(WrongCount))
          && (SomeReferenced(old(db), names) ==> r.Fail?)
    {
      if !a.oldField.primaryKey && a.newField.primaryKey {
        var names := ConstraintNames(db, a.table, None, IsPrimaryKey);
        if strict && |names| != 1 {
          return Fail(WrongCount);
        }
        :- DeleteConstraints(a.table, names, false);
        assert ConstraintNames(db, a.table, None, IsPrimaryKey) == {};
        NewKeyLegal(db, a);
        :- Execute(AddConstraint(a.OnNewColumn(PrimaryKey)));
      }
      r := Pass;
    }

    /** Gives the columns that refer to the model the type of their field. */
    method RetypeRelatedColumns(a: Alteration) returns (r: Outcome<Error>)
      requires Valid(db)
      modifies this`db
      ensures Valid(db)
      ensures match Run(old(db), RetypeScript(a.RelatedToRetype()))
              case Success(d) => r.Pass? && db == d
              case Failure(e) => r == Fail(e)
    {
      hide Valid, RelatedNonM2mObjects, Alteration.Paired, Exec;
      ghost var rs := a.RelatedToRetype();
      var relsToUpdate := [];
      if a.oldField.primaryKey && a.newField.primaryKey && a.Retypes() {
        relsToUpdate := relsToUpdate + RelatedNonM2mObjects(a.oldRelated, a.newRelated);
      }
      if !a.oldField.primaryKey && a.newField.primaryKey {
        relsToUpdate := relsToUpdate + RelatedNonM2mObjects(a.oldRelated, a.newRelated);
      }
      PairedSeconds(a);
      var i := 0;
      while i < |relsToUpdate|
        invariant 0 <= i <= |relsToUpdate| == |rs|
        invariant Valid(db)
        invariant Run(old(db), RetypeScript(rs)) == Run(db, RetypeScript(rs[i..]))
      {
        var newRel := relsToUpdate[i].1;
        var (fragment, otherActions) := AlterColumnTypeSql(newRel.table, newRel.field);
        assert newRel == rs[i..][0] && rs[i..][1..] == rs[i + 1..];
        assert RetypeScript(rs[i..])[1..] == RetypeScript(rs[i + 1..]);
        :- Execute(fragment);
        r := ExecuteAll(otherActions);
        i := i + 1;
      }
      r := Pass;
    }

    /** Creates the outgoing foreign key when the new field wants one. */
    method CreateForeignKey(a: Alteration, fksDropped: set<Name>) returns (r: Outcome<Error>)
      requires Valid(db)
      modifies this`db
      ensures Valid(db)
      ensures (a.oldField.WantsForeignKey() ==> fksDropped != {}) ==>
                if ForeignKeysLegal(old(db), a.CreatedForeignKey()) then r.Pass? && db == WithForeignKey(old(db), a) else r.Fail?
    {
      if a.newField.rel.Some? && (fksDropped != {} || a.oldField.rel.None? || !a.oldField.dbConstraint)
         && a.newField.dbConstraint
      {
        assert ForeignKeysLegal(db, a.CreatedForeignKey()) <==> ForeignKeyLegal(db, a.CreatedForeignKey()[0]);
        :- Execute(AddConstraint(a.OnNewColumn(ForeignKey(a.newField.rel.value.table, a.newField.rel.value.column))));
      }
      r := Pass;
    }

    /** Creates the inbound foreign keys again that were dropped before the primary key changed its type. */
    method RebuildForeignKeys(a: Alteration) returns (r: Outcome<Error>)
      requires Valid(db)
      modifies this`db
      ensures Valid(db)
      ensures match Run(old(db), AddScript(a.RebuiltForeignKeys()))
              case Success(d) => r.Pass? && db == d
              case Failure(e) => r == Fail(e)
    {
      if a.oldField.primaryKey && a.newField.primaryKey && a.Retypes() {
        ghost var objs := a.newRelated;
        var i := 0;
        while i < |a.newRelated|
          invariant 0 <= i <= |objs|
          invariant Valid(db)
          invariant Run(old(db), AddScript(RelatedForeignKeys(NonManyToMany(objs))))
                 == Run(db, AddScript(RelatedForeignKeys(NonManyToMany(objs[i..]))))
        {
          var rel := a.newRelated[i];
          RebuildHead(objs, i);
          if !rel.manyToMany {
            :- Execute(AddConstraint(RelatedForeignKey(rel)));
          }
          i := i + 1;
        }
      }
      r := Pass;
    }

    method AddCheckConstraint(a: Alteration) returns (r: Outcome<Error>)
      requires Valid(db)
      modifies this`db
      ensures Valid(db)
      ensures old(db).HasColumn(a.table, a.newField.column) ==> r.Pass? && db == (if a.AddsCheck() then WithConstraint(old(db), a.CreatedCheck()[0]) else old(db))
    {
      if a.oldField.check != a.newField.check && a.newField.check.Some? {
        SimpleConstraintLegal(db, a, Check(a.newField.check.value));
        :- Execute(AddConstraint(a.OnNewColumn(Check(a.newField.check.value))));
      }
      r := Pass;
    }

    /** The WHILE 1=1 script: as long as the column has a default constraint, drop the first one found. */
    method DropDefaultColumn(t: Name, c: Name) returns (r: Outcome<Error>)
      requires Valid(db)
      modifies this`db
      ensures Valid(db)
      ensures r.Pass? && db == Without(old(db), DefaultsOn(old(db), t, c))
    {
      ghost var dropped: set<nat> := {};
      assert Without(db, {}) == db;
      while true
        invariant Valid(db)
        invariant dropped <= DefaultsOn(old(db), t, c)
        invariant db == Without(old(db), dropped)
        decreases DefaultsOn(db, t, c)
      {
        var names := DefaultsOn(db, t, c);
        if names == {} {
          break;
        }
        var name :| name in names;
        WithoutTwice(old(db), dropped, {name});
        assert DefaultsOn(Without(db, {name}), t, c) == DefaultsOn(db, t, c) - {name};
        r := Execute(DropConstraint(t, name));
        assert r.Pass?;
        dropped := dropped + {name};
      }
      assert dropped == DefaultsOn(old(db), t, c);
      r := Pass;
    }

    // ---------- Altering a field ----------

    /** Everything that happens to the keys and the columns that refer to the model. */
    method AddKeys(a: Alteration, strict: bool, ghost start: Database) returns (r: Outcome<Error>)
      requires Valid(db)
      modifies this`db
      ensures Valid(db)
      ensures ColumnDone(old(db), start, a, strict) ==>
                if PastKeys(start, a, strict) then r.Pass? && KeysDone(db, start, a, strict)
                else r.Fail? && (FirstObstacle(start, a, strict) == Some(WrongKeyCount) ==> r == Fail(WrongCount))
    {
      hide Valid, Stage2, ColumnAltered, KeyMoved, KeyMovable, Run, RelatedRetypable, RetypeScript, RetypeRelated, Exec,
        ForeignKeyAgrees, UniqueAgrees, CheckAgrees, StillReferenced, RelatedRefused, ForeignKeysRefused, TypeBlocked, NullsRemain, UniqueReferenced, SomeReferenced;
      ghost var done := ColumnDone(db, start, a, strict);
      if done { AlteredColumnPresent(start, a); }
      :- AddUnique(a);
      :- AddIndex(a);
      assert done ==> db == Stage3(start, a);
      if done && a.BecomesPrimaryKey() { KeyOutcome(start, a, strict); }
      KeyStays(db, a, strict);
      :- MovePrimaryKey(a, strict);
      if done { RelatedOutcome(start, a); }
      :- RetypeRelatedColumns(a);
      r := Pass;
    }

    /** The foreign keys, the check constraint and the end of the passing default. */
    method AddRelations(a: Alteration, fksDropped: set<Name>, ghost strict: bool, ghost start: Database) returns (r: Outcome<Error>)
      requires Valid(db)
      modifies this`db
      ensures Valid(db)
      ensures KeysDone(old(db), start, a, strict) && (a.oldField.WantsForeignKey() ==> fksDropped != {}) ==>
                if FirstObstacle(start, a, strict) == None then r.Pass? && RelationsDone(db, start, a, strict) else r.Fail?
    {
      hide Valid, Stage5, ForeignKeysLegal, Run, Exec, AddScript, Numbered, DefaultsOn, Alteration.Created,
        ForeignKeyAgrees, UniqueAgrees, CheckAgrees, KeyReferenced, RelatedRefused, ForeignKeysRefused, TypeBlocked, NullsRemain, UniqueReferenced;
      ghost var done := KeysDone(db, start, a, strict) && (a.oldField.WantsForeignKey() ==> fksDropped != {});
      if done { RelationsOutcome(start, a); }
      :- CreateForeignKey(a, fksDropped);
      :- RebuildForeignKeys(a);
      :- AddCheckConstraint(a);
      if a.NeedsDatabaseDefault() {
        r := DropDefaultColumn(a.table, a.newField.column);
      } else {
        r := Pass;
      }
    }

    /**
     The physical alteration of a field. On a database that agrees with the old field it ends in the
     closed form, or fails, and it fails exactly when there is an obstacle.
     */
    method AlterField(a: Alteration, strict: bool) returns (r: Outcome<Error>)
      requires Valid(db)
      modifies this`db
      ensures Valid(db)
      ensures !a.oldField.auto && a.newField.auto ==> r == Fail(NotSupported) && db == old(db)
      ensures Prepared(old(db), a) ==>
                match FirstObstacle(old(db), a, strict)
                case None => r.Pass? && db == AlteredDatabase(a, old(db))
                case Some(obstacle) =>
                  r.Fail?
                  && (obstacle == BecomesAuto ==> r == Fail(NotSupported))
                  && (obstacle in {WrongUniqueCount, WrongKeyCount} ==> r == Fail(WrongCount))
                  && (obstacle == RemainingNulls ==> r == Fail(NullViolation))
    {
      hide Valid, ForeignKeyAgrees, UniqueAgrees, CheckAgrees, AlteredDatabase, NullsRemain, ColumnAltered, ColumnFound, NameFits, TypeRefused, TypeBlocked,
        UniqueReferenced, KeyReferenced, RelatedRefused, ForeignKeysRefused, Finished, Stage5, FirstToDrop;
      if !a.oldField.auto && a.newField.auto {
        return Fail(NotSupported);
      }
      ghost var start := db;
      var fksDropped;
      r, fksDropped := DropStaleConstraints(a, strict);
      if r.Fail? { return; }
      if Prepared(start, a) { ColumnOutcome(start, a); }
      :- AlterColumn(a);
      :- AddKeys(a, strict, start);
      :- AddRelations(a, fksDropped, strict, start);
      if Prepared(start, a) && RenameAllowed(start, a) { StagesEndInClosedForm(start, a); }
      r := Pass;
    }

    // ---------- Adding, removing and deleting ----------

    /** Adds the column with its constraints and drops its default; index and foreign key are deferred. */
    method AddField(t: Name, f: Field) returns (r: Outcome<Error>)
      requires Valid(db)
      modifies this
      ensures Valid(db)
      ensures match Added(old(db), t, f)
              case Success(d) => r.Pass? && db == d && deferred == old(deferred) + DeferredStatements(t, f)
              case Failure(e) => r == Fail(e) && db == old(db) && deferred == old(deferred)
    {
      hide Exec;
      ghost var start := db;
      :- Execute(AddStatement(t, f));
      // a field whose default is explicitly None has no effective default
      if !(f.hasDefault && f.effectiveDefault.None?) {
        r := DropDefaultColumn(t, f.column);
      } else {
        NoDefaultAdded(start, t, f);
      }
      ghost var first := deferred;
      if f.dbIndex && !f.Unique() {
        deferred := deferred + [AddConstraint(Constraint(t, [f.column], Index))];
      }
      if f.rel.Some? && f.dbConstraint {
        deferred := deferred + [AddConstraint(Constraint(t, [f.column], ForeignKey(f.rel.value.table, f.rel.value.column)))];
      }
      assert deferred == first + DeferredStatements(t, f);
      r := Pass;
    }

    /** What leaving the schema editor does: the deferred statements run in order. */
    method RunDeferred() returns (r: Outcome<Error>)
      requires Valid(db)
      modifies this
      ensures Valid(db)
      ensures match Run(old(db), old(deferred))
              case Success(d) => r.Pass? && db == d && deferred == []
              case Failure(e) => r == Fail(e)
    {
      r := ExecuteAll(deferred);
      if r.Fail? { return; }
      deferred := [];
      r := Pass;
    }

    /**
     Drops the column's constraints kind by kind and then the column. It gets through exactly when nothing
     else is on the column and there is no unique constraint, which DROP INDEX would meet.
     */
    method RemoveField(t: Name, f: Field) returns (r: Outcome<Error>)
      requires Valid(db)
      modifies this`db
      ensures Valid(db)
      ensures r.Pass? <==> Removable(old(db), t, f.column)
      ensures r.Pass? ==> db == Removed(old(db), t, f.column)
    {
      hide Valid, HasUniqueConstraint;
      var constraintTypes := RemovalOrder();
      var i := 0;
      assert OwnBelow(db, t, f.column, 0) == {} && Without(db, {}) == db;
      while i < |constraintTypes|
        invariant 0 <= i <= |constraintTypes|
        invariant Valid(db)
        invariant db == Without(old(db), OwnBelow(old(db), t, f.column, i))
        invariant i > 2 ==> !HasUniqueConstraint(old(db), t, f.column)
      {
        var (flag, asIndex) := constraintTypes[i];
        var names := ConstraintNames(db, t, Some([f.column]), flag);
        ghost var before := db;
        r := DeleteConstraints(t, names, asIndex);
        RemovalStep(old(db), before, t, f.column, i, names, r.Pass?, db);
        if r.Fail? { return; }
        i := i + 1;
      }
      ColumnIsFree(old(db), t, f.column);
      r := Execute(DropColumn(t, f.column));
    }

    /** The WHILE 1=1 script over sys.foreign_keys: drop any foreign key that refers to the table until none does. */
    method DropAllInbound(t: Name) returns (r: Outcome<Error>)
      requires Valid(db)
      modifies this`db
      ensures Valid(db)
      ensures r.Pass? && db == Without(old(db), Inbound(old(db), t))
      ensures db.tables == old(db).tables && forall id :: id in old(db).constraints ==>
                (id in db.constraints
                 <==> !(old(db).constraints[id].kind.ForeignKey? && old(db).constraints[id].kind.toTable == t))
    {
      ghost var dropped: set<nat> := {};
      assert Without(db, {}) == db;
      while true
        invariant Valid(db)
        invariant dropped <= Inbound(old(db), t)
        invariant db == Without(old(db), dropped)
        decreases Inbound(db, t)
      {
        var names := Inbound(db, t);
        if names == {} {
          break;
        }
        var name :| name in names;
        InboundDropStep(old(db), t, dropped, name);
        r := Execute(DropConstraint(db.constraints[name].table, name));
        dropped := dropped + {name};
      }
      assert dropped == Inbound(old(db), t);
      r := Pass;
    }

    /** Deletes the table of a model, however many foreign keys refer to it. */
    method DeleteModel(t: Name) returns (r: Outcome<Error>)
      requires Valid(db)
      modifies this`db
      ensures Valid(db)
      ensures t in old(db).tables ==> r.Pass? && db == Deleted(old(db), t)
      ensures t !in old(db).tables ==> r == Fail(NoSuchObject)
    {
      r := DropAllInbound(t);
      if t in old(db).tables {
        DropAfterInbound(old(db), t);
      }
      r := Execute(DropTable(t));
    }
  }
}
