/** What the altered database is worth: it agrees with the new field, and everything else is kept. */
module AlterFieldTheorems {
  import opened Wrappers
  import opened SqlServer
  import opened Fields
  import opened AlterFieldSpec
  import opened AlterFieldSteps
  import opened AlterFieldLegality

  // ---------- The column and its cells ----------

  /** The script is stopped by NULLs exactly when a nullable column holds some, is tightened, and has no usable default. */
  lemma NullsRemainExactlyWhen(db: Database, a: Alteration)
    requires Valid(db) && Agrees(db, a.table, a.oldField) && a.newField.Sensible()
    ensures NullsRemain(db, a) <==>
              && a.oldField.nullable && !a.newField.nullable
              && Null in db.Column(a.table, a.oldField.column).cells
              && !(a.newField.hasDefault && a.newField.effectiveDefault.Some?)
  {
    var col := db.Column(a.table, a.oldField.column);
    assert ValidColumn(col, db.tables[a.table].rows);
    var cells := a.AlteredCells(col);
    if Null in col.cells {
      var i :| 0 <= i < |col.cells| && col.cells[i] == Null;
      assert Retyped(col, a.newField.ty)[i] == Null;
      assert !(a.FourWay() && a.newField.effectiveDefault.Some?) ==> cells[i] == Null;
    }
    if Null in cells {
      var i :| 0 <= i < |cells| && cells[i] == Null;
      assert col.cells[i] == Null;
    }
  }

  /**
   The column has the new type and nullability. Row by row: a NULL becomes the default when a nullable column with a
   default is tightened, and else stays NULL; any other value is at most converted.
   */
  lemma AlteredCellByCell(db: Database, a: Alteration, i: nat)
    requires db.HasColumn(a.table, a.oldField.column)
    requires RenameAllowed(db, a) && RelatedAllowed(db, a)
    requires i < |db.Column(a.table, a.oldField.column).cells|
    ensures
      var db' := AlteredDatabase(a, db);
      var before := db.Column(a.table, a.oldField.column);
      && db'.HasColumn(a.table, a.newField.column)
      && var after := db'.Column(a.table, a.newField.column);
      && after.ty == a.newField.ty && after.nullable == a.newField.nullable
      && |after.cells| == |before.cells|
      && after.cells[i] ==
           if before.cells[i] == Null then
             (if a.oldField.nullable && !a.newField.nullable && a.newField.hasDefault && a.newField.effectiveDefault.Some?
              then a.newField.effectiveDefault.value else Null)
           else if before.ty == a.newField.ty then before.cells[i]
           else Cast(a.newField.ty, before.cells[i])
  {
    AlteredColumnPlace(db, a);
  }

  /** Every column that is neither altered nor refers to the altered key keeps its type, nullability and cells. */
  lemma OtherColumnsUntouched(db: Database, a: Alteration, t: Name, c: Name)
    requires db.HasColumn(a.table, a.oldField.column) && RenameAllowed(db, a)
    requires db.HasColumn(t, c) && (t, c) != (a.table, a.oldField.column)
    requires
      (a.oldField.primaryKey && a.newField.primaryKey && (a.oldField.ty != a.newField.ty || a.oldField.auto != a.newField.auto))
      || (!a.oldField.primaryKey && a.newField.primaryKey)
      ==> forall r :: r in NonManyToMany(a.newRelated) ==> (t, c) != (r.table, r.field.column)
    ensures AlteredDatabase(a, db).HasColumn(t, c)
    ensures AlteredDatabase(a, db).Column(t, c) == db.Column(t, c)
  {
    UntouchedColumn(db, a, t, c);
  }

  // ---------- Where constraints come from ----------

  lemma FollowMatches(db: Database, a: Alteration, c: Constraint, f: Flag)
    requires RenameAllowed(db, a) && db.HasColumn(a.table, a.oldField.column) && ValidConstraint(db, c)
    ensures Matches(a.Follow(c), a.table, Some([a.newField.column]), f)
       <==> Matches(c, a.table, Some([a.oldField.column]), f)
  {
    if a.Renames() && c.table == a.table {
      var c' := a.Follow(c);
      var before, after := IntrospectedColumns(c), IntrospectedColumns(c');
      assert |after| == |before|;
      if |before| == 1 {
        assert before[0] in c.columns;
        assert after[0] == RenameName(before[0], a.oldField.column, a.newField.column);
        assert before == [before[0]] && after == [after[0]];
      }
    }
  }

  // Positions in the list of created constraints.

  function ForeignKeyAt(a: Alteration): nat { |a.CreatedUnique()| + |a.CreatedIndex()| + |a.CreatedKey()| }

  function RebuiltAt(a: Alteration): nat { ForeignKeyAt(a) + |a.CreatedForeignKey()| }

  function CheckAt(a: Alteration): nat { RebuiltAt(a) + |a.RebuiltForeignKeys()| }

  lemma CreatedLength(a: Alteration)
    ensures |a.Created()| == CheckAt(a) + |a.CreatedCheck()|
  {
  }

  /** The created constraints by position. */
  lemma CreatedByPosition(a: Alteration, i: nat)
    requires i < |a.Created()|
    ensures i < ForeignKeyAt(a) ==>
              || (a.Created()[i] == a.OnNewColumn(Unique) && a.AddsUnique())
              || (a.Created()[i] == a.OnNewColumn(Index) && a.AddsIndex())
              || (a.Created()[i] == a.OnNewColumn(PrimaryKey) && a.BecomesPrimaryKey())
    ensures ForeignKeyAt(a) <= i < RebuiltAt(a) ==> i == ForeignKeyAt(a) && a.Created()[i] == a.CreatedForeignKey()[0]
    ensures RebuiltAt(a) <= i < CheckAt(a) ==> a.Created()[i] == a.RebuiltForeignKeys()[i - RebuiltAt(a)]
    ensures CheckAt(a) <= i ==> i == CheckAt(a) && a.AddsCheck() && a.Created()[i] == a.OnNewColumn(Check(a.newField.check.value))
  {
    FirstByPosition(a, i);
    LaterByPosition(a, i);
  }

  lemma FirstByPosition(a: Alteration, i: nat)
    requires i < ForeignKeyAt(a) || i < |a.Created()|
    ensures i < ForeignKeyAt(a) ==>
              i < |a.Created()|
              && (|| (a.Created()[i] == a.OnNewColumn(Unique) && a.AddsUnique())
                  || (a.Created()[i] == a.OnNewColumn(Index) && a.AddsIndex())
                  || (a.Created()[i] == a.OnNewColumn(PrimaryKey) && a.BecomesPrimaryKey()))
  {
    hide Alteration.RebuiltForeignKeys, Alteration.CreatedForeignKey, Alteration.CreatedCheck;
    var first := a.CreatedUnique() + a.CreatedIndex() + a.CreatedKey();
    assert i < ForeignKeyAt(a) ==> a.Created()[i] == first[i];
  }

  lemma LaterByPosition(a: Alteration, i: nat)
    requires i < |a.Created()|
    ensures ForeignKeyAt(a) <= i < RebuiltAt(a) ==> i == ForeignKeyAt(a) && a.Created()[i] == a.CreatedForeignKey()[0]
    ensures RebuiltAt(a) <= i < CheckAt(a) ==> a.Created()[i] == a.RebuiltForeignKeys()[i - RebuiltAt(a)]
    ensures CheckAt(a) <= i ==> i == CheckAt(a) && a.AddsCheck() && a.Created()[i] == a.OnNewColumn(Check(a.newField.check.value))
  {
    hide Alteration.RebuiltForeignKeys, Alteration.CreatedUnique, Alteration.CreatedIndex, Alteration.CreatedKey;
    CreatedLength(a);
  }

  function CreatedId(db: Database, a: Alteration, i: nat): nat { db.next + a.Passing() + i }

  /** Every constraint afterwards is a survivor or one of those created. */
  lemma AfterwardsContent(db: Database, a: Alteration, id: nat)
    requires Valid(db) && db.HasColumn(a.table, a.oldField.column)
    ensures id in AlteredDatabase(a, db).constraints <==>
              || (id in db.constraints && a.Survives(db.constraints[id]))
              || CreatedId(db, a, 0) <= id < CreatedId(db, a, |a.Created()|)
    ensures id in db.constraints && a.Survives(db.constraints[id]) ==>
              AlteredDatabase(a, db).constraints[id] == a.Follow(db.constraints[id])
    ensures CreatedId(db, a, 0) <= id < CreatedId(db, a, |a.Created()|) ==>
              id !in db.constraints
              && AlteredDatabase(a, db).constraints[id] == a.Created()[id - CreatedId(db, a, 0)]
  {
    hide Alteration.Created, RetypeRelated, Numbered, Alteration.Follow, Alteration.Survives;
  }

  /** No related column is the altered one, under either name. */
  lemma RebuiltElsewhere(db: Database, a: Alteration, k: nat)
    requires RenameAllowed(db, a) && RelatedAllowed(db, a) && db.HasColumn(a.table, a.oldField.column)
    requires k < |a.RebuiltForeignKeys()|
    ensures
      var c := a.RebuiltForeignKeys()[k];
      var r := a.Related()[k];
      && r == a.RelatedToRetype()[k] && r.field.rel.Some?
      && c == Constraint(r.table, [r.field.column], ForeignKey(r.field.rel.value.table, r.field.rel.value.column))
      && (r.table, r.field.column) != (a.table, a.newField.column)
      && (r.table, r.field.column) != (a.table, a.oldField.column)
  {
    var r := a.RelatedToRetype()[k];
    assert r.field.rel.Some?;
  }

  // ---------- Foreign keys of the altered column ----------

  lemma NoSurvivingForeignKey(db: Database, a: Alteration, id: nat)
    requires Valid(db) && Agrees(db, a.table, a.oldField) && RenameAllowed(db, a)
    requires id in db.constraints && a.Survives(db.constraints[id])
    ensures !Matches(a.Follow(db.constraints[id]), a.table, Some([a.newField.column]), IsForeignKey)
  {
    FollowMatches(db, a, db.constraints[id], IsForeignKey);
    assert !a.oldField.WantsForeignKey() ==> id !in ConstraintNames(db, a.table, Some([a.oldField.column]), IsForeignKey);
  }

  lemma CreatedForeignKeys(db: Database, a: Alteration, i: nat)
    requires db.HasColumn(a.table, a.oldField.column) && RenameAllowed(db, a) && RelatedAllowed(db, a)
    requires i < |a.Created()|
    ensures Matches(a.Created()[i], a.table, Some([a.newField.column]), IsForeignKey)
       <==> a.newField.WantsForeignKey() && i == ForeignKeyAt(a)
  {
    hide RenameAllowed, RelatedAllowed, Alteration.Created;
    CreatedByPosition(a, i);
    if RebuiltAt(a) <= i < CheckAt(a) {
      RebuiltElsewhere(db, a, i - RebuiltAt(a));
      var r := a.Related()[i - RebuiltAt(a)];
      assert [r.field.column] == [a.newField.column] ==> r.field.column == a.newField.column;
    }
  }

  lemma ForeignKeysAfterwards(db: Database, a: Alteration, id: nat)
    requires Valid(db) && Agrees(db, a.table, a.oldField)
    requires RenameAllowed(db, a) && RelatedAllowed(db, a)
    requires id in AlteredDatabase(a, db).constraints
    ensures Matches(AlteredDatabase(a, db).constraints[id], a.table, Some([a.newField.column]), IsForeignKey)
       <==> a.newField.WantsForeignKey() && id == CreatedId(db, a, ForeignKeyAt(a))
  {
    hide AlteredDatabase, Valid, ForeignKeyAgrees, UniqueAgrees, CheckAgrees, Alteration.Created, RenameAllowed, RelatedAllowed, Alteration.Survives, Alteration.Follow, Matches;
    AfterwardsContent(db, a, id);
    CreatedLength(a);
    if id in db.constraints {
      NoSurvivingForeignKey(db, a, id);
    } else {
      CreatedForeignKeys(db, a, id - CreatedId(db, a, 0));
    }
  }

  lemma ForeignKeyClause(db: Database, a: Alteration)
    requires Valid(db) && Agrees(db, a.table, a.oldField)
    requires RenameAllowed(db, a) && RelatedAllowed(db, a)
    ensures ForeignKeyAgrees(AlteredDatabase(a, db), a.table, a.newField)
  {
    hide AlteredDatabase, Valid, UniqueAgrees, CheckAgrees, RenameAllowed, RelatedAllowed, Alteration.Survives, Alteration.Follow, Matches;
    var db' := AlteredDatabase(a, db);
    var id := CreatedId(db, a, ForeignKeyAt(a));
    var names := ConstraintNames(db', a.table, Some([a.newField.column]), IsForeignKey);
    forall i | i in db'.constraints
      ensures i in names <==> a.newField.WantsForeignKey() && i == id
    {
      ForeignKeysAfterwards(db, a, i);
    }
    if a.newField.WantsForeignKey() {
      CreatedByPosition(a, ForeignKeyAt(a));
      AfterwardsContent(db, a, id);
      assert names == {id};
    } else {
      assert names == {};
    }
  }

  // ---------- Uniqueness of the altered column ----------

  lemma UniquesAfterwards(db: Database, a: Alteration, id: nat)
    requires Valid(db) && Agrees(db, a.table, a.oldField)
    requires RenameAllowed(db, a) && RelatedAllowed(db, a) && !a.newField.Unique()
    requires id in AlteredDatabase(a, db).constraints
    ensures !Matches(AlteredDatabase(a, db).constraints[id], a.table, Some([a.newField.column]), IsUnique)
  {
    hide AlteredDatabase, ForeignKeyAgrees, CheckAgrees, RenameAllowed, RelatedAllowed, Alteration.Created, Alteration.Follow, ValidConstraint;
    AfterwardsContent(db, a, id);
    if id in db.constraints && a.Survives(db.constraints[id]) {
      FollowMatches(db, a, db.constraints[id], IsUnique);
      assert !a.oldField.Unique() ==> id !in ConstraintNames(db, a.table, Some([a.oldField.column]), IsUnique);
    } else {
      CreatedByPosition(a, id - CreatedId(db, a, 0));
    }
  }

  /** A key with this flag that the script leaves on the column, or makes. */
  lemma UniqueWitness(db: Database, a: Alteration) returns (id: nat)
    requires Valid(db) && Agrees(db, a.table, a.oldField)
    requires RenameAllowed(db, a) && a.newField.Unique()
    ensures id in AlteredDatabase(a, db).constraints
    ensures Matches(AlteredDatabase(a, db).constraints[id], a.table, Some([a.newField.column]), IsUnique)
  {
    hide AlteredDatabase, ForeignKeyAgrees, CheckAgrees, Alteration.Follow;
    if a.AddsUnique() {
      id := CreatedId(db, a, 0);
      CreatedByPosition(a, 0);
      assert a.Created()[0] == a.OnNewColumn(Unique);
    } else if a.BecomesPrimaryKey() {
      var k := |a.CreatedUnique()| + |a.CreatedIndex()|;
      id := CreatedId(db, a, k);
      CreatedByPosition(a, k);
      assert a.Created()[k] == a.OnNewColumn(PrimaryKey);
    } else {
      id :| id in ConstraintNames(db, a.table, Some([a.oldField.column]), IsUnique);
      FollowMatches(db, a, db.constraints[id], IsUnique);
      assert a.Survives(db.constraints[id]);
    }
    AfterwardsContent(db, a, id);
  }

  lemma UniqueClause(db: Database, a: Alteration)
    requires Valid(db) && Agrees(db, a.table, a.oldField)
    requires RenameAllowed(db, a) && RelatedAllowed(db, a)
    ensures UniqueAgrees(AlteredDatabase(a, db), a.table, a.newField)
  {
    var db' := AlteredDatabase(a, db);
    if a.newField.Unique() {
      var id := UniqueWitness(db, a);
      assert id in ConstraintNames(db', a.table, Some([a.newField.column]), IsUnique);
    } else {
      forall id | id in db'.constraints
        ensures id !in ConstraintNames(db', a.table, Some([a.newField.column]), IsUnique)
      {
        UniquesAfterwards(db, a, id);
      }
    }
  }

  // ---------- How many keys ----------

  /** The position of the new primary key among the created constraints. */
  function KeyAt(a: Alteration): nat { |a.CreatedUnique()| + |a.CreatedIndex()| }

  lemma CreatedKeys(db: Database, a: Alteration, i: nat)
    requires db.HasColumn(a.table, a.oldField.column) && RenameAllowed(db, a) && RelatedAllowed(db, a)
    requires i < |a.Created()|
    ensures Matches(a.Created()[i], a.table, Some([a.newField.column]), IsUnique)
       <==> (a.AddsUnique() && i == 0) || (a.BecomesPrimaryKey() && i == KeyAt(a))
  {
    hide RenameAllowed, RelatedAllowed, Alteration.Created;
    CreatedByPosition(a, i);
    CreatedLength(a);
    if RebuiltAt(a) <= i < CheckAt(a) {
      RebuiltElsewhere(db, a, i - RebuiltAt(a));
    } else if i < ForeignKeyAt(a) {
      CreatedKeyPositions(a, i);
    }
  }

  lemma CreatedKeyPositions(a: Alteration, i: nat)
    requires i < ForeignKeyAt(a) <= |a.Created()|
    ensures a.Created()[i] == a.OnNewColumn(a.Created()[i].kind)
    ensures a.Created()[i].kind.IsKey() <==> (a.AddsUnique() && i == 0) || (a.BecomesPrimaryKey() && i == KeyAt(a))
  {
  }

  lemma KeysAfterwards(db: Database, a: Alteration, id: nat)
    requires Valid(db) && Agrees(db, a.table, a.oldField)
    requires HasPrimaryKeyOn(db, a.table, a.oldField.column) <==> a.oldField.primaryKey
    requires RenameAllowed(db, a) && RelatedAllowed(db, a)
    ensures id in ConstraintNames(AlteredDatabase(a, db), a.table, Some([a.newField.column]), IsUnique)
       <==> || (a.AddsUnique() && id == CreatedId(db, a, 0))
            || (a.BecomesPrimaryKey() && id == CreatedId(db, a, KeyAt(a)))
            || (!a.RemovesUnique() && id in ConstraintNames(db, a.table, Some([a.oldField.column]), IsUnique))
  {
    hide AlteredDatabase, Valid, RenameAllowed, RelatedAllowed, Alteration.Created, Alteration.Follow, ForeignKeyAgrees, CheckAgrees;
    AfterwardsContent(db, a, id);
    CreatedLength(a);
    if id in db.constraints {
      assert ValidConstraint(db, db.constraints[id]) by { KnownConstraint(db, id); }
      KeySurvivesExactlyWhen(db, a, id);
      FollowMatches(db, a, db.constraints[id], IsUnique);
    } else if CreatedId(db, a, 0) <= id < CreatedId(db, a, |a.Created()|) {
      CreatedKeys(db, a, id - CreatedId(db, a, 0));
    }
  }

  lemma KnownConstraint(db: Database, id: nat)
    requires Valid(db) && id in db.constraints
    ensures ValidConstraint(db, db.constraints[id])
  {
  }

  lemma KeySurvivesExactlyWhen(db: Database, a: Alteration, id: nat)
    requires Agrees(db, a.table, a.oldField) && id in db.constraints
    requires HasPrimaryKeyOn(db, a.table, a.oldField.column) <==> a.oldField.primaryKey
    ensures Matches(db.constraints[id], a.table, Some([a.oldField.column]), IsUnique) ==>
              (a.Survives(db.constraints[id]) <==> !a.RemovesUnique())
  {
    hide ForeignKeyAgrees, CheckAgrees;
    var c := db.constraints[id];
    assert Matches(c, a.table, Some([a.oldField.column]), IsUnique) ==>
        id in ConstraintNames(db, a.table, Some([a.oldField.column]), IsUnique)
        && (c.kind.PrimaryKey? ==> id in ConstraintNames(db, a.table, Some([a.oldField.column]), IsPrimaryKey));
  }

  /** The number of key constraints that the alteration leaves on a column that had one if it was unique. */
  function KeyCount(a: Alteration): nat {
    if !a.newField.Unique() then 0
    else if (!a.oldField.Unique() && a.newField.primaryKey) || (a.oldField.primaryKey && !a.newField.primaryKey) then 2
    else 1
  }

  /**
   A unique column ends with exactly one key constraint, except in two cases where it ends with two: a field
   that was not unique becomes the primary key, or a primary key is unset and stays unique.
   */
  lemma KeysCounted(db: Database, a: Alteration)
    requires Valid(db) && Agrees(db, a.table, a.oldField)
    requires HasPrimaryKeyOn(db, a.table, a.oldField.column) <==> a.oldField.primaryKey
    requires RenameAllowed(db, a) && RelatedAllowed(db, a)
    requires |ConstraintNames(db, a.table, Some([a.oldField.column]), IsUnique)| <= 1
    ensures |ConstraintNames(AlteredDatabase(a, db), a.table, Some([a.newField.column]), IsUnique)| == KeyCount(a)
  {
    hide Valid, RenameAllowed, RelatedAllowed, AlteredDatabase, ConstraintNames, ForeignKeyAgrees, CheckAgrees;
    var before := ConstraintNames(db, a.table, Some([a.oldField.column]), IsUnique);
    var after := ConstraintNames(AlteredDatabase(a, db), a.table, Some([a.newField.column]), IsUnique);
    forall id: nat
      ensures id in after <==> || (a.AddsUnique() && id == CreatedId(db, a, 0))
                               || (a.BecomesPrimaryKey() && id == CreatedId(db, a, KeyAt(a)))
                               || (!a.RemovesUnique() && id in before)
    {
      KeysAfterwards(db, a, id);
    }
    var made := (if a.AddsUnique() then {CreatedId(db, a, 0)} else {})
                + (if a.BecomesPrimaryKey() then {CreatedId(db, a, KeyAt(a))} else {});
    var kept := if a.RemovesUnique() then {} else before;
    assert after == made + kept;
    NewNamesAreNew(db, a, before);
    assert made !! kept;
    assert |after| == |made| + |kept|;
    assert |before| == if a.oldField.Unique() then 1 else 0 by {
      assert before == {} <==> !a.oldField.Unique();
    }
  }

  /** A column that was left with two keys stops the next strict alteration that takes its uniqueness away. */
  lemma LaterStrictAlterationStops(db: Database, a: Alteration, later: Alteration)
    requires Valid(db) && Agrees(db, a.table, a.oldField)
    requires HasPrimaryKeyOn(db, a.table, a.oldField.column) <==> a.oldField.primaryKey
    requires RenameAllowed(db, a) && RelatedAllowed(db, a)
    requires |ConstraintNames(db, a.table, Some([a.oldField.column]), IsUnique)| <= 1
    requires KeyCount(a) == 2
    requires later.table == a.table && later.oldField == a.newField && later.RemovesUnique()
    requires later.newField.auto ==> later.oldField.auto
    ensures AlteredDatabase(a, db).HasColumn(a.table, a.newField.column)
    ensures FirstObstacle(AlteredDatabase(a, db), later, true) == Some(WrongUniqueCount)
  {
    hide AlteredDatabase, ConstraintNames, RenameAllowed, UniqueReferenced, TypeBlocked, NullsRemain, KeyReferenced, RelatedRefused, ForeignKeysRefused;
    KeysCounted(db, a);
    ColumnClause(db, a);
  }

  lemma NewNamesAreNew(db: Database, a: Alteration, before: set<nat>)
    requires Valid(db) && before == ConstraintNames(db, a.table, Some([a.oldField.column]), IsUnique)
    ensures forall id :: id in before ==> id < CreatedId(db, a, 0)
  {
  }

  // ---------- The primary key ----------

  lemma PrimaryKeyWitness(db: Database, a: Alteration) returns (id: nat)
    requires Valid(db) && db.HasColumn(a.table, a.oldField.column) && RenameAllowed(db, a)
    requires HasPrimaryKeyOn(db, a.table, a.oldField.column) <==> a.oldField.primaryKey
    requires a.newField.primaryKey || (a.oldField.primaryKey && a.newField.Unique())
    ensures id in AlteredDatabase(a, db).constraints
    ensures Matches(AlteredDatabase(a, db).constraints[id], a.table, Some([a.newField.column]), IsPrimaryKey)
  {
    hide AlteredDatabase, RenameAllowed, Alteration.Follow;
    if a.BecomesPrimaryKey() {
      var k := |a.CreatedUnique()| + |a.CreatedIndex()|;
      CreatedByPosition(a, k);
      assert a.Created()[k] == a.OnNewColumn(PrimaryKey);
      id := CreatedId(db, a, k);
    } else {
      id :| id in ConstraintNames(db, a.table, Some([a.oldField.column]), IsPrimaryKey);
      FollowMatches(db, a, db.constraints[id], IsPrimaryKey);
      assert a.Survives(db.constraints[id]);
    }
    AfterwardsContent(db, a, id);
  }

  /** A primary key that is unset but stays unique remains: the script never removes it. */
  lemma PrimaryKeyAfterwards(db: Database, a: Alteration)
    requires Valid(db) && Agrees(db, a.table, a.oldField)
    requires HasPrimaryKeyOn(db, a.table, a.oldField.column) <==> a.oldField.primaryKey
    requires RenameAllowed(db, a) && RelatedAllowed(db, a)
    ensures HasPrimaryKeyOn(AlteredDatabase(a, db), a.table, a.newField.column)
       <==> a.newField.primaryKey || (a.oldField.primaryKey && a.newField.Unique())
  {
    hide AlteredDatabase, Valid, ForeignKeyAgrees, UniqueAgrees, CheckAgrees, RenameAllowed, RelatedAllowed;
    var names := ConstraintNames(AlteredDatabase(a, db), a.table, Some([a.newField.column]), IsPrimaryKey);
    if a.newField.primaryKey || (a.oldField.primaryKey && a.newField.Unique()) {
      var id := PrimaryKeyWitness(db, a);
      assert id in names;
    } else {
      forall id | id in AlteredDatabase(a, db).constraints
        ensures id !in names
      {
        NoPrimaryKeyAfterwards(db, a, id);
      }
    }
  }

  lemma NoPrimaryKeyAfterwards(db: Database, a: Alteration, id: nat)
    requires Valid(db) && Agrees(db, a.table, a.oldField)
    requires HasPrimaryKeyOn(db, a.table, a.oldField.column) <==> a.oldField.primaryKey
    requires RenameAllowed(db, a) && RelatedAllowed(db, a)
    requires !a.newField.primaryKey && !(a.oldField.primaryKey && a.newField.Unique())
    requires id in AlteredDatabase(a, db).constraints
    ensures !Matches(AlteredDatabase(a, db).constraints[id], a.table, Some([a.newField.column]), IsPrimaryKey)
  {
    hide AlteredDatabase, ForeignKeyAgrees, CheckAgrees, UniqueAgrees, RenameAllowed, RelatedAllowed, Alteration.Created, Alteration.Follow;
    AfterwardsContent(db, a, id);
    if id in db.constraints && a.Survives(db.constraints[id]) {
      FollowMatches(db, a, db.constraints[id], IsPrimaryKey);
      assert !a.oldField.primaryKey ==> id !in ConstraintNames(db, a.table, Some([a.oldField.column]), IsPrimaryKey);
    } else {
      CreatedByPosition(a, id - CreatedId(db, a, 0));
    }
  }

  // ---------- The check and the default ----------

  lemma SurvivingChecks(db: Database, a: Alteration, id: nat)
    requires Valid(db) && Agrees(db, a.table, a.oldField) && RenameAllowed(db, a)
    requires id in db.constraints && a.Survives(db.constraints[id])
    ensures Matches(a.Follow(db.constraints[id]), a.table, Some([a.newField.column]), IsCheck)
       <==> !a.AddsCheck() && a.newField.check.Some? && id in ConstraintNames(db, a.table, Some([a.oldField.column]), IsCheck)
  {
    FollowMatches(db, a, db.constraints[id], IsCheck);
    assert a.oldField.check.None? ==> id !in ConstraintNames(db, a.table, Some([a.oldField.column]), IsCheck);
  }

  lemma CreatedChecks(db: Database, a: Alteration, i: nat)
    requires db.HasColumn(a.table, a.oldField.column) && RenameAllowed(db, a) && RelatedAllowed(db, a)
    requires i < |a.Created()|
    ensures Matches(a.Created()[i], a.table, Some([a.newField.column]), IsCheck) <==> a.AddsCheck() && i == CheckAt(a)
  {
    hide RenameAllowed, RelatedAllowed, Alteration.Created;
    CreatedByPosition(a, i);
    if RebuiltAt(a) <= i < CheckAt(a) {
      RebuiltElsewhere(db, a, i - RebuiltAt(a));
    }
  }

  lemma ChecksAfterwards(db: Database, a: Alteration, id: nat)
    requires Valid(db) && Agrees(db, a.table, a.oldField)
    requires RenameAllowed(db, a) && RelatedAllowed(db, a)
    requires id in AlteredDatabase(a, db).constraints
    ensures Matches(AlteredDatabase(a, db).constraints[id], a.table, Some([a.newField.column]), IsCheck)
       <==> if a.AddsCheck() then id == CreatedId(db, a, CheckAt(a))
            else a.newField.check.Some? && id in ConstraintNames(db, a.table, Some([a.oldField.column]), IsCheck)
  {
    hide AlteredDatabase, Valid, ForeignKeyAgrees, UniqueAgrees, CheckAgrees, Alteration.Created, RenameAllowed, RelatedAllowed, Alteration.Survives, Alteration.Follow, Matches;
    AfterwardsContent(db, a, id);
    CreatedLength(a);
    if id in db.constraints {
      SurvivingChecks(db, a, id);
    } else {
      CreatedChecks(db, a, id - CreatedId(db, a, 0));
    }
  }

  lemma CheckClause(db: Database, a: Alteration)
    requires Valid(db) && Agrees(db, a.table, a.oldField)
    requires RenameAllowed(db, a) && RelatedAllowed(db, a)
    ensures CheckAgrees(AlteredDatabase(a, db), a.table, a.newField)
  {
    hide AlteredDatabase, Valid, UniqueAgrees, ForeignKeyAgrees, RelatedAllowed, Alteration.Survives, Alteration.Follow;
    var db' := AlteredDatabase(a, db);
    var names := ConstraintNames(db', a.table, Some([a.newField.column]), IsCheck);
    forall i | i in db'.constraints
      ensures i in names <==> if a.AddsCheck() then i == CreatedId(db, a, CheckAt(a))
                              else a.newField.check.Some? && i in ConstraintNames(db, a.table, Some([a.oldField.column]), IsCheck)
    {
      ChecksAfterwards(db, a, i);
    }
    if a.AddsCheck() {
      var id := CreatedId(db, a, CheckAt(a));
      CreatedByPosition(a, CheckAt(a));
      AfterwardsContent(db, a, id);
      assert names == {id};
    } else if a.newField.check.Some? {
      var id :| && id in db.constraints
                && ConstraintNames(db, a.table, Some([a.oldField.column]), IsCheck) == {id}
                && db.constraints[id] == Constraint(a.table, [a.oldField.column], Check(a.oldField.check.value));
      CheckStays(db, a, id);
      AfterwardsContent(db, a, id);
      assert names == {id};
    } else {
      assert names == {};
    }
  }

  /** A check that is not replaced belongs to a column that keeps its name. */
  lemma CheckStays(db: Database, a: Alteration, id: nat)
    requires db.HasColumn(a.table, a.oldField.column) && RenameAllowed(db, a)
    requires id in db.constraints && !a.RemovesCheck() && a.oldField.check.Some?
    requires db.constraints[id] == Constraint(a.table, [a.oldField.column], Check(a.oldField.check.value))
    ensures a.Survives(db.constraints[id]) && a.Follow(db.constraints[id]) == db.constraints[id]
  {
    assert OnColumn(db.constraints[id], a.table, a.oldField.column);
  }

  /**
   A check is dropped exactly when the field's check changes and the field's column is the only or the last one it
   is defined on: a check over several columns goes with the check of the last.
   */
  lemma CheckDroppedExactlyWhen(a: Alteration, c: Constraint)
    requires c.kind.Check? && c.columns != []
    ensures a.DropsFirst(c) <==> a.RemovesCheck() && c.table == a.table && c.columns[|c.columns| - 1] == a.oldField.column
  {
    assert IntrospectedColumns(c) == [c.columns[|c.columns| - 1]];
    assert [c.columns[|c.columns| - 1]] == [a.oldField.column] <==> c.columns[|c.columns| - 1] == a.oldField.column;
  }

  /** Such a check is counted with the field's own, so that the catalog cannot agree with any field on its last column. */
  lemma SharedCheckUpsetsAgreement(db: Database, t: Name, f: Field, id: nat)
    requires id in db.constraints && db.constraints[id].kind.Check? && db.constraints[id].table == t
    requires |db.constraints[id].columns| > 1 && db.constraints[id].columns[|db.constraints[id].columns| - 1] == f.column
    ensures id in ConstraintNames(db, t, Some([f.column]), IsCheck) && !CheckAgrees(db, t, f)
  {
  }

  lemma NoDefaultAfterwards(db: Database, a: Alteration)
    requires Valid(db) && Agrees(db, a.table, a.oldField)
    requires RenameAllowed(db, a) && RelatedAllowed(db, a)
    ensures DefaultsOn(AlteredDatabase(a, db), a.table, a.newField.column) == {}
  {
    hide AlteredDatabase, Valid, ForeignKeyAgrees, UniqueAgrees, CheckAgrees, Alteration.Created, RenameAllowed, RelatedAllowed, Alteration.Survives, Alteration.Follow;
    var db' := AlteredDatabase(a, db);
    forall id | id in db'.constraints
      ensures !IsDefaultOn(db'.constraints[id], a.table, a.newField.column)
    {
      AfterwardsContent(db, a, id);
      if id in db.constraints && a.Survives(db.constraints[id]) {
        DefaultFollows(db, a, id);
      } else {
        CreatedByPosition(a, id - CreatedId(db, a, 0));
        if RebuiltAt(a) <= id - CreatedId(db, a, 0) < CheckAt(a) {
          RebuiltElsewhere(db, a, id - CreatedId(db, a, 0) - RebuiltAt(a));
        }
      }
    }
  }

  lemma DefaultFollows(db: Database, a: Alteration, id: nat)
    requires Valid(db) && db.HasColumn(a.table, a.oldField.column) && RenameAllowed(db, a)
    requires DefaultsOn(db, a.table, a.oldField.column) == {} && id in db.constraints
    ensures !IsDefaultOn(a.Follow(db.constraints[id]), a.table, a.newField.column)
  {
    var c := db.constraints[id];
    assert ValidConstraint(db, c);
    if c.kind.Default? && c.table == a.table {
      assert c.columns == [c.columns[0]] && c.columns[0] in c.columns;
      assert id !in DefaultsOn(db, a.table, a.oldField.column);
      assert a.Follow(c).columns[0] == if a.Renames() then RenameName(c.columns[0], a.oldField.column, a.newField.column) else c.columns[0];
    }
  }

  // ---------- The main results ----------

  lemma ColumnClause(db: Database, a: Alteration)
    requires db.HasColumn(a.table, a.oldField.column)
    requires RenameAllowed(db, a) && RelatedAllowed(db, a)
    ensures ColumnAgrees(AlteredDatabase(a, db), a.table, a.newField)
  {
    AlteredColumnPlace(db, a);
  }

  lemma AgreesByClauses(db: Database, a: Alteration)
    requires Valid(db) && Agrees(db, a.table, a.oldField)
    requires RenameAllowed(db, a) && RelatedAllowed(db, a)
    ensures Agrees(AlteredDatabase(a, db), a.table, a.newField)
  {
    ColumnClause(db, a);
    ForeignKeyClause(db, a);
    UniqueClause(db, a);
    CheckClause(db, a);
    NoDefaultAfterwards(db, a);
  }

  lemma NothingInTheWay(db: Database, a: Alteration, strict: bool)
    requires db.HasColumn(a.table, a.oldField.column) && FirstObstacle(db, a, strict) == None
    ensures RenameAllowed(db, a) && !NullsRemain(db, a) && !RelatedRefused(db, a) && !ForeignKeysRefused(db, a)
  {
    hide RenameAllowed, UniqueReferenced, TypeBlocked, NullsRemain, KeyReferenced, RelatedRefused, ForeignKeysRefused;
  }

  /** Where nothing is in the way, the relations have their columns and refer to something. */
  lemma AlterableRelated(db: Database, a: Alteration, strict: bool)
    requires Alterable(db, a, strict)
    ensures RenameAllowed(db, a) && RelatedAllowed(db, a)
    ensures ForeignKeysLegal(AlteredDatabase(a, db), a.CreatedForeignKey())
    ensures ForeignKeysLegal(AlteredDatabase(a, db), a.RebuiltForeignKeys())
  {
    hide AlteredDatabase, Valid, FirstObstacle, ForeignKeyAgrees, UniqueAgrees, CheckAgrees, RenameAllowed;
    NothingInTheWay(db, a, strict);
    var rs := a.RelatedToRetype();
    forall i | 0 <= i < |rs|
      ensures db.HasColumn(rs[i].table, rs[i].field.column)
      ensures a.RetypesPrimaryKey() ==> rs[i].field.rel.Some?
    {
      assert RelatedTakesType(db, a, rs[i]);
      if a.RetypesPrimaryKey() {
        assert ForeignKeyLegal(AlteredDatabase(a, db), a.RebuiltForeignKeys()[i]);
      }
    }
  }

  /** From a catalog that agrees with the old field to one that agrees with the new field. */
  lemma AlteredDatabaseAgrees(db: Database, a: Alteration, strict: bool)
    requires Alterable(db, a, strict)
    ensures Agrees(AlteredDatabase(a, db), a.table, a.newField)
  {
    AlterableRelated(db, a, strict);
    AgreesByClauses(db, a);
  }

  /** Constraints that are not the column's own stay, except a replaced primary key and the inbound foreign keys of a retyped one. */
  lemma OtherConstraintsKept(db: Database, a: Alteration, id: nat)
    requires Valid(db) && db.HasColumn(a.table, a.oldField.column) && id in db.constraints
    requires
      var c := db.constraints[id];
      && !(c.table == a.table && IntrospectedColumns(c) == [a.oldField.column])
      && !(!a.oldField.primaryKey && a.newField.primaryKey && c.table == a.table && c.kind.PrimaryKey?)
      && !(a.oldField.primaryKey && a.newField.primaryKey && (a.oldField.ty != a.newField.ty || a.oldField.auto != a.newField.auto)
           && c.kind.ForeignKey?
           && exists r :: r in NonManyToMany(a.newRelated) && c.table == r.table && c.columns == [r.field.column])
    ensures id in AlteredDatabase(a, db).constraints
    ensures AlteredDatabase(a, db).constraints[id] == a.Follow(db.constraints[id])
  {
    var c := db.constraints[id];
    hide AlteredDatabase, Valid, Alteration.Follow, Alteration.Created, NonManyToMany;
    assert a.Survives(c) by {
      assert forall i :: 0 <= i < |a.Paired()| ==> a.Paired()[i] in a.Related();
      assert c.kind.ForeignKey? && a.DropsInbound(c) ==> exists r :: r in a.Related() && c.table == r.table && c.columns == [r.field.column];
    }
    AfterwardsContent(db, a, id);
  }

  /** A constraint on the altered column, or an inbound foreign key made again. */
  ghost predicate OwnOrInbound(a: Alteration, c: Constraint) {
    || (c.table == a.table && c.columns == [a.newField.column] && !c.kind.Default?)
    || (a.RetypesPrimaryKey() && exists i :: 0 <= i < |a.Related()| && c == RelatedForeignKey(a.Related()[i]))
  }

  lemma CreatedAnywhere(a: Alteration, i: nat)
    requires i < |a.Created()|
    ensures OwnOrInbound(a, a.Created()[i])
  {
    CreatedByPosition(a, i);
    if RebuiltAt(a) <= i < CheckAt(a) {
      assert a.Created()[i] == RelatedForeignKey(a.Related()[i - RebuiltAt(a)]);
    }
  }

  lemma NothingElseCreated(db: Database, a: Alteration, id: nat)
    requires Valid(db) && db.HasColumn(a.table, a.oldField.column)
    requires id in AlteredDatabase(a, db).constraints && id !in db.constraints
    ensures OwnOrInbound(a, AlteredDatabase(a, db).constraints[id])
  {
    hide AlteredDatabase, Valid, Alteration.Created, Alteration.Survives, Alteration.Follow, OwnOrInbound;
    AfterwardsContent(db, a, id);
    CreatedAnywhere(a, id - CreatedId(db, a, 0));
  }

  // ---------- Inbound foreign keys of a retyped primary key ----------

  /** The foreign keys of a related column afterwards: the rebuilt one alone. */
  lemma InboundAfterwards(db: Database, a: Alteration, k: nat, id: nat)
    requires Valid(db) && db.HasColumn(a.table, a.oldField.column)
    requires RenameAllowed(db, a) && RelatedAllowed(db, a) && a.RetypesPrimaryKey() && k < |a.Related()|
    requires id in AlteredDatabase(a, db).constraints
    ensures
      var r := a.Related()[k];
      Matches(AlteredDatabase(a, db).constraints[id], r.table, Some([r.field.column]), IsForeignKey)
      <==> id == CreatedId(db, a, RebuiltAt(a) + k)
  {
    hide AlteredDatabase, Valid, Alteration.Created, RenameAllowed, RelatedAllowed, Alteration.Survives, Alteration.Follow, Matches,
      Alteration.Related, Alteration.CreatedCheck, ForeignKeyAt;
    var r := a.Related()[k];
    RebuiltElsewhere(db, a, k);
    AfterwardsContent(db, a, id);
    CreatedLength(a);
    if id in db.constraints {
      InboundGone(db, a, k, id);
    } else {
      InboundCreated(db, a, k, id - CreatedId(db, a, 0));
    }
  }

  lemma InboundGone(db: Database, a: Alteration, k: nat, id: nat)
    requires Valid(db) && db.HasColumn(a.table, a.oldField.column)
    requires RenameAllowed(db, a) && RelatedAllowed(db, a) && a.RetypesPrimaryKey() && k < |a.Related()|
    requires id in db.constraints && a.Survives(db.constraints[id])
    ensures !Matches(a.Follow(db.constraints[id]), a.Related()[k].table, Some([a.Related()[k].field.column]), IsForeignKey)
  {
    var r := a.RelatedToRetype()[k];
    var c := db.constraints[id];
    assert ValidConstraint(db, c);
    if c.kind.ForeignKey? && c.table == r.table {
      FollowKeepsOthers(db, a, c, r.table, r.field.column);
      assert c.columns == [c.columns[0]];
      assert a.Follow(c).columns == [a.Follow(c).columns[0]];
      assert !Matches(c, r.table, Some([r.field.column]), IsForeignKey);
    }
  }

  lemma InboundCreated(db: Database, a: Alteration, k: nat, i: nat)
    requires db.HasColumn(a.table, a.oldField.column) && RenameAllowed(db, a) && RelatedAllowed(db, a)
    requires a.RetypesPrimaryKey() && k < |a.Related()| && i < |a.Created()|
    ensures Matches(a.Created()[i], a.Related()[k].table, Some([a.Related()[k].field.column]), IsForeignKey)
       <==> i == RebuiltAt(a) + k
  {
    hide RenameAllowed, RelatedAllowed, Alteration.Created, RelatedForeignKeys, HasFlag;
    var r := a.Related()[k];
    CreatedByPosition(a, i);
    RebuiltElsewhere(db, a, k);
    if RebuiltAt(a) <= i < CheckAt(a) {
      DistinctRelated(db, a, k, i - RebuiltAt(a));
    } else {
      assert a.Created()[i].table == a.table && a.Created()[i].columns == [a.newField.column];
      assert [a.newField.column] == [r.field.column] ==> a.newField.column == r.field.column;
    }
  }

  lemma DistinctRelated(db: Database, a: Alteration, k: nat, l: nat)
    requires db.HasColumn(a.table, a.oldField.column) && RenameAllowed(db, a) && RelatedAllowed(db, a)
    requires a.RetypesPrimaryKey() && k < |a.Related()| && l < |a.Related()|
    ensures Matches(a.RebuiltForeignKeys()[l], a.Related()[k].table, Some([a.Related()[k].field.column]), IsForeignKey) <==> l == k
  {
    var r, other := a.RelatedToRetype()[k], a.RelatedToRetype()[l];
    RebuiltElsewhere(db, a, k);
    RebuiltElsewhere(db, a, l);
    assert [other.field.column] == [r.field.column] ==> other.field.column == r.field.column;
  }

  /** On a type change of the primary key every inbound foreign key exists again exactly once, and its column has the new type. */
  lemma InboundForeignKeysConserved(db: Database, a: Alteration, strict: bool, k: nat)
    requires Alterable(db, a, strict) && k < |NonManyToMany(a.newRelated)|
    requires a.oldField.primaryKey && a.newField.primaryKey
    requires a.oldField.ty != a.newField.ty || a.oldField.auto != a.newField.auto
    ensures
      var db' := AlteredDatabase(a, db);
      var r := NonManyToMany(a.newRelated)[k];
      && r.field.rel.Some?
      && ExactlyOne(db', r.table, r.field.column, IsForeignKey, ForeignKey(r.field.rel.value.table, r.field.rel.value.column))
      && db'.HasColumn(r.table, r.field.column)
      && db'.Column(r.table, r.field.column).ty == r.field.ty
  {
    AlterableRelated(db, a, strict);
    RelatedColumnPlace(db, a, k);
    InboundConserved(db, a, k);
  }

  lemma InboundConserved(db: Database, a: Alteration, k: nat)
    requires Valid(db) && db.HasColumn(a.table, a.oldField.column)
    requires RenameAllowed(db, a) && RelatedAllowed(db, a) && a.RetypesPrimaryKey() && k < |a.Related()|
    ensures
      var r := a.Related()[k];
      && r.field.rel.Some?
      && ExactlyOne(AlteredDatabase(a, db), r.table, r.field.column, IsForeignKey,
                    ForeignKey(r.field.rel.value.table, r.field.rel.value.column))
  {
    hide AlteredDatabase, Valid, Alteration.Follow, Alteration.Survives, Alteration.Created;
    var db' := AlteredDatabase(a, db);
    var r := a.Related()[k];
    var id := CreatedId(db, a, RebuiltAt(a) + k);
    RebuiltElsewhere(db, a, k);
    CreatedLength(a);
    CreatedByPosition(a, RebuiltAt(a) + k);
    AfterwardsContent(db, a, id);
    var names := ConstraintNames(db', r.table, Some([r.field.column]), IsForeignKey);
    forall i | i in db'.constraints
      ensures i in names <==> i == id
    {
      InboundAfterwards(db, a, k, i);
    }
    assert names == {id};
  }

  /** As many foreign keys on the related column as before, and the same ones under their new names. */
  ghost predicate ForeignKeysConserved(db: Database, a: Alteration, r: RelatedObject)
    requires db.HasColumn(a.table, a.oldField.column)
  {
    var db' := AlteredDatabase(a, db);
    var before := ConstraintNames(db, r.table, Some([r.field.column]), IsForeignKey);
    var after := ConstraintNames(db', r.table, Some([r.field.column]), IsForeignKey);
    && |before| == |after|
    && (set id | id in before :: a.Follow(db.constraints[id])) == (set id | id in after :: db'.constraints[id])
  }

  /** What the column was called before the rename. */
  function OldName(a: Alteration, t: Name, c: Name): Name {
    if t == a.table && c == a.newField.column then a.oldField.column else c
  }

  /** The column carried exactly the foreign key that the relation describes. */
  ghost predicate CarriedItsForeignKey(db: Database, a: Alteration, r: RelatedObject)
    requires r.field.rel.Some?
  {
    var target := r.field.rel.value;
    ExactlyOne(db, r.table, r.field.column, IsForeignKey, ForeignKey(target.table, OldName(a, target.table, target.column)))
  }

  lemma FollowedForeignKey(db: Database, a: Alteration, r: RelatedObject, c: Constraint)
    requires RenameAllowed(db, a) && db.HasColumn(a.table, a.oldField.column) && ValidConstraint(db, c)
    requires r.field.rel.Some? && (r.table, r.field.column) != (a.table, a.oldField.column)
    requires a.Renames() ==> (r.field.rel.value.table, r.field.rel.value.column) != (a.table, a.oldField.column)
    requires Matches(c, r.table, Some([r.field.column]), IsForeignKey)
    ensures
      var target := r.field.rel.value;
      a.Follow(c) == RelatedForeignKey(r)
      <==> c == Constraint(r.table, [r.field.column], ForeignKey(target.table, OldName(a, target.table, target.column)))
  {
    assert c == Constraint(r.table, [r.field.column], c.kind);
    assert RenameNames([r.field.column], a.oldField.column, a.newField.column) == [RenameName(r.field.column, a.oldField.column, a.newField.column)];
  }

  lemma {:induction false} RetypeAddsNoColumn(tables: map<Name, Table>, rs: seq<RelatedObject>, t: Name, c: Name)
    ensures
      var tables' := RetypeRelated(tables, rs);
      t in tables' && c in tables'[t].columns <==> t in tables && c in tables[t].columns
    decreases |rs|
  {
    if rs != [] {
      RetypeAddsNoColumn(RetypeOne(tables, rs[0]), rs[1..], t, c);
    }
  }

  lemma OldNameIsGone(db: Database, a: Alteration)
    requires db.HasColumn(a.table, a.oldField.column) && a.Renames()
    ensures !AlteredDatabase(a, db).HasColumn(a.table, a.oldField.column)
  {
    RetypeAddsNoColumn(db.tables[a.table := a.AlteredTable(db.tables[a.table])], a.RelatedToRetype(), a.table, a.oldField.column);
  }

  /** The foreign keys of a related column are conserved exactly when it carried the one that the relation describes. */
  lemma ForeignKeysConservedExactlyWhen(db: Database, a: Alteration, strict: bool, k: nat)
    requires Alterable(db, a, strict) && k < |NonManyToMany(a.newRelated)|
    requires a.oldField.primaryKey && a.newField.primaryKey
    requires a.oldField.ty != a.newField.ty || a.oldField.auto != a.newField.auto
    ensures
      var r := NonManyToMany(a.newRelated)[k];
      r.field.rel.Some? && (ForeignKeysConserved(db, a, r) <==> CarriedItsForeignKey(db, a, r))
  {
    hide AlteredDatabase, Alteration.Follow, Alteration.Survives, ExactlyOne, Matches, RenameAllowed, FirstObstacle, Valid,
      ForeignKeyAgrees, UniqueAgrees, CheckAgrees, ForeignKeysConserved, CarriedItsForeignKey, ForeignKeyLegal;
    AlterableRelated(db, a, strict);
    InboundConserved(db, a, k);
    RelationHasTarget(db, a, k);
    assert a.Related()[k] == a.RelatedToRetype()[k];
    ConservedByName(db, a, a.Related()[k]);
  }

  /** The target of a foreign key that can be created is not the name that the column had before. */
  lemma RelationHasTarget(db: Database, a: Alteration, k: nat)
    requires db.HasColumn(a.table, a.oldField.column) && a.RetypesPrimaryKey() && k < |a.Related()|
    requires ForeignKeysLegal(AlteredDatabase(a, db), a.RebuiltForeignKeys())
    ensures
      var rel := a.Related()[k].field.rel;
      rel.Some? && (a.Renames() ==> (rel.value.table, rel.value.column) != (a.table, a.oldField.column))
  {
    hide AlteredDatabase;
    assert ForeignKeyLegal(AlteredDatabase(a, db), a.RebuiltForeignKeys()[k]);
    if a.Renames() { OldNameIsGone(db, a); }
  }

  lemma ConservedByName(db: Database, a: Alteration, r: RelatedObject)
    requires Valid(db) && RenameAllowed(db, a) && db.HasColumn(a.table, a.oldField.column)
    requires r.field.rel.Some? && (r.table, r.field.column) != (a.table, a.oldField.column)
    requires a.Renames() ==> (r.field.rel.value.table, r.field.rel.value.column) != (a.table, a.oldField.column)
    requires ExactlyOne(AlteredDatabase(a, db), r.table, r.field.column, IsForeignKey,
                        ForeignKey(r.field.rel.value.table, r.field.rel.value.column))
    ensures ForeignKeysConserved(db, a, r) <==> CarriedItsForeignKey(db, a, r)
  {
    hide AlteredDatabase, Alteration.Follow, Matches, RenameAllowed;
    var db' := AlteredDatabase(a, db);
    var before := ConstraintNames(db, r.table, Some([r.field.column]), IsForeignKey);
    var after := ConstraintNames(db', r.table, Some([r.field.column]), IsForeignKey);
    var id' :| after == {id'} && db'.constraints[id'] == RelatedForeignKey(r);
    assert (set id | id in after :: db'.constraints[id]) == {RelatedForeignKey(r)};
    if |before| == 1 {
      var id :| id in before;
      assert |before - {id}| == 0;
      assert before == {id};
      assert (set i | i in before :: a.Follow(db.constraints[i])) == {a.Follow(db.constraints[id])};
      FollowedForeignKey(db, a, r, db.constraints[id]);
      assert a.Follow(db.constraints[id]) in {a.Follow(db.constraints[id])};
    }
  }

  // ---------- When a foreign key can be created ----------

  /** A key on the column that the script leaves, under its new name, or makes. */
  ghost predicate KeyAfterwards(db: Database, a: Alteration, t: Name, c: Name) {
    || (t == a.table && c == a.newField.column && (a.AddsUnique() || a.BecomesPrimaryKey()))
    || exists id :: id in db.constraints && a.Survives(db.constraints[id]) && IsKeyOn(a.Follow(db.constraints[id]), t, c)
  }

  lemma KeyAfterwardsExists(db: Database, a: Alteration, t: Name, c: Name)
    requires Valid(db) && db.HasColumn(a.table, a.oldField.column)
    ensures KeyExists(AlteredDatabase(a, db), t, c) <==> KeyAfterwards(db, a, t, c)
  {
    hide AlteredDatabase, Alteration.Created, Alteration.Survives, Alteration.Follow;
    var db' := AlteredDatabase(a, db);
    CreatedLength(a);
    if KeyExists(db', t, c) {
      var id :| id in db'.constraints && IsKeyOn(db'.constraints[id], t, c);
      AfterwardsContent(db, a, id);
      if !(id in db.constraints && a.Survives(db.constraints[id])) {
        CreatedKey(a, id - CreatedId(db, a, 0), t, c);
      }
    }
    if KeyAfterwards(db, a, t, c) {
      if id :| id in db.constraints && a.Survives(db.constraints[id]) && IsKeyOn(a.Follow(db.constraints[id]), t, c) {
        AfterwardsContent(db, a, id);
        assert IsKeyOn(db'.constraints[id], t, c);
      } else {
        var i := if a.AddsUnique() then 0 else KeyAt(a);
        CreatedKeyPositions(a, i);
        AfterwardsContent(db, a, CreatedId(db, a, i));
        assert IsKeyOn(db'.constraints[CreatedId(db, a, i)], t, c);
      }
    }
  }

  lemma CreatedKey(a: Alteration, i: nat, t: Name, c: Name)
    requires i < |a.Created()| && IsKeyOn(a.Created()[i], t, c)
    ensures t == a.table && c == a.newField.column && (a.AddsUnique() || a.BecomesPrimaryKey())
  {
    hide Alteration.Created;
    CreatedByPosition(a, i);
    RelationsAreRelations(a);
    if !(RebuiltAt(a) <= i < CheckAt(a)) {
      assert a.Created()[i].columns == [a.newField.column];
      assert a.Created()[i].columns[0] == [c][0];
    }
  }

  /**
   A foreign key on one column can be created exactly when both columns are there afterwards, with the same type, and
   a key is left on the target or made on it.
   */
  lemma ForeignKeyLegalExactlyWhen(db: Database, a: Alteration, t: Name, c: Name, target: Target)
    requires Valid(db) && db.HasColumn(a.table, a.oldField.column)
    ensures
      var db' := AlteredDatabase(a, db);
      ForeignKeyLegal(db', Constraint(t, [c], ForeignKey(target.table, target.column)))
      <==> && db'.HasColumn(t, c) && db'.HasColumn(target.table, target.column)
           && db'.Column(t, c).ty == db'.Column(target.table, target.column).ty
           && KeyAfterwards(db, a, target.table, target.column)
  {
    hide AlteredDatabase, KeyAfterwards, Valid;
    KeyAfterwardsExists(db, a, target.table, target.column);
    assert c in [c];
    assert forall n :: n in [c] ==> n == c;
  }

  /** A referring column keeps its cells up to conversion, and is left nullable whatever it was before. */
  lemma ReferringColumnAfterwards(db: Database, a: Alteration, k: nat)
    requires db.HasColumn(a.table, a.oldField.column)
    requires RenameAllowed(db, a) && RelatedAllowed(db, a) && k < |NonManyToMany(a.newRelated)|
    requires
      (a.oldField.primaryKey && a.newField.primaryKey && (a.oldField.ty != a.newField.ty || a.oldField.auto != a.newField.auto))
      || (!a.oldField.primaryKey && a.newField.primaryKey)
    ensures
      var r := NonManyToMany(a.newRelated)[k];
      && db.HasColumn(r.table, r.field.column)
      && AlteredDatabase(a, db).HasColumn(r.table, r.field.column)
      && AlteredDatabase(a, db).Column(r.table, r.field.column)
         == Column(r.field.ty, true, Retyped(db.Column(r.table, r.field.column), r.field.ty))
  {
    RelatedColumnPlace(db, a, k);
  }

  // ---------- The column's own constraints, told by the fields ----------

  /** Whether this constraint of the column itself outlives the alteration. */
  lemma OwnConstraintKeptExactlyWhen(db: Database, a: Alteration, id: nat)
    requires Prepared(db, a) && id in db.constraints
    requires db.constraints[id].table == a.table && IntrospectedColumns(db.constraints[id]) == [a.oldField.column]
    ensures
      var o, n := a.oldField, a.newField;
      var oUnique, nUnique := o.uniqueFlag || o.primaryKey, n.uniqueFlag || n.primaryKey;
      id in AlteredDatabase(a, db).constraints <==>
        match db.constraints[id].kind
        case ForeignKey(_, _) => !(o.rel.Some? && o.dbConstraint)
        case PrimaryKey => nUnique
        case Unique => nUnique && (o.primaryKey || !n.primaryKey)
        case Index => !o.dbIndex || n.dbIndex || oUnique
        case Check(_) => o.check == n.check
        case Default(_) => true
    ensures id in AlteredDatabase(a, db).constraints ==> AlteredDatabase(a, db).constraints[id] == a.Follow(db.constraints[id])
  {
    hide AlteredDatabase, Valid, Alteration.Created;
    AfterwardsContent(db, a, id);
    KnownConstraint(db, id);
    OwnConstraintSurvives(db, a, id);
  }

  lemma OwnConstraintSurvives(db: Database, a: Alteration, id: nat)
    requires Prepared(db, a) && id in db.constraints
    requires db.constraints[id].table == a.table && IntrospectedColumns(db.constraints[id]) == [a.oldField.column]
    ensures id < db.next
    ensures
      var o, n := a.oldField, a.newField;
      var oUnique, nUnique := o.uniqueFlag || o.primaryKey, n.uniqueFlag || n.primaryKey;
      a.Survives(db.constraints[id]) <==>
        match db.constraints[id].kind
        case ForeignKey(_, _) => !(o.rel.Some? && o.dbConstraint)
        case PrimaryKey => nUnique
        case Unique => nUnique && (o.primaryKey || !n.primaryKey)
        case Index => !o.dbIndex || n.dbIndex || oUnique
        case Check(_) => o.check == n.check
        case Default(_) => true
  {
    hide ColumnAgrees, ForeignKeyAgrees;
    var c := db.constraints[id];
    var names := [a.oldField.column];
    assert c.kind.IsKey() ==> id in ConstraintNames(db, a.table, Some(names), IsUnique);
    assert c.kind.PrimaryKey? ==> id in ConstraintNames(db, a.table, Some(names), IsPrimaryKey);
    assert c.kind.Check? ==> id in ConstraintNames(db, a.table, Some(names), IsCheck);
    assert names[0] == a.oldField.column;
    assert c.kind.ForeignKey? ==> c.columns == names;
    forall i | 0 <= i < |a.Paired()| && a.RetypesPrimaryKey()
      ensures !Matches(c, a.Paired()[i].table, Some([a.Paired()[i].field.column]), IsForeignKey)
    {
      assert a.Paired()[i] == a.RelatedToRetype()[i];
      assert [a.Paired()[i].field.column][0] == a.Paired()[i].field.column;
    }
  }

  /** The constraints of this kind that the alteration makes on the column. */
  function MadeOnColumn(db: Database, a: Alteration, k: Kind): set<nat>
    requires db.HasColumn(a.table, a.oldField.column)
  {
    var db' := AlteredDatabase(a, db);
    set id | id in db'.constraints && id !in db.constraints && db'.constraints[id] == Constraint(a.table, [a.newField.column], k)
  }

  /** What is made on the column, kind by kind: one constraint where the fields ask for it, and none else. */
  lemma MadeExactlyWhen(db: Database, a: Alteration, k: Kind)
    requires Valid(db) && db.HasColumn(a.table, a.oldField.column) && SeparateColumns(a) && a.Paired() == a.Related()
    ensures
      var o, n := a.oldField, a.newField;
      var oUnique, nUnique := o.uniqueFlag || o.primaryKey, n.uniqueFlag || n.primaryKey;
      |MadeOnColumn(db, a, k)| ==
        if match k
           case ForeignKey(table, column) => n.rel == Some(Target(table, column)) && n.dbConstraint
           case PrimaryKey => !o.primaryKey && n.primaryKey
           case Unique => nUnique && (!oUnique || (o.primaryKey && !n.primaryKey))
           case Index => !o.dbIndex && n.dbIndex && !nUnique
           case Check(expr) => o.check != n.check && n.check == Some(expr)
           case Default(_) => false
        then 1 else 0
  {
    hide AlteredDatabase, Valid, Alteration.Created, Alteration.Survives, Alteration.Follow, RelatedForeignKey;
    var made := MadeOnColumn(db, a, k);
    CreatedLength(a);
    var at := PlaceOf(a, k);
    forall id: nat
      ensures id in made <==> at.Some? && id == CreatedId(db, a, at.value)
    {
      AfterwardsContent(db, a, id);
      if CreatedId(db, a, 0) <= id < CreatedId(db, a, |a.Created()|) {
        PlaceIsExact(a, k, id - CreatedId(db, a, 0));
      }
      if at.Some? && id == CreatedId(db, a, at.value) {
        PlaceIsExact(a, k, at.value);
      }
      NewIdsAreNew(db, id);
    }
    assert made == if at.Some? then {CreatedId(db, a, at.value)} else {};
  }

  lemma NewIdsAreNew(db: Database, id: nat)
    requires Valid(db)
    ensures id in db.constraints ==> id < db.next
  {
  }

  /** Where among the created constraints the one of this kind on the column is, if the fields ask for it. */
  function PlaceOf(a: Alteration, k: Kind): (r: Option<nat>)
    ensures
      var o, n := a.oldField, a.newField;
      var oUnique, nUnique := o.uniqueFlag || o.primaryKey, n.uniqueFlag || n.primaryKey;
      r.Some? <==>
        match k
        case ForeignKey(table, column) => n.rel == Some(Target(table, column)) && n.dbConstraint
        case PrimaryKey => !o.primaryKey && n.primaryKey
        case Unique => nUnique && (!oUnique || (o.primaryKey && !n.primaryKey))
        case Index => !o.dbIndex && n.dbIndex && !nUnique
        case Check(expr) => o.check != n.check && n.check == Some(expr)
        case Default(_) => false
    ensures r.Some? ==> r.value < |a.Created()|
  {
    CreatedLength(a);
    match k
    case ForeignKey(table, column) =>
      if a.newField.WantsForeignKey() && a.newField.rel.value == Target(table, column) then Some(ForeignKeyAt(a)) else None
    case PrimaryKey => if a.BecomesPrimaryKey() then Some(KeyAt(a)) else None
    case Unique => if a.AddsUnique() then Some(0) else None
    case Index => if a.AddsIndex() then Some(|a.CreatedUnique()|) else None
    case Check(expr) => if a.AddsCheck() && a.newField.check.value == expr then Some(CheckAt(a)) else None
    case Default(_) => None
  }

  lemma PlaceIsExact(a: Alteration, k: Kind, i: nat)
    requires i < |a.Created()| && SeparateColumns(a) && a.Paired() == a.Related()
    ensures a.Created()[i] == a.OnNewColumn(k) <==> PlaceOf(a, k) == Some(i)
  {
    hide Alteration.Created, RelatedForeignKey;
    LaterByPosition(a, i);
    CreatedLength(a);
    if i < ForeignKeyAt(a) {
      FirstExact(a, i);
    } else if RebuiltAt(a) <= i < CheckAt(a) {
      RebuiltIsElsewhere(a, i - RebuiltAt(a));
    }
  }

  lemma FirstExact(a: Alteration, i: nat)
    requires i < ForeignKeyAt(a) <= |a.Created()|
    ensures a.Created()[i] ==
            if a.AddsUnique() && i == 0 then a.OnNewColumn(Unique)
            else if a.AddsIndex() && i == |a.CreatedUnique()| then a.OnNewColumn(Index)
            else a.OnNewColumn(PrimaryKey)
    ensures a.Created()[i] == a.OnNewColumn(PrimaryKey) ==> a.BecomesPrimaryKey() && i == KeyAt(a)
  {
    hide Alteration.RebuiltForeignKeys, Alteration.CreatedForeignKey, Alteration.CreatedCheck;
    var first := a.CreatedUnique() + a.CreatedIndex() + a.CreatedKey();
    assert a.Created()[i] == first[i];
  }

  lemma RebuiltIsElsewhere(a: Alteration, i: nat)
    requires i < |a.RebuiltForeignKeys()| && SeparateColumns(a) && a.Paired() == a.Related()
    ensures forall k :: a.RebuiltForeignKeys()[i] != a.OnNewColumn(k)
  {
    var r := a.RelatedToRetype()[i];
    assert a.RebuiltForeignKeys()[i] == RelatedForeignKey(r);
    assert [a.newField.column][0] == a.newField.column && [r.field.column][0] == r.field.column;
  }

  /** A default constraint comes and goes exactly when the default changes to something: it uses up a number of its own. */
  lemma DefaultsPassing(db: Database, a: Alteration)
    requires db.HasColumn(a.table, a.oldField.column)
    ensures AlteredDatabase(a, db).next == db.next + |a.Created()|
            + (if a.oldField.effectiveDefault != a.newField.effectiveDefault && a.newField.effectiveDefault.Some? then 1 else 0)
  {
  }

  // ---------- How far the premises reach ----------

  /** The script never drops the primary key that it retypes, so on a strict server AlterField fails. */
  lemma StrictServerRefusesKeyRetype(db: Database, a: Alteration)
    requires db.strict && HasPrimaryKeyOn(db, a.table, a.oldField.column)
    requires a.RetypesPrimaryKey() && a.oldField.ty != a.newField.ty
    ensures TypeBlocked(db, a)
  {
    var id :| id in ConstraintNames(db, a.table, Some([a.oldField.column]), IsPrimaryKey);
    assert db.constraints[id].columns == [a.oldField.column];
    assert OnColumn(db.constraints[id], a.table, a.oldField.column);
  }

  // A model, another one that refers to it, with or without a foreign key, and a primary key that changes
  // its name and type.

  function ExampleDatabase(enforced: bool): Database {
    Database(
      map["author" := Table(map["id" := Column("int", false, [Datum(1)])], 1),
          "book" := Table(map["author_id" := Column("int", true, [Datum(1)])], 1)],
      if enforced
      then map[0 := Constraint("author", ["id"], PrimaryKey), 1 := Constraint("book", ["author_id"], ForeignKey("author", "id"))]
      else map[0 := Constraint("author", ["id"], PrimaryKey)],
      2, false)
  }

  function ExampleAlteration(enforced: bool): Alteration {
    var oldKey := Field("id", "int", false, false, true, false, false, None, None, true, false, None);
    var oldRef := Field("author_id", "int", false, true, false, false, false, None, Some(Target("author", "id")), enforced, false, None);
    Alteration(
      "author", oldKey, oldKey.(column := "key", ty := "bigint"),
      [RelatedObject("book", oldRef, false)],
      [RelatedObject("book", oldRef.(ty := "bigint", rel := Some(Target("author", "key"))), false)])
  }

  lemma ExampleValid(enforced: bool)
    ensures Valid(ExampleDatabase(enforced))
  {
    var db := ExampleDatabase(enforced);
    assert IsKeyOn(db.constraints[0], "author", "id");
    assert KeyExists(db, "author", "id");
  }

  lemma ExampleAgrees(enforced: bool)
    ensures Agrees(ExampleDatabase(enforced), "author", ExampleAlteration(enforced).oldField)
    ensures HasPrimaryKeyOn(ExampleDatabase(enforced), "author", "id")
  {
    var db := ExampleDatabase(enforced);
    assert 0 in ConstraintNames(db, "author", Some(["id"]), IsUnique);
    assert 0 in ConstraintNames(db, "author", Some(["id"]), IsPrimaryKey);
    assert ConstraintNames(db, "author", Some(["id"]), IsForeignKey) == {};
  }

  lemma ExamplePairs(enforced: bool)
    ensures
      var a := ExampleAlteration(enforced);
      a.Related() == a.newRelated && a.Paired() == a.Related() && a.RelatedToRetype() == a.newRelated
  {
    var a := ExampleAlteration(enforced);
    assert a.oldRelated[1..] == [] && a.newRelated[1..] == [];
    assert |NonManyToMany(a.oldRelated)| == 1 && NonManyToMany(a.newRelated) == a.newRelated;
  }

  lemma ExamplePrepared(enforced: bool)
    ensures Prepared(ExampleDatabase(enforced), ExampleAlteration(enforced))
    ensures RenameAllowed(ExampleDatabase(enforced), ExampleAlteration(enforced))
    ensures RelatedAllowed(ExampleDatabase(enforced), ExampleAlteration(enforced))
  {
    hide Alteration.Related, Alteration.Paired, Alteration.RelatedToRetype, Valid, Agrees;
    ExampleValid(enforced);
    ExampleAgrees(enforced);
    ExamplePairs(enforced);
  }

  /** The only constraint in the way of any type is the foreign key, which goes first. */
  lemma ExampleRetypes(enforced: bool)
    ensures !TypeBlocked(ExampleDatabase(enforced), ExampleAlteration(enforced))
    ensures !RelatedRefused(ExampleDatabase(enforced), ExampleAlteration(enforced))
  {
    hide Alteration.Related, Alteration.Paired, Alteration.RelatedToRetype;
    var db, a := ExampleDatabase(enforced), ExampleAlteration(enforced);
    ExamplePairs(enforced);
    if enforced {
      assert Matches(db.constraints[1], a.Paired()[0].table, Some([a.Paired()[0].field.column]), IsForeignKey);
      assert a.DropsInbound(db.constraints[1]);
    }
  }

  lemma ExampleForeignKey(enforced: bool)
    ensures !ForeignKeysRefused(ExampleDatabase(enforced), ExampleAlteration(enforced))
  {
    hide AlteredDatabase, AlterTables, Alteration.Related, Alteration.Paired, Alteration.RelatedToRetype, RelatedAllowed, Prepared;
    var db, a := ExampleDatabase(enforced), ExampleAlteration(enforced);
    var r := a.newRelated[0];
    ExampleValid(enforced);
    ExamplePrepared(enforced);
    ExamplePairs(enforced);
    ExampleColumns(enforced);
    assert a.Survives(db.constraints[0]) && IsKeyOn(a.Follow(db.constraints[0]), "author", "key");
    assert KeyAfterwards(db, a, "author", "key");
    ForeignKeyLegalExactlyWhen(db, a, "book", "author_id", Target("author", "key"));
    assert a.RebuiltForeignKeys() == [RelatedForeignKey(r)];
  }

  lemma ExampleColumns(enforced: bool)
    ensures
      var db' := AlteredDatabase(ExampleAlteration(enforced), ExampleDatabase(enforced));
      && db'.HasColumn("author", "key") && db'.Column("author", "key").ty == "bigint"
      && db'.HasColumn("book", "author_id") && db'.Column("book", "author_id").ty == "bigint"
  {
    hide AlterTables, Alteration.Related, Alteration.Paired, Alteration.RelatedToRetype, RelatedAllowed, Prepared;
    ExamplePrepared(enforced);
    ExamplePairs(enforced);
    AlteredColumnPlaceIn(ExampleDatabase(enforced), ExampleAlteration(enforced));
    RelatedColumnPlace(ExampleDatabase(enforced), ExampleAlteration(enforced), 0);
  }

  lemma AlteredColumnPlaceIn(db: Database, a: Alteration)
    requires db.HasColumn(a.table, a.oldField.column) && RelatedAllowed(db, a)
    ensures AlteredDatabase(a, db).HasColumn(a.table, a.newField.column)
    ensures AlteredDatabase(a, db).Column(a.table, a.newField.column).ty == a.newField.ty
  {
    AlteredColumnPlace(db, a);
  }

  /** The premises can be met, in strict mode, by a key that another model refers to, with a foreign key or without. */
  lemma ExampleAlterable(enforced: bool)
    ensures Alterable(ExampleDatabase(enforced), ExampleAlteration(enforced), true)
    ensures ExampleAlteration(enforced).RetypesPrimaryKey() && ExampleAlteration(enforced).Renames()
  {
    hide Prepared, TypeBlocked, RelatedRefused, ForeignKeysRefused, RenameAllowed, RelatedAllowed;
    ExamplePrepared(enforced);
    ExamplePairs(enforced);
    ExampleRetypes(enforced);
    ExampleForeignKey(enforced);
  }

  /** A relation without a foreign key ends with one, although its field wants none. */
  lemma SoftRelationIsEnforced()
    ensures
      var db, a := ExampleDatabase(false), ExampleAlteration(false);
      var r := a.newRelated[0];
      && Alterable(db, a, true) && !r.field.WantsForeignKey()
      && NoneOf(db, "book", "author_id", IsForeignKey)
      && ExactlyOne(AlteredDatabase(a, db), "book", "author_id", IsForeignKey, ForeignKey("author", "key"))
  {
    hide Alterable, AlteredDatabase;
    ExampleAlterable(false);
    ExamplePairs(false);
    InboundForeignKeysConserved(ExampleDatabase(false), ExampleAlteration(false), true, 0);
  }

  // The same models with another column: it becomes the primary key, or the key stops being unique.

  function ReferredDatabase(): Database {
    Database(
      map["author" := Table(map["id" := Column("int", false, [Datum(1)]), "email" := Column("int", false, [Datum(7)])], 1),
          "book" := Table(map["author_id" := Column("int", true, [Datum(1)])], 1)],
      map[0 := Constraint("author", ["id"], PrimaryKey),
          1 := Constraint("book", ["author_id"], ForeignKey("author", "id"))],
      2, false)
  }

  function PlainField(column: Name, primaryKey: bool): Field {
    Field(column, "int", false, false, primaryKey, false, false, None, None, true, false, None)
  }

  function NewKeyAlteration(): Alteration {
    Alteration("author", PlainField("email", false), PlainField("email", true), [], [])
  }

  function UnsetKeyAlteration(): Alteration {
    Alteration("author", PlainField("id", true), PlainField("id", false), [], [])
  }

  lemma ReferredValid()
    ensures Valid(ReferredDatabase())
  {
    var db := ReferredDatabase();
    assert IsKeyOn(db.constraints[0], "author", "id");
    assert KeyExists(db, "author", "id");
  }

  lemma NewKeyPrepared()
    ensures Prepared(ReferredDatabase(), NewKeyAlteration())
  {
    hide Valid;
    var db := ReferredDatabase();
    ReferredValid();
    assert ConstraintNames(db, "author", Some(["email"]), IsUnique) == {};
    assert ConstraintNames(db, "author", Some(["email"]), IsPrimaryKey) == {};
  }

  lemma UnsetKeyPrepared()
    ensures Prepared(ReferredDatabase(), UnsetKeyAlteration())
  {
    hide Valid;
    var db := ReferredDatabase();
    ReferredValid();
    assert 0 in ConstraintNames(db, "author", Some(["id"]), IsUnique);
    assert 0 in ConstraintNames(db, "author", Some(["id"]), IsPrimaryKey);
  }

  /** A key that another model refers to with a foreign key cannot make way: the script stops there. */
  lemma ReferredKeyCannotMove(strict: bool)
    ensures Prepared(ReferredDatabase(), NewKeyAlteration())
    ensures FirstObstacle(ReferredDatabase(), NewKeyAlteration(), strict) == Some(ReferencedKey)
  {
    hide Prepared, Valid, RelatedRefused, ForeignKeysRefused;
    var db, a := ReferredDatabase(), NewKeyAlteration();
    NewKeyPrepared();
    assert 0 in ConstraintNames(db, "author", None, IsPrimaryKey);
    assert RefersTo(db.constraints[1], db.constraints[0]) && !a.DropsFirst(db.constraints[1]);
    assert StillReferenced(db, a, db.constraints[0]);
  }

  /** Nor can it be unset without staying unique. */
  lemma ReferredKeyCannotGo(strict: bool)
    ensures Prepared(ReferredDatabase(), UnsetKeyAlteration())
    ensures FirstObstacle(ReferredDatabase(), UnsetKeyAlteration(), strict) == Some(ReferencedUnique)
  {
    hide Prepared, Valid, RelatedRefused, ForeignKeysRefused;
    var db, a := ReferredDatabase(), UnsetKeyAlteration();
    UnsetKeyPrepared();
    assert ConstraintNames(db, "author", Some(["id"]), IsUnique) == {0};
    assert ReferencesColumn(db.constraints[1], "author", "id") && !a.DropsForeignKey(db.constraints[1]);
  }
}
