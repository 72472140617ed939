/** The databases between the statements of an alteration, and what takes each to the next. */
module AlterFieldSteps {
  import opened Wrappers
  import opened SqlServer
  import opened Fields
  import opened AlterFieldSpec

  /** Every constraint in the set can be dropped with this template. */
  ghost predicate Droppable(db: Database, t: Name, ids: set<nat>, asIndex: bool) {
    forall id :: id in ids ==>
      && id in db.constraints
      && db.constraints[id].table == t
      && db.constraints[id].kind.Index? == asIndex
      && (db.constraints[id].kind.IsKey() ==> !Referenced(db, db.constraints[id]))
  }

  function ForeignKeysToDrop(db: Database, a: Alteration): set<nat> {
    if a.oldField.WantsForeignKey() then ConstraintNames(db, a.table, Some([a.oldField.column]), IsForeignKey) else {}
  }

  function UniquesToDrop(db: Database, a: Alteration): set<nat> {
    if a.RemovesUnique() then ConstraintNames(db, a.table, Some([a.oldField.column]), IsUnique) else {}
  }

  /** The foreign keys on the first n related columns. */
  function InboundBelow(db: Database, a: Alteration, n: nat): set<nat>
    requires n <= |a.Paired()|
  {
    set id | id in db.constraints
             && exists i :: 0 <= i < n && Matches(db.constraints[id], a.Paired()[i].table, Some([a.Paired()[i].field.column]), IsForeignKey)
  }

  lemma PairedSeconds(a: Alteration)
    ensures
      var rels := RelatedNonM2mObjects(a.oldRelated, a.newRelated);
      |rels| == |a.Paired()| && forall i :: 0 <= i < |rels| ==> rels[i].1 == a.Paired()[i]
  {
    RelatedPairs(a.oldRelated, a.newRelated);
  }

  lemma InboundStep(db: Database, a: Alteration, n: nat)
    requires n < |a.Paired()|
    ensures
      var r := a.Paired()[n];
      var names := ConstraintNames(Without(db, InboundBelow(db, a, n)), r.table, Some([r.field.column]), IsForeignKey);
      InboundBelow(db, a, n + 1) == InboundBelow(db, a, n) + names
  {
  }

  lemma WithoutTwice(db: Database, s: set<nat>, t: set<nat>)
    ensures Without(Without(db, s), t) == Without(db, s + t)
  {
    assert db.constraints - s - t == db.constraints - (s + t);
  }

  function InboundToDrop(db: Database, a: Alteration): set<nat> {
    set id | id in db.constraints && a.DropsInbound(db.constraints[id])
  }

  function IndexesToDrop(db: Database, a: Alteration): set<nat> {
    if a.RemovesIndex() then ConstraintNames(db, a.table, Some([a.oldField.column]), IsIndex) else {}
  }

  function ChecksToDrop(db: Database, a: Alteration): set<nat> {
    if a.RemovesCheck() then ConstraintNames(db, a.table, Some([a.oldField.column]), IsCheck) else {}
  }

  function FirstToDrop(db: Database, a: Alteration): set<nat> {
    set id | id in db.constraints && a.DropsFirst(db.constraints[id])
  }

  // The databases between the drops.
  function Drop1(db: Database, a: Alteration): Database { Without(db, ForeignKeysToDrop(db, a)) }

  function Drop2(db: Database, a: Alteration): Database { Without(Drop1(db, a), UniquesToDrop(Drop1(db, a), a)) }

  function Drop3(db: Database, a: Alteration): Database { Without(Drop2(db, a), InboundToDrop(Drop2(db, a), a)) }

  function Drop4(db: Database, a: Alteration): Database { Without(Drop3(db, a), IndexesToDrop(Drop3(db, a), a)) }

  function Drop5(db: Database, a: Alteration): Database { Without(Drop4(db, a), ChecksToDrop(Drop4(db, a), a)) }

  /** Five drops, each deciding by the catalog the previous one left, amount to one. */
  lemma DropsCompose(db: Database, a: Alteration)
    ensures Drop5(db, a) == Without(db, FirstToDrop(db, a))
  {
    assert Drop5(db, a).constraints == Without(db, FirstToDrop(db, a)).constraints;
  }

  lemma ForeignKeyDropPossible(db: Database, a: Alteration)
    requires Agrees(db, a.table, a.oldField)
    ensures a.oldField.WantsForeignKey() <==> ForeignKeysToDrop(db, a) != {}
    ensures a.oldField.WantsForeignKey() ==> |ForeignKeysToDrop(db, a)| == 1
  {
  }

  /** Some key in the set is referred to. */
  ghost predicate SomeReferenced(db: Database, ids: set<nat>) {
    exists id :: id in ids && id in db.constraints && Referenced(db, db.constraints[id])
  }

  ghost predicate NoForeignKeys(db: Database, ids: set<nat>) {
    forall id :: id in ids && id in db.constraints ==> !db.constraints[id].kind.ForeignKey?
  }

  function KeysAmong(db: Database, ids: set<nat>): set<nat> {
    set id | id in ids && id in db.constraints && db.constraints[id].kind.IsKey()
  }

  /** Dropping what is no foreign key takes no reference away. */
  lemma ReferencedWithout(db: Database, ids: set<nat>, key: Constraint)
    requires NoForeignKeys(db, ids)
    ensures Referenced(Without(db, ids), key) <==> Referenced(db, key)
  {
    if Referenced(db, key) {
      var id :| id in db.constraints && RefersTo(db.constraints[id], key);
      assert id in Without(db, ids).constraints;
    }
  }

  /** The keys of the old uniqueness can be dropped exactly when nothing but the column's own foreign key refers to them. */
  lemma UniqueDropOutcome(db: Database, a: Alteration)
    requires Agrees(db, a.table, a.oldField)
    ensures UniquesToDrop(Drop1(db, a), a) == UniquesToDrop(db, a)
    ensures if UniqueReferenced(db, a) then SomeReferenced(Drop1(db, a), UniquesToDrop(db, a))
            else Droppable(Drop1(db, a), a.table, UniquesToDrop(db, a), false)
  {
    var db1 := Drop1(db, a);
    assert UniquesToDrop(db1, a) == UniquesToDrop(db, a);
    if UniqueReferenced(db, a) {
      var fk :| fk in db.constraints && ReferencesColumn(db.constraints[fk], a.table, a.oldField.column)
                && !a.DropsForeignKey(db.constraints[fk]);
      var id :| id in ConstraintNames(db, a.table, Some([a.oldField.column]), IsUnique);
      assert fk in db1.constraints && RefersTo(db1.constraints[fk], db1.constraints[id]);
      assert id in UniquesToDrop(db, a) && Referenced(db1, db1.constraints[id]);
    } else {
      forall id | id in UniquesToDrop(db, a)
        ensures !Referenced(db1, db1.constraints[id])
      {
        forall fk | fk in db1.constraints
          ensures !RefersTo(db1.constraints[fk], db1.constraints[id])
        {
          assert !a.DropsForeignKey(db.constraints[fk]);
          assert !ReferencesColumn(db.constraints[fk], a.table, a.oldField.column);
        }
      }
    }
  }

  lemma IndexDropPossible(db: Database, a: Alteration)
    requires Agrees(db, a.table, a.oldField)
    ensures Droppable(Drop3(db, a), a.table, IndexesToDrop(Drop3(db, a), a), true)
  {
    if a.RemovesIndex() {
      forall id | id in IndexesToDrop(Drop3(db, a), a)
        ensures id in Drop3(db, a).constraints && Drop3(db, a).constraints[id].kind.Index?
      {
        assert id !in ConstraintNames(db, a.table, Some([a.oldField.column]), IsUnique);
      }
    }
  }

  lemma CheckDropPossible(db: Database, a: Alteration)
    requires Agrees(db, a.table, a.oldField)
    ensures a.RemovesCheck() ==> |ChecksToDrop(Drop4(db, a), a)| == 1
  {
    hide ForeignKeyAgrees, UniqueAgrees, ColumnAgrees;
    assert ChecksToDrop(Drop4(db, a), a) == ChecksToDrop(db, a);
  }

  // ---------- The effect of a script ----------

  function Run(db: Database, stmts: seq<Stmt>): Result<Database, Error>
    decreases stmts
  {
    if stmts == [] then
      Success(db)
    else
      var db1 :- Exec(db, stmts[0]);
      Run(db1, stmts[1..])
  }

  lemma {:induction false} RunConcat(db: Database, s1: seq<Stmt>, s2: seq<Stmt>)
    ensures Run(db, s1 + s2) == match Run(db, s1)
                                case Success(d) => Run(d, s2)
                                case Failure(e) => Failure(e)
    decreases s1
  {
    if s1 == [] {
      assert s1 + s2 == s2;
    } else {
      assert (s1 + s2)[1..] == s1[1..] + s2;
      if Exec(db, s1[0]).Success? {
        RunConcat(Exec(db, s1[0]).value, s1[1..], s2);
      }
    }
  }

  /** The base class's _alter_column_type_sql: one fragment and nothing to run afterwards. */
  function AlterColumnTypeSql(t: Name, f: Field): (Stmt, seq<Stmt>) {
    (AlterType(t, f.column, f.ty, f.auto), [])
  }

  function DefaultCell(f: Field): Cell {
    if f.effectiveDefault.Some? then f.effectiveDefault.value else Null
  }

  function TypeActions(a: Alteration): seq<Stmt> {
    if a.Retypes() then [AlterType(a.table, a.newField.column, a.newField.ty, a.newField.auto)] else []
  }

  function DefaultActions(a: Alteration): seq<Stmt> {
    if a.NeedsDatabaseDefault()
    then [AddConstraint(a.OnNewColumn(Default(a.newField.effectiveDefault.value)))]
    else []
  }

  function NullActions(a: Alteration): seq<Stmt> {
    if a.ChangesNull() then [AlterNull(a.table, a.newField.column, a.newField.ty, a.newField.nullable, a.newField.auto)] else []
  }

  // ---------- The column changes ----------

  ghost predicate ColumnFound(db: Database, a: Alteration) {
    && Valid(db)
    && db.HasColumn(a.table, a.oldField.column)
    && db.Column(a.table, a.oldField.column).ty == a.oldField.ty
    && db.Column(a.table, a.oldField.column).nullable == a.oldField.nullable
    && a.oldField.Sensible() && a.newField.Sensible()
    && DefaultsOn(db, a.table, a.oldField.column) == {}
  }

  /** The new name is free and no check holds the column. */
  ghost predicate NameFits(db: Database, a: Alteration)
    requires a.table in db.tables
  {
    && (a.Renames() ==>
          && a.newField.column !in db.tables[a.table].columns
          && (forall id :: id in db.constraints && db.constraints[id].kind.Check?
                           ==> !OnColumn(db.constraints[id], a.table, a.oldField.column)))
  }

  ghost predicate ColumnReady(db: Database, a: Alteration) {
    ColumnFound(db, a) && NameFits(db, a)
  }

  /** The server does not take the new type. */
  ghost predicate TypeRefused(db: Database, a: Alteration) {
    a.Retypes()
    && (a.newField.auto
        || (a.oldField.ty != a.newField.ty
            && exists id :: id in db.constraints && BlocksRetype(db.strict, db.constraints[id], a.table, a.oldField.column)))
  }

  ghost predicate ColumnAlterable(db: Database, a: Alteration) {
    ColumnReady(db, a) && !TypeRefused(db, a)
  }

  function FollowAll(a: Alteration, cs: map<nat, Constraint>): map<nat, Constraint> {
    map id | id in cs :: a.Follow(cs[id])
  }

  /** The column has its new shape, and a default constraint when the new default needs one. */
  function ColumnAltered(db: Database, a: Alteration): Database
    requires db.HasColumn(a.table, a.oldField.column)
  {
    var db1 := db.(
      tables := db.tables[a.table := a.AlteredTable(db.tables[a.table])],
      constraints := FollowAll(a, db.constraints));
    if a.NeedsDatabaseDefault() then WithConstraint(db1, a.OnNewColumn(Default(a.newField.effectiveDefault.value))) else db1
  }

  /** The database with the column under its new name. */
  function Renamed(db: Database, a: Alteration): Database
    requires db.HasColumn(a.table, a.oldField.column)
  {
    var t := db.tables[a.table];
    db.(
      tables := db.tables[a.table := t.(columns := (t.columns - {a.oldField.column})[a.newField.column := t.columns[a.oldField.column]])],
      constraints := FollowAll(a, db.constraints))
  }

  lemma RenameOutcome(db: Database, a: Alteration)
    ensures ColumnFound(db, a) && !NameFits(db, a) ==>
              a.Renames() && Exec(db, RenameColumn(a.table, a.oldField.column, a.newField.column)).Failure?
  {
  }

  lemma RenameEffect(db: Database, a: Alteration)
    requires ColumnReady(db, a)
    ensures a.Renames() ==>
              Exec(db, RenameColumn(a.table, a.oldField.column, a.newField.column)) == Success(Renamed(db, a))
    ensures !a.Renames() ==> Renamed(db, a) == db
  {
    var t := db.tables[a.table];
    if !a.Renames() {
      assert (t.columns - {a.oldField.column})[a.newField.column := t.columns[a.oldField.column]] == t.columns;
      assert FollowAll(a, db.constraints) == db.constraints;
    } else {
      assert FollowAll(a, db.constraints) == RenameInConstraints(db.constraints, a.table, a.oldField.column, a.newField.column);
    }
  }

  /** The column in the middle of the script: retyped, hence nullable, or untouched. */
  function MidColumn(a: Alteration, col: Column): Column {
    Column(a.newField.ty, if a.Retypes() then true else col.nullable, Retyped(col, a.newField.ty))
  }

  lemma TypeStep(db: Database, a: Alteration)
    requires db.HasColumn(a.table, a.newField.column)
    requires db.Column(a.table, a.newField.column).ty == a.oldField.ty
    requires a.oldField.ty != a.newField.ty ==>
               forall id :: id in db.constraints ==> !BlocksRetype(db.strict, db.constraints[id], a.table, a.newField.column)
    requires a.Retypes() ==> !a.newField.auto
    ensures Run(db, TypeActions(a))
         == Success(WithColumn(db, a.table, a.newField.column, MidColumn(a, db.Column(a.table, a.newField.column))))
  {
    var t := a.table;
    var c := a.newField.column;
    var mid := MidColumn(a, db.Column(t, c));
    if a.Retypes() {
      var s := AlterType(t, c, a.newField.ty, false);
      assert Exec(db, s) == Success(WithColumn(db, t, c, mid));
      assert [s][1..] == [];
    } else {
      assert db.tables[t].columns[c := mid] == db.tables[t].columns;
      assert WithColumn(db, t, c, mid) == db;
    }
  }

  lemma DefaultStep(db: Database, a: Alteration)
    requires db.HasColumn(a.table, a.newField.column)
    requires forall id :: id in db.constraints && db.constraints[id].kind.Default?
                          ==> !OnColumn(db.constraints[id], a.table, a.newField.column)
    ensures Run(db, DefaultActions(a))
         == Success(if a.NeedsDatabaseDefault()
                    then WithConstraint(db, a.OnNewColumn(Default(a.newField.effectiveDefault.value))) else db)
  {
    if a.NeedsDatabaseDefault() {
      var c := a.OnNewColumn(Default(a.newField.effectiveDefault.value));
      assert ExecAddConstraint(db, c) == Success(WithConstraint(db, c)) by {
        assert c.columns == [a.newField.column];
        assert forall n :: n in c.columns ==> n == a.newField.column;
      }
      assert [AddConstraint(c)][1..] == [];
    }
  }

  lemma NullStep(db: Database, a: Alteration)
    requires db.HasColumn(a.table, a.newField.column)
    requires db.Column(a.table, a.newField.column).ty == a.newField.ty
    requires a.ChangesNull() ==> !a.newField.auto
    ensures
      var col := db.Column(a.table, a.newField.column);
      var after := if a.ChangesNull() then Column(a.newField.ty, a.newField.nullable, col.cells) else col;
      Run(db, NullActions(a))
      == if a.ChangesNull() && !a.newField.nullable && Null in col.cells then Failure(NullViolation)
         else Success(WithColumn(db, a.table, a.newField.column, after))
  {
    var t := a.table;
    var c := a.newField.column;
    var col := db.Column(t, c);
    if a.ChangesNull() {
      assert NullActions(a)[1..] == [];
    } else {
      assert db.tables[t].columns[c := col] == db.tables[t].columns;
      assert WithColumn(db, t, c, col) == db;
    }
  }

  /** Constraints on the column before the rename are the ones on the new name afterwards. */
  lemma RenamedColumnConstraints(db: Database, a: Alteration, id: nat)
    requires ColumnReady(db, a) && id in db.constraints
    ensures
      var c := db.constraints[id];
      var c' := a.Follow(c);
      && (OnColumn(c', a.table, a.newField.column) <==> OnColumn(c, a.table, a.oldField.column))
      && (ReferencesColumn(c', a.table, a.newField.column) <==> ReferencesColumn(c, a.table, a.oldField.column))
      && c'.kind.Default? == c.kind.Default? && c'.kind.ForeignKey? == c.kind.ForeignKey?
      && (BlocksRetype(db.strict, c', a.table, a.newField.column) <==> BlocksRetype(db.strict, c, a.table, a.oldField.column))
  {
    var c := db.constraints[id];
    assert ValidConstraint(db, c);
    if a.Renames() {
      var c' := a.Follow(c);
      if OnColumn(c, a.table, a.oldField.column) {
        var k :| 0 <= k < |c.columns| && c.columns[k] == a.oldField.column;
        assert c'.columns[k] == a.newField.column;
      }
      if OnColumn(c', a.table, a.newField.column) {
        var k :| 0 <= k < |c'.columns| && c'.columns[k] == a.newField.column;
        assert c.columns[k] in c.columns;
        assert c.columns[k] == a.oldField.column;
      }
    }
  }

  /** The column retyped, and the default added when there is one. */
  function Defaulted(db: Database, a: Alteration, col0: Column): Database
    requires a.table in db.tables
  {
    var typed := WithColumn(db, a.table, a.newField.column, MidColumn(a, col0));
    if a.NeedsDatabaseDefault()
    then WithConstraint(typed, a.OnNewColumn(Default(a.newField.effectiveDefault.value))) else typed
  }

  lemma TypeAndDefaultEffect(db0: Database, db: Database, a: Alteration)
    requires ColumnAlterable(db0, a) && db == Renamed(db0, a)
    ensures Run(db, TypeActions(a) + DefaultActions(a)) == Success(Defaulted(db, a, db0.Column(a.table, a.oldField.column)))
  {
    var t, c := a.table, a.newField.column;
    var col0 := db0.Column(t, a.oldField.column);
    assert db.Column(t, c) == col0;
    forall id | id in db.constraints
      ensures a.oldField.ty != a.newField.ty ==> !BlocksRetype(db.strict, db.constraints[id], t, c)
      ensures db.constraints[id].kind.Default? ==> !OnColumn(db.constraints[id], t, c)
    {
      RenamedColumnConstraints(db0, a, id);
      NoDefaultOnColumn(db0, t, a.oldField.column, id);
    }
    TypeStep(db, a);
    DefaultStep(WithColumn(db, t, c, MidColumn(a, col0)), a);
    RunConcat(db, TypeActions(a), DefaultActions(a));
  }

  /** A type that is refused stops the script, whatever the column is called by then. */
  lemma RetypeStops(db0: Database, db: Database, a: Alteration)
    requires ColumnReady(db0, a) && TypeRefused(db0, a) && db == Renamed(db0, a)
    ensures TypeActions(a) != [] && Exec(db, TypeActions(a)[0]).Failure?
  {
    hide Valid;
    if !a.newField.auto {
      var id :| id in db0.constraints && BlocksRetype(db0.strict, db0.constraints[id], a.table, a.oldField.column);
      RenamedColumnConstraints(db0, a, id);
      assert id in db.constraints && BlocksRetype(db.strict, db.constraints[id], a.table, a.newField.column);
    }
  }

  lemma ActionsEffect(db0: Database, db: Database, a: Alteration)
    requires ColumnAlterable(db0, a) && db == Renamed(db0, a)
    ensures
      var outcome := if NullsRemain(db0, a) then Failure(NullViolation) else Success(ColumnAltered(db0, a));
      if !a.FourWay() then
        Run(db, TypeActions(a) + DefaultActions(a) + NullActions(a)) == outcome
      else
        && Run(db, TypeActions(a) + DefaultActions(a)).Success?
        && var d1 := Run(db, TypeActions(a) + DefaultActions(a)).value;
        && Exec(d1, FillNulls(a.table, a.newField.column, DefaultCell(a.newField))).Success?
        && var d2 := Exec(d1, FillNulls(a.table, a.newField.column, DefaultCell(a.newField))).value;
        && Run(d2, NullActions(a)) == outcome
  {
    hide TypeActions, DefaultActions, NullActions;
    var t, c := a.table, a.newField.column;
    var col0 := db0.Column(t, a.oldField.column);
    TypeAndDefaultEffect(db0, db, a);
    var defaulted := Defaulted(db, a, col0);
    if a.FourWay() {
      FillEffect(defaulted, a, col0);
      var filled := ExecFillNulls(defaulted, t, c, DefaultCell(a.newField)).value;
      WithColumnTwice(db, t, c, MidColumn(a, col0), filled.Column(t, c));
      NullStep(filled, a);
      FinalColumn(db0, a, filled);
    } else {
      RunConcat(db, TypeActions(a) + DefaultActions(a), NullActions(a));
      NullStep(defaulted, a);
      FinalColumn(db0, a, defaulted);
    }
  }

  lemma WithColumnTwice(db: Database, t: Name, c: Name, first: Column, second: Column)
    requires t in db.tables
    ensures WithColumn(WithColumn(db, t, c, first), t, c, second) == WithColumn(db, t, c, second)
  {
    assert db.tables[t].columns[c := first][c := second] == db.tables[t].columns[c := second];
    assert WithColumn(WithColumn(db, t, c, first), t, c, second).tables == WithColumn(db, t, c, second).tables;
  }

  lemma NoDefaultOnColumn(db: Database, t: Name, c: Name, id: nat)
    requires Valid(db) && id in db.constraints && DefaultsOn(db, t, c) == {}
    ensures db.constraints[id].kind.Default? ==> !OnColumn(db.constraints[id], t, c)
  {
    var k := db.constraints[id];
    assert ValidConstraint(db, k);
    if k.kind.Default? {
      assert k.columns == [k.columns[0]];
      assert IsDefaultOn(k, t, c) ==> id in DefaultsOn(db, t, c);
    }
  }

  lemma FillEffect(db: Database, a: Alteration, col0: Column)
    requires a.FourWay() && db.HasColumn(a.table, a.newField.column)
    requires db.Column(a.table, a.newField.column) == MidColumn(a, col0)
    ensures ExecFillNulls(db, a.table, a.newField.column, DefaultCell(a.newField)).Success?
    ensures ExecFillNulls(db, a.table, a.newField.column, DefaultCell(a.newField)).value
         == WithColumn(db, a.table, a.newField.column, MidColumn(a, col0).(cells := a.AlteredCells(col0)))
  {
    var cells := Retyped(col0, a.newField.ty);
    if a.newField.effectiveDefault.None? {
      assert FillCells(Null, cells) == cells;
    }
  }

  /** Whichever way the column got there, the null step finishes it. */
  lemma FinalColumn(db0: Database, a: Alteration, db: Database)
    requires ColumnAlterable(db0, a)
    requires db.HasColumn(a.table, a.newField.column)
    requires
      var col0 := db0.Column(a.table, a.oldField.column);
      db.Column(a.table, a.newField.column) == MidColumn(a, col0).(cells := a.AlteredCells(col0))
    requires
      var base := WithColumn(Renamed(db0, a), a.table, a.newField.column, db.Column(a.table, a.newField.column));
      db == if a.NeedsDatabaseDefault()
            then WithConstraint(base, a.OnNewColumn(Default(a.newField.effectiveDefault.value))) else base
    ensures
      var col := db.Column(a.table, a.newField.column);
      var after := if a.ChangesNull() then Column(a.newField.ty, a.newField.nullable, col.cells) else col;
      && (NullsRemain(db0, a) <==> a.ChangesNull() && !a.newField.nullable && Null in col.cells)
      && WithColumn(db, a.table, a.newField.column, after) == ColumnAltered(db0, a)
  {
    var t, c := a.table, a.newField.column;
    var col0 := db0.Column(t, a.oldField.column);
    var col := db.Column(t, c);
    assert ValidColumn(col0, db0.tables[t].rows);
    var after := if a.ChangesNull() then Column(a.newField.ty, a.newField.nullable, col.cells) else col;
    assert after == a.AlteredColumn(col0);
    assert db.tables[t].columns[c := after] == a.AlteredTable(db0.tables[t]).columns;
    assert WithColumn(db, t, c, after).tables == ColumnAltered(db0, a).tables;
  }

  // ---------- Adding constraints ----------

  function WithAll(db: Database, cs: seq<Constraint>): Database {
    db.(constraints := db.constraints + Numbered(cs, db.next), next := db.next + |cs|)
  }

  function AddIf(condition: bool, db: Database, c: Constraint): Database {
    if condition then WithConstraint(db, c) else db
  }

  lemma WithAllNothing(db: Database)
    ensures WithAll(db, []) == db
  {
    hide Numbered;
    assert db.constraints + Numbered([], db.next) == db.constraints;
  }

  lemma WithAllSnoc(db: Database, cs: seq<Constraint>, c: Constraint)
    ensures WithConstraint(WithAll(db, cs), c) == WithAll(db, cs + [c])
  {
    hide Numbered;
    assert (cs + [c])[..|cs|] == cs;
    assert (db.constraints + Numbered(cs, db.next))[db.next + |cs| := c] == db.constraints + Numbered(cs + [c], db.next);
  }

  lemma WithAllCons(db: Database, c: Constraint, cs: seq<Constraint>)
    ensures WithAll(WithConstraint(db, c), cs) == WithAll(db, [c] + cs)
  {
    hide Numbered;
    var one := db.constraints[db.next := c] + Numbered(cs, db.next + 1);
    var all := db.constraints + Numbered([c] + cs, db.next);
    assert one.Keys == all.Keys;
    assert one == all;
  }

  lemma WithAllTwice(db: Database, cs: seq<Constraint>, cs': seq<Constraint>)
    ensures WithAll(WithAll(db, cs), cs') == WithAll(db, cs + cs')
  {
    hide Numbered;
    var first, second, both := Numbered(cs, db.next), Numbered(cs', db.next + |cs|), Numbered(cs + cs', db.next);
    assert both.Keys == (first + second).Keys;
    assert both == first + second;
    assert db.constraints + first + second == db.constraints + (first + second);
  }

  lemma SimpleConstraintLegal(db: Database, a: Alteration, k: Kind)
    requires k.Unique? || k.Index? || k.Check?
    ensures db.HasColumn(a.table, a.newField.column) ==>
              ExecAddConstraint(db, a.OnNewColumn(k)) == Success(WithConstraint(db, a.OnNewColumn(k)))
  {
    assert forall n :: n in a.OnNewColumn(k).columns ==> n == a.newField.column;
  }

  // ---------- Moving the primary key ----------

  ghost predicate KeyMovable(db: Database, a: Alteration, strict: bool) {
    a.BecomesPrimaryKey() ==>
      && Droppable(db, a.table, ConstraintNames(db, a.table, None, IsPrimaryKey), false)
      && (strict ==> |ConstraintNames(db, a.table, None, IsPrimaryKey)| == 1)
      && db.HasColumn(a.table, a.newField.column)
      && !db.Column(a.table, a.newField.column).nullable
  }

  function KeyMoved(db: Database, a: Alteration): Database {
    if a.BecomesPrimaryKey()
    then WithConstraint(Without(db, ConstraintNames(db, a.table, None, IsPrimaryKey)), a.OnNewColumn(PrimaryKey))
    else db
  }

  lemma KeyStays(db: Database, a: Alteration, strict: bool)
    ensures !a.BecomesPrimaryKey() ==> KeyMovable(db, a, strict) && KeyMoved(db, a) == db
  {
  }

  lemma NewKeyLegal(db: Database, a: Alteration)
    requires ConstraintNames(db, a.table, None, IsPrimaryKey) == {}
    ensures db.HasColumn(a.table, a.newField.column) && !db.Column(a.table, a.newField.column).nullable ==>
              ExecAddConstraint(db, a.OnNewColumn(PrimaryKey)) == Success(WithConstraint(db, a.OnNewColumn(PrimaryKey)))
  {
    var c := a.OnNewColumn(PrimaryKey);
    assert forall n :: n in c.columns ==> n == a.newField.column;
    forall id | id in db.constraints
      ensures !(db.constraints[id].table == c.table && db.constraints[id].kind.PrimaryKey?)
    {
      assert id !in ConstraintNames(db, a.table, None, IsPrimaryKey);
    }
  }

  // ---------- Retyping the related columns ----------

  ghost predicate RelatedRetypable(db: Database, rs: seq<RelatedObject>) {
    && (forall i :: 0 <= i < |rs| ==> RelatedColumnRetypable(db, rs[i]))
    && DistinctColumns(rs)
  }

  ghost predicate RelatedColumnRetypable(db: Database, r: RelatedObject) {
    && db.HasColumn(r.table, r.field.column)
    && !r.field.auto
    && (r.field.ty != db.Column(r.table, r.field.column).ty ==>
          forall id :: id in db.constraints ==> !BlocksRetype(db.strict, db.constraints[id], r.table, r.field.column))
  }

  function RetypeScript(rs: seq<RelatedObject>): seq<Stmt> {
    if rs == [] then []
    else [AlterType(rs[0].table, rs[0].field.column, rs[0].field.ty, rs[0].field.auto)] + RetypeScript(rs[1..])
  }

  ghost predicate DistinctColumns(rs: seq<RelatedObject>) {
    forall i, j :: 0 <= i < j < |rs| ==> (rs[i].table, rs[i].field.column) != (rs[j].table, rs[j].field.column)
  }

  lemma RetypeKeepsOther(db: Database, first: RelatedObject, r: RelatedObject)
    requires RelatedColumnRetypable(db, first) && (first.table, first.field.column) != (r.table, r.field.column)
    ensures
      var db1 := db.(tables := RetypeOne(db.tables, first));
      RelatedColumnRetypable(db1, r) <==> RelatedColumnRetypable(db, r)
  {
  }

  /** The run fails at the first column that does not take its type. */
  lemma {:induction false} RetypeScriptFails(db: Database, rs: seq<RelatedObject>)
    requires DistinctColumns(rs) && exists i :: 0 <= i < |rs| && !RelatedColumnRetypable(db, rs[i])
    ensures Run(db, RetypeScript(rs)).Failure?
    decreases |rs|
  {
    var i :| 0 <= i < |rs| && !RelatedColumnRetypable(db, rs[i]);
    var r := rs[0];
    assert RetypeScript(rs)[1..] == RetypeScript(rs[1..]);
    if RelatedColumnRetypable(db, r) {
      var db1 := db.(tables := RetypeOne(db.tables, r));
      assert Exec(db, RetypeScript(rs)[0]) == Success(db1);
      RetypeKeepsOther(db, r, rs[i]);
      assert rs[1..][i - 1] == rs[i];
      RetypeScriptFails(db1, rs[1..]);
    }
  }

  lemma {:induction false} RetypeScriptEffect(db: Database, rs: seq<RelatedObject>)
    requires RelatedRetypable(db, rs)
    ensures Run(db, RetypeScript(rs)) == Success(db.(tables := RetypeRelated(db.tables, rs)))
    decreases |rs|
  {
    if rs != [] {
      var r := rs[0];
      assert RelatedColumnRetypable(db, r);
      var db1 := db.(tables := RetypeOne(db.tables, r));
      assert Exec(db, RetypeScript(rs)[0]) == Success(db1);
      forall i | 0 <= i < |rs[1..]|
        ensures RelatedColumnRetypable(db1, rs[1..][i])
      {
        assert RelatedColumnRetypable(db, rs[i + 1]);
        assert (rs[0].table, rs[0].field.column) != (rs[i + 1].table, rs[i + 1].field.column);
      }
      RetypeScriptEffect(db1, rs[1..]);
      assert RetypeScript(rs)[1..] == RetypeScript(rs[1..]);
    }
  }

  // ---------- Creating foreign keys ----------

  function AddScript(cs: seq<Constraint>): seq<Stmt> {
    if cs == [] then [] else [AddConstraint(cs[0])] + AddScript(cs[1..])
  }

  /** Keys are the same in both databases. */
  ghost predicate SameKeys(db: Database, db': Database) {
    forall t, c :: KeyExists(db, t, c) <==> KeyExists(db', t, c)
  }

  lemma LegalAlike(db: Database, db': Database, fk: Constraint)
    requires db.tables == db'.tables && SameKeys(db, db')
    ensures ForeignKeyLegal(db, fk) <==> ForeignKeyLegal(db', fk)
  {
  }

  /** What is no key can be added without making or taking one. */
  lemma KeysUnchanged(db: Database, c: Constraint)
    requires !c.kind.IsKey() && db.next !in db.constraints
    ensures SameKeys(db, WithConstraint(db, c))
  {
    var db1 := WithConstraint(db, c);
    forall t, col
      ensures KeyExists(db, t, col) <==> KeyExists(db1, t, col)
    {
      if KeyExists(db, t, col) {
        var id :| id in db.constraints && IsKeyOn(db.constraints[id], t, col);
        assert id in db1.constraints && IsKeyOn(db1.constraints[id], t, col);
      }
      if KeyExists(db1, t, col) {
        var id :| id in db1.constraints && IsKeyOn(db1.constraints[id], t, col);
        assert id in db.constraints && IsKeyOn(db.constraints[id], t, col);
      }
    }
  }

  lemma ForeignKeyStaysLegal(db: Database, c: Constraint, fk: Constraint)
    requires Valid(db) && !c.kind.IsKey()
    ensures ForeignKeyLegal(WithConstraint(db, c), fk) <==> ForeignKeyLegal(db, fk)
  {
    KeysUnchanged(db, c);
    LegalAlike(db, WithConstraint(db, c), fk);
  }

  /** A foreign key, or what a relation without a target comes to, which no server takes. */
  predicate IsRelation(c: Constraint) { c.kind.ForeignKey? || (c.kind.Index? && c.columns == []) }

  /** The run fails at the first one that is not legal. */
  lemma {:induction false} AddScriptFails(db: Database, cs: seq<Constraint>)
    requires Valid(db) && !ForeignKeysLegal(db, cs) && forall i :: 0 <= i < |cs| ==> IsRelation(cs[i])
    ensures Run(db, AddScript(cs)).Failure?
    decreases |cs|
  {
    var i :| 0 <= i < |cs| && !ForeignKeyLegal(db, cs[i]);
    var c := cs[0];
    assert AddScript(cs)[1..] == AddScript(cs[1..]);
    assert IsRelation(c);
    if ForeignKeyLegal(db, c) {
      AddConstraintKeepsValid(db, c);
      ForeignKeyStaysLegal(db, c, cs[i]);
      assert cs[1..][i - 1] == cs[i];
      AddScriptFails(WithConstraint(db, c), cs[1..]);
    }
  }

  /** Adding constraints takes no key away, so legal foreign keys can be added one after the other. */
  lemma {:induction false} AddScriptEffect(db: Database, cs: seq<Constraint>)
    requires Valid(db) && ForeignKeysLegal(db, cs)
    ensures Run(db, AddScript(cs)) == Success(WithAll(db, cs))
    decreases |cs|
  {
    if cs == [] {
      WithAllNothing(db);
    } else {
      var c := cs[0];
      var db1 := WithConstraint(db, c);
      assert ForeignKeyLegal(db, c);
      assert Exec(db, AddScript(cs)[0]) == Success(db1);
      AddConstraintKeepsValid(db, c);
      forall i | 0 <= i < |cs[1..]|
        ensures ForeignKeyLegal(db1, cs[1..][i])
      {
        assert ForeignKeyLegal(db, cs[i + 1]);
        ForeignKeyStaysLegal(db, c, cs[i + 1]);
      }
      AddScriptEffect(db1, cs[1..]);
      assert AddScript(cs)[1..] == AddScript(cs[1..]);
      WithAllCons(db, c, cs[1..]);
      assert [c] + cs[1..] == cs;
    }
  }

  lemma RebuildHead(objs: seq<RelatedObject>, i: nat)
    requires i < |objs|
    ensures
      var script := AddScript(RelatedForeignKeys(NonManyToMany(objs[i..])));
      var rest := AddScript(RelatedForeignKeys(NonManyToMany(objs[i + 1..])));
      script == if objs[i].manyToMany then rest else [AddConstraint(RelatedForeignKey(objs[i]))] + rest
  {
    var now, later := objs[i..], objs[i + 1..];
    assert now[0] == objs[i] && now[1..] == later;
    if objs[i].manyToMany {
      assert NonManyToMany(now) == NonManyToMany(later);
    } else {
      assert NonManyToMany(now) == [objs[i]] + NonManyToMany(later);
      assert RelatedForeignKeys(NonManyToMany(now))[1..] == RelatedForeignKeys(NonManyToMany(later));
    }
  }
}
