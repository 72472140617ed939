/** What adding a field, with its deferred statements, and removing a field do to the database. */
module AddRemoveSpec {
  import opened Wrappers
  import opened SqlServer
  import opened Fields
  import opened AlterFieldSpec
  import opened AlterFieldSteps

  // ---------- Adding ----------

  function InlineKinds(f: Field): seq<Kind> {
    (if f.primaryKey then [PrimaryKey] else if f.uniqueFlag then [Unique] else [])
    + (if f.check.Some? then [Check(f.check.value)] else [])
  }

  function AddStatement(t: Name, f: Field): Stmt {
    AddColumn(t, f.column, f.ty, f.nullable, f.effectiveDefault, InlineKinds(f))
  }

  /** Index and foreign key wait until the end of the migration. */
  function DeferredStatements(t: Name, f: Field): seq<Stmt> {
    (if f.dbIndex && !f.Unique() then [AddConstraint(Constraint(t, [f.column], Index))] else [])
    + (if f.WantsForeignKey()
       then [AddConstraint(Constraint(t, [f.column], ForeignKey(f.rel.value.table, f.rel.value.column)))]
       else [])
  }

  /** The database once the column was added and its default dropped. */
  function Added(db: Database, t: Name, f: Field): Result<Database, Error> {
    var d :- Exec(db, AddStatement(t, f));
    Success(Without(d, DefaultsOn(d, t, f.column)))
  }

  // ---------- Removing ----------

  /** The kinds of constraints that removing a field drops, in order, and whether DROP INDEX is used. */
  function RemovalOrder(): seq<(Flag, bool)> {
    [(IsForeignKey, false), (IsPrimaryKey, false), (IsIndex, true), (IsUnique, false), (IsCheck, false)]
  }

  predicate MatchedBelow(c: Constraint, t: Name, col: Name, n: nat)
    requires n <= |RemovalOrder()|
  {
    exists k :: 0 <= k < n && Matches(c, t, Some([col]), RemovalOrder()[k].0)
  }

  /** The constraints that the first n kinds of drops take away. */
  function OwnBelow(db: Database, t: Name, col: Name, n: nat): set<nat>
    requires n <= |RemovalOrder()|
  {
    set id | id in db.constraints && MatchedBelow(db.constraints[id], t, col, n)
  }

  predicate IsUniqueConstraintOn(c: Constraint, t: Name, col: Name) {
    c.table == t && c.columns == [col] && c.kind.Unique?
  }

  ghost predicate HasUniqueConstraint(db: Database, t: Name, col: Name) {
    exists id :: id in db.constraints && IsUniqueConstraintOn(db.constraints[id], t, col)
  }

  /**
   Nothing is in the way of removing the column: whatever is on it, or refers to it, is among the constraints
   that are dropped before, and DROP INDEX meets no unique constraint.
   */
  ghost predicate Removable(db: Database, t: Name, col: Name) {
    && db.HasColumn(t, col)
    && !HasUniqueConstraint(db, t, col)
    && forall id :: id in db.constraints
                    && (OnColumn(db.constraints[id], t, col) || ReferencesColumn(db.constraints[id], t, col))
                    ==> MatchedBelow(db.constraints[id], t, col, 5)
  }

  function WithoutColumn(db: Database, t: Name, col: Name): Database
    requires t in db.tables
  {
    db.(tables := db.tables[t := db.tables[t].(columns := db.tables[t].columns - {col})])
  }

  function Removed(db: Database, t: Name, col: Name): Database
    requires t in db.tables
  {
    WithoutColumn(Without(db, OwnBelow(db, t, col, 5)), t, col)
  }

  lemma OwnStep(db: Database, t: Name, col: Name, n: nat)
    requires n < |RemovalOrder()|
    ensures
      var names := ConstraintNames(Without(db, OwnBelow(db, t, col, n)), t, Some([col]), RemovalOrder()[n].0);
      OwnBelow(db, t, col, n + 1) == OwnBelow(db, t, col, n) + names
  {
  }

  /** At each kind of drop the template fits the constraints of a removable column. */
  lemma OwnDroppable(db: Database, t: Name, col: Name, n: nat)
    requires Removable(db, t, col) && n < |RemovalOrder()|
    ensures
      var db1 := Without(db, OwnBelow(db, t, col, n));
      Droppable(db1, t, ConstraintNames(db1, t, Some([col]), RemovalOrder()[n].0), RemovalOrder()[n].1)
  {
    var db1 := Without(db, OwnBelow(db, t, col, n));
    forall id | id in ConstraintNames(db1, t, Some([col]), RemovalOrder()[n].0)
      ensures id in db1.constraints && db1.constraints[id].kind.Index? == RemovalOrder()[n].1
      ensures n != 2 && db1.constraints[id].kind.IsKey() ==> !Referenced(db1, db1.constraints[id])
    {
      OwnNameFacts(db, t, col, n, id);
    }
  }

  lemma OwnNameFacts(db: Database, t: Name, col: Name, n: nat, id: nat)
    requires Removable(db, t, col) && n < |RemovalOrder()|
    requires id in ConstraintNames(Without(db, OwnBelow(db, t, col, n)), t, Some([col]), RemovalOrder()[n].0)
    ensures
      var db1 := Without(db, OwnBelow(db, t, col, n));
      var c := db.constraints[id];
      && id in db1.constraints && db1.constraints[id] == c
      && (c.kind.Index? <==> n == 2)
      && (c.kind.IsKey() ==> !Referenced(db1, c))
  {
    var db1 := Without(db, OwnBelow(db, t, col, n));
    var c := db.constraints[id];
    assert RemovalOrder()[0].0 == IsForeignKey && RemovalOrder()[1].0 == IsPrimaryKey && RemovalOrder()[2].0 == IsIndex;
    assert !MatchedBelow(c, t, col, n);
    assert c.kind.Unique? ==> IsUniqueConstraintOn(c, t, col);
    if n >= 1 {
      NoneRefers(db, t, col, n);
      assert !Matches(c, t, Some([col]), RemovalOrder()[0].0);
    }
    if n >= 2 { assert !Matches(c, t, Some([col]), RemovalOrder()[1].0); }
    if n >= 3 { assert !Matches(c, t, Some([col]), RemovalOrder()[2].0); }
  }

  /** Once the foreign keys are gone nothing refers to a removable column. */
  lemma NoneRefers(db: Database, t: Name, col: Name, n: nat)
    requires Removable(db, t, col) && 1 <= n < |RemovalOrder()|
    ensures
      var db1 := Without(db, OwnBelow(db, t, col, n));
      forall fk :: fk in db1.constraints ==> !ReferencesColumn(db1.constraints[fk], t, col)
  {
    var db1 := Without(db, OwnBelow(db, t, col, n));
    forall fk | fk in db1.constraints
      ensures !ReferencesColumn(db1.constraints[fk], t, col)
    {
      var c := db.constraints[fk];
      assert !MatchedBelow(c, t, col, n);
      assert !Matches(c, t, Some([col]), RemovalOrder()[0].0);
    }
  }

  /** After all drops the column can go exactly when everything on it, or referring to it, was matched. */
  lemma ColumnIsFree(db: Database, t: Name, col: Name)
    requires !HasUniqueConstraint(db, t, col)
    ensures Removable(db, t, col) ==>
              ExecDropColumn(Without(db, OwnBelow(db, t, col, 5)), t, col) == Success(Removed(db, t, col))
    ensures !Removable(db, t, col) ==> ExecDropColumn(Without(db, OwnBelow(db, t, col, 5)), t, col).Failure?
  {
    var db1 := Without(db, OwnBelow(db, t, col, 5));
    if db.HasColumn(t, col) && !Removable(db, t, col) {
      var id :| id in db.constraints
                && (OnColumn(db.constraints[id], t, col) || ReferencesColumn(db.constraints[id], t, col))
                && !MatchedBelow(db.constraints[id], t, col, 5);
      assert id in db1.constraints;
    }
  }

  lemma RemovalStep(start: Database, db: Database, t: Name, col: Name, n: nat, names: set<nat>, passed: bool, db': Database)
    requires n < |RemovalOrder()|
    requires db == Without(start, OwnBelow(start, t, col, n))
    requires names == ConstraintNames(db, t, Some([col]), RemovalOrder()[n].0)
    requires Droppable(db, t, names, RemovalOrder()[n].1) ==> passed
    requires passed ==> db' == Without(db, names)
    requires passed ==> forall id :: id in names ==> db.constraints[id].kind.Index? == RemovalOrder()[n].1
    ensures Removable(start, t, col) ==> passed
    ensures passed ==> db' == Without(start, OwnBelow(start, t, col, n + 1))
    ensures passed && n == 2 ==> !HasUniqueConstraint(start, t, col)
  {
    if Removable(start, t, col) {
      OwnDroppable(start, t, col, n);
    }
    OwnStep(start, t, col, n);
    WithoutTwice(start, OwnBelow(start, t, col, n), names);
    if n == 2 && HasUniqueConstraint(start, t, col) {
      UniqueIsMet(start, t, col);
    }
  }

  /** A unique constraint is still there when the indexes are looked for. */
  lemma UniqueIsMet(start: Database, t: Name, col: Name)
    requires HasUniqueConstraint(start, t, col)
    ensures
      var db := Without(start, OwnBelow(start, t, col, 2));
      exists id :: id in ConstraintNames(db, t, Some([col]), RemovalOrder()[2].0) && !db.constraints[id].kind.Index?
  {
    var id :| id in start.constraints && IsUniqueConstraintOn(start.constraints[id], t, col);
    assert RemovalOrder()[0].0 == IsForeignKey && RemovalOrder()[1].0 == IsPrimaryKey;
    assert !MatchedBelow(start.constraints[id], t, col, 2);
    assert id in ConstraintNames(Without(start, OwnBelow(start, t, col, 2)), t, Some([col]), RemovalOrder()[2].0);
  }

  // ---------- Adding and then removing ----------

  function OnColumnAll(t: Name, c: Name, kinds: seq<Kind>): (cs: seq<Constraint>)
    ensures |cs| == |kinds|
  {
    seq(|kinds|, i requires 0 <= i < |kinds| => Constraint(t, [c], kinds[i]))
  }

  lemma {:induction false} AddInlineForm(db: Database, t: Name, c: Name, kinds: seq<Kind>)
    requires AddInline(db, t, c, kinds).Success?
    ensures AddInline(db, t, c, kinds).value == WithAll(db, OnColumnAll(t, c, kinds))
    decreases |kinds|
  {
    if kinds == [] {
      WithAllNothing(db);
    } else {
      var k := Constraint(t, [c], kinds[0]);
      AddInlineForm(WithConstraint(db, k), t, c, kinds[1..]);
      WithAllCons(db, k, OnColumnAll(t, c, kinds[1..]));
      assert [k] + OnColumnAll(t, c, kinds[1..]) == OnColumnAll(t, c, kinds);
    }
  }

  /** The second database has one more column, and more constraints on that column alone. */
  ghost predicate Grown(db: Database, d: Database, t: Name, c: Name) {
    && t in db.tables && c !in db.tables[t].columns
    && d.HasColumn(t, c) && d.strict == db.strict
    && WithoutColumn(d, t, c).tables == db.tables
    && db.next <= d.next
    && (forall id :: id in d.constraints ==> id < d.next)
    && (forall id :: id in db.constraints ==> id in d.constraints && d.constraints[id] == db.constraints[id])
    && (forall id :: id in d.constraints && id !in db.constraints ==>
          d.constraints[id].table == t && d.constraints[id].columns == [c])
  }

  function AllKinds(f: Field): seq<Kind> {
    (if f.effectiveDefault.Some? then [Default(f.effectiveDefault.value)] else []) + InlineKinds(f)
  }

  function AddedColumn(db: Database, t: Name, f: Field): Database
    requires t in db.tables
  {
    var cell := if !f.nullable && f.effectiveDefault.Some? then f.effectiveDefault.value else Null;
    WithColumn(db, t, f.column, Column(f.ty, f.nullable, seq(db.tables[t].rows, _ => cell)))
  }

  lemma AddForm(db: Database, t: Name, f: Field)
    requires Exec(db, AddStatement(t, f)).Success?
    ensures t in db.tables && f.column !in db.tables[t].columns
    ensures Exec(db, AddStatement(t, f)).value == WithAll(AddedColumn(db, t, f), OnColumnAll(t, f.column, AllKinds(f)))
  {
    AddInlineForm(AddedColumn(db, t, f), t, f.column, AllKinds(f));
  }

  lemma AddGrows(db: Database, t: Name, f: Field)
    requires Valid(db) && Exec(db, AddStatement(t, f)).Success?
    ensures Grown(db, Exec(db, AddStatement(t, f)).value, t, f.column)
  {
    hide Exec, AllKinds, AddedColumn;
    AddForm(db, t, f);
    AddedColumnGrows(db, t, f);
    AddAllGrows(db, AddedColumn(db, t, f), t, f.column, AllKinds(f));
  }

  lemma AddedColumnGrows(db: Database, t: Name, f: Field)
    requires Valid(db) && t in db.tables && f.column !in db.tables[t].columns
    ensures Grown(db, AddedColumn(db, t, f), t, f.column)
  {
    var d := AddedColumn(db, t, f);
    assert d.tables[t].columns - {f.column} == db.tables[t].columns;
    assert WithoutColumn(d, t, f.column).tables == db.tables;
  }

  lemma AddAllGrows(db: Database, d: Database, t: Name, c: Name, kinds: seq<Kind>)
    requires Grown(db, d, t, c)
    ensures Grown(db, WithAll(d, OnColumnAll(t, c, kinds)), t, c)
  {
    hide Numbered;
    var d' := WithAll(d, OnColumnAll(t, c, kinds));
    forall id | id in d'.constraints && id !in db.constraints
      ensures d'.constraints[id].table == t && d'.constraints[id].columns == [c]
    {
      if id >= d.next {
        assert d'.constraints[id] == OnColumnAll(t, c, kinds)[id - d.next];
      }
    }
  }

  lemma OldConstraintElsewhere(db: Database, t: Name, c: Name, id: nat)
    requires Valid(db) && t in db.tables && c !in db.tables[t].columns && id in db.constraints
    ensures !OnColumn(db.constraints[id], t, c) && !ReferencesColumn(db.constraints[id], t, c)
    ensures !IsDefaultOn(db.constraints[id], t, c)
  {
    assert ValidConstraint(db, db.constraints[id]);
    assert c in [c];
  }

  /** The constraints on a new column are those that came with it. */
  lemma AddedKind(db: Database, t: Name, f: Field, id: nat)
    requires Valid(db) && Exec(db, AddStatement(t, f)).Success?
    requires
      var d := Exec(db, AddStatement(t, f)).value;
      id in d.constraints && OnColumn(d.constraints[id], t, f.column)
    ensures
      var c := Exec(db, AddStatement(t, f)).value.constraints[id];
      id !in db.constraints && c.kind in AllKinds(f)
  {
    hide Exec, AllKinds;
    AddForm(db, t, f);
    if id in db.constraints {
      OldConstraintElsewhere(db, t, f.column, id);
    } else {
      assert AllKinds(f)[id - db.next] in AllKinds(f);
    }
  }

  lemma InlineKindPresent(db: Database, t: Name, f: Field, k: Kind) returns (id: nat)
    requires Exec(db, AddStatement(t, f)).Success? && k in AllKinds(f)
    ensures
      var d := Exec(db, AddStatement(t, f)).value;
      id in d.constraints && d.constraints[id] == Constraint(t, [f.column], k)
  {
    hide Exec, AllKinds;
    AddForm(db, t, f);
    var i :| 0 <= i < |AllKinds(f)| && AllKinds(f)[i] == k;
    id := db.next + i;
  }

  lemma NoDefaultAdded(db: Database, t: Name, f: Field)
    requires Valid(db) && Exec(db, AddStatement(t, f)).Success? && f.effectiveDefault.None?
    ensures
      var d := Exec(db, AddStatement(t, f)).value;
      Without(d, DefaultsOn(d, t, f.column)) == d
  {
    var d := Exec(db, AddStatement(t, f)).value;
    forall id | id in d.constraints
      ensures !IsDefaultOn(d.constraints[id], t, f.column)
    {
      if OnColumn(d.constraints[id], t, f.column) {
        AddedKind(db, t, f, id);
      }
    }
    assert DefaultsOn(d, t, f.column) == {};
    assert Without(d, {}) == d;
  }

  /** After the add: grown, without default, with a unique constraint exactly when the field asks for one. */
  ghost predicate JustAdded(db: Database, d: Database, t: Name, f: Field) {
    && Grown(db, d, t, f.column)
    && (forall id :: id in d.constraints && id !in db.constraints ==> !d.constraints[id].kind.Default?)
    && (HasUniqueConstraint(d, t, f.column) <==> f.uniqueFlag && !f.primaryKey)
  }

  lemma AddedIsJustAdded(db: Database, t: Name, f: Field)
    requires Valid(db) && Added(db, t, f).Success?
    ensures JustAdded(db, Added(db, t, f).value, t, f)
  {
    hide Exec;
    var d := Exec(db, AddStatement(t, f)).value;
    var d1 := Added(db, t, f).value;
    AddGrows(db, t, f);
    forall id | id in db.constraints
      ensures id !in DefaultsOn(d, t, f.column)
    {
      OldConstraintElsewhere(db, t, f.column, id);
    }
    forall id | id in d1.constraints && id !in db.constraints
      ensures !d1.constraints[id].kind.Default?
    {
      assert id !in DefaultsOn(d, t, f.column);
    }
    UniqueAdded(db, t, f);
  }

  lemma UniqueAdded(db: Database, t: Name, f: Field)
    requires Valid(db) && Added(db, t, f).Success?
    ensures HasUniqueConstraint(Added(db, t, f).value, t, f.column) <==> f.uniqueFlag && !f.primaryKey
  {
    hide Exec;
    var d1 := Added(db, t, f).value;
    if f.uniqueFlag && !f.primaryKey {
      assert InlineKinds(f)[0] == Unique;
      assert AllKinds(f)[|AllKinds(f)| - |InlineKinds(f)|] == Unique;
      var id := InlineKindPresent(db, t, f, Unique);
      assert id in d1.constraints && IsUniqueConstraintOn(d1.constraints[id], t, f.column);
    } else {
      forall id | id in d1.constraints
        ensures !IsUniqueConstraintOn(d1.constraints[id], t, f.column)
      {
        if OnColumn(d1.constraints[id], t, f.column) {
          AddedKind(db, t, f, id);
        }
      }
    }
  }

  /** Deferred index and foreign key are on the new column too. */
  lemma DeferredStepKeeps(db: Database, d: Database, t: Name, f: Field, k: Kind)
    requires JustAdded(db, d, t, f) && (k.Index? || k.ForeignKey?)
    requires ExecAddConstraint(d, Constraint(t, [f.column], k)).Success?
    ensures JustAdded(db, WithConstraint(d, Constraint(t, [f.column], k)), t, f)
  {
    var d' := WithConstraint(d, Constraint(t, [f.column], k));
    if HasUniqueConstraint(d, t, f.column) {
      var id :| id in d.constraints && IsUniqueConstraintOn(d.constraints[id], t, f.column);
      assert id in d'.constraints && IsUniqueConstraintOn(d'.constraints[id], t, f.column);
    }
    if HasUniqueConstraint(d', t, f.column) {
      var id :| id in d'.constraints && IsUniqueConstraintOn(d'.constraints[id], t, f.column);
      assert id in d.constraints && IsUniqueConstraintOn(d.constraints[id], t, f.column);
    }
  }

  lemma {:induction false} DeferredKeeps(db: Database, d: Database, t: Name, f: Field, stmts: seq<Stmt>)
    requires JustAdded(db, d, t, f) && Run(d, stmts).Success?
    requires forall i :: 0 <= i < |stmts| ==>
               stmts[i].AddConstraint? && stmts[i].constraint == Constraint(t, [f.column], stmts[i].constraint.kind)
               && (stmts[i].constraint.kind.Index? || stmts[i].constraint.kind.ForeignKey?)
    ensures JustAdded(db, Run(d, stmts).value, t, f)
    decreases |stmts|
  {
    hide JustAdded;
    if stmts != [] {
      DeferredStepKeeps(db, d, t, f, stmts[0].constraint.kind);
      DeferredKeeps(db, WithConstraint(d, stmts[0].constraint), t, f, stmts[1..]);
    }
  }

  /** Taking the column and its constraints away again restores tables, rows and constraints. */
  lemma RemovedIsOriginal(db: Database, d: Database, t: Name, f: Field)
    requires Valid(db) && JustAdded(db, d, t, f)
    ensures d.HasColumn(t, f.column)
    ensures Removable(d, t, f.column) <==> !HasUniqueConstraint(d, t, f.column)
    ensures Removed(d, t, f.column).tables == db.tables
    ensures Removed(d, t, f.column).constraints == db.constraints
  {
    forall id | id in db.constraints
      ensures !OnColumn(db.constraints[id], t, f.column) && !ReferencesColumn(db.constraints[id], t, f.column)
      ensures id !in OwnBelow(d, t, f.column, 5)
    {
      var c := db.constraints[id];
      OldConstraintElsewhere(db, t, f.column, id);
      assert forall n :: n in IntrospectedColumns(c) ==> n in c.columns;
      assert [f.column][0] == f.column;
      assert IntrospectedColumns(c) == [f.column] ==> f.column in IntrospectedColumns(c);
    }
    forall id | id in d.constraints && id !in db.constraints
      ensures id in OwnBelow(d, t, f.column, 5)
    {
      NewConstraintIsOwn(d.constraints[id], t, f.column);
    }
    assert d.constraints - OwnBelow(d, t, f.column, 5) == db.constraints;
  }

  lemma NewConstraintIsOwn(c: Constraint, t: Name, col: Name)
    requires c.table == t && c.columns == [col] && !c.kind.Default?
    ensures MatchedBelow(c, t, col, 5)
  {
    var k := match c.kind
      case ForeignKey(_, _) => 0
      case PrimaryKey => 1
      case Index => 2
      case Unique => 3
      case Check(_) => 4;
    assert Matches(c, t, Some([col]), RemovalOrder()[k].0);
  }

  /**
   Adding a field, running the deferred statements and removing the field again restores the catalog
   and every row, and the removal gets through exactly when the field asked for no unique constraint.
   */
  lemma AddThenRemove(db: Database, t: Name, f: Field)
    requires Valid(db) && Added(db, t, f).Success?
    requires Run(Added(db, t, f).value, DeferredStatements(t, f)).Success?
    ensures
      var d := Run(Added(db, t, f).value, DeferredStatements(t, f)).value;
      && d.HasColumn(t, f.column)
      && (Removable(d, t, f.column) <==> !(f.uniqueFlag && !f.primaryKey))
      && Removed(d, t, f.column).tables == db.tables
      && Removed(d, t, f.column).constraints == db.constraints
  {
    AddedIsJustAdded(db, t, f);
    var d1 := Added(db, t, f).value;
    DeferredKeeps(db, d1, t, f, DeferredStatements(t, f));
    RemovedIsOriginal(db, Run(d1, DeferredStatements(t, f)).value, t, f);
  }

  // ---------- Deleting a model ----------

  /** The foreign keys of any table that refer to this one. */
  function Inbound(db: Database, t: Name): set<nat> {
    set id | id in db.constraints && PointsTo(db.constraints[id], t)
  }

  /** The table, its constraints and every foreign key that refers to it are gone; nothing else is. */
  function Deleted(db: Database, t: Name): Database {
    db.(tables := db.tables - {t},
        constraints := map id | id in db.constraints && db.constraints[id].table != t && !PointsTo(db.constraints[id], t)
                         :: db.constraints[id])
  }

  /** A constraint goes exactly when it is on the table, or is a foreign key that refers to it; all tables but this one stay. */
  lemma DeletedExactly(db: Database, t: Name, id: nat)
    requires id in db.constraints
    ensures
      var c := db.constraints[id];
      id in Deleted(db, t).constraints <==> c.table != t && !(c.kind.ForeignKey? && c.kind.toTable == t)
    ensures id in Deleted(db, t).constraints ==> Deleted(db, t).constraints[id] == db.constraints[id]
    ensures Deleted(db, t).constraints.Keys <= db.constraints.Keys && Deleted(db, t).tables == db.tables - {t}
  {
  }

  /** Any foreign key that still refers to the table can be dropped, which leaves one less. */
  lemma InboundDropStep(start: Database, t: Name, dropped: set<nat>, name: nat)
    requires dropped <= Inbound(start, t) && name in Inbound(Without(start, dropped), t)
    ensures
      var db := Without(start, dropped);
      && Exec(db, DropConstraint(db.constraints[name].table, name)) == Success(Without(start, dropped + {name}))
      && Inbound(Without(start, dropped + {name}), t) == Inbound(db, t) - {name}
      && name in Inbound(start, t)
  {
    WithoutTwice(start, dropped, {name});
  }

  lemma DropAfterInbound(db: Database, t: Name)
    requires t in db.tables
    ensures Exec(Without(db, Inbound(db, t)), DropTable(t)) == Success(Deleted(db, t))
  {
    var db1 := Without(db, Inbound(db, t));
    assert ExecDropTable(db1, t).value.constraints == Deleted(db, t).constraints;
  }
}
