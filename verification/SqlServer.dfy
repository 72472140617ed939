/**
 An abstract SQL Server: a catalog of tables, columns and constraints together with the rows
 (kept column by column), and the statements that the schema editor sends to it.
 Each statement either changes the database or is refused and changes nothing.
 */
module SqlServer {
  import opened Wrappers

  type Name = string
  type SqlType = string

  /** A conversion to another type is left abstract: it is total and keeps values apart. */
  datatype Cell = Null | Datum(value: int) | Cast(ty: SqlType, from: Cell)

  datatype Column = Column(ty: SqlType, nullable: bool, cells: seq<Cell>)

  /** A table has `rows` rows; row i consists of cell i of every column. */
  datatype Table = Table(columns: map<Name, Column>, rows: nat)

  datatype Kind =
    | PrimaryKey
    | Unique
    | Index
    | ForeignKey(toTable: Name, toColumn: Name)
    | Check(expr: string)
    | Default(value: Cell)
  {
    predicate IsKey() { PrimaryKey? || Unique? }
  }

  datatype Constraint = Constraint(table: Name, columns: seq<Name>, kind: Kind)

  /**
   Constraints are known by their object id, taken from the counter `next`. When `strict` holds the
   server refuses to retype a column under any constraint at all; otherwise only a default or a
   foreign key stands in the way.
   */
  datatype Database = Database(tables: map<Name, Table>, constraints: map<nat, Constraint>, next: nat, strict: bool) {
    predicate HasColumn(t: Name, c: Name) {
      t in tables && c in tables[t].columns
    }

    function Column(t: Name, c: Name): Column
      requires HasColumn(t, c)
    {
      tables[t].columns[c]
    }
  }

  datatype Error =
    | NoSuchObject
    | NameInUse
    | DependentObject
    | NullViolation
    | NullableKey
    | NotAKey
    | TypeMismatch
    | NotSupported
    | IdentityNotAllowed
    | WrongCount

  /** `identity` says that the type is written with the word IDENTITY, which ALTER COLUMN does not take. */
  datatype Stmt =
    | DropConstraint(table: Name, id: nat)
    | DropIndex(table: Name, id: nat)
    | RenameColumn(table: Name, from: Name, to: Name)
    | AlterType(table: Name, column: Name, ty: SqlType, identity: bool)
    | AlterNull(table: Name, column: Name, ty: SqlType, nullable: bool, identity: bool)
    | AddConstraint(constraint: Constraint)
    | FillNulls(table: Name, column: Name, value: Cell)
    | AddColumn(table: Name, column: Name, ty: SqlType, nullable: bool, default: Option<Cell>, inline: seq<Kind>)
    | DropColumn(table: Name, column: Name)
    | DropTable(table: Name)

  // ---------- What constraints say about a column ----------

  predicate ReferencesColumn(c: Constraint, t: Name, col: Name) {
    c.kind.ForeignKey? && c.kind.toTable == t && c.kind.toColumn == col
  }

  predicate PointsTo(c: Constraint, t: Name) {
    c.kind.ForeignKey? && c.kind.toTable == t
  }

  predicate OnColumn(c: Constraint, t: Name, col: Name) {
    c.table == t && col in c.columns
  }

  /** The constraint stands in the way of giving the column another type. */
  predicate BlocksRetype(strict: bool, c: Constraint, t: Name, col: Name) {
    || ReferencesColumn(c, t, col)
    || (OnColumn(c, t, col) && (strict || c.kind.ForeignKey? || c.kind.Default?))
  }

  predicate IsKeyOn(c: Constraint, t: Name, col: Name) {
    c.table == t && c.columns == [col] && c.kind.IsKey()
  }

  predicate KeyExists(db: Database, t: Name, col: Name) {
    exists id :: id in db.constraints && IsKeyOn(db.constraints[id], t, col)
  }

  /** The foreign key relies on this key. */
  predicate RefersTo(fk: Constraint, key: Constraint) {
    fk.kind.ForeignKey? && fk.kind.toTable == key.table && key.columns == [fk.kind.toColumn]
  }

  predicate Referenced(db: Database, key: Constraint) {
    exists id :: id in db.constraints && RefersTo(db.constraints[id], key)
  }

  // ---------- Effects on cells and names ----------

  function CastCell(ty: SqlType, c: Cell): Cell {
    if c.Null? then Null else Cast(ty, c)
  }

  function CastCells(ty: SqlType, cells: seq<Cell>): (r: seq<Cell>)
    ensures |r| == |cells|
  {
    seq(|cells|, i requires 0 <= i < |cells| => CastCell(ty, cells[i]))
  }

  function FillCell(v: Cell, c: Cell): Cell {
    if c.Null? then v else c
  }

  function FillCells(v: Cell, cells: seq<Cell>): (r: seq<Cell>)
    ensures |r| == |cells|
  {
    seq(|cells|, i requires 0 <= i < |cells| => FillCell(v, cells[i]))
  }

  /** Values keep their representation when the type does not change. */
  function Retyped(col: Column, ty: SqlType): seq<Cell> {
    if col.ty == ty then col.cells else CastCells(ty, col.cells)
  }

  function RenameName(n: Name, from: Name, to: Name): Name {
    if n == from then to else n
  }

  function RenameNames(ns: seq<Name>, from: Name, to: Name): (r: seq<Name>)
    ensures |r| == |ns|
  {
    seq(|ns|, i requires 0 <= i < |ns| => RenameName(ns[i], from, to))
  }

  /** Constraints follow the columns they are defined on or refer to. */
  function RenameInConstraint(c: Constraint, t: Name, from: Name, to: Name): Constraint {
    Constraint(
      c.table,
      if c.table == t then RenameNames(c.columns, from, to) else c.columns,
      if c.kind.ForeignKey? && c.kind.toTable == t
      then ForeignKey(t, RenameName(c.kind.toColumn, from, to))
      else c.kind)
  }

  function RenameInConstraints(cs: map<nat, Constraint>, t: Name, from: Name, to: Name): map<nat, Constraint> {
    map id | id in cs :: RenameInConstraint(cs[id], t, from, to)
  }

  function WithColumn(db: Database, t: Name, c: Name, col: Column): Database
    requires t in db.tables
  {
    db.(tables := db.tables[t := db.tables[t].(columns := db.tables[t].columns[c := col])])
  }

  function WithConstraint(db: Database, c: Constraint): Database {
    db.(constraints := db.constraints[db.next := c], next := db.next + 1)
  }

  function Without(db: Database, ids: set<nat>): Database {
    db.(constraints := db.constraints - ids)
  }

  // ---------- The statements ----------

  function ExecDropConstraint(db: Database, t: Name, id: nat): Result<Database, Error> {
    if id !in db.constraints || db.constraints[id].table != t || db.constraints[id].kind.Index? then
      Failure(NoSuchObject)
    else if db.constraints[id].kind.IsKey() && Referenced(db, db.constraints[id]) then
      Failure(DependentObject)
    else
      Success(Without(db, {id}))
  }

  /** DROP INDEX is not allowed on an index that a constraint maintains. */
  function ExecDropIndex(db: Database, t: Name, id: nat): Result<Database, Error> {
    if id !in db.constraints || db.constraints[id].table != t then
      Failure(NoSuchObject)
    else if !db.constraints[id].kind.Index? then
      Failure(DependentObject)
    else
      Success(Without(db, {id}))
  }

  function ExecRename(db: Database, t: Name, from: Name, to: Name): Result<Database, Error> {
    if !db.HasColumn(t, from) then
      Failure(NoSuchObject)
    else if to in db.tables[t].columns then
      Failure(NameInUse)
    else if exists id :: id in db.constraints && db.constraints[id].kind.Check? && OnColumn(db.constraints[id], t, from) then
      Failure(DependentObject)
    else
      var columns := db.tables[t].columns;
      var renamed := (columns - {from})[to := columns[from]];
      Success(db.(tables := db.tables[t := db.tables[t].(columns := renamed)],
                  constraints := RenameInConstraints(db.constraints, t, from, to)))
  }

  function ExecAlter(db: Database, t: Name, c: Name, ty: SqlType, nullable: bool): Result<Database, Error> {
    if !db.HasColumn(t, c) then
      Failure(NoSuchObject)
    else
      var col := db.Column(t, c);
      if ty != col.ty
         && exists id :: id in db.constraints && BlocksRetype(db.strict, db.constraints[id], t, c) then
        Failure(DependentObject)
      else if !nullable && Null in col.cells then
        Failure(NullViolation)
      else
        Success(WithColumn(db, t, c, Column(ty, nullable, Retyped(col, ty))))
  }

  function ExecAddConstraint(db: Database, c: Constraint): Result<Database, Error> {
    if c.table !in db.tables || c.columns == [] || (exists n :: n in c.columns && n !in db.tables[c.table].columns) then
      Failure(NoSuchObject)
    else
      match c.kind
      case PrimaryKey =>
        if exists id :: id in db.constraints && db.constraints[id].table == c.table && db.constraints[id].kind.PrimaryKey? then
          Failure(NameInUse)
        else if exists n :: n in c.columns && db.tables[c.table].columns[n].nullable then
          Failure(NullableKey)
        else
          Success(WithConstraint(db, c))
      case ForeignKey(toTable, toColumn) =>
        if |c.columns| != 1 || !db.HasColumn(toTable, toColumn) then
          Failure(NoSuchObject)
        else if !KeyExists(db, toTable, toColumn) then
          Failure(NotAKey)
        else if db.Column(toTable, toColumn).ty != db.Column(c.table, c.columns[0]).ty then
          Failure(TypeMismatch)
        else
          Success(WithConstraint(db, c))
      case Default(_) =>
        if |c.columns| != 1 then
          Failure(NoSuchObject)
        else if exists id :: id in db.constraints && db.constraints[id].kind.Default? && OnColumn(db.constraints[id], c.table, c.columns[0]) then
          Failure(NameInUse)
        else
          Success(WithConstraint(db, c))
      case _ => Success(WithConstraint(db, c))
  }

  function ExecFillNulls(db: Database, t: Name, c: Name, v: Cell): Result<Database, Error> {
    if !db.HasColumn(t, c) then
      Failure(NoSuchObject)
    else
      var col := db.Column(t, c);
      Success(WithColumn(db, t, c, col.(cells := FillCells(v, col.cells))))
  }

  /** Adds one-column constraints of the given kinds, one after the other. */
  function AddInline(db: Database, t: Name, c: Name, kinds: seq<Kind>): Result<Database, Error>
    decreases kinds
  {
    if kinds == [] then
      Success(db)
    else
      var db1 :- ExecAddConstraint(db, Constraint(t, [c], kinds[0]));
      AddInline(db1, t, c, kinds[1..])
  }

  /** Existing rows receive the default only when the new column is NOT NULL. */
  function ExecAddColumn(db: Database, t: Name, c: Name, ty: SqlType, nullable: bool, default: Option<Cell>, kinds: seq<Kind>)
    : Result<Database, Error>
  {
    if t !in db.tables then
      Failure(NoSuchObject)
    else if c in db.tables[t].columns then
      Failure(NameInUse)
    else
      var cell := if !nullable && default.Some? then default.value else Null;
      var cells := seq(db.tables[t].rows, _ => cell);
      if !nullable && Null in cells then
        Failure(NullViolation)
      else
        var db1 := WithColumn(db, t, c, Column(ty, nullable, cells));
        AddInline(db1, t, c, (if default.Some? then [Default(default.value)] else []) + kinds)
  }

  function ExecDropColumn(db: Database, t: Name, c: Name): Result<Database, Error> {
    if !db.HasColumn(t, c) then
      Failure(NoSuchObject)
    else if exists id :: id in db.constraints && (OnColumn(db.constraints[id], t, c) || ReferencesColumn(db.constraints[id], t, c)) then
      Failure(DependentObject)
    else
      Success(db.(tables := db.tables[t := db.tables[t].(columns := db.tables[t].columns - {c})]))
  }

  /** A table goes together with its constraints, but not while another table refers to it. */
  function ExecDropTable(db: Database, t: Name): Result<Database, Error> {
    if t !in db.tables then
      Failure(NoSuchObject)
    else if exists id :: id in db.constraints && PointsTo(db.constraints[id], t) && db.constraints[id].table != t then
      Failure(DependentObject)
    else
      Success(db.(tables := db.tables - {t},
                  constraints := map id | id in db.constraints && db.constraints[id].table != t :: db.constraints[id]))
  }

  function Exec(db: Database, s: Stmt): Result<Database, Error> {
    match s
    case DropConstraint(t, id) => ExecDropConstraint(db, t, id)
    case DropIndex(t, id) => ExecDropIndex(db, t, id)
    case RenameColumn(t, from, to) => ExecRename(db, t, from, to)
    case AlterType(t, c, ty, identity) =>
      if identity then Failure(IdentityNotAllowed) else ExecAlter(db, t, c, ty, true)
    case AlterNull(t, c, ty, nullable, identity) =>
      if identity then Failure(IdentityNotAllowed) else ExecAlter(db, t, c, ty, nullable)
    case AddConstraint(c) => ExecAddConstraint(db, c)
    case FillNulls(t, c, v) => ExecFillNulls(db, t, c, v)
    case AddColumn(t, c, ty, nullable, default, kinds) => ExecAddColumn(db, t, c, ty, nullable, default, kinds)
    case DropColumn(t, c) => ExecDropColumn(db, t, c)
    case DropTable(t) => ExecDropTable(db, t)
  }

  // ---------- The server's own invariant ----------

  ghost predicate ValidColumn(col: Column, rows: nat) {
    |col.cells| == rows && (!col.nullable ==> Null !in col.cells)
  }

  ghost predicate ValidTables(tables: map<Name, Table>) {
    forall t, c :: t in tables && c in tables[t].columns ==> ValidColumn(tables[t].columns[c], tables[t].rows)
  }

  ghost predicate ValidConstraint(db: Database, c: Constraint) {
    && c.columns != []
    && (forall n :: n in c.columns ==> db.HasColumn(c.table, n))
    && (c.kind.Default? ==> |c.columns| == 1)
    && (c.kind.ForeignKey? ==>
          && |c.columns| == 1
          && db.HasColumn(c.kind.toTable, c.kind.toColumn)
          && KeyExists(db, c.kind.toTable, c.kind.toColumn)
          && db.Column(c.kind.toTable, c.kind.toColumn).ty == db.Column(c.table, c.columns[0]).ty)
  }

  /** At most one primary key per table and one default per column. */
  ghost predicate Singular(cs: map<nat, Constraint>) {
    forall i, j :: i in cs && j in cs && i != j && cs[i].table == cs[j].table ==>
      && !(cs[i].kind.PrimaryKey? && cs[j].kind.PrimaryKey?)
      && !(cs[i].kind.Default? && cs[j].kind.Default? && cs[i].columns == cs[j].columns)
  }

  /** Cells match the row count and nullability; constraints name existing columns; foreign keys refer to keys of the same type. */
  ghost predicate Valid(db: Database) {
    && ValidTables(db.tables)
    && (forall id :: id in db.constraints ==> id < db.next && ValidConstraint(db, db.constraints[id]))
    && Singular(db.constraints)
  }

  // ---------- Every accepted statement keeps the invariant ----------

  lemma KeySurvives(db: Database, db': Database, t: Name, c: Name)
    requires KeyExists(db, t, c)
    requires forall id :: id in db.constraints && IsKeyOn(db.constraints[id], t, c)
                          ==> id in db'.constraints && db'.constraints[id] == db.constraints[id]
    ensures KeyExists(db', t, c)
  {
    var id :| id in db.constraints && IsKeyOn(db.constraints[id], t, c);
    assert id in db'.constraints && IsKeyOn(db'.constraints[id], t, c);
  }

  lemma DropKeepsValid(db: Database, id: nat)
    requires Valid(db) && id in db.constraints
    requires db.constraints[id].kind.IsKey() ==> !Referenced(db, db.constraints[id])
    ensures Valid(Without(db, {id}))
  {
    var db' := Without(db, {id});
    forall i | i in db'.constraints
      ensures ValidConstraint(db', db'.constraints[i])
    {
      var c := db.constraints[i];
      assert ValidConstraint(db, c);
      if c.kind.ForeignKey? {
        KeySurvives(db, db', c.kind.toTable, c.kind.toColumn);
      }
    }
  }

  lemma RenameKeepsValid(db: Database, t: Name, from: Name, to: Name)
    requires Valid(db) && ExecRename(db, t, from, to).Success?
    ensures Valid(ExecRename(db, t, from, to).value)
  {
    var db' := ExecRename(db, t, from, to).value;
    forall i | i in db'.constraints
      ensures ValidConstraint(db', db'.constraints[i])
    {
      RenamedConstraintValid(db, db', t, from, to, db.constraints[i]);
    }
    forall i, j | i in db'.constraints && j in db'.constraints && i != j
      ensures db'.constraints[i].table == db'.constraints[j].table
              && db'.constraints[i].kind.Default? && db'.constraints[j].kind.Default?
              ==> db'.constraints[i].columns != db'.constraints[j].columns
    {
      var a, b := db.constraints[i], db.constraints[j];
      assert ValidConstraint(db, a) && ValidConstraint(db, b);
      if a.table == t == b.table && a.kind.Default? && b.kind.Default? {
        assert a.columns[0] in a.columns && b.columns[0] in b.columns;
        assert a.columns == [a.columns[0]] && b.columns == [b.columns[0]];
        assert RenameNames(a.columns, from, to)[0] == RenameName(a.columns[0], from, to);
        assert RenameNames(b.columns, from, to)[0] == RenameName(b.columns[0], from, to);
      }
    }
  }

  lemma RenamedConstraintValid(db: Database, db': Database, t: Name, from: Name, to: Name, c: Constraint)
    requires Valid(db) && ExecRename(db, t, from, to) == Success(db')
    requires ValidConstraint(db, c)
    ensures ValidConstraint(db', RenameInConstraint(c, t, from, to))
  {
    var c' := RenameInConstraint(c, t, from, to);
    forall n | n in c'.columns
      ensures db'.HasColumn(c'.table, n)
    {
      var k :| 0 <= k < |c'.columns| && c'.columns[k] == n;
      assert c.columns[k] in c.columns;
    }
    if c.kind.ForeignKey? {
      assert c.columns[0] in c.columns;
      RenamedKeyExists(db, db', t, from, to, c.kind.toTable, c.kind.toColumn);
    }
  }

  lemma RenamedKeyExists(db: Database, db': Database, t: Name, from: Name, to: Name, kt: Name, kc: Name)
    requires ExecRename(db, t, from, to) == Success(db')
    requires KeyExists(db, kt, kc)
    ensures KeyExists(db', kt, if kt == t then RenameName(kc, from, to) else kc)
  {
    var id :| id in db.constraints && IsKeyOn(db.constraints[id], kt, kc);
    var k := db'.constraints[id];
    assert IsKeyOn(k, kt, if kt == t then RenameName(kc, from, to) else kc);
  }

  lemma AlterKeepsValid(db: Database, t: Name, c: Name, ty: SqlType, nullable: bool)
    requires Valid(db) && ExecAlter(db, t, c, ty, nullable).Success?
    ensures Valid(ExecAlter(db, t, c, ty, nullable).value)
  {
    var db' := ExecAlter(db, t, c, ty, nullable).value;
    var col := db.Column(t, c);
    assert Null in db'.Column(t, c).cells ==> Null in col.cells by {
      if Null in db'.Column(t, c).cells {
        var i :| 0 <= i < |db'.Column(t, c).cells| && db'.Column(t, c).cells[i] == Null;
        assert col.cells[i] == Null;
      }
    }
    forall i | i in db'.constraints
      ensures ValidConstraint(db', db'.constraints[i])
    {
      var k := db.constraints[i];
      assert ValidConstraint(db, k);
      if k.kind.ForeignKey? {
        KeySurvives(db, db', k.kind.toTable, k.kind.toColumn);
        assert k.columns[0] in k.columns;
        assert !BlocksRetype(db.strict, k, t, c) || ty == col.ty;
      }
    }
  }

  lemma AddConstraintKeepsSingular(db: Database, c: Constraint)
    requires Valid(db) && ExecAddConstraint(db, c).Success?
    ensures Singular(WithConstraint(db, c).constraints)
  {
    var cs := db.constraints;
    forall i | i in cs && cs[i].table == c.table
      ensures !(cs[i].kind.PrimaryKey? && c.kind.PrimaryKey?)
      ensures !(cs[i].kind.Default? && c.kind.Default? && cs[i].columns == c.columns)
    {
      if cs[i].kind.Default? && c.kind.Default? && cs[i].columns == c.columns {
        assert OnColumn(cs[i], c.table, c.columns[0]);
      }
    }
  }

  lemma AddConstraintKeepsValid(db: Database, c: Constraint)
    requires Valid(db) && ExecAddConstraint(db, c).Success?
    ensures Valid(ExecAddConstraint(db, c).value)
  {
    hide Singular;
    var db' := WithConstraint(db, c);
    AddConstraintKeepsSingular(db, c);
    forall i | i in db'.constraints
      ensures ValidConstraint(db', db'.constraints[i])
    {
      var k := db'.constraints[i];
      if i in db.constraints && i != db.next {
        assert ValidConstraint(db, k);
      }
      if k.kind.ForeignKey? {
        KeySurvives(db, db', k.kind.toTable, k.kind.toColumn);
      }
    }
  }

  lemma FillKeepsValid(db: Database, t: Name, c: Name, v: Cell)
    requires Valid(db) && ExecFillNulls(db, t, c, v).Success?
    ensures Valid(ExecFillNulls(db, t, c, v).value)
  {
    var db' := ExecFillNulls(db, t, c, v).value;
    if !db.Column(t, c).nullable {
      assert ValidColumn(db.Column(t, c), db.tables[t].rows);
      assert FillCells(v, db.Column(t, c).cells) == db.Column(t, c).cells;
    }
    SameConstraintsValid(db, db');
  }

  /** Constraints do not depend on what cells hold, nor on columns they do not mention. */
  lemma SameConstraintsValid(db: Database, db': Database)
    requires forall id :: id in db.constraints ==> ValidConstraint(db, db.constraints[id])
    requires db'.constraints == db.constraints
    requires forall t, c :: db.HasColumn(t, c) ==> db'.HasColumn(t, c) && db'.Column(t, c).ty == db.Column(t, c).ty
    ensures forall id :: id in db'.constraints ==> ValidConstraint(db', db'.constraints[id])
  {
    forall i | i in db'.constraints
      ensures ValidConstraint(db', db'.constraints[i])
    {
      var k := db.constraints[i];
      assert ValidConstraint(db, k);
      if k.kind.ForeignKey? {
        KeySurvives(db, db', k.kind.toTable, k.kind.toColumn);
        assert k.columns[0] in k.columns;
      }
    }
  }

  lemma AddInlineKeepsValid(db: Database, t: Name, c: Name, kinds: seq<Kind>)
    requires Valid(db) && AddInline(db, t, c, kinds).Success?
    ensures Valid(AddInline(db, t, c, kinds).value)
    decreases kinds
  {
    if kinds != [] {
      AddConstraintKeepsValid(db, Constraint(t, [c], kinds[0]));
      AddInlineKeepsValid(ExecAddConstraint(db, Constraint(t, [c], kinds[0])).value, t, c, kinds[1..]);
    }
  }

  lemma AddColumnKeepsValid(db: Database, t: Name, c: Name, ty: SqlType, nullable: bool, default: Option<Cell>, kinds: seq<Kind>)
    requires Valid(db) && ExecAddColumn(db, t, c, ty, nullable, default, kinds).Success?
    ensures Valid(ExecAddColumn(db, t, c, ty, nullable, default, kinds).value)
  {
    var cell := if !nullable && default.Some? then default.value else Null;
    var cells := seq(db.tables[t].rows, _ => cell);
    var db1 := WithColumn(db, t, c, Column(ty, nullable, cells));
    SameConstraintsValid(db, db1);
    AddInlineKeepsValid(db1, t, c, (if default.Some? then [Default(default.value)] else []) + kinds);
  }

  lemma DropColumnKeepsValid(db: Database, t: Name, c: Name)
    requires Valid(db) && ExecDropColumn(db, t, c).Success?
    ensures Valid(ExecDropColumn(db, t, c).value)
  {
    var db' := ExecDropColumn(db, t, c).value;
    forall i | i in db'.constraints
      ensures ValidConstraint(db', db'.constraints[i])
    {
      var k := db.constraints[i];
      assert ValidConstraint(db, k);
      assert !OnColumn(k, t, c) && !ReferencesColumn(k, t, c);
      if k.kind.ForeignKey? {
        KeySurvives(db, db', k.kind.toTable, k.kind.toColumn);
        assert k.columns[0] in k.columns;
      }
    }
  }

  lemma DropTableKeepsValid(db: Database, t: Name)
    requires Valid(db) && ExecDropTable(db, t).Success?
    ensures Valid(ExecDropTable(db, t).value)
  {
    var db' := ExecDropTable(db, t).value;
    forall i | i in db'.constraints
      ensures ValidConstraint(db', db'.constraints[i])
    {
      var k := db.constraints[i];
      assert ValidConstraint(db, k);
      assert !PointsTo(k, t) && k.columns[0] in k.columns;
      if k.kind.ForeignKey? {
        KeySurvives(db, db', k.kind.toTable, k.kind.toColumn);
      }
    }
  }

  /** Safety over whole scripts: no accepted statement can break the server's invariant. */
  lemma ExecKeepsValid(db: Database, s: Stmt)
    requires Valid(db) && Exec(db, s).Success?
    ensures Valid(Exec(db, s).value)
  {
    match s
    case DropConstraint(t, id) => DropKeepsValid(db, id);
    case DropIndex(t, id) => DropKeepsValid(db, id);
    case RenameColumn(t, from, to) => RenameKeepsValid(db, t, from, to);
    case AlterType(t, c, ty, _) => AlterKeepsValid(db, t, c, ty, true);
    case AlterNull(t, c, ty, nullable, _) => AlterKeepsValid(db, t, c, ty, nullable);
    case AddConstraint(c) => AddConstraintKeepsValid(db, c);
    case FillNulls(t, c, v) => FillKeepsValid(db, t, c, v);
    case AddColumn(t, c, ty, nullable, default, kinds) => AddColumnKeepsValid(db, t, c, ty, nullable, default, kinds);
    case DropColumn(t, c) => DropColumnKeepsValid(db, t, c);
    case DropTable(t) => DropTableKeepsValid(db, t);
  }
}
