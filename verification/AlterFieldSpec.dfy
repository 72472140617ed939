/**
 What altering a field should leave behind, in closed form: no intermediate catalog appears here.
 The schema editor reaches the same database through a long script of statements.
 */
module AlterFieldSpec {
  import opened Wrappers
  import opened SqlServer
  import opened Fields

  /** A request to alter `oldField` of the model stored in `table` into `newField`. */
  datatype Alteration = Alteration(
    table: Name,
    oldField: Field,
    newField: Field,
    oldRelated: seq<RelatedObject>,
    newRelated: seq<RelatedObject>)
  {
    predicate Renames() { oldField.column != newField.column }

    /** The texts of the types differ; IDENTITY is part of the text. */
    predicate Retypes() { oldField.ty != newField.ty || oldField.auto != newField.auto }

    predicate RemovesUnique() {
      oldField.Unique() && (!newField.Unique() || (!oldField.primaryKey && newField.primaryKey))
    }

    predicate RetypesPrimaryKey() { oldField.primaryKey && newField.primaryKey && Retypes() }

    predicate BecomesPrimaryKey() { !oldField.primaryKey && newField.primaryKey }

    predicate RemovesIndex() { oldField.dbIndex && !newField.dbIndex && !oldField.Unique() }

    predicate RemovesCheck() { oldField.check != newField.check && oldField.check.Some? }

    predicate AddsCheck() { oldField.check != newField.check && newField.check.Some? }

    predicate AddsUnique() {
      (!oldField.Unique() && newField.Unique()) || (oldField.primaryKey && !newField.primaryKey && newField.Unique())
    }

    predicate AddsIndex() { !oldField.dbIndex && newField.dbIndex && !newField.Unique() }

    predicate NeedsDatabaseDefault() {
      oldField.effectiveDefault != newField.effectiveDefault && newField.effectiveDefault.Some?
    }

    predicate ChangesNull() { oldField.nullable != newField.nullable || Retypes() }

    /** The number of default constraints that come and go. */
    function Passing(): nat { if NeedsDatabaseDefault() then 1 else 0 }

    /** A nullable column with a default is tightened in four steps. */
    predicate FourWay() { newField.hasDefault && oldField.nullable && !newField.nullable }

    function Related(): seq<RelatedObject> { NonManyToMany(newRelated) }

    /** The reverse relations that have a counterpart before the change. */
    function Paired(): seq<RelatedObject> { Related()[..Shorter(|NonManyToMany(oldRelated)|, |Related()|)] }

    /** The reverse relations whose columns are retyped. */
    function RelatedToRetype(): seq<RelatedObject> {
      if RetypesPrimaryKey() || BecomesPrimaryKey() then Paired() else []
    }

    // ---------- Constraints that go away ----------

    predicate DropsForeignKey(c: Constraint) {
      oldField.WantsForeignKey() && Matches(c, table, Some([oldField.column]), IsForeignKey)
    }

    predicate DropsUnique(c: Constraint) {
      RemovesUnique() && Matches(c, table, Some([oldField.column]), IsUnique)
    }

    predicate DropsInbound(c: Constraint) {
      RetypesPrimaryKey()
      && exists i :: 0 <= i < |Paired()| && Matches(c, Paired()[i].table, Some([Paired()[i].field.column]), IsForeignKey)
    }

    predicate DropsIndex(c: Constraint) {
      RemovesIndex() && Matches(c, table, Some([oldField.column]), IsIndex)
    }

    predicate DropsCheck(c: Constraint) {
      RemovesCheck() && Matches(c, table, Some([oldField.column]), IsCheck)
    }

    predicate DropsFirst(c: Constraint) {
      DropsForeignKey(c) || DropsUnique(c) || DropsInbound(c) || DropsIndex(c) || DropsCheck(c)
    }

    /** The table's old primary key makes way for the new one. */
    predicate ReplacesKey(c: Constraint) {
      BecomesPrimaryKey() && Matches(c, table, None, IsPrimaryKey)
    }

    predicate Survives(c: Constraint) { !DropsFirst(c) && !ReplacesKey(c) }

    /** Surviving constraints follow the column to its new name. */
    function Follow(c: Constraint): Constraint {
      if Renames() then RenameInConstraint(c, table, oldField.column, newField.column) else c
    }

    // ---------- Constraints that are created ----------

    function OnNewColumn(k: Kind): Constraint { Constraint(table, [newField.column], k) }

    function CreatedUnique(): seq<Constraint> {
      if AddsUnique() then [OnNewColumn(Unique)] else []
    }

    function CreatedIndex(): seq<Constraint> {
      if AddsIndex() then [OnNewColumn(Index)] else []
    }

    function CreatedKey(): seq<Constraint> {
      if BecomesPrimaryKey() then [OnNewColumn(PrimaryKey)] else []
    }

    function CreatedForeignKey(): seq<Constraint> {
      if newField.WantsForeignKey()
      then [OnNewColumn(ForeignKey(newField.rel.value.table, newField.rel.value.column))]
      else []
    }

    function CreatedCheck(): seq<Constraint> {
      if AddsCheck() then [OnNewColumn(Check(newField.check.value))] else []
    }

    /** Inbound foreign keys that come back after the primary key changed its type. */
    function RebuiltForeignKeys(): seq<Constraint> {
      if RetypesPrimaryKey() then RelatedForeignKeys(Related()) else []
    }

    function Created(): seq<Constraint> {
      CreatedUnique() + CreatedIndex() + CreatedKey() + CreatedForeignKey() + RebuiltForeignKeys() + CreatedCheck()
    }

    // ---------- The altered column ----------

    function AlteredCells(col: Column): (r: seq<Cell>)
    {
      var cells := Retyped(col, newField.ty);
      if FourWay() && newField.effectiveDefault.Some?
      then FillCells(newField.effectiveDefault.value, cells)
      else cells
    }

    function AlteredColumn(col: Column): Column {
      Column(newField.ty, newField.nullable, AlteredCells(col))
    }

    function AlteredTable(t: Table): Table
      requires oldField.column in t.columns
    {
      t.(columns := (t.columns - {oldField.column})[newField.column := AlteredColumn(t.columns[oldField.column])])
    }
  }

  /** The foreign key of a relation, whatever its db_constraint says. */
  function RelatedForeignKey(r: RelatedObject): Constraint {
    match r.field.rel
    case Some(target) => Constraint(r.table, [r.field.column], ForeignKey(target.table, target.column))
    case None => Constraint(r.table, [], Index)
  }

  function RelatedForeignKeys(rs: seq<RelatedObject>): (cs: seq<Constraint>)
    ensures |cs| == |rs|
  {
    seq(|rs|, i requires 0 <= i < |rs| => RelatedForeignKey(rs[i]))
  }

  /** Retyping alone leaves the referring column nullable. */
  function RetypeOne(tables: map<Name, Table>, r: RelatedObject): map<Name, Table> {
    if r.table in tables && r.field.column in tables[r.table].columns then
      var t := tables[r.table];
      var col := t.columns[r.field.column];
      tables[r.table := t.(columns := t.columns[r.field.column := Column(r.field.ty, true, Retyped(col, r.field.ty))])]
    else
      tables
  }

  function RetypeRelated(tables: map<Name, Table>, rs: seq<RelatedObject>): map<Name, Table> {
    if rs == [] then tables else RetypeRelated(RetypeOne(tables, rs[0]), rs[1..])
  }

  /** Consecutive object ids from `base` on. */
  function Ids(base: nat, count: nat): (ids: set<nat>)
    ensures forall id :: id in ids <==> base <= id < base + count
  {
    if count == 0 then {} else Ids(base, count - 1) + {base + count - 1}
  }

  function Numbered(cs: seq<Constraint>, base: nat): (m: map<nat, Constraint>)
    ensures forall id :: id in m <==> base <= id < base + |cs|
    ensures forall id :: id in m ==> m[id] == cs[id - base]
  {
    map id | id in Ids(base, |cs|) :: cs[id - base]
  }

  function AlterTables(a: Alteration, tables: map<Name, Table>): map<Name, Table>
    requires a.table in tables && a.oldField.column in tables[a.table].columns
  {
    RetypeRelated(tables[a.table := a.AlteredTable(tables[a.table])], a.RelatedToRetype())
  }

  function Surviving(a: Alteration, cs: map<nat, Constraint>): map<nat, Constraint> {
    map id | id in cs && a.Survives(cs[id]) :: a.Follow(cs[id])
  }

  function AlterConstraints(a: Alteration, cs: map<nat, Constraint>, next: nat): map<nat, Constraint> {
    Surviving(a, cs) + Numbered(a.Created(), next + a.Passing())
  }

  /** The database after the alteration. */
  function AlteredDatabase(a: Alteration, db: Database): Database
    requires db.HasColumn(a.table, a.oldField.column)
  {
    db.(tables := AlterTables(a, db.tables),
        constraints := AlterConstraints(a, db.constraints, db.next),
        next := db.next + a.Passing() + |a.Created()|)
  }

  // ---------- What can be in the way ----------

  /** Dropping the old uniqueness takes keys away that a foreign key still refers to. */
  ghost predicate UniqueReferenced(db: Database, a: Alteration) {
    a.RemovesUnique()
    && exists id :: id in db.constraints && ReferencesColumn(db.constraints[id], a.table, a.oldField.column)
                    && !a.DropsForeignKey(db.constraints[id])
  }

  ghost predicate RenameAllowed(db: Database, a: Alteration) {
    a.Renames() && a.table in db.tables ==>
      && a.newField.column !in db.tables[a.table].columns
      && (forall id :: id in db.constraints && db.constraints[id].kind.Check? && OnColumn(db.constraints[id], a.table, a.oldField.column)
                       ==> a.DropsFirst(db.constraints[id]))
  }

  /** Whatever stands in the way of retyping this column is dropped before. */
  ghost predicate RetypeIsFree(db: Database, a: Alteration, t: Name, col: Name) {
    forall id :: id in db.constraints && BlocksRetype(db.strict, db.constraints[id], t, col) ==> a.DropsFirst(db.constraints[id])
  }

  /** The server refuses the new type: it is an IDENTITY, or something on the column stands in the way and is not dropped before. */
  ghost predicate TypeBlocked(db: Database, a: Alteration) {
    a.Retypes() && (a.newField.auto || (a.oldField.ty != a.newField.ty && !RetypeIsFree(db, a, a.table, a.oldField.column)))
  }

  /** NULL cells would be left in a column that is to become NOT NULL. */
  ghost predicate NullsRemain(db: Database, a: Alteration)
    requires db.HasColumn(a.table, a.oldField.column)
  {
    !a.newField.nullable && Null in a.AlteredCells(db.Column(a.table, a.oldField.column))
  }

  /** A foreign key that the drops at the beginning leave alone refers to this key. */
  ghost predicate StillReferenced(db: Database, a: Alteration, key: Constraint) {
    exists id :: id in db.constraints && RefersTo(db.constraints[id], key) && !a.DropsFirst(db.constraints[id])
  }

  /** The primary key that has to make way is still referred to. */
  ghost predicate KeyReferenced(db: Database, a: Alteration) {
    a.BecomesPrimaryKey()
    && exists id :: id in ConstraintNames(db, a.table, None, IsPrimaryKey) && StillReferenced(db, a, db.constraints[id])
  }

  /** The column of the relation is there and takes the relation's type. */
  ghost predicate RelatedTakesType(db: Database, a: Alteration, r: RelatedObject) {
    && db.HasColumn(r.table, r.field.column)
    && !r.field.auto
    && (r.field.ty != db.Column(r.table, r.field.column).ty ==>
          forall id :: id in db.constraints && BlocksRetype(db.strict, db.constraints[id], r.table, r.field.column)
                       ==> !a.Survives(db.constraints[id]))
  }

  ghost predicate RelatedRefused(db: Database, a: Alteration) {
    exists i :: 0 <= i < |a.RelatedToRetype()| && !RelatedTakesType(db, a, a.RelatedToRetype()[i])
  }

  ghost predicate ForeignKeyLegal(db: Database, c: Constraint) {
    c.kind.ForeignKey? && ExecAddConstraint(db, c).Success?
  }

  ghost predicate ForeignKeysLegal(db: Database, cs: seq<Constraint>) {
    forall i :: 0 <= i < |cs| ==> ForeignKeyLegal(db, cs[i])
  }

  /** A foreign key that the script creates is not legal in the catalog that the script leads to. */
  ghost predicate ForeignKeysRefused(db: Database, a: Alteration)
    requires db.HasColumn(a.table, a.oldField.column)
  {
    !(ForeignKeysLegal(AlteredDatabase(a, db), a.CreatedForeignKey()) && ForeignKeysLegal(AlteredDatabase(a, db), a.RebuiltForeignKeys()))
  }

  datatype Obstacle =
    | BecomesAuto
    | WrongUniqueCount
    | ReferencedUnique
    | RefusedName
    | RefusedType
    | RemainingNulls
    | WrongKeyCount
    | ReferencedKey
    | RefusedRelatedType
    | RefusedForeignKey

  /** The first thing that stops the script. Strict mode insists on exactly one constraint where one is dropped. */
  ghost function FirstObstacle(db: Database, a: Alteration, strict: bool): Option<Obstacle>
    requires db.HasColumn(a.table, a.oldField.column)
  {
    if !a.oldField.auto && a.newField.auto then Some(BecomesAuto)
    else if strict && a.RemovesUnique() && |ConstraintNames(db, a.table, Some([a.oldField.column]), IsUnique)| != 1 then
      Some(WrongUniqueCount)
    else if UniqueReferenced(db, a) then Some(ReferencedUnique)
    else if !RenameAllowed(db, a) then Some(RefusedName)
    else if TypeBlocked(db, a) then Some(RefusedType)
    else if NullsRemain(db, a) then Some(RemainingNulls)
    else if strict && a.BecomesPrimaryKey() && ConstraintNames(db, a.table, None, IsPrimaryKey) == {} then Some(WrongKeyCount)
    else if KeyReferenced(db, a) then Some(ReferencedKey)
    else if RelatedRefused(db, a) then Some(RefusedRelatedType)
    else if ForeignKeysRefused(db, a) then Some(RefusedForeignKey)
    else None
  }

  // ---------- Where the script starts from ----------

  /** A column other than the altered one and those to be retyped. */
  ghost predicate Untouched(a: Alteration, t: Name, c: Name) {
    && (t, c) != (a.table, a.oldField.column)
    && forall i :: 0 <= i < |a.RelatedToRetype()| ==>
                     (t, c) != (a.RelatedToRetype()[i].table, a.RelatedToRetype()[i].field.column)
  }

  /** The relations have columns of their own. */
  ghost predicate SeparateColumns(a: Alteration) {
    var rs := a.RelatedToRetype();
    && (forall i :: 0 <= i < |rs| ==> (rs[i].table, rs[i].field.column) != (a.table, a.oldField.column)
                                      && (rs[i].table, rs[i].field.column) != (a.table, a.newField.column))
    && (forall i, j :: 0 <= i < j < |rs| ==> (rs[i].table, rs[i].field.column) != (rs[j].table, rs[j].field.column))
  }

  /** The catalog agrees with the old field, and nothing more is known of it. */
  ghost predicate Prepared(db: Database, a: Alteration) {
    && Valid(db)
    && Agrees(db, a.table, a.oldField)
    && (HasPrimaryKeyOn(db, a.table, a.oldField.column) <==> a.oldField.primaryKey)
    && a.oldField.Sensible() && a.newField.Sensible()
    && SeparateColumns(a)
  }

  /** Nothing is in the way, and the relations are the same before and after. */
  ghost predicate Alterable(db: Database, a: Alteration, strict: bool) {
    && Prepared(db, a)
    && FirstObstacle(db, a, strict) == None
    && a.Paired() == a.Related()
  }

  /** The columns of the relations are there, and those whose foreign keys are made again refer to something. */
  ghost predicate RelatedAllowed(db: Database, a: Alteration) {
    var rs := a.RelatedToRetype();
    && SeparateColumns(a)
    && a.Paired() == a.Related()
    && (forall i :: 0 <= i < |rs| ==> db.HasColumn(rs[i].table, rs[i].field.column))
    && (a.RetypesPrimaryKey() ==> forall i :: 0 <= i < |rs| ==> rs[i].field.rel.Some?)
  }
}
