/** The parts of Django's model fields that the schema editor looks at, and the introspection it relies on. */
module Fields {
  import opened Wrappers
  import opened SqlServer

  datatype Target = Target(table: Name, column: Name)

  /**
   `ty`, `check` are the field's database parameters, IDENTITY being kept apart in `auto`; `rel` is the column a relation refers to;
   `effectiveDefault` is what the base class computes (a blank string counts even when
   `hasDefault` is false).
   */
  datatype Field = Field(
    column: Name,
    ty: SqlType,
    auto: bool,
    nullable: bool,
    primaryKey: bool,
    uniqueFlag: bool,
    dbIndex: bool,
    check: Option<string>,
    rel: Option<Target>,
    dbConstraint: bool,
    hasDefault: bool,
    effectiveDefault: Option<Cell>)
  {
    predicate Unique() { uniqueFlag || primaryKey }

    /** The field wants an enforced foreign key. */
    predicate WantsForeignKey() { rel.Some? && dbConstraint }

    /** Django refuses a nullable primary key and an AutoField that is none; an effective default is a value. */
    predicate Sensible() {
      (primaryKey ==> !nullable) && (auto ==> primaryKey) && (effectiveDefault.Some? ==> !effectiveDefault.value.Null?)
    }
  }

  /** A reverse relation: the table and field that refer to the model. */
  datatype RelatedObject = RelatedObject(table: Name, field: Field, manyToMany: bool)

  function NonManyToMany(objs: seq<RelatedObject>): seq<RelatedObject> {
    if objs == [] then []
    else (if objs[0].manyToMany then [] else [objs[0]]) + NonManyToMany(objs[1..])
  }

  function Zip<A, B>(a: seq<A>, b: seq<B>): seq<(A, B)> {
    if a == [] || b == [] then [] else [(a[0], b[0])] + Zip(a[1..], b[1..])
  }

  /** Pairs the reverse relations before and after the change, leaving many-to-many ones out. */
  function RelatedNonM2mObjects(oldObjs: seq<RelatedObject>, newObjs: seq<RelatedObject>): seq<(RelatedObject, RelatedObject)> {
    Zip(NonManyToMany(oldObjs), NonManyToMany(newObjs))
  }

  function Shorter(m: nat, n: nat): nat { if m <= n then m else n }

  lemma {:induction false} ZipPairs<A, B>(a: seq<A>, b: seq<B>)
    ensures |Zip(a, b)| == Shorter(|a|, |b|)
    ensures forall i :: 0 <= i < |Zip(a, b)| ==> Zip(a, b)[i] == (a[i], b[i])
  {
    if a != [] && b != [] {
      ZipPairs(a[1..], b[1..]);
      forall i | 0 <= i < |Zip(a, b)|
        ensures Zip(a, b)[i] == (a[i], b[i])
      {
        if i > 0 {
          assert Zip(a, b)[i] == Zip(a[1..], b[1..])[i - 1];
        }
      }
    }
  }

  /** What is not many-to-many is kept as often as it is there. */
  lemma {:induction false} NonManyToManyKeeps(objs: seq<RelatedObject>, o: RelatedObject)
    ensures multiset(NonManyToMany(objs))[o] == if o.manyToMany then 0 else multiset(objs)[o]
    decreases |objs|
  {
    if objs != [] {
      NonManyToManyKeeps(objs[1..], o);
      assert objs == [objs[0]] + objs[1..];
    }
  }

  /** And everything keeps its order. */
  lemma {:induction false} NonManyToManyConcat(objs: seq<RelatedObject>, more: seq<RelatedObject>)
    ensures NonManyToMany(objs + more) == NonManyToMany(objs) + NonManyToMany(more)
    decreases |objs|
  {
    if objs == [] {
      assert objs + more == more;
    } else {
      NonManyToManyConcat(objs[1..], more);
      assert (objs + more)[1..] == objs[1..] + more;
    }
  }

  /** Old and new relations are paired by position until one side ends. */
  lemma RelatedPairs(oldObjs: seq<RelatedObject>, newObjs: seq<RelatedObject>)
    ensures
      var before, after, pairs := NonManyToMany(oldObjs), NonManyToMany(newObjs), RelatedNonM2mObjects(oldObjs, newObjs);
      && |pairs| == Shorter(|before|, |after|)
      && forall i :: 0 <= i < |pairs| ==> pairs[i] == (before[i], after[i])
  {
    ZipPairs(NonManyToMany(oldObjs), NonManyToMany(newObjs));
  }

  // ---------- Introspection ----------

  datatype Flag = IsUnique | IsPrimaryKey | IsIndex | IsForeignKey | IsCheck

  /** A primary key also reports itself as unique and as an index, a unique constraint as an index. */
  predicate HasFlag(k: Kind, f: Flag) {
    match f
    case IsUnique => k.IsKey()
    case IsPrimaryKey => k.PrimaryKey?
    case IsIndex => k.IsKey() || k.Index?
    case IsForeignKey => k.ForeignKey?
    case IsCheck => k.Check?
  }

  /** Introspection starts a CHECK's column list afresh for every column it reads, so only the last one is seen. */
  function IntrospectedColumns(c: Constraint): seq<Name> {
    if c.kind.Check? && |c.columns| > 1 then [c.columns[|c.columns| - 1]] else c.columns
  }

  predicate Matches(c: Constraint, t: Name, columns: Option<seq<Name>>, f: Flag) {
    c.table == t && HasFlag(c.kind, f) && (columns == None || columns == Some(IntrospectedColumns(c)))
  }

  /** The base class's _constraint_names: the constraints of a table with exactly these columns and this flag. */
  function ConstraintNames(db: Database, t: Name, columns: Option<seq<Name>>, f: Flag): set<nat> {
    set id | id in db.constraints && Matches(db.constraints[id], t, columns, f)
  }

  predicate IsDefaultOn(c: Constraint, t: Name, col: Name) {
    c.table == t && c.kind.Default? && c.columns == [col]
  }

  function DefaultsOn(db: Database, t: Name, col: Name): set<nat> {
    set id | id in db.constraints && IsDefaultOn(db.constraints[id], t, col)
  }

  // ---------- When the catalog agrees with a field ----------

  /** Exactly one constraint of this flag on the column, and it is of this kind. */
  ghost predicate ExactlyOne(db: Database, t: Name, col: Name, f: Flag, k: Kind) {
    exists id :: id in db.constraints
                 && ConstraintNames(db, t, Some([col]), f) == {id} && db.constraints[id] == Constraint(t, [col], k)
  }

  ghost predicate NoneOf(db: Database, t: Name, col: Name, f: Flag) {
    ConstraintNames(db, t, Some([col]), f) == {}
  }

  ghost predicate ColumnAgrees(db: Database, t: Name, f: Field) {
    db.HasColumn(t, f.column) && db.Column(t, f.column).ty == f.ty && db.Column(t, f.column).nullable == f.nullable
  }

  ghost predicate ForeignKeyAgrees(db: Database, t: Name, f: Field) {
    if f.WantsForeignKey()
    then ExactlyOne(db, t, f.column, IsForeignKey, ForeignKey(f.rel.value.table, f.rel.value.column))
    else NoneOf(db, t, f.column, IsForeignKey)
  }

  ghost predicate UniqueAgrees(db: Database, t: Name, f: Field) {
    f.Unique() <==> !NoneOf(db, t, f.column, IsUnique)
  }

  ghost predicate CheckAgrees(db: Database, t: Name, f: Field) {
    if f.check.Some?
    then ExactlyOne(db, t, f.column, IsCheck, Check(f.check.value))
    else NoneOf(db, t, f.column, IsCheck)
  }

  /** The column is there with the field's type and nullability; it has the field's foreign key, uniqueness and check, and no default. */
  ghost predicate Agrees(db: Database, t: Name, f: Field) {
    && ColumnAgrees(db, t, f)
    && ForeignKeyAgrees(db, t, f)
    && UniqueAgrees(db, t, f)
    && CheckAgrees(db, t, f)
    && DefaultsOn(db, t, f.column) == {}
  }

  ghost predicate HasPrimaryKeyOn(db: Database, t: Name, col: Name) {
    !NoneOf(db, t, col, IsPrimaryKey)
  }
}
