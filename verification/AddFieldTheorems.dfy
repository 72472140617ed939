/** What adding a field is worth: the catalog agrees with the field, so that it can be altered next. */
module AddFieldTheorems {
  import opened Wrappers
  import opened SqlServer
  import opened Fields
  import opened AlterFieldSpec
  import opened AlterFieldSteps
  import opened AlterFieldProof
  import opened AddRemoveSpec

  function DeferredKinds(f: Field): seq<Kind> {
    (if f.dbIndex && !f.Unique() then [Index] else [])
    + (if f.WantsForeignKey() then [ForeignKey(f.rel.value.table, f.rel.value.column)] else [])
  }

  /** The kinds of constraints that are left on the column in the end. */
  function FinalKinds(f: Field): seq<Kind> { InlineKinds(f) + DeferredKinds(f) }

  function Passing(f: Field): nat { if f.effectiveDefault.Some? then 1 else 0 }

  /** The database with the new column; the number of its default, if it had one, is used up. */
  function Bare(db: Database, t: Name, f: Field): Database
    requires t in db.tables
  {
    var d := AddedColumn(db, t, f);
    d.(next := d.next + Passing(f))
  }

  // ---------- The constraints, in closed form ----------

  lemma AddedDefaults(db: Database, t: Name, f: Field)
    requires Valid(db) && Exec(db, AddStatement(t, f)).Success?
    ensures
      var d := Exec(db, AddStatement(t, f)).value;
      DefaultsOn(d, t, f.column) == if f.effectiveDefault.Some? then {db.next} else {}
  {
    hide Exec, AllKinds, InlineKinds;
    AddForm(db, t, f);
    KindsByDefault(f);
    var d := Exec(db, AddStatement(t, f)).value;
    forall id | id in d.constraints
      ensures IsDefaultOn(d.constraints[id], t, f.column) <==> f.effectiveDefault.Some? && id == db.next
    {
      if id in db.constraints {
        OldConstraintElsewhere(db, t, f.column, id);
      } else {
        assert d.constraints[id].kind == AllKinds(f)[id - db.next];
      }
    }
  }

  lemma KindsByDefault(f: Field)
    ensures f.effectiveDefault.Some? ==> |AllKinds(f)| > 0
    ensures forall i :: 0 <= i < |AllKinds(f)| ==> (AllKinds(f)[i].Default? <==> f.effectiveDefault.Some? && i == 0)
  {
  }

  lemma AddedForm(db: Database, t: Name, f: Field)
    requires Valid(db) && Added(db, t, f).Success?
    ensures t in db.tables && f.column !in db.tables[t].columns
    ensures Added(db, t, f).value == WithAll(Bare(db, t, f), OnColumnAll(t, f.column, InlineKinds(f)))
  {
    hide Exec, Valid, WithAll, InlineKinds, AllKinds, DefaultsOn;
    AddForm(db, t, f);
    AddedDefaults(db, t, f);
    var d := Exec(db, AddStatement(t, f)).value;
    var column := AddedColumn(db, t, f);
    var inline := OnColumnAll(t, f.column, InlineKinds(f));
    AllAfterDefault(t, f);
    if f.effectiveDefault.Some? {
      var default := Constraint(t, [f.column], Default(f.effectiveDefault.value));
      DefaultGoes(db, column, default, inline);
    } else {
      assert [] + inline == inline;
      assert Without(d, {}) == d;
    }
  }

  lemma AllAfterDefault(t: Name, f: Field)
    ensures OnColumnAll(t, f.column, AllKinds(f))
         == (if f.effectiveDefault.Some? then [Constraint(t, [f.column], Default(f.effectiveDefault.value))] else [])
            + OnColumnAll(t, f.column, InlineKinds(f))
  {
  }

  lemma DefaultGoes(db: Database, column: Database, default: Constraint, inline: seq<Constraint>)
    requires Valid(db) && column.next == db.next && column.constraints == db.constraints
    ensures Without(WithAll(column, [default] + inline), {db.next}) == WithAll(column.(next := column.next + 1), inline)
  {
    hide Numbered;
    FirstGoes(column, default, inline);
  }

  lemma AddStep(db: Database, c: Constraint)
    requires Exec(db, AddConstraint(c)).Success?
    ensures Exec(db, AddConstraint(c)).value == WithConstraint(db, c)
  {
  }

  lemma {:induction false} AddScriptForm(db: Database, cs: seq<Constraint>)
    requires Run(db, AddScript(cs)).Success?
    ensures Run(db, AddScript(cs)).value == WithAll(db, cs)
    decreases |cs|
  {
    hide Exec, WithAll;
    if cs == [] {
      WithAllNothing(db);
    } else {
      AddStep(db, cs[0]);
      assert AddScript(cs)[1..] == AddScript(cs[1..]);
      AddScriptForm(WithConstraint(db, cs[0]), cs[1..]);
      WithAllCons(db, cs[0], cs[1..]);
      assert [cs[0]] + cs[1..] == cs;
    }
  }

  lemma DeferredScript(t: Name, f: Field)
    ensures DeferredStatements(t, f) == AddScript(OnColumnAll(t, f.column, DeferredKinds(f)))
  {
    var cs := OnColumnAll(t, f.column, DeferredKinds(f));
    if |cs| == 2 {
      assert AddScript(cs[1..]) == [AddConstraint(cs[1])] + AddScript(cs[2..]);
    }
  }

  /** After the deferred statements the column has its final kinds of constraints, in order. */
  lemma FieldForm(db: Database, t: Name, f: Field)
    requires Valid(db) && Added(db, t, f).Success?
    requires Run(Added(db, t, f).value, DeferredStatements(t, f)).Success?
    ensures t in db.tables && f.column !in db.tables[t].columns
    ensures Run(Added(db, t, f).value, DeferredStatements(t, f)).value
         == WithAll(Bare(db, t, f), OnColumnAll(t, f.column, FinalKinds(f)))
  {
    hide Added, InlineKinds, Bare, Run, WithAll;
    AddedForm(db, t, f);
    var inline, deferred := OnColumnAll(t, f.column, InlineKinds(f)), OnColumnAll(t, f.column, DeferredKinds(f));
    DeferredScript(t, f);
    AddScriptForm(Added(db, t, f).value, deferred);
    WithAllTwice(Bare(db, t, f), inline, deferred);
    assert inline + deferred == OnColumnAll(t, f.column, FinalKinds(f));
  }

  // ---------- The constraints, by flag ----------

  /** The constraints on the column are exactly the new ones. */
  lemma NamesOnNewColumn(db: Database, t: Name, f: Field, flag: Flag, id: nat)
    requires Valid(db) && t in db.tables && f.column !in db.tables[t].columns
    ensures
      var base := Bare(db, t, f);
      var ks := FinalKinds(f);
      id in ConstraintNames(WithAll(base, OnColumnAll(t, f.column, ks)), t, Some([f.column]), flag)
      <==> base.next <= id < base.next + |ks| && HasFlag(ks[id - base.next], flag)
  {
    hide FinalKinds;
    var base := Bare(db, t, f);
    var d := WithAll(base, OnColumnAll(t, f.column, FinalKinds(f)));
    if id in d.constraints && id < base.next {
      OldConstraintElsewhere(db, t, f.column, id);
      if IntrospectedColumns(d.constraints[id]) == [f.column] {
        assert IntrospectedColumns(d.constraints[id])[0] in d.constraints[id].columns;
      }
    }
  }

  lemma FinalKindsByFlag(f: Field, i: nat)
    requires i < |FinalKinds(f)|
    ensures HasFlag(FinalKinds(f)[i], IsPrimaryKey) <==> f.primaryKey && i == 0
    ensures HasFlag(FinalKinds(f)[i], IsUnique) <==> f.Unique() && i == 0
    ensures HasFlag(FinalKinds(f)[i], IsCheck) <==> f.check.Some? && i == (if f.Unique() then 1 else 0)
    ensures HasFlag(FinalKinds(f)[i], IsForeignKey) <==> f.WantsForeignKey() && i == |FinalKinds(f)| - 1
    ensures !FinalKinds(f)[i].Default?
  {
  }

  /** Adding a field and running the deferred statements makes the catalog agree with the field. */
  lemma AddedFieldAgrees(db: Database, t: Name, f: Field)
    requires Valid(db) && Added(db, t, f).Success?
    requires Run(Added(db, t, f).value, DeferredStatements(t, f)).Success?
    ensures
      var d := Run(Added(db, t, f).value, DeferredStatements(t, f)).value;
      Agrees(d, t, f) && (HasPrimaryKeyOn(d, t, f.column) <==> f.primaryKey)
  {
    hide Added, Run;
    FieldForm(db, t, f);
    FormAgrees(db, t, f);
  }

  lemma OneNewName(db: Database, t: Name, f: Field, flag: Flag, i: nat)
    requires Valid(db) && t in db.tables && f.column !in db.tables[t].columns
    requires i < |FinalKinds(f)|
    requires forall j :: 0 <= j < |FinalKinds(f)| ==> (HasFlag(FinalKinds(f)[j], flag) <==> j == i)
    ensures ExactlyOne(WithAll(Bare(db, t, f), OnColumnAll(t, f.column, FinalKinds(f))), t, f.column, flag, FinalKinds(f)[i])
  {
    hide FinalKinds;
    var base := Bare(db, t, f);
    var d := WithAll(base, OnColumnAll(t, f.column, FinalKinds(f)));
    forall id: nat
      ensures id in ConstraintNames(d, t, Some([f.column]), flag) <==> id == base.next + i
    {
      NamesOnNewColumn(db, t, f, flag, id);
    }
    assert ConstraintNames(d, t, Some([f.column]), flag) == {base.next + i};
    assert base.next + i in d.constraints && d.constraints[base.next + i] == Constraint(t, [f.column], FinalKinds(f)[i]);
  }

  lemma NoNewName(db: Database, t: Name, f: Field, flag: Flag)
    requires Valid(db) && t in db.tables && f.column !in db.tables[t].columns
    requires forall j :: 0 <= j < |FinalKinds(f)| ==> !HasFlag(FinalKinds(f)[j], flag)
    ensures NoneOf(WithAll(Bare(db, t, f), OnColumnAll(t, f.column, FinalKinds(f))), t, f.column, flag)
  {
    hide FinalKinds;
    var d := WithAll(Bare(db, t, f), OnColumnAll(t, f.column, FinalKinds(f)));
    forall id | id in ConstraintNames(d, t, Some([f.column]), flag)
      ensures false
    {
      NamesOnNewColumn(db, t, f, flag, id);
    }
  }

  /** With this flag there is the one constraint at position i, or none. */
  lemma OneOrNone(db: Database, t: Name, f: Field, flag: Flag, wanted: bool, i: nat)
    requires Valid(db) && t in db.tables && f.column !in db.tables[t].columns
    requires wanted ==> i < |FinalKinds(f)|
    requires forall j :: 0 <= j < |FinalKinds(f)| ==> (HasFlag(FinalKinds(f)[j], flag) <==> wanted && j == i)
    ensures
      var d := WithAll(Bare(db, t, f), OnColumnAll(t, f.column, FinalKinds(f)));
      if wanted then ExactlyOne(d, t, f.column, flag, FinalKinds(f)[i]) else NoneOf(d, t, f.column, flag)
  {
    hide FinalKinds, Bare, NoneOf, ExactlyOne;
    if wanted {
      OneNewName(db, t, f, flag, i);
    } else {
      NoNewName(db, t, f, flag);
    }
  }

  lemma NoNewDefault(db: Database, t: Name, f: Field)
    requires Valid(db) && t in db.tables && f.column !in db.tables[t].columns
    ensures DefaultsOn(WithAll(Bare(db, t, f), OnColumnAll(t, f.column, FinalKinds(f))), t, f.column) == {}
  {
    hide FinalKinds;
    var base := Bare(db, t, f);
    var d := WithAll(base, OnColumnAll(t, f.column, FinalKinds(f)));
    forall id | id in d.constraints
      ensures !IsDefaultOn(d.constraints[id], t, f.column)
    {
      if id in db.constraints && id < base.next {
        OldConstraintElsewhere(db, t, f.column, id);
      } else {
        FinalKindsByFlag(f, id - base.next);
      }
    }
  }

  lemma FormAgrees(db: Database, t: Name, f: Field)
    requires Valid(db) && t in db.tables && f.column !in db.tables[t].columns
    ensures
      var d := WithAll(Bare(db, t, f), OnColumnAll(t, f.column, FinalKinds(f)));
      Agrees(d, t, f) && (HasPrimaryKeyOn(d, t, f.column) <==> f.primaryKey)
  {
    hide Valid, NoneOf, ExactlyOne, DefaultsOn, HasFlag, Numbered;
    forall i | 0 <= i < |FinalKinds(f)|
      ensures HasFlag(FinalKinds(f)[i], IsPrimaryKey) <==> f.primaryKey && i == 0
      ensures HasFlag(FinalKinds(f)[i], IsUnique) <==> f.Unique() && i == 0
      ensures HasFlag(FinalKinds(f)[i], IsCheck) <==> f.check.Some? && i == (if f.Unique() then 1 else 0)
      ensures HasFlag(FinalKinds(f)[i], IsForeignKey) <==> f.WantsForeignKey() && i == |FinalKinds(f)| - 1
    {
      FinalKindsByFlag(f, i);
    }
    OneOrNone(db, t, f, IsPrimaryKey, f.primaryKey, 0);
    OneOrNone(db, t, f, IsUnique, f.Unique(), 0);
    OneOrNone(db, t, f, IsCheck, f.check.Some?, if f.Unique() then 1 else 0);
    OneOrNone(db, t, f, IsForeignKey, f.WantsForeignKey(), if f.WantsForeignKey() then |FinalKinds(f)| - 1 else 0);
    OneIsNotNone(WithAll(Bare(db, t, f), OnColumnAll(t, f.column, FinalKinds(f))), t, f.column);
    NoNewDefault(db, t, f);
  }

  lemma OneIsNotNone(db: Database, t: Name, c: Name)
    ensures forall flag, k :: ExactlyOne(db, t, c, flag, k) ==> !NoneOf(db, t, c, flag)
  {
  }

  /** The constraints of this kind that came with the field. */
  function MadeWithField(db: Database, d: Database, t: Name, c: Name, k: Kind): set<nat> {
    set id | id in d.constraints && id !in db.constraints && d.constraints[id] == Constraint(t, [c], k)
  }

  /** Where among the final kinds this one is, if the field asks for it. */
  function FinalPlace(f: Field, k: Kind): (r: Option<nat>)
    ensures
      r.Some? <==>
        match k
        case PrimaryKey => f.primaryKey
        case Unique => f.uniqueFlag && !f.primaryKey
        case Index => f.dbIndex && !f.uniqueFlag && !f.primaryKey
        case ForeignKey(table, column) => f.rel == Some(Target(table, column)) && f.dbConstraint
        case Check(expr) => f.check == Some(expr)
        case Default(_) => false
    ensures r.Some? ==> r.value < |FinalKinds(f)|
    ensures forall i :: 0 <= i < |FinalKinds(f)| ==> (FinalKinds(f)[i] == k <==> r == Some(i))
  {
    match k
    case PrimaryKey => if f.primaryKey then Some(0) else None
    case Unique => if f.uniqueFlag && !f.primaryKey then Some(0) else None
    case Index => if f.dbIndex && !f.Unique() then Some(|InlineKinds(f)|) else None
    case ForeignKey(table, column) =>
      if f.WantsForeignKey() && f.rel.value == Target(table, column) then Some(|FinalKinds(f)| - 1) else None
    case Check(expr) => if f.check == Some(expr) then Some(if f.Unique() then 1 else 0) else None
    case Default(_) => None
  }

  /** What comes with a field, kind by kind: one constraint where the field asks for it, and none else. */
  lemma MadeWithFieldExactlyWhen(db: Database, t: Name, f: Field, k: Kind)
    requires Valid(db) && Added(db, t, f).Success?
    requires Run(Added(db, t, f).value, DeferredStatements(t, f)).Success?
    ensures
      var d := Run(Added(db, t, f).value, DeferredStatements(t, f)).value;
      |MadeWithField(db, d, t, f.column, k)| ==
        if match k
           case PrimaryKey => f.primaryKey
           case Unique => f.uniqueFlag && !f.primaryKey
           case Index => f.dbIndex && !f.uniqueFlag && !f.primaryKey
           case ForeignKey(table, column) => f.rel == Some(Target(table, column)) && f.dbConstraint
           case Check(expr) => f.check == Some(expr)
           case Default(_) => false
        then 1 else 0
  {
    hide Added, Run, FinalKinds;
    FieldForm(db, t, f);
    var base := Bare(db, t, f);
    var d := WithAll(base, OnColumnAll(t, f.column, FinalKinds(f)));
    var place := FinalPlace(f, k);
    forall id: nat
      ensures id in MadeWithField(db, d, t, f.column, k) <==> place.Some? && id == base.next + place.value
    {
    }
    assert MadeWithField(db, d, t, f.column, k) == if place.Some? then {base.next + place.value} else {};
  }

  /** Existing rows hold the default in a new NOT NULL column, and NULL in a nullable one. */
  lemma AddedCells(db: Database, t: Name, f: Field, i: nat)
    requires Valid(db) && Added(db, t, f).Success?
    requires Run(Added(db, t, f).value, DeferredStatements(t, f)).Success?
    requires t in db.tables && i < db.tables[t].rows
    ensures
      var d := Run(Added(db, t, f).value, DeferredStatements(t, f)).value;
      && d.HasColumn(t, f.column) && |d.Column(t, f.column).cells| == db.tables[t].rows
      && f.column !in db.tables[t].columns
      && (if f.nullable then d.Column(t, f.column).cells[i] == Null
          else f.effectiveDefault.Some? && d.Column(t, f.column).cells[i] == f.effectiveDefault.value)
  {
    FieldForm(db, t, f);
    NewCell(db, t, f, i);
  }

  /** The server refuses a NOT NULL column without a default when there are rows. */
  lemma NewCell(db: Database, t: Name, f: Field, i: nat)
    requires Exec(db, AddStatement(t, f)).Success? && t in db.tables && i < db.tables[t].rows
    ensures f.nullable || (f.effectiveDefault.Some? && !f.effectiveDefault.value.Null?)
  {
    var cells := seq(db.tables[t].rows, _ => if !f.nullable && f.effectiveDefault.Some? then f.effectiveDefault.value else Null);
    if !f.nullable {
      assert cells[i] in cells;
    }
  }
}
