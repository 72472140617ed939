/** Running a rewritten INSERT on a server that guards its identity column. */
module InsertSession {
  import opened Wrappers
  import opened Strings
  import opened InsertCompiler
  import opened InsertReader

  type Row = map<Name, Value>

  /** The session's IDENTITY_INSERT setting, the table's rows and next identity, the return table, and what was selected last. */
  datatype Session = Session(
    identityInsert: Option<Name>,
    rows: seq<Row>,
    nextIdentity: int,
    returned: Option<seq<Option<Value>>>,
    selected: Option<seq<Option<Value>>>)

  // ---------- Inserting rows ----------

  function RowOf(columns: seq<Name>, values: seq<Value>): Row
    requires |columns| == |values|
  {
    if columns == [] then map[] else RowOf(columns[1..], values[1..])[columns[0] := values[0]]
  }

  /** The identity column gets the next number unless the row brings its own. */
  function CompleteRow(meta: Meta, next: int, columns: seq<Name>, values: seq<Value>): Row
    requires |columns| == |values|
  {
    if meta.autoField.Some? && meta.autoField.value !in columns
    then RowOf(columns, values)[meta.autoField.value := next] else RowOf(columns, values)
  }

  function NextIdentity(meta: Meta, next: int, row: Row): int {
    if meta.autoField.Some? && meta.autoField.value in row && row[meta.autoField.value] >= next
    then row[meta.autoField.value] + 1 else next
  }

  predicate Widths(columns: seq<Name>, rows: seq<seq<Value>>) {
    forall i :: 0 <= i < |rows| ==> |rows[i]| == |columns|
  }

  /** What an INSERT of these values is meant to add to the table. */
  function NewRows(meta: Meta, next: int, columns: seq<Name>, rows: seq<seq<Value>>): (r: seq<Row>)
    requires Widths(columns, rows)
    ensures |r| == |rows|
    decreases |rows|
  {
    if rows == [] then []
    else
      var row := CompleteRow(meta, next, columns, rows[0]);
      [row] + NewRows(meta, NextIdentity(meta, next, row), columns, rows[1..])
  }

  function IdentityAfter(meta: Meta, next: int, columns: seq<Name>, rows: seq<seq<Value>>): int
    requires Widths(columns, rows)
    decreases |rows|
  {
    if rows == [] then next
    else IdentityAfter(meta, NextIdentity(meta, next, CompleteRow(meta, next, columns, rows[0])), columns, rows[1..])
  }

  function Lookup(row: Row, column: Name): Option<Value> {
    if column in row then Some(row[column]) else None
  }

  function Keys(rows: seq<Row>, column: Name): (r: seq<Option<Value>>)
    ensures |r| == |rows|
  {
    seq(|rows|, i requires 0 <= i < |rows| => Lookup(rows[i], column))
  }

  // ---------- The statements ----------

  /** An explicit identity needs IDENTITY_INSERT, and IDENTITY_INSERT needs an explicit identity. */
  predicate IdentityAllowed(meta: Meta, s: Session, columns: seq<Name>) {
    meta.autoField.Some? ==> (meta.autoField.value in columns <==> s.identityInsert == Some(meta.table))
  }

  /** OUTPUT ... INTO needs the declared table. */
  function Add(meta: Meta, s: Session, columns: seq<Name>, rows: seq<seq<Value>>, output: Option<Name>): Option<Session>
    requires Widths(columns, rows)
  {
    if !IdentityAllowed(meta, s, columns) || (output.Some? && s.returned.None?) then None
    else
      var added := NewRows(meta, s.nextIdentity, columns, rows);
      Some(s.(
        rows := s.rows + added,
        nextIdentity := IdentityAfter(meta, s.nextIdentity, columns, rows),
        returned := if output.Some? then Some(s.returned.value + Keys(added, output.value)) else s.returned))
  }

  /** None where the server refuses the statement. */
  function Exec(meta: Meta, s: Session, statement: Statement): Option<Session> {
    match statement
    case SetNocountOn => Some(s)
    case DeclareReturnTable(_, _) => if s.returned.None? then Some(s.(returned := Some([]))) else None
    case SetIdentityInsert(table, on) =>
      if on then
        if s.identityInsert.None? || s.identityInsert == Some(table) then Some(s.(identityInsert := Some(table))) else None
      else Some(s.(identityInsert := None))
    case Insert(table, columns, rows, output) =>
      if table == meta.table && Widths(columns, rows) then Add(meta, s, columns, rows, output) else None
    case InsertDefaults(table, output) => if table == meta.table then Add(meta, s, [], [[]], output) else None
    case SelectReturned => if s.returned.Some? then Some(s.(selected := s.returned)) else None
  }

  function Run(meta: Meta, s: Session, batch: seq<Statement>): Option<Session>
    decreases |batch|
  {
    if batch == [] then Some(s)
    else match Exec(meta, s, batch[0])
      case Some(s1) => Run(meta, s1, batch[1..])
      case None => None
  }

  lemma RunCons(meta: Meta, s: Session, statement: Statement, batch: seq<Statement>)
    ensures Run(meta, s, [statement] + batch)
         == match Exec(meta, s, statement) case Some(s1) => Run(meta, s1, batch) case None => None
    ensures Run(meta, s, []) == Some(s)
  {
    assert ([statement] + batch)[1..] == batch;
  }

  lemma {:induction false} RunConcat(meta: Meta, s: Session, batch: seq<Statement>, more: seq<Statement>)
    ensures Run(meta, s, batch + more)
         == match Run(meta, s, batch) case Some(s1) => Run(meta, s1, more) case None => None
    decreases |batch|
  {
    if batch == [] {
      assert batch + more == more;
    } else {
      assert (batch + more)[1..] == batch[1..] + more;
      if Exec(meta, s, batch[0]).Some? {
        RunConcat(meta, Exec(meta, s, batch[0]).value, batch[1..], more);
      }
    }
  }

  // ---------- The rewritten INSERT ----------

  /** The columns and values that the rewritten statement inserts: one row of defaults when no value is given. */
  function EffectiveFields(meta: Meta, fields: seq<Name>, params: seq<Value>): seq<Name> {
    if DefaultsOnly(meta, fields, params) then [] else fields
  }

  function EffectiveRows(meta: Meta, fields: seq<Name>, rows: seq<seq<Value>>, params: seq<Value>): seq<seq<Value>> {
    if DefaultsOnly(meta, fields, params) then [[]] else rows
  }

  /** The session with these rows added, whatever statements did it. */
  function WithRows(meta: Meta, s: Session, columns: seq<Name>, rows: seq<seq<Value>>, output: Option<Name>): Session
    requires Widths(columns, rows) && (output.Some? ==> s.returned.Some?)
  {
    var added := NewRows(meta, s.nextIdentity, columns, rows);
    s.(rows := s.rows + added,
       nextIdentity := IdentityAfter(meta, s.nextIdentity, columns, rows),
       returned := if output.Some? then Some(s.returned.value + Keys(added, output.value)) else s.returned)
  }

  /** Identity inserts are switched on around the INSERT when, and only when, it brings an identity. */
  lemma CoreRuns(meta: Meta, s: Session, fields: seq<Name>, rows: seq<seq<Value>>, params: seq<Value>, output: Option<Name>)
    requires s.identityInsert.None? && Widths(fields, rows) && (output.Some? ==> s.returned.Some?)
    ensures Widths(EffectiveFields(meta, fields, params), EffectiveRows(meta, fields, rows, params))
    ensures Run(meta, s, Core(meta, fields, rows, params, output))
         == Some(WithRows(meta, s, EffectiveFields(meta, fields, params), EffectiveRows(meta, fields, rows, params), output))
  {
    hide Run, NewRows, IdentityAfter, Keys;
    if DefaultsOnly(meta, fields, params) {
      RunCons(meta, s, InsertDefaults(meta.table, output), []);
      RunCons(meta, WithRows(meta, s, [], [[]], output), SetNocountOn, []);
      assert [InsertDefaults(meta.table, output)] + [] == [InsertDefaults(meta.table, output)];
    } else if GivesIdentity(meta, fields, params) {
      IdentityWrapped(meta, s, fields, rows, output);
    } else {
      var insert := Insert(meta.table, fields, rows, output);
      RunCons(meta, s, insert, []);
      RunCons(meta, WithRows(meta, s, fields, rows, output), SetNocountOn, []);
      assert [insert] + [] == [insert];
    }
  }

  lemma IdentityWrapped(meta: Meta, s: Session, fields: seq<Name>, rows: seq<seq<Value>>, output: Option<Name>)
    requires s.identityInsert.None? && Widths(fields, rows) && (output.Some? ==> s.returned.Some?)
    requires meta.autoField.Some? && meta.autoField.value in fields
    ensures
      var on, off := SetIdentityInsert(meta.table, true), SetIdentityInsert(meta.table, false);
      Run(meta, s, [on, Insert(meta.table, fields, rows, output), off]) == Some(WithRows(meta, s, fields, rows, output))
  {
    hide Run, NewRows, IdentityAfter, Keys;
    var on, off := SetIdentityInsert(meta.table, true), SetIdentityInsert(meta.table, false);
    var insert := Insert(meta.table, fields, rows, output);
    var s1 := s.(identityInsert := Some(meta.table));
    var s2 := WithRows(meta, s1, fields, rows, output);
    RunCons(meta, s, on, [insert] + ([off] + []));
    RunCons(meta, s1, insert, [off] + []);
    RunCons(meta, s2, off, []);
    RunCons(meta, s2.(identityInsert := None), off, []);
    assert [on] + ([insert] + ([off] + [])) == [on, insert, off];
  }

  /**
   On a session with identity inserts off the batch is accepted, leaves them off, adds exactly the rows
   that were asked for, and with returnId answers exactly their primary keys.
   */
  lemma BatchInserts(meta: Meta, s: Session, fields: seq<Name>, rows: seq<seq<Value>>, params: seq<Value>, returnId: bool)
    requires s.identityInsert.None? && s.returned.None? && Widths(fields, rows)
    ensures Widths(EffectiveFields(meta, fields, params), EffectiveRows(meta, fields, rows, params))
    ensures Run(meta, s, Batch(meta, fields, rows, params, returnId)).Some?
    ensures
      var s' := Run(meta, s, Batch(meta, fields, rows, params, returnId)).value;
      var added := NewRows(meta, s.nextIdentity, EffectiveFields(meta, fields, params), EffectiveRows(meta, fields, rows, params));
      && s'.identityInsert.None?
      && s'.rows == s.rows + added
      && (returnId ==> s'.selected == Some(Keys(added, meta.pk)))
      && (!returnId ==> s'.selected == s.selected)
  {
    hide Run, NewRows, IdentityAfter, Keys;
    if returnId {
      var declare := DeclareReturnTable(meta.pk, meta.pkType);
      var core := Core(meta, fields, rows, params, Some(meta.pk));
      var s1 := s.(returned := Some([]));
      CoreRuns(meta, s1, fields, rows, params, Some(meta.pk));
      var s2 := Run(meta, s1, core).value;
      var keys := Keys(NewRows(meta, s1.nextIdentity, EffectiveFields(meta, fields, params),
                               EffectiveRows(meta, fields, rows, params)), meta.pk);
      assert s2.returned == Some([] + keys) && [] + keys == keys;
      RunConcat(meta, s1, core, [SelectReturned]);
      RunCons(meta, s2, SelectReturned, []);
      RunCons(meta, s2.(selected := s2.returned), SelectReturned, []);
      assert [SelectReturned] + [] == [SelectReturned];
      RunCons(meta, s, declare, core + [SelectReturned]);
      RunCons(meta, s, SetNocountOn, [declare] + (core + [SelectReturned]));
      assert [SetNocountOn] + ([declare] + (core + [SelectReturned])) == Batch(meta, fields, rows, params, true);
    } else {
      CoreRuns(meta, s, fields, rows, params, None);
    }
  }

  // ---------- From the text to the rows ----------

  /** The text of a batch, with its parameters, is read by the server as that batch. */
  lemma BatchIsSql(meta: Meta, fields: seq<Name>, rows: seq<seq<Value>>, params: seq<Value>, returnId: bool)
    requires PlainNames(meta, fields) && Readable(meta.pkType) && Widths(fields, rows)
    requires DefaultsOnly(meta, fields, params) || (fields != [] && rows != [] && params == Flat(rows))
    ensures ReadSql(Render(Batch(meta, fields, rows, params, returnId)), if DefaultsOnly(meta, fields, params) then [] else params)
         == Some(Batch(meta, fields, rows, params, returnId))
  {
    hide Render, ReadSql, Batch, AllParams, CanBeRead, RowsFit, Readable, PlainNames;
    BatchCanBeRead(meta, fields, rows, params, returnId);
    BatchParams(meta, fields, rows, params, returnId);
    SqlReads(Batch(meta, fields, rows, params, returnId));
  }

  lemma BatchParams(meta: Meta, fields: seq<Name>, rows: seq<seq<Value>>, params: seq<Value>, returnId: bool)
    requires DefaultsOnly(meta, fields, params) || params == Flat(rows)
    ensures AllParams(Batch(meta, fields, rows, params, returnId)) == if DefaultsOnly(meta, fields, params) then [] else params
  {
    hide AllParams, Core, DefaultsOnly;
    var output := if returnId then Some(meta.pk) else None;
    var core := Core(meta, fields, rows, params, output);
    CoreParams(meta, fields, rows, params, output);
    if returnId {
      var before, behind := [SetNocountOn, DeclareReturnTable(meta.pk, meta.pkType)], [SelectReturned];
      NoParams(before[0]);
      NoParams(before[1]);
      NoParams(behind[0]);
      assert before == [before[0]] + [before[1]];
      AllParamsConcat([before[0]], [before[1]]);
      AllParamsConcat(before, core);
      AllParamsConcat(before + core, behind);
      assert [] + AllParams(core) + [] == AllParams(core);
    }
  }

  lemma BatchCanBeRead(meta: Meta, fields: seq<Name>, rows: seq<seq<Value>>, params: seq<Value>, returnId: bool)
    requires PlainNames(meta, fields) && Readable(meta.pkType) && Widths(fields, rows)
    requires DefaultsOnly(meta, fields, params) || (fields != [] && rows != [])
    ensures
      var batch := Batch(meta, fields, rows, params, returnId);
      batch != [] && forall i :: 0 <= i < |batch| ==> CanBeRead(batch[i]) && RowsFit(batch[i])
  {
    hide Readable;
  }

  lemma NoParams(s: Statement)
    requires !s.Insert?
    ensures AllParams([s]) == []
  {
    OneStatement(s);
  }

  lemma OneStatement(s: Statement)
    ensures AllParams([s]) == ParamsOf(s)
  {
    assert [s][1..] == [] && ParamsOf(s) + [] == ParamsOf(s);
  }

  lemma {:induction false} AllParamsConcat(a: seq<Statement>, b: seq<Statement>)
    ensures AllParams(a + b) == AllParams(a) + AllParams(b)
    decreases |a|
  {
    if a == [] {
      assert a + b == b && [] + AllParams(b) == AllParams(b);
    } else {
      assert (a + b)[1..] == a[1..] + b;
      AllParamsConcat(a[1..], b);
    }
  }

  lemma CoreParams(meta: Meta, fields: seq<Name>, rows: seq<seq<Value>>, params: seq<Value>, output: Option<Name>)
    requires DefaultsOnly(meta, fields, params) || params == Flat(rows)
    ensures AllParams(Core(meta, fields, rows, params, output)) == if DefaultsOnly(meta, fields, params) then [] else params
  {
    hide AllParams;
    var insert := Insert(meta.table, fields, rows, output);
    if DefaultsOnly(meta, fields, params) {
      NoParams(InsertDefaults(meta.table, output));
    } else if GivesIdentity(meta, fields, params) {
      var on, off := SetIdentityInsert(meta.table, true), SetIdentityInsert(meta.table, false);
      NoParams(on);
      NoParams(off);
      OneStatement(insert);
      AllParamsConcat([on], [insert]);
      AllParamsConcat([on] + [insert], [off]);
      assert [on, insert, off] == [on] + [insert] + [off];
      assert [] + params + [] == params;
    } else {
      OneStatement(insert);
    }
  }

  /**
   What _fix_insert emits, run as the server reads it, on a session with identity inserts off: it is accepted, leaves
   them off, adds exactly the rows asked for, one row of defaults when no value is given, and with returnId selects
   exactly their primary keys.
   */
  method FixedInsertRuns(meta: Meta, ghost s: Session, fields: seq<Name>, rows: seq<seq<Value>>, returnId: bool, sql: string, params: seq<Value>)
    returns (text: string, ps: seq<Value>)
    requires PlainNames(meta, fields) && Readable(meta.pkType) && Widths(fields, rows)
    requires (meta.autoField.Some? && (fields == [] || (fields == [meta.autoField.value] && params == [])))
             || (fields != [] && rows != [] && params == Flat(rows) && sql == InsertText(meta.table, fields, |rows|, ""))
    requires s.identityInsert.None? && s.returned.None?
    ensures ReadSql(text, ps).Some? && Run(meta, s, ReadSql(text, ps).value).Some?
    ensures returnId ==> |ReadSql(text, ps).value| >= 2
    ensures
      var s' := Run(meta, s, ReadSql(text, ps).value).value;
      var noValue := meta.autoField.Some? && (fields == [] || (fields == [meta.autoField.value] && params == []));
      var added := if noValue then NewRows(meta, s.nextIdentity, [], [[]]) else NewRows(meta, s.nextIdentity, fields, rows);
      && s'.identityInsert.None? && s'.rows == s.rows + added
      && (!returnId ==> s'.selected == s.selected)
      && (returnId ==>
            && ReadSql(text, ps).value[..2] == [SetNocountOn, DeclareReturnTable(meta.pk, meta.pkType)]
            && s'.selected.Some? && |s'.selected.value| == |added|
            && forall i :: 0 <= i < |added| ==>
                 s'.selected.value[i] == if meta.pk in added[i] then Some(added[i][meta.pk]) else None)
  {
    assert |fields| == 1 ==> fields == [fields[0]];
    text, ps := FixInsert(meta, fields, rows, returnId, sql, params);
    assert returnId ==> Batch(meta, fields, rows, params, returnId)[..2] == [SetNocountOn, DeclareReturnTable(meta.pk, meta.pkType)];
    hide Run, NewRows, ReadSql, Render, Batch;
    BatchIsSql(meta, fields, rows, params, returnId);
    BatchInserts(meta, s, fields, rows, params, returnId);
    assert |fields| == 1 ==> fields == [fields[0]];
  }

  /** Ordinary names, types and rows meet the premises, with a length behind the type or without. */
  lemma OrdinaryInsert(length: bool)
    ensures
      var meta := Meta("author", Some("id"), "id", PkType("varchar", if length then Some("36") else None));
      PlainNames(meta, ["id", "name"]) && Readable(meta.pkType) && Widths(["id", "name"], [[1, 7], [2, 8]])
  {
    var ty := "varchar";
    assert !StartsWith(ty[..3], "def") by { assert Lower(ty[..3][0]) == 'v'; }
    assert !StartsWith(ty[..3], "val") by { assert Lower(ty[..3][2]) == 'r'; }
  }

  /** Rows without any field: however many were asked for one is inserted, so it is right for exactly one. */
  lemma FieldlessInsertsOne(meta: Meta, s: Session, rows: seq<seq<Value>>, params: seq<Value>)
    requires meta.autoField.Some? && s.identityInsert.None? && s.returned.None? && Widths([], rows)
    ensures Run(meta, s, Batch(meta, [], rows, params, false)).Some?
    ensures
      Run(meta, s, Batch(meta, [], rows, params, false)).value.rows == s.rows + NewRows(meta, s.nextIdentity, [], rows)
      <==> |rows| == 1
  {
    BatchInserts(meta, s, [], rows, params, false);
    var s' := Run(meta, s, Batch(meta, [], rows, params, false)).value;
    var one := NewRows(meta, s.nextIdentity, [], [[]]);
    var all := NewRows(meta, s.nextIdentity, [], rows);
    assert s'.rows == s.rows + one;
    if |rows| == 1 {
      assert rows == [[]];
    } else {
      assert |s.rows + one| != |s.rows + all|;
    }
  }

  /** Fields that were given values hold them; identities that were not are new and increasing. */
  lemma {:induction false} RowsHoldValues(meta: Meta, next: int, columns: seq<Name>, rows: seq<seq<Value>>, i: nat, j: nat)
    requires Widths(columns, rows) && i < |rows| && j < |columns|
    requires forall k, l :: 0 <= k < l < |columns| ==> columns[k] != columns[l]
    ensures columns[j] in NewRows(meta, next, columns, rows)[i]
    ensures NewRows(meta, next, columns, rows)[i][columns[j]] == rows[i][j]
    decreases i
  {
    if i == 0 {
      RowHoldsValue(columns, rows[0], j);
      assert meta.autoField.Some? && meta.autoField.value !in columns ==> meta.autoField.value != columns[j];
    } else {
      var row := CompleteRow(meta, next, columns, rows[0]);
      RowsHoldValues(meta, NextIdentity(meta, next, row), columns, rows[1..], i - 1, j);
    }
  }

  lemma {:induction false} RowHoldsValue(columns: seq<Name>, values: seq<Value>, j: nat)
    requires |columns| == |values| && j < |columns|
    requires forall k, l :: 0 <= k < l < |columns| ==> columns[k] != columns[l]
    ensures columns[j] in RowOf(columns, values) && RowOf(columns, values)[columns[j]] == values[j]
    decreases |columns|
  {
    if j > 0 {
      RowHoldsValue(columns[1..], values[1..], j - 1);
    }
  }
}
