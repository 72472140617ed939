/** INSERT statements with explicit identities and returned keys. */
module InsertCompiler {
  import opened Wrappers
  import opened Strings
  import opened OutputSplice

  type Name = string
  type Value = int

  /** A column type: its name, and what stands in parentheses after it. */
  datatype PkType = PkType(base: string, args: Option<string>) {
    function Text(): string { base + (if args.Some? then "(" + args.value + ")" else "") }

    /** No type name begins like one of the words the expression looks for. */
    predicate Plain() {
      && |base| >= 3 && NoClosers(base) && !IsSpace(base[0])
      && !StartsWith(base[..3], "val") && !StartsWith(base[..3], "def")
      && (args.Some? ==> NoClosers(args.value))
    }
  }

  datatype Meta = Meta(table: Name, autoField: Option<Name>, pk: Name, pkType: PkType) {
    predicate Plain() { NoClosers(table) && NoClosers(pk) && pkType.Plain() }
  }

  // ---------- The batch as the server reads it ----------

  datatype Statement =
    | SetNocountOn
    | DeclareReturnTable(pk: Name, pkType: PkType)
    | SetIdentityInsert(table: Name, on: bool)
    | Insert(table: Name, columns: seq<Name>, rows: seq<seq<Value>>, output: Option<Name>)
    | InsertDefaults(table: Name, output: Option<Name>)
    | SelectReturned

  // ---------- Its text ----------

  function ColumnList(columns: seq<Name>): string {
    if columns == [] then ""
    else if |columns| == 1 then QuoteName(columns[0])
    else QuoteName(columns[0]) + (", " + ColumnList(columns[1..]))
  }

  function Placeholders(n: nat): string {
    if n == 0 then "" else if n == 1 then "%s" else "%s, " + Placeholders(n - 1)
  }

  function RowsText(count: nat, width: nat): string {
    if count == 0 then ""
    else if count == 1 then "(" + (Placeholders(width) + ")")
    else "(" + (Placeholders(width) + (")" + (", " + RowsText(count - 1, width))))
  }

  function Clause(output: Option<Name>): string {
    if output.Some? then " OUTPUT INSERTED." + QuoteName(output.value) + " INTO @sqlserver_ado_return_id" else ""
  }

  function InsertText(table: Name, columns: seq<Name>, count: nat, clause: string): string {
    "INSERT INTO " + (QuoteName(table) + (" (" + (ColumnList(columns) + (")" + (clause
      + (" VALUES " + RowsText(count, |columns|)))))))
  }

  function DefaultsText(table: Name, clause: string): string {
    "INSERT INTO " + (QuoteName(table) + (clause + " DEFAULT VALUES"))
  }

  function IdentityText(table: Name, on: bool): string {
    "SET IDENTITY_INSERT " + (QuoteName(table) + (if on then " ON" else " OFF"))
  }

  function DeclareText(pk: Name, pkType: PkType): string {
    "DECLARE @sqlserver_ado_return_id table (" + (QuoteName(pk) + (" " + (pkType.Text() + ")")))
  }

  function Text(s: Statement): string {
    match s
    case SetNocountOn => "SET NOCOUNT ON"
    case DeclareReturnTable(pk, pkType) => DeclareText(pk, pkType)
    case SetIdentityInsert(table, on) => IdentityText(table, on)
    case Insert(table, columns, rows, output) => InsertText(table, columns, |rows|, Clause(output))
    case InsertDefaults(table, output) => DefaultsText(table, Clause(output))
    case SelectReturned => "SELECT * FROM @sqlserver_ado_return_id"
  }

  function Render(batch: seq<Statement>): string {
    if batch == [] then ""
    else if |batch| == 1 then Text(batch[0])
    else Text(batch[0]) + (";" + Render(batch[1..]))
  }

  // ---------- _fix_insert ----------

  /** No value is given, so the row consists of defaults. */
  predicate DefaultsOnly(meta: Meta, fields: seq<Name>, params: seq<Value>) {
    meta.autoField.Some? && (fields == [] || (meta.autoField.value in fields && |fields| == 1 && params == []))
  }

  predicate GivesIdentity(meta: Meta, fields: seq<Name>, params: seq<Value>) {
    meta.autoField.Some? && !DefaultsOnly(meta, fields, params) && meta.autoField.value in fields
  }

  /** The statements that stand for the INSERT. */
  function Core(meta: Meta, fields: seq<Name>, rows: seq<seq<Value>>, params: seq<Value>, output: Option<Name>): seq<Statement> {
    if DefaultsOnly(meta, fields, params) then [InsertDefaults(meta.table, output)]
    else if GivesIdentity(meta, fields, params) then
      [SetIdentityInsert(meta.table, true), Insert(meta.table, fields, rows, output), SetIdentityInsert(meta.table, false)]
    else [Insert(meta.table, fields, rows, output)]
  }

  function Batch(meta: Meta, fields: seq<Name>, rows: seq<seq<Value>>, params: seq<Value>, returnId: bool): seq<Statement> {
    if returnId then
      [SetNocountOn, DeclareReturnTable(meta.pk, meta.pkType)] + Core(meta, fields, rows, params, Some(meta.pk)) + [SelectReturned]
    else Core(meta, fields, rows, params, None)
  }

  /** The text is Django's INSERT of these fields, which does not matter for a row of defaults. */
  predicate Written(meta: Meta, fields: seq<Name>, rows: seq<seq<Value>>, sql: string, params: seq<Value>) {
    DefaultsOnly(meta, fields, params) || (fields != [] && rows != [] && sql == InsertText(meta.table, fields, |rows|, ""))
  }

  /** No name or type has in it what the expression looks for. */
  predicate PlainNames(meta: Meta, fields: seq<Name>) {
    meta.Plain() && forall i :: 0 <= i < |fields| ==> NoClosers(fields[i])
  }

  /**
   Rewrites the INSERT text that Django produced. Without an AutoField, and without a key to return, every text
   stays as it is, that of an INSERT without fields included.
   */
  method FixInsert(meta: Meta, fields: seq<Name>, rows: seq<seq<Value>>, returnId: bool, sql: string, params: seq<Value>)
    returns (text: string, ps: seq<Value>)
    ensures Written(meta, fields, rows, sql, params) && (returnId ==> PlainNames(meta, fields)) ==>
              text == Render(Batch(meta, fields, rows, params, returnId))
    ensures meta.autoField.None? && !returnId ==> text == sql
    ensures ps == if DefaultsOnly(meta, fields, params) then [] else params
  {
    hide Splice, Render, NoClosers, ColumnList, RowsText, QuoteName;
    text, ps := sql, params;
    if meta.autoField.Some? {
      var autoInFields := meta.autoField.value in fields;
      var quotedTable := QuoteName(meta.table);
      if fields == [] || (autoInFields && |fields| == 1 && params == []) {
        text := "INSERT INTO " + (quotedTable + " DEFAULT VALUES");
        ps := [];
      } else if autoInFields {
        text := "SET IDENTITY_INSERT " + (quotedTable + " ON") + (";" + (text + (";" + ("SET IDENTITY_INSERT " + (quotedTable + " OFF")))));
      }
    }
    ghost var written := Written(meta, fields, rows, sql, params);
    assert written ==> text == CoreWith(meta, fields, |rows|, params, "");
    if written {
      CoreText(meta, fields, rows, params, text);
    }
    if returnId {
      var col := QuoteName(meta.pk);
      var declareTableVar := "DECLARE @sqlserver_ado_return_id table (" + (col + (" " + (meta.pkType.Text() + ")")));
      text := "SET NOCOUNT ON" + (";" + (declareTableVar + (";" + (text + (";" + "SELECT * FROM @sqlserver_ado_return_id")))));
      var clause := " OUTPUT INSERTED." + col + " INTO @sqlserver_ado_return_id";
      if written && PlainNames(meta, fields) {
        BatchSpliced(meta, fields, rows, params, clause);
        BatchText(meta, fields, rows, params);
      }
      text := Splice(text, clause);
    }
  }

  // ---------- The text of the core ----------

  function CoreWith(meta: Meta, fields: seq<Name>, count: nat, params: seq<Value>, clause: string): string {
    if DefaultsOnly(meta, fields, params) then DefaultsText(meta.table, clause)
    else if GivesIdentity(meta, fields, params) then
      IdentityText(meta.table, true) + (";" + (InsertText(meta.table, fields, count, clause) + (";" + IdentityText(meta.table, false))))
    else InsertText(meta.table, fields, count, clause)
  }

  lemma RenderCons(s: Statement, batch: seq<Statement>)
    requires batch != []
    ensures Render([s] + batch) == Text(s) + (";" + Render(batch))
    ensures Render([s]) == Text(s)
  {
    hide Text;
    assert ([s] + batch)[1..] == batch;
  }

  lemma CoreRendered(meta: Meta, fields: seq<Name>, rows: seq<seq<Value>>, params: seq<Value>, output: Option<Name>)
    ensures Render(Core(meta, fields, rows, params, output)) == CoreWith(meta, fields, |rows|, params, Clause(output))
  {
    hide Render, IdentityText, InsertText, DefaultsText;
    var on, off := SetIdentityInsert(meta.table, true), SetIdentityInsert(meta.table, false);
    var insert := Insert(meta.table, fields, rows, output);
    RenderCons(insert, [off]);
    RenderCons(off, [off]);
    RenderCons(on, [insert] + [off]);
    RenderCons(InsertDefaults(meta.table, output), [off]);
    assert [on] + ([insert] + [off]) == [on, insert, off];
  }

  lemma CoreText(meta: Meta, fields: seq<Name>, rows: seq<seq<Value>>, params: seq<Value>, text: string)
    requires text == CoreWith(meta, fields, |rows|, params, "")
    ensures text == Render(Core(meta, fields, rows, params, None))
  {
    CoreRendered(meta, fields, rows, params, None);
  }

  /** The text around the core when the key is returned. */
  function Around(meta: Meta, core: string): string {
    "SET NOCOUNT ON" + (";" + (DeclareText(meta.pk, meta.pkType) + (";" + (core + (";" + "SELECT * FROM @sqlserver_ado_return_id")))))
  }

  lemma {:induction false} RenderAppend(batch: seq<Statement>, s: Statement)
    requires batch != []
    ensures Render(batch + [s]) == Render(batch) + (";" + Text(s))
    decreases |batch|
  {
    if |batch| == 1 {
      assert (batch + [s])[1..] == [s];
    } else {
      assert (batch + [s])[1..] == batch[1..] + [s];
      RenderAppend(batch[1..], s);
      Regroup(Text(batch[0]), ";" + Render(batch[1..]), ";" + Text(s));
      Regroup(";", Render(batch[1..]), ";" + Text(s));
    }
  }

  lemma AroundRendered(meta: Meta, core: seq<Statement>)
    requires core != []
    ensures Render([SetNocountOn, DeclareReturnTable(meta.pk, meta.pkType)] + core + [SelectReturned]) == Around(meta, Render(core))
  {
    hide Render, DeclareText;
    var declare := DeclareReturnTable(meta.pk, meta.pkType);
    var tail := core + [SelectReturned];
    RenderAppend(core, SelectReturned);
    RenderCons(declare, tail);
    RenderCons(SetNocountOn, [declare] + tail);
    assert [SetNocountOn] + ([declare] + tail) == [SetNocountOn, declare] + core + [SelectReturned];
  }

  // ---------- The splice hits exactly one place ----------

  lemma QuoteSkipped(name: Name, s: string, clause: string)
    requires NoClosers(name) && Harmless(s)
    ensures Splice(QuoteName(name) + s, clause) == QuoteName(name) + Splice(s, clause)
  {
    NotQuoted(name);
    CloserSkipped(']', s, clause);
    SpliceSkips("[" + name, "]" + s, clause);
    Regroup("[" + name, "]", s);
    Regroup("[" + name, "]", Splice(s, clause));
  }

  lemma NotQuoted(name: Name)
    requires NoClosers(name)
    ensures QuoteName(name) == ("[" + name) + "]" && NoClosers("[" + name)
  {
  }

  lemma QuoteSpaceSkipped(name: Name, s: string, clause: string)
    requires NoClosers(name) && Harmless(s)
    ensures Splice(QuoteName(name) + (" " + s), clause) == QuoteName(name) + (" " + Splice(s, clause))
  {
    NotQuoted(name);
    CloserSpaceSkipped(']', s, clause);
    SpliceSkips("[" + name, "]" + (" " + s), clause);
    Regroup("[" + name, "]", " " + s);
    Regroup("[" + name, "]", " " + Splice(s, clause));
  }

  lemma {:induction false} ColumnsSkipped(columns: seq<Name>, s: string, clause: string)
    requires forall i :: 0 <= i < |columns| ==> NoClosers(columns[i])
    requires columns != [] && Harmless(s)
    ensures Splice(ColumnList(columns) + s, clause) == ColumnList(columns) + Splice(s, clause)
    decreases |columns|
  {
    if |columns| == 1 {
      QuoteSkipped(columns[0], s, clause);
    } else {
      var rest := ColumnList(columns[1..]);
      ColumnsSkipped(columns[1..], s, clause);
      SpliceSkips(", ", rest + s, clause);
      CommaIsHarmless(rest + s);
      QuoteSkipped(columns[0], ", " + (rest + s), clause);
      Regroup(QuoteName(columns[0]), ", " + rest, s);
      Regroup(", ", rest, s);
      Regroup(QuoteName(columns[0]), ", " + rest, Splice(s, clause));
      Regroup(", ", rest, Splice(s, clause));
    }
  }

  lemma CommaIsHarmless(s: string)
    ensures Harmless(", " + s)
  {
    HarmlessStart(',', " " + s);
    assert "," + (" " + s) == ", " + s;
  }

  lemma {:induction false} PlaceholdersPlain(n: nat)
    ensures NoClosers(Placeholders(n))
    decreases n
  {
    if n > 1 {
      PlaceholdersPlain(n - 1);
    }
  }

  lemma {:induction false} RowsSkipped(count: nat, width: nat, s: string, clause: string)
    requires count > 0 && Harmless(s)
    ensures Splice(RowsText(count, width) + s, clause) == RowsText(count, width) + Splice(s, clause)
    decreases count
  {
    var open := "(" + Placeholders(width);
    PlaceholdersPlain(width);
    assert NoClosers(open);
    if count == 1 {
      CloserSkipped(')', s, clause);
      SpliceSkips(open, ")" + s, clause);
      OneRow(open, Placeholders(width), s);
      OneRow(open, Placeholders(width), Splice(s, clause));
    } else {
      var rest := RowsText(count - 1, width);
      RowsSkipped(count - 1, width, s, clause);
      SpliceSkips(", ", rest + s, clause);
      CommaIsHarmless(rest + s);
      CloserSkipped(')', ", " + (rest + s), clause);
      SpliceSkips(open, ")" + (", " + (rest + s)), clause);
      OneRowAndMore(open, Placeholders(width), rest, s);
      OneRowAndMore(open, Placeholders(width), rest, Splice(s, clause));
    }
  }

  lemma OneRow(open: string, placeholders: string, s: string)
    requires open == "(" + placeholders
    ensures ("(" + (placeholders + ")")) + s == open + (")" + s)
  {
  }

  lemma OneRowAndMore(open: string, placeholders: string, rest: string, s: string)
    requires open == "(" + placeholders
    ensures ("(" + (placeholders + (")" + (", " + rest)))) + s == open + (")" + (", " + (rest + s)))
  {
  }

  lemma InsertFlat(table: Name, columns: seq<Name>, count: nat, clause: string, s: string)
    ensures InsertText(table, columns, count, clause) + s
         == "INSERT INTO " + (QuoteName(table) + (" " + ("(" + (ColumnList(columns)
              + (")" + (clause + (" VALUES" + (" " + (RowsText(count, |columns|) + s)))))))))
  {
    hide QuoteName, ColumnList, RowsText;
    var q, l, r := QuoteName(table), ColumnList(columns), RowsText(count, |columns|);
    assert " (" == " " + "(" && " VALUES " == " VALUES" + " ";
    InsertRegroup("INSERT INTO ", q, " ", "(", l, ")", clause, " VALUES", " ", r, s);
  }

  lemma InsertRegroup(a: string, q: string, sp: string, o: string, l: string, c: string, clause: string, v: string, sp': string, r: string, s: string)
    ensures a + (q + ((sp + o) + (l + (c + (clause + ((v + sp') + r)))))) + s
         == a + (q + (sp + (o + (l + (c + (clause + (v + (sp' + (r + s)))))))))
  {
  }

  /** In an INSERT with values the clause goes between the column list and VALUES, and nowhere else. */
  lemma InsertSpliced(table: Name, columns: seq<Name>, count: nat, s: string, clause: string)
    requires NoClosers(table) && forall i :: 0 <= i < |columns| ==> NoClosers(columns[i])
    requires columns != [] && count > 0 && Harmless(s)
    ensures Splice(InsertText(table, columns, count, "") + s, clause) == InsertText(table, columns, count, clause) + Splice(s, clause)
  {
    hide Splice, InsertText, QuoteName, ColumnList, RowsText, Harmless;
    var q, l, r := QuoteName(table), ColumnList(columns), RowsText(count, |columns|);
    InsertFlat(table, columns, count, "", s);
    InsertFlat(table, columns, count, clause, Splice(s, clause));
    var values := " VALUES" + (" " + (r + s));
    assert "" + values == values;
    RowsSkipped(count, |columns|, s, clause);
    SpliceSkips(" ", r + s, clause);
    ValuesSpliced(')', " " + (r + s), clause);
    HarmlessStart(')', values);
    ColumnsSkipped(columns, ")" + values, clause);
    SpliceSkips("(", l + (")" + values), clause);
    HarmlessStart('(', l + (")" + values));
    QuoteSpaceSkipped(table, "(" + (l + (")" + values)), clause);
    SpliceSkips("INSERT INTO ", q + (" " + ("(" + (l + (")" + values)))), clause);
    AfterClose(clause, " VALUES", " " + (r + Splice(s, clause)));
  }

  lemma AfterClose(clause: string, v: string, s: string)
    ensures [')'] + clause + v + s == ")" + (clause + (v + s))
  {
  }

  lemma DefaultsSpliced(table: Name, s: string, clause: string)
    requires NoClosers(table)
    ensures Splice(DefaultsText(table, "") + s, clause) == DefaultsText(table, clause) + Splice(s, clause)
  {
    hide Splice, QuoteName;
    NotQuoted(table);
    var open, values := "[" + table, " DEFAULT VALUES";
    assert "" + values == values;
    DefaultValuesSpliced(']', s, clause);
    SpliceSkips(open, "]" + (values + s), clause);
    SpliceSkips("INSERT INTO ", open + ("]" + (values + s)), clause);
    DefaultsRegroup("INSERT INTO ", open, "]", values, s);
    DefaultsRegroupClause("INSERT INTO ", open, "]", clause, values, Splice(s, clause));
  }

  lemma DefaultsRegroup(a: string, open: string, c: string, v: string, s: string)
    ensures a + ((open + c) + v) + s == a + (open + (c + (v + s)))
  {
  }

  lemma DefaultsRegroupClause(a: string, open: string, c: string, clause: string, v: string, s: string)
    ensures a + ((open + c) + (clause + v)) + s == a + (open + (c + clause + v + s))
  {
  }

  lemma IdentitySkipped(table: Name, on: bool, s: string, clause: string)
    requires NoClosers(table)
    ensures Splice(IdentityText(table, on) + s, clause) == IdentityText(table, on) + Splice(s, clause)
  {
    hide Splice, QuoteName, Harmless, NoClosers;
    LiteralsPlain();
    var word := if on then "ON" else "OFF";
    var rest := word[1..];
    assert word == "O" + rest;
    HarmlessStart('O', rest + s);
    Regroup("O", rest, s);
    QuoteSpaceSkipped(table, word + s, clause);
    SpliceSkips(word, s, clause);
    SpliceSkips("SET IDENTITY_INSERT ", QuoteName(table) + (" " + (word + s)), clause);
    assert (if on then " ON" else " OFF") == " " + word;
    IdentityRegroup("SET IDENTITY_INSERT ", QuoteName(table), " ", word, s);
    IdentityRegroup("SET IDENTITY_INSERT ", QuoteName(table), " ", word, Splice(s, clause));
  }

  lemma IdentityRegroup(a: string, q: string, sp: string, w: string, s: string)
    ensures a + (q + (sp + w)) + s == a + (q + (sp + (w + s)))
  {
  }

  lemma TypeSkipped(ty: PkType, s: string, clause: string)
    requires ty.Plain() && Harmless(s)
    ensures Splice(ty.Text() + s, clause) == ty.Text() + Splice(s, clause)
  {
    hide Splice, Harmless;
    if ty.args.Some? {
      var open := ty.base + ("(" + ty.args.value);
      CloserSkipped(')', s, clause);
      SpliceSkips(open, ")" + s, clause);
      assert ty.Text() == open + ")";
      Regroup(open, ")", s);
      Regroup(open, ")", Splice(s, clause));
    } else {
      assert ty.base + "" == ty.base;
      SpliceSkips(ty.base, s, clause);
    }
  }

  lemma OtherWord(t: string, short: string, word: string)
    requires |t| >= 3 && |short| == 3 && |word| >= 3 && word[..3] == short && !StartsWith(t[..3], short)
    ensures !StartsWith(t, word)
  {
    var i :| 0 <= i < 3 && Lower(t[..3][i]) != short[i];
    assert t[i] == t[..3][i] && word[i] == word[..3][i];
  }

  lemma TypeIsHarmless(ty: PkType, s: string)
    requires ty.Plain()
    ensures Harmless(ty.Text() + s)
  {
    var t := ty.Text() + s;
    assert t[0] == ty.base[0] && t[..3] == ty.base[..3];
    assert "values"[..3] == "val" && "default"[..3] == "def";
    OtherWord(t, "val", "values");
    OtherWord(t, "def", "default");
  }

  lemma DeclareSkipped(pk: Name, ty: PkType, s: string, clause: string)
    requires NoClosers(pk) && ty.Plain() && Harmless(s)
    ensures Splice(DeclareText(pk, ty) + s, clause) == DeclareText(pk, ty) + Splice(s, clause)
  {
    hide Splice, QuoteName, Harmless;
    var head := "DECLARE @sqlserver_ado_return_id table (";
    CloserSkipped(')', s, clause);
    HarmlessStart(')', s);
    TypeSkipped(ty, ")" + s, clause);
    TypeIsHarmless(ty, ")" + s);
    QuoteSpaceSkipped(pk, ty.Text() + (")" + s), clause);
    SpliceSkips(head, QuoteName(pk) + (" " + (ty.Text() + (")" + s))), clause);
    DeclareRegroup(head, QuoteName(pk), " ", ty.Text(), ")", s);
    DeclareRegroup(head, QuoteName(pk), " ", ty.Text(), ")", Splice(s, clause));
  }

  lemma DeclareRegroup(a: string, q: string, sp: string, t: string, c: string, s: string)
    ensures a + (q + (sp + (t + c))) + s == a + (q + (sp + (t + (c + s))))
  {
  }

  lemma CoreSpliced(meta: Meta, fields: seq<Name>, count: nat, params: seq<Value>, s: string, clause: string)
    requires meta.Plain() && forall i :: 0 <= i < |fields| ==> NoClosers(fields[i])
    requires DefaultsOnly(meta, fields, params) || (fields != [] && count > 0)
    requires Harmless(s)
    ensures Splice(CoreWith(meta, fields, count, params, "") + s, clause)
         == CoreWith(meta, fields, count, params, clause) + Splice(s, clause)
  {
    hide Splice, InsertText, DefaultsText, IdentityText, Harmless;
    if DefaultsOnly(meta, fields, params) {
      DefaultsSpliced(meta.table, s, clause);
    } else if GivesIdentity(meta, fields, params) {
      var on, off := IdentityText(meta.table, true), IdentityText(meta.table, false);
      var insert, inserted := InsertText(meta.table, fields, count, ""), InsertText(meta.table, fields, count, clause);
      IdentitySkipped(meta.table, false, s, clause);
      SpliceSkips(";", off + s, clause);
      HarmlessStart(';', off + s);
      InsertSpliced(meta.table, fields, count, ";" + (off + s), clause);
      SpliceSkips(";", insert + (";" + (off + s)), clause);
      IdentitySkipped(meta.table, true, ";" + (insert + (";" + (off + s))), clause);
      CoreRegroup(on, ";", insert, off, s);
      CoreRegroup(on, ";", inserted, off, Splice(s, clause));
    } else {
      InsertSpliced(meta.table, fields, count, s, clause);
    }
  }

  lemma CoreRegroup(on: string, semi: string, insert: string, off: string, s: string)
    ensures on + (semi + (insert + (semi + off))) + s == on + (semi + (insert + (semi + (off + s))))
  {
  }

  lemma LiteralsPlain()
    ensures NoClosers("SELECT * FROM @sqlserver_ado_return_id") && NoClosers("SET NOCOUNT ON")
    ensures NoClosers("SET IDENTITY_INSERT ") && NoClosers("ON") && NoClosers("OFF") && NoClosers(";")
  {
  }

  /** In the whole batch the clause goes to one place, before the VALUES of the INSERT. */
  lemma BatchSpliced(meta: Meta, fields: seq<Name>, rows: seq<seq<Value>>, params: seq<Value>, clause: string)
    requires meta.Plain() && forall i :: 0 <= i < |fields| ==> NoClosers(fields[i])
    requires DefaultsOnly(meta, fields, params) || (fields != [] && rows != [])
    ensures Splice(Around(meta, CoreWith(meta, fields, |rows|, params, "")), clause)
         == Around(meta, CoreWith(meta, fields, |rows|, params, clause))
  {
    hide Splice, CoreWith, DeclareText, Harmless, NoClosers;
    LiteralsPlain();
    var select := "SELECT * FROM @sqlserver_ado_return_id";
    var core := CoreWith(meta, fields, |rows|, params, "");
    var declare := DeclareText(meta.pk, meta.pkType);
    SpliceNothing(select, clause);
    SpliceSkips(";", select, clause);
    HarmlessStart(';', select);
    CoreSpliced(meta, fields, |rows|, params, ";" + select, clause);
    SpliceSkips(";", core + (";" + select), clause);
    HarmlessStart(';', core + (";" + select));
    DeclareSkipped(meta.pk, meta.pkType, ";" + (core + (";" + select)), clause);
    SpliceSkips(";", declare + (";" + (core + (";" + select))), clause);
    SpliceSkips("SET NOCOUNT ON", ";" + (declare + (";" + (core + (";" + select)))), clause);
  }

  lemma SpliceNothing(s: string, clause: string)
    requires NoClosers(s)
    ensures Splice(s, clause) == s
  {
    SpliceSkips(s, "", clause);
    assert s + "" == s && Splice("", clause) == "";
  }

  lemma BatchText(meta: Meta, fields: seq<Name>, rows: seq<seq<Value>>, params: seq<Value>)
    ensures Around(meta, CoreWith(meta, fields, |rows|, params, Clause(Some(meta.pk)))) == Render(Batch(meta, fields, rows, params, true))
  {
    CoreRendered(meta, fields, rows, params, Some(meta.pk));
    AroundRendered(meta, Core(meta, fields, rows, params, Some(meta.pk)));
  }
}
