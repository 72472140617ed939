/** Reading a batch of INSERT statements back: how T-SQL takes the text, and the parameters, that the compiler emits. */
module InsertReader {
  import opened Wrappers
  import opened Strings
  import opened OutputSplice
  import opened InsertCompiler

  // ---------- The pieces ----------

  /** The position of the first closer of this kind. */
  function FirstOf(s: string, c: char): (i: nat)
    ensures i <= |s|
    ensures i < |s| ==> s[i] == c
    decreases |s|
  {
    if s == "" || s[0] == c then 0 else 1 + FirstOf(s[1..], c)
  }

  /** A name in brackets; a doubled closing bracket, which would stand for one in the name, is not read. */
  function ReadName(s: string): (r: Option<(Name, string)>)
    ensures r.Some? ==> |r.value.1| < |s|
  {
    if s == "" || s[0] != '[' then None
    else
      var i := FirstOf(s, ']');
      if i == |s| || (i + 1 < |s| && s[i + 1] == ']') then None else Some((s[1..i], s[i + 1..]))
  }

  /** Names with commas between them. */
  function ReadNames(s: string): (r: Option<(seq<Name>, string)>)
    ensures r.Some? ==> |r.value.1| < |s|
    decreases |s|
  {
    match ReadName(s)
    case None => None
    case Some((name, rest)) =>
      match After(rest, ", ")
      case None => Some(([name], rest))
      case Some(more) =>
        match ReadNames(more)
        case None => None
        case Some((names, last)) => Some(([name] + names, last))
  }

  /** Placeholders with commas between them: how many. */
  function ReadHoles(s: string): (r: Option<(nat, string)>)
    ensures r.Some? ==> |r.value.1| < |s|
    decreases |s|
  {
    match After(s, "%s")
    case None => None
    case Some(rest) =>
      match After(rest, ", ")
      case None => Some((1, rest))
      case Some(more) =>
        match ReadHoles(more)
        case None => None
        case Some((n, last)) => Some((1 + n, last))
  }

  function ReadRow(s: string): (r: Option<(nat, string)>)
    ensures r.Some? ==> |r.value.1| < |s|
  {
    match After(s, "(")
    case None => None
    case Some(inside) =>
      match ReadHoles(inside)
      case None => None
      case Some((n, rest)) =>
        match After(rest, ")")
        case None => None
        case Some(last) => Some((n, last))
  }

  /** Rows of placeholders: their widths. */
  function ReadRows(s: string): (r: Option<(seq<nat>, string)>)
    ensures r.Some? ==> |r.value.1| < |s|
    decreases |s|
  {
    match ReadRow(s)
    case None => None
    case Some((n, rest)) =>
      match After(rest, ", ")
      case None => Some(([n], rest))
      case Some(more) =>
        match ReadRows(more)
        case None => None
        case Some((ns, last)) => Some(([n] + ns, last))
  }

  /** A type and the parenthesis behind it; the type may have one pair of its own. */
  function ReadType(s: string): (r: Option<(PkType, string)>)
    ensures r.Some? ==> |r.value.1| < |s|
  {
    var close := FirstOf(s, ')');
    if close == |s| then None
    else
      var open := FirstOf(s[..close], '(');
      if open == close then Some((PkType(s[..close], None), s[close + 1..]))
      else
        match After(s[close + 1..], ")")
        case None => None
        case Some(rest) => Some((PkType(s[..open], Some(s[open + 1..close])), rest))
  }

  // ---------- The statements ----------

  /** A statement as read: of the rows of an INSERT only the widths are in the text. */
  datatype Read =
    | Nocount
    | Declare(pk: Name, pkType: PkType)
    | Identity(table: Name, on: bool)
    | Values(table: Name, columns: seq<Name>, output: Option<Name>, widths: seq<nat>)
    | Defaults(table: Name, output: Option<Name>)
    | Returned

  /** OUTPUT INSERTED.[name] INTO @sqlserver_ado_return_id, if it is there. */
  function ReadOutput(s: string): (r: Option<(Option<Name>, string)>)
    ensures r.Some? ==> |r.value.1| <= |s|
  {
    match After(s, " OUTPUT INSERTED.")
    case None => Some((None, s))
    case Some(rest) =>
      match ReadName(rest)
      case None => None
      case Some((name, more)) =>
        match After(more, " INTO @sqlserver_ado_return_id")
        case None => None
        case Some(last) => Some((Some(name), last))
  }

  /** What follows INSERT INTO. */
  function ReadInsert(s: string): (r: Option<(Read, string)>)
    ensures r.Some? ==> |r.value.1| < |s|
  {
    match ReadName(s)
    case None => None
    case Some((table, rest)) =>
      match After(rest, " (")
      case None =>
        (match ReadOutput(rest)
         case None => None
         case Some((output, more)) =>
           match After(more, " DEFAULT VALUES")
           case None => None
           case Some(last) => Some((Defaults(table, output), last)))
      case Some(inside) =>
        match ReadNames(inside)
        case None => None
        case Some((columns, behind)) =>
          match After(behind, ")")
          case None => None
          case Some(clause) =>
            match ReadOutput(clause)
            case None => None
            case Some((output, more)) =>
              match After(more, " VALUES ")
              case None => None
              case Some(values) =>
                match ReadRows(values)
                case None => None
                case Some((widths, last)) => Some((Values(table, columns, output, widths), last))
  }

  /** What follows SET IDENTITY_INSERT. */
  function ReadIdentity(s: string): (r: Option<(Read, string)>)
    ensures r.Some? ==> |r.value.1| < |s|
  {
    match ReadName(s)
    case None => None
    case Some((table, rest)) =>
      match After(rest, " ON")
      case Some(last) => Some((Identity(table, true), last))
      case None =>
        match After(rest, " OFF")
        case Some(last) => Some((Identity(table, false), last))
        case None => None
  }

  /** What follows the opening parenthesis of DECLARE. */
  function ReadDeclare(s: string): (r: Option<(Read, string)>)
    ensures r.Some? ==> |r.value.1| < |s|
  {
    match ReadName(s)
    case None => None
    case Some((pk, rest)) =>
      match After(rest, " ")
      case None => None
      case Some(typed) =>
        match ReadType(typed)
        case None => None
        case Some((pkType, last)) => Some((Declare(pk, pkType), last))
  }

  function ReadStatement(s: string): (r: Option<(Read, string)>)
    ensures r.Some? ==> |r.value.1| < |s|
  {
    match After(s, "SET NOCOUNT ON")
    case Some(rest) => Some((Nocount, rest))
    case None =>
      match After(s, "SET IDENTITY_INSERT ")
      case Some(rest) => ReadIdentity(rest)
      case None =>
        match After(s, "DECLARE @sqlserver_ado_return_id table (")
        case Some(rest) => ReadDeclare(rest)
        case None =>
          match After(s, "INSERT INTO ")
          case Some(rest) => ReadInsert(rest)
          case None =>
            match After(s, "SELECT * FROM @sqlserver_ado_return_id")
            case Some(rest) => Some((Returned, rest))
            case None => None
  }

  /** Statements with semicolons between them. */
  function ReadBatch(s: string): Option<seq<Read>>
    decreases |s|
  {
    match ReadStatement(s)
    case None => None
    case Some((statement, rest)) =>
      if rest == "" then Some([statement])
      else if rest[0] != ';' then None
      else match ReadBatch(rest[1..])
        case None => None
        case Some(more) => Some([statement] + more)
  }

  // ---------- With the parameters ----------

  /** The parameters row by row, and those that are left. */
  function TakeRows(widths: seq<nat>, params: seq<Value>): Option<(seq<seq<Value>>, seq<Value>)> {
    if widths == [] then Some(([], params))
    else if widths[0] > |params| then None
    else match TakeRows(widths[1..], params[widths[0]..])
      case None => None
      case Some((rows, left)) => Some(([params[..widths[0]]] + rows, left))
  }

  /** The statements with their rows; every parameter has to be used. */
  function Bind(parts: seq<Read>, params: seq<Value>): Option<seq<Statement>> {
    if parts == [] then
      if params == [] then Some([]) else None
    else
      var (statement, left) :=
        match parts[0]
        case Nocount => (Some(SetNocountOn), params)
        case Declare(pk, pkType) => (Some(DeclareReturnTable(pk, pkType)), params)
        case Identity(table, on) => (Some(SetIdentityInsert(table, on)), params)
        case Defaults(table, output) => (Some(InsertDefaults(table, output)), params)
        case Returned => (Some(SelectReturned), params)
        case Values(table, columns, output, widths) =>
          match TakeRows(widths, params)
          case None => (None, params)
          case Some((rows, left)) => (Some(Insert(table, columns, rows, output)), left);
      match (statement, Bind(parts[1..], left))
      case (Some(s), Some(more)) => Some([s] + more)
      case _ => None
  }

  /** The batch that the server runs for a text and its parameters. */
  function ReadSql(text: string, params: seq<Value>): Option<seq<Statement>> {
    match ReadBatch(text)
    case None => None
    case Some(parts) => Bind(parts, params)
  }

  // ---------- Reading the pieces back ----------

  lemma {:induction false} FirstFound(a: string, c: char, s: string)
    requires forall i :: 0 <= i < |a| ==> a[i] != c
    ensures FirstOf(a + ([c] + s), c) == |a|
    decreases |a|
  {
    if a == "" {
      assert a + ([c] + s) == [c] + s;
    } else {
      assert (a + ([c] + s))[1..] == a[1..] + ([c] + s);
      FirstFound(a[1..], c, s);
    }
  }

  lemma {:induction false} FirstMissing(a: string, c: char)
    requires forall i :: 0 <= i < |a| ==> a[i] != c
    ensures FirstOf(a, c) == |a|
    decreases |a|
  {
    if a != "" {
      FirstMissing(a[1..], c);
    }
  }

  lemma NameReads(name: Name, s: string)
    requires NoClosers(name) && (s == "" || s[0] != ']')
    ensures ReadName(QuoteName(name) + s) == Some((name, s))
  {
    NotQuoted(name);
    var text := QuoteName(name) + s;
    assert text == ("[" + name) + ([']'] + s);
    FirstFound("[" + name, ']', s);
    assert text[1..|name| + 1] == name && text[|name| + 2..] == s;
  }

  lemma FourParts(a: string, b: string, c: string, d: string, s: string)
    ensures a + (b + (c + d)) + s == a + (b + (c + (d + s)))
  {
  }

  lemma ThreeParts(a: string, b: string, c: string, s: string)
    ensures a + (b + c) + s == a + (b + (c + s))
  {
  }

  lemma {:induction false} NamesRead(columns: seq<Name>, s: string)
    requires columns != [] && (forall i :: 0 <= i < |columns| ==> NoClosers(columns[i]))
    requires s != "" && s[0] == ')'
    ensures ReadNames(ColumnList(columns) + s) == Some((columns, s))
    decreases |columns|
  {
    hide ReadName, QuoteName, NoClosers;
    if |columns| == 1 {
      NameReads(columns[0], s);
      AfterOther(s, ", ", 0);
      assert columns == [columns[0]];
    } else {
      var rest := ColumnList(columns[1..]) + s;
      ThreeParts(QuoteName(columns[0]), ", ", ColumnList(columns[1..]), s);
      assert (", " + rest)[0] == ',';
      NameReads(columns[0], ", " + rest);
      AfterWord(", ", rest);
      NamesRead(columns[1..], s);
      assert columns == [columns[0]] + columns[1..];
    }
  }

  lemma {:induction false} HolesRead(n: nat, s: string)
    requires n > 0 && s != "" && s[0] == ')'
    ensures ReadHoles(Placeholders(n) + s) == Some((n, s))
    decreases n
  {
    hide After;
    if n == 1 {
      AfterWord("%s", s);
      AfterOther(s, ", ", 0);
    } else {
      var rest := Placeholders(n - 1) + s;
      assert "%s, " == "%s" + ", ";
      assert Placeholders(n) + s == "%s" + (", " + rest);
      AfterWord("%s", ", " + rest);
      AfterWord(", ", rest);
      HolesRead(n - 1, s);
    }
  }

  lemma RowReads(width: nat, s: string)
    requires width > 0
    ensures ReadRow("(" + (Placeholders(width) + (")" + s))) == Some((width, s))
  {
    AfterWord("(", Placeholders(width) + (")" + s));
    HolesRead(width, ")" + s);
    AfterWord(")", s);
  }

  lemma {:induction false} RowsRead(count: nat, width: nat, s: string)
    requires count > 0 && width > 0 && (s == "" || s[0] == ';')
    ensures ReadRows(RowsText(count, width) + s) == Some((seq(count, _ => width), s))
    decreases count
  {
    hide ReadRow, Placeholders;
    if count == 1 {
      assert RowsText(1, width) + s == "(" + (Placeholders(width) + (")" + s));
      RowReads(width, s);
      AfterOther(s, ", ", 0);
      assert seq(1, _ => width) == [width];
    } else {
      var rest := RowsText(count - 1, width) + s;
      assert RowsText(count, width) + s == "(" + (Placeholders(width) + (")" + (", " + rest)));
      RowReads(width, ", " + rest);
      AfterWord(", ", rest);
      RowsRead(count - 1, width, s);
      assert seq(count, _ => width) == [width] + seq(count - 1, _ => width);
    }
  }

  /** No parenthesis in the name of the type, or in what stands in its own ones. */
  predicate Readable(ty: PkType) {
    && (forall i :: 0 <= i < |ty.base| ==> ty.base[i] != '(' && ty.base[i] != ')')
    && (ty.args.Some? ==> forall i :: 0 <= i < |ty.args.value| ==> ty.args.value[i] != '(' && ty.args.value[i] != ')')
  }

  lemma TypeReads(ty: PkType, s: string)
    requires Readable(ty)
    ensures ReadType(ty.Text() + (")" + s)) == Some((ty, s))
  {
    var text := ty.Text() + (")" + s);
    if ty.args.None? {
      assert ty.Text() == ty.base;
      assert text == ty.base + ([')'] + s);
      FirstFound(ty.base, ')', s);
      FirstMissing(ty.base, '(');
      assert text[..|ty.base|] == ty.base && text[|ty.base| + 1..] == s;
    } else {
      var inner := ty.base + ("(" + ty.args.value);
      assert text == inner + ([')'] + (")" + s));
      FirstFound(inner, ')', ")" + s);
      assert text[..|inner|] == inner && text[|inner| + 1..] == ")" + s;
      assert inner == ty.base + (['('] + ty.args.value);
      FirstFound(ty.base, '(', ty.args.value);
      AfterWord(")", s);
      assert text[..|ty.base|] == ty.base && text[|ty.base| + 1..|inner|] == ty.args.value;
    }
  }

  lemma OutputReads(output: Option<Name>, s: string)
    requires (output.Some? ==> NoClosers(output.value)) && |s| > 1 && s[0] == ' ' && s[1] != 'O'
    ensures ReadOutput(Clause(output) + s) == Some((output, s))
  {
    hide ReadName;
    if output.None? {
      assert Clause(output) + s == s;
      AfterOther(s, " OUTPUT INSERTED.", 1);
    } else {
      var into := " INTO @sqlserver_ado_return_id";
      assert Clause(output) + s == " OUTPUT INSERTED." + (QuoteName(output.value) + (into + s));
      AfterWord(" OUTPUT INSERTED.", QuoteName(output.value) + (into + s));
      assert (into + s)[0] == ' ';
      NameReads(output.value, into + s);
      AfterWord(into, s);
    }
  }

  // ---------- Reading the statements back ----------

  function AsRead(s: Statement): Read {
    match s
    case SetNocountOn => Nocount
    case DeclareReturnTable(pk, pkType) => Declare(pk, pkType)
    case SetIdentityInsert(table, on) => Identity(table, on)
    case Insert(table, columns, rows, output) => Values(table, columns, output, seq(|rows|, _ => |columns|))
    case InsertDefaults(table, output) => Defaults(table, output)
    case SelectReturned => Returned
  }

  predicate CanBeRead(s: Statement) {
    match s
    case SetNocountOn => true
    case DeclareReturnTable(pk, pkType) => NoClosers(pk) && Readable(pkType)
    case SetIdentityInsert(table, _) => NoClosers(table)
    case Insert(table, columns, rows, output) =>
      && NoClosers(table) && columns != [] && rows != [] && (output.Some? ==> NoClosers(output.value))
      && forall i :: 0 <= i < |columns| ==> NoClosers(columns[i])
    case InsertDefaults(table, output) => NoClosers(table) && (output.Some? ==> NoClosers(output.value))
    case SelectReturned => true
  }

  lemma InsertReads(table: Name, columns: seq<Name>, count: nat, output: Option<Name>, s: string)
    requires NoClosers(table) && columns != [] && count > 0 && (output.Some? ==> NoClosers(output.value))
    requires forall i :: 0 <= i < |columns| ==> NoClosers(columns[i])
    requires s == "" || s[0] == ';'
    ensures ReadStatement(InsertText(table, columns, count, Clause(output)) + s)
         == Some((Values(table, columns, output, seq(count, _ => |columns|)), s))
  {
    hide ReadName, ReadNames, ReadRows, ReadOutput, ReadIdentity, ReadDeclare, ColumnList, RowsText, Clause, QuoteName;
    var rows := RowsText(count, |columns|);
    var values := " VALUES " + (rows + s);
    var behind := ")" + (Clause(output) + values);
    var inside := ColumnList(columns) + behind;
    var rest := QuoteName(table) + (" (" + inside);
    InsertShape(table, ColumnList(columns), Clause(output), rows, s, columns, count);
    InsertIsDispatched(rest);
    assert (" (" + inside)[0] == ' ';
    NameReads(table, " (" + inside);
    AfterWord(" (", inside);
    assert behind[0] == ')';
    NamesRead(columns, behind);
    AfterWord(")", Clause(output) + values);
    assert values[0] == ' ' && values[1] == 'V';
    OutputReads(output, values);
    AfterWord(" VALUES ", rows + s);
    RowsRead(count, |columns|, s);
  }

  lemma InsertShape(table: Name, list: string, clause: string, rows: string, s: string, columns: seq<Name>, count: nat)
    requires list == ColumnList(columns) && rows == RowsText(count, |columns|)
    ensures InsertText(table, columns, count, clause) + s
         == "INSERT INTO " + (QuoteName(table) + (" (" + (list + (")" + (clause + (" VALUES " + (rows + s)))))))
  {
    hide QuoteName, ColumnList, RowsText;
    SevenParts("INSERT INTO ", QuoteName(table), " (", list, ")", clause, " VALUES ", rows, s);
  }

  lemma SevenParts(a: string, b: string, c: string, d: string, e: string, f: string, g: string, h: string, s: string)
    ensures a + (b + (c + (d + (e + (f + (g + h)))))) + s == a + (b + (c + (d + (e + (f + (g + (h + s)))))))
  {
  }

  lemma InsertIsDispatched(rest: string)
    ensures ReadStatement("INSERT INTO " + rest) == ReadInsert(rest)
  {
    hide ReadInsert, ReadIdentity, ReadDeclare;
    var s := "INSERT INTO " + rest;
    assert s[0] == 'I';
    AfterOther(s, "SET NOCOUNT ON", 0);
    AfterOther(s, "SET IDENTITY_INSERT ", 0);
    AfterOther(s, "DECLARE @sqlserver_ado_return_id table (", 0);
    AfterWord("INSERT INTO ", rest);
  }

  lemma IdentityIsDispatched(rest: string)
    ensures ReadStatement("SET IDENTITY_INSERT " + rest) == ReadIdentity(rest)
  {
    hide ReadInsert, ReadIdentity, ReadDeclare;
    var s := "SET IDENTITY_INSERT " + rest;
    assert s[4] == 'I';
    AfterOther(s, "SET NOCOUNT ON", 4);
    AfterWord("SET IDENTITY_INSERT ", rest);
  }

  lemma DeclareIsDispatched(rest: string)
    ensures ReadStatement("DECLARE @sqlserver_ado_return_id table (" + rest) == ReadDeclare(rest)
  {
    hide ReadInsert, ReadIdentity, ReadDeclare;
    var s := "DECLARE @sqlserver_ado_return_id table (" + rest;
    assert s[0] == 'D';
    AfterOther(s, "SET NOCOUNT ON", 0);
    AfterOther(s, "SET IDENTITY_INSERT ", 0);
    AfterWord("DECLARE @sqlserver_ado_return_id table (", rest);
  }

  lemma SelectIsRead(rest: string)
    ensures ReadStatement("SELECT * FROM @sqlserver_ado_return_id" + rest) == Some((Returned, rest))
  {
    hide ReadInsert, ReadIdentity, ReadDeclare;
    var s := "SELECT * FROM @sqlserver_ado_return_id" + rest;
    assert s[0] == 'S' && s[2] == 'L';
    AfterOther(s, "SET NOCOUNT ON", 2);
    AfterOther(s, "SET IDENTITY_INSERT ", 2);
    AfterOther(s, "DECLARE @sqlserver_ado_return_id table (", 0);
    AfterOther(s, "INSERT INTO ", 0);
    AfterWord("SELECT * FROM @sqlserver_ado_return_id", rest);
  }

  lemma DefaultsRead(table: Name, output: Option<Name>, s: string)
    requires NoClosers(table) && (output.Some? ==> NoClosers(output.value))
    ensures ReadStatement(DefaultsText(table, Clause(output)) + s) == Some((Defaults(table, output), s))
  {
    hide ReadName, ReadNames, ReadRows, ReadOutput, ReadIdentity, ReadDeclare, Clause, QuoteName;
    var last := " DEFAULT VALUES" + s;
    var rest := Clause(output) + last;
    FourParts("INSERT INTO ", QuoteName(table), Clause(output), " DEFAULT VALUES", s);
    hide After;
    InsertIsDispatched(QuoteName(table) + rest);
    assert last[0] == ' ' && last[1] == 'D';
    ClauseStart(output, last);
    NameReads(table, rest);
    AfterOther(rest, " (", 1);
    OutputReads(output, last);
    AfterWord(" DEFAULT VALUES", s);
  }

  lemma ClauseStart(output: Option<Name>, s: string)
    requires |s| > 1 && s[0] == ' ' && s[1] != '('
    ensures |Clause(output) + s| > 1 && (Clause(output) + s)[0] == ' ' && (Clause(output) + s)[1] != '('
  {
    if output.Some? {
      var rest := QuoteName(output.value) + " INTO @sqlserver_ado_return_id";
      assert Clause(output) == " OUTPUT INSERTED." + rest;
      assert Clause(output)[0] == ' ' && Clause(output)[1] == 'O';
    }
  }

  lemma IdentityReads(table: Name, on: bool, s: string)
    requires NoClosers(table)
    ensures ReadStatement(IdentityText(table, on) + s) == Some((Identity(table, on), s))
  {
    hide ReadName, ReadInsert, ReadDeclare, QuoteName;
    var word := if on then " ON" else " OFF";
    var rest := QuoteName(table) + (word + s);
    assert IdentityText(table, on) + s == "SET IDENTITY_INSERT " + rest;
    IdentityIsDispatched(rest);
    assert (word + s)[0] == ' ';
    NameReads(table, word + s);
    AfterWord(word, s);
    if !on {
      assert (" OFF" + s)[2] == 'F';
      AfterOther(" OFF" + s, " ON", 2);
    }
  }

  lemma DeclareReads(pk: Name, pkType: PkType, s: string)
    requires NoClosers(pk) && Readable(pkType)
    ensures ReadStatement(DeclareText(pk, pkType) + s) == Some((Declare(pk, pkType), s))
  {
    hide ReadName, ReadInsert, ReadIdentity, ReadType, QuoteName, PkType.Text;
    var typed := pkType.Text() + (")" + s);
    var rest := QuoteName(pk) + (" " + typed);
    assert DeclareText(pk, pkType) + s == "DECLARE @sqlserver_ado_return_id table (" + rest;
    DeclareIsDispatched(rest);
    NameReads(pk, " " + typed);
    AfterWord(" ", typed);
    TypeReads(pkType, s);
  }

  /** Every statement reads back as itself, whatever follows behind a semicolon. */
  lemma StatementReads(statement: Statement, s: string)
    requires CanBeRead(statement) && (s == "" || s[0] == ';')
    ensures ReadStatement(Text(statement) + s) == Some((AsRead(statement), s))
  {
    hide ReadStatement, InsertText, DefaultsText, IdentityText, DeclareText, Clause;
    match statement {
      case SetNocountOn => NocountReads(s);
      case DeclareReturnTable(pk, pkType) => DeclareReads(pk, pkType, s);
      case SetIdentityInsert(table, on) => IdentityReads(table, on, s);
      case Insert(table, columns, rows, output) => InsertReads(table, columns, |rows|, output, s);
      case InsertDefaults(table, output) => DefaultsRead(table, output, s);
      case SelectReturned => SelectIsRead(s);
    }
  }

  lemma NocountReads(s: string)
    ensures ReadStatement("SET NOCOUNT ON" + s) == Some((Nocount, s))
  {
    AfterWord("SET NOCOUNT ON", s);
  }

  function AllAsRead(batch: seq<Statement>): seq<Read> {
    if batch == [] then [] else [AsRead(batch[0])] + AllAsRead(batch[1..])
  }

  lemma {:induction false} BatchReads(batch: seq<Statement>)
    requires batch != [] && forall i :: 0 <= i < |batch| ==> CanBeRead(batch[i])
    ensures ReadBatch(Render(batch)) == Some(AllAsRead(batch))
    decreases |batch|
  {
    hide ReadStatement, Text, AsRead;
    if |batch| == 1 {
      StatementReads(batch[0], "");
      assert Text(batch[0]) + "" == Text(batch[0]);
      assert Render(batch) == Text(batch[0]);
      assert AllAsRead(batch[1..]) == [];
      assert AllAsRead(batch) == [AsRead(batch[0])] + [] == [AsRead(batch[0])];
    } else {
      var rest := Render(batch[1..]);
      StatementReads(batch[0], ";" + rest);
      assert (";" + rest)[1..] == rest;
      BatchReads(batch[1..]);
    }
  }

  // ---------- Binding the parameters ----------

  function Flat(rows: seq<seq<Value>>): seq<Value> {
    if rows == [] then [] else rows[0] + Flat(rows[1..])
  }

  lemma {:induction false} RowsTaken(rows: seq<seq<Value>>, width: nat, left: seq<Value>)
    requires forall i :: 0 <= i < |rows| ==> |rows[i]| == width
    ensures TakeRows(seq(|rows|, _ => width), Flat(rows) + left) == Some((rows, left))
    decreases |rows|
  {
    var widths := seq(|rows|, _ => width);
    if rows == [] {
      assert widths == [] && Flat(rows) + left == left;
    } else {
      assert widths[1..] == seq(|rows[1..]|, _ => width);
      var params := Flat(rows) + left;
      assert params == rows[0] + (Flat(rows[1..]) + left);
      assert params[..width] == rows[0] && params[width..] == Flat(rows[1..]) + left;
      RowsTaken(rows[1..], width, left);
      assert rows == [rows[0]] + rows[1..];
    }
  }

  /** The parameters of a statement, row by row. */
  function ParamsOf(s: Statement): seq<Value> {
    match s
    case Insert(_, _, rows, _) => Flat(rows)
    case _ => []
  }

  function AllParams(batch: seq<Statement>): seq<Value> {
    if batch == [] then [] else ParamsOf(batch[0]) + AllParams(batch[1..])
  }

  predicate RowsFit(s: Statement) {
    s.Insert? ==> forall i :: 0 <= i < |s.rows| ==> |s.rows[i]| == |s.columns|
  }

  lemma BindStep(s: Statement, parts: seq<Read>, more: seq<Value>)
    requires RowsFit(s)
    ensures Bind([AsRead(s)] + parts, ParamsOf(s) + more)
         == match Bind(parts, more) case Some(rest) => Some([s] + rest) case None => None
  {
    assert ([AsRead(s)] + parts)[1..] == parts;
    if s.Insert? {
      RowsTaken(s.rows, |s.columns|, more);
    } else {
      assert [] + more == more;
    }
  }

  lemma {:induction false} BatchBinds(batch: seq<Statement>)
    requires forall i :: 0 <= i < |batch| ==> RowsFit(batch[i])
    ensures Bind(AllAsRead(batch), AllParams(batch)) == Some(batch)
    decreases |batch|
  {
    hide AsRead, ParamsOf, RowsFit;
    if batch != [] {
      hide Bind;
      BatchBinds(batch[1..]);
      BindStep(batch[0], AllAsRead(batch[1..]), AllParams(batch[1..]));
      assert batch == [batch[0]] + batch[1..];
    }
  }

  /** A batch reads back, text and parameters together. */
  lemma SqlReads(batch: seq<Statement>)
    requires batch != [] && forall i :: 0 <= i < |batch| ==> CanBeRead(batch[i]) && RowsFit(batch[i])
    ensures ReadSql(Render(batch), AllParams(batch)) == Some(batch)
  {
    hide ReadBatch, Bind, CanBeRead, RowsFit;
    BatchReads(batch);
    BatchBinds(batch);
  }
}
