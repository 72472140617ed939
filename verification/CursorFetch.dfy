/** Fetching rows through the driver's Cursor from ADO's forward-only, column-major recordsets. */
module CursorFetch {
  import opened Wrappers

  type AdoType = int

  /** A cell as ADO delivers it, and as Python receives it: None, or converted by some ADO type. */
  datatype Variant = Nothing | Raw(value: int)
  datatype Python = PyNone | Converted(ty: AdoType, value: int)

  function ConvertToPython(v: Variant, ty: AdoType): Python {
    if v.Nothing? then PyNone else Converted(ty, v.value)
  }

  type Row = seq<Python>

  datatype Error = FetchFailed | NextSetFailed

  /** One result of a statement: closed for a statement without rows, else column types and rows. */
  datatype ResultSet = NoRows | Rows(types: seq<AdoType>, rows: seq<seq<Variant>>)

  predicate Rectangular(r: ResultSet) {
    r.Rows? ==> |r.types| > 0 && forall i :: 0 <= i < |r.rows| ==> |r.rows[i]| == |r.types|
  }

  function ConvertRow(types: seq<AdoType>, row: seq<Variant>): Row
    requires |types| == |row|
  {
    seq(|row|, j requires 0 <= j < |row| => ConvertToPython(row[j], types[j]))
  }

  function ConvertRows(types: seq<AdoType>, rows: seq<seq<Variant>>): (r: seq<Row>)
    requires forall i :: 0 <= i < |rows| ==> |rows[i]| == |types|
    ensures |r| == |rows|
    ensures forall i :: 0 <= i < |rows| ==> |r[i]| == |types|
    ensures forall i, j :: 0 <= i < |rows| && 0 <= j < |types| ==>
              match rows[i][j]
              case Nothing => r[i][j] == PyNone
              case Raw(value) => r[i][j] == Converted(types[j], value)
  {
    seq(|rows|, i requires 0 <= i < |rows| => ConvertRow(types, rows[i]))
  }

  /** What GetRows returns: one sequence per column. */
  function Columns(width: nat, rows: seq<seq<Variant>>): (block: seq<seq<Variant>>)
    requires forall i :: 0 <= i < |rows| ==> |rows[i]| == width
    ensures |block| == width
  {
    seq(width, j requires 0 <= j < width =>
      seq(|rows|, i requires 0 <= i < |rows| => rows[i][j]))
  }

  // ---------- ADO ----------

  class Recordset {
    var current: ResultSet
    var position: nat
    var following: seq<ResultSet>

    ghost predicate Valid()
      reads this
    {
      && Rectangular(current)
      && (current.Rows? ==> position <= |current.rows|)
      && (forall i :: 0 <= i < |following| ==> Rectangular(following[i]))
    }

    constructor (results: seq<ResultSet>)
      requires results != [] && forall i :: 0 <= i < |results| ==> Rectangular(results[i])
      ensures Valid() && current == results[0] && position == 0 && following == results[1..]
    {
      current, position, following := results[0], 0, results[1..];
    }

    predicate IsClosed()
      reads this
    {
      current.NoRows?
    }

    predicate Eof()
      reads this
      requires Valid() && !IsClosed()
    {
      position == |current.rows|
    }

    /** The next rows, at most `count` of them or all that remain, column by column. */
    method GetRows(count: Option<nat>) returns (block: seq<seq<Variant>>)
      requires Valid() && !IsClosed() && !Eof()
      modifies this`position
      ensures Valid()
      ensures
        var n := if count.Some? && count.value < |current.rows| - old(position) then count.value else |current.rows| - old(position);
        && position == old(position) + n
        && block == Columns(|current.types|, current.rows[old(position)..position])
    {
      var n := if count.Some? && count.value < |current.rows| - position then count.value else |current.rows| - position;
      block := Columns(|current.types|, current.rows[position..position + n]);
      position := position + n;
    }

    /** Moves on to the next result; the current one is closed. False when there is none. */
    method NextRecordset() returns (found: bool)
      requires Valid()
      modifies this
      ensures Valid()
      ensures found <==> old(following) != []
      ensures found ==> current == old(following)[0] && position == 0 && following == old(following)[1..]
      ensures !found ==> current == NoRows && following == []
    {
      found := following != [];
      if found {
        current, position, following := following[0], 0, following[1..];
      } else {
        current, position := NoRows, 0;
      }
    }
  }

  // ---------- The cursor ----------

  /** fetchone and fetchmany answer None where the code returns None, and otherwise a sequence of rows. */
  datatype Fetched = PyNothing | Batch(rows: seq<Row>)

  function RowsOf(f: Fetched): seq<Row> {
    if f.Batch? then f.rows else []
  }

  /** One call on the cursor; `Next` is one step of iterating over it. */
  datatype Fetch = One | Many(size: nat) | All | Next

  class Cursor {
    var connected: bool
    var rs: Recordset?
    var description: seq<AdoType>
    var arraysize: nat

    ghost predicate Valid()
      reads this, rs
    {
      rs != null ==> rs.Valid() && (rs.current.Rows? ==> description == rs.current.types)
    }

    /**
     The rows that have not been fetched yet, from the recordset's position on: None where the recordset has
     nothing, and else the value converted by the type of its own column.
     */
    ghost function Remaining(): (left: seq<Row>)
      reads this, rs
      requires Valid()
      ensures rs == null || rs.current.NoRows? ==> left == []
      ensures rs != null && rs.current.Rows? ==> |left| == |rs.current.rows| - rs.position
      ensures rs != null && rs.current.Rows? ==>
                forall i :: 0 <= i < |left| ==> |left[i]| == |rs.current.types|
      ensures rs != null && rs.current.Rows? ==>
                forall i, j :: 0 <= i < |left| && 0 <= j < |rs.current.types| ==>
                  match rs.current.rows[rs.position + i][j]
                  case Nothing => left[i][j] == PyNone
                  case Raw(value) => left[i][j] == Converted(rs.current.types[j], value)
    {
      if rs == null || rs.current.NoRows? then []
      else ConvertRows(rs.current.types, rs.current.rows[rs.position..])
    }

    predicate CanFetch()
      reads this
    {
      connected && rs != null
    }

    constructor ()
      ensures Valid() && connected && rs == null && arraysize == 1
    {
      connected, rs, description, arraysize := true, null, [], 1;
    }

    /** After a statement: adopts the recordset unless it is closed. */
    method DescriptionFromRecordset(recordset: Recordset)
      requires recordset.Valid()
      modifies this
      ensures Valid() && connected == old(connected) && arraysize == old(arraysize)
      ensures rs == (if recordset.IsClosed() then null else recordset)
      ensures recordset.position == 0 && recordset.current.Rows? ==>
                Remaining() == ConvertRows(recordset.current.types, recordset.current.rows)
    {
      if recordset.IsClosed() {
        rs, description := null, [];
        return;
      }
      rs := recordset;
      description := recordset.current.types;
      assert recordset.current.rows[0..] == recordset.current.rows;
    }

    /**
     Fetches `rows` rows, or all when none is given or the number is 0. At the end it answers None
     for one row and an empty sequence otherwise.
     */
    method FetchRows(rows: Option<nat>) returns (r: Result<Fetched, Error>)
      requires Valid()
      modifies rs
      ensures Valid() && unchanged(this)
      ensures r.Failure? <==> !connected || rs == null
      ensures r.Failure? ==> Remaining() == old(Remaining())
      ensures r.Success? ==> RowsOf(r.value) + Remaining() == old(Remaining())
      ensures r.Success? ==> (r.value == PyNothing <==> rows == Some(1) && old(Remaining()) == [])
      ensures r.Success? ==>
                |RowsOf(r.value)| ==
                  if rows.Some? && 0 < rows.value < |old(Remaining())| then rows.value else |old(Remaining())|
      ensures r.Success? && old(rs.current).Rows? ==>
                && rs.current == old(rs.current) && rs.position == old(rs.position) + |RowsOf(r.value)|
                && (forall i :: 0 <= i < |RowsOf(r.value)| ==> |RowsOf(r.value)[i]| == |rs.current.types|)
                && (forall i, j :: 0 <= i < |RowsOf(r.value)| && 0 <= j < |rs.current.types| ==>
                      match rs.current.rows[old(rs.position) + i][j]
                      case Nothing => RowsOf(r.value)[i][j] == PyNone
                      case Raw(value) => RowsOf(r.value)[i][j] == Converted(rs.current.types[j], value))
    {
      if !connected || rs == null {
        return Failure(FetchFailed);
      }
      if rs.IsClosed() || rs.Eof() {
        return Success(if rows == Some(1) then PyNothing else Batch([]));
      }
      ghost var from := rs.position;
      var adoResults := rs.GetRows(if rows == Some(0) then None else rows);
      ghost var taken := rs.current.rows[from..rs.position];

      var pyColumns: seq<seq<Python>> := [];
      var j := 0;
      while j < |description| && j < |adoResults|
        invariant 0 <= j <= |description| == |adoResults|
        invariant |pyColumns| == j
        invariant forall k :: 0 <= k < j ==> pyColumns[k] == ConvertColumn(description[k], adoResults[k])
      {
        pyColumns := pyColumns + [ConvertColumn(description[j], adoResults[j])];
        j := j + 1;
      }
      TransposeConverted(description, taken, pyColumns);
      ConvertRowsSplit(rs.current.types, rs.current.rows[from..], |taken|);
      assert rs.current.rows[from..][..|taken|] == taken;
      assert rs.current.rows[from..][|taken|..] == rs.current.rows[rs.position..];
      r := Success(Batch(Transpose(pyColumns)));
    }

    method FetchOne() returns (r: Result<Option<Row>, Error>)
      requires Valid()
      modifies rs
      ensures Valid() && unchanged(this)
      ensures r.Failure? <==> !connected || rs == null
      ensures r.Failure? ==> Remaining() == old(Remaining())
      ensures r.Success? ==>
                if old(Remaining()) == [] then r.value == None && Remaining() == []
                else r.value == Some(old(Remaining())[0]) && Remaining() == old(Remaining())[1..]
    {
      var result :- FetchRows(Some(1));
      if result.Batch? && result.rows != [] {
        return Success(Some(result.rows[0]));
      }
      r := Success(None);
    }

    method FetchMany(size: Option<nat>) returns (r: Result<Fetched, Error>)
      requires Valid()
      modifies rs
      ensures Valid() && unchanged(this)
      ensures r.Failure? <==> !connected || rs == null
      ensures r.Failure? ==> Remaining() == old(Remaining())
      ensures r.Success? ==> RowsOf(r.value) + Remaining() == old(Remaining())
      ensures
        var k := if size.Some? then size.value else arraysize;
        r.Success? ==>
          && (r.value == PyNothing <==> k == 1 && old(Remaining()) == [])
          && |RowsOf(r.value)| == if 0 < k < |old(Remaining())| then k else |old(Remaining())|
    {
      var k := if size.Some? then size.value else arraysize;
      r := FetchRows(Some(k));
    }

    method FetchAll() returns (r: Result<seq<Row>, Error>)
      requires Valid()
      modifies rs
      ensures Valid() && unchanged(this)
      ensures r.Failure? <==> !connected || rs == null
      ensures r.Failure? ==> Remaining() == old(Remaining())
      ensures r.Success? ==> r.value == old(Remaining()) && Remaining() == []
    {
      var result :- FetchRows(None);
      r := Success(RowsOf(result));
    }

    method NextRow() returns (row: Option<Row>)
      requires Valid() && CanFetch()
      modifies rs
      ensures Valid() && unchanged(this)
      ensures row.None? ==> old(Remaining()) == [] && Remaining() == []
      ensures row.Some? ==> old(Remaining()) == [row.value] + Remaining()
    {
      ghost var left := Remaining();
      var r := FetchOne();
      assert left != [] ==> left == [left[0]] + left[1..];
      row := if r.Success? then r.value else None;
    }

    /** Iterating: fetchone until it answers None. */
    method Iterate() returns (rows: seq<Row>)
      requires Valid() && CanFetch()
      modifies rs
      ensures Valid() && unchanged(this)
      ensures rows == old(Remaining()) && Remaining() == []
    {
      rows := [];
      while true
        invariant Valid() && unchanged(this)
        invariant rows + Remaining() == old(Remaining())
        decreases |Remaining()|
      {
        hide ConvertRows, Rectangular;
        ghost var before := rows;
        var row := NextRow();
        if row.None? {
          break;
        }
        rows := rows + [row.value];
        assert rows + Remaining() == before + ([row.value] + Remaining());
      }
    }

    method Perform(fetch: Fetch) returns (rows: seq<Row>)
      requires Valid() && CanFetch()
      modifies rs
      ensures Valid() && unchanged(this)
      ensures rows + Remaining() == old(Remaining())
    {
      match fetch {
        case One =>
          ghost var left := Remaining();
          var one := FetchOne();
          rows := if one.Success? && one.value.Some? then [one.value.value] else [];
          assert left != [] ==> [left[0]] + left[1..] == left;
        case Many(size) =>
          var many := FetchMany(Some(size));
          rows := if many.Success? then RowsOf(many.value) else [];
        case All =>
          var all := FetchAll();
          rows := if all.Success? then all.value else [];
          assert rows + [] == rows;
        case Next =>
          var row := NextRow();
          rows := if row.Some? then [row.value] else [];
      }
    }

    /** Any interleaving of fetches: what was fetched, in order, followed by what remains, is what was there. */
    method Interleave(fetches: seq<Fetch>) returns (rows: seq<Row>)
      requires Valid() && CanFetch()
      modifies rs
      ensures Valid() && unchanged(this)
      ensures rows + Remaining() == old(Remaining())
    {
      rows := [];
      for i := 0 to |fetches|
        invariant Valid() && unchanged(this)
        invariant rows + Remaining() == old(Remaining())
      {
        var fetched := Perform(fetches[i]);
        rows := rows + fetched;
      }
    }

    /**
     Moves to the next result, dropping what remains of this one. None when there is none; true for
     a result without rows as well, after which nothing can be fetched.
     */
    method NextSet() returns (r: Result<Option<bool>, Error>)
      requires Valid()
      modifies this, rs
      ensures Valid() && connected == old(connected) && arraysize == old(arraysize)
      ensures r.Failure? <==> !old(connected) || old(rs) == null
      ensures r.Success? ==> (r.value == Some(true) <==> old(rs.following) != [])
      ensures r.Success? && r.value.None? ==> Remaining() == []
      ensures r.Success? && old(rs.following) != [] ==>
                var next := old(rs.following)[0];
                if next.NoRows? then rs == null
                else rs == old(rs) && next == rs.current && Remaining() == ConvertRows(next.types, next.rows)
    {
      if !connected || rs == null {
        return Failure(NextSetFailed);
      }
      var found := rs.NextRecordset();
      if !found {
        return Success(None);
      }
      DescriptionFromRecordset(rs);
      r := Success(Some(true));
    }
  }

  // ---------- From columns back to rows ----------

  function ConvertColumn(ty: AdoType, column: seq<Variant>): (r: seq<Python>)
    ensures |r| == |column|
  {
    seq(|column|, i requires 0 <= i < |column| => ConvertToPython(column[i], ty))
  }

  /** zip(*columns): as many rows as the shortest column has cells. */
  function Shortest(columns: seq<seq<Python>>): nat {
    if columns == [] then 0
    else if |columns| == 1 then |columns[0]|
    else if |columns[0]| <= Shortest(columns[1..]) then |columns[0]| else Shortest(columns[1..])
  }

  lemma {:induction false} ShortestIsLeast(columns: seq<seq<Python>>)
    ensures forall j :: 0 <= j < |columns| ==> Shortest(columns) <= |columns[j]|
    decreases |columns|
  {
    if |columns| > 1 {
      ShortestIsLeast(columns[1..]);
      forall j | 0 <= j < |columns|
        ensures Shortest(columns) <= |columns[j]|
      {
        if j > 0 {
          assert columns[j] == columns[1..][j - 1];
        }
      }
    }
  }

  lemma {:induction false} EqualColumns(columns: seq<seq<Python>>, n: nat)
    requires columns != [] && forall j :: 0 <= j < |columns| ==> |columns[j]| == n
    ensures Shortest(columns) == n
    decreases |columns|
  {
    if |columns| > 1 {
      forall j | 0 <= j < |columns[1..]|
        ensures |columns[1..][j]| == n
      {
        assert columns[1..][j] == columns[j + 1];
      }
      EqualColumns(columns[1..], n);
    }
  }

  function Transpose(columns: seq<seq<Python>>): (rows: seq<Row>)
    ensures |rows| == Shortest(columns)
  {
    ShortestIsLeast(columns);
    seq(Shortest(columns), i requires 0 <= i < Shortest(columns) =>
      seq(|columns|, j requires 0 <= j < |columns| => columns[j][i]))
  }

  /** Converting column by column and transposing is converting row by row, each cell by the type of its own column. */
  lemma TransposeConverted(types: seq<AdoType>, rows: seq<seq<Variant>>, columns: seq<seq<Python>>)
    requires types != [] && forall i :: 0 <= i < |rows| ==> |rows[i]| == |types|
    requires |columns| == |types|
    requires forall k :: 0 <= k < |types| ==> columns[k] == ConvertColumn(types[k], Columns(|types|, rows)[k])
    ensures Transpose(columns) == ConvertRows(types, rows)
    ensures |Transpose(columns)| == |rows| && forall i :: 0 <= i < |rows| ==> |Transpose(columns)[i]| == |types|
    ensures forall i, j :: 0 <= i < |rows| && 0 <= j < |types| ==>
              match rows[i][j]
              case Nothing => Transpose(columns)[i][j] == PyNone
              case Raw(value) => Transpose(columns)[i][j] == Converted(types[j], value)
  {
    EqualColumns(columns, |rows|);
    forall i | 0 <= i < |rows|
      ensures Transpose(columns)[i] == ConvertRow(types, rows[i])
    {
    }
  }

  lemma ConvertRowsSplit(types: seq<AdoType>, rows: seq<seq<Variant>>, n: nat)
    requires n <= |rows| && forall i :: 0 <= i < |rows| ==> |rows[i]| == |types|
    ensures ConvertRows(types, rows[..n]) + ConvertRows(types, rows[n..]) == ConvertRows(types, rows)
  {
  }
}
