/** Slices of a query as OFFSET and FETCH. */
module Slicing {
  import opened Wrappers
  import opened Strings
  import Decimals

  /** A slice as QuerySet accepts it: no negative numbers, either end may be missing. */
  datatype Slice = Slice(low: Option<nat>, high: Option<nat>)

  // ---------- What slicing means for a list ----------

  function Clamp(n: nat, length: nat): nat { if n <= length then n else length }

  /** Python's rows[low:high]. */
  function ListSlice<T>(rows: seq<T>, s: Slice): seq<T> {
    var low := if s.low.Some? then Clamp(s.low.value, |rows|) else 0;
    var high := if s.high.Some? then Clamp(s.high.value, |rows|) else |rows|;
    if low <= high then rows[low..high] else []
  }

  function ListSlices<T>(rows: seq<T>, slices: seq<Slice>): seq<T>
    decreases |slices|
  {
    if slices == [] then rows else ListSlice(ListSlices(rows, slices[..|slices| - 1]), slices[|slices| - 1])
  }

  // ---------- What SQL Server selects ----------

  datatype Limits = NoLimits | OffsetFetch(offset: nat, fetch: Option<nat>)

  /** A SELECT as text, the ordering that stands before the limits, if any, and the limits. */
  datatype Statement = Statement(text: string, ordering: seq<string>, limits: Limits)

  /** OFFSET needs an ordering and FETCH NEXT n ROWS a positive count; `rows` are in that order. */
  function Select<T>(rows: seq<T>, statement: Statement): Option<seq<T>> {
    match statement.limits
    case NoLimits => Some(rows)
    case OffsetFetch(offset, fetch) =>
      var rest := rows[Clamp(offset, |rows|)..];
      if statement.ordering == [] then None
      else match fetch
        case None => Some(rest)
        case Some(n) => if n >= 1 then Some(rest[..Clamp(n, |rest|)]) else None
  }

  function OrderText(ordering: seq<string>): string {
    if ordering == [] then "" else " ORDER BY " + Joined(ordering)
  }

  function Joined(names: seq<string>): string {
    if names == [] then "" else if |names| == 1 then names[0] else names[0] + ", " + Joined(names[1..])
  }

  // ---------- The limits in the text ----------

  /** "%d" of a number. */
  function NumberText(n: nat): string { Decimals.Text(Decimals.DigitsOfNat(n)) }

  function LimitsText(limits: Limits): string {
    match limits
    case NoLimits => ""
    case OffsetFetch(offset, None) => " OFFSET " + NumberText(offset) + " ROWS"
    case OffsetFetch(offset, Some(n)) => " OFFSET " + NumberText(offset) + " ROWS" + " FETCH NEXT " + NumberText(n) + " ROWS ONLY"
  }

  function DigitsEnd(s: string): (i: nat)
    ensures i <= |s|
    ensures forall k :: 0 <= k < i ==> Decimals.IsDigit(s[k])
    decreases |s|
  {
    if s == "" || !Decimals.IsDigit(s[0]) then 0 else 1 + DigitsEnd(s[1..])
  }

  function ReadNumber(s: string): Option<(nat, string)> {
    var i := DigitsEnd(s);
    if i == 0 then None else Some((Decimals.Value(Decimals.Digits(s[..i])), s[i..]))
  }

  /** How T-SQL reads what follows the ordering. */
  function ReadLimits(s: string): Option<Limits> {
    if s == "" then Some(NoLimits)
    else match After(s, " OFFSET ")
      case None => None
      case Some(number) =>
        match ReadNumber(number)
        case None => None
        case Some((offset, rest)) =>
          match After(rest, " ROWS")
          case None => None
          case Some(behind) =>
            if behind == "" then Some(OffsetFetch(offset, None))
            else match After(behind, " FETCH NEXT ")
              case None => None
              case Some(count) =>
                match ReadNumber(count)
                case None => None
                case Some((n, last)) => if last == " ROWS ONLY" then Some(OffsetFetch(offset, Some(n))) else None
  }

  lemma {:induction false} DigitsEndAt(a: string, s: string)
    requires Decimals.AllDigits(a) && (s == "" || !Decimals.IsDigit(s[0]))
    ensures DigitsEnd(a + s) == |a|
    decreases |a|
  {
    if a == "" {
      assert a + s == s;
    } else {
      assert (a + s)[1..] == a[1..] + s;
      DigitsEndAt(a[1..], s);
    }
  }

  lemma NumberReads(n: nat, s: string)
    requires s == "" || !Decimals.IsDigit(s[0])
    ensures ReadNumber(NumberText(n) + s) == Some((n, s))
  {
    var ds := Decimals.DigitsOfNat(n);
    Decimals.TextDigits(ds);
    DigitsEndAt(NumberText(n), s);
    assert (NumberText(n) + s)[..|NumberText(n)|] == NumberText(n);
    assert (NumberText(n) + s)[|NumberText(n)|..] == s;
  }

  /** The limits read back from their text. */
  lemma LimitsRead(limits: Limits)
    ensures ReadLimits(LimitsText(limits)) == Some(limits)
  {
    hide After, ReadNumber, NumberText;
    if limits.OffsetFetch? {
      var number := NumberText(limits.offset);
      if limits.fetch.None? {
        assert LimitsText(limits) == " OFFSET " + (number + (" ROWS" + ""));
        AfterWord(" OFFSET ", number + (" ROWS" + ""));
        NumberReads(limits.offset, " ROWS" + "");
        AfterWord(" ROWS", "");
      } else {
        var count := NumberText(limits.fetch.value);
        var fetch := " FETCH NEXT " + (count + " ROWS ONLY");
        FetchShape(number, count);
        AfterWord(" OFFSET ", number + (" ROWS" + fetch));
        NumberReads(limits.offset, " ROWS" + fetch);
        AfterWord(" ROWS", fetch);
        AfterWord(" FETCH NEXT ", count + " ROWS ONLY");
        NumberReads(limits.fetch.value, " ROWS ONLY");
      }
    }
  }

  lemma FetchShape(number: string, count: string)
    ensures " OFFSET " + number + " ROWS" + " FETCH NEXT " + count + " ROWS ONLY"
         == " OFFSET " + (number + (" ROWS" + (" FETCH NEXT " + (count + " ROWS ONLY"))))
  {
  }

  // ---------- The search for an ordering ----------

  lemma OrderByFirst()
    ensures OrderText(["1"]) == " ORDER BY 1"
  {
  }

  /** Somewhere in the text, in any case, stands " order by ". */
  predicate MentionsOrderBy(text: string) {
    exists i :: 0 <= i <= |text| && StartsWith(text[i..], " order by ")
  }

  /** Only these words, spelled in capitals or not, with these blanks. */
  lemma MentionsInAnyCase(before: string, words: string, behind: string)
    requires |words| == 10
    requires forall k :: 0 <= k < 10 ==> words[k] == " order by "[k] || words[k] == " ORDER BY "[k]
    ensures MentionsOrderBy(before + words + behind)
  {
    var text := before + words + behind;
    assert text[|before|..] == words + behind;
    assert StartsWith(text[|before|..], " order by ");
  }

  lemma MentionsOnlyWords(text: string) returns (before: string, words: string, behind: string)
    requires MentionsOrderBy(text)
    ensures text == before + words + behind && |words| == 10
    ensures forall k :: 0 <= k < 10 ==> words[k] == " order by "[k] || words[k] == " ORDER BY "[k]
  {
    var i :| 0 <= i <= |text| && StartsWith(text[i..], " order by ");
    before, words, behind := text[..i], text[i..i + 10], text[i + 10..];
    forall k | 0 <= k < 10
      ensures words[k] == " order by "[k] || words[k] == " ORDER BY "[k]
    {
      assert Lower(text[i..][k]) == " order by "[k] && words[k] == text[i..][k];
      Capitals(words[k], " order by "[k]);
      CapitalWords(k);
    }
  }

  function Capital(c: char): char { if 'a' <= c <= 'z' then c - ('a' - 'A') else c }

  lemma Capitals(c: char, small: char)
    requires Lower(c) == small
    ensures c == small || c == Capital(small)
  {
  }

  lemma CapitalWords(k: nat)
    requires k < 10
    ensures Capital(" order by "[k]) == " ORDER BY "[k]
  {
  }

  lemma OrderedMentionsIt(select: string, ordering: seq<string>)
    requires ordering != []
    ensures MentionsOrderBy(select + OrderText(ordering))
  {
    hide Joined;
    var text := select + OrderText(ordering);
    var rest := " ORDER BY " + Joined(ordering);
    assert text[|select|..] == rest;
    assert rest[..10] == " ORDER BY ";
    assert forall i :: 0 <= i < 10 ==> rest[i] == " ORDER BY "[i];
    assert StartsWith(text[|select|..], " order by ");
  }

  /** The rows between the marks. */
  function Window<T>(rows: seq<T>, low: nat, high: Option<nat>): seq<T> {
    ListSlice(rows, Slice(Some(low), high))
  }

  // ---------- The query ----------

  class Query {
    var lowMark: nat
    var highMark: Option<nat>
    var isEmpty: bool
    /** An attribute that exists only while a statement without limits is being compiled. */
    var orderingNotAllowed: Option<bool>

    constructor ()
      ensures lowMark == 0 && highMark == None && !isEmpty && orderingNotAllowed == None
    {
      lowMark, highMark, isEmpty, orderingNotAllowed := 0, None, false, None;
    }

    ghost predicate Valid()
      reads this
    {
      && (highMark.Some? ==> lowMark <= highMark.value)
      && (isEmpty <==> highMark == Some(lowMark))
      && orderingNotAllowed == None
    }

    /** Django's own set_limits: marks are relative to the ones already set. */
    method OriginalSetLimits(low: Option<nat>, high: Option<nat>)
      requires highMark.Some? ==> lowMark <= highMark.value
      modifies this`lowMark, this`highMark
      ensures highMark.Some? ==> lowMark <= highMark.value
      ensures highMark.Some? <==> old(highMark).Some? || high.Some?
      ensures forall rows: seq<int> :: Window(rows, lowMark, highMark) ==
                ListSlice(Window(rows, old(lowMark), old(highMark)), Slice(low, high))
      ensures lowMark >= old(lowMark)
      ensures old(highMark) == Some(old(lowMark)) ==> highMark == Some(lowMark)
    {
      if high.Some? {
        if highMark.Some? {
          highMark := Some(if highMark.value <= lowMark + high.value then highMark.value else lowMark + high.value);
        } else {
          highMark := Some(lowMark + high.value);
        }
      }
      if low.Some? {
        if highMark.Some? {
          lowMark := if highMark.value <= lowMark + low.value then highMark.value else lowMark + low.value;
        } else {
          lowMark := lowMark + low.value;
        }
      }
      forall rows: seq<int>
        ensures Window(rows, lowMark, highMark) == ListSlice(Window(rows, old(lowMark), old(highMark)), Slice(low, high))
      {
        SliceOfWindow(rows, old(lowMark), old(highMark), Slice(low, high), lowMark, highMark);
      }
    }

    /** The patched set_limits: a window of no rows makes the query the empty one. */
    method SetLimits(s: Slice)
      requires Valid()
      modifies this
      ensures Valid()
      ensures forall rows: seq<int> :: Window(rows, lowMark, highMark) == ListSlice(Window(rows, old(lowMark), old(highMark)), s)
    {
      OriginalSetLimits(s.low, s.high);
      if highMark == Some(lowMark) {
        isEmpty := true;
      }
    }

    /** A chain of slices: the window is the chained list slice, for every content of the table. */
    method SliceAll(slices: seq<Slice>)
      requires Valid() && lowMark == 0 && highMark == None
      modifies this
      ensures Valid()
      ensures forall rows: seq<int> :: Window(rows, lowMark, highMark) == ListSlices(rows, slices)
    {
      for i := 0 to |slices|
        invariant Valid()
        invariant forall rows: seq<int> :: Window(rows, lowMark, highMark) == ListSlices(rows, slices[..i])
      {
        SetLimits(slices[i]);
        assert slices[..i + 1][..i] == slices[..i];
        assert forall rows: seq<int> :: ListSlices(rows, slices[..i + 1]) == ListSlice(ListSlices(rows, slices[..i]), slices[i]);
      }
      assert slices[..|slices|] == slices;
    }

    /**
     Compiles the query: None for the empty query, which never reaches the database. `select` is the text up to
     the ordering. A limited statement selects the window if and only if the query is ordered or its text does
     not mention an ordering anywhere; otherwise the server refuses it. The helper attribute is gone again.
     */
    method AsSql(withLimits: bool, withColAliases: bool, select: string, ordering: seq<string>)
      returns (r: Option<Statement>)
      requires Valid()
      modifies this`orderingNotAllowed
      ensures Valid()
      ensures r == None <==> isEmpty
      ensures r.Some? ==>
                var head := select + OrderText(r.value.ordering);
                head <= r.value.text && ReadLimits(r.value.text[|head|..]) == Some(r.value.limits)
      ensures r.Some? && r.value.limits.OffsetFetch? && ordering == [] && !MentionsOrderBy(select) ==> r.value.ordering == ["1"]
      ensures r.Some? && withLimits ==>
                forall rows: seq<int> :: Select(rows, r.value) ==
                  if r.value.limits == NoLimits || ordering != [] || !MentionsOrderBy(select)
                  then Some(Window(rows, lowMark, highMark)) else None
      ensures r.Some? ==> (r.value.limits == NoLimits <==> !withLimits || (lowMark == 0 && highMark == None))
      ensures r.Some? && r.value.limits.OffsetFetch? && r.value.limits.fetch.Some? ==> r.value.limits.fetch.value >= 1
      ensures r.Some? && ordering != [] && (!withColAliases || r.value.limits.OffsetFetch?) ==> r.value.ordering == ordering
      ensures r.Some? && withColAliases && r.value.limits.NoLimits? ==> r.value.ordering == []
    {
      hide Select, Window, MentionsOrderBy, Joined, LimitsText, ReadLimits;
      var hasLimitOffset := withLimits && (lowMark != 0 || highMark.Some?);
      if !hasLimitOffset {
        orderingNotAllowed := Some(withColAliases);
      }
      if isEmpty {
        orderingNotAllowed := None;
        return None;
      }
      var orderBy := if orderingNotAllowed == Some(true) then [] else ordering;
      var sql := select + OrderText(orderBy);
      var limits := NoLimits;
      if hasLimitOffset {
        if ordering != [] {
          OrderedMentionsIt(select, ordering);
        } else {
          assert sql == select;
        }
        if !MentionsOrderBy(sql) {
          orderBy := ["1"];
          sql := sql + " ORDER BY 1";
          OrderByFirst();
        }
        limits := OffsetFetch(lowMark, None);
        if highMark.Some? {
          limits := OffsetFetch(lowMark, Some(highMark.value - lowMark));
        }
      }
      ghost var head := sql;
      sql := sql + LimitsText(limits);
      LimitsRead(limits);
      assert sql[|head|..] == LimitsText(limits);
      if !hasLimitOffset {
        orderingNotAllowed := None;
      }
      r := Some(Statement(sql, orderBy, limits));
      forall rows: seq<int> | withLimits
        ensures Select(rows, r.value) ==
                  if limits == NoLimits || orderBy != [] then Some(Window(rows, lowMark, highMark)) else None
      {
        SelectIsWindow(rows, lowMark, highMark, r.value);
      }
    }
  }

  /** Slicing the window again is a window with marks moved relative to its start. */
  lemma SliceOfWindow<T>(rows: seq<T>, low: nat, high: Option<nat>, s: Slice, low': nat, high': Option<nat>)
    requires high.Some? ==> low <= high.value
    requires
      var top := if s.high.None? then high
                 else if high.None? then Some(low + s.high.value)
                 else Some(Min(high.value, low + s.high.value));
      && high' == top
      && low' == if s.low.None? then low else if top.Some? then Min(top.value, low + s.low.value) else low + s.low.value
    ensures Window(rows, low', high') == ListSlice(Window(rows, low, high), s)
  {
    hide Window, ListSlice;
    MarksMove(|rows|, low, high, s, low', high');
    WindowBounds(rows, low, high);
    WindowBounds(rows, low', high');
    var window := Window(rows, low, high);
    var start := Clamp(low, |rows|);
    var from := if s.low.Some? then Clamp(s.low.value, |window|) else 0;
    var to := if s.high.Some? then Clamp(s.high.value, |window|) else |window|;
    SliceBounds(window, s);
    if from <= to {
      RangeOfRange(rows, start, start + |window|, from, to);
    }
  }

  /** The same on numbers: where the clamped marks end up. */
  lemma MarksMove(length: nat, low: nat, high: Option<nat>, s: Slice, low': nat, high': Option<nat>)
    requires high.Some? ==> low <= high.value
    requires
      var top := if s.high.None? then high
                 else if high.None? then Some(low + s.high.value)
                 else Some(Min(high.value, low + s.high.value));
      && high' == top
      && low' == if s.low.None? then low else if top.Some? then Min(top.value, low + s.low.value) else low + s.low.value
    ensures
      var start := Clamp(low, length);
      var size := (if high.Some? then Clamp(high.value, length) else length) - start;
      size >= 0 &&
      var from := if s.low.Some? then Clamp(s.low.value, size) else 0;
      var to := if s.high.Some? then Clamp(s.high.value, size) else size;
      var end' := if high'.Some? then Clamp(high'.value, length) else length;
      && (from <= to ==> Clamp(low', length) == start + from && end' == start + to)
      && (from > to ==> Clamp(low', length) == end')
      && (high'.Some? ==> low' <= high'.value)
  {
  }

  lemma RangeOfRange<T>(rows: seq<T>, a: nat, b: nat, c: nat, d: nat)
    requires a <= b <= |rows| && c <= d <= b - a
    ensures rows[a..b][c..d] == rows[a + c..a + d]
  {
    var inner := rows[a..b];
    forall k | c <= k < d
      ensures inner[k] == rows[a + k]
    {
    }
    assert inner[c..d] == rows[a + c..a + d];
  }

  lemma WindowBounds<T>(rows: seq<T>, low: nat, high: Option<nat>)
    requires high.Some? ==> low <= high.value
    ensures
      var end := if high.Some? then Clamp(high.value, |rows|) else |rows|;
      Clamp(low, |rows|) <= end && Window(rows, low, high) == rows[Clamp(low, |rows|)..end]
  {
  }

  lemma SliceBounds<T>(rows: seq<T>, s: Slice)
    ensures
      var from := if s.low.Some? then Clamp(s.low.value, |rows|) else 0;
      var to := if s.high.Some? then Clamp(s.high.value, |rows|) else |rows|;
      ListSlice(rows, s) == if from <= to then rows[from..to] else []
  {
  }

  function Min(a: nat, b: nat): nat { if a <= b then a else b }

  lemma SelectIsWindow<T>(rows: seq<T>, low: nat, high: Option<nat>, statement: Statement)
    requires high.Some? ==> low < high.value
    requires statement.limits == (if low == 0 && high.None? then NoLimits
                                  else OffsetFetch(low, if high.Some? then Some(high.value - low) else None))
    ensures Select(rows, statement) ==
              if statement.limits == NoLimits || statement.ordering != [] then Some(Window(rows, low, high)) else None
  {
    var rest := rows[Clamp(low, |rows|)..];
    if high.None? {
      assert rest == rows[Clamp(low, |rows|)..|rows|];
      assert low == 0 ==> rows[0..|rows|] == rows;
    } else {
      var n := Clamp(high.value - low, |rest|);
      assert rest[..n] == rows[Clamp(low, |rows|)..Clamp(low, |rows|) + n];
    }
  }

  /** A window whose marks differ shows something of a long enough table. */
  lemma RowsBeyond(low: nat, high: Option<nat>) returns (rows: seq<int>)
    requires high.Some? ==> low < high.value
    ensures Window(rows, low, high) != []
  {
    rows := seq(low + 1, _ => 0);
    assert |Window(rows, low, high)| == 1;
  }

  /** Marks that are set cut something off a long enough table. */
  lemma RowsCutOff(low: nat, high: Option<nat>) returns (rows: seq<int>)
    requires high.Some? ==> low < high.value
    requires low != 0 || high.Some?
    ensures Window(rows, low, high) != rows
  {
    rows := seq(if high.Some? then high.value + 1 else low, _ => 0);
    assert |Window(rows, low, high)| < |rows|;
  }

  /**
   For any chain of slices: the empty query exactly when no row can be left, else a statement that selects
   exactly the rows left, unless an unordered query mentions an ordering inside, which the server refuses.
   */
  method CompileSlices(slices: seq<Slice>, select: string, ordering: seq<string>) returns (r: Option<Statement>)
    ensures r.None? <==> forall rows: seq<int> :: ListSlices(rows, slices) == []
    ensures r.Some? ==> (r.value.limits == NoLimits <==> forall rows: seq<int> :: ListSlices(rows, slices) == rows)
    ensures r.Some? ==>
              forall rows: seq<int> :: Select(rows, r.value) ==
                if r.value.limits == NoLimits || ordering != [] || !MentionsOrderBy(select)
                then Some(ListSlices(rows, slices)) else None
  {
    var query := new Query();
    query.SliceAll(slices);
    r := query.AsSql(true, false, select, ordering);
    hide ListSlices, ListSlice, Window, MentionsOrderBy, OrderText;
    if r.Some? {
      forall rows: seq<int> | r.value.limits == NoLimits
        ensures ListSlices(rows, slices) == rows
      {
        assert Select(rows, r.value) == Some(Window(rows, query.lowMark, query.highMark));
      }
      var rows := RowsBeyond(query.lowMark, query.highMark);
      assert Window(rows, query.lowMark, query.highMark) == ListSlices(rows, slices);
      if r.value.limits != NoLimits {
        var more := RowsCutOff(query.lowMark, query.highMark);
        assert Window(more, query.lowMark, query.highMark) == ListSlices(more, slices);
      }
    }
  }

  /**
   Any slice, or chain of slices, of an unordered query whose text mentions an ordering, in a subquery say, is refused,
   unless it is known to be empty or to be the whole table.
   */
  method UnorderedWithSubquery(slices: seq<Slice>, select: string) returns (r: Option<Statement>)
    requires MentionsOrderBy(select)
    requires exists rows: seq<int> :: ListSlices(rows, slices) != []
    requires exists rows: seq<int> :: ListSlices(rows, slices) != rows
    ensures r.Some? && forall rows: seq<int> :: Select(rows, r.value) == None
  {
    r := CompileSlices(slices, select, []);
  }
}
