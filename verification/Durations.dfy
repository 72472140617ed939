/** Adding and subtracting durations in SQL with DATEADD. */
module Durations {
  import opened Wrappers

  const MICROSECONDS_PER_SECOND: int := 1_000_000
  const SECONDS_PER_DAY: int := 86_400

  /** A normalised datetime.timedelta: only the days can be negative. */
  datatype Timedelta = Timedelta(days: int, seconds: int, microseconds: int) {
    predicate Valid() { 0 <= seconds < SECONDS_PER_DAY && 0 <= microseconds < MICROSECONDS_PER_SECOND }

    function Total(): int { (days * SECONDS_PER_DAY + seconds) * MICROSECONDS_PER_SECOND + microseconds }
  }

  /** The counts of DATEADD: a literal, or a bigint expression in microseconds divided, reduced or negated. */
  datatype Count = Literal(n: int) | Quotient(duration: Sql) | Remainder(duration: Sql) | Negated(c: Count)

  datatype Part = Second | Microsecond

  /** `Rendered` is a timedelta formatted into the text, which is no SQL expression. */
  datatype Sql = Column(name: string) | DateAdd(part: Part, count: Count, of: Sql) | Rendered(td: Timedelta)

  /** A sub-expression: SQL text, or a timedelta that date_interval_sql left alone. */
  datatype Operand = Text(sql: Sql) | Interval(td: Timedelta)

  // ---------- T-SQL ----------

  /** A datetime2 in microseconds since the start of year 1, or a duration in microseconds, which is a bigint. */
  datatype Value = Date(at: int) | Duration(us: int) {
    predicate Storable() {
      match this
      case Date(at) => InRange(at)
      case Duration(us) => -0x8000_0000_0000_0000 <= us < 0x8000_0000_0000_0000
    }
  }

  /** The years 1 to 9999. */
  const DATE_END: int := 3_652_059 * SECONDS_PER_DAY * MICROSECONDS_PER_SECOND

  predicate InRange(at: int) { 0 <= at < DATE_END }

  predicate FitsInt(n: int) { -0x8000_0000 <= n < 0x8000_0000 }

  /** Integer division and remainder of T-SQL round towards zero. */
  function TruncatedQuotient(a: int, b: int): int
    requires b > 0
  {
    if a >= 0 then a / b else -((-a) / b)
  }

  function TruncatedRemainder(a: int, b: int): int
    requires b > 0
  {
    a - TruncatedQuotient(a, b) * b
  }

  function WholeSeconds(us: int): int { TruncatedQuotient(us, MICROSECONDS_PER_SECOND) }

  function RestOfSecond(us: int): int { TruncatedRemainder(us, MICROSECONDS_PER_SECOND) }

  type Row = map<string, Value>

  /** Division and remainder take a number, so a duration and no date. */
  function EvalCount(c: Count, row: Row): Option<int> {
    match c
    case Literal(n) => Some(n)
    case Quotient(duration) =>
      (match Eval(duration, row)
       case Some(Duration(us)) => Some(WholeSeconds(us))
       case _ => None)
    case Remainder(duration) =>
      (match Eval(duration, row)
       case Some(Duration(us)) => Some(RestOfSecond(us))
       case _ => None)
    case Negated(c') =>
      match EvalCount(c', row)
      case Some(n) => Some(-n)
      case None => None
  }

  /** DATEADD on what is cast to datetime2: the count has to be an int and the result a datetime2. */
  function AddTo(v: Option<Value>, part: Part, count: Option<int>): Option<Value> {
    match (v, count)
    case (Some(Date(at)), Some(n)) =>
      var later := at + (if part.Second? then n * MICROSECONDS_PER_SECOND else n);
      if FitsInt(n) && InRange(later) then Some(Date(later)) else None
    case _ => None
  }

  /** None where the server refuses the expression: no such column, a bigint cast to datetime2, a date divided, an overflow. */
  function Eval(e: Sql, row: Row): Option<Value> {
    match e
    case Column(name) => if name in row && row[name].Storable() then Some(row[name]) else None
    case DateAdd(part, count, of) => AddTo(Eval(of, row), part, EvalCount(count, row))
    case Rendered(_) => None
  }

  // ---------- combine_duration_expression ----------

  datatype Error = InvalidConnector

  /**
   The first operand and the duration; a timedelta on the left changes places. Of two texts the second
   is taken for the duration column.
   */
  method CombineDurationExpression(connector: string, left: Operand, right: Operand) returns (r: Result<Sql, Error>)
    ensures r == Combined(connector, left, right)
  {
    if connector !in ["+", "-"] {
      return Failure(InvalidConnector);
    }
    var seconds: Option<Count> := None;
    var microseconds: Option<Count> := None;
    var sign := if connector == "+" then 1 else -1;
    var sql, timedelta := left, right;
    if sql.Interval? {
      sql, timedelta := timedelta, sql;
    }
    if timedelta.Interval? {
      var s := (timedelta.td.days * SECONDS_PER_DAY + timedelta.td.seconds) * sign;
      var us := timedelta.td.microseconds * sign;
      if s != 0 { seconds := Some(Literal(s)); }
      if us != 0 { microseconds := Some(Literal(us)); }
    }
    if timedelta.Text? {
      seconds := Some(Quotient(timedelta.sql));
      microseconds := Some(Remainder(timedelta.sql));
      if sign == -1 {
        microseconds := Some(Negated(microseconds.value));
      }
    }
    var out := if sql.Text? then sql.sql else Rendered(sql.td);
    if seconds.Some? {
      out := DateAdd(Second, seconds.value, out);
    }
    if microseconds.Some? {
      out := DateAdd(Microsecond, microseconds.value, out);
    }
    r := Success(out);
  }

  function AddIfAny(part: Part, n: int, of: Sql): Sql {
    if n == 0 then of else DateAdd(part, Literal(n), of)
  }

  function WithInterval(sql: Sql, td: Timedelta, sign: int): Sql {
    AddIfAny(Microsecond, td.microseconds * sign, AddIfAny(Second, (td.days * SECONDS_PER_DAY + td.seconds) * sign, sql))
  }

  function WithDuration(sql: Sql, duration: Sql, sign: int): Sql {
    DateAdd(
      Microsecond, if sign == -1 then Negated(Remainder(duration)) else Remainder(duration),
      DateAdd(Second, Quotient(duration), sql))
  }

  function Sign(connector: string): int { if connector == "+" then 1 else -1 }

  function Combined(connector: string, left: Operand, right: Operand): Result<Sql, Error> {
    if connector !in ["+", "-"] then Failure(InvalidConnector)
    else
      Success(match (left, right)
        case (Text(sql), Interval(td)) => WithInterval(sql, td, Sign(connector))
        case (Interval(td), Text(sql)) => WithInterval(sql, td, Sign(connector))
        case (Interval(td), Interval(td')) => WithInterval(Rendered(td'), td, Sign(connector))
        case (Text(sql), Text(duration)) => WithDuration(sql, duration, Sign(connector)))
  }

  /** Only the two connectors are accepted. */
  lemma RefusedExactlyWhen(connector: string, left: Operand, right: Operand)
    ensures Combined(connector, left, right).Failure? <==> connector != "+" && connector != "-"
  {
  }

  // ---------- Literal durations ----------

  /** Both steps stay within the years 1 to 9999, and the seconds are an int. */
  predicate StepsFit(at: int, seconds: int, microseconds: int) {
    && FitsInt(seconds)
    && InRange(at + seconds * MICROSECONDS_PER_SECOND)
    && InRange(at + seconds * MICROSECONDS_PER_SECOND + microseconds)
  }

  lemma EvalStorable(e: Sql, row: Row)
    ensures Eval(e, row).Some? ==> Eval(e, row).value.Storable()
  {
  }

  lemma PartEval(part: Part, n: int, of: Sql, row: Row)
    ensures Eval(AddIfAny(part, n, of), row) == if n == 0 then Eval(of, row) else AddTo(Eval(of, row), part, Some(n))
  {
  }

  lemma IntervalEval(sql: Sql, s: int, us: int, row: Row)
    requires FitsInt(us)
    ensures
      var result := Eval(AddIfAny(Microsecond, us, AddIfAny(Second, s, sql)), row);
      match Eval(sql, row)
      case Some(Date(at)) =>
        result == if StepsFit(at, s, us) then Some(Date(at + s * MICROSECONDS_PER_SECOND + us)) else None
      case Some(Duration(d)) => result == if s == 0 && us == 0 then Some(Duration(d)) else None
      case None => result == None
  {
    hide Eval, AddIfAny;
    EvalStorable(sql, row);
    PartEval(Second, s, sql, row);
    PartEval(Microsecond, us, AddIfAny(Second, s, sql), row);
  }

  /**
   A literal duration, for every normalised timedelta, added to or subtracted from any text: the result is the
   exact sum if and only if the text is a date and both steps fit, or the timedelta is zero; else there is none.
   A timedelta on the left is treated as if it stood on the right.
   */
  lemma LiteralDuration(connector: string, sql: Sql, td: Timedelta, row: Row)
    requires connector in ["+", "-"] && 0 <= td.seconds < 86_400 && 0 <= td.microseconds < 1_000_000
    ensures Combined(connector, Text(sql), Interval(td)).Success?
    ensures Combined(connector, Interval(td), Text(sql)) == Combined(connector, Text(sql), Interval(td))
    ensures
      var sign := if connector == "+" then 1 else -1;
      var seconds := td.days * 86_400 + td.seconds;
      var result := Eval(Combined(connector, Text(sql), Interval(td)).value, row);
      match Eval(sql, row)
      case Some(Date(at)) =>
        result == if StepsFit(at, sign * seconds, sign * td.microseconds)
                  then Some(Date(at + sign * (seconds * 1_000_000 + td.microseconds))) else None
      case Some(Duration(us)) => result == if seconds == 0 && td.microseconds == 0 then Some(Duration(us)) else None
      case None => result == None
  {
    hide Eval, AddIfAny;
    var sign := Sign(connector);
    var s := td.days * SECONDS_PER_DAY + td.seconds;
    assert td.Total() == 0 <==> s == 0 && td.microseconds == 0;
    IntervalEval(sql, s * sign, td.microseconds * sign, row);
  }

  /** A duration subtracted from a timedelta is right only for zero and zero. */
  lemma LiteralMinusDuration(sql: Sql, td: Timedelta, row: Row)
    requires 0 <= td.seconds < 86_400 && 0 <= td.microseconds < 1_000_000 && Eval(sql, row).Some? && Eval(sql, row).value.Duration?
    ensures Combined("-", Interval(td), Text(sql)).Success?
    ensures
      Eval(Combined("-", Interval(td), Text(sql)).value, row) == Some(Duration(td.Total() - Eval(sql, row).value.us))
      <==> td.Total() == 0 && Eval(sql, row).value.us == 0
  {
    hide Eval, AddIfAny;
    LiteralDuration("-", sql, td, row);
  }

  /** Two timedeltas end up as text that the server refuses. */
  lemma TwoLiterals(connector: string, td: Timedelta, td': Timedelta, row: Row)
    requires connector in ["+", "-"] && 0 <= td.seconds < 86_400 && 0 <= td.microseconds < 1_000_000
    ensures Combined(connector, Interval(td), Interval(td')).Success?
    ensures Eval(Combined(connector, Interval(td), Interval(td')).value, row) == None
  {
    hide AddIfAny;
    var sign := Sign(connector);
    IntervalEval(Rendered(td'), (td.days * SECONDS_PER_DAY + td.seconds) * sign, td.microseconds * sign, row);
  }

  // ---------- Duration columns ----------

  /** Quotient and remainder towards zero make up the value again, negative ones included. */
  lemma QuotientAndRemainder(v: int)
    ensures WholeSeconds(v) * MICROSECONDS_PER_SECOND + RestOfSecond(v) == v
    ensures -MICROSECONDS_PER_SECOND < RestOfSecond(v) < MICROSECONDS_PER_SECOND
    ensures WholeSeconds(v) == 0 <==> -MICROSECONDS_PER_SECOND < v < MICROSECONDS_PER_SECOND
  {
    var a := if v >= 0 then v else -v;
    assert a == a / MICROSECONDS_PER_SECOND * MICROSECONDS_PER_SECOND + a % MICROSECONDS_PER_SECOND;
  }

  /** The left is a date, the right a duration, and both steps fit. */
  predicate DateAndDuration(left: Option<Value>, right: Option<Value>, sign: int) {
    && left.Some? && left.value.Date? && right.Some? && right.value.Duration?
    && StepsFit(left.value.at, WholeSeconds(right.value.us), sign * RestOfSecond(right.value.us))
  }

  /** The counts have values exactly when the operand is a duration. */
  lemma CountsEval(duration: Sql, row: Row, sign: int)
    requires sign == 1 || sign == -1
    ensures
      var rest := if sign == -1 then Negated(Remainder(duration)) else Remainder(duration);
      match Eval(duration, row)
      case Some(Duration(us)) =>
        EvalCount(Quotient(duration), row) == Some(WholeSeconds(us)) && EvalCount(rest, row) == Some(sign * RestOfSecond(us))
      case _ => EvalCount(Quotient(duration), row) == None && EvalCount(rest, row) == None
  {
    hide WholeSeconds, RestOfSecond;
  }

  lemma AddTwice(v: Option<Value>, s: int, us: int)
    requires FitsInt(us)
    ensures AddTo(AddTo(v, Second, Some(s)), Microsecond, Some(us))
         == match v
            case Some(Date(at)) => if StepsFit(at, s, us) then Some(Date(at + s * MICROSECONDS_PER_SECOND + us)) else None
            case _ => None
  {
  }

  lemma NestedEval(sql: Sql, seconds: Count, rest: Count, row: Row)
    ensures Eval(DateAdd(Microsecond, rest, DateAdd(Second, seconds, sql)), row)
         == AddTo(AddTo(Eval(sql, row), Second, EvalCount(seconds, row)), Microsecond, EvalCount(rest, row))
  {
    hide AddTo;
  }

  lemma DurationEval(sql: Sql, duration: Sql, row: Row, sign: int)
    requires sign == 1 || sign == -1
    ensures
      var left, right := Eval(sql, row), Eval(duration, row);
      Eval(WithDuration(sql, duration, sign), row)
      == if DateAndDuration(left, right, sign)
         then Some(Date(left.value.at + WholeSeconds(right.value.us) * MICROSECONDS_PER_SECOND + sign * RestOfSecond(right.value.us)))
         else None
  {
    var rest := if sign == -1 then Negated(Remainder(duration)) else Remainder(duration);
    NestedEval(sql, Quotient(duration), rest, row);
    hide Eval, EvalCount, WholeSeconds, RestOfSecond;
    CountsEval(duration, row, sign);
    if Eval(duration, row).Some? && Eval(duration, row).value.Duration? {
      var us := Eval(duration, row).value.us;
      QuotientAndRemainder(us);
      AddTwice(Eval(sql, row), WholeSeconds(us), sign * RestOfSecond(us));
    }
  }

  /**
   Of two texts: there is a result if and only if the left is a date, the right a duration and both steps fit,
   and then it is the exact sum, for negative durations too. Operands the other way round, two dates and two
   durations are refused.
   */
  lemma DurationAdded(sql: Sql, duration: Sql, row: Row)
    ensures Combined("+", Text(sql), Text(duration)).Success?
    ensures
      var left, right := Eval(sql, row), Eval(duration, row);
      Eval(Combined("+", Text(sql), Text(duration)).value, row)
      == if DateAndDuration(left, right, 1) then Some(Date(left.value.at + right.value.us)) else None
  {
    hide Eval;
    DurationEval(sql, duration, row, 1);
    if Eval(duration, row).Some? && Eval(duration, row).value.Duration? {
      QuotientAndRemainder(Eval(duration, row).value.us);
    }
  }

  /**
   Subtracting negates the microseconds only: the result is the exact difference if and only if the left is a
   date, the right a duration shorter than a second either way, and the difference a datetime2.
   */
  lemma DurationSubtracted(sql: Sql, duration: Sql, row: Row)
    requires Eval(sql, row).Some? && Eval(duration, row).Some?
    ensures Combined("-", Text(sql), Text(duration)).Success?
    ensures
      var left, right := Eval(sql, row).value, Eval(duration, row).value;
      left.Date? && right.Duration? ==>
        (Eval(Combined("-", Text(sql), Text(duration)).value, row) == Some(Date(left.at - right.us))
         <==> -1_000_000 < right.us < 1_000_000 && InRange(left.at - right.us))
    ensures
      !(Eval(sql, row).value.Date? && Eval(duration, row).value.Duration?) ==>
        Eval(Combined("-", Text(sql), Text(duration)).value, row) == None
  {
    hide Eval;
    DurationEval(sql, duration, row, -1);
    EvalStorable(sql, row);
    if Eval(duration, row).value.Duration? {
      QuotientAndRemainder(Eval(duration, row).value.us);
    }
  }
}
