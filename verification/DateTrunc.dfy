/** Truncating dates with DATEADD(part, DATEDIFF(part, reference, x), reference). */
module DateTrunc {
  import opened Wrappers
  import opened Calendar

  datatype Part = Year | Month | Day | Hour | Minute | Second

  // ---------- T-SQL ----------

  predicate FitsInt(n: int) { -0x8000_0000 <= n < 0x8000_0000 }

  function Unit(p: Part): int
    requires !p.Year? && !p.Month?
  {
    match p
    case Day => TICKS_PER_DAY
    case Hour => TICKS_PER_HOUR
    case Minute => TICKS_PER_MINUTE
    case Second => TICKS_PER_SECOND
  }

  /** The number of part boundaries crossed from a to b. */
  function DateDiff(p: Part, a: Moment, b: Moment): int
    requires a.Valid() && b.Valid()
  {
    match p
    case Year => b.year - a.year
    case Month => 12 * (b.year - a.year) + b.month - a.month
    case Day => b.DayNumber() - a.DayNumber()
    case Hour => b.Ticks() / TICKS_PER_HOUR - a.Ticks() / TICKS_PER_HOUR
    case Minute => b.Ticks() / TICKS_PER_MINUTE - a.Ticks() / TICKS_PER_MINUTE
    case Second => b.Ticks() / TICKS_PER_SECOND - a.Ticks() / TICKS_PER_SECOND
  }

  function ClampDay(y: int, m: int, d: int): int
    requires 1 <= m <= 12
  {
    if d <= MonthLength(y, m) then d else MonthLength(y, m)
  }

  /** None when the count is no int or the result is before `firstYear` or after 9999. */
  function DateAdd(p: Part, n: int, a: Moment, firstYear: int): Option<Moment>
    requires a.Valid() && 1 <= firstYear
  {
    if !FitsInt(n) then None
    else if p.Year? then
      var y := a.year + n;
      if firstYear <= y <= 9999 then Some(Moment(y, a.month, ClampDay(y, a.month, a.day), a.tick)) else None
    else if p.Month? then
      var months := 12 * a.year + a.month - 1 + n;
      var y, m := months / 12, months % 12 + 1;
      if firstYear <= y <= 9999 then Some(Moment(y, m, ClampDay(y, m, a.day), a.tick)) else None
    else
      AtTicks(a.Ticks() + n * Unit(p), firstYear)
  }

  function AtTicks(t: int, firstYear: int): Option<Moment> {
    if 0 <= t < DaysBeforeYear(10000) * TICKS_PER_DAY && firstYear <= FromTicks(t).year then Some(FromTicks(t)) else None
  }

  // ---------- Style 112, yyyymmdd ----------

  function Digit(n: int): char
    requires 0 <= n <= 9
  {
    '0' + n as char
  }

  function Style112(x: Moment): (s: string)
    requires x.Valid()
    ensures |s| == 8
  {
    [Digit(x.year / 1000), Digit(x.year / 100 % 10), Digit(x.year / 10 % 10), Digit(x.year % 10),
     Digit(x.month / 10), Digit(x.month % 10), Digit(x.day / 10), Digit(x.day % 10)]
  }

  predicate IsDigit(c: char) { '0' <= c <= '9' }

  function DigitValue(c: char): int
    requires IsDigit(c)
  {
    c as int - '0' as int
  }

  function FromStyle112(s: string): Option<Moment> {
    if |s| != 8 || exists i :: 0 <= i < |s| && !IsDigit(s[i]) then None
    else
      var x := Moment(
        1000 * DigitValue(s[0]) + 100 * DigitValue(s[1]) + 10 * DigitValue(s[2]) + DigitValue(s[3]),
        10 * DigitValue(s[4]) + DigitValue(s[5]),
        10 * DigitValue(s[6]) + DigitValue(s[7]),
        0);
      if x.Valid() then Some(x) else None
  }

  lemma DigitRoundTrip(n: int)
    requires 0 <= n <= 9
    ensures IsDigit(Digit(n)) && DigitValue(Digit(n)) == n
  {
  }

  /** Four digits of the year and '0101' read back as 1 January of that year. */
  lemma YearStart(x: Moment)
    requires x.Valid()
    ensures FromStyle112(Style112(x)[..4] + "0101") == Some(Moment(x.year, 1, 1, 0))
  {
    var s := Style112(x)[..4] + "0101";
    DigitRoundTrip(x.year / 1000);
    DigitRoundTrip(x.year / 100 % 10);
    DigitRoundTrip(x.year / 10 % 10);
    DigitRoundTrip(x.year % 10);
    assert s == [Digit(x.year / 1000), Digit(x.year / 100 % 10), Digit(x.year / 10 % 10), Digit(x.year % 10), '0', '1', '0', '1'];
    assert forall i :: 0 <= i < |s| ==> IsDigit(s[i]);
    YearDigits(x.year);
  }

  lemma YearDigits(y: int)
    requires 0 <= y <= 9999
    ensures 1000 * (y / 1000) + 100 * (y / 100 % 10) + 10 * (y / 10 % 10) + y % 10 == y
  {
    assert y / 10 == 10 * (y / 100) + y / 10 % 10;
    assert y / 100 == 10 * (y / 1000) + y / 100 % 10;
  }

  // ---------- date_trunc_sql and datetime_trunc_sql ----------

  const EPOCH: Moment := Moment(1900, 1, 1, 0)

  /** The reference 0 is a datetime, which starts in 1753; 1 January of x's own year is a datetime2. */
  function Truncated(p: Part, x: Moment): Option<Moment>
    requires x.Valid()
  {
    if p.Minute? || p.Second? then
      match FromStyle112(Style112(x)[..4] + "0101")
      case Some(reference) => DateAdd(p, DateDiff(p, reference, x), reference, 1)
      case None => None
    else
      DateAdd(p, DateDiff(p, EPOCH, x), EPOCH, 1753)
  }

  // ---------- Boundaries ----------

  predicate IsBoundary(p: Part, b: Moment) {
    match p
    case Year => b.month == 1 && b.day == 1 && b.tick == 0
    case Month => b.day == 1 && b.tick == 0
    case Day => b.tick == 0
    case Hour => b.tick % TICKS_PER_HOUR == 0
    case Minute => b.tick % TICKS_PER_MINUTE == 0
    case Second => b.tick % TICKS_PER_SECOND == 0
  }

  /** r is a boundary, not after x, and no boundary lies between. */
  ghost predicate IsLastBoundary(p: Part, x: Moment, r: Moment) {
    && r.Valid() && IsBoundary(p, r) && !Earlier(x, r)
    && forall b: Moment :: b.Valid() && IsBoundary(p, b) && !Earlier(x, b) ==> !Earlier(r, b)
  }

  function Floor(p: Part, x: Moment): Moment {
    match p
    case Year => Moment(x.year, 1, 1, 0)
    case Month => Moment(x.year, x.month, 1, 0)
    case Day => Moment(x.year, x.month, x.day, 0)
    case Hour => x.(tick := x.tick - x.tick % TICKS_PER_HOUR)
    case Minute => x.(tick := x.tick - x.tick % TICKS_PER_MINUTE)
    case Second => x.(tick := x.tick - x.tick % TICKS_PER_SECOND)
  }

  lemma FloorIsLastBoundary(p: Part, x: Moment)
    requires x.Valid()
    ensures IsLastBoundary(p, x, Floor(p, x))
  {
    var r := Floor(p, x);
    FloorIsBoundary(p, x);
    forall b: Moment | b.Valid() && IsBoundary(p, b) && !Earlier(x, b)
      ensures !Earlier(r, b)
    {
      if b.tick <= x.tick && (p.Hour? || p.Minute? || p.Second?) {
        NoMultipleBetween(p, x.tick, b.tick);
      }
    }
  }

  lemma NoMultipleBetween(p: Part, t: int, b: int)
    requires p.Hour? || p.Minute? || p.Second?
    requires b <= t && b % Unit(p) == 0
    ensures b <= t - t % Unit(p)
  {
    match p {
      case Hour => assert b == TICKS_PER_HOUR * (b / TICKS_PER_HOUR);
      case Minute => assert b == TICKS_PER_MINUTE * (b / TICKS_PER_MINUTE);
      case Second => assert b == TICKS_PER_SECOND * (b / TICKS_PER_SECOND);
    }
  }

  lemma FloorIsBoundary(p: Part, x: Moment)
    requires x.Valid()
    ensures Floor(p, x).Valid() && IsBoundary(p, Floor(p, x)) && !Earlier(x, Floor(p, x))
  {
    match p {
      case Hour => assert x.tick == TICKS_PER_HOUR * (x.tick / TICKS_PER_HOUR) + x.tick % TICKS_PER_HOUR;
      case Minute => assert x.tick == TICKS_PER_MINUTE * (x.tick / TICKS_PER_MINUTE) + x.tick % TICKS_PER_MINUTE;
      case Second => assert x.tick == TICKS_PER_SECOND * (x.tick / TICKS_PER_SECOND) + x.tick % TICKS_PER_SECOND;
      case _ =>
    }
  }

  // ---------- The main results ----------

  /** Whole units in a number of days and ticks; a day has 24 hours, 1440 minutes, 86400 seconds. */
  function UnitsPerDay(p: Part): int
    requires !p.Year? && !p.Month?
  {
    match p case Day => 1 case Hour => 24 case Minute => 1440 case Second => 86400
  }

  lemma WholeUnits(p: Part, x: Moment)
    requires x.Valid() && !p.Year? && !p.Month?
    ensures Unit(p) * UnitsPerDay(p) == TICKS_PER_DAY
    ensures x.Ticks() / Unit(p) == x.DayNumber() * UnitsPerDay(p) + x.tick / Unit(p)
    ensures 0 <= x.tick / Unit(p) < UnitsPerDay(p)
  {
    match p {
      case Day => assert x.Ticks() / TICKS_PER_DAY == x.DayNumber();
      case Hour => assert x.Ticks() / TICKS_PER_HOUR == x.DayNumber() * 24 + x.tick / TICKS_PER_HOUR;
      case Minute => assert x.Ticks() / TICKS_PER_MINUTE == x.DayNumber() * 1440 + x.tick / TICKS_PER_MINUTE;
      case Second => assert x.Ticks() / TICKS_PER_SECOND == x.DayNumber() * 86400 + x.tick / TICKS_PER_SECOND;
    }
  }

  /** From a midnight the count is a number of whole days and the units of the day. */
  lemma CountFromMidnight(p: Part, x: Moment, reference: Moment)
    requires x.Valid() && reference.Valid() && reference.tick == 0 && !p.Year? && !p.Month?
    ensures DateDiff(p, reference, x) == (x.DayNumber() - reference.DayNumber()) * UnitsPerDay(p) + x.tick / Unit(p)
  {
    WholeUnits(p, x);
    WholeUnits(p, reference);
  }

  lemma FloorTicks(p: Part, x: Moment)
    requires x.Valid() && !p.Year? && !p.Month?
    ensures Floor(p, x).Valid()
    ensures Floor(p, x).Ticks() == x.DayNumber() * TICKS_PER_DAY + x.tick / Unit(p) * Unit(p)
  {
    FloorIsBoundary(p, x);
  }

  lemma TicksAddedBack(p: Part, x: Moment, reference: Moment)
    requires x.Valid() && reference.Valid() && reference.tick == 0 && !p.Year? && !p.Month?
    ensures Floor(p, x).Valid()
    ensures reference.Ticks() + DateDiff(p, reference, x) * Unit(p) == Floor(p, x).Ticks()
  {
    FloorTicks(p, x);
    CountFromMidnight(p, x, reference);
    BackToTicks(x.DayNumber(), reference.DayNumber(), x.tick / Unit(p), p);
  }

  lemma AtOwnTicks(r: Moment, firstYear: int)
    requires r.Valid()
    ensures AtTicks(r.Ticks(), firstYear) == if firstYear <= r.year then Some(r) else None
  {
    TicksRoundTrip(r);
  }

  /** Adding back the boundaries counted from a midnight ends at the last boundary, if that is in range. */
  lemma LinearTruncation(p: Part, x: Moment, reference: Moment, firstYear: int)
    requires x.Valid() && reference.Valid() && reference.tick == 0
    requires !p.Year? && !p.Month? && 1 <= firstYear
    requires FitsInt(DateDiff(p, reference, x))
    ensures DateAdd(p, DateDiff(p, reference, x), reference, firstYear)
         == if firstYear <= x.year then Some(Floor(p, x)) else None
  {
    hide DateDiff, Unit, AtTicks, Moment.Ticks;
    TicksAddedBack(p, x, reference);
    AtOwnTicks(Floor(p, x), firstYear);
  }

  lemma BackToTicks(d: int, d0: int, k: int, p: Part)
    requires !p.Year? && !p.Month?
    ensures d0 * TICKS_PER_DAY + ((d - d0) * UnitsPerDay(p) + k) * Unit(p) == d * TICKS_PER_DAY + k * Unit(p)
  {
    match p case Day => case Hour => case Minute => case Second =>
  }

  /** Every count that is asked for fits an int: from the start of x's year, or from 1900 for the larger parts. */
  lemma CountsFit(p: Part, x: Moment)
    requires x.Valid()
    ensures p.Minute? || p.Second? ==> 0 <= DateDiff(p, Moment(x.year, 1, 1, 0), x) < 366 * 86400
    ensures !p.Minute? && !p.Second? ==> -0x8000_0000 <= DateDiff(p, EPOCH, x) < 0x8000_0000
  {
    DayWithinYear(x);
    YearsAdjoin(x.year);
    if p.Minute? || p.Second? {
      CountFromMidnight(p, x, Moment(x.year, 1, 1, 0));
      WholeUnits(p, x);
    } else if p.Day? || p.Hour? {
      CountFromMidnight(p, x, EPOCH);
      WholeUnits(p, x);
      TicksInRange(x);
      YearsAreOrdered(1, 10000);
      YearsAreOrdered(1, 1900);
    }
  }

  /** Why the year start is needed: from 1969 on seconds counted from 1900 are too many for an int. */
  lemma SecondsFrom1900Overflow(x: Moment)
    requires x.Valid() && x.year >= 1969
    ensures !FitsInt(DateDiff(Second, EPOCH, x)) && DateAdd(Second, DateDiff(Second, EPOCH, x), EPOCH, 1) == None
  {
    DayWithinYear(x);
    CountFromMidnight(Second, x, EPOCH);
    WholeUnits(Second, x);
    YearsAreOrdered(1969, x.year);
  }

  lemma TruncatedIsFloor(p: Part, x: Moment)
    requires x.Valid()
    ensures Truncated(p, x) == if p.Minute? || p.Second? || x.year >= 1753 then Some(Floor(p, x)) else None
  {
    CountsFit(p, x);
    if p.Minute? || p.Second? {
      YearStart(x);
      LinearTruncation(p, x, Moment(x.year, 1, 1, 0), 1);
    } else if p.Day? || p.Hour? {
      LinearTruncation(p, x, EPOCH, 1753);
    }
  }

  /**
   Truncating gives the greatest boundary not after x: for minutes and seconds over all of datetime2,
   for the larger parts exactly from 1753 on.
   */
  lemma TruncationIsLastBoundary(p: Part, x: Moment)
    requires x.Valid()
    ensures Truncated(p, x).Some? <==> p.Minute? || p.Second? || x.year >= 1753
    ensures Truncated(p, x).Some? ==> IsLastBoundary(p, x, Truncated(p, x).value)
  {
    TruncatedIsFloor(p, x);
    FloorIsLastBoundary(p, x);
  }
}
