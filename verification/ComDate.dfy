/** Decoding COM (OLE automation) dates, with exact numbers in place of floats. */
module ComDate {
  import opened Wrappers
  import opened Calendar

  const MILLISECONDS_PER_DAY: int := 86_400_000
  const TICKS_PER_MILLISECOND: int := 10_000
  const TICKS_PER_MICROSECOND: int := 10

  /** date(1899, 12, 31).toordinal() - 1; ordinal 1 is 1 January of year 1. */
  const BASE_ORDINAL: int := 693_594

  /** Python's int(): rounds towards zero. */
  function IntOf(x: real): int {
    if x >= 0.0 then x.Floor else -((-x).Floor)
  }

  function Abs(x: real): real { if x >= 0.0 then x else -x }

  /** Day count and milliseconds of the day. */
  function Decode(x: real): (int, real) {
    var dayCount := IntOf(x);
    (dayCount, Abs(x - dayCount as real) * MILLISECONDS_PER_DAY as real)
  }

  /** How OLE writes a day and a time: the fraction grows away from zero on either side. */
  function Encode(d: int, m: int): real {
    if d >= 0 then d as real + m as real / MILLISECONDS_PER_DAY as real
    else d as real - m as real / MILLISECONDS_PER_DAY as real
  }

  lemma IntOfParts(d: int, f: real)
    requires 0.0 <= f < 1.0
    ensures d >= 0 ==> IntOf(d as real + f) == d
    ensures d < 0 ==> IntOf(d as real - f) == d
  {
  }

  lemma FractionBounds(m: int)
    requires 0 <= m < MILLISECONDS_PER_DAY
    ensures 0.0 <= m as real / MILLISECONDS_PER_DAY as real < 1.0
    ensures m as real / MILLISECONDS_PER_DAY as real * MILLISECONDS_PER_DAY as real == m as real
  {
  }

  /** Decoding inverts encoding for every day, before the epoch as well as after, and every millisecond. */
  lemma DecodeInvertsEncode(d: int, m: int)
    requires 0 <= m < MILLISECONDS_PER_DAY
    ensures Decode(Encode(d, m)) == (d, m as real)
  {
    FractionBounds(m);
    IntOfParts(d, m as real / MILLISECONDS_PER_DAY as real);
  }

  lemma IntOfBounds(x: real)
    ensures x >= 0.0 ==> 0 <= IntOf(x) && IntOf(x) as real <= x < IntOf(x) as real + 1.0
    ensures x < 0.0 ==> IntOf(x) <= 0 && IntOf(x) as real - 1.0 < x <= IntOf(x) as real
  {
  }

  /** Two numbers decode alike exactly when they are equal, or opposites less than a day from zero. */
  lemma DecodesAlike(x: real, y: real)
    ensures Decode(x) == Decode(y) <==> x == y || (x == -y && -1.0 < x < 1.0)
  {
    IntOfBounds(x);
    IntOfBounds(y);
    var dx, dy := IntOf(x), IntOf(y);
    if Decode(x) == Decode(y) {
      SameProduct(Abs(x - dx as real), Abs(y - dy as real));
      assert dx == dy && Abs(x - dx as real) == Abs(y - dy as real);
    }
  }

  lemma SameProduct(a: real, b: real)
    requires a * MILLISECONDS_PER_DAY as real == b * MILLISECONDS_PER_DAY as real
    ensures a == b
  {
  }

  // ---------- The whole of _cvtComDate ----------

  /** timedelta rounds to whole microseconds, halves to even. */
  function RoundHalfEven(x: real): int {
    var f := x.Floor;
    var rest := x - f as real;
    if rest < 0.5 then f else if rest > 0.5 then f + 1 else if f % 2 == 0 then f else f + 1
  }

  /** To the nearest whole number, the even one of two. */
  lemma RoundsToNearest(x: real)
    ensures -0.5 <= RoundHalfEven(x) as real - x <= 0.5
    ensures x - x.Floor as real == 0.5 ==> RoundHalfEven(x) % 2 == 0
  {
  }

  /** datetime.fromordinal plus a timedelta; None where that raises because the result is outside the years 1 to 9999. */
  function AtDay(dayCount: int, milliseconds: real): Option<Moment> {
    var ordinal := dayCount + BASE_ORDINAL;
    if !(1 <= ordinal <= DaysBeforeYear(10000)) then None
    else
      var t := (ordinal - 1) * TICKS_PER_DAY + RoundHalfEven(milliseconds * 1000.0) * TICKS_PER_MICROSECOND;
      if 0 <= t < DaysBeforeYear(10000) * TICKS_PER_DAY then Some(FromTicks(t)) else None
  }

  function CvtComDate(x: real): Option<Moment> {
    AtDay(Decode(x).0, Decode(x).1)
  }

  /** The OLE date of a moment: day 0 is 30 December 1899. */
  function ToComDate(x: Moment): real
    requires x.Valid()
  {
    Encode(x.DayNumber() - Moment(1899, 12, 30, 0).DayNumber(), x.tick / TICKS_PER_MILLISECOND)
  }

  lemma EpochOrdinal()
    ensures Moment(1899, 12, 30, 0).Valid()
    ensures Moment(1899, 12, 30, 0).DayNumber() + 1 == BASE_ORDINAL
  {
    MonthsFitYear(1899);
  }

  lemma RoundWhole(n: int)
    ensures RoundHalfEven(n as real * 1000.0) == 1000 * n
  {
    assert n as real * 1000.0 == (1000 * n) as real;
  }

  lemma AtOwnDay(x: Moment, m: int)
    requires x.Valid() && x.tick == m * TICKS_PER_MILLISECOND
    ensures AtDay(x.DayNumber() + 1 - BASE_ORDINAL, m as real) == Some(x)
  {
    hide FromTicks;
    RoundWhole(m);
    TicksRoundTrip(x);
    DayWithinYear(x);
    YearsAreOrdered(1, x.year);
    YearsAreOrdered(x.year + 1, 10000);
  }

  /** Every moment of whole milliseconds in the years 1 to 9999 survives the way through COM. */
  lemma ComDateRoundTrip(x: Moment)
    requires x.Valid() && x.tick % TICKS_PER_MILLISECOND == 0
    ensures CvtComDate(ToComDate(x)) == Some(x)
  {
    hide AtDay, Decode, Encode, Moment.DayNumber;
    EpochOrdinal();
    var m := x.tick / TICKS_PER_MILLISECOND;
    DecodeInvertsEncode(x.DayNumber() - Moment(1899, 12, 30, 0).DayNumber(), m);
    AtOwnDay(x, m);
  }
}
