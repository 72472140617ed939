/** The proleptic Gregorian calendar that both Python's datetime and SQL Server's datetime2 use. */
module Calendar {

  const TICKS_PER_SECOND: int := 10_000_000
  const TICKS_PER_MINUTE: int := 600_000_000
  const TICKS_PER_HOUR: int := 36_000_000_000
  const TICKS_PER_DAY: int := 864_000_000_000

  predicate IsLeap(y: int) { y % 4 == 0 && (y % 100 != 0 || y % 400 == 0) }

  function YearLength(y: int): int { if IsLeap(y) then 366 else 365 }

  /** Days from 1 January of year 1 to 1 January of this year. */
  function DaysBeforeYear(y: int): int
  {
    var p := y - 1;
    365 * p + p / 4 - p / 100 + p / 400
  }

  function MonthLength(y: int, m: int): int
    requires 1 <= m <= 12
  {
    if m == 2 then (if IsLeap(y) then 29 else 28)
    else if m == 4 || m == 6 || m == 9 || m == 11 then 30 else 31
  }

  function DaysBeforeMonth(y: int, m: int): int
    requires 1 <= m <= 12
  {
    if m == 1 then 0 else DaysBeforeMonth(y, m - 1) + MonthLength(y, m - 1)
  }

  /** A point in time with a resolution of 100 nanoseconds, as datetime2 has. */
  datatype Moment = Moment(year: int, month: int, day: int, tick: int) {
    predicate Valid() {
      1 <= year <= 9999 && 1 <= month <= 12 && 1 <= day <= MonthLength(year, month) && 0 <= tick < TICKS_PER_DAY
    }

    /** Days since 1 January of year 1. */
    function DayNumber(): int
      requires Valid()
    {
      DaysBeforeYear(year) + DaysBeforeMonth(year, month) + day - 1
    }

    /** Ticks since midnight of 1 January of year 1. */
    function Ticks(): int
      requires Valid()
    {
      DayNumber() * TICKS_PER_DAY + tick
    }
  }

  lemma YearsAdjoin(y: int)
    ensures DaysBeforeYear(y + 1) == DaysBeforeYear(y) + YearLength(y)
  {
    var p := y - 1;
    assert y / 4 == p / 4 + (if y % 4 == 0 then 1 else 0);
    assert y / 100 == p / 100 + (if y % 100 == 0 then 1 else 0);
    assert y / 400 == p / 400 + (if y % 400 == 0 then 1 else 0);
    CenturiesNest(y);
  }

  lemma CenturiesNest(y: int)
    ensures y % 400 == 0 ==> y % 100 == 0
    ensures y % 100 == 0 ==> y % 4 == 0
  {
    if y % 400 == 0 {
      MultipleOfHundred(y / 400 * 4);
    }
    if y % 100 == 0 {
      MultipleOfFour(y / 100 * 25);
    }
  }

  lemma MultipleOfHundred(q: int)
    ensures (100 * q) % 100 == 0
  {
  }

  lemma MultipleOfFour(q: int)
    ensures (4 * q) % 4 == 0
  {
  }

  lemma {:induction false} YearsAreOrdered(y: int, z: int)
    requires y <= z
    ensures DaysBeforeYear(y) + 365 * (z - y) <= DaysBeforeYear(z) <= DaysBeforeYear(y) + 366 * (z - y)
    decreases z - y
  {
    if y < z {
      YearsAdjoin(y);
      YearsAreOrdered(y + 1, z);
    }
  }

  lemma MonthsFitYear(y: int)
    ensures DaysBeforeMonth(y, 12) + MonthLength(y, 12) == YearLength(y)
  {
    assert DaysBeforeMonth(y, 2) == 31;
    assert DaysBeforeMonth(y, 3) == 31 + MonthLength(y, 2);
    assert DaysBeforeMonth(y, 4) == 62 + MonthLength(y, 2);
    assert DaysBeforeMonth(y, 5) == 92 + MonthLength(y, 2);
    assert DaysBeforeMonth(y, 6) == 123 + MonthLength(y, 2);
    assert DaysBeforeMonth(y, 7) == 153 + MonthLength(y, 2);
    assert DaysBeforeMonth(y, 8) == 184 + MonthLength(y, 2);
    assert DaysBeforeMonth(y, 9) == 215 + MonthLength(y, 2);
    assert DaysBeforeMonth(y, 10) == 245 + MonthLength(y, 2);
    assert DaysBeforeMonth(y, 11) == 276 + MonthLength(y, 2);
    assert DaysBeforeMonth(y, 12) == 306 + MonthLength(y, 2);
  }

  lemma {:induction false} MonthsAreOrdered(y: int, m: int, n: int)
    requires 1 <= m < n <= 12
    ensures DaysBeforeMonth(y, m) + MonthLength(y, m) <= DaysBeforeMonth(y, n)
    decreases n - m
  {
    if m + 1 < n {
      MonthsAreOrdered(y, m, n - 1);
    }
  }

  lemma DayWithinYear(x: Moment)
    requires x.Valid()
    ensures DaysBeforeYear(x.year) <= x.DayNumber() < DaysBeforeYear(x.year + 1)
  {
    YearsAdjoin(x.year);
    MonthsFitYear(x.year);
    NonNegativeMonths(x.year, x.month);
    if x.month < 12 {
      MonthsAreOrdered(x.year, x.month, 12);
    }
  }

  lemma {:induction false} NonNegativeMonths(y: int, m: int)
    requires 1 <= m <= 12
    ensures 0 <= DaysBeforeMonth(y, m)
    decreases m
  {
    if m > 1 {
      NonNegativeMonths(y, m - 1);
    }
  }

  // ---------- From day numbers back to dates ----------

  /** The year, searched from `y` on, that contains the day. */
  function YearOf(n: int, y: int): (r: int)
    requires DaysBeforeYear(y) <= n < DaysBeforeYear(10000) && y <= 9999
    ensures y <= r <= 9999
    ensures DaysBeforeYear(r) <= n < DaysBeforeYear(r + 1)
    decreases 9999 - y
  {
    YearsAdjoin(y);
    if n < DaysBeforeYear(y + 1) then y else YearOf(n, y + 1)
  }

  function MonthOf(y: int, n: int, m: int): (r: int)
    requires 1 <= m <= 12 && DaysBeforeMonth(y, m) <= n < YearLength(y)
    ensures m <= r <= 12
    ensures DaysBeforeMonth(y, r) <= n < DaysBeforeMonth(y, r) + MonthLength(y, r)
    decreases 12 - m
  {
    MonthsFitYear(y);
    if n < DaysBeforeMonth(y, m) + MonthLength(y, m) then m else MonthOf(y, n, m + 1)
  }

  function FromTicks(t: int): (x: Moment)
    requires 0 <= t < DaysBeforeYear(10000) * TICKS_PER_DAY
    ensures x.Valid() && x.Ticks() == t
  {
    var n := t / TICKS_PER_DAY;
    var y := YearOf(n, 1);
    YearsAdjoin(y);
    var m := MonthOf(y, n - DaysBeforeYear(y), 1);
    Moment(y, m, n - DaysBeforeYear(y) - DaysBeforeMonth(y, m) + 1, t % TICKS_PER_DAY)
  }

  // ---------- Order ----------

  predicate Earlier(a: Moment, b: Moment) {
    a.year < b.year || (a.year == b.year &&
      (a.month < b.month || (a.month == b.month &&
        (a.day < b.day || (a.day == b.day && a.tick < b.tick)))))
  }

  lemma DaysAreOrdered(a: Moment, b: Moment)
    requires a.Valid() && b.Valid()
    ensures a.year < b.year ==> a.DayNumber() < b.DayNumber()
    ensures a.year == b.year && a.month < b.month ==> a.DayNumber() < b.DayNumber()
  {
    if a.year < b.year {
      DayWithinYear(a);
      DayWithinYear(b);
      YearsAreOrdered(a.year + 1, b.year);
    } else if a.year == b.year && a.month < b.month {
      MonthsAreOrdered(a.year, a.month, b.month);
    }
  }

  /** Comparing by fields is comparing by ticks; in particular a moment is determined by its ticks. */
  lemma TicksAreOrdered(a: Moment, b: Moment)
    requires a.Valid() && b.Valid()
    ensures Earlier(a, b) <==> a.Ticks() < b.Ticks()
    ensures a == b <==> a.Ticks() == b.Ticks()
  {
    DaysAreOrdered(a, b);
    DaysAreOrdered(b, a);
    if a.DayNumber() < b.DayNumber() {
      assert a.Ticks() < b.Ticks();
    } else if b.DayNumber() < a.DayNumber() {
      assert b.Ticks() < a.Ticks();
    }
  }

  lemma TicksInRange(x: Moment)
    requires x.Valid()
    ensures 0 <= x.Ticks() < DaysBeforeYear(10000) * TICKS_PER_DAY
  {
    DayWithinYear(x);
    YearsAreOrdered(1, x.year);
    YearsAreOrdered(x.year + 1, 10000);
  }

  lemma TicksRoundTrip(x: Moment)
    requires x.Valid()
    ensures 0 <= x.Ticks() < DaysBeforeYear(10000) * TICKS_PER_DAY
    ensures FromTicks(x.Ticks()) == x
  {
    TicksInRange(x);
    TicksAreOrdered(FromTicks(x.Ticks()), x);
  }
}
