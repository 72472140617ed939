/** The time-zone offset that datetime lookups hand to SWITCHOFFSET. */
module TimeZones {
  import opened Wrappers
  import opened DateTrunc

  function TwoDigits(n: int): (s: string)
    requires 0 <= n < 100
    ensures |s| == 2
  {
    [Digit(n / 10), Digit(n % 10)]
  }

  /** "%+03d:%02d" of divmod(minutes, 60): the hours carry the sign, the minutes count upwards from them. */
  function OffsetText(total: int): (s: string)
    requires -99 * 60 <= total < 100 * 60
    ensures |s| == 6
  {
    var hours, minutes := total / 60, total % 60;
    [if hours >= 0 then '+' else '-'] + TwoDigits(if hours >= 0 then hours else -hours) + ":" + TwoDigits(minutes)
  }

  /** How T-SQL reads an offset: the sign is that of hours and minutes together, and 14 hours are the most. */
  function ReadOffset(s: string): Option<int> {
    if |s| == 6 && (s[0] == '+' || s[0] == '-') && s[3] == ':'
       && IsDigit(s[1]) && IsDigit(s[2]) && IsDigit(s[4]) && IsDigit(s[5])
    then
      var size := 60 * (10 * DigitValue(s[1]) + DigitValue(s[2])) + 10 * DigitValue(s[4]) + DigitValue(s[5]);
      if size <= 14 * 60 && DigitValue(s[4]) < 6 then Some(if s[0] == '+' then size else -size) else None
    else None
  }

  lemma TwoDigitsRead(n: int)
    requires 0 <= n < 100
    ensures
      var s := TwoDigits(n);
      IsDigit(s[0]) && IsDigit(s[1]) && 10 * DigitValue(s[0]) + DigitValue(s[1]) == n
    ensures n < 60 ==> DigitValue(TwoDigits(n)[0]) < 6
  {
    DigitRoundTrip(n / 10);
    DigitRoundTrip(n % 10);
  }

  /** The server reads the zone's own offset back exactly when it is not negative or is made of whole hours. */
  lemma OffsetReadBack(total: int)
    requires -14 * 60 <= total <= 14 * 60
    ensures ReadOffset(OffsetText(total)) == Some(total) <==> total >= 0 || total % 60 == 0
  {
    var hours, minutes := total / 60, total % 60;
    var size := if hours >= 0 then hours else -hours;
    TwoDigitsRead(size);
    TwoDigitsRead(minutes);
    var s := OffsetText(total);
    assert s[1] == TwoDigits(size)[0] && s[2] == TwoDigits(size)[1];
    assert s[4] == TwoDigits(minutes)[0] && s[5] == TwoDigits(minutes)[1];
  }

  /** Between whole hours below zero the server reads an offset twice the minutes too far west, or refuses it. */
  lemma NegativeOffsetRead(total: int)
    requires -14 * 60 <= total < 0 && total % 60 != 0
    ensures ReadOffset(OffsetText(total)) == if total > -13 * 60 then Some(total - 2 * (total % 60)) else None
  {
    var hours, minutes := total / 60, total % 60;
    TwoDigitsRead(-hours);
    TwoDigitsRead(minutes);
    var s := OffsetText(total);
    assert s[1] == TwoDigits(-hours)[0] && s[2] == TwoDigits(-hours)[1];
    assert s[4] == TwoDigits(minutes)[0] && s[5] == TwoDigits(minutes)[1];
  }
}
