/** Decimals on their way to ADO as fixed-point text, and back whatever the decimal point. */
module Decimals {
  import opened Wrappers
  import opened Strings

  type Digit = d: int | 0 <= d <= 9 witness 0

  /** Python's decimal.Decimal.as_tuple() for a finite number. */
  datatype Decimal = Decimal(negative: bool, digits: seq<Digit>, exp: int) {
    /** No leading zeros, except that zero is a single one. */
    predicate Valid() { |digits| >= 1 && (|digits| > 1 ==> digits[0] != 0) }
  }

  function DigitChar(d: Digit): char { '0' + d as char }

  predicate IsDigit(c: char) { '0' <= c <= '9' }

  function DigitOf(c: char): Digit
    requires IsDigit(c)
  {
    c as int - '0' as int
  }

  function Text(ds: seq<Digit>): (s: string)
    ensures |s| == |ds|
  {
    seq(|ds|, i requires 0 <= i < |ds| => DigitChar(ds[i]))
  }

  function Zeros(n: nat): (s: string)
    ensures |s| == n
  {
    seq(n, _ => '0')
  }

  function Value(ds: seq<Digit>): nat
    decreases |ds|
  {
    if ds == [] then 0 else 10 * Value(ds[..|ds| - 1]) + ds[|ds| - 1]
  }

  function Pow10(n: nat): nat { if n == 0 then 1 else 10 * Pow10(n - 1) }

  function DigitsOfNat(n: nat): (ds: seq<Digit>)
    ensures |ds| >= 1 && (|ds| > 1 ==> ds[0] != 0)
    ensures Value(ds) == n
  {
    if n < 10 then
      assert Value([n]) == 10 * Value([]) + n;
      [n]
    else
      var ds := DigitsOfNat(n / 10);
      assert (ds + [n % 10])[..|ds|] == ds;
      assert ds == [0] ==> Value(ds) == 10 * Value([]) + 0;
      assert |ds| == 1 ==> ds == [ds[0]];
      ds + [n % 10]
  }

  // ---------- Python's Decimal(text) ----------

  function PointAt(s: string, from: nat): (i: nat)
    requires from <= |s|
    ensures from <= i <= |s|
    ensures i < |s| ==> s[i] == '.'
    ensures forall k :: from <= k < i ==> s[k] != '.'
    decreases |s| - from
  {
    if from == |s| || s[from] == '.' then from else PointAt(s, from + 1)
  }

  predicate AllDigits(s: string) { forall i :: 0 <= i < |s| ==> IsDigit(s[i]) }

  function Digits(s: string): (ds: seq<Digit>)
    requires AllDigits(s)
    ensures |ds| == |s|
  {
    seq(|s|, i requires 0 <= i < |s| => DigitOf(s[i]))
  }

  function StripZeros(ds: seq<Digit>): (r: seq<Digit>)
    ensures ds != [] ==> r != []
    decreases |ds|
  {
    if |ds| > 1 && ds[0] == 0 then StripZeros(ds[1..]) else ds
  }

  /** Digits with at most one point among them; None where Decimal raises InvalidOperation. */
  function ParseUnsigned(negative: bool, body: string): Option<Decimal> {
    var point := PointAt(body, 0);
    var whole := body[..point];
    var fraction := if point < |body| then body[point + 1..] else "";
    if AllDigits(whole + fraction) && whole + fraction != "" then
      Some(Decimal(negative, StripZeros(Digits(whole + fraction)), -|fraction|))
    else None
  }

  function Parse(s: string): Option<Decimal> {
    if s != "" && (s[0] == '-' || s[0] == '+') then ParseUnsigned(s[0] == '-', s[1..]) else ParseUnsigned(false, s)
  }

  lemma ParseSigned(negative: bool, body: string)
    requires body != "" && body[0] != '-' && body[0] != '+'
    ensures Parse((if negative then "-" else "") + body) == ParseUnsigned(negative, body)
  {
    if negative {
      assert ("-" + body)[1..] == body;
    } else {
      assert "" + body == body;
    }
  }

  // ---------- format_decimal_as_string ----------

  function Reverse(s: string): (r: string)
    ensures |r| == |s|
  {
    seq(|s|, i requires 0 <= i < |s| => s[|s| - 1 - i])
  }

  lemma ReverseSnoc(s: string, c: char)
    ensures Reverse(s + [c]) == [c] + Reverse(s)
  {
  }

  /** The last n digits, with zeros in front when there are fewer. */
  function Fraction(ds: seq<Digit>, n: nat): (s: string)
    ensures |s| == n
  {
    if n <= |ds| then Text(ds[|ds| - n..]) else Zeros(n - |ds|) + Text(ds)
  }

  function Whole(ds: seq<Digit>, n: nat): string {
    if n < |ds| then Text(ds[..|ds| - n]) else "0"
  }

  function FixedPoint(d: Decimal): string
    requires d.exp <= 0
  {
    (if d.negative then "-" else "") + Whole(d.digits, -d.exp) + "." + Fraction(d.digits, -d.exp)
  }

  /** "%d" of a number with a positive exponent. */
  function PercentD(d: Decimal): string
    requires d.exp > 0
  {
    var n := Value(d.digits) * Pow10(d.exp);
    (if d.negative && n != 0 then "-" else "") + Text(DigitsOfNat(n))
  }

  function Formatted(d: Decimal): string {
    if d.exp > 0 then PercentD(d) else FixedPoint(d)
  }

  /** Moves the last n digits over, last one first; zeros when they run out. */
  method BuildFraction(ds: seq<Digit>, n: nat) returns (result: string, digits: seq<Digit>)
    ensures digits == ds[..if n <= |ds| then |ds| - n else 0]
    ensures Reverse(result) == Fraction(ds, n)
  {
    hide Fraction, Reverse;
    result, digits := "", ds;
    NothingBuilt(ds);
    for i := 0 to n
      invariant digits == ds[..if i <= |ds| then |ds| - i else 0]
      invariant Reverse(result) == Fraction(ds, i)
    {
      var next := '0';
      if digits != [] {
        next := DigitChar(digits[|digits| - 1]);
        digits := digits[..|digits| - 1];
      }
      ReverseSnoc(result, next);
      FractionStep(ds, i);
      result := result + [next];
    }
  }

  /** Moves all remaining digits over, last one first. */
  method BuildWhole(before: string, ds: seq<Digit>) returns (result: string)
    ensures Reverse(result) == Text(ds) + Reverse(before)
  {
    hide Text, Reverse;
    result := before;
    var digits := ds;
    NothingBuilt(ds);
    assert ds[|ds|..] == [] && "" + Reverse(before) == Reverse(before);
    while digits != []
      invariant |digits| <= |ds| && digits == ds[..|digits|]
      invariant Reverse(result) == Text(ds[|digits|..]) + Reverse(before)
    {
      var next := DigitChar(digits[|digits| - 1]);
      ReverseSnoc(result, next);
      TextStep(ds, |digits| - 1);
      assert [next] + (Text(ds[|digits|..]) + Reverse(before)) == [next] + Text(ds[|digits|..]) + Reverse(before);
      result := result + [next];
      digits := digits[..|digits| - 1];
    }
    assert ds[0..] == ds;
  }

  /** Builds the text backwards, digit by digit, and reverses it. */
  method FormatDecimalAsString(d: Decimal) returns (s: string)
    ensures s == Formatted(d)
  {
    if d.exp > 0 {
      return PercentD(d);
    }
    hide Text, Fraction, Whole, Reverse, PercentD;
    var result, digits := BuildFraction(d.digits, -d.exp);
    ReverseSnoc(result, '.');
    result := result + ['.'];
    ghost var tail := Reverse(result);
    WholePart(d.digits, -d.exp);
    if digits == [] {
      ReverseSnoc(result, '0');
      result := result + ['0'];
    }
    ghost var before := result;
    result := BuildWhole(result, digits);
    NothingBuilt(d.digits);
    assert digits == [] ==> "" + Reverse(before) == Reverse(before);
    assert Reverse(result) == Whole(d.digits, -d.exp) + tail;
    if d.negative {
      ReverseSnoc(result, '-');
      result := result + ['-'];
    }
    s := Reverse(result);
    Assembled(d, s);
  }

  lemma NothingBuilt(ds: seq<Digit>)
    ensures Reverse("") == "" == Text([]) == Fraction(ds, 0)
  {
  }

  lemma WholePart(ds: seq<Digit>, n: nat)
    ensures
      var rest := ds[..if n <= |ds| then |ds| - n else 0];
      Whole(ds, n) == if rest == [] then "0" else Text(rest)
  {
  }

  lemma Assembled(d: Decimal, s: string)
    requires d.exp <= 0
    requires s == (if d.negative then ['-'] else []) + (Whole(d.digits, -d.exp) + (['.'] + Fraction(d.digits, -d.exp)))
    ensures s == Formatted(d)
  {
  }

  lemma TextStep(ds: seq<Digit>, i: nat)
    requires i < |ds|
    ensures Text(ds[i..]) == [DigitChar(ds[i])] + Text(ds[i + 1..])
  {
  }

  lemma FractionStep(ds: seq<Digit>, i: nat)
    ensures Fraction(ds, i + 1) == [if i < |ds| then DigitChar(ds[|ds| - 1 - i]) else '0'] + Fraction(ds, i)
  {
    if i < |ds| {
      hide Text;
      TextStep(ds, |ds| - 1 - i);
    } else {
      hide Text, Fraction, Zeros;
      ZerosStep(i - |ds|);
      FractionBeyond(ds, i);
      FractionBeyond(ds, i + 1);
      assert ['0'] + (Zeros(i - |ds|) + Text(ds)) == ['0'] + Zeros(i - |ds|) + Text(ds);
    }
  }

  lemma ZerosStep(n: nat)
    ensures Zeros(n + 1) == ['0'] + Zeros(n)
  {
  }

  lemma FractionBeyond(ds: seq<Digit>, n: nat)
    requires |ds| <= n
    ensures Fraction(ds, n) == Zeros(n - |ds|) + Text(ds)
  {
    if n == |ds| {
      assert ds[0..] == ds && Zeros(0) + Text(ds) == Text(ds);
    }
  }

  // ---------- Round trips ----------

  lemma TextDigits(ds: seq<Digit>)
    ensures AllDigits(Text(ds)) && Digits(Text(ds)) == ds
  {
  }

  function ZeroDigits(n: nat): (ds: seq<Digit>)
    ensures |ds| == n
  {
    seq(n, _ => 0)
  }

  lemma {:induction false} StripLeadingZeros(n: nat, ds: seq<Digit>)
    requires ds != [] && (|ds| > 1 ==> ds[0] != 0)
    ensures StripZeros(ZeroDigits(n) + ds) == ds
    decreases n
  {
    if n == 0 {
      assert ZeroDigits(0) + ds == ds;
    } else {
      assert (ZeroDigits(n) + ds)[1..] == ZeroDigits(n - 1) + ds;
      StripLeadingZeros(n - 1, ds);
    }
  }

  lemma AroundPointText(ds: seq<Digit>, n: nat)
    requires ds != []
    ensures Whole(ds, n) + Fraction(ds, n) == Text(if n < |ds| then ds else ZeroDigits(n - |ds| + 1) + ds)
  {
    if n < |ds| {
      assert ds[..|ds| - n] + ds[|ds| - n..] == ds;
    } else {
      FractionBeyond(ds, n);
    }
  }

  /** The digits around the point are the coefficient with zeros in front. */
  lemma AroundPoint(ds: seq<Digit>, n: nat)
    requires ds != [] && (|ds| > 1 ==> ds[0] != 0)
    ensures
      var all := Whole(ds, n) + Fraction(ds, n);
      AllDigits(all) && all != "" && StripZeros(Digits(all)) == ds
  {
    hide Whole, Fraction, Text;
    AroundPointText(ds, n);
    if n < |ds| {
      TextDigits(ds);
      NormalIsStripped(ds);
    } else {
      TextDigits(ZeroDigits(n - |ds| + 1) + ds);
      StripLeadingZeros(n - |ds| + 1, ds);
    }
  }

  lemma WholeIsDigits(ds: seq<Digit>, n: nat)
    ensures AllDigits(Whole(ds, n)) && Whole(ds, n) != ""
  {
  }

  lemma PointFound(whole: string, fraction: string)
    requires AllDigits(whole)
    ensures PointAt(whole + "." + fraction, 0) == |whole|
  {
    var s := whole + "." + fraction;
    assert s[|whole|] == '.';
    var i := PointAt(s, 0);
    assert forall k :: 0 <= k < |whole| ==> s[k] == whole[k] && IsDigit(whole[k]);
  }

  lemma UnsignedFixedPoint(negative: bool, ds: seq<Digit>, n: nat)
    requires ds != [] && (|ds| > 1 ==> ds[0] != 0)
    ensures ParseUnsigned(negative, Whole(ds, n) + "." + Fraction(ds, n)) == Some(Decimal(negative, ds, -(n as int)))
  {
    hide Whole, Fraction;
    var whole, fraction := Whole(ds, n), Fraction(ds, n);
    AroundPoint(ds, n);
    WholeIsDigits(ds, n);
    PointFound(whole, fraction);
    var body := whole + "." + fraction;
    assert body[..|whole|] == whole && body[|whole| + 1..] == fraction;
  }

  /** Sign, coefficient and exponent come back exactly, for negative zero and values below one too. */
  lemma FixedPointRoundTrip(d: Decimal)
    requires d.digits != [] && (|d.digits| > 1 ==> d.digits[0] != 0) && d.exp <= 0
    ensures Parse(Formatted(d)) == Some(d)
  {
    hide Whole, Fraction, ParseUnsigned, Parse;
    var whole, fraction := Whole(d.digits, -d.exp), Fraction(d.digits, -d.exp);
    WholeIsDigits(d.digits, -d.exp);
    var body := whole + "." + fraction;
    assert body[0] == whole[0];
    assert Formatted(d) == (if d.negative then "-" else "") + body;
    ParseSigned(d.negative, body);
    UnsignedFixedPoint(d.negative, d.digits, -d.exp);
  }

  lemma NoPoint(ds: seq<Digit>)
    ensures PointAt(Text(ds), 0) == |ds|
  {
    var i := PointAt(Text(ds), 0);
    assert i < |ds| ==> Text(ds)[i] == DigitChar(ds[i]);
  }

  lemma NormalIsStripped(ds: seq<Digit>)
    requires |ds| > 1 ==> ds[0] != 0
    ensures StripZeros(ds) == ds
  {
  }

  lemma UnsignedInteger(negative: bool, ds: seq<Digit>)
    requires ds != [] && (|ds| > 1 ==> ds[0] != 0)
    ensures ParseUnsigned(negative, Text(ds)) == Some(Decimal(negative, ds, 0))
  {
    TextDigits(ds);
    NoPoint(ds);
    NormalIsStripped(ds);
    assert Text(ds)[..|ds|] + "" == Text(ds);
  }

  /** A positive exponent is written out: the number stays the same, and zero loses its sign. */
  lemma PositiveExponentKeepsValue(d: Decimal)
    requires d.digits != [] && (|d.digits| > 1 ==> d.digits[0] != 0) && d.exp > 0
    ensures Parse(Formatted(d)).Some?
    ensures
      var p := Parse(Formatted(d)).value;
      && p.exp == 0
      && Value(p.digits) == Value(d.digits) * Pow10(d.exp)
      && p.negative == (d.negative && Value(p.digits) != 0)
  {
    hide ParseUnsigned, Parse;
    var n := Value(d.digits) * Pow10(d.exp);
    var ds := DigitsOfNat(n);
    TextDigits(ds);
    assert IsDigit(Text(ds)[0]);
    ParseSigned(d.negative && n != 0, Text(ds));
    UnsignedInteger(d.negative && n != 0, ds);
  }

  // ---------- _convertNumberWithCulture ----------

  /** Decimal(text), or else Decimal of the text with points for commas; None where that raises. */
  function CvtDecimal(s: string): Option<Decimal> {
    match Parse(s)
    case Some(d) => Some(d)
    case None => Parse(Replace(s, ",", "."))
  }

  lemma CommaIsRefused(s: string)
    requires ',' in s
    ensures Parse(s) == None
  {
    var signed := s != "" && (s[0] == '-' || s[0] == '+');
    var body := if signed then s[1..] else s;
    var k :| 0 <= k < |s| && s[k] == ',';
    assert body[if signed then k - 1 else k] == ',';
    UnsignedCommaIsRefused(signed && s[0] == '-', body, if signed then k - 1 else k);
  }

  lemma UnsignedCommaIsRefused(negative: bool, body: string, j: nat)
    requires j < |body| && body[j] == ','
    ensures ParseUnsigned(negative, body) == None
  {
    var point := PointAt(body, 0);
    var all := body[..point] + if point < |body| then body[point + 1..] else "";
    assert all[if j < point then j else j - 1] == ',';
  }

  /** Writing commas for points and reading them back as points. */
  lemma {:induction false} CommasAndBack(s: string)
    requires ',' !in s
    ensures Replace(Replace(s, ".", ","), ",", ".") == s
    ensures ',' in Replace(s, ".", ",") <==> '.' in s
    decreases |s|
  {
    if s != "" {
      var c, r := s[0], s[1..];
      assert s == [c] + r;
      assert c in s;
      CommasAndBack(r);
      ReplaceCharConcat([c], r, '.', ",");
      ReplaceOneChar(c, '.', ",");
      var c' := if c == '.' then ',' else c;
      ReplaceCharConcat([c'], Replace(r, ".", ","), ',', ".");
      ReplaceOneChar(c', ',', ".");
    }
  }

  /** With a comma for the point the same decimal is read, for every number the driver writes. */
  lemma CommaMakesNoDifference(d: Decimal)
    requires d.digits != [] && (|d.digits| > 1 ==> d.digits[0] != 0)
    ensures CvtDecimal(Replace(Formatted(d), ".", ",")) == CvtDecimal(Formatted(d)) == Parse(Formatted(d))
    ensures Parse(Formatted(d)).Some?
  {
    var s := Formatted(d);
    if d.exp > 0 { PositiveExponentKeepsValue(d); } else { FixedPointRoundTrip(d); }
    if ',' in s {
      CommaIsRefused(s);
    }
    CommasAndBack(s);
    if '.' in s {
      CommaIsRefused(Replace(s, ".", ","));
    } else {
      NothingToReplace(s);
    }
  }

  lemma {:induction false} NothingToReplace(s: string)
    requires '.' !in s
    ensures Replace(s, ".", ",") == s
    decreases |s|
  {
    if s != "" {
      assert s == [s[0]] + s[1..] && s[0] in s;
      NothingToReplace(s[1..]);
      ReplaceCharConcat([s[0]], s[1..], '.', ",");
      ReplaceOneChar(s[0], '.', ",");
    }
  }
}
