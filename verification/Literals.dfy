/** Default values are written into DDL as literals, and the driver's percent rewriting sees them too. */
module Literals {
  import opened Wrappers
  import opened Strings
  import opened ParameterStyle

  /** quote_value on text. */
  function QuoteText(value: string): string {
    "'" + Replace(value, "'", "''") + "'"
  }

  /** What follows the opening quote. */
  function Body(value: string, rest: string): string {
    Replace(value, "'", "''") + ("'" + rest)
  }

  /** How T-SQL reads on after an opening quote: two quotes are one, a single one ends the literal. */
  function ReadBody(text: string): Option<(string, string)>
    decreases |text|
  {
    if text == "" then None
    else if text[0] != '\'' then Prepend(text[0], ReadBody(text[1..]))
    else if |text| > 1 && text[1] == '\'' then Prepend('\'', ReadBody(text[2..]))
    else Some(("", text[1..]))
  }

  function Prepend(c: char, r: Option<(string, string)>): Option<(string, string)> {
    match r
    case Some((value, rest)) => Some(([c] + value, rest))
    case None => None
  }

  /** A string literal at the start of the text: its value and what follows it. */
  function ReadLiteral(text: string): Option<(string, string)> {
    if text != "" && text[0] == '\'' then ReadBody(text[1..]) else None
  }

  lemma {:induction false} BodyReadsBack(value: string, rest: string)
    requires rest == "" || rest[0] != '\''
    ensures ReadBody(Body(value, rest)) == Some((value, rest))
    decreases |value|
  {
    var text := Body(value, rest);
    if value == "" {
      assert text == "'" + rest;
    } else {
      BodyReadsBack(value[1..], rest);
      var tail := Body(value[1..], rest);
      assert value == [value[0]] + value[1..];
      if value[0] == '\'' {
        assert "'" <= value;
        assert text == "''" + tail && text[2..] == tail;
      } else {
        assert !("'" <= value);
        assert text == [value[0]] + tail && text[1..] == tail;
      }
    }
  }

  /** The server reads a quoted text back as it was, whatever quotes it holds, and nothing of what follows. */
  lemma QuotedReadsBack(value: string, rest: string)
    requires rest == "" || rest[0] != '\''
    ensures ReadLiteral(QuoteText(value) + rest) == Some((value, rest))
  {
    BodyReadsBack(value, rest);
    assert (QuoteText(value) + rest)[1..] == Body(value, rest);
  }

  /** A value that stands in the text, as T-SQL reads it. */
  function ReadValue(text: string): Option<Param> {
    if text == "NULL" then Some(Param.Null)
    else match ReadLiteral(text)
      case Some((value, "")) => Some(Param.Text(value))
      case _ => None
  }

  /** What Cursor.execute writes into the text instead of binding it, the server reads as the value it stands for. */
  lemma UnboundReadsBack(p: Param)
    requires p == Param.Null || p == Param.Text("")
    ensures !IsBound(p) && ReadValue(Replacement(p)) == Some(p)
  {
    assert "''"[1..] == "'" && "'"[1..] == "";
    assert ReadBody("'") == Some(("", ""));
  }

  // ---------- Through Cursor.execute ----------

  predicate DoublePercent(s: string) {
    exists i :: 0 <= i < |s| - 1 && s[i] == '%' == s[i + 1]
  }

  lemma ReplaceHead(c: char, s: string)
    ensures Replace([c] + s, "'", "''") == (if c == '\'' then "''" else [c]) + Replace(s, "'", "''")
  {
    assert ([c] + s)[1..] == s;
    assert "'"[0] == '\'' && ([c] + s)[0] == c;
    if c == '\'' {
      assert "'" <= [c] + s;
    }
  }

  lemma ReplaceNothing()
    ensures Replace("", "'", "''") == ""
  {
  }

  lemma UnescapeHead(c: char, s: string)
    requires c == '%' ==> s == "" || s[0] != '%'
    ensures Unescape([c] + s) == [c] + Unescape(s)
  {
    if c == '%' {
      UnescapeSingle(s);
    } else {
      UnescapeOther(c, s);
    }
  }

  lemma BodyStart(c: char, value: string, rest: string)
    ensures Body([c] + value, rest) == (if c == '\'' then "''" else [c]) + Body(value, rest)
    ensures Body("", rest) == "'" + rest
  {
    ReplaceHead(c, value);
    hide Replace;
    assert Replace("", "'", "''") == "" by { ReplaceNothing(); }
    assert "" + "'" + rest == "'" + rest;
  }

  lemma BodyHead(value: string, rest: string)
    ensures |Body(value, rest)| > 0
    ensures Body(value, rest)[0] == if value == "" then '\'' else value[0]
  {
    if value != "" {
      assert value == [value[0]] + value[1..];
      BodyStart(value[0], value[1..], rest);
    }
  }

  /** Doubling the quotes and halving the percent signs do not get into each other's way. */
  lemma {:induction false} UnescapeQuoted(value: string, rest: string)
    ensures Unescape(Body(value, rest)) == Body(Unescape(value), Unescape(rest))
    decreases |value|
  {
    hide Unescape, Body;
    if value == "" {
      BodyStart('x', "", rest);
      BodyStart('x', "", Unescape(rest));
      UnescapeOther('\'', rest);
      UnescapeNothing();
    } else if |value| > 1 && value[0] == '%' == value[1] {
      var more := value[2..];
      assert value == "%%" + more;
      assert value == ['%'] + (['%'] + more);
      BodyStart('%', ['%'] + more, rest);
      BodyStart('%', more, rest);
      UnescapeQuoted(more, rest);
      assert ['%'] + (['%'] + Body(more, rest)) == "%%" + Body(more, rest);
      UnescapePair(Body(more, rest));
      UnescapePair(more);
      BodyStart('%', Unescape(more), Unescape(rest));
    } else {
      UnescapeQuoted(value[1..], rest);
      UnescapeOneQuoted(value[0], value[1..], rest);
      assert value == [value[0]] + value[1..];
    }
  }

  lemma UnescapeOneQuoted(c: char, value: string, rest: string)
    requires c == '%' ==> value == "" || value[0] != '%'
    requires Unescape(Body(value, rest)) == Body(Unescape(value), Unescape(rest))
    ensures Unescape(Body([c] + value, rest)) == Body(Unescape([c] + value), Unescape(rest))
  {
    hide Unescape, Body;
    UnescapeHead(c, value);
    BodyStart(c, value, rest);
    BodyStart(c, Unescape(value), Unescape(rest));
    BodyHead(value, rest);
    var body := Body(value, rest);
    if c == '\'' {
      assert "''" + body == ['\''] + (['\''] + body);
      UnescapeOther('\'', ['\''] + body);
      UnescapeOther('\'', body);
      assert "''" + Unescape(body) == ['\''] + (['\''] + Unescape(body));
    } else {
      UnescapeHead(c, body);
    }
  }

  lemma {:induction false} UnescapeKeeps(s: string)
    ensures Unescape(s) == s <==> !DoublePercent(s)
    ensures |Unescape(s)| <= |s|
    decreases |s|
  {
    if |s| > 1 && s[0] == '%' == s[1] {
      UnescapeKeeps(s[2..]);
      assert s == "%%" + s[2..];
      UnescapePair(s[2..]);
      assert |Unescape(s)| < |s|;
      assert DoublePercent(s);
    } else if s != "" {
      UnescapeKeeps(s[1..]);
      assert s == [s[0]] + s[1..];
      UnescapeHead(s[0], s[1..]);
      assert Unescape(s)[1..] == Unescape(s[1..]);
      if DoublePercent(s[1..]) {
        var i :| 0 <= i < |s[1..]| - 1 && s[1..][i] == '%' == s[1..][i + 1];
        assert s[i + 1] == '%' == s[i + 2];
      }
      if DoublePercent(s) {
        var i :| 0 <= i < |s| - 1 && s[i] == '%' == s[i + 1];
        assert s[1..][i - 1] == '%' == s[1..][i];
      }
    }
  }

  /**
   A default on its way to the server: quoted into the statement, then executed without parameters.
   The server reads back the value itself exactly when it has no two percent signs in a row.
   */
  lemma DefaultOnTheServer(value: string, rest: string)
    requires rest == "" || rest[0] != '\''
    ensures Prepared(QuoteText(value) + rest, []).Success?
    ensures
      var text := Prepared(QuoteText(value) + rest, []).value.text;
      && ReadLiteral(text) == Some((Unescape(value), Unescape(rest)))
      && (ReadLiteral(text).value.0 == value <==> !DoublePercent(value))
  {
    var body := Body(value, rest);
    assert QuoteText(value) + rest == "'" + body;
    UnescapeOther('\'', body);
    UnescapeQuoted(value, rest);
    assert "'" + Body(Unescape(value), Unescape(rest)) == QuoteText(Unescape(value)) + Unescape(rest);
    RestStart(rest);
    QuotedReadsBack(Unescape(value), Unescape(rest));
    UnescapeKeeps(value);
  }

  lemma RestStart(rest: string)
    ensures Unescape(rest) == "" <==> rest == ""
    ensures rest != "" ==> Unescape(rest)[0] == rest[0]
  {
  }
}
