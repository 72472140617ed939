/** Lookups whose right-hand side is an expression: pattern_ops and pattern_esc from the template to the matches. */
module PatternLookups {
  import opened Wrappers
  import opened Strings
  import opened ParameterStyle
  import Like

  datatype Lookup = Contains | StartsWith | EndsWith

  // ---------- The templates ----------

  predicate Unmarked(s: string) { s != "" && forall i :: 0 <= i < |s| ==> s[i] != '%' && s[i] != '?' }

  // The pieces of pattern_ops and pattern_esc; those with percent signs as they are written and as they should arrive.

  function LikeConcat(): (s: string)
    ensures Unmarked(s)
  {
    "LIKE CONCAT("
  }

  function Any(): string { "'%%'" }

  function ServerAny(): string { "'%'" }

  function Comma(): (s: string)
    ensures Unmarked(s)
  {
    ", "
  }

  function Call(): (s: string)
    ensures Unmarked(s)
  {
    "REPLACE("
  }

  function EscBackslash(): (s: string)
    ensures Unmarked(s)
  {
    ", '\\', '\\\\')"
  }

  function EscPercent(): string { ", '%%', '\\%%')" }

  function ServerEscPercent(): string { ", '%', '\\%')" }

  function EscUnderscore(): (s: string)
    ensures Unmarked(s)
  {
    ", '_', '\\_')"
  }

  function Escape(): (s: string)
    ensures Unmarked(s)
  {
    ") ESCAPE '\\'"
  }

  /** What stands before and behind the right-hand side once pattern_esc is filled into pattern_ops. */
  function Around(lookup: Lookup, any: string, escPercent: string): (string, string) {
    var open := Call() + (Call() + Call());
    var close := EscBackslash() + (escPercent + EscUnderscore());
    match lookup
    case Contains => (LikeConcat() + (any + (Comma() + open)), close + (Comma() + (any + Escape())))
    case StartsWith => (LikeConcat() + open, close + (Comma() + (any + Escape())))
    case EndsWith => (LikeConcat() + (any + (Comma() + open)), close + Escape())
  }

  function Template(lookup: Lookup, rhs: string): string {
    var (opening, closing) := Around(lookup, Any(), EscPercent());
    opening + rhs + closing
  }

  function ServerOpening(lookup: Lookup): string { Around(lookup, ServerAny(), ServerEscPercent()).0 }

  function ServerClosing(lookup: Lookup): string { Around(lookup, ServerAny(), ServerEscPercent()).1 }

  // ---------- The condition that the server reads ----------

  datatype Expr =
    | Rhs
    | Literal(text: string)
    | ReplaceCall(of: Expr, from: string, to: string)
    | Concat(first: Expr, rest: Expr)
    | Concat3(first: Expr, second: Expr, third: Expr)

  function Quoted(text: string): string { "'" + text + "'" }

  function Render(e: Expr, rhs: string): string {
    match e
    case Rhs => rhs
    case Literal(text) => Quoted(text)
    case ReplaceCall(of, from, to) => Call() + (Render(of, rhs) + Arguments(from, to))
    case Concat(first, rest) => "CONCAT(" + (Render(first, rhs) + (Comma() + (Render(rest, rhs) + ")")))
    case Concat3(first, second, third) =>
      "CONCAT(" + (Render(first, rhs) + (Comma() + (Render(second, rhs) + (Comma() + (Render(third, rhs) + ")")))))
  }

  function Arguments(from: string, to: string): string {
    Comma() + Quoted(from) + Comma() + Quoted(to) + ")"
  }

  /** T-SQL's REPLACE leaves the text alone when there is nothing to look for. */
  function EvalExpr(e: Expr, rhs: string): string {
    match e
    case Rhs => rhs
    case Literal(text) => text
    case ReplaceCall(of, from, to) =>
      var v := EvalExpr(of, rhs);
      if from == "" then v else Replace(v, from, to)
    case Concat(first, rest) => EvalExpr(first, rhs) + EvalExpr(rest, rhs)
    case Concat3(first, second, third) => EvalExpr(first, rhs) + EvalExpr(second, rhs) + EvalExpr(third, rhs)
  }

  function Escaped(): Expr {
    ReplaceCall(ReplaceCall(ReplaceCall(Rhs, "\\", "\\\\"), "%", "\\%"), "_", "\\_")
  }

  function PatternExpr(lookup: Lookup): Expr {
    match lookup
    case Contains => Concat3(Literal("%"), Escaped(), Literal("%"))
    case StartsWith => Concat(Escaped(), Literal("%"))
    case EndsWith => Concat(Literal("%"), Escaped())
  }

  // ---------- From the template to the condition ----------

  /** Every percent sign doubled. */
  function Doubled(text: string): string { Replace(text, "%", "%%") }

  function TextTokens(text: string): (ts: seq<Token>)
    ensures |ts| == |text|
  {
    seq(|text|, i requires 0 <= i < |text| => if text[i] == '%' then Percent else Plain(text[i]))
  }

  predicate SinglePercents(text: string) {
    forall i :: 0 <= i < |text| - 1 ==> !(text[i] == '%' == text[i + 1])
  }

  lemma {:induction false} DoubledTokens(text: string)
    ensures Tokens(Doubled(text)) == Some(TextTokens(text))
    ensures '?' !in text ==> '?' !in Doubled(text)
    decreases |text|
  {
    if text != "" {
      var rest := text[1..];
      DoubledTokens(rest);
      assert text == [text[0]] + rest;
      assert TextTokens(text) == [if text[0] == '%' then Percent else Plain(text[0])] + TextTokens(rest);
      if text[0] == '%' {
        assert "%" <= text;
        assert Doubled(text) == "%%" + Doubled(rest) && Doubled(text)[2..] == Doubled(rest);
      } else {
        assert "%"[0] == '%' && !("%" <= text);
        assert Doubled(text)[1..] == Doubled(rest);
      }
    }
  }

  lemma {:induction false} TextTokensMean(text: string)
    ensures Holes(TextTokens(text)) == 0
    ensures Direct(TextTokens(text), []) == Chars(text)
    decreases |text|
  {
    if text != "" {
      TextTokensMean(text[1..]);
      assert TextTokens(text)[1..] == TextTokens(text[1..]);
      assert Chars(text) == [Chr(text[0])] + Chars(text[1..]);
    }
  }

  lemma DoubledConcat(a: string, b: string)
    ensures Doubled(a + b) == Doubled(a) + Doubled(b)
  {
    ReplaceCharConcat(a, b, '%', "%%");
  }

  lemma {:induction false} NothingDoubled(a: string)
    requires '%' !in a
    ensures Doubled(a) == a
    decreases |a|
  {
    if a != "" {
      assert a[0] in a && a == [a[0]] + a[1..];
      assert "%"[0] == '%' && !("%" <= a);
      NothingDoubled(a[1..]);
    }
  }

  /** The template doubles the percent signs of what should arrive, which are single and not at the edges. */
  predicate Clean(server: string, template: string) {
    && template == Doubled(server) && '?' !in server && SinglePercents(server)
    && server != "" && server[0] != '%' && server[|server| - 1] != '%'
  }

  lemma CleanConcat(s1: string, t1: string, s2: string, t2: string)
    requires Clean(s1, t1) && Clean(s2, t2)
    ensures Clean(s1 + s2, t1 + t2)
  {
    DoubledConcat(s1, s2);
  }

  lemma UnmarkedIsClean(s: string)
    requires Unmarked(s)
    ensures Clean(s, s)
  {
    NothingDoubled(s);
  }

  lemma AroundIsClean(a: string, b: string)
    requires a != "" && '%' !in a && '?' !in a && b != "" && '%' !in b && '?' !in b
    ensures Clean(a + ("%" + b), a + ("%%" + b))
  {
    NothingDoubled(a);
    NothingDoubled(b);
    DoubledConcat(a, "%" + b);
    DoubledConcat("%", b);
    ReplaceOneChar('%', '%', "%%");
    assert forall i :: 0 <= i < |a| ==> a[i] in a;
    assert forall i :: 0 <= i < |b| ==> b[i] in b;
  }

  lemma PiecesAreClean()
    ensures Clean(LikeConcat(), LikeConcat()) && Clean(Comma(), Comma()) && Clean(Call(), Call())
    ensures Clean(EscBackslash(), EscBackslash()) && Clean(EscUnderscore(), EscUnderscore()) && Clean(Escape(), Escape())
  {
    hide Clean, LikeConcat, Comma, Call, EscBackslash, EscUnderscore, Escape;
    UnmarkedIsClean(LikeConcat());
    UnmarkedIsClean(Comma());
    UnmarkedIsClean(Call());
    UnmarkedIsClean(EscBackslash());
    UnmarkedIsClean(EscUnderscore());
    UnmarkedIsClean(Escape());
  }

  lemma AnyIsClean()
    ensures Clean(ServerAny(), Any())
  {
    AroundIsClean("'", "'");
    assert ServerAny() == "'" + ("%" + "'") && Any() == "'" + ("%%" + "'");
  }

  lemma EscPercentIsClean()
    ensures Clean(ServerEscPercent(), EscPercent())
  {
    AroundIsClean(", '", "', '\\");
    AroundIsClean("'", ")");
    var a, b := ", '", "', '\\";
    assert ServerEscPercent() == (a + ("%" + b)) + ("%" + "')");
    assert EscPercent() == (a + ("%%" + b)) + ("%%" + "')");
    UnmarkedIsClean("')");
    DoubledConcat(a + ("%" + b), "%" + "')");
    DoubledConcat("%", "')");
    ReplaceOneChar('%', '%', "%%");
  }

  lemma AllIsClean(lookup: Lookup)
    ensures
      var (opening, closing) := Around(lookup, Any(), EscPercent());
      Clean(ServerOpening(lookup), opening) && Clean(ServerClosing(lookup), closing)
  {
    hide Clean, LikeConcat, Any, ServerAny, Comma, Call, EscBackslash, EscPercent, ServerEscPercent, EscUnderscore, Escape;
    PiecesAreClean();
    AnyIsClean();
    EscPercentIsClean();
    var open := Call() + (Call() + Call());
    CleanConcat(Call(), Call(), Call(), Call());
    CleanConcat(Call(), Call(), Call() + Call(), Call() + Call());
    CleanConcat(Comma(), Comma(), open, open);
    CleanConcat(ServerAny(), Any(), Comma() + open, Comma() + open);
    CleanConcat(LikeConcat(), LikeConcat(), ServerAny() + (Comma() + open), Any() + (Comma() + open));
    CleanConcat(LikeConcat(), LikeConcat(), open, open);
    var (serverClose, close) :=
      (EscBackslash() + (ServerEscPercent() + EscUnderscore()), EscBackslash() + (EscPercent() + EscUnderscore()));
    CleanConcat(ServerEscPercent(), EscPercent(), EscUnderscore(), EscUnderscore());
    CleanConcat(EscBackslash(), EscBackslash(), ServerEscPercent() + EscUnderscore(), EscPercent() + EscUnderscore());
    CleanConcat(ServerAny(), Any(), Escape(), Escape());
    CleanConcat(Comma(), Comma(), ServerAny() + Escape(), Any() + Escape());
    CleanConcat(serverClose, close, Comma() + (ServerAny() + Escape()), Comma() + (Any() + Escape()));
    CleanConcat(serverClose, close, Escape(), Escape());
  }

  /** A clean piece arrives as it should, with and without parameters. */
  lemma CleanArrives(server: string, template: string, ps: seq<Param>)
    requires Clean(server, template)
    ensures Tokens(template) == Some(TextTokens(server)) && '?' !in template
    ensures Holes(TextTokens(server)) == 0 && Left(TextTokens(server), ps) == TextTokens(server)
    ensures Direct(TextTokens(server), []) == Chars(server)
  {
    DoubledTokens(server);
    TextTokensMean(server);
    MergedShorter(TextTokens(server), []);
  }

  /**
   With or without parameters the condition arrives with single percent signs, around the right-hand side
   as it would arrive by itself.
   */
  lemma PatternArrives(lookup: Lookup, rhs: string, ps: seq<Param>)
    requires Tokens(rhs).Some? && Holes(Tokens(rhs).value) == |ps| && '?' !in rhs && Unmapped !in ps
    ensures Holes(Left(Tokens(rhs).value, ps)) == |ps|
    ensures Arrives(rhs, ps) == Some(Direct(Left(Tokens(rhs).value, ps), ps))
    ensures Arrives(Template(lookup, rhs), ps)
         == Some(Chars(ServerOpening(lookup)) + Arrives(rhs, ps).value + Chars(ServerClosing(lookup)))
  {
    hide Arrives, Tokens, Direct, Merged, Around, ServerOpening, ServerClosing, Doubled;
    var (opening, closing) := Around(lookup, Any(), EscPercent());
    AllIsClean(lookup);
    CleanArrives(ServerOpening(lookup), opening, ps);
    CleanArrives(ServerClosing(lookup), closing, ps);
    WhatArrives(rhs, ps);
    TemplateArrives(opening, rhs, closing, ps);
  }

  /** Parts around a right-hand side that neither end nor begin with a percent sign next to it. */
  lemma TemplateArrives(opening: string, rhs: string, closing: string, ps: seq<Param>)
    requires Tokens(opening).Some? && Tokens(rhs).Some? && Tokens(closing).Some?
    requires '?' !in opening && '?' !in rhs && '?' !in closing && Unmapped !in ps
    requires Holes(Tokens(opening).value) == 0 && Holes(Tokens(rhs).value) == |ps| && Holes(Tokens(closing).value) == 0
    requires Tokens(opening).value != [] && Tokens(opening).value[|Tokens(opening).value| - 1] != Percent
    requires Tokens(closing).value != [] && Tokens(closing).value[0] != Percent
    ensures
      var o, m, c := Left(Tokens(opening).value, ps), Left(Tokens(rhs).value, ps), Left(Tokens(closing).value, ps);
      && Holes(o) == 0 && Holes(m) == |ps| && Holes(c) == 0
      && Arrives(opening + rhs + closing, ps) == Some(Direct(o, []) + Direct(m, ps) + Direct(c, []))
  {
    hide Arrives, Tokens, Direct, Merged;
    var o, m, c := Tokens(opening).value, Tokens(rhs).value, Tokens(closing).value;
    TokensConcat(opening, rhs);
    TokensConcat(opening + rhs, closing);
    HolesConcat(o, m);
    HolesConcat(o + m, c);
    WhatArrives(opening + rhs + closing, ps);
    LeftConcat(o + m, c, ps);
    LeftConcat(o, m, ps);
    MergedHoles(o);
    MergedHoles(m);
    MergedHoles(c);
    DirectConcat(Left(o, ps), Left(m, ps), [], ps);
    assert [] + ps == ps;
    DirectConcat(Left(o, ps) + Left(m, ps), Left(c, ps), ps, []);
    assert ps + [] == ps;
  }

  // ---------- What the condition means ----------

  lemma ArgumentsText()
    ensures Arguments("\\", "\\\\") == EscBackslash()
    ensures Arguments("%", "\\%") == ServerEscPercent()
    ensures Arguments("_", "\\_") == EscUnderscore()
  {
  }

  lemma EscapedRendered(rhs: string)
    ensures Render(Escaped(), rhs)
         == Call() + (Call() + (Call() + (rhs + EscBackslash()) + ServerEscPercent()) + EscUnderscore())
  {
    ArgumentsText();
    hide Arguments, Call, EscBackslash, ServerEscPercent, EscUnderscore;
    var e1 := ReplaceCall(Rhs, "\\", "\\\\");
    var e2 := ReplaceCall(e1, "%", "\\%");
    assert Render(e1, rhs) == Call() + (rhs + EscBackslash());
    assert Render(e2, rhs) == Call() + (Render(e1, rhs) + ServerEscPercent());
    assert Render(Escaped(), rhs) == Call() + (Render(e2, rhs) + EscUnderscore());
  }

  lemma NestedText(r: string, x: string, a: string, b: string, c: string)
    ensures r + (r + (r + (x + a) + b) + c) == (r + (r + r)) + x + (a + (b + c))
  {
  }

  lemma EdgesText()
    ensures LikeConcat() == "LIKE " + "CONCAT("
    ensures Escape() == ")" + " ESCAPE '\\'"
    ensures Quoted("%") == ServerAny()
  {
  }

  /** The text that arrives is the text of the pattern expression. */
  lemma ConditionText(lookup: Lookup, rhs: string)
    ensures ServerOpening(lookup) + rhs + ServerClosing(lookup) == "LIKE " + Render(PatternExpr(lookup), rhs) + " ESCAPE '\\'"
  {
    hide Escaped, LikeConcat, ServerAny, Comma, Call, EscBackslash, ServerEscPercent, EscUnderscore, Escape;
    EdgesText();
    EscapedRendered(rhs);
    NestedText(Call(), rhs, EscBackslash(), ServerEscPercent(), EscUnderscore());
    var open := Call() + (Call() + Call());
    var close := EscBackslash() + (ServerEscPercent() + EscUnderscore());
    var (like, concat, escape) := ("LIKE ", "CONCAT(", " ESCAPE '\\'");
    ConditionShape(lookup, rhs, like, concat, escape, open, close);
  }

  lemma ConditionShape(lookup: Lookup, rhs: string, like: string, concat: string, escape: string, open: string, close: string)
    requires LikeConcat() == like + concat && Escape() == ")" + escape && concat == "CONCAT("
    requires Quoted("%") == ServerAny() && Render(Escaped(), rhs) == open + rhs + close
    requires open == Call() + (Call() + Call()) && close == EscBackslash() + (ServerEscPercent() + EscUnderscore())
    ensures ServerOpening(lookup) + rhs + ServerClosing(lookup) == like + Render(PatternExpr(lookup), rhs) + escape
  {
    hide Escaped, LikeConcat, ServerAny, Comma, Call, EscBackslash, ServerEscPercent, EscUnderscore, Escape, Quoted;
    var e := open + rhs + close;
    var any, comma := ServerAny(), Comma();
    match lookup {
      case Contains =>
        ThreeText(like, concat, any, comma, open, rhs, close, escape);
      case StartsWith =>
        StartText(like, concat, any, comma, open, rhs, close, escape);
      case EndsWith =>
        EndText(like, concat, any, comma, open, rhs, close, escape);
    }
  }

  lemma ThreeText(l: string, c: string, any: string, comma: string, open: string, x: string, close: string, e: string)
    ensures ((l + c) + (any + (comma + open))) + x + (close + (comma + (any + (")" + e))))
         == l + (c + (any + (comma + ((open + x + close) + (comma + (any + ")")))))) + e
  {
  }

  lemma StartText(l: string, c: string, any: string, comma: string, open: string, x: string, close: string, e: string)
    ensures ((l + c) + open) + x + (close + (comma + (any + (")" + e))))
         == l + (c + ((open + x + close) + (comma + (any + ")")))) + e
  {
  }

  lemma EndText(l: string, c: string, any: string, comma: string, open: string, x: string, close: string, e: string)
    ensures ((l + c) + (any + (comma + open))) + x + (close + (")" + e))
         == l + (c + (any + (comma + ((open + x + close) + ")")))) + e
  {
  }

  function Pattern(lookup: Lookup, escaped: string): string {
    match lookup
    case Contains => "%" + escaped + "%"
    case StartsWith => escaped + "%"
    case EndsWith => "%" + escaped
  }

  lemma PatternValue(lookup: Lookup, x: string)
    ensures EvalExpr(PatternExpr(lookup), x) == Pattern(lookup, Like.DatabaseEscape(x))
  {
    var e1 := ReplaceCall(Rhs, "\\", "\\\\");
    var e2 := ReplaceCall(e1, "%", "\\%");
    assert EvalExpr(e1, x) == Replace(x, "\\", "\\\\");
    assert EvalExpr(e2, x) == Replace(EvalExpr(e1, x), "%", "\\%");
    assert EvalExpr(Escaped(), x) == Replace(EvalExpr(e2, x), "_", "\\_");
  }

  predicate Holds(lookup: Lookup, s: string, x: string) {
    match lookup
    case Contains => Like.Contains(s, x)
    case StartsWith => x <= s
    case EndsWith => Like.IsSuffix(x, s)
  }

  /** The condition holds of the subjects it is meant for if and only if the right-hand side has no opening bracket. */
  lemma PatternFindsExactlyWithoutBracket(lookup: Lookup, x: string)
    ensures (forall s :: Like.Matches(s, EvalExpr(PatternExpr(lookup), x)) <==> Holds(lookup, s, x)) <==> '[' !in x
  {
    hide Like.Matches, Like.Prep, Like.DatabaseEscape, EvalExpr;
    PatternValue(lookup, x);
    forall s
      ensures Like.Matches(s, Pattern(lookup, Like.Prep(x))) <==> Holds(lookup, s, x)
    {
      match lookup {
        case Contains => Like.LikeSubstring(s, x);
        case StartsWith => Like.LikePrefix(s, x);
        case EndsWith => Like.LikeSuffix(s, x);
      }
    }
    match lookup {
      case Contains => Like.EscapesAgreeOnSubstrings(x);
      case StartsWith => Like.EscapesAgreeOnPrefixes(x);
      case EndsWith => Like.EscapesAgreeOnSuffixes(x);
    }
  }
}
