/** Cursor.execute's way from Django's %s placeholders to ADO's question marks. */
module ParameterStyle {
  import opened Wrappers
  import opened Strings

  /** A parameter value; `Unmapped` is one whose Python type has no ADO type. */
  datatype Param = Null | Text(text: string) | Other(value: int) | Unmapped

  datatype Error = DataError | FormatError

  datatype Command = Command(text: string, parameters: seq<Param>)

  // ---------- Python's % operator with a tuple on the right ----------

  /** %s takes the next replacement, %% is a percent sign; every replacement must be used. */
  function Format(template: string, args: seq<string>): Result<string, Error>
    decreases |template|
  {
    if template == "" then
      if args == [] then Success("") else Failure(FormatError)
    else if template[0] == '%' then
      if |template| == 1 then Failure(FormatError)
      else if template[1] == '%' then
        var rest :- Format(template[2..], args);
        Success("%" + rest)
      else if template[1] == 's' && args != [] then
        var rest :- Format(template[2..], args[1..]);
        Success(args[0] + rest)
      else Failure(FormatError)
    else
      var rest :- Format(template[1..], args);
      Success([template[0]] + rest)
  }

  /** Turning every doubled percent sign into a single one. */
  function Unescape(s: string): string { Replace(s, "%%", "%") }

  // ---------- The method ----------

  predicate IsBound(p: Param) { !p.Null? && p != Text("") }

  function Replacement(p: Param): string {
    if p.Null? then "NULL" else if p == Text("") then "''" else "?"
  }

  function Replacements(ps: seq<Param>): (rs: seq<string>)
    ensures |rs| == |ps|
  {
    seq(|ps|, i requires 0 <= i < |ps| => Replacement(ps[i]))
  }

  function Bound(ps: seq<Param>): seq<Param> {
    if ps == [] then [] else (if IsBound(ps[0]) then [ps[0]] else []) + Bound(ps[1..])
  }

  lemma {:induction false} BoundSnoc(ps: seq<Param>, p: Param)
    ensures Bound(ps + [p]) == Bound(ps) + (if IsBound(p) then [p] else [])
    decreases |ps|
  {
    if ps == [] {
      assert ps + [p] == [p] && [p][1..] == [];
      assert Bound([]) == [];
    } else {
      assert (ps + [p])[1..] == ps[1..] + [p];
      BoundSnoc(ps[1..], p);
    }
  }

  /** What the loop and the two percent rewritings produce. */
  function Prepared(operation: string, parameters: seq<Param>): Result<Command, Error> {
    if Unmapped in parameters then Failure(DataError)
    else if parameters == [] then Success(Command(Unescape(operation), []))
    else
      var text :- Format(operation, Replacements(parameters));
      Success(Command(Unescape(text), Bound(parameters)))
  }

  /** Builds the ADO command: literal NULL and '' are written into the text, everything else is bound in order. */
  method Prepare(operation: string, parameters: seq<Param>) returns (r: Result<Command, Error>)
    ensures r == Prepared(operation, parameters)
  {
    var parameterReplacements: seq<string> := [];
    var bound: seq<Param> := [];
    for i := 0 to |parameters|
      invariant parameterReplacements == Replacements(parameters[..i])
      invariant bound == Bound(parameters[..i])
      invariant Unmapped !in parameters[..i]
    {
      var value := parameters[i];
      assert parameters[..i + 1] == parameters[..i] + [value];
      BoundSnoc(parameters[..i], value);
      if value == Null {
        parameterReplacements := parameterReplacements + ["NULL"];
        continue;
      }
      if value == Text("") {
        parameterReplacements := parameterReplacements + ["''"];
        continue;
      }
      parameterReplacements := parameterReplacements + ["?"];
      if value == Unmapped {
        return Failure(DataError);
      }
      bound := bound + [value];
    }
    assert parameters[..|parameters|] == parameters;
    var text := operation;
    if parameterReplacements != [] {
      text :- Format(operation, parameterReplacements);
    }
    r := Success(Command(Unescape(text), bound));
  }

  // ---------- What a template means ----------

  datatype Token = Plain(c: char) | Percent | Hole

  /** The tokens of a template, if it has no stray percent sign. */
  function Tokens(template: string): Option<seq<Token>>
    decreases |template|
  {
    if template == "" then Some([])
    else if template[0] == '%' then
      if |template| > 1 && template[1] in "%s" then
        match Tokens(template[2..])
        case Some(rest) => Some([if template[1] == '%' then Percent else Hole] + rest)
        case None => None
      else None
    else
      match Tokens(template[1..])
      case Some(rest) => Some([Plain(template[0])] + rest)
      case None => None
  }

  function Holes(ts: seq<Token>): nat {
    if ts == [] then 0 else (if ts[0] == Hole then 1 else 0) + Holes(ts[1..])
  }

  predicate Sound(ts: seq<Token>) {
    forall i :: 0 <= i < |ts| ==> ts[i] != Plain('%')
  }

  /** The text with the holes filled in order. */
  function Expand(ts: seq<Token>, args: seq<string>): string
    requires Holes(ts) == |args|
  {
    if ts == [] then ""
    else match ts[0]
      case Plain(c) => [c] + Expand(ts[1..], args)
      case Percent => "%" + Expand(ts[1..], args)
      case Hole => args[0] + Expand(ts[1..], args[1..])
  }

  lemma {:induction false} TokensSound(template: string)
    requires Tokens(template).Some?
    ensures Sound(Tokens(template).value)
    decreases |template|
  {
    if template != "" {
      if template[0] == '%' {
        TokensSound(template[2..]);
      } else {
        TokensSound(template[1..]);
      }
    }
  }

  lemma {:induction false} FormatIsExpand(template: string, args: seq<string>)
    ensures Format(template, args)
         == match Tokens(template)
            case Some(ts) => if Holes(ts) == |args| then Success(Expand(ts, args)) else Failure(FormatError)
            case None => Failure(FormatError)
    decreases |template|
  {
    if template != "" {
      if template[0] == '%' {
        if |template| > 1 && template[1] in "%s" {
          FormatIsExpand(template[2..], args);
          if template[1] == 's' && args != [] {
            FormatIsExpand(template[2..], args[1..]);
          }
          if Tokens(template[2..]).Some? {
            assert Tokens(template).value[1..] == Tokens(template[2..]).value;
          }
        }
      } else {
        FormatIsExpand(template[1..], args);
        if Tokens(template[1..]).Some? {
          assert Tokens(template).value[1..] == Tokens(template[1..]).value;
        }
      }
    }
  }

  // ---------- Percent signs are unescaped twice ----------

  /** Two escaped percent signs next to each other come out as one. */
  function Merged(ts: seq<Token>): seq<Token>
    decreases |ts|
  {
    if ts == [] then []
    else if |ts| > 1 && ts[0] == Percent && ts[1] == Percent then [Percent] + Merged(ts[2..])
    else [ts[0]] + Merged(ts[1..])
  }

  predicate AdjacentPercents(ts: seq<Token>) {
    exists i :: 0 <= i < |ts| - 1 && ts[i] == Percent && ts[i + 1] == Percent
  }

  lemma {:induction false} MergedHoles(ts: seq<Token>)
    ensures Holes(Merged(ts)) == Holes(ts)
    ensures |Merged(ts)| <= |ts|
    decreases |ts|
  {
    if ts != [] {
      if |ts| > 1 && ts[0] == Percent && ts[1] == Percent {
        MergedHoles(ts[2..]);
        assert ts[1..][1..] == ts[2..];
        assert Merged(ts)[1..] == Merged(ts[2..]);
      } else {
        MergedHoles(ts[1..]);
        assert Merged(ts)[1..] == Merged(ts[1..]);
      }
    }
  }

  lemma UnescapePair(s: string)
    ensures Unescape("%%" + s) == "%" + Unescape(s)
  {
    assert ("%%" + s)[2..] == s && "%%" <= "%%" + s;
  }

  lemma UnescapeSingle(s: string)
    requires s == "" || s[0] != '%'
    ensures Unescape("%" + s) == "%" + Unescape(s)
  {
    assert ("%" + s)[1..] == s && !("%%" <= "%" + s);
  }

  lemma UnescapeOther(c: char, s: string)
    requires c != '%'
    ensures Unescape([c] + s) == [c] + Unescape(s)
  {
    var t := [c] + s;
    assert t[1..] == s && t[0] != "%%"[0];
  }

  lemma {:induction false} UnescapeSkips(a: string, s: string)
    requires '%' !in a
    ensures Unescape(a + s) == a + Unescape(s)
    decreases |a|
  {
    if a == "" {
      assert a + s == s && a + Unescape(s) == Unescape(s);
    } else {
      assert (a + s)[1..] == a[1..] + s;
      assert a[0] in a;
      UnescapeOther(a[0], a[1..] + s);
      assert a + s == [a[0]] + (a[1..] + s);
      UnescapeSkips(a[1..], s);
      assert [a[0]] + (a[1..] + Unescape(s)) == a + Unescape(s);
    }
  }

  predicate PlainArgs(args: seq<string>) {
    forall i :: 0 <= i < |args| ==> args[i] != "" && '%' !in args[i]
  }

  lemma ReplacementsArePlain(ps: seq<Param>)
    ensures PlainArgs(Replacements(ps))
  {
  }

  /** After the % operator, merging doubled percent signs is merging the tokens. */
  lemma {:induction false} UnescapeExpand(ts: seq<Token>, args: seq<string>)
    requires Holes(ts) == |args| && Sound(ts) && PlainArgs(args)
    ensures Holes(Merged(ts)) == |args|
    ensures Unescape(Expand(ts, args)) == Expand(Merged(ts), args)
    decreases |ts|
  {
    hide Unescape;
    MergedHoles(ts);
    if ts == [] {
      UnescapeNothing();
    } else {
      var rest := ts[1..];
      if ts[0] == Hole {
        UnescapeExpand(rest, args[1..]);
        UnescapeSkips(args[0], Expand(rest, args[1..]));
        assert Merged(ts)[1..] == Merged(rest);
      } else if ts[0] == Percent && rest != [] && rest[0] == Percent {
        UnescapeExpand(ts[2..], args);
        assert rest[1..] == ts[2..];
        var after := Expand(ts[2..], args);
        assert Expand(ts, args) == "%%" + after;
        UnescapePair(after);
        assert Merged(ts)[1..] == Merged(ts[2..]);
      } else {
        UnescapeExpand(rest, args);
        var after := Expand(rest, args);
        assert Merged(ts)[1..] == Merged(rest);
        if ts[0] == Percent {
          if rest != [] {
            FirstChar(rest, args);
          }
          UnescapeSingle(after);
        } else {
          UnescapeOther(ts[0].c, after);
        }
      }
    }
  }

  lemma UnescapeNothing()
    ensures Unescape("") == ""
  {
  }

  lemma FirstChar(ts: seq<Token>, args: seq<string>)
    requires ts != [] && ts[0] != Percent && Holes(ts) == |args| && Sound(ts) && PlainArgs(args)
    ensures Expand(ts, args) != "" && Expand(ts, args)[0] != '%'
  {
    if ts[0] == Hole {
      assert args[0][0] in args[0];
    }
  }

  // ---------- Meaning ----------

  /** What the server sees: characters and bound values. */
  datatype Piece = Chr(c: char) | Val(p: Param)

  function Chars(s: string): (r: seq<Piece>)
    ensures |r| == |s|
  {
    seq(|s|, i requires 0 <= i < |s| => Chr(s[i]))
  }

  /** A value as the server should see it: None is the word NULL, an empty text two quotes, anything else itself. */
  function AsSeen(p: Param): seq<Piece> {
    match p
    case Null => [Chr('N'), Chr('U'), Chr('L'), Chr('L')]
    case Text(text) => if text == "" then [Chr('\''), Chr('\'')] else [Val(p)]
    case _ => [Val(p)]
  }

  /** The template filled with the original values. */
  function Direct(ts: seq<Token>, ps: seq<Param>): seq<Piece>
    requires Holes(ts) == |ps|
  {
    if ts == [] then []
    else match ts[0]
      case Plain(c) => [Chr(c)] + Direct(ts[1..], ps)
      case Percent => [Chr('%')] + Direct(ts[1..], ps)
      case Hole => AsSeen(ps[0]) + Direct(ts[1..], ps[1..])
  }

  /** ADO fills the question marks in order; the number of parameters has to be the number of marks. */
  function FillMarks(text: string, bound: seq<Param>): Option<seq<Piece>> {
    if text == "" then
      if bound == [] then Some([]) else None
    else if text[0] == '?' then
      if bound == [] then None
      else match FillMarks(text[1..], bound[1..])
        case Some(rest) => Some([Val(bound[0])] + rest)
        case None => None
    else
      match FillMarks(text[1..], bound)
      case Some(rest) => Some([Chr(text[0])] + rest)
      case None => None
  }

  lemma {:induction false} FillPlain(a: string, text: string, bound: seq<Param>)
    requires '?' !in a
    ensures FillMarks(a + text, bound)
         == match FillMarks(text, bound) case Some(rest) => Some(Chars(a) + rest) case None => None
    decreases |a|
  {
    if a == "" {
      assert a + text == text;
      if FillMarks(text, bound).Some? {
        assert Chars(a) + FillMarks(text, bound).value == FillMarks(text, bound).value;
      }
    } else {
      assert a[0] in a;
      assert (a + text)[1..] == a[1..] + text;
      FillPlain(a[1..], text, bound);
      assert Chars(a) == [Chr(a[0])] + Chars(a[1..]);
      if FillMarks(text, bound).Some? {
        assert [Chr(a[0])] + (Chars(a[1..]) + FillMarks(text, bound).value) == Chars(a) + FillMarks(text, bound).value;
      }
    }
  }

  lemma SeenAsWritten(p: Param)
    ensures AsSeen(p) == if IsBound(p) then [Val(p)] else Chars(Replacement(p))
  {
  }

  lemma {:induction false} FillExpand(ts: seq<Token>, ps: seq<Param>)
    requires Holes(ts) == |ps| && Plain('?') !in ts
    ensures FillMarks(Expand(ts, Replacements(ps)), Bound(ps)) == Some(Direct(ts, ps))
    decreases |ts|
  {
    if ts != [] {
      var rest := ts[1..];
      assert ts[0] in ts;
      match ts[0] {
        case Plain(c) =>
          FillExpand(rest, ps);
          assert Expand(ts, Replacements(ps))[1..] == Expand(rest, Replacements(ps));
        case Percent =>
          FillExpand(rest, ps);
          assert Expand(ts, Replacements(ps))[1..] == Expand(rest, Replacements(ps));
        case Hole =>
          FillExpand(rest, ps[1..]);
          assert Replacements(ps)[1..] == Replacements(ps[1..]);
          var after := Expand(rest, Replacements(ps[1..]));
          SeenAsWritten(ps[0]);
          if IsBound(ps[0]) {
            assert ("?" + after)[1..] == after;
            assert Bound(ps)[1..] == Bound(ps[1..]);
          } else {
            FillPlain(Replacement(ps[0]), after, Bound(ps[1..]));
            assert Bound(ps) == Bound(ps[1..]);
          }
      }
    }
  }

  lemma {:induction false} MergedShorter(ts: seq<Token>, ps: seq<Param>)
    requires Holes(ts) == |ps|
    ensures Holes(Merged(ts)) == |ps|
    ensures |Direct(Merged(ts), ps)| <= |Direct(ts, ps)|
    ensures AdjacentPercents(ts) ==> |Direct(Merged(ts), ps)| < |Direct(ts, ps)|
    ensures !AdjacentPercents(ts) ==> Merged(ts) == ts
    decreases |ts|
  {
    MergedHoles(ts);
    if ts != [] {
      var rest := ts[1..];
      if rest != [] && ts[0] == Percent && rest[0] == Percent {
        MergedShorter(ts[2..], ps);
        assert rest[1..] == ts[2..];
        assert Merged(ts)[1..] == Merged(ts[2..]);
        assert ts[1] == Percent;
      } else {
        MergedShorter(rest, if ts[0] == Hole then ps[1..] else ps);
        assert Merged(ts)[1..] == Merged(rest);
        if AdjacentPercents(ts) {
          var i :| 0 <= i < |ts| - 1 && ts[i] == Percent && ts[i + 1] == Percent;
          assert rest[i - 1] == Percent && rest[i] == Percent;
        } else {
          forall i | 0 <= i < |rest| - 1
            ensures !(rest[i] == Percent && rest[i + 1] == Percent)
          {
            assert rest[i] == ts[i + 1] && rest[i + 1] == ts[i + 2];
          }
          assert ts == [ts[0]] + rest;
        }
      }
    }
  }

  /**
   With parameters: filling the emitted marks in order always gives the template with doubled
   percent signs merged, so the meaning is kept exactly when no two escaped ones are adjacent.
   */
  lemma ExecuteKeepsMeaning(operation: string, ps: seq<Param>)
    requires ps != [] && Unmapped !in ps
    requires Tokens(operation).Some? && Holes(Tokens(operation).value) == |ps| && '?' !in operation
    ensures
      var ts := Tokens(operation).value;
      && Prepared(operation, ps).Success?
      && var command := Prepared(operation, ps).value;
      && Holes(Merged(ts)) == |ps|
      && FillMarks(command.text, command.parameters) == Some(Direct(Merged(ts), ps))
      && (FillMarks(command.text, command.parameters) == Some(Direct(ts, ps)) <==> !AdjacentPercents(ts))
  {
    var ts := Tokens(operation).value;
    FormatIsExpand(operation, Replacements(ps));
    TokensSound(operation);
    ReplacementsArePlain(ps);
    UnescapeExpand(ts, Replacements(ps));
    MergedKeepsPlain(ts, '?');
    NoMarkTokens(operation);
    FillExpand(Merged(ts), ps);
    MergedShorter(ts, ps);
  }

  lemma {:induction false} MergedKeepsPlain(ts: seq<Token>, c: char)
    ensures Plain(c) in Merged(ts) ==> Plain(c) in ts
    decreases |ts|
  {
    if ts != [] {
      if |ts| > 1 && ts[0] == Percent && ts[1] == Percent {
        MergedKeepsPlain(ts[2..], c);
      } else {
        MergedKeepsPlain(ts[1..], c);
      }
    }
  }

  lemma {:induction false} NoMarkTokens(template: string)
    requires Tokens(template).Some? && '?' !in template
    ensures Plain('?') !in Tokens(template).value
    decreases |template|
  {
    if template != "" {
      if template[0] == '%' {
        NoMarkTokens(template[2..]);
      } else {
        assert template[0] in template;
        NoMarkTokens(template[1..]);
      }
    }
  }

  /** Without parameters the % operator is skipped: the one unescape gives back every percent sign. */
  lemma {:induction false} ExecuteWithoutParameters(operation: string)
    requires Tokens(operation).Some? && Holes(Tokens(operation).value) == 0
    ensures Prepared(operation, []) == Success(Command(Expand(Tokens(operation).value, []), []))
    decreases |operation|
  {
    if operation != "" {
      if operation[0] == '%' {
        assert "%%" <= operation;
        assert Tokens(operation).value[1..] == Tokens(operation[2..]).value;
        ExecuteWithoutParameters(operation[2..]);
      } else {
        assert Tokens(operation).value[1..] == Tokens(operation[1..]).value;
        ExecuteWithoutParameters(operation[1..]);
      }
    }
  }

  function Percents(n: nat): (s: string)
    ensures |s| == n
  {
    seq(n, _ => '%')
  }

  /** The ways to fail: a value without an ADO type, whatever the template, or a template that does not fit the values. */
  lemma ExecuteFailsExactlyWhen(operation: string, ps: seq<Param>)
    ensures Prepared(operation, ps) == Failure(DataError) <==> exists i :: 0 <= i < |ps| && ps[i] == Unmapped
    ensures Prepared(operation, ps) == Failure(FormatError) <==>
              && (forall i :: 0 <= i < |ps| ==> ps[i] != Unmapped) && ps != []
              && !(Tokens(operation).Some? && Holes(Tokens(operation).value) == |ps|)
  {
    FormatIsExpand(operation, Replacements(ps));
  }

  // ---------- Templates in parts ----------

  /** What arrives at the server: the text with its marks filled. */
  function Arrives(operation: string, ps: seq<Param>): Option<seq<Piece>> {
    match Prepared(operation, ps)
    case Success(command) => FillMarks(command.text, command.parameters)
    case Failure(_) => None
  }

  /** The tokens as the driver leaves them: adjacent percent signs are merged when there are parameters. */
  function Left(ts: seq<Token>, ps: seq<Param>): seq<Token> {
    if ps == [] then ts else Merged(ts)
  }

  /** In either case what arrives is the template, as the driver leaves it, filled with the original values. */
  lemma WhatArrives(operation: string, ps: seq<Param>)
    requires Tokens(operation).Some? && Holes(Tokens(operation).value) == |ps|
    requires '?' !in operation && Unmapped !in ps
    ensures Holes(Left(Tokens(operation).value, ps)) == |ps|
    ensures Arrives(operation, ps) == Some(Direct(Left(Tokens(operation).value, ps), ps))
  {
    if ps == [] {
      ExecuteWithoutParameters(operation);
      NoMarkTokens(operation);
      FillExpand(Tokens(operation).value, []);
      assert Replacements([]) == [];
    } else {
      ExecuteKeepsMeaning(operation, ps);
    }
  }

  lemma {:induction false} TokensConcat(a: string, b: string)
    requires Tokens(a).Some? && Tokens(b).Some?
    ensures Tokens(a + b) == Some(Tokens(a).value + Tokens(b).value)
    decreases |a|
  {
    var ta, tb := Tokens(a).value, Tokens(b).value;
    if a == "" {
      assert a + b == b && ta + tb == tb;
    } else if a[0] == '%' {
      assert (a + b)[2..] == a[2..] + b;
      TokensConcat(a[2..], b);
      assert ta == [ta[0]] + Tokens(a[2..]).value;
      assert ta + tb == [ta[0]] + (Tokens(a[2..]).value + tb);
    } else {
      assert (a + b)[1..] == a[1..] + b;
      TokensConcat(a[1..], b);
      assert ta == [ta[0]] + Tokens(a[1..]).value;
      assert ta + tb == [ta[0]] + (Tokens(a[1..]).value + tb);
    }
  }

  lemma {:induction false} HolesConcat(a: seq<Token>, b: seq<Token>)
    ensures Holes(a + b) == Holes(a) + Holes(b)
    decreases |a|
  {
    if a == [] {
      assert a + b == b;
    } else {
      assert (a + b)[1..] == a[1..] + b;
      HolesConcat(a[1..], b);
    }
  }

  lemma {:induction false} DirectConcat(a: seq<Token>, b: seq<Token>, ps: seq<Param>, qs: seq<Param>)
    requires Holes(a) == |ps| && Holes(b) == |qs|
    ensures Holes(a + b) == |ps + qs|
    ensures Direct(a + b, ps + qs) == Direct(a, ps) + Direct(b, qs)
    decreases |a|
  {
    HolesConcat(a, b);
    if a == [] {
      assert a + b == b && ps + qs == qs;
      assert Direct(a, ps) == [];
    } else {
      assert (a + b)[1..] == a[1..] + b;
      if a[0] == Hole {
        assert (ps + qs)[1..] == ps[1..] + qs;
        DirectConcat(a[1..], b, ps[1..], qs);
      } else {
        DirectConcat(a[1..], b, ps, qs);
      }
    }
  }

  /** No pair of percent signs is split here. */
  predicate Apart(a: seq<Token>, b: seq<Token>) {
    a == [] || b == [] || a[|a| - 1] != Percent || b[0] != Percent
  }

  lemma {:induction false} MergedConcat(a: seq<Token>, b: seq<Token>)
    requires Apart(a, b)
    ensures Merged(a + b) == Merged(a) + Merged(b)
    decreases |a|
  {
    if a == [] {
      assert a + b == b;
    } else if |a| > 1 && a[0] == Percent && a[1] == Percent {
      assert (a + b)[2..] == a[2..] + b;
      MergedConcat(a[2..], b);
      assert [Percent] + (Merged(a[2..]) + Merged(b)) == ([Percent] + Merged(a[2..])) + Merged(b);
    } else {
      assert (a + b)[1..] == a[1..] + b;
      MergedConcat(a[1..], b);
      assert [a[0]] + (Merged(a[1..]) + Merged(b)) == ([a[0]] + Merged(a[1..])) + Merged(b);
    }
  }

  lemma LeftConcat(a: seq<Token>, b: seq<Token>, ps: seq<Param>)
    requires Apart(a, b)
    ensures Left(a + b, ps) == Left(a, ps) + Left(b, ps)
  {
    MergedConcat(a, b);
  }

  /** Three parts of a template, the middle one without holes, arrive one after the other. */
  lemma PartsArrive(before: string, middle: string, after: string, ps: seq<Param>, qs: seq<Param>)
    requires Tokens(before).Some? && Tokens(middle).Some? && Tokens(after).Some?
    requires '?' !in before && '?' !in middle && '?' !in after && Unmapped !in ps && Unmapped !in qs
    requires Holes(Tokens(before).value) == |ps| && Holes(Tokens(middle).value) == 0 && Holes(Tokens(after).value) == |qs|
    requires Apart(Tokens(before).value, Tokens(middle).value + Tokens(after).value)
    requires Apart(Tokens(middle).value, Tokens(after).value)
    ensures
      var b, m, a := Left(Tokens(before).value, ps + qs), Left(Tokens(middle).value, ps + qs), Left(Tokens(after).value, ps + qs);
      && Holes(b) == |ps| && Holes(m) == 0 && Holes(a) == |qs|
      && Arrives(before + middle + after, ps + qs) == Some(Direct(b, ps) + Direct(m, []) + Direct(a, qs))
  {
    hide Arrives, Tokens, Direct, Merged, Apart;
    var tb, tm, ta := Tokens(before).value, Tokens(middle).value, Tokens(after).value;
    var all := ps + qs;
    TokensConcat(middle, after);
    TokensConcat(before, middle + after);
    assert before + middle + after == before + (middle + after);
    HolesConcat(tm, ta);
    HolesConcat(tb, tm + ta);
    WhatArrives(before + (middle + after), all);
    LeftConcat(tb, tm + ta, all);
    LeftConcat(tm, ta, all);
    MergedHoles(tb);
    MergedHoles(tm);
    MergedHoles(ta);
    DirectConcat(Left(tm, all), Left(ta, all), [], qs);
    assert [] + qs == qs;
    DirectConcat(Left(tb, all), Left(tm, all) + Left(ta, all), ps, qs);
    assert Direct(Left(tb, all), ps) + (Direct(Left(tm, all), []) + Direct(Left(ta, all), qs))
        == Direct(Left(tb, all), ps) + Direct(Left(tm, all), []) + Direct(Left(ta, all), qs);
  }

  // ---------- Runs of percent signs ----------

  function PercentTokens(n: nat): (ts: seq<Token>)
    ensures |ts| == n
  {
    seq(n, _ => Percent)
  }

  lemma {:induction false} PercentRunTokens(n: nat)
    ensures Tokens(Percents(2 * n)) == Some(PercentTokens(n))
    decreases n
  {
    if n > 0 {
      PercentRunTokens(n - 1);
      assert Percents(2 * n)[2..] == Percents(2 * (n - 1));
      assert PercentTokens(n) == [Percent] + PercentTokens(n - 1);
    }
  }

  lemma {:induction false} MergedRun(n: nat)
    ensures Merged(PercentTokens(n)) == PercentTokens((n + 1) / 2)
    decreases n
  {
    if n > 1 {
      MergedRun(n - 2);
      assert PercentTokens(n)[2..] == PercentTokens(n - 2);
      assert PercentTokens((n + 1) / 2) == [Percent] + PercentTokens((n - 1) / 2);
    } else if n == 1 {
      assert PercentTokens(1)[1..] == [];
    }
  }

  lemma {:induction false} DirectRun(n: nat)
    ensures Holes(PercentTokens(n)) == 0
    ensures Direct(PercentTokens(n), []) == Chars(Percents(n))
    decreases n
  {
    if n > 0 {
      DirectRun(n - 1);
      assert PercentTokens(n)[1..] == PercentTokens(n - 1);
      assert Chars(Percents(n)) == [Chr('%')] + Chars(Percents(n - 1));
    }
  }

  /**
   A run of 2n percent signs that no other touches, anywhere in a template: it arrives as n without
   parameters, and as half of n, rounded up, with parameters.
   */
  lemma PercentRunArrives(before: string, n: nat, after: string, ps: seq<Param>, qs: seq<Param>)
    requires Tokens(before).Some? && Tokens(after).Some?
    requires '?' !in before && '?' !in after && Unmapped !in ps && Unmapped !in qs
    requires Holes(Tokens(before).value) == |ps| && Holes(Tokens(after).value) == |qs|
    requires Tokens(before).value == [] || Tokens(before).value[|Tokens(before).value| - 1] != Percent
    requires Tokens(after).value == [] || Tokens(after).value[0] != Percent
    ensures
      var b, a := Left(Tokens(before).value, ps + qs), Left(Tokens(after).value, ps + qs);
      && Holes(b) == |ps| && Holes(a) == |qs|
      && Arrives(before + Percents(2 * n) + after, ps + qs)
         == Some(Direct(b, ps) + Chars(Percents(if ps + qs == [] then n else (n + 1) / 2)) + Direct(a, qs))
  {
    hide Arrives, Tokens, Direct, Merged;
    PercentRunTokens(n);
    MergedRun(n);
    DirectRun(n);
    DirectRun((n + 1) / 2);
    assert '?' !in Percents(2 * n);
    PartsArrive(before, Percents(2 * n), after, ps, qs);
  }

  /** The number of question marks in the text. */
  function Marks(text: string): nat {
    if text == "" then 0 else (if text[0] == '?' then 1 else 0) + Marks(text[1..])
  }

  lemma {:induction false} FilledMarks(text: string, bound: seq<Param>)
    ensures FillMarks(text, bound).Some? <==> Marks(text) == |bound|
    decreases |text|
  {
    if text != "" {
      if text[0] == '?' {
        if bound != [] {
          FilledMarks(text[1..], bound[1..]);
        }
      } else {
        FilledMarks(text[1..], bound);
      }
    }
  }

  /** As many marks as bound parameters, for every template without a literal question mark. */
  lemma MarksMatchParameters(operation: string, ps: seq<Param>)
    requires ps != [] && '?' !in operation && Prepared(operation, ps).Success?
    ensures Marks(Prepared(operation, ps).value.text) == |Prepared(operation, ps).value.parameters|
  {
    FormatIsExpand(operation, Replacements(ps));
    ExecuteKeepsMeaning(operation, ps);
    FilledMarks(Prepared(operation, ps).value.text, Prepared(operation, ps).value.parameters);
  }
}
