/** Escaping user text for LIKE, checked against a LIKE matcher. */
module Like {
  import opened Wrappers
  import opened Strings

  // ---------- T-SQL's LIKE with ESCAPE '\' ----------

  function IndexOf(p: string, c: char, from: nat): (i: nat)
    requires from <= |p|
    ensures from <= i <= |p|
    ensures i < |p| ==> p[i] == c
    decreases |p| - from
  {
    if from == |p| || p[from] == c then from else IndexOf(p, c, from + 1)
  }

  predicate InRanges(c: char, body: string)
    decreases |body|
  {
    if body == "" then false
    else if |body| >= 3 && body[1] == '-' then body[0] <= c <= body[2] || InRanges(c, body[3..])
    else c == body[0] || InRanges(c, body[1..])
  }

  /** The body of a [...] set: characters and ranges, negated by a leading ^. */
  predicate InSet(c: char, body: string) {
    if body != "" && body[0] == '^' then !InRanges(c, body[1..]) else InRanges(c, body)
  }

  /**
   s LIKE p ESCAPE '\'. A set ends at the first closing bracket; an unterminated set or a trailing
   escape character matches nothing; a closing bracket by itself is an ordinary character.
   */
  predicate Matches(s: string, p: string)
    decreases |p|, |s|
  {
    if p == "" then s == ""
    else if p[0] == '\\' then |p| > 1 && s != "" && s[0] == p[1] && Matches(s[1..], p[2..])
    else if p[0] == '%' then Matches(s, p[1..]) || (s != "" && Matches(s[1..], p))
    else if p[0] == '_' then s != "" && Matches(s[1..], p[1..])
    else if p[0] == '[' then
      var close := IndexOf(p, ']', 1);
      close < |p| && s != "" && InSet(s[0], p[1..close]) && Matches(s[1..], p[close + 1..])
    else s != "" && s[0] == p[0] && Matches(s[1..], p[1..])
  }

  /** A percent sign stands for any stretch of the subject. */
  lemma {:induction false} PercentMatches(s: string, p: string)
    ensures Matches(s, "%" + p) <==> exists k :: 0 <= k <= |s| && Matches(s[k..], p)
    decreases |s|
  {
    assert ("%" + p)[1..] == p;
    assert s[0..] == s;
    if s != "" {
      PercentMatches(s[1..], p);
      forall k | 0 <= k <= |s[1..]|
        ensures s[1..][k..] == s[k + 1..]
      {
      }
      if Matches(s[1..], "%" + p) {
        var k :| 0 <= k <= |s[1..]| && Matches(s[1..][k..], p);
        assert Matches(s[k + 1..], p);
      }
      if k :| 0 < k <= |s| && Matches(s[k..], p) {
        assert Matches(s[1..][k - 1..], p);
      }
    }
  }

  // ---------- prep_for_like_query ----------

  /** Five replaces, one after the other, each over the result of the one before. */
  function Prep(x: string): string {
    Replace(Replace(Replace(Replace(Replace(x, "\\", "\\\\"), "%", "\\%"), "_", "\\_"), "[", "\\["), "]", "\\]")
  }

  predicate IsSpecial(c: char) { c in "\\%_[]" }

  function EscapeChar(c: char): string { if IsSpecial(c) then ['\\', c] else [c] }

  function EscapeAll(x: string): string {
    if x == "" then "" else EscapeChar(x[0]) + EscapeAll(x[1..])
  }

  lemma PrepConcat(x: string, y: string)
    ensures Prep(x + y) == Prep(x) + Prep(y)
  {
    var x1, y1 := Replace(x, "\\", "\\\\"), Replace(y, "\\", "\\\\");
    var x2, y2 := Replace(x1, "%", "\\%"), Replace(y1, "%", "\\%");
    var x3, y3 := Replace(x2, "_", "\\_"), Replace(y2, "_", "\\_");
    var x4, y4 := Replace(x3, "[", "\\["), Replace(y3, "[", "\\[");
    ReplaceCharConcat(x, y, '\\', "\\\\");
    ReplaceCharConcat(x1, y1, '%', "\\%");
    ReplaceCharConcat(x2, y2, '_', "\\_");
    ReplaceCharConcat(x3, y3, '[', "\\[");
    ReplaceCharConcat(x4, y4, ']', "\\]");
  }

  lemma ReplaceTwo(d: char, e: char, c: char, to: string)
    ensures Replace([d, e], [c], to) == (if d == c then to else [d]) + (if e == c then to else [e])
  {
    assert [d, e] == [d] + [e];
    ReplaceCharConcat([d], [e], c, to);
    ReplaceOneChar(d, c, to);
    ReplaceOneChar(e, c, to);
  }

  /** Backslashes come first, so no replace touches what an earlier one put in. */
  lemma PrepChar(c: char)
    ensures Prep([c]) == EscapeChar(c)
  {
    var specials := "\\%_[]";
    ReplaceOneChar(c, '\\', "\\\\");
    ReplaceOneChar(c, '%', "\\%");
    ReplaceOneChar(c, '_', "\\_");
    ReplaceOneChar(c, '[', "\\[");
    ReplaceOneChar(c, ']', "\\]");
    ReplaceTwo('\\', c, '%', "\\%");
    ReplaceTwo('\\', c, '_', "\\_");
    ReplaceTwo('\\', c, '[', "\\[");
    ReplaceTwo('\\', c, ']', "\\]");
  }

  /** The five replaces amount to escaping character by character. */
  lemma {:induction false} PrepIsCharwise(x: string)
    ensures Prep(x) == EscapeAll(x)
    decreases |x|
  {
    if x != "" {
      assert x == [x[0]] + x[1..];
      PrepConcat([x[0]], x[1..]);
      PrepChar(x[0]);
      PrepIsCharwise(x[1..]);
    }
  }

  // ---------- What an escaped text matches ----------

  lemma {:induction false} EscapedPrefix(s: string, x: string, rest: string)
    ensures Matches(s, EscapeAll(x) + rest) <==> x <= s && Matches(s[|x|..], rest)
    decreases |x|
  {
    var p := EscapeAll(x) + rest;
    if x == "" {
      assert p == rest && s[0..] == s;
    } else {
      var tail := EscapeAll(x[1..]) + rest;
      assert p == EscapeChar(x[0]) + tail;
      assert p[|EscapeChar(x[0])|..] == tail;
      if s != "" {
        EscapedPrefix(s[1..], x[1..], rest);
        assert x <= s <==> x[0] == s[0] && x[1..] <= s[1..];
        if x <= s {
          assert s[1..][|x| - 1..] == s[|x|..];
        }
      }
    }
  }

  /** iexact: the pattern matches the text itself and nothing else. */
  lemma LikeExact(s: string, x: string)
    ensures Matches(s, Prep(x)) <==> s == x
  {
    PrepIsCharwise(x);
    EscapedPrefix(s, x, "");
    assert EscapeAll(x) + "" == EscapeAll(x);
    if x <= s && Matches(s[|x|..], "") {
      assert s == x + s[|x|..];
    }
  }

  /** startswith: a percent sign on the right. */
  lemma LikePrefix(s: string, x: string)
    ensures Matches(s, Prep(x) + "%") <==> x <= s
  {
    PrepIsCharwise(x);
    EscapedPrefix(s, x, "%");
    if x <= s {
      var rest := s[|x|..];
      PercentMatches(rest, "");
      assert "%" + "" == "%";
      assert Matches(rest[|rest|..], "");
    }
  }

  predicate IsSuffix(x: string, s: string) {
    |x| <= |s| && s[|s| - |x|..] == x
  }

  /** endswith: a percent sign on the left. */
  lemma LikeSuffix(s: string, x: string)
    ensures Matches(s, "%" + Prep(x)) <==> IsSuffix(x, s)
  {
    PercentMatches(s, Prep(x));
    forall k | 0 <= k <= |s|
      ensures Matches(s[k..], Prep(x)) <==> s[k..] == x
    {
      LikeExact(s[k..], x);
    }
    if IsSuffix(x, s) {
      assert Matches(s[|s| - |x|..], Prep(x));
    }
  }

  predicate Contains(s: string, x: string) {
    exists k :: 0 <= k <= |s| && x <= s[k..]
  }

  /** contains: a percent sign on both sides. */
  lemma LikeSubstring(s: string, x: string)
    ensures Matches(s, "%" + Prep(x) + "%") <==> Contains(s, x)
  {
    assert "%" + Prep(x) + "%" == "%" + (Prep(x) + "%");
    PercentMatches(s, Prep(x) + "%");
    forall k | 0 <= k <= |s|
      ensures Matches(s[k..], Prep(x) + "%") <==> x <= s[k..]
    {
      LikePrefix(s[k..], x);
    }
  }

  // ---------- Escaping on the database side ----------

  /** What the three nested REPLACE calls of pattern_esc compute: brackets are left alone. */
  function DatabaseEscape(x: string): string {
    Replace(Replace(Replace(x, "\\", "\\\\"), "%", "\\%"), "_", "\\_")
  }

  function DatabaseEscapeChar(c: char): string { if c in "\\%_" then ['\\', c] else [c] }

  function DatabaseEscapeAll(x: string): string {
    if x == "" then "" else DatabaseEscapeChar(x[0]) + DatabaseEscapeAll(x[1..])
  }

  lemma {:induction false} DatabaseEscapeIsCharwise(x: string)
    ensures DatabaseEscape(x) == DatabaseEscapeAll(x)
    decreases |x|
  {
    if x != "" {
      var c, r := x[0], x[1..];
      assert x == [c] + r;
      var r1 := Replace(r, "\\", "\\\\");
      var r2 := Replace(r1, "%", "\\%");
      var c1 := Replace([c], "\\", "\\\\");
      var c2 := Replace(c1, "%", "\\%");
      ReplaceCharConcat([c], r, '\\', "\\\\");
      ReplaceCharConcat(c1, r1, '%', "\\%");
      ReplaceCharConcat(c2, r2, '_', "\\_");
      DatabaseEscapeOneChar(c);
      DatabaseEscapeIsCharwise(r);
    }
  }

  lemma DatabaseEscapeOneChar(c: char)
    ensures DatabaseEscape([c]) == DatabaseEscapeChar(c)
  {
    ReplaceOneChar(c, '\\', "\\\\");
    ReplaceOneChar(c, '%', "\\%");
    ReplaceOneChar(c, '_', "\\_");
    ReplaceTwo('\\', c, '%', "\\%");
    ReplaceTwo('\\', c, '_', "\\_");
  }

  lemma {:induction false} DatabasePrefix(s: string, x: string, rest: string)
    requires '[' !in x
    ensures Matches(s, DatabaseEscapeAll(x) + rest) <==> x <= s && Matches(s[|x|..], rest)
    decreases |x|
  {
    var p := DatabaseEscapeAll(x) + rest;
    if x == "" {
      assert p == rest && s[0..] == s;
    } else {
      assert x[0] in x;
      var tail := DatabaseEscapeAll(x[1..]) + rest;
      assert p == DatabaseEscapeChar(x[0]) + tail;
      assert p[|DatabaseEscapeChar(x[0])|..] == tail;
      if s != "" {
        DatabasePrefix(s[1..], x[1..], rest);
        assert x <= s <==> x[0] == s[0] && x[1..] <= s[1..];
        if x <= s {
          assert s[1..][|x| - 1..] == s[|x|..];
        }
      }
    }
  }

  /** Escaped on the database side, a text matches no subject longer than itself, and none as long once a bracket opens a set. */
  lemma {:induction false} DatabaseMatchLength(s: string, x: string)
    ensures Matches(s, DatabaseEscapeAll(x)) ==> |s| <= |x| && ('[' in x ==> |s| < |x|)
    decreases |x|
  {
    if x != "" {
      var c, r := x[0], x[1..];
      var p := DatabaseEscapeAll(x);
      assert p[|DatabaseEscapeChar(c)|..] == DatabaseEscapeAll(r);
      assert c == '[' || '[' in x <==> c == '[' || '[' in r;
      if Matches(s, p) {
        if c == '[' {
          var close := IndexOf(p, ']', 1);
          ClosingBracket(r, close - 1);
          var k := Unescaped(r, close - 1);
          assert p[close + 1..] == DatabaseEscapeAll(r)[close..];
          DatabaseMatchLength(s[1..], r[k + 1..]);
        } else {
          DatabaseMatchLength(s[1..], r);
        }
      }
    }
  }

  /** The position in the text whose escape starts at, or covers, position i of the escaped text. */
  function Unescaped(x: string, i: nat): (k: nat)
    requires i < |DatabaseEscapeAll(x)|
    ensures k < |x|
    decreases |x|
  {
    if i < |DatabaseEscapeChar(x[0])| then 0
    else 1 + Unescaped(x[1..], i - |DatabaseEscapeChar(x[0])|)
  }

  /** A closing bracket in the escaped text comes from one in the text, and what follows is the escape of what follows. */
  lemma {:induction false} ClosingBracket(x: string, i: nat)
    requires i < |DatabaseEscapeAll(x)| && DatabaseEscapeAll(x)[i] == ']'
    ensures DatabaseEscapeAll(x)[i + 1..] == DatabaseEscapeAll(x[Unescaped(x, i) + 1..])
    decreases |x|
  {
    var n := |DatabaseEscapeChar(x[0])|;
    var p := DatabaseEscapeAll(x);
    assert p[n..] == DatabaseEscapeAll(x[1..]);
    if i < n {
      assert n == 1 && p[i + 1..] == p[n..];
    } else {
      ClosingBracket(x[1..], i - n);
      assert p[i + 1..] == p[n..][i - n + 1..];
      assert x[1..][Unescaped(x[1..], i - n) + 1..] == x[Unescaped(x, i) + 1..];
    }
  }

  /** Both ways of escaping match the same subjects exactly when the text has no opening bracket. */
  lemma EscapesAgreeExactlyWithoutBracket(x: string)
    ensures (forall s :: Matches(s, DatabaseEscape(x)) <==> Matches(s, Prep(x))) <==> '[' !in x
  {
    DatabaseEscapeIsCharwise(x);
    forall s
      ensures Matches(s, Prep(x)) <==> s == x
    {
      LikeExact(s, x);
    }
    if '[' in x {
      DatabaseMatchLength(x, x);
      assert !Matches(x, DatabaseEscape(x)) && Matches(x, Prep(x));
    } else {
      forall s
        ensures Matches(s, DatabaseEscape(x)) <==> s == x
      {
        DatabasePrefix(s, x, "");
        assert DatabaseEscapeAll(x) + "" == DatabaseEscapeAll(x);
        if x <= s && Matches(s[|x|..], "") {
          assert s == x + s[|x|..];
        }
      }
    }
  }

  // ---------- With percent signs around ----------

  lemma IndexFound(p: string, c: char, from: nat)
    requires from <= |p|
    ensures forall k :: from <= k < IndexOf(p, c, from) ==> p[k] != c
    decreases |p| - from
  {
    if from < |p| && p[from] != c {
      IndexFound(p, c, from + 1);
    }
  }

  lemma NotFoundBeyond(p: string, rest: string, i: nat)
    requires ']' !in rest && |p| <= i < |p + rest|
    ensures (p + rest)[i] != ']'
  {
    assert (p + rest)[i] == rest[i - |p|] && rest[i - |p|] in rest;
  }

  /** What cannot close a set may be appended without moving the end of any set. */
  lemma SameClosing(p: string, rest: string)
    requires p != "" && ']' !in rest
    ensures
      var close := IndexOf(p, ']', 1);
      var close' := IndexOf(p + rest, ']', 1);
      if close < |p| then close' == close else close' == |p + rest|
  {
    IndexFound(p, ']', 1);
    IndexFound(p + rest, ']', 1);
    var close, close' := IndexOf(p, ']', 1), IndexOf(p + rest, ']', 1);
    if close < |p| {
      assert (p + rest)[close] == ']';
    }
    if |p| <= close' < |p + rest| {
      NotFoundBeyond(p, rest, close');
    }
  }

  ghost predicate SplitsAt(s: string, k: int, p: string, rest: string) {
    0 <= k <= |s| && Matches(s[..k], p) && Matches(s[k..], rest)
  }

  lemma Prepended(c: char, s: string, k: nat, p: string, rest: string)
    requires s != "" && s[0] == c && k <= |s[1..]|
    ensures s[..k + 1] == [c] + s[1..][..k] && s[k + 1..] == s[1..][k..]
    ensures s[..k + 1][1..] == s[1..][..k]
  {
  }

  /** A subject matches the escaped text and what follows it exactly when it can be cut in two that match. */
  lemma {:induction false} DatabaseSplit(s: string, x: string, rest: string)
    requires ']' !in rest
    ensures Matches(s, DatabaseEscapeAll(x) + rest) <==> exists k :: SplitsAt(s, k, DatabaseEscapeAll(x), rest)
    decreases |x|
  {
    hide SplitsAt;
    if x == "" {
      assert DatabaseEscapeAll(x) + rest == rest;
      SplitOfNothing(s, rest);
    } else if s == "" {
      SplitOfEmptySubject(x, rest);
    } else {
      var r := RestOfPattern(s[0], x);
      EscapeStep(s, x, rest, r);
      if r.Some? {
        DatabaseSplit(s[1..], r.value, rest);
      }
      SplitStep(s, x, rest, r);
    }
  }

  lemma SplitOfNothing(s: string, rest: string)
    ensures Matches(s, rest) <==> exists k :: SplitsAt(s, k, "", rest)
  {
    assert s[..0] == "" && s[0..] == s;
    if Matches(s, rest) {
      assert SplitsAt(s, 0, "", rest);
    }
    if k :| SplitsAt(s, k, "", rest) {
      assert s[..k] == "";
      assert k == 0;
    }
  }

  lemma SplitOfEmptySubject(x: string, rest: string)
    requires x != ""
    ensures !Matches("", DatabaseEscapeAll(x) + rest)
    ensures !exists k :: SplitsAt("", k, DatabaseEscapeAll(x), rest)
  {
    assert (DatabaseEscapeAll(x) + rest)[0] == DatabaseEscapeAll(x)[0];
    assert DatabaseEscapeAll(x)[0] == DatabaseEscapeChar(x[0])[0] != '%';
    assert !Matches("", DatabaseEscapeAll(x));
    forall k: int
      ensures !SplitsAt("", k, DatabaseEscapeAll(x), rest)
    {
      if 0 <= k <= |""| {
        assert ""[..k] == "";
      }
    }
  }

  /** The text that is left to be matched after the subject's first character, if that character matches at all. */
  function RestOfPattern(c: char, x: string): (r: Option<string>)
    requires x != ""
    ensures r.Some? ==> |r.value| < |x|
  {
    if x[0] == '[' then
      var p := DatabaseEscapeAll(x);
      var close := IndexOf(p, ']', 1);
      if close < |p| && InSet(c, p[1..close]) then Some(x[Unescaped(x, close) + 1..]) else None
    else if x[0] == c then Some(x[1..])
    else None
  }

  lemma EscapeStep(s: string, x: string, rest: string, r: Option<string>)
    requires s != "" && x != "" && ']' !in rest && r == RestOfPattern(s[0], x)
    ensures Matches(s, DatabaseEscapeAll(x) + rest) <==> r.Some? && Matches(s[1..], DatabaseEscapeAll(r.value) + rest)
  {
    if x[0] == '[' {
      SetStep(s, x, rest, r);
    } else {
      CharacterStep(s, x, rest);
    }
  }

  lemma EscapedMatch(s: string, c: char, tail: string)
    ensures Matches(s, ['\\', c] + tail) <==> s != "" && s[0] == c && Matches(s[1..], tail)
  {
    assert (['\\', c] + tail)[2..] == tail;
  }

  lemma OrdinaryMatch(s: string, c: char, tail: string)
    requires c !in "\\%_["
    ensures Matches(s, [c] + tail) <==> s != "" && s[0] == c && Matches(s[1..], tail)
  {
    assert ([c] + tail)[1..] == tail;
  }

  lemma SetMatch(s: string, p: string)
    requires s != "" && p != "" && p[0] == '['
    ensures
      var close := IndexOf(p, ']', 1);
      Matches(s, p) <==> close < |p| && InSet(s[0], p[1..close]) && Matches(s[1..], p[close + 1..])
  {
  }

  lemma CharacterStep(s: string, x: string, rest: string)
    requires s != "" && x != "" && x[0] != '['
    ensures Matches(s, DatabaseEscapeAll(x) + rest) <==> s[0] == x[0] && Matches(s[1..], DatabaseEscapeAll(x[1..]) + rest)
  {
    hide Matches;
    var tail := DatabaseEscapeAll(x[1..]) + rest;
    assert DatabaseEscapeAll(x) + rest == DatabaseEscapeChar(x[0]) + tail;
    EscapedMatch(s, x[0], tail);
    if x[0] !in "\\%_[" {
      OrdinaryMatch(s, x[0], tail);
    }
  }

  lemma SetStep(s: string, x: string, rest: string, r: Option<string>)
    requires s != "" && x != "" && x[0] == '[' && ']' !in rest && r == RestOfPattern(s[0], x)
    ensures Matches(s, DatabaseEscapeAll(x) + rest) <==> r.Some? && Matches(s[1..], DatabaseEscapeAll(r.value) + rest)
  {
    hide Matches;
    var p := DatabaseEscapeAll(x);
    var close := IndexOf(p, ']', 1);
    SameClosing(p, rest);
    assert p[0] == '[' && (p + rest)[0] == '[';
    SetMatch(s, p + rest);
    if close < |p| {
      ClosingBracket(x, close);
      assert (p + rest)[close + 1..] == p[close + 1..] + rest;
      assert (p + rest)[1..close] == p[1..close];
    }
  }

  /** Cutting after the first character corresponds to cutting the rest of the subject. */
  lemma CutBehind(s: string, x: string, rest: string, r: Option<string>, k: int)
    requires s != "" && x != "" && r == RestOfPattern(s[0], x) && 0 < k <= |s|
    ensures SplitsAt(s, k, DatabaseEscapeAll(x), rest)
       <==> r.Some? && SplitsAt(s[1..], k - 1, DatabaseEscapeAll(r.value), rest)
  {
    hide Matches;
    Prepended(s[0], s, k - 1, DatabaseEscapeAll(x), rest);
    EscapeStep(s[..k], x, "", r);
    assert DatabaseEscapeAll(x) + "" == DatabaseEscapeAll(x);
    if r.Some? { assert DatabaseEscapeAll(r.value) + "" == DatabaseEscapeAll(r.value); }
  }

  lemma SplitStep(s: string, x: string, rest: string, r: Option<string>)
    requires s != "" && x != "" && r == RestOfPattern(s[0], x)
    ensures (exists k :: SplitsAt(s, k, DatabaseEscapeAll(x), rest))
       <==> r.Some? && exists k :: SplitsAt(s[1..], k, DatabaseEscapeAll(r.value), rest)
  {
    if k :| SplitsAt(s, k, DatabaseEscapeAll(x), rest) {
      NoCutAtStart(s, x, rest);
      CutBehind(s, x, rest, r, k);
    }
    if r.Some? {
      SplitBack(s, x, rest, r.value);
    }
  }

  lemma NoCutAtStart(s: string, x: string, rest: string)
    requires x != ""
    ensures !SplitsAt(s, 0, DatabaseEscapeAll(x), rest)
  {
    EmptySubject(x);
    assert s[..0] == "";
  }

  lemma SplitBack(s: string, x: string, rest: string, y: string)
    requires s != "" && x != "" && Some(y) == RestOfPattern(s[0], x)
    ensures (exists k :: SplitsAt(s[1..], k, DatabaseEscapeAll(y), rest)) ==>
              exists k :: SplitsAt(s, k, DatabaseEscapeAll(x), rest)
  {
    if k :| SplitsAt(s[1..], k, DatabaseEscapeAll(y), rest) {
      CutBehind(s, x, rest, Some(y), k + 1);
      assert SplitsAt(s, k + 1, DatabaseEscapeAll(x), rest);
    }
  }

  lemma EmptySubject(x: string)
    requires x != ""
    ensures !Matches("", DatabaseEscapeAll(x))
  {
    SplitOfEmptySubject(x, "");
    assert DatabaseEscapeAll(x) + "" == DatabaseEscapeAll(x);
  }

  lemma PercentMatchesAnything(s: string)
    ensures Matches(s, "%")
  {
    PercentMatches(s, "");
    assert s[|s|..] == "";
    assert "%" + "" == "%";
  }

  /** A shorter stretch of the subject takes its place when a bracket is in the text. */
  lemma ShorterMatch(s: string, x: string)
    requires '[' in x && Matches(s, DatabaseEscapeAll(x) + "%") && |s| <= |x|
    ensures exists k :: 0 <= k <= |s| && k < |x| && Matches(s[..k], DatabaseEscapeAll(x))
  {
    DatabaseSplit(s, x, "%");
    var k :| SplitsAt(s, k, DatabaseEscapeAll(x), "%");
    DatabaseMatchLength(s[..k], x);
  }

  lemma MatchesAlso(s: string, x: string)
    requires Matches(s, DatabaseEscapeAll(x))
    ensures Matches(s, DatabaseEscapeAll(x) + "%")
  {
    DatabaseSplit(s, x, "%");
    assert s[..|s|] == s;
    PercentMatchesAnything(s[|s|..]);
    assert SplitsAt(s, |s|, DatabaseEscapeAll(x), "%");
  }

  /** startswith: both ways of escaping find the same subjects exactly when the text has no opening bracket. */
  lemma EscapesAgreeOnPrefixes(x: string)
    ensures (forall s :: Matches(s, DatabaseEscape(x) + "%") <==> Matches(s, Prep(x) + "%")) <==> '[' !in x
  {
    hide Matches;
    DatabaseEscapeIsCharwise(x);
    forall s
      ensures Matches(s, Prep(x) + "%") <==> x <= s
    {
      LikePrefix(s, x);
    }
    if '[' !in x {
      forall s
        ensures Matches(s, DatabaseEscape(x) + "%") <==> x <= s
      {
        DatabasePrefix(s, x, "%");
        if x <= s { PercentMatchesAnything(s[|x|..]); }
      }
    } else {
      var s := PrefixToldApart(x);
      assert Matches(s, DatabaseEscape(x) + "%") != Matches(s, Prep(x) + "%");
    }
  }

  lemma PrefixToldApart(x: string) returns (s: string)
    requires '[' in x
    ensures Matches(s, DatabaseEscapeAll(x) + "%") != (x <= s)
  {
    s := x;
    if Matches(x, DatabaseEscapeAll(x) + "%") {
      ShorterMatch(x, x);
      var k :| 0 <= k <= |x| && k < |x| && Matches(x[..k], DatabaseEscapeAll(x));
      s := x[..k];
      MatchesAlso(s, x);
    }
  }

  /** endswith: likewise. */
  lemma EscapesAgreeOnSuffixes(x: string)
    ensures (forall s :: Matches(s, "%" + DatabaseEscape(x)) <==> Matches(s, "%" + Prep(x))) <==> '[' !in x
  {
    hide Matches;
    DatabaseEscapeIsCharwise(x);
    forall s
      ensures Matches(s, "%" + Prep(x)) <==> IsSuffix(x, s)
    {
      LikeSuffix(s, x);
    }
    if '[' !in x {
      forall s
        ensures Matches(s, "%" + DatabaseEscape(x)) <==> Matches(s, "%" + Prep(x))
      {
        EscapesAgreeExactlyWithoutBracket(x);
        PercentMatches(s, DatabaseEscape(x));
        PercentMatches(s, Prep(x));
      }
    } else {
      var s := SuffixToldApart(x);
      assert Matches(s, "%" + DatabaseEscape(x)) != Matches(s, "%" + Prep(x));
    }
  }

  lemma SuffixToldApart(x: string) returns (s: string)
    requires '[' in x
    ensures Matches(s, "%" + DatabaseEscapeAll(x)) != IsSuffix(x, s)
  {
    s := x;
    PercentMatches(x, DatabaseEscapeAll(x));
    if Matches(x, "%" + DatabaseEscapeAll(x)) {
      var k :| 0 <= k <= |x| && Matches(x[k..], DatabaseEscapeAll(x));
      DatabaseMatchLength(x[k..], x);
      s := x[k..];
      PercentMatches(s, DatabaseEscapeAll(x));
      assert s[0..] == s;
    }
  }

  /** contains: likewise. */
  lemma EscapesAgreeOnSubstrings(x: string)
    ensures (forall s :: Matches(s, "%" + DatabaseEscape(x) + "%") <==> Matches(s, "%" + Prep(x) + "%")) <==> '[' !in x
  {
    hide Matches, Contains;
    DatabaseEscapeIsCharwise(x);
    assert "%" + DatabaseEscape(x) + "%" == "%" + (DatabaseEscape(x) + "%");
    assert "%" + Prep(x) + "%" == "%" + (Prep(x) + "%");
    if '[' !in x {
      forall s
        ensures Matches(s, "%" + (DatabaseEscape(x) + "%")) <==> Matches(s, "%" + (Prep(x) + "%"))
      {
        EscapesAgreeOnPrefixes(x);
        PercentMatches(s, DatabaseEscape(x) + "%");
        PercentMatches(s, Prep(x) + "%");
      }
    } else {
      var s := SubstringToldApart(x);
      LikeSubstring(s, x);
      assert Matches(s, "%" + DatabaseEscape(x) + "%") != Matches(s, "%" + Prep(x) + "%");
    }
  }

  lemma SubstringToldApart(x: string) returns (s: string)
    requires '[' in x
    ensures Matches(s, "%" + (DatabaseEscapeAll(x) + "%")) != Contains(s, x)
  {
    s := x;
    var p := DatabaseEscapeAll(x) + "%";
    PercentMatches(x, p);
    assert Contains(x, x) by { assert x <= x[0..]; }
    if Matches(x, "%" + p) {
      var k :| 0 <= k <= |x| && Matches(x[k..], p);
      ShorterMatch(x[k..], x);
      var l :| 0 <= l <= |x[k..]| && l < |x| && Matches(x[k..][..l], DatabaseEscapeAll(x));
      s := x[k..][..l];
      MatchesAlso(s, x);
      PercentMatches(s, p);
      assert s[0..] == s;
    }
  }
}
