/** Inserting an OUTPUT clause into an INSERT by regular expression. */
module OutputSplice {
  import opened Wrappers
  import opened Strings

  // ---------- The regular expression ----------

  predicate IsSpace(c: char) { c in " \t\n\r" }

  predicate IsCloser(c: char) { c == ')' || c == ']' }

  function SkipSpaces(s: string): (r: string)
    ensures |r| <= |s|
  {
    if s != "" && IsSpace(s[0]) then SkipSpaces(s[1..]) else s
  }

  /** After a closing parenthesis or bracket: the rest from "values" on, "default" and white space being allowed before it. */
  function ValuesFrom(u: string): (r: Option<string>)
    ensures r.Some? ==> 6 <= |r.value| <= |u|
  {
    var w := SkipSpaces(u);
    if StartsWith(w, "values") then Some(w)
    else if StartsWith(w, "default") then
      var x := SkipSpaces(w[7..]);
      if StartsWith(x, "values") then Some(x) else None
    else None
  }

  /** Where "values" starts if the expression matches at the start of the text; 0 for no match. */
  function MatchAt(s: string): (v: nat)
    ensures v != 0 ==> v + 6 <= |s|
  {
    if s == "" || !IsCloser(s[0]) then 0
    else match ValuesFrom(s[1..])
      case Some(w) => |s| - |w|
      case None => 0
  }

  /** re.sub: every match gets the clause after its first character, and VALUES in capitals; all white space stays. */
  function Splice(s: string, clause: string): string
    decreases |s|
  {
    if s == "" then ""
    else
      var v := MatchAt(s);
      if v == 0 then [s[0]] + Splice(s[1..], clause)
      else [s[0]] + clause + s[1..v] + "VALUES" + Splice(s[v + 6..], clause)
  }

  // ---------- Taking texts apart ----------

  lemma Drop(a: string, b: string)
    ensures (a + b)[|a|..] == b && (a + b)[..|a|] == a
  {
  }

  lemma SpaceSkipped(s: string)
    ensures SkipSpaces(" " + s) == SkipSpaces(s)
  {
    Drop(" ", s);
  }

  lemma NoSpaceSkipped(s: string)
    requires s == "" || !IsSpace(s[0])
    ensures SkipSpaces(s) == s
  {
  }

  lemma WordStarts(upper: string, s: string, word: string)
    requires |upper| == |word| && forall i :: 0 <= i < |word| ==> Lower(upper[i]) == word[i]
    ensures StartsWith(upper + s, word)
  {
  }

  lemma OtherStart(s: string, word: string)
    requires s != "" && word != "" && Lower(s[0]) != word[0]
    ensures !StartsWith(s, word)
  {
  }

  lemma SpliceNoMatch(c: char, s: string, clause: string)
    requires MatchAt([c] + s) == 0
    ensures Splice([c] + s, clause) == [c] + Splice(s, clause)
  {
    hide MatchAt;
    Drop([c], s);
  }

  lemma SpliceMatch(c: char, before: string, upper: string, s: string, clause: string)
    requires |upper| == 6 && MatchAt([c] + (before + (upper + s))) == 1 + |before|
    ensures Splice([c] + (before + (upper + s)), clause) == [c] + clause + before + "VALUES" + Splice(s, clause)
  {
    hide MatchAt;
    var t := [c] + (before + (upper + s));
    assert t == ([c] + before) + (upper + s) == ([c] + before + upper) + s;
    Drop([c] + before + upper, s);
    Drop([c] + before, upper + s);
    assert t[1..1 + |before|] == before;
  }

  // ---------- Where it does not match ----------

  predicate NoClosers(s: string) { forall i :: 0 <= i < |s| ==> !IsCloser(s[i]) }

  lemma {:induction false} SpliceSkips(a: string, s: string, clause: string)
    requires NoClosers(a)
    ensures Splice(a + s, clause) == a + Splice(s, clause)
    decreases |a|
  {
    if a == "" {
      assert a + s == s && a + Splice(s, clause) == Splice(s, clause);
    } else {
      var c, r := a[0], a[1..];
      assert a == [c] + r;
      SpliceSkips(r, s, clause);
      OrdinaryCharacter(c, r + s, clause);
      Regroup([c], r, s);
      Regroup([c], r, Splice(s, clause));
    }
  }

  lemma Regroup(a: string, b: string, s: string)
    ensures (a + b) + s == a + (b + s)
  {
  }

  lemma OrdinaryCharacter(c: char, s: string, clause: string)
    requires !IsCloser(c)
    ensures Splice([c] + s, clause) == [c] + Splice(s, clause)
  {
    SpliceNoMatch(c, s, clause);
  }

  /** What follows a closer is neither "values" nor "default", and no white space comes first. */
  predicate Harmless(next: string) {
    next == "" || (!IsSpace(next[0]) && !StartsWith(next, "values") && !StartsWith(next, "default"))
  }

  lemma HarmlessStart(c: char, rest: string)
    requires !IsSpace(c) && Lower(c) != 'v' && Lower(c) != 'd'
    ensures Harmless([c] + rest)
  {
    OtherStart([c] + rest, "values");
    OtherStart([c] + rest, "default");
  }

  lemma HarmlessIsNone(s: string)
    requires Harmless(s)
    ensures SkipSpaces(s) == s && ValuesFrom(s) == None
  {
  }

  lemma CloserSkipped(c: char, s: string, clause: string)
    requires IsCloser(c) && Harmless(s)
    ensures Splice([c] + s, clause) == [c] + Splice(s, clause)
  {
    Drop([c], s);
    HarmlessIsNone(s);
    SpliceNoMatch(c, s, clause);
  }

  lemma CloserSpaceSkipped(c: char, s: string, clause: string)
    requires IsCloser(c) && Harmless(s)
    ensures Splice([c] + (" " + s), clause) == [c] + (" " + Splice(s, clause))
  {
    Drop([c], " " + s);
    SpaceSkipped(s);
    HarmlessIsNone(s);
    SpliceNoMatch(c, " " + s, clause);
    OrdinaryCharacter(' ', s, clause);
  }

  // ---------- Where it matches ----------

  lemma ValuesFound(s: string)
    ensures ValuesFrom(" " + ("VALUES" + s)) == Some("VALUES" + s)
  {
    SpaceSkipped("VALUES" + s);
    NoSpaceSkipped("VALUES" + s);
    WordStarts("VALUES", s, "values");
  }

  lemma DefaultValuesFound(s: string)
    ensures ValuesFrom(" " + ("DEFAULT" + (" " + ("VALUES" + s)))) == Some("VALUES" + s)
  {
    var rest := " " + ("VALUES" + s);
    SpaceSkipped("DEFAULT" + rest);
    NoSpaceSkipped("DEFAULT" + rest);
    WordStarts("DEFAULT", rest, "default");
    OtherStart("DEFAULT" + rest, "values");
    Drop("DEFAULT", rest);
    SpaceSkipped("VALUES" + s);
    NoSpaceSkipped("VALUES" + s);
    WordStarts("VALUES", s, "values");
  }

  lemma ValuesSpliced(c: char, s: string, clause: string)
    requires IsCloser(c)
    ensures Splice([c] + (" VALUES" + s), clause) == [c] + clause + " VALUES" + Splice(s, clause)
  {
    hide Splice, ValuesFrom;
    ValuesFound(s);
    Drop([c], " " + ("VALUES" + s));
    SpliceMatch(c, " ", "VALUES", s, clause);
    assert " " + "VALUES" == " VALUES";
    Regroup(" ", "VALUES", s);
    Regroup([c] + clause, " ", "VALUES");
  }

  lemma DefaultValuesSpliced(c: char, s: string, clause: string)
    requires IsCloser(c)
    ensures Splice([c] + (" DEFAULT VALUES" + s), clause) == [c] + clause + " DEFAULT VALUES" + Splice(s, clause)
  {
    hide Splice, ValuesFrom;
    var before := " DEFAULT ";
    DefaultValuesFound(s);
    DefaultText(s);
    Drop([c], before + ("VALUES" + s));
    SpliceMatch(c, before, "VALUES", s, clause);
    Regroup([c] + clause, before, "VALUES");
  }

  lemma DefaultText(s: string)
    ensures " DEFAULT VALUES" + s == " " + ("DEFAULT" + (" " + ("VALUES" + s))) == " DEFAULT " + ("VALUES" + s)
    ensures " DEFAULT " + "VALUES" == " DEFAULT VALUES"
  {
    Regroup(" DEFAULT ", "VALUES", s);
    Regroup(" DEFAULT", " ", "VALUES" + s);
    Regroup(" ", "DEFAULT", " " + ("VALUES" + s));
    assert " " + "DEFAULT" == " DEFAULT" && " DEFAULT" + " " == " DEFAULT ";
    assert " DEFAULT " + "VALUES" == " DEFAULT VALUES";
  }
}
