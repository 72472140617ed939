/** Texts: Python's str.replace, looking for words in any case, and quoting names. */
module Strings {
  import opened Wrappers

  /** str.replace: non-overlapping occurrences from left to right. */
  function Replace(s: string, from: string, to: string): string
    requires from != ""
    decreases |s|
  {
    if s == "" then ""
    else if from <= s then to + Replace(s[|from|..], from, to)
    else [s[0]] + Replace(s[1..], from, to)
  }

  function Lower(c: char): char { if 'A' <= c <= 'Z' then c + ('a' - 'A') else c }

  /** The text begins with this lower-case word, in any case. */
  predicate StartsWith(s: string, word: string) {
    |word| <= |s| && forall i :: 0 <= i < |word| ==> Lower(s[i]) == word[i]
  }

  predicate IsQuoted(name: string) { |name| >= 1 && name[0] == '[' && name[|name| - 1] == ']' }

  /** Names that are quoted already are left alone. */
  function QuoteName(name: string): string { if IsQuoted(name) then name else "[" + name + "]" }

  /** Replacing a single character works piece by piece. */
  lemma {:induction false} ReplaceCharConcat(s: string, t: string, c: char, to: string)
    ensures Replace(s + t, [c], to) == Replace(s, [c], to) + Replace(t, [c], to)
    decreases |s|
  {
    if s == "" {
      assert s + t == t;
    } else {
      assert (s + t)[1..] == s[1..] + t;
      ReplaceCharConcat(s[1..], t, c, to);
      assert [c] <= s + t <==> [c] <= s;
    }
  }

  lemma ReplaceOneChar(d: char, c: char, to: string)
    ensures Replace([d], [c], to) == if d == c then to else [d]
  {
    assert [d][1..] == "";
    if [c] <= [d] {
      assert [c][0] == [d][0];
    }
  }

  /** The rest of the text behind a word. */
  function After(s: string, word: string): (r: Option<string>)
    requires word != ""
    ensures r.Some? ==> |r.value| < |s|
  {
    if word <= s then Some(s[|word|..]) else None
  }

  lemma AfterWord(word: string, s: string)
    requires word != ""
    ensures After(word + s, word) == Some(s)
  {
    assert (word + s)[|word|..] == s;
  }

  lemma AfterOther(s: string, word: string, i: nat)
    requires i < |word| && (i < |s| ==> s[i] != word[i])
    ensures After(s, word) == None
  {
  }
}
