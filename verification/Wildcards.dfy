/**
 Wildcard strings (tools/otde/matcher.py): `*` and `?` patterns are compiled to regular expressions, which Python then
 matches. `FullMatch` is Python's semantics of the expressions the compiler can emit; `Glob` says directly what a
 pattern means. Case folding is a function on characters, the identity for case-sensitive strings.
 */
module Wildcards {

  import opened Results

  type Fold = char -> char

  // ---------------------------------------------------------------------------------------------------------
  // The compiler
  // ---------------------------------------------------------------------------------------------------------

  /** The characters `re.escape` puts a backslash before. */
  predicate Special(c: char) {
    || Meta(c) || c == '-' || c == '&' || c == '~' || c == '#'
    || c == ' ' || c == '\t' || c == '\n' || c == '\r' || c == '\U{000B}' || c == '\U{000C}'
  }

  /** The characters that do not stand for themselves in an expression. */
  predicate Meta(c: char) {
    || c == '.' || c == '^' || c == '$' || c == '*' || c == '+' || c == '?' || c == '{' || c == '}'
    || c == '[' || c == ']' || c == '\\' || c == '|' || c == '(' || c == ')'
  }

  /** The characters that a backslash gives another meaning, or none. */
  predicate Alphanumeric(c: char) {
    'a' <= c <= 'z' || 'A' <= c <= 'Z' || '0' <= c <= '9'
  }

  /** `re.escape` of one character. */
  function Escape(c: char): string {
    if Special(c) then ['\\', c] else [c]
  }

  /** What one pattern character becomes. */
  function Token(c: char): string {
    if c == '*' then ".*" else if c == '?' then "." else Escape(c)
  }

  function Compile(pattern: string): string {
    if pattern == "" then "" else Token(pattern[0]) + Compile(pattern[1..])
  }

  method WildcardToRegex(pattern: string) returns (regex: string)
    ensures regex == Compile(pattern)
  {
    hide Escape, Special;
    regex := "";
    assert pattern[0..] == pattern;
    for i := 0 to |pattern|
      invariant regex + Compile(pattern[i..]) == Compile(pattern)
    {
      CompileStep(regex, pattern, i);
      regex := regex + if pattern[i] == '*' then ".*" else if pattern[i] == '?' then "." else Escape(pattern[i]);
    }
  }

  lemma CompileStep(regex: string, pattern: string, i: nat)
    requires i < |pattern|
    ensures regex + Compile(pattern[i..]) == regex + Token(pattern[i]) + Compile(pattern[i + 1..])
  {
    assert pattern[i..][1..] == pattern[i + 1..];
  }

  // ---------------------------------------------------------------------------------------------------------
  // What the expressions match
  // ---------------------------------------------------------------------------------------------------------

  /**
   The whole text matches. A dot stands for any character but a newline, `.*` for any number of them, a backslash for
   the character after it, and other characters for themselves. Expressions with any other part (an operator, a class,
   a backslash before a letter or digit) are not modelled: they match nothing here.
   */
  predicate FullMatch(fold: Fold, regex: string, text: string)
    decreases |regex| + |text|
  {
    if regex == "" then text == ""
    else if |regex| > 1 && regex[0] == '.' && regex[1] == '*' then
      FullMatch(fold, regex[2..], text)
      || (text != "" && text[0] != '\n' && FullMatch(fold, regex, text[1..]))
    else if regex[0] == '.' then text != "" && text[0] != '\n' && FullMatch(fold, regex[1..], text[1..])
    else if regex[0] == '\\' then
      && |regex| > 1 && !Alphanumeric(regex[1])
      && text != "" && fold(regex[1]) == fold(text[0]) && FullMatch(fold, regex[2..], text[1..])
    else
      !Meta(regex[0]) && text != "" && fold(regex[0]) == fold(text[0]) && FullMatch(fold, regex[1..], text[1..])
  }

  /** Some part of the text matches. */
  ghost predicate Search(fold: Fold, regex: string, text: string) {
    exists i, j :: 0 <= i <= j <= |text| && FullMatch(fold, regex, text[i..j])
  }

  // ---------------------------------------------------------------------------------------------------------
  // What the patterns mean
  // ---------------------------------------------------------------------------------------------------------

  /** `*` stands for any text, `?` for any character; with `oneLine`, for text without a newline only. */
  predicate Glob(fold: Fold, oneLine: bool, pattern: string, text: string)
    decreases |pattern| + |text|
  {
    if pattern == "" then text == ""
    else if pattern[0] == '*' then
      Glob(fold, oneLine, pattern[1..], text)
      || (text != "" && !(oneLine && text[0] == '\n') && Glob(fold, oneLine, pattern, text[1..]))
    else
      && text != ""
      && (if pattern[0] == '?' then !(oneLine && text[0] == '\n') else fold(pattern[0]) == fold(text[0]))
      && Glob(fold, oneLine, pattern[1..], text[1..])
  }

  /** What each kind of pattern character asks of a text, over any lines. */
  lemma GlobLaws(fold: Fold, c: char, pattern: string, text: string)
    ensures Glob(fold, false, "", text) <==> text == ""
    ensures Glob(fold, false, "?" + pattern, text) <==> text != "" && Glob(fold, false, pattern, text[1..])
    ensures c != '?' && c != '*' ==>
              (Glob(fold, false, [c] + pattern, text)
               <==> text != "" && fold(c) == fold(text[0]) && Glob(fold, false, pattern, text[1..]))
    ensures Glob(fold, false, "*" + pattern, text)
       <==> exists k :: 0 <= k <= |text| && Glob(fold, false, pattern, text[k..])
  {
    assert ("?" + pattern)[1..] == pattern && ([c] + pattern)[1..] == pattern && ("*" + pattern)[1..] == pattern;
    StarTakesAny(fold, "*" + pattern, text);
  }

  /** A star takes up any number of characters. */
  lemma {:induction false} StarTakesAny(fold: Fold, pattern: string, text: string)
    requires pattern != "" && pattern[0] == '*'
    ensures Glob(fold, false, pattern, text) <==> exists k :: 0 <= k <= |text| && Glob(fold, false, pattern[1..], text[k..])
    decreases |text|
  {
    assert text[0..] == text;
    if text != "" {
      StarTakesAny(fold, pattern, text[1..]);
      if k :| 0 <= k <= |text| - 1 && Glob(fold, false, pattern[1..], text[1..][k..]) {
        assert text[k + 1..] == text[1..][k..];
      }
      if k :| 0 < k <= |text| && Glob(fold, false, pattern[1..], text[k..]) {
        assert text[k..] == text[1..][k - 1..];
      }
    }
  }

  // A token is read back as the character it was made from, whatever follows it.
  lemma TokenMatches(fold: Fold, c: char, rest: string, text: string)
    requires rest == "" || rest[0] != '*'
    ensures c == '*' ==> (FullMatch(fold, Token(c) + rest, text)
              <==> FullMatch(fold, rest, text)
                   || (text != "" && text[0] != '\n' && FullMatch(fold, Token(c) + rest, text[1..])))
    ensures c == '?' ==> (FullMatch(fold, Token(c) + rest, text)
              <==> text != "" && text[0] != '\n' && FullMatch(fold, rest, text[1..]))
    ensures c != '*' && c != '?' ==> (FullMatch(fold, Token(c) + rest, text)
              <==> text != "" && fold(c) == fold(text[0]) && FullMatch(fold, rest, text[1..]))
  {
    var regex := Token(c) + rest;
    assert |Token(c)| == 2 ==> regex[2..] == rest;
    assert |Token(c)| == 1 ==> regex[1..] == rest;
  }

  lemma {:induction false} CompiledStart(pattern: string)
    ensures Compile(pattern) == "" || Compile(pattern)[0] != '*'
  {
  }

  /** Compilation preserves meaning: the expression matches what the pattern means within one line. */
  lemma {:induction false} CompiledMeaning(fold: Fold, pattern: string, text: string)
    ensures FullMatch(fold, Compile(pattern), text) <==> Glob(fold, true, pattern, text)
    decreases |pattern| + |text|
  {
    if pattern != "" {
      hide FullMatch, Token;
      var c, rest := pattern[0], pattern[1..];
      CompiledStart(rest);
      TokenMatches(fold, c, Compile(rest), text);
      if c == '*' {
        CompiledMeaning(fold, rest, text);
        if text != "" {
          CompiledMeaning(fold, pattern, text[1..]);
        }
      } else if text != "" {
        CompiledMeaning(fold, rest, text[1..]);
      }
    } else {
      assert FullMatch(fold, "", text) <==> text == "";
    }
  }

  lemma {:induction false} OneLineGlob(fold: Fold, pattern: string, text: string)
    requires '\n' !in text
    ensures Glob(fold, true, pattern, text) <==> Glob(fold, false, pattern, text)
    decreases |pattern| + |text|
  {
    if pattern != "" {
      if pattern[0] == '*' {
        OneLineGlob(fold, pattern[1..], text);
        if text != "" {
          OneLineGlob(fold, pattern, text[1..]);
        }
      } else if text != "" {
        OneLineGlob(fold, pattern[1..], text[1..]);
      }
    }
  }

  lemma {:induction false} StarMatchesLines(fold: Fold, text: string)
    ensures Glob(fold, false, "*", text)
    ensures Glob(fold, true, "*", text) <==> '\n' !in text
    decreases |text|
  {
    assert "*"[1..] == "";
    if text != "" {
      StarMatchesLines(fold, text[1..]);
      assert text == [text[0]] + text[1..];
    }
  }

  /** All patterns mean what they compile to on a text exactly when the text has no newline. */
  lemma FaithfulIffOneLine(fold: Fold, text: string)
    ensures (forall pattern :: FullMatch(fold, Compile(pattern), text) <==> Glob(fold, false, pattern, text))
       <==> '\n' !in text
  {
    hide FullMatch, Glob, Compile;
    if '\n' !in text {
      forall pattern
        ensures FullMatch(fold, Compile(pattern), text) <==> Glob(fold, false, pattern, text)
      {
        CompiledMeaning(fold, pattern, text);
        OneLineGlob(fold, pattern, text);
      }
    } else {
      CompiledMeaning(fold, "*", text);
      StarMatchesLines(fold, text);
    }
  }

  // ---------------------------------------------------------------------------------------------------------
  // Keyword search
  // ---------------------------------------------------------------------------------------------------------

  ghost predicate SomePrefix(fold: Fold, pattern: string, text: string) {
    exists k :: 0 <= k <= |text| && Glob(fold, false, pattern, text[..k])
  }

  lemma PrefixNonEmpty(text: string, k: nat)
    requires 0 < k <= |text|
    ensures text[..k] != "" && text[..k][0] == text[0] && text[..k][1..] == text[1..][..k - 1]
  {
  }

  lemma PrefixAtStar(fold: Fold, pattern: string, text: string)
    requires pattern != "" && pattern[0] == '*'
    ensures SomePrefix(fold, pattern, text)
       <==> SomePrefix(fold, pattern[1..], text) || (text != "" && SomePrefix(fold, pattern, text[1..]))
  {
    if k :| 0 <= k <= |text| && Glob(fold, false, pattern, text[..k]) {
      if k > 0 {
        PrefixNonEmpty(text, k);
      }
    }
    if text != "" {
      if k :| 0 <= k <= |text| - 1 && Glob(fold, false, pattern, text[1..][..k]) {
        PrefixNonEmpty(text, k + 1);
        assert Glob(fold, false, pattern, text[..k + 1]);
      }
    }
    if k :| 0 <= k <= |text| && Glob(fold, false, pattern[1..], text[..k]) {
      assert Glob(fold, false, pattern, text[..k]);
    }
  }

  lemma PrefixAtChar(fold: Fold, pattern: string, text: string)
    requires pattern != "" && pattern[0] != '*'
    ensures SomePrefix(fold, pattern, text)
       <==> && text != "" && (pattern[0] == '?' || fold(pattern[0]) == fold(text[0]))
            && SomePrefix(fold, pattern[1..], text[1..])
  {
    if k :| 0 <= k <= |text| && Glob(fold, false, pattern, text[..k]) {
      PrefixNonEmpty(text, k);
    }
    if text != "" && (pattern[0] == '?' || fold(pattern[0]) == fold(text[0])) {
      if k :| 0 <= k <= |text| - 1 && Glob(fold, false, pattern[1..], text[1..][..k]) {
        PrefixNonEmpty(text, k + 1);
        assert Glob(fold, false, pattern, text[..k + 1]);
      }
    }
  }

  /** A trailing star leaves any rest unmatched. */
  lemma {:induction false} ThenStar(fold: Fold, pattern: string, text: string)
    ensures Glob(fold, false, pattern + "*", text) <==> SomePrefix(fold, pattern, text)
    decreases |pattern| + |text|
  {
    if pattern == "" {
      assert pattern + "*" == "*" && text[..0] == "";
      StarMatchesLines(fold, text);
      assert Glob(fold, false, pattern, text[..0]);
    } else {
      hide SomePrefix;
      assert (pattern + "*")[1..] == pattern[1..] + "*";
      if pattern[0] == '*' {
        PrefixAtStar(fold, pattern, text);
        ThenStar(fold, pattern[1..], text);
        if text != "" {
          ThenStar(fold, pattern, text[1..]);
        }
      } else {
        PrefixAtChar(fold, pattern, text);
        if text != "" {
          ThenStar(fold, pattern[1..], text[1..]);
        }
      }
    }
  }

  /** The pattern with a star on either side. */
  function Anywhere(pattern: string): string {
    "*" + (pattern + "*")
  }

  /** A pattern between two stars matches a text exactly when the pattern matches some part of it. */
  lemma BetweenStars(fold: Fold, pattern: string, text: string)
    ensures Glob(fold, false, Anywhere(pattern), text)
       <==> exists i, j :: 0 <= i <= j <= |text| && Glob(fold, false, pattern, text[i..j])
  {
    hide Glob;
    assert Anywhere(pattern)[1..] == pattern + "*";
    StarTakesAny(fold, Anywhere(pattern), text);
    forall i | 0 <= i <= |text|
      ensures Glob(fold, false, pattern + "*", text[i..]) <==> SomePrefix(fold, pattern, text[i..])
    {
      ThenStar(fold, pattern, text[i..]);
    }
    if i :| 0 <= i <= |text| && SomePrefix(fold, pattern, text[i..]) {
      var k :| 0 <= k <= |text[i..]| && Glob(fold, false, pattern, text[i..][..k]);
      assert text[i..][..k] == text[i..i + k];
    }
    if i, j :| 0 <= i <= j <= |text| && Glob(fold, false, pattern, text[i..j]) {
      assert text[i..][..j - i] == text[i..j];
      assert SomePrefix(fold, pattern, text[i..]);
    }
  }

  /** The pattern matches some part of the text. */
  ghost predicate Within(fold: Fold, oneLine: bool, pattern: string, text: string) {
    exists i, j :: 0 <= i <= j <= |text| && Glob(fold, oneLine, pattern, text[i..j])
  }

  /** Searching with the compiled pattern finds what the pattern means within one line, anywhere in the text. */
  lemma SearchMeaning(fold: Fold, pattern: string, text: string)
    ensures Search(fold, Compile(pattern), text) <==> Within(fold, true, pattern, text)
  {
    hide FullMatch, Compile, Glob;
    forall i, j | 0 <= i <= j <= |text|
      ensures FullMatch(fold, Compile(pattern), text[i..j]) <==> Glob(fold, true, pattern, text[i..j])
    {
      CompiledMeaning(fold, pattern, text[i..j]);
    }
  }

  lemma OneLineWithin(fold: Fold, pattern: string, text: string)
    requires '\n' !in text
    ensures Within(fold, true, pattern, text) <==> Glob(fold, false, Anywhere(pattern), text)
    ensures FullMatch(fold, Compile(Anywhere(pattern)), text) <==> Glob(fold, false, Anywhere(pattern), text)
  {
    hide FullMatch, Compile, Glob, Anywhere;
    forall i, j | 0 <= i <= j <= |text|
      ensures Glob(fold, true, pattern, text[i..j]) <==> Glob(fold, false, pattern, text[i..j])
    {
      OneLineGlob(fold, pattern, text[i..j]);
    }
    BetweenStars(fold, pattern, text);
    CompiledMeaning(fold, Anywhere(pattern), text);
    OneLineGlob(fold, Anywhere(pattern), text);
  }

  lemma EmptyPatternFound(fold: Fold, text: string)
    ensures Within(fold, true, "", text)
    ensures Glob(fold, true, Anywhere(""), text) ==> '\n' !in text
  {
    assert text[0..0] == "" && Glob(fold, true, "", text[0..0]);
    assert Anywhere("") == "**";
    TwoStars(fold, text);
  }

  lemma {:induction false} TwoStars(fold: Fold, text: string)
    ensures Glob(fold, true, "**", text) ==> '\n' !in text
    decreases |text|
  {
    assert "**"[1..] == "*";
    StarMatchesLines(fold, text);
    if text != "" {
      TwoStars(fold, text[1..]);
    }
  }

  /**
   Searching with the compiled pattern is matching the whole text with the pattern between two stars, for all patterns,
   exactly on a text without a newline.
   */
  lemma SearchIsAnywhereIff(fold: Fold, text: string)
    ensures (forall pattern :: Search(fold, Compile(pattern), text) <==> FullMatch(fold, Compile(Anywhere(pattern)), text))
       <==> '\n' !in text
  {
    hide FullMatch, Compile, Glob, Anywhere, Search, Within;
    forall pattern
      ensures Search(fold, Compile(pattern), text) <==> Within(fold, true, pattern, text)
      ensures FullMatch(fold, Compile(Anywhere(pattern)), text) <==> Glob(fold, true, Anywhere(pattern), text)
      ensures '\n' !in text ==>
                (Within(fold, true, pattern, text) <==> FullMatch(fold, Compile(Anywhere(pattern)), text))
    {
      SearchMeaning(fold, pattern, text);
      CompiledMeaning(fold, Anywhere(pattern), text);
      if '\n' !in text {
        OneLineWithin(fold, pattern, text);
      }
    }
    EmptyPatternFound(fold, text);
  }

  // ---------------------------------------------------------------------------------------------------------
  // The two ways a string value is matched
  // ---------------------------------------------------------------------------------------------------------

  predicate ContainsSpecial(pattern: string) {
    '*' in pattern || '?' in pattern
  }

  function Folded(fold: Fold, s: string): (r: string)
    ensures |r| == |s| && forall i :: 0 <= i < |s| ==> r[i] == fold(s[i])
  {
    seq(|s|, i requires 0 <= i < |s| => fold(s[i]))
  }

  /** A field against a string value: a null field never matches. */
  predicate MatchString(fold: Fold, pattern: string, actual: Option<string>) {
    && actual.Some?
    && if ContainsSpecial(pattern) then FullMatch(fold, Compile(pattern), actual.value)
       else Folded(fold, actual.value) == Folded(fold, pattern)
  }

  /** A keyword: the value has to appear anywhere in the candidate. */
  ghost predicate ContainsString(fold: Fold, pattern: string, candidate: string) {
    if ContainsSpecial(pattern) then Search(fold, Compile(pattern), candidate)
    else exists i, j :: 0 <= i <= j <= |candidate| && Folded(fold, candidate)[i..j] == Folded(fold, pattern)
  }

  lemma {:induction false} PlainGlob(fold: Fold, oneLine: bool, pattern: string, text: string)
    requires !ContainsSpecial(pattern)
    ensures Glob(fold, oneLine, pattern, text) <==> Folded(fold, text) == Folded(fold, pattern)
  {
    if pattern != "" && text != "" {
      PlainGlob(fold, oneLine, pattern[1..], text[1..]);
      FoldedStep(fold, text);
      FoldedStep(fold, pattern);
    } else {
      assert |Folded(fold, text)| == |text| && |Folded(fold, pattern)| == |pattern|;
    }
  }

  lemma FoldedStep(fold: Fold, s: string)
    requires s != ""
    ensures Folded(fold, s) == [fold(s[0])] + Folded(fold, s[1..])
    ensures Folded(fold, s)[0] == fold(s[0]) && Folded(fold, s)[1..] == Folded(fold, s[1..])
  {
  }

  /**
   A null field never matches. Whichever path is taken, a value matches another field exactly when its pattern does,
   with wildcards that stay within a line; in a field of one line that is the plain meaning of the pattern.
   */
  lemma MatchStringIsGlob(fold: Fold, pattern: string, actual: Option<string>)
    ensures MatchString(fold, pattern, actual) <==> actual.Some? && Glob(fold, true, pattern, actual.value)
    ensures actual.Some? && '\n' !in actual.value ==>
              (MatchString(fold, pattern, actual) <==> Glob(fold, false, pattern, actual.value))
  {
    hide FullMatch, Compile, Glob;
    if actual.Some? {
      CompiledMeaning(fold, pattern, actual.value);
      if '\n' !in actual.value {
        OneLineGlob(fold, pattern, actual.value);
      }
      if !ContainsSpecial(pattern) {
        PlainGlob(fold, true, pattern, actual.value);
      }
    }
  }

  /**
   Whichever path is taken, a keyword is found exactly when its pattern, with wildcards that stay within a line,
   matches some part of the candidate; in a candidate of one line that is the pattern between two stars.
   */
  lemma ContainsStringIsGlob(fold: Fold, pattern: string, text: string)
    ensures ContainsString(fold, pattern, text) <==> Within(fold, true, pattern, text)
    ensures '\n' !in text ==> (ContainsString(fold, pattern, text) <==> Glob(fold, false, Anywhere(pattern), text))
  {
    hide FullMatch, Compile, Glob, Anywhere, Search;
    if '\n' !in text {
      OneLineWithin(fold, pattern, text);
    }
    if ContainsSpecial(pattern) {
      SearchMeaning(fold, pattern, text);
    } else {
      forall i, j | 0 <= i <= j <= |text|
        ensures Glob(fold, true, pattern, text[i..j]) <==> Folded(fold, text)[i..j] == Folded(fold, pattern)
      {
        PlainGlob(fold, true, pattern, text[i..j]);
        assert Folded(fold, text[i..j]) == Folded(fold, text)[i..j];
      }
    }
  }
}
