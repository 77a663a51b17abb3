/** The earlier revision of the registry matcher (cmd/mygrep/matchers.go): a bracket group
    is always a positive set, so `[^xyz]` lists `^` as one more member. */
module Matchers {
  import opened UnicodeTables
  import opened Strategies

  /** `NewPatternMatcherRegistry`: the group, class and literal strategies, consulted in
      that order. No pattern is accepted by two of them. */
  function NewRegistry(): (ms: seq<Matcher>)
    ensures |ms| == 3 && ms[0] == PositiveGroup && ms[1] == CharacterClass && ms[2] == Literal
    ensures forall p: string, i, j ::
      0 <= i < j < |ms| && CanHandle(ms[i], p) ==> !CanHandle(ms[j], p)
  {
    [PositiveGroup, CharacterClass, Literal]
  }

  /** A registry from `NewPatternMatcherRegistry` asked to match `p` against `line`. */
  function MatchPattern(t: Tables, line: string, p: string): (r: MatchResult)
    ensures r.Ok?
    ensures GroupCanHandle(p) ==> r == SetMatch(line, p)
    ensures ClassCanHandle(p) ==> r == ClassMatch(t, line, p)
    ensures LiteralCanHandle(p) ==> r == LiteralMatch(line, p)
    ensures !GroupCanHandle(p) && !ClassCanHandle(p) && !LiteralCanHandle(p) ==> r == Ok(false)
  {
    RegistryMatch(NewRegistry(), t, line, p)
  }

  /** What this revision accepts, stated over runes with no reference to bytes or to the
      registry: a bracketed set, `\d`, `\w`, or a single rune; nothing else matches. */
  ghost predicate Accepts(t: Tables, line: string, p: string) {
    if |p| >= 3 && p[0] == '[' && p[|p| - 1] == ']' then
      exists i, j :: 0 <= i < |line| && 1 <= j < |p| - 1 && line[i] == p[j]
    else if p == "\\d" then
      exists i :: 0 <= i < |line| && t.isDigit(line[i])
    else if p == "\\w" then
      exists i :: 0 <= i < |line| && IsWordRune(t, line[i])
    else if |p| == 1 then
      p[0] in line
    else
      false
  }

  lemma MatchPatternIsAccepts(t: Tables, line: string, p: string)
    ensures MatchPattern(t, line, p) == Ok(Accepts(t, line, p))
  {
  }

  /** Every strategy looks for some position of the line, so an empty line never matches. */
  lemma EmptyLineNeverMatches(t: Tables, p: string)
    ensures MatchPattern(t, "", p) == Ok(false)
  {
    MatchPatternIsAccepts(t, "", p);
  }

  /** A plain pattern of two or more runes reaches no strategy: `ab` is not searched for. */
  lemma PlainWordsAreNotHandled(t: Tables, line: string, p: string)
    requires |p| >= 2 && p[0] != '[' && p[0] != '\\'
    ensures MatchPattern(t, line, p) == Ok(false)
  {
    MatchPatternIsAccepts(t, line, p);
  }

  /** Without negation, a leading `^` in a group is just another member: `[^xyz]` matches a
      line holding `^`, `x`, `y` or `z`. */
  lemma CaretIsAMember(t: Tables, line: string, p: string)
    requires |p| >= 3 && p[0] == '[' && p[1] == '^' && p[|p| - 1] == ']'
    ensures MatchPattern(t, line, p).matched <==> exists i :: 0 <= i < |line| && line[i] in p[1..|p| - 1]
    ensures '^' in line ==> MatchPattern(t, line, p).matched
  {
    MatchPatternIsAccepts(t, line, p);
    var members := p[1..|p| - 1];
    assert forall c :: c in members <==> exists j :: 1 <= j < |p| - 1 && c == p[j];
    assert members[0] == '^';
  }

  /** An escape other than `\d` and `\w` is handled by the class strategy and never
      matches; it is not reported as an error. */
  lemma UnknownEscapeNeverMatches(t: Tables, line: string, p: string)
    requires |p| == 2 && p[0] == '\\' && p[1] != 'd' && p[1] != 'w'
    ensures MatchPattern(t, line, p) == Ok(false)
  {
    MatchPatternIsAccepts(t, line, p);
  }

  /** Concrete single-rune patterns: a literal is searched for as is. */
  lemma LiteralExamples(t: Tables)
    ensures MatchPattern(t, "dog", "d") == Ok(true)
    ensures MatchPattern(t, "dog", "f") == Ok(false)
    ensures MatchPattern(t, "ab", "ab") == Ok(false)
  {
    MatchPatternIsAccepts(t, "dog", "d");
    MatchPatternIsAccepts(t, "dog", "f");
    MatchPatternIsAccepts(t, "ab", "ab");
  }

  /** `\d` on concrete lines, for tables that agree with Unicode on ASCII. */
  lemma DigitExamples(t: Tables)
    requires WellFormed(t)
    ensures MatchPattern(t, "123", "\\d") == Ok(true)
    ensures MatchPattern(t, "apple", "\\d") == Ok(false)
  {
    MatchPatternIsAccepts(t, "123", "\\d");
    assert t.isDigit("123"[0]);
    MatchPatternIsAccepts(t, "apple", "\\d");
  }

  /** `\w` on concrete lines, for tables that agree with Unicode on ASCII. */
  lemma WordExamples(t: Tables)
    requires WellFormed(t)
    ensures MatchPattern(t, "word", "\\w") == Ok(true)
    ensures MatchPattern(t, "$!?", "\\w") == Ok(false)
  {
    MatchPatternIsAccepts(t, "word", "\\w");
    assert t.isLetter("word"[0]);
    MatchPatternIsAccepts(t, "$!?", "\\w");
  }

  /** The ASCII-only tables meet `WellFormed`, so the examples above apply to them. */
  lemma AsciiTablesExamples()
    ensures MatchPattern(AsciiTables(), "123", "\\d") == Ok(true)
    ensures MatchPattern(AsciiTables(), "$!?", "\\w") == Ok(false)
  {
    DigitExamples(AsciiTables());
    WordExamples(AsciiTables());
  }

  /** A bracketed set on a line holding one of its members. */
  lemma GroupExampleMatches(t: Tables)
    ensures MatchPattern(t, "a", "[abcd]") == Ok(true)
  {
    MatchPatternIsAccepts(t, "a", "[abcd]");
    assert "a"[0] == "[abcd]"[1];
  }

  /** A bracketed set on a line holding none of its members. */
  lemma GroupExampleFails(t: Tables)
    ensures MatchPattern(t, "efgh", "[abcd]") == Ok(false)
  {
    MatchPatternIsAccepts(t, "efgh", "[abcd]");
    assert forall j :: 1 <= j < 5 ==> "[abcd]"[j] <= 'd';
    assert forall i :: 0 <= i < 4 ==> "efgh"[i] > 'd';
  }

  /** `[^a]` on concrete lines: the caret is a member, the `a` still counts. */
  lemma CaretExamples(t: Tables)
    ensures MatchPattern(t, "x^", "[^a]") == Ok(true)
    ensures MatchPattern(t, "bcd", "[^a]") == Ok(false)
  {
    MatchPatternIsAccepts(t, "x^", "[^a]");
    assert "x^"[1] == "[^a]"[1];
    MatchPatternIsAccepts(t, "bcd", "[^a]");
  }
}
