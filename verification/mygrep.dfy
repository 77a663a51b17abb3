/** The current revision of the registry matcher (cmd/mygrep/main.go), reached through
    `matchLine`. It differs from the earlier one only in the group strategy, which now reads
    `[^...]` of four or more bytes as a negated set. */
module Mygrep {
  import opened UnicodeTables
  import opened Strategies
  import Matchers

  /** `NewPatternMatcherRegistry`: the group, class and literal strategies, consulted in
      that order. No pattern is accepted by two of them. */
  function NewRegistry(): (ms: seq<Matcher>)
    ensures |ms| == 3 && ms[0] == NegatableGroup && ms[1] == CharacterClass && ms[2] == Literal
    ensures forall p: string, i, j ::
      0 <= i < j < |ms| && CanHandle(ms[i], p) ==> !CanHandle(ms[j], p)
  {
    [NegatableGroup, CharacterClass, Literal]
  }

  /** `matchLine`: a fresh registry from `NewPatternMatcherRegistry` asked to match. */
  function MatchLine(t: Tables, line: string, p: string): (r: MatchResult)
    ensures r.Ok?
    ensures GroupCanHandle(p) ==> r == GroupMatch(line, p)
    ensures ClassCanHandle(p) ==> r == ClassMatch(t, line, p)
    ensures LiteralCanHandle(p) ==> r == LiteralMatch(line, p)
    ensures !GroupCanHandle(p) && !ClassCanHandle(p) && !LiteralCanHandle(p) ==> r == Ok(false)
  {
    RegistryMatch(NewRegistry(), t, line, p)
  }

  /** What this revision accepts, over runes: a negated group, else whatever the earlier
      revision accepts. */
  ghost predicate Accepts(t: Tables, line: string, p: string) {
    if IsNegatedGroup(p) then
      exists i :: 0 <= i < |line| && line[i] !in p[2..|p| - 1]
    else
      Matchers.Accepts(t, line, p)
  }

  lemma MatchLineIsAccepts(t: Tables, line: string, p: string)
    ensures MatchLine(t, line, p) == Ok(Accepts(t, line, p))
  {
  }

  /** The two revisions give the same answer on every pattern that is not a negated group. */
  lemma RevisionsAgree(t: Tables, line: string, p: string)
    requires !IsNegatedGroup(p)
    ensures MatchLine(t, line, p) == Matchers.MatchPattern(t, line, p)
  {
    MatchLineIsAccepts(t, line, p);
    Matchers.MatchPatternIsAccepts(t, line, p);
  }

  /** The guards never overlap, so consulting the strategies in the opposite order gives
      the same answer on every line and pattern. */
  lemma RegistryOrderIrrelevant(t: Tables, line: string, p: string)
    ensures RegistryMatch([Literal, CharacterClass, NegatableGroup], t, line, p) == MatchLine(t, line, p)
  {
    GuardsExclusive(p);
  }

  /** Every strategy looks for some position of the line, so an empty line never matches. */
  lemma EmptyLineNeverMatches(t: Tables, p: string)
    ensures MatchLine(t, "", p) == Ok(false)
  {
    MatchLineIsAccepts(t, "", p);
  }

  /** A negated group matches exactly the lines with a rune it does not list, `^` and the
      brackets themselves not being listed. */
  lemma NegatedGroupSemantics(t: Tables, line: string, p: string)
    requires IsNegatedGroup(p)
    ensures MatchLine(t, line, p).matched <==>
      exists i :: 0 <= i < |line| && forall j :: 2 <= j < |p| - 1 ==> line[i] != p[j]
  {
    MatchLineIsAccepts(t, line, p);
    if MatchLine(t, line, p).matched {
      var i :| 0 <= i < |line| && line[i] !in p[2..|p| - 1];
      NotAmong(line[i], p);
    } else {
      forall i | 0 <= i < |line|
        ensures exists j :: 2 <= j < |p| - 1 && line[i] == p[j]
      {
        NotAmong(line[i], p);
      }
      assert !exists i :: 0 <= i < |line| && forall j :: 2 <= j < |p| - 1 ==> line[i] != p[j];
    }
  }

  lemma NotAmong(c: char, p: string)
    requires |p| >= 3
    ensures c !in p[2..|p| - 1] <==> forall j :: 2 <= j < |p| - 1 ==> c != p[j]
  {
    var excluded := p[2..|p| - 1];
    assert forall k :: 0 <= k < |excluded| ==> excluded[k] == p[k + 2];
  }

  /** `[^]` is three bytes, too short for the negation branch: it is the set holding `^`. */
  lemma LoneCaretIsASet(t: Tables, line: string)
    ensures MatchLine(t, line, "[^]") == Ok('^' in line)
  {
    MatchLineIsAccepts(t, line, "[^]");
    var p := "[^]";
    if '^' in line {
      var i :| 0 <= i < |line| && line[i] == '^';
      assert line[i] == p[1];
    }
  }

  /** Where the revisions part: `[^a]` on the line `a` matched before and no longer does. */
  lemma RevisionsDiffer(t: Tables)
    ensures Matchers.MatchPattern(t, "a", "[^a]") == Ok(true)
    ensures MatchLine(t, "a", "[^a]") == Ok(false)
  {
    Matchers.MatchPatternIsAccepts(t, "a", "[^a]");
    assert "a"[0] == "[^a]"[2];
    MatchLineIsAccepts(t, "a", "[^a]");
  }

  /** `[^xyz]` on a line with a rune outside the set. */
  lemma NegatedExampleMatches(t: Tables)
    ensures MatchLine(t, "apple", "[^xyz]") == Ok(true)
  {
    MatchLineIsAccepts(t, "apple", "[^xyz]");
    assert "apple"[0] !in "[^xyz]"[2..5];
  }

  /** `[^anb]` on a line made only of listed runes. */
  lemma NegatedExampleFails(t: Tables)
    ensures MatchLine(t, "banana", "[^anb]") == Ok(false)
  {
    MatchLineIsAccepts(t, "banana", "[^anb]");
    assert "[^anb]"[2..5] == "anb";
    assert forall i :: 0 <= i < 6 ==> "banana"[i] in "anb";
  }
}
