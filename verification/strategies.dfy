/** The pattern strategies of the registry matcher, a guard (`CanHandle`) and a test
    (`Match`) for bracket groups, escape classes and single-rune literals, and the registry
    that dispatches among them.

    In both revisions of the matcher (cmd/mygrep/matchers.go and cmd/mygrep/main.go) the
    guards, the class and literal tests and the registry loop behave identically; they differ
    in the group test, so each revision's group strategy is its own `Matcher` kind. Guards are stated
    over the pattern's UTF-8 bytes, exactly as Go indexes a `string`, and each has a lemma
    saying what the byte test means for the pattern's runes. */
module Strategies {
  import opened Utf8
  import opened GoBytes
  import opened UnicodeTables

  /** Go's `(bool, error)` result: a verdict, or an error carrying its message. */
  datatype MatchResult = Ok(matched: bool) | Err(message: string)

  /** The strategies a registry can hold: the group matcher of the earlier revision, the
      group matcher of the current one, which also reads `[^...]`, and the class and literal
      matchers common to both. */
  datatype Matcher = PositiveGroup | NegatableGroup | CharacterClass | Literal

  /** `CharacterGroupMatcher.CanHandle`: at least three bytes, `[` first and `]` last. Read
      over runes, that is three or more runes between `[` and `]`. */
  predicate GroupCanHandle(pattern: string): (b: bool)
    ensures b <==> |pattern| >= 3 && pattern[0] == '[' && pattern[|pattern| - 1] == ']'
  {
    GroupGuardRunes(pattern);
    var e := Encode(pattern);
    |e| >= 3 && e[0] == '[' as int && e[|e| - 1] == ']' as int
  }

  /** `CharacterClassMatcher.CanHandle`: exactly two bytes, the first a backslash. Read over
      runes, a backslash followed by one ASCII character, which is then the second byte. */
  predicate ClassCanHandle(pattern: string): (b: bool)
    ensures b <==> |pattern| == 2 && pattern[0] == '\\' && pattern[1] as int < 0x80
    ensures b ==> Encode(pattern)[1] == pattern[1] as int
  {
    ClassGuardRunes(pattern);
    var e := Encode(pattern);
    |e| == 2 && e[0] == '\\' as int
  }

  /** `LiteralMatcher.CanHandle`, `utf8.RuneCountInString(pattern) == 1`: the pattern is a
      single rune. */
  predicate LiteralCanHandle(pattern: string): (b: bool)
    ensures b <==> |pattern| == 1
  {
    RuneCountEncode(pattern);
    RuneCount(Encode(pattern)) == 1
  }

  /** The interface call `CanHandle` on strategy `m`, read over runes. */
  predicate CanHandle(m: Matcher, pattern: string): (b: bool)
    ensures b <==>
      if m.PositiveGroup? || m.NegatableGroup? then
        |pattern| >= 3 && pattern[0] == '[' && pattern[|pattern| - 1] == ']'
      else if m.CharacterClass? then
        |pattern| == 2 && pattern[0] == '\\' && pattern[1] as int < 0x80
      else
        |pattern| == 1
  {
    match m
    case PositiveGroup => GroupCanHandle(pattern)
    case NegatableGroup => GroupCanHandle(pattern)
    case CharacterClass => ClassCanHandle(pattern)
    case Literal => LiteralCanHandle(pattern)
  }

  /** A pattern of two single-byte runes is two bytes long. */
  lemma EncodeTwoAscii(p: string)
    requires |p| == 2 && p[0] as int < 0x80 && p[1] as int < 0x80
    ensures Encode(p) == [p[0] as int, p[1] as int]
  {
    assert p == [p[0]] + [p[1]];
    EncodeAppend([p[0]], [p[1]]);
    assert Encode([p[0]]) == [p[0] as int];
    assert Encode([p[1]]) == [p[1] as int];
  }

  /** The first byte of an encoding is ASCII `c` exactly when the first rune is `c`. */
  lemma FirstByte(p: string, c: char)
    requires |p| > 0 && c as int < 0x80
    ensures Encode(p)[0] == c as int <==> p[0] == c
  {
    assert Encode(p) == EncodeRune(p[0]) + Encode(p[1..]);
  }

  /** The byte test of the group guard, read over runes. */
  lemma GroupGuardRunes(p: string)
    ensures var e := Encode(p);
      (|e| >= 3 && e[0] == '[' as int && e[|e| - 1] == ']' as int) <==>
      (|p| >= 3 && p[0] == '[' && p[|p| - 1] == ']')
  {
    if |p| > 0 {
      FirstByte(p, '[');
      LastByte(p);
      if |p| == 2 && p[0] == '[' && p[1] == ']' {
        EncodeTwoAscii(p);
      }
    }
  }

  /** The byte test of the class guard, read over runes. */
  lemma ClassGuardRunes(p: string)
    ensures var e := Encode(p);
      (|e| == 2 && e[0] == '\\' as int) <==> (|p| == 2 && p[0] == '\\' && p[1] as int < 0x80)
    ensures var e := Encode(p);
      |e| == 2 && e[0] == '\\' as int ==> e[1] == p[1] as int
  {
    if |p| > 0 {
      FirstByte(p, '\\');
      if p[0] == '\\' {
        var rest := p[1..];
        assert Encode(p) == [0x5C] + Encode(rest);
        if |Encode(p)| == 2 {
          assert |rest| == 1;
          assert Encode(rest) == EncodeRune(p[1]) + Encode(rest[1..]);
        }
        if |p| == 2 && p[1] as int < 0x80 {
          EncodeTwoAscii(p);
        }
      }
    }
  }

  /** No pattern satisfies two guards, so the order in which the registry consults its
      matchers never changes a result (see `Mygrep.RegistryOrderIrrelevant`). */
  lemma GuardsExclusive(p: string)
    ensures !(GroupCanHandle(p) && ClassCanHandle(p))
    ensures !(GroupCanHandle(p) && LiteralCanHandle(p))
    ensures !(ClassCanHandle(p) && LiteralCanHandle(p))
  {
  }

  /** The runes between the brackets are the bytes Go slices out with
      `pattern[1:len(pattern)-1]`. */
  lemma GroupMembers(p: string)
    requires GroupCanHandle(p)
    ensures Encode(p)[1..|Encode(p)| - 1] == Encode(p[1..|p| - 1])
  {
    DropEnds(p);
  }

  /** The positive group test, `bytes.ContainsAny(line, pattern[1:len(pattern)-1])`: some
      rune of the line is one of the runes between the brackets. This is the whole group
      matcher of the earlier revision. */
  function SetMatch(line: string, p: string): (r: MatchResult)
    requires GroupCanHandle(p)
    ensures r.Ok?
    ensures r.matched <==> exists i, j :: 0 <= i < |line| && 1 <= j < |p| - 1 && line[i] == p[j]
  {
    var members := p[1..|p| - 1];
    assert forall c :: c in members <==> exists j :: 1 <= j < |p| - 1 && c == p[j];
    Ok(ContainsAny(line, members))
  }

  /** A group pattern that the negation branch takes: `[^`, at least one more rune, `]`. */
  predicate IsNegatedGroup(p: string) {
    |p| >= 4 && p[0] == '[' && p[1] == '^' && p[|p| - 1] == ']'
  }

  /** A leading ASCII rune is a single leading byte. */
  lemma EncodeAsciiCons(c: char, s: string)
    requires c as int < 0x80
    ensures Encode([c] + s) == [c as int] + Encode(s)
  {
    assert ([c] + s)[1..] == s;
  }

  /** The bytes of a group that opens with a caret: `[`, `^`, the runes after the caret,
      `]`. */
  lemma CaretGroupBytes(p: string)
    requires |p| >= 3 && p[0] == '[' && p[1] == '^' && p[|p| - 1] == ']'
    ensures Encode(p) == [0x5B] + ([0x5E] + (Encode(p[2..|p| - 1]) + [0x5D]))
  {
    var mid := p[2..|p| - 1];
    var rest := mid + [']'];
    assert p == ['['] + (['^'] + rest);
    EncodeAsciiCons('[', ['^'] + rest);
    EncodeAsciiCons('^', rest);
    EncodeAppend(mid, [']']);
    EncodeAsciiCons(']', []);
  }

  /** The byte test `len(pattern) >= 4 && pattern[1] == '^'`, read over runes, for a
      pattern the group guard accepted; the bytes Go slices out with
      `pattern[2:len(pattern)-1]` are then the runes after the caret. */
  lemma NegationTestRunes(p: string)
    requires GroupCanHandle(p)
    ensures (|Encode(p)| >= 4 && Encode(p)[1] == '^' as int) <==> IsNegatedGroup(p)
    ensures IsNegatedGroup(p) ==> Encode(p)[2..|Encode(p)| - 1] == Encode(p[2..|p| - 1])
  {
    var e := Encode(p);
    if p[1] == '^' {
      CaretGroupBytes(p);
      var mid := Encode(p[2..|p| - 1]);
      assert |e| == |mid| + 3;
      assert |mid| == 0 <==> |p| == 3;
      assert e[1] == 0x5E;
      assert e[2..|e| - 1] == mid;
    } else {
      var tail := p[1..];
      assert e == EncodeRune(p[0]) + Encode(tail);
      assert e[1] == Encode(tail)[0];
      FirstByte(tail, '^');
    }
  }

  /** The group matcher of the current revision. A negated group matches when some rune of
      the line is outside the runes after the caret; any other group, `[^]` included, is the
      positive set of the runes between the brackets. */
  function GroupMatch(line: string, p: string): (r: MatchResult)
    requires GroupCanHandle(p)
    ensures r.Ok?
    ensures IsNegatedGroup(p) ==>
      (r.matched <==> exists i :: 0 <= i < |line| && line[i] !in p[2..|p| - 1])
    ensures !IsNegatedGroup(p) ==>
      (r.matched <==> exists i, j :: 0 <= i < |line| && 1 <= j < |p| - 1 && line[i] == p[j])
  {
    var b := Encode(p);
    NegationTestRunes(p);
    if |b| >= 4 && b[1] == '^' as int then
      var excluded := p[2..|p| - 1];
      Ok(IndexFunc(line, c => !ContainsRune(excluded, c)) >= 0)
    else
      SetMatch(line, p)
  }

  /** `CharacterClassMatcher.Match`: switch on the pattern's second byte; `d` asks for a
      digit, `w` for a letter, digit or underscore, anything else matches nothing. */
  function ClassMatch(t: Tables, line: string, p: string): (r: MatchResult)
    requires |Encode(p)| >= 2
    ensures r.Ok?
    ensures Encode(p)[1] == 'd' as int ==>
      (r.matched <==> exists i :: 0 <= i < |line| && t.isDigit(line[i]))
    ensures Encode(p)[1] == 'w' as int ==>
      (r.matched <==> exists i :: 0 <= i < |line| && IsWordRune(t, line[i]))
    ensures Encode(p)[1] != 'd' as int && Encode(p)[1] != 'w' as int ==> !r.matched
  {
    var second := Encode(p)[1];
    if second == 'd' as int then Ok(ContainsFunc(line, t.isDigit))
    else if second == 'w' as int then Ok(ContainsFunc(line, c => IsWordRune(t, c)))
    else Ok(false)
  }

  /** A one-rune string occurs in a line exactly where the line holds that rune. */
  lemma SingleRuneOccurrence(line: string, p: string)
    ensures |p| == 1 ==> ((exists i :: OccursAt(line, p, i)) <==> p[0] in line)
  {
    if |p| == 1 {
      forall i | 0 <= i < |line|
        ensures OccursAt(line, p, i) <==> line[i] == p[0]
      {
        assert line[i..i + 1] == [line[i]];
      }
    }
  }

  /** `LiteralMatcher.Match`, `bytes.Contains(line, []byte(pattern))`: the pattern's bytes
      occur in the line's, which on well-formed text means its runes occur there in a row. */
  function LiteralMatch(line: string, p: string): (r: MatchResult)
    ensures r.Ok?
    ensures r.matched <==> exists i :: OccursAt(line, p, i)
    ensures |p| == 1 ==> (r.matched <==> p[0] in line)
  {
    ContainsIsRuneSubstring(line, p);
    SingleRuneOccurrence(line, p);
    Ok(Contains(Encode(line), Encode(p)))
  }

  /** `Match` of strategy `m`; the registry calls it only once `m`'s guard has accepted. */
  function Run(m: Matcher, t: Tables, line: string, p: string): (r: MatchResult)
    requires CanHandle(m, p)
    ensures r.Ok?
  {
    match m
    case PositiveGroup => SetMatch(line, p)
    case NegatableGroup => GroupMatch(line, p)
    case CharacterClass => ClassMatch(t, line, p)
    case Literal => LiteralMatch(line, p)
  }

  /** `PatternMatcherRegistry.Match`: the first strategy whose guard accepts decides; when
      none accepts, the answer is no match. No path reports an error. */
  function RegistryMatch(ms: seq<Matcher>, t: Tables, line: string, p: string): (r: MatchResult)
    ensures r.Ok?
    ensures (forall j :: 0 <= j < |ms| ==> !CanHandle(ms[j], p)) ==> r == Ok(false)
    ensures forall k ::
      (0 <= k < |ms| && CanHandle(ms[k], p) && forall j :: 0 <= j < k ==> !CanHandle(ms[j], p))
      ==> r == Run(ms[k], t, line, p)
  {
    var k := IndexFunc(ms, m => CanHandle(m, p));
    assert forall i :: 0 <= i < |ms| ==> ((m => CanHandle(m, p))(ms[i]) <==> CanHandle(ms[i], p));
    if k < 0 then Ok(false) else Run(ms[k], t, line, p)
  }
}
