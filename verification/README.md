# Registry pattern matcher of mygrep, in Dafny

`mygrep` is a grep-like tool: it reads its input and reports whether a pattern matches it.
This project models the "strategy registry" matcher. That matcher is a list of three
strategies, each with a guard (`CanHandle`) and a test (`Match`):

- a bracket group `[...]`;
- an escape class `\d` / `\w`;
- a single-rune literal.

The registry hands the pattern to the first strategy whose guard accepts it. If no guard
accepts, the answer is no match. There are two revisions:

- `cmd/mygrep/matchers.go`, the earlier one. It has positive groups only. This is module `Matchers`.
- `cmd/mygrep/main.go`, the current one. It adds negated groups `[^...]` and the entry point
  `matchLine`. This is module `Mygrep`.

Module `Strategies` holds everything the two files make behave identically. That is the three
guards, the class test, the literal test and the registry loop: `matchers.go:28-43` and
`matchers.go:49-77` behave as `main.go:33-48` and `main.go:63-92` do. The class test is written
differently (a `default:` case in `main.go`, a return after the switch in `matchers.go`) with
the same result. `Strategies` also holds both group tests. Each revision's group matcher is its
own `Matcher` kind: `PositiveGroup` for the earlier one, `NegatableGroup` for the current one.
A revision is therefore just the registry it builds.

Modules:

- `Utf8` (utf8.dfy): the UTF-8 encoding of a `string`. Go's guards index the pattern's bytes
  (`len(pattern)`, `pattern[0]`, `pattern[1:len(pattern)-1]`). The model writes each guard over
  `Encode(pattern)`, as Go does. Lemmas then say what each byte test means for the runes.
  This module also proves that encodings are prefix-free and that they are injective through a decoder.
- `GoBytes` (gobytes.dfy): the `bytes` package searches the matchers call. These are `IndexFunc`,
  `ContainsFunc`, `ContainsRune`, `ContainsAny`, `Index` and `Contains`. It proves that byte
  containment of encodings is the same as rune-substring containment (UTF-8 self-synchronisation).
- `UnicodeTables` (unicode_tables.dfy): `unicode.IsDigit` and `unicode.IsLetter` are parameters
  (`Tables`). `WellFormed` fixes them on ASCII only.
- `Strategies` (strategies.dfy): the guards, the four tests, the `Matcher` kinds, and the
  registry dispatch `RegistryMatch`. It also proves that no pattern is accepted by two guards.
- `Matchers` (matchers.dfy) and `Mygrep` (mygrep.dfy): the registry each revision's
  `NewPatternMatcherRegistry` builds, and the call that asks it to match. Each also has a
  rune-level reference predicate `Accepts` and a lemma proving the registry computes it. They
  also hold lemmas for the observable quirks: `[^]` is the set `{^}`, `ab` is never searched
  for, unknown escapes are silently false, and the registry's order does not change a result.

A call returns `MatchResult`, which is `Ok(matched)` or `Err(message)`. This is Go's
`(bool, error)`. Every contract states that the result is `Ok`, because no path in either
revision builds an error.

## Model

| member | source | states |
|---|---|---|
| `GoBytes.IndexFunc` | cmd/mygrep/main.go:54-56 | result is -1 exactly when no element satisfies the predicate; otherwise it is the first element that does |
| `GoBytes.ContainsFunc` | cmd/mygrep/main.go:73-77 | true iff some rune of the line satisfies the predicate |
| `GoBytes.ContainsRune` | cmd/mygrep/main.go:55 | true iff the rune occurs in the string |
| `GoBytes.ContainsAny` | cmd/mygrep/main.go:60 | true iff some rune of the line is among the given runes; an empty set never matches |
| `GoBytes.Index` | cmd/mygrep/main.go:91 | byte offset of the first occurrence of the needle, or -1 exactly when it occurs nowhere |
| `GoBytes.Contains` | cmd/mygrep/main.go:91 | true iff the needle's bytes occur at some offset of the haystack |
| `GoBytes.ContainsIsRuneSubstring` | cmd/mygrep/main.go:91 | on well-formed text, byte containment of the pattern's encoding holds iff the pattern's runes occur consecutively in the line |
| `GoBytes.ByteOccurrenceIsRuneOccurrence` | cmd/mygrep/main.go:91 | a byte-level match of a non-empty encoding always starts on a rune boundary and spells the same runes |
| `Utf8.Encode` | cmd/mygrep/main.go:91 | `[]byte(pattern)`: at least one byte per rune, empty only for the empty string, and never starting with a continuation byte |
| `Utf8.RuneCount` | cmd/mygrep/main.go:87 | `utf8.RuneCountInString`: at most one rune per byte, and at least one when the bytes start with a lead byte |
| `Utf8.RuneCountEncode` | cmd/mygrep/main.go:87 | counting the runes of a pattern's bytes gives its number of runes |
| `Strategies.GroupCanHandle` | cmd/mygrep/main.go:46-48 | the group guard holds iff the pattern has at least 3 runes, starts with `[` and ends with `]` |
| `Strategies.GroupGuardRunes` | cmd/mygrep/main.go:47 | the byte test (at least 3 bytes, first byte `[`, last byte `]`) holds iff the same test holds of the runes |
| `Strategies.GroupMembers` | cmd/mygrep/main.go:59 | for a pattern the guard accepts, the byte slice `pattern[1:len-1]` encodes exactly the runes between the brackets |
| `Strategies.SetMatch` | cmd/mygrep/matchers.go:45-47 | positive group: never an error, and true iff some rune of the line equals some rune strictly between the brackets |
| `Strategies.ClassCanHandle` | cmd/mygrep/main.go:66-68 | the class guard holds iff the pattern is a backslash followed by one ASCII rune, which is then the second byte |
| `Strategies.ClassGuardRunes` | cmd/mygrep/main.go:67 | the byte test (exactly 2 bytes, first a backslash) holds iff the runes are a backslash and one ASCII rune; the second byte is then that rune |
| `Strategies.ClassMatch` | cmd/mygrep/main.go:70-81 | never an error; second byte `d`: true iff some rune is a digit; `w`: true iff some rune is a letter, a digit or `_`; any other byte: false |
| `Strategies.LiteralCanHandle` | cmd/mygrep/main.go:86-88 | the literal guard, `utf8.RuneCountInString(pattern) == 1`, holds iff the pattern is exactly one rune |
| `Strategies.LiteralMatch` | cmd/mygrep/main.go:90-92 | never an error; true iff the pattern occurs as a run of runes in the line; for a one-rune pattern, iff the line contains that rune |
| `Strategies.CanHandle` | cmd/mygrep/main.go:35 | the interface call `CanHandle` on each strategy kind holds iff that kind's rune-level guard holds |
| `Strategies.GuardsExclusive` | cmd/mygrep/main.go:46-88 | no pattern is accepted by two of the three guards |
| `Strategies.CaretGroupBytes` | cmd/mygrep/main.go:52-53 | a pattern `[^...]` is encoded as the byte `[`, the byte `^`, the encoding of the runes after the caret, and the byte `]` |
| `Strategies.NegationTestRunes` | cmd/mygrep/main.go:52-53 | for a group pattern, `len >= 4 && pattern[1] == '^'` holds iff the runes are `[^`, at least one more rune, then `]`; `pattern[2:len-1]` then encodes the runes after the caret |
| `Strategies.GroupMatch` | cmd/mygrep/main.go:50-61 | never an error; a negated group is true iff some rune of the line is not among the runes after the caret; any other group is true iff some rune of the line is between the brackets |
| `Strategies.Run` | cmd/mygrep/main.go:34-36 | the strategy the registry selects never returns an error |
| `Strategies.RegistryMatch` | cmd/mygrep/main.go:33-41 | for any list of strategies: the result is the first accepting strategy's `Match`, or `(false, nil)` when none accepts |
| `Mygrep.NewRegistry` | cmd/mygrep/main.go:23-31 | the group (with negation), class and literal strategies in that order, and no pattern is accepted by two of them |
| `Mygrep.MatchLine` | cmd/mygrep/main.go:121-125 | with the registry group, class, literal: group patterns go to the group test, two-byte escapes to the class test, one-rune patterns to the literal test, all else is `(false, nil)`; never an error |
| `Mygrep.RegistryOrderIrrelevant` | cmd/mygrep/main.go:25-29 | a registry holding the same three strategies in the opposite order answers exactly as `matchLine` for every line and pattern |
| `Mygrep.MatchLineIsAccepts` | cmd/mygrep/main.go:33-92 | `matchLine` equals a rune-level reference: negated group, positive group, `\d`, `\w`, single rune, otherwise false |
| `Mygrep.NegatedGroupSemantics` | cmd/mygrep/main.go:52-56 | a negated group matches iff some rune of the line differs from every rune after the caret |
| `Mygrep.LoneCaretIsASet` | cmd/mygrep/main.go:52-60 | `[^]` is too short for negation and matches iff the line contains `^` |
| `Mygrep.EmptyLineNeverMatches` | cmd/mygrep/main.go:33-92 | on an empty line every pattern yields `(false, nil)` |
| `Mygrep.RevisionsAgree` | cmd/mygrep/main.go:50-61 | on every pattern that is not a negated group, the current revision answers exactly as the earlier one |
| `Mygrep.RevisionsDiffer` | cmd/mygrep/main.go:52-56 | `[^a]` on the line `a` matched in the earlier revision and does not in this one |
| `Mygrep.NegatedExampleMatches` | cmd/mygrep/main.go:52-56 | `[^xyz]` matches `apple` |
| `Mygrep.NegatedExampleFails` | cmd/mygrep/main.go:52-56 | `[^anb]` does not match `banana` |
| `Matchers.NewRegistry` | cmd/mygrep/matchers.go:18-26 | the positive group, class and literal strategies in that order, and no pattern is accepted by two of them |
| `Matchers.MatchPattern` | cmd/mygrep/matchers.go:18-36 | a fresh registry sends group patterns to the positive set test, two-byte escapes to the class test, one-rune patterns to the literal test, all else to `(false, nil)` |
| `Matchers.MatchPatternIsAccepts` | cmd/mygrep/matchers.go:28-77 | the registry equals a rune-level reference: positive group, `\d`, `\w`, single rune, otherwise false |
| `Matchers.EmptyLineNeverMatches` | cmd/mygrep/matchers.go:28-77 | on an empty line every pattern yields `(false, nil)` |
| `Matchers.PlainWordsAreNotHandled` | cmd/mygrep/matchers.go:28-36 | a pattern of two or more runes that starts with neither `[` nor a backslash gives `(false, nil)`, whatever the line |
| `Matchers.CaretIsAMember` | cmd/mygrep/matchers.go:45-47 | `[^...]` is a positive set that includes `^`: true iff some rune of the line is `^` or a listed rune |
| `Matchers.UnknownEscapeNeverMatches` | cmd/mygrep/matchers.go:56-66 | a backslash followed by any rune other than `d` or `w` gives `(false, nil)`, not an error |
| `Matchers.LiteralExamples` | cmd/mygrep/matchers.go:71-77 | `d` matches `dog`, `f` does not, and `ab` does not match `ab` |
| `Matchers.DigitExamples` | cmd/mygrep/matchers.go:58-59 | `\d` matches `123` and not `apple` |
| `Matchers.WordExamples` | cmd/mygrep/matchers.go:60-63 | `\w` matches `word` and not `$!?` |
| `Matchers.AsciiTablesExamples` | cmd/mygrep/matchers.go:58-63 | with tables that know only ASCII, `\d` matches `123` and `\w` does not match `$!?` |
| `Matchers.GroupExampleMatches` | cmd/mygrep/matchers.go:45-47 | `[abcd]` matches `a` |
| `Matchers.GroupExampleFails` | cmd/mygrep/matchers.go:45-47 | `[abcd]` does not match `efgh` |
| `Matchers.CaretExamples` | cmd/mygrep/matchers.go:45-47 | `[^a]` matches `x^` and does not match `bcd` |

## Left out

- `main` in `cmd/mygrep/main.go` is left out. It checks arguments, reads stdin, writes diagnostics
  and sets exit codes. All of that is I/O.
- The Unicode category tables behind `unicode.IsDigit` and `unicode.IsLetter` are not modelled.
  They are the `Tables` parameter, and only their ASCII behaviour is fixed (`WellFormed`).
- Malformed UTF-8 is not modelled. Lines and patterns are `string`s of Unicode scalar values.
  Go decodes stray bytes as `U+FFFD`, and `utf8.RuneCountInString` counts each one as a rune.
  Neither happens in the model.
- `GoBytes.IndexFunc` returns a rune index, not Go's byte offset. Callers only compare it with zero.
- `Strategies.SetMatch` and `Strategies.GroupMatch` require the group guard. Only the registry calls
  them, and it checks the guard first. A direct call on a pattern whose first or last rune is
  multi-byte would slice through a rune, and the rune-level model cannot represent that.
- The `PatternMatcher` interface and its pointer receivers become the `Matcher` datatype.
  `Run` dispatches on that datatype.
- The backtracking matcher exercised by `cmd/mygrep/matcher_test.go` is not part of this model.
  That covers groups, quantifiers, anchors, alternation and backreferences.
- The backtracking matcher is expected by `cmd/mygrep/matcher_test.go:292-297` to reject the
  unknown escape `\y` with an "invalid escape sequence" error. The registry returns `(false, nil)`
  for it instead (`cmd/mygrep/matchers.go:64-65`, `cmd/mygrep/main.go:78-79`). This model follows
  the registry (`Matchers.UnknownEscapeNeverMatches`).
