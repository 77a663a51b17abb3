/** The character classes behind `\d` and `\w`.

    Go answers them with `unicode.IsDigit` and `unicode.IsLetter`, which consult the Unicode
    category tables. Those tables are not part of this model: a `Tables` value carries the two
    predicates, and `WellFormed` pins down the one range every caller relies on, ASCII, where
    the Unicode categories are the familiar ones. */
module UnicodeTables {

  datatype Tables = Tables(isDigit: char -> bool, isLetter: char -> bool)

  predicate IsAsciiDigit(c: char) {
    '0' <= c <= '9'
  }

  predicate IsAsciiLetter(c: char) {
    'a' <= c <= 'z' || 'A' <= c <= 'Z'
  }

  /** Tables that agree with Unicode on every ASCII character. */
  ghost predicate WellFormed(t: Tables) {
    forall c: char :: c as int < 0x80 ==>
      (t.isDigit(c) <==> IsAsciiDigit(c)) && (t.isLetter(c) <==> IsAsciiLetter(c))
  }

  /** The `\w` test: a letter, a digit or an underscore. */
  predicate IsWordRune(t: Tables, c: char) {
    t.isLetter(c) || t.isDigit(c) || c == '_'
  }

  /** Tables that know only ASCII; enough to state concrete examples. */
  function AsciiTables(): (t: Tables)
    ensures WellFormed(t)
    ensures forall c: char :: t.isDigit(c) ==> c as int < 0x80
  {
    Tables(c => IsAsciiDigit(c), c => IsAsciiLetter(c))
  }
}
