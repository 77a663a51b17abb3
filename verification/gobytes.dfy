/** The searches of Go's `bytes` package that the matchers call, over well-formed text.

    `bytes.IndexFunc`, `bytes.ContainsAny` and `bytes.ContainsRune` decode the byte slice
    rune by rune; on well-formed UTF-8 that is a walk over the `string` itself, so they are
    stated here over runes. `bytes.Contains` compares raw bytes and is stated over bytes;
    `ContainsIsRuneSubstring` shows it agrees with a rune-level substring test. Go returns
    byte offsets from its `Index` functions; the rune index returned by `IndexFunc` here is
    only ever compared with zero by the callers, which a byte offset would answer the same. */
module GoBytes {
  import opened Utf8

  /** `needle` sits in `hay` starting at position `k`. */
  predicate OccursAt<T(==)>(hay: seq<T>, needle: seq<T>, k: int) {
    0 <= k && k + |needle| <= |hay| && hay[k..k + |needle|] == needle
  }

  /** Index of the first element satisfying `f`, or -1 when there is none. Over runes this
      is `bytes.IndexFunc`; the registry uses the same search to find its first willing
      matcher. */
  function IndexFunc<T>(s: seq<T>, f: T -> bool): (r: int)
    ensures -1 <= r < |s|
    ensures r >= 0 ==> f(s[r]) && forall i :: 0 <= i < r ==> !f(s[i])
    ensures r == -1 <==> forall i :: 0 <= i < |s| ==> !f(s[i])
  {
    if |s| == 0 then -1
    else if f(s[0]) then 0
    else
      var k := IndexFunc(s[1..], f);
      if k < 0 then -1 else k + 1
  }

  /** `bytes.ContainsFunc`: some rune satisfies `f`. */
  function ContainsFunc(s: string, f: char -> bool): (b: bool)
    ensures b <==> exists i :: 0 <= i < |s| && f(s[i])
  {
    IndexFunc(s, f) >= 0
  }

  /** `bytes.ContainsRune`. */
  function ContainsRune(s: string, c: char): (b: bool)
    ensures b <==> c in s
  {
    IndexFunc(s, x => x == c) >= 0
  }

  /** `bytes.ContainsAny`: some rune of `s` is among the runes of `chars`; an empty
      `chars` never matches. */
  function ContainsAny(s: string, chars: string): (b: bool)
    ensures b <==> exists i :: 0 <= i < |s| && s[i] in chars
  {
    IndexFunc(s, x => ContainsRune(chars, x)) >= 0
  }

  /** `bytes.Index`: byte offset of the first occurrence of `needle` in `hay`, or -1. */
  function Index(hay: seq<byte>, needle: seq<byte>): (r: int)
    ensures -1 <= r
    ensures r >= 0 ==> OccursAt(hay, needle, r) && forall k :: 0 <= k < r ==> !OccursAt(hay, needle, k)
    ensures r == -1 <==> forall k :: !OccursAt(hay, needle, k)
    decreases |hay|
  {
    if |hay| < |needle| then -1
    else if hay[..|needle|] == needle then 0
    else
      var k := Index(hay[1..], needle);
      forall j | 1 <= j
        ensures OccursAt(hay, needle, j) <==> OccursAt(hay[1..], needle, j - 1)
      {
        if j + |needle| <= |hay| {
          assert hay[1..][j - 1..j - 1 + |needle|] == hay[j..j + |needle|];
        }
      }
      assert !OccursAt(hay, needle, 0);
      if k < 0 then -1 else k + 1
  }

  /** `bytes.Contains`: the bytes of `needle` occur somewhere in `hay`. */
  function Contains(hay: seq<byte>, needle: seq<byte>): (b: bool)
    ensures b <==> exists k :: OccursAt(hay, needle, k)
  {
    Index(hay, needle) >= 0
  }

  /** A rune-level occurrence yields a byte-level one, at the byte offset of its first rune. */
  lemma RuneOccurrenceIsByteOccurrence(line: string, p: string, i: int)
    requires OccursAt(line, p, i)
    ensures OccursAt(Encode(line), Encode(p), |Encode(line[..i])|)
  {
    assert line == line[..i] + (p + line[i + |p|..]);
    EncodeAppend(line[..i], p + line[i + |p|..]);
    EncodeAppend(p, line[i + |p|..]);
  }

  /** UTF-8 is self-synchronising: a byte-level occurrence of a non-empty encoding starts on a
      rune boundary and spells the same runes there. */
  lemma {:induction false} ByteOccurrenceIsRuneOccurrence(line: string, p: string, k: int)
    requires |p| > 0 && OccursAt(Encode(line), Encode(p), k)
    ensures exists i :: OccursAt(line, p, i)
    decreases |line|
  {
    var e := Encode(line);
    var ep := Encode(p);
    assert |line| > 0;
    var head := EncodeRune(line[0]);
    var tail := Encode(line[1..]);
    assert e == head + tail;
    if k < |head| {
      assert e[k] == head[k] && ep[0] == e[k];
      assert k == 0;
      assert e[..|ep|] == ep;
      EncodePrefix(p, line);
      assert OccursAt(line, p, 0);
    } else {
      assert tail[k - |head|..k - |head| + |ep|] == e[k..k + |ep|];
      ByteOccurrenceIsRuneOccurrence(line[1..], p, k - |head|);
      var i :| OccursAt(line[1..], p, i);
      assert line[1..][i..i + |p|] == line[i + 1..i + 1 + |p|];
      assert OccursAt(line, p, i + 1);
    }
  }

  /** On well-formed text, byte containment of an encoding is rune-substring containment. */
  lemma ContainsIsRuneSubstring(line: string, p: string)
    ensures Contains(Encode(line), Encode(p)) <==> exists i :: OccursAt(line, p, i)
  {
    if |p| == 0 {
      assert OccursAt(line, p, 0);
      assert OccursAt(Encode(line), Encode(p), 0);
    } else if Contains(Encode(line), Encode(p)) {
      var k :| OccursAt(Encode(line), Encode(p), k);
      ByteOccurrenceIsRuneOccurrence(line, p, k);
    } else if i :| OccursAt(line, p, i) {
      RuneOccurrenceIsByteOccurrence(line, p, i);
    }
  }
}
