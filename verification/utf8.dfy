/** UTF-8 as Go lays out a `string`: the bytes behind a sequence of code points.

    The matchers test byte lengths and byte positions of the pattern (`len(pattern)`,
    `pattern[0]`, `pattern[1:len(pattern)-1]`) while the search itself works rune by rune.
    Modelling the pattern as a `string` of Unicode scalar values and giving it an explicit
    encoding lets every guard be written over the same bytes Go looks at, and the lemmas
    here say what those byte tests mean for the runes. */
module Utf8 {

  type byte = b: int | 0 <= b < 0x100

  /** A byte of the form 10xxxxxx, which never starts an encoded rune. */
  predicate IsContinuation(b: byte) {
    0x80 <= b < 0xC0
  }

  /** How many bytes a well-formed encoding has, read off its first byte. */
  function SequenceLength(lead: byte): nat {
    if lead < 0x80 then 1 else if lead < 0xE0 then 2 else if lead < 0xF0 then 3 else 4
  }

  /** The UTF-8 encoding of one rune (what `utf8.EncodeRune` writes). */
  function EncodeRune(c: char): (bs: seq<byte>)
    ensures 1 <= |bs| <= 4
    ensures !IsContinuation(bs[0]) && |bs| == SequenceLength(bs[0])
    ensures forall k :: 1 <= k < |bs| ==> IsContinuation(bs[k])
    ensures bs[0] < 0x80 <==> c as int < 0x80
    ensures c as int < 0x80 ==> bs == [c as int]
  {
    var n := c as int;
    if n < 0x80 then [n]
    else if n < 0x800 then [0xC0 + n / 0x40, 0x80 + n % 0x40]
    else if n < 0x10000 then [0xE0 + n / 0x1000, 0x80 + n / 0x40 % 0x40, 0x80 + n % 0x40]
    else [0xF0 + n / 0x40000, 0x80 + n / 0x1000 % 0x40, 0x80 + n / 0x40 % 0x40, 0x80 + n % 0x40]
  }

  /** The code point a well-formed encoding of `|bs|` bytes stands for (`utf8.DecodeRune`
      without the error handling, which well-formed input never reaches). */
  function DecodeRune(bs: seq<byte>): int
    requires 1 <= |bs| <= 4
  {
    var b: seq<int> := bs;
    if |b| == 1 then b[0]
    else if |b| == 2 then (b[0] - 0xC0) * 0x40 + (b[1] - 0x80)
    else if |b| == 3 then (b[0] - 0xE0) * 0x1000 + (b[1] - 0x80) * 0x40 + (b[2] - 0x80)
    else (b[0] - 0xF0) * 0x40000 + (b[1] - 0x80) * 0x1000 + (b[2] - 0x80) * 0x40 + (b[3] - 0x80)
  }

  lemma DecodeEncodeRune(c: char)
    ensures DecodeRune(EncodeRune(c)) == c as int
  {
    var n := c as int;
    assert n == n / 0x40 * 0x40 + n % 0x40;
    assert n / 0x40 == n / 0x1000 * 0x40 + n / 0x40 % 0x40;
    assert n / 0x1000 == n / 0x40000 * 0x40 + n / 0x1000 % 0x40;
  }

  /** Distinct runes have distinct encodings. */
  lemma EncodeRuneInjective(c: char, d: char)
    requires EncodeRune(c) == EncodeRune(d)
    ensures c == d
  {
    DecodeEncodeRune(c);
    DecodeEncodeRune(d);
  }

  /** The bytes of a Go string holding the runes of `s`. */
  function Encode(s: string): (bs: seq<byte>)
    ensures |bs| >= |s|
    ensures |bs| == 0 <==> |s| == 0
    ensures |s| > 0 ==> !IsContinuation(bs[0])
  {
    if |s| == 0 then [] else EncodeRune(s[0]) + Encode(s[1..])
  }

  lemma {:induction false} EncodeAppend(s: string, t: string)
    ensures Encode(s + t) == Encode(s) + Encode(t)
    decreases |s|
  {
    if |s| == 0 {
      assert s + t == t;
    } else {
      assert (s + t)[1..] == s[1..] + t;
      EncodeAppend(s[1..], t);
    }
  }

  /** An encoding ends in an ASCII byte exactly when its last rune is that ASCII character. */
  lemma LastByte(s: string)
    requires |s| > 0
    ensures Encode(s)[|Encode(s)| - 1] < 0x80 <==> s[|s| - 1] as int < 0x80
    ensures s[|s| - 1] as int < 0x80 ==> Encode(s)[|Encode(s)| - 1] == s[|s| - 1] as int
  {
    var n := |s|;
    assert s == s[..n - 1] + [s[n - 1]];
    EncodeAppend(s[..n - 1], [s[n - 1]]);
    assert Encode([s[n - 1]]) == EncodeRune(s[n - 1]);
  }

  /** When a string starts and ends with single-byte runes, dropping those runes drops
      exactly the first and last byte: Go's `pattern[1:len(pattern)-1]`. */
  lemma DropEnds(s: string)
    requires |s| >= 2 && s[0] as int < 0x80 && s[|s| - 1] as int < 0x80
    ensures |Encode(s)| == |Encode(s[1..|s| - 1])| + 2
    ensures Encode(s)[1..|Encode(s)| - 1] == Encode(s[1..|s| - 1])
  {
    var n := |s|;
    var mid := s[1..n - 1];
    var first, last := [s[0] as int], [s[n - 1] as int];
    assert Encode([s[0]]) == first;
    assert Encode([s[n - 1]]) == last;
    assert s == [s[0]] + (mid + [s[n - 1]]);
    EncodeAppend([s[0]], mid + [s[n - 1]]);
    EncodeAppend(mid, [s[n - 1]]);
    var e := Encode(s);
    assert e == first + (Encode(mid) + last);
    assert e[1..|e| - 1] == Encode(mid);
  }

  /** Number of runes in a well-formed byte string: every rune has exactly one byte that is
      not a continuation byte (`utf8.RuneCount` on valid input). */
  function RuneCount(bs: seq<byte>): (n: nat)
    ensures n <= |bs|
    ensures |bs| > 0 && !IsContinuation(bs[0]) ==> n >= 1
  {
    if |bs| == 0 then 0
    else RuneCount(bs[..|bs| - 1]) + (if IsContinuation(bs[|bs| - 1]) then 0 else 1)
  }

  lemma {:induction false} RuneCountAppend(a: seq<byte>, b: seq<byte>)
    ensures RuneCount(a + b) == RuneCount(a) + RuneCount(b)
    decreases |b|
  {
    if |b| == 0 {
      assert a + b == a;
    } else {
      assert (a + b)[..|a + b| - 1] == a + b[..|b| - 1];
      RuneCountAppend(a, b[..|b| - 1]);
    }
  }

  lemma {:induction false} RuneCountOfRune(bs: seq<byte>)
    requires 1 <= |bs| && !IsContinuation(bs[0])
    requires forall k :: 1 <= k < |bs| ==> IsContinuation(bs[k])
    ensures RuneCount(bs) == 1
    decreases |bs|
  {
    if |bs| > 1 {
      RuneCountOfRune(bs[..|bs| - 1]);
    } else {
      assert bs[..0] == [];
    }
  }

  /** Counting runes of an encoding gives back the number of runes encoded. */
  lemma {:induction false} RuneCountEncode(s: string)
    ensures RuneCount(Encode(s)) == |s|
    decreases |s|
  {
    if |s| > 0 {
      RuneCountOfRune(EncodeRune(s[0]));
      RuneCountAppend(EncodeRune(s[0]), Encode(s[1..]));
      RuneCountEncode(s[1..]);
    }
  }

  /** Encodings are prefix-free: if the bytes of `p` begin the bytes of `s`, the runes of
      `p` begin `s`. */
  lemma {:induction false} EncodePrefix(p: string, s: string)
    requires |Encode(p)| <= |Encode(s)| && Encode(s)[..|Encode(p)|] == Encode(p)
    ensures |p| <= |s| && s[..|p|] == p
    decreases |p|
  {
    if |p| > 0 {
      var ep, es := EncodeRune(p[0]), EncodeRune(s[0]);
      assert Encode(s)[0] == Encode(p)[0];
      assert ep[0] == es[0];
      assert |ep| == |es|;
      assert ep == Encode(p)[..|ep|] == Encode(s)[..|es|] == es;
      EncodeRuneInjective(p[0], s[0]);
      var rp, rs := Encode(p[1..]), Encode(s[1..]);
      assert Encode(p) == ep + rp;
      assert Encode(s) == es + rs;
      assert rs[..|rp|] == Encode(s)[|ep|..|ep| + |rp|] == Encode(p)[|ep|..] == rp;
      EncodePrefix(p[1..], s[1..]);
      assert s[..|p|] == [s[0]] + s[1..][..|p| - 1];
    }
  }
}
