/**
 * Bytes, characters and strings as the codec sees them: the trailing
 * punctuation set, ASCII case mapping, the ordering of `String`, splitting
 * on the space character and the UTF-8 encoding behind `str::as_bytes`.
 */
module Text {

  /** One byte of a compressed stream (Rust `u8`). */
  type Byte = b: int | 0 <= b < 0x100

  /** The glyphs stripped from the end of a token (`PUNCT`). */
  const Punct: seq<char> := ['.', ',', ':', '!', '?', '\n', '\t']

  predicate IsPunct(c: char) {
    c in Punct
  }

  /** A one-glyph string such as "." or "\n". */
  predicate IsGlyph(w: string) {
    |w| == 1 && IsPunct(w[0])
  }

  predicate IsAscii(c: char) {
    c as int < 0x80
  }

  predicate AllAscii(s: string) {
    forall k :: 0 <= k < |s| ==> IsAscii(s[k])
  }

  // Case mapping is restricted to ASCII letters.

  predicate IsUpper(c: char) {
    'A' <= c <= 'Z'
  }

  predicate IsLower(c: char) {
    'a' <= c <= 'z'
  }

  function ToLower(c: char): (r: char)
    ensures IsUpper(c) ==> IsLower(r) && ToUpper(r) == c
    ensures !IsUpper(c) ==> r == c
  {
    if IsUpper(c) then (c as int + 32) as char else c
  }

  function ToUpper(c: char): (r: char)
    ensures IsLower(c) ==> IsUpper(r) && (r as int + 32) as char == c
    ensures !IsLower(c) ==> r == c
  {
    if IsLower(c) then (c as int - 32) as char else c
  }

  /** `str::to_lowercase`, on ASCII letters: every letter of the string, not only the first. */
  function Lowercase(s: string): (r: string)
    ensures |r| == |s|
    ensures forall k :: 0 <= k < |s| ==> r[k] == ToLower(s[k])
    ensures forall k :: 0 <= k < |r| ==> !IsUpper(r[k])
  {
    seq(|s|, k requires 0 <= k < |s| => ToLower(s[k]))
  }

  /** Reversal, used to describe the order in which trailing glyphs come back. */
  function Reverse<T>(s: seq<T>): (r: seq<T>)
    ensures |r| == |s|
    ensures forall k :: 0 <= k < |s| ==> r[k] == s[|s| - 1 - k]
  {
    seq(|s|, k requires 0 <= k < |s| => s[|s| - 1 - k])
  }

  /** The ordering of Rust's `String`: lexicographic by code point. */
  predicate Below(a: string, b: string) {
    if a == [] then b != []
    else if b == [] then false
    else a[0] < b[0] || (a[0] == b[0] && Below(a[1..], b[1..]))
  }

  lemma {:induction false} BelowIrreflexive(a: string)
    ensures !Below(a, a)
  {
    if a != [] {
      BelowIrreflexive(a[1..]);
    }
  }

  lemma {:induction false} BelowTransitive(a: string, b: string, c: string)
    requires Below(a, b) && Below(b, c)
    ensures Below(a, c)
  {
    if a != [] && a[0] == b[0] && b[0] == c[0] && Below(a[1..], b[1..]) && Below(b[1..], c[1..]) {
      BelowTransitive(a[1..], b[1..], c[1..]);
    }
  }

  lemma {:induction false} BelowTotal(a: string, b: string)
    requires a != b
    ensures Below(a, b) || Below(b, a)
  {
    if a != [] && b != [] && a[0] == b[0] {
      assert a == [a[0]] + a[1..] && b == [b[0]] + b[1..];
      BelowTotal(a[1..], b[1..]);
    }
  }

  lemma {:induction false} BelowAsymmetric(a: string, b: string)
    requires Below(a, b)
    ensures !Below(b, a)
  {
    if Below(b, a) {
      BelowTransitive(a, b, a);
      BelowIrreflexive(a);
    }
  }

  /** Concatenation with one space between consecutive pieces. */
  function JoinWithSpace(pieces: seq<string>): string {
    if |pieces| == 0 then []
    else if |pieces| == 1 then pieces[0]
    else pieces[0] + [' '] + JoinWithSpace(pieces[1..])
  }

  /**
   * `str::split(' ')`: never empty, no piece holds a space, and joining the
   * pieces back with single spaces gives the input again.
   */
  function SplitOnSpace(s: string): (pieces: seq<string>)
    ensures |pieces| >= 1
    ensures forall k :: 0 <= k < |pieces| ==> ' ' !in pieces[k]
    ensures JoinWithSpace(pieces) == s
  {
    if s == [] then [[]]
    else
      var rest := SplitOnSpace(s[1..]);
      if s[0] == ' ' then
        assert s == [' '] + s[1..];
        [[]] + rest
      else
        var pieces := [[s[0]] + rest[0]] + rest[1..];
        assert pieces[1..] == rest[1..];
        assert s == [s[0]] + s[1..];
        pieces
  }

  lemma {:induction false} SplitWithoutSpace(s: string)
    requires ' ' !in s
    ensures SplitOnSpace(s) == [s]
  {
    if s != [] {
      SplitWithoutSpace(s[1..]);
      assert s == [s[0]] + s[1..];
    }
  }

  /** The UTF-8 encoding of one scalar value. */
  function Utf8Char(c: char): (r: seq<Byte>)
    ensures 1 <= |r| <= 4
    ensures IsAscii(c) <==> |r| == 1
    ensures IsAscii(c) ==> r[0] == c as int
    ensures !IsAscii(c) ==> 0xC0 <= r[0] < 0xF8
    ensures forall k :: 0 <= k < |r| ==> r[k] < 0xF8
  {
    var n := c as int;
    if n < 0x80 then [n]
    else if n < 0x800 then [0xC0 + n / 0x40, 0x80 + n % 0x40]
    else if n < 0x10000 then [0xE0 + n / 0x1000, 0x80 + (n / 0x40) % 0x40, 0x80 + n % 0x40]
    else [0xF0 + n / 0x40000, 0x80 + (n / 0x1000) % 0x40, 0x80 + (n / 0x40) % 0x40, 0x80 + n % 0x40]
  }

  /** `str::as_bytes`: the UTF-8 encoding of a string. */
  function Utf8(s: string): seq<Byte> {
    if s == [] then [] else Utf8Char(s[0]) + Utf8(s[1..])
  }

  /** No byte of a UTF-8 encoding reaches 0xF8, so none is a marker code. */
  lemma {:induction false} Utf8Bounded(s: string)
    ensures forall k :: 0 <= k < |Utf8(s)| ==> Utf8(s)[k] < 0xF8
  {
    if s != [] {
      Utf8Bounded(s[1..]);
    }
  }

  /** On ASCII text the encoding is one byte per character, equal to its code. */
  lemma {:induction false} Utf8OfAscii(s: string)
    requires AllAscii(s)
    ensures |Utf8(s)| == |s|
    ensures forall k :: 0 <= k < |s| ==> Utf8(s)[k] == s[k] as int
  {
    if s != [] {
      Utf8OfAscii(s[1..]);
    }
  }

  /** The length of the longest ASCII prefix. */
  function AsciiPrefixLength(s: string): (n: nat)
    ensures n <= |s|
    ensures forall k :: 0 <= k < n ==> IsAscii(s[k])
    ensures n < |s| ==> !IsAscii(s[n])
  {
    if s == [] || !IsAscii(s[0]) then 0 else 1 + AsciiPrefixLength(s[1..])
  }

  /**
   * The encoding of text that is not all ASCII starts with the bytes of its
   * ASCII prefix, followed by the lead byte of the first other character.
   */
  lemma {:induction false} Utf8OfMixed(s: string)
    requires !AllAscii(s)
    ensures AsciiPrefixLength(s) < |s|
    ensures AsciiPrefixLength(s) < |Utf8(s)|
    ensures forall k :: 0 <= k < AsciiPrefixLength(s) ==> Utf8(s)[k] == s[k] as int
    ensures Utf8(s)[AsciiPrefixLength(s)] == Utf8Char(s[AsciiPrefixLength(s)])[0]
  {
    if IsAscii(s[0]) {
      Utf8OfMixed(s[1..]);
      assert s[1..][AsciiPrefixLength(s[1..])] == s[AsciiPrefixLength(s)];
    }
  }
}
