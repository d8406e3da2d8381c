/**
 * The compressor (`get_punct` and `compress`): a 6-byte header, then for
 * every piece of the text split on the space character an optional
 * StartUppercase marker, the code of the bare word or an escape region
 * holding the whole original piece, and the codes of its trailing glyphs,
 * last glyph first.
 */
module Compressor {
  import opened Wrappers
  import opened Text
  import opened CodeTable

  /** The three version bytes written after the tag. */
  datatype Version = Version(major: Byte, minor: Byte, patch: Byte)

  /** The bytes of "TPC". */
  const Tag: seq<Byte> := [0x54, 0x50, 0x43]

  function Header(v: Version): (h: seq<Byte>)
    ensures |h| == 6 && h[..3] == Tag
    ensures h[3] == v.major && h[4] == v.minor && h[5] == v.patch
  {
    Tag + [v.major, v.minor, v.patch]
  }

  /** The length of the maximal run of glyphs that ends the token. */
  function TrailingPunctLength(s: string): (n: nat)
    ensures n <= |s|
    ensures forall k :: |s| - n <= k < |s| ==> IsPunct(s[k])
    ensures n < |s| ==> !IsPunct(s[|s| - n - 1])
  {
    if |s| > 0 && IsPunct(s[|s| - 1]) then 1 + TrailingPunctLength(s[..|s| - 1]) else 0
  }

  /** The token without its trailing glyphs. */
  function Bare(s: string): string {
    s[..|s| - TrailingPunctLength(s)]
  }

  /** The trailing glyphs of the token, in text order. */
  function TrailingGlyphs(s: string): string {
    s[|s| - TrailingPunctLength(s)..]
  }

  /** The codes of the last `n` characters of `s`, last character first. */
  function LastCodes(s: string, n: nat): (v: seq<Byte>)
    requires n <= |s| && forall k :: |s| - n <= k < |s| ==> IsPunct(s[k])
    ensures |v| == n
  {
    seq(n, k requires 0 <= k < n => GlyphCode(s[|s| - 1 - k]))
  }

  /** The codes `get_punct` collects: one per trailing glyph, last glyph first. */
  function TrailingCodes(s: string): (v: seq<Byte>)
    ensures |v| == TrailingPunctLength(s)
  {
    LastCodes(s, TrailingPunctLength(s))
  }

  /** Taking one more glyph from the end appends its code. */
  lemma {:induction false} LastCodesStep(s: string, n: nat)
    requires n < |s| && forall k :: |s| - (n + 1) <= k < |s| ==> IsPunct(s[k])
    ensures LastCodes(s, n + 1) == LastCodes(s, n) + [GlyphCode(s[|s| - 1 - n])]
  {
  }

  /** A run of `n` glyphs that ends `s` and cannot be extended is the trailing run. */
  lemma {:induction false} TrailingRunIs(s: string, n: nat)
    requires n <= |s| && forall k :: |s| - n <= k < |s| ==> IsPunct(s[k])
    requires n < |s| ==> !IsPunct(s[|s| - n - 1])
    ensures TrailingPunctLength(s) == n
  {
  }

  /**
   * The token is its bare part followed by its trailing glyphs; the bare
   * part does not end in a glyph; and the k-th collected code is the code
   * of the (k+1)-th character from the end.
   */
  lemma {:induction false} TokenSplit(s: string)
    ensures Bare(s) + TrailingGlyphs(s) == s
    ensures Bare(s) == [] || !IsPunct(Bare(s)[|Bare(s)| - 1])
    ensures forall k :: 0 <= k < |TrailingGlyphs(s)| ==> IsPunct(TrailingGlyphs(s)[k])
    ensures |TrailingCodes(s)| == |TrailingGlyphs(s)|
    ensures forall k :: 0 <= k < |TrailingCodes(s)| ==> TrailingCodes(s)[k] == GlyphCode(s[|s| - 1 - k])
  {
    var n := TrailingPunctLength(s);
    assert s == s[..|s| - n] + s[|s| - n..];
    if n < |s| {
      assert Bare(s)[|Bare(s)| - 1] == s[|s| - n - 1];
    }
  }

  /**
   * `get_punct`: None when the token does not end in a glyph; otherwise the
   * codes of its trailing glyphs and the token without them.
   */
  method GetPunct(s: string, t: Table) returns (r: Option<(seq<Byte>, string)>)
    requires WellFormed(t)
    ensures r.None? <==> s == [] || !IsPunct(s[|s| - 1])
    ensures r.Some? ==> r.value.1 == Bare(s) && r.value.0 == TrailingCodes(s)
  {
    var v: seq<Byte> := [];
    var c := s;
    var copy: Option<string> := None;
    while |c| > 0
      invariant |c| <= |s| && c == s[..|c|]
      invariant forall k :: |c| <= k < |s| ==> IsPunct(s[k])
      invariant v == LastCodes(s, |s| - |c|)
      invariant copy.None? <==> |c| == |s|
      invariant copy.Some? ==> copy.value == c
    {
      var x := c[|c| - 1];
      if !IsPunct(x) {
        break;
      }
      if copy.None? {
        copy := Some(s);
      }
      GlyphInTable(t, x);
      LastCodesStep(s, |s| - |c|);
      v := v + [t.toCode[Word([x])]];
      copy := Some(copy.value[..|copy.value| - 1]);
      c := c[..|c| - 1];
    }
    TrailingRunIs(s, |s| - |c|);
    if |v| > 0 {
      return Some((v, copy.value));
    }
    return None;
  }

  /** The token's first character is an uppercase letter once its glyphs are stripped. */
  predicate Capitalised(tok: string) {
    var bare := Bare(tok);
    |bare| > 0 && IsUpper(bare[0])
  }

  /** The text looked up in the table for a token. */
  function LookupKey(tok: string): string {
    if Capitalised(tok) then Lowercase(Bare(tok)) else Bare(tok)
  }

  /**
   * The key of a capitalised token is its whole bare word lower-cased, so a
   * capital anywhere after the first letter is lost too; any other token is
   * looked up as its bare word unchanged.
   */
  lemma {:induction false} LookupKeyLowercased(tok: string)
    ensures Capitalised(tok) ==> |LookupKey(tok)| == |Bare(tok)| && IsLower(LookupKey(tok)[0])
    ensures Capitalised(tok) ==> forall k :: 0 <= k < |Bare(tok)| ==> LookupKey(tok)[k] == ToLower(Bare(tok)[k]) && !IsUpper(LookupKey(tok)[k])
    ensures !Capitalised(tok) ==> LookupKey(tok) == Bare(tok)
  {
  }

  /** The StartUppercase marker, when the bare token is capitalised. */
  function MarkerPart(t: Table, tok: string): seq<Byte>
    requires WellFormed(t)
  {
    MarkersInTable(t);
    if Capitalised(tok) then [t.toCode[Special(StartUppercase)]] else []
  }

  /** The code of the looked-up word, or an escape region holding the whole token. */
  function WordPart(t: Table, tok: string): seq<Byte> {
    var key := LookupKey(tok);
    if Word(key) in t.toCode then [t.toCode[Word(key)]]
    else [BeginAsciiCode] + Utf8(tok) + [EndAsciiCode]
  }

  /** The bytes one piece of the text contributes to the stream. */
  function EncodeToken(t: Table, tok: string): seq<Byte>
    requires WellFormed(t)
  {
    MarkerPart(t, tok) + WordPart(t, tok) + TrailingCodes(tok)
  }

  function EncodeTokens(t: Table, toks: seq<string>): seq<Byte>
    requires WellFormed(t)
  {
    if toks == [] then [] else EncodeToken(t, toks[0]) + EncodeTokens(t, toks[1..])
  }

  lemma {:induction false} EncodeTokensAppend(t: Table, a: seq<string>, b: seq<string>)
    requires WellFormed(t)
    ensures EncodeTokens(t, a + b) == EncodeTokens(t, a) + EncodeTokens(t, b)
  {
    if a == [] {
      assert a + b == b;
    } else {
      assert (a + b)[1..] == a[1..] + b;
      EncodeTokensAppend(t, a[1..], b);
    }
  }

  lemma {:induction false} EncodeTokensSnoc(t: Table, toks: seq<string>, tok: string)
    requires WellFormed(t)
    ensures EncodeTokens(t, toks + [tok]) == EncodeTokens(t, toks) + EncodeToken(t, tok)
  {
    EncodeTokensAppend(t, toks, [tok]);
    assert EncodeTokens(t, [tok]) == EncodeToken(t, tok) + EncodeTokens(t, []);
  }

  /** Encoding one more piece of the text appends that piece's bytes. */
  lemma {:induction false} EncodePrefixStep(t: Table, head: seq<Byte>, words: seq<string>, i: nat)
    requires WellFormed(t)
    requires i < |words|
    ensures head + EncodeTokens(t, words[..i + 1]) == head + EncodeTokens(t, words[..i]) + EncodeToken(t, words[i])
  {
    assert words[..i + 1] == words[..i] + [words[i]];
    EncodeTokensSnoc(t, words[..i], words[i]);
    Concat3(head, EncodeTokens(t, words[..i]), EncodeToken(t, words[i]));
  }

  lemma {:induction false} Concat3<T>(a: seq<T>, b: seq<T>, c: seq<T>)
    ensures a + b + c == a + (b + c)
  {
  }

  lemma {:induction false} Concat4<T>(a: seq<T>, b: seq<T>, c: seq<T>, d: seq<T>)
    ensures a + b + c + d == a + (b + c + d)
  {
  }

  /** The stream `compress` writes for a text. */
  function Compressed(t: Table, v: Version, text: string): seq<Byte>
    requires WellFormed(t)
  {
    Header(v) + EncodeTokens(t, SplitOnSpace(text))
  }

  /** An empty piece, from a leading, trailing or repeated space, is written as an empty escape region. */
  lemma {:induction false} EmptyTokenEscaped(t: Table)
    requires WellFormed(t) && Word("") !in t.toCode
    ensures EncodeToken(t, "") == [BeginAsciiCode, EndAsciiCode]
  {
    assert TrailingPunctLength("") == 0 && Bare("") == "";
    assert !Capitalised("") && LookupKey("") == "";
    assert WordPart(t, "") == [BeginAsciiCode] + [] + [EndAsciiCode];
  }

  /** The empty text compresses to the header and one empty escape region. */
  lemma {:induction false} EmptyTextCompressed(t: Table, v: Version)
    requires WellFormed(t) && Word("") !in t.toCode
    ensures Compressed(t, v, "") == Header(v) + [BeginAsciiCode, EndAsciiCode]
  {
    EmptyTokenEscaped(t);
    assert SplitOnSpace("") == [""];
    assert EncodeTokens(t, [""]) == EncodeToken(t, "") + EncodeTokens(t, []);
  }

  /** A token that does not end in a glyph is its own bare word and has no trailing codes. */
  lemma {:induction false} NoTrailingGlyphs(s: string)
    requires s == [] || !IsPunct(s[|s| - 1])
    ensures Bare(s) == s && TrailingCodes(s) == []
  {
    TrailingRunIs(s, 0);
  }

  /** The marker and the looked-up text, for a capitalised token and for any other. */
  lemma {:induction false} MarkerAndKey(t: Table, tok: string)
    requires WellFormed(t)
    ensures Capitalised(tok) ==> MarkerPart(t, tok) == [StartUppercaseCode] && LookupKey(tok) == Lowercase(Bare(tok))
    ensures !Capitalised(tok) ==> MarkerPart(t, tok) == [] && LookupKey(tok) == Bare(tok)
  {
    MarkersInTable(t);
  }

  /** The bytes of the looked-up word or of the escape region, for a given key. */
  lemma {:induction false} WordPartOf(t: Table, tok: string, key: string)
    requires key == LookupKey(tok)
    ensures Word(key) in t.toCode ==> WordPart(t, tok) == [t.toCode[Word(key)]]
    ensures Word(key) !in t.toCode ==> WordPart(t, tok) == [BeginAsciiCode] + Utf8(tok) + [EndAsciiCode]
  {
  }

  /** The three pieces of an escape region, appended one after the other. */
  lemma {:induction false} EscapeAppended(mid: seq<Byte>, tok: string, out: seq<Byte>)
    requires out == mid + [BeginAsciiCode] + Utf8(tok) + [EndAsciiCode]
    ensures out == mid + ([BeginAsciiCode] + Utf8(tok) + [EndAsciiCode])
  {
  }

  /** One pass of the loop in `compress`: append the bytes of one space-separated piece. */
  method PushToken(t: Table, out: seq<Byte>, word: string) returns (out': seq<Byte>)
    requires WellFormed(t)
    ensures out' == out + EncodeToken(t, word)
  {
    out' := out;
    var bareWord := word;
    var end: seq<Byte> := [];
    var punct := GetPunct(word, t);
    if punct.Some? {
      bareWord := punct.value.1;
      end := punct.value.0;
    } else {
      NoTrailingGlyphs(word);
    }
    assert bareWord == Bare(word) && end == TrailingCodes(word);
    MarkerAndKey(t, word);
    MarkersInTable(t);
    if |bareWord| > 0 && IsUpper(bareWord[0]) {
      out' := out' + [t.toCode[Special(StartUppercase)]];
      bareWord := Lowercase(bareWord);
    }
    assert out' == out + MarkerPart(t, word) && bareWord == LookupKey(word);
    ghost var mid := out';
    WordPartOf(t, word, bareWord);
    if Word(bareWord) in t.toCode {
      out' := out' + [t.toCode[Word(bareWord)]];
    } else {
      out' := out' + [BeginAsciiCode];
      out' := out' + Utf8(word);
      out' := out' + [EndAsciiCode];
      EscapeAppended(mid, word, out');
    }
    assert out' == mid + WordPart(t, word);
    ghost var before := out';
    if |end| > 0 {
      out' := out' + end;
    }
    assert out' == before + TrailingCodes(word);
    Concat4(out, MarkerPart(t, word), WordPart(t, word), TrailingCodes(word));
  }

  /** The header bytes, pushed one after the other, followed by no piece yet. */
  lemma {:induction false} HeaderPushed(t: Table, v: Version, words: seq<string>)
    requires WellFormed(t)
    ensures Tag + [v.major] + [v.minor] + [v.patch] == Header(v) + EncodeTokens(t, words[..0])
  {
    assert words[..0] == [];
  }

  /** `compress`: the header, then the bytes of every space-separated piece, in order. */
  method Compress(t: Table, version: Version, text: string) returns (out: seq<Byte>)
    requires WellFormed(t)
    ensures out == Compressed(t, version, text)
  {
    var words := SplitOnSpace(text);
    out := Tag;
    out := out + [version.major];
    out := out + [version.minor];
    out := out + [version.patch];
    HeaderPushed(t, version, words);

    var i := 0;
    while i < |words|
      invariant i <= |words|
      invariant out == Header(version) + EncodeTokens(t, words[..i])
    {
      var word := words[i];
      out := PushToken(t, out, word);
      EncodePrefixStep(t, Header(version), words, i);
      i := i + 1;
    }
    assert words[..i] == words;
  }
}
