/**
 * What `decompress` makes of what `compress` wrote.
 *
 * The text-level reference `Render` says, piece by piece, what comes back:
 * a capitalised known word returns with a space in front even at the start
 * of the text, a capitalised unknown piece stops decoding, an unknown piece
 * returns whole and then its trailing glyphs a second time, a known word's
 * trailing glyphs return in reverse order, and a piece that is not ASCII
 * stops decoding at its first non-ASCII byte. `DecodeOfCompressed` proves
 * decoding the stream gives exactly `Render` of the pieces, for every table
 * that satisfies `WellFormed` and every text.
 */
module RoundTrip {
  import opened Wrappers
  import opened Text
  import opened CodeTable
  import opened Compressor
  import opened Decompressor

  /** The bytes from position `i` of `data` are `piece`. */
  ghost predicate At(data: seq<Byte>, i: nat, piece: seq<Byte>) {
    i + |piece| <= |data| && forall j :: i <= j < i + |piece| ==> data[j] == piece[j - i]
  }

  lemma {:induction false} AtSplit(data: seq<Byte>, i: nat, a: seq<Byte>, b: seq<Byte>)
    requires At(data, i, a + b)
    ensures At(data, i, a) && At(data, i + |a|, b)
  {
    forall k | 0 <= k < |a|
      ensures data[i + k] == a[k]
    {
      assert (a + b)[k] == a[k];
    }
    forall k | 0 <= k < |b|
      ensures data[i + |a| + k] == b[k]
    {
      assert data[i + (|a| + k)] == (a + b)[|a| + k] == b[k];
    }
  }

  /** The first byte of the encoding of `s` that is not ASCII. */
  function FirstNonAsciiByte(s: string): (b: Byte)
    requires !AllAscii(s)
    ensures 0xC0 <= b < 0xF8
  {
    Utf8Char(s[AsciiPrefixLength(s)])[0]
  }

  /** The codes of a run of glyphs, in the order given. */
  function GlyphCodes(cs: string): (v: seq<Byte>)
    requires forall k :: 0 <= k < |cs| ==> IsPunct(cs[k])
    ensures |v| == |cs|
  {
    seq(|cs|, k requires 0 <= k < |cs| => GlyphCode(cs[k]))
  }

  /** `get_punct` collects the codes of the trailing glyphs read backwards. */
  lemma {:induction false} TrailingCodesReversed(tok: string)
    ensures forall k :: 0 <= k < |Reverse(TrailingGlyphs(tok))| ==> IsPunct(Reverse(TrailingGlyphs(tok))[k])
    ensures TrailingCodes(tok) == GlyphCodes(Reverse(TrailingGlyphs(tok)))
  {
    var g := TrailingGlyphs(tok);
    var n := TrailingPunctLength(tok);
    assert |g| == n;
    forall k | 0 <= k < n
      ensures Reverse(g)[k] == tok[|tok| - 1 - k]
    {
      assert g[n - 1 - k] == tok[|tok| - n + (n - 1 - k)];
    }
  }

  /**
   * The text the marker and word bytes of one piece decode to, or the error
   * decoding stops with; `first` tells whether they start the stream body.
   */
  function WordText(t: Table, tok: string, first: bool): Result<string, DecodeError>
    requires WellFormed(t)
  {
    var key := LookupKey(tok);
    if Capitalised(tok) then
      if Word(key) in t.toCode then Success(" " + FirstUppercase(key))
      else Failure(MarkerAfterUppercase(BeginAscii))
    else if Word(key) in t.toCode then Success(Gap(!first, key) + key)
    else if AllAscii(tok) then Success((if first then "" else " ") + tok)
    else Failure(NotAscii(FirstNonAsciiByte(tok)))
  }

  /** The text one piece decodes to: its word, then its trailing glyphs in reverse order. */
  function Piece(t: Table, tok: string, first: bool): Result<string, DecodeError>
    requires WellFormed(t)
  {
    var head := WordText(t, tok, first);
    if head.Success? then Success(head.value + Reverse(TrailingGlyphs(tok))) else head
  }

  /** The pieces decoded one after the other, after `out`; the first error ends it. */
  function RenderFrom(t: Table, toks: seq<string>, first: bool, out: string): Outcome
    requires WellFormed(t)
  {
    if toks == [] then Decoded(out)
    else match Piece(t, toks[0], first)
      case Failure(e) => Failed(e)
      case Success(s) => RenderFrom(t, toks[1..], false, out + s)
  }

  function Render(t: Table, toks: seq<string>): Outcome
    requires WellFormed(t)
  {
    RenderFrom(t, toks, true, "")
  }

  // Facts about sequences, each proved on its own so that the lemmas about
  // the decoding loop below only chain equalities.

  lemma {:induction false} ConsSplit<T>(a: seq<T>, s: seq<T>, b: seq<T>)
    requires s != [] && b == a + s
    ensures b == (a + [s[0]]) + s[1..]
  {
  }

  lemma {:induction false} AppendNothing<T>(a: seq<T>, s: seq<T>, b: seq<T>)
    requires s == [] && b == a + s
    ensures b == a
  {
  }

  /** The first glyph code of a run, and the codes of the rest of the run. */
  lemma {:induction false} GlyphsHead(t: Table, data: seq<Byte>, i: nat, cs: string)
    requires WellFormed(t)
    requires cs != [] && forall k :: 0 <= k < |cs| ==> IsPunct(cs[k])
    requires At(data, i, GlyphCodes(cs))
    ensures i < |data| && IsPunct(cs[0])
    ensures data[i] in t.fromCode && t.fromCode[data[i]] == Word([cs[0]])
    ensures forall k :: 0 <= k < |cs[1..]| ==> IsPunct(cs[1..][k])
    ensures At(data, i + 1, GlyphCodes(cs[1..]))
  {
    GlyphInTable(t, cs[0]);
    assert data[i + 0] == GlyphCodes(cs)[0];
    forall k | 0 <= k < |cs[1..]|
      ensures data[i + 1 + k] == GlyphCodes(cs[1..])[k]
    {
      assert data[i + (k + 1)] == GlyphCodes(cs)[k + 1];
    }
  }

  /** A glyph code: one pass writes the glyph, with no space before it. */
  lemma {:induction false} StepGlyph(t: Table, data: seq<Byte>, begin: nat, i: nat, out: string, p: char, j: nat, text: string)
    requires i < |data| && data[i] in t.fromCode && t.fromCode[data[i]] == Word([p]) && IsPunct(p)
    requires j == i + 1 && text == out + [p]
    ensures StepAt(t, data, begin, i, out) == Next(j, text)
  {
    assert Gap(i != begin, [p]) == "";
    assert text == out + Gap(i != begin, [p]) + [p];
  }

  /**
   * Decoding a run of glyph codes writes the glyphs, with no space before
   * any of them: from position `i` with `out` the loop reaches position `j`
   * with `text`.
   */
  lemma {:induction false} RunGlyphs(t: Table, data: seq<Byte>, begin: nat, i: nat, out: string, cs: string, j: nat, text: string)
    requires WellFormed(t)
    requires forall k :: 0 <= k < |cs| ==> IsPunct(cs[k])
    requires At(data, i, GlyphCodes(cs))
    requires j == i + |cs| && text == out + cs
    ensures Run(t, data, begin, i, out) == Run(t, data, begin, j, text)
    decreases |cs|
  {
    if cs != [] {
      GlyphsHead(t, data, i, cs);
      var next := out + [cs[0]];
      StepGlyph(t, data, begin, i, out, cs[0], i + 1, next);
      RunNext(t, data, begin, i, out);
      ConsSplit(out, cs, text);
      RunGlyphs(t, data, begin, i + 1, next, cs[1..], j, text);
    } else {
      AppendNothing(out, cs, text);
    }
  }

  /** The bytes of ASCII text `s` from position `j`, then 0xfe at position `e`. */
  ghost predicate AsciiThenEnd(data: seq<Byte>, j: nat, s: string, e: nat) {
    AllAscii(s) && e == j + |s| && e < |data| && data[e] == EndAsciiCode &&
    forall k :: 0 <= k < |s| ==> data[j + k] == s[k] as int
  }

  lemma {:induction false} AsciiThenEndTail(data: seq<Byte>, j: nat, s: string, e: nat)
    requires s != [] && AsciiThenEnd(data, j, s, e)
    ensures data[j] == s[0] as int && data[j] != EndAsciiCode && data[j] < 0x80
    ensures AsciiThenEnd(data, j + 1, s[1..], e)
  {
    assert data[j + 0] == s[0] as int;
    forall k | 0 <= k < |s[1..]|
      ensures data[j + 1 + k] == s[1..][k] as int
    {
      assert data[j + (k + 1)] == s[k + 1] as int;
    }
  }

  /** An escape region holding ASCII text `s` gives that text back and stops at position `e`. */
  lemma {:induction false} EscapeAscii(data: seq<Byte>, j: nat, acc: string, s: string, e: nat, text: string)
    requires AsciiThenEnd(data, j, s, e)
    requires text == acc + s
    ensures Escape(data, j, acc) == Success((text, e))
    decreases |s|
  {
    if s != [] {
      AsciiThenEndTail(data, j, s, e);
      var acc' := acc + [s[0]];
      assert [data[j] as char] == [s[0]];
      ConsSplit(acc, s, text);
      EscapeAscii(data, j + 1, acc', s[1..], e, text);
    } else {
      AppendNothing(acc, s, text);
    }
  }

  /** The bytes of ASCII text `s` from position `j`, then at position `e` a byte that is neither ASCII nor 0xfe. */
  ghost predicate AsciiThenOther(data: seq<Byte>, j: nat, s: string, e: nat) {
    AllAscii(s) && e == j + |s| && e < |data| && 0x80 <= data[e] < 0xF8 &&
    forall k :: 0 <= k < |s| ==> data[j + k] == s[k] as int
  }

  lemma {:induction false} AsciiThenOtherTail(data: seq<Byte>, j: nat, s: string, e: nat)
    requires s != [] && AsciiThenOther(data, j, s, e)
    ensures data[j] == s[0] as int && data[j] != EndAsciiCode && data[j] < 0x80
    ensures AsciiThenOther(data, j + 1, s[1..], e)
  {
    assert data[j + 0] == s[0] as int;
    forall k | 0 <= k < |s[1..]|
      ensures data[j + 1 + k] == s[1..][k] as int
    {
      assert data[j + (k + 1)] == s[k + 1] as int;
    }
  }

  /** An escape region stops at position `e`, its first byte that is neither ASCII nor 0xfe. */
  lemma {:induction false} EscapeStops(data: seq<Byte>, j: nat, acc: string, s: string, e: nat)
    requires AsciiThenOther(data, j, s, e)
    ensures Escape(data, j, acc) == Failure(NotAscii(data[e]))
    decreases |s|
  {
    if s != [] {
      AsciiThenOtherTail(data, j, s, e);
      EscapeStops(data, j + 1, acc + [s[0]], s[1..], e);
    }
  }

  /**
   * The escape region `compress` writes for `tok`, read from position `j`:
   * `tok` comes back and the region ends at `e`, or it stops at the first
   * non-ASCII byte.
   */
  lemma {:induction false} EscapeOfUtf8(data: seq<Byte>, j: nat, acc: string, tok: string, e: nat, text: string)
    requires At(data, j, Utf8(tok) + [EndAsciiCode])
    requires AllAscii(tok) ==> e == j + |tok| && text == acc + tok
    ensures AllAscii(tok) ==> Escape(data, j, acc) == Success((text, e))
    ensures !AllAscii(tok) ==> Escape(data, j, acc) == Failure(NotAscii(FirstNonAsciiByte(tok)))
  {
    var u := Utf8(tok);
    forall k | 0 <= k < |u|
      ensures data[j + k] == u[k]
    {
      assert (u + [EndAsciiCode])[k] == u[k];
    }
    if AllAscii(tok) {
      Utf8OfAscii(tok);
      assert data[j + |u|] == (u + [EndAsciiCode])[|u|];
      assert AsciiThenEnd(data, j, tok, e);
      EscapeAscii(data, j, acc, tok, e, text);
    } else {
      Utf8OfMixed(tok);
      var n := AsciiPrefixLength(tok);
      var s := tok[..n];
      var stop := j + n;
      assert AsciiThenOther(data, j, s, stop);
      EscapeStops(data, j, acc, s, stop);
    }
  }

  /** The pass over the escape region `compress` writes for an unknown piece. */
  lemma {:induction false} StepEscapedPiece(t: Table, data: seq<Byte>, begin: nat, i: nat, out: string, tok: string, j: nat, text: string)
    requires WellFormed(t)
    requires At(data, i, [BeginAsciiCode] + (Utf8(tok) + [EndAsciiCode]))
    requires AllAscii(tok) ==> j == i + (|tok| + 2) && text == out + (if i != begin then " " else "") + tok
    ensures AllAscii(tok) ==> StepAt(t, data, begin, i, out) == Next(j, text)
    ensures !AllAscii(tok) ==> StepAt(t, data, begin, i, out) == Stop(Failed(NotAscii(FirstNonAsciiByte(tok))))
  {
    MarkersInTable(t);
    var start := i + 1;
    AtSplit(data, i, [BeginAsciiCode], Utf8(tok) + [EndAsciiCode]);
    assert data[i + 0] == [BeginAsciiCode][0];
    StepEscapeRegion(t, data, begin, i, out);
    var e := i + (|tok| + 1);
    EscapeOfUtf8(data, start, out + (if i != begin then " " else ""), tok, e, text);
  }

  /** What `compress` writes for a known word, and what one pass makes of it. */
  lemma {:induction false} KnownWordFacts(t: Table, tok: string, first: bool)
    requires WellFormed(t)
    requires Word(LookupKey(tok)) in t.toCode
    ensures var key := LookupKey(tok);
      var c := t.toCode[Word(key)];
      c in t.fromCode && t.fromCode[c] == Word(key) &&
      WordText(t, tok, first).Success? &&
      if Capitalised(tok) then
        MarkerPart(t, tok) + WordPart(t, tok) == [StartUppercaseCode, c] &&
        WordText(t, tok, first).value == Gap(true, key) + FirstUppercase(key)
      else
        MarkerPart(t, tok) + WordPart(t, tok) == [c] &&
        WordText(t, tok, first).value == Gap(!first, key) + key
  {
    MarkersInTable(t);
    var key := LookupKey(tok);
    assert TokenHolds(t, Word(key));
    if Capitalised(tok) {
      assert key[0] == ToLower(Bare(tok)[0]);
      assert Gap(true, key) == " ";
    }
  }

  /** The marker and word bytes of a known word: one pass writes `WordText` of it and ends at `j`. */
  lemma {:induction false} StepKnownWord(t: Table, data: seq<Byte>, begin: nat, i: nat, out: string, tok: string, j: nat, text: string)
    requires WellFormed(t)
    requires begin <= i
    requires Word(LookupKey(tok)) in t.toCode
    requires At(data, i, MarkerPart(t, tok) + WordPart(t, tok))
    requires j == i + |MarkerPart(t, tok) + WordPart(t, tok)|
    requires WordText(t, tok, i == begin).Success? ==> text == out + WordText(t, tok, i == begin).value
    ensures WordText(t, tok, i == begin).Success?
    ensures StepAt(t, data, begin, i, out) == Next(j, text)
  {
    var first := i == begin;
    KnownWordFacts(t, tok, first);
    MarkersInTable(t);
    var key := LookupKey(tok);
    var mw := MarkerPart(t, tok) + WordPart(t, tok);
    var c := t.toCode[Word(key)];
    if Capitalised(tok) {
      assert data[i + 0] == mw[0] && data[i + 1] == mw[1];
      Concat3(out, Gap(true, key), FirstUppercase(key));
      StepUppercaseWord(t, data, begin, i, out, key);
    } else {
      assert data[i + 0] == mw[0];
      Concat3(out, Gap(!first, key), key);
      StepWordCode(t, data, begin, i, out, key);
    }
  }

  /** The marker and word bytes of an unknown piece that is not capitalised. */
  lemma {:induction false} StepUnknownWord(t: Table, data: seq<Byte>, begin: nat, i: nat, out: string, tok: string, j: nat, text: string)
    requires WellFormed(t)
    requires begin <= i
    requires Word(LookupKey(tok)) !in t.toCode && !Capitalised(tok)
    requires At(data, i, MarkerPart(t, tok) + WordPart(t, tok))
    requires j == i + |MarkerPart(t, tok) + WordPart(t, tok)|
    requires WordText(t, tok, i == begin).Success? ==> text == out + WordText(t, tok, i == begin).value
    ensures var h := WordText(t, tok, i == begin);
      StepAt(t, data, begin, i, out) == if h.Success? then Next(j, text) else Stop(Failed(h.error))
  {
    var m, w := MarkerPart(t, tok), WordPart(t, tok);
    assert m + w == [BeginAsciiCode] + (Utf8(tok) + [EndAsciiCode]);
    if AllAscii(tok) {
      Utf8OfAscii(tok);
      var sp := if i != begin then " " else "";
      Concat3(out, sp, tok);
    }
    StepEscapedPiece(t, data, begin, i, out, tok, j, text);
  }

  /** One pass over the marker and word bytes of a piece gives `WordText` of it and ends at `j`. */
  lemma {:induction false} StepWordText(t: Table, data: seq<Byte>, begin: nat, i: nat, out: string, tok: string, j: nat, text: string)
    requires WellFormed(t)
    requires begin <= i
    requires At(data, i, MarkerPart(t, tok) + WordPart(t, tok))
    requires j == i + |MarkerPart(t, tok) + WordPart(t, tok)|
    requires WordText(t, tok, i == begin).Success? ==> text == out + WordText(t, tok, i == begin).value
    ensures var h := WordText(t, tok, i == begin);
      StepAt(t, data, begin, i, out) == if h.Success? then Next(j, text) else Stop(Failed(h.error))
  {
    if Word(LookupKey(tok)) in t.toCode {
      StepKnownWord(t, data, begin, i, out, tok, j, text);
    } else if Capitalised(tok) {
      var mw := MarkerPart(t, tok) + WordPart(t, tok);
      MarkersInTable(t);
      assert data[i + 0] == mw[0] && data[i + 1] == mw[1];
    } else {
      StepUnknownWord(t, data, begin, i, out, tok, j, text);
    }
  }

  /** The bytes of a piece: its marker and word bytes, then the codes of its glyphs in reverse order. */
  lemma {:induction false} PieceLayout(t: Table, data: seq<Byte>, i: nat, tok: string)
    requires WellFormed(t)
    requires At(data, i, EncodeToken(t, tok))
    ensures At(data, i, MarkerPart(t, tok) + WordPart(t, tok))
    ensures forall k :: 0 <= k < |Reverse(TrailingGlyphs(tok))| ==> IsPunct(Reverse(TrailingGlyphs(tok))[k])
    ensures At(data, i + |MarkerPart(t, tok) + WordPart(t, tok)|, GlyphCodes(Reverse(TrailingGlyphs(tok))))
    ensures |EncodeToken(t, tok)| == |MarkerPart(t, tok) + WordPart(t, tok)| + |Reverse(TrailingGlyphs(tok))|
  {
    var mw, g := MarkerPart(t, tok) + WordPart(t, tok), TrailingCodes(tok);
    assert EncodeToken(t, tok) == mw + g;
    AtSplit(data, i, mw, g);
    TrailingCodesReversed(tok);
  }

  /** The text of a piece that decodes: its word text, then its glyphs in reverse order. */
  lemma {:induction false} PieceText(t: Table, tok: string, first: bool, out: string, text: string)
    requires WellFormed(t)
    requires Piece(t, tok, first).Success? && text == out + Piece(t, tok, first).value
    ensures WordText(t, tok, first).Success?
    ensures text == (out + WordText(t, tok, first).value) + Reverse(TrailingGlyphs(tok))
  {
    Concat3(out, WordText(t, tok, first).value, Reverse(TrailingGlyphs(tok)));
  }

  /** Decoding the bytes of one piece gives `Piece` of it; when it succeeds, the loop reaches `j` with `text`. */
  lemma {:induction false} RunPiece(t: Table, data: seq<Byte>, begin: nat, i: nat, out: string, tok: string, j: nat, text: string)
    requires WellFormed(t)
    requires begin <= i
    requires At(data, i, EncodeToken(t, tok))
    requires j == i + |EncodeToken(t, tok)|
    requires Piece(t, tok, i == begin).Success? ==> text == out + Piece(t, tok, i == begin).value
    ensures Piece(t, tok, i == begin).Success? ==> Run(t, data, begin, i, out) == Run(t, data, begin, j, text)
    ensures Piece(t, tok, i == begin).Failure? ==> Run(t, data, begin, i, out) == Failed(Piece(t, tok, i == begin).error)
  {
    PieceLayout(t, data, i, tok);
    var h := WordText(t, tok, i == begin);
    var mid := i + |MarkerPart(t, tok) + WordPart(t, tok)|;
    var midText := if h.Success? then out + h.value else out;
    StepWordText(t, data, begin, i, out, tok, mid, midText);
    if h.Success? {
      PieceText(t, tok, i == begin, out, text);
      RunNext(t, data, begin, i, out);
      RunGlyphs(t, data, begin, mid, midText, Reverse(TrailingGlyphs(tok)), j, text);
    } else {
      RunStop(t, data, begin, i, out);
    }
  }

  /** Every piece writes at least one byte. */
  lemma {:induction false} EncodeTokenNonEmpty(t: Table, tok: string)
    requires WellFormed(t)
    ensures |EncodeToken(t, tok)| >= 1
  {
  }

  /** Rendering a non-empty sequence of pieces: the first piece, then the rest, or the first piece's error. */
  lemma {:induction false} RenderFromCons(t: Table, toks: seq<string>, first: bool, out: string, text: string)
    requires WellFormed(t)
    requires toks != []
    requires Piece(t, toks[0], first).Success? ==> text == out + Piece(t, toks[0], first).value
    ensures Piece(t, toks[0], first).Success? ==> RenderFrom(t, toks, first, out) == RenderFrom(t, toks[1..], false, text)
    ensures Piece(t, toks[0], first).Failure? ==> RenderFrom(t, toks, first, out) == Failed(Piece(t, toks[0], first).error)
  {
  }

  /** Byte strings written one after the other. */
  function Concat(parts: seq<seq<Byte>>): seq<Byte> {
    if parts == [] then [] else parts[0] + Concat(parts[1..])
  }

  /** The bytes from position `i` to the end of `data` are the parts, one after the other. */
  ghost predicate PartsAt(data: seq<Byte>, i: nat, parts: seq<seq<Byte>>)
    decreases |parts|
  {
    if parts == [] then i == |data|
    else At(data, i, parts[0]) && PartsAt(data, i + |parts[0]|, parts[1..])
  }

  /** Whatever precedes it, a sequence ends with its last part, laid out at the end of the first. */
  lemma {:induction false} ConcatAt(data: seq<Byte>, pre: seq<Byte>, e: seq<Byte>, rest: seq<Byte>)
    requires data == pre + (e + rest)
    ensures At(data, |pre|, e) && data == (pre + e) + rest && |pre + e| == |pre| + |e|
  {
    forall j | |pre| <= j < |pre| + |e|
      ensures data[j] == e[j - |pre|]
    {
      assert data[j] == (e + rest)[j - |pre|];
    }
  }

  /** After a prefix, a concatenation lies part by part to the end of the sequence. */
  lemma {:induction false} PrefixPartsAt(data: seq<Byte>, pre: seq<Byte>, parts: seq<seq<Byte>>)
    requires data == pre + Concat(parts)
    ensures PartsAt(data, |pre|, parts)
    decreases |parts|
  {
    if parts == [] {
      assert data == pre + [];
    } else {
      ConcatAt(data, pre, parts[0], Concat(parts[1..]));
      PrefixPartsAt(data, pre + parts[0], parts[1..]);
    }
  }

  /** The bytes of each piece, piece by piece. */
  function Encodings(t: Table, toks: seq<string>): (parts: seq<seq<Byte>>)
    requires WellFormed(t)
    ensures |parts| == |toks|
  {
    if toks == [] then [] else [EncodeToken(t, toks[0])] + Encodings(t, toks[1..])
  }

  lemma {:induction false} EncodingsCons(t: Table, toks: seq<string>)
    requires WellFormed(t) && toks != []
    ensures Encodings(t, toks)[0] == EncodeToken(t, toks[0])
    ensures Encodings(t, toks)[1..] == Encodings(t, toks[1..])
  {
    assert Encodings(t, toks) == [EncodeToken(t, toks[0])] + Encodings(t, toks[1..]);
  }

  /** The body of the stream is the concatenation of the pieces' bytes. */
  lemma {:induction false} EncodeTokensConcat(t: Table, toks: seq<string>)
    requires WellFormed(t)
    ensures EncodeTokens(t, toks) == Concat(Encodings(t, toks))
    decreases |toks|
  {
    if toks != [] {
      EncodingsCons(t, toks);
      EncodeTokensConcat(t, toks[1..]);
    }
  }

  /** Decoding the bytes of a sequence of pieces, to the end of the stream, gives `RenderFrom`. */
  lemma {:induction false} RunPieces(t: Table, data: seq<Byte>, begin: nat, i: nat, out: string, toks: seq<string>)
    requires WellFormed(t)
    requires begin <= i
    requires PartsAt(data, i, Encodings(t, toks))
    ensures Run(t, data, begin, i, out) == RenderFrom(t, toks, i == begin, out)
    decreases |toks|
  {
    if toks != [] {
      EncodingsCons(t, toks);
      var p := Piece(t, toks[0], i == begin);
      var j := i + |EncodeToken(t, toks[0])|;
      var text := if p.Success? then out + p.value else out;
      RunPiece(t, data, begin, i, out, toks[0], j, text);
      RenderFromCons(t, toks, i == begin, out, text);
      if p.Success? {
        EncodeTokenNonEmpty(t, toks[0]);
        RunPieces(t, data, begin, j, text, toks[1..]);
      }
    }
  }

  /** Every stream `compress` writes passes `verify`. */
  lemma {:induction false} CompressedHasHeader(t: Table, v: Version, text: string)
    requires WellFormed(t)
    ensures HasHeader(Compressed(t, v, text))
  {
    assert Compressed(t, v, text)[..3] == Header(v)[..3];
  }

  /** Decompressing what `compress` wrote gives `Render` of the pieces of the text. */
  lemma {:induction false} DecodeOfCompressed(t: Table, v: Version, text: string)
    requires WellFormed(t)
    ensures Decode(t, Compressed(t, v, text)) == Render(t, SplitOnSpace(text))
  {
    var data := Compressed(t, v, text);
    CompressedHasHeader(t, v, text);
    EncodeTokensConcat(t, SplitOnSpace(text));
    PrefixPartsAt(data, Header(v), Encodings(t, SplitOnSpace(text)));
    RunPieces(t, data, HeaderLength, HeaderLength, "", SplitOnSpace(text));
  }

  // ---------------------------------------------------------------------
  // Consequences for whole texts

  /** Rendering never reports a hang: it ends with the text or the first piece's error. */
  lemma {:induction false} RenderFromNeverHangs(t: Table, toks: seq<string>, first: bool, out: string)
    requires WellFormed(t)
    ensures RenderFrom(t, toks, first, out) != Hangs
    decreases |toks|
  {
    if toks != [] {
      var p := Piece(t, toks[0], first);
      if p.Success? {
        RenderFromNeverHangs(t, toks[1..], false, out + p.value);
      }
    }
  }

  /** Whether a piece decodes does not depend on where it stands. */
  lemma {:induction false} PieceFailsAnywhere(t: Table, tok: string, first: bool)
    requires WellFormed(t)
    ensures Piece(t, tok, first).Success? == Piece(t, tok, false).Success?
  {
  }

  /** Rendering ends with a text exactly when every piece decodes. */
  lemma {:induction false} RenderFromDecodedIff(t: Table, toks: seq<string>, first: bool, out: string)
    requires WellFormed(t)
    ensures RenderFrom(t, toks, first, out).Decoded? <==>
      forall k :: 0 <= k < |toks| ==> Piece(t, toks[k], false).Success?
    decreases |toks|
  {
    if toks != [] {
      var p := Piece(t, toks[0], first);
      PieceFailsAnywhere(t, toks[0], first);
      if p.Success? {
        RenderFromDecodedIff(t, toks[1..], false, out + p.value);
        assert forall k :: 1 <= k < |toks| ==> toks[k] == toks[1..][k - 1];
      }
    }
  }

  /** What rendering ends with starts with the text before it. */
  lemma {:induction false} RenderFromExtends(t: Table, toks: seq<string>, first: bool, out: string)
    requires WellFormed(t)
    requires RenderFrom(t, toks, first, out).Decoded?
    ensures out <= RenderFrom(t, toks, first, out).text
    decreases |toks|
  {
    if toks != [] {
      var p := Piece(t, toks[0], first);
      RenderFromExtends(t, toks[1..], false, out + p.value);
    }
  }

  /**
   * A piece that comes back unchanged: it starts with neither an upper-case
   * letter nor a glyph, and it is either a known word followed by at most
   * one glyph, or ASCII text with no trailing glyph.
   */
  ghost predicate Plain(t: Table, tok: string) {
    && (tok == [] || (!IsUpper(tok[0]) && !IsPunct(tok[0])))
    && if Word(Bare(tok)) in t.toCode then TrailingPunctLength(tok) <= 1
       else AllAscii(tok) && TrailingPunctLength(tok) == 0
  }

  /** A plain piece decodes to itself, after a space unless it is first. */
  lemma {:induction false} PlainPiece(t: Table, tok: string, first: bool)
    requires WellFormed(t) && Plain(t, tok)
    ensures Piece(t, tok, first) == Success((if first then "" else " ") + tok)
  {
    var sp := if first then "" else " ";
    var bare, glyphs := Bare(tok), TrailingGlyphs(tok);
    TokenSplit(tok);
    if tok != [] {
      assert bare != [] && bare[0] == tok[0];
    }
    assert !Capitalised(tok) && LookupKey(tok) == bare;
    if Word(bare) in t.toCode {
      assert Gap(!first, bare) == sp;
      assert Reverse(glyphs) == glyphs;
      Concat3(sp, bare, glyphs);
    } else {
      assert glyphs == [] && bare == tok;
      assert (sp + tok) + Reverse(glyphs) == sp + tok;
    }
  }

  /** Joining pieces after a space: the first piece, then the rest after a space. */
  lemma {:induction false} JoinAfterSpace(out: string, toks: seq<string>)
    requires toks != []
    ensures |toks| == 1 ==> out + " " + JoinWithSpace(toks) == out + (" " + toks[0])
    ensures |toks| > 1 ==> out + " " + JoinWithSpace(toks) == (out + (" " + toks[0])) + " " + JoinWithSpace(toks[1..])
  {
  }

  /** Plain pieces after the first come back with one space before each. */
  lemma {:induction false} RenderPlainRest(t: Table, toks: seq<string>, out: string)
    requires WellFormed(t)
    requires toks != [] && forall k :: 0 <= k < |toks| ==> Plain(t, toks[k])
    ensures RenderFrom(t, toks, false, out) == Decoded(out + " " + JoinWithSpace(toks))
    decreases |toks|
  {
    PlainPiece(t, toks[0], false);
    var next := out + (" " + toks[0]);
    RenderFromCons(t, toks, false, out, next);
    JoinAfterSpace(out, toks);
    if |toks| > 1 {
      RenderPlainRest(t, toks[1..], next);
    }
  }

  /** Plain pieces come back joined with single spaces. */
  lemma {:induction false} RenderPlain(t: Table, toks: seq<string>)
    requires WellFormed(t)
    requires forall k :: 0 <= k < |toks| ==> Plain(t, toks[k])
    ensures Render(t, toks) == Decoded(JoinWithSpace(toks))
  {
    if toks != [] {
      PlainPiece(t, toks[0], true);
      var first := "" + toks[0];
      assert first == toks[0];
      RenderFromCons(t, toks, true, "", first);
      if |toks| > 1 {
        RenderPlainRest(t, toks[1..], first);
      }
    }
  }

  /** A text whose space-separated pieces are all plain survives compression unchanged. */
  lemma {:induction false} PlainTextRoundTrip(t: Table, v: Version, text: string)
    requires WellFormed(t)
    requires forall k :: 0 <= k < |SplitOnSpace(text)| ==> Plain(t, SplitOnSpace(text)[k])
    ensures Decode(t, Compressed(t, v, text)) == Decoded(text)
  {
    DecodeOfCompressed(t, v, text);
    RenderPlain(t, SplitOnSpace(text));
  }

  /**
   * A stream `compress` wrote never makes `decompress` hang, and it decodes
   * exactly when every piece of the text does.
   */
  lemma {:induction false} CompressedNeverHangs(t: Table, v: Version, text: string)
    requires WellFormed(t)
    ensures Decode(t, Compressed(t, v, text)) != Hangs
    ensures Decode(t, Compressed(t, v, text)).Decoded? <==>
      forall k :: 0 <= k < |SplitOnSpace(text)| ==> Piece(t, SplitOnSpace(text)[k], false).Success?
  {
    DecodeOfCompressed(t, v, text);
    RenderFromNeverHangs(t, SplitOnSpace(text), true, "");
    RenderFromDecodedIff(t, SplitOnSpace(text), true, "");
  }

  /**
   * A text that starts with a capitalised known word decodes, when it
   * decodes, to text that starts with a space.
   */
  lemma {:induction false} CapitalisedFirstWordGetsSpace(t: Table, v: Version, text: string)
    requires WellFormed(t)
    requires Capitalised(SplitOnSpace(text)[0]) && Word(LookupKey(SplitOnSpace(text)[0])) in t.toCode
    ensures Decode(t, Compressed(t, v, text)).Decoded? ==>
      |Decode(t, Compressed(t, v, text)).text| > 0 && Decode(t, Compressed(t, v, text)).text[0] == ' '
  {
    var toks := SplitOnSpace(text);
    DecodeOfCompressed(t, v, text);
    CapitalisedPiece(t, toks[0], true);
    var p := Piece(t, toks[0], true);
    RenderFromCons(t, toks, true, "", "" + p.value);
    if Render(t, toks).Decoded? {
      RenderFromExtends(t, toks[1..], false, "" + p.value);
    }
  }

  /** A capitalised known word decodes to text that starts with a space. */
  lemma {:induction false} CapitalisedPiece(t: Table, tok: string, first: bool)
    requires WellFormed(t)
    requires Capitalised(tok) && Word(LookupKey(tok)) in t.toCode
    ensures Piece(t, tok, first).Success? && |Piece(t, tok, first).value| > 0 && Piece(t, tok, first).value[0] == ' '
  {
    var w := WordText(t, tok, first).value;
    assert w[0] == ' ';
    assert (w + Reverse(TrailingGlyphs(tok)))[0] == ' ';
  }

  /** A text that starts with a capitalised unknown piece does not decode. */
  lemma {:induction false} CapitalisedUnknownFirstWordFails(t: Table, v: Version, text: string)
    requires WellFormed(t)
    requires Capitalised(SplitOnSpace(text)[0]) && Word(LookupKey(SplitOnSpace(text)[0])) !in t.toCode
    ensures Decode(t, Compressed(t, v, text)) == Failed(MarkerAfterUppercase(BeginAscii))
  {
    DecodeOfCompressed(t, v, text);
  }

  /** In a table built from the vocabulary ["toki"], "toki" has a code and "hi" has none. */
  lemma {:induction false} TokiTable(t: Table)
    requires BuiltFrom(t, ["toki"])
    ensures Word("toki") in t.toCode && Word("hi") !in t.toCode
  {
    assert 0 !in Reserved && 0 in t.fromCode;
    assert t.fromCode[0].text in ["toki"];
    assert CodeHolds(t, 0);
    forall c | c in t.fromCode
      ensures t.fromCode[c] != Word("hi")
    {
      if c in Reserved {
        assert ReservedHolds(t, c);
      }
    }
    assert TokenHolds(t, Word("hi"));
  }

  /** Decoding the stream for a text without spaces gives `Piece` of the whole text. */
  lemma {:induction false} SinglePiece(t: Table, v: Version, text: string)
    requires WellFormed(t) && ' ' !in text
    ensures Piece(t, text, true).Success? ==> Decode(t, Compressed(t, v, text)) == Decoded(Piece(t, text, true).value)
  {
    DecodeOfCompressed(t, v, text);
    SplitWithoutSpace(text);
    var p := Piece(t, text, true);
    if p.Success? {
      assert RenderFrom(t, [text], true, "") == RenderFrom(t, [], false, "" + p.value);
      assert "" + p.value == p.value;
    }
  }

  /** A token made of a bare part that does not end in a glyph, then a run of glyphs. */
  lemma {:induction false} TrailingSplit(s: string, bare: string, glyphs: string)
    requires s == bare + glyphs
    requires forall k :: 0 <= k < |glyphs| ==> IsPunct(glyphs[k])
    requires bare == [] || !IsPunct(bare[|bare| - 1])
    ensures Bare(s) == bare && TrailingGlyphs(s) == glyphs
  {
    forall k | |bare| <= k < |s|
      ensures IsPunct(s[k])
    {
      assert s[k] == glyphs[k - |bare|];
    }
    if bare != [] {
      assert s[|bare| - 1] == bare[|bare| - 1];
    }
    TrailingRunIs(s, |glyphs|);
  }

  /** The piece "toki!?" with "toki" in the table: the word, then its two glyphs swapped. */
  lemma {:induction false} KnownWordPiece(t: Table)
    requires WellFormed(t) && Word("toki") in t.toCode
    ensures Piece(t, "toki!?", true) == Success("toki?!")
  {
    var s := "toki!?";
    TrailingSplit(s, "toki", "!?");
    assert Reverse(TrailingGlyphs(s)) == "?!";
    assert !Capitalised(s) && LookupKey(s) == "toki";
    assert Gap(false, "toki") + "toki" == "toki";
    assert WordText(t, s, true) == Success("toki");
    assert "toki" + "?!" == "toki?!";
  }

  /** With the vocabulary ["toki"], the trailing glyphs of a known word come back in reverse order. */
  lemma {:induction false} KnownWordGlyphsReversed(t: Table, v: Version)
    requires BuiltFrom(t, ["toki"])
    ensures Decode(t, Compressed(t, v, "toki!?")) == Decoded("toki?!")
  {
    TokiTable(t);
    KnownWordPiece(t);
    SinglePiece(t, v, "toki!?");
  }

  /**
   * A piece that is ASCII, not capitalised and not a known word comes back
   * whole, after a space unless it is first, followed by its trailing glyphs
   * in reverse order.
   */
  lemma {:induction false} UnknownAsciiPiece(t: Table, tok: string, first: bool)
    requires WellFormed(t) && !Capitalised(tok) && Word(Bare(tok)) !in t.toCode && AllAscii(tok)
    ensures Piece(t, tok, first) == Success((if first then "" else " ") + tok + Reverse(TrailingGlyphs(tok)))
  {
  }

  /** The token "hi.": the bare word "hi", one trailing ".", ASCII and not capitalised. */
  lemma {:induction false} HiToken()
    ensures Bare("hi.") == "hi" && TrailingGlyphs("hi.") == "."
    ensures !Capitalised("hi.") && AllAscii("hi.")
  {
    var s := "hi.";
    TrailingSplit(s, "hi", ".");
    assert IsAscii(s[0]) && IsAscii(s[1]) && IsAscii(s[2]);
  }

  /** The piece "hi." with "hi" not in the table: the whole piece, then its glyph again. */
  lemma {:induction false} UnknownWordPiece(t: Table)
    requires WellFormed(t) && Word("hi") !in t.toCode
    ensures Piece(t, "hi.", true) == Success("hi..")
  {
    HiToken();
    UnknownAsciiPiece(t, "hi.", true);
    assert Reverse(".") == ".";
    assert "" + "hi." + "." == "hi..";
  }

  /** With the vocabulary ["toki"], an unknown piece comes back with its trailing glyph twice. */
  lemma {:induction false} UnknownWordGlyphsTwice(t: Table, v: Version)
    requires BuiltFrom(t, ["toki"])
    ensures Decode(t, Compressed(t, v, "hi.")) == Decoded("hi..")
  {
    TokiTable(t);
    UnknownWordPiece(t);
    SinglePiece(t, v, "hi.");
  }

  /** The piece "Toki" with "toki" in the table: a space, then the word capitalised again. */
  lemma {:induction false} CapitalisedWordPiece(t: Table)
    requires WellFormed(t) && Word("toki") in t.toCode
    ensures Piece(t, "Toki", true) == Success(" Toki")
  {
    var s := "Toki";
    TrailingSplit(s, s, "");
    assert Lowercase(s) == "toki";
    assert FirstUppercase("toki") == "Toki";
    assert Capitalised(s) && LookupKey(s) == "toki";
    assert " " + FirstUppercase("toki") == " Toki";
    assert WordText(t, s, true) == Success(" Toki");
    assert " Toki" + Reverse(TrailingGlyphs(s)) == " Toki";
  }

  /** With the vocabulary ["toki"], a capitalised known word at the start gains a space. */
  lemma {:induction false} CapitalisedWordSpaced(t: Table, v: Version)
    requires BuiltFrom(t, ["toki"])
    ensures Decode(t, Compressed(t, v, "Toki")) == Decoded(" Toki")
  {
    TokiTable(t);
    CapitalisedWordPiece(t);
    SinglePiece(t, v, "Toki");
  }
}
