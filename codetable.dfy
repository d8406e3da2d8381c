/**
 * The code table (`Words`) and its builder (`gen_conversions`): vocabulary
 * words get their rank in sorted order as a one-byte code, then ten reserved
 * codes are overwritten with seven glyphs and three control markers, and the
 * word-to-code direction is built by inverting the code-to-word direction.
 */
module CodeTable {
  import opened Text

  /** The control markers (`Special`), with the codes the source gives them. */
  datatype Marker = StartUppercase | BeginAscii | EndAscii

  /** `WordOrSpecial`: a word or glyph, or a control marker. */
  datatype Token = Word(text: string) | Special(marker: Marker)

  /** `Words`: the two directions of the code table. */
  datatype Table = Table(toCode: map<Token, Byte>, fromCode: map<Byte, Token>)

  const StartUppercaseCode: Byte := 0xf8
  const BeginAsciiCode: Byte := 0xff
  const EndAsciiCode: Byte := 0xfe

  /** The ten codes the builder writes over the ranked vocabulary. */
  const Reserved: map<Byte, Token> := map[
    0xfd := Word("."), 0xfc := Word(","), 0xfb := Word(":"), 0xfa := Word("!"),
    0xf9 := Word("?"), 0xf7 := Word("\n"), 0xf6 := Word("\t"),
    BeginAsciiCode := Special(BeginAscii), EndAsciiCode := Special(EndAscii),
    StartUppercaseCode := Special(StartUppercase)]

  /** The reserved code of a glyph. */
  function GlyphCode(p: char): (c: Byte)
    requires IsPunct(p)
    ensures c in Reserved && Reserved[c] == Word([p])
  {
    match p
    case '.' => 0xfd
    case ',' => 0xfc
    case ':' => 0xfb
    case '!' => 0xfa
    case '?' => 0xf9
    case '\n' => 0xf7
    case '\t' => 0xf6
  }

  /** The reserved codes are exactly the top ten bytes. */
  lemma {:induction false} ReservedRange(c: Byte)
    ensures c in Reserved <==> 0xf6 <= c
  {
  }

  /**
   * What every table the builder returns satisfies: the reserved entries are
   * present, and the two directions are inverse to each other.
   */
  ghost predicate WellFormed(t: Table) {
    && (forall c :: ReservedHolds(t, c))
    && (forall c :: CodeHolds(t, c))
    && (forall tok :: TokenHolds(t, tok))
  }

  /** A reserved code holds its reserved token. */
  ghost predicate ReservedHolds(t: Table, c: Byte) {
    c in Reserved ==> c in t.fromCode && t.fromCode[c] == Reserved[c]
  }

  /** The token under code c has code c. */
  ghost predicate CodeHolds(t: Table, c: Byte) {
    c in t.fromCode ==> t.fromCode[c] in t.toCode && t.toCode[t.fromCode[c]] == c
  }

  /** The code of tok holds tok. */
  ghost predicate TokenHolds(t: Table, tok: Token) {
    tok in t.toCode ==> t.toCode[tok] in t.fromCode && t.fromCode[t.toCode[tok]] == tok
  }

  lemma {:induction false} GlyphInTable(t: Table, p: char)
    requires WellFormed(t) && IsPunct(p)
    ensures Word([p]) in t.toCode && t.toCode[Word([p])] == GlyphCode(p)
    ensures GlyphCode(p) in t.fromCode && t.fromCode[GlyphCode(p)] == Word([p])
  {
    var c := GlyphCode(p);
    assert ReservedHolds(t, c);
    assert CodeHolds(t, c);
  }

  lemma {:induction false} MarkersInTable(t: Table)
    requires WellFormed(t)
    ensures StartUppercaseCode in t.fromCode && t.fromCode[StartUppercaseCode] == Special(StartUppercase)
    ensures BeginAsciiCode in t.fromCode && t.fromCode[BeginAsciiCode] == Special(BeginAscii)
    ensures EndAsciiCode in t.fromCode && t.fromCode[EndAsciiCode] == Special(EndAscii)
    ensures Special(StartUppercase) in t.toCode && t.toCode[Special(StartUppercase)] == StartUppercaseCode
    ensures Special(BeginAscii) in t.toCode && t.toCode[Special(BeginAscii)] == BeginAsciiCode
    ensures Special(EndAscii) in t.toCode && t.toCode[Special(EndAscii)] == EndAsciiCode
  {
    assert ReservedHolds(t, StartUppercaseCode) && ReservedHolds(t, BeginAsciiCode) && ReservedHolds(t, EndAsciiCode);
    assert CodeHolds(t, StartUppercaseCode) && CodeHolds(t, BeginAsciiCode) && CodeHolds(t, EndAsciiCode);
  }

  /** In a well-formed table the tokens with a code are exactly the tokens some code holds. */
  lemma {:induction false} CodedTokensAreHeld(t: Table)
    requires WellFormed(t)
    ensures forall tok :: tok in t.toCode <==> tok in t.fromCode.Values
  {
    forall tok
      ensures tok in t.toCode <==> tok in t.fromCode.Values
    {
      if tok in t.toCode {
        assert TokenHolds(t, tok);
      }
      if tok in t.fromCode.Values {
        var c :| c in t.fromCode && t.fromCode[c] == tok;
        assert CodeHolds(t, c);
      }
    }
  }

  // ---------------------------------------------------------------------
  // Sorting the vocabulary (`sort_by_key` on the word text)

  predicate Increasing(s: seq<string>) {
    forall i, j :: 0 <= i < j < |s| ==> Below(s[i], s[j])
  }

  predicate Distinct(s: seq<string>) {
    forall i, j :: 0 <= i < j < |s| ==> s[i] != s[j]
  }

  function Insert(w: string, s: seq<string>): (r: seq<string>)
    ensures multiset(r) == multiset(s) + multiset{w}
  {
    if s == [] || !Below(s[0], w) then [w] + s
    else
      assert s == [s[0]] + s[1..];
      [s[0]] + Insert(w, s[1..])
  }

  lemma {:induction false} InsertIncreasing(w: string, s: seq<string>)
    requires Increasing(s) && w !in s
    ensures Increasing(Insert(w, s))
  {
    var r := Insert(w, s);
    if s == [] {
    } else if !Below(s[0], w) {
      BelowTotal(w, s[0]);
      forall j | 1 <= j < |r| ensures Below(r[0], r[j]) {
        if j > 1 { BelowTransitive(w, s[0], s[j - 1]); }
      }
    } else {
      InsertIncreasing(w, s[1..]);
      var tail := Insert(w, s[1..]);
      forall j | 0 <= j < |tail| ensures Below(s[0], tail[j]) {
        assert tail[j] in multiset(tail);
        assert tail[j] == w || tail[j] in s[1..];
      }
    }
  }

  /** The vocabulary in ascending order. */
  function SortWords(ws: seq<string>): (r: seq<string>)
    ensures multiset(r) == multiset(ws)
  {
    if ws == [] then []
    else
      assert ws == [ws[0]] + ws[1..];
      Insert(ws[0], SortWords(ws[1..]))
  }

  lemma {:induction false} SortWordsIncreasing(ws: seq<string>)
    requires Distinct(ws)
    ensures Increasing(SortWords(ws))
  {
    if ws != [] {
      SortWordsIncreasing(ws[1..]);
      var s := SortWords(ws[1..]);
      assert ws[0] !in multiset(ws[1..]);
      InsertIncreasing(ws[0], s);
    }
  }

  // ---------------------------------------------------------------------
  // Ranks

  /** The code a word gets: how many vocabulary words sort below it. */
  function Rank(words: seq<string>, w: string): nat {
    |set v | v in words && Below(v, w)|
  }

  lemma {:induction false} IncreasingCount(s: seq<string>)
    requires Increasing(s)
    ensures |set v | v in s| == |s|
  {
    if s != [] {
      IncreasingCount(s[1..]);
      assert (set v | v in s) == {s[0]} + (set v | v in s[1..]);
      if s[0] in s[1..] {
        var j :| 0 <= j < |s[1..]| && s[1..][j] == s[0];
        assert Below(s[0], s[j + 1]);
        BelowIrreflexive(s[0]);
      }
    }
  }

  lemma {:induction false} ElementCount(s: seq<string>)
    ensures |set v | v in s| <= |s|
  {
    if s != [] {
      ElementCount(s[1..]);
      assert (set v | v in s) == {s[0]} + (set v | v in s[1..]);
    }
  }

  /** In the sorted vocabulary, the word at position c has rank c. */
  lemma {:induction false} RankOfSorted(words: seq<string>, sorted: seq<string>, c: nat)
    requires Increasing(sorted) && multiset(sorted) == multiset(words)
    requires c < |sorted|
    ensures sorted[c] in words && Rank(words, sorted[c]) == c
  {
    assert sorted[c] in multiset(words);
    var below := set v | v in words && Below(v, sorted[c]);
    var prefix := sorted[..c];
    forall v | v in below ensures v in prefix {
      assert v in multiset(sorted);
      var j :| 0 <= j < |sorted| && sorted[j] == v;
      if j == c {
        BelowIrreflexive(v);
      } else if j > c {
        BelowAsymmetric(sorted[c], sorted[j]);
      }
    }
    forall v | v in prefix ensures v in below {
      var j :| 0 <= j < c && sorted[j] == v;
      assert v in multiset(words);
    }
    assert below == set v | v in prefix;
    IncreasingCount(prefix);
  }

  lemma {:induction false} RankBelowSize(words: seq<string>, w: string)
    requires w in words
    ensures Rank(words, w) < |words|
  {
    var below := set v | v in words && Below(v, w);
    var all := set v | v in words;
    BelowIrreflexive(w);
    assert below <= all - {w};
    assert all - {w} == below + ((all - {w}) - below);
    assert |all - {w}| == |all| - 1;
    ElementCount(words);
  }

  /** A word that sorts below another has a smaller rank. */
  lemma {:induction false} RankMonotonic(words: seq<string>, x: string, y: string)
    requires x in words && Below(x, y)
    ensures Rank(words, x) < Rank(words, y)
  {
    var belowX := set v | v in words && Below(v, x);
    var belowY := set v | v in words && Below(v, y);
    forall v | v in belowX ensures v in belowY {
      BelowTransitive(v, x, y);
    }
    BelowIrreflexive(x);
    assert x in belowY - belowX;
    assert belowY == belowX + (belowY - belowX);
  }

  /** Distinct words have distinct ranks. */
  lemma {:induction false} RankInjective(words: seq<string>, x: string, y: string)
    requires x in words && y in words && x != y
    ensures Rank(words, x) != Rank(words, y)
  {
    BelowTotal(x, y);
    if Below(x, y) { RankMonotonic(words, x, y); } else { RankMonotonic(words, y, x); }
  }

  // ---------------------------------------------------------------------
  // The builder

  /**
   * What the builder needs of the vocabulary for its result to be well
   * defined: no word twice, no index that wraps around a byte, and no word
   * that is also a glyph (otherwise two codes would hold one token and the
   * inversion would depend on hash order).
   */
  predicate Vocabulary(words: seq<string>) {
    && Distinct(words)
    && |words| <= 0x100
    && forall k :: 0 <= k < |words| ==> !IsGlyph(words[k])
  }

  /**
   * The table built from a vocabulary: well formed, a non-reserved code is
   * assigned exactly when it is below the vocabulary size, and then it holds
   * the vocabulary word of that rank.
   */
  ghost predicate BuiltFrom(t: Table, words: seq<string>) {
    && WellFormed(t)
    && (forall c: Byte :: c !in Reserved ==> (c in t.fromCode <==> c < |words|))
    && (forall c :: c in t.fromCode && c !in Reserved ==>
          t.fromCode[c].Word? && t.fromCode[c].text in words && Rank(words, t.fromCode[c].text) == c)
  }

  ghost predicate Injective(m: map<Byte, Token>) {
    forall c1, c2 :: c1 in m && c2 in m && c1 != c2 ==> m[c1] != m[c2]
  }

  /** No reserved entry holds a word that is not a glyph. */
  lemma {:induction false} ReservedNotWord(c: Byte, w: string)
    requires c in Reserved && !IsGlyph(w)
    ensures Reserved[c] != Word(w)
  {
  }

  /** The ten inserts of the builder, one after the other, overlay the reserved entries. */
  lemma {:induction false} InsertsOverlay(m: map<Byte, Token>)
    ensures m[0xfd := Word(".")][0xfc := Word(",")][0xfb := Word(":")][0xfa := Word("!")]
             [0xf9 := Word("?")][0xf7 := Word("\n")][0xf6 := Word("\t")]
             [BeginAsciiCode := Special(BeginAscii)][EndAsciiCode := Special(EndAscii)]
             [StartUppercaseCode := Special(StartUppercase)] == m + Reserved
  {
  }

  /** No token is under two reserved codes. */
  lemma {:induction false} ReservedInjective()
    ensures Injective(Reserved)
  {
    forall c1, c2 | c1 in Reserved && c2 in Reserved && c1 != c2 ensures Reserved[c1] != Reserved[c2] {
    }
  }

  /** Two codes of the overlay hold different tokens. */
  lemma {:induction false} OverlayDistinct(words: seq<string>, sorted: seq<string>, ranked: map<Byte, Token>, c1: Byte, c2: Byte)
    requires Vocabulary(words) && Increasing(sorted) && multiset(sorted) == multiset(words)
    requires forall c :: c in ranked ==> c < |sorted| && ranked[c] == Word(sorted[c])
    requires c1 in ranked + Reserved && c2 in ranked + Reserved && c1 != c2
    ensures (ranked + Reserved)[c1] != (ranked + Reserved)[c2]
  {
    if c1 in Reserved && c2 in Reserved {
      ReservedInjective();
    } else if c2 in Reserved {
      assert sorted[c1] in multiset(words);
      ReservedNotWord(c2, sorted[c1]);
    } else if c1 in Reserved {
      assert sorted[c2] in multiset(words);
      ReservedNotWord(c1, sorted[c2]);
    } else if c1 < c2 {
      assert Below(sorted[c1], sorted[c2]);
      BelowIrreflexive(sorted[c1]);
    } else {
      assert Below(sorted[c2], sorted[c1]);
      BelowIrreflexive(sorted[c2]);
    }
  }

  /** The ranked vocabulary overlaid with the reserved entries holds no token under two codes. */
  lemma {:induction false} OverlayInjective(words: seq<string>, sorted: seq<string>, ranked: map<Byte, Token>)
    requires Vocabulary(words) && Increasing(sorted) && multiset(sorted) == multiset(words)
    requires forall c: Byte :: c in ranked <==> c < |sorted|
    requires forall c :: c in ranked ==> ranked[c] == Word(sorted[c])
    ensures Injective(ranked + Reserved)
  {
    var m := ranked + Reserved;
    forall c1, c2 | c1 in m && c2 in m && c1 != c2 ensures m[c1] != m[c2] {
      OverlayDistinct(words, sorted, ranked, c1, c2);
    }
  }

  /**
   * In the ranked vocabulary overlaid with the reserved entries, a
   * non-reserved code is present exactly below the vocabulary size, and
   * holds the word of that rank.
   */
  lemma {:induction false} OverlayRanks(words: seq<string>, sorted: seq<string>, ranked: map<Byte, Token>)
    requires Increasing(sorted) && multiset(sorted) == multiset(words)
    requires forall c: Byte :: c in ranked <==> c < |sorted|
    requires forall c :: c in ranked ==> ranked[c] == Word(sorted[c])
    ensures forall c: Byte :: c !in Reserved ==> (c in ranked + Reserved <==> c < |words|)
    ensures forall c :: c in ranked + Reserved && c !in Reserved ==>
      (ranked + Reserved)[c].Word? && (ranked + Reserved)[c].text in words
      && Rank(words, (ranked + Reserved)[c].text) == c
  {
    var m := ranked + Reserved;
    assert |sorted| == |words| by {
      assert |multiset(sorted)| == |multiset(words)|;
    }
    forall c | c in m && c !in Reserved
      ensures m[c].Word? && m[c].text in words && Rank(words, m[c].text) == c
    {
      RankOfSorted(words, sorted, c);
    }
  }

  /** A code-to-token map that holds the reserved entries, with its inverse, is well formed. */
  lemma {:induction false} InverseWellFormed(fromCode: map<Byte, Token>, toCode: map<Token, Byte>)
    requires forall c :: c in Reserved ==> c in fromCode && fromCode[c] == Reserved[c]
    requires forall c :: c in fromCode ==> fromCode[c] in toCode && toCode[fromCode[c]] == c
    requires forall tok :: tok in toCode ==> toCode[tok] in fromCode && fromCode[toCode[tok]] == tok
    ensures WellFormed(Table(toCode, fromCode))
  {
    var t := Table(toCode, fromCode);
    forall c ensures ReservedHolds(t, c) && CodeHolds(t, c) {
    }
    forall tok ensures TokenHolds(t, tok) {
    }
  }

  /**
   * The `to_tpc` half of `gen_conversions`: every entry of the code-to-token
   * map, turned around.
   */
  method InvertCodes(fromCode: map<Byte, Token>) returns (toCode: map<Token, Byte>)
    requires Injective(fromCode)
    ensures forall c :: c in fromCode ==> fromCode[c] in toCode && toCode[fromCode[c]] == c
    ensures forall tok :: tok in toCode ==> toCode[tok] in fromCode && fromCode[toCode[tok]] == tok
  {
    toCode := map[];
    var keys := fromCode.Keys;
    while keys != {}
      invariant keys <= fromCode.Keys
      invariant forall c :: c in fromCode && c !in keys ==> fromCode[c] in toCode && toCode[fromCode[c]] == c
      invariant forall tok :: tok in toCode ==> toCode[tok] in fromCode && toCode[tok] !in keys && fromCode[toCode[tok]] == tok
      decreases keys
    {
      var c :| c in keys;
      toCode := toCode[fromCode[c] := c];
      keys := keys - {c};
    }
  }

  /** `gen_conversions` */
  method GenConversions(words: seq<string>) returns (t: Table)
    requires Vocabulary(words)
    ensures BuiltFrom(t, words)
  {
    var sorted := SortWords(words);
    SortWordsIncreasing(words);
    assert |sorted| == |words| by {
      assert |multiset(sorted)| == |multiset(words)|;
    }

    var fromCode: map<Byte, Token> := map[];
    var i := 0;
    while i < |sorted|
      invariant i <= |sorted|
      invariant forall c: Byte :: c in fromCode <==> c < i
      invariant forall c :: c in fromCode ==> fromCode[c] == Word(sorted[c])
    {
      fromCode := fromCode[i as Byte := Word(sorted[i])];
      i := i + 1;
    }
    ghost var ranked := fromCode;

    fromCode := fromCode[0xfd := Word(".")];
    fromCode := fromCode[0xfc := Word(",")];
    fromCode := fromCode[0xfb := Word(":")];
    fromCode := fromCode[0xfa := Word("!")];
    fromCode := fromCode[0xf9 := Word("?")];
    fromCode := fromCode[0xf7 := Word("\n")];
    fromCode := fromCode[0xf6 := Word("\t")];

    fromCode := fromCode[BeginAsciiCode := Special(BeginAscii)];
    fromCode := fromCode[EndAsciiCode := Special(EndAscii)];
    fromCode := fromCode[StartUppercaseCode := Special(StartUppercase)];

    InsertsOverlay(ranked);
    OverlayInjective(words, sorted, ranked);
    OverlayRanks(words, sorted, ranked);

    var toCode := InvertCodes(fromCode);
    InverseWellFormed(fromCode, toCode);
    t := Table(toCode, fromCode);
  }

  /** An empty vocabulary yields exactly the ten reserved entries. */
  lemma {:induction false} EmptyVocabularyTable(t: Table)
    requires BuiltFrom(t, [])
    ensures t.fromCode == Reserved
    ensures forall tok :: tok in t.toCode <==> tok in Reserved.Values
  {
    forall c | c in Reserved ensures c in t.fromCode && t.fromCode[c] == Reserved[c] {
      assert ReservedHolds(t, c);
    }
    forall tok | tok in t.toCode ensures tok in Reserved.Values {
      assert TokenHolds(t, tok);
    }
    forall tok | tok in Reserved.Values ensures tok in t.toCode {
      var c :| c in Reserved && Reserved[c] == tok;
      assert ReservedHolds(t, c) && CodeHolds(t, c);
    }
  }

  /**
   * A vocabulary word keeps a code exactly when its rank falls below the
   * reserved range; a word ranked at a reserved code is silently dropped.
   */
  lemma {:induction false} WordKeptIffRankedBelowReserved(t: Table, words: seq<string>, w: string)
    requires Vocabulary(words) && BuiltFrom(t, words) && w in words
    ensures Word(w) in t.toCode <==> Rank(words, w) < 0xf6
  {
    var r: nat := Rank(words, w);
    RankBelowSize(words, w);
    if Word(w) in t.toCode {
      var c := t.toCode[Word(w)];
      assert TokenHolds(t, Word(w));
      var k :| 0 <= k < |words| && words[k] == w;
      assert !IsGlyph(words[k]);
      assert ReservedHolds(t, c);
      ReservedRange(c);
    }
    if r < 0xf6 {
      var b: Byte := r as Byte;
      ReservedRange(b);
      assert b in t.fromCode;
      assert CodeHolds(t, b);
      var v := t.fromCode[b].text;
      if v != w {
        RankInjective(words, v, w);
      }
    }
  }

  /**
   * The table depends only on which words the vocabulary holds, not on the
   * order in which they arrive.
   */
  lemma {:induction false} TableDeterminedByVocabulary(t1: Table, words1: seq<string>, t2: Table, words2: seq<string>)
    requires Vocabulary(words1) && BuiltFrom(t1, words1)
    requires BuiltFrom(t2, words2) && multiset(words1) == multiset(words2)
    ensures t1 == t2
  {
    assert |words1| == |words2| by {
      assert |multiset(words1)| == |multiset(words2)|;
    }
    forall w ensures w in words1 <==> w in words2 {
      assert w in words1 <==> w in multiset(words1);
      assert w in words2 <==> w in multiset(words2);
    }
    forall w ensures Rank(words1, w) == Rank(words2, w) {
      assert (set v | v in words1 && Below(v, w)) == (set v | v in words2 && Below(v, w));
    }
    forall c | c in t1.fromCode ensures c in t2.fromCode && t2.fromCode[c] == t1.fromCode[c] {
      assert ReservedHolds(t1, c) && ReservedHolds(t2, c);
      if c !in Reserved {
        var w1 := t1.fromCode[c].text;
        var w2 := t2.fromCode[c].text;
        if w1 != w2 {
          RankInjective(words1, w1, w2);
        }
      }
    }
    forall c | c in t2.fromCode ensures c in t1.fromCode {
      assert ReservedHolds(t1, c);
    }
    assert t1.fromCode == t2.fromCode;
    forall tok | tok in t1.toCode ensures tok in t2.toCode && t2.toCode[tok] == t1.toCode[tok] {
      var c := t1.toCode[tok];
      assert TokenHolds(t1, tok) && CodeHolds(t2, c);
    }
    forall tok | tok in t2.toCode ensures tok in t1.toCode {
      var c := t2.toCode[tok];
      assert TokenHolds(t2, tok) && CodeHolds(t1, c);
    }
    assert t1.toCode == t2.toCode;
  }
}
