# tpcompress codec, modelled in Dafny

tpcompress compresses text by dictionary substitution. Every vocabulary word
becomes a one-byte code. Every piece of the text between two spaces is written
as follows:

- an optional StartUppercase marker;
- the code of its bare word, or an escape region (`0xff`, the piece's UTF-8
  bytes, `0xfe`);
- the codes of its trailing punctuation glyphs.

Decompression is a left-to-right state machine over that byte stream.

This project models the codec in `src/main.rs`:

- the code table and its builder `gen_conversions`;
- `get_punct` and `compress`;
- the header check `verify`;
- `first_uppercase` and `decompress`.

It proves what the round trip does on every text and every well-formed table.

The modules:

- `Text` (`text.dfy`) holds:
  - bytes and the glyph set `PUNCT`;
  - ASCII case mapping;
  - the ordering of Rust's `String`;
  - `split(' ')`;
  - the UTF-8 encoding behind `as_bytes`.
- `CodeTable` (`codetable.dfy`) holds:
  - the token types `Special` (here `Marker`) and `WordOrSpecial` (here `Token`);
  - the table `Words` (here `Table`, with `toCode`/`fromCode` for `to_tpc`/`from_tpc`);
  - `gen_conversions` as the method `GenConversions`. It is specified by the
    predicate `BuiltFrom`: every vocabulary word gets its rank in sorted order
    as its code, ten reserved codes are overwritten, and the word-to-code
    direction is the inverse of the code-to-word direction (`WellFormed`).
- `Compressor` (`compressor.dfy`) holds `get_punct` and `compress` as methods.
  They are proved against the functions `TrailingCodes`, `Bare`,
  `EncodeToken` and `Compressed`.
- `Decompressor` (`decompressor.dfy`) holds `verify`, `first_uppercase` and
  `decompress`. The loop of `decompress` is proved against the functions
  `StepAt` (one pass of the loop) and `Run`/`Decode` (the whole loop).
- `RoundTrip` (`roundtrip.dfy`) defines the reference function `Render`,
  which says piece by piece what comes back. It proves
  `Decode(t, Compressed(t, v, text)) == Render(t, SplitOnSpace(text))`.
  From that it derives:
  - plain text comes back unchanged;
  - a stream `compress` wrote never makes `decompress` hang;
  - the source's quirks, on concrete examples.

A Rust panic is a `Failed` outcome that names the panic (`DecodeError`). A
byte the table does not map makes the Rust loop spin forever without moving
its cursor (`i += 1` at src/main.rs:243 sits inside the
`if let Some(word)` of src/main.rs:199). Here that byte
gives the distinct outcome `Hangs`.

The quirks of the code are reproduced, not fixed:

- **Reversed glyph runs.** A run of trailing glyphs is encoded last glyph
  first, so "toki!?" decodes as "toki?!".
- **Punctuation twice.** An unknown piece keeps its trailing glyphs inside
  the escape region and repeats them as codes, so "hi." decodes as "hi..".
- **Leading space for capitals.** The StartUppercase branch moves the cursor
  before the spacing test, so a capitalised known word gets a space even at
  the start of the stream: "Toki" decodes as " Toki".
- **Capitalised unknown pieces fail.** For such a piece `compress` writes
  StartUppercase and then an escape region (src/main.rs:148-160).
  `decompress` refuses that sequence with `MarkerAfterUppercase(BeginAscii)`
  (src/main.rs:211-214), so a piece such as "Foo123" does not come back.

## Model

| member | source | states |
|---|---|---|
| Text.SplitOnSpace | src/main.rs:125 | `split(' ')`: at least one piece, no piece holds a space, and joining the pieces with single spaces gives the text back |
| Text.Utf8OfAscii | src/main.rs:158 | `as_bytes` of ASCII text is one byte per character, equal to its code |
| Text.Lowercase | src/main.rs:151 | `to_lowercase` maps every letter of the word, not only the first: same length, each character lower-cased, no capital left |
| Text.Utf8Bounded | src/main.rs:158 | no byte of `as_bytes` reaches 0xf8, so the bytes written inside an escape region never include a marker code (0xf8, 0xfe, 0xff) |
| Text.Utf8OfMixed | src/main.rs:158 | the bytes of a non-ASCII text start with its ASCII prefix, then the lead byte of the first other character |
| Text.BelowTotal | src/main.rs:74 | the `String` order used by `sort_by_key` is total on distinct words (with `BelowTransitive`, `BelowIrreflexive`) |
| CodeTable.GlyphCode | src/main.rs:82-88 | each of the seven glyphs has the reserved code the builder inserts for it |
| CodeTable.ReservedRange | src/main.rs:82-91 | the ten reserved codes are exactly the bytes 0xf6..0xff |
| CodeTable.SortWords | src/main.rs:73-74 | the sorted vocabulary holds the same words as the input, each as often |
| CodeTable.SortWordsIncreasing | src/main.rs:73-74 | sorting a vocabulary of distinct words gives them in strictly ascending order |
| CodeTable.RankOfSorted | src/main.rs:76-80 | the word at position c of the sorted vocabulary is a vocabulary word with exactly c words below it |
| CodeTable.RankInjective | src/main.rs:76-80 | distinct vocabulary words get distinct ranks |
| CodeTable.InsertsOverlay | src/main.rs:81-91 | the ten successive inserts overwrite the ranked map with the reserved entries |
| CodeTable.OverlayInjective | src/main.rs:76-91 | after the inserts no token is held by two codes, so the inversion does not depend on hash order |
| CodeTable.OverlayRanks | src/main.rs:76-91 | after the inserts a non-reserved code is present exactly below the vocabulary size and holds the word of that rank |
| CodeTable.InvertCodes | src/main.rs:93-96 | `to_tpc` holds every entry of `from_tpc` turned around, and nothing else |
| CodeTable.GenConversions | src/main.rs:72-98 | the table is `BuiltFrom` the vocabulary: reserved entries present, the two maps inverse, and every other code holding the word of that rank |
| CodeTable.CodedTokensAreHeld | src/main.rs:93-96 | the keys of `to_tpc` are exactly the values of `from_tpc` |
| CodeTable.GlyphInTable | src/main.rs:81-96 | in a well-formed table each glyph and its reserved code map to each other |
| CodeTable.MarkersInTable | src/main.rs:89-96 | in a well-formed table the three markers sit at 0xf8, 0xff and 0xfe in both directions |
| CodeTable.EmptyVocabularyTable | src/main.rs:72-98 | an empty vocabulary yields exactly the ten reserved entries |
| CodeTable.WordKeptIffRankedBelowReserved | src/main.rs:76-91 | a vocabulary word keeps a code exactly when its rank is below 0xf6 |
| CodeTable.TableDeterminedByVocabulary | src/main.rs:72-74 | two tables built from the same words in any order are equal |
| Compressor.Header | src/main.rs:128-133 | the header is "TPC" followed by the three version bytes |
| Compressor.TrailingPunctLength | src/main.rs:106-118 | the number of stripped characters: all of them glyphs, and the character before them is not one |
| Compressor.TrailingRunIs | src/main.rs:106-118 | a trailing glyph run that cannot be extended is the one `get_punct` strips |
| Compressor.TokenSplit | src/main.rs:102-123 | the bare part followed by the stripped glyphs is the token, the bare part does not end in a glyph, and the k-th code belongs to the (k+1)-th character from the end |
| Compressor.GetPunct | src/main.rs:102-123 | None exactly when the token is empty or does not end in a glyph; otherwise the codes of the trailing glyphs, last first, and the token without them |
| Compressor.LookupKeyLowercased | src/main.rs:145-152 | a capitalised token is looked up as its whole bare word lower-cased (first letter lower, no capital left anywhere); any other token as its bare word unchanged |
| Compressor.PushToken | src/main.rs:138-165 | one pass appends the marker if the bare word is capitalised, then the code of the word looked up (the whole bare word lower-cased when capitalised) or an escape region with the whole original piece, then the glyph codes |
| Compressor.Compress | src/main.rs:124-168 | the output is the header followed by the bytes of every space-separated piece in order |
| Compressor.EmptyTokenEscaped | src/main.rs:140-160 | an empty piece is written as the empty escape region 0xff 0xfe |
| Compressor.EmptyTextCompressed | src/main.rs:124-168 | the empty text compresses to the header and one empty escape region |
| Decompressor.Verify | src/main.rs:169-178 | succeeds exactly when there are six bytes starting with "TPC", and then moves the cursor six bytes on; otherwise it names the panic |
| Decompressor.FirstUppercase | src/main.rs:180-186 | the empty string stays empty; otherwise only the first character changes, to upper case |
| Decompressor.FirstUppercaseRestores | src/main.rs:180-186 | upper-casing the first letter of the lower-cased form restores a capitalised word with no other capital |
| Decompressor.Gap | src/main.rs:202 | a space is written before a word exactly when it is not at the start and does not begin with a glyph |
| Decompressor.Escape | src/main.rs:229-237 | an escape region ends at a 0xfe at or after its start and adds one character per byte; it can only fail by running out or by a non-ASCII byte |
| Decompressor.CopyEscaped | src/main.rs:229-237 | the inner copying loop computes `Escape` |
| Decompressor.DecodeStep | src/main.rs:198-243 | one pass of the loop computes `StepAt`: word, capitalised word, escape region, stray 0xfe or unmapped byte |
| Decompressor.Decompress | src/main.rs:187-247 | the whole of `decompress` computes `Decode`: the header check, then the loop to the end of the stream |
| Decompressor.StepWordCode | src/main.rs:199-206 | a word code writes the word after its gap and moves one byte on |
| Decompressor.StepUppercaseWord | src/main.rs:207-224 | 0xf8 then a word code writes the word with a capital, spaced as if it stood at the second byte, and moves two bytes on |
| Decompressor.StepEscapeRegion | src/main.rs:225-238 | 0xff writes a space unless at the start, then the escape region, and moves past its 0xfe or fails with it |
| Decompressor.RunNext | src/main.rs:197-245 | a pass that goes on leaves the rest to the loop from its new position |
| Decompressor.RunStop | src/main.rs:197-245 | a pass that stops ends the loop with its outcome |
| Decompressor.DecodeHeaderCheck | src/main.rs:169-178 | a stream is refused for its header exactly when it is too short or lacks the tag |
| Decompressor.RunReportsNoHeaderError | src/main.rs:197-245 | the loop itself never reports a header error |
| Decompressor.RunReadsOnlyAhead | src/main.rs:197-245 | the loop reads the stream only from its cursor onwards |
| Decompressor.DecodeIgnoresVersion | src/main.rs:193-194 | the three version bytes play no part in decoding |
| Decompressor.UnusedCodeHangs | src/main.rs:197-244 | a code from the vocabulary size up to 0xf5 right after the header makes the loop hang |
| RoundTrip.TrailingCodesReversed | src/main.rs:106-117 | the codes `get_punct` collects are those of the trailing glyphs read backwards |
| RoundTrip.RunGlyphs | src/main.rs:199-206 | decoding a run of glyph codes writes the glyphs with no space before any of them |
| RoundTrip.EscapeOfUtf8 | src/main.rs:229-237 | the escape region written for a piece gives the piece back if it is ASCII, and otherwise stops at its first non-ASCII byte |
| RoundTrip.StepEscapedPiece | src/main.rs:225-238 | decoding the escape region written for a piece writes a space unless at the start, then the piece, or fails |
| RoundTrip.StepKnownWord | src/main.rs:199-224 | the marker and code written for a known word decode to the word, capitalised again when it was |
| RoundTrip.StepUnknownWord | src/main.rs:154-160 | the escape region written for an unknown, uncapitalised piece decodes to the piece or fails |
| RoundTrip.StepWordText | src/main.rs:148-160 | the marker and word bytes of any piece decode to `WordText` of it, or stop with its error |
| RoundTrip.UnknownAsciiPiece | src/main.rs:154-163 | an unknown, uncapitalised ASCII piece decodes to the whole piece, trailing glyphs included, followed by those glyphs again in reverse order |
| RoundTrip.EncodeTokensConcat | src/main.rs:137-166 | the body `compress` writes is the bytes of each piece, in the order of the pieces |
| RoundTrip.RunPiece | src/main.rs:138-165 | decoding the bytes of one piece gives `Piece` of it, or stops with its error |
| RoundTrip.RunPieces | src/main.rs:137-166 | decoding the bytes of a sequence of pieces to the end of the stream gives `RenderFrom` of them |
| RoundTrip.CompressedHasHeader | src/main.rs:128-133 | every stream `compress` writes passes `verify` |
| RoundTrip.DecodeOfCompressed | src/main.rs:124-168 | decompressing what `compress` wrote gives `Render` of the pieces of the text, for every well-formed table and every text |
| RoundTrip.RenderFromDecodedIff | src/main.rs:197-245 | rendering ends with a text exactly when every piece decodes |
| RoundTrip.RenderFromExtends | src/main.rs:188-247 | decoding a stream `compress` wrote only appends to the text decoded so far (stated for the reference rendering `RenderFrom`, which `DecodeOfCompressed` equates with decoding such streams) |
| RoundTrip.CompressedNeverHangs | src/main.rs:187-247 | a stream `compress` wrote never makes `decompress` hang, and it decodes exactly when every piece does |
| RoundTrip.PlainPiece | src/main.rs:154-163 | a known word followed by at most one glyph, or ASCII text with no trailing glyph, decodes to itself after its space |
| RoundTrip.RenderPlain | src/main.rs:201-206 | plain pieces come back joined by single spaces |
| RoundTrip.PlainTextRoundTrip | src/main.rs:124-168 | a text whose pieces are all plain survives compression and decompression unchanged |
| RoundTrip.CapitalisedPiece | src/main.rs:207-218 | a capitalised known word decodes to text that starts with a space |
| RoundTrip.CapitalisedFirstWordGetsSpace | src/main.rs:207-218 | a text that starts with a capitalised known word decodes, when it decodes, to text that starts with a space |
| RoundTrip.CapitalisedUnknownFirstWordFails | src/main.rs:212-214 | a text that starts with a capitalised unknown piece fails with `MarkerAfterUppercase(BeginAscii)` |
| RoundTrip.TokiTable | src/main.rs:72-98 | a table built from the vocabulary ["toki"] has a code for "toki" and none for "hi" |
| RoundTrip.KnownWordGlyphsReversed | src/main.rs:106-117 | with that table "toki!?" decodes as "toki?!" |
| RoundTrip.UnknownWordGlyphsTwice | src/main.rs:157-163 | with that table "hi." decodes as "hi.." |
| RoundTrip.CapitalisedWordSpaced | src/main.rs:209-217 | with that table "Toki" decodes as " Toki" |

## Left out

- Fetching the vocabulary over HTTP, the `words.json` cache and JSON parsing (src/main.rs:31-60) are I/O. The vocabulary is a parameter: a sequence of strings.
- The `Cat` usage category (src/main.rs:17-30) is never read by the codec.
- The command line, file reading and writing, the size-ratio printing (src/main.rs:249-319) and the logging macros are I/O with no bearing on the codec.
- Case mapping (`is_uppercase`, `to_lowercase`, `to_uppercase`) covers ASCII letters only. Unicode case mapping, which can change a string's length, is not modelled.
- The version bytes come from `env!` at build time; here they are the parameter `Version`.
- CodeTable.GenConversions: requires the vocabulary to be free of duplicates, to have at most 256 words, and to hold no word that is a single glyph. Without that, `i as u8` wraps around, and the inversion depends on `HashMap` iteration order. Up to 256 words are allowed, so a word ranked at a reserved code is dropped, as the code does.
- Compressor.GetPunct: requires a well-formed table, like every method that reads the table. Only `gen_conversions` builds tables, and they are all well formed. So the panic of `to_tpc[...]` on a missing glyph is not modelled.
- Decompressor.Decompress: when the Rust loop never ends, the model gives the outcome `Hangs`.
- Decompressor.Escape: does not state the decoded text's content. That content is stated for escape regions `compress` writes, by RoundTrip.EscapeOfUtf8.
- `std::str::from_utf8` on one byte is modelled as "the byte is below 0x80, otherwise fail".
