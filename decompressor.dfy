/**
 * Reading a compressed stream back into text: the header check (`verify`),
 * `first_uppercase` and the decoding loop of `decompress`.
 *
 * The Rust program panics on a malformed stream and loops forever on a byte
 * the table does not map; here the first is a `Failed` outcome naming the
 * panic and the second is the outcome `Hangs`.
 */
module Decompressor {
  import opened Wrappers
  import opened Text
  import opened CodeTable
  import Compressor

  /** The panics of `verify` and `decompress`. */
  datatype DecodeError =
    | MissingHeader                     // fewer than six bytes
    | WrongTag                          // the first three bytes are not "TPC"
    | NoWordAfterUppercase              // the stream ends right after 0xf8
    | UnmappedAfterUppercase(code: Byte) // 0xf8 followed by a byte without meaning
    | MarkerAfterUppercase(marker: Marker) // 0xf8 followed by a marker code
    | EscapeUnterminated                // the stream ends inside an escape region
    | NotAscii(code: Byte)              // an escaped byte that is not valid one-byte UTF-8
    | EndBeforeBegin                    // 0xfe outside an escape region

  datatype Outcome = Decoded(text: string) | Failed(error: DecodeError) | Hangs

  const HeaderLength: nat := 6

  /** The first six bytes exist and start with "TPC"; the version bytes are not looked at. */
  predicate HasHeader(data: seq<Byte>) {
    |data| >= HeaderLength && data[..3] == Compressor.Tag
  }

  function HeaderError(data: seq<Byte>): DecodeError {
    if |data| < HeaderLength then MissingHeader else WrongTag
  }

  /** `verify`: advances the cursor past the header, or panics. */
  method Verify(i: nat, data: seq<Byte>) returns (r: Result<nat, DecodeError>)
    ensures r.Success? <==> HasHeader(data)
    ensures r.Success? ==> r.value == i + HeaderLength
    ensures r.Failure? ==> r.error == HeaderError(data)
  {
    if |data| < HeaderLength {
      return Failure(MissingHeader);
    }
    var header := data[..HeaderLength];
    if header[..3] != Compressor.Tag {
      return Failure(WrongTag);
    }
    return Success(i + |header|);
  }

  /** `first_uppercase`: the first character in upper case, the rest unchanged. */
  function FirstUppercase(s: string): (r: string)
    ensures |r| == |s|
    ensures |s| > 0 ==> r[0] == ToUpper(s[0]) && r[1..] == s[1..]
  {
    if s == [] then [] else [ToUpper(s[0])] + s[1..]
  }

  /** Upper-casing the first letter is undone by lower-casing the word. */
  lemma {:induction false} FirstUppercaseLowercase(s: string)
    ensures Lowercase(FirstUppercase(s)) == Lowercase(s)
  {
    if s != [] {
      assert Lowercase(FirstUppercase(s))[0] == ToLower(ToUpper(s[0]));
    }
  }

  /** A capitalised word whose other letters are lower case comes back from its lower-case form. */
  lemma {:induction false} FirstUppercaseRestores(s: string)
    requires |s| > 0 && IsUpper(s[0])
    requires forall k :: 0 < k < |s| ==> !IsUpper(s[k])
    ensures FirstUppercase(Lowercase(s)) == s
  {
    var r := FirstUppercase(Lowercase(s));
    forall k | 0 <= k < |s|
      ensures r[k] == s[k]
    {
      if k > 0 {
        assert r[k] == Lowercase(s)[k];
      }
    }
  }

  /** The space written before a decoded word: none at the start, none before punctuation. */
  function Gap(spaced: bool, w: string): (r: string)
    ensures r == [' '] <==> spaced && (w == [] || !IsPunct(w[0]))
    ensures r == [] <==> !(spaced && (w == [] || !IsPunct(w[0])))
  {
    if spaced && !(|w| > 0 && IsPunct(w[0])) then " " else ""
  }

  /**
   * The inner loop for an escape region: from position `j`, copy bytes as
   * characters until 0xfe, giving the text and the position of the 0xfe.
   */
  function Escape(data: seq<Byte>, j: nat, acc: string): (r: Result<(string, nat), DecodeError>)
    ensures r.Success? ==> j <= r.value.1 < |data| && data[r.value.1] == EndAsciiCode
    ensures r.Success? ==> |r.value.0| == |acc| + r.value.1 - j
    ensures r.Failure? ==> r.error.EscapeUnterminated? || r.error.NotAscii?
    decreases |data| - j
  {
    if j >= |data| then Failure(EscapeUnterminated)
    else if data[j] == EndAsciiCode then Success((acc, j))
    else if data[j] >= 0x80 then Failure(NotAscii(data[j]))
    else Escape(data, j + 1, acc + [data[j] as char])
  }

  /** The effect of one pass of the loop in `decompress`: stop with an outcome, or go on. */
  datatype Step = Stop(outcome: Outcome) | Next(next: nat, text: string)

  /**
   * One pass of the decoding loop at position `i`, with `out` decoded so far
   * and `begin` the position just after the header.
   */
  function StepAt(t: Table, data: seq<Byte>, begin: nat, i: nat, out: string): (s: Step)
    requires i < |data|
    ensures s.Next? ==> i < s.next <= |data|
  {
    if data[i] !in t.fromCode then Stop(Hangs)
    else match t.fromCode[data[i]]
      case Word(w) => Next(i + 1, out + Gap(i != begin, w) + w)
      case Special(StartUppercase) =>
        if i + 1 >= |data| then Stop(Failed(NoWordAfterUppercase))
        else if data[i + 1] !in t.fromCode then Stop(Failed(UnmappedAfterUppercase(data[i + 1])))
        else (match t.fromCode[data[i + 1]]
          case Special(m) => Stop(Failed(MarkerAfterUppercase(m)))
          case Word(w) => Next(i + 2, out + Gap(i + 1 != begin, w) + FirstUppercase(w)))
      case Special(BeginAscii) =>
        (match Escape(data, i + 1, out + (if i != begin then " " else ""))
          case Failure(e) => Stop(Failed(e))
          case Success((text, j)) => Next(j + 1, text))
      case Special(EndAscii) => Stop(Failed(EndBeforeBegin))
  }

  /** The decoding loop from position `i` to the end of the stream. */
  function Run(t: Table, data: seq<Byte>, begin: nat, i: nat, out: string): Outcome
    decreases |data| - i
  {
    if i >= |data| then Decoded(out)
    else match StepAt(t, data, begin, i, out)
      case Stop(outcome) => outcome
      case Next(j, text) => Run(t, data, begin, j, text)
  }

  /** A pass that goes on leaves the rest of the decoding to the loop from where it stopped. */
  lemma {:induction false} RunNext(t: Table, data: seq<Byte>, begin: nat, i: nat, out: string)
    requires i < |data| && StepAt(t, data, begin, i, out).Next?
    ensures Run(t, data, begin, i, out) ==
      Run(t, data, begin, StepAt(t, data, begin, i, out).next, StepAt(t, data, begin, i, out).text)
  {
  }

  /** A pass that stops ends the decoding with its outcome. */
  lemma {:induction false} RunStop(t: Table, data: seq<Byte>, begin: nat, i: nat, out: string)
    requires i < |data| && StepAt(t, data, begin, i, out).Stop?
    ensures Run(t, data, begin, i, out) == StepAt(t, data, begin, i, out).outcome
  {
  }

  /** A word code: the word is written, after a gap. */
  lemma {:induction false} StepWordCode(t: Table, data: seq<Byte>, begin: nat, i: nat, out: string, w: string)
    requires i < |data| && data[i] in t.fromCode && t.fromCode[data[i]] == Word(w)
    ensures StepAt(t, data, begin, i, out) == Next(i + 1, out + Gap(i != begin, w) + w)
  {
  }

  /** 0xf8 followed by a word code: the word is written with a capital, after a gap. */
  lemma {:induction false} StepUppercaseWord(t: Table, data: seq<Byte>, begin: nat, i: nat, out: string, w: string)
    requires i + 1 < |data| && data[i] in t.fromCode && t.fromCode[data[i]] == Special(StartUppercase)
    requires data[i + 1] in t.fromCode && t.fromCode[data[i + 1]] == Word(w)
    ensures StepAt(t, data, begin, i, out) == Next(i + 2, out + Gap(i + 1 != begin, w) + FirstUppercase(w))
  {
  }

  /** 0xff: the pass goes on after the escape region, or fails with it. */
  lemma {:induction false} StepEscapeRegion(t: Table, data: seq<Byte>, begin: nat, i: nat, out: string)
    requires i < |data| && data[i] in t.fromCode && t.fromCode[data[i]] == Special(BeginAscii)
    ensures var e := Escape(data, i + 1, out + (if i != begin then " " else ""));
      StepAt(t, data, begin, i, out) == if e.Success? then Next(e.value.1 + 1, e.value.0) else Stop(Failed(e.error))
  {
  }

  /** What `decompress` does with a whole stream. */
  function Decode(t: Table, data: seq<Byte>): Outcome {
    if HasHeader(data) then Run(t, data, HeaderLength, HeaderLength, "")
    else Failed(HeaderError(data))
  }

  /** The inner loop of `decompress` over an escape region starting at `i`. */
  method CopyEscaped(data: seq<Byte>, i: nat, out: string) returns (r: Result<(string, nat), DecodeError>)
    ensures r == Escape(data, i, out)
  {
    var j, text := i, out;
    if j >= |data| {
      return Failure(EscapeUnterminated);
    }
    var next := data[j];
    while next != EndAsciiCode
      invariant i <= j < |data| && next == data[j]
      invariant Escape(data, j, text) == Escape(data, i, out)
      decreases |data| - j
    {
      if next >= 0x80 {
        return Failure(NotAscii(next));
      }
      text := text + [next as char];
      j := j + 1;
      if j >= |data| {
        return Failure(EscapeUnterminated);
      }
      next := data[j];
    }
    return Success((text, j));
  }

  /** One pass of the loop in `decompress`, at position `i` with `out` decoded so far. */
  method DecodeStep(t: Table, data: seq<Byte>, begin: nat, i: nat, out: string) returns (s: Step)
    requires i < |data|
    ensures s == StepAt(t, data, begin, i, out)
  {
    var code := data[i];
    if code !in t.fromCode {
      // The Rust loop leaves the cursor where it is and never ends.
      return Stop(Hangs);
    }
    var text := out;
    var j := i;
    match t.fromCode[code] {
      case Word(w) =>
        if j != begin && !(|w| > 0 && IsPunct(w[0])) {
          text := text + " ";
        }
        text := text + w;
      case Special(StartUppercase) =>
        j := j + 1;
        if j >= |data| {
          return Stop(Failed(NoWordAfterUppercase));
        }
        var next := data[j];
        if next !in t.fromCode {
          return Stop(Failed(UnmappedAfterUppercase(next)));
        }
        match t.fromCode[next] {
          case Special(m) =>
            return Stop(Failed(MarkerAfterUppercase(m)));
          case Word(w) =>
            if j != begin && !(|w| > 0 && IsPunct(w[0])) {
              text := text + " ";
            }
            text := text + FirstUppercase(w);
        }
      case Special(BeginAscii) =>
        if j != begin {
          text := text + " ";
        }
        j := j + 1;
        assert text == out + (if i != begin then " " else "");
        StepEscapeRegion(t, data, begin, i, out);
        var region := CopyEscaped(data, j, text);
        if region.Failure? {
          return Stop(Failed(region.error));
        }
        text, j := region.value.0, region.value.1;
      case Special(EndAscii) =>
        return Stop(Failed(EndBeforeBegin));
    }
    return Next(j + 1, text);
  }

  /** `decompress`. */
  method Decompress(t: Table, data: seq<Byte>) returns (r: Outcome)
    ensures r == Decode(t, data)
  {
    var out: string := "";
    var header := Verify(0, data);
    if header.Failure? {
      return Failed(header.error);
    }
    var i := header.value;
    var begin := i;
    while i < |data|
      invariant begin == HeaderLength <= i <= |data|
      invariant Run(t, data, begin, i, out) == Decode(t, data)
      decreases |data| - i
    {
      var s := DecodeStep(t, data, begin, i, out);
      if s.Stop? {
        RunStop(t, data, begin, i, out);
        return s.outcome;
      }
      RunNext(t, data, begin, i, out);
      i, out := s.next, s.text;
    }
    return Decoded(out);
  }

  /** The decoding loop never reports a header error: only `verify` does. */
  lemma {:induction false} RunReportsNoHeaderError(t: Table, data: seq<Byte>, begin: nat, i: nat, out: string)
    ensures Run(t, data, begin, i, out) != Failed(MissingHeader)
    ensures Run(t, data, begin, i, out) != Failed(WrongTag)
    decreases |data| - i
  {
    if i < |data| {
      var s := StepAt(t, data, begin, i, out);
      if s.Next? {
        RunReportsNoHeaderError(t, data, begin, s.next, s.text);
      }
    }
  }

  /** A stream is refused for its header exactly when it is too short or lacks the tag. */
  lemma {:induction false} DecodeHeaderCheck(t: Table, data: seq<Byte>)
    ensures Decode(t, data) == Failed(MissingHeader) <==> |data| < HeaderLength
    ensures Decode(t, data) == Failed(WrongTag) <==> |data| >= HeaderLength && data[..3] != Compressor.Tag
  {
    if HasHeader(data) {
      RunReportsNoHeaderError(t, data, HeaderLength, HeaderLength, "");
    }
  }

  /** An escape region is read from its start onwards only. */
  lemma {:induction false} EscapeReadsOnlyAhead(d1: seq<Byte>, d2: seq<Byte>, j: nat, acc: string)
    requires |d1| == |d2|
    requires forall k :: j <= k < |d1| ==> d1[k] == d2[k]
    ensures Escape(d1, j, acc) == Escape(d2, j, acc)
    decreases |d1| - j
  {
    if j < |d1| && d1[j] != EndAsciiCode && d1[j] < 0x80 {
      EscapeReadsOnlyAhead(d1, d2, j + 1, acc + [d1[j] as char]);
    }
  }

  /** One pass of the loop reads the stream from the cursor onwards only. */
  lemma {:induction false} StepReadsOnlyAhead(t: Table, d1: seq<Byte>, d2: seq<Byte>, begin: nat, i: nat, out: string)
    requires |d1| == |d2| && i < |d1|
    requires forall k :: i <= k < |d1| ==> d1[k] == d2[k]
    ensures StepAt(t, d1, begin, i, out) == StepAt(t, d2, begin, i, out)
  {
    EscapeReadsOnlyAhead(d1, d2, i + 1, out + (if i != begin then " " else ""));
  }

  /** The decoding loop reads the stream from the cursor onwards only. */
  lemma {:induction false} RunReadsOnlyAhead(t: Table, d1: seq<Byte>, d2: seq<Byte>, begin: nat, i: nat, out: string)
    requires |d1| == |d2|
    requires forall k :: i <= k < |d1| ==> d1[k] == d2[k]
    ensures Run(t, d1, begin, i, out) == Run(t, d2, begin, i, out)
    decreases |d1| - i
  {
    if i < |d1| {
      StepReadsOnlyAhead(t, d1, d2, begin, i, out);
      var s := StepAt(t, d1, begin, i, out);
      if s.Next? {
        RunReadsOnlyAhead(t, d1, d2, begin, s.next, s.text);
      }
    }
  }

  /** The version bytes of the header play no part in decoding. */
  lemma {:induction false} DecodeIgnoresVersion(t: Table, v1: Compressor.Version, v2: Compressor.Version, body: seq<Byte>)
    ensures Decode(t, Compressor.Header(v1) + body) == Decode(t, Compressor.Header(v2) + body)
  {
    var d1, d2 := Compressor.Header(v1) + body, Compressor.Header(v2) + body;
    assert d1[..3] == Compressor.Tag && d2[..3] == Compressor.Tag;
    forall k | HeaderLength <= k < |d1|
      ensures d1[k] == d2[k]
    {
      assert d1[k] == body[k - HeaderLength] == d2[k];
    }
    RunReadsOnlyAhead(t, d1, d2, HeaderLength, HeaderLength, "");
  }

  /**
   * A byte the table does not map stops the loop for good; with a built
   * table that is every code from the vocabulary size up to 0xf5.
   */
  lemma {:induction false} UnusedCodeHangs(t: Table, words: seq<string>, v: Compressor.Version, b: Byte, rest: seq<Byte>)
    requires BuiltFrom(t, words)
    requires |words| <= b < 0xf6
    ensures Decode(t, Compressor.Header(v) + [b] + rest) == Hangs
  {
    var data := Compressor.Header(v) + [b] + rest;
    assert data[..3] == Compressor.Tag;
    assert data[HeaderLength] == b;
    ReservedRange(b);
  }
}
