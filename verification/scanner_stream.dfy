/**
 The scanner's state over its input stream (scanner.h, scanner.cpp): the
 stream, the position reached, the nominal end of line and the two settings,
 and the `Advance` step that moves it through the stream.

 The stream is its whole content `data`; the buffer the scanner reads it
 through is not modelled, so the current octet is `data[offset]` and the end
 of the stream is an offset outside `data`.
 */
module ScannerStream {
  import opened Ucs
  import opened ParserTypes
  import opened ScannerCharacters
  import opened ScannerPosition
  import opened ScannerLexemes

  /** The scanner's state: the stream, the current position, the nominal end of line, and the
      two settings. */
  datatype ScannerState = ScannerState(
    source: Option<Source>,
    position: LexemePosition,
    nominalEndOfLine: Octet,
    stringEncoding: StringEncoding,
    allowNestedBlockComments: bool)

  /** `mEndOfStream`: there is no stream, or no octet at the current offset. */
  predicate EndOfStream(s: ScannerState) {
    s.source.None? || !(0 <= s.position.offset < |s.source.value.data|)
  }

  /** The octets left to read. */
  function Remaining(s: ScannerState): nat {
    if s.source.None? || !(0 <= s.position.offset <= |s.source.value.data|) then 0
    else |s.source.value.data| - s.position.offset
  }

  /** The scanner's position and nominal end of line are the ones its offset was reached with
      from the start of the stream. */
  predicate Consistent(s: ScannerState) {
    s.source.Some? && 0 <= s.position.offset <= |s.source.value.data|
    && Track(s.source.value.data[..s.position.offset]) == Tracking(s.position, s.nominalEndOfLine)
  }

  /** Two states read the same stream with the same settings. */
  predicate SameSettings(a: ScannerState, b: ScannerState) {
    a.source == b.source && a.stringEncoding == b.stringEncoding
    && a.allowNestedBlockComments == b.allowNestedBlockComments
  }

  // ---------------------------------------------------------------- set-up

  /** `Scanner()`: no stream, ASCII strings, nested comments allowed. */
  function NewScanner(): (s: ScannerState)
    ensures EndOfStream(s) && s.source.None?
    ensures s.position == DefaultPosition() && s.nominalEndOfLine == 0
    ensures s.stringEncoding == ASCIIEncoding && s.allowNestedBlockComments
  {
    ScannerState(None, DefaultPosition(), 0, ASCIIEncoding, true)
  }

  /** `SetInputStream`: start reading `source` from its beginning; the settings stay. */
  function SetInputStream(s: ScannerState, source: Source): (r: ScannerState)
    ensures r.source == Some(source) && Consistent(r) && r.position.offset == 0
    ensures EndOfStream(r) <==> |source.data| == 0
    ensures r.stringEncoding == s.stringEncoding && r.allowNestedBlockComments == s.allowNestedBlockComments
  {
    assert source.data[..0] == [];
    s.(source := Some(source), position := DefaultPosition(), nominalEndOfLine := 0)
  }

  function SetStringEncoding(s: ScannerState, e: StringEncoding): (r: ScannerState)
    ensures r.stringEncoding == e
    ensures r.source == s.source && r.position == s.position && r.nominalEndOfLine == s.nominalEndOfLine
    ensures r.allowNestedBlockComments == s.allowNestedBlockComments
  {
    s.(stringEncoding := e)
  }

  function SetNestedBlockComments(s: ScannerState, allow: bool): (r: ScannerState)
    ensures r.allowNestedBlockComments == allow
    ensures r.source == s.source && r.position == s.position && r.nominalEndOfLine == s.nominalEndOfLine
    ensures r.stringEncoding == s.stringEncoding
  {
    s.(allowNestedBlockComments := allow)
  }

  // ---------------------------------------------------------------- advancing

  /** `Advance`: move past the current octet, updating the position; the flag tells whether
      there is an octet after it. At the end of the stream nothing changes. */
  function Advance(s: ScannerState): (r: (ScannerState, bool))
    ensures EndOfStream(s) ==> r == (s, false)
    ensures !EndOfStream(s) ==> r.0.position.offset == s.position.offset + 1 && SameSettings(s, r.0)
    ensures r.1 <==> !EndOfStream(r.0)
    ensures Consistent(s) ==> Consistent(r.0)
  {
    if EndOfStream(s) then (s, false)
    else
      var data := s.source.value.data;
      var offset := s.position.offset;
      TrackAppend(data[..offset], data[offset]);
      assert data[..offset + 1] == data[..offset] + [data[offset]];
      var t := Step(Tracking(s.position, s.nominalEndOfLine), data[offset]);
      var next := s.(position := t.position, nominalEndOfLine := t.nominalEndOfLine);
      (next, !EndOfStream(next))
  }

  /** Advance until the offset is `n`. */
  function AdvanceTo(s: ScannerState, n: int): (r: ScannerState)
    requires s.source.Some? && 0 <= s.position.offset <= n <= |s.source.value.data|
    ensures r.position.offset == n && SameSettings(s, r)
    ensures Consistent(s) ==> Consistent(r)
    decreases n - s.position.offset
  {
    if s.position.offset == n then s else AdvanceTo(Advance(s).0, n)
  }

  /** The index of the first octet at or after `i` that is not whitespace. */
  function SkipWhitespace(data: seq<Octet>, i: nat): (e: nat)
    requires i <= |data|
    ensures i <= e <= |data|
    ensures forall k :: i <= k < e ==> IsWhitespace(data[k])
    ensures e == |data| || !IsWhitespace(data[e])
    decreases |data| - i
  {
    if i == |data| || !IsWhitespace(data[i]) then i else SkipWhitespace(data, i + 1)
  }

  // ---------------------------------------------------------------- lexemes

  /** The outcome of looking for a lexeme: one was found, the stream ended, or a
      `TokenizerException` was raised. */
  datatype LexResult =
    | Found(lexeme: Lexeme, scanner: ScannerState)
    | Exhausted(scanner: ScannerState)
    | Failed(exception: TokenizerException)

  /** A lexeme of the octets from the current position up to `n`. */
  function Emit(t: ScannerState, n: int, category: Category): (r: LexResult)
    requires t.source.Some? && 0 <= t.position.offset < n <= |t.source.value.data|
    ensures r.Found? && r.lexeme.position == t.position && r.lexeme.category == category
    ensures r.lexeme.text == t.source.value.data[t.position.offset..n]
    ensures r.scanner.position.offset == n && SameSettings(t, r.scanner)
    ensures Consistent(t) ==> Consistent(r.scanner)
  {
    Found(Lexeme(t.source.value.data[t.position.offset..n], t.position, category), AdvanceTo(t, n))
  }

  /** `r` is a lexeme found at the position of `t`, of the shape its category demands, and
      the scanner after it reads the same stream with the same settings. */
  predicate FoundFrom(t: ScannerState, r: LexResult) {
    t.source.Some? && r.Found? && SameSettings(t, r.scanner) && r.lexeme.position == t.position
    && LexemeShape(t.source.value.data, t.stringEncoding, r.lexeme, r.scanner.position.offset)
    && (Consistent(t) ==> Consistent(r.scanner))
  }

  /** The state at an octet of the stream. */
  predicate AtOctet(t: ScannerState) {
    t.source.Some? && 0 <= t.position.offset < |t.source.value.data|
  }
}
