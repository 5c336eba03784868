/**
 The scanner (scanner.h, scanner.cpp): it reads an input stream octet by
 octet, skips whitespace and comments, and returns lexemes (words, float
 literals, string literals and single- or double-octet operators) together
 with the position they start at. A bookmark records the position and the
 settings so that scanning can resume there later.
 */
module Scanner {
  import opened Ucs
  import opened ParserTypes
  import opened ScannerCharacters
  import opened ScannerPosition
  import opened ScannerLexemes
  import opened ScannerStream

  /** `GetNextWordLexeme`. */
  function WordAt(t: ScannerState): (r: LexResult)
    requires AtOctet(t) && IsIdentifierChar1(t.source.value.data[t.position.offset])
    ensures FoundFrom(t, r) && r.lexeme.category == WordLexeme
  {
    Emit(t, WordEnd(t.source.value.data, t.position.offset), WordLexeme)
  }

  /** `GetNextFloatLiteralLexeme`. */
  function FloatAt(t: ScannerState): (r: LexResult)
    requires AtOctet(t) && IsDecimalDigit(t.source.value.data[t.position.offset])
    ensures FoundFrom(t, r) && r.lexeme.category == FloatLiteralLexeme
  {
    var data := t.source.value.data;
    FloatLexemeAccepted(data, t.position.offset);
    var e := FloatEnd(data, t.position.offset);
    var r := Emit(t, e, FloatLiteralLexeme);
    assert LexemeShape(data, t.stringEncoding, r.lexeme, e);
    r
  }

  /** `GetNextFloatLiteralOrDotLexeme`. */
  function FloatOrDotAt(t: ScannerState): (r: LexResult)
    requires AtOctet(t) && t.source.value.data[t.position.offset] == kDot
    ensures FoundFrom(t, r)
  {
    var data := t.source.value.data;
    FloatOrDotAccepted(data, t.position.offset);
    var (isFloat, e) := FloatOrDotEnd(data, t.position.offset);
    var r := Emit(t, e, if isFloat then FloatLiteralLexeme else OtherLexeme);
    assert LexemeShape(data, t.stringEncoding, r.lexeme, e);
    r
  }

  /** `GetNextStringLiteralLexeme`, raising `IncompleteStringLiteralException` when it fails. */
  function StringAt(t: ScannerState): (r: LexResult)
    requires AtOctet(t) && t.source.value.data[t.position.offset] == kQuote
    ensures !r.Exhausted?
    ensures r.Found? ==> FoundFrom(t, r) && r.lexeme.category == StringLiteralLexeme
    ensures r.Failed? ==>
              r.exception == RaiseIn(IncompleteStringLiteral, t.source.value, t.position)
              && StringLiteral(t.source.value.data, t.position.offset, t.stringEncoding).None?
  {
    var data := t.source.value.data;
    var w := t.position.offset;
    match StringLiteral(data, w, t.stringEncoding)
    case None => Failed(RaiseIn(IncompleteStringLiteral, t.source.value, t.position))
    case Some((text, e)) =>
      StringLiteralText(data, w, t.stringEncoding);
      var lexeme := Lexeme(text, t.position, StringLiteralLexeme);
      assert LexemeShape(data, t.stringEncoding, lexeme, e);
      Found(lexeme, AdvanceTo(t, e))
  }

  /** The remaining branches: a comparison, a lone slash, an invalid octet, or any other
      printable octet. */
  function OperatorAt(t: ScannerState): (r: LexResult)
    requires AtOctet(t)
    requires var c := t.source.value.data[t.position.offset];
             !IsWhitespace(c) && !IsIdentifierChar1(c) && !IsDecimalDigit(c) && c != kDot && c != kQuote
    requires !CommentStart(t.source.value.data, t.position.offset)
    ensures !r.Exhausted?
    ensures r.Found? ==> FoundFrom(t, r) && r.lexeme.category == OtherLexeme
    ensures r.Failed? ==>
              var c := t.source.value.data[t.position.offset];
              r.exception == RaiseIn(InvalidCharacter(c as int), t.source.value, t.position)
              && !IsPrintable(c)
  {
    var data := t.source.value.data;
    var w := t.position.offset;
    var c := data[w];
    if c == kBang || c == kLess || c == kGreater then
      Emit(t, if w + 1 < |data| && data[w + 1] == kEquals then w + 2 else w + 1, OtherLexeme)
    else if !IsPrintable(c) then
      Failed(RaiseIn(InvalidCharacter(c as int), t.source.value, t.position))
    else Emit(t, w + 1, OtherLexeme)
  }

  /** The branches of `GetNextLexeme` that read a lexeme at the current octet, which is no
      whitespace and opens no comment. */
  function LexemeAt(t: ScannerState): (r: LexResult)
    requires AtOctet(t)
    requires !IsWhitespace(t.source.value.data[t.position.offset])
    requires !CommentStart(t.source.value.data, t.position.offset)
    ensures !r.Exhausted?
    ensures r.Found? ==> FoundFrom(t, r)
    ensures r.Failed? ==>
              FailureShape(t.source.value.data, t.source.value.name, t.stringEncoding, t.allowNestedBlockComments, r.exception) && r.exception.offendingPosition == t.position
  {
    var c := t.source.value.data[t.position.offset];
    if IsIdentifierChar1(c) then WordAt(t)
    else if IsDecimalDigit(c) then FloatAt(t)
    else if c == kDot then FloatOrDotAt(t)
    else if c == kQuote then StringAt(t)
    else OperatorAt(t)
  }

  /** What the lexer finds after a run of whitespace: a comment to pass over, after which it
      resumes, or the end of its search. */
  datatype Skipped = Resumed(next: ScannerState) | Ended(result: LexResult)

  /** One pass of the loop of `GetNextLexeme` at an octet that is not whitespace: pass over a
      comment, raise `IncompleteCommentException` for a block comment the stream ends inside,
      or read the lexeme there. */
  function AfterWhitespace(t: ScannerState): (r: Skipped)
    requires AtOctet(t) && !IsWhitespace(t.source.value.data[t.position.offset])
    ensures r.Resumed? ==>
              SameSettings(t, r.next) && (Consistent(t) ==> Consistent(r.next))
              && CommentStart(t.source.value.data, t.position.offset)
              && CommentEnd(t.source.value.data, t.position.offset, t.allowNestedBlockComments)
                 == Some(r.next.position.offset)
    ensures r.Ended? ==> !r.result.Exhausted?
    ensures r.Ended? && r.result.Found? ==> FoundFrom(t, r.result)
    ensures r.Ended? && r.result.Failed? ==>
              FailureShape(t.source.value.data, t.source.value.name, t.stringEncoding,
                           t.allowNestedBlockComments, r.result.exception)
              && r.result.exception.offendingPosition == t.position
  {
    var data := t.source.value.data;
    var w := t.position.offset;
    if CommentStart(data, w) then
      match CommentEnd(data, w, t.allowNestedBlockComments)
      case None => Ended(Failed(RaiseIn(IncompleteComment, t.source.value, t.position)))
      case Some(e) => Resumed(AdvanceTo(t, e))
    else Ended(LexemeAt(t))
  }

  /** `GetNextLexeme`: skip whitespace and comments, then read one lexeme. A string literal
      or block comment the stream ends inside, and an octet that is neither printable nor
      whitespace, raise an exception at the position where they start. */
  function GetNextLexeme(s: ScannerState): (r: LexResult)
    ensures r.Found? ==>
              s.source.Some? && SameSettings(s, r.scanner)
              && s.position.offset <= r.lexeme.position.offset
              && LexemeShape(s.source.value.data, s.stringEncoding, r.lexeme, r.scanner.position.offset)
    ensures r.Exhausted? ==> EndOfStream(r.scanner) && SameSettings(s, r.scanner)
    ensures r.Failed? ==>
              s.source.Some? && FailureShape(s.source.value.data, s.source.value.name, s.stringEncoding, s.allowNestedBlockComments, r.exception)
              && s.position.offset <= r.exception.offendingPosition.offset
    decreases Remaining(s)
  {
    if EndOfStream(s) then Exhausted(s)
    else
      var data := s.source.value.data;
      var w := SkipWhitespace(data, s.position.offset);
      var t := AdvanceTo(s, w);
      if w == |data| then Exhausted(t)
      else match AfterWhitespace(t)
        case Resumed(u) => GetNextLexeme(u)
        case Ended(r) => r
  }

  /** Where the lexer stopped passing over octets: at the lexeme, at the end of the stream, or
      at the offending position. */
  function StopOffset(data: seq<Octet>, r: LexResult): int {
    match r
    case Found(lexeme, _) => lexeme.position.offset
    case Exhausted(_) => |data|
    case Failed(x) => x.offendingPosition.offset
  }

  /** The lexer passes over whitespace and comments only: a lexeme, an exception, or the end
      of the stream comes after octets that are all `Skippable`. */
  lemma {:induction false} LexemeAfterSkippable(s: ScannerState)
    requires s.source.Some? && 0 <= s.position.offset <= |s.source.value.data|
    ensures var data := s.source.value.data;
            var r := GetNextLexeme(s);
            var j := StopOffset(data, r);
            s.position.offset <= j <= |data|
            && Skippable(data, s.allowNestedBlockComments, s.position.offset, j)
            && (r.Exhausted? ==> r.scanner.position.offset == |data|)
    decreases Remaining(s)
  {
    var data := s.source.value.data;
    var nested := s.allowNestedBlockComments;
    if !EndOfStream(s) {
      var w := SkipWhitespace(data, s.position.offset);
      var t := AdvanceTo(s, w);
      if w < |data| && AfterWhitespace(t).Resumed? {
        var u := AfterWhitespace(t).next;
        LexemeAfterSkippable(u);
        var j := StopOffset(data, GetNextLexeme(u));
        CommentSkippable(data, nested, w, j);
        WhitespaceSkippable(data, nested, s.position.offset, w, j);
      } else {
        WhitespaceSkippable(data, nested, s.position.offset, w, w);
      }
    }
  }

  /** From a consistent state the lexer reports the position each lexeme or exception was
      reached at from the start of the stream, and leaves the scanner consistent. */
  lemma {:induction false} LexemePositionTracked(s: ScannerState)
    requires Consistent(s)
    ensures var data := s.source.value.data;
            match GetNextLexeme(s)
            case Found(lexeme, next) =>
              Consistent(next) && lexeme.position == Track(data[..lexeme.position.offset]).position
            case Exhausted(next) => Consistent(next)
            case Failed(x) => x.offendingPosition == Track(data[..x.offendingPosition.offset]).position
    decreases Remaining(s)
  {
    if !EndOfStream(s) {
      var w := SkipWhitespace(s.source.value.data, s.position.offset);
      var t := AdvanceTo(s, w);
      if w < |s.source.value.data| && AfterWhitespace(t).Resumed? {
        LexemePositionTracked(AfterWhitespace(t).next);
      }
    }
  }

  // ---------------------------------------------------------------- directives

  /** The octets `GetNextDirective` passes over without looking: anything but a quote, a slash
      or a hash (whitespace included). */
  predicate PassedOver(c: Octet) {
    IsWhitespace(c) || (c != kQuote && c != kSlash && c != kHash)
  }

  function SkipToDirective(data: seq<Octet>, i: nat): (e: nat)
    requires i <= |data|
    ensures i <= e <= |data|
    ensures forall k :: i <= k < e ==> PassedOver(data[k])
    ensures e == |data| || !PassedOver(data[e])
    decreases |data| - i
  {
    if i == |data| || !PassedOver(data[i]) then i else SkipToDirective(data, i + 1)
  }

  /** One pass of the loop of `GetNextDirective` at an octet it does not pass over: skip a
      string literal, a comment or a lone slash, raise an exception for a string literal or
      block comment the stream ends inside, or take the '#' there. */
  function DirectiveStep(t: ScannerState): (r: Skipped)
    requires AtOctet(t) && !PassedOver(t.source.value.data[t.position.offset])
    ensures r.Resumed? ==>
              SameSettings(t, r.next) && (Consistent(t) ==> Consistent(r.next))
              && t.position.offset < r.next.position.offset <= |t.source.value.data|
    ensures r.Ended? && r.result.Found? ==>
              t.source.value.data[t.position.offset] == kHash
              && r.result.lexeme == Lexeme([kHash], t.position, OtherLexeme)
              && r.result.scanner.position.offset == t.position.offset + 1
              && SameSettings(t, r.result.scanner) && (Consistent(t) ==> Consistent(r.result.scanner))
    ensures r.Ended? && r.result.Exhausted? ==>
              EndOfStream(r.result.scanner) && SameSettings(t, r.result.scanner)
              && (Consistent(t) ==> Consistent(r.result.scanner))
    ensures r.Ended? && r.result.Failed? ==>
              DirectiveFailureShape(t.source.value.data, t.source.value.name,
                                    t.allowNestedBlockComments, r.result.exception)
              && r.result.exception.offendingPosition == t.position
  {
    var data := t.source.value.data;
    var w := t.position.offset;
    if data[w] == kQuote then
      match EatString(data, w)
      case None => Ended(Failed(RaiseIn(IncompleteStringLiteral, t.source.value, t.position)))
      case Some(e) => Resumed(AdvanceTo(t, e))
    else if data[w] == kSlash then
      if w + 1 == |data| then Ended(Exhausted(AdvanceTo(t, w + 1)))
      else if CommentStart(data, w) then
        match CommentEnd(data, w, t.allowNestedBlockComments)
        case None => Ended(Failed(RaiseIn(IncompleteComment, t.source.value, t.position)))
        case Some(e) => Resumed(AdvanceTo(t, e))
      else Resumed(AdvanceTo(t, w + 1))
    else Ended(Found(Lexeme([kHash], t.position, OtherLexeme), AdvanceTo(t, w + 1)))
  }

  /** `GetNextDirective`: find the next '#' outside string literals and comments, and return it
      as a lexeme. */
  function GetNextDirective(s: ScannerState): (r: LexResult)
    ensures r.Found? ==>
              s.source.Some? && SameSettings(s, r.scanner)
              && var p := r.lexeme.position.offset;
                 s.position.offset <= p && 0 <= p < |s.source.value.data|
                 && s.source.value.data[p] == kHash
                 && r.lexeme.text == [kHash] && r.lexeme.category == OtherLexeme
                 && r.scanner.position.offset == p + 1
    ensures r.Exhausted? ==> EndOfStream(r.scanner) && SameSettings(s, r.scanner)
    ensures r.Failed? ==>
              s.source.Some?
              && DirectiveFailureShape(s.source.value.data, s.source.value.name,
                                       s.allowNestedBlockComments, r.exception)
              && s.position.offset <= r.exception.offendingPosition.offset
    decreases Remaining(s)
  {
    if EndOfStream(s) then Exhausted(s)
    else
      var data := s.source.value.data;
      var w := SkipToDirective(data, s.position.offset);
      var t := AdvanceTo(s, w);
      if w == |data| then Exhausted(t)
      else match DirectiveStep(t)
        case Resumed(u) => GetNextDirective(u)
        case Ended(r) => r
  }

  /** From a consistent state the search for a directive reports the position the '#' or
      the exception was reached at from the start of the stream, and leaves the scanner
      consistent. */
  lemma {:induction false} DirectivePositionTracked(s: ScannerState)
    requires Consistent(s)
    ensures var data := s.source.value.data;
            match GetNextDirective(s)
            case Found(lexeme, next) =>
              Consistent(next) && lexeme.position == Track(data[..lexeme.position.offset]).position
            case Exhausted(next) => Consistent(next)
            case Failed(x) => x.offendingPosition == Track(data[..x.offendingPosition.offset]).position
    decreases Remaining(s)
  {
    if !EndOfStream(s) {
      var w := SkipToDirective(s.source.value.data, s.position.offset);
      var t := AdvanceTo(s, w);
      if w < |s.source.value.data| && DirectiveStep(t).Resumed? {
        DirectivePositionTracked(DirectiveStep(t).next);
      }
    }
  }

  /** Skipping a string literal while looking for a directive fails exactly when reading it as
      a lexeme fails, whatever the string encoding. */
  lemma DirectiveSkipsLiteralsLikeLexer(data: seq<Octet>, i: nat, e: StringEncoding)
    requires i < |data| && data[i] == kQuote
    ensures EatString(data, i).None? <==> StringLiteral(data, i, e).None?
    ensures EatString(data, i).Some? ==> EatString(data, i).value == StringLiteral(data, i, e).value.1
  {
    EatStringAgrees(data, i, e);
  }

  // ---------------------------------------------------------------- bookmarks

  /** `Bookmark`: a position with the settings in force there. */
  datatype Bookmark = Bookmark(
    position: LexemePosition,
    stringEncoding: StringEncoding,
    nominalEndOfLine: Octet,
    allowNestedBlockComments: bool)

  /** `HotBookmark`: a bookmark with the stream itself. */
  datatype HotBookmark = HotBookmark(source: Option<Source>, bookmark: Bookmark)

  /** `ColdBookmark`: a bookmark with the stream's name only. */
  datatype ColdBookmark = ColdBookmark(sourceName: UCS2String, bookmark: Bookmark)

  function CurrentBookmark(s: ScannerState): Bookmark {
    Bookmark(s.position, s.stringEncoding, s.nominalEndOfLine, s.allowNestedBlockComments)
  }

  function GetSourceName(s: ScannerState): UCS2String
    requires s.source.Some?
  {
    s.source.value.name
  }

  function GetHotBookmark(s: ScannerState): HotBookmark {
    HotBookmark(s.source, CurrentBookmark(s))
  }

  function GetColdBookmark(s: ScannerState): ColdBookmark
    requires s.source.Some?
  {
    ColdBookmark(GetSourceName(s), CurrentBookmark(s))
  }

  function HotFileName(b: HotBookmark): UCS2String
    requires b.source.Some?
  {
    b.source.value.name
  }

  function ColdFileName(b: ColdBookmark): UCS2String {
    b.sourceName
  }

  /** `SetInputStream(stream, bookmark)`: read `source` from the bookmarked position with the
      bookmarked settings; the flag tells whether there is an octet there. */
  function Resume(s: ScannerState, source: Source, b: Bookmark): (r: (ScannerState, bool))
    ensures r.0.source == Some(source) && r.0.position == b.position
    ensures r.0.nominalEndOfLine == b.nominalEndOfLine && r.0.stringEncoding == b.stringEncoding
    ensures r.0.allowNestedBlockComments == b.allowNestedBlockComments
    ensures r.1 <==> 0 <= b.position.offset < |source.data|
  {
    var next := ScannerState(Some(source), b.position, b.nominalEndOfLine, b.stringEncoding,
                             b.allowNestedBlockComments);
    (next, !EndOfStream(next))
  }

  /** `GoToBookmark(Bookmark)`: resume in the current stream. */
  function GoToBookmark(s: ScannerState, b: Bookmark): (r: (ScannerState, bool))
    requires s.source.Some?
    ensures r.0.source == s.source && r.0.position == b.position
  {
    Resume(s, s.source.value, b)
  }

  /** `GoToBookmark(HotBookmark)`: resume in the bookmarked stream. */
  function GoToHotBookmark(s: ScannerState, b: HotBookmark): (r: (ScannerState, bool))
    requires b.source.Some?
    ensures r.0.source == b.source && r.0.position == b.bookmark.position
  {
    Resume(s, b.source.value, b.bookmark)
  }

  /** `GoToBookmark(ColdBookmark)`: resume in the current stream if it has the bookmarked name,
      otherwise fail and leave the scanner as it is. */
  function GoToColdBookmark(s: ScannerState, b: ColdBookmark): (r: (ScannerState, bool))
    requires s.source.Some?
    ensures b.sourceName != GetSourceName(s) ==> r == (s, false)
    ensures b.sourceName == GetSourceName(s) ==> r.0.source == s.source && r.0.position == b.bookmark.position
  {
    if b.sourceName != GetSourceName(s) then (s, false) else Resume(s, s.source.value, b.bookmark)
  }

  /** Going to a bookmark taken earlier restores the scanner exactly as it was, wherever it has
      moved since; the flag tells whether the stream had ended there. A cold bookmark needs
      the same stream to be current, and one taken in a stream of another name is refused. */
  lemma BookmarkRoundTrip(s: ScannerState, later: ScannerState)
    requires s.source.Some?
    ensures GoToHotBookmark(later, GetHotBookmark(s)) == (s, !EndOfStream(s))
    ensures later.source == s.source ==> GoToBookmark(later, CurrentBookmark(s)) == (s, !EndOfStream(s))
    ensures later.source == s.source ==> GoToColdBookmark(later, GetColdBookmark(s)) == (s, !EndOfStream(s))
    ensures later.source.Some? && GetSourceName(later) != GetSourceName(s) ==>
              GoToColdBookmark(later, GetColdBookmark(s)) == (later, false)
    ensures HotFileName(GetHotBookmark(s)) == ColdFileName(GetColdBookmark(s)) == GetSourceName(s)
  {
  }

  /** Resuming at a bookmark of a consistent scanner gives a consistent scanner, so the
      positions of lexemes read after rewinding are right. */
  lemma ResumeConsistent(s: ScannerState, later: ScannerState)
    requires Consistent(s)
    ensures Consistent(GoToHotBookmark(later, GetHotBookmark(s)).0)
  {
    BookmarkRoundTrip(s, later);
  }

  // ---------------------------------------------------------------- examples

  /** The scanner over "a<=b" after `n` octets, all on line 1, with the initial settings. */
  function ExampleState(source: Source, n: int): ScannerState {
    ScannerState(Some(source), LexemePosition(1, n + 1, n), 0, ASCIIEncoding, true)
  }

  /** The first lexeme of "a<=b" is the word "a" at line 1, column 1. */
  lemma ExampleFirstWord(source: Source)
    requires source.data == [0x61, kLess, kEquals, 0x62]
    ensures GetNextLexeme(ExampleState(source, 0))
            == Found(Lexeme([0x61], LexemePosition(1, 1, 0), WordLexeme), ExampleState(source, 1))
  {
    var data := source.data;
    assert WordEnd(data, 0) == 1;
    assert data[0..1] == [0x61];
  }

  /** The second is the comparison "<=" at column 2. */
  lemma ExampleComparison(source: Source)
    requires source.data == [0x61, kLess, kEquals, 0x62]
    ensures GetNextLexeme(ExampleState(source, 1))
            == Found(Lexeme([kLess, kEquals], LexemePosition(1, 2, 1), OtherLexeme), ExampleState(source, 3))
  {
    var data := source.data;
    assert data[1..3] == [kLess, kEquals];
    var t := ExampleState(source, 1);
    assert Advance(t).0 == ExampleState(source, 2);
    assert AdvanceTo(t, 3) == AdvanceTo(ExampleState(source, 2), 3) == ExampleState(source, 3);
  }

  /** The third is the word "b" at column 4, and then the stream is exhausted. */
  lemma ExampleLastWord(source: Source)
    requires source.data == [0x61, kLess, kEquals, 0x62]
    ensures GetNextLexeme(ExampleState(source, 3))
            == Found(Lexeme([0x62], LexemePosition(1, 4, 3), WordLexeme), ExampleState(source, 4))
    ensures GetNextLexeme(ExampleState(source, 4)) == Exhausted(ExampleState(source, 4))
  {
    var data := source.data;
    var t := ExampleState(source, 3);
    assert SkipWhitespace(data, 3) == 3 && AdvanceTo(t, 3) == t;
    assert WordEnd(data, 3) == 4;
    assert data[3..4] == [0x62];
    assert AdvanceTo(t, 4) == ExampleState(source, 4);
    assert AfterWhitespace(t) == Ended(WordAt(t));
  }

  /** "a<=b" reads as the word "a", the comparison "<=", then the word "b", on line 1 at
      columns 1, 2 and 4, and then the stream is exhausted. */
  lemma ComparisonExample(source: Source)
    requires source.data == [0x61, kLess, kEquals, 0x62]
    ensures var s0 := SetInputStream(NewScanner(), source);
            var r0 := GetNextLexeme(s0);
            r0.Found? && r0.lexeme.text == [0x61] && r0.lexeme.category == WordLexeme
            && var r1 := GetNextLexeme(r0.scanner);
               r1.Found? && r1.lexeme == Lexeme([kLess, kEquals], LexemePosition(1, 2, 1), OtherLexeme)
               && var r2 := GetNextLexeme(r1.scanner);
                  r2.Found? && r2.lexeme.position == LexemePosition(1, 4, 3)
                  && GetNextLexeme(r2.scanner).Exhausted?
  {
    assert SetInputStream(NewScanner(), source) == ExampleState(source, 0);
    ExampleFirstWord(source);
    ExampleComparison(source);
    ExampleLastWord(source);
  }
}
