/**
 The value types the scanner shares with the parser (parsertypes.cpp): the
 position of a lexeme in its input stream, and the exceptions the tokenizer
 raises, each of which records the stream's name and the offending position.
 */
module ParserTypes {

  /** A UCS-2 string, as the stream names are stored. */
  type UCS2String = seq<bv16>

  /** An octet of an input stream (`Scanner::Octet`, an unsigned char). */
  newtype Octet = x: int | 0 <= x < 0x100

  /** An input stream: its name and its whole content. */
  datatype Source = Source(name: UCS2String, data: seq<Octet>)

  /** `LexemePosition`: line and column, both counted from 1, and the octet offset. */
  datatype LexemePosition = LexemePosition(line: int, column: int, offset: int)

  /** The default `LexemePosition`: the start of a stream. */
  function DefaultPosition(): (p: LexemePosition)
    ensures p.line == 1 && p.column == 1 && p.offset == 0
  {
    LexemePosition(1, 1, 0)
  }

  /** `operator==`: two positions are the same when their offsets are. */
  predicate SamePosition(a: LexemePosition, b: LexemePosition) {
    a.offset == b.offset
  }

  /** `operator-`: the distance between two positions in octets. */
  function Distance(a: LexemePosition, b: LexemePosition): int {
    a.offset - b.offset
  }

  /** Positions compare equal exactly when their distance is zero; the comparison is an
      equivalence, and distance is antisymmetric and adds up along a chain of positions. */
  lemma PositionArithmetic(a: LexemePosition, b: LexemePosition, c: LexemePosition)
    ensures SamePosition(a, b) <==> Distance(a, b) == 0
    ensures SamePosition(a, a) && (SamePosition(a, b) ==> SamePosition(b, a))
    ensures SamePosition(a, b) && SamePosition(b, c) ==> SamePosition(a, c)
    ensures Distance(a, a) == 0 && Distance(a, b) == -Distance(b, a)
    ensures Distance(a, b) + Distance(b, c) == Distance(a, c)
  {
  }

  /** Which `TokenizerException` subclass was raised, with its extra data. */
  datatype TokenizerError =
    | IncompleteComment
    | IncompleteStringLiteral
    | InvalidCharacter(offendingCharacter: nat)
    | InvalidEscapeSequence(offendingText: seq<Octet>)

  /** `TokenizerException`: what went wrong, in which stream, and where. */
  datatype TokenizerException =
    TokenizerException(error: TokenizerError, offendingStreamName: UCS2String,
                       offendingPosition: LexemePosition)

  /** The exception constructors take the stream itself and record its name. */
  function RaiseIn(error: TokenizerError, source: Source, position: LexemePosition): (e: TokenizerException)
    ensures GetFileName(e) == source.name
    ensures GetLine(e) == position.line && GetColumn(e) == position.column
    ensures GetOffset(e) == position.offset
  {
    TokenizerException(error, source.name, position)
  }

  function GetFileName(e: TokenizerException): UCS2String { e.offendingStreamName }

  function GetLine(e: TokenizerException): int { e.offendingPosition.line }

  function GetColumn(e: TokenizerException): int { e.offendingPosition.column }

  function GetOffset(e: TokenizerException): int { e.offendingPosition.offset }
}
