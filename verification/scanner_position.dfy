/**
 Position tracking of the scanner (`Scanner::Advance`): every octet moves the
 offset by one; the first line-end octet ever seen becomes the stream's
 nominal end of line, only that octet starts a new line, and the other
 line-end octet moves neither line nor column.

 `Track` folds that rule over the octets consumed so far; the lemmas
 characterise its result directly: the line is one more than the number of
 nominal line ends, and the column one more than the number of octets other
 than line ends since the last of them.
 */
module ScannerPosition {
  import opened ParserTypes
  import opened ScannerCharacters

  /** The part of the scanner state `Advance` updates: the position and the nominal end of
      line, 0 while no line end has been seen. */
  datatype Tracking = Tracking(position: LexemePosition, nominalEndOfLine: Octet)

  /** The tracking state of a freshly opened stream. */
  function StartOfStream(): (t: Tracking)
    ensures t.position == DefaultPosition() && t.nominalEndOfLine == 0
  {
    Tracking(DefaultPosition(), 0)
  }

  /** What `Advance` does to the tracking state when it moves past the octet `b`. */
  function Step(t: Tracking, b: Octet): (r: Tracking)
    ensures r.position.offset == t.position.offset + 1
    ensures t.nominalEndOfLine == 0 && IsEndOfLine(b) ==> r.nominalEndOfLine == b
    ensures t.nominalEndOfLine != 0 || !IsEndOfLine(b) ==> r.nominalEndOfLine == t.nominalEndOfLine
    ensures IsEndOfLine(b) && b == r.nominalEndOfLine ==>
              r.position.line == t.position.line + 1 && r.position.column == 1
    ensures IsEndOfLine(b) && b != r.nominalEndOfLine ==>
              r.position.line == t.position.line && r.position.column == t.position.column
    ensures !IsEndOfLine(b) ==>
              r.position.line == t.position.line && r.position.column == t.position.column + 1
  {
    var p := t.position;
    if IsEndOfLine(b) then
      var eol := if t.nominalEndOfLine == 0 then b else t.nominalEndOfLine;
      if b == eol then Tracking(LexemePosition(p.line + 1, 1, p.offset + 1), eol)
      else Tracking(p.(offset := p.offset + 1), eol)
    else Tracking(p.(column := p.column + 1, offset := p.offset + 1), t.nominalEndOfLine)
  }

  /** The tracking state after advancing over `bytes` from the start of a stream. */
  function Track(bytes: seq<Octet>): Tracking
    decreases |bytes|
  {
    if |bytes| == 0 then StartOfStream()
    else Step(Track(bytes[..|bytes| - 1]), bytes[|bytes| - 1])
  }

  // ---------------------------------------------------------------- a direct description

  /** The first line-end octet of `bytes`, or 0 if there is none. */
  function FirstEndOfLine(bytes: seq<Octet>): (r: Octet)
    ensures r == 0 || IsEndOfLine(r)
  {
    if |bytes| == 0 then 0
    else if IsEndOfLine(bytes[0]) then bytes[0]
    else FirstEndOfLine(bytes[1..])
  }

  /** How many octets of `bytes` are the line-end octet `x`. */
  function CountEndOfLine(x: Octet, bytes: seq<Octet>): nat
    decreases |bytes|
  {
    if |bytes| == 0 then 0
    else CountEndOfLine(x, bytes[..|bytes| - 1]) + (if IsEndOfLine(x) && bytes[|bytes| - 1] == x then 1 else 0)
  }

  /** How many octets other than line ends follow the last occurrence of the line-end octet
      `x` (all of them if it does not occur). */
  function ColumnsSince(x: Octet, bytes: seq<Octet>): nat
    decreases |bytes|
  {
    if |bytes| == 0 then 0
    else
      var last := bytes[|bytes| - 1];
      if IsEndOfLine(last) && last == x then 0
      else if IsEndOfLine(last) then ColumnsSince(x, bytes[..|bytes| - 1])
      else ColumnsSince(x, bytes[..|bytes| - 1]) + 1
  }

  /** Appending an octet finds the same first line end, unless there was none before. */
  lemma {:induction false} FirstEndOfLineAppend(bytes: seq<Octet>, b: Octet)
    ensures FirstEndOfLine(bytes + [b])
            == if FirstEndOfLine(bytes) != 0 || !IsEndOfLine(b) then FirstEndOfLine(bytes) else b
    decreases |bytes|
  {
    if |bytes| == 0 {
      assert bytes + [b] == [b];
    } else {
      assert (bytes + [b])[0] == bytes[0];
      assert (bytes + [b])[1..] == bytes[1..] + [b];
      FirstEndOfLineAppend(bytes[1..], b);
    }
  }

  /** Without a line end, neither counting function sees one. */
  lemma {:induction false} NoEndOfLine(x: Octet, bytes: seq<Octet>)
    requires FirstEndOfLine(bytes) == 0
    ensures CountEndOfLine(x, bytes) == 0 && ColumnsSince(x, bytes) == |bytes|
    decreases |bytes|
  {
    if |bytes| > 0 {
      var init := bytes[..|bytes| - 1];
      var last := bytes[|bytes| - 1];
      assert bytes == init + [last];
      FirstEndOfLineAppend(init, last);
      NoEndOfLine(x, init);
    }
  }

  /** The position after `bytes`: line one plus the number of nominal line ends, column one
      plus the octets other than line ends since the last nominal line end, offset the number
      of octets; the nominal line end is the first line-end octet. */
  lemma {:induction false} TrackCharacterised(bytes: seq<Octet>)
    ensures var n := FirstEndOfLine(bytes);
            Track(bytes) == Tracking(LexemePosition(1 + CountEndOfLine(n, bytes),
                                                    1 + ColumnsSince(n, bytes), |bytes|), n)
    decreases |bytes|
  {
    if |bytes| > 0 {
      var init := bytes[..|bytes| - 1];
      var last := bytes[|bytes| - 1];
      assert bytes == init + [last];
      TrackCharacterised(init);
      FirstEndOfLineAppend(init, last);
      var n := FirstEndOfLine(bytes);
      if FirstEndOfLine(init) == 0 && IsEndOfLine(last) {
        NoEndOfLine(n, init);
        NoEndOfLine(0, init);
      }
    }
  }

  /** Line and column are always at least 1. */
  lemma TrackIsPositive(bytes: seq<Octet>)
    ensures Track(bytes).position.line >= 1 && Track(bytes).position.column >= 1
    ensures Track(bytes).position.offset == |bytes|
  {
    TrackCharacterised(bytes);
  }

  /** Positions tracked over one stream agree on line and column whenever they agree on the
      offset: the consistency `LexemePosition::operator==` asserts. */
  lemma SameOffsetSamePosition(data: seq<Octet>, m: nat, n: nat)
    requires m <= |data| && n <= |data|
    requires SamePosition(Track(data[..m]).position, Track(data[..n]).position)
    ensures Track(data[..m]) == Track(data[..n])
  {
    TrackIsPositive(data[..m]);
    TrackIsPositive(data[..n]);
  }

  /** Advancing over one more octet is one more `Step`. */
  lemma TrackAppend(bytes: seq<Octet>, b: Octet)
    ensures Track(bytes + [b]) == Step(Track(bytes), b)
  {
    assert (bytes + [b])[..|bytes|] == bytes;
  }

  /** After "a", LF, "b" the scanner is on line 2, column 2, and a CR after that changes
      nothing; after CR, LF, CR the CR is nominal and the LF is ignored. */
  lemma MixedLineEnds()
    ensures Track([0x61, 0x0A, 0x62]).position == LexemePosition(2, 2, 3)
    ensures Track([0x61, 0x0A, 0x62, 0x0D]).position == LexemePosition(2, 2, 4)
    ensures Track([0x0D, 0x0A, 0x0D]).position == LexemePosition(3, 1, 3)
  {
    TrackAppend([], 0x61);
    TrackAppend([0x61], 0x0A);
    TrackAppend([0x61, 0x0A], 0x62);
    TrackAppend([0x61, 0x0A, 0x62], 0x0D);
    var abc: seq<Octet> := [0x61, 0x0A, 0x62];
    assert abc + [0x0D] == [0x61, 0x0A, 0x62, 0x0D];
    TrackAppend([], 0x0D);
    TrackAppend([0x0D], 0x0A);
    TrackAppend([0x0D, 0x0A], 0x0D);
  }
}
