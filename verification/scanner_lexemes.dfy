/**
 The lexers of scanner.cpp, each stated on the whole stream content `data`:
 given the index of a lexeme's first octet they return the index just past
 it (and, for string literals, the text written to the lexeme).

 Float literals are specified independently by a small automaton for the
 grammar `digits [. [digits]] [e [sign] [digits]]` and `. digits [e [sign]
 [digits]]`: the lexeme is accepted by it, and the octet that follows drives
 it into its rejecting state, so no longer lexeme would be a literal either.
 */
module ScannerLexemes {
  import opened Ucs
  import opened ParserTypes
  import opened ScannerCharacters

  const kQuote: Octet := 0x22
  const kHash: Octet := 0x23
  const kBang: Octet := 0x21
  const kStar: Octet := 0x2A
  const kDot: Octet := 0x2E
  const kSlash: Octet := 0x2F
  const kLess: Octet := 0x3C
  const kEquals: Octet := 0x3D
  const kGreater: Octet := 0x3E
  const kBackslash: Octet := 0x5C

  // ---------------------------------------------------------------- words

  /** `GetNextWordLexeme`: an identifier start followed by the longest run of identifier
      characters. */
  function WordEnd(data: seq<Octet>, i: nat): (e: nat)
    requires i < |data|
    ensures i < e <= |data|
    ensures forall k :: i < k < e ==> IsIdentifierChar2(data[k])
    ensures e == |data| || !IsIdentifierChar2(data[e])
    decreases |data| - i
  {
    if i + 1 < |data| && IsIdentifierChar2(data[i + 1]) then WordEnd(data, i + 1) else i + 1
  }

  // ---------------------------------------------------------------- float literals

  /** The states of the float-literal automaton. */
  datatype FloatState =
    | Start | IntegerPart | LeadingPoint | FractionPart
    | ExponentMark | ExponentSign | ExponentDigits | Rejected

  function FloatTransition(q: FloatState, b: Octet): FloatState {
    match q
    case Start => if IsDecimalDigit(b) then IntegerPart else if b == kDot then LeadingPoint else Rejected
    case IntegerPart =>
      if IsDecimalDigit(b) then IntegerPart
      else if b == kDot then FractionPart
      else if IsExponentSeparator(b) then ExponentMark
      else Rejected
    case LeadingPoint => if IsDecimalDigit(b) then FractionPart else Rejected
    case FractionPart =>
      if IsDecimalDigit(b) then FractionPart else if IsExponentSeparator(b) then ExponentMark else Rejected
    case ExponentMark =>
      if IsSign(b) then ExponentSign else if IsDecimalDigit(b) then ExponentDigits else Rejected
    case ExponentSign => if IsDecimalDigit(b) then ExponentDigits else Rejected
    case ExponentDigits => if IsDecimalDigit(b) then ExponentDigits else Rejected
    case Rejected => Rejected
  }

  /** The state the automaton reaches on `t`. */
  function RunFloat(t: seq<Octet>): FloatState
    decreases |t|
  {
    if |t| == 0 then Start else FloatTransition(RunFloat(t[..|t| - 1]), t[|t| - 1])
  }

  /** A float literal as the scanner accepts it: digits and a point are optional in the
      fraction, sign and digits optional in the exponent. */
  predicate IsFloatLiteral(t: seq<Octet>) {
    var q := RunFloat(t);
    q != Start && q != LeadingPoint && q != Rejected
  }

  /** `GetNextFloatLiteralDigits`: the longest run of digits from `i`. */
  function DigitsEnd(data: seq<Octet>, i: nat): (e: nat)
    requires i < |data| && IsDecimalDigit(data[i])
    ensures i < e <= |data|
    ensures forall k :: i <= k < e ==> IsDecimalDigit(data[k])
    ensures e == |data| || !IsDecimalDigit(data[e])
    decreases |data| - i
  {
    if i + 1 < |data| && IsDecimalDigit(data[i + 1]) then DigitsEnd(data, i + 1) else i + 1
  }

  /** `GetNextFloatLiteralExponent`: an exponent separator, an optional sign and optional
      digits; nothing if `data[i]` is no separator. */
  function ExponentEnd(data: seq<Octet>, i: nat): (e: nat)
    requires i < |data|
    ensures i <= e <= |data|
    ensures e == i <==> !IsExponentSeparator(data[i])
  {
    if !IsExponentSeparator(data[i]) then i
    else if i + 1 == |data| then i + 1
    else if IsSign(data[i + 1]) then
      if i + 2 == |data| then i + 2
      else if IsDecimalDigit(data[i + 2]) then DigitsEnd(data, i + 2)
      else i + 2
    else if IsDecimalDigit(data[i + 1]) then DigitsEnd(data, i + 1)
    else i + 1
  }

  /** `GetNextFloatLiteralLexeme`: integer digits, then an optional fraction, then an optional
      exponent. */
  function FloatEnd(data: seq<Octet>, i: nat): (e: nat)
    requires i < |data| && IsDecimalDigit(data[i])
    ensures i < e <= |data|
  {
    var d := DigitsEnd(data, i);
    if d == |data| then d
    else if data[d] == kDot then
      if d + 1 == |data| then d + 1
      else
        var g := if IsDecimalDigit(data[d + 1]) then DigitsEnd(data, d + 1) else d + 1;
        if g == |data| then g else ExponentEnd(data, g)
    else ExponentEnd(data, d)
  }

  /** `GetNextFloatLiteralOrDotLexeme`: a point followed by a digit starts a float literal;
      otherwise the point alone is an operator. The flag tells which. */
  function FloatOrDotEnd(data: seq<Octet>, i: nat): (r: (bool, nat))
    requires i < |data| && data[i] == kDot
    ensures i < r.1 <= |data|
    ensures !r.0 ==> r.1 == i + 1
  {
    if i + 1 < |data| && IsDecimalDigit(data[i + 1]) then
      var d := DigitsEnd(data, i + 1);
      (true, if d == |data| then d else ExponentEnd(data, d))
    else (false, i + 1)
  }

  /** The automaton run over `data[start..k]`, counted on the stream's own indices. */
  function Run(data: seq<Octet>, start: nat, k: nat): FloatState
    requires start <= k <= |data|
    decreases k - start
  {
    if k == start then Start else FloatTransition(Run(data, start, k - 1), data[k - 1])
  }

  /** The run on the stream is the run on the slice. */
  lemma {:induction false} RunIsRunFloat(data: seq<Octet>, start: nat, k: nat)
    requires start <= k <= |data|
    ensures Run(data, start, k) == RunFloat(data[start..k])
    decreases k - start
  {
    if k > start {
      RunIsRunFloat(data, start, k - 1);
      assert data[start..k][..k - 1 - start] == data[start..k - 1];
    }
  }

  /** A run of digits keeps the automaton in a state that loops on digits. */
  lemma {:induction false} DigitsRun(data: seq<Octet>, start: nat, i: nat, q: FloatState)
    requires start <= i < |data| && IsDecimalDigit(data[i])
    requires q == IntegerPart || q == FractionPart || q == ExponentDigits
    requires Run(data, start, i + 1) == q
    ensures Run(data, start, DigitsEnd(data, i)) == q
    decreases |data| - i
  {
    if i + 1 < |data| && IsDecimalDigit(data[i + 1]) {
      DigitsRun(data, start, i + 1, q);
    }
  }

  /** Digits that end the stream or are followed by a non-digit. */
  lemma DigitsThenRejected(data: seq<Octet>, start: nat, i: nat)
    requires start <= i < |data| && IsDecimalDigit(data[i])
    requires Run(data, start, i + 1) == ExponentDigits
    ensures var e := DigitsEnd(data, i);
            Run(data, start, e) == ExponentDigits
            && (e < |data| ==> Run(data, start, e + 1) == Rejected)
  {
    DigitsRun(data, start, i, ExponentDigits);
  }

  /** After a sign, the exponent lexer ends in an accepting state, and the next octet is
      rejected. */
  lemma ExponentAfterSign(data: seq<Octet>, start: nat, g: nat)
    requires start <= g && g + 2 <= |data|
    requires IsExponentSeparator(data[g]) && IsSign(data[g + 1])
    requires Run(data, start, g + 2) == ExponentSign
    ensures var e := ExponentEnd(data, g);
            var q := Run(data, start, e);
            q != Start && q != LeadingPoint && q != Rejected
            && (e < |data| ==> Run(data, start, e + 1) == Rejected)
  {
    if g + 2 < |data| && IsDecimalDigit(data[g + 2]) {
      DigitsThenRejected(data, start, g + 2);
    }
  }

  /** The exponent lexer ends in an accepting state, and the next octet is rejected. */
  lemma ExponentRun(data: seq<Octet>, start: nat, g: nat, q: FloatState)
    requires start <= g < |data|
    requires q == IntegerPart || q == FractionPart
    requires !IsDecimalDigit(data[g]) && (q == IntegerPart ==> data[g] != kDot)
    requires Run(data, start, g) == q
    ensures var e := ExponentEnd(data, g);
            var r := Run(data, start, e);
            r != Start && r != LeadingPoint && r != Rejected
            && (e < |data| ==> Run(data, start, e + 1) == Rejected)
  {
    if IsExponentSeparator(data[g]) && g + 1 < |data| {
      assert Run(data, start, g + 1) == ExponentMark;
      if IsSign(data[g + 1]) {
        ExponentAfterSign(data, start, g);
      } else if IsDecimalDigit(data[g + 1]) {
        DigitsThenRejected(data, start, g + 1);
      }
    }
  }

  /** The fraction and exponent after the point of a float lexeme. */
  lemma FractionRun(data: seq<Octet>, start: nat, d: nat)
    requires start <= d && d + 1 < |data|
    requires Run(data, start, d + 1) == FractionPart
    ensures var g := if IsDecimalDigit(data[d + 1]) then DigitsEnd(data, d + 1) else d + 1;
            Run(data, start, g) == FractionPart
  {
    if IsDecimalDigit(data[d + 1]) {
      DigitsRun(data, start, d + 1, FractionPart);
    }
  }

  /** The float lexeme drives the automaton to an accepting state, and the next octet to the
      rejecting one. */
  lemma FloatLexemeRun(data: seq<Octet>, i: nat)
    requires i < |data| && IsDecimalDigit(data[i])
    ensures var e := FloatEnd(data, i);
            var q := Run(data, i, e);
            q != Start && q != LeadingPoint && q != Rejected
            && (e < |data| ==> Run(data, i, e + 1) == Rejected)
  {
    DigitsRun(data, i, i, IntegerPart);
    var d := DigitsEnd(data, i);
    if d < |data| {
      if data[d] == kDot {
        if d + 1 < |data| {
          FractionRun(data, i, d);
          var g := if IsDecimalDigit(data[d + 1]) then DigitsEnd(data, d + 1) else d + 1;
          if g < |data| {
            ExponentRun(data, i, g, FractionPart);
          }
        }
      } else {
        ExponentRun(data, i, d, IntegerPart);
      }
    }
  }

  /** The float lexeme is a float literal, and the automaton rejects it extended by the next
      octet. */
  lemma FloatLexemeAccepted(data: seq<Octet>, i: nat)
    requires i < |data| && IsDecimalDigit(data[i])
    ensures var e := FloatEnd(data, i);
            IsFloatLiteral(data[i..e]) && (e < |data| ==> RunFloat(data[i..e + 1]) == Rejected)
  {
    FloatLexemeRun(data, i);
    var e := FloatEnd(data, i);
    RunIsRunFloat(data, i, e);
    if e < |data| {
      RunIsRunFloat(data, i, e + 1);
    }
  }

  /** The point-or-float lexeme drives the automaton to an accepting state exactly when the
      lexer calls it a float literal, and the next octet to the rejecting one. */
  lemma FloatOrDotRun(data: seq<Octet>, i: nat)
    requires i < |data| && data[i] == kDot
    ensures var (isFloat, e) := FloatOrDotEnd(data, i);
            var q := Run(data, i, e);
            (isFloat <==> q != Start && q != LeadingPoint && q != Rejected)
            && (e < |data| ==> Run(data, i, e + 1) == Rejected)
  {
    assert Run(data, i, i + 1) == LeadingPoint;
    if i + 1 < |data| && IsDecimalDigit(data[i + 1]) {
      assert Run(data, i, i + 2) == FractionPart;
      DigitsRun(data, i, i + 1, FractionPart);
      var d := DigitsEnd(data, i + 1);
      if d < |data| {
        ExponentRun(data, i, d, FractionPart);
      }
    } else if i + 1 < |data| {
      assert Run(data, i, i + 2) == Rejected;
    }
  }

  /** The point-or-float lexeme is a float literal exactly when the lexer says so, and the
      automaton rejects it extended by the next octet. */
  lemma FloatOrDotAccepted(data: seq<Octet>, i: nat)
    requires i < |data| && data[i] == kDot
    ensures var (isFloat, e) := FloatOrDotEnd(data, i);
            (isFloat <==> IsFloatLiteral(data[i..e]))
            && (e < |data| ==> RunFloat(data[i..e + 1]) == Rejected)
  {
    FloatOrDotRun(data, i);
    var e := FloatOrDotEnd(data, i).1;
    RunIsRunFloat(data, i, e);
    if e < |data| {
      RunIsRunFloat(data, i, e + 1);
    }
  }

  /** Once rejected, the automaton stays rejected. */
  lemma {:induction false} StaysRejected(data: seq<Octet>, i: nat, m: nat, k: nat)
    requires i <= m <= k <= |data|
    requires Run(data, i, m) == Rejected
    ensures Run(data, i, k) == Rejected
    decreases k - m
  {
    if m < k {
      StaysRejected(data, i, m + 1, k);
    }
  }

  /** Maximal munch: no longer stretch of the stream starting at the lexeme is a float
      literal. */
  lemma FloatLexemeLongest(data: seq<Octet>, i: nat)
    requires i < |data| && IsDecimalDigit(data[i])
    ensures forall k :: FloatEnd(data, i) < k <= |data| ==> !IsFloatLiteral(data[i..k])
  {
    FloatLexemeRun(data, i);
    var e := FloatEnd(data, i);
    forall k | e < k <= |data|
      ensures !IsFloatLiteral(data[i..k])
    {
      StaysRejected(data, i, e + 1, k);
      RunIsRunFloat(data, i, k);
    }
  }

  // ---------------------------------------------------------------- comments

  /** `EatNextLineComment`, called on the second '/': the comment runs up to, and not
      including, the next line end. */
  function LineCommentEnd(data: seq<Octet>, i: nat): (e: nat)
    requires i < |data|
    ensures i < e <= |data|
    ensures forall k :: i < k < e ==> !IsEndOfLine(data[k])
    ensures e == |data| || IsEndOfLine(data[e])
    decreases |data| - i
  {
    if i + 1 == |data| then i + 1
    else if IsEndOfLine(data[i + 1]) then i + 1
    else LineCommentEnd(data, i + 1)
  }

  /** `EatNextBlockComment`, called on the '*' of the opening "/*": the index past the "*/"
      that brings the nesting level to zero, or `None` if the stream ends first. Nested
      openings count only when `nested` is set. */
  function BlockComment(data: seq<Octet>, i: nat, nested: bool): (r: Option<nat>)
    requires i < |data|
    ensures r.Some? ==> i + 3 <= r.value <= |data|
  {
    if i + 1 == |data| then None else BlockCommentFrom(data, i + 1, 1, nested)
  }

  /** The loop of `EatNextBlockComment` at index `j` and nesting level `level`. */
  function BlockCommentFrom(data: seq<Octet>, j: nat, level: nat, nested: bool): (r: Option<nat>)
    requires j < |data| && level > 0
    ensures r.Some? ==> j + 2 <= r.value <= |data|
    decreases |data| - j
  {
    if data[j] == kStar then
      if j + 1 == |data| then None
      else if data[j + 1] == kSlash then
        if level == 1 then Some(j + 2)
        else if j + 2 == |data| then None
        else BlockCommentFrom(data, j + 2, level - 1, nested)
      else BlockCommentFrom(data, j + 1, level, nested)
    else if nested && data[j] == kSlash then
      if j + 1 == |data| then None
      else if data[j + 1] == kStar then
        if j + 2 == |data| then None else BlockCommentFrom(data, j + 2, level + 1, nested)
      else BlockCommentFrom(data, j + 1, level, nested)
    else if j + 1 == |data| then None
    else BlockCommentFrom(data, j + 1, level, nested)
  }

  /** The index past the first "*" "/" pair at or after `j`, if any. */
  function FirstClose(data: seq<Octet>, j: nat): (r: Option<nat>)
    requires j <= |data|
    decreases |data| - j
  {
    if j + 1 >= |data| then None
    else if data[j] == kStar && data[j + 1] == kSlash then Some(j + 2)
    else FirstClose(data, j + 1)
  }

  /** Every comment found ends in "*" "/". */
  lemma {:induction false} BlockCommentCloses(data: seq<Octet>, j: nat, level: nat, nested: bool)
    requires j < |data| && level > 0
    requires BlockCommentFrom(data, j, level, nested).Some?
    ensures var e := BlockCommentFrom(data, j, level, nested).value;
            data[e - 2] == kStar && data[e - 1] == kSlash
    decreases |data| - j
  {
    if data[j] == kStar {
      if data[j + 1] != kSlash {
        BlockCommentCloses(data, j + 1, level, nested);
      } else if level > 1 {
        BlockCommentCloses(data, j + 2, level - 1, nested);
      }
    } else if nested && data[j] == kSlash {
      if data[j + 1] == kStar {
        BlockCommentCloses(data, j + 2, level + 1, nested);
      } else {
        BlockCommentCloses(data, j + 1, level, nested);
      }
    } else {
      BlockCommentCloses(data, j + 1, level, nested);
    }
  }

  /** Without nesting the comment ends at the first "*" "/" after the opening one. */
  lemma {:induction false} UnnestedCommentFirstClose(data: seq<Octet>, j: nat)
    requires j < |data|
    ensures BlockCommentFrom(data, j, 1, false) == FirstClose(data, j)
    decreases |data| - j
  {
    if j + 1 < |data| && !(data[j] == kStar && data[j + 1] == kSlash) {
      UnnestedCommentFirstClose(data, j + 1);
    }
  }

  /** The nesting rule: the loop keeps a level and returns when a closing pair takes it from
      1 to 0. Started `extra` levels deeper, it therefore passes the point where the shallower
      run ends with `extra` levels still open and carries on from there; a closing pair at the
      very end of the stream then leaves the comment unterminated. */
  lemma {:induction false} NestedLevels(data: seq<Octet>, j: nat, level: nat, extra: nat, nested: bool)
    requires j < |data| && level > 0 && extra > 0
    ensures BlockCommentFrom(data, j, level + extra, nested)
            == match BlockCommentFrom(data, j, level, nested)
               case None => None
               case Some(m) => if m == |data| then None else BlockCommentFrom(data, m, extra, nested)
    decreases |data| - j
  {
    if data[j] == kStar {
      if j + 1 < |data| {
        if data[j + 1] == kSlash {
          if level > 1 && j + 2 < |data| {
            NestedLevels(data, j + 2, level - 1, extra, nested);
          }
        } else {
          NestedLevels(data, j + 1, level, extra, nested);
        }
      }
    } else if nested && data[j] == kSlash {
      if j + 1 < |data| {
        if data[j + 1] == kStar {
          if j + 2 < |data| {
            NestedLevels(data, j + 2, level + 1, extra, nested);
          }
        } else {
          NestedLevels(data, j + 1, level, extra, nested);
        }
      }
    } else if j + 1 < |data| {
      NestedLevels(data, j + 1, level, extra, nested);
    }
  }

  /** An inner comment opened at `j` with nesting: the enclosing comment continues right after
      the inner one closes, one level shallower, and is unterminated if the inner one is. */
  lemma InnerCommentSkipped(data: seq<Octet>, j: nat, level: nat)
    requires j + 2 < |data| && level > 0
    requires data[j] == kSlash && data[j + 1] == kStar
    ensures BlockCommentFrom(data, j, level, true)
            == match BlockCommentFrom(data, j + 2, 1, true)
               case None => None
               case Some(m) => if m == |data| then None else BlockCommentFrom(data, m, level, true)
  {
    NestedLevels(data, j + 2, 1, level, true);
  }

  /** "/" "*" "/" "*" "*" "/" "*" "/": with nesting the comment runs to the end; without,
      it ends at the first closing pair. */
  lemma NestedCommentExample()
    ensures var data := [kSlash, kStar, kSlash, kStar, kStar, kSlash, kStar, kSlash];
            BlockComment(data, 1, true) == Some(8) && BlockComment(data, 1, false) == Some(6)
  {
    var data := [kSlash, kStar, kSlash, kStar, kStar, kSlash, kStar, kSlash];
    assert BlockCommentFrom(data, 6, 1, true) == Some(8);
    assert BlockCommentFrom(data, 4, 2, true) == Some(8);
    assert BlockCommentFrom(data, 4, 1, false) == Some(6);
    assert BlockCommentFrom(data, 3, 1, false) == Some(6);
  }

  // ---------------------------------------------------------------- string literals

  /** `GetNextStringLiteralLexeme`, called on the opening quote: the lexeme text and the index
      past the closing quote, or `None` if the stream ends inside the literal. A backslash
      escapes the octet after it; non-ASCII octets are transcoded by the encoding. */
  function StringLiteral(data: seq<Octet>, i: nat, e: StringEncoding): (r: Option<(seq<Octet>, nat)>)
    requires i < |data| && data[i] == kQuote
    ensures r.Some? ==> i + 2 <= r.value.1 <= |data| && data[r.value.1 - 1] == kQuote
  {
    if i + 1 == |data| then None else StringBody(data, i + 1, e, [kQuote])
  }

  /** The loop of the string lexer at index `j`, with `text` written so far. */
  function StringBody(data: seq<Octet>, j: nat, e: StringEncoding, text: seq<Octet>): (r: Option<(seq<Octet>, nat)>)
    requires j < |data|
    ensures r.Some? ==> j < r.value.1 <= |data| && data[r.value.1 - 1] == kQuote
    decreases |data| - j, 1
  {
    if data[j] == kQuote then Some((text + [kQuote], j + 1))
    else if data[j] == kBackslash then
      if j + 1 == |data| then None else StringCharacter(data, j + 1, e, text + [kBackslash])
    else StringCharacter(data, j, e, text)
  }

  /** Copies or decodes the octet at `k`, which may not be the last of the stream. */
  function StringCharacter(data: seq<Octet>, k: nat, e: StringEncoding, text: seq<Octet>): (r: Option<(seq<Octet>, nat)>)
    requires k < |data|
    ensures r.Some? ==> k + 1 < r.value.1 <= |data| && data[r.value.1 - 1] == kQuote
    decreases |data| - k, 0
  {
    if k + 1 == |data| then None else StringBody(data, k + 1, e, text + TranscodeOctet(e, data[k]))
  }

  /** The octets between the quotes of a literal: a run of units, each an octet that is
      neither a quote nor a backslash, or a backslash followed by any octet. */
  predicate LiteralBody(b: seq<Octet>)
    decreases |b|
  {
    || |b| == 0
    || (b[0] != kQuote && b[0] != kBackslash && LiteralBody(b[1..]))
    || (|b| >= 2 && b[0] == kBackslash && LiteralBody(b[2..]))
  }

  /** Whatever the string lexer accepts from `j` is a literal body followed by a quote. */
  lemma {:induction false} StringBodySound(data: seq<Octet>, j: nat, e: StringEncoding, text: seq<Octet>)
    requires j < |data|
    requires StringBody(data, j, e, text).Some?
    ensures var n := StringBody(data, j, e, text).value.1;
            j < n && data[n - 1] == kQuote && LiteralBody(data[j..n - 1])
    decreases |data| - j
  {
    var n := StringBody(data, j, e, text).value.1;
    if data[j] == kQuote {
      assert data[j..n - 1] == [];
    } else if data[j] == kBackslash {
      var t := text + [kBackslash] + TranscodeOctet(e, data[j + 1]);
      assert StringBody(data, j, e, text) == StringBody(data, j + 2, e, t);
      StringBodySound(data, j + 2, e, t);
      assert data[j..n - 1][2..] == data[j + 2..n - 1];
    } else {
      var t := text + TranscodeOctet(e, data[j]);
      assert StringBody(data, j, e, text) == StringBody(data, j + 1, e, t);
      StringBodySound(data, j + 1, e, t);
      assert data[j..n - 1][1..] == data[j + 1..n - 1];
    }
  }

  /** A literal body from `j` followed by a quote at `m` is read by the string lexer up to and
      including that quote. */
  lemma {:induction false} StringBodyComplete(data: seq<Octet>, j: nat, e: StringEncoding, text: seq<Octet>, m: nat)
    requires j <= m < |data| && data[m] == kQuote && LiteralBody(data[j..m])
    ensures StringBody(data, j, e, text).Some? && StringBody(data, j, e, text).value.1 == m + 1
    decreases m - j
  {
    if j < m {
      var b := data[j..m];
      if b[0] == kBackslash {
        var t := text + [kBackslash] + TranscodeOctet(e, data[j + 1]);
        assert b[2..] == data[j + 2..m];
        StringBodyComplete(data, j + 2, e, t, m);
        assert StringBody(data, j, e, text) == StringBody(data, j + 2, e, t);
      } else {
        var t := text + TranscodeOctet(e, data[j]);
        assert b[1..] == data[j + 1..m];
        StringBodyComplete(data, j + 1, e, t, m);
        assert StringBody(data, j, e, text) == StringBody(data, j + 1, e, t);
      }
    }
  }

  /** A string literal ends at the first quote that is not escaped: what the lexer reads is a
      literal body closed by a quote, and any literal body closed by a quote is exactly what it
      reads, so no earlier quote ends it and an escaped quote never does. The literal is
      incomplete exactly when no such quote exists. */
  lemma StringLiteralEnd(data: seq<Octet>, i: nat, e: StringEncoding)
    requires i < |data| && data[i] == kQuote
    ensures StringLiteral(data, i, e).Some? ==>
              var n := StringLiteral(data, i, e).value.1;
              data[n - 1] == kQuote && LiteralBody(data[i + 1..n - 1])
    ensures forall m :: i < m < |data| && data[m] == kQuote && LiteralBody(data[i + 1..m]) ==>
              StringLiteral(data, i, e).Some? && StringLiteral(data, i, e).value.1 == m + 1
  {
    if StringLiteral(data, i, e).Some? {
      StringBodySound(data, i + 1, e, [kQuote]);
    }
    forall m | i < m < |data| && data[m] == kQuote && LiteralBody(data[i + 1..m])
      ensures StringLiteral(data, i, e).Some? && StringLiteral(data, i, e).value.1 == m + 1
    {
      StringBodyComplete(data, i + 1, e, [kQuote], m);
    }
  }

  /** An escaped quote does not end a literal: the lexer reads on past it, or finds the literal
      incomplete. */
  lemma EscapedQuoteContinues(data: seq<Octet>, j: nat, e: StringEncoding, text: seq<Octet>)
    requires j + 1 < |data| && data[j] == kBackslash && data[j + 1] == kQuote
    requires StringBody(data, j, e, text).Some?
    ensures StringBody(data, j, e, text).value.1 > j + 2
  {
    var t := text + [kBackslash] + TranscodeOctet(e, data[j + 1]);
    assert StringBody(data, j, e, text) == StringBody(data, j + 2, e, t);
  }

  /** `EatNextStringLiteral`, used while looking for directives: the index past the closing
      quote, without building a text. */
  function EatString(data: seq<Octet>, i: nat): (r: Option<nat>)
    requires i < |data| && data[i] == kQuote
    ensures r.Some? ==> i + 2 <= r.value <= |data|
  {
    if i + 1 == |data| then None else EatStringBody(data, i + 1)
  }

  function EatStringBody(data: seq<Octet>, j: nat): (r: Option<nat>)
    requires j < |data|
    ensures r.Some? ==> j < r.value <= |data|
    decreases |data| - j, 1
  {
    if data[j] == kQuote then Some(j + 1)
    else if data[j] == kBackslash then
      if j + 1 == |data| then None else EatStringCharacter(data, j + 1)
    else EatStringCharacter(data, j)
  }

  function EatStringCharacter(data: seq<Octet>, k: nat): (r: Option<nat>)
    requires k < |data|
    ensures r.Some? ==> k + 1 < r.value <= |data|
    decreases |data| - k, 0
  {
    if k + 1 == |data| then None else EatStringBody(data, k + 1)
  }

  lemma ConcatAssociative<T>(a: seq<T>, b: seq<T>, c: seq<T>)
    ensures (a + b) + c == a + (b + c)
  {
  }

  /** The first octet of a transcoded run is the transcoded first octet. */
  lemma TranscodeFront(e: StringEncoding, data: seq<Octet>, j: nat, n: nat)
    requires j < n <= |data|
    ensures Transcode(e, data[j..n]) == TranscodeOctet(e, data[j]) + Transcode(e, data[j + 1..n])
  {
    assert data[j..n][1..] == data[j + 1..n];
  }

  /** The text of a string literal is the literal's octets, each transcoded: the quotes and
      backslashes are copied as they are. */
  lemma {:induction false} StringBodyText(data: seq<Octet>, j: nat, e: StringEncoding, text: seq<Octet>)
    requires j < |data|
    requires StringBody(data, j, e, text).Some?
    ensures var (t, n) := StringBody(data, j, e, text).value;
            t == text + Transcode(e, data[j..n])
    decreases |data| - j, 1, 0
  {
    var n := StringBody(data, j, e, text).value.1;
    if data[j] == kQuote {
      QuoteLiteral(e, data, j, n);
    } else if data[j] == kBackslash {
      EscapedText(data, j, e, text);
    } else {
      StringCharacterText(data, j, e, text);
    }
  }

  /** An escape sequence: the backslash is copied, then the octet after it. */
  lemma {:induction false} EscapedText(data: seq<Octet>, j: nat, e: StringEncoding, text: seq<Octet>)
    requires j + 1 < |data| && data[j] == kBackslash
    requires StringCharacter(data, j + 1, e, text + [kBackslash]).Some?
    ensures var (t, n) := StringCharacter(data, j + 1, e, text + [kBackslash]).value;
            t == text + Transcode(e, data[j..n])
    decreases |data| - j, 0, 0
  {
    var n := StringCharacter(data, j + 1, e, text + [kBackslash]).value.1;
    StringCharacterText(data, j + 1, e, text + [kBackslash]);
    BackslashCopied(e, data, j, n);
    ConcatAssociative(text, [kBackslash], Transcode(e, data[j + 1..n]));
  }

  /** A closing quote is copied as it is. */
  lemma QuoteLiteral(e: StringEncoding, data: seq<Octet>, j: nat, n: nat)
    requires j < |data| && n == j + 1 && data[j] == kQuote
    ensures Transcode(e, data[j..n]) == [kQuote]
  {
    assert data[j..n] == [kQuote];
    assert TranscodeOctet(e, kQuote) == [kQuote];
  }

  /** An escaping backslash is copied as it is. */
  lemma BackslashCopied(e: StringEncoding, data: seq<Octet>, j: nat, n: nat)
    requires j < n <= |data| && data[j] == kBackslash
    ensures Transcode(e, data[j..n]) == [kBackslash] + Transcode(e, data[j + 1..n])
  {
    TranscodeFront(e, data, j, n);
    assert TranscodeOctet(e, kBackslash) == [kBackslash];
  }

  lemma {:induction false} StringCharacterText(data: seq<Octet>, k: nat, e: StringEncoding, text: seq<Octet>)
    requires k < |data|
    requires StringCharacter(data, k, e, text).Some?
    ensures var (t, n) := StringCharacter(data, k, e, text).value;
            t == text + Transcode(e, data[k..n])
    decreases |data| - k, 0, 1
  {
    var n := StringCharacter(data, k, e, text).value.1;
    var o := TranscodeOctet(e, data[k]);
    StringBodyText(data, k + 1, e, text + o);
    TranscodeFront(e, data, k, n);
    ConcatAssociative(text, o, Transcode(e, data[k + 1..n]));
  }

  /** The lexeme text of a string literal is its octets transcoded; for UTF-8 they are copied
      unchanged. */
  lemma StringLiteralText(data: seq<Octet>, i: nat, e: StringEncoding)
    requires i < |data| && data[i] == kQuote
    requires StringLiteral(data, i, e).Some?
    ensures var (t, n) := StringLiteral(data, i, e).value;
            t == Transcode(e, data[i..n]) && (e == UTF8Encoding ==> t == data[i..n])
  {
    var n := StringLiteral(data, i, e).value.1;
    StringBodyText(data, i + 1, e, [kQuote]);
    TranscodeFront(e, data, i, n);
  }

  /** Skipping a string literal ends where reading it does, whatever the encoding, and fails
      exactly when reading fails. */
  lemma {:induction false} EatStringBodyAgrees(data: seq<Octet>, j: nat, e: StringEncoding, text: seq<Octet>)
    requires j < |data|
    ensures EatStringBody(data, j)
            == if StringBody(data, j, e, text).Some? then Some(StringBody(data, j, e, text).value.1) else None
    decreases |data| - j, 1
  {
    if data[j] != kQuote {
      if data[j] == kBackslash {
        if j + 1 < |data| {
          EatStringCharacterAgrees(data, j + 1, e, text + [kBackslash]);
        }
      } else {
        EatStringCharacterAgrees(data, j, e, text);
      }
    }
  }

  lemma {:induction false} EatStringCharacterAgrees(data: seq<Octet>, k: nat, e: StringEncoding, text: seq<Octet>)
    requires k < |data|
    ensures EatStringCharacter(data, k)
            == if StringCharacter(data, k, e, text).Some? then Some(StringCharacter(data, k, e, text).value.1) else None
    decreases |data| - k, 0
  {
    if k + 1 < |data| {
      EatStringBodyAgrees(data, k + 1, e, text + TranscodeOctet(e, data[k]));
    }
  }

  lemma EatStringAgrees(data: seq<Octet>, i: nat, e: StringEncoding)
    requires i < |data| && data[i] == kQuote
    ensures EatString(data, i)
            == if StringLiteral(data, i, e).Some? then Some(StringLiteral(data, i, e).value.1) else None
  {
    if i + 1 < |data| {
      EatStringBodyAgrees(data, i + 1, e, [kQuote]);
    }
  }

  /** An escaped quote does not end a literal, a literal cut short by the end of the stream is
      incomplete, and under the ASCII encoding a non-ASCII octet becomes U+FFFD. */
  lemma StringLiteralExamples()
    ensures StringLiteral([kQuote, 0x61, kBackslash, kQuote, kQuote], 0, ASCIIEncoding)
            == Some(([kQuote, 0x61, kBackslash, kQuote, kQuote], 5))
    ensures StringLiteral([kQuote, kBackslash, kQuote], 0, UTF8Encoding) == None
    ensures StringLiteral([kQuote, 0xE9, kQuote], 0, ASCIIEncoding)
            == Some(([kQuote, 0xEF, 0xBF, 0xBD, kQuote], 3))
  {
    var escaped := [kQuote, 0x61, kBackslash, kQuote, kQuote];
    assert TranscodeOctet(ASCIIEncoding, kQuote) == [kQuote];
    assert TranscodeOctet(ASCIIEncoding, 0x61) == [0x61];
    assert [kQuote, 0x61, kBackslash, kQuote] + [kQuote] == escaped;
    assert [kQuote, 0x61, kBackslash] + [kQuote] == [kQuote, 0x61, kBackslash, kQuote];
    assert [kQuote, 0x61] + [kBackslash] == [kQuote, 0x61, kBackslash];
    assert [kQuote] + [0x61] == [kQuote, 0x61];
    assert StringBody(escaped, 4, ASCIIEncoding, [kQuote, 0x61, kBackslash, kQuote]) == Some((escaped, 5));
    assert StringBody(escaped, 2, ASCIIEncoding, [kQuote, 0x61]) == Some((escaped, 5));
    assert StringBody(escaped, 1, ASCIIEncoding, [kQuote]) == Some((escaped, 5));
    var accented := [kQuote, 0xE9, kQuote];
    var replaced := [kQuote, 0xEF, 0xBF, 0xBD];
    TranscodedIsUTF8(ASCIIEncoding, 0xE9);
    assert [kQuote] + TranscodeOctet(ASCIIEncoding, 0xE9) == replaced;
    assert replaced + [kQuote] == [kQuote, 0xEF, 0xBF, 0xBD, kQuote];
    assert StringBody(accented, 2, ASCIIEncoding, replaced) == Some(([kQuote, 0xEF, 0xBF, 0xBD, kQuote], 3));
    assert StringCharacter(accented, 1, ASCIIEncoding, [kQuote]) == Some(([kQuote, 0xEF, 0xBF, 0xBD, kQuote], 3));
    assert StringBody(accented, 1, ASCIIEncoding, [kQuote]) == Some(([kQuote, 0xEF, 0xBF, 0xBD, kQuote], 3));
  }

  // ---------------------------------------------------------------- lexemes

  /** `Lexeme::Category`. */
  datatype Category = WordLexeme | FloatLiteralLexeme | StringLiteralLexeme | OtherLexeme

  /** `Lexeme`: the text (UTF-8 for string literals), where it starts, and its category. */
  datatype Lexeme = Lexeme(text: seq<Octet>, position: LexemePosition, category: Category)

  /** The lexemes of category "other": one printable octet that starts no other lexeme, or a
      comparison of two; a slash is never followed by the second octet of a comment opener,
      and a point never by a digit. */
  predicate OtherShape(data: seq<Octet>, p: int, n: int)
    requires 0 <= p < n <= |data|
  {
    var c := data[p];
    var comparison := c == kBang || c == kLess || c == kGreater;
    n <= p + 2
    && IsPrintable(c) && !IsWhitespace(c) && !IsIdentifierChar1(c) && !IsDecimalDigit(c) && c != kQuote
    && (n == p + 2 ==> comparison && data[p + 1] == kEquals)
    && (n == p + 1 && comparison ==> n == |data| || data[n] != kEquals)
    && (c == kSlash ==> n == p + 1 && (n == |data| || (data[n] != kSlash && data[n] != kStar)))
    && (c == kDot ==> n == p + 1 && (n == |data| || !IsDecimalDigit(data[n])))
  }

  /** What a lexeme ending before index `n` of the stream looks like, by category. */
  predicate LexemeShape(data: seq<Octet>, e: StringEncoding, lexeme: Lexeme, n: int) {
    var p := lexeme.position.offset;
    0 <= p < n <= |data|
    && match lexeme.category
       case WordLexeme =>
         lexeme.text == data[p..n] && IsIdentifierChar1(data[p])
         && (forall k :: p < k < n ==> IsIdentifierChar2(data[k]))
         && (n == |data| || !IsIdentifierChar2(data[n]))
       case FloatLiteralLexeme =>
         lexeme.text == data[p..n] && IsFloatLiteral(data[p..n])
         && (n == |data| || RunFloat(data[p..n + 1]) == Rejected)
       case StringLiteralLexeme =>
         p + 2 <= n && data[p] == kQuote && data[n - 1] == kQuote
         && lexeme.text == Transcode(e, data[p..n])
       case OtherLexeme =>
         lexeme.text == data[p..n] && OtherShape(data, p, n)
  }

  /** Whether the octets at `w` open a comment. */
  predicate CommentStart(data: seq<Octet>, w: int) {
    0 <= w && w + 1 < |data| && data[w] == kSlash && (data[w + 1] == kSlash || data[w + 1] == kStar)
  }

  /** Where the comment opened at `w` ends: at the line end for "//", after the closing star-slash
      of a block comment, and nowhere when the stream ends inside a block comment. */
  function CommentEnd(data: seq<Octet>, w: nat, nested: bool): (r: Option<nat>)
    requires CommentStart(data, w)
    ensures r.Some? ==> w + 2 <= r.value <= |data|
    ensures r.None? ==> data[w + 1] == kStar
  {
    if data[w + 1] == kSlash then Some(LineCommentEnd(data, w + 1)) else BlockComment(data, w + 1, nested)
  }

  /** The facts an exception raised at `p` of stream `name` records about the stream. */
  predicate FailureShape(data: seq<Octet>, name: UCS2String, e: StringEncoding, nested: bool, x: TokenizerException) {
    var p := x.offendingPosition.offset;
    x.offendingStreamName == name && 0 <= p < |data|
    && match x.error
       case InvalidCharacter(c) =>
         c == data[p] as int && !IsPrintable(data[p]) && !IsWhitespace(data[p])
       case IncompleteStringLiteral =>
         data[p] == kQuote && StringLiteral(data, p, e).None?
       case IncompleteComment =>
         p + 1 < |data| && data[p] == kSlash && data[p + 1] == kStar
         && BlockComment(data, p + 1, nested).None?
       case InvalidEscapeSequence(_) => false
  }

  /** The facts an exception raised by the search for a directive records: only a string
      literal or a block comment the stream ends inside stops that search. */
  predicate DirectiveFailureShape(data: seq<Octet>, name: UCS2String, nested: bool, x: TokenizerException) {
    var p := x.offendingPosition.offset;
    x.offendingStreamName == name && 0 <= p < |data|
    && match x.error
       case IncompleteStringLiteral => data[p] == kQuote && EatString(data, p).None?
       case IncompleteComment =>
         p + 1 < |data| && data[p] == kSlash && data[p + 1] == kStar
         && BlockComment(data, p + 1, nested).None?
       case _ => false
  }

  /** What the lexer passes over before a lexeme: whitespace, line comments (up to the line
      end) and block comments. */
  predicate Skippable(data: seq<Octet>, nested: bool, i: nat, j: nat)
    requires i <= j <= |data|
    decreases j - i
  {
    i == j
    || (IsWhitespace(data[i]) && Skippable(data, nested, i + 1, j))
    || (i + 1 < j && data[i] == kSlash && data[i + 1] == kSlash
        && LineCommentEnd(data, i + 1) <= j && Skippable(data, nested, LineCommentEnd(data, i + 1), j))
    || (i + 1 < j && data[i] == kSlash && data[i + 1] == kStar
        && var close := BlockComment(data, i + 1, nested);
           close.Some? && close.value <= j && Skippable(data, nested, close.value, j))
  }

  /** A comment in front of skippable octets is skippable. */
  lemma CommentSkippable(data: seq<Octet>, nested: bool, w: nat, j: nat)
    requires CommentStart(data, w) && CommentEnd(data, w, nested).Some?
    requires CommentEnd(data, w, nested).value <= j <= |data|
    requires Skippable(data, nested, CommentEnd(data, w, nested).value, j)
    ensures Skippable(data, nested, w, j)
  {
  }

  /** A run of whitespace in front of skippable octets is skippable. */
  lemma {:induction false} WhitespaceSkippable(data: seq<Octet>, nested: bool, i: nat, w: nat, j: nat)
    requires i <= w <= j <= |data|
    requires forall k :: i <= k < w ==> IsWhitespace(data[k])
    requires Skippable(data, nested, w, j)
    ensures Skippable(data, nested, i, j)
    decreases w - i
  {
    if i < w {
      WhitespaceSkippable(data, nested, i + 1, w, j);
    }
  }

}
