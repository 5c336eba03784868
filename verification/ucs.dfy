/**
 The `UCS` helpers of stringutilities.cpp: decoding of UTF-8 lead and
 continuation octets (RFC 3629, with the 5- and 6-octet lead forms of
 RFC 2279 still admitted by the length table), the overlong-encoding test,
 and the code-point predicates, together with the surrogate-pair arithmetic
 of section 2.2 of RFC 2781 used by `DecodeUTF8Character`.

 Code units are `bv8` (`UTF8CodeUnit`, an unsigned char) and code points
 `bv32` (`UCS4`, an unsigned 32-bit integer), so shifts and additions wrap
 exactly as in the source.
 */
module Ucs {

  /** `UCS::kReplacementCharacter`: U+FFFD. */
  const kReplacementCharacter: bv32 := 0xFFFD

  /** The largest Unicode code point. */
  const kMaxCodePoint: bv32 := 0x10FFFF

  // ---------------------------------------------------------------- code-point predicates

  /** `IsUCSCodePoint`: within the Unicode range (a `UCS4` is never negative). */
  predicate IsUCSCodePoint(c: bv32) {
    c <= kMaxCodePoint
  }

  /** `IsUCSSurrogate`: reserved for UTF-16 surrogates. */
  predicate IsUCSSurrogate(c: bv32) {
    0xD800 <= c <= 0xDFFF
  }

  /** `IsUCSHighSurrogate`: the first half of a surrogate pair. */
  predicate IsUCSHighSurrogate(c: bv32) {
    0xD800 <= c <= 0xDBFF
  }

  /** `IsUCSLowSurrogate`: the second half of a surrogate pair. */
  predicate IsUCSLowSurrogate(c: bv32) {
    0xDC00 <= c <= 0xDFFF
  }

  /** `IsUCSScalarValue`: a code point that is not a surrogate. */
  predicate IsUCSScalarValue(c: bv32) {
    IsUCSCodePoint(c) && !IsUCSSurrogate(c)
  }

  /** The high and low ranges partition the surrogate range, and scalar values are exactly
      the code points outside it; the replacement character is one of them. */
  lemma SurrogatePartition(c: bv32)
    ensures IsUCSSurrogate(c) <==> IsUCSHighSurrogate(c) || IsUCSLowSurrogate(c)
    ensures !(IsUCSHighSurrogate(c) && IsUCSLowSurrogate(c))
    ensures IsUCSScalarValue(c) <==> c <= 0xD7FF || (0xE000 <= c <= kMaxCodePoint)
    ensures IsUCSScalarValue(kReplacementCharacter)
  {
  }

  // ---------------------------------------------------------------- surrogate pairs

  /** The supplementary code point a high and a low surrogate stand for:
      `(((hi & 0x3FF) << 10) | (lo & 0x3FF)) + 0x10000`. */
  function CombineSurrogates(hi: bv32, lo: bv32): (c: bv32)
    ensures 0x10000 <= c <= kMaxCodePoint
    ensures IsUCSScalarValue(c)
  {
    (((hi & 0x3FF) << 10) | (lo & 0x3FF)) + 0x10000
  }

  /** The surrogate pair that encodes a supplementary code point. */
  function SplitSurrogates(c: bv32): (r: (bv32, bv32))
    requires 0x10000 <= c <= kMaxCodePoint
    ensures IsUCSHighSurrogate(r.0) && IsUCSLowSurrogate(r.1)
  {
    (0xD800 + ((c - 0x10000) >> 10), 0xDC00 + ((c - 0x10000) & 0x3FF))
  }

  /** Combining the pair a supplementary code point splits into gives it back. */
  lemma CombineSplit(c: bv32)
    requires 0x10000 <= c <= kMaxCodePoint
    ensures CombineSurrogates(SplitSurrogates(c).0, SplitSurrogates(c).1) == c
  {
  }

  /** Splitting the code point a surrogate pair combines to gives the pair back. */
  lemma SplitCombine(hi: bv32, lo: bv32)
    requires IsUCSHighSurrogate(hi) && IsUCSLowSurrogate(lo)
    ensures SplitSurrogates(CombineSurrogates(hi, lo)) == (hi, lo)
  {
  }

  // ---------------------------------------------------------------- lead and continuation octets

  /** `kaUTF8SequenceLength`: the number of octets a sequence starting with `b` has,
      0 for continuation octets (0x80-0xBF) and for 0xFE and 0xFF. */
  function SequenceLength(b: bv8): (n: nat)
    ensures n <= 6
  {
    if b <= 0x7F then 1
    else if b <= 0xBF then 0
    else if b <= 0xDF then 2
    else if b <= 0xEF then 3
    else if b <= 0xF7 then 4
    else if b <= 0xFB then 5
    else if b <= 0xFD then 6
    else 0
  }

  /** What `DecodeUTF8LeadOctet` returns: the sequence length and the code point so far. */
  datatype LeadResult = LeadResult(length: nat, c: bv32)

  /** `DecodeUTF8LeadOctet`: the sequence length from the table and, unless it is zero, the
      payload bits `b & (0xFF >> length)`; a zero length leaves `c` as it was. */
  function DecodeUTF8LeadOctet(c: bv32, b: bv8): (r: LeadResult)
    ensures r.length == SequenceLength(b)
    ensures r.length == 0 ==> r.c == c
    ensures r.length == 1 ==> r.c == b as bv32
    ensures r.length >= 2 ==> r.c < (1 as bv32) << (7 - r.length)
  {
    var n := SequenceLength(b);
    if n == 0 then LeadResult(0, c)
    else LeadResult(n, (b & (0xFF >> n)) as bv32)
  }

  /** The source's comment on the lead mask: masking with `0xFF >> length` keeps exactly the
      payload bits `0x7F >> length` would, because the lowest non-payload bit of a
      multi-octet lead octet is zero. */
  lemma LeadMaskIsPayloadMask(b: bv8)
    requires SequenceLength(b) >= 2
    ensures b & (0xFF >> SequenceLength(b)) == b & (0x7F >> SequenceLength(b))
  {
  }

  /** What `DecodeUTF8ContinuationOctet` returns: whether the octet was one, and `c`. */
  datatype ContinuationResult = ContinuationResult(ok: bool, c: bv32)

  /** Whether an octet has the continuation form `10xxxxxx`. */
  predicate IsContinuationOctet(b: bv8) {
    b & 0xC0 == 0x80
  }

  /** `DecodeUTF8ContinuationOctet`: for an octet `10xxxxxx`, `c` shifted left by six bits
      (modulo 2^32) plus the six payload bits; any other octet is refused and `c` kept. */
  function DecodeUTF8ContinuationOctet(c: bv32, b: bv8): (r: ContinuationResult)
    ensures r.ok <==> IsContinuationOctet(b)
    ensures !r.ok ==> r.c == c
    ensures r.ok ==> r.c & 0x3F == (b & 0x3F) as bv32 && r.c >> 6 == c & 0x03FF_FFFF
  {
    if !IsContinuationOctet(b) then ContinuationResult(false, c)
    else ContinuationResult(true, Append6(c, b))
  }

  /** `(c << 6) + (b & 0x3F)`: six more payload bits appended to `c`. */
  function Append6(c: bv32, b: bv8): bv32 {
    (c << 6) + (b & 0x3F) as bv32
  }

  /** Exactly the octets the length table marks 0 below 0xC0 are continuation octets. */
  lemma ContinuationOctetsHaveNoLength(b: bv8)
    ensures IsContinuationOctet(b) <==> 0x80 <= b <= 0xBF
    ensures IsContinuationOctet(b) ==> SequenceLength(b) == 0
  {
  }

  // ---------------------------------------------------------------- overlong encodings

  /** The number of octets the shortest UTF-8 form of a code point takes. */
  function MinimalLength(c: bv32): (n: nat)
    requires IsUCSCodePoint(c)
    ensures 1 <= n <= 4
  {
    if c <= 0x7F then 1 else if c <= 0x7FF then 2 else if c <= 0xFFFF then 3 else 4
  }

  /** `IsUTF8Overlong` as written: for lengths 2, 3 and 4 it answers whether `c` is above
      the largest value of the next shorter form, that is whether the sequence is NOT
      overlong; length 1 is never overlong and other lengths always are. */
  function IsUTF8OverlongAsWritten(c: bv32, length: nat): (r: bool)
    ensures length == 1 ==> !r
    ensures IsUCSCodePoint(c) && 2 <= length <= 4 ==> (r <==> MinimalLength(c) >= length)
    ensures !(1 <= length <= 4) ==> r
  {
    match length
    case 1 => false
    case 2 => c > 0x007F
    case 3 => c > 0x07FF
    case 4 => c > 0xFFFF
    case _ => true
  }

  /** The overlong test with the intended sense: a sequence of 2 to 4 octets is overlong when
      its code point would fit a shorter sequence. */
  function IsUTF8Overlong(c: bv32, length: nat): (r: bool)
    ensures length == 1 ==> !r
    ensures IsUCSCodePoint(c) && 1 <= length <= 4 ==> (r <==> MinimalLength(c) < length)
  {
    match length
    case 1 => false
    case 2 => c <= 0x007F
    case 3 => c <= 0x07FF
    case 4 => c <= 0xFFFF
    case _ => true
  }

  /** For 2 to 4 octets, the as-written test is the negation of the intended one. */
  lemma OverlongSenseInverted(c: bv32, length: nat)
    requires 2 <= length <= 4
    ensures IsUTF8OverlongAsWritten(c, length) == !IsUTF8Overlong(c, length)
  {
  }

  /** 'A' written in two octets (0xC1 0x81) is overlong, yet the as-written test says it is
      not; 'é' (U+00E9) written in its proper two octets is flagged as overlong. */
  lemma OverlongCounterexample()
    ensures DecodeOctets([0xC1, 0x81]) == Some(0x41)
    ensures !IsUTF8OverlongAsWritten(0x41, 2) && IsUTF8Overlong(0x41, 2)
    ensures EncodeUTF8(0xE9) == [0xC3, 0xA9]
    ensures IsUTF8OverlongAsWritten(0xE9, 2) && !IsUTF8Overlong(0xE9, 2)
  {
    DecodeTwo(0xC1, 0x81);
  }

  // ---------------------------------------------------------------- whole sequences

  datatype Option<T> = None | Some(value: T)

  /** The continuation octets folded into `c` one by one; `None` at the first octet that is
      not a continuation octet. */
  function DecodeContinuations(c: bv32, s: seq<bv8>): (r: Option<bv32>)
    ensures r.None? <==> exists k :: 0 <= k < |s| && !IsContinuationOctet(s[k])
    decreases |s|
  {
    if |s| == 0 then Some(c)
    else
      var step := DecodeUTF8ContinuationOctet(c, s[0]);
      if !step.ok then None
      else
        var rest := DecodeContinuations(step.c, s[1..]);
        assert forall k :: 1 <= k < |s| ==> s[k] == s[1..][k - 1];
        rest
  }

  /** One complete UTF-8 sequence decoded with the two octet helpers: the lead octet fixes the
      length, which must be the sequence's, and every further octet must continue it. */
  function DecodeOctets(s: seq<bv8>): (r: Option<bv32>)
    ensures r.Some? ==> |s| >= 1 && SequenceLength(s[0]) == |s|
  {
    if |s| == 0 then None
    else
      var lead := DecodeUTF8LeadOctet(0, s[0]);
      if lead.length != |s| then None
      else DecodeContinuations(lead.c, s[1..])
  }

  /** The shortest UTF-8 form of a code point, as section 3 of RFC 3629 writes it. */
  function EncodeUTF8(c: bv32): (s: seq<bv8>)
    requires IsUCSCodePoint(c)
    ensures |s| == MinimalLength(c)
  {
    if c <= 0x7F then
      [c as bv8]
    else if c <= 0x7FF then
      [(0xC0 | (c >> 6)) as bv8, ContinuationFor(c)]
    else if c <= 0xFFFF then
      [(0xE0 | (c >> 12)) as bv8, ContinuationFor(c >> 6), ContinuationFor(c)]
    else
      [(0xF0 | (c >> 18)) as bv8, ContinuationFor(c >> 12), ContinuationFor(c >> 6), ContinuationFor(c)]
  }

  /** The payload of a sequence's lead octet, then of each continuation octet. */
  lemma DecodeTwo(b0: bv8, b1: bv8)
    requires SequenceLength(b0) == 2 && IsContinuationOctet(b1)
    ensures DecodeOctets([b0, b1]) == Some(Append6((b0 & 0x1F) as bv32, b1))
  {
    var s := [b0, b1];
    LeadMaskIsPayloadMask(b0);
    var c0 := DecodeUTF8LeadOctet(0, b0).c;
    assert c0 == (b0 & 0x1F) as bv32;
    assert s[1..] == [b1] && [b1][1..] == [];
    var c1 := DecodeUTF8ContinuationOctet(c0, b1).c;
    assert DecodeContinuations(c1, []) == Some(c1);
    assert DecodeContinuations(c0, [b1]) == Some(c1);
  }

  lemma DecodeThree(b0: bv8, b1: bv8, b2: bv8)
    requires SequenceLength(b0) == 3 && IsContinuationOctet(b1) && IsContinuationOctet(b2)
    ensures DecodeOctets([b0, b1, b2]) == Some(Append6(Append6((b0 & 0x0F) as bv32, b1), b2))
  {
    LeadMaskIsPayloadMask(b0);
    var c0 := (b0 & 0x0F) as bv32;
    assert DecodeUTF8LeadOctet(0, b0) == LeadResult(3, c0);
    var c1 := Append6(c0, b1);
    var c2 := Append6(c1, b2);
    DecodeContinuationsTwo(c0, b1, b2, c1, c2);
    assert [b0, b1, b2][1..] == [b1, b2];
  }

  lemma DecodeFour(b0: bv8, b1: bv8, b2: bv8, b3: bv8)
    requires SequenceLength(b0) == 4
    requires IsContinuationOctet(b1) && IsContinuationOctet(b2) && IsContinuationOctet(b3)
    ensures DecodeOctets([b0, b1, b2, b3]) == Some(Append6(Append6(Append6((b0 & 0x07) as bv32, b1), b2), b3))
  {
    LeadMaskIsPayloadMask(b0);
    var c0 := (b0 & 0x07) as bv32;
    assert DecodeUTF8LeadOctet(0, b0) == LeadResult(4, c0);
    var c1 := Append6(c0, b1);
    var c2 := Append6(c1, b2);
    var c3 := Append6(c2, b3);
    DecodeContinuationsTwo(c1, b2, b3, c2, c3);
    DecodeContinuationsThree(c0, b1, b2, b3, c1, c3);
    assert [b0, b1, b2, b3][1..] == [b1, b2, b3];
  }

  /** The continuation octet that carries the low six bits of `x`. */
  function ContinuationFor(x: bv32): bv8 {
    (0x80 | (x & 0x3F)) as bv8
  }

  /** The continuation octet built from the low six bits of `c` extends `c >> 6` to `c`. */
  lemma ContinuationStep(c: bv32)
    ensures DecodeUTF8ContinuationOctet(c >> 6, ContinuationFor(c)) == ContinuationResult(true, c)
  {
  }

  /** Two continuation octets decoded in turn. */
  lemma DecodeContinuationsTwo(x: bv32, b1: bv8, b2: bv8, y: bv32, z: bv32)
    requires DecodeUTF8ContinuationOctet(x, b1) == ContinuationResult(true, y)
    requires DecodeUTF8ContinuationOctet(y, b2) == ContinuationResult(true, z)
    ensures DecodeContinuations(x, [b1, b2]) == Some(z)
  {
    assert [b1, b2][1..] == [b2] && [b2][1..] == [];
    assert DecodeContinuations(z, []) == Some(z);
    assert DecodeContinuations(y, [b2]) == Some(z);
  }

  /** Three continuation octets decoded in turn. */
  lemma DecodeContinuationsThree(x: bv32, b1: bv8, b2: bv8, b3: bv8, y: bv32, z: bv32)
    requires DecodeUTF8ContinuationOctet(x, b1) == ContinuationResult(true, y)
    requires DecodeContinuations(y, [b2, b3]) == Some(z)
    ensures DecodeContinuations(x, [b1, b2, b3]) == Some(z)
  {
    assert [b1, b2, b3][1..] == [b2, b3];
  }

  /** Each multi-octet form decodes to the code point it was built from. */
  lemma RoundTripTwo(c: bv32)
    requires 0x80 <= c <= 0x7FF
    ensures DecodeOctets(EncodeUTF8(c)) == Some(c)
  {
    var s := EncodeUTF8(c);
    assert DecodeUTF8LeadOctet(0, s[0]) == LeadResult(2, c >> 6);
    ContinuationStep(c);
    assert s[1..] == [ContinuationFor(c)] && [ContinuationFor(c)][1..] == [];
    assert DecodeContinuations(c, []) == Some(c);
  }

  lemma LeadThree(c: bv32)
    requires 0x800 <= c <= 0xFFFF
    ensures DecodeUTF8LeadOctet(0, EncodeUTF8(c)[0]) == LeadResult(3, (c >> 6) >> 6)
  {
  }

  /** The last two continuation octets of a form rebuild `c` from `c >> 12`. */
  lemma LastTwoContinuations(c: bv32)
    ensures DecodeContinuations((c >> 6) >> 6, [ContinuationFor(c >> 6), ContinuationFor(c)]) == Some(c)
  {
    ContinuationStep(c >> 6);
    ContinuationStep(c);
    DecodeContinuationsTwo((c >> 6) >> 6, ContinuationFor(c >> 6), ContinuationFor(c), c >> 6, c);
  }

  /** The last three continuation octets of a form rebuild `c` from `c >> 18`. */
  lemma LastThreeContinuations(c: bv32)
    ensures DecodeContinuations(((c >> 6) >> 6) >> 6,
                                [ContinuationFor((c >> 6) >> 6), ContinuationFor(c >> 6), ContinuationFor(c)])
            == Some(c)
  {
    ContinuationStep((c >> 6) >> 6);
    LastTwoContinuations(c);
    DecodeContinuationsThree(((c >> 6) >> 6) >> 6, ContinuationFor((c >> 6) >> 6), ContinuationFor(c >> 6),
                             ContinuationFor(c), (c >> 6) >> 6, c);
  }

  lemma RoundTripThree(c: bv32)
    requires 0x800 <= c <= 0xFFFF
    ensures DecodeOctets(EncodeUTF8(c)) == Some(c)
  {
    var s := EncodeUTF8(c);
    LeadThree(c);
    assert s[1..] == [ContinuationFor(c >> 6), ContinuationFor(c)];
    LastTwoContinuations(c);
  }

  lemma LeadFour(c: bv32)
    requires 0x10000 <= c <= kMaxCodePoint
    ensures DecodeUTF8LeadOctet(0, EncodeUTF8(c)[0]) == LeadResult(4, ((c >> 6) >> 6) >> 6)
    ensures EncodeUTF8(c)[1..] == [ContinuationFor((c >> 6) >> 6), ContinuationFor(c >> 6), ContinuationFor(c)]
  {
    assert c >> 12 == (c >> 6) >> 6;
  }

  lemma RoundTripFour(c: bv32)
    requires 0x10000 <= c <= kMaxCodePoint
    ensures DecodeOctets(EncodeUTF8(c)) == Some(c)
  {
    LeadFour(c);
    LastThreeContinuations(c);
  }

  /** Decoding the shortest form of a code point with the lead and continuation helpers gives
      the code point back; the lead octet announces the form's length, and the intended
      overlong test accepts it. */
  lemma EncodeDecodeRoundTrip(c: bv32)
    requires IsUCSCodePoint(c)
    ensures DecodeOctets(EncodeUTF8(c)) == Some(c)
    ensures SequenceLength(EncodeUTF8(c)[0]) == |EncodeUTF8(c)|
    ensures !IsUTF8Overlong(c, |EncodeUTF8(c)|)
  {
    if c <= 0x7F {
      assert EncodeUTF8(c)[1..] == [];
    } else if c <= 0x7FF {
      RoundTripTwo(c);
    } else if c <= 0xFFFF {
      RoundTripThree(c);
    } else {
      RoundTripFour(c);
    }
  }

  /** A well-formed sequence the intended overlong test accepts is the shortest form of the
      code point it decodes to: the converse of `EncodeDecodeRoundTrip`. */
  lemma DecodeEncodeTwo(b0: bv8, b1: bv8)
    requires SequenceLength(b0) == 2 && IsContinuationOctet(b1)
    requires !IsUTF8Overlong(Append6((b0 & 0x1F) as bv32, b1), 2)
    ensures IsUCSCodePoint(Append6((b0 & 0x1F) as bv32, b1))
    ensures EncodeUTF8(Append6((b0 & 0x1F) as bv32, b1)) == [b0, b1]
  {
  }

  lemma DecodeEncodeThree(b0: bv8, b1: bv8, b2: bv8)
    requires SequenceLength(b0) == 3 && IsContinuationOctet(b1) && IsContinuationOctet(b2)
    requires !IsUTF8Overlong(Append6(Append6((b0 & 0x0F) as bv32, b1), b2), 3)
    ensures IsUCSCodePoint(Append6(Append6((b0 & 0x0F) as bv32, b1), b2))
    ensures EncodeUTF8(Append6(Append6((b0 & 0x0F) as bv32, b1), b2)) == [b0, b1, b2]
  {
  }

  /** Six payload bits appended to a value below 2^16 can be read back: the value is the
      result shifted right by six, and the octet is the continuation octet of the result. */
  lemma AppendStep(x: bv32, b: bv8, n: bv32)
    requires IsContinuationOctet(b) && x <= n <= 0xFFFF
    ensures Append6(x, b) >> 6 == x
    ensures ContinuationFor(Append6(x, b)) == b
    ensures Append6(x, b) <= (n << 6) | 0x3F
  {
  }

  /** The four-octet form, with its shifts written one step at a time. */
  lemma EncodeFourShape(c: bv32)
    requires 0x10000 <= c <= kMaxCodePoint
    ensures EncodeUTF8(c) == [(0xF0 | (((c >> 6) >> 6) >> 6)) as bv8, ContinuationFor((c >> 6) >> 6),
                              ContinuationFor(c >> 6), ContinuationFor(c)]
  {
    assert c >> 12 == (c >> 6) >> 6 && c >> 18 == ((c >> 6) >> 6) >> 6;
  }

  /** A four-octet lead octet is rebuilt from its three payload bits. */
  lemma LeadFourBack(b0: bv8)
    requires SequenceLength(b0) == 4
    ensures (0xF0 | (b0 & 0x07) as bv32) as bv8 == b0
  {
  }

  lemma DecodeEncodeFour(b0: bv8, b1: bv8, b2: bv8, b3: bv8, c: bv32)
    requires SequenceLength(b0) == 4
    requires IsContinuationOctet(b1) && IsContinuationOctet(b2) && IsContinuationOctet(b3)
    requires c == Append6(Append6(Append6((b0 & 0x07) as bv32, b1), b2), b3)
    requires IsUCSCodePoint(c) && !IsUTF8Overlong(c, 4)
    ensures EncodeUTF8(c) == [b0, b1, b2, b3]
  {
    var x0 := (b0 & 0x07) as bv32;
    var x1 := Append6(x0, b1);
    var x2 := Append6(x1, b2);
    AppendStep(x0, b1, 7);
    AppendStep(x1, b2, (7 << 6) | 0x3F);
    AppendStep(x2, b3, (((7 << 6) | 0x3F) << 6) | 0x3F);
    LeadFourBack(b0);
    EncodeFourShape(c);
  }

  /** A sequence that decodes has a lead octet announcing its length, then continuation
      octets only. */
  lemma DecodedShape(s: seq<bv8>, c: bv32)
    requires DecodeOctets(s) == Some(c)
    ensures |s| >= 1 && SequenceLength(s[0]) == |s|
    ensures forall k :: 1 <= k < |s| ==> IsContinuationOctet(s[k])
  {
    assert forall k :: 1 <= k < |s| ==> s[k] == s[1..][k - 1];
  }

  /** Every sequence of at most four octets that decodes to a code point the intended overlong
      test accepts is that code point's shortest form: decoding is injective on such input. */
  lemma DecodeEncodeRoundTrip(s: seq<bv8>, c: bv32)
    requires |s| <= 4 && DecodeOctets(s) == Some(c)
    requires IsUCSCodePoint(c) && !IsUTF8Overlong(c, |s|)
    ensures EncodeUTF8(c) == s
  {
    DecodedShape(s, c);
    if |s| == 1 {
      assert s[1..] == [];
    } else if |s| == 2 {
      DecodeTwoBack(s, c);
    } else if |s| == 3 {
      DecodeThreeBack(s, c);
    } else {
      DecodeFourBack(s, c);
    }
  }

  lemma DecodeTwoBack(s: seq<bv8>, c: bv32)
    requires |s| == 2 && DecodeOctets(s) == Some(c) && IsUCSCodePoint(c) && !IsUTF8Overlong(c, 2)
    requires SequenceLength(s[0]) == 2 && IsContinuationOctet(s[1])
    ensures EncodeUTF8(c) == s
  {
    assert s == [s[0], s[1]];
    DecodeTwo(s[0], s[1]);
    DecodeEncodeTwo(s[0], s[1]);
  }

  lemma DecodeThreeBack(s: seq<bv8>, c: bv32)
    requires |s| == 3 && DecodeOctets(s) == Some(c) && IsUCSCodePoint(c) && !IsUTF8Overlong(c, 3)
    requires SequenceLength(s[0]) == 3 && IsContinuationOctet(s[1]) && IsContinuationOctet(s[2])
    ensures EncodeUTF8(c) == s
  {
    assert s == [s[0], s[1], s[2]];
    DecodeThree(s[0], s[1], s[2]);
    DecodeEncodeThree(s[0], s[1], s[2]);
  }

  lemma DecodedValueFour(s: seq<bv8>, c: bv32)
    requires |s| == 4 && DecodeOctets(s) == Some(c)
    requires SequenceLength(s[0]) == 4
    requires IsContinuationOctet(s[1]) && IsContinuationOctet(s[2]) && IsContinuationOctet(s[3])
    ensures c == Append6(Append6(Append6((s[0] & 0x07) as bv32, s[1]), s[2]), s[3])
  {
    assert s == [s[0], s[1], s[2], s[3]];
    DecodeFour(s[0], s[1], s[2], s[3]);
  }

  lemma DecodeFourBack(s: seq<bv8>, c: bv32)
    requires |s| == 4 && DecodeOctets(s) == Some(c) && IsUCSCodePoint(c) && !IsUTF8Overlong(c, 4)
    requires SequenceLength(s[0]) == 4
    requires IsContinuationOctet(s[1]) && IsContinuationOctet(s[2]) && IsContinuationOctet(s[3])
    ensures EncodeUTF8(c) == s
  {
    DecodedValueFour(s, c);
    DecodeEncodeFour(s[0], s[1], s[2], s[3], c);
    assert s == [s[0], s[1], s[2], s[3]];
  }
}
