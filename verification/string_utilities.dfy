/**
 The string helpers of stringutilities.cpp: widening ASCII to UCS-2 and
 narrowing back, decoding one character of UTF-8 with surrogate-pair
 recombination, converting UTF-8 to UCS-2, the case-insensitive comparison
 `pov_stricmp`, and `UCS2_strlen`.

 A C string is a byte buffer that holds a NUL; an iterator into a UTF-8
 string is an index into the byte sequence. `UCS::DecodeUTF8Sequence` is not
 part of this model: it is a parameter of type `SequenceDecoder`, whose
 constraint is the contract assumed of it.
 */
module StringUtilities {
  import opened Ucs

  // ---------------------------------------------------------------- C strings

  /** The bytes of a C string before its terminating NUL (all of them if there is none). */
  function CString(b: seq<bv8>): (r: seq<bv8>)
    ensures |r| <= |b| && r == b[..|r|]
    ensures 0 !in r
    ensures |r| < |b| ==> b[|r|] == 0
  {
    if |b| == 0 || b[0] == 0 then []
    else [b[0]] + CString(b[1..])
  }

  /** A buffer that holds a NUL has its C string end at the first one. */
  lemma {:induction false} CStringEndsAtNul(b: seq<bv8>)
    requires 0 in b
    ensures |CString(b)| < |b|
  {
    if b[0] != 0 {
      assert 0 in b[1..];
      CStringEndsAtNul(b[1..]);
    }
  }

  // ---------------------------------------------------------------- ASCII and UCS-2

  /** Each byte widened, as an unsigned char, to a UCS-2 code unit. */
  function Widen(b: seq<bv8>): (r: seq<bv16>)
    ensures |r| == |b|
    ensures forall k :: 0 <= k < |r| ==> r[k] < 256 && r[k] as bv8 == b[k]
  {
    seq(|b|, k requires 0 <= k < |b| => WidenByte(b[k]))
  }

  function WidenByte(x: bv8): bv16 { x as bv16 }

  /** `ASCIItoUCS2String`: a null pointer gives the empty string, otherwise one code unit per
      byte before the terminating NUL. */
  method ASCIItoUCS2String(s: Option<seq<bv8>>) returns (r: seq<bv16>)
    requires s.Some? ==> 0 in s.value
    ensures s.None? ==> r == []
    ensures s.Some? ==> r == Widen(CString(s.value))
  {
    r := [];
    if s.Some? {
      var b := s.value;
      CStringEndsAtNul(b);
      var i := 0;
      while b[i] != 0
        invariant i <= |CString(b)|
        invariant r == Widen(CString(b)[..i])
        decreases |CString(b)| - i
      {
        r := r + [b[i] as bv16];
        i := i + 1;
      }
    }
  }

  /** `UCS2toASCIIString`: one byte per code unit; units above the byte range become a space. */
  function UCS2toASCIIString(s: seq<bv16>): (r: seq<bv8>)
    ensures |r| == |s|
    ensures forall k :: 0 <= k < |s| ==> (s[k] < 256 <==> r[k] as bv16 == s[k])
    ensures forall k :: 0 <= k < |s| && s[k] >= 256 ==> r[k] == 0x20
  {
    seq(|s|, k requires 0 <= k < |s| => NarrowUnit(s[k]))
  }

  /** One code unit narrowed to a byte. */
  function NarrowUnit(u: bv16): bv8 {
    if u >= 256 then 0x20 else u as bv8
  }

  /** Narrowing a widened C string gives back its bytes. */
  lemma NarrowWidened(b: seq<bv8>)
    ensures UCS2toASCIIString(Widen(b)) == b
  {
  }

  /** Widening a narrowed string gives it back exactly when every unit fits in a byte. */
  lemma WidenNarrowed(s: seq<bv16>)
    ensures Widen(UCS2toASCIIString(s)) == s <==> forall k :: 0 <= k < |s| ==> s[k] < 256
  {
    if Widen(UCS2toASCIIString(s)) == s {
      forall k | 0 <= k < |s|
        ensures s[k] < 256
      {
        assert Widen(UCS2toASCIIString(s))[k] == s[k];
      }
    }
  }

  // ---------------------------------------------------------------- decoding one character

  /** What `UCS::DecodeUTF8Sequence` reports: whether it decoded, the code point, and how many
      octets it moved the iterator past. */
  datatype SequenceStep = SequenceStep(ok: bool, c: bv32, consumed: nat)

  /** A decoder for one UTF-8 sequence at the front of its input. It never moves past the end,
      and it moves by at least one octet while input remains, which `UTF8toUCS2String` relies
      on to terminate. */
  type SequenceDecoder = f: seq<bv8> -> SequenceStep
    | forall s: seq<bv8> :: f(s).consumed <= |s| && (|s| > 0 ==> f(s).consumed > 0)
    witness (s: seq<bv8>) => SequenceStep(false, 0, if |s| > 0 then 1 else 0)

  /** `DecodeUTF8CharacterRaw`: the decoder applied at `i`, a failure becoming U+FFFD; the
      second component is the new position. */
  function DecodeUTF8CharacterRaw(decode: SequenceDecoder, s: seq<bv8>, i: nat): (r: (bv32, nat))
    requires i <= |s|
    ensures i <= r.1 <= |s| && (i < |s| ==> i < r.1)
    ensures !decode(s[i..]).ok ==> r.0 == kReplacementCharacter
    ensures decode(s[i..]).ok ==> r.0 == decode(s[i..]).c
    ensures r.1 == i + decode(s[i..]).consumed
  {
    var step := decode(s[i..]);
    (if step.ok then step.c else kReplacementCharacter, i + step.consumed)
  }

  /** The final filter of `DecodeUTF8Character`: a surrogate or a value beyond the code-point
      range becomes U+FFFD. */
  function ScalarOrReplacement(c: bv32): (r: bv32)
    ensures IsUCSScalarValue(r)
    ensures IsUCSScalarValue(c) <==> r == c
  {
    if IsUCSSurrogate(c) || c > kMaxCodePoint then kReplacementCharacter else c
  }

  /** `DecodeUTF8Character`: one character decoded at `i`; a high surrogate followed by a low
      one is recombined, a high surrogate followed by anything else rewinds to just after it. */
  function DecodeUTF8Character(decode: SequenceDecoder, s: seq<bv8>, i: nat): (r: (bv32, nat))
    requires i <= |s|
    ensures i <= r.1 <= |s| && (i < |s| ==> i < r.1)
    ensures IsUCSScalarValue(r.0)
  {
    var (c, j) := DecodeUTF8CharacterRaw(decode, s, i);
    if IsUCSHighSurrogate(c) then
      var (c2, k) := DecodeUTF8CharacterRaw(decode, s, j);
      if IsUCSLowSurrogate(c2) then (ScalarOrReplacement(CombineSurrogates(c, c2)), k)
      else (ScalarOrReplacement(c), j)
    else (ScalarOrReplacement(c), j)
  }

  /** A high surrogate followed by a low surrogate is one supplementary character, and both
      sequences are consumed. */
  lemma SurrogatePairCombines(decode: SequenceDecoder, s: seq<bv8>, i: nat)
    requires i <= |s|
    requires IsUCSHighSurrogate(DecodeUTF8CharacterRaw(decode, s, i).0)
    requires IsUCSLowSurrogate(DecodeUTF8CharacterRaw(decode, s, DecodeUTF8CharacterRaw(decode, s, i).1).0)
    ensures var (hi, j) := DecodeUTF8CharacterRaw(decode, s, i);
            var (lo, k) := DecodeUTF8CharacterRaw(decode, s, j);
            DecodeUTF8Character(decode, s, i) == (CombineSurrogates(hi, lo), k)
            && 0x10000 <= CombineSurrogates(hi, lo) <= kMaxCodePoint
  {
  }

  /** A high surrogate not followed by a low one is replaced, and decoding resumes right after
      it; a lone low surrogate is replaced as well. */
  lemma LoneSurrogateReplaced(decode: SequenceDecoder, s: seq<bv8>, i: nat)
    requires i <= |s|
    requires IsUCSSurrogate(DecodeUTF8CharacterRaw(decode, s, i).0)
    requires !IsUCSLowSurrogate(DecodeUTF8CharacterRaw(decode, s, DecodeUTF8CharacterRaw(decode, s, i).1).0)
             || IsUCSLowSurrogate(DecodeUTF8CharacterRaw(decode, s, i).0)
    ensures DecodeUTF8Character(decode, s, i)
            == (kReplacementCharacter, DecodeUTF8CharacterRaw(decode, s, i).1)
  {
  }

  /** Any character that is not a surrogate passes through unchanged when it is a scalar value
      and is replaced otherwise, consuming only its own sequence. */
  lemma NonSurrogatePassesThrough(decode: SequenceDecoder, s: seq<bv8>, i: nat)
    requires i <= |s|
    requires !IsUCSSurrogate(DecodeUTF8CharacterRaw(decode, s, i).0)
    ensures DecodeUTF8Character(decode, s, i).1 == DecodeUTF8CharacterRaw(decode, s, i).1
    ensures var c := DecodeUTF8CharacterRaw(decode, s, i).0;
            DecodeUTF8Character(decode, s, i).0 == if c <= kMaxCodePoint then c else kReplacementCharacter
  {
  }

  // ---------------------------------------------------------------- UTF-8 to UCS-2

  /** The UCS-2 unit stored for a decoded character: U+0000 and characters outside the Basic
      Multilingual Plane become U+FFFD. */
  function ToUCS2Unit(c: bv32): (u: bv16)
    ensures u != 0
    ensures (c != 0 && c <= 0xFFFF) <==> u as bv32 == c
  {
    if c > 0xFFFF || c == 0 then 0xFFFD else c as bv16
  }

  /** The units `UTF8toUCS2String` produces from position `i` on. */
  function UTF8toUCS2From(decode: SequenceDecoder, s: seq<bv8>, i: nat): (r: seq<bv16>)
    requires i <= |s|
    ensures |r| <= |s| - i
    ensures forall k :: 0 <= k < |r| ==> r[k] != 0
    decreases |s| - i
  {
    if i == |s| then []
    else
      var (c, j) := DecodeUTF8Character(decode, s, i);
      [ToUCS2Unit(c)] + UTF8toUCS2From(decode, s, j)
  }

  /** `UTF8toUCS2String`: characters decoded one after another until the end of the input. */
  method UTF8toUCS2String(decode: SequenceDecoder, s: seq<bv8>) returns (r: seq<bv16>)
    ensures r == UTF8toUCS2From(decode, s, 0)
    ensures |r| <= |s|
    ensures forall k :: 0 <= k < |r| ==> r[k] != 0
  {
    r := [];
    var i := 0;
    while i < |s|
      invariant i <= |s|
      invariant r + UTF8toUCS2From(decode, s, i) == UTF8toUCS2From(decode, s, 0)
      decreases |s| - i
    {
      var (c, j) := DecodeUTF8Character(decode, s, i);
      r := r + [ToUCS2Unit(c)];
      i := j;
    }
  }

  // ---------------------------------------------------------------- a decoder for the lemmas

  /** A decoder built from the lead and continuation helpers: the lead octet's length, taken
      whole, must decode; otherwise one octet is skipped. */
  function LeadLengthStep(s: seq<bv8>): (r: SequenceStep)
    ensures r.consumed <= |s| && (|s| > 0 ==> r.consumed > 0)
    ensures r.ok ==> DecodeOctets(s[..r.consumed]) == Some(r.c)
  {
    if |s| == 0 then SequenceStep(false, 0, 0)
    else
      var n := SequenceLength(s[0]);
      if n == 0 || n > |s| then SequenceStep(false, 0, 1)
      else match DecodeOctets(s[..n])
        case Some(c) => SequenceStep(true, c, n)
        case None => SequenceStep(false, 0, 1)
  }

  const LeadLengthDecoder: SequenceDecoder := LeadLengthStep

  /** The shortest form of a code point, followed by anything, decodes to that code point. */
  lemma LeadLengthDecodesShortestForm(c: bv32, rest: seq<bv8>)
    requires IsUCSCodePoint(c)
    ensures LeadLengthDecoder(EncodeUTF8(c) + rest) == SequenceStep(true, c, |EncodeUTF8(c)|)
  {
    var e := EncodeUTF8(c);
    EncodeDecodeRoundTrip(c);
    assert (e + rest)[0] == e[0];
    assert (e + rest)[..|e|] == e;
  }

  /** A Basic Multilingual Plane character other than U+0000 and the surrogates, encoded in its
      shortest form, converts to the one UCS-2 unit of the same value. */
  lemma BasicPlaneCharacterConverts(c: bv32)
    requires 0 < c <= 0xFFFF && !IsUCSSurrogate(c)
    ensures UTF8toUCS2From(LeadLengthDecoder, EncodeUTF8(c), 0) == [c as bv16]
  {
    var e := EncodeUTF8(c);
    LeadLengthDecodesShortestForm(c, []);
    assert e + [] == e && e[0..] == e;
    NonSurrogatePassesThrough(LeadLengthDecoder, e, 0);
  }

  /** A supplementary character has no UCS-2 unit and converts to U+FFFD. */
  lemma SupplementaryCharacterReplaced(c: bv32)
    requires 0x10000 <= c <= kMaxCodePoint
    ensures UTF8toUCS2From(LeadLengthDecoder, EncodeUTF8(c), 0) == [0xFFFD]
  {
    var e := EncodeUTF8(c);
    LeadLengthDecodesShortestForm(c, []);
    assert e + [] == e && e[0..] == e;
    NonSurrogatePassesThrough(LeadLengthDecoder, e, 0);
  }

  /** A surrogate pair, each half written as a three-octet sequence, decodes to the
      supplementary character the pair stands for. */
  lemma EncodedSurrogatePairDecodes(hi: bv32, lo: bv32)
    requires IsUCSHighSurrogate(hi) && IsUCSLowSurrogate(lo)
    ensures DecodeUTF8Character(LeadLengthDecoder, EncodeUTF8(hi) + EncodeUTF8(lo), 0)
            == (CombineSurrogates(hi, lo), 6)
  {
    var a := EncodeUTF8(hi);
    var b := EncodeUTF8(lo);
    var s := a + b;
    LeadLengthDecodesShortestForm(hi, b);
    LeadLengthDecodesShortestForm(lo, []);
    assert s[0..] == s;
    assert s[3..] == b && b + [] == b;
    SurrogatePairCombines(LeadLengthDecoder, s, 0);
  }

  // ---------------------------------------------------------------- pov_stricmp

  /** A `char` read as the signed integer it holds. */
  function SignedChar(b: bv8): (r: int)
    ensures -128 <= r < 128
    ensures r >= 0 <==> b < 0x80
  {
    if b < 0x80 then b as int else b as int - 256
  }

  /** `toupper` in the C locale: only 'a' to 'z' change. */
  function ToUpper(x: int): (r: int)
    ensures 'a' as int <= x <= 'z' as int ==> r == x - 32 && 'A' as int <= r <= 'Z' as int
    ensures !('a' as int <= x <= 'z' as int) ==> r == x
  {
    if 'a' as int <= x <= 'z' as int then x - 32 else x
  }

  /** The upper-cased signed characters a C string compares by. */
  function Folded(b: seq<bv8>): (r: seq<int>)
    ensures |r| == |b|
    ensures forall k :: 0 <= k < |b| ==> r[k] == ToUpper(SignedChar(b[k]))
  {
    seq(|b|, k requires 0 <= k < |b| => ToUpper(SignedChar(b[k])))
  }

  /** Lexicographic comparison of two sequences, -1, 0 or 1; a proper prefix comes first. */
  function LexCompare(x: seq<int>, y: seq<int>): (r: int)
    ensures r == -1 || r == 0 || r == 1
    decreases |x|
  {
    if |x| == 0 && |y| == 0 then 0
    else if |x| == 0 then -1
    else if |y| == 0 then 1
    else if x[0] < y[0] then -1
    else if x[0] > y[0] then 1
    else LexCompare(x[1..], y[1..])
  }

  /** The comparison is zero exactly on equal sequences. */
  lemma {:induction false} LexCompareZeroIffEqual(x: seq<int>, y: seq<int>)
    ensures LexCompare(x, y) == 0 <==> x == y
    decreases |x|
  {
    if |x| > 0 && |y| > 0 && x[0] == y[0] {
      LexCompareZeroIffEqual(x[1..], y[1..]);
      if x[1..] == y[1..] {
        assert x == [x[0]] + x[1..] && y == [y[0]] + y[1..];
      }
    }
  }

  /** Swapping the operands negates the comparison. */
  lemma {:induction false} LexCompareAntisymmetric(x: seq<int>, y: seq<int>)
    ensures LexCompare(y, x) == -LexCompare(x, y)
    decreases |x|
  {
    if |x| > 0 && |y| > 0 && x[0] == y[0] {
      LexCompareAntisymmetric(x[1..], y[1..]);
    }
  }

  /** A proper prefix compares as smaller. */
  lemma {:induction false} LexComparePrefix(x: seq<int>, y: seq<int>)
    requires |x| < |y| && x == y[..|x|]
    ensures LexCompare(x, y) == -1
    decreases |x|
  {
    if |x| > 0 {
      assert x[0] == y[0];
      assert x[1..] == y[1..][..|x| - 1];
      LexComparePrefix(x[1..], y[1..]);
    }
  }

  /** `pov_stricmp`: the two C strings compared character by character after `toupper`, as
      signed chars, stopping at the first difference or the first NUL. */
  method Stricmp(s1: seq<bv8>, s2: seq<bv8>) returns (r: int)
    requires 0 in s1 && 0 in s2
    ensures r == LexCompare(Folded(CString(s1)), Folded(CString(s2)))
  {
    CStringEndsAtNul(s1);
    CStringEndsAtNul(s2);
    ghost var x := Folded(CString(s1));
    ghost var y := Folded(CString(s2));
    var i := 0;
    while s1[i] != 0 && s2[i] != 0
      invariant i <= |CString(s1)| && i <= |CString(s2)|
      invariant LexCompare(x[i..], y[i..]) == LexCompare(x, y)
      decreases |CString(s1)| - i
    {
      var c1 := ToUpper(SignedChar(s1[i]));
      var c2 := ToUpper(SignedChar(s2[i]));
      assert x[i] == c1 && y[i] == c2;
      assert x[i..][1..] == x[i + 1..] && y[i..][1..] == y[i + 1..];
      if c1 < c2 {
        return -1;
      }
      if c1 > c2 {
        return 1;
      }
      i := i + 1;
    }
    assert s1[i] == 0 ==> x[i..] == [];
    assert s2[i] == 0 ==> y[i..] == [];
    if s1[i] == 0 {
      if s2[i] == 0 {
        r := 0;
      } else {
        r := -1;
      }
    } else {
      r := 1;
    }
  }

  /** `pov_stricmp` is zero exactly when the strings agree after upper-casing, swapping the
      strings negates it, and a string compares below any proper extension of it. */
  lemma StricmpProperties(a: seq<bv8>, b: seq<bv8>)
    ensures LexCompare(Folded(a), Folded(b)) == 0 <==> Folded(a) == Folded(b)
    ensures LexCompare(Folded(b), Folded(a)) == -LexCompare(Folded(a), Folded(b))
    ensures |a| < |b| && a == b[..|a|] ==> LexCompare(Folded(a), Folded(b)) == -1
  {
    LexCompareZeroIffEqual(Folded(a), Folded(b));
    LexCompareAntisymmetric(Folded(a), Folded(b));
    if |a| < |b| && a == b[..|a|] {
      assert Folded(a) == Folded(b)[..|a|];
      LexComparePrefix(Folded(a), Folded(b));
    }
  }

  /** Strings differing only in the case of ASCII letters compare equal. */
  lemma CaseIsIgnored()
    ensures LexCompare(Folded([0x50, 0x6F, 0x76]), Folded([0x70, 0x4F, 0x56])) == 0
  {
    assert Folded([0x50, 0x6F, 0x76]) == Folded([0x70, 0x4F, 0x56]);
    LexCompareZeroIffEqual(Folded([0x50, 0x6F, 0x76]), Folded([0x70, 0x4F, 0x56]));
  }

  // ---------------------------------------------------------------- UCS2_strlen

  /** `UCS2_strlen`: the number of units before the first NUL. */
  method UCS2Strlen(str: seq<bv16>) returns (n: nat)
    requires 0 in str
    ensures n < |str| && str[n] == 0
    ensures forall k :: 0 <= k < n ==> str[k] != 0
  {
    n := 0;
    while str[n] != 0
      invariant n < |str|
      invariant forall k :: 0 <= k < n ==> str[k] != 0
      invariant 0 in str[n..]
      decreases |str| - n
    {
      assert str[n..] == [str[n]] + str[n + 1..];
      n := n + 1;
    }
  }
}
