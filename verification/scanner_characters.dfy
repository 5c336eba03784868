/**
 The character classes of scanner.cpp and the per-octet decoding that string
 literals go through: the ASCII encoding, which replaces every non-ASCII octet
 by U+FFFD, and the Windows-1252 and Latin-1 tables of the 8-bit encodings.
 Decoded characters are written to the lexeme as UTF-8.
 */
module ScannerCharacters {
  import opened Ucs
  import opened ParserTypes

  // ---------------------------------------------------------------- character classes

  /** `IsEndOfLine`: LF or CR. */
  predicate IsEndOfLine(c: Octet) {
    c == 0x0A || c == 0x0D
  }

  /** `IsWhitespace`: tab, LF, CR, the DOS end-of-file character 0x1A, and space. */
  predicate IsWhitespace(c: Octet) {
    c == 0x09 || c == 0x0A || c == 0x0D || c == 0x1A || c == 0x20
  }

  /** `IsPrintable`: the printable ASCII range. */
  predicate IsPrintable(c: Octet) {
    0x20 <= c <= 0x7E
  }

  predicate IsDecimalDigit(c: Octet) {
    '0' as Octet <= c <= '9' as Octet
  }

  predicate IsExponentSeparator(c: Octet) {
    c == 'e' as Octet || c == 'E' as Octet
  }

  predicate IsSign(c: Octet) {
    c == '-' as Octet || c == '+' as Octet
  }

  /** `IsIdentifierChar1`: a letter or an underscore. */
  predicate IsIdentifierChar1(c: Octet) {
    ('a' as Octet <= c <= 'z' as Octet) || ('A' as Octet <= c <= 'Z' as Octet) || c == '_' as Octet
  }

  /** `IsIdentifierChar2`: a letter, an underscore or a digit. */
  predicate IsIdentifierChar2(c: Octet) {
    IsIdentifierChar1(c) || IsDecimalDigit(c)
  }

  /** `SourceEncoding::IsASCII`: the top bit is clear. */
  predicate IsASCII(c: Octet) {
    c < 0x80
  }

  /** How the classes relate: line ends are whitespace, identifier and digit characters are
      printable and never whitespace, and the non-printable whitespace is exactly tab, LF, CR
      and 0x1A. */
  lemma CharacterClasses(c: Octet)
    ensures IsEndOfLine(c) ==> IsWhitespace(c)
    ensures IsIdentifierChar2(c) ==> IsPrintable(c) && !IsWhitespace(c)
    ensures IsIdentifierChar1(c) ==> !IsDecimalDigit(c)
    ensures IsWhitespace(c) && !IsPrintable(c) <==> c == 0x09 || c == 0x0A || c == 0x0D || c == 0x1A
    ensures IsPrintable(c) ==> IsASCII(c)
  {
  }

  // ---------------------------------------------------------------- string encodings

  /** The `StringEncoding` settings the scanner honours. */
  datatype StringEncoding = ASCIIEncoding | UTF8Encoding | SystemEncoding

  /** The octets the Windows-1252 table leaves unassigned. */
  predicate Unassigned1252(b: bv8) {
    b == 0x81 || b == 0x8D || b == 0x8F || b == 0x90 || b == 0x9D
  }

  /** `kaWindows1252DecodingTable`, as the code point of each entry: ASCII and 0xA0-0xFF stand
      for themselves, and the five octets the code page leaves unassigned hold U+FFFD. */
  function Windows1252(b: bv8): bv32 {
    if b < 0x80 || b >= 0xA0 then b as bv32
    else match b
      case 0x80 => 0x20AC case 0x82 => 0x201A case 0x83 => 0x0192 case 0x84 => 0x201E
      case 0x85 => 0x2026 case 0x86 => 0x2020 case 0x87 => 0x2021 case 0x88 => 0x02C6
      case 0x89 => 0x2030 case 0x8A => 0x0160 case 0x8B => 0x2039 case 0x8C => 0x0152
      case 0x8E => 0x017D case 0x91 => 0x2018 case 0x92 => 0x2019 case 0x93 => 0x201C
      case 0x94 => 0x201D case 0x95 => 0x2022 case 0x96 => 0x2013 case 0x97 => 0x2014
      case 0x98 => 0x02DC case 0x99 => 0x2122 case 0x9A => 0x0161 case 0x9B => 0x203A
      case 0x9C => 0x0153 case 0x9E => 0x017E case 0x9F => 0x0178
      case _ => kReplacementCharacter
  }

  /** `kaLatin1DecodingTable`: every octet stands for the code point of the same value. */
  function Latin1(b: bv8): bv32 {
    b as bv32
  }

  /** The octet of 0x80-0x9F the Windows-1252 table maps to a code point, if any. */
  function SpecificOctet(c: bv32): Option<bv8> {
    match c
      case 0x20AC => Some(0x80) case 0x201A => Some(0x82) case 0x0192 => Some(0x83)
      case 0x201E => Some(0x84) case 0x2026 => Some(0x85) case 0x2020 => Some(0x86)
      case 0x2021 => Some(0x87) case 0x02C6 => Some(0x88) case 0x2030 => Some(0x89)
      case 0x0160 => Some(0x8A) case 0x2039 => Some(0x8B) case 0x0152 => Some(0x8C)
      case 0x017D => Some(0x8E) case 0x2018 => Some(0x91) case 0x2019 => Some(0x92)
      case 0x201C => Some(0x93) case 0x201D => Some(0x94) case 0x2022 => Some(0x95)
      case 0x2013 => Some(0x96) case 0x2014 => Some(0x97) case 0x02DC => Some(0x98)
      case 0x2122 => Some(0x99) case 0x0161 => Some(0x9A) case 0x203A => Some(0x9B)
      case 0x0153 => Some(0x9C) case 0x017E => Some(0x9E) case 0x0178 => Some(0x9F)
      case _ => None
  }

  /** The octet the Windows-1252 table maps to a code point, if any. */
  function Encode1252(c: bv32): Option<bv8> {
    if c < 0x80 || (0xA0 <= c <= 0xFF) then Some(c as bv8) else SpecificOctet(c)
  }

  /** The entries for 0x80-0x9F, one by one: U+FFFD exactly for the unassigned octets, and a
      scalar value beyond Latin-1 that `SpecificOctet` maps back for the others. */
  lemma SpecificEntries(b: bv8)
    requires 0x80 <= b < 0xA0
    ensures Unassigned1252(b) <==> Windows1252(b) == kReplacementCharacter
    ensures !Unassigned1252(b) ==> 0x100 <= Windows1252(b) <= 0x2122
    ensures !Unassigned1252(b) ==> SpecificOctet(Windows1252(b)) == Some(b)
  {
    // one case per octet, so that each entry is evaluated on its own
    if b == 0x80 {} else if b == 0x81 {} else if b == 0x82 {} else if b == 0x83 {}
    else if b == 0x84 {} else if b == 0x85 {} else if b == 0x86 {} else if b == 0x87 {}
    else if b == 0x88 {} else if b == 0x89 {} else if b == 0x8A {} else if b == 0x8B {}
    else if b == 0x8C {} else if b == 0x8D {} else if b == 0x8E {} else if b == 0x8F {}
    else if b == 0x90 {} else if b == 0x91 {} else if b == 0x92 {} else if b == 0x93 {}
    else if b == 0x94 {} else if b == 0x95 {} else if b == 0x96 {} else if b == 0x97 {}
    else if b == 0x98 {} else if b == 0x99 {} else if b == 0x9A {} else if b == 0x9B {}
    else if b == 0x9C {} else if b == 0x9D {} else if b == 0x9E {}
    else { assert b == 0x9F; }
  }

  /** The Windows-1252 table: ASCII and the Latin-1 Supplement map to themselves as in the
      Latin-1 table, the five unassigned octets to U+FFFD, and every other octet of 0x80-0x9F
      to a scalar value beyond Latin-1 from which `Encode1252` recovers the octet. */
  lemma Windows1252Table(b: bv8)
    ensures b < 0x80 || b >= 0xA0 ==> Windows1252(b) == b as bv32 == Latin1(b)
    ensures Unassigned1252(b) <==> Windows1252(b) == kReplacementCharacter
    ensures IsUCSScalarValue(Windows1252(b)) && Windows1252(b) <= 0xFFFF
    ensures 0x80 <= b < 0xA0 && !Unassigned1252(b) ==> Windows1252(b) >= 0x100
    ensures !Unassigned1252(b) ==> Encode1252(Windows1252(b)) == Some(b)
  {
    if 0x80 <= b < 0xA0 {
      SpecificEntries(b);
    }
  }

  /** The Windows-1252 table is one-to-one on the octets it assigns. */
  lemma Windows1252Injective(a: bv8, b: bv8)
    requires !Unassigned1252(a) && !Unassigned1252(b)
    requires Windows1252(a) == Windows1252(b)
    ensures a == b
  {
    Windows1252Table(a);
    Windows1252Table(b);
  }

  /** The code point a non-ASCII octet of a string literal stands for: U+FFFD under the ASCII
      encoding, the Windows-1252 entry under the system encoding (`DecodeCharacter`). */
  function DecodedCharacter(e: StringEncoding, b: bv8): (c: bv32)
    requires e != UTF8Encoding
    ensures IsUCSScalarValue(c) && c <= 0xFFFF
  {
    Windows1252Table(b);
    if e == ASCIIEncoding then kReplacementCharacter else Windows1252(b)
  }

  /** An octet as the decoding tables index it. */
  function ToBits(b: Octet): bv8 {
    b as int as bv8
  }

  /** Octets produced by the UTF-8 encoder, as stream octets. */
  function ToOctets(s: seq<bv8>): (r: seq<Octet>)
    ensures |r| == |s|
    ensures forall i :: 0 <= i < |s| ==> r[i] as int == s[i] as int
  {
    if |s| == 0 then [] else [s[0] as int as Octet] + ToOctets(s[1..])
  }

  /** The octets one input octet of a string literal becomes: UTF-8 input and ASCII octets are
      copied, anything else is decoded and written as UTF-8. */
  function TranscodeOctet(e: StringEncoding, b: Octet): (r: seq<Octet>)
    ensures 1 <= |r| <= 3
  {
    if e == UTF8Encoding || IsASCII(b) then [b]
    else
      Windows1252Table(ToBits(b));
      ToOctets(EncodeUTF8(DecodedCharacter(e, ToBits(b))))
  }

  /** Whatever the encoding, an ASCII octet is copied, and under the 8-bit encodings every
      other octet becomes the well-formed UTF-8 of a scalar value: U+FFFD or the 1252 entry. */
  lemma TranscodedIsUTF8(e: StringEncoding, b: Octet)
    ensures IsASCII(b) ==> TranscodeOctet(e, b) == [b]
    ensures e == UTF8Encoding ==> TranscodeOctet(e, b) == [b]
    ensures e != UTF8Encoding && !IsASCII(b) ==>
              var c := DecodedCharacter(e, ToBits(b));
              IsUCSScalarValue(c) && TranscodeOctet(e, b) == ToOctets(EncodeUTF8(c))
              && DecodeOctets(EncodeUTF8(c)) == Some(c)
    ensures e == ASCIIEncoding && !IsASCII(b) ==> TranscodeOctet(e, b) == [0xEF, 0xBF, 0xBD]
  {
    if e != UTF8Encoding && !IsASCII(b) {
      EncodeDecodeRoundTrip(DecodedCharacter(e, ToBits(b)));
      if e == ASCIIEncoding {
        var u := EncodeUTF8(kReplacementCharacter);
        assert u == [0xEF, 0xBF, 0xBD];
        assert u[0] as int == 0xEF && u[1] as int == 0xBF && u[2] as int == 0xBD;
      }
    }
  }

  /** A run of octets transcoded one after another. */
  function Transcode(e: StringEncoding, s: seq<Octet>): (r: seq<Octet>)
    ensures e == UTF8Encoding ==> r == s
    ensures |s| <= |r|
  {
    if |s| == 0 then [] else TranscodeOctet(e, s[0]) + Transcode(e, s[1..])
  }

  /** Transcoding distributes over concatenation. */
  lemma {:induction false} TranscodeAppend(e: StringEncoding, s: seq<Octet>, t: seq<Octet>)
    ensures Transcode(e, s + t) == Transcode(e, s) + Transcode(e, t)
  {
    if |s| == 0 {
      assert s + t == t;
    } else {
      assert (s + t)[0] == s[0];
      assert (s + t)[1..] == s[1..] + t;
      TranscodeAppend(e, s[1..], t);
    }
  }
}
