# POV-Ray colour, text and scanner core in Dafny

This project models four self-contained parts of POV-Ray and proves properties of them.

- **Colour algebra** (`source/base/colour.h`). The model covers:
  - three-channel linear colours with channel-wise arithmetic, reductions, clipping, greyscale and weights;
  - the compound colours with filter and transmit (RGBFT, RGBT, TransColour), with their opacity rules and conversions;
  - the compact shared-exponent colour (`GenericCompactColour`). This is Greg Ward's RGBE format, with bias 128 for Radiance HDR files and bias 250 for photons.

  Channels are Dafny `real`s, so every identity is exact. Mantissa and exponent slots are integers in 0..255.
- **UCS and UTF-8 helpers** (`source/base/stringutilities.cpp`). The model covers:
  - lead and continuation octet decoding, following section 3 of RFC 3629. The lead table also admits the 5- and 6-octet forms of RFC 2279;
  - surrogate-pair recombination, following section 2.2 of RFC 2781;
  - code-point predicates;
  - UCS-2/ASCII widening and narrowing, UTF-8 to UCS-2 conversion, `pov_stricmp` and `UCS2_strlen`.

  Code points are `bv32`, octets `bv8` and UCS-2 units `bv16`, so C++'s unsigned wrap-around and shifts are modelled exactly.
- **The scanner stage of the scene parser** (`source/parser/scanner.cpp`, `scanner.h`, `parsertypes.cpp`). The model covers:
  - character classes;
  - line, column and offset tracking with a nominal end-of-line octet;
  - maximal-munch words and float literals;
  - string literals with backslash escapes, transcoded per string encoding (ASCII, UTF-8, or the system code page modelled as Windows-1252);
  - line comments and nestable block comments;
  - directive search, bookmarks, and the tokenizer exceptions.

  The input stream is one octet sequence plus a cursor (`ScannerStream.ScannerState`). Buffer refilling is not modelled.
- **Glyph outlines and shaping** (`source/parser/font.cpp`). The model covers:
  - `GlyphOutlineProcessor`: every FreeType segment becomes exactly four cubic Bézier control points;
  - the offset loop of `FontFace::GetShapedGlyphs`.

  FreeType's character map, kerning, advances and outline decomposition are parameters.

Files and modules:

| file | module | what |
|---|---|---|
| numeric.dfy | Numeric | absolute value, min/max, clamping, powers of two, `frexp` on reals |
| linear_colour.dfy | LinearColour | `GenericLinearColour` |
| rgb_colour.dfy | RGBColour | `GenericRGBColour`, `GenericColour` projections |
| transparency.dfy | Transparency | `GenericRGBFTColour`, `GenericRGBTColour`, `GenericTransColour` |
| compact_colour.dfy | CompactColour | `GenericCompactColour` encode/decode |
| ucs.dfy | Ucs | the `UCS` namespace: lead/continuation octets, overlong test, code-point predicates |
| string_utilities.dfy | StringUtilities | string conversions, `pov_stricmp`, `UCS2_strlen` |
| parser_types.dfy | ParserTypes | `LexemePosition`, `TokenizerException` |
| scanner_characters.dfy | ScannerCharacters | character classes, decoding tables, string transcoding |
| scanner_position.dfy | ScannerPosition | what `Scanner::Advance` does to the position |
| scanner_lexemes.dfy | ScannerLexemes | word, float, string and comment recognisers over the octets |
| scanner_stream.dfy | ScannerStream | the scanner state, set-up, `Advance` |
| scanner.dfy | Scanner | `GetNextLexeme`, `GetNextDirective`, bookmarks |
| font_outline.dfy | FontOutline | `GlyphOutlineProcessor`, `GetCubicBezierOutline` |
| font_shaping.dfy | FontShaping | `GetShapedGlyphs` |

## Model

| member | source | states |
|---|---|---|
| Numeric.Abs | source/base/colour.h:192-199 | the absolute value is non-negative and is x or -x (`fabs`, used by SumAbs and MaxAbs) |
| Numeric.Max2 | source/base/colour.h:201-208 | `max` is at least both operands and is one of them |
| Numeric.Min2 | source/base/colour.h:219-226 | `min` is at most both operands and is one of them |
| Numeric.Clip | source/base/colour.h:272-276 | `clip` clamps: with lo <= hi the result lies in [lo, hi]; a value already inside is kept, a value below lo becomes lo and one above hi becomes hi |
| Numeric.ClipIdempotent | source/base/colour.h:272-276 | clamping twice with the same bounds equals clamping once |
| Numeric.Frexp | source/base/colour.h:2016 | `frexp` of a positive value: a fraction in [0.5, 1) and an exponent whose product is the value |
| Numeric.FrexpUnique | source/base/colour.h:2016 | fraction and exponent are unique: any m in [0.5, 1) with x = m * 2^e is what `frexp` returns |
| LinearColour.Grey | source/base/colour.h:175-179 | the grey colour has every channel equal to the given value (also `Set`, and `Clear` with 0) |
| LinearColour.Binary | source/base/colour.h:314-344 | `a op b` for + - * / acts channel by channel |
| LinearColour.Scalar | source/base/colour.h:382-412 | `a op s` applies the scalar to every channel |
| LinearColour.ScalarLeft | source/base/colour.h:481-493 | the free `s op a` forms act channel by channel with the scalar on the left |
| LinearColour.Negate | source/base/colour.h:374-380 | unary minus negates every channel |
| LinearColour.CompoundAssign | source/base/colour.h:346-372 | `a op= b` leaves `a` equal to the plain `a op b` |
| LinearColour.CompoundAssignScalar | source/base/colour.h:414-440 | `a op= s` leaves `a` equal to the plain `a op s` |
| LinearColour.ScalarIsGreyBinary | source/base/colour.h:382-412 | a scalar operand acts as the grey colour of that value |
| LinearColour.ScalarLeftCommutes | source/base/colour.h:481-489 | the free `s*a` and `s+a` equal `a*s` and `a+s` |
| LinearColour.AddSubInverse | source/base/colour.h:314-328 | subtracting what was added gives the colour back |
| LinearColour.MulDivInverse | source/base/colour.h:398-412 | dividing by a nonzero scalar undoes multiplying by it |
| LinearColour.NegateInvolution | source/base/colour.h:374-380 | negation is an involution and equals scaling by -1 and `0 - a` |
| LinearColour.Clipped | source/base/colour.h:272-296 | `Clip`/`Clipped` clamp every channel: in [lo, hi], kept when inside, lo when below, hi when above |
| LinearColour.ClippedUpper | source/base/colour.h:278-282 | `ClipUpper` bounds from above only: a channel changes exactly when it exceeds the bound, and then becomes the bound |
| LinearColour.ClippedLower | source/base/colour.h:284-288 | `ClipLower` bounds from below only: a channel changes exactly when it is under the bound, and then becomes the bound |
| LinearColour.ClipInPlace | source/base/colour.h:272-276 | the in-place `Clip` leaves the receiver equal to the copy `Clipped` returns |
| LinearColour.ClippedIdempotent | source/base/colour.h:272-312 | each clipping form is idempotent |
| LinearColour.ClippedIsLowerThenUpper | source/base/colour.h:272-288 | clipping to [lo, hi] is clipping below, then above |
| LinearColour.SumAbs | source/base/colour.h:192-199 | `SumAbs` is non-negative and bounds every channel's magnitude |
| LinearColour.SumAbsOfThree | source/base/colour.h:192-199 | for three channels `SumAbs` = abs(r) + abs(g) + abs(b) |
| LinearColour.MaxOf | source/base/colour.h:201-208 | `Max` is at least every channel and is one of them |
| LinearColour.MinOf | source/base/colour.h:219-226 | `Min` is at most every channel and is one of them |
| LinearColour.MaxAbs | source/base/colour.h:210-217 | `MaxAbs` bounds every channel's magnitude and equals one of them |
| LinearColour.IsZero | source/base/colour.h:238-244 | `IsZero` holds exactly when every channel is 0 |
| LinearColour.IsNearZero | source/base/colour.h:246-252 | `IsNearZero(e)` holds exactly when every channel's magnitude is below e |
| LinearColour.NearZeroIffMaxAbs | source/base/colour.h:210-252 | near zero exactly when `MaxAbs` is below the epsilon |
| LinearColour.SumAbsZeroIffIsZero | source/base/colour.h:192-244 | `SumAbs` is 0 exactly when the colour is zero |
| LinearColour.MaxAbsAtMostSumAbs | source/base/colour.h:192-217 | `MaxAbs` never exceeds `SumAbs` |
| LinearColour.ColourDistance | source/base/colour.h:497 | `ColourDistance` is never negative |
| LinearColour.ColourDistanceMetric | source/base/colour.h:497 | `ColourDistance` is symmetric and is 0 exactly for equal colours |
| LinearColour.SubSelfIsZero | source/base/colour.h:238-244 | `a - a` is zero, and a grey colour is zero exactly for grey 0 |
| RGBColour.MakeRGB | source/base/colour.h:560-566 | `GenericRGBColour(r, g, b)` stores the channels in red, green, blue order |
| RGBColour.Greyscale | source/base/colour.h:78-80 | `Greyscale` (0.297 r + 0.589 g + 0.114 b; lines 587-592) lies between `Min` and `Max` |
| RGBColour.Weight | source/base/colour.h:595-627 | `Weight` = (abs r + abs g + abs b) / 3 is non-negative and between MaxAbs/3 and MaxAbs |
| RGBColour.WeightBy | source/base/colour.h:635-676 | the legacy weights (`WeightAbsGreyscale`, `WeightGreyscale`, `WeightMax`, `WeightMaxAbs`) never exceed `MaxAbs`; the absolute ones are non-negative |
| RGBColour.GreyscaleOfGrey | source/base/colour.h:78-80 | the intensities sum to 1, so a grey colour's greyscale is its grey value |
| RGBColour.WhiteWeighsOne | source/base/colour.h:595-676 | every weight measure gives 1 for white |
| RGBColour.NegativeRedWeights | source/base/colour.h:587-627 | for (-1, 0, 0) `Greyscale` is negative while `Weight` is 1/3 |
| RGBColour.GreyscaleBoundedByMaxAbs | source/base/colour.h:587-592 | the magnitude of `Greyscale` is at most `MaxAbs` |
| RGBColour.FromMathColour | source/base/colour.h:686-697 | with three channels, converting a `GenericColour` to RGB keeps red, green and blue |
| RGBColour.MathWeight | source/base/colour.h:1461-1491 | `GenericColour::Weight` = `SumAbs() / 3` is never negative |
| RGBColour.MathColourAgrees | source/base/colour.h:1405-1491 | in the three-channel build `Red`/`Green`/`Blue`, `Greyscale` and `Weight` of `GenericColour` agree with the RGB ones |
| RGBColour.RGBDistanceAgrees | source/base/colour.h:725-729 | the RGB `ColourDistance` is the generic sum of channel distances |
| RGBColour.RGBScalarDivideAgrees | source/base/colour.h:708-713 | the RGB free `s / c` equals the generic channel-wise form |
| Transparency.DefaultRGBFT | source/base/colour.h:797-802 | a default RGBFT colour is black with filter and transmit 0 |
| Transparency.RGBFTFromRGB | source/base/colour.h:817-821 | RGBFT(RGB) keeps the colour, has filter = transmit = 0, so opacity 1 |
| Transparency.RGBFTFromRGBT | source/base/colour.h:829-833 | RGBFT(RGBT) keeps colour and transmit with filter 0, so its opacity is the RGBT alpha |
| Transparency.RGBFromRGBFT | source/base/colour.h:568 | RGB(RGBFT) drops filter and transmit and keeps the colour |
| Transparency.Opacity | source/base/colour.h:873 | opacity, filter and transmit sum to 1 |
| Transparency.AtoFT | source/base/colour.h:891-892 | `AtoFT(a)` sets filter 0 and leaves opacity a |
| Transparency.FTtoA | source/base/colour.h:893-894 | `FTtoA` = 1 - transmit, which is the opacity when the filter is 0 |
| Transparency.AlphaRoundTrip | source/base/colour.h:891-894 | `FTtoA` after `AtoFT(a)` returns a; `AtoFT(FTtoA())` only zeroes the filter |
| Transparency.Get | source/base/colour.h:910-918 | `Get(expr, n)` overwrites the first n of red, green, blue, filter, transmit and keeps the rest |
| Transparency.Set | source/base/colour.h:919-926 | `Set(expr, n)` takes the first n components from the expression and keeps the rest |
| Transparency.ComponentsDetermine | source/base/colour.h:910-926 | the five components determine an RGBFT colour |
| Transparency.ExpressRoundTrip | source/base/colour.h:841-926 | `Set` of what `Get` produced changes nothing; `Set` with all five equals the expression constructor |
| Transparency.ClippedRGBFT | source/base/colour.h:928-933 | `Clipped` clamps each of colour, filter and transmit with the same bounds: kept when inside, lo when below, hi when above |
| Transparency.TransmittedRGBFT | source/base/colour.h:935-938 | the transmitted colour is colour * filter + transmit, channel by channel |
| Transparency.RGBFTOperatorsComponentwise | source/base/colour.h:940-1065 | every RGBFT operator acts on each of the five components alike |
| Transparency.ScalarLeftRGBFT | source/base/colour.h:1082-1087 | the free `s*c` and `s+c` act on every component with the scalar on the left |
| Transparency.DistanceRGBFT | source/base/colour.h:1094-1097 | the RGBFT distance is non-negative and ignores the filter |
| Transparency.DefaultRGBT | source/base/colour.h:1119-1123 | a default RGBT colour is black with transmit 0 |
| Transparency.Alpha | source/base/colour.h:1175 | alpha and transmit sum to 1 |
| Transparency.IsNearZeroRGBT | source/base/colour.h:1191-1195 | near zero exactly when every channel and the transmit are below epsilon in magnitude |
| Transparency.ClippedRGBT | source/base/colour.h:1209-1213 | `Clipped` clamps every channel and the transmit with the same bounds: kept when inside, lo when below, hi when above |
| Transparency.TransmittedRGBT | source/base/colour.h:1215-1218 | the RGBT transmitted colour is the grey of the transmit |
| Transparency.DistanceRGBT | source/base/colour.h:1350-1353 | the RGBT distance is non-negative |
| Transparency.RGBTWideningCommutes | source/base/colour.h:1220-1330 | widening RGBT to RGBFT commutes with the operators, clipping (when 0 is in range) and distance |
| Transparency.DefaultTrans | source/base/colour.h:1642-1647 | a default TransColour is black with filter and transmit 0 |
| Transparency.TransFromColour | source/base/colour.h:1662-1666 | TransColour(colour) keeps the colour and is opaque |
| Transparency.TransOpacity | source/base/colour.h:1685 | opacity, filter and transmit sum to 1, as for an RGBFT colour with the same components (line 873) |
| Transparency.LegacyOpacity | source/base/colour.h:1693 | the legacy opacity equals the new one when the brightest channel is 1 |
| Transparency.LegacyOpacityOrder | source/base/colour.h:1685-1693 | with a non-negative filter, legacy opacity is higher for dim colours and lower for bright ones |
| Transparency.ClippedTrans | source/base/colour.h:1724-1729 | `Clipped` clamps every channel, the filter and the transmit with the same bounds: kept when inside, lo when below, hi when above |
| Transparency.TransmittedTrans | source/base/colour.h:1731-1734 | the transmitted colour is colour * filter + transmit |
| Transparency.SetFT | source/base/colour.h:1736-1740 | `SetFT` sets filter and transmit and keeps the colour |
| Transparency.GetFT | source/base/colour.h:1742-1746 | `GetFT` reads back filter and transmit |
| Transparency.FilterTransmitRoundTrip | source/base/colour.h:1736-1746 | `SetFT` of `GetFT` changes nothing; `GetFT` after `SetFT` returns what was set |
| Transparency.ToTrans | source/base/colour.h:1887-1891 | TransColour(RGBFT) keeps filter, transmit and opacity |
| Transparency.ToRGBFT | source/base/colour.h:1073-1077 | RGBFT(TransColour) keeps filter, transmit and opacity |
| Transparency.TransConversionsInverse | source/base/colour.h:1073-1077 | the two conversions are mutually inverse (lines 1887-1891 for the other direction) |
| Transparency.TransOperatorsAgree | source/base/colour.h:1748-1873 | TransColour operators agree with the RGBFT ones under conversion |
| Transparency.TransClipAndTransmitAgree | source/base/colour.h:1724-1734 | TransColour clipping and transmitted colour agree with the RGBFT ones |
| CompactColour.Unsigned32 | source/base/colour.h:2017 | `exponent + kBias` wraps modulo 2^32 as an unsigned sum and is unchanged when in range |
| CompactColour.DefaultCompact | source/base/colour.h:1941-1946 | a default compact colour decodes to black for every bias |
| CompactColour.Decode | source/base/colour.h:158-173 | exponent slot at its minimum gives black; otherwise every channel is non-negative and is 0 exactly for a zero mantissa |
| CompactColour.ComputeExponent | source/base/colour.h:2001-2024 | fails exactly when `Max` <= 1e-32 (exponent slot 0); otherwise the biased exponent is frexp's plus the bias, saturated at 255, and when it saturates the mantissa is scaled up by the powers of two lost |
| CompactColour.Encode | source/base/colour.h:1955-1969 | the corrected encoder: exponent slot from `ComputeExponent`, all zero for dark colours, mantissa i from channel i |
| CompactColour.EncodeAsWritten | source/base/colour.h:1955-1969 | the encoder as written: mantissas as `Encode`, but the exponent slot overwritten by the mantissa of the out-of-range read `col[kChannels]` |
| CompactColour.EncodeDithered | source/base/colour.h:1971-1984 | the per-channel-dither encoder (loops corrected to `i < kChannels`) stores the exponent, the mantissa of each channel with its own dither, and zeroes dark colours |
| CompactColour.DitheredDecodeError | source/base/colour.h:1971-1984 | with each dither in [-0.5, 0.5], a non-negative channel decodes (lines 158-173) to within one mantissa step of its value |
| CompactColour.DitheredWithGreyIsScalar | source/base/colour.h:1955-1984 | dithering every channel by t is dithering by the scalar t |
| CompactColour.DarkEncodesToBlack | source/base/colour.h:1963-1967 | a colour with `Max` <= 1e-32 encodes to all-zero slots, which decode to black |
| CompactColour.NoUnsignedWrap | source/base/colour.h:2017 | for bias >= 107 and a colour above the threshold, `exponent + kBias` is at least 1, so no unsigned wrap |
| CompactColour.EncodeDecodeError | source/base/colour.h:158-173 | after encoding (lines 1955-1969), each non-negative channel decodes to within one mantissa step (2^(e-8), at most Max/128) of its value |
| CompactColour.NonPositiveChannelDecodesToZero | source/base/colour.h:1960-1961 | a non-positive channel of a bright colour encodes to mantissa 0 and decodes to 0 |
| CompactColour.DecodeEncodeRoundTrip | source/base/colour.h:158-173 | a normalised compact colour (largest mantissa >= 128) re-encodes (lines 1955-1969) to exactly its slots |
| CompactColour.MaxMantissa | source/base/colour.h:201-208 | the largest mantissa is at least every mantissa and is one of them |
| CompactColour.DecodedMax | source/base/colour.h:158-173 | the brightest decoded channel is the largest mantissa times the exponent factor |
| CompactColour.DecodedFrexp | source/base/colour.h:2016 | frexp of a decoded normalised colour's maximum is (largest mantissa / 256, exponent - bias) |
| CompactColour.AsWrittenZeroStrayIsBlack | source/base/colour.h:1960-1961 | as written, a zero in the stray slot makes every bright colour decode to black |
| CompactColour.RadianceExample | source/base/colour.h:2027 | the Radiance encoding of (1, 0.5, 0.25) is [128, 64, 32, 129] and decodes back exactly |
| CompactColour.EncoderOverwritesExponent | source/base/colour.h:1960-1961 | (1, 0.5, 0.25) survives the corrected encoder but decodes to black through the as-written one |
| Ucs.SurrogatePartition | source/base/stringutilities.cpp:346-369 | high and low surrogates partition the surrogate range; scalar values are the code points outside it |
| Ucs.CombineSurrogates | source/base/stringutilities.cpp:126-127 | recombining a pair gives a scalar value in 0x10000..0x10FFFF |
| Ucs.SplitSurrogates | source/base/stringutilities.cpp:126-127 | the inverse of recombination: a supplementary code point splits into a high and a low surrogate |
| Ucs.CombineSplit | source/base/stringutilities.cpp:126-127 | splitting a supplementary code point into a pair and recombining gives it back |
| Ucs.SplitCombine | source/base/stringutilities.cpp:126-127 | every high/low pair is the split of what it recombines to |
| Ucs.SequenceLength | source/base/stringutilities.cpp:289-307 | the lead-octet length table, at most 6 |
| Ucs.DecodeUTF8LeadOctet | source/base/stringutilities.cpp:309-322 | returns the table length; with 0 `c` is untouched; ASCII gives the octet; otherwise the payload bits below the marker |
| Ucs.LeadMaskIsPayloadMask | source/base/stringutilities.cpp:309-322 | masking with 0xFF >> len keeps exactly the payload bits (as 0x7F >> len would) |
| Ucs.DecodeUTF8ContinuationOctet | source/base/stringutilities.cpp:324-332 | accepts exactly `10xxxxxx`, appending its six bits to c shifted by six; otherwise c is kept |
| Ucs.ContinuationOctetsHaveNoLength | source/base/stringutilities.cpp:289-332 | continuation octets are exactly 0x80..0xBF, which the table marks with length 0 |
| Ucs.IsUTF8OverlongAsWritten | source/base/stringutilities.cpp:334-344 | as written: false for length 1, true for any length outside 1..4, and for lengths 2..4 true exactly when the code point needs at least that many octets |
| Ucs.IsUTF8Overlong | source/base/stringutilities.cpp:334-344 | corrected: true exactly when the code point fits in fewer octets than the sequence used |
| Ucs.OverlongSenseInverted | source/base/stringutilities.cpp:334-344 | for lengths 2..4 the as-written test is the negation of the corrected one |
| Ucs.OverlongCounterexample | source/base/stringutilities.cpp:334-344 | the overlong C1 81 ('A') passes the as-written test while the proper C3 A9 ('é') is flagged |
| Ucs.DecodeContinuations | source/base/stringutilities.cpp:324-332 | a run of continuation octets decodes exactly when none is refused |
| Ucs.DecodeOctets | source/base/stringutilities.cpp:309-332 | a sequence decodes only when its length is the one its lead octet announces |
| Ucs.EncodeUTF8 | source/base/stringutilities.cpp:334-344 | the shortest-form UTF-8 encoder has the minimal length the overlong test refers to |
| Ucs.EncodeDecodeRoundTrip | source/base/stringutilities.cpp:309-332 | decoding the shortest-form encoding of any code point gives it back, and it is not overlong |
| Ucs.DecodeEncodeRoundTrip | source/base/stringutilities.cpp:309-344 | a decoded sequence of up to 4 octets that is not overlong is the shortest-form encoding of its code point |
| StringUtilities.CString | source/base/stringutilities.cpp:56-71 | the bytes before the first NUL, a prefix without NUL |
| StringUtilities.Widen | source/base/stringutilities.cpp:65-66 | widening maps each byte to the unit of the same unsigned value |
| StringUtilities.ASCIItoUCS2String | source/base/stringutilities.cpp:56-71 | a null pointer gives "", otherwise one unit per byte before the NUL |
| StringUtilities.UCS2toASCIIString | source/base/stringutilities.cpp:73-87 | same length; units below 256 keep their value, the others become a space |
| StringUtilities.NarrowWidened | source/base/stringutilities.cpp:56-87 | narrowing a widened string gives back its bytes |
| StringUtilities.WidenNarrowed | source/base/stringutilities.cpp:56-87 | widening a narrowed string gives it back exactly when every unit is below 256 |
| StringUtilities.DecodeUTF8CharacterRaw | source/base/stringutilities.cpp:96-104 | the iterator advances by what the sequence decoder consumed, within the string; a decoded sequence gives its value and a failed one U+FFFD |
| StringUtilities.ScalarOrReplacement | source/base/stringutilities.cpp:133-139 | the final check returns a scalar value, the input exactly when it is one |
| StringUtilities.DecodeUTF8Character | source/base/stringutilities.cpp:113-140 | always returns a scalar value and advances within the string |
| StringUtilities.SurrogatePairCombines | source/base/stringutilities.cpp:117-128 | a high surrogate followed by a low one combines to a supplementary code point, consuming both |
| StringUtilities.LoneSurrogateReplaced | source/base/stringutilities.cpp:117-139 | a lone surrogate becomes U+FFFD and the iterator is rewound to just after it |
| StringUtilities.NonSurrogatePassesThrough | source/base/stringutilities.cpp:113-139 | anything else is kept if a code point and replaced otherwise |
| StringUtilities.ToUCS2Unit | source/base/stringutilities.cpp:161-163 | the unit is never 0 and equals the code point exactly when that is nonzero and in the BMP |
| StringUtilities.UTF8toUCS2From | source/base/stringutilities.cpp:157-166 | at most one unit per input octet, none of them 0 |
| StringUtilities.UTF8toUCS2String | source/base/stringutilities.cpp:142-169 | the loop computes the recursive conversion: at most one nonzero unit per octet |
| StringUtilities.LeadLengthStep | source/base/stringutilities.cpp:309-332 | a sequence decoder built on the lead table: it consumes at least one octet and only what decodes |
| StringUtilities.LeadLengthDecodesShortestForm | source/base/stringutilities.cpp:309-332 | that decoder reads the shortest-form encoding of any code point back |
| StringUtilities.BasicPlaneCharacterConverts | source/base/stringutilities.cpp:142-169 | a nonzero BMP scalar value converts to its own single unit |
| StringUtilities.SupplementaryCharacterReplaced | source/base/stringutilities.cpp:161-163 | a supplementary code point converts to U+FFFD |
| StringUtilities.EncodedSurrogatePairDecodes | source/base/stringutilities.cpp:117-128 | a high and a low surrogate each encoded in UTF-8 decode as one combined character of 6 octets |
| StringUtilities.SignedChar | source/base/stringutilities.cpp:198-225 | `char` is signed: octets from 0x80 are negative |
| StringUtilities.ToUpper | source/base/stringutilities.cpp:207-208 | `toupper` in the C locale maps a..z to A..Z and keeps everything else |
| StringUtilities.LexCompare | source/base/stringutilities.cpp:202-224 | the comparison loop's result is always -1, 0 or 1 |
| StringUtilities.LexCompareZeroIffEqual | source/base/stringutilities.cpp:198-225 | the comparison is 0 exactly for equal folded strings |
| StringUtilities.LexCompareAntisymmetric | source/base/stringutilities.cpp:198-225 | swapping the operands negates the result |
| StringUtilities.LexComparePrefix | source/base/stringutilities.cpp:216-224 | a proper prefix compares as -1 |
| StringUtilities.Stricmp | source/base/stringutilities.cpp:198-225 | `pov_stricmp` is the lexicographic comparison (-1, 0, 1) of the upper-cased C strings |
| StringUtilities.StricmpProperties | source/base/stringutilities.cpp:198-225 | 0 iff equal after upper-casing, antisymmetric, a proper prefix is -1 |
| StringUtilities.CaseIsIgnored | source/base/stringutilities.cpp:198-225 | "Pov" and "pOV" compare equal |
| StringUtilities.UCS2Strlen | source/base/stringutilities.cpp:270-276 | `UCS2_strlen` is the index of the first NUL |
| ParserTypes.DefaultPosition | source/parser/parsertypes.cpp:63-67 | the default position is line 1, column 1, offset 0 |
| ParserTypes.PositionArithmetic | source/parser/parsertypes.cpp:56-72 | `==` (offsets equal) is an equivalence, holding exactly when `-` gives 0; `-` is antisymmetric and adds along chains |
| ParserTypes.RaiseIn | source/parser/parsertypes.cpp:76-99 | an exception records the stream's name, and its accessors return the stored position's line, column and offset |
| ScannerCharacters.CharacterClasses | source/parser/scanner.cpp:251-307 | line ends are whitespace; identifier characters are printable non-whitespace; non-printable whitespace is exactly tab, LF, CR, 0x1A |
| ScannerCharacters.SpecificEntries | source/parser/scanner.cpp:159-199 | the 0x80..0x9F entries: U+FFFD exactly for 0x81, 0x8D, 0x8F, 0x90, 0x9D; the others are non-Latin-1 characters that map back to their octet |
| ScannerCharacters.Windows1252Table | source/parser/scanner.cpp:159-243 | ASCII and 0xA0..0xFF map to themselves as in the Latin-1 table; each entry is a BMP scalar value; assigned entries invert |
| ScannerCharacters.Windows1252Injective | source/parser/scanner.cpp:159-199 | no two assigned octets share a character |
| ScannerCharacters.DecodedCharacter | source/parser/scanner.cpp:110-150 | the ASCII and system encodings decode each octet to a BMP scalar value |
| ScannerCharacters.TranscodeOctet | source/parser/scanner.cpp:375-385 | each string octet becomes 1 to 3 UTF-8 octets |
| ScannerCharacters.TranscodedIsUTF8 | source/parser/scanner.cpp:110-150 | ASCII octets and UTF-8 mode copy the octet; otherwise it becomes the UTF-8 of its decoded character, U+FFFD in ASCII mode |
| ScannerCharacters.Transcode | source/parser/scanner.cpp:665-701 | UTF-8 mode copies the octets; no mode shortens them |
| ScannerCharacters.TranscodeAppend | source/parser/scanner.cpp:665-701 | transcoding works octet by octet: it distributes over concatenation |
| ScannerPosition.StartOfStream | source/parser/scanner.cpp:324-336 | a fresh stream starts at the default position with no nominal line end |
| ScannerPosition.Step | source/parser/scanner.cpp:838-860 | one octet: offset + 1; the first line end seen becomes nominal; the nominal one starts a line; the other moves nothing; any other octet moves the column |
| ScannerPosition.FirstEndOfLine | source/parser/scanner.cpp:846-848 | the first line-end octet, or 0 |
| ScannerPosition.TrackCharacterised | source/parser/scanner.cpp:838-860 | after any octets: line = 1 + number of nominal line ends, column = 1 + non-line-end octets since the last one, offset = their count |
| ScannerPosition.TrackIsPositive | source/parser/scanner.cpp:838-860 | line and column stay at least 1 and the offset counts octets |
| ScannerPosition.SameOffsetSamePosition | source/parser/parsertypes.cpp:56-61 | positions on one stream with equal offsets have equal lines and columns, as `operator==` asserts |
| ScannerPosition.TrackAppend | source/parser/scanner.cpp:838-860 | advancing over one more octet is one more step |
| ScannerPosition.MixedLineEnds | source/parser/scanner.cpp:838-860 | "a LF b" ends at line 2, column 2 and a later CR moves nothing; in CR LF CR the LF is ignored |
| ScannerStream.NewScanner | source/parser/scanner.cpp:311-322 | a new scanner has no stream, default position, ASCII strings, nested comments allowed |
| ScannerStream.SetInputStream | source/parser/scanner.cpp:324-336 | a new stream starts at offset 0 in a consistent position, at its end exactly when empty, settings kept |
| ScannerStream.SetStringEncoding | source/parser/scanner.cpp:375-385 | only the string encoding changes |
| ScannerStream.SetNestedBlockComments | source/parser/scanner.cpp:387-390 | only the nesting flag changes |
| ScannerStream.Advance | source/parser/scanner.cpp:838-860 | at the end nothing moves and false is returned; otherwise offset + 1, true iff another octet follows, position kept consistent (scanner.h 227-233) |
| ScannerStream.AdvanceTo | source/parser/scanner.cpp:838-860 | repeated `Advance` reaches the target offset with a consistent position |
| ScannerStream.SkipWhitespace | source/parser/scanner.cpp:401-406 | the whitespace loop stops at the first non-whitespace octet or the end |
| ScannerStream.Emit | source/parser/scanner.cpp:832-836 | `CopyAndAdvance` up to n: the lexeme holds the octets from its position to n |
| ScannerLexemes.WordEnd | source/parser/scanner.cpp:527-539 | a word is the maximal run of identifier characters |
| ScannerLexemes.DigitsEnd | source/parser/scanner.cpp:604-615 | the maximal run of digits |
| ScannerLexemes.ExponentEnd | source/parser/scanner.cpp:617-637 | the exponent part is empty exactly when no e/E follows |
| ScannerLexemes.FloatLexemeAccepted | source/parser/scanner.cpp:543-571 | the float lexer's lexeme is a float literal of the grammar digits ('.' digits?)? ([eE] [+-]? digits?)?, and one more octet is not |
| ScannerLexemes.FloatLexemeLongest | source/parser/scanner.cpp:543-571 | no longer prefix is a float literal: maximal munch |
| ScannerLexemes.FloatOrDotAccepted | source/parser/scanner.cpp:573-602 | after a '.' the lexeme is a float literal exactly when a digit follows; otherwise the lone '.' |
| ScannerLexemes.FloatOrDotEnd | source/parser/scanner.cpp:573-602 | a lone '.' is one octet long |
| ScannerLexemes.StaysRejected | source/parser/scanner.cpp:543-637 | once a prefix is no float literal, no extension is |
| ScannerLexemes.LineCommentEnd | source/parser/scanner.cpp:705-712 | a line comment runs to the next line-end octet (not consumed) or the end |
| ScannerLexemes.BlockComment | source/parser/scanner.cpp:716-757 | a closed block comment spans at least slash, star, star, slash and ends within the stream (where, for all inputs: BlockCommentCloses, NestedLevels, UnnestedCommentFirstClose) |
| ScannerLexemes.BlockCommentCloses | source/parser/scanner.cpp:716-757 | a block comment ends right after a star-slash |
| ScannerLexemes.NestedLevels | source/parser/scanner.cpp:724-754 | the nesting rule: a star-slash lowers the level and the comment ends when it reaches 0; started `extra` levels deeper, the scan goes on past the shallower end with `extra` levels open, and is unterminated if that end is the end of the stream |
| ScannerLexemes.InnerCommentSkipped | source/parser/scanner.cpp:738-747 | with nesting on, a slash-star raises the level: the enclosing comment resumes at its own level right after the inner comment closes, and is unterminated when the inner one is |
| ScannerLexemes.UnnestedCommentFirstClose | source/parser/scanner.cpp:716-757 | without nesting a block comment ends at the first star-slash |
| ScannerLexemes.NestedCommentExample | source/parser/scanner.cpp:716-757 | "/*/**/*/" is one comment with nesting, and ends after six octets without |
| ScannerLexemes.StringLiteral | source/parser/scanner.cpp:665-701 | a terminated literal spans at least two quotes and ends at a quote (which quote, for all inputs: StringLiteralEnd) |
| ScannerLexemes.StringLiteralText | source/parser/scanner.cpp:665-701 | the literal's text is the transcoding of its octets quotes included, the octets themselves in UTF-8 mode |
| ScannerLexemes.BackslashCopied | source/parser/scanner.cpp:677-681 | an escaping backslash is copied into the literal's text unchanged, ahead of the transcoding of what follows it |
| ScannerLexemes.StringBodySound | source/parser/scanner.cpp:675-698 | what the lexer reads from a position is a literal body (units of an ordinary octet, or a backslash with any octet) followed by a quote |
| ScannerLexemes.StringBodyComplete | source/parser/scanner.cpp:675-698 | a literal body followed by a quote is read by the lexer up to and including that quote |
| ScannerLexemes.StringLiteralEnd | source/parser/scanner.cpp:665-701 | a literal ends at the first unescaped quote: its end closes a literal body, and any quote closing a literal body is its end; incomplete exactly when there is no such quote |
| ScannerLexemes.EscapedQuoteContinues | source/parser/scanner.cpp:677-692 | a backslash-quote pair never ends a literal: the lexer reads past it |
| ScannerLexemes.EatString | source/parser/scanner.cpp:641-663 | `EatNextStringLiteral` skips a terminated literal |
| ScannerLexemes.EatStringAgrees | source/parser/scanner.cpp:641-701 | skipping a literal ends exactly where lexing it does, and fails exactly when lexing does |
| ScannerLexemes.StringLiteralExamples | source/parser/scanner.cpp:665-701 | "a\"" is one literal; an unterminated one fails; 0xE9 in ASCII mode becomes U+FFFD |
| ScannerLexemes.CommentEnd | source/parser/scanner.cpp:423-440 | a comment opener leads to the end of its comment, or to none only for an unterminated block comment |
| ScannerLexemes.CommentSkippable | source/parser/scanner.cpp:423-440 | a comment followed by skippable octets is skippable |
| ScannerLexemes.WhitespaceSkippable | source/parser/scanner.cpp:401-406 | whitespace followed by skippable octets is skippable |
| Scanner.WordAt | source/parser/scanner.cpp:527-539 | a word lexeme at the current position with category kWord |
| Scanner.FloatAt | source/parser/scanner.cpp:543-571 | a maximal float literal lexeme |
| Scanner.FloatOrDotAt | source/parser/scanner.cpp:573-602 | a float literal or a lone '.' (kOther) |
| Scanner.StringAt | source/parser/scanner.cpp:415-420 | a string literal lexeme, or `IncompleteStringLiteralException` at the opening quote exactly when unterminated |
| Scanner.OperatorAt | source/parser/scanner.cpp:442-464 | '!', '<', '>' take a following '='; '/' alone; other printable octets alone; non-printable ones raise `InvalidCharacterException` |
| Scanner.LexemeAt | source/parser/scanner.cpp:410-464 | the dispatch on the first octet yields a well-formed lexeme or an exception at the current position |
| Scanner.AfterWhitespace | source/parser/scanner.cpp:399-464 | one pass of the loop: a comment is skipped and the loop resumes after it, or a lexeme or exception ends it |
| Scanner.GetNextLexeme | source/parser/scanner.cpp:394-467 | every lexeme is well formed for its category and at or after the start; the end of stream, or an exception at an offending octet |
| Scanner.LexemeAfterSkippable | source/parser/scanner.cpp:394-467 | only whitespace and comments are passed over before a lexeme, an exception or the end (scanner.h 92-93) |
| Scanner.LexemePositionTracked | source/parser/scanner.cpp:394-467 | the reported positions are the tracked line/column/offset of the lexeme's first octet |
| Scanner.SkipToDirective | source/parser/scanner.cpp:478-483 | the directive search passes over every octet but '"', '/' and '#' |
| Scanner.DirectiveStep | source/parser/scanner.cpp:485-519 | one pass: a literal or comment is skipped; '#' is found; an unterminated literal or comment raises |
| Scanner.GetNextDirective | source/parser/scanner.cpp:469-523 | the result is a '#' lexeme at a '#' after the start, the end of stream, or an exception of an unterminated literal or comment |
| Scanner.DirectivePositionTracked | source/parser/scanner.cpp:469-523 | the reported positions are the tracked positions |
| Scanner.DirectiveSkipsLiteralsLikeLexer | source/parser/scanner.cpp:641-701 | the directive search skips a literal exactly as far as the lexer reads it |
| Scanner.Resume | source/parser/scanner.cpp:338-373 | re-opening at a bookmark restores position and settings and tells whether an octet is there |
| Scanner.GoToBookmark | source/parser/scanner.cpp:813-816 | going to a bookmark keeps the stream and restores the position |
| Scanner.GoToHotBookmark | source/parser/scanner.cpp:818-821 | a hot bookmark brings its own stream |
| Scanner.GoToColdBookmark | source/parser/scanner.cpp:823-828 | a cold bookmark of another stream name fails and changes nothing |
| Scanner.BookmarkRoundTrip | source/parser/scanner.cpp:803-828 | going back to a bookmark taken earlier restores that state exactly; hot and cold bookmarks report the stream's name (scanner.h 122-141) |
| Scanner.ResumeConsistent | source/parser/scanner.cpp:818-821 | a state restored from a hot bookmark is consistent again |
| Scanner.ExampleFirstWord | source/parser/scanner.cpp:527-539 | in "a<=b" the first lexeme is the word "a" at 1:1 |
| Scanner.ExampleComparison | source/parser/scanner.cpp:442-451 | then "<=" at 1:2 |
| Scanner.ExampleLastWord | source/parser/scanner.cpp:394-467 | then "b" at 1:4, then the end of the stream |
| Scanner.ComparisonExample | source/parser/scanner.cpp:394-467 | a fresh scanner on "a<=b" yields "a", "<=", "b" and then reports the end |
| FontOutline.ConvertPoint | source/parser/font.cpp:250-253 | p * scaling + offset, which a nonzero scaling makes invertible |
| FontOutline.NewProcessor | source/parser/font.cpp:192-196 | a new processor has no control points and the given mapping |
| FontOutline.MoveTo | source/parser/font.cpp:197-203 | no control point; the current point becomes the converted target |
| FontOutline.LineTo | source/parser/font.cpp:205-217 | four points: the current point, the points 1/3 and 2/3 of the way, and the converted target, which becomes current |
| FontOutline.ConicTo | source/parser/font.cpp:219-233 | four points: current point, two inner points 2/3 of the way from each end towards the control point, converted target |
| FontOutline.CubicTo | source/parser/font.cpp:235-248 | four points: current point, both converted controls, converted target |
| FontOutline.LineToTracesLine | source/parser/font.cpp:205-217 | the cubic `LineTo` emits traces the straight segment at the same parameter |
| FontOutline.ConicToTracesQuadratic | source/parser/font.cpp:219-233 | the cubic `ConicTo` emits traces the quadratic curve (degree elevation) |
| FontOutline.ApplyDrawing | source/parser/font.cpp:197-248 | every callback keeps the mapping and earlier points; drawing ones add one cubic from the current point to the new one |
| FontOutline.ProcessCount | source/parser/font.cpp:320-340 | decomposing an outline adds exactly four points per drawing segment after the existing ones |
| FontOutline.OutlineLength | source/parser/font.cpp:318-343 | a glyph outline has four control points per drawing segment |
| FontOutline.ContourIsConnected | source/parser/font.cpp:205-248 | within a contour each cubic starts where the previous ended |
| FontOutline.ApplyTranslated | source/parser/font.cpp:197-253 | every callback commutes with translating the offset |
| FontOutline.ProcessTranslated | source/parser/font.cpp:197-253 | processing commutes with a translation |
| FontOutline.OutlineTranslates | source/parser/font.cpp:318-343 | the glyph offset only shifts its outline |
| FontShaping.PenOffsetStep | source/parser/font.cpp:302-310 | one pen step adds the advance, the extra advance and the next pair's kerning |
| FontShaping.GetShapedGlyphs | source/parser/font.cpp:291-315 | one glyph per unit in order; the first at the origin; each next one moved by advance, extra advance and pair kerning; glyph i at the sum of the pen steps before it |
| FontShaping.UniformSpacing | source/parser/font.cpp:291-315 | with no kerning and equal horizontal advances, glyph i sits i steps along the baseline |
| FontShaping.OnBaseline | source/parser/font.cpp:148-168 | with kerning and advances along x, as `GetKerning` and `GetAdvance` return them, and a horizontal extra advance, every glyph sits on the baseline |

## Left out

- NaN handling (`IsValid`, `Invalidate`) and `Exp`, `Pow`, `Cos`, `Sqrt` on colours: IEEE NaN and transcendental functions have no exact `real` model.
- Floating-point rounding: channels are exact reals. The intensities 0.297, 0.589 and 0.114 are `float` constants in the source; they are modelled as exact decimals.
- Division by a zero channel or scalar: reals have no infinity, so division operators require nonzero divisors.
- The free `operator-(double, colour)` of RGBFT, RGBT and TransColour: it needs a scalar constructor those classes do not have, so it would not compile.
- The `NUM_COLOUR_CHANNELS != 3` branches of colour.h: dead code in this configuration.
- Signed compact-colour storage (`MaxAbs` instead of `Max`): both instantiations (`RadianceHDRColour`, `PhotonColour`) use unsigned char.
- The per-channel-dither encoder uses an undeclared `EXP` and so does not compile when instantiated. `CompactColour.EncodeDithered` models it with the evidently intended `kExp`. Its loops (colour.h:1976-1982) share the scalar encoder's `i <= kChannels` bound, which would also read `col[kChannels]` and `dither[kChannels]`; the model bounds them by `kChannels`, as in the corrected scalar encoder of the first Findings row.
- CompactColour.EncodeDecodeError: stated for non-negative channels and exponents that need no saturation. A negative channel decodes to 0; `NonPositiveChannelDecodesToZero` covers that case.
- `clip`, `clipToType`, `kReplacementCharacter` are defined outside the modelled files. `clip` is taken to be min/max clamping, and `clipToType` to be clamping to 0..255.
- `UCS::DecodeUTF8Sequence` is not part of this model. It is a parameter of `StringUtilities.DecodeUTF8Character`; the only assumption is that it consumes octets within the string.
- The memory reservation estimate in `UTF8toUCS2String`: it only sizes a buffer.
- `pov_tsprintf`: formatted output into a static buffer.
- StringUtilities.ToUpper: models `toupper` in the C locale only.
- StringUtilities.SignedChar: `char` is taken to be signed, as on x86 compilers; where it is unsigned, octets from 0x80 order above ASCII in `pov_stricmp`.
- CompactColour.ComputeExponent: the rescaled mantissa of a saturated exponent is stated for shifts up to 2^31 - 1, the range of `ldexp`'s `int` argument; larger frexp exponents do not occur for doubles.
- The scanner's buffer plumbing (`RefillBuffer`, `GuaranteeBuffer`, `GetRaw`, stream seeking): the stream is one octet sequence.
- The system string encoding is modelled as Windows-1252, the table `SetStringEncoding` installs for it.
- The decoding tables hold UTF-8 string literals. The model stores the code point of each entry and encodes it as UTF-8 when transcoding.
- `InvalidEscapeSequenceException`: its type is modelled, but the scanner never raises it.
- FreeType itself (`FontEngine`, `FontFace` construction, `FT_Load_Glyph`, `FT_Outline_Decompose`, `GetKerning`, `GetAdvance`, `FT_Get_Char_Index`) and the font resolvers: these are library and OS wrappers. Character map, kerning and advances are parameters; an outline is the segment list the decomposer would report.
- FontShaping.FontMetrics: kerning and advances are general vectors, while `GetKerning` and `GetAdvance` always return a zero y component. `GetShapedGlyphs` holds for any vectors; `FontShaping.Horizontal` names the restriction and `FontShaping.OnBaseline` uses it.
- The initial current point of a `GlyphOutlineProcessor`: taken to be the origin. FreeType opens every contour with a move, so it is never observed.

## Findings

| source | as written | input that shows it | evidently intended | confidence | as-written member | corrected member |
|---|---|---|---|---|---|---|
| source/base/colour.h:1960-1961 | the encoder loop runs `i <= kChannels`. It reads `col[kChannels]` past the last channel and overwrites the exponent slot with that value's mantissa; the per-channel-dither constructor (lines 1976-1982) has the same bound | (1, 0.5, 0.25) with bias 128 and a zero stray value: all slots decode to black | `i < kChannels`, giving slots [128, 64, 32, 129] that decode back exactly | not executed | CompactColour.EncoderOverwritesExponent | CompactColour.DecodeEncodeRoundTrip |
| source/base/stringutilities.cpp:334-344 | `IsUTF8Overlong` returns `c > 0x7F`, `c > 0x7FF`, `c > 0xFFFF` for lengths 2, 3, 4, which is true for properly encoded characters | C1 81 (an overlong 'A') is not flagged; C3 A9 ('é') is | `c <= 0x7F`, `c <= 0x7FF`, `c <= 0xFFFF`: true exactly for overlong forms | not executed | Ucs.OverlongCounterexample | Ucs.EncodeDecodeRoundTrip |
