/**
 The RGB projections of colour.h: channel accessors of `GenericRGBColour`,
 the luminance-weighted `Greyscale`, the family of `Weight*` measures, and the
 three-channel `GenericColour` (`MathColour`) that shares the RGB layout in
 this build.
 */
module RGBColour {
  import opened Numeric
  import opened LinearColour

  /** Luminance weights of the red, green and blue channels. */
  const kRedIntensity: real := 0.297
  const kGreenIntensity: real := 0.589
  const kBlueIntensity: real := 0.114

  const kRed: nat := 0
  const kGreen: nat := 1
  const kBlue: nat := 2

  function Red(c: Colour): real { c[kRed] }
  function Green(c: Colour): real { c[kGreen] }
  function Blue(c: Colour): real { c[kBlue] }

  /** `GenericRGBColour(red, green, blue)`: the channels in red, green, blue order. */
  function MakeRGB(red: real, green: real, blue: real): (c: Colour)
    ensures Red(c) == red && Green(c) == green && Blue(c) == blue
  {
    [red, green, blue]
  }

  /** `Greyscale()`: the luminance-weighted sum of the three channels. */
  function Greyscale(c: Colour): (r: real)
    ensures MinOf(c) <= r <= MaxOf(c)
  {
    kRedIntensity * Red(c) + kGreenIntensity * Green(c) + kBlueIntensity * Blue(c)
  }

  /** `Weight()` of an RGB colour: the mean channel magnitude. */
  function Weight(c: Colour): (r: real)
    ensures r >= 0.0
    ensures MaxAbs(c) / 3.0 <= r <= MaxAbs(c)
  {
    (Abs(Red(c)) + Abs(Green(c)) + Abs(Blue(c))) / 3.0
  }

  /** The legacy weight measures kept for backward compatibility, and the current one. */
  datatype Measure = MeanAbs | AbsGreyscale | SignedGreyscale | MaxChannel | MaxAbsChannel

  /** `Weight`, `WeightAbsGreyscale`, `WeightGreyscale`, `WeightMax` and `WeightMaxAbs`. */
  function WeightBy(m: Measure, c: Colour): (r: real)
    ensures m != SignedGreyscale && m != MaxChannel ==> r >= 0.0
    ensures r <= MaxAbs(c)
  {
    match m
    case MeanAbs => Weight(c)
    case AbsGreyscale => Abs(Greyscale(c))
    case SignedGreyscale => Greyscale(c)
    case MaxChannel => MaxOf(c)
    case MaxAbsChannel => MaxAbs(c)
  }

  /** The greyscale of a grey colour is its level: the three weights sum to one. */
  lemma GreyscaleOfGrey(g: real)
    ensures Greyscale(Grey(g)) == g
  {
  }

  /** White weighs exactly 1 under every measure. */
  lemma WhiteWeighsOne(m: Measure)
    ensures WeightBy(m, Grey(1.0)) == 1.0
  {
    assert Grey(1.0) == [1.0, 1.0, 1.0];
  }

  /** A negative channel lowers the greyscale below zero while `Weight` still counts it:
      the reason the mean-magnitude measure replaced the greyscale-based ones. */
  lemma NegativeRedWeights()
    ensures Greyscale(MakeRGB(-1.0, 0.0, 0.0)) < 0.0
    ensures Weight(MakeRGB(-1.0, 0.0, 0.0)) == 1.0 / 3.0
  {
  }

  /** The magnitude of the greyscale never exceeds the largest channel magnitude. */
  lemma GreyscaleBoundedByMaxAbs(c: Colour)
    ensures Abs(Greyscale(c)) <= MaxAbs(c)
  {
  }

  /** `GenericRGBColour(const GenericColour&)` and `ToMathColour`: channel i maps to channel i
      when the internal model has three channels. */
  function FromMathColour(c: Colour): (r: Colour)
    ensures Red(r) == c[0] && Green(r) == c[1] && Blue(r) == c[2]
    ensures r == c
  {
    MakeRGB(c[0], c[1], c[2])
  }

  /** `GenericColour::Red/Green/Blue` in the three-channel build. */
  function MathRed(c: Colour): real { c[0] }
  function MathGreen(c: Colour): real { c[1] }
  function MathBlue(c: Colour): real { c[2] }

  /** `GenericColour::Greyscale` in the three-channel build. */
  function MathGreyscale(c: Colour): real {
    kRedIntensity * c[0] + kGreenIntensity * c[1] + kBlueIntensity * c[2]
  }

  /** `GenericColour::Weight`: `SumAbs() / 3`. */
  function MathWeight(c: Colour): (r: real)
    ensures r >= 0.0
  {
    SumAbs(c) / 3.0
  }

  /** Converting between the math colour and the RGB colour loses nothing, and both
      classes compute the same greyscale and weight, although `GenericColour::Weight`
      folds `SumAbs` while the RGB class adds the three magnitudes directly. */
  lemma MathColourAgrees(c: Colour)
    ensures MathRed(c) == Red(c) && MathGreen(c) == Green(c) && MathBlue(c) == Blue(c)
    ensures MathGreyscale(c) == Greyscale(FromMathColour(c))
    ensures MathWeight(c) == Weight(FromMathColour(c))
  {
    SumAbsOfThree(c);
  }

  /** The RGB overload of `ColourDistance` (three explicit magnitudes) equals the generic one
      (`SumAbs` of the difference). */
  lemma RGBDistanceAgrees(a: Colour, b: Colour)
    ensures Abs(Red(a) - Red(b)) + Abs(Green(a) - Green(b)) + Abs(Blue(a) - Blue(b))
            == ColourDistance(a, b)
  {
    SumAbsOfThree(Binary(Minus, a, b));
  }

  /** The RGB overload of `s / b` (each channel `s / channel`) equals the generic one
      (grey colour of `s` divided by `b`). */
  lemma RGBScalarDivideAgrees(s: real, b: Colour)
    requires DefinedOn(Over, b)
    ensures MakeRGB(s / Red(b), s / Green(b), s / Blue(b)) == ScalarLeft(Over, s, b)
  {
  }
}
