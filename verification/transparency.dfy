/**
 The colour-plus-transparency classes of colour.h: the legacy five-component
 `GenericRGBFTColour` (colour, filter, transmit), the front-end
 `GenericRGBTColour` (colour, transmit) and the render-engine
 `GenericTransColour`, with their opacity and alpha rules, the conversions
 between them, and their componentwise arithmetic.
 */
module Transparency {
  import opened Numeric
  import opened LinearColour
  import opened RGBColour

  datatype RGBFTColour = RGBFT(rgb: Colour, filter: real, transm: real)

  datatype RGBTColour = RGBT(rgb: Colour, transm: real)

  datatype TransColour = Trans(colour: Colour, filter: real, transm: real)

  /** Length of the `EXPRESS` array: red, green, blue, filter, transmit. */
  const kExpressSize: nat := 5

  type Express = e: seq<real> | |e| == kExpressSize witness [0.0, 0.0, 0.0, 0.0, 0.0]

  // ---------------------------------------------------------------- RGBFT

  /** The default constructor: black, no filter, no transmit. */
  function DefaultRGBFT(): (r: RGBFTColour)
    ensures IsZero(r.rgb) && r.filter == 0.0 && r.transm == 0.0
  {
    RGBFT(Grey(0.0), 0.0, 0.0)
  }

  /** `GenericRGBFTColour(const GenericRGBColour&)`: an opaque colour. */
  function RGBFTFromRGB(c: Colour): (r: RGBFTColour)
    ensures r.rgb == c && r.filter == 0.0 && r.transm == 0.0
    ensures Opacity(r) == 1.0
  {
    RGBFT(c, 0.0, 0.0)
  }

  /** `GenericRGBFTColour(const GenericRGBTColour&)`: keeps colour and transmit, no filter. */
  function RGBFTFromRGBT(c: RGBTColour): (r: RGBFTColour)
    ensures r.rgb == c.rgb && r.filter == 0.0 && r.transm == c.transm
    ensures Opacity(r) == Alpha(c)
  {
    RGBFT(c.rgb, 0.0, c.transm)
  }

  /** `GenericRGBFTColour(const EXPRESS)`: the five components in array order. */
  function RGBFTFromExpress(e: Express): (r: RGBFTColour)
  {
    RGBFT(MakeRGB(e[0], e[1], e[2]), e[3], e[4])
  }

  /** `GenericRGBColour(const GenericRGBFTColour&)`: the colour alone. */
  function RGBFromRGBFT(c: RGBFTColour): (r: Colour)
    ensures r == c.rgb
    ensures RGBFTFromRGB(r).rgb == c.rgb
  {
    c.rgb
  }

  /** `opacity()`: what neither the filter nor the transmit lets through. */
  function Opacity(c: RGBFTColour): (r: real)
    ensures r + c.filter + c.transm == 1.0
  {
    1.0 - c.filter - c.transm
  }

  /** `AtoFT(alpha)`: replaces filter and transmit by the values an alpha stands for. */
  function AtoFT(c: RGBFTColour, alpha: real): (r: RGBFTColour)
    ensures r.rgb == c.rgb && r.filter == 0.0
    ensures Opacity(r) == alpha
  {
    RGBFT(c.rgb, 0.0, 1.0 - alpha)
  }

  /** `FTtoA()`: the alpha a colour stands for, from its transmit alone. */
  function FTtoA(c: RGBFTColour): (r: real)
    ensures c.filter == 0.0 ==> r == Opacity(c)
  {
    1.0 - c.transm
  }

  /** Alpha survives a trip through filter/transmit exactly; the other direction keeps
      transmit but forgets the filter. */
  lemma AlphaRoundTrip(c: RGBFTColour, alpha: real)
    ensures FTtoA(AtoFT(c, alpha)) == alpha
    ensures AtoFT(c, FTtoA(c)) == RGBFT(c.rgb, 0.0, c.transm)
  {
  }

  /** Component k of the `EXPRESS` view of an RGBFT colour. */
  function Component(c: RGBFTColour, k: nat): real
    requires k < kExpressSize
  {
    if k < 3 then c.rgb[k] else if k == 3 then c.filter else c.transm
  }

  /** `Get(expr, n)`: the first n components are written to the array, the rest keep their value. */
  function Get(c: RGBFTColour, expr: Express, n: nat): (r: Express)
    ensures forall k :: 0 <= k < kExpressSize ==> r[k] == (if k < n then Component(c, k) else expr[k])
  {
    seq(kExpressSize, k requires 0 <= k < kExpressSize => if k < n then Component(c, k) else expr[k])
  }

  /** `Set(expr, n)`: the first n components are read from the array, the rest keep their value. */
  function Set(c: RGBFTColour, expr: Express, n: nat): (r: RGBFTColour)
    ensures forall k :: 0 <= k < kExpressSize ==>
              Component(r, k) == (if k < n then expr[k] else Component(c, k))
  {
    RGBFT(seq(3, k requires 0 <= k < 3 => if k < n then expr[k] else c.rgb[k]),
          if 3 < n then expr[3] else c.filter,
          if 4 < n then expr[4] else c.transm)
  }

  /** Two colours with the same five components are equal. */
  lemma ComponentsDetermine(a: RGBFTColour, b: RGBFTColour)
    requires forall k :: 0 <= k < kExpressSize ==> Component(a, k) == Component(b, k)
    ensures a == b
  {
    assert Component(a, 0) == Component(b, 0);
    assert Component(a, 1) == Component(b, 1);
    assert Component(a, 2) == Component(b, 2);
    assert Component(a, 3) == Component(b, 3);
    assert Component(a, 4) == Component(b, 4);
    assert a.rgb == b.rgb;
  }

  /** Writing a colour out with `Get` and reading it back with `Set` restores it, for any count;
      with all five components, `Set` then `Get` restores the array and `Set` agrees with
      the `EXPRESS` constructor. */
  lemma ExpressRoundTrip(c: RGBFTColour, d: RGBFTColour, expr: Express, n: nat)
    ensures Set(c, Get(c, expr, n), n) == c
    ensures Get(Set(d, expr, 5), expr, 5) == expr
    ensures Set(d, expr, 5) == RGBFTFromExpress(expr)
  {
    ComponentsDetermine(Set(c, Get(c, expr, n), n), c);
    ComponentsDetermine(Set(d, expr, 5), RGBFTFromExpress(expr));
  }

  /** `Clipped(minc, maxc)`: the colour and both transparency scalars clamped alike. */
  function ClippedRGBFT(c: RGBFTColour, lo: real, hi: real): (r: RGBFTColour)
    ensures lo <= hi ==> forall k :: 0 <= k < kExpressSize ==> lo <= Component(r, k) <= hi
    ensures forall k :: 0 <= k < kExpressSize && lo <= Component(c, k) <= hi ==>
              Component(r, k) == Component(c, k)
    ensures forall k :: 0 <= k < kExpressSize ==> Clamped(Component(c, k), lo, hi, Component(r, k))
  {
    RGBFT(Clipped(c.rgb, lo, hi), Clip(c.filter, lo, hi), Clip(c.transm, lo, hi))
  }

  /** `TransmittedColour()`: the colour scaled by filter, plus transmit on every channel. */
  function TransmittedRGBFT(c: RGBFTColour): (r: Colour)
    ensures forall i :: 0 <= i < kChannels ==> r[i] == c.rgb[i] * c.filter + c.transm
  {
    Scalar(Plus, Scalar(Times, c.rgb, c.filter), c.transm)
  }

  /** Every component of `b` is a valid right operand of `op`. */
  predicate DefinedOnRGBFT(op: Op, b: RGBFTColour) {
    DefinedOn(op, b.rgb) && Defined(op, b.filter) && Defined(op, b.transm)
  }

  /** `a op b`: colour, filter and transmit combined separately. */
  function BinaryRGBFT(op: Op, a: RGBFTColour, b: RGBFTColour): (r: RGBFTColour)
    requires DefinedOnRGBFT(op, b)
  {
    RGBFT(Binary(op, a.rgb, b.rgb), Apply(op, a.filter, b.filter), Apply(op, a.transm, b.transm))
  }

  /** `a op s`: the scalar applied to all five components. */
  function ScalarRGBFT(op: Op, a: RGBFTColour, s: real): (r: RGBFTColour)
    requires Defined(op, s)
  {
    RGBFT(Scalar(op, a.rgb, s), Apply(op, a.filter, s), Apply(op, a.transm, s))
  }

  /** Unary minus on all five components. */
  function NegateRGBFT(a: RGBFTColour): (r: RGBFTColour)
  {
    RGBFT(Negate(a.rgb), -a.filter, -a.transm)
  }

  /** In the `EXPRESS` view every RGBFT operator acts component by component: the filter and
      transmit scalars follow exactly the arithmetic of the colour channels. */
  lemma RGBFTOperatorsComponentwise(op: Op, a: RGBFTColour, b: RGBFTColour, s: real)
    ensures DefinedOnRGBFT(op, b) ==> forall k :: 0 <= k < kExpressSize ==>
              Component(BinaryRGBFT(op, a, b), k) == Apply(op, Component(a, k), Component(b, k))
    ensures Defined(op, s) ==> forall k :: 0 <= k < kExpressSize ==>
              Component(ScalarRGBFT(op, a, s), k) == Apply(op, Component(a, k), s)
    ensures forall k :: 0 <= k < kExpressSize ==> Component(NegateRGBFT(a), k) == -Component(a, k)
  {
  }

  /** The free `s * b` and `s + b` are `b * s` and `b + s`. */
  function ScalarLeftRGBFT(op: Op, s: real, b: RGBFTColour): (r: RGBFTColour)
    requires op == Plus || op == Times
    ensures forall k :: 0 <= k < kExpressSize ==> Component(r, k) == Apply(op, s, Component(b, k))
  {
    ScalarRGBFT(op, b, s)
  }

  /** `ColourDistanceRGBT` on RGBFT colours: colour distance plus transmit difference; the filter
      does not count. */
  function DistanceRGBFT(a: RGBFTColour, b: RGBFTColour): (r: real)
    ensures r >= 0.0
    ensures a.rgb == b.rgb && a.transm == b.transm ==> r == 0.0
  {
    ColourDistanceMetric(a.rgb, b.rgb);
    ColourDistance(a.rgb, b.rgb) + Abs(a.transm - b.transm)
  }

  // ---------------------------------------------------------------- RGBT

  /** The default constructor: black, no transmit. */
  function DefaultRGBT(): (r: RGBTColour)
    ensures IsZero(r.rgb) && r.transm == 0.0
  {
    RGBT(Grey(0.0), 0.0)
  }

  /** `alpha()`: one minus transmit. */
  function Alpha(c: RGBTColour): (r: real)
    ensures r + c.transm == 1.0
  {
    1.0 - c.transm
  }

  /** `IsNearZero(epsilon)`: every channel and the transmit are near zero. */
  function IsNearZeroRGBT(c: RGBTColour, epsilon: real): (r: bool)
    ensures r <==> (forall i :: 0 <= i < kChannels ==> Abs(c.rgb[i]) < epsilon) && Abs(c.transm) < epsilon
  {
    IsNearZero(c.rgb, epsilon) && Abs(c.transm) < epsilon
  }

  /** `Clipped(minc, maxc)`: the colour and the transmit clamped alike. */
  function ClippedRGBT(c: RGBTColour, lo: real, hi: real): (r: RGBTColour)
    ensures lo <= hi ==> lo <= r.transm <= hi
    ensures lo <= c.transm <= hi ==> r.transm == c.transm
    ensures Clamped(c.transm, lo, hi, r.transm)
    ensures forall i :: 0 <= i < kChannels ==> Clamped(c.rgb[i], lo, hi, r.rgb[i])
  {
    RGBT(Clipped(c.rgb, lo, hi), Clip(c.transm, lo, hi))
  }

  /** `TransmittedColour()` of an RGBT colour: a grey of the transmit, whatever the colour. */
  function TransmittedRGBT(c: RGBTColour): (r: Colour)
    ensures forall i :: 0 <= i < kChannels ==> r[i] == c.transm
  {
    Grey(c.transm)
  }

  /** Every component of `b` is a valid right operand of `op`. */
  predicate DefinedOnRGBT(op: Op, b: RGBTColour) {
    DefinedOn(op, b.rgb) && Defined(op, b.transm)
  }

  /** `a op b` on RGBT colours. */
  function BinaryRGBT(op: Op, a: RGBTColour, b: RGBTColour): (r: RGBTColour)
    requires DefinedOnRGBT(op, b)
  {
    RGBT(Binary(op, a.rgb, b.rgb), Apply(op, a.transm, b.transm))
  }

  /** `a op s` on RGBT colours. */
  function ScalarRGBT(op: Op, a: RGBTColour, s: real): (r: RGBTColour)
    requires Defined(op, s)
  {
    RGBT(Scalar(op, a.rgb, s), Apply(op, a.transm, s))
  }

  /** Unary minus on RGBT colours. */
  function NegateRGBT(a: RGBTColour): (r: RGBTColour)
  {
    RGBT(Negate(a.rgb), -a.transm)
  }

  /** `ColourDistanceRGBT` on RGBT colours. */
  function DistanceRGBT(a: RGBTColour, b: RGBTColour): (r: real)
    ensures r >= 0.0
  {
    ColourDistance(a.rgb, b.rgb) + Abs(a.transm - b.transm)
  }

  /** Widening an RGBT colour to RGBFT commutes with every colour-colour operator that keeps a
      zero filter zero (all but division, whose zero filter divisor is undefined), with negation,
      with scaling and with clipping to bounds around zero, and preserves distance. Adding a
      scalar does not commute: the RGBFT operator adds it to the filter as well. */
  lemma RGBTWideningCommutes(op: Op, a: RGBTColour, b: RGBTColour, s: real, lo: real, hi: real)
    requires op != Over
    ensures RGBFTFromRGBT(BinaryRGBT(op, a, b)) == BinaryRGBFT(op, RGBFTFromRGBT(a), RGBFTFromRGBT(b))
    ensures RGBFTFromRGBT(ScalarRGBT(Times, a, s)) == ScalarRGBFT(Times, RGBFTFromRGBT(a), s)
    ensures ScalarRGBFT(Plus, RGBFTFromRGBT(a), s).filter == s
    ensures RGBFTFromRGBT(NegateRGBT(a)) == NegateRGBFT(RGBFTFromRGBT(a))
    ensures lo <= 0.0 <= hi ==> RGBFTFromRGBT(ClippedRGBT(a, lo, hi)) == ClippedRGBFT(RGBFTFromRGBT(a), lo, hi)
    ensures DistanceRGBFT(RGBFTFromRGBT(a), RGBFTFromRGBT(b)) == DistanceRGBT(a, b)
  {
  }

  // ---------------------------------------------------------------- TransColour

  /** The default constructor: black, no filter, no transmit. */
  function DefaultTrans(): (r: TransColour)
    ensures IsZero(r.colour) && r.filter == 0.0 && r.transm == 0.0
  {
    Trans(Grey(0.0), 0.0, 0.0)
  }

  /** `GenericTransColour(const GenericColour&)`: an opaque colour. */
  function TransFromColour(c: Colour): (r: TransColour)
    ensures r.colour == c && TransOpacity(r) == 1.0
  {
    Trans(c, 0.0, 0.0)
  }

  /** `Opacity()`: one minus filter minus transmit, the same rule as the RGBFT class. */
  function TransOpacity(c: TransColour): (r: real)
    ensures r + c.filter + c.transm == 1.0
    ensures r == Opacity(RGBFT(c.colour, c.filter, c.transm))
  {
    1.0 - c.filter - c.transm
  }

  /** `LegacyOpacity()`: the pre-3.7 rule that scales the filter by the brightest channel. */
  function LegacyOpacity(c: TransColour): (r: real)
    ensures MaxOf(c.colour) == 1.0 ==> r == TransOpacity(c)
  {
    1.0 - (c.filter * MaxOf(c.colour) + c.transm)
  }

  /** For a non-negative filter the legacy rule is never more transparent than the current one
      while no channel exceeds 1, and is never more opaque once one does. */
  lemma LegacyOpacityOrder(c: TransColour)
    requires c.filter >= 0.0
    ensures MaxOf(c.colour) <= 1.0 ==> LegacyOpacity(c) >= TransOpacity(c)
    ensures MaxOf(c.colour) >= 1.0 ==> LegacyOpacity(c) <= TransOpacity(c)
  {
    var m := MaxOf(c.colour);
    if m <= 1.0 {
      ScaleBelow(c.filter, m);
    }
    if m >= 1.0 {
      ScaleAbove(c.filter, m);
    }
  }

  /** A non-negative factor times a number at most 1 is at most the factor. */
  lemma ScaleBelow(f: real, m: real)
    requires f >= 0.0 && m <= 1.0
    ensures f * m <= f
  {
  }

  /** A non-negative factor times a number at least 1 is at least the factor. */
  lemma ScaleAbove(f: real, m: real)
    requires f >= 0.0 && m >= 1.0
    ensures f * m >= f
  {
  }

  /** `Clipped(minc, maxc)` on a TransColour. */
  function ClippedTrans(c: TransColour, lo: real, hi: real): (r: TransColour)
    ensures lo <= hi ==> lo <= r.filter <= hi && lo <= r.transm <= hi
    ensures Clamped(c.filter, lo, hi, r.filter) && Clamped(c.transm, lo, hi, r.transm)
    ensures forall i :: 0 <= i < kChannels ==> Clamped(c.colour[i], lo, hi, r.colour[i])
  {
    Trans(Clipped(c.colour, lo, hi), Clip(c.filter, lo, hi), Clip(c.transm, lo, hi))
  }

  /** `TransmittedColour()` on a TransColour: as for RGBFT. */
  function TransmittedTrans(c: TransColour): (r: Colour)
    ensures forall i :: 0 <= i < kChannels ==> r[i] == c.colour[i] * c.filter + c.transm
  {
    Scalar(Plus, Scalar(Times, c.colour, c.filter), c.transm)
  }

  /** `SetFT(f, t)`: replaces filter and transmit, keeps the colour. */
  function SetFT(c: TransColour, f: real, t: real): (r: TransColour)
    ensures r.filter == f && r.transm == t && r.colour == c.colour
  {
    Trans(c.colour, f, t)
  }

  /** `GetFT(f, t)`: reads filter and transmit. */
  function GetFT(c: TransColour): (r: (real, real))
    ensures r == (c.filter, c.transm)
  {
    (c.filter, c.transm)
  }

  /** Every component of `b` is a valid right operand of `op`. */
  predicate DefinedOnTrans(op: Op, b: TransColour) {
    DefinedOn(op, b.colour) && Defined(op, b.filter) && Defined(op, b.transm)
  }

  /** `a op b` on TransColours. */
  function BinaryTrans(op: Op, a: TransColour, b: TransColour): (r: TransColour)
    requires DefinedOnTrans(op, b)
  {
    Trans(Binary(op, a.colour, b.colour), Apply(op, a.filter, b.filter), Apply(op, a.transm, b.transm))
  }

  /** `a op s` on TransColours. */
  function ScalarTrans(op: Op, a: TransColour, s: real): (r: TransColour)
    requires Defined(op, s)
  {
    Trans(Scalar(op, a.colour, s), Apply(op, a.filter, s), Apply(op, a.transm, s))
  }

  /** Unary minus on TransColours. */
  function NegateTrans(a: TransColour): (r: TransColour)
  {
    Trans(Negate(a.colour), -a.filter, -a.transm)
  }

  /** `ToTransColour` / `GenericTransColour(const GenericRGBFTColour&)`: the colour, then `SetFT`. */
  function ToTrans(c: RGBFTColour): (r: TransColour)
    ensures GetFT(r) == (c.filter, c.transm)
    ensures TransOpacity(r) == Opacity(c)
  {
    SetFT(Trans(c.rgb, 0.0, 0.0), c.filter, c.transm)
  }

  /** `ToRGBFTColour` / `GenericRGBFTColour(const GenericTransColour&)`: the colour, then `GetFT`. */
  function ToRGBFT(c: TransColour): (r: RGBFTColour)
    ensures (r.filter, r.transm) == GetFT(c)
    ensures Opacity(r) == TransOpacity(c)
  {
    var ft := GetFT(c);
    RGBFT(FromMathColour(c.colour), ft.0, ft.1)
  }

  /** Setting what `GetFT` read changes nothing, and `GetFT` reads what `SetFT` wrote. */
  lemma FilterTransmitRoundTrip(c: TransColour, f: real, t: real)
    ensures SetFT(c, GetFT(c).0, GetFT(c).1) == c
    ensures GetFT(SetFT(c, f, t)) == (f, t)
  {
  }

  /** The two conversions are inverse to each other. */
  lemma TransConversionsInverse(a: TransColour, c: RGBFTColour)
    ensures ToTrans(ToRGBFT(a)) == a
    ensures ToRGBFT(ToTrans(c)) == c
  {
  }

  /** Converting a TransColour to RGBFT carries every operator across unchanged. */
  lemma TransOperatorsAgree(a: TransColour, b: TransColour, op: Op, s: real)
    ensures DefinedOnTrans(op, b) ==> ToRGBFT(BinaryTrans(op, a, b)) == BinaryRGBFT(op, ToRGBFT(a), ToRGBFT(b))
    ensures Defined(op, s) ==> ToRGBFT(ScalarTrans(op, a, s)) == ScalarRGBFT(op, ToRGBFT(a), s)
    ensures ToRGBFT(NegateTrans(a)) == NegateRGBFT(ToRGBFT(a))
  {
  }

  /** Converting a TransColour to RGBFT commutes with clipping and keeps the transmitted colour. */
  lemma TransClipAndTransmitAgree(a: TransColour, lo: real, hi: real)
    ensures ToRGBFT(ClippedTrans(a, lo, hi)) == ClippedRGBFT(ToRGBFT(a), lo, hi)
    ensures TransmittedTrans(a) == TransmittedRGBFT(ToRGBFT(a))
  {
  }
}
