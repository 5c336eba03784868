/**
 `GenericCompactColour` of colour.h: Greg Ward's RGBE shared-exponent format.
 Each channel is stored as a one-byte mantissa and the whole colour shares one
 biased exponent byte; `RadianceHDRColour` uses bias 128 (the Radiance `.hdr`
 convention) and `PhotonColour` bias 250. Both store `unsigned char` slots.

 The model covers the decoding constructor of `GenericLinearColour`, the
 default constructor, `ComputeExponent` and both encoding constructors, in the
 corrected form (`Encode`, `EncodeDithered`) and, for the scalar-dither one,
 exactly as written (`EncodeAsWritten`, whose loop also overwrites the
 exponent slot).
 */
module CompactColour {
  import opened Numeric
  import opened LinearColour

  /** `std::numeric_limits<unsigned char>::min()` and `max()`. */
  const kSlotMin: int := 0
  const kSlotMax: int := 255

  /** One storage slot: an `unsigned char`. */
  type Slot = x: int | kSlotMin <= x <= kSlotMax

  /** Index of the exponent slot, right after the channel mantissas. */
  const kExp: nat := kChannels
  const kCoefficients: nat := kChannels + 1

  /** The slots the format uses: the mantissas, then the biased exponent. */
  type Data = d: seq<Slot> | |d| == kCoefficients witness [0, 0, 0, 0]

  /** Exponent biases of the two instances. */
  const kRadianceBias: nat := 128
  const kPhotonBias: nat := 250

  /** The magnitude at or below which a colour is stored as black (`1.0e-32`). */
  const kThreshold: real := 1.0 / 100000000000000000000000000000000.0

  const kTwo32: int := 0x1_0000_0000

  /** The largest shift `ldexp` receives as a positive `int`. */
  const kMaxShift: int := 0x7FFF_FFFF

  /** `int + unsigned int` in C++: the sum taken modulo 2^32. */
  function Unsigned32(x: int): (r: int)
    ensures 0 <= r < kTwo32
    ensures 0 <= x < kTwo32 ==> r == x
  {
    x % kTwo32
  }

  /** An unsigned 32-bit value passed where an `int` is expected. */
  function Signed32(x: int): int
    requires 0 <= x < kTwo32
  {
    if x < 0x8000_0000 then x else x - kTwo32
  }

  /** `clipToType<unsigned char>`: saturation to the slot range. */
  function ClipToSlot(x: int): Slot
  {
    if x < kSlotMin then kSlotMin else if x > kSlotMax then kSlotMax else x
  }

  /** The value of one mantissa step for a biased exponent: `ldexp(1.0, exp - (bias + 8))`. */
  function Unit(biased: int, bias: nat): (r: real)
    ensures r > 0.0
  {
    Pow2(biased - (bias + 8))
  }

  /** The all-zero slots. */
  const kZeroData: Data := [0, 0, 0, 0]

  /** The default constructor: zero mantissas and the minimum exponent. */
  function DefaultCompact(): (d: Data)
    ensures forall bias: nat :: IsZero(Decode(d, bias))
  {
    kZeroData
  }

  /** `GenericLinearColour(const GenericCompactColour&)`: an exponent above the slot minimum
      scales every mantissa by the same power of two; the minimum exponent is black
      whatever the mantissas hold. */
  function Decode(d: Data, bias: nat): (r: Colour)
    ensures d[kExp] == kSlotMin ==> IsZero(r)
    ensures forall i :: 0 <= i < kChannels ==> r[i] >= 0.0
    ensures forall i :: 0 <= i < kChannels ==> (r[i] == 0.0 <==> d[i] == 0 || d[kExp] == kSlotMin)
  {
    if d[kExp] > kSlotMin then
      var u := Unit(d[kExp], bias);
      seq(kChannels, i requires 0 <= i < kChannels => ScaledSlot(d[i], u))
    else
      Grey(0.0)
  }

  /** A slot value times a positive unit: never negative, and zero only for a zero slot. */
  function ScaledSlot(k: Slot, u: real): (r: real)
    requires u > 0.0
    ensures r >= 0.0 && (r == 0.0 <==> k == 0)
  {
    NonNegativeProduct(k as real, u);
    Mul(k as real, u)
  }

  /** A product of two reals, named so that facts about it carry over between equal factors. */
  function Mul(a: real, b: real): real
  {
    a * b
  }

  lemma NonNegativeProduct(a: real, u: real)
    requires a >= 0.0 && u > 0.0
    ensures a * u >= 0.0 && (a * u == 0.0 <==> a == 0.0)
  {
  }

  /** What `ComputeExponent` returns: whether the colour is non-black, the biased exponent
      it stores, and the factor that turns a channel into its mantissa. */
  datatype Exponent = Exponent(ok: bool, biased: Slot, scale: real)

  /** `ComputeExponent` for unsigned storage: the binary exponent of the brightest channel
      plus the bias, computed in unsigned arithmetic and saturated to a slot; when it
      saturates the mantissa is rescaled by the lost powers of two. */
  function ComputeExponent(c: Colour, bias: nat): (r: Exponent)
    ensures !r.ok <==> MaxOf(c) <= kThreshold
    ensures !r.ok ==> r.biased == kSlotMin
    ensures r.ok ==> MaxOf(c) > 0.0
    ensures r.ok && 0 <= Frexp(MaxOf(c)).1 + bias <= kSlotMax ==>
              r.biased == Frexp(MaxOf(c)).1 + bias &&
              r.scale == ScaleOf(Frexp(MaxOf(c)).0, MaxOf(c))
    ensures r.ok && kSlotMax < Frexp(MaxOf(c)).1 + bias < kTwo32 ==> r.biased == kSlotMax
    ensures r.ok && kSlotMax < Frexp(MaxOf(c)).1 + bias <= kSlotMax + kMaxShift ==>
              r.scale == ScaleOf(Mul(Frexp(MaxOf(c)).0, Pow2(Frexp(MaxOf(c)).1 + bias - kSlotMax)), MaxOf(c))
  {
    var maxChannel := MaxOf(c);
    if maxChannel <= kThreshold then
      Exponent(false, kSlotMin, 0.0)
    else
      var f := Frexp(maxChannel);
      var sum := Unsigned32(f.1 + bias);
      var biased := ClipToSlot(sum);
      var shift := Signed32(Unsigned32(f.1 + bias - biased));
      assert kSlotMax < f.1 + bias <= kSlotMax + kMaxShift ==>
               biased != sum && shift == f.1 + bias - kSlotMax;
      var mantissa := if biased != sum then Mul(f.0, Pow2(shift)) else f.0;
      Exponent(true, biased, ScaleOf(mantissa, maxChannel))
  }

  /** The factor that maps a channel onto mantissa steps: `(max + 1) * mantissa / maxChannel`,
      with `max + 1` = 256. */
  function ScaleOf(mantissa: real, maxChannel: real): real
    requires maxChannel > 0.0
  {
    (kSlotMax as real + 1.0) * mantissa / maxChannel
  }

  /** One mantissa slot: `clipToType(floor(channel * scale + 0.5 + dither))`. */
  function Mantissa(x: real, scale: real, dither: real): Slot
  {
    ClipToSlot((Mul(x, scale) + 0.5 + dither).Floor)
  }

  /** The encoding constructor with a scalar dither, its loops bounded by the channel count
      so that the exponent `ComputeExponent` stored is kept. */
  function Encode(c: Colour, bias: nat, dither: real): (d: Data)
    ensures d[kExp] == ComputeExponent(c, bias).biased
    ensures MaxOf(c) <= kThreshold ==> d == kZeroData
    ensures MaxOf(c) > kThreshold ==>
              forall i :: 0 <= i < kChannels ==> d[i] == Mantissa(c[i], ComputeExponent(c, bias).scale, dither)
  {
    var x := ComputeExponent(c, bias);
    if x.ok then
      seq(kCoefficients, i requires 0 <= i < kCoefficients =>
        if i < kChannels then Mantissa(c[i], x.scale, dither) else x.biased)
    else
      kZeroData
  }

  /** The encoding constructor with a scalar dither exactly as written: its loops run to
      `i <= kChannels`, so they read one channel past the colour (`stray`, whatever lies there)
      and store its mantissa in the exponent slot. */
  function EncodeAsWritten(c: Colour, bias: nat, dither: real, stray: real): (d: Data)
    ensures MaxOf(c) <= kThreshold ==> d == kZeroData
    ensures forall i :: 0 <= i < kChannels ==> d[i] == Encode(c, bias, dither)[i]
    ensures MaxOf(c) > kThreshold ==> d[kExp] == Mantissa(stray, ComputeExponent(c, bias).scale, dither)
  {
    var x := ComputeExponent(c, bias);
    if x.ok then
      seq(kCoefficients, i requires 0 <= i < kCoefficients =>
        if i < kChannels then Mantissa(c[i], x.scale, dither) else Mantissa(stray, x.scale, dither))
    else
      kZeroData
  }

  /** The encoding constructor with a per-channel dither, with its exponent slot named
      `kExp` and its loops bounded by the channel count. */
  function EncodeDithered(c: Colour, bias: nat, dither: Colour): (d: Data)
    ensures d[kExp] == ComputeExponent(c, bias).biased
    ensures MaxOf(c) <= kThreshold ==> d == kZeroData
    ensures MaxOf(c) > kThreshold ==>
              forall i :: 0 <= i < kChannels ==> d[i] == Mantissa(c[i], ComputeExponent(c, bias).scale, dither[i])
  {
    var x := ComputeExponent(c, bias);
    if x.ok then
      seq(kCoefficients, i requires 0 <= i < kCoefficients =>
        if i < kChannels then Mantissa(c[i], x.scale, dither[i]) else x.biased)
    else
      kZeroData
  }

  /** A grey per-channel dither is the scalar dither. */
  lemma DitheredWithGreyIsScalar(c: Colour, bias: nat, t: real)
    ensures EncodeDithered(c, bias, Grey(t)) == Encode(c, bias, t)
  {
  }

  /** A colour at or below the threshold is stored as black, by every encoder, and
      decodes to black. */
  lemma DarkEncodesToBlack(c: Colour, bias: nat, t: real, stray: real, dither: Colour)
    requires MaxOf(c) <= kThreshold
    ensures Encode(c, bias, t) == kZeroData && IsZero(Decode(Encode(c, bias, t), bias))
    ensures EncodeAsWritten(c, bias, t, stray) == kZeroData
    ensures EncodeDithered(c, bias, dither) == kZeroData
  {
  }

  // ---------------------------------------------------------------- powers of two near the threshold

  /** The threshold lies between 2^-107 and 2^-106. */
  lemma ThresholdBetweenPowers()
    ensures Pow2(-107) < kThreshold < Pow2(-106)
  {
    assert Pow2(0) == 1.0;
    Pow2Plus8(-8);
    Pow2Plus8(-16);
    Pow2Plus8(-24);
    Pow2Plus8(-32);
    Pow2Plus8(-40);
    Pow2Plus8(-48);
    Pow2Plus8(-56);
    Pow2Plus8(-64);
    Pow2Plus8(-72);
    Pow2Plus8(-80);
    Pow2Plus8(-88);
    Pow2Plus8(-96);
    Pow2Plus8(-104);
    Pow2Succ(-105);
    Pow2Succ(-106);
    Pow2Succ(-107);
    assert Pow2(-106) == 1.0 / 81129638414606681695789005144064.0;
    assert Pow2(-107) == 1.0 / 162259276829213363391578010288128.0;
  }

  /** Any magnitude above the threshold has a binary exponent of at least -106, so for both
      instances (bias 128 and 250; any bias from 107 up) `exponent + kBias` is positive and the
      unsigned addition never wraps. */
  lemma NoUnsignedWrap(c: Colour, bias: nat)
    requires bias >= 107
    requires MaxOf(c) > kThreshold
    ensures Frexp(MaxOf(c)).1 >= -106
    ensures 1 <= Frexp(MaxOf(c)).1 + bias
  {
    var x := MaxOf(c);
    FrexpBracket(x);
    ThresholdBetweenPowers();
    var e := Frexp(x).1;
    if e < -106 {
      if e < -107 {
        Pow2Monotonic(e, -107);
      }
      assert false;
    }
  }

  // ---------------------------------------------------------------- the scale factor inverts the unit

  /** `256 * m / (m * p)` times `p / 256` is one. */
  lemma ScaleTimesUnit(m: real, p: real, x: real, u: real)
    requires m > 0.0 && p > 0.0 && x == m * p && p == 256.0 * u
    ensures Mul(ScaleOf(m, x), u) == 1.0
  {
    assert ScaleOf(m, x) == 256.0 / p;
  }

  /** `256 * m / x` times a y with 0 <= y <= x stays below 256 when m < 1. */
  lemma ScaledBelow256(y: real, x: real, m: real)
    requires 0.0 <= y <= x && 0.0 < x && 0.0 < m < 1.0
    ensures 0.0 <= Mul(y, ScaleOf(m, x)) < 256.0
  {
    var s := ScaleOf(m, x);
    assert s == 256.0 * m / x;
    assert s >= 0.0 by { PositiveQuotient(256.0 * m, x); }
    MulMonotone(y, x, s);
    TimesQuotient(x, 256.0 * m);
    assert x * s == 256.0 * m;
    assert y * s <= 256.0 * m;
  }

  lemma PositiveQuotient(a: real, x: real)
    requires a > 0.0 && x > 0.0
    ensures a / x > 0.0
  {
  }

  lemma MulMonotone(y: real, x: real, s: real)
    requires 0.0 <= y <= x && s >= 0.0
    ensures 0.0 <= y * s <= x * s
  {
  }

  lemma TimesQuotient(x: real, a: real)
    requires x != 0.0
    ensures x * (a / x) == a
  {
  }

  /** For x = m * 2^e as `frexp` splits it, the factor `256 * m / x` inverts the unit
      2^(e-8) and maps [0, x] into [0, 256). */
  lemma ScaleCore(x: real, y: real)
    requires x > 0.0 && 0.0 <= y <= x
    ensures Mul(ScaleOf(Frexp(x).0, x), Pow2(Frexp(x).1 - 8)) == 1.0
    ensures 0.0 <= Mul(y, ScaleOf(Frexp(x).0, x)) < 256.0
  {
    Pow2Plus8(Frexp(x).1 - 8);
    ScaleTimesUnit(Frexp(x).0, Pow2(Frexp(x).1), x, Pow2(Frexp(x).1 - 8));
    ScaledBelow256(y, x, Frexp(x).0);
  }

  /** The exponent `ComputeExponent` stores when it needs no clamping. */
  lemma UnclampedExponent(c: Colour, bias: nat)
    requires MaxOf(c) > kThreshold
    requires 0 <= Frexp(MaxOf(c)).1 + bias <= kSlotMax
    ensures ComputeExponent(c, bias).ok
    ensures ComputeExponent(c, bias).biased == Frexp(MaxOf(c)).1 + bias
  {
  }

  /** The scale factor and the decoder's unit when the exponent needs no clamping. */
  lemma UnclampedScale(c: Colour, bias: nat)
    requires MaxOf(c) > kThreshold
    requires 0 <= Frexp(MaxOf(c)).1 + bias <= kSlotMax
    ensures ComputeExponent(c, bias).scale == ScaleOf(Frexp(MaxOf(c)).0, MaxOf(c))
    ensures Unit(ComputeExponent(c, bias).biased, bias) == Pow2(Frexp(MaxOf(c)).1 - 8)
  {
  }

  /** Without saturation of the exponent, the encoder's scale factor is the inverse of the
      decoder's unit, and every non-negative channel scales into [0, 256). */
  lemma ScaleInvertsUnit(c: Colour, bias: nat, i: nat)
    requires MaxOf(c) > kThreshold
    requires 0 <= Frexp(MaxOf(c)).1 + bias <= kSlotMax
    requires i < kChannels && c[i] >= 0.0
    ensures Mul(ComputeExponent(c, bias).scale, Unit(ComputeExponent(c, bias).biased, bias)) == 1.0
    ensures 0.0 <= Mul(c[i], ComputeExponent(c, bias).scale) < 256.0
  {
    UnclampedScale(c, bias);
    ScaleCore(MaxOf(c), c[i]);
  }

  // ---------------------------------------------------------------- encode then decode

  lemma ProductCancels(x: real, s: real, u: real)
    requires s * u == 1.0
    ensures (x * s) * u == x
  {
    assert (x * s) * u == x * (s * u);
  }

  lemma BoundsTimesUnit(k: real, z: real, u: real)
    requires u > 0.0 && k <= z < k + 1.0
    ensures k * u <= z * u < k * u + u
  {
  }

  lemma StrictTimesUnit(y: real, u: real)
    requires y < 256.0 && u > 0.0
    ensures y * u < 256.0 * u
  {
  }

  lemma DistributeUnit(y: real, u: real)
    ensures (y + 0.5) * u == y * u + u / 2.0
  {
  }

  /** Rounding `x * s` to the nearest integer, saturating at 255 and scaling back by the
      unit `u = 1/s` is off by at most one unit, and by at most half a unit when the rounded
      value did not saturate. */
  lemma MantissaError(x: real, s: real, u: real, k: int)
    requires Mul(s, u) == 1.0 && u > 0.0
    requires 0.0 <= Mul(x, s) < 256.0
    requires k == (Mul(x, s) + 0.5).Floor
    ensures Abs(ScaledSlot(ClipToSlot(k), u) - x) <= u
    ensures k <= kSlotMax ==> Abs(ScaledSlot(ClipToSlot(k), u) - x) <= u / 2.0
  {
    var y := x * s;
    ProductCancels(x, s, u);
    assert 0 <= k <= 256;
    BoundsTimesUnit(k as real, y + 0.5, u);
    DistributeUnit(y, u);
    StrictTimesUnit(y, u);
    if k > kSlotMax {
      assert ClipToSlot(k) as real * u == 256.0 * u - u;
    }
  }

  /** Encoding then decoding a colour changes each non-negative channel by at most one
      mantissa step 2^(e-8) of the shared exponent e, hence by at most 1/128 of the
      brightest channel, and by at most half a step when the channel's mantissa did not
      saturate at 255. This holds whenever the exponent needs no clamping. */
  lemma EncodeDecodeError(c: Colour, bias: nat, i: nat)
    requires MaxOf(c) > kThreshold
    requires 1 <= Frexp(MaxOf(c)).1 + bias <= kSlotMax
    requires i < kChannels && c[i] >= 0.0
    ensures Abs(Decode(Encode(c, bias, 0.0), bias)[i] - c[i]) <= Pow2(Frexp(MaxOf(c)).1 - 8)
    ensures Abs(Decode(Encode(c, bias, 0.0), bias)[i] - c[i]) <= MaxOf(c) / 128.0
    ensures (Mul(c[i], ComputeExponent(c, bias).scale) + 0.5).Floor <= kSlotMax ==>
              Abs(Decode(Encode(c, bias, 0.0), bias)[i] - c[i]) <= Pow2(Frexp(MaxOf(c)).1 - 9)
  {
    var r := ComputeExponent(c, bias);
    var e := Frexp(MaxOf(c)).1;
    UnclampedExponent(c, bias);
    UnclampedScale(c, bias);
    ScaleInvertsUnit(c, bias, i);
    var u := Unit(r.biased, bias);
    var k := (Mul(c[i], r.scale) + 0.5).Floor;
    MantissaError(c[i], r.scale, u, k);
    var d := Encode(c, bias, 0.0);
    assert d[i] == ClipToSlot(k);
    assert Decode(d, bias)[i] == ScaledSlot(d[i], u);
    FrexpBracket(MaxOf(c));
    Pow2Plus8(e - 8);
    Pow2Succ(e - 1);
    Pow2Succ(e - 9);
  }

  /** A difference of at most one, scaled by a positive unit, is at most one unit. */
  lemma WithinOneUnit(w: real, u: real)
    requires u > 0.0 && -1.0 <= w <= 1.0
    ensures Abs(w * u) <= u
  {
    if w >= 0.0 {
      MulMonotone(w, 1.0, u);
    } else {
      var m := -w;
      MulMonotone(m, 1.0, u);
      assert 0.0 <= m * u <= u;
      assert w * u == -(m * u);
      assert Abs(w * u) == m * u || Abs(w * u) == w * u;
    }
  }

  /** With a dither in [-0.5, 0.5], rounding `x * s`, saturating at 255 and scaling back by
      the unit `u = 1/s` is off by at most one unit. */
  lemma DitheredMantissaError(x: real, s: real, u: real, t: real, k: int)
    requires Mul(s, u) == 1.0 && u > 0.0
    requires 0.0 <= Mul(x, s) < 256.0
    requires -0.5 <= t <= 0.5
    requires k == (Mul(x, s) + 0.5 + t).Floor
    ensures Abs(ScaledSlot(ClipToSlot(k), u) - x) <= u
  {
    var y := x * s;
    ProductCancels(x, s, u);
    assert y - 1.0 < k as real <= y + 1.0;
    assert 0 <= k <= 256;
    var v := ClipToSlot(k) as real;
    assert y - 1.0 <= v <= y + 1.0;
    WithinOneUnit(v - y, u);
    assert ScaledSlot(ClipToSlot(k), u) - x == (v - y) * u;
  }

  /** The per-channel-dither encoder keeps the one-step error bound of the scalar one as long
      as each dither lies in [-0.5, 0.5]. */
  lemma DitheredDecodeError(c: Colour, bias: nat, dither: Colour, i: nat)
    requires MaxOf(c) > kThreshold
    requires 1 <= Frexp(MaxOf(c)).1 + bias <= kSlotMax
    requires i < kChannels && c[i] >= 0.0
    requires -0.5 <= dither[i] <= 0.5
    ensures Abs(Decode(EncodeDithered(c, bias, dither), bias)[i] - c[i]) <= Pow2(Frexp(MaxOf(c)).1 - 8)
  {
    var r := ComputeExponent(c, bias);
    UnclampedExponent(c, bias);
    UnclampedScale(c, bias);
    ScaleInvertsUnit(c, bias, i);
    var u := Unit(r.biased, bias);
    var k := (Mul(c[i], r.scale) + 0.5 + dither[i]).Floor;
    DitheredMantissaError(c[i], r.scale, u, dither[i], k);
    var d := EncodeDithered(c, bias, dither);
    assert d[i] == ClipToSlot(k);
    assert Decode(d, bias)[i] == ScaledSlot(d[i], u);
  }

  /** A non-positive channel is stored with a zero mantissa and comes back as zero. */
  lemma NonPositiveChannelDecodesToZero(c: Colour, bias: nat, i: nat)
    requires MaxOf(c) > kThreshold
    requires 1 <= Frexp(MaxOf(c)).1 + bias <= kSlotMax
    requires i < kChannels && c[i] <= 0.0
    ensures Encode(c, bias, 0.0)[i] == 0
    ensures Decode(Encode(c, bias, 0.0), bias)[i] == 0.0
  {
    UnclampedExponent(c, bias);
    UnclampedScale(c, bias);
    var s := ComputeExponent(c, bias).scale;
    assert s > 0.0 by { PositiveQuotient(256.0 * Frexp(MaxOf(c)).0, MaxOf(c)); }
    NonPositiveProduct(c[i], s);
  }

  lemma NonPositiveProduct(x: real, s: real)
    requires x <= 0.0 && s > 0.0
    ensures Mul(x, s) <= 0.0
  {
  }

  // ---------------------------------------------------------------- decode then encode

  /** The largest channel mantissa of stored slots. */
  function MaxMantissa(d: Data): (r: Slot)
    ensures forall i :: 0 <= i < kChannels ==> d[i] <= r
    ensures exists i :: 0 <= i < kChannels && d[i] == r
  {
    if d[0] >= d[1] && d[0] >= d[2] then d[0] else if d[1] >= d[2] then d[1] else d[2]
  }

  lemma ScaledSlotMonotone(a: Slot, b: Slot, u: real)
    requires a <= b && u > 0.0
    ensures ScaledSlot(a, u) <= ScaledSlot(b, u)
  {
  }

  /** The brightest decoded channel is the largest mantissa times the unit. */
  lemma DecodedMax(d: Data, bias: nat)
    requires d[kExp] > kSlotMin
    ensures MaxOf(Decode(d, bias)) == ScaledSlot(MaxMantissa(d), Unit(d[kExp], bias))
  {
    var c := Decode(d, bias);
    var u := Unit(d[kExp], bias);
    var x := MaxOf(c);
    var j :| 0 <= j < kChannels && c[j] == x;
    var k :| 0 <= k < kChannels && d[k] == MaxMantissa(d);
    ScaledSlotMonotone(d[j], MaxMantissa(d), u);
    assert c[k] == ScaledSlot(MaxMantissa(d), u);
  }

  lemma SplitProduct(k: real, u: real, p: real)
    requires p == 256.0 * u
    ensures Mul(k, u) == (k / 256.0) * p
  {
  }

  lemma HalfStepsBelow(k: real, u: real, p: real)
    requires 128.0 <= k && u > 0.0 && p == 2.0 * (128.0 * u)
    ensures p / 2.0 <= Mul(k, u)
  {
  }

  /** k steps of 2^(e-8), for k in [128, 256), split under `frexp` into k/256 and e. */
  lemma FrexpOfSteps(k: real, u: real, e: int)
    requires 128.0 <= k < 256.0 && u == Pow2(e - 8)
    ensures Frexp(Mul(k, u)) == (k / 256.0, e)
    ensures Pow2(e - 1) <= Mul(k, u)
  {
    Pow2Plus8(e - 8);
    SplitProduct(k, u, Pow2(e));
    FrexpUnique(Mul(k, u), k / 256.0, e);
    Pow2Succ(e - 1);
    HalfStepsBelow(k, u, Pow2(e));
  }

  /** Stored slots whose largest mantissa is at least 128 decode to a colour whose `frexp`
      split is that mantissa over 256 and the unbiased exponent; the colour is above the
      black threshold when the unbiased exponent is at least -105. */
  lemma DecodedFrexp(d: Data, bias: nat)
    requires d[kExp] > kSlotMin && d[kExp] + 105 >= bias
    requires MaxMantissa(d) >= 128
    ensures MaxOf(Decode(d, bias)) > kThreshold
    ensures Frexp(MaxOf(Decode(d, bias))) == (MaxMantissa(d) as real / 256.0, d[kExp] - bias)
  {
    var e := d[kExp] - bias;
    DecodedMax(d, bias);
    FrexpOfSteps(MaxMantissa(d) as real, Unit(d[kExp], bias), e);
    ThresholdBetweenPowers();
    if e - 1 > -106 {
      Pow2Monotonic(-106, e - 1);
    }
  }

  /** A mantissa k decoded with unit u and re-encoded with the scale of a brightest mantissa
      M comes back as exactly k. */
  lemma ChannelExact(k: Slot, m: Slot, u: real)
    requires m > 0 && u > 0.0
    ensures Mul(ScaledSlot(k, u), ScaleOf(m as real / 256.0, ScaledSlot(m, u))) == k as real
  {
    var s := ScaleOf(m as real / 256.0, ScaledSlot(m, u));
    assert s == 256.0 * (m as real / 256.0) / (m as real * u);
    assert s == 1.0 / u;
  }

  /** Decoding then encoding (without dither) gives back the stored slots, when the largest
      mantissa is normalised (at least 128) and the exponent is in the range the encoder
      produces without clamping or flushing to black. */
  lemma DecodeEncodeRoundTrip(d: Data, bias: nat)
    requires d[kExp] > kSlotMin && d[kExp] + 105 >= bias
    requires MaxMantissa(d) >= 128
    ensures Encode(Decode(d, bias), bias, 0.0) == d
  {
    var c := Decode(d, bias);
    var u := Unit(d[kExp], bias);
    var m := MaxMantissa(d);
    DecodedFrexp(d, bias);
    DecodedMax(d, bias);
    UnclampedExponent(c, bias);
    UnclampedScale(c, bias);
    var s := ComputeExponent(c, bias).scale;
    assert s == ScaleOf(m as real / 256.0, ScaledSlot(m, u));
    var r := Encode(c, bias, 0.0);
    forall i | 0 <= i < kChannels
      ensures r[i] == d[i]
    {
      ChannelExact(d[i], m, u);
      assert c[i] == ScaledSlot(d[i], u);
      assert Mul(c[i], s) == d[i] as real;
    }
    assert r[kExp] == d[kExp];
  }

  // ---------------------------------------------------------------- the encoder's loop bound as written

  /** When the value past the last channel is zero, the as-written encoder stores a zero
      exponent slot, so every colour bright enough to be stored at all decodes to black. */
  lemma AsWrittenZeroStrayIsBlack(c: Colour, bias: nat, dither: real)
    requires MaxOf(c) > kThreshold
    requires -0.5 <= dither < 0.5
    ensures EncodeAsWritten(c, bias, dither, 0.0)[kExp] == kSlotMin
    ensures IsZero(Decode(EncodeAsWritten(c, bias, dither, 0.0), bias))
  {
    assert Mul(0.0, ComputeExponent(c, bias).scale) == 0.0;
  }

  /** The colour (1, 0.5, 0.25) is stored by the corrected encoder as mantissas 128, 64, 32
      with exponent slot 129, and decodes exactly. */
  lemma RadianceExample()
    ensures Encode([1.0, 0.5, 0.25], kRadianceBias, 0.0) == [128, 64, 32, 129]
    ensures Decode(Encode([1.0, 0.5, 0.25], kRadianceBias, 0.0), kRadianceBias) == [1.0, 0.5, 0.25]
  {
    var d: Data := [128, 64, 32, 129];
    Pow2Plus8(-8);
    Pow2Succ(-8);
    assert Unit(129, kRadianceBias) == 1.0 / 128.0;
    assert Decode(d, kRadianceBias) == [1.0, 0.5, 0.25];
    DecodeEncodeRoundTrip(d, kRadianceBias);
  }

  /** The same colour through the as-written encoder, which reads a zero past the last
      channel, decodes to black. */
  lemma EncoderOverwritesExponent()
    ensures Decode(Encode([1.0, 0.5, 0.25], kRadianceBias, 0.0), kRadianceBias) == [1.0, 0.5, 0.25]
    ensures Decode(EncodeAsWritten([1.0, 0.5, 0.25], kRadianceBias, 0.0, 0.0), kRadianceBias) == [0.0, 0.0, 0.0]
  {
    RadianceExample();
    ThresholdBetweenPowers();
    Pow2AtLeastOne(0);
    AsWrittenZeroStrayIsBlack([1.0, 0.5, 0.25], kRadianceBias, 0.0);
  }
}
