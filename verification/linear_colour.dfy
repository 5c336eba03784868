/**
 The linear colour vector behind every colour class of colour.h
 (`GenericLinearColour`): a fixed number of real channels, the channelwise
 arithmetic operators and their compound-assignment forms, clipping, and the
 reductions `SumAbs`, `Max`, `MaxAbs`, `Min`, `IsZero` and `IsNearZero`.
 */
module LinearColour {
  import opened Numeric

  /** Channels per colour; the RGB model and the internal model both have three in this build. */
  const kChannels: nat := 3

  /** A colour: exactly `kChannels` real channel values. */
  type Colour = c: seq<real> | |c| == kChannels witness [0.0, 0.0, 0.0]

  /** The four arithmetic operators every colour class lifts channel by channel. */
  datatype Op = Plus | Minus | Times | Over

  /** `x op y` has a real value; division by zero is excluded. */
  predicate Defined(op: Op, y: real) {
    op != Over || y != 0.0
  }

  /** `x op y` on one channel value. */
  function Apply(op: Op, x: real, y: real): real
    requires Defined(op, y)
  {
    match op
    case Plus => x + y
    case Minus => x - y
    case Times => x * y
    case Over => x / y
  }

  /** Every channel of `b` is a valid right operand of `op`. */
  predicate DefinedOn(op: Op, b: Colour) {
    forall i :: 0 <= i < kChannels ==> Defined(op, b[i])
  }

  /** The grey colour: every channel equal to `g` (`GenericLinearColour(grey)`, `Set`;
      the default constructor and `Clear` are `Grey(0.0)`). */
  function Grey(g: real): (r: Colour)
    ensures forall i :: 0 <= i < kChannels ==> r[i] == g
  {
    seq(kChannels, _ => g)
  }

  /** `a op b` for two colours. */
  function Binary(op: Op, a: Colour, b: Colour): (r: Colour)
    requires DefinedOn(op, b)
    ensures forall i :: 0 <= i < kChannels ==> r[i] == Apply(op, a[i], b[i])
  {
    seq(kChannels, i requires 0 <= i < kChannels => Apply(op, a[i], b[i]))
  }

  /** `a op s` for a colour and a scalar. */
  function Scalar(op: Op, a: Colour, s: real): (r: Colour)
    requires Defined(op, s)
    ensures forall i :: 0 <= i < kChannels ==> r[i] == Apply(op, a[i], s)
  {
    seq(kChannels, i requires 0 <= i < kChannels => Apply(op, a[i], s))
  }

  /** The free `s op b` with the scalar on the left: `*` and `+` swap their
      operands, `/` and `-` first widen the scalar to a grey colour. */
  function ScalarLeft(op: Op, s: real, b: Colour): (r: Colour)
    requires op == Over ==> DefinedOn(op, b)
    ensures forall i :: 0 <= i < kChannels ==> r[i] == Apply(op, s, b[i])
  {
    match op
    case Plus => Scalar(Plus, b, s)
    case Times => Scalar(Times, b, s)
    case Minus => Binary(Minus, Grey(s), b)
    case Over => Binary(Over, Grey(s), b)
  }

  /** Unary `-a`. */
  function Negate(a: Colour): (r: Colour)
    ensures forall i :: 0 <= i < kChannels ==> r[i] == -a[i]
  {
    seq(kChannels, i requires 0 <= i < kChannels => -a[i])
  }

  /** `a op= b`: the compound form updates the receiver in place, one channel at a time,
      and ends with the same colour as the plain operator. */
  method CompoundAssign(op: Op, a: Colour, b: Colour) returns (r: Colour)
    requires DefinedOn(op, b)
    ensures r == Binary(op, a, b)
  {
    var c := a;
    var i := 0;
    while i < kChannels
      invariant 0 <= i <= kChannels && |c| == kChannels
      invariant forall j :: 0 <= j < i ==> c[j] == Apply(op, a[j], b[j])
      invariant forall j :: i <= j < kChannels ==> c[j] == a[j]
    {
      c := c[i := Apply(op, c[i], b[i])];
      i := i + 1;
    }
    r := c;
  }

  /** `a op= s` with a scalar right operand. */
  method CompoundAssignScalar(op: Op, a: Colour, s: real) returns (r: Colour)
    requires Defined(op, s)
    ensures r == Scalar(op, a, s)
  {
    var c := a;
    var i := 0;
    while i < kChannels
      invariant 0 <= i <= kChannels && |c| == kChannels
      invariant forall j :: 0 <= j < i ==> c[j] == Apply(op, a[j], s)
      invariant forall j :: i <= j < kChannels ==> c[j] == a[j]
    {
      c := c[i := Apply(op, c[i], s)];
      i := i + 1;
    }
    r := c;
  }

  /** A colour-scalar operator is the colour-colour operator against the grey colour of the scalar. */
  lemma ScalarIsGreyBinary(op: Op, a: Colour, s: real)
    requires Defined(op, s)
    ensures Scalar(op, a, s) == Binary(op, a, Grey(s))
  {
  }

  /** The free `s * b` and `s + b` agree with `b * s` and `b + s` read with the scalar on the left. */
  lemma ScalarLeftCommutes(s: real, b: Colour)
    ensures ScalarLeft(Times, s, b) == Scalar(Times, b, s)
    ensures ScalarLeft(Plus, s, b) == Scalar(Plus, b, s)
    ensures forall i :: 0 <= i < kChannels ==> ScalarLeft(Times, s, b)[i] == s * b[i]
  {
  }

  /** Adding then subtracting the same colour gives the original back. */
  lemma AddSubInverse(a: Colour, b: Colour)
    ensures Binary(Minus, Binary(Plus, a, b), b) == a
  {
  }

  /** Multiplying by a nonzero scalar then dividing by it gives the original back. */
  lemma MulDivInverse(a: Colour, s: real)
    requires s != 0.0
    ensures Scalar(Over, Scalar(Times, a, s), s) == a
  {
    forall i | 0 <= i < kChannels
      ensures Scalar(Over, Scalar(Times, a, s), s)[i] == a[i]
    {
      MulDivCancel(a[i], s);
    }
  }

  /** Negation is an involution and agrees with scaling by -1 and with `0 - a`. */
  lemma NegateInvolution(a: Colour)
    ensures Negate(Negate(a)) == a
    ensures Negate(a) == Scalar(Times, a, -1.0)
    ensures Negate(a) == ScalarLeft(Minus, 0.0, a)
  {
  }

  /** `clip` applied to every channel (`Clip`, `Clipped`). */
  function Clipped(c: Colour, lo: real, hi: real): (r: Colour)
    ensures lo <= hi ==> forall i :: 0 <= i < kChannels ==> lo <= r[i] <= hi
    ensures forall i :: 0 <= i < kChannels && lo <= c[i] <= hi ==> r[i] == c[i]
    ensures forall i :: 0 <= i < kChannels ==> Clamped(c[i], lo, hi, r[i])
  {
    seq(kChannels, i requires 0 <= i < kChannels => Clip(c[i], lo, hi))
  }

  /** `min(channel, maxc)` on every channel (`ClipUpper`, `ClippedUpper`). */
  function ClippedUpper(c: Colour, hi: real): (r: Colour)
    ensures forall i :: 0 <= i < kChannels ==> r[i] <= hi && r[i] <= c[i]
    ensures forall i :: 0 <= i < kChannels ==> (r[i] == c[i] <==> c[i] <= hi)
    ensures forall i :: 0 <= i < kChannels && c[i] > hi ==> r[i] == hi
  {
    seq(kChannels, i requires 0 <= i < kChannels => Min2(c[i], hi))
  }

  /** `max(channel, minc)` on every channel (`ClipLower`, `ClippedLower`). */
  function ClippedLower(c: Colour, lo: real): (r: Colour)
    ensures forall i :: 0 <= i < kChannels ==> r[i] >= lo && r[i] >= c[i]
    ensures forall i :: 0 <= i < kChannels ==> (r[i] == c[i] <==> c[i] >= lo)
    ensures forall i :: 0 <= i < kChannels && c[i] < lo ==> r[i] == lo
  {
    seq(kChannels, i requires 0 <= i < kChannels => Max2(c[i], lo))
  }

  /** The in-place `Clip(minc, maxc)` ends with the colour `Clipped` returns. */
  method ClipInPlace(c: Colour, lo: real, hi: real) returns (r: Colour)
    ensures r == Clipped(c, lo, hi)
  {
    r := c;
    var i := 0;
    while i < kChannels
      invariant 0 <= i <= kChannels && |r| == kChannels
      invariant forall j :: 0 <= j < i ==> r[j] == Clip(c[j], lo, hi)
      invariant forall j :: i <= j < kChannels ==> r[j] == c[j]
    {
      r := r[i := Clip(r[i], lo, hi)];
      i := i + 1;
    }
  }

  /** Clipping twice with the same bounds is clipping once. */
  lemma ClippedIdempotent(c: Colour, lo: real, hi: real)
    requires lo <= hi
    ensures Clipped(Clipped(c, lo, hi), lo, hi) == Clipped(c, lo, hi)
    ensures ClippedUpper(ClippedUpper(c, hi), hi) == ClippedUpper(c, hi)
    ensures ClippedLower(ClippedLower(c, lo), lo) == ClippedLower(c, lo)
  {
  }

  /** With ordered bounds, a full clip is a lower clip followed by an upper clip. */
  lemma ClippedIsLowerThenUpper(c: Colour, lo: real, hi: real)
    requires lo <= hi
    ensures Clipped(c, lo, hi) == ClippedUpper(ClippedLower(c, lo), hi)
  {
  }

  /** Sum of channel magnitudes, accumulated left to right (`SumAbs`). */
  function SumAbs(s: seq<real>): (r: real)
    ensures r >= 0.0
    ensures forall i :: 0 <= i < |s| ==> Abs(s[i]) <= r
  {
    if |s| == 0 then 0.0 else SumAbs(s[..|s| - 1]) + Abs(s[|s| - 1])
  }

  /** For a three-channel colour the fold is the plain sum of the three magnitudes. */
  lemma SumAbsOfThree(c: Colour)
    ensures SumAbs(c) == Abs(c[0]) + Abs(c[1]) + Abs(c[2])
  {
    var p := c[..2];
    assert SumAbs(c) == SumAbs(p) + Abs(c[2]);
    assert p[..1] == [c[0]] && [c[0]][..0] == [];
    assert SumAbs(p) == SumAbs([c[0]]) + Abs(c[1]);
  }

  /** The greatest channel value, folding `max` from channel 0 (`Max`). */
  function MaxOf(s: seq<real>): (r: real)
    requires |s| > 0
    ensures forall i :: 0 <= i < |s| ==> s[i] <= r
    ensures r in s
  {
    if |s| == 1 then s[0] else Max2(MaxOf(s[..|s| - 1]), s[|s| - 1])
  }

  /** The smallest channel value, folding `min` from channel 0 (`Min`). */
  function MinOf(s: seq<real>): (r: real)
    requires |s| > 0
    ensures forall i :: 0 <= i < |s| ==> r <= s[i]
    ensures r in s
  {
    if |s| == 1 then s[0] else Min2(MinOf(s[..|s| - 1]), s[|s| - 1])
  }

  /** The greatest channel magnitude (`MaxAbs`). */
  function MaxAbs(s: seq<real>): (r: real)
    requires |s| > 0
    ensures forall i :: 0 <= i < |s| ==> Abs(s[i]) <= r
    ensures exists i :: 0 <= i < |s| && r == Abs(s[i])
  {
    if |s| == 1 then Abs(s[0])
    else
      var m := MaxAbs(s[..|s| - 1]);
      assert forall i :: 0 <= i < |s| - 1 ==> s[..|s| - 1][i] == s[i];
      Max2(m, Abs(s[|s| - 1]))
  }

  /** `IsZero`: a running conjunction of `channel == 0`. */
  function IsZero(s: seq<real>): (r: bool)
    ensures r <==> forall i :: 0 <= i < |s| ==> s[i] == 0.0
  {
    if |s| == 0 then true
    else
      assert forall i :: 0 <= i < |s| - 1 ==> s[..|s| - 1][i] == s[i];
      IsZero(s[..|s| - 1]) && s[|s| - 1] == 0.0
  }

  /** `IsNearZero(epsilon)`: a running conjunction of `fabs(channel) < epsilon`. */
  function IsNearZero(s: seq<real>, epsilon: real): (r: bool)
    ensures r <==> forall i :: 0 <= i < |s| ==> Abs(s[i]) < epsilon
  {
    if |s| == 0 then true
    else
      assert forall i :: 0 <= i < |s| - 1 ==> s[..|s| - 1][i] == s[i];
      IsNearZero(s[..|s| - 1], epsilon) && Abs(s[|s| - 1]) < epsilon
  }

  /** Near-zero is the same as "the largest magnitude is below epsilon". */
  lemma NearZeroIffMaxAbs(s: seq<real>, epsilon: real)
    requires |s| > 0
    ensures IsNearZero(s, epsilon) <==> MaxAbs(s) < epsilon
  {
  }

  /** The sum of magnitudes vanishes exactly on the zero colour. */
  lemma {:induction false} SumAbsZeroIffIsZero(s: seq<real>)
    ensures SumAbs(s) == 0.0 <==> IsZero(s)
  {
    if |s| > 0 {
      SumAbsZeroIffIsZero(s[..|s| - 1]);
      assert forall i :: 0 <= i < |s| - 1 ==> s[..|s| - 1][i] == s[i];
    }
  }

  /** The largest magnitude never exceeds the sum of magnitudes. */
  lemma MaxAbsAtMostSumAbs(s: seq<real>)
    requires |s| > 0
    ensures MaxAbs(s) <= SumAbs(s)
  {
  }

  /** `ColourDistance(a, b)`: the magnitude sum of the difference. */
  function ColourDistance(a: Colour, b: Colour): (r: real)
    ensures r >= 0.0
  {
    SumAbs(Binary(Minus, a, b))
  }

  /** Channelwise magnitudes agree, so equal magnitude sums. */
  lemma {:induction false} SumAbsOfAbsEqual(s: seq<real>, t: seq<real>)
    requires |s| == |t|
    requires forall i :: 0 <= i < |s| ==> Abs(s[i]) == Abs(t[i])
    ensures SumAbs(s) == SumAbs(t)
  {
    if |s| > 0 {
      SumAbsOfAbsEqual(s[..|s| - 1], t[..|t| - 1]);
    }
  }

  /** The distance is symmetric and is zero exactly between equal colours. */
  lemma ColourDistanceMetric(a: Colour, b: Colour)
    ensures ColourDistance(a, b) == ColourDistance(b, a)
    ensures ColourDistance(a, b) == 0.0 <==> a == b
  {
    SumAbsOfAbsEqual(Binary(Minus, a, b), Binary(Minus, b, a));
    SumAbsZeroIffIsZero(Binary(Minus, a, b));
    if IsZero(Binary(Minus, a, b)) {
      assert forall i :: 0 <= i < kChannels ==> a[i] == b[i];
    }
  }

  /** The subtraction of a colour from itself is zero, and a grey colour is zero iff its level is. */
  lemma SubSelfIsZero(a: Colour, g: real)
    ensures IsZero(Binary(Minus, a, a))
    ensures IsZero(Grey(g)) <==> g == 0.0
  {
  }
}
