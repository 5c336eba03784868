/**
 Real-number helpers shared by the colour model: magnitudes, the
 min/max/clip clamps that colour.h takes from the surrounding library,
 exact powers of two (`ldexp`) and the binary split of `frexp`.
 */
module Numeric {

  /** `fabs` on a channel value. */
  function Abs(x: real): (r: real)
    ensures r >= 0.0
    ensures r == x || r == -x
  {
    if x < 0.0 then -x else x
  }

  /** `max(a, b)`: the larger operand, the first one on a tie. */
  function Max2(a: real, b: real): (r: real)
    ensures r >= a && r >= b
    ensures r == a || r == b
  {
    if a < b then b else a
  }

  /** `min(a, b)`: the smaller operand, the first one on a tie. */
  function Min2(a: real, b: real): (r: real)
    ensures r <= a && r <= b
    ensures r == a || r == b
  {
    if b < a then b else a
  }

  /** `r` is `v` clamped to [lo, hi]: inside the bounds when they are ordered, `v` itself
      when already inside, `lo` for a value below `lo`, and otherwise `hi` for a value above
      `hi`. */
  predicate Clamped(v: real, lo: real, hi: real, r: real)
  {
    && (lo <= hi ==> lo <= r <= hi)
    && (lo <= v <= hi ==> r == v)
    && (v < lo ==> r == lo)
    && (lo <= v && hi < v ==> r == hi)
  }

  /** `clip(v, lo, hi)`, a hard clamp. */
  function Clip(v: real, lo: real, hi: real): (r: real)
    ensures lo <= hi ==> lo <= r <= hi
    ensures lo <= v <= hi ==> r == v
    ensures Clamped(v, lo, hi, r)
  {
    if v < lo then lo else if v > hi then hi else v
  }

  /** Clamping a clamped value again changes nothing. */
  lemma ClipIdempotent(v: real, lo: real, hi: real)
    requires lo <= hi
    ensures Clip(Clip(v, lo, hi), lo, hi) == Clip(v, lo, hi)
  {
  }

  /** Dividing a product by one of its nonzero factors recovers the other. */
  lemma MulDivCancel(x: real, s: real)
    requires s != 0.0
    ensures (x * s) / s == x
  {
  }

  /** 2^e for any integer e, as `ldexp(1.0, e)` computes it. */
  function Pow2(e: int): (r: real)
    ensures r > 0.0
    decreases if e < 0 then -e else e
  {
    if e == 0 then 1.0
    else if e > 0 then 2.0 * Pow2(e - 1)
    else Pow2(e + 1) / 2.0
  }

  lemma {:induction false} Pow2Succ(e: int)
    ensures Pow2(e + 1) == 2.0 * Pow2(e)
    decreases if e < 0 then -e else e
  {
    if e >= 0 {
    } else {
      assert Pow2(e) == Pow2(e + 1) / 2.0;
    }
  }

  /** Eight doublings: 2^(e+8) == 256 * 2^e, the width of one mantissa byte. */
  lemma Pow2Plus8(e: int)
    ensures Pow2(e + 8) == 256.0 * Pow2(e)
  {
    Pow2Succ(e);
    Pow2Succ(e + 1);
    Pow2Succ(e + 2);
    Pow2Succ(e + 3);
    Pow2Succ(e + 4);
    Pow2Succ(e + 5);
    Pow2Succ(e + 6);
    Pow2Succ(e + 7);
  }

  /** 2^e grows strictly with e. */
  lemma {:induction false} Pow2Monotonic(a: int, b: int)
    requires a < b
    ensures Pow2(a) < Pow2(b)
    decreases b - a
  {
    Pow2Succ(a);
    if a + 1 < b {
      Pow2Monotonic(a + 1, b);
    }
  }

  /** 2^e is at least 1 exactly when e is not negative. */
  lemma Pow2AtLeastOne(e: int)
    ensures e >= 0 <==> Pow2(e) >= 1.0
  {
    if e > 0 {
      Pow2Monotonic(0, e);
    } else if e < 0 {
      Pow2Monotonic(e, 0);
    }
  }

  /** `frexp` for x >= 0.5: halve until the fraction drops below 1. */
  function FrexpLarge(x: real): (r: (real, int))
    requires x >= 0.5
    ensures 0.5 <= r.0 < 1.0 && r.1 >= 0
    ensures x == r.0 * Pow2(r.1)
    decreases x.Floor
  {
    if x < 1.0 then (x, 0)
    else
      var p := FrexpLarge(x / 2.0);
      Pow2Succ(p.1);
      (p.0, p.1 + 1)
  }

  /** `frexp` for 0 < x < 1: double until the fraction reaches 0.5. */
  function FrexpSmall(x: real): (r: (real, int))
    requires 0.0 < x < 1.0
    ensures 0.5 <= r.0 < 1.0 && r.1 <= 0
    ensures x == r.0 * Pow2(r.1)
    decreases (1.0 / x).Floor
  {
    if x >= 0.5 then (x, 0)
    else
      var p := FrexpSmall(2.0 * x);
      Pow2Succ(p.1 - 1);
      (p.0, p.1 - 1)
  }

  /** `frexp(x, &e)` for a positive x: a fraction in [0.5, 1) and a binary
      exponent whose product is x. */
  function Frexp(x: real): (r: (real, int))
    requires x > 0.0
    ensures 0.5 <= r.0 < 1.0
    ensures x == r.0 * Pow2(r.1)
  {
    if x >= 1.0 then FrexpLarge(x) else FrexpSmall(x)
  }

  /** A fraction in [0.5, 1) of a positive p lies in [p/2, p). */
  lemma FractionOf(m: real, p: real, x: real)
    requires 0.5 <= m < 1.0 && p > 0.0 && x == m * p
    ensures p / 2.0 <= x < p
  {
  }

  /** The factor a of x == a * p, for a positive p, is x / p. */
  lemma FactorIsQuotient(a: real, p: real, x: real)
    requires p > 0.0 && x == a * p
    ensures a == x / p
  {
  }

  /** A fraction in [0.5, 1) times 2^e lies in [2^(e-1), 2^e). */
  lemma FractionRange(m: real, e: int)
    requires 0.5 <= m < 1.0
    ensures Pow2(e - 1) <= m * Pow2(e) < Pow2(e)
  {
    Pow2Succ(e - 1);
    FractionOf(m, Pow2(e), m * Pow2(e));
  }

  /** At most one binary exponent e brackets x as 2^(e-1) <= x < 2^e. */
  lemma {:induction false} BracketUnique(x: real, e1: int, e2: int)
    requires Pow2(e1 - 1) <= x < Pow2(e1)
    requires Pow2(e2 - 1) <= x < Pow2(e2)
    ensures e1 == e2
  {
    if e1 < e2 - 1 {
      Pow2Monotonic(e1, e2 - 1);
    } else if e2 < e1 - 1 {
      Pow2Monotonic(e2, e1 - 1);
    }
  }

  /** The exponent Frexp returns brackets x between neighbouring powers of two. */
  lemma FrexpBracket(x: real)
    requires x > 0.0
    ensures Pow2(Frexp(x).1 - 1) <= x < Pow2(Frexp(x).1)
  {
    var r := Frexp(x);
    Pow2Succ(r.1 - 1);
    FractionOf(r.0, Pow2(r.1), x);
  }

  /** The fraction Frexp returns is x scaled down by its exponent. */
  lemma FrexpFraction(x: real)
    requires x > 0.0
    ensures Frexp(x).0 == x / Pow2(Frexp(x).1)
  {
    var r := Frexp(x);
    FactorIsQuotient(r.0, Pow2(r.1), x);
  }

  /** The split of `frexp` is unique: any fraction in [0.5, 1) and exponent
      whose product is x are the ones Frexp returns. */
  lemma FrexpUnique(x: real, m: real, e: int)
    requires 0.5 <= m < 1.0 && x == m * Pow2(e)
    ensures x > 0.0 && Frexp(x) == (m, e)
  {
    Pow2Succ(e - 1);
    FractionOf(m, Pow2(e), x);
    FactorIsQuotient(m, Pow2(e), x);
    FrexpBracket(x);
    BracketUnique(x, Frexp(x).1, e);
    FrexpFraction(x);
  }
}
