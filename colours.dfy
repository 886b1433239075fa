/** Unity's `Color` value and the two clamped interpolation helpers the
    gradient relies on: `Mathf.InverseLerp` and `Color.Lerp`. Both are
    engine calls; their documented clamped semantics are written out here
    over reals (IEEE-754 rounding is not modelled). */
module Colours {

  /** An RGBA colour; each channel is a real. */
  datatype Colour = Colour(r: real, g: real, b: real, a: real)

  /** `Color.white` */
  const White: Colour := Colour(1.0, 1.0, 1.0, 1.0)

  /** `default(Color)`: every channel zero. */
  const Clear: Colour := Colour(0.0, 0.0, 0.0, 0.0)

  /** `Mathf.Clamp01` */
  function Clamp01(x: real): (r: real)
    ensures 0.0 <= r <= 1.0
    ensures 0.0 <= x <= 1.0 ==> r == x
    ensures x < 0.0 ==> r == 0.0
    ensures 1.0 < x ==> r == 1.0
  {
    if x < 0.0 then 0.0 else if x > 1.0 then 1.0 else x
  }

  /** `Mathf.InverseLerp(a, b, v)`: where `v` sits between `a` and `b`, as a
      fraction clamped to [0, 1]; 0 when the two ends coincide. */
  function InverseLerp(a: real, b: real, v: real): (t: real)
    ensures 0.0 <= t <= 1.0
    ensures a == b ==> t == 0.0
  {
    if a != b then Clamp01((v - a) / (b - a)) else 0.0
  }

  /** One channel of `Color.Lerp`: the factor is clamped first, so the result
      never leaves the interval between the two ends. */
  function LerpChannel(x: real, y: real, t: real): (v: real)
    ensures Between(x, y, v)
    ensures t <= 0.0 ==> v == x
    ensures 1.0 <= t ==> v == y
    ensures x == y ==> v == x
  {
    BlendBetween(x, y, Clamp01(t));
    x + (y - x) * Clamp01(t)
  }

  /** `Color.Lerp(c, d, t)`: channel-wise blend with `t` clamped to [0, 1].
      The blend stays in the box spanned by the two colours, is `c` at a
      factor of 0 or below and `d` at 1 or above, and blending a colour with
      itself gives it back. */
  function Lerp(c: Colour, d: Colour, t: real): (e: Colour)
    ensures ChannelsBetween(c, d, e)
    ensures t <= 0.0 ==> e == c
    ensures 1.0 <= t ==> e == d
    ensures c == d ==> e == c
  {
    Colour(LerpChannel(c.r, d.r, t), LerpChannel(c.g, d.g, t),
           LerpChannel(c.b, d.b, t), LerpChannel(c.a, d.a, t))
  }

  /** `v` lies in the closed interval spanned by `x` and `y`, whichever is larger. */
  predicate Between(x: real, y: real, v: real)
  {
    (x <= v <= y) || (y <= v <= x)
  }

  /** Every channel of `c` lies between the matching channels of `lo` and `hi`. */
  predicate ChannelsBetween(lo: Colour, hi: Colour, c: Colour)
  {
    Between(lo.r, hi.r, c.r) && Between(lo.g, hi.g, c.g) &&
    Between(lo.b, hi.b, c.b) && Between(lo.a, hi.a, c.a)
  }

  /** Products of non-negative reals are non-negative. */
  lemma MulNonNegative(p: real, q: real)
    requires 0.0 <= p && 0.0 <= q
    ensures 0.0 <= p * q
  {
  }

  /** Dividing by a positive real keeps the sign of the dividend. */
  lemma QuotientSign(n: real, d: real)
    requires 0.0 < d
    ensures 0.0 <= n ==> 0.0 <= n / d
    ensures 0.0 < n ==> 0.0 < n / d
    ensures n <= 0.0 ==> n / d <= 0.0
  {
    var inv := 1.0 / d;
    assert d * inv == 1.0;
    assert n / d == n * inv;
    if 0.0 <= n {
      MulNonNegative(n, inv);
    } else {
      MulNonNegative(-n, inv);
    }
  }

  /** A quotient exceeds 1 when the dividend exceeds the positive divisor. */
  lemma QuotientAboveOne(n: real, d: real)
    requires 0.0 < d < n
    ensures 1.0 < n / d
  {
    var inv := 1.0 / d;
    assert d * inv == 1.0;
    assert n / d == n * inv;
    QuotientSign(n - d, d);
    assert (n - d) / d == (n - d) * inv;
    assert (n - d) * inv == n * inv - d * inv;
  }

  /** A part of a positive whole is a fraction in [0, 1]. */
  lemma FractionInUnit(n: real, d: real)
    ensures 0.0 <= n <= d && 0.0 < d ==> 0.0 <= n / d <= 1.0
  {
    if 0.0 <= n <= d && 0.0 < d {
      var inv := 1.0 / d;
      assert d * inv == 1.0;
      assert 0.0 < inv;
      MulNonNegative(n, inv);
      MulNonNegative(d - n, inv);
      assert n / d == n * inv;
      assert (d - n) * inv == 1.0 - n * inv;
    }
  }

  /** Moving a fraction `s` in [0, 1] of the way from `x` to `y` stays between them. */
  lemma BlendBetween(x: real, y: real, s: real)
    requires 0.0 <= s <= 1.0
    ensures Between(x, y, x + (y - x) * s)
  {
    if x <= y {
      MulNonNegative(y - x, s);
      MulNonNegative(y - x, 1.0 - s);
      assert (y - x) * s + (y - x) * (1.0 - s) == y - x;
    } else {
      MulNonNegative(x - y, s);
      MulNonNegative(x - y, 1.0 - s);
      assert (x - y) * s + (x - y) * (1.0 - s) == x - y;
      assert (y - x) * s == -((x - y) * s);
    }
  }

  /** The blend factor is 0 at the left end and 1 at the right end of a
      non-degenerate interval. */
  lemma InverseLerpEnds(a: real, b: real)
    ensures InverseLerp(a, b, a) == 0.0
    ensures a != b ==> InverseLerp(a, b, b) == 1.0
  {
    if a != b {
      var inv := 1.0 / (b - a);
      assert (b - a) * inv == 1.0;
      assert (b - a) / (b - a) == (b - a) * inv;
    }
  }

  /** The blend factor grows with `v` when the interval is increasing. */
  lemma InverseLerpMonotonic(a: real, b: real, v: real, w: real)
    requires a < b && v <= w
    ensures InverseLerp(a, b, v) <= InverseLerp(a, b, w)
  {
    assert (v - a) / (b - a) <= (w - a) / (b - a) by {
      assert (w - a) / (b - a) - (v - a) / (b - a) == (w - v) / (b - a);
    }
  }

  /** InverseLerp is undone by one channel of Lerp: inside a non-degenerate
      interval, blending its two ends by the recovered factor gives `v` back. */
  lemma InverseLerpRoundTrip(a: real, b: real, v: real)
    requires a != b && Between(a, b, v)
    ensures LerpChannel(a, b, InverseLerp(a, b, v)) == v
  {
    if a < b {
      FractionInUnit(v - a, b - a);
    } else {
      assert (v - a) / (b - a) == (a - v) / (a - b);
      FractionInUnit(a - v, a - b);
    }
  }
}
