/**
 * Plain value types shared by the particle engine: 2D vectors and RGB
 * colours with real-valued channels, the linear colour blend used by
 * particles, and the rounding JavaScript's Math.round applies when a
 * colour is drawn.
 */
module Geometry {

  /** A value returned by Math.random(). */
  type Unit = r: real | 0.0 <= r < 1.0

  /** A position, velocity, acceleration or force. */
  datatype Vec = Vec(x: real, y: real)
  {
    function Add(other: Vec): Vec { Vec(x + other.x, y + other.y) }
  }

  const Origin := Vec(0.0, 0.0)

  /** A colour; channels are reals because blending produces fractions. */
  datatype Rgb = Rgb(r: real, g: real, b: real)

  /** A colour as it is handed to the canvas: each channel rounded. */
  datatype RgbInt = RgbInt(r: int, g: int, b: int)

  const Black := Rgb(0.0, 0.0, 0.0)

  /** Linear interpolation `a + (b - a) * w` of one channel. */
  function Mix(a: real, b: real, w: real): real
  {
    a + (b - a) * w
  }

  /** Channel-wise interpolation from `start` towards `target` by weight `w`. */
  function Blend(start: Rgb, target: Rgb, w: real): Rgb
  {
    Rgb(Mix(start.r, target.r, w), Mix(start.g, target.g, w), Mix(start.b, target.b, w))
  }

  /** JavaScript's Math.round: the nearest integer, halves rounded up. */
  function RoundHalfUp(v: real): (n: int)
    ensures v - 0.5 < n as real <= v + 0.5
  {
    (v + 0.5).Floor
  }

  function RoundRgb(c: Rgb): RgbInt
  {
    RgbInt(RoundHalfUp(c.r), RoundHalfUp(c.g), RoundHalfUp(c.b))
  }

  predicate Between(v: real, a: real, b: real)
  {
    (a <= v <= b) || (b <= v <= a)
  }

  /** Every channel of `c` lies between the same channels of `a` and `b`. */
  predicate RgbBetween(c: Rgb, a: Rgb, b: Rgb)
  {
    Between(c.r, a.r, b.r) && Between(c.g, a.g, b.g) && Between(c.b, a.b, b.b)
  }

  predicate InByteRange(c: Rgb)
  {
    0.0 <= c.r <= 255.0 && 0.0 <= c.g <= 255.0 && 0.0 <= c.b <= 255.0
  }

  /** Weight 0 gives the start colour, weight 1 the target colour. */
  lemma BlendEnds(start: Rgb, target: Rgb)
    ensures Blend(start, target, 0.0) == start
    ensures Blend(start, target, 1.0) == target
  {
  }

  lemma ScaleDown(d: real, w: real)
    requires d >= 0.0 && 0.0 <= w <= 1.0
    ensures 0.0 <= d * w
    ensures d * w <= d
  {
    assert d * (1.0 - w) >= 0.0;
  }

  lemma MixUp(a: real, b: real, w: real)
    requires 0.0 <= w <= 1.0 && a <= b
    ensures a <= Mix(a, b, w) <= b
  {
    var d := b - a;
    var dw := d * w;
    ScaleDown(d, w);
    assert 0.0 <= dw <= d;
  }

  lemma MixDown(a: real, b: real, w: real)
    requires 0.0 <= w <= 1.0 && b <= a
    ensures b <= Mix(a, b, w) <= a
  {
    var d := a - b;
    var dw := d * w;
    ScaleDown(d, w);
    assert 0.0 <= dw <= d;
    assert (b - a) * w == -dw;
  }

  lemma MixBetween(a: real, b: real, w: real)
    requires 0.0 <= w <= 1.0
    ensures Between(Mix(a, b, w), a, b)
  {
    if a <= b {
      MixUp(a, b, w);
    } else {
      MixDown(a, b, w);
    }
  }

  /** A blend with a weight in [0, 1] stays between its two end colours. */
  lemma {:induction false} BlendBetween(start: Rgb, target: Rgb, w: real)
    requires 0.0 <= w <= 1.0
    ensures RgbBetween(Blend(start, target, w), start, target)
  {
    MixBetween(start.r, target.r, w);
    MixBetween(start.g, target.g, w);
    MixBetween(start.b, target.b, w);
  }

  /** Blending two colours of the byte range gives a colour of the byte range. */
  lemma BlendInByteRange(start: Rgb, target: Rgb, w: real)
    requires 0.0 <= w <= 1.0
    requires InByteRange(start) && InByteRange(target)
    ensures InByteRange(Blend(start, target, w))
  {
    BlendBetween(start, target, w);
  }
}
