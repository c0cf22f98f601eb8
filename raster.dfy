/**
 * The pixels Fill and Line touch, as functions of their arguments and the
 * image size. Line's float arithmetic is taken as exact real arithmetic.
 */
module Raster {
  import opened Util
  import opened Bytes
  import opened Color
  import opened Blend

  /** A half-open rectangle of pixels [x1, x2) x [y1, y2). */
  datatype Rect = Rect(x1: int, y1: int, x2: int, y2: int) {
    predicate Contains(x: int, y: int) {
      x1 <= x < x2 && y1 <= y < y2
    }

    predicate IsEmpty() {
      x2 <= x1 || y2 <= y1
    }
  }

  /**
   * The rectangle Fill walks in a w x h image: the corners clamped at 0
   * from below and at the image size from above. It is exactly the part of
   * the requested rectangle that lies inside the image.
   */
  function FillArea(w: int, h: int, x1: int, y1: int, x2: int, y2: int): (r: Rect)
    ensures forall x, y :: r.Contains(x, y) <==>
      (Rect(x1, y1, x2, y2).Contains(x, y) && 0 <= x < w && 0 <= y < h)
  {
    Rect(Max(0, x1), Max(0, y1), Min(w, x2), Min(h, y2))
  }

  /** Fill changes nothing exactly when the image is empty, the request is inverted, or the two do not meet. */
  lemma FillAreaEmptyIff(w: int, h: int, x1: int, y1: int, x2: int, y2: int)
    ensures FillArea(w, h, x1, y1, x2, y2).IsEmpty() <==>
      (w <= 0 || h <= 0 || x2 <= x1 || y2 <= y1 || x2 <= 0 || y2 <= 0 || w <= x1 || h <= y1)
  {
  }

  /** The position (a - a1) / (a2 - a1) of a between a1 and a2 lies in [0, 1]. */
  lemma RatioInUnit(a: int, a1: int, a2: int)
    requires a1 != a2 && Between(a, a1, a2)
    ensures 0.0 <= (a - a1) as real / (a2 - a1) as real <= 1.0
  {
    var n := (a - a1) as real;
    var d := (a2 - a1) as real;
    if a1 < a2 {
      FractionInUnit(n, d);
    } else {
      FractionInUnit(-n, -d);
      assert n / d == (-n) / (-d);
    }
  }

  /** A fraction n / d with 0 <= n <= d lies in [0, 1]. */
  lemma FractionInUnit(n: real, d: real)
    requires 0.0 <= n <= d && 0.0 < d
    ensures 0.0 <= n / d <= 1.0
  {
    var t := n / d;
    MulDivReal(n, d);
    assert d * t == n;
  }

  /** A real between two channel values truncates to a value between them. */
  lemma TruncBetween(x: real, a: Byte, b: Byte)
    requires (a as real <= x <= b as real) || (b as real <= x <= a as real)
    ensures Between(Trunc(x), a, b)
  {
  }

  /** a + (b - a) * t for t in [0, 1] lies between a and b. */
  lemma RampWithin(a: real, b: real, t: real, x: real)
    requires 0.0 <= t <= 1.0 && x == a + (b - a) * t
    ensures (a <= x <= b) || (b <= x <= a)
  {
    var e := b - a;
    assert x == a + e * t;
    if a <= b {
      MulUnitReal(e, t);
    } else {
      MulUnitReal(-e, t);
      assert (-e) * t == -(e * t);
    }
  }

  /** The truncated ramp (Uint8)(a + (b - a) * t) for t in [0, 1] lies between a and b. */
  lemma RampBetween(a: Byte, b: Byte, t: real)
    requires 0.0 <= t <= 1.0
    ensures Between(Trunc(a as real + (b as real - a as real) * t), a, b)
  {
    var x := a as real + (b as real - a as real) * t;
    RampWithin(a as real, b as real, t, x);
    TruncBetween(x, a, b);
  }

  /** One channel of Line's colour ramp: (Uint8)(a + (b - a) * t) for t in [0, 1]. */
  function LerpChannel(a: Byte, b: Byte, t: real): (r: Byte)
    requires 0.0 <= t <= 1.0
    ensures Between(r, a, b)
  {
    RampBetween(a, b, t);
    Trunc(a as real + (b as real - a as real) * t)
  }

  /** Every channel of c lies between the same channel of c1 and of c2. */
  predicate ChannelsBetween(c: Color32, c1: Color32, c2: Color32) {
    && Between(c.red, c1.red, c2.red) && Between(c.green, c1.green, c2.green)
    && Between(c.blue, c1.blue, c2.blue) && Between(c.alpha, c1.alpha, c2.alpha)
  }

  /** Line's colour at position t along the line, channel by channel. */
  function Lerp(c1: Color32, c2: Color32, t: real): (c: Color32)
    requires 0.0 <= t <= 1.0
    ensures ChannelsBetween(c, c1, c2)
  {
    Color32(LerpChannel(c1.red, c2.red, t), LerpChannel(c1.green, c2.green, t),
            LerpChannel(c1.blue, c2.blue, t), LerpChannel(c1.alpha, c2.alpha, t))
  }

  /** The ramp starts at the first colour and ends at the second. */
  lemma LerpEnds(c1: Color32, c2: Color32)
    ensures Lerp(c1, c2, 0.0) == c1
    ensures Lerp(c1, c2, 1.0) == c2
  {
    TruncOfInt(c2.red);
    TruncOfInt(c2.green);
    TruncOfInt(c2.blue);
    TruncOfInt(c2.alpha);
  }

  /** Running the ramp backwards from the other end gives the same colour. */
  lemma LerpReversed(c1: Color32, c2: Color32, t: real)
    requires 0.0 <= t <= 1.0
    ensures Lerp(c2, c1, 1.0 - t) == Lerp(c1, c2, t)
  {
  }

  /** The minor coordinate of the line at major coordinate a: b1 + (a - a1) * slope. */
  function MinorAt(a1: int, b1: int, a2: int, b2: int, a: int): real
    requires a1 != a2
  {
    b1 as real + (a - a1) as real * ((b2 - b1) as real / (a2 - a1) as real)
  }

  /**
   * One branch of Line, stepping along the major axis a (of aDim pixels)
   * and computing the minor coordinate b (of bDim pixels): the major range
   * is clamped to [0, aDim - 1], a minor coordinate outside [0, bDim) is
   * skipped, and the plotted pixel gets the ramp colour at its major position.
   */
  function MajorPlot(a1: int, b1: int, c1: Color32, a2: int, b2: int, c2: Color32,
                     aDim: int, bDim: int, a: int, b: int): (r: Option<Color32>)
    requires a1 != a2
    ensures r.Some? ==> ChannelsBetween(r.value, c1, c2)
  {
    var lo := Max(Min(a1, a2), 0);
    var hi := Min(Max(a1, a2), aDim - 1);
    var fb := MinorAt(a1, b1, a2, b2, a);
    if lo <= a <= hi && 0.0 <= fb < bDim as real && Trunc(fb) == b then
      RatioInUnit(a, a1, a2);
      Some(Lerp(c1, c2, (a - a1) as real / (a2 - a1) as real))
    else
      None
  }

  /** The two end points coincide: Line plots at most that one point. */
  predicate Degenerate(x1: int, y1: int, x2: int, y2: int) {
    x1 == x2 && y1 == y2
  }

  /** Line steps along x when the line is wider than it is tall, and along y otherwise. */
  predicate XMajor(x1: int, y1: int, x2: int, y2: int) {
    Abs(x2 - x1) > Abs(y2 - y1)
  }

  /**
   * The colour Line draws at pixel (x, y) of a w x h image, if it draws that
   * pixel: the single end point in the degenerate case, else the pixel the
   * stepping branch lands on.
   */
  function LinePixel(x1: int, y1: int, c1: Color32, x2: int, y2: int, c2: Color32,
                     w: int, h: int, x: int, y: int): (r: Option<Color32>)
    ensures r.Some? ==> ChannelsBetween(r.value, c1, c2)
  {
    if Degenerate(x1, y1, x2, y2) then
      if x == x1 && y == y1 && 0 <= x1 < w && 0 <= y1 < h then Some(c1) else None
    else if XMajor(x1, y1, x2, y2) then
      MajorPlot(x1, y1, c1, x2, y2, c2, w, h, x, y)
    else
      MajorPlot(y1, x1, c1, y2, x2, c2, h, w, y, x)
  }

  /** What a pixel holds after Line: the blend of the old colour and the drawn colour, if drawn. */
  function Plotted(drawn: Option<Color32>, prior: Color32, blend: Blender): Color32 {
    match drawn
    case Some(c) => blend(prior, c)
    case None => prior
  }

  /** MajorPlot only lands inside the aDim x bDim grid. */
  lemma MajorPlotInside(a1: int, b1: int, c1: Color32, a2: int, b2: int, c2: Color32,
                        aDim: int, bDim: int, a: int, b: int)
    requires a1 != a2
    requires MajorPlot(a1, b1, c1, a2, b2, c2, aDim, bDim, a, b).Some?
    ensures 0 <= a < aDim && 0 <= b < bDim
  {
    TruncNonNegative(MinorAt(a1, b1, a2, b2, a), bDim);
  }

  /** Line never draws outside the image. */
  lemma LinePixelInImage(x1: int, y1: int, c1: Color32, x2: int, y2: int, c2: Color32,
                         w: int, h: int, x: int, y: int)
    requires LinePixel(x1, y1, c1, x2, y2, c2, w, h, x, y).Some?
    ensures 0 <= x < w && 0 <= y < h
  {
    if !Degenerate(x1, y1, x2, y2) {
      if XMajor(x1, y1, x2, y2) {
        MajorPlotInside(x1, y1, c1, x2, y2, c2, w, h, x, y);
      } else {
        MajorPlotInside(y1, x1, c1, y2, x2, c2, h, w, y, x);
      }
    }
  }

  /** Along its major axis MajorPlot reaches both end points, with the end colours. */
  lemma MajorPlotEnds(a1: int, b1: int, c1: Color32, a2: int, b2: int, c2: Color32,
                      aDim: int, bDim: int)
    requires a1 != a2
    ensures 0 <= a1 < aDim && 0 <= b1 < bDim ==> MajorPlot(a1, b1, c1, a2, b2, c2, aDim, bDim, a1, b1) == Some(c1)
    ensures 0 <= a2 < aDim && 0 <= b2 < bDim ==> MajorPlot(a1, b1, c1, a2, b2, c2, aDim, bDim, a2, b2) == Some(c2)
  {
    MinorAtEnds(a1, b1, a2, b2);
    LerpEnds(c1, c2);
    if 0 <= a1 < aDim && 0 <= b1 < bDim {
      MajorPlotStart(a1, b1, c1, a2, b2, c2, aDim, bDim);
    }
    if 0 <= a2 < aDim && 0 <= b2 < bDim {
      MajorPlotEnd(a1, b1, c1, a2, b2, c2, aDim, bDim);
    }
  }

  /** The minor coordinate is b1 at a1 and b2 at a2. */
  lemma MinorAtEnds(a1: int, b1: int, a2: int, b2: int)
    requires a1 != a2
    ensures MinorAt(a1, b1, a2, b2, a1) == b1 as real
    ensures MinorAt(a1, b1, a2, b2, a2) == b2 as real
  {
    MulDivReal((b2 - b1) as real, (a2 - a1) as real);
  }

  lemma MajorPlotStart(a1: int, b1: int, c1: Color32, a2: int, b2: int, c2: Color32, aDim: int, bDim: int)
    requires a1 != a2 && 0 <= a1 < aDim && 0 <= b1 < bDim
    requires MinorAt(a1, b1, a2, b2, a1) == b1 as real && Lerp(c1, c2, 0.0) == c1
    ensures MajorPlot(a1, b1, c1, a2, b2, c2, aDim, bDim, a1, b1) == Some(c1)
  {
    TruncOfInt(b1);
    assert (a1 - a1) as real / (a2 - a1) as real == 0.0;
  }

  lemma MajorPlotEnd(a1: int, b1: int, c1: Color32, a2: int, b2: int, c2: Color32, aDim: int, bDim: int)
    requires a1 != a2 && 0 <= a2 < aDim && 0 <= b2 < bDim
    requires MinorAt(a1, b1, a2, b2, a2) == b2 as real && Lerp(c1, c2, 1.0) == c2
    ensures MajorPlot(a1, b1, c1, a2, b2, c2, aDim, bDim, a2, b2) == Some(c2)
  {
    TruncOfInt(b2);
    assert (a2 - a1) as real / (a2 - a1) as real == 1.0;
  }

  /** A line that is not a single point is drawn from its first end point in its first colour to its second end point in its second. */
  lemma LineEnds(x1: int, y1: int, c1: Color32, x2: int, y2: int, c2: Color32, w: int, h: int)
    requires !Degenerate(x1, y1, x2, y2)
    ensures 0 <= x1 < w && 0 <= y1 < h ==> LinePixel(x1, y1, c1, x2, y2, c2, w, h, x1, y1) == Some(c1)
    ensures 0 <= x2 < w && 0 <= y2 < h ==> LinePixel(x1, y1, c1, x2, y2, c2, w, h, x2, y2) == Some(c2)
  {
    if XMajor(x1, y1, x2, y2) {
      MajorPlotEnds(x1, y1, c1, x2, y2, c2, w, h);
    } else {
      MajorPlotEnds(y1, x1, c1, y2, x2, c2, h, w);
    }
  }

  /** Each step along the major axis draws at most one pixel. */
  lemma LineOnePixelPerStep(x1: int, y1: int, c1: Color32, x2: int, y2: int, c2: Color32,
                            w: int, h: int, x: int, y: int, x': int, y': int)
    requires LinePixel(x1, y1, c1, x2, y2, c2, w, h, x, y).Some?
    requires LinePixel(x1, y1, c1, x2, y2, c2, w, h, x', y').Some?
    ensures XMajor(x1, y1, x2, y2) && x == x' ==> y == y'
    ensures !XMajor(x1, y1, x2, y2) && y == y' ==> x == x'
  {
  }

  /** The same line with its end points exchanged: the same minor coordinates and ramp colours. */
  lemma {:induction false} MajorPlotReversed(a1: int, b1: int, c1: Color32, a2: int, b2: int, c2: Color32,
                                             aDim: int, bDim: int, a: int, b: int)
    requires a1 != a2
    ensures MajorPlot(a2, b2, c2, a1, b1, c1, aDim, bDim, a, b) == MajorPlot(a1, b1, c1, a2, b2, c2, aDim, bDim, a, b)
  {
    var d := (a2 - a1) as real;
    var t := (a - a1) as real / d;
    var t' := (a - a2) as real / (a1 - a2) as real;
    MulDivReal((a - a1) as real, d);
    MulDivReal((a - a2) as real, -d);
    DivRealUnique((a - a2) as real, (a1 - a2) as real, 1.0 - t);
    var s := (b2 - b1) as real / d;
    var s' := (b1 - b2) as real / (a1 - a2) as real;
    MulDivReal((b2 - b1) as real, d);
    DivRealUnique((b1 - b2) as real, (a1 - a2) as real, s);
    assert MinorAt(a2, b2, a1, b1, a) == MinorAt(a1, b1, a2, b2, a) by {
      assert b2 as real == b1 as real + d * s;
    }
    if Max(Min(a1, a2), 0) <= a <= Min(Max(a1, a2), aDim - 1) {
      RatioInUnit(a, a1, a2);
      LerpReversed(c1, c2, t);
    }
  }

  /** Drawing a line from either end gives the same picture, unless it is a single point. */
  lemma LineReversed(x1: int, y1: int, c1: Color32, x2: int, y2: int, c2: Color32,
                     w: int, h: int, x: int, y: int)
    requires !Degenerate(x1, y1, x2, y2)
    ensures LinePixel(x2, y2, c2, x1, y1, c1, w, h, x, y) == LinePixel(x1, y1, c1, x2, y2, c2, w, h, x, y)
  {
    if XMajor(x1, y1, x2, y2) {
      MajorPlotReversed(x1, y1, c1, x2, y2, c2, w, h, x, y);
    } else {
      MajorPlotReversed(y1, x1, c1, y2, x2, c2, h, w, y, x);
    }
  }
}
