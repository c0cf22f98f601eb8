/**
 * Blenders: how an incoming colour is combined with the colour already
 * in the destination. Each is a function of (dst, src).
 */
module Blend {
  import opened Util
  import opened Bytes
  import opened Color

  /** The shape every blender has, as the raster operations receive it. */
  type Blender = (Color32, Color32) -> Color32

  /** A luminance formula from red, green and blue to one gray level. */
  type Luma = (Byte, Byte, Byte) -> Byte

  /** Assign: the incoming colour replaces the destination. */
  function Assign(dst: Color32, src: Color32): (r: Color32)
    ensures r == src
  {
    src
  }

  predicate Between(r: int, a: int, b: int) {
    (a <= r <= b) || (b <= r <= a)
  }

  /**
   * One channel of AlphaBlend: `d += (a * (s - d)) >> 8` on a Uint8, with
   * the shift of a negative product taken as a floor shift.
   */
  function AlphaChannel(a: Byte, s: Byte, d: Byte): (r: Byte)
    ensures r == d + (a * (s - d)) / 256
    ensures Between(r, d, s)
  {
    AlphaStepBounds(a, s, d);
    (d + (a * (s - d)) / 256) % 256
  }

  /** The correction a * (s - d) / 256 moves d towards s and never past it. */
  lemma AlphaStepBounds(a: Byte, s: Byte, d: Byte)
    ensures Between(d + (a * (s - d)) / 256, d, s)
  {
    var diff := s as int - d as int;
    var p := a as int * diff;
    if diff >= 0 {
      MulMono(0, a, diff);
      MulMono(a, 255, diff);
      assert 0 <= p <= 255 * diff;
    } else {
      MulMono(0, a, -diff);
      MulMono(a, 255, -diff);
      assert a * (-diff) == -p;
      assert 255 * diff <= p <= 0;
    }
  }

  /**
   * AlphaBlend: every channel, alpha included, moves from dst towards src
   * in proportion to src's alpha. All four use dst's original values.
   */
  function AlphaBlend(dst: Color32, src: Color32): (r: Color32)
    ensures r.red == dst.red + (src.alpha * (src.red - dst.red)) / 256
    ensures r.green == dst.green + (src.alpha * (src.green - dst.green)) / 256
    ensures r.blue == dst.blue + (src.alpha * (src.blue - dst.blue)) / 256
    ensures r.alpha == dst.alpha + (src.alpha * (src.alpha - dst.alpha)) / 256
  {
    Color32(AlphaChannel(src.alpha, src.red, dst.red),
            AlphaChannel(src.alpha, src.green, dst.green),
            AlphaChannel(src.alpha, src.blue, dst.blue),
            AlphaChannel(src.alpha, src.alpha, dst.alpha))
  }

  /** Each channel of the blend lies between dst's and src's: nothing wraps. */
  lemma AlphaBlendBetween(dst: Color32, src: Color32)
    ensures var r := AlphaBlend(dst, src);
      Between(r.red, dst.red, src.red) && Between(r.green, dst.green, src.green) &&
      Between(r.blue, dst.blue, src.blue) && Between(r.alpha, dst.alpha, src.alpha)
  {
  }

  /** A fully transparent source leaves the destination as it was. */
  lemma AlphaBlendTransparent(dst: Color32, src: Color32)
    requires src.alpha == 0
    ensures AlphaBlend(dst, src) == dst
  {
  }

  /** Equal channels stay as they are, whatever the alpha. */
  lemma AlphaBlendSameColour(c: Color32, a: Byte)
    ensures AlphaBlend(c, c.(alpha := a)) == c.(alpha := AlphaChannel(a, a, c.alpha))
  {
  }

  /**
   * Even a fully opaque source (alpha 255) does not reach a brighter source
   * channel: the division by 256 leaves it one short. A darker one is reached.
   */
  lemma {:induction false} AlphaOpaqueChannel(s: Byte, d: Byte)
    ensures s > d ==> AlphaChannel(255, s, d) == s - 1
    ensures s <= d ==> AlphaChannel(255, s, d) == s
  {
    var diff := s as int - d as int;
    if diff > 0 {
      assert 255 * diff == 256 * (diff - 1) + (256 - diff);
      assert (255 * diff) / 256 == diff - 1;
    } else if diff < 0 {
      assert 255 * diff == 256 * diff + (-diff);
      assert (255 * diff) / 256 == diff;
    }
  }

  /** ColorKey(key): a source equal to the key (alpha ignored) is transparent. */
  function ColorKey(key: Color32, dst: Color32, src: Color32): (r: Color32)
    ensures Equal(src, key) ==> r == dst
    ensures !Equal(src, key) ==> r == src
  {
    if Equal(src, key) then dst else src
  }

  /** ColorKey keeps the destination exactly when the source is keyed out (or already equal to it). */
  lemma ColorKeyKeepsDstIff(key: Color32, dst: Color32, src: Color32)
    ensures ColorKey(key, dst, src) == dst <==> (Equal(src, key) || src == dst)
  {
  }

  /** Only red, green and blue of the source decide whether it is keyed out. */
  lemma ColorKeyIgnoresAlpha(key: Color32, dst: Color32, src: Color32, a: Byte, k: Byte)
    ensures Equal(src, key) <==> Equal(src.(alpha := a), key.(alpha := k))
    ensures Equal(src, key) ==> ColorKey(key.(alpha := k), dst, src.(alpha := a)) == ColorKey(key, dst, src)
  {
  }

  /** Grayscale: the source's gray level in red, green and blue, alpha 255; dst is not used. */
  function Grayscale(luma: Luma, dst: Color32, src: Color32): (r: Color32)
    ensures r.red == r.green == r.blue == luma(src.red, src.green, src.blue)
    ensures r.alpha == ChannelMax
  {
    var gray := luma(src.red, src.green, src.blue);
    Color32(gray, gray, gray, ChannelMax)
  }

  /** Grayscale's result does not depend on the destination. */
  lemma GrayscaleIgnoresDst(luma: Luma, d1: Color32, d2: Color32, src: Color32)
    ensures Grayscale(luma, d1, src) == Grayscale(luma, d2, src)
  {
  }

  /** FillGrayscale: Grayscale with the two arguments exchanged, so the destination is grayed. */
  function FillGrayscale(luma: Luma, dst: Color32, src: Color32): (r: Color32)
    ensures r.red == r.green == r.blue == luma(dst.red, dst.green, dst.blue)
    ensures r.alpha == ChannelMax
  {
    Grayscale(luma, src, dst)
  }

  /** FillGrayscale's result does not depend on the incoming colour. */
  lemma FillGrayscaleIgnoresSrc(luma: Luma, dst: Color32, s1: Color32, s2: Color32)
    ensures FillGrayscale(luma, dst, s1) == FillGrayscale(luma, dst, s2)
    ensures FillGrayscale(luma, dst, s1) == Grayscale(luma, s2, dst)
  {
  }
}
