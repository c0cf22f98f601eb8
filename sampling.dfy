/** Samplers: how Blit picks a source colour for texture coordinates (u, v) in [0, 1]. */
module Sampling {
  import opened Util
  import opened Color

  /** What a sampler sees of the source image: its size and its pixels, row-major. */
  datatype View = View(width: int, height: int, pixels: seq<Color32>)

  /** The shape of a sampler as Blit receives it. */
  type Sampler = (View, real, real) -> Color32

  /** The column (or row) Nearest picks along an axis of n pixels: (Sint32)((n - 1) * u). */
  function NearestIndex(n: int, u: real): (i: int)
    ensures 1 <= n && 0.0 <= u <= 1.0 ==> 0 <= i < n
  {
    if 1 <= n && 0.0 <= u <= 1.0 then
      MulUnitReal((n - 1) as real, u);
      TruncNonNegative((n - 1) as real * u, n);
      Trunc((n - 1) as real * u)
    else Trunc((n - 1) as real * u)
  }

  /**
   * Nearest: the pixel at row NearestIndex(height, v), column
   * NearestIndex(width, u), addressed as the source does, through the row
   * pointer, so a column past the row's end lands in the next row. An
   * address outside the pixel buffer has no defined colour in the source;
   * here it reads as Zero.
   */
  function Nearest(img: View, u: real, v: real): (c: Color32)
    ensures c in img.pixels || c == Zero()
  {
    var i := NearestIndex(img.height, v) * img.width + NearestIndex(img.width, u);
    if 0 <= i < |img.pixels| then img.pixels[i] else Zero()
  }

  /** A coordinate that scales into the cell of index c picks index c. */
  lemma NearestIndexInCell(n: int, u: real, c: int)
    requires 0 <= c < n
    requires c as real <= (n - 1) as real * u < c as real + 1.0
    ensures NearestIndex(n, u) == c
  {
    TruncInCell((n - 1) as real * u, c);
  }

  /** Nearest reads the flat index its row and column give, when that index is in the buffer. */
  lemma NearestReadsIndex(img: View, u: real, v: real, c: int, r: int)
    requires NearestIndex(img.width, u) == c && NearestIndex(img.height, v) == r
    requires 0 <= r * img.width + c < |img.pixels|
    ensures Nearest(img, u, v) == img.pixels[r * img.width + c]
  {
  }

  /** Coordinates that scale into the cell of column c and row r pick exactly that pixel. */
  lemma NearestPicksCell(img: View, u: real, v: real, c: int, r: int)
    requires |img.pixels| == img.width * img.height
    requires 0 <= c < img.width && 0 <= r < img.height
    requires c as real <= (img.width - 1) as real * u < c as real + 1.0
    requires r as real <= (img.height - 1) as real * v < r as real + 1.0
    ensures 0 <= r * img.width + c < |img.pixels|
    ensures Nearest(img, u, v) == img.pixels[r * img.width + c]
  {
    NearestIndexInCell(img.width, u, c);
    NearestIndexInCell(img.height, v, r);
    FlatIndex(c, r, img.width, img.height);
    NearestReadsIndex(img, u, v, c, r);
  }

  /** At the grid point (c / (width - 1), r / (height - 1)) Nearest returns pixel (c, r). */
  lemma NearestAtGridPoint(img: View, c: int, r: int)
    requires |img.pixels| == img.width * img.height
    requires img.width >= 2 && img.height >= 2
    requires 0 <= c < img.width && 0 <= r < img.height
    ensures 0 <= r * img.width + c < |img.pixels|
    ensures Nearest(img, c as real / (img.width - 1) as real, r as real / (img.height - 1) as real)
         == img.pixels[r * img.width + c]
  {
    var u := c as real / (img.width - 1) as real;
    var v := r as real / (img.height - 1) as real;
    MulDivReal(c as real, (img.width - 1) as real);
    MulDivReal(r as real, (img.height - 1) as real);
    NearestPicksCell(img, u, v, c, r);
  }
}
