/**
 * Image::Blit: copying a part of one image, scaled, onto a part of another,
 * through a blender. The in-memory version samples the source image at
 * texture coordinates; the stream version reads the source file row by row
 * with 16.16 fixed-point indexing.
 */
module Blitting {
  import opened Util
  import opened Bytes
  import opened Color
  import opened Blend
  import opened ByteStream
  import opened Sampling
  import opened BlitGeometry
  import opened Gfx
  import NativeFormat

  /** What a sampler sees of an image: its size and a snapshot of its pixels. */
  function SourceView(img: Image): (v: View)
    reads img, img.pixels
    ensures img.pixels != null ==> v == View(img.width, img.height, img.pixels[..])
  {
    if img.pixels == null then View(0, 0, []) else View(img.width, img.height, img.pixels[..])
  }

  /**
   * The horizontal axis of an in-memory Blit from a source of width sw onto
   * a destination of width dw, clipped as the source writes it.
   */
  function BlitX(sw: int, sx1: int, sx2: int, dx1: int, dx2: int, dw: int): (a: Axis)
    ensures a.lo == Max(0, Min(dx1, dx2)) && a.hi == Min(dw, Max(dx1, dx2))
    ensures dx1 != dx2 ==> Uv(Max(0, sx1), sw) + (dx2 - dx1) as real * a.step == Uv(Min(sw, sx2), sw)
  {
    ClipAxisAsWritten(Uv(Max(0, sx1), sw), Uv(Min(sw, sx2), sw), dx1, dx2, dw)
  }

  /** The vertical axis, likewise. */
  function BlitY(sh: int, sy1: int, sy2: int, dy1: int, dy2: int, dh: int): (a: Axis)
    ensures a.lo == Max(0, Min(dy1, dy2)) && a.hi == Min(dh, Max(dy1, dy2))
    ensures dy1 != dy2 ==> Uv(Max(0, sy1), sh) + (dy2 - dy1) as real * a.step == Uv(Min(sh, sy2), sh)
  {
    ClipAxisAsWritten(Uv(Max(0, sy1), sh), Uv(Min(sh, sy2), sh), dy1, dy2, dh)
  }

  /** The horizontal axis with the corrected clipping of a reversed range. */
  function BlitXCorrected(sw: int, sx1: int, sx2: int, dx1: int, dx2: int, dw: int): (a: Axis)
    ensures a.lo == Max(0, Min(dx1, dx2)) && a.hi == Min(dw, Max(dx1, dx2))
    ensures dx1 != dx2 ==> Uv(Max(0, sx1), sw) + (dx2 - dx1) as real * a.step == Uv(Min(sw, sx2), sw)
  {
    ClipAxis(Uv(Max(0, sx1), sw), Uv(Min(sw, sx2), sw), dx1, dx2, dw)
  }

  /** The vertical axis with the corrected clipping, likewise. */
  function BlitYCorrected(sh: int, sy1: int, sy2: int, dy1: int, dy2: int, dh: int): (a: Axis)
    ensures a.lo == Max(0, Min(dy1, dy2)) && a.hi == Min(dh, Max(dy1, dy2))
    ensures dy1 != dy2 ==> Uv(Max(0, sy1), sh) + (dy2 - dy1) as real * a.step == Uv(Min(sh, sy2), sh)
  {
    ClipAxis(Uv(Max(0, sy1), sh), Uv(Min(sh, sy2), sh), dy1, dy2, dh)
  }

  /** The two clippings only differ on a reversed range: a forward Blit walks the same axes either way. */
  lemma ForwardBlitAxesAgree(sw: int, sx1: int, sx2: int, dx1: int, dx2: int, dw: int)
    requires dx1 <= dx2
    ensures BlitXCorrected(sw, sx1, sx2, dx1, dx2, dw) == BlitX(sw, sx1, sx2, dx1, dx2, dw)
    ensures BlitYCorrected(sw, sx1, sx2, dx1, dx2, dw) == BlitY(sw, sx1, sx2, dx1, dx2, dw)
  {
    ClipAxisForward(Uv(Max(0, sx1), sw), Uv(Min(sw, sx2), sw), dx1, dx2, dw);
  }

  /**
   * The in-memory Blit. Nothing happens unless both images have pixels.
   * Then each destination pixel (X, Y) that both clipped axes cover becomes
   * blend(pixel, sample(source, u, v)), u and v being the texture
   * coordinates the two walks reach at X and Y; every other pixel keeps
   * its colour. The source and destination must not share their pixels.
   */
  method Blit(dst: Image, dx1: int, dy1: int, dx2: int, dy2: int, src: Image,
              blend: Blender, sample: Sampler,
              sx1: int := 0, sy1: int := 0, sx2: int := MaxDimension, sy2: int := MaxDimension)
    requires dst.Valid() && src.Valid()
    requires src.pixels == null || src.pixels != dst.pixels
    modifies dst.pixels
    ensures dst.pixels != null ==> forall i :: 0 <= i < dst.pixels.Length ==>
      var ax := BlitX(src.width, sx1, sx2, dx1, dx2, dst.width);
      var ay := BlitY(src.height, sy1, sy2, dy1, dy2, dst.height);
      dst.pixels[i] ==
        if src.IsGood() && Covers(ax, i % dst.width) && Covers(ay, i / dst.width)
        then blend(old(dst.pixels[i]), sample(SourceView(src), SampleAt(ax, i % dst.width), SampleAt(ay, i / dst.width)))
        else old(dst.pixels[i])
  {
    if src.pixels == null || dst.pixels == null {
      return;
    }
    var view := SourceView(src);
    // clamp the source rectangle to the source image
    var csx1 := if 0 > sx1 then 0 else sx1;
    var csy1 := if 0 > sy1 then 0 else sy1;
    var csx2 := if src.width < sx2 then src.width else sx2;
    var csy2 := if src.height < sy2 then src.height else sy2;
    var ax := ClipRange(Uv(csx1, src.width), Uv(csx2, src.width), dx1, dx2, dst.width);
    var ay := ClipRange(Uv(csy1, src.height), Uv(csy2, src.height), dy1, dy2, dst.height);
    var maxY := ay.hi - ay.lo;
    var maxX := ax.hi - ax.lo;
    if maxX < 0 || maxY < 0 {
      return;
    }
    BlitRows(dst.pixels, dst.width, dst.height, ax, ay, view, blend, sample);
  }

  /**
   * Blit with the corrected clipping: a reversed destination range mirrors
   * the source, walking the samples of the forward range backwards.
   */
  method BlitCorrected(dst: Image, dx1: int, dy1: int, dx2: int, dy2: int, src: Image,
                       blend: Blender, sample: Sampler,
                       sx1: int := 0, sy1: int := 0, sx2: int := MaxDimension, sy2: int := MaxDimension)
    requires dst.Valid() && src.Valid()
    requires src.pixels == null || src.pixels != dst.pixels
    modifies dst.pixels
    ensures dst.pixels != null ==> forall i :: 0 <= i < dst.pixels.Length ==>
      var ax := BlitXCorrected(src.width, sx1, sx2, dx1, dx2, dst.width);
      var ay := BlitYCorrected(src.height, sy1, sy2, dy1, dy2, dst.height);
      dst.pixels[i] ==
        if src.IsGood() && Covers(ax, i % dst.width) && Covers(ay, i / dst.width)
        then blend(old(dst.pixels[i]), sample(SourceView(src), SampleAt(ax, i % dst.width), SampleAt(ay, i / dst.width)))
        else old(dst.pixels[i])
  {
    if src.pixels == null || dst.pixels == null {
      return;
    }
    var view := SourceView(src);
    var ax := BlitXCorrected(src.width, sx1, sx2, dx1, dx2, dst.width);
    var ay := BlitYCorrected(src.height, sy1, sy2, dy1, dy2, dst.height);
    if ax.hi - ax.lo < 0 || ay.hi - ay.lo < 0 {
      return;
    }
    BlitRows(dst.pixels, dst.width, dst.height, ax, ay, view, blend, sample);
  }

  /**
   * Blit with the default blender and sampler: each covered destination
   * pixel becomes the Nearest source pixel, every other keeps its colour.
   */
  method BlitAssign(dst: Image, dx1: int, dy1: int, dx2: int, dy2: int, src: Image,
                    sx1: int := 0, sy1: int := 0, sx2: int := MaxDimension, sy2: int := MaxDimension)
    requires dst.Valid() && src.Valid()
    requires src.pixels == null || src.pixels != dst.pixels
    modifies dst.pixels
    ensures dst.pixels != null ==> forall i :: 0 <= i < dst.pixels.Length ==>
      var ax := BlitX(src.width, sx1, sx2, dx1, dx2, dst.width);
      var ay := BlitY(src.height, sy1, sy2, dy1, dy2, dst.height);
      dst.pixels[i] ==
        if src.IsGood() && Covers(ax, i % dst.width) && Covers(ay, i / dst.width)
        then Nearest(SourceView(src), SampleAt(ax, i % dst.width), SampleAt(ay, i / dst.width))
        else old(dst.pixels[i])
  {
    Blit(dst, dx1, dy1, dx2, dy2, src, Assign, Nearest, sx1, sy1, sx2, sy2);
  }

  /** Blit with a given blender and the default Nearest sampler. */
  method BlitNearest(dst: Image, dx1: int, dy1: int, dx2: int, dy2: int, src: Image, blend: Blender,
                     sx1: int := 0, sy1: int := 0, sx2: int := MaxDimension, sy2: int := MaxDimension)
    requires dst.Valid() && src.Valid()
    requires src.pixels == null || src.pixels != dst.pixels
    modifies dst.pixels
    ensures dst.pixels != null ==> forall i :: 0 <= i < dst.pixels.Length ==>
      var ax := BlitX(src.width, sx1, sx2, dx1, dx2, dst.width);
      var ay := BlitY(src.height, sy1, sy2, dy1, dy2, dst.height);
      dst.pixels[i] ==
        if src.IsGood() && Covers(ax, i % dst.width) && Covers(ay, i / dst.width)
        then blend(old(dst.pixels[i]), Nearest(SourceView(src), SampleAt(ax, i % dst.width), SampleAt(ay, i / dst.width)))
        else old(dst.pixels[i])
  {
    Blit(dst, dx1, dy1, dx2, dy2, src, blend, Nearest, sx1, sy1, sx2, sy2);
  }

  /**
   * The clipping of one destination axis: a reversed range is swapped
   * together with its texture coordinates, a start below 0 moves to 0 with
   * the walk advanced to match, and the end is clamped to dim.
   */
  method ClipRange(t1: real, t2: real, d1: int, d2: int, dim: int) returns (a: Axis)
    ensures a == ClipAxisAsWritten(t1, t2, d1, d2, dim)
  {
    var step := Step(t1, t2, d1, d2);
    var lo, hi, start := d1, d2, t1;
    if hi < lo {
      lo, hi := hi, lo;
      start := t2;
      if lo < 0 {
        start := start - step * lo as real;
        lo := 0;
      }
    } else if lo < 0 {
      start := start + step * (-lo) as real;
      lo := 0;
    }
    hi := if dim < hi then dim else hi;
    a := Axis(lo, hi, start, step);
  }

  /**
   * The scanlines of Blit: row by row, v walking down the vertical axis,
   * the covered pixels are blended with their samples.
   */
  method BlitRows(pixels: array<Color32>, width: int, height: int, ax: Axis, ay: Axis,
                  view: View, blend: Blender, sample: Sampler)
    requires pixels.Length == width * height
    requires 0 <= ax.lo && ax.hi <= width && 0 <= ay.lo && ay.hi <= height
    modifies pixels
    ensures forall i :: 0 <= i < pixels.Length ==>
      pixels[i] ==
        if Covers(ax, i % width) && Covers(ay, i / width)
        then blend(old(pixels[i]), sample(view, SampleAt(ax, i % width), SampleAt(ay, i / width)))
        else old(pixels[i])
  {
    var y := 0;
    var v := ay.start;
    while y < ay.hi - ay.lo
      invariant 0 <= y && (y <= ay.hi - ay.lo || y == 0)
      invariant v == ay.start + y as real * ay.step
      invariant forall i :: 0 <= i < pixels.Length ==>
        pixels[i] ==
          if Covers(ax, i % width) && Covers(ay, i / width) && i / width < ay.lo + y
          then blend(old(pixels[i]), sample(view, SampleAt(ax, i % width), SampleAt(ay, i / width)))
          else old(pixels[i])
    {
      assert SampleAt(ay, ay.lo + y) == v;
      BlitRow(pixels, width, height, ay.lo + y, ax, v, view, blend, sample);
      v := v + ay.step;
      y := y + 1;
    }
  }

  /**
   * One scanline of Blit: the covered pixels of row y become
   * blend(pixel, sample(view, u, v)), u walking along the axis; nothing else changes.
   */
  method BlitRow(pixels: array<Color32>, width: int, height: int, y: int, ax: Axis, v: real,
                 view: View, blend: Blender, sample: Sampler)
    requires pixels.Length == width * height && 0 <= y < height
    requires 0 <= ax.lo && ax.hi <= width
    modifies pixels
    ensures forall i :: 0 <= i < pixels.Length ==>
      pixels[i] ==
        if i / width == y && Covers(ax, i % width)
        then blend(old(pixels[i]), sample(view, SampleAt(ax, i % width), v))
        else old(pixels[i])
  {
    var row := y * width;
    var u := ax.start;
    var x := 0;
    while x < ax.hi - ax.lo
      invariant 0 <= x && (x <= ax.hi - ax.lo || x == 0)
      invariant u == ax.start + x as real * ax.step
      invariant forall i :: 0 <= i < pixels.Length ==>
        pixels[i] ==
          if i / width == y && Covers(ax, i % width) && i % width < ax.lo + x
          then blend(old(pixels[i]), sample(view, SampleAt(ax, i % width), v))
          else old(pixels[i])
    {
      var X := x + ax.lo;
      FlatIndex(X, y, width, height);
      assert SampleAt(ax, X) == u;
      pixels[row + X] := blend(pixels[row + X], sample(view, u, v));
      forall i | 0 <= i < pixels.Length
        ensures (i % width == X && i / width == y) <==> i == row + X
      {
        SameCell(i, X, y, width);
      }
      u := u + ax.step;
      x := x + 1;
    }
  }

  // ---------------------------------------------------------------------
  // Streaming from a file

  /** One in the 16.16 fixed-point format the stream Blit scales with. */
  const FixedOne: int := 65536

  /**
   * The fixed-point scale (Sint32)((float)s / (float)d * (1 << 16)), with the
   * quotient taken exactly. A zero d (a division by zero in the source)
   * only arises when no pixel is written; the model takes 0.
   */
  function ScaleOf(s: int, d: int): int {
    if d == 0 then 0 else TruncDiv(s * FixedOne, d)
  }

  /**
   * For a non-negative source extent the scale is s * 2^16 / d truncated
   * toward zero: the largest multiple of |d| not above s * 2^16, with the
   * sign of d.
   */
  lemma ScaleOfTruncates(s: int, d: int)
    ensures d == 0 ==> ScaleOf(s, d) == 0
    ensures d > 0 && s >= 0 ==> var k := ScaleOf(s, d);
      0 <= k && k * d <= s * FixedOne < (k + 1) * d
    ensures d < 0 && s >= 0 ==> var k := ScaleOf(s, d);
      k <= 0 && (-k) * (-d) <= s * FixedOne < (-k + 1) * (-d)
  {
    if d != 0 {
      DivBounds(Abs(s * FixedOne), Abs(d));
    }
  }

  /** The quotient of a non-negative a by a positive b is the largest q with q * b <= a. */
  lemma DivBounds(a: int, b: int)
    requires 0 <= a && 0 < b
    ensures 0 <= a / b && (a / b) * b <= a < (a / b + 1) * b
  {
    var q, r := a / b, a % b;
    assert a == q * b + r && 0 <= r < b;
    assert (q + 1) * b == q * b + b;
    if q < 0 {
      MulMono(q, -1, b);
    }
  }

  /**
   * The quantities the stream Blit derives before its loops: the clamped
   * source rectangle, the two scales, the read offset (sx, sy) of a
   * destination that starts off the image, the clamped destination start
   * and the writable extent maxX x maxY.
   */
  datatype StreamPlan = StreamPlan(
    sx1: int, sy1: int, sx2: int, sy2: int,
    scaleX: int, scaleY: int, sx: int, sy: int,
    x1: int, y1: int, maxX: int, maxY: int)

  function PlanStream(dw: int, dh: int, dx1: int, dy1: int, dx2: int, dy2: int,
                      sw: int, sh: int, sx1: int, sy1: int, sx2: int, sy2: int): (p: StreamPlan)
    ensures p.sx1 == Max(0, sx1) && p.sy1 == Max(0, sy1)
    ensures p.sx2 == Min(sw, sx2) && p.sy2 == Min(sh, sy2)
    ensures p.x1 == Max(0, dx1) && p.y1 == Max(0, dy1)
    ensures p.maxX == Min(dw, dx2) - Max(0, dx1) && p.maxY == Min(dh, dy2) - Max(0, dy1)
  {
    var csx1, csy1 := Max(0, sx1), Max(0, sy1);
    var csx2, csy2 := Min(sw, sx2), Min(sh, sy2);
    StreamPlan(csx1, csy1, csx2, csy2,
               ScaleOf(csx2 - csx1, dx2 - dx1), ScaleOf(csy2 - csy1, dy2 - dy1),
               if dx1 < 0 then -dx1 else 0, if dy1 < 0 then -dy1 else 0,
               Max(0, dx1), Max(0, dy1), Min(dw, dx2) - Max(0, dx1), Min(dh, dy2) - Max(0, dy1))
  }

  /** The number of pixels in a source row span, which is the length of the row buffer. */
  function SpanOf(p: StreamPlan): int {
    p.sx2 - p.sx1
  }

  /** Whether the Blit passes its early return: neither extent is negative. */
  predicate Proceeds(p: StreamPlan) {
    p.maxX >= 0 && p.maxY >= 0
  }

  /** The row-buffer index destination column x1 + x reads: (SCALEX * (x + sx)) >> 16. */
  function ColumnOf(p: StreamPlan, x: int): int {
    (p.scaleX * (x + p.sx)) / FixedOne
  }

  /** The source row destination row y1 + y reads: ((SCALEY * (y + sy)) >> 16) + sy1. */
  function SourceRowOf(p: StreamPlan, y: int): int {
    (p.scaleY * (y + p.sy)) / FixedOne + p.sy1
  }

  /** The byte offset the stream seeks to for destination row y1 + y. */
  function RowOffset(p: StreamPlan, sw: int, dataStart: int, y: int): int {
    SourceRowOf(p, y) * (sw * TypeSize) + (p.sx1 * TypeSize + dataStart)
  }

  /**
   * The two shifts by 16 are arithmetic: they round toward minus infinity,
   * so the column and the row are the floors of the scaled positions.
   */
  lemma ShiftsFloor(p: StreamPlan, x: int, y: int)
    ensures var c := ColumnOf(p, x);
      c * FixedOne <= p.scaleX * (x + p.sx) < (c + 1) * FixedOne
    ensures var r := SourceRowOf(p, y);
      (r - p.sy1) * FixedOne <= p.scaleY * (y + p.sy) < (r - p.sy1 + 1) * FixedOne
  {
  }

  /** The seek offset of a scanline is the byte of pixel (sx1, row) in a file of sw-pixel rows after dataStart. */
  lemma RowOffsetOfPixel(p: StreamPlan, sw: int, dataStart: int, y: int)
    ensures RowOffset(p, sw, dataStart, y) == dataStart + TypeSize * (SourceRowOf(p, y) * sw + p.sx1)
  {
  }

  /**
   * The stream and the bytes of the row buffer after the first n scanlines:
   * the buffer starts as default pixels, and each scanline seeks to its row
   * and reads a whole span of pixel bytes over the buffer.
   */
  function RowsRead(data: seq<Byte>, p: StreamPlan, sw: int, dataStart: int, n: nat): (r: (InStream, seq<Byte>))
    requires SpanOf(p) >= 0
    ensures |r.1| == TypeSize * SpanOf(p)
  {
    if n == 0 then (Open(data), PixelBytes(Zeros(SpanOf(p))))
    else
      var prev := RowsRead(data, p, sw, dataStart, n - 1);
      Read(Seek(prev.0, RowOffset(p, sw, dataStart, n - 1)), prev.1, TypeSize * SpanOf(p))
  }

  /** The row buffer's pixels after the first n scanlines. */
  function RowBuffer(data: seq<Byte>, p: StreamPlan, sw: int, dataStart: int, n: nat): (buf: seq<Color32>)
    requires SpanOf(p) >= 0
    ensures |buf| == SpanOf(p)
  {
    PixelsOf(RowsRead(data, p, sw, dataStart, n).1)
  }

  /** Before the first scanline the row buffer holds default pixels. */
  lemma RowBufferInitial(data: seq<Byte>, p: StreamPlan, sw: int, dataStart: int)
    requires SpanOf(p) >= 0
    ensures RowBuffer(data, p, sw, dataStart, 0) == Zeros(SpanOf(p))
  {
    PixelBytesRoundTrip(Zeros(SpanOf(p)));
  }

  /** The row buffers as the first n scanlines leave them, one per scanline. */
  function RowBuffers(data: seq<Byte>, p: StreamPlan, sw: int, dataStart: int, n: nat): (r: seq<seq<Color32>>)
    requires SpanOf(p) >= 0
    ensures |r| == n
  {
    if n == 0 then [] else RowBuffers(data, p, sw, dataStart, n - 1) + [RowBuffer(data, p, sw, dataStart, n)]
  }

  lemma {:induction false} RowBuffersAt(data: seq<Byte>, p: StreamPlan, sw: int, dataStart: int, n: nat, k: nat)
    requires SpanOf(p) >= 0 && k < n
    ensures RowBuffers(data, p, sw, dataStart, n)[k] == RowBuffer(data, p, sw, dataStart, k + 1)
  {
    if k < n - 1 {
      RowBuffersAt(data, p, sw, dataStart, n - 1, k);
    }
  }

  /** A scaled index (scale * k) >> 16 with 0 <= k < d lies in [0, s) when the scale is s / d in 16.16. */
  lemma {:induction false} ScaledIndexInRange(s: int, d: int, k: int)
    requires 0 < s && 0 <= k < d
    ensures 0 <= ScaleOf(s, d)
    ensures 0 <= (ScaleOf(s, d) * k) / FixedOne < s
  {
    var sc := ScaleOf(s, d);
    assert sc == (s * FixedOne) / d;
    assert sc * d <= s * FixedOne;
    MulMono(0, sc, k);
    if sc > 0 {
      MulMono(k, d - 1, sc);
      assert sc * k <= sc * (d - 1) == sc * d - sc;
    }
    assert sc * k < s * FixedOne;
  }

  /** Every row-buffer index the stream Blit reads lies inside the buffer. */
  lemma ColumnInRange(dw: int, dh: int, dx1: int, dy1: int, dx2: int, dy2: int,
                      sw: int, sh: int, sx1: int, sy1: int, sx2: int, sy2: int, x: int)
    requires var p := PlanStream(dw, dh, dx1, dy1, dx2, dy2, sw, sh, sx1, sy1, sx2, sy2);
      SpanOf(p) > 0 && 0 <= x < p.maxX
    ensures var p := PlanStream(dw, dh, dx1, dy1, dx2, dy2, sw, sh, sx1, sy1, sx2, sy2);
      0 <= ColumnOf(p, x) < SpanOf(p)
  {
    var p := PlanStream(dw, dh, dx1, dy1, dx2, dy2, sw, sh, sx1, sy1, sx2, sy2);
    ScaledIndexInRange(SpanOf(p), dx2 - dx1, x + p.sx);
  }

  /** Whether every row-buffer index the writable columns read lies inside the buffer. */
  predicate ColumnsFit(p: StreamPlan) {
    forall x :: 0 <= x < p.maxX ==> 0 <= ColumnOf(p, x) < SpanOf(p)
  }

  /** The plan of every stream Blit that gets past its requirements reads only inside the row buffer. */
  lemma PlanColumnsFit(dw: int, dh: int, dx1: int, dy1: int, dx2: int, dy2: int,
                       sw: int, sh: int, sx1: int, sy1: int, sx2: int, sy2: int)
    requires var p := PlanStream(dw, dh, dx1, dy1, dx2, dy2, sw, sh, sx1, sy1, sx2, sy2);
      p.maxX > 0 ==> SpanOf(p) > 0
    ensures ColumnsFit(PlanStream(dw, dh, dx1, dy1, dx2, dy2, sw, sh, sx1, sy1, sx2, sy2))
  {
    forall x | 0 <= x < PlanStream(dw, dh, dx1, dy1, dx2, dy2, sw, sh, sx1, sy1, sx2, sy2).maxX {
      ColumnInRange(dw, dh, dx1, dy1, dx2, dy2, sw, sh, sx1, sy1, sx2, sy2, x);
    }
  }

  /** Every source row the stream Blit seeks to lies in the clamped source rows [sy1, sy2), when there are any. */
  lemma SourceRowInRange(dw: int, dh: int, dx1: int, dy1: int, dx2: int, dy2: int,
                         sw: int, sh: int, sx1: int, sy1: int, sx2: int, sy2: int, y: int)
    requires var p := PlanStream(dw, dh, dx1, dy1, dx2, dy2, sw, sh, sx1, sy1, sx2, sy2);
      p.sy1 < p.sy2 && 0 <= y < p.maxY
    ensures var p := PlanStream(dw, dh, dx1, dy1, dx2, dy2, sw, sh, sx1, sy1, sx2, sy2);
      p.sy1 <= SourceRowOf(p, y) < p.sy2 && SourceRowOf(p, y) < sh
  {
    var p := PlanStream(dw, dh, dx1, dy1, dx2, dy2, sw, sh, sx1, sy1, sx2, sy2);
    ScaledIndexInRange(p.sy2 - p.sy1, dy2 - dy1, y + p.sy);
  }

  /** Whether every source row the writable rows seek to lies in an image of sh rows. */
  predicate RowsFit(p: StreamPlan, sh: int) {
    forall y :: 0 <= y < p.maxY ==> 0 <= SourceRowOf(p, y) < sh
  }

  /** The plan of a stream Blit whose clamped source rows are not empty seeks only to rows of the image. */
  lemma PlanRowsFit(dw: int, dh: int, dx1: int, dy1: int, dx2: int, dy2: int,
                    sw: int, sh: int, sx1: int, sy1: int, sx2: int, sy2: int)
    requires var p := PlanStream(dw, dh, dx1, dy1, dx2, dy2, sw, sh, sx1, sy1, sx2, sy2);
      p.sy1 < p.sy2
    ensures RowsFit(PlanStream(dw, dh, dx1, dy1, dx2, dy2, sw, sh, sx1, sy1, sx2, sy2), sh)
  {
    forall y | 0 <= y < PlanStream(dw, dh, dx1, dy1, dx2, dy2, sw, sh, sx1, sy1, sx2, sy2).maxY {
      SourceRowInRange(dw, dh, dx1, dy1, dx2, dy2, sw, sh, sx1, sy1, sx2, sy2, y);
    }
  }

  /**
   * The scanlines' reads on data holding a w x h image's pixels after the
   * 12-byte header, as a file Save wrote does: while the rows fit, no read
   * fails, and after scanline y the row buffer holds the source pixels
   * sx1 .. sx2 of row SourceRowOf(y).
   */
  lemma RowsReadOfPixels(data: seq<Byte>, w: int, h: int, pix: seq<Color32>, p: StreamPlan, y: nat)
    requires 0 < w && |pix| == w * h && |data| == HeaderSize + 4 * |pix| && data[HeaderSize..] == PixelBytes(pix)
    requires 0 <= p.sx1 <= p.sx2 <= w && y < p.maxY && RowsFit(p, h)
    ensures !RowsRead(data, p, w, HeaderSize, y + 1).0.fail
    ensures 0 <= SourceRowOf(p, y) * w + p.sx1 && SourceRowOf(p, y) * w + p.sx2 <= |pix|
    ensures RowBuffer(data, p, w, HeaderSize, y + 1) ==
      pix[SourceRowOf(p, y) * w + p.sx1 .. SourceRowOf(p, y) * w + p.sx2]
  {
    RowsReadStaysGood(data, w, h, pix, p, y);
    assert 0 <= SourceRowOf(p, y) < h;
    RowsReadStep(data, w, h, pix, p, y);
  }

  /** Reading a saved file whose rows all fit never sets the fail bit. */
  lemma {:induction false} RowsReadStaysGood(data: seq<Byte>, w: int, h: int, pix: seq<Color32>, p: StreamPlan, y: nat)
    requires 0 < w && |pix| == w * h && |data| == HeaderSize + 4 * |pix| && data[HeaderSize..] == PixelBytes(pix)
    requires 0 <= p.sx1 <= p.sx2 <= w && y <= p.maxY && RowsFit(p, h)
    ensures !RowsRead(data, p, w, HeaderSize, y).0.fail
  {
    if y > 0 {
      RowsReadStaysGood(data, w, h, pix, p, y - 1);
      assert 0 <= SourceRowOf(p, y - 1) < h;
      RowsReadStep(data, w, h, pix, p, y - 1);
    }
  }


  /** One scanline of RowsReadOfPixels: from a good stream, scanline y reads its row's span. */
  lemma RowsReadStep(data: seq<Byte>, w: int, h: int, pix: seq<Color32>, p: StreamPlan, y: nat)
    requires 0 < w && |pix| == w * h && |data| == HeaderSize + 4 * |pix| && data[HeaderSize..] == PixelBytes(pix)
    requires 0 <= p.sx1 <= p.sx2 <= w && 0 <= SourceRowOf(p, y) < h
    requires !RowsRead(data, p, w, HeaderSize, y).0.fail
    ensures !RowsRead(data, p, w, HeaderSize, y + 1).0.fail
    ensures 0 <= SourceRowOf(p, y) * w + p.sx1 && SourceRowOf(p, y) * w + p.sx2 <= |pix|
    ensures RowBuffer(data, p, w, HeaderSize, y + 1) ==
      pix[SourceRowOf(p, y) * w + p.sx1 .. SourceRowOf(p, y) * w + p.sx2]
  {
    var row := SourceRowOf(p, y);
    RowSpanOffset(p, w, h, y);
    RowsReadNext(data, pix, p, w, y, row * w + p.sx1, row * w + p.sx2);
  }

  /** The read of scanline y, once its seek offset is known to be the header plus pixel lo's bytes. */
  lemma RowsReadNext(data: seq<Byte>, pix: seq<Color32>, p: StreamPlan, w: int, y: nat, lo: int, hi: int)
    requires |data| == HeaderSize + 4 * |pix| && data[HeaderSize..] == PixelBytes(pix)
    requires 0 <= lo <= hi <= |pix| && hi - lo == SpanOf(p)
    requires RowOffset(p, w, HeaderSize, y) == HeaderSize + 4 * lo
    requires !RowsRead(data, p, w, HeaderSize, y).0.fail
    ensures !RowsRead(data, p, w, HeaderSize, y + 1).0.fail
    ensures RowBuffer(data, p, w, HeaderSize, y + 1) == pix[lo .. hi]
  {
    var prev := RowsRead(data, p, w, HeaderSize, y);
    RowsReadData(data, p, w, HeaderSize, y);
    ReadPixelsAt(data, pix, lo, hi, prev.0, prev.1);
    var r := Read(Seek(prev.0, HeaderSize + 4 * lo), prev.1, 4 * (hi - lo));
    assert RowsRead(data, p, w, HeaderSize, y + 1) == r;
    assert RowBuffer(data, p, w, HeaderSize, y + 1) == PixelsOf(r.1);
  }

  /** The stream of the scanlines keeps reading the same data. */
  lemma {:induction false} RowsReadData(data: seq<Byte>, p: StreamPlan, sw: int, dataStart: int, n: nat)
    requires SpanOf(p) >= 0
    ensures RowsRead(data, p, sw, dataStart, n).0.data == data
  {
    if n > 0 {
      RowsReadData(data, p, sw, dataStart, n - 1);
    }
  }

  /** The span of a row that fits lies in the pixels, and the row's seek offset is the header plus its first pixel's bytes. */
  lemma RowSpanOffset(p: StreamPlan, w: int, h: int, y: int)
    requires 0 < w && 0 <= p.sx1 <= p.sx2 <= w && 0 <= SourceRowOf(p, y) < h
    ensures 0 <= SourceRowOf(p, y) * w + p.sx1
    ensures SourceRowOf(p, y) * w + p.sx2 <= w * h
    ensures RowOffset(p, w, HeaderSize, y) == HeaderSize + 4 * (SourceRowOf(p, y) * w + p.sx1)
  {
    var row := SourceRowOf(p, y);
    MulMono(0, row, w);
    MulMono(row + 1, h, w);
    assert (row + 1) * w == row * w + w;
    assert h * w == w * h;
    assert row * (w * TypeSize) == 4 * (row * w);
  }

  /** Seeking within the data and reading a whole buffer's worth that fits delivers exactly those bytes. */
  lemma ReadWhole(s: InStream, off: int, buf: seq<Byte>, n: nat)
    requires !s.fail && 0 <= off && off + n <= |s.data| && |buf| == n
    ensures !Read(Seek(s, off), buf, n).0.fail
    ensures Read(Seek(s, off), buf, n).1 == s.data[off .. off + n]
  {
    var t := Seek(s, off);
    ReadInside(t, buf, n);
    var bytes := Read(t, buf, n).1;
    assert bytes == bytes[..n];
  }

  /** A slice of a tail is the slice of the whole shifted by where the tail starts. */
  lemma SliceOfTail(data: seq<Byte>, k: int, i: int, j: int)
    requires 0 <= k <= |data| && 0 <= i <= j <= |data| - k
    ensures data[k..][i .. j] == data[k + i .. k + j]
  {
  }

  /** The bytes of pixels lo .. hi sit 4 * lo bytes after the header. */
  lemma SpanBytes(data: seq<Byte>, pix: seq<Color32>, lo: int, hi: int)
    requires |data| == HeaderSize + 4 * |pix| && data[HeaderSize..] == PixelBytes(pix)
    requires 0 <= lo <= hi <= |pix|
    ensures data[HeaderSize + 4 * lo .. HeaderSize + 4 * hi] == PixelBytes(pix[lo .. hi])
  {
    SliceOfTail(data, HeaderSize, 4 * lo, 4 * hi);
    PixelBytesSlice(pix, lo, hi);
  }

  /** Seeking to pixel lo of the pixels after the header and reading up to pixel hi delivers exactly those pixels. */
  lemma ReadPixelsAt(data: seq<Byte>, pix: seq<Color32>, lo: int, hi: int, s: InStream, buf: seq<Byte>)
    requires |data| == HeaderSize + 4 * |pix| && data[HeaderSize..] == PixelBytes(pix)
    requires 0 <= lo <= hi <= |pix| && s.data == data && !s.fail && |buf| == 4 * (hi - lo)
    ensures var r := Read(Seek(s, HeaderSize + 4 * lo), buf, 4 * (hi - lo));
      !r.0.fail && PixelsOf(r.1) == pix[lo .. hi]
  {
    var n := 4 * (hi - lo);
    var off := HeaderSize + 4 * lo;
    assert off + n == HeaderSize + 4 * hi;
    ReadWhole(s, off, buf, n);
    SpanBytes(data, pix, lo, hi);
    var bytes := Read(Seek(s, off), buf, n).1;
    assert bytes == PixelBytes(pix[lo .. hi]) by {
      assert bytes == data[off .. off + n];
    }
    PixelBytesRoundTrip(pix[lo .. hi]);
  }

  /**
   * On a file Save wrote, the colour the stream Blit takes for destination
   * pixel (x1 + x, y1 + y) is the source pixel at column sx1 + ColumnOf(x)
   * of row SourceRowOf(y).
   */
  lemma FetchedOfSavedFile(w: int, h: int, pix: seq<Color32>, p: StreamPlan, x: int, y: int)
    requires IsInt32(w) && IsInt32(h) && 0 < w && |pix| == w * h
    requires 0 <= p.sx1 <= p.sx2 <= w && RowsFit(p, h) && ColumnsFit(p)
    requires 0 <= x < p.maxX && 0 <= y < p.maxY
    ensures 0 <= SourceRowOf(p, y) * w + p.sx1 + ColumnOf(p, x) < |pix|
    ensures Fetched(EncodeNative(w, h, pix), p, w, HeaderSize, x, y) ==
      pix[SourceRowOf(p, y) * w + p.sx1 + ColumnOf(p, x)]
  {
    NativeFormat.EncodeNativeParts(w, h, pix);
    FetchedOfPixels(EncodeNative(w, h, pix), w, h, pix, p, x, y);
  }

  /** FetchedOfSavedFile on any data holding the pixels after the header. */
  lemma FetchedOfPixels(data: seq<Byte>, w: int, h: int, pix: seq<Color32>, p: StreamPlan, x: int, y: int)
    requires 0 < w && |pix| == w * h && |data| == HeaderSize + 4 * |pix| && data[HeaderSize..] == PixelBytes(pix)
    requires 0 <= p.sx1 <= p.sx2 <= w && RowsFit(p, h) && ColumnsFit(p)
    requires 0 <= x < p.maxX && 0 <= y < p.maxY
    ensures 0 <= SourceRowOf(p, y) * w + p.sx1 + ColumnOf(p, x) < |pix|
    ensures Fetched(data, p, w, HeaderSize, x, y) == pix[SourceRowOf(p, y) * w + p.sx1 + ColumnOf(p, x)]
  {
    RowsReadOfPixels(data, w, h, pix, p, y);
    assert 0 <= ColumnOf(p, x) < SpanOf(p);
    FetchedInSpan(data, p, w, HeaderSize, x, y, pix, SourceRowOf(p, y) * w + p.sx1, SourceRowOf(p, y) * w + p.sx2);
  }

  /** When scanline y's row buffer is the span of pixels from lo, the colour fetched for column x is pixel lo + ColumnOf(x). */
  lemma FetchedInSpan(data: seq<Byte>, p: StreamPlan, sw: int, dataStart: int, x: int, y: nat, pix: seq<Color32>,
                      lo: int, hi: int)
    requires 0 <= ColumnOf(p, x) < SpanOf(p) && 0 <= lo <= hi <= |pix| && hi - lo == SpanOf(p)
    requires RowBuffer(data, p, sw, dataStart, y + 1) == pix[lo .. hi]
    ensures Fetched(data, p, sw, dataStart, x, y) == pix[lo + ColumnOf(p, x)]
  {
  }

  /** Whether the stream Blit writes destination pixel (X, Y): inside the writable extent from (x1, y1). */
  predicate StreamCovers(p: StreamPlan, X: int, Y: int) {
    p.x1 <= X < p.x1 + p.maxX && p.y1 <= Y < p.y1 + p.maxY
  }

  /**
   * The colour the stream Blit takes for destination pixel (x1 + x, y1 + y):
   * entry ColumnOf(x) of the row buffer as scanline y leaves it.
   */
  function Fetched(data: seq<Byte>, p: StreamPlan, sw: int, dataStart: int, x: int, y: nat): Color32
    requires 0 <= ColumnOf(p, x) < SpanOf(p)
  {
    RowBuffer(data, p, sw, dataStart, y + 1)[ColumnOf(p, x)]
  }

  /** The fetched colour is the four bytes at entry ColumnOf(x) of the bytes the scanline read. */
  lemma FetchedBytes(data: seq<Byte>, p: StreamPlan, sw: int, dataStart: int, x: int, y: nat)
    requires 0 <= ColumnOf(p, x) < SpanOf(p)
    ensures var k := ColumnOf(p, x);
      ToBytes(Fetched(data, p, sw, dataStart, x, y)) == RowsRead(data, p, sw, dataStart, y + 1).1[4 * k .. 4 * k + 4]
  {
    var k := ColumnOf(p, x);
    BytesRoundTrip(RowsRead(data, p, sw, dataStart, y + 1).1[4 * k .. 4 * k + 4]);
  }

  /**
   * Whether after holds the destination pixels of before after a stream
   * Blit that gets to its scanlines: each pixel the extent covers blended
   * with the colour fetched for it, every other pixel as before.
   */
  predicate StreamBlitted(before: seq<Color32>, after: seq<Color32>, width: int, p: StreamPlan,
                         data: seq<Byte>, sw: int, dataStart: int, blend: Blender)
    requires 0 < width && (p.maxY > 0 ==> ColumnsFit(p))
    ensures StreamBlitted(before, after, width, p, data, sw, dataStart, blend) ==> |after| == |before|
  {
    && |after| == |before|
    && forall i :: 0 <= i < |before| ==>
      after[i] == if StreamCovers(p, i % width, i / width)
                  then blend(before[i], Fetched(data, p, sw, dataStart, i % width - p.x1, i / width - p.y1))
                  else before[i]
  }

  /** A plan with an empty extent leaves every pixel as it was. */
  lemma StreamBlittedNothing(before: seq<Color32>, width: int, p: StreamPlan, data: seq<Byte>, sw: int, dataStart: int,
                             blend: Blender)
    requires 0 < width && (p.maxX <= 0 || p.maxY <= 0)
    ensures StreamBlitted(before, before, width, p, data, sw, dataStart, blend)
  {
  }

  /** Conversely, with an empty extent the only outcome StreamBlitted allows is no change at all. */
  lemma StreamBlittedNothingOnly(before: seq<Color32>, after: seq<Color32>, width: int, p: StreamPlan,
                                 data: seq<Byte>, sw: int, dataStart: int, blend: Blender)
    requires 0 < width && (p.maxX <= 0 || p.maxY <= 0)
    requires StreamBlitted(before, after, width, p, data, sw, dataStart, blend)
    ensures after == before
  {
  }

  /**
   * The stream Blit. A destination extent that is negative on either axis
   * returns true at once, without opening the file; a file that cannot be
   * opened returns false and writes nothing. Otherwise each destination
   * pixel the extent covers becomes blend(pixel, fetched colour), the
   * colour being read from the file through the row buffer, and every
   * other pixel keeps its colour. The buffer of sx2 - sx1 pixels must have
   * a size `new` accepts, and at least one pixel when pixels are written.
   */
  method BlitStream(dst: Image, dx1: int, dy1: int, dx2: int, dy2: int, src: Stream,
                    blend: Blender, fs: FileSystem,
                    sx1: int := 0, sy1: int := 0, sx2: int := MaxDimension, sy2: int := MaxDimension)
    returns (ok: bool)
    requires dst.Valid()
    requires var p := PlanStream(dst.width, dst.height, dx1, dy1, dx2, dy2, src.width, src.height, sx1, sy1, sx2, sy2);
      Proceeds(p) ==> SpanOf(p) >= 0 && (src.file in fs && p.maxX > 0 && p.maxY > 0 ==> SpanOf(p) > 0)
    modifies dst.pixels
    ensures var p := PlanStream(dst.width, dst.height, dx1, dy1, dx2, dy2, src.width, src.height, sx1, sy1, sx2, sy2);
      ok <==> !Proceeds(p) || src.file in fs
    ensures var p := PlanStream(dst.width, dst.height, dx1, dy1, dx2, dy2, src.width, src.height, sx1, sy1, sx2, sy2);
      src.file in fs && p.maxY > 0 ==> ColumnsFit(p)
    ensures var p := PlanStream(dst.width, dst.height, dx1, dy1, dx2, dy2, src.width, src.height, sx1, sy1, sx2, sy2);
      dst.pixels != null ==>
        if src.file in fs then StreamBlitted(old(dst.pixels[..]), dst.pixels[..], dst.width, p, fs[src.file], src.width, src.dataStart, blend)
        else dst.pixels[..] == old(dst.pixels[..])
  {
    var p := PlanStream(dst.width, dst.height, dx1, dy1, dx2, dy2, src.width, src.height, sx1, sy1, sx2, sy2);
    if src.file in fs && p.maxY > 0 {
      PlanColumnsFit(dst.width, dst.height, dx1, dy1, dx2, dy2, src.width, src.height, sx1, sy1, sx2, sy2);
    }
    if p.maxX < 0 || p.maxY < 0 {
      if dst.pixels != null && src.file in fs {
        StreamBlittedNothing(dst.pixels[..], dst.width, p, fs[src.file], src.width, src.dataStart, blend);
      }
      return true;
    }
    var span := p.sx2 - p.sx1;
    var spix := new Color32[span](_ => Zero());
    assert spix[..] == Zeros(span);
    if src.file !in fs {
      return false;
    }
    var fin := Open(fs[src.file]);
    if p.maxX > 0 && p.maxY > 0 {
      StreamScanlines(dst.pixels, dst.width, dst.height, p, src.width, src.dataStart, fin, spix, blend);
    } else if dst.pixels != null {
      StreamBlittedNothing(dst.pixels[..], dst.width, p, fs[src.file], src.width, src.dataStart, blend);
    }
    return true;
  }

  /**
   * The stream Blit with the default blender: each covered destination
   * pixel becomes the colour fetched for it from the file.
   */
  method BlitStreamAssign(dst: Image, dx1: int, dy1: int, dx2: int, dy2: int, src: Stream, fs: FileSystem,
                          sx1: int := 0, sy1: int := 0, sx2: int := MaxDimension, sy2: int := MaxDimension)
    returns (ok: bool)
    requires dst.Valid()
    requires var p := PlanStream(dst.width, dst.height, dx1, dy1, dx2, dy2, src.width, src.height, sx1, sy1, sx2, sy2);
      Proceeds(p) ==> SpanOf(p) >= 0 && (src.file in fs && p.maxX > 0 && p.maxY > 0 ==> SpanOf(p) > 0)
    modifies dst.pixels
    ensures var p := PlanStream(dst.width, dst.height, dx1, dy1, dx2, dy2, src.width, src.height, sx1, sy1, sx2, sy2);
      ok <==> !Proceeds(p) || src.file in fs
    ensures var p := PlanStream(dst.width, dst.height, dx1, dy1, dx2, dy2, src.width, src.height, sx1, sy1, sx2, sy2);
      src.file in fs && p.maxY > 0 ==> ColumnsFit(p)
    ensures var p := PlanStream(dst.width, dst.height, dx1, dy1, dx2, dy2, src.width, src.height, sx1, sy1, sx2, sy2);
      dst.pixels != null && src.file in fs ==> forall i :: 0 <= i < dst.pixels.Length ==>
        dst.pixels[i] ==
          if StreamCovers(p, i % dst.width, i / dst.width)
          then Fetched(fs[src.file], p, src.width, src.dataStart, i % dst.width - p.x1, i / dst.width - p.y1)
          else old(dst.pixels[i])
    ensures dst.pixels != null && src.file !in fs ==> dst.pixels[..] == old(dst.pixels[..])
  {
    ok := BlitStream(dst, dx1, dy1, dx2, dy2, src, Assign, fs, sx1, sy1, sx2, sy2);
  }

  /**
   * The scanlines of the stream Blit: for each row of the extent, seek to
   * its source row, read a span of pixels over the row buffer and blend the
   * buffer into the destination row.
   */
  method StreamScanlines(pixels: array<Color32>, width: int, height: int, p: StreamPlan,
                         sw: int, dataStart: int, fin: InStream, spix: array<Color32>, blend: Blender)
    requires pixels.Length == width * height && p.maxX > 0 && p.maxY > 0 && fin == Open(fin.data)
    requires 0 <= p.x1 && p.x1 + p.maxX <= width && 0 <= p.y1 && p.y1 + p.maxY <= height
    requires spix.Length == SpanOf(p) && spix[..] == Zeros(SpanOf(p)) && spix != pixels
    requires ColumnsFit(p)
    modifies pixels, spix
    ensures StreamBlitted(old(pixels[..]), pixels[..], width, p, fin.data, sw, dataStart, blend)
  {
    var stream := fin;
    ghost var bufs: seq<seq<Color32>> := [];
    RowBufferInitial(fin.data, p, sw, dataStart);
    var y := 0;
    while y < p.maxY
      invariant 0 <= y <= p.maxY && |bufs| == y
      invariant stream == RowsRead(fin.data, p, sw, dataStart, y).0
      invariant spix[..] == RowBuffer(fin.data, p, sw, dataStart, y)
      invariant bufs == RowBuffers(fin.data, p, sw, dataStart, y)
      invariant Scanned(old(pixels[..]), pixels[..], width, p, bufs, blend)
    {
      stream := Scanline(pixels, width, height, p, sw, dataStart, stream, spix, blend, old(pixels[..]), fin.data, bufs, y);
      bufs := bufs + [spix[..]];
      y := y + 1;
    }
    BlittedOfBuffers(old(pixels[..]), pixels[..], width, p, fin.data, sw, dataStart, blend, bufs);
  }

  /** Scanline y of the stream Blit: read its buffer, blend it into its row. */
  method Scanline(pixels: array<Color32>, width: int, height: int, p: StreamPlan, sw: int, dataStart: int,
                  stream: InStream, spix: array<Color32>, blend: Blender,
                  ghost before: seq<Color32>, ghost data: seq<Byte>, ghost bufs: seq<seq<Color32>>, y: nat)
    returns (after: InStream)
    requires pixels.Length == width * height && 0 <= y < p.maxY && spix != pixels
    requires 0 <= p.x1 && p.x1 + p.maxX <= width && 0 <= p.y1 && p.y1 + p.maxY <= height && 0 < width
    requires spix.Length == SpanOf(p) && ColumnsFit(p) && |bufs| == y
    requires stream == RowsRead(data, p, sw, dataStart, y).0
    requires spix[..] == RowBuffer(data, p, sw, dataStart, y)
    requires Scanned(before, pixels[..], width, p, bufs, blend)
    modifies pixels, spix
    ensures after == RowsRead(data, p, sw, dataStart, y + 1).0
    ensures spix[..] == RowBuffer(data, p, sw, dataStart, y + 1)
    ensures Scanned(before, pixels[..], width, p, bufs + [spix[..]], blend)
  {
    after := ReadRow(stream, spix, p, sw, dataStart, data, y);
    ghost var mid := pixels[..];
    StreamRow(pixels, width, height, p.y1 + y, p, spix, blend);
    ScanStep(before, mid, pixels[..], width, p, bufs, spix[..], blend);
  }

  /**
   * Whether after holds the pixels of before once the scanlines that left
   * the buffers bufs are done: each pixel of those rows in the extent
   * blended with the entry ColumnOf(x) of its row's buffer, every other
   * pixel as before.
   */
  predicate Scanned(before: seq<Color32>, after: seq<Color32>, width: int, p: StreamPlan,
                    bufs: seq<seq<Color32>>, blend: Blender)
    requires 0 < width && ColumnsFit(p)
  {
    && |after| == |before|
    && (forall k :: 0 <= k < |bufs| ==> |bufs[k]| == SpanOf(p))
    && forall i :: 0 <= i < |before| ==>
      after[i] ==
        if StreamCovers(p, i % width, i / width) && i / width < p.y1 + |bufs|
        then blend(before[i], bufs[i / width - p.y1][ColumnOf(p, i % width - p.x1)])
        else before[i]
  }

  /**
   * Whether after holds the pixels of before with the extent's part of row
   * Y blended with the entries ColumnOf(x) of the buffer row, and nothing
   * else changed.
   */
  predicate RowBlended(before: seq<Color32>, after: seq<Color32>, width: int, Y: int, p: StreamPlan,
                       row: seq<Color32>, blend: Blender)
    requires 0 < width && ColumnsFit(p) && |row| == SpanOf(p)
  {
    && |after| == |before|
    && forall i :: 0 <= i < |before| ==>
      after[i] ==
        if i / width == Y && p.x1 <= i % width < p.x1 + p.maxX
        then blend(before[i], row[ColumnOf(p, i % width - p.x1)])
        else before[i]
  }

  /** Blending the next row of the extent with its buffer extends the scanned rows by that buffer. */
  lemma ScanStep(before: seq<Color32>, mid: seq<Color32>, after: seq<Color32>, width: int, p: StreamPlan,
                 bufs: seq<seq<Color32>>, row: seq<Color32>, blend: Blender)
    requires 0 < width && ColumnsFit(p) && |row| == SpanOf(p) && 0 <= p.y1 && |bufs| < p.maxY
    requires Scanned(before, mid, width, p, bufs, blend)
    requires RowBlended(mid, after, width, p.y1 + |bufs|, p, row, blend)
    ensures Scanned(before, after, width, p, bufs + [row], blend)
  {
  }

  /**
   * Pixels that hold, within the extent, the blend with entry ColumnOf(x)
   * of the buffer each scanline left, are the pixels the stream Blit
   * promises.
   */
  lemma BlittedOfBuffers(before: seq<Color32>, after: seq<Color32>, width: int, p: StreamPlan,
                         data: seq<Byte>, sw: int, dataStart: int, blend: Blender, bufs: seq<seq<Color32>>)
    requires 0 < width && p.maxY > 0 && ColumnsFit(p) && SpanOf(p) >= 0
    requires bufs == RowBuffers(data, p, sw, dataStart, p.maxY)
    requires Scanned(before, after, width, p, bufs, blend)
    ensures StreamBlitted(before, after, width, p, data, sw, dataStart, blend)
  {
    forall i | 0 <= i < |after| && StreamCovers(p, i % width, i / width) {
      FetchedFromBuffers(data, p, sw, dataStart, bufs, i % width - p.x1, i / width - p.y1);
    }
  }

  /** Entry ColumnOf(x) of the buffer scanline k left is the colour fetched for column x of that scanline. */
  lemma FetchedFromBuffers(data: seq<Byte>, p: StreamPlan, sw: int, dataStart: int, bufs: seq<seq<Color32>>, x: int, k: int)
    requires 0 <= x < p.maxX && 0 <= k < p.maxY
    requires SpanOf(p) >= 0 && ColumnsFit(p) && bufs == RowBuffers(data, p, sw, dataStart, p.maxY)
    ensures 0 <= ColumnOf(p, x) < |bufs[k]| && bufs[k][ColumnOf(p, x)] == Fetched(data, p, sw, dataStart, x, k)
  {
    RowBuffersAt(data, p, sw, dataStart, p.maxY, k);
  }

  /** The reads of scanline y: seek to the row's offset and read a span of pixels over the row buffer. */
  method ReadRow(stream: InStream, spix: array<Color32>, p: StreamPlan, sw: int, dataStart: int,
                 ghost data: seq<Byte>, y: nat) returns (after: InStream)
    requires SpanOf(p) >= 0 && spix.Length == SpanOf(p)
    requires stream == RowsRead(data, p, sw, dataStart, y).0
    requires spix[..] == RowBuffer(data, p, sw, dataStart, y)
    modifies spix
    ensures after == RowsRead(data, p, sw, dataStart, y + 1).0
    ensures spix[..] == RowBuffer(data, p, sw, dataStart, y + 1)
  {
    PixelsOfRoundTrip(RowsRead(data, p, sw, dataStart, y).1);
    after := Seek(stream, RowOffset(p, sw, dataStart, y));
    after := ReadPixels(after, spix, TypeSize * SpanOf(p));
  }

  /**
   * One scanline of the stream Blit: the pixels of row Y in the extent
   * become blend(pixel, spix[ColumnOf(x)]); nothing else changes.
   */
  method StreamRow(pixels: array<Color32>, width: int, height: int, Y: int, p: StreamPlan,
                   spix: array<Color32>, blend: Blender)
    requires pixels.Length == width * height && 0 < width && 0 <= Y < height
    requires 0 <= p.x1 && p.x1 + p.maxX <= width && spix != pixels
    requires ColumnsFit(p) && spix.Length == SpanOf(p)
    modifies pixels
    ensures RowBlended(old(pixels[..]), pixels[..], width, Y, p, spix[..], blend)
  {
    var row := Y * width;
    var x := 0;
    while x < p.maxX
      invariant 0 <= x && (x <= p.maxX || x == 0)
      invariant forall i :: 0 <= i < pixels.Length ==>
        pixels[i] ==
          if i / width == Y && p.x1 <= i % width < p.x1 + x
          then blend(old(pixels[i]), spix[ColumnOf(p, i % width - p.x1)])
          else old(pixels[i])
    {
      var X := x + p.x1;
      FlatIndex(X, Y, width, height);
      pixels[row + X] := blend(pixels[row + X], spix[ColumnOf(p, x)]);
      forall i | 0 <= i < pixels.Length
        ensures (i % width == X && i / width == Y) <==> i == row + X
      {
        SameCell(i, X, Y, width);
      }
      x := x + 1;
    }
  }
}
