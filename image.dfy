/**
 * Image: a width x height buffer of Color32 pixels stored row by row, with
 * its native file format, and Image::Stream, a handle on a native image
 * file that Blit reads row by row.
 *
 * Files are a map from path to contents: a path that is not in the map
 * cannot be opened. Whether an allocation succeeds and whether a file can
 * be opened for writing are parameters.
 */
module Gfx {
  import opened Util
  import opened Bytes
  import opened Color
  import opened Blend
  import opened ByteStream
  import opened Raster

  /** Image::MaxDimension (USHRT_MAX): the largest accepted width or height. */
  const MaxDimension: int := 65535

  /** sizeof(Color32), stored first in a native file as a format tag. */
  const TypeSize: int := 4

  /** Size in bytes of the native header: size tag, width, height. */
  const HeaderSize: int := 12

  type FileSystem = map<string, seq<Byte>>

  /** n pixels as `new Color32[n]` creates them: every one the default colour. */
  function Zeros(n: nat): (ps: seq<Color32>)
    ensures |ps| == n && forall i :: 0 <= i < n ==> ps[i] == Zero()
  {
    seq(n, _ => Zero())
  }

  /**
   * Whether Create(w, h) ends with pixels: both sizes in 1..MaxDimension and
   * the allocation succeeding. A product w * h of 2^31 or more overflows the
   * Sint32 element count, and the allocation of a negative count throws,
   * which Create catches.
   */
  predicate CreateSucceeds(w: int, h: int, allocOk: bool)
    ensures 0 < w <= MaxDimension && 0 < h <= MaxDimension ==>
      (CreateSucceeds(w, h, allocOk) <==> AsInt32(w * h) > 0 && allocOk)
  {
    SizeProductBelow(w, h);
    0 < w <= MaxDimension && 0 < h <= MaxDimension && w * h < TwoTo31 && allocOk
  }

  /** Two accepted sizes multiply to a positive number below 2^32. */
  lemma SizeProductBelow(w: int, h: int)
    ensures 0 < w <= MaxDimension && 0 < h <= MaxDimension ==> 0 < w * h < TwoTo32
  {
    if 0 < w <= MaxDimension && 0 < h <= MaxDimension {
      MulMono(w, MaxDimension, h);
      MulMono(h, MaxDimension, MaxDimension);
      MulPositive(w, h);
    }
  }

  /** The native file Save writes: size tag, width, height, then the pixels row by row. */
  function EncodeNative(w: int, h: int, pixels: seq<Color32>): (data: seq<Byte>)
    requires IsInt32(w) && IsInt32(h)
    ensures |data| == HeaderSize + 4 * |pixels|
  {
    I32Bytes(TypeSize) + I32Bytes(w) + I32Bytes(h) + PixelBytes(pixels)
  }

  /** The size and pixels Load leaves in an image. */
  datatype Loaded = Loaded(width: int, height: int, pixels: seq<Color32>)

  /**
   * What Image::Load makes of a file's bytes, for an image that had size
   * oldW x oldH before: the size tag is read into a zero Sint32, and width
   * and height straight into the image's fields, so a short read leaves the
   * old bytes past what the file held. A wrong tag or a failed Create leaves
   * the image empty (None). Otherwise the new pixels, all zero, are
   * overwritten with as many pixel bytes as the file still has.
   */
  function Decoded(data: seq<Byte>, oldW: int, oldH: int, allocOk: bool): (r: Option<Loaded>)
    requires IsInt32(oldW) && IsInt32(oldH)
    ensures r.Some? ==> CreateSucceeds(r.value.width, r.value.height, allocOk)
    ensures r.Some? ==> |r.value.pixels| == r.value.width * r.value.height
    ensures |data| >= HeaderSize && I32Of(data[..4]) != TypeSize ==> r.None?
    ensures |data| >= HeaderSize && I32Of(data[..4]) == TypeSize ==>
      (r.Some? <==> CreateSucceeds(I32Of(data[4..8]), I32Of(data[8..12]), allocOk))
    ensures |data| >= HeaderSize && r.Some? ==>
      r.value.width == I32Of(data[4..8]) && r.value.height == I32Of(data[8..12])
  {
    var rt := Read(Open(data), I32Bytes(0), 4);
    SkipTag(data);
    ReadPairFacts(rt.0, oldW, oldH);
    if I32Of(rt.1) != TypeSize then None else DecodedAfterTag(rt.0, oldW, oldH, allocOk)
  }

  /**
   * Two Sint32 reads in a row into fields holding a and b: from a good
   * stream with eight bytes left they take those bytes; from a good stream
   * with fewer than four left the second read leaves b; from a failed
   * stream both leave the old values.
   */
  lemma ReadPairFacts(s: InStream, a: int, b: int)
    requires IsInt32(a) && IsInt32(b)
    ensures var rw := Read(s, I32Bytes(a), 4);
            var rh := Read(rw.0, I32Bytes(b), 4);
            && (!s.fail && s.pos + 8 <= |s.data| ==>
                  I32Of(rw.1) == I32Of(s.data[s.pos..s.pos + 4])
                  && I32Of(rh.1) == I32Of(s.data[s.pos + 4..s.pos + 8])
                  && rh.0 == s.(pos := s.pos + 8))
            && (!s.fail && Available(s) < 4 ==> I32Of(rh.1) == b)
            && (s.fail ==> I32Of(rw.1) == a && I32Of(rh.1) == b)
  {
    var rw := Read(s, I32Bytes(a), 4);
    I32RoundTrip(a);
    I32RoundTrip(b);
    if s.fail {
      FailIsSticky(s, I32Bytes(a), 4, 0);
      FailIsSticky(rw.0, I32Bytes(b), 4, 0);
    } else if s.pos + 8 <= |s.data| {
      ReadInside(s, I32Bytes(a), 4);
      ReadInside(rw.0, I32Bytes(b), 4);
      assert rw.1 == rw.1[..4];
      var rh := Read(rw.0, I32Bytes(b), 4);
      assert rh.1 == rh.1[..4];
    } else if Available(s) < 4 {
      ReadShort(s, I32Bytes(a), 4);
      FailIsSticky(rw.0, I32Bytes(b), 4, 0);
    }
  }

  /** Reading the size tag leaves the stream at byte 4, or failed when the file is shorter. */
  lemma SkipTag(data: seq<Byte>)
    ensures |data| >= 4 ==> Read(Open(data), I32Bytes(0), 4).0 == Open(data).(pos := 4)
    ensures |data| >= 4 ==> Read(Open(data), I32Bytes(0), 4).1 == data[..4]
    ensures |data| < 4 ==> Read(Open(data), I32Bytes(0), 4).0.fail
  {
    if |data| >= 4 {
      ReadInside(Open(data), I32Bytes(0), 4);
      assert Read(Open(data), I32Bytes(0), 4).1 == Read(Open(data), I32Bytes(0), 4).1[..4];
    } else {
      ReadShort(Open(data), I32Bytes(0), 4);
    }
  }

  /** Decoded, from the point where the size tag has been read and accepted. */
  function DecodedAfterTag(s: InStream, oldW: int, oldH: int, allocOk: bool): (r: Option<Loaded>)
    requires IsInt32(oldW) && IsInt32(oldH)
    ensures r.Some? ==> CreateSucceeds(r.value.width, r.value.height, allocOk)
    ensures r.Some? ==> |r.value.pixels| == r.value.width * r.value.height
  {
    var rw := Read(s, I32Bytes(oldW), 4);
    var rh := Read(rw.0, I32Bytes(oldH), 4);
    var w := I32Of(rw.1);
    var h := I32Of(rh.1);
    if !CreateSucceeds(w, h, allocOk) then None
    else Some(Loaded(w, h, PixelsLoaded(rh.0, w, h)))
  }

  /** The pixels Load ends with: w * h default pixels overwritten with what the stream s still holds. */
  function PixelsLoaded(s: InStream, w: int, h: int): (ps: seq<Color32>)
    requires 0 < w && 0 < h
    ensures |ps| == w * h
  {
    MulPositive(w, h);
    var n := w * h;
    PixelsOf(Read(s, PixelBytes(Zeros(n)), 4 * n).1)
  }

  /**
   * fin.read((char*)dst, n): the stream's bytes are stored over the front of
   * the raw bytes of a pixel buffer.
   */
  method ReadPixels(fin: InStream, dst: array<Color32>, n: nat) returns (after: InStream)
    requires n <= 4 * dst.Length
    modifies dst
    ensures after == Read(fin, PixelBytes(old(dst[..])), n).0
    ensures dst[..] == PixelsOf(Read(fin, PixelBytes(old(dst[..])), n).1)
  {
    var r := Read(fin, PixelBytes(dst[..]), n);
    var stored := PixelsOf(r.1);
    var i := 0;
    while i < dst.Length
      invariant 0 <= i <= dst.Length == |stored|
      invariant forall k :: 0 <= k < i ==> dst[k] == stored[k]
    {
      dst[i] := stored[i];
      i := i + 1;
    }
    assert dst[..] == stored;
    after := r.0;
  }

  class Image {
    var pixels: array?<Color32>
    var width: int
    var height: int

    /** Either no pixels and size 0 x 0, or width * height pixels with both sizes in range. */
    ghost predicate Valid()
      reads this
    {
      if pixels == null then width == 0 && height == 0
      else
        && 0 < width <= MaxDimension && 0 < height <= MaxDimension
        && width * height < TwoTo31 && pixels.Length == width * height
    }

    /** IsGood: the image has pixels, which for a valid image is to have a size. */
    predicate IsGood()
      reads this
      ensures Valid() ==> (IsGood() <==> 0 < width && 0 < height)
    {
      pixels != null
    }

    /** The default constructor: an empty image. */
    constructor ()
      ensures Valid() && pixels == null && width == 0 && height == 0
    {
      pixels, width, height := null, 0, 0;
    }

    /** Image(w, h): an empty image, then Create(w, h). */
    constructor Sized(w: int, h: int, allocOk: bool)
      ensures Valid()
      ensures IsGood() <==> CreateSucceeds(w, h, allocOk)
      ensures IsGood() ==> width == w && height == h && pixels[..] == Zeros(w * h)
    {
      pixels, width, height := null, 0, 0;
      new;
      var _ := Create(w, h, allocOk);
    }

    /** The copy constructor: an empty image, then Copy(src). */
    constructor CopyOf(src: Image, allocOk: bool)
      requires src.Valid()
      ensures Valid()
      ensures IsGood() <==> src.IsGood() && allocOk
      ensures IsGood() ==> width == src.width && height == src.height && pixels[..] == src.pixels[..]
    {
      pixels, width, height := null, 0, 0;
      new;
      var _ := Copy(src, allocOk);
    }

    /** Free: the image forgets its pixels. */
    method Free()
      modifies this
      ensures Valid() && pixels == null && width == 0 && height == 0
    {
      pixels := null;
      width := 0;
      height := 0;
    }

    /** Create(w, h): frees the image, then allocates w x h default pixels when the size is acceptable. */
    method Create(w: int, h: int, allocOk: bool) returns (ok: bool)
      modifies this
      ensures Valid()
      ensures ok == IsGood() && (ok <==> CreateSucceeds(w, h, allocOk))
      ensures ok ==> fresh(pixels) && width == w && height == h && pixels[..] == Zeros(w * h)
      ensures !ok ==> pixels == null && width == 0 && height == 0
    {
      Free();
      if 0 < w <= MaxDimension && 0 < h <= MaxDimension {
        if w * h < TwoTo31 && allocOk {
          pixels := new Color32[w * h](_ => Zero());
          width := w;
          height := h;
        } else {
          Free();
        }
      }
      ok := IsGood();
    }

    /** SetMemory: adopts a buffer and a size as they are given. */
    method SetMemory(p: array?<Color32>, w: int, h: int)
      requires p == null ==> w == 0 && h == 0
      requires p != null ==> 0 < w <= MaxDimension && 0 < h <= MaxDimension && w * h < TwoTo31 && p.Length == w * h
      modifies this
      ensures Valid() && pixels == p && width == w && height == h
    {
      pixels := p;
      width := w;
      height := h;
    }

    /**
     * Copy(src): Create with src's size, then copy src's pixels one by one.
     * Copying an image into itself reads the pixels Create has just cleared.
     */
    method Copy(src: Image, allocOk: bool) returns (ok: bool)
      requires src.Valid()
      modifies this
      ensures Valid()
      ensures ok == IsGood() && (ok <==> old(src.pixels) != null && allocOk)
      ensures ok ==> fresh(pixels) && width == old(src.width) && height == old(src.height)
      ensures ok && src != this ==> pixels[..] == old(src.pixels[..])
      ensures ok && src == this ==> pixels[..] == Zeros(pixels.Length)
      ensures src != this ==> src.pixels == old(src.pixels) && src.width == old(src.width) && src.height == old(src.height)
    {
      ok := Create(src.width, src.height, allocOk);
      if ok {
        var dst := pixels;
        var n := width * height;
        var i := 0;
        while i < n
          modifies dst
          invariant 0 <= i <= n == dst.Length
          invariant src != this ==> src.pixels != null && src.pixels.Length == n && src.pixels != dst
          invariant src != this ==> forall k :: 0 <= k < i ==> dst[k] == old(src.pixels[k])
          invariant src == this ==> forall k :: 0 <= k < n ==> dst[k] == Zero()
        {
          dst[i] := src.pixels[i];
          i := i + 1;
        }
      }
    }

    /** operator=: Copy unless the source is this very image. */
    method AssignFrom(src: Image, allocOk: bool)
      requires Valid() && src.Valid()
      modifies this
      ensures Valid()
      ensures src == this ==> pixels == old(pixels) && width == old(width) && height == old(height)
      ensures src != this ==> (IsGood() <==> old(src.pixels) != null && allocOk)
      ensures src != this && IsGood() ==>
        width == old(src.width) && height == old(src.height) && pixels[..] == old(src.pixels[..])
    {
      if src != this {
        var _ := Copy(src, allocOk);
      }
    }

    /** ReverseByteorder: the four bytes of every pixel in reverse order. */
    method ReverseByteorder()
      requires Valid()
      modifies pixels
      ensures pixels != null ==> pixels[..] == ReverseAll(old(pixels[..]))
    {
      if pixels == null {
        return;
      }
      var n := width * height;
      var i := 0;
      while i < n
        invariant 0 <= i <= n == pixels.Length
        invariant forall k :: 0 <= k < i ==> pixels[k] == ReverseBytes(old(pixels[k]))
        invariant forall k :: i <= k < n ==> pixels[k] == old(pixels[k])
      {
        pixels[i] := ReverseBytes(pixels[i]);
        i := i + 1;
      }
    }

    /**
     * Save: refuses an empty image, then writes the native file unless the
     * file cannot be opened. The returned map is the file system afterwards.
     */
    method Save(path: string, fs: FileSystem, writable: bool) returns (ok: bool, after: FileSystem)
      requires Valid()
      ensures ok <==> IsGood() && writable
      ensures ok ==> after == fs[path := EncodeNative(width, height, pixels[..])]
      ensures !ok ==> after == fs
    {
      if width * height == 0 || pixels == null {
        return false, fs;
      }
      if !writable {
        return false, fs;
      }
      var out := I32Bytes(TypeSize);
      out := out + I32Bytes(width);
      out := out + I32Bytes(height);
      out := out + PixelBytes(pixels[..]);
      return true, fs[path := out];
    }

    /**
     * Load: a file that cannot be opened leaves the image as it is. Otherwise
     * the image ends up as Decoded describes, and Load answers IsGood().
     */
    method Load(path: string, fs: FileSystem, allocOk: bool) returns (ok: bool)
      requires Valid()
      modifies this
      ensures Valid()
      ensures path !in fs ==> !ok && pixels == old(pixels) && width == old(width) && height == old(height)
      ensures path in fs ==> ok == IsGood()
      ensures path in fs ==>
        match Decoded(fs[path], old(width), old(height), allocOk)
        case None => pixels == null && width == 0 && height == 0
        case Some(l) => fresh(pixels) && width == l.width && height == l.height && pixels[..] == l.pixels
    {
      if path !in fs {
        return false;
      }
      var fin := Open(fs[path]);
      var r := Read(fin, I32Bytes(0), 4);
      fin := r.0;
      var typeSize := I32Of(r.1);
      if typeSize == TypeSize {
        ghost var afterTag := fin;
        r := Read(fin, I32Bytes(width), 4);
        fin := r.0;
        width := I32Of(r.1);
        r := Read(fin, I32Bytes(height), 4);
        fin := r.0;
        height := I32Of(r.1);
        var created := Create(width, height, allocOk);
        if created {
          fin := ReadPixels(fin, pixels, 4 * (width * height));
        }
        assert DecodedAfterTag(afterTag, old(width), old(height), allocOk) ==
          if created then Some(Loaded(width, height, pixels[..])) else None;
      } else {
        Free();
      }
      ok := IsGood();
    }

    /**
     * Fill: every pixel of the requested rectangle that lies in the image
     * becomes blend(pixel, color); no other pixel changes.
     */
    method Fill(x1: int, y1: int, x2: int, y2: int, color: Color32, blend: Blender)
      requires Valid()
      modifies pixels
      ensures pixels != null ==> forall i :: 0 <= i < pixels.Length ==>
        pixels[i] == if FillArea(width, height, x1, y1, x2, y2).Contains(i % width, i / width)
                     then blend(old(pixels[i]), color) else old(pixels[i])
    {
      var area := FillArea(width, height, x1, y1, x2, y2);
      if pixels == null {
        return;
      }
      FillRows(pixels, width, height, area, color, blend);
    }

    /**
     * Line: every pixel LinePixel draws becomes blend(pixel, drawn colour);
     * no other pixel changes.
     */
    method Line(x1: int, y1: int, c1: Color32, x2: int, y2: int, c2: Color32, blend: Blender)
      requires Valid()
      modifies pixels
      ensures pixels != null ==> forall i :: 0 <= i < pixels.Length ==>
        pixels[i] == Plotted(LinePixel(x1, y1, c1, x2, y2, c2, width, height, i % width, i / width), old(pixels[i]), blend)
    {
      if pixels == null {
        return;
      }
      var xd := x2 - x1;
      var yd := y2 - y1;
      if xd == 0 && yd == 0 {
        if 0 <= x1 < width && 0 <= y1 < height {
          FlatIndex(x1, y1, width, height);
          var k := y1 * width + x1;
          pixels[k] := blend(pixels[k], c1);
          forall i | 0 <= i < pixels.Length
            ensures (i % width == x1 && i / width == y1) <==> i == k
          {
            SameCell(i, x1, y1, width);
          }
        }
        return;
      }
      if Abs(xd) > Abs(yd) {
        LineAlongX(pixels, width, height, x1, y1, c1, x2, y2, c2, blend);
      } else {
        LineAlongY(pixels, width, height, x1, y1, c1, x2, y2, c2, blend);
      }
    }

    /** Fill with the default blender: the rectangle's pixels become color. */
    method FillColor(x1: int, y1: int, x2: int, y2: int, color: Color32)
      requires Valid()
      modifies pixels
      ensures pixels != null ==> forall i :: 0 <= i < pixels.Length ==>
        pixels[i] == if FillArea(width, height, x1, y1, x2, y2).Contains(i % width, i / width)
                     then color else old(pixels[i])
    {
      Fill(x1, y1, x2, y2, color, Assign);
    }

    /** Line with the default blender: the drawn pixels take the ramp colours. */
    method LineColor(x1: int, y1: int, c1: Color32, x2: int, y2: int, c2: Color32)
      requires Valid()
      modifies pixels
      ensures pixels != null ==> forall i :: 0 <= i < pixels.Length ==>
        pixels[i] == match LinePixel(x1, y1, c1, x2, y2, c2, width, height, i % width, i / width)
                     case Some(c) => c
                     case None => old(pixels[i])
    {
      Line(x1, y1, c1, x2, y2, c2, Assign);
    }
  }

  /** The branch of Line that steps x over the columns the line spans. */
  method LineAlongX(pixels: array<Color32>, width: int, height: int,
                    x1: int, y1: int, c1: Color32, x2: int, y2: int, c2: Color32, blend: Blender)
    requires pixels.Length == width * height && x1 != x2
    modifies pixels
    ensures forall i :: 0 <= i < pixels.Length ==>
      pixels[i] == Plotted(MajorPlot(x1, y1, c1, x2, y2, c2, width, height, i % width, i / width), old(pixels[i]), blend)
  {
    var lo := Max(Min(x1, x2), 0);
    var hi := Min(Max(x1, x2), width - 1);
    var x := lo;
    while x <= hi
      invariant lo <= x && (x <= hi + 1 || x == lo)
      invariant forall i :: 0 <= i < pixels.Length ==>
        pixels[i] == if i % width < x
                     then Plotted(MajorPlot(x1, y1, c1, x2, y2, c2, width, height, i % width, i / width), old(pixels[i]), blend)
                     else old(pixels[i])
    {
      var fy := MinorAt(x1, y1, x2, y2, x);
      if !(fy < 0.0 || fy >= height as real) {
        var y := Trunc(fy);
        TruncNonNegative(fy, height);
        FlatIndex(x, y, width, height);
        RatioInUnit(x, x1, x2);
        var k := y * width + x;
        pixels[k] := blend(pixels[k], Lerp(c1, c2, (x - x1) as real / (x2 - x1) as real));
        forall i | 0 <= i < pixels.Length
          ensures (i % width == x && i / width == y) <==> i == k
        {
          SameCell(i, x, y, width);
        }
      }
      x := x + 1;
    }
  }

  /** The branch of Line that steps y over the rows the line spans. */
  method LineAlongY(pixels: array<Color32>, width: int, height: int,
                    x1: int, y1: int, c1: Color32, x2: int, y2: int, c2: Color32, blend: Blender)
    requires pixels.Length == width * height && y1 != y2
    modifies pixels
    ensures forall i :: 0 <= i < pixels.Length ==>
      pixels[i] == Plotted(MajorPlot(y1, x1, c1, y2, x2, c2, height, width, i / width, i % width), old(pixels[i]), blend)
  {
    var lo := Max(Min(y1, y2), 0);
    var hi := Min(Max(y1, y2), height - 1);
    var y := lo;
    while y <= hi
      invariant lo <= y && (y <= hi + 1 || y == lo)
      invariant forall i :: 0 <= i < pixels.Length ==>
        pixels[i] == if i / width < y
                     then Plotted(MajorPlot(y1, x1, c1, y2, x2, c2, height, width, i / width, i % width), old(pixels[i]), blend)
                     else old(pixels[i])
    {
      var fx := MinorAt(y1, x1, y2, x2, y);
      if !(fx < 0.0 || fx >= width as real) {
        var x := Trunc(fx);
        TruncNonNegative(fx, width);
        FlatIndex(x, y, width, height);
        RatioInUnit(y, y1, y2);
        var k := y * width + x;
        pixels[k] := blend(pixels[k], Lerp(c1, c2, (y - y1) as real / (y2 - y1) as real));
        forall i | 0 <= i < pixels.Length
          ensures (i % width == x && i / width == y) <==> i == k
        {
          SameCell(i, x, y, width);
        }
      }
      y := y + 1;
    }
  }

  /** The rows of Fill: each row of the clipped rectangle in turn. */
  method FillRows(pixels: array<Color32>, width: int, height: int, area: Rect, color: Color32, blend: Blender)
    requires pixels.Length == width * height
    requires 0 <= area.x1 && area.x2 <= width && 0 <= area.y1 && area.y2 <= height
    modifies pixels
    ensures forall i :: 0 <= i < pixels.Length ==>
      pixels[i] == if area.Contains(i % width, i / width) then blend(old(pixels[i]), color) else old(pixels[i])
  {
    var y := area.y1;
    while y < area.y2
      invariant area.y1 <= y && (y <= area.y2 || y == area.y1)
      invariant forall i :: 0 <= i < pixels.Length ==>
        pixels[i] == if area.Contains(i % width, i / width) && i / width < y
                     then blend(old(pixels[i]), color) else old(pixels[i])
    {
      FillRow(pixels, width, height, y, area.x1, area.x2, color, blend);
      y := y + 1;
    }
  }

  /** One row of Fill: the pixels of row y in columns [x1, x2) become blend(pixel, color). */
  method FillRow(pixels: array<Color32>, width: int, height: int, y: int, x1: int, x2: int,
                 color: Color32, blend: Blender)
    requires pixels.Length == width * height && 0 <= y < height && 0 <= x1 && x2 <= width
    modifies pixels
    ensures forall i :: 0 <= i < pixels.Length ==>
      pixels[i] == if i / width == y && x1 <= i % width < x2
                   then blend(old(pixels[i]), color) else old(pixels[i])
  {
    var row := y * width;
    var x := x1;
    while x < x2
      invariant x1 <= x && (x <= x2 || x == x1)
      invariant forall i :: 0 <= i < pixels.Length ==>
        pixels[i] == if i / width == y && x1 <= i % width < x
                     then blend(old(pixels[i]), color) else old(pixels[i])
    {
      FlatIndex(x, y, width, height);
      pixels[row + x] := blend(pixels[row + x], color);
      forall i | 0 <= i < pixels.Length
        ensures (i % width == x && i / width == y) <==> i == row + x
      {
        SameCell(i, x, y, width);
      }
      x := x + 1;
    }
  }

  /**
   * The width and height Stream::Load as written reads: the first two
   * Sint32 values of the file, each read over the field's old bytes.
   */
  function StreamHeaderAsWritten(data: seq<Byte>, oldW: int, oldH: int): (r: (int, int))
    requires IsInt32(oldW) && IsInt32(oldH)
    ensures IsInt32(r.0) && IsInt32(r.1)
    ensures |data| >= 8 ==> r == (I32Of(data[0..4]), I32Of(data[4..8]))
    ensures |data| < 4 ==> r.1 == oldH
  {
    ReadPairFacts(Open(data), oldW, oldH);
    var rw := Read(Open(data), I32Bytes(oldW), 4);
    var rh := Read(rw.0, I32Bytes(oldH), 4);
    (I32Of(rw.1), I32Of(rh.1))
  }

  /** The width and height of the native header: the two Sint32 values after the size tag. */
  function StreamHeader(data: seq<Byte>, oldW: int, oldH: int): (r: (int, int))
    requires IsInt32(oldW) && IsInt32(oldH)
    ensures IsInt32(r.0) && IsInt32(r.1)
    ensures |data| >= HeaderSize ==> r == (I32Of(data[4..8]), I32Of(data[8..12]))
    ensures |data| < 4 ==> r == (oldW, oldH)
  {
    var rt := Read(Open(data), I32Bytes(0), 4);
    SkipTag(data);
    ReadPairFacts(rt.0, oldW, oldH);
    var rw := Read(rt.0, I32Bytes(oldW), 4);
    var rh := Read(rw.0, I32Bytes(oldH), 4);
    (I32Of(rw.1), I32Of(rh.1))
  }

  /**
   * Image::Stream: the name of a native image file, its size and the offset
   * of its first pixel, so that Blit can read the file row by row.
   */
  class Stream {
    var width: int
    var height: int
    var file: string
    var dataStart: int

    ghost predicate Valid()
      reads this
    {
      IsInt32(width) && IsInt32(height)
    }

    /**
     * A stream with no file. The class has no constructor of its own: the
     * file name starts empty, and width, height and dataStart hold whatever
     * values they are given here.
     */
    constructor (w0: int, h0: int, d0: int)
      requires IsInt32(w0) && IsInt32(h0) && IsInt32(d0)
      ensures Valid() && width == w0 && height == h0 && file == [] && dataStart == d0
    {
      width, height, file, dataStart := w0, h0, [], d0;
    }

    /** Free: the stream forgets its file. */
    method Free()
      modifies this
      ensures Valid() && width == 0 && height == 0 && file == [] && dataStart == 0
    {
      width := 0;
      height := 0;
      file := [];
      dataStart := 0;
    }

    /**
     * Stream::Load as the source writes it: width and height from the first
     * eight bytes, pixels taken to start right after them. A file that
     * cannot be opened frees the stream; otherwise Load succeeds, even when
     * the file is too short for the reads.
     */
    method LoadAsWritten(path: string, fs: FileSystem) returns (ok: bool)
      requires Valid()
      modifies this
      ensures Valid()
      ensures ok <==> path in fs
      ensures !ok ==> width == 0 && height == 0 && file == [] && dataStart == 0
      ensures ok ==> (width, height) == StreamHeaderAsWritten(fs[path], old(width), old(height))
      ensures ok ==> file == path && dataStart == 8
    {
      if path !in fs {
        Free();
        return false;
      }
      var fin := Open(fs[path]);
      var r := Read(fin, I32Bytes(width), 4);
      fin := r.0;
      width := I32Of(r.1);
      r := Read(fin, I32Bytes(height), 4);
      fin := r.0;
      height := I32Of(r.1);
      file := path;
      dataStart := 8;
      return true;
    }

    /**
     * Stream::Load reading the header Save writes: past the size tag, width
     * and height, with the pixels after the whole twelve-byte header.
     */
    method Load(path: string, fs: FileSystem) returns (ok: bool)
      requires Valid()
      modifies this
      ensures Valid()
      ensures ok <==> path in fs
      ensures !ok ==> width == 0 && height == 0 && file == [] && dataStart == 0
      ensures ok ==> (width, height) == StreamHeader(fs[path], old(width), old(height))
      ensures ok ==> file == path && dataStart == HeaderSize
    {
      if path !in fs {
        Free();
        return false;
      }
      var fin := Open(fs[path]);
      var r := Read(fin, I32Bytes(0), 4);
      fin := r.0;
      r := Read(fin, I32Bytes(width), 4);
      fin := r.0;
      width := I32Of(r.1);
      r := Read(fin, I32Bytes(height), 4);
      fin := r.0;
      height := I32Of(r.1);
      file := path;
      dataStart := HeaderSize;
      return true;
    }

    /** IsGood: the associated file can be opened. */
    predicate IsGood(fs: FileSystem)
      reads this
    {
      file in fs
    }

    /**
     * Refresh as the source writes it: Load the associated file again with
     * Load as written. It succeeds exactly when the stream IsGood.
     */
    method Refresh(fs: FileSystem) returns (ok: bool)
      requires Valid()
      modifies this
      ensures Valid()
      ensures ok <==> old(IsGood(fs))
      ensures !ok ==> width == 0 && height == 0 && file == [] && dataStart == 0
      ensures ok ==> (width, height) == StreamHeaderAsWritten(fs[old(file)], old(width), old(height))
      ensures ok ==> file == old(file) && dataStart == 8
    {
      ok := LoadAsWritten(file, fs);
    }

    /** Refresh through the corrected Load, which reads the header Save writes. */
    method RefreshCorrected(fs: FileSystem) returns (ok: bool)
      requires Valid()
      modifies this
      ensures Valid()
      ensures ok <==> old(IsGood(fs))
      ensures !ok ==> width == 0 && height == 0 && file == [] && dataStart == 0
      ensures ok ==> (width, height) == StreamHeader(fs[old(file)], old(width), old(height))
      ensures ok ==> file == old(file) && dataStart == HeaderSize
    {
      ok := Load(file, fs);
    }
  }

  /** ReverseByteorder applied to every pixel. */
  function ReverseAll(ps: seq<Color32>): (r: seq<Color32>)
    ensures |r| == |ps|
    ensures forall i :: 0 <= i < |ps| ==> r[i] == ReverseBytes(ps[i])
  {
    seq(|ps|, i requires 0 <= i < |ps| => ReverseBytes(ps[i]))
  }

  /** Reversing the byte order of a whole image twice restores it. */
  lemma ReverseAllTwice(ps: seq<Color32>)
    ensures ReverseAll(ReverseAll(ps)) == ps
  {
    forall i | 0 <= i < |ps|
      ensures ReverseAll(ReverseAll(ps))[i] == ps[i]
    {
      ReverseBytesTwice(ps[i]);
    }
  }
}
