/**
 * Properties of the native file format: what Load makes of the files Save
 * writes, of damaged files, and where the stream finds the header and the
 * pixels.
 */
module NativeFormat {
  import opened Util
  import opened Bytes
  import opened Color
  import opened ByteStream
  import opened Gfx

  /** The four parts of a native file, and where each lies. */
  lemma EncodeNativeParts(w: int, h: int, p: seq<Color32>)
    requires IsInt32(w) && IsInt32(h)
    ensures var e := EncodeNative(w, h, p);
      && e[0..4] == I32Bytes(TypeSize) && e[4..8] == I32Bytes(w)
      && e[8..12] == I32Bytes(h) && e[HeaderSize..] == PixelBytes(p)
  {
  }

  /** Reading a four-byte field that lies inside the data: the field's bytes, and the position moves past it. */
  lemma ReadField(data: seq<Byte>, pos: nat, buf: seq<Byte>)
    requires |buf| == 4 && pos + 4 <= |data|
    ensures Read(InStream(data, pos, false), buf, 4) == (InStream(data, pos + 4, false), data[pos..pos + 4])
  {
    var s := InStream(data, pos, false);
    assert Available(s) >= 4;
    assert Remaining(s)[..4] == data[pos..pos + 4];
    assert Remaining(s)[..4] + buf[4..] == data[pos..pos + 4];
  }

  /**
   * A file that starts with the tag and a width and height leaves Load with
   * those sizes (if Create accepts them) and the pixels read from byte 12 on.
   */
  lemma DecodedOfHeader(data: seq<Byte>, w: int, h: int, oldW: int, oldH: int, allocOk: bool)
    requires IsInt32(w) && IsInt32(h) && IsInt32(oldW) && IsInt32(oldH)
    requires |data| >= HeaderSize
    requires data[0..4] == I32Bytes(TypeSize) && data[4..8] == I32Bytes(w) && data[8..12] == I32Bytes(h)
    ensures Decoded(data, oldW, oldH, allocOk) ==
      if CreateSucceeds(w, h, allocOk)
      then Some(Loaded(w, h, PixelsLoaded(InStream(data, HeaderSize, false), w, h)))
      else None
  {
    I32RoundTrip(TypeSize);
    ReadField(data, 0, I32Bytes(0));
    AfterTagOfHeader(data, w, h, oldW, oldH, allocOk);
  }

  /** DecodedAfterTag on a stream standing at byte 4 of a file holding width w and height h. */
  lemma AfterTagOfHeader(data: seq<Byte>, w: int, h: int, oldW: int, oldH: int, allocOk: bool)
    requires IsInt32(w) && IsInt32(h) && IsInt32(oldW) && IsInt32(oldH)
    requires |data| >= HeaderSize
    requires data[4..8] == I32Bytes(w) && data[8..12] == I32Bytes(h)
    ensures DecodedAfterTag(InStream(data, 4, false), oldW, oldH, allocOk) ==
      if CreateSucceeds(w, h, allocOk)
      then Some(Loaded(w, h, PixelsLoaded(InStream(data, HeaderSize, false), w, h)))
      else None
  {
    I32RoundTrip(w);
    I32RoundTrip(h);
    ReadField(data, 4, I32Bytes(oldW));
    ReadField(data, 8, I32Bytes(oldH));
  }

  /** Loading the file Save wrote gives back the saved size and pixels, whatever the image held before. */
  lemma DecodeEncoded(w: int, h: int, p: seq<Color32>, oldW: int, oldH: int, allocOk: bool)
    requires CreateSucceeds(w, h, true) && |p| == w * h
    requires IsInt32(oldW) && IsInt32(oldH)
    ensures Decoded(EncodeNative(w, h, p), oldW, oldH, allocOk) == if allocOk then Some(Loaded(w, h, p)) else None
  {
    var e := EncodeNative(w, h, p);
    EncodeNativeParts(w, h, p);
    DecodedOfHeader(e, w, h, oldW, oldH, allocOk);
    if allocOk {
      var n := w * h;
      var s := InStream(e, HeaderSize, false);
      ReadInside(s, PixelBytes(Zeros(n)), 4 * n);
      assert Read(s, PixelBytes(Zeros(n)), 4 * n).1 == PixelBytes(p);
      PixelBytesRoundTrip(p);
    }
  }

  /** A file whose first four bytes are not the tag 4 leaves the image empty. */
  lemma DecodedWrongTag(data: seq<Byte>, oldW: int, oldH: int, allocOk: bool)
    requires IsInt32(oldW) && IsInt32(oldH)
    requires |data| >= 4 && I32Of(data[..4]) != TypeSize
    ensures Decoded(data, oldW, oldH, allocOk) == None
  {
    ReadInside(Open(data), I32Bytes(0), 4);
  }

  /**
   * A file that holds the size tag and nothing else loads as a blank image
   * of the size the image had before: the width and height reads fail and
   * leave the fields as they were, and the size is not checked again.
   */
  lemma DecodedTagOnly(oldW: int, oldH: int, allocOk: bool)
    requires IsInt32(oldW) && IsInt32(oldH)
    ensures Decoded(I32Bytes(TypeSize), oldW, oldH, allocOk) ==
      if CreateSucceeds(oldW, oldH, allocOk) then Some(Loaded(oldW, oldH, Zeros(oldW * oldH))) else None
  {
    var data := I32Bytes(TypeSize);
    I32RoundTrip(TypeSize);
    ReadField(data, 0, I32Bytes(0));
    assert data[0..4] == data;
    AfterTagAtEnd(data, oldW, oldH, allocOk);
  }

  /** DecodedAfterTag on a stream with nothing left: both size reads fail and keep the old size. */
  lemma AfterTagAtEnd(data: seq<Byte>, oldW: int, oldH: int, allocOk: bool)
    requires IsInt32(oldW) && IsInt32(oldH)
    ensures DecodedAfterTag(InStream(data, |data|, false), oldW, oldH, allocOk) ==
      if CreateSucceeds(oldW, oldH, allocOk) then Some(Loaded(oldW, oldH, Zeros(oldW * oldH))) else None
  {
    var s := InStream(data, |data|, false);
    var failed := InStream(data, |data|, true);
    assert Read(s, I32Bytes(oldW), 4) == (failed, I32Bytes(oldW)) by {
      assert Remaining(s) == [] && Available(s) == 0;
      assert Remaining(s)[..0] + I32Bytes(oldW)[0..] == I32Bytes(oldW);
    }
    FailIsSticky(failed, I32Bytes(oldH), 4, 0);
    I32RoundTrip(oldW);
    I32RoundTrip(oldH);
    if CreateSucceeds(oldW, oldH, allocOk) {
      PixelsLoadedFailed(failed, oldW, oldH);
    }
  }

  /** A failed stream loads only default pixels. */
  lemma PixelsLoadedFailed(s: InStream, w: int, h: int)
    requires s.fail && 0 < w && 0 < h
    ensures PixelsLoaded(s, w, h) == Zeros(w * h)
  {
    MulPositive(w, h);
    var n := w * h;
    FailIsSticky(s, PixelBytes(Zeros(n)), 4 * n, 0);
    PixelBytesRoundTrip(Zeros(n));
  }

  /**
   * A native file cut short after k whole pixels loads with those k pixels
   * and default pixels for the rest.
   */
  lemma DecodedTruncated(w: int, h: int, p: seq<Color32>, k: int, oldW: int, oldH: int)
    requires CreateSucceeds(w, h, true) && |p| == w * h && 0 <= k <= |p|
    requires IsInt32(oldW) && IsInt32(oldH)
    ensures Decoded(EncodeNative(w, h, p)[..HeaderSize + 4 * k], oldW, oldH, true)
         == Some(Loaded(w, h, p[..k] + Zeros(|p| - k)))
  {
    var d := EncodeNative(w, h, p)[..HeaderSize + 4 * k];
    TruncatedParts(w, h, p, k);
    DecodedOfHeader(d, w, h, oldW, oldH, true);
    var s := InStream(d, HeaderSize, false);
    TruncatedRead(s, p[..k], w * h);
    assert |p[..k]| == k;
  }

  /** A native file cut short after k whole pixels: the whole header, then the bytes of those k pixels. */
  lemma TruncatedParts(w: int, h: int, p: seq<Color32>, k: int)
    requires IsInt32(w) && IsInt32(h) && 0 <= k <= |p|
    ensures var d := EncodeNative(w, h, p)[..HeaderSize + 4 * k];
      && |d| >= HeaderSize
      && d[0..4] == I32Bytes(TypeSize) && d[4..8] == I32Bytes(w) && d[8..12] == I32Bytes(h)
      && Remaining(InStream(d, HeaderSize, false)) == PixelBytes(p[..k])
  {
    var e := EncodeNative(w, h, p);
    var d := e[..HeaderSize + 4 * k];
    EncodeNativeParts(w, h, p);
    assert d[0..4] == e[0..4] && d[4..8] == e[4..8] && d[8..12] == e[8..12];
    var s := InStream(d, HeaderSize, false);
    assert Remaining(s) == PixelBytes(p[..k]) by {
      PixelBytesSlice(p, 0, k);
      assert e[HeaderSize..][..4 * k] == d[HeaderSize..];
    }
  }

  /**
   * Reading n pixels from a stream that holds the bytes of only k of them:
   * those k pixels, then default pixels.
   */
  lemma {:induction false} TruncatedRead(s: InStream, q: seq<Color32>, n: nat)
    requires !s.fail && Remaining(s) == PixelBytes(q) && |q| <= n
    ensures PixelsOf(Read(s, PixelBytes(Zeros(n)), 4 * n).1) == q + Zeros(n - |q|)
  {
    var k := |q|;
    var zeros := Zeros(n);
    var got := Read(s, PixelBytes(zeros), 4 * n).1;
    PixelBytesSlice(zeros, k, n);
    assert zeros[k..n] == Zeros(n - k);
    if k < n {
      ReadShort(s, PixelBytes(zeros), 4 * n);
      assert got == got[..4 * k] + got[4 * k..];
    } else {
      assert Remaining(s)[..4 * n] == PixelBytes(q);
      assert got == PixelBytes(q);
      assert Zeros(0) == [];
    }
    assert got == PixelBytes(q) + PixelBytes(Zeros(n - k));
    PixelBytesConcat(q, Zeros(n - k));
    PixelBytesRoundTrip(q + Zeros(n - k));
  }

  /**
   * Stream::Load as written on a file Save wrote: it takes the size tag for
   * the width and the width for the height, and puts its pixel data at the
   * height field.
   */
  lemma StreamLoadMisreadsSavedFile(w: int, h: int, p: seq<Color32>, oldW: int, oldH: int)
    requires IsInt32(w) && IsInt32(h) && IsInt32(oldW) && IsInt32(oldH)
    ensures StreamHeaderAsWritten(EncodeNative(w, h, p), oldW, oldH) == (TypeSize, w)
    ensures EncodeNative(w, h, p)[8..12] == I32Bytes(h)
  {
    var e := EncodeNative(w, h, p);
    EncodeNativeParts(w, h, p);
    I32RoundTrip(TypeSize);
    I32RoundTrip(w);
    ReadInside(Open(e), I32Bytes(oldW), 4);
    ReadInside(Read(Open(e), I32Bytes(oldW), 4).0, I32Bytes(oldH), 4);
  }

  /**
   * The header and pixel layout the stream relies on, for a file Save wrote:
   * the header gives back the width and height, and pixel i lies at
   * HeaderSize + 4 * i.
   */
  lemma StreamHeaderOfSavedFile(w: int, h: int, p: seq<Color32>, oldW: int, oldH: int)
    requires IsInt32(w) && IsInt32(h) && IsInt32(oldW) && IsInt32(oldH)
    ensures StreamHeader(EncodeNative(w, h, p), oldW, oldH) == (w, h)
    ensures forall i :: 0 <= i < |p| ==>
      EncodeNative(w, h, p)[HeaderSize + 4 * i .. HeaderSize + 4 * i + 4] == ToBytes(p[i])
  {
    var e := EncodeNative(w, h, p);
    EncodeNativeParts(w, h, p);
    I32RoundTrip(w);
    I32RoundTrip(h);
    ReadField(e, 0, I32Bytes(0));
    ReadField(e, 4, I32Bytes(oldW));
    ReadField(e, 8, I32Bytes(oldH));
    forall i | 0 <= i < |p|
      ensures e[HeaderSize + 4 * i .. HeaderSize + 4 * i + 4] == ToBytes(p[i])
    {
      PixelAt(e, p, i);
    }
  }

  /** Pixel i of a buffer whose bytes start at HeaderSize lies at HeaderSize + 4 * i. */
  lemma PixelAt(e: seq<Byte>, p: seq<Color32>, i: int)
    requires |e| >= HeaderSize && e[HeaderSize..] == PixelBytes(p) && 0 <= i < |p|
    ensures HeaderSize + 4 * i + 4 <= |e|
    ensures e[HeaderSize + 4 * i .. HeaderSize + 4 * i + 4] == ToBytes(p[i])
  {
    PixelBytesSlice(p, i, i + 1);
    assert e[HeaderSize..][4 * i .. 4 * i + 4] == e[HeaderSize + 4 * i .. HeaderSize + 4 * i + 4];
    assert p[i .. i + 1] == [p[i]];
    assert PixelBytes([p[i]]) == ToBytes(p[i]);
  }
}
