/**
 * Color32: a packed colour of four 8-bit channels with saturating
 * arithmetic, per-channel shifts and an equality that ignores alpha.
 *
 * The memory layout is fixed to the little-endian BGRA32 layout of the
 * Linux and Windows builds: byte 0 is blue, 1 green, 2 red, 3 alpha, and
 * the 32-bit `value` is those bytes read little-endian.
 */
module Color {
  import opened Util
  import opened Bytes

  datatype Color32 = Color32(red: Byte, green: Byte, blue: Byte, alpha: Byte)

  const ChannelMax: Byte := 255

  /** Color32( void ): the colour whose value is 0. */
  function Zero(): Color32 {
    Color32(0, 0, 0, 0)
  }

  /** Color32(pColor, pAlpha): pColor with its alpha replaced. */
  function WithAlpha(c: Color32, a: Byte): (r: Color32)
    ensures Equal(r, c) && r.alpha == a
    ensures a == c.alpha ==> r == c
  {
    c.(alpha := a)
  }

  // ---------------------------------------------------------------------
  // Equality

  /** operator==: compares red, green and blue; alpha plays no part. */
  predicate Equal(a: Color32, b: Color32)
    ensures Equal(a, b) <==> a.(alpha := 0) == b.(alpha := 0)
  {
    a.red == b.red && a.green == b.green && a.blue == b.blue
  }

  /** Equal colours with equal alpha are identical. */
  lemma EqualIgnoresAlpha(a: Color32, b: Color32)
    ensures Equal(a, b) && a.alpha == b.alpha ==> a == b
  {
  }

  /** Equal is an equivalence relation. */
  lemma EqualIsEquivalence(a: Color32, b: Color32, c: Color32)
    ensures Equal(a, a)
    ensures Equal(a, b) ==> Equal(b, a)
    ensures Equal(a, b) && Equal(b, c) ==> Equal(a, c)
  {
  }

  /** operator!=: the negation of operator==. */
  predicate NotEqual(a: Color32, b: Color32)
    ensures NotEqual(a, b) ==> a != b
  {
    !Equal(a, b)
  }

  lemma NotEqualIffSomeColourChannelDiffers(a: Color32, b: Color32)
    ensures NotEqual(a, b) <==> (a.red != b.red || a.green != b.green || a.blue != b.blue)
  {
  }

  // ---------------------------------------------------------------------
  // Saturating arithmetic (the values the lookup tables hold)

  /** min(255, x + y) */
  function SatAdd(x: Byte, y: Byte): Byte {
    if x as int + y as int > 255 then 255 else x + y
  }

  /** max(0, x - y) */
  function SatSub(x: Byte, y: Byte): Byte {
    if x < y then 0 else x - y
  }

  /** operator+= / operator+: saturating add on all four channels. */
  function Add(l: Color32, r: Color32): (c: Color32)
    ensures forall k :: 0 <= k < 4 ==> ToBytes(c)[k] == SatAdd(ToBytes(l)[k], ToBytes(r)[k])
  {
    Color32(SatAdd(l.red, r.red), SatAdd(l.green, r.green),
            SatAdd(l.blue, r.blue), SatAdd(l.alpha, r.alpha))
  }

  /** operator-= / operator-: saturating subtract on all four channels. */
  function Sub(l: Color32, r: Color32): (c: Color32)
    ensures forall k :: 0 <= k < 4 ==> ToBytes(c)[k] == SatSub(ToBytes(l)[k], ToBytes(r)[k])
  {
    Color32(SatSub(l.red, r.red), SatSub(l.green, r.green),
            SatSub(l.blue, r.blue), SatSub(l.alpha, r.alpha))
  }

  /** Saturation never goes below either operand, nor wraps. */
  lemma SatAddBounds(x: Byte, y: Byte)
    ensures x <= SatAdd(x, y) && y <= SatAdd(x, y)
    ensures SatAdd(x, y) == x + y || SatAdd(x, y) == 255
    ensures SatAdd(x, y) == SatAdd(y, x)
  {
  }

  lemma SatSubBounds(x: Byte, y: Byte)
    ensures SatSub(x, y) <= x
    ensures SatSub(x, y) == x - y || SatSub(x, y) == 0
    ensures SatSub(x, y) == 0 <==> x <= y
  {
  }

  /** Subtracting what was added gives the original colour back when no channel saturated. */
  lemma SubUndoesUnsaturatedAdd(l: Color32, r: Color32)
    requires l.red + r.red <= 255 && l.green + r.green <= 255
    requires l.blue + r.blue <= 255 && l.alpha + r.alpha <= 255
    ensures Sub(Add(l, r), r) == l
  {
  }

  /** Adding back what was subtracted restores the colour when no channel clamped at 0. */
  lemma AddUndoesUnclampedSub(l: Color32, r: Color32)
    requires r.red <= l.red && r.green <= l.green && r.blue <= l.blue && r.alpha <= l.alpha
    ensures Add(Sub(l, r), r) == l
  {
  }

  // ---------------------------------------------------------------------
  // Per-channel shifts

  function Pow2(n: nat): (p: nat)
    ensures p >= 1
  {
    if n == 0 then 1 else 2 * Pow2(n - 1)
  }

  /** Uint8 ch >>= n */
  function ShrChannel(x: Byte, n: nat): (r: Byte)
    ensures r <= x
    ensures n >= 8 ==> r == 0
  {
    DivShrinks(x, Pow2(n));
    if n >= 8 then
      Pow2AtLeast256(n);
      DivModUnique(x, 0, x, Pow2(n));
      x / Pow2(n)
    else x / Pow2(n)
  }

  /** Dividing a non-negative number by a positive one gives at most the number. */
  lemma DivShrinks(x: int, p: int)
    requires 0 <= x && 0 < p
    ensures 0 <= x / p <= x
  {
    var q := x / p;
    MulMono(1, p, q);
    assert q <= p * q;
  }

  /** Uint8 ch <<= n: the shift is done in int and truncated back to 8 bits. */
  function ShlChannel(x: Byte, n: nat): Byte {
    (x * Pow2(n)) % 256
  }

  /** operator>>= / operator>>: each channel shifted on its own. */
  function Shr(c: Color32, n: int): (s: Color32)
    requires 0 <= n < 32
    ensures n == 0 ==> s == c
    ensures n >= 8 ==> s == Zero()
    ensures s.red <= c.red && s.green <= c.green && s.blue <= c.blue && s.alpha <= c.alpha
    ensures forall k :: 0 <= k < 4 ==> ToBytes(s)[k] == ToBytes(c)[k] / Pow2(n)
  {
    Color32(ShrChannel(c.red, n), ShrChannel(c.green, n), ShrChannel(c.blue, n), ShrChannel(c.alpha, n))
  }

  /** operator<<= / operator<<: each channel shifted on its own; bits that leave a channel are lost. */
  function Shl(c: Color32, n: int): (s: Color32)
    requires 0 <= n < 32
    ensures n == 0 ==> s == c
    ensures forall k :: 0 <= k < 4 ==> ToBytes(s)[k] == (ToBytes(c)[k] * Pow2(n)) % 256
  {
    Color32(ShlChannel(c.red, n), ShlChannel(c.green, n), ShlChannel(c.blue, n), ShlChannel(c.alpha, n))
  }

  lemma {:induction false} Pow2Add(a: nat, b: nat)
    ensures Pow2(a) * Pow2(b) == Pow2(a + b)
  {
    if a > 0 {
      Pow2Add(a - 1, b);
    }
  }

  lemma {:induction false} Pow2AtLeast256(n: nat)
    requires n >= 8
    ensures Pow2(n) % 256 == 0 && Pow2(n) >= 256
  {
    Pow2Add(8, n - 8);
    assert Pow2(8) == 256;
  }

  /** Shifting a channel right then left clears its low n bits. */
  lemma ShrThenShlChannel(x: Byte, n: nat)
    requires n <= 8
    ensures ShlChannel(ShrChannel(x, n), n) == x - x % Pow2(n)
  {
    DivThenMul(x, Pow2(n));
  }

  /** Shifting a channel left then right keeps only its low 8 - n bits. */
  lemma ShlThenShrChannel(x: Byte, n: nat)
    requires n <= 8
    ensures ShrChannel(ShlChannel(x, n), n) == x % Pow2(8 - n)
  {
    Pow2Add(8 - n, n);
    assert Pow2(8) == 256;
    MulThenDiv(x, Pow2(n), Pow2(8 - n));
  }

  /** For a byte x, ((x / p) * p) % 256 clears the part below p. */
  lemma DivThenMul(x: Byte, p: int)
    requires 0 < p
    ensures ((x / p) * p) % 256 == x - x % p
  {
    var q := x / p;
    assert q * p == x - x % p;
    DivModUnique(q * p, 0, q * p, 256);
  }

  /** For a byte x and p * k == 256, ((x * p) % 256) / p keeps the part of x below k. */
  lemma MulThenDiv(x: Byte, p: int, k: int)
    requires 0 < p && 0 < k && k * p == 256
    ensures ((x * p) % 256) / p == x % k
  {
    var a := x / k;
    var b := x % k;
    assert x == a * k + b;
    assert x * p == a * 256 + b * p by {
      assert x * p == (a * k) * p + b * p;
      assert (a * k) * p == a * (k * p);
    }
    MulMono(b, k - 1, p);
    assert (k - 1) * p == k * p - p;
    MulMono(0, b, p);
    DivModUnique(x * p, a, b * p, 256);
    DivModUnique(b * p, b, 0, p);
  }

  /** A left shift by 8 or more clears every channel (no carry between channels). */
  lemma ShlWideClears(c: Color32, n: int)
    requires 8 <= n < 32
    ensures Shl(c, n) == Zero()
  {
    Pow2AtLeast256(n);
    var p := Pow2(n);
    assert forall x: Byte :: (x * p) % 256 == 0 by {
      forall x: Byte ensures (x * p) % 256 == 0 {
        var k := p / 256;
        assert p == 256 * k;
        assert x * p == 256 * (x * k);
      }
    }
  }

  /** Shifting right then left clears the low n bits of every channel. */
  lemma ShrThenShl(c: Color32, n: int)
    requires 0 <= n <= 8
    ensures var r := Shl(Shr(c, n), n);
      r.red == c.red - c.red % Pow2(n) && r.green == c.green - c.green % Pow2(n) &&
      r.blue == c.blue - c.blue % Pow2(n) && r.alpha == c.alpha - c.alpha % Pow2(n)
  {
    ShrThenShlChannel(c.red, n);
    ShrThenShlChannel(c.green, n);
    ShrThenShlChannel(c.blue, n);
    ShrThenShlChannel(c.alpha, n);
  }

  /** Shifting left then right keeps the low 8 - n bits of every channel. */
  lemma ShlThenShr(c: Color32, n: int)
    requires 0 <= n <= 8
    ensures var r := Shr(Shl(c, n), n);
      r.red == c.red % Pow2(8 - n) && r.green == c.green % Pow2(8 - n) &&
      r.blue == c.blue % Pow2(8 - n) && r.alpha == c.alpha % Pow2(8 - n)
  {
    ShlThenShrChannel(c.red, n);
    ShlThenShrChannel(c.green, n);
    ShlThenShrChannel(c.blue, n);
    ShlThenShrChannel(c.alpha, n);
  }

  // ---------------------------------------------------------------------
  // Memory layout

  /** The four bytes of a colour as they lie in memory. */
  function ToBytes(c: Color32): (b: seq<Byte>)
    ensures |b| == 4
    ensures FromBytes(b) == c
  {
    [c.blue, c.green, c.red, c.alpha]
  }

  /** The colour stored in four bytes of memory. */
  function FromBytes(b: seq<Byte>): Color32
    requires |b| == 4
  {
    Color32(b[2], b[1], b[0], b[3])
  }

  /** The colour four bytes hold lies in memory as those same bytes. */
  lemma BytesRoundTrip(b: seq<Byte>)
    requires |b| == 4
    ensures ToBytes(FromBytes(b)) == b
  {
  }

  /** Color32::value */
  function Value(c: Color32): (v: int)
    ensures 0 <= v < TwoTo32
    ensures v == c.blue + 256 * c.green + 65536 * c.red + 16777216 * c.alpha
  {
    U32Of(ToBytes(c))
  }

  /** explicit Color32(Uint32 pColor) */
  function FromValue(v: int): (c: Color32)
    requires 0 <= v < TwoTo32
    ensures Value(c) == v
  {
    U32RoundTrip(v);
    FromBytes(U32Bytes(v))
  }

  /** The packed value and the channels describe the same colour. */
  lemma ValueRoundTrip(c: Color32)
    ensures FromValue(Value(c)) == c
  {
    U32BytesOfValue(ToBytes(c));
  }

  /** The default constructor's value 0 is the colour with every channel 0. */
  lemma ZeroIsValueZero()
    ensures FromValue(0) == Zero() && Value(Zero()) == 0
  {
  }

  /** One pixel of ReverseByteorder: bytes 0 and 3, then 1 and 2, are swapped. */
  function ReverseBytes(c: Color32): (r: Color32)
    ensures ToBytes(r) == [ToBytes(c)[3], ToBytes(c)[2], ToBytes(c)[1], ToBytes(c)[0]]
    ensures r.red == c.green && r.green == c.red && r.blue == c.alpha && r.alpha == c.blue
  {
    var b := ToBytes(c);
    FromBytes([b[3], b[2], b[1], b[0]])
  }

  /** Reversing the byte order twice restores the colour. */
  lemma ReverseBytesTwice(c: Color32)
    ensures ReverseBytes(ReverseBytes(c)) == c
  {
  }

  // ---------------------------------------------------------------------
  // Pixel runs as raw bytes

  /** The raw bytes of a run of pixels, as `fout.write((char*)pixels, n*4)` writes them. */
  function PixelBytes(ps: seq<Color32>): (b: seq<Byte>)
    ensures |b| == 4 * |ps|
    ensures forall i :: 0 <= i < |b| ==> b[i] == ToBytes(ps[i / 4])[i % 4]
  {
    seq(4 * |ps|, i requires 0 <= i < 4 * |ps| => ToBytes(ps[i / 4])[i % 4])
  }

  /** The pixels that raw bytes describe, four bytes each. */
  function PixelsOf(b: seq<Byte>): (ps: seq<Color32>)
    requires |b| % 4 == 0
    ensures |ps| == |b| / 4
    ensures forall k :: 0 <= k < |ps| ==> ps[k] == FromBytes(b[4 * k .. 4 * k + 4])
  {
    seq(|b| / 4, k requires 0 <= k < |b| / 4 => FromBytes(b[4 * k .. 4 * k + 4]))
  }

  lemma PixelBytesRoundTrip(ps: seq<Color32>)
    ensures PixelsOf(PixelBytes(ps)) == ps
  {
    var b := PixelBytes(ps);
    forall k | 0 <= k < |ps|
      ensures PixelsOf(b)[k] == ps[k]
    {
      assert b[4 * k .. 4 * k + 4] == ToBytes(ps[k]) by {
        forall j | 0 <= j < 4
          ensures b[4 * k + j] == ToBytes(ps[k])[j]
        {
          assert (4 * k + j) / 4 == k && (4 * k + j) % 4 == j;
        }
      }
    }
  }

  lemma PixelsOfRoundTrip(b: seq<Byte>)
    requires |b| % 4 == 0
    ensures PixelBytes(PixelsOf(b)) == b
  {
    var ps := PixelsOf(b);
    forall i | 0 <= i < |b|
      ensures PixelBytes(ps)[i] == b[i]
    {
      var k := i / 4;
      assert 4 * k <= i < 4 * k + 4;
      assert ToBytes(FromBytes(b[4 * k .. 4 * k + 4]))[i % 4] == b[i];
    }
  }

  /** The bytes of a slice of pixels are the matching slice of the bytes. */
  lemma PixelBytesSlice(ps: seq<Color32>, i: int, j: int)
    requires 0 <= i <= j <= |ps|
    ensures PixelBytes(ps)[4 * i .. 4 * j] == PixelBytes(ps[i .. j])
  {
    var whole := PixelBytes(ps);
    var part := PixelBytes(ps[i .. j]);
    forall t | 0 <= t < 4 * (j - i)
      ensures whole[4 * i + t] == part[t]
    {
      assert (4 * i + t) / 4 == i + t / 4 && (4 * i + t) % 4 == t % 4;
    }
  }

  /** The bytes of two runs of pixels one after the other are the two byte runs one after the other. */
  lemma PixelBytesConcat(a: seq<Color32>, b: seq<Color32>)
    ensures PixelBytes(a + b) == PixelBytes(a) + PixelBytes(b)
  {
    var whole := PixelBytes(a + b);
    var parts := PixelBytes(a) + PixelBytes(b);
    forall t | 0 <= t < |whole|
      ensures whole[t] == parts[t]
    {
      PixelBytesConcatAt(a, b, t);
    }
    assert |whole| == |parts|;
  }

  lemma PixelBytesConcatAt(a: seq<Color32>, b: seq<Color32>, t: int)
    requires 0 <= t < 4 * (|a| + |b|)
    ensures PixelBytes(a + b)[t] == (PixelBytes(a) + PixelBytes(b))[t]
  {
    if t >= 4 * |a| {
      var u := t - 4 * |a|;
      assert t / 4 == |a| + u / 4 && t % 4 == u % 4;
      assert (a + b)[t / 4] == b[u / 4];
    } else {
      assert (a + b)[t / 4] == a[t / 4];
    }
  }
}
