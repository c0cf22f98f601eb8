# A verified model of the core of a small SDL software compositor

The compositor keeps images as row-major buffers of 32-bit `Color32` pixels and draws on them in software. This model covers the following parts:

- **Color32.** The four 8-bit channels and the union with a 32-bit value. Add and subtract saturate. They read from 256 x 256 tables that `GfxInit` fills with nested loops. Equality ignores alpha. Each channel shifts independently. One constructor replaces only the alpha.
- **Blenders.** The blend functors `Assign`, `AlphaBlend`, `ColorKey`, `Grayscale` and `FillGrayscale`, and the `Nearest` sampler.
- **Image.** The `Image` buffer object and its state changes: `Free`, `Create`, `SetMemory`, `Copy`, `operator=` and `ReverseByteorder`.
- **Native file format.** `Save` writes a size tag, the width, the height, then the raw pixels. `Load` reads it back, including what the stream reads leave behind on short or damaged files.
- **Image::Stream.** A handle on a native file, used by the streaming Blit. `Load` and `Refresh` read the header as the code writes it. Corrected versions read the header Save writes (see Findings).
- **Raster operations.**
  - `Fill` clips a rectangle.
  - `Line` steps along the major axis and ramps its colour.
  - The in-memory `Blit` clamps, mirrors, walks texture coordinates and clips the writable extent. It follows the reversed walk as the code writes it. A separate corrected Blit mirrors exactly, and on forward ranges the two are the same (see Findings).
  - The streaming `Blit` indexes the source in 16.16 fixed point, through a row buffer it refills from the file on every scanline.
- **Default-argument overloads** of Fill, Line and the Blits.

The modules follow the source:

| module | file | contents |
|---|---|---|
| `Util` | util.dfy | integer and real helpers |
| `Bytes` | bytes.dfy | 8-bit bytes and little-endian 32-bit fields |
| `ByteStream` | bytestream.dfy | the slice of `std::ifstream` the code uses: open, `seekg`, `read`, with a sticky fail bit |
| `Color` | color.dfy | Color32 and its operators |
| `ArithTables` | tables.dfy | the table-building loops and the table-driven `+=` / `-=` |
| `Blend` | blend.dfy | the blenders |
| `Sampling` | sampling.dfy | Nearest |
| `Raster` | raster.dfy | what Fill and Line touch, as functions |
| `Gfx` | image.dfy | the `Image` and `Image::Stream` classes, Fill, Line, the native format |
| `NativeFormat` | native.dfy | Save/Load round trips and the stream header |
| `BlitGeometry` | blitgeom.dfy | one clipped Blit axis |
| `Blitting` | blit.dfy | both Blits and their overloads |

The code does I/O and allocation, and those become parameters:

- Files are a `FileSystem`, a map from path to contents. A path that is not in the map cannot be opened.
- Whether `new` succeeds is `allocOk`.
- Whether a file can be opened for writing is `writable`.
- Floats are exact reals, and a float-to-integer cast is truncation.
- The luminance formula of Grayscale is a parameter `luma`.
- The sampler is a parameter of Blit.

## Model

| member | source | states |
|---|---|---|
| Bytes.I32RoundTrip | gfx.cpp:349-351 | A Sint32 written as its four little-endian bytes reads back as the same value. |
| Bytes.I32BytesOfValue | gfx.cpp:308-312 | Any four bytes read into a Sint32 and written again are the same four bytes. |
| Bytes.U32RoundTrip | gfx.h:67-70 | The Uint32 `value` of the union and its four bytes convert into each other without loss. |
| Bytes.U32BytesOfValue | gfx.h:67-70 | The converse: four bytes taken as a Uint32 and written back are unchanged. |
| ByteStream.Open | gfx.cpp:299 | An opened stream stands at byte 0 of the file, not failed. |
| ByteStream.Seek | gfx.h:581 | A seek keeps the data. It fails exactly when the stream had failed or the offset is negative. Otherwise it moves to the offset. |
| ByteStream.Read | gfx.cpp:309-314 | A read keeps the data and the length of the target buffer. It never touches the target past n. |
| ByteStream.ReadInside | gfx.cpp:309-314 | A read that fits delivers exactly the next n bytes. It moves past them and the stream does not fail. |
| ByteStream.ReadShort | gfx.cpp:309-314 | A read that does not fit fails. It stores what the file still holds at the front of the target and leaves the rest of the target as it was. |
| ByteStream.FailIsSticky | gfx.h:581-582 | Once failed, seeks and reads change neither the stream nor the target. |
| Color.WithAlpha | gfx.cpp:99 | `Color32(c, a)` equals c on red, green and blue and has alpha a. With c's own alpha it is c. |
| Color.ZeroIsValueZero | gfx.cpp:97 | The default colour is the value 0, with every channel 0. |
| Color.Value | gfx.h:67-70 | The union's `value` is a Uint32, namely blue + 256·green + 65536·red + 2^24·alpha in the BGRA layout. |
| Color.FromValue | gfx.cpp:100 | `Color32(Uint32 v)` is the colour whose `value` is v. |
| Color.ValueRoundTrip | gfx.cpp:100 | The converse: `Color32(c.value)` is c, so the constructor and `value` are inverse. |
| Color.ToBytes | gfx.h:67-93 | A colour lies in memory as four bytes, and those bytes read back as the same colour. |
| Color.BytesRoundTrip | gfx.h:67-93 | The converse: any four bytes, read as a colour and laid in memory again, are the same four bytes. |
| Color.Equal | gfx.cpp:152-159 | `==` holds exactly when the two colours agree once their alpha is ignored. |
| Color.EqualIgnoresAlpha | gfx.cpp:152-159 | Colours that are `==` and have the same alpha are identical. |
| Color.EqualIsEquivalence | gfx.cpp:152-159 | `==` is reflexive, symmetric and transitive. |
| Color.NotEqual | gfx.cpp:160-163 | `!=` implies that the colours are different. |
| Color.NotEqualIffSomeColourChannelDiffers | gfx.cpp:160-163 | `!=` holds exactly when red, green or blue differ. |
| Color.Add | gfx.cpp:112-119 | `+=` and `+` give, on each of the four bytes, the saturating sum of the operands' bytes. |
| Color.Sub | gfx.cpp:120-127 | `-=` and `-` give, on each of the four bytes, the saturating difference of the operands' bytes. |
| Color.Shr | gfx.cpp:136-143 | Each of the four bytes becomes its own byte divided by 2^n, rounded down. So `>>` by 0 keeps the colour, by 8 or more gives the zero colour, and never raises any channel. |
| Color.Shl | gfx.cpp:144-151 | `<<` by 0 keeps the colour. Each of the four bytes becomes its own byte times 2^n truncated to 8 bits, so nothing carries between channels. |
| Color.SatAddBounds | gfx.cpp:39-47 | A saturating add channel is at least either operand, is commutative, and is either the exact sum or 255. |
| Color.SatSubBounds | gfx.cpp:50-58 | A saturating subtract channel is at most the minuend and is either the exact difference or 0. It is 0 exactly when x <= y. |
| Color.SubUndoesUnsaturatedAdd | gfx.cpp:112-127 | `(l + r) - r == l` when no channel of l + r saturates. Alpha is included. |
| Color.AddUndoesUnclampedSub | gfx.cpp:112-127 | `(l - r) + r == l` when no channel of l - r clamps at 0. |
| Color.ShrThenShlChannel | gfx.cpp:136-151 | A channel shifted right then left by n <= 8 loses exactly its low n bits. |
| Color.ShlThenShrChannel | gfx.cpp:136-151 | A channel shifted left then right by n <= 8 keeps exactly its low 8 - n bits. The high bits are lost at 8 bits. |
| Color.ShrThenShl | gfx.cpp:136-151 | `(c >> n) << n` clears the low n bits of each of the four channels independently. |
| Color.ShlThenShr | gfx.cpp:136-151 | `(c << n) >> n` keeps the low 8 - n bits of each channel, so no bit carries into a neighbouring channel. |
| Color.ShlWideClears | gfx.cpp:144-151 | A left shift by 8 or more clears every channel. |
| Color.ReverseBytes | gfx.cpp:410-421 | One pixel of ReverseByteorder: the four bytes in reverse order, which swaps blue with alpha and green with red. |
| Color.ReverseBytesTwice | gfx.cpp:410-421 | Reversing a pixel's bytes twice gives the pixel back. |
| Color.PixelBytes | gfx.cpp:353 | The raw bytes of a pixel array: byte i is byte i % 4 of pixel i / 4. |
| Color.PixelsOf | gfx.cpp:313-314 | Pixels read from raw bytes: pixel k is made from bytes 4k .. 4k + 4. |
| Color.PixelBytesRoundTrip | gfx.cpp:313-314 | Raw pixel bytes read back as the same pixels. |
| Color.PixelsOfRoundTrip | gfx.cpp:313-314 | A whole number of pixels' bytes, read as pixels and written again, is unchanged. |
| Color.PixelBytesSlice | gfx.h:581-582 | The bytes of pixels i .. j are bytes 4i .. 4j of the whole array's bytes, as a row read relies on. |
| Color.PixelBytesConcat | gfx.cpp:313-314 | The bytes of two pixel arrays back to back are the two byte sequences back to back. |
| ArithTables.BuildAddTable | gfx.cpp:39-47 | After the nested loops, entry [i, j] of the addition table is min(255, i + j) for every i and j in 0..255. |
| ArithTables.BuildSubTable | gfx.cpp:50-58 | After the nested loops, entry [i, j] of the subtraction table is max(0, i - j) for every i and j in 0..255. |
| ArithTables.Tables.Init | gfx.cpp:37-58 | The tables as GfxInit leaves them: both built, 256 x 256, with the entries above. |
| ArithTables.Tables.AddAssign | gfx.cpp:112-119 | `+=` reads the addition table per channel, alpha included, and so computes the saturating sum. |
| ArithTables.Tables.SubAssign | gfx.cpp:120-127 | `-=` reads the subtraction table per channel and so computes the saturating difference. |
| Blend.Assign | gfx.h:129-134 | Assign always returns the source colour. |
| Blend.AlphaChannel | gfx.h:143-149 | One AlphaBlend channel is `d + floor(a·(s - d) / 256)`, computed from the original destination value, and it lies between d and s. |
| Blend.AlphaStepBounds | gfx.h:143-149 | The alpha step never leaves the interval between destination and source, so no 8-bit wrap-around occurs. |
| Blend.AlphaBlend | gfx.h:141-150 | Every channel, alpha included, is `dst + floor(src.alpha·(src - dst) / 256)`, using the destination values from before the call. |
| Blend.AlphaBlendBetween | gfx.h:143-149 | Each channel of the result lies between the destination and source channels. |
| Blend.AlphaBlendTransparent | gfx.h:141-150 | A source alpha of 0 leaves the destination unchanged. |
| Blend.AlphaBlendSameColour | gfx.h:141-150 | Blending a colour with itself keeps red, green and blue. Only alpha moves towards the source alpha. |
| Blend.AlphaOpaqueChannel | gfx.h:143-149 | A source alpha of 255 does not reach the source exactly: a channel above the destination ends one below it. |
| Blend.ColorKey | gfx.h:156-164 | ColorKey returns dst when src equals the key on red, green and blue, and src otherwise. |
| Blend.ColorKeyKeepsDstIff | gfx.h:161-163 | The result is dst exactly when src matches the key or src is dst. |
| Blend.ColorKeyIgnoresAlpha | gfx.h:161-163 | The alpha of the source and the key plays no part in the keying. |
| Blend.Grayscale | gfx.h:170-180 | The result has red = green = blue = luma(src) and alpha 255, the default alpha of the four-channel constructor. |
| Blend.GrayscaleIgnoresDst | gfx.h:170-180 | Grayscale does not depend on the destination. |
| Blend.FillGrayscale | gfx.h:186-191 | The result is the grey of the destination's luma, with alpha 255. |
| Blend.FillGrayscaleIgnoresSrc | gfx.h:186-191 | FillGrayscale ignores the source and equals Grayscale applied to the destination. |
| Sampling.Nearest | gfx.cpp:180-182 | Nearest returns a pixel of the image, or the default colour for an address outside the buffer. |
| Sampling.NearestIndex | gfx.cpp:181 | `(Sint32)((n - 1)·u)` for a coordinate u in [0, 1] is an index in [0, n). |
| Sampling.NearestIndexInCell | gfx.cpp:180-182 | A coordinate whose scaled value falls into cell c picks index c. |
| Sampling.NearestReadsIndex | gfx.cpp:180-182 | Nearest reads the row-major index of its row and column, through the row pointer. |
| Sampling.NearestPicksCell | gfx.cpp:180-182 | Coordinates that scale into column c and row r pick exactly pixel (c, r), which lies in the buffer. |
| Sampling.NearestAtGridPoint | gfx.cpp:180-182 | At (c / (w - 1), r / (h - 1)) Nearest returns pixel (c, r). |
| Raster.FillArea | gfx.h:341-344 | The clamped rectangle contains a pixel exactly when the request contains it and it lies in the image. |
| Raster.FillAreaEmptyIff | gfx.h:341-351 | Fill changes nothing exactly when the image is empty, the rectangle is inverted, or the two do not meet. |
| Raster.LerpChannel | gfx.h:403-408 | The ramp channel `(Uint8)(a + (b - a)·t)` for t in [0, 1] lies between a and b, so the cast never wraps. |
| Raster.RampBetween | gfx.h:403-408 | The truncated ramp value lies between its two end values. |
| Raster.Lerp | gfx.h:403-408 | Every channel of the ramp colour lies between the same channel of the two end colours. |
| Raster.LerpEnds | gfx.h:403-408 | The ramp gives colour 1 at the first end point and colour 2 at the second. |
| Raster.LerpReversed | gfx.h:403-408 | Ramping from c2 to c1 at 1 - t is ramping from c1 to c2 at t. |
| Raster.RatioInUnit | gfx.h:400-404 | The ramp position (x - x1) / (x2 - x1) of a step inside the line lies in [0, 1]. |
| Raster.MajorPlot | gfx.h:395-409 | A stepping branch of Line draws only colours whose channels lie between those of the two end colours. |
| Raster.LinePixel | gfx.h:375-439 | Every colour Line draws, in either branch or the degenerate case, lies channel by channel between the two end colours. |
| Raster.MajorPlotInside | gfx.h:395-402 | A pixel a stepping branch of Line plots lies inside the image on both axes. |
| Raster.LinePixelInImage | gfx.h:395-402 | Every pixel Line draws has 0 <= x < width and 0 <= y < height. This covers both branches and the degenerate case. |
| Raster.MinorAtEnds | gfx.h:401 | The stepped minor coordinate is exact at both end points. |
| Raster.MajorPlotEnds | gfx.h:400-409 | An end point inside the image is plotted with its own colour. |
| Raster.LineEnds | gfx.h:375-439 | For distinct end points, Line draws each end point that lies inside the image, in that end point's colour. |
| Raster.LineOnePixelPerStep | gfx.h:400-437 | Line draws at most one pixel per step of its major axis. |
| Raster.MajorPlotReversed | gfx.h:400-409 | Exchanging the end points and their colours gives the same minor coordinates and the same ramp colours. |
| Raster.LineReversed | gfx.h:375-439 | For distinct end points, Line from p2 to p1 draws the same pixels in the same colours as Line from p1 to p2. With coincident end points the single pixel takes the first colour, so the order matters there. |
| Gfx.Zeros | gfx.cpp:97 | `new Color32[n]` gives n pixels, each the default colour. |
| Bytes.AsInt32 | gfx.cpp:245 | The Sint32 a two's-complement computation leaves: a value in Sint32 range that differs from the exact one by a multiple of 2^32, and equals it when it fits. |
| Gfx.CreateSucceeds | gfx.cpp:243-247 | For sizes in 1..65535, Create succeeds exactly when the Sint32 element count `pWidth*pHeight` is positive and the allocation succeeds. A product of 2^31 or more wraps to a negative count, which `new` rejects. |
| Gfx.SizeProductBelow | gfx.cpp:243-245 | Two sizes in 1..65535 have a product that is positive and below 2^32. |
| Gfx.EncodeNative | gfx.cpp:349-353 | The file Save writes is 12 bytes of header plus 4 bytes per pixel. |
| Gfx.PixelsLoaded | gfx.cpp:313-314 | Load always ends with w·h pixels, whatever the file still holds. |
| Gfx.Decoded | gfx.cpp:308-320 | With a full 12-byte header: a tag other than 4 fails; otherwise the load succeeds exactly when Create accepts the width and height from bytes 4 and 8, and the image gets that size. Any success has w·h pixels and a size Create accepts. |
| Gfx.ReadPairFacts | gfx.cpp:311-312 | Two Sint32 reads in a row take the next eight bytes when the file holds them. When fewer than four bytes are left before the first read, the second read keeps its field's old value. Any read from a failed stream keeps its field's old value. |
| Gfx.SkipTag | gfx.cpp:310 | Reading the size tag of a file of at least 4 bytes yields bytes 0-3 and leaves the stream at byte 4. A shorter file fails the stream. |
| Gfx.DecodedAfterTag | gfx.cpp:311-315 | After an accepted tag, a successful load has a size Create accepts and w·h pixels. |
| Gfx.ReadPixels | gfx.cpp:314 | `fin.read` into the pixel array: the array ends as the stream's bytes laid over its old bytes, and the stream advances as Read says. |
| Gfx.Image.constructor | gfx.h:242 | The default image is empty: no pixels, 0 x 0. |
| Gfx.Image.Sized | gfx.h:243 | `Image(w, h)` has pixels exactly when Create accepts the size and the allocation succeeds. It then holds w·h default pixels. |
| Gfx.Image.CopyOf | gfx.h:244 | The copy constructor has pixels exactly when the source does and the allocation succeeds. It then has the source's size and pixels. |
| Gfx.Image.IsGood | gfx.h:265 | For a valid image, having pixels is having a positive width and height. |
| Gfx.Image.Free | gfx.cpp:228-234 | Free leaves no pixels and a 0 x 0 size. |
| Gfx.Image.Create | gfx.cpp:240-260 | Create always frees first. It succeeds exactly when 0 < w, h <= 65535, w·h fits Sint32 and `new` succeeds, leaving fresh w x h default pixels. On failure the image is empty. |
| Gfx.Image.SetMemory | gfx.cpp:268-273 | SetMemory adopts the given buffer and size as they are. |
| Gfx.Image.Copy | gfx.cpp:279-290 | Copy succeeds exactly when the source has pixels and the allocation succeeds. The target then has the source's size and identical pixels, and an empty source leaves the target empty. Copying an image into itself leaves it cleared. |
| Gfx.Image.AssignFrom | gfx.cpp:476-482 | `operator=` on the image itself changes nothing. Otherwise it is Copy. |
| Gfx.Image.ReverseByteorder | gfx.cpp:410-421 | Every pixel's bytes are reversed, and the size and the buffer are kept. |
| Gfx.ReverseAllTwice | gfx.cpp:410-421 | ReverseByteorder applied twice restores the image. |
| Gfx.Image.Save | gfx.cpp:337-364 | Save succeeds exactly when the image has pixels and the file opens for writing. The file then holds tag 4, width, height and the pixels row-major. On failure no file changes. |
| Gfx.Image.Load | gfx.cpp:297-331 | A file that cannot be opened returns false and leaves the image untouched. Otherwise the image ends as `Decoded` describes, and Load returns IsGood(). |
| NativeFormat.EncodeNativeParts | gfx.cpp:349-353 | A saved file holds the tag at bytes 0-3, the width at 4-7, the height at 8-11 and the pixels from byte 12. |
| NativeFormat.DecodeEncoded | gfx.cpp:297-364 | Loading the file Save wrote restores the saved width, height and pixels, whatever size the image had before. It fails only when allocation fails. |
| NativeFormat.DecodedWrongTag | gfx.cpp:310-320 | A tag other than 4 makes Load free the image, which then returns false. |
| NativeFormat.DecodedTagOnly | gfx.cpp:311-315 | A file holding only the tag loads as a blank image of the old size. The failed reads leave width and height as they were. |
| NativeFormat.DecodedTruncated | gfx.cpp:313-314 | A saved file cut after k pixels loads with its full size, those k pixels, and default pixels after them. |
| NativeFormat.DecodedOfHeader | gfx.cpp:308-315 | A file whose header is tag, w, h loads with size w x h, if Create accepts it, and its pixels read from byte 12. |
| Gfx.Stream.constructor | gfx.h:280-297 | A new stream has no file. Its width, height and data start are the given Sint32 values, as the class declares no constructor of its own. |
| Gfx.Stream.Free | gfx.cpp:492-498 | Free clears the size, the path and the data start. |
| Gfx.StreamHeaderAsWritten | gfx.cpp:512-513 | The two header reads of Stream::Load give Sint32 values. With 8 bytes in the file they are the values at bytes 0 and 4. With under 4 bytes the height keeps its old value. |
| Gfx.Stream.LoadAsWritten | gfx.cpp:504-518 | As in the source: an unopenable file frees the stream and returns false. Otherwise width and height come from bytes 0 and 4, the data start is 8, and Load returns true. |
| NativeFormat.StreamLoadMisreadsSavedFile | gfx.cpp:512-515 | On a file Save wrote, that stream header reads the tag 4 as the width and the width as the height. Its data start lands on the height field. |
| Gfx.StreamHeader | gfx.cpp:310-312 | The corrected header reads give Sint32 values. With 12 bytes in the file they are the values at bytes 4 and 8, past the tag. With under 4 bytes both keep their old values. |
| Gfx.Stream.Load | gfx.cpp:504-518 | Corrected header read: an unopenable file frees the stream. Otherwise width and height come from bytes 4 and 8, past the tag, and the data start is 12. |
| NativeFormat.StreamHeaderOfSavedFile | gfx.cpp:349-353 | On a file Save wrote, the corrected stream header gives back the saved width and height, and pixel i lies at byte 12 + 4i. |
| Gfx.Stream.Refresh | gfx.cpp:525-541 | Refresh is Load as written of the stream's own file. It succeeds exactly when IsGood held, that is when the file can be opened. It then keeps the file, takes width and height from bytes 0 and 4 and sets the data start to 8. Otherwise the stream is freed. |
| Gfx.Stream.RefreshCorrected | gfx.cpp:538-541 | Refresh through the corrected Load: the same success condition, with width and height from bytes 4 and 8 and the data start 12. |
| Gfx.Image.Fill | gfx.h:338-352 | The pixels with max(0, x1) <= x < min(w, x2) and max(0, y1) <= y < min(h, y2) become blend(old, colour). Every other pixel is unchanged. |
| Gfx.FillRows | gfx.h:347-351 | The outer loop of Fill: every row of the clipped rectangle is blended and nothing else changes. |
| Gfx.FillRow | gfx.h:348-350 | The inner loop: columns [x1, x2) of one row are blended and nothing else changes. |
| Gfx.Image.Line | gfx.h:360-440 | Every pixel becomes `Plotted(LinePixel(...))`: blended with the colour Line draws there, if it draws there, else unchanged. With coincident end points at most that point changes, to blend(old, colour1), and none changes if the point is off the image. |
| Gfx.LineAlongX | gfx.h:383-410 | The x-major branch blends exactly the pixels its clamped x range and its y clipping plot, with their ramp colours. |
| Gfx.LineAlongY | gfx.h:411-438 | The y-major branch, likewise with the axes exchanged. |
| Gfx.Image.FillColor | gfx.h:304-308 | The default Fill sets the clipped rectangle to the colour and leaves the rest unchanged. |
| Gfx.Image.LineColor | gfx.h:309-313 | The default Line sets the drawn pixels to their ramp colours and leaves the rest unchanged. |
| BlitGeometry.Uv | gfx.h:464-467 | The texture coordinate s / (n - 1) of a source column or row: column 0 is 0, column n - 1 is 1, and the columns between lie in [0, 1]. |
| BlitGeometry.Step | gfx.h:468-469 | The step (t2 - t1) / (d2 - d1): d2 - d1 steps lead from t1 to t2. It is 0 for an empty range. |
| BlitGeometry.ClipAxisAsWritten | gfx.h:464-510 | One Blit axis as written writes exactly [max(0, min(d1, d2)), min(dim, max(d1, d2))), stepping by (t2 - t1) / (d2 - d1). |
| BlitGeometry.ClipAxisAsWrittenLine | gfx.h:479-486 | Moving a negative start to 0 keeps the walk on its line: the sample at X is the unclipped start plus (X - start) steps, in both branches. This is the start `u1 + du·(-dx1)`. |
| BlitGeometry.MirrorAsWrittenSwapsEnds | gfx.h:472-486 | Reversing the destination range writes the same coordinates as the forward range with t1 and t2 exchanged. |
| BlitGeometry.MirrorAsWrittenOffByOne | gfx.h:472-486 | As written, the reversed walk at X samples where the forward walk is at d1 + d2 - X, one past the mirror image of X. |
| BlitGeometry.MirrorAsWrittenReadsPastRow | gfx.h:464-486 | As written, mirroring a whole w-pixel row onto [0, w) makes column 0 sample source column w, one past the row. |
| BlitGeometry.ClipAxisForward | gfx.h:479-486 | On a forward range the corrected axis and the axis as written are the same. |
| BlitGeometry.ClipAxis | gfx.h:464-510 | The corrected axis writes the same coordinates with the same step. A reversed range starts one step from t2 towards t1. |
| BlitGeometry.ClipAxisCovers | gfx.h:503-510 | The written coordinates are exactly [max(0, min(d1, d2)), min(dim, max(d1, d2))). They lie inside the image, and there are none when d1 == d2. |
| BlitGeometry.ClipAxisLine | gfx.h:479-486 | The corrected walk at X: forwards, t1 plus (X - d1) steps; reversed, t2 plus (X - d2 + 1) steps. |
| BlitGeometry.MirrorReverses | gfx.h:472-486 | The corrected reversed walk at X is the forward walk at the mirror image d1 + d2 - 1 - X. |
| BlitGeometry.StepReversed | gfx.h:468-469 | The step of a reversed range is the negated forward step, and d2 - d1 steps lead from t1 to t2. |
| BlitGeometry.WholeRowStep | gfx.h:464-469 | Across a whole w-pixel row the step is ±1 / (w - 1) texture units per pixel. |
| BlitGeometry.IdentityColumn | gfx.h:464-525 | A whole w-wide source blitted forwards onto [0, w), by the axis as written, with Nearest samples source column X at column X, in exact arithmetic. |
| BlitGeometry.MirrorColumn | gfx.h:472-525 | Corrected, a whole row mirrored onto [0, w) samples source column w - 1 - X at column X. |
| Blitting.ClipRange | gfx.h:471-505 | The swap-and-clip statements of one axis compute the axis as the source writes it, a reversed range walking from t2. |
| Blitting.Blit | gfx.h:450-525 | As written. Nothing changes unless both images have pixels. Then each destination pixel covered on both axes becomes blend(old, sample(src, u, v)), u and v being the coordinates the as-written walks reach there. Every other pixel is unchanged. |
| Blitting.BlitX | gfx.h:459-505 | The horizontal axis of the Blit as written, after the source rectangle is clamped: it writes [max(0, min(dx1, dx2)), min(dw, max(dx1, dx2))), and dx2 - dx1 steps lead from the clamped sx1's coordinate to the clamped sx2's. |
| Blitting.BlitY | gfx.h:459-505 | The vertical axis of the Blit as written, likewise. |
| Blitting.BlitXCorrected | gfx.h:459-505 | The horizontal axis with the corrected reversed walk: the same extent and step. |
| Blitting.BlitYCorrected | gfx.h:459-505 | The vertical axis with the corrected reversed walk: the same extent and step. |
| Blitting.BlitCorrected | gfx.h:450-525 | The same, with the corrected walks, so that a reversed range mirrors the forward one. |
| Blitting.ForwardBlitAxesAgree | gfx.h:471-505 | For a forward destination range the corrected and the as-written axes of a Blit are the same. |
| Blitting.BlitRows | gfx.h:515-525 | The scanline loop blends exactly the pixels both axes cover, with v advancing per row, and changes nothing else. |
| Blitting.BlitRow | gfx.h:518-523 | One scanline blends its covered pixels, with u advancing per pixel, and changes nothing else. |
| Blitting.BlitAssign | gfx.h:314-319 | The default Blit with Assign and Nearest, on the as-written walks: each covered pixel becomes the Nearest source pixel and the rest are unchanged. |
| Blitting.BlitNearest | gfx.h:320-325 | The Blit with a given blender and Nearest, on the as-written walks: each covered pixel becomes blend(old, Nearest source pixel). |
| Blitting.SourceView | gfx.h:451 | What a sampler sees of an image with pixels: its size and its pixels. |
| Blitting.PlanStream | gfx.h:540-562 | The stream Blit clamps the source rectangle to the source image and the destination start at 0. Its writable extent is min(dim, d2) - max(0, d1) on each axis. |
| Blitting.ScaleOfTruncates | gfx.h:545-546 | SCALEX and SCALEY are s·2^16 / d truncated toward zero: for d > 0 the largest k >= 0 with k·d <= s·2^16, for d < 0 its negation, and 0 for d == 0. |
| Blitting.ShiftsFloor | gfx.h:581-584 | The two `>> 16` are floors: the buffer column is the largest c with c·2^16 <= SCALEX·(x + sx), and the source row minus sy1 likewise with SCALEY·(y + sy). |
| Blitting.RowOffsetOfPixel | gfx.h:581 | The seek offset of scanline y is the byte of pixel (sx1, its source row) in a file of sw-pixel rows starting at dataStart. |
| Blitting.ScaledIndexInRange | gfx.h:545-546 | With a scale of s / d in 16.16 fixed point truncated, `(scale·k) >> 16` lies in [0, s) for every 0 <= k < d. |
| Blitting.ColumnInRange | gfx.h:584 | Every row-buffer index `(SCALEX·(x + sx)) >> 16` of a writable column lies in [0, sx2 - sx1). |
| Blitting.PlanColumnsFit | gfx.h:583-585 | No column the writable extent reads is outside the row buffer. |
| Blitting.SourceRowInRange | gfx.h:581 | Every source row `((SCALEY·(y + sy)) >> 16) + sy1` the stream seeks to lies in [sy1, sy2), and so in the source image. |
| Blitting.PlanRowsFit | gfx.h:580-581 | No row the writable extent seeks to is outside the source image. |
| Blitting.RowsRead | gfx.h:580-582 | The row buffer always holds 4·(sx2 - sx1) bytes, whatever the reads did. |
| Blitting.RowBufferInitial | gfx.h:573 | Before the first scanline the row buffer holds default pixels. |
| Blitting.RowsReadStaysGood | gfx.h:580-582 | On a file holding a w x h image after the 12-byte header, no read fails while the rows fit. |
| Blitting.RowsReadOfPixels | gfx.h:580-582 | On a file holding a w x h image after the 12-byte header, no read fails while rows fit. After scanline y the row buffer holds source pixels sx1 .. sx2 of row SourceRowOf(y). |
| Blitting.ReadWhole | gfx.h:581-582 | Seeking inside the data and reading bytes that fit delivers exactly those bytes. |
| Blitting.FetchedOfSavedFile | gfx.h:581-584 | On a file Save wrote, destination pixel (x1 + x, y1 + y) takes source pixel (sx1 + ColumnOf(x), SourceRowOf(y)), which lies in the source image. |
| Blitting.FetchedBytes | gfx.h:582-584 | The colour destination column x takes is the four bytes at buffer entry `(SCALEX·(x + sx)) >> 16` of what the scanline read. |
| Blitting.StreamBlitted | gfx.h:580-586 | A stream-blitted pixel array has as many pixels as before. |
| Blitting.StreamBlittedNothingOnly | gfx.h:561-563 | Conversely, with an empty extent the only outcome is no change at all. |
| Blitting.StreamBlittedNothing | gfx.h:561-563 | An empty extent leaves every pixel as it was. |
| Blitting.BlitStream | gfx.h:536-590 | A negative extent returns true without opening the file. An unopenable file returns false and writes nothing. Otherwise each pixel of the extent becomes blend(old, colour fetched through the row buffer), the rest are unchanged, and when the file opens every buffer index read is in range. |
| Blitting.BlitStreamAssign | gfx.h:326-330 | The default stream Blit: each pixel of the extent becomes the fetched source colour, with the same results as BlitStream. |
| Blitting.StreamScanlines | gfx.h:580-586 | The scanline loop leaves exactly the pixels StreamBlitted describes. |
| Blitting.Scanline | gfx.h:581-585 | One scanline refills the buffer as RowsRead says and blends its row into the destination. |
| Blitting.ScanStep | gfx.h:580-586 | Blending the next row extends the scanned rows by that row's buffer. |
| Blitting.BlittedOfBuffers | gfx.h:580-586 | Rows blended with the buffers the scanlines left are the Blit's promised result. |
| Blitting.ReadRow | gfx.h:581-582 | The seek-and-read of scanline y leaves the stream and buffer RowsRead gives for y + 1. |
| Blitting.StreamRow | gfx.h:583-585 | The inner loop blends row Y's extent with buffer entries ColumnOf(x) and changes nothing else. |

## Left out

- SDL plumbing is not modelled: `SDL_Init` and the video set-up inside `GfxInit`, `GfxQuit`, `GfxSetVideo`, `GfxFlip`, and `GfxWidth`/`GfxHeight`/`GfxPixels`. These are display code over a foreign library.
- `Image::Convert` is not modelled. It wraps `SDL_LoadBMP`/`IMG_Load` and `SDL_GetRGBA`.
- Float colour access is not modelled: `tableMul`, `operator*=`, `u8chan_to_fchan`, `GetRGB`/`GetRGBA`/`SetRGB`/`SetRGBA`, and the `Bilinear` sampler are float arithmetic.
- Floats throughout are exact reals: Line's slopes and colour ramp, and Blit's texture coordinates and steps. The accumulated float rounding of `u += du` is not captured; the walk is start + k·step. Nothing here claims that an identity Blit reproduces pixels under float rounding.
- Blend.Grayscale: the luminance is a parameter `luma`. The float formula and its truncation are not modelled.
- Blend.AlphaBlend: the right shift of a negative int is implementation-defined in C++. It is modelled as the floor shift.
- Color.Shr: shifts are modelled for 0 <= n < 32. Other counts are undefined behaviour in C++.
- Only one channel order is modelled: BGRA in memory, as on little-endian Linux and Windows. The other layouts in `#ifdef` branches are left out.
- Blitting.ScaleOf: SCALEX and SCALEY are exact truncations of the ratio times 65536, not float computations.
- Blitting.ScaleOf: a zero destination span on an axis (float division by zero) only arises when no pixel of that axis is written. The model takes the scale as 0.
- BlitGeometry.Uv: a source one pixel wide or tall divides by zero in the source. The model takes the coordinate as 0, which picks the only pixel.
- BlitGeometry.Step: when d1 == d2 the float step is an infinity or NaN that no written pixel uses. The model takes 0.
- Sampling.Nearest: an address outside the source buffer is undefined behaviour in the source. The model reads it as the default colour.
- Blitting.Blit: a source and destination sharing one pixel buffer is excluded by a precondition, so aliasing is not modelled.
- Blitting.BlitStream: the row buffer `new Color32[sx2 - sx1]` is allocated before the file is opened, so its size must be one `new` accepts (not negative) whenever the Blit gets past its early return. When the file opens and pixels are written it must hold at least one pixel, which the indexing needs. Both are preconditions, not modelled behaviour.
- Blitting.BlitStream: the `std::bad_alloc` that `new Color32[sx2 - sx1]` (gfx.h:573) raises when allocation fails escapes uncaught. The model takes this allocation to succeed.
- Blitting.BlitStream: the leak of `spix` when the file cannot be opened is not modelled.
- Sint32 overflow is not modelled: of `SCALEX·(x + sx)`, of the seek offsets (past 2^31 bytes), and of `w·h` in Copy and ReverseByteorder. Create's accepted sizes keep w·h below 2^31, and arithmetic is unbounded elsewhere.
- Real file I/O is a `FileSystem` map. Allocation failure is a parameter `allocOk`, an unwritable file a parameter `writable`, and exceptions raised by the streams are not modelled. A failing `new` throws `std::bad_alloc`. Image::Create catches it, and so does everything that allocates through Create (Copy, Load). The stream Blit does not catch it (see above).
- Gfx.Image.SetMemory: leaking the old buffer is not modelled. The precondition states the size invariant the rest of the class relies on.
- Gfx.Stream.IsGood: opening and closing the file is the question whether the path is in the file system. Its contract is carried by Gfx.Stream.Refresh, which succeeds exactly when IsGood held.
- Gfx.Stream.constructor: the class declares no constructor, so a fresh stream's width, height and data start are indeterminate. The model takes them as parameters.
- The destructor's `delete[]` and the allocator are not modelled.
- There is no concurrency in the code.

## Findings

| source | as written | input that shows it | evidently intended | confidence | as-written member | corrected member |
|---|---|---|---|---|---|---|
| gfx.cpp:512-515 | Stream::Load reads width and height from bytes 0 and 4 and sets dataStart to 8. | Any file Save wrote: the width reads as 4 (the size tag), the height as the saved width, and pixel data is taken to start at the height field. | Skip the 4-byte tag, as Image::Load does. Width is at byte 4, height at byte 8, and pixels start at byte 12. | high; not executed | Gfx.Stream.LoadAsWritten, Gfx.Stream.Refresh, NativeFormat.StreamLoadMisreadsSavedFile | Gfx.Stream.Load, Gfx.Stream.RefreshCorrected, NativeFormat.StreamHeaderOfSavedFile, Blitting.FetchedOfSavedFile |
| gfx.h:472-478 | A reversed destination range swaps u1 and u2 and walks from u2 by du. | A w-pixel-wide source (w >= 2) with the default source rectangle, blitted with dx1 = w and dx2 = 0. Destination column 0 samples u = w / (w - 1), so Nearest reads column w, one past the row. | The mirror image of the forward Blit: column X takes source column w - 1 - X. The reversed walk starts at u2 + du. | medium; not executed | BlitGeometry.ClipAxisAsWritten, Blitting.ClipRange, Blitting.Blit, BlitGeometry.MirrorAsWrittenReadsPastRow, BlitGeometry.MirrorAsWrittenOffByOne | BlitGeometry.ClipAxis, Blitting.BlitCorrected, BlitGeometry.MirrorColumn, BlitGeometry.MirrorReverses |
