# imgpipe core, modelled in Dafny

imgpipe is a Go library of JPEG/PNG image handlers. Each handler is a `func([]byte) ([]byte, error)`
that a `Pipeline` chains together. This project models the parts of it that compute something:

- the least-significant-bit metadata codec of `pkg/stego/meta.go`. `encodeMetaToImg` writes
  `%032b` of the payload's byte length, then `%08b` of every character, into the low bit of the
  blue sample of successive pixels. It starts after a configurable number of skipped pixels.
  `extractMetaFromImg` reads the stream back with a fixed skip of 128 pixels.
- the token envelope of `utils/codec/codec.go`. It holds a version byte, a big-endian uint32
  expiry, an 8-byte nonce, a zlib stream and an HMAC-SHA-256 tag, all in unpadded base64url.
  `DecodeData`'s checks run in a fixed order.
- the handler chain of `pkg/imageops/imageops.go` (`NewPipeline`, `Add`, `Run`).
- the pixel work of the rotate, crop and border handlers, and their `clamp`/`min`/`max` helpers.

An image is a class `Images.Image` holding its bounds and a 2-D array of RGBA pixels. The
handlers' loops are methods over these arrays. Each method is proved against a function on
values: the grid of rows (`Rows()`) or the row-major pixel sequence (`Flat()`). The properties
are then proved about those functions:

- embed-then-extract returns an ASCII payload, truncated to what the image holds;
- a single character from U+0080 to U+00FF does not come back;
- a sealed token opens exactly until its uint32 expiry, the version byte is never checked, and tampering fails the tag check;
- the pipeline threads each step's output into the next step and stops at the first error;
- a 90-degree rotation followed by a 270-degree one restores the grid, and two 180-degree rotations do too;
- the corner of a crop rectangle is clamped into the bounds, and the rectangle lies inside them unless the corner is on the far edge;
- an inset border is idempotent, and an outset border frames the image.

The stego codec treats a Go string as its sequence of Unicode scalar values, which is what its
`range` loop yields. The header counts UTF-8 bytes, but the body has one `%08b` numeral, of at least 8 digits, per
scalar value (a value of 256 or more takes more than 8, `StegoBits.WideRuneMoreThanEightBits`).
So the round trip holds only for ASCII payloads, and `Stego.NonAsciiDoesNotRoundTrip` shows the
mismatch for one two-byte character. For a character from U+0080 to U+00FF the extractor reads
twice as many 8-bit groups as were written.

The library calls are parameters:
- HMAC, zlib and base64 are the `Codec.Primitives` record. `Codec.Sound` states what the round
  trip needs from them.
- The clock and the random nonce are method inputs.
- `draw.Over` is the `over` argument.
- The floating-point ModeCenterRatio rectangle is the `ratioRect` argument.

## Model

| member | source | states |
|---|---|---|
| IntUtil.Clamp | pkg/rotate/rotate.go:111-119 | the lower bound is compared first; v below lo gives lo, v within [lo, hi] gives v, v above hi (and not below lo) gives hi; for lo <= hi the result lies in [lo, hi] |
| IntUtil.Min | pkg/crop/crop.go:157-162 | the result is at most both arguments and is one of them |
| IntUtil.Max | pkg/border/border.go:121-126 | the result is at least both arguments and is one of them |
| IntUtil.Quality | pkg/border/border.go:75 | the JPEG quality `clamp(q, 1, 100)` lies in [1, 100], equals q inside that range, and is 1 below it and 100 above it |
| IntUtil.CropQuality | pkg/crop/crop.go:104 | crop's `max(1, min(100, q))` is the same quality as rotate's and border's `clamp(q, 1, 100)` |
| Images.Sample16 | pkg/stego/meta.go:144-148 | `RGBA()` widens an 8-bit sample to a 16-bit value below 2^16, and both `>> 8` and `uint8(...)` of it give the 8-bit sample back |
| Images.Image.constructor | pkg/rotate/rotate.go:51 | `image.NewRGBA(r)`: a fresh pixel array of r's size with the bounds r, every pixel transparent black |
| Images.Image.At | pkg/rotate/rotate.go:54 | a definition without a contract: `src.At(x, y)` for a point inside the bounds is the array entry at (y - minY, x - minX) |
| Images.CopyImage | pkg/rotate/rotate.go:71-75 | the default branch's `draw.Draw(dst, sb, src, sb.Min, draw.Src)` into a new image of the same bounds yields the same rows |
| StegoBits.Digits | pkg/stego/meta.go:131-134 | `%b` has at least one digit; DigitsAreBigEndian states its value |
| StegoBits.Zeros | pkg/stego/meta.go:131 | the zero padding of `%0Nb`: n digits, all 0 |
| StegoBits.Padded | pkg/stego/meta.go:131-134 | `%0Nb` has max(N, digit count) digits: it pads to N and never truncates |
| StegoBits.BigEndian | pkg/stego/meta.go:131 | the big-endian numeral has exactly the given width |
| StegoBits.Value | pkg/stego/meta.go:50 | a definition without a contract: the base-2 value, most significant digit first; ValueBigEndian and ValueBound state its properties |
| StegoBits.MsgBits | pkg/stego/meta.go:132-135 | a definition without a contract: `%08b` of each scalar value, in order; AsciiMsgBits and MsgBitsOne state its shape |
| StegoBits.FullBits | pkg/stego/meta.go:130-136 | a definition without a contract: `%032b` of the byte length followed by MsgBits; AsciiStream and OneWideStream state its shape |
| StegoBits.MsgBitsOne | pkg/stego/meta.go:133-134 | the body of a one-character payload is `%08b` of that character |
| StegoBits.Utf8LenOne | pkg/stego/meta.go:130 | the byte length of a one-character string is that character's UTF-8 width |
| StegoBits.DigitsAreBigEndian | pkg/stego/meta.go:131 | `%b` of n is the big-endian numeral of n at its own width, and n is below 2 to that width |
| StegoBits.DigitsFit | pkg/stego/meta.go:131 | a value below 2^N has at most N binary digits |
| StegoBits.BigEndianWiden | pkg/stego/meta.go:131 | widening the numeral of a value below 2^m from m to width digits prepends width - m zeros |
| StegoBits.BigEndianZero | pkg/stego/meta.go:131 | a value below 2^(w-1) has a leading 0 in its w-digit numeral |
| StegoBits.AsciiByte | pkg/stego/meta.go:134 | `%08b` of an ASCII value is exactly its 8-digit big-endian numeral |
| StegoBits.Utf8Width | pkg/stego/meta.go:130 | a scalar value takes 1 to 4 UTF-8 bytes, and exactly 1 if and only if it is below 0x80 |
| StegoBits.Utf8Len | pkg/stego/meta.go:130 | `len(meta)` in bytes is at least the number of characters |
| StegoBits.AsciiUtf8Len | pkg/stego/meta.go:130 | for an ASCII payload the byte length `len(meta)` equals the number of characters |
| StegoBits.AsciiMsgBits | pkg/stego/meta.go:132-135 | for an ASCII payload the body has 8 bits per character, and group g is the 8-bit big-endian numeral of character g |
| StegoBits.WideRuneMoreThanEightBits | pkg/stego/meta.go:134 | `%08b` of a value of 256 or more is longer than 8 digits |
| StegoBits.PaddedFits | pkg/stego/meta.go:131 | `%0Nb` of a value below 2^N is its exact N-bit big-endian numeral |
| StegoBits.ValueBigEndian | pkg/stego/meta.go:50 | parsing the N-bit big-endian numeral of n < 2^N in base 2 gives n back |
| StegoBits.ValueBound | pkg/stego/meta.go:83 | a base-2 numeral of N digits has a value below 2^N |
| StegoBits.Bytes | pkg/stego/meta.go:81-85 | one value per complete 8-bit group, in order, a trailing partial group dropped |
| StegoBits.Group | pkg/stego/meta.go:83 | the g-th group is the base-2 value of bits 8g to 8g+7 and is below 256 |
| StegoBits.ByteValue | pkg/stego/meta.go:83-84 | `ParseUint(s, 2, 8)` of 8 digits is their value, below 256 |
| StegoBits.BytesSnoc | pkg/stego/meta.go:82-85 | regrouping one more complete 8-bit group appends its value to the result |
| StegoBits.BytesOfAsciiPrefix | pkg/stego/meta.go:81-85 | regrouping the first len body bits of an ASCII payload gives its first len/8 characters |
| Stego.Skipped | pkg/stego/meta.go:141-150 | a non-positive offset skips no pixels; a positive one skips that many |
| Stego.SetLsb | pkg/stego/meta.go:153 | `(B & 0xFE) \| bit` keeps the upper 7 bits of B and sets the low bit to bit |
| Stego.EncodedPixel | pkg/stego/meta.go:144-156 | R, G, A and the upper 7 bits of B are kept; at a position in the written stretch, the low blue bit is the stream bit for that position |
| Stego.Lsb | pkg/stego/meta.go:41-42 | `uint8(b) & 1` of the 16-bit blue sample is the low bit of the 8-bit blue value |
| Stego.Embed | pkg/stego/meta.go:138-160 | the length is unchanged; R, G, A and the upper 7 bits of B are unchanged everywhere; the skipped prefix and everything past the stream are unchanged; stream bit j is the low blue bit at position skip + j while the grid lasts |
| Stego.LsbRun | pkg/stego/meta.go:41-42 | bit i of the run is the low blue bit of pixel from + i |
| Stego.LsbRunSnoc | pkg/stego/meta.go:41-42 | reading one more pixel appends its low blue bit to the run |
| Stego.ParseInt32 | pkg/stego/meta.go:50 | a 32-bit header up to MaxInt32 is taken as is; above that `ParseInt` yields MaxInt32, with its error ignored |
| Stego.Extract | pkg/stego/meta.go:25-87 | HeaderIncomplete if and only if fewer than 160 pixels; with a 32-bit header value v, an error if and only if v is 0 or above 4096; otherwise one value per 8-bit group read from position 160, min(room, 8v) bits in all |
| Stego.ExtractAccepts | pkg/stego/meta.go:46-79 | a header between 1 and 4096 makes extraction return the regrouped body bits from position 160, as many as the grid and 8n allow |
| Stego.EmbedWindow | pkg/stego/meta.go:149-155 | the low bits of any window of the written stretch are that window of the stream |
| Stego.EmbeddedValue | pkg/stego/meta.go:35-50 | a width-bit numeral of v embedded at offset 128 reads back as v |
| Stego.EmbeddedHeaderValue | pkg/stego/meta.go:35-50 | a stream that starts with the 32-bit numeral of n, embedded at offset 128, has header value n |
| Stego.EmbeddedFirstGroup | pkg/stego/meta.go:70-84 | stream bits 32 to 39, embedded at offset 128, are read back from positions 160 to 167 as their value |
| Stego.AsciiStream | pkg/stego/meta.go:130-136 | for an ASCII payload of at most 4096 characters the stream is the 32-bit big-endian length followed by 8 bits per character |
| Stego.EmbeddedHeader | pkg/stego/meta.go:35-50 | the header that extraction reads from an image carrying an ASCII payload at offset 128 is the payload's length |
| Stego.EmbeddedBody | pkg/stego/meta.go:70-79 | the first len body bits that extraction reads are the first len bits of the payload's body |
| Stego.EmbeddedAfterHeader | pkg/stego/meta.go:70-79 | past a 32-bit header, the first len bits read from position 160 are the first len bits that follow the header in the stream |
| Stego.ReadLength | pkg/stego/meta.go:56-85 | min(room, 8n) bits hold min(n, room/8) complete characters |
| Stego.ExtractReads | pkg/stego/meta.go:50-86 | a valid header n and the min(room, 8n) body bits read determine the extraction result |
| Stego.ExtractAsciiPrefix | pkg/stego/meta.go:46-86 | a header equal to an ASCII payload's length, followed by the first min(room, 8n) bits of its body, is extracted as the payload's longest prefix that fits |
| Stego.EmbedThenExtract | pkg/stego/meta.go:25-160 | an ASCII payload of 1 to 4096 characters, embedded at offset 128, is extracted as its longest prefix whose 8-bit groups all fit in the image |
| Stego.RoundTrip | pkg/stego/meta.go:25-160 | with room for the whole stream, extraction returns exactly the embedded ASCII payload |
| Stego.OneWideStream | pkg/stego/meta.go:130-136 | for one character from U+0080 to U+00FF the stream is a header of 2 (the byte count) and then the character's 8 bits, 40 bits in all |
| Stego.OneWideEmbedded | pkg/stego/meta.go:129-160 | embedding one character from U+0080 to U+00FF keeps the grid's length and leaves header value 2 and c as the first body group |
| Stego.OneWideHeader | pkg/stego/meta.go:130-131 | the header read back from that embedding is 2, the character's UTF-8 byte count |
| Stego.OneWideFirstGroup | pkg/stego/meta.go:133-134 | the first body group read back from that embedding is the character itself |
| Stego.ExtractTwoGroups | pkg/stego/meta.go:50-86 | a header of 2 and room for 16 body bits give a result of two values, the first and second body groups |
| Stego.OneWideTail | pkg/stego/meta.go:149-155 | the 40-bit stream of such a character ends at position 168, so positions 168 to 175 keep the source's low bits |
| Stego.EmbedBeyond | pkg/stego/meta.go:151 | past the end of a stream embedded at offset 128 the low bits read are the source's |
| Stego.NonAsciiDoesNotRoundTrip | pkg/stego/meta.go:130-134 | such a character comes back as two values, the character followed by the 8-bit group of the untouched source pixels 168 to 175, so the payload does not round-trip |
| Stego.EncodeMetaToImg | pkg/stego/meta.go:129-160 | a fresh image with the same bounds whose row-major pixels are Embed of the source's pixels, the stream and the offset |
| Stego.EncodeRow | pkg/stego/meta.go:143-157 | one pass of the x loop writes exactly row y, pixel i as EncodedPixel at position k0 + i, and advances both counters by one row |
| Stego.EncodePixel | pkg/stego/meta.go:144-155 | the 8-bit samples of `RGBA() >> 8` with the next stream bit, once the skip is used up, giving the pixel EncodedPixel describes, and the counters for the next position |
| Stego.StreamBits | pkg/stego/meta.go:130-136 | `%032b` of the byte length followed by `%08b` of each scalar value, built by the range loop, is FullBits |
| Stego.EncodedFlat | pkg/stego/meta.go:142-158 | an output image written pixel by pixel with EncodedPixel has exactly the row-major sequence that Embed describes |
| Stego.ExtractMetaFromImg | pkg/stego/meta.go:25-87 | the loops return exactly Extract of the image's row-major pixels |
| Stego.ReadHeader | pkg/stego/meta.go:27-45 | with 160 or more pixels the header loop collects the low bits of positions 128 to 159; with fewer it collects fewer than 32 |
| Stego.HeaderRow | pkg/stego/meta.go:36-44 | one row of the header loop keeps the skip, bit counter and collected bits a function of the row-major position it stopped at |
| Stego.HeaderPixel | pkg/stego/meta.go:37-43 | one pixel of the header loop: the skip count, bit counter and collected bits advance to their values for the next row-major position |
| Stego.ReadBody | pkg/stego/meta.go:55-79 | the body loops collect the low bits of positions 160 to min(grid size, 160 + readBits) |
| Stego.SkipPixels | pkg/stego/meta.go:59-69 | the wrapping cursor ends inside a row at row-major position totalSkip |
| Stego.ReadBits | pkg/stego/meta.go:70-79 | from the cursor at position pos, the loop collects the low bits up to min(grid size, pos + readBits) |
| Stego.GroupBytes | pkg/stego/meta.go:81-85 | the regrouping loop returns Bytes of the bits |
| Codec.Uint32 | utils/codec/codec.go:22 | `uint32(v)` lies below 2^32, agrees with v in that range, and is congruent to v modulo 2^32 |
| Codec.ReadUint32 | utils/codec/codec.go:57 | a big-endian uint32 lies below 2^32 |
| Codec.PutUint32 | utils/codec/codec.go:23 | the four big-endian bytes of a uint32 read back as that value |
| Codec.Expiry | utils/codec/codec.go:22 | the stored expiry is now + ttl modulo 2^32 (an absolute time, not the duration) |
| Codec.SealedBody | utils/codec/codec.go:20-31 | the tagged bytes: 13 header bytes plus the zlib stream; byte 0 is 1, bytes 1-4 read back as the expiry, bytes 5-12 are the nonce, the rest is the zlib stream |
| Codec.Sound | utils/codec/codec.go:29-36 | a definition without a contract: the assumption about the libraries, namely 32-byte HMAC tags, inflate undoing deflate and base64url decoding undoing encoding |
| Codec.Sealed | utils/codec/codec.go:20-35 | envelope layout: byte 0 is 1, bytes 1-4 the expiry, bytes 5-12 the nonce, then the zlib stream, then the 32-byte tag of everything before it |
| Codec.OpenBytes | utils/codec/codec.go:44-69 | checks in order: under 45 bytes Invalid, a wrong tag CheckFailed, a clock past the expiry Expired (the tag check comes first), a stream that does not inflate Corrupt, and success exactly when all checks pass and the stream inflates |
| Codec.Open | utils/codec/codec.go:43-46 | text that is not base64url is Invalid; otherwise the decoded bytes decide as OpenBytes says |
| Codec.EncodeData | utils/codec/codec.go:19-37 | the token is the base64url text of the sealed envelope for the given clock and nonce |
| Codec.DecodeData | utils/codec/codec.go:42-70 | the cursor-based decoder returns exactly Open of the token |
| Codec.SealThenOpen | utils/codec/codec.go:19-70 | with sound primitives a sealed token opens to the payload exactly when uint32(later) has not passed the expiry, and to Expired otherwise |
| Codec.OpenWithinTtl | utils/codec/codec.go:22-58 | without wrap-around a token opens from now through now + ttl and is Expired one second later |
| Codec.HelloScenario | utils/codec/codec.go:19-70 | "hello" sealed with ttl 60 still opens after 60 seconds and is Expired after 61 |
| Codec.VersionUnchecked | utils/codec/codec.go:54-56 | changing the version byte of a correctly tagged envelope does not change the outcome |
| Codec.TamperedEnvelope | utils/codec/codec.go:47-52 | a changed tag byte, or a changed body byte whose body has a different tag, gives CheckFailed |
| ImageOps.RunSteps | pkg/imageops/imageops.go:24-33 | no steps return the input unchanged |
| ImageOps.Invoked | pkg/imageops/imageops.go:26-31 | at most one call per step, and the first call gets the input |
| ImageOps.Pipeline.constructor | pkg/imageops/imageops.go:13-15 | a new pipeline has no steps |
| ImageOps.Pipeline.Add | pkg/imageops/imageops.go:18-21 | the handler is appended after the earlier steps and the same pipeline is returned |
| ImageOps.Pipeline.Run | pkg/imageops/imageops.go:24-33 | the loop returns RunSteps of the steps, and the steps are invoked on the inputs Invoked lists |
| ImageOps.RunConcat | pkg/imageops/imageops.go:24-33 | running a + b is running a, then, on success, b on its output |
| ImageOps.AddThenRun | pkg/imageops/imageops.go:18-33 | after Add(fn), a run is the old run followed by fn on its output |
| ImageOps.SuccessThreads | pkg/imageops/imageops.go:26-32 | on success every step runs, step i+1 gets step i's output, and the result is the last step's output |
| ImageOps.FirstFailureStops | pkg/imageops/imageops.go:27-30 | when step k is the first to fail, its error is returned and no later step is invoked |
| Rotate.Rot90 | pkg/rotate/rotate.go:50-56 | an sh x sw grid in which source (x, y) lands at column sh-1-y of row x |
| Rotate.Rot180 | pkg/rotate/rotate.go:57-63 | a grid of the same size in which source (x, y) lands at (sw-1-x, sh-1-y) |
| Rotate.Rot270 | pkg/rotate/rotate.go:64-70 | an sh x sw grid in which source (x, y) lands at column y of row sw-1-x |
| Rotate.Rotate90 | pkg/rotate/rotate.go:50-56 | the loops produce a 0-origin sh x sw image whose rows are Rot90 of the source rows |
| Rotate.Rotate90Row | pkg/rotate/rotate.go:53-55 | one pass of the x loop: column sh-1-y of the destination gets source row y, every other pixel is unchanged |
| Rotate.Rotate180Image | pkg/rotate/rotate.go:57-63 | the loops produce a 0-origin sw x sh image whose rows are Rot180 of the source rows |
| Rotate.Rotate180Row | pkg/rotate/rotate.go:60-62 | one pass of the x loop: row sh-1-y of the destination gets source row y reversed, every other pixel is unchanged |
| Rotate.Rotate270 | pkg/rotate/rotate.go:64-70 | the loops produce a 0-origin sh x sw image whose rows are Rot270 of the source rows |
| Rotate.Rotate270Row | pkg/rotate/rotate.go:67-69 | one pass of the x loop: column y of the destination gets source row y, last pixel first, every other pixel is unchanged |
| Rotate.RotateImage | pkg/rotate/rotate.go:48-75 | modes 1, 2 and 3 rotate as above; any other mode copies the rows with the original bounds |
| Rotate.Rot270AfterRot90 | pkg/rotate/rotate.go:50-70 | 90 degrees clockwise, then 270, gives the source grid back |
| Rotate.Rot90AfterRot270 | pkg/rotate/rotate.go:50-70 | 270 degrees clockwise, then 90, gives the source grid back |
| Rotate.Rot180Twice | pkg/rotate/rotate.go:57-63 | two 180-degree rotations give the source grid back |
| Rotate.Rot90Twice | pkg/rotate/rotate.go:50-63 | two 90-degree rotations are one 180-degree rotation |
| Crop.RectCrop | pkg/crop/crop.go:58-64 | the rectangle is canonical, its corner lies within the bounds (and is the requested one when that does), width and height are the requested ones when they fit, exactly the room left when they are larger, exactly 1 when they are below 1, and at least 1 unless the corner is on the far edge |
| Crop.RegionPixel | pkg/crop/crop.go:99-100 | a definition without a contract: output pixel (i, j) is the source pixel at the corner plus (i, j) when the bounds contain it, and transparent black otherwise; RegionInside and RegionOutside state both cases |
| Crop.Region | pkg/crop/crop.go:99-100 | the output grid has the crop rectangle's size |
| Crop.CropRegion | pkg/crop/crop.go:99-100 | the copy loop leaves a 0-origin image of the rectangle's size whose rows are Region of the source |
| Crop.CropImage | pkg/crop/crop.go:57-100 | ModeRect crops to RectCrop; ModeCenterRatio crops to its given rectangle; any other mode returns the image itself for re-encoding |
| Crop.RegionInside | pkg/crop/crop.go:99-100 | a rectangle inside the bounds takes each output pixel from the source, shifted by its corner |
| Crop.RegionOutside | pkg/crop/crop.go:99-100 | output pixels whose source position is outside the bounds stay transparent black |
| Crop.RegionWhole | pkg/crop/crop.go:99-100 | cropping to the image's own bounds gives the image back |
| Crop.RectCropInside | pkg/crop/crop.go:58-100 | a corner strictly inside the image gives a non-empty crop made only of source pixels |
| Crop.RightEdgeColumn | pkg/crop/crop.go:60-64 | a corner on or past the right edge with width < 1 gives a one-pixel column, and it is transparent black |
| Border.Thickness | pkg/border/border.go:51 | the thickness is at least 1, equal to the requested one when that is positive, and 1 otherwise |
| Border.FillRect | pkg/border/border.go:112 | a uniform `draw.Src` fill paints exactly the pixels of dst inside the rectangle and keeps the others |
| Border.TopStripe | pkg/border/border.go:112 | a definition without a contract: the top rectangle, full width, t rows down from Min.Y |
| Border.BottomStripe | pkg/border/border.go:114 | a definition without a contract: the bottom rectangle, full width, t rows up from Max.Y |
| Border.LeftStripe | pkg/border/border.go:116 | a definition without a contract: the left rectangle, full height, t columns right of Min.X |
| Border.RightStripe | pkg/border/border.go:118 | a definition without a contract: the right rectangle, full height, t columns left of Max.X |
| Border.InStripes | pkg/border/border.go:110-119 | a definition without a contract: the point is in one of the four rectangles; InsetPixel states which pixels that is |
| Border.DrawInsetRect | pkg/border/border.go:110-119 | exactly the pixels in one of the four stripes get the colour; all others keep their value |
| Border.InsetGrid | pkg/border/border.go:55-59 | the Inset result has the source's size |
| Border.InsetImage | pkg/border/border.go:55-59 | a copy of the source with the stripes painted: its rows are InsetGrid of the source rows |
| Border.OutsetGrid | pkg/border/border.go:60-67 | the Outset canvas is t pixels larger on every side |
| Border.OutsetPixel | pkg/border/border.go:62-67 | a definition without a contract: the source pixel drawn over the colour inside the offset-(t, t) window, the colour outside it; OutsetFrame and OutsetOpaquePixel state its properties |
| Border.OutsetImage | pkg/border/border.go:60-67 | the fill and the drawing loop leave a 0-origin canvas whose rows are OutsetGrid of the source rows |
| Border.OutsetRow | pkg/border/border.go:67 | row y of the drawing puts over(source pixel, canvas pixel) at offset (t, t) and changes nothing else |
| Border.BorderImage | pkg/border/border.go:51-72 | Inset, Outset and the fallback copy, each with its bounds and rows as above |
| Border.InsetPixel | pkg/border/border.go:110-119 | a pixel less than t from one of the edges has the border colour, and every other pixel keeps its source value |
| Border.InsetIdempotent | pkg/border/border.go:110-119 | painting the inset border twice is painting it once |
| Border.OutsetFrame | pkg/border/border.go:62-64 | every pixel of the outer frame of width t has the border colour |
| Border.OutsetOpaquePixel | pkg/border/border.go:66-67 | when `over` lets opaque pixels through, every opaque source pixel (x, y) is found unchanged at (t + x, t + y), whatever the other pixels are |
| Border.OutsetOpaque | pkg/border/border.go:66-67 | a wholly opaque source is found whole in the middle of the canvas: row t + y, columns t to t + w, is source row y |

## Left out

- Image decoding and encoding (`image.Decode`, `jpeg.Encode`, `png.Encode`) and the JPEG quality's effect are left out, because they are library code over bytes. The model starts from a decoded RGBA grid. The quality value itself is modelled (`IntUtil.Quality`).
- Stego.EncodeMetaToImg: it reads an RGBA source, whose `RGBA() >> 8` gives back the stored samples. Colour-model conversion of other source types (paletted, YCbCr, premultiplication) is not modelled.
- Stego: strings are sequences of Unicode scalar values. Invalid UTF-8, which `range` turns into U+FFFD, is not modelled.
- Stego.Extract: the Go result is a string of the chosen code points. The model returns the code points, not their UTF-8 bytes.
- The wrappers `ExtractMetaBytesAuto`, `EncodeMetaBytes`, `EncodeMetaBytesAuto` and `encodeMetaToFile` are not modelled. They decode or encode images and open files.
- Codec.Primitives: HMAC-SHA-256, zlib and base64url are parameters. `Codec.Sound` lists the only properties the lemmas assume of them. The clock `time.Now()` and the random nonce are inputs of `EncodeData` and `DecodeData`.
- Codec.DecodeData: every zlib failure, both at `zlib.NewReader` and during `io.ReadAll`, is the single error Corrupt. The partial output that `io.ReadAll` returns beside a stream error is not modelled.
- Codec.TamperedEnvelope: for a changed body byte it assumes the tag differs from the original one. That is a property of HMAC, not of this code.
- Codec.EncodeData: `binary.Write` into a `bytes.Buffer` never fails, so its error path is not modelled.
- ImageOps.Handler: a handler is a total function from bytes to a result. Side effects of a handler, and the bytes it returns beside an error, are not modelled (`Run` drops them).
- Crop.CropImage: the ModeCenterRatio rectangle comes from floating-point arithmetic (crop.go:66-89). It is the parameter `ratioRect`, so only its drawing is modelled.
- Border.OutsetImage: `draw.Over` alpha blending is the parameter `over`. `Border.OutsetOpaquePixel` assumes only that `over` lets an opaque source pixel through unchanged, and says nothing about translucent ones.
- Border.OutsetImage: Go's canvas size `sw+2*t`, `sh+2*t` can overflow `int` for a huge thickness, and `image.NewRGBA` panics on a canvas too large to allocate. The model's integers are unbounded and its allocation cannot fail, so it shows neither.
- Crop.CropImage, Rotate.RotateImage and Border.BorderImage return the new image, not the JPEG bytes of the handler. The fallback branches copy or pass the image on for re-encoding.
- The handlers' logging, the embedded-metadata dispatch (`logger.LogMetaHandler`, the stego extraction in `Crop`, `Rotate` and `Border`), the jitter and audit middlewares, and the other packages (resize, watermark, convert, compress, archive) are not part of this model. The logging path runs commands hidden in image payloads.
- Images: a method's result is a new image, not aliased with its source, except in `Crop.CropImage`'s fallback for an unknown mode, which returns the source image itself (`dst == img`). Only `Stego.EncodeMetaToImg`, `Images.CopyImage` and the `Images.Image` constructor state `fresh` in their contract.
