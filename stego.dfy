/**
 * The least-significant-bit codec of pkg/stego/meta.go: `encodeMetaToImg` writes the stream
 * into the low bit of each pixel's blue sample in row-major order after a number of skipped
 * pixels; `extractMetaFromImg` reads it back after a fixed skip of 128 pixels.
 */
module Stego {
  import opened Results
  import opened IntUtil
  import opened Images
  import opened StegoBits

  /** The skip that `extractMetaFromImg` hard-codes. */
  const ExtractOffset := 128
  /** Width of the length header, in bits (one pixel each). */
  const HeaderBits := 32
  /** Largest header value the extractor accepts. */
  const MaxMetaLen := 4096
  /** `math.MaxInt32`, what `strconv.ParseInt(s, 2, 32)` returns for an out-of-range numeral. */
  const MaxInt32 := 0x7FFF_FFFF

  datatype ExtractError =
    | HeaderIncomplete          // fewer than 32 header pixels after the skip
    | InvalidLength(n: int)     // header value <= 0 or > 4096

  /** Pixels the encoder leaves alone before writing: a non-positive offset skips nothing. */
  function Skipped(offset: int): (s: nat)
    ensures offset <= 0 ==> s == 0
    ensures offset > 0 ==> s == offset
  {
    Max(offset, 0)
  }

  /** `(B & 0xFE) | bit`: replace the low bit of a sample. */
  function SetLsb(v: Byte, bit: Bit): (w: Byte)
    ensures w / 2 == v / 2 && w % 2 == bit
  {
    v - v % 2 + bit
  }

  /** The low bit of the blue sample as the extractor reads it, `uint8(b) & 1` of the 16-bit value. */
  function Lsb(p: Pixel): (bit: Bit)
    ensures bit == p.b % 2
  {
    (Sample16(p.b) % 256) % 2
  }

  /** The pixel the encoder writes at row-major position k. */
  function EncodedPixel(p: Pixel, k: int, bits: seq<Bit>, offset: int): (q: Pixel)
    ensures q.r == p.r && q.g == p.g && q.a == p.a && q.b / 2 == p.b / 2
    ensures Skipped(offset) <= k < Skipped(offset) + |bits| ==> q.b % 2 == bits[k - Skipped(offset)]
  {
    var s := Skipped(offset);
    if s <= k < s + |bits| then p.(b := SetLsb(p.b, bits[k - s])) else p
  }

  /**
   * The row-major pixel sequence after `encodeMetaToImg` writes `bits` past `offset` pixels:
   * same length; R, G, A and the upper 7 bits of B everywhere unchanged; the skipped prefix and
   * everything past the end of the stream unchanged; bit j of the stream in the low bit of B at
   * position Skipped(offset) + j, as far as the grid reaches.
   */
  function Embed(src: seq<Pixel>, bits: seq<Bit>, offset: int): (out: seq<Pixel>)
    ensures |out| == |src|
    ensures forall k :: 0 <= k < |src| ==>
      out[k].r == src[k].r && out[k].g == src[k].g && out[k].a == src[k].a && out[k].b / 2 == src[k].b / 2
    ensures forall k :: 0 <= k < |src| && k < Skipped(offset) ==> out[k] == src[k]
    ensures forall k :: 0 <= k < |src| && Skipped(offset) + |bits| <= k ==> out[k] == src[k]
    ensures forall j :: 0 <= j < |bits| && Skipped(offset) + j < |src| ==>
      out[Skipped(offset) + j].b % 2 == bits[j]
  {
    seq(|src|, k requires 0 <= k < |src| => EncodedPixel(src[k], k, bits, offset))
  }

  /** The low blue bits of positions [from, to) of a row-major pixel sequence. */
  function LsbRun(s: seq<Pixel>, from: nat, to: nat): (bits: seq<Bit>)
    requires from <= to <= |s|
    ensures |bits| == to - from
    ensures forall i :: 0 <= i < to - from ==> bits[i] == s[from + i].b % 2
  {
    seq(to - from, i requires 0 <= i < to - from => s[from + i].b % 2)
  }

  /** Reading one more pixel appends its low blue bit to the run. */
  lemma LsbRunSnoc(s: seq<Pixel>, from: nat, to: nat)
    requires from <= to < |s|
    ensures LsbRun(s, from, to + 1) == LsbRun(s, from, to) + [s[to].b % 2]
  {
  }

  /** `strconv.ParseInt(bits, 2, 32)` of 32 binary digits, its range error ignored. */
  function ParseInt32(v: nat): (n: int)
    ensures v <= MaxInt32 ==> n == v
    ensures v > MaxInt32 ==> n == MaxInt32
  {
    if v > MaxInt32 then MaxInt32 else v
  }

  /**
   * What `extractMetaFromImg` returns for an image whose row-major pixels are `s`. It fails
   * exactly when fewer than 160 pixels exist, or when the 32-bit unsigned header is 0 or above
   * 4096 (a header with bit 31 set parses as MaxInt32 and is rejected too). Otherwise it returns
   * one scalar value per complete group of 8 bits read from position 160 on, at most 8 * header
   * bits, as many as the grid holds.
   */
  function Extract(s: seq<Pixel>): (r: Result<seq<Rune>, ExtractError>)
    ensures r == Err(HeaderIncomplete) <==> |s| < ExtractOffset + HeaderBits
    ensures |s| >= ExtractOffset + HeaderBits ==>
      var v := Value(LsbRun(s, ExtractOffset, ExtractOffset + HeaderBits));
      (r.Err? <==> v == 0 || v > MaxMetaLen) &&
      (r.Ok? ==>
        var got := Min(|s| - (ExtractOffset + HeaderBits), 8 * v);
        |r.value| == got / 8 &&
        forall g :: 0 <= g < got / 8 ==>
          r.value[g] == Value(LsbRun(s, ExtractOffset + HeaderBits + 8 * g, ExtractOffset + HeaderBits + 8 * g + 8)))
  {
    var start := ExtractOffset + HeaderBits;
    if |s| < start then Err(HeaderIncomplete)
    else
      var n := ParseInt32(Value(LsbRun(s, ExtractOffset, start)));
      if n <= 0 || n > MaxMetaLen then Err(InvalidLength(n))
      else
        var bits := LsbRun(s, start, Min(|s|, start + 8 * n));
        var r := Ok(Bytes(bits));
        assert forall g :: 0 <= g < |bits| / 8 ==>
          bits[8 * g .. 8 * g + 8] == LsbRun(s, start + 8 * g, start + 8 * g + 8);
        r
  }

  /** A header within bounds makes the extractor return the body it reads, regrouped. */
  lemma ExtractAccepts(s: seq<Pixel>, n: nat)
    requires |s| >= ExtractOffset + HeaderBits
    requires Value(LsbRun(s, ExtractOffset, ExtractOffset + HeaderBits)) == n
    requires 1 <= n <= MaxMetaLen
    ensures Extract(s) ==
      Ok(Bytes(LsbRun(s, ExtractOffset + HeaderBits, Min(|s|, ExtractOffset + HeaderBits + 8 * n))))
  {
  }

  /** The low bits that Embed leaves in a window of the written stretch are that window of the stream. */
  lemma EmbedWindow(src: seq<Pixel>, bits: seq<Bit>, offset: int, from: nat, to: nat)
    requires Skipped(offset) <= from <= to <= |src| && to <= Skipped(offset) + |bits|
    ensures LsbRun(Embed(src, bits, offset), from, to) == bits[from - Skipped(offset) .. to - Skipped(offset)]
  {
  }

  /** A stretch of the stream holding the width-bit numeral of v reads back as v from the embedded grid. */
  lemma EmbeddedValue(src: seq<Pixel>, bits: seq<Bit>, lo: nat, width: nat, v: nat)
    requires ExtractOffset + lo + width <= |src| && lo + width <= |bits|
    requires v < Pow2(width) && bits[lo .. lo + width] == BigEndian(v, width)
    ensures Value(LsbRun(Embed(src, bits, ExtractOffset), ExtractOffset + lo, ExtractOffset + lo + width)) == v
  {
    var out := Embed(src, bits, ExtractOffset);
    EmbedWindow(src, bits, ExtractOffset, ExtractOffset + lo, ExtractOffset + lo + width);
    assert LsbRun(out, ExtractOffset + lo, ExtractOffset + lo + width) == BigEndian(v, width);
    ValueBigEndian(v, width);
  }

  /** For an ASCII payload of at most 4096 characters the stream is the exact 32-bit length followed by 8 bits per character. */
  lemma AsciiStream(meta: seq<Rune>)
    requires IsAscii(meta) && |meta| <= MaxMetaLen
    ensures FullBits(meta) == BigEndian(|meta|, 32) + MsgBits(meta)
    ensures |MsgBits(meta)| == 8 * |meta| && |meta| < Pow2(32)
  {
    AsciiUtf8Len(meta);
    AsciiMsgBits(meta);
    Pow2Of32();
    PaddedFits(|meta|, 32);
  }

  /** The header the extractor reads from a grid carrying an ASCII payload at offset 128 is the payload's length. */
  lemma EmbeddedHeader(src: seq<Pixel>, meta: seq<Rune>)
    requires IsAscii(meta) && |meta| <= MaxMetaLen
    requires |src| >= ExtractOffset + HeaderBits
    ensures Value(LsbRun(Embed(src, FullBits(meta), ExtractOffset), ExtractOffset, ExtractOffset + HeaderBits)) == |meta|
  {
    var bits := FullBits(meta);
    AsciiStream(meta);
    assert bits[0 .. 32] == BigEndian(|meta|, 32);
    EmbeddedHeaderValue(src, bits, |meta|);
  }

  /** The first len body bits the extractor reads are the first len bits of the payload's body. */
  lemma EmbeddedBody(src: seq<Pixel>, meta: seq<Rune>, len: nat)
    requires IsAscii(meta) && |meta| <= MaxMetaLen
    requires len <= 8 * |meta| && ExtractOffset + HeaderBits + len <= |src|
    ensures |MsgBits(meta)| == 8 * |meta|
    ensures LsbRun(Embed(src, FullBits(meta), ExtractOffset), ExtractOffset + HeaderBits, ExtractOffset + HeaderBits + len) ==
      MsgBits(meta)[..len]
  {
    AsciiStream(meta);
    EmbeddedAfterHeader(src, BigEndian(|meta|, 32), MsgBits(meta), len);
  }

  /** Past a 32-bit header, the embedded grid reads back the first len bits of what follows it in the stream. */
  lemma EmbeddedAfterHeader(src: seq<Pixel>, header: seq<Bit>, body: seq<Bit>, len: nat)
    requires |header| == HeaderBits && len <= |body| && ExtractOffset + HeaderBits + len <= |src|
    ensures LsbRun(Embed(src, header + body, ExtractOffset), ExtractOffset + HeaderBits, ExtractOffset + HeaderBits + len) ==
      body[..len]
  {
    var bits := header + body;
    EmbedWindow(src, bits, ExtractOffset, ExtractOffset + HeaderBits, ExtractOffset + HeaderBits + len);
    assert bits[HeaderBits .. HeaderBits + len] == body[..len];
  }

  /** How many body bits the extractor reads, and how many characters they hold. */
  lemma ReadLength(room: int, n: nat)
    requires room >= 0
    ensures Min(room, 8 * n) / 8 == Min(n, room / 8)
  {
    if room < 8 * n {
      assert room / 8 < n;
    }
  }

  /** The extractor's result from a valid header n and the body bits it can read. */
  lemma ExtractReads(s: seq<Pixel>, n: nat, body: seq<Bit>, len: nat)
    requires |s| >= ExtractOffset + HeaderBits && 1 <= n <= MaxMetaLen
    requires Value(LsbRun(s, ExtractOffset, ExtractOffset + HeaderBits)) == n
    requires len == Min(|s| - (ExtractOffset + HeaderBits), 8 * n)
    requires LsbRun(s, ExtractOffset + HeaderBits, ExtractOffset + HeaderBits + len) == body
    ensures Extract(s) == Ok(Bytes(body))
  {
    ExtractAccepts(s, n);
    assert Min(|s|, ExtractOffset + HeaderBits + 8 * n) == ExtractOffset + HeaderBits + len;
  }

  /**
   * Round trip with truncation: an ASCII payload of 1 to 4096 characters embedded at offset 128
   * is extracted whole from a grid of at least 160 + 8 * |meta| pixels; from a smaller grid of at
   * least 160 pixels the extractor returns the characters whose 8 bits all fit, and nothing else.
   */
  lemma EmbedThenExtract(src: seq<Pixel>, meta: seq<Rune>)
    requires IsAscii(meta) && 1 <= |meta| <= MaxMetaLen
    requires |src| >= ExtractOffset + HeaderBits
    ensures Extract(Embed(src, FullBits(meta), ExtractOffset)) ==
      Ok(meta[..Min(|meta|, (|src| - (ExtractOffset + HeaderBits)) / 8)])
  {
    var out := Embed(src, FullBits(meta), ExtractOffset);
    var len := Min(|src| - (ExtractOffset + HeaderBits), 8 * |meta|);
    EmbeddedHeader(src, meta);
    EmbeddedBody(src, meta, len);
    ExtractAsciiPrefix(out, meta, len);
  }

  /**
   * A grid whose header holds the length of an ASCII payload and whose body holds the first
   * len bits of its stream, len being all the grid has room for, extracts to the characters
   * those bits hold completely.
   */
  lemma ExtractAsciiPrefix(s: seq<Pixel>, meta: seq<Rune>, len: nat)
    requires IsAscii(meta) && 1 <= |meta| <= MaxMetaLen
    requires |s| >= ExtractOffset + HeaderBits
    requires Value(LsbRun(s, ExtractOffset, ExtractOffset + HeaderBits)) == |meta|
    requires len == Min(|s| - (ExtractOffset + HeaderBits), 8 * |meta|)
    requires |MsgBits(meta)| == 8 * |meta|
    requires LsbRun(s, ExtractOffset + HeaderBits, ExtractOffset + HeaderBits + len) == MsgBits(meta)[..len]
    ensures Extract(s) == Ok(meta[..Min(|meta|, (|s| - (ExtractOffset + HeaderBits)) / 8)])
  {
    ExtractReads(s, |meta|, MsgBits(meta)[..len], len);
    BytesOfAsciiPrefix(meta, len);
    ReadLength(|s| - (ExtractOffset + HeaderBits), |meta|);
  }

  /** The exact round trip: offset 128 and room for the whole stream. */
  lemma RoundTrip(src: seq<Pixel>, meta: seq<Rune>)
    requires IsAscii(meta) && 1 <= |meta| <= MaxMetaLen
    requires |src| >= ExtractOffset + HeaderBits + 8 * |meta|
    ensures Extract(Embed(src, FullBits(meta), ExtractOffset)) == Ok(meta)
  {
    EmbedThenExtract(src, meta);
    assert meta[..|meta|] == meta;
  }

  /** The stream of a one-character payload from U+0080 to U+00FF: a header of 2 (bytes), then the character's 8 bits. */
  lemma OneWideStream(c: Rune)
    requires 0x80 <= c < 0x100
    ensures Utf8Len([c]) == 2 && Utf8Len([c]) < Pow2(32) && c < Pow2(8)
    ensures |FullBits([c])| == 40
    ensures FullBits([c])[0 .. 32] == BigEndian(Utf8Len([c]), 32)
    ensures FullBits([c])[32 .. 40] == BigEndian(c, 8)
  {
    Utf8LenOne(c);
    MsgBitsOne(c);
    Pow2Of32();
    PaddedFits(Utf8Len([c]), 32);
    PaddedFits(c, 8);
    SplitAt(BigEndian(Utf8Len([c]), 32), BigEndian(c, 8), FullBits([c]));
  }

  /**
   * The header counts UTF-8 bytes while the body carries one `%08b` per scalar value, so a
   * non-ASCII payload does not survive: a single character from U+0080 to U+00FF (two UTF-8
   * bytes, one 8-bit group) comes back as two values, the character followed by whatever the
   * next 8 untouched pixels hold.
   */
  lemma NonAsciiDoesNotRoundTrip(src: seq<Pixel>, c: Rune)
    requires 0x80 <= c < 0x100
    requires |src| >= ExtractOffset + HeaderBits + 16
    ensures var r := Extract(Embed(src, FullBits([c]), ExtractOffset));
      r.Ok? && |r.value| == 2 && r.value[0] == c && r != Ok([c])
    ensures var r := Extract(Embed(src, FullBits([c]), ExtractOffset));
      r.Ok? && r.value[1] == Value(LsbRun(src, ExtractOffset + HeaderBits + 8, ExtractOffset + HeaderBits + 16))
  {
    var out := Embed(src, FullBits([c]), ExtractOffset);
    OneWideEmbedded(src, c);
    OneWideTail(src, c);
    ExtractTwoGroups(out, c);
  }

  /** The stream of such a character ends at position 168, so the next 8 pixels keep their low bits. */
  lemma OneWideTail(src: seq<Pixel>, c: Rune)
    requires 0x80 <= c < 0x100
    requires |src| >= ExtractOffset + HeaderBits + 16
    ensures LsbRun(Embed(src, FullBits([c]), ExtractOffset), ExtractOffset + HeaderBits + 8, ExtractOffset + HeaderBits + 16) ==
      LsbRun(src, ExtractOffset + HeaderBits + 8, ExtractOffset + HeaderBits + 16)
  {
    assert |FullBits([c])| == 40 by { OneWideStream(c); }
    EmbedBeyond(src, FullBits([c]), ExtractOffset + HeaderBits + 8, ExtractOffset + HeaderBits + 16);
  }

  /** Past the end of a stream embedded at offset 128, the low bits read are those of the source. */
  lemma EmbedBeyond(src: seq<Pixel>, bits: seq<Bit>, from: nat, to: nat)
    requires ExtractOffset + |bits| <= from <= to <= |src|
    ensures LsbRun(Embed(src, bits, ExtractOffset), from, to) == LsbRun(src, from, to)
  {
  }

  /** Embedded at offset 128, such a character leaves a header of 2 and its own value in the first body group. */
  lemma OneWideEmbedded(src: seq<Pixel>, c: Rune)
    requires 0x80 <= c < 0x100
    requires |src| >= ExtractOffset + HeaderBits + 16
    ensures var out := Embed(src, FullBits([c]), ExtractOffset);
      && |out| == |src|
      && Value(LsbRun(out, ExtractOffset, ExtractOffset + HeaderBits)) == 2
      && Value(LsbRun(out, ExtractOffset + HeaderBits, ExtractOffset + HeaderBits + 8)) == c
  {
    OneWideHeader(src, c);
    OneWideFirstGroup(src, c);
  }

  lemma OneWideHeader(src: seq<Pixel>, c: Rune)
    requires 0x80 <= c < 0x100
    requires |src| >= ExtractOffset + HeaderBits + 16
    ensures Value(LsbRun(Embed(src, FullBits([c]), ExtractOffset), ExtractOffset, ExtractOffset + HeaderBits)) == 2
  {
    OneWideStream(c);
    EmbeddedHeaderValue(src, FullBits([c]), Utf8Len([c]));
  }

  /** A stream that starts with the 32-bit numeral of n, embedded at offset 128, has header value n. */
  lemma EmbeddedHeaderValue(src: seq<Pixel>, bits: seq<Bit>, n: nat)
    requires |src| >= ExtractOffset + HeaderBits && |bits| >= HeaderBits
    requires n < Pow2(32) && bits[0 .. 32] == BigEndian(n, 32)
    ensures Value(LsbRun(Embed(src, bits, ExtractOffset), ExtractOffset, ExtractOffset + HeaderBits)) == n
  {
    var out := Embed(src, bits, ExtractOffset);
    EmbedWindow(src, bits, ExtractOffset, ExtractOffset, ExtractOffset + HeaderBits);
    assert LsbRun(out, ExtractOffset, ExtractOffset + HeaderBits) == BigEndian(n, 32);
    ValueBigEndian(n, 32);
  }

  lemma OneWideFirstGroup(src: seq<Pixel>, c: Rune)
    requires 0x80 <= c < 0x100
    requires |src| >= ExtractOffset + HeaderBits + 16
    ensures Value(LsbRun(Embed(src, FullBits([c]), ExtractOffset), ExtractOffset + HeaderBits, ExtractOffset + HeaderBits + 8)) == c
  {
    assert |FullBits([c])| == 40 && c < Pow2(8) && FullBits([c])[32 .. 40] == BigEndian(c, 8) by { OneWideStream(c); }
    EmbeddedFirstGroup(src, FullBits([c]), c);
  }

  /** A stream whose bits 32 through 39 are the numeral of v, embedded at offset 128, has v as its first body group. */
  lemma EmbeddedFirstGroup(src: seq<Pixel>, bits: seq<Bit>, v: nat)
    requires |src| >= ExtractOffset + HeaderBits + 8 && |bits| >= HeaderBits + 8
    requires v < Pow2(8) && bits[32 .. 40] == BigEndian(v, 8)
    ensures Value(LsbRun(Embed(src, bits, ExtractOffset), ExtractOffset + HeaderBits, ExtractOffset + HeaderBits + 8)) == v
  {
    var out := Embed(src, bits, ExtractOffset);
    EmbedWindow(src, bits, ExtractOffset, ExtractOffset + HeaderBits, ExtractOffset + HeaderBits + 8);
    assert LsbRun(out, ExtractOffset + HeaderBits, ExtractOffset + HeaderBits + 8) == BigEndian(v, 8);
    ValueBigEndian(v, 8);
  }

  /** A header of 2 and room for 16 body bits make the extractor return two values, the first being the first body group. */
  lemma ExtractTwoGroups(s: seq<Pixel>, c: Rune)
    requires |s| >= ExtractOffset + HeaderBits + 16
    requires Value(LsbRun(s, ExtractOffset, ExtractOffset + HeaderBits)) == 2
    requires Value(LsbRun(s, ExtractOffset + HeaderBits, ExtractOffset + HeaderBits + 8)) == c
    ensures Extract(s).Ok? && |Extract(s).value| == 2 && Extract(s).value[0] == c
    ensures Extract(s).Ok? && Extract(s).value[1] == Value(LsbRun(s, ExtractOffset + HeaderBits + 8, ExtractOffset + HeaderBits + 16))
  {
    var start := ExtractOffset + HeaderBits;
    var body := LsbRun(s, start, start + 16);
    ExtractReads(s, 2, body, 16);
    assert body[0 .. 8] == LsbRun(s, start, start + 8);
    assert body[8 .. 16] == LsbRun(s, start + 8, start + 16);
    assert Bytes(body)[0] == Group(body, 0);
    assert Bytes(body)[1] == Group(body, 1);
  }

  // ---- the codec itself ----

  /**
   * `encodeMetaToImg`: builds the bit stream, then walks a fresh image of the same bounds in
   * row-major order, copying every pixel and overwriting the low blue bit of the pixels that
   * follow the first `offsetPixels`, one stream bit each, until the stream or the grid ends.
   */
  method EncodeMetaToImg(img: Image, meta: seq<Rune>, offsetPixels: int) returns (outImg: Image)
    requires img.Valid()
    ensures fresh(outImg) && fresh(outImg.pix) && outImg.Valid()
    ensures outImg.bounds == img.bounds
    ensures outImg.Flat() == Embed(img.Flat(), FullBits(meta), offsetPixels)
  {
    var fullBits := StreamBits(meta);

    var bounds := img.bounds;
    outImg := new Image(bounds);
    var w := bounds.Dx();
    var bitIdx := 0;
    var skip := offsetPixels;
    ghost var s: int := Skipped(offsetPixels);
    ghost var k: int := 0;
    var y := bounds.minY;
    while y < bounds.maxY
      invariant bounds.minY <= y <= bounds.maxY
      invariant 0 <= k == (y - bounds.minY) * w
      invariant skip == offsetPixels - Min(k, s)
      invariant bitIdx == Min(|fullBits|, Max(k - s, 0))
      invariant forall j, i :: 0 <= j < y - bounds.minY && 0 <= i < w ==>
        outImg.pix[j, i] == EncodedPixel(img.pix[j, i], j * w + i, fullBits, offsetPixels)
    {
      ghost var row := y - bounds.minY;
      skip, bitIdx := EncodeRow(img, outImg, y, k, fullBits, offsetPixels, skip, bitIdx);
      forall j, i | 0 <= j < row + 1 && 0 <= i < w
        ensures outImg.pix[j, i] == EncodedPixel(img.pix[j, i], j * w + i, fullBits, offsetPixels)
      {
        if j == row {
          assert j * w + i == k + i;
        }
      }
      NextRow(row, w);
      k := k + w;
      y := y + 1;
    }
    EncodedFlat(img, outImg, fullBits, offsetPixels);
  }

  /**
   * One pass of the inner x loop of `encodeMetaToImg`: row y is written, position k0 being the
   * row-major index of its first pixel, and the counters move on by one row's width.
   */
  method EncodeRow(img: Image, outImg: Image, y: int, ghost k0: int, fullBits: seq<Bit>, offsetPixels: int, skip0: int, bitIdx0: int)
    returns (skip: int, bitIdx: int)
    requires img.Valid() && outImg.Valid() && outImg.bounds == img.bounds && outImg.pix != img.pix
    requires img.bounds.minY <= y < img.bounds.maxY && 0 <= k0
    requires skip0 == offsetPixels - Min(k0, Skipped(offsetPixels))
    requires bitIdx0 == Min(|fullBits|, Max(k0 - Skipped(offsetPixels), 0))
    modifies outImg.pix
    ensures skip == offsetPixels - Min(k0 + img.bounds.Dx(), Skipped(offsetPixels))
    ensures bitIdx == Min(|fullBits|, Max(k0 + img.bounds.Dx() - Skipped(offsetPixels), 0))
    ensures forall j, i :: 0 <= j < outImg.pix.Length0 && 0 <= i < outImg.pix.Length1 ==>
      outImg.pix[j, i] ==
        if j == y - img.bounds.minY then EncodedPixel(img.pix[j, i], k0 + i, fullBits, offsetPixels) else old(outImg.pix[j, i])
  {
    var bounds := img.bounds;
    ghost var s: int := Skipped(offsetPixels);
    ghost var k: int := k0;
    skip, bitIdx := skip0, bitIdx0;
    var x := bounds.minX;
    while x < bounds.maxX
      invariant bounds.minX <= x <= bounds.maxX
      invariant k == k0 + (x - bounds.minX)
      invariant skip == offsetPixels - Min(k, s)
      invariant bitIdx == Min(|fullBits|, Max(k - s, 0))
      invariant forall j, i :: 0 <= j < outImg.pix.Length0 && 0 <= i < outImg.pix.Length1 ==>
        outImg.pix[j, i] ==
          if j == y - bounds.minY && i < x - bounds.minX then EncodedPixel(img.pix[j, i], k0 + i, fullBits, offsetPixels)
          else old(outImg.pix[j, i])
    {
      var q;
      q, skip, bitIdx := EncodePixel(img.At(x, y), k, fullBits, offsetPixels, skip, bitIdx);
      outImg.pix[y - bounds.minY, x - bounds.minX] := q;
      x := x + 1;
      k := k + 1;
    }
  }

  /**
   * The body of the x loop of `encodeMetaToImg` for the pixel at row-major position k: its
   * samples are read through `RGBA() >> 8` and `uint8`, and while `skip` is positive it only
   * counts down, after that the next stream bit, if any, replaces the low bit of B.
   */
  method EncodePixel(p: Pixel, ghost k: int, fullBits: seq<Bit>, offsetPixels: int, skip0: int, bitIdx0: int)
    returns (q: Pixel, skip: int, bitIdx: int)
    requires 0 <= k
    requires skip0 == offsetPixels - Min(k, Skipped(offsetPixels))
    requires bitIdx0 == Min(|fullBits|, Max(k - Skipped(offsetPixels), 0))
    ensures q == EncodedPixel(p, k, fullBits, offsetPixels)
    ensures skip == offsetPixels - Min(k + 1, Skipped(offsetPixels))
    ensures bitIdx == Min(|fullBits|, Max(k + 1 - Skipped(offsetPixels), 0))
  {
    skip, bitIdx := skip0, bitIdx0;
    ghost var s := Skipped(offsetPixels);
    var r, g, b, a := Sample16(p.r) / 256, Sample16(p.g) / 256, Sample16(p.b) / 256, Sample16(p.a) / 256;
    assert Pixel(r, g, b, a) == p;
    if skip > 0 {
      assert k < s;
      skip := skip - 1;
    } else if bitIdx < |fullBits| {
      assert s <= k && bitIdx == k - s;
      b := SetLsb(b, fullBits[bitIdx]);
      bitIdx := bitIdx + 1;
    } else {
      assert s + |fullBits| <= k;
    }
    q := Pixel(r, g, b, a);
  }

  /** The first half of `encodeMetaToImg`: `%032b` of the byte length followed by `%08b` of each scalar value. */
  method StreamBits(meta: seq<Rune>) returns (fullBits: seq<Bit>)
    ensures fullBits == FullBits(meta)
  {
    var metaLen := Utf8Len(meta);
    var lengthBits := Padded(metaLen, 32);
    var msgBits: seq<Bit> := [];
    for n := 0 to |meta|
      invariant msgBits == MsgBits(meta[..n])
    {
      assert meta[..n + 1][..n] == meta[..n];
      msgBits := msgBits + Padded(meta[n], 8);
    }
    assert meta[..|meta|] == meta;
    fullBits := lengthBits + msgBits;
  }

  /** An output image written pixel by pixel with EncodedPixel has exactly the row-major sequence Embed describes. */
  lemma EncodedFlat(img: Image, outImg: Image, bits: seq<Bit>, offset: int)
    requires img.Valid() && outImg.Valid() && outImg.bounds == img.bounds
    requires forall j, i :: 0 <= j < outImg.pix.Length0 && 0 <= i < outImg.pix.Length1 ==>
      outImg.pix[j, i] == EncodedPixel(img.pix[j, i], j * outImg.pix.Length1 + i, bits, offset)
    ensures outImg.Flat() == Embed(img.Flat(), bits, offset)
  {
    var w := outImg.pix.Length1;
    var want := Embed(img.Flat(), bits, offset);
    forall j, i | 0 <= j < outImg.pix.Length0 && 0 <= i < w && 0 <= j * w + i < |want|
      ensures want[j * w + i] == outImg.pix[j, i]
    {
      FlatAt(img, j, i);
    }
    FlatFromPixels(outImg, want);
  }

  /**
   * `extractMetaFromImg`: skips 128 pixels, reads 32 header bits, validates the length, skips
   * to position 160 again from the top-left corner, reads at most 8 * length body bits until the
   * grid ends, and regroups them into scalar values.
   */
  method ExtractMetaFromImg(img: Image) returns (r: Result<seq<Rune>, ExtractError>)
    requires img.Valid()
    ensures r == Extract(img.Flat())
  {
    var offsetPixels := ExtractOffset;
    var lengthBits := ReadHeader(img, offsetPixels);
    if |lengthBits| != 32 {
      return Err(HeaderIncomplete);
    }
    var msgLen := ParseInt32(Value(lengthBits));
    if msgLen <= 0 || msgLen > MaxMetaLen {
      return Err(InvalidLength(msgLen));
    }
    var bits := ReadBody(img, offsetPixels + 32, msgLen * 8);
    var msg := GroupBytes(bits);
    r := Ok(msg);
  }

  /**
   * The header loop of `extractMetaFromImg`: walk row-major, let the first `offsetPixels` pixels
   * pass, then collect one low blue bit per pixel until 32 are read or the grid ends.
   */
  method ReadHeader(img: Image, offsetPixels: nat) returns (lengthBits: seq<Bit>)
    requires img.Valid()
    ensures |img.Flat()| >= offsetPixels + 32 ==> lengthBits == LsbRun(img.Flat(), offsetPixels, offsetPixels + 32)
    ensures |img.Flat()| < offsetPixels + 32 ==> |lengthBits| < 32
  {
    ghost var flat := img.Flat();
    var bounds := img.bounds;
    var w := bounds.Dx();
    ghost var h := bounds.Dy();
    var bitIdx := 0;
    var skip := offsetPixels;
    lengthBits := [];
    ghost var k: int := 0;
    var y := bounds.minY;
    while y < bounds.maxY && bitIdx < 32
      invariant bounds.minY <= y <= bounds.maxY
      invariant bitIdx < 32 ==> k == (y - bounds.minY) * w
      invariant 0 <= k <= h * w
      invariant skip == offsetPixels - Min(k, offsetPixels) && bitIdx == Max(k - offsetPixels, 0) <= 32
      invariant lengthBits == LsbRun(flat, Min(k, offsetPixels), k)
    {
      FlatRow(img, y - bounds.minY, k);
      skip, bitIdx, lengthBits, k := HeaderRow(img, y, y - bounds.minY, k, offsetPixels, skip, bitIdx, lengthBits);
      NextRow(y - bounds.minY, w);
      y := y + 1;
    }
  }

  /** One row of the header loop: the inner x loop, which also stops once 32 bits are read. */
  method HeaderRow(img: Image, y: int, ghost j: int, ghost k0: int, offsetPixels: nat, skip0: nat, bitIdx0: nat, bits0: seq<Bit>)
    returns (skip: nat, bitIdx: nat, bits: seq<Bit>, ghost k: int)
    requires img.Valid() && img.bounds.minY <= y < img.bounds.maxY && j == y - img.bounds.minY
    requires 0 <= k0 && k0 + img.bounds.Dx() <= |img.Flat()|
    requires forall i :: 0 <= i < img.bounds.Dx() ==> img.Flat()[k0 + i] == img.pix[j, i]
    requires skip0 == offsetPixels - Min(k0, offsetPixels) && bitIdx0 == Max(k0 - offsetPixels, 0) < 32
    requires bits0 == LsbRun(img.Flat(), Min(k0, offsetPixels), k0)
    ensures k0 <= k <= k0 + img.bounds.Dx()
    ensures bitIdx < 32 ==> k == k0 + img.bounds.Dx()
    ensures skip == offsetPixels - Min(k, offsetPixels) && bitIdx == Max(k - offsetPixels, 0) <= 32
    ensures bits == LsbRun(img.Flat(), Min(k, offsetPixels), k)
  {
    ghost var flat := img.Flat();
    var bounds := img.bounds;
    skip, bitIdx, bits, k := skip0, bitIdx0, bits0, k0;
    var x := bounds.minX;
    while x < bounds.maxX && bitIdx < 32
      invariant bounds.minX <= x <= bounds.maxX
      invariant k == k0 + (x - bounds.minX)
      invariant skip == offsetPixels - Min(k, offsetPixels) && bitIdx == Max(k - offsetPixels, 0) <= 32
      invariant bits == LsbRun(flat, Min(k, offsetPixels), k)
    {
      assert flat[k] == img.pix[j, x - bounds.minX];
      skip, bitIdx, bits := HeaderPixel(flat, img.At(x, y), k, offsetPixels, skip, bitIdx, bits);
      x := x + 1;
      k := k + 1;
    }
  }

  /** The body of the header's x loop for the pixel p at row-major position k: count the skip down, else read one bit. */
  method HeaderPixel(ghost flat: seq<Pixel>, p: Pixel, ghost k: int, offsetPixels: nat, skip0: nat, bitIdx0: nat, bits0: seq<Bit>)
    returns (skip: nat, bitIdx: nat, bits: seq<Bit>)
    requires 0 <= k < |flat| && flat[k] == p
    requires skip0 == offsetPixels - Min(k, offsetPixels) && bitIdx0 == Max(k - offsetPixels, 0)
    requires bits0 == LsbRun(flat, Min(k, offsetPixels), k)
    ensures skip == offsetPixels - Min(k + 1, offsetPixels) && bitIdx == Max(k + 1 - offsetPixels, 0)
    ensures bits == LsbRun(flat, Min(k + 1, offsetPixels), k + 1)
  {
    skip, bitIdx, bits := skip0, bitIdx0, bits0;
    if skip > 0 {
      assert k < offsetPixels;
      skip := skip - 1;
    } else {
      assert offsetPixels <= k && bitIdx == k - offsetPixels;
      LsbRunSnoc(flat, offsetPixels, k);
      bits := bits + [Lsb(p)];
      bitIdx := bitIdx + 1;
    }
  }

  /**
   * The body loops of `extractMetaFromImg`: step a cursor `totalSkip` pixels from the top-left
   * corner, then collect low blue bits until `readBits` are read or the rows run out.
   */
  method ReadBody(img: Image, totalSkip: nat, readBits: nat) returns (bits: seq<Bit>)
    requires img.Valid() && 0 < totalSkip <= |img.Flat()|
    ensures bits == LsbRun(img.Flat(), totalSkip, Min(|img.Flat()|, totalSkip + readBits))
  {
    var x, y := SkipPixels(img, totalSkip);
    bits := ReadBits(img, totalSkip, x, y, readBits);
  }

  /** The skip loop of the body: advance x, wrapping to the next row at Max.X, `totalSkip` times. */
  method SkipPixels(img: Image, totalSkip: nat) returns (x: int, y: int)
    requires img.Valid() && 0 < totalSkip <= |img.Flat()|
    ensures img.bounds.minX <= x < img.bounds.maxX && img.bounds.minY <= y
    ensures totalSkip == (y - img.bounds.minY) * img.bounds.Dx() + (x - img.bounds.minX)
  {
    var bounds := img.bounds;
    var w := bounds.Dx();
    assert w > 0;
    var pixels := 0;
    x, y := bounds.minX, bounds.minY;
    while pixels < totalSkip
      invariant 0 <= pixels <= totalSkip
      invariant bounds.minX <= x < bounds.maxX && bounds.minY <= y
      invariant pixels == (y - bounds.minY) * w + (x - bounds.minX)
    {
      x := x + 1;
      if x >= bounds.maxX {
        NextRow(y - bounds.minY, w);
        x := bounds.minX;
        y := y + 1;
      }
      pixels := pixels + 1;
    }
  }

  /** The reading loop of the body, from the cursor (x, y) at row-major position `pos`. */
  method ReadBits(img: Image, pos: nat, x0: int, y0: int, readBits: nat) returns (bits: seq<Bit>)
    requires img.Valid() && pos <= |img.Flat()|
    requires img.bounds.minX <= x0 < img.bounds.maxX && img.bounds.minY <= y0
    requires pos == (y0 - img.bounds.minY) * img.bounds.Dx() + (x0 - img.bounds.minX)
    ensures bits == LsbRun(img.Flat(), pos, Min(|img.Flat()|, pos + readBits))
  {
    ghost var flat := img.Flat();
    var bounds := img.bounds;
    var w := bounds.Dx();
    ghost var h := bounds.Dy();
    var x, y := x0, y0;
    bits := [];
    var bitIdx := 0;
    if y >= bounds.maxY {
      MulMono(h, y - bounds.minY, w);
      return;
    }
    while bitIdx < readBits && y < bounds.maxY
      invariant 0 <= bitIdx <= readBits
      invariant bounds.minX <= x < bounds.maxX && bounds.minY <= y
      invariant pos + bitIdx == (y - bounds.minY) * w + (x - bounds.minX) <= h * w
      invariant y >= bounds.maxY ==> pos + bitIdx == h * w
      invariant bits == LsbRun(flat, pos, pos + bitIdx)
    {
      FlatAt(img, y - bounds.minY, x - bounds.minX);
      var p := img.At(x, y);
      LsbRunSnoc(flat, pos, pos + bitIdx);
      bits := bits + [Lsb(p)];
      bitIdx := bitIdx + 1;
      x := x + 1;
      if x >= bounds.maxX {
        NextRow(y - bounds.minY, w);
        x := bounds.minX;
        y := y + 1;
      }
    }
  }

  /** The final loop of `extractMetaFromImg`: one scalar value per complete 8-bit group, a partial tail dropped. */
  method GroupBytes(bits: seq<Bit>) returns (msg: seq<Rune>)
    ensures msg == Bytes(bits)
  {
    msg := [];
    var i := 0;
    while i + 8 <= |bits|
      invariant 0 <= i <= |bits| && i % 8 == 0
      invariant msg == Bytes(bits[..i])
    {
      BytesSnoc(bits, i);
      msg := msg + [ByteValue(bits[i .. i + 8])];
      i := i + 8;
    }
    assert |bits[..i]| / 8 == |bits| / 8;
    forall g | 0 <= g < |bits| / 8
      ensures bits[..i][8 * g .. 8 * g + 8] == bits[8 * g .. 8 * g + 8]
    {
    }
    assert Bytes(bits[..i]) == Bytes(bits);
  }
}
