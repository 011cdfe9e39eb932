/** Decoded RGBA pixel grids, as Go's `*image.RGBA` holds them. */
module Images {
  import opened Results

  /** One 8-bit-per-channel RGBA sample (`color.RGBA`). */
  datatype Pixel = Pixel(r: Byte, g: Byte, b: Byte, a: Byte)

  /** The zero value of a freshly allocated `image.NewRGBA` buffer. */
  const Transparent := Pixel(0, 0, 0, 0)

  /** `image.Rectangle`: the half-open box [minX, maxX) x [minY, maxY). */
  datatype Rect = Rect(minX: int, minY: int, maxX: int, maxY: int) {
    /** Min is never past Max, as `image.Rect` guarantees. */
    predicate Canonical() { minX <= maxX && minY <= maxY }
    function Dx(): int { maxX - minX }
    function Dy(): int { maxY - minY }
    predicate Contains(x: int, y: int) { minX <= x < maxX && minY <= y < maxY }
  }

  /**
   * `color.RGBA.RGBA()` widens an 8-bit sample v to 16 bits as v * 0x101;
   * shifting right by 8 (`>> 8`) and truncating to `uint8` both give v back.
   */
  function Sample16(v: Byte): (w: int)
    ensures 0 <= w < 0x10000
    ensures w / 256 == v && w % 256 == v
  {
    v * 0x101
  }

  /** g is a value grid of h rows of w pixels each. */
  predicate Grid(g: seq<seq<Pixel>>, w: int, h: int)
  {
    0 <= w && |g| == h && forall j :: 0 <= j < |g| ==> |g[j]| == w
  }

  /** A grid of pixels stored row by row: pixel (x, y) lives at pix[y - minY, x - minX]. */
  class Image {
    const bounds: Rect
    const pix: array2<Pixel>

    predicate Valid()
    {
      bounds.Canonical() && pix.Length0 == bounds.Dy() && pix.Length1 == bounds.Dx()
    }

    /** `image.NewRGBA(r)`: every pixel starts transparent black. */
    constructor (r: Rect)
      requires r.Canonical()
      ensures Valid() && bounds == r && fresh(pix)
      ensures forall j, i :: 0 <= j < pix.Length0 && 0 <= i < pix.Length1 ==> pix[j, i] == Transparent
    {
      bounds := r;
      pix := new Pixel[r.Dy(), r.Dx()]((j, i) => Transparent);
    }

    /** `img.At(x, y)` for a point inside the bounds. */
    function At(x: int, y: int): Pixel
      reads pix
      requires Valid() && bounds.Contains(x, y)
    {
      pix[y - bounds.minY, x - bounds.minX]
    }

    /** The grid as a sequence of rows, top to bottom, each left to right. */
    ghost function Rows(): (g: seq<seq<Pixel>>)
      reads pix
      ensures |g| == pix.Length0
      ensures forall j :: 0 <= j < |g| ==> |g[j]| == pix.Length1
      ensures forall j, i :: 0 <= j < |g| && 0 <= i < |g[j]| ==> g[j][i] == pix[j, i]
    {
      seq(pix.Length0, j requires 0 <= j < pix.Length0 reads pix =>
        seq(pix.Length1, i requires 0 <= i < pix.Length1 reads pix => pix[j, i]))
    }

    /** The pixels in row-major traversal order: position k is pixel (k % W, k / W) relative to Min. */
    ghost function Flat(): (s: seq<Pixel>)
      reads pix
      ensures |s| == pix.Length0 * pix.Length1
    {
      var h, w := pix.Length0, pix.Length1;
      if w == 0 then [] else
        seq(h * w, k requires 0 <= k < h * w reads pix => (DivBelow(k, w, h); pix[k / w, k % w]))
    }
  }

  /** `dst := image.NewRGBA(sb); draw.Draw(dst, sb, src, sb.Min, draw.Src)`: a new image with the source's bounds and pixels. */
  method CopyImage(src: Image) returns (dst: Image)
    requires src.Valid()
    ensures dst.Valid() && dst.bounds == src.bounds
    ensures dst.Rows() == src.Rows()
    ensures fresh(dst.pix)
  {
    var sw, sh := src.bounds.Dx(), src.bounds.Dy();
    dst := new Image(src.bounds);
    for j := 0 to sh
      invariant forall r, c :: 0 <= r < j && 0 <= c < sw ==> dst.pix[r, c] == src.pix[r, c]
    {
      for i := 0 to sw
        invariant forall r, c :: 0 <= r < sh && 0 <= c < sw && (r < j || (r == j && c < i)) ==> dst.pix[r, c] == src.pix[r, c]
      {
        dst.pix[j, i] := src.pix[j, i];
      }
    }
    RowsFrom(dst, src.Rows());
  }

  /** Pixel (i, j) of the array sits at row-major position j * W + i. */
  lemma FlatAt(img: Image, j: int, i: int)
    requires 0 <= j < img.pix.Length0 && 0 <= i < img.pix.Length1
    ensures 0 <= j * img.pix.Length1 + i < |img.Flat()|
    ensures img.Flat()[j * img.pix.Length1 + i] == img.pix[j, i]
  {
    RowMajor(j, i, img.pix.Length1, img.pix.Length0);
  }

  /** Row j of the array occupies positions j * W through j * W + W - 1 of the row-major sequence. */
  lemma FlatRow(img: Image, j: int, start: int)
    requires 0 <= j < img.pix.Length0 && start == j * img.pix.Length1
    ensures 0 <= start && start + img.pix.Length1 <= |img.Flat()|
    ensures forall i :: 0 <= i < img.pix.Length1 ==> img.Flat()[start + i] == img.pix[j, i]
  {
    RowBound(j, 0, img.pix.Length1, img.pix.Length0);
    RowBound(j, img.pix.Length1, img.pix.Length1, img.pix.Length0);
    forall i | 0 <= i < img.pix.Length1
      ensures img.Flat()[start + i] == img.pix[j, i]
    {
      FlatAt(img, j, i);
    }
  }

  /** Two ways to give the row-major sequence of an image agree when they agree pixel by pixel. */
  lemma FlatFromPixels(img: Image, s: seq<Pixel>)
    requires img.Valid()
    requires |s| == img.pix.Length0 * img.pix.Length1
    requires forall j, i :: 0 <= j < img.pix.Length0 && 0 <= i < img.pix.Length1 && 0 <= j * img.pix.Length1 + i < |s| ==>
      s[j * img.pix.Length1 + i] == img.pix[j, i]
    ensures img.Flat() == s
  {
    var h, w := img.pix.Length0, img.pix.Length1;
    var f := img.Flat();
    forall k | 0 <= k < |s|
      ensures f[k] == s[k]
    {
      DivBelow(k, w, h);
      var j, i := k / w, k % w;
      assert k == j * w + i;
      assert f[k] == img.pix[j, i];
    }
  }

  /** An image whose pixels agree with a grid of its size has that grid as its rows. */
  lemma RowsFrom(img: Image, g: seq<seq<Pixel>>)
    requires Grid(g, img.pix.Length1, img.pix.Length0)
    requires forall j, i :: 0 <= j < img.pix.Length0 && 0 <= i < img.pix.Length1 ==> g[j][i] == img.pix[j, i]
    ensures img.Rows() == g
  {
    var rows := img.Rows();
    forall j | 0 <= j < |g|
      ensures rows[j] == g[j]
    {
    }
  }

  lemma NextRow(j: int, w: int)
    ensures (j + 1) * w == j * w + w
  {
  }

  /** A position inside row `j` (or at the end of it) is at most the grid's size. */
  lemma RowBound(j: int, i: int, w: int, h: int)
    requires 0 <= j < h && 0 <= i <= w
    ensures 0 <= j * w + i <= h * w
  {
    MulMono(j + 1, h, w);
    MulMono(0, j, w);
    NextRow(j, w);
  }

  lemma DivBelow(k: int, w: int, h: int)
    requires 0 < w && 0 <= k < h * w
    ensures 0 <= k / w < h && 0 <= k % w < w
  {
    var q, r := k / w, k % w;
    assert k == q * w + r;
    if q >= h {
      MulMono(h, q, w);
    }
  }

  lemma MulMono(a: int, b: int, w: int)
    requires a <= b && 0 <= w
    ensures a * w <= b * w
  {
    assert b * w - a * w == (b - a) * w;
  }

  /** Euclidean division is determined by quotient and remainder. */
  lemma DivModUnique(k: int, w: int, q: int, r: int)
    requires 0 < w && 0 <= r < w && k == q * w + r
    ensures k / w == q && k % w == r
  {
    var q', r' := k / w, k % w;
    assert k == q' * w + r';
    assert (q - q') * w == r' - r;
    if q - q' >= 1 {
      MulMono(1, q - q', w);
    } else if q - q' <= -1 {
      MulMono(1, q' - q, w);
    }
  }

  /** Row-major position j * w + i of column i in row j is in range and recovers (j, i) by division. */
  lemma RowMajor(j: int, i: int, w: int, h: int)
    requires 0 <= j < h && 0 <= i < w
    ensures 0 <= j * w + i < h * w
    ensures (j * w + i) / w == j && (j * w + i) % w == i
  {
    MulMono(j + 1, h, w);
    assert (j + 1) * w == j * w + w;
    assert 0 <= j * w by { MulMono(0, j, w); }
    DivModUnique(j * w + i, w, j, i);
  }
}
