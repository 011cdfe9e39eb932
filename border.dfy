/**
 * The border handler of pkg/border/border.go: Inset paints four stripes of thickness t inside
 * the image, Outset paints a canvas t pixels larger on every side and draws the image in its
 * middle, and any other mode copies the image.
 */
module Border {
  import opened IntUtil
  import opened Images

  /** `Mode`: Inset is 1, Outset is 2. */
  const Inset := 1
  const Outset := 2

  /** The fields of `Options` the pixel work uses. */
  datatype Options = Options(mode: int, thickness: int, color: Pixel, quality: int)

  /** The effective thickness `max(1, Thickness)`. */
  function Thickness(opt: Options): (t: int)
    ensures t >= 1
    ensures opt.thickness >= 1 ==> t == opt.thickness
    ensures opt.thickness < 1 ==> t == 1
  {
    Max(1, opt.thickness)
  }

  /** The four rectangles `drawInsetRect` paints, in its order: top, bottom, left, right. */
  function TopStripe(r: Rect, t: int): Rect { Rect(r.minX, r.minY, r.maxX, r.minY + t) }
  function BottomStripe(r: Rect, t: int): Rect { Rect(r.minX, r.maxY - t, r.maxX, r.maxY) }
  function LeftStripe(r: Rect, t: int): Rect { Rect(r.minX, r.minY, r.minX + t, r.maxY) }
  function RightStripe(r: Rect, t: int): Rect { Rect(r.maxX - t, r.minY, r.maxX, r.maxY) }

  predicate InStripes(r: Rect, t: int, x: int, y: int)
  {
    TopStripe(r, t).Contains(x, y) || BottomStripe(r, t).Contains(x, y) ||
    LeftStripe(r, t).Contains(x, y) || RightStripe(r, t).Contains(x, y)
  }

  /**
   * `draw.Draw(dst, rect, &image.Uniform{C: col}, image.Point{}, draw.Src)`: every pixel of
   * dst inside rect becomes col, the others keep their values (the rectangle is clipped to dst).
   */
  method FillRect(dst: Image, rect: Rect, col: Pixel)
    requires dst.Valid()
    modifies dst.pix
    ensures forall j, i :: 0 <= j < dst.pix.Length0 && 0 <= i < dst.pix.Length1 ==>
      dst.pix[j, i] == if rect.Contains(dst.bounds.minX + i, dst.bounds.minY + j) then col else old(dst.pix[j, i])
  {
    var w, h := dst.pix.Length1, dst.pix.Length0;
    for j := 0 to h
      invariant forall r, c :: 0 <= r < h && 0 <= c < w ==>
        dst.pix[r, c] == if r < j && rect.Contains(dst.bounds.minX + c, dst.bounds.minY + r) then col else old(dst.pix[r, c])
    {
      for i := 0 to w
        invariant forall r, c :: 0 <= r < h && 0 <= c < w ==>
          dst.pix[r, c] ==
            if (r < j || (r == j && c < i)) && rect.Contains(dst.bounds.minX + c, dst.bounds.minY + r) then col
            else old(dst.pix[r, c])
      {
        if rect.Contains(dst.bounds.minX + i, dst.bounds.minY + j) {
          dst.pix[j, i] := col;
        }
      }
    }
  }

  /** `drawInsetRect`: the four stripes of r are painted with col, every other pixel is kept. */
  method DrawInsetRect(dst: Image, r: Rect, t: int, col: Pixel)
    requires dst.Valid()
    modifies dst.pix
    ensures forall j, i :: 0 <= j < dst.pix.Length0 && 0 <= i < dst.pix.Length1 ==>
      dst.pix[j, i] == if InStripes(r, t, dst.bounds.minX + i, dst.bounds.minY + j) then col else old(dst.pix[j, i])
  {
    FillRect(dst, TopStripe(r, t), col);
    FillRect(dst, BottomStripe(r, t), col);
    FillRect(dst, LeftStripe(r, t), col);
    FillRect(dst, RightStripe(r, t), col);
  }

  /** The Inset result on values: stripe pixels of the bounds b take col, the rest keep g. */
  function InsetGrid(g: seq<seq<Pixel>>, b: Rect, t: int, col: Pixel): (r: seq<seq<Pixel>>)
    requires Grid(g, b.Dx(), b.Dy())
    ensures Grid(r, b.Dx(), b.Dy())
  {
    seq(b.Dy(), j requires 0 <= j < b.Dy() =>
      seq(b.Dx(), i requires 0 <= i < b.Dx() => if InStripes(b, t, b.minX + i, b.minY + j) then col else g[j][i]))
  }

  /** The Inset case: a copy of the source with its bounds, then the stripes. */
  method InsetImage(src: Image, t: int, col: Pixel) returns (dst: Image)
    requires src.Valid()
    ensures dst.Valid() && dst.bounds == src.bounds
    ensures dst.Rows() == InsetGrid(src.Rows(), src.bounds, t, col)
  {
    dst := CopyImage(src);
    ghost var g := dst.Rows();
    DrawInsetRect(dst, src.bounds, t, col);
    RowsFrom(dst, InsetGrid(g, src.bounds, t, col));
  }

  /**
   * The Outset result on values: a (w+2t) x (h+2t) canvas of col whose pixel (t+x, t+y) is
   * the source pixel (x, y) drawn over col by `over`.
   */
  function OutsetPixel(g: seq<seq<Pixel>>, w: int, h: int, t: int, col: Pixel, over: (Pixel, Pixel) -> Pixel, i: int, j: int): Pixel
    requires Grid(g, w, h)
  {
    if t <= i < t + w && t <= j < t + h then over(g[j - t][i - t], col) else col
  }

  function OutsetGrid(g: seq<seq<Pixel>>, w: int, h: int, t: int, col: Pixel, over: (Pixel, Pixel) -> Pixel): (r: seq<seq<Pixel>>)
    requires Grid(g, w, h) && t >= 1
    ensures Grid(r, w + 2 * t, h + 2 * t)
  {
    seq(h + 2 * t, j requires 0 <= j < h + 2 * t =>
      seq(w + 2 * t, i requires 0 <= i < w + 2 * t => OutsetPixel(g, w, h, t, col, over, i, j)))
  }

  /**
   * The Outset case: a fresh 0-origin canvas filled with col, then the source drawn at offset
   * (t, t) with `draw.Over`, whose blending of two pixels is the parameter `over`.
   */
  method OutsetImage(src: Image, t: int, col: Pixel, over: (Pixel, Pixel) -> Pixel) returns (dst: Image)
    requires src.Valid() && t >= 1
    ensures dst.Valid() && dst.bounds == Rect(0, 0, src.bounds.Dx() + 2 * t, src.bounds.Dy() + 2 * t)
    ensures dst.Rows() == OutsetGrid(src.Rows(), src.bounds.Dx(), src.bounds.Dy(), t, col, over)
  {
    var sw, sh := src.bounds.Dx(), src.bounds.Dy();
    dst := new Image(Rect(0, 0, sw + 2 * t, sh + 2 * t));
    FillRect(dst, dst.bounds, col);
    ghost var g := src.Rows();
    for y := 0 to sh
      invariant forall r, c :: 0 <= r < sh + 2 * t && 0 <= c < sw + 2 * t ==>
        dst.pix[r, c] == if r - t < y then OutsetPixel(g, sw, sh, t, col, over, c, r) else col
    {
      OutsetRow(src, dst, t, over, y);
    }
    RowsFrom(dst, OutsetGrid(g, sw, sh, t, col, over));
  }

  /** Row y of the Outset drawing: each source pixel of the row is drawn over the pixel at offset (t, t). */
  method OutsetRow(src: Image, dst: Image, t: int, over: (Pixel, Pixel) -> Pixel, y: int)
    requires src.Valid() && dst.Valid() && src.pix != dst.pix
    requires 0 <= t && 0 <= y < src.pix.Length0 && t + y < dst.pix.Length0 && t + src.pix.Length1 <= dst.pix.Length1
    modifies dst.pix
    ensures forall r, c :: 0 <= r < dst.pix.Length0 && 0 <= c < dst.pix.Length1 ==>
      dst.pix[r, c] == if r == t + y && t <= c < t + src.pix.Length1 then over(src.pix[y, c - t], old(dst.pix[r, c])) else old(dst.pix[r, c])
  {
    for x := 0 to src.pix.Length1
      invariant forall r, c :: 0 <= r < dst.pix.Length0 && 0 <= c < dst.pix.Length1 ==>
        dst.pix[r, c] == if r == t + y && t <= c < t + x then over(src.pix[y, c - t], old(dst.pix[r, c])) else old(dst.pix[r, c])
    {
      dst.pix[t + y, t + x] := over(src.At(src.bounds.minX + x, src.bounds.minY + y), dst.pix[t + y, t + x]);
    }
  }

  /** The mode switch of the handler, with t = max(1, Thickness). */
  method BorderImage(src: Image, opt: Options, over: (Pixel, Pixel) -> Pixel) returns (dst: Image)
    requires src.Valid()
    ensures dst.Valid()
    ensures var t, sw, sh := Thickness(opt), src.bounds.Dx(), src.bounds.Dy();
      && (opt.mode == Inset ==> dst.bounds == src.bounds && dst.Rows() == InsetGrid(src.Rows(), src.bounds, t, opt.color))
      && (opt.mode == Outset ==>
        dst.bounds == Rect(0, 0, sw + 2 * t, sh + 2 * t) && dst.Rows() == OutsetGrid(src.Rows(), sw, sh, t, opt.color, over))
      && (opt.mode !in {Inset, Outset} ==> dst.bounds == src.bounds && dst.Rows() == src.Rows())
  {
    var t := Thickness(opt);
    if opt.mode == Inset {
      dst := InsetImage(src, t, opt.color);
    } else if opt.mode == Outset {
      dst := OutsetImage(src, t, opt.color, over);
    } else {
      dst := CopyImage(src);
    }
  }

  // ---- properties ----

  /**
   * Inset, pixel by pixel: a pixel of the bounds less than t rows from the top or bottom edge or
   * less than t columns from the left or right edge has the border colour; every other pixel
   * keeps its source value.
   */
  lemma InsetPixel(g: seq<seq<Pixel>>, b: Rect, t: int, col: Pixel, x: int, y: int)
    requires Grid(g, b.Dx(), b.Dy()) && b.Contains(x, y)
    ensures InsetGrid(g, b, t, col)[y - b.minY][x - b.minX] ==
      if y < b.minY + t || y >= b.maxY - t || x < b.minX + t || x >= b.maxX - t then col else g[y - b.minY][x - b.minX]
  {
    assert InStripes(b, t, x, y) <==> (y < b.minY + t || y >= b.maxY - t || x < b.minX + t || x >= b.maxX - t);
  }

  /** Painting the inset border twice is painting it once. */
  lemma InsetIdempotent(g: seq<seq<Pixel>>, b: Rect, t: int, col: Pixel)
    requires Grid(g, b.Dx(), b.Dy())
    ensures InsetGrid(InsetGrid(g, b, t, col), b, t, col) == InsetGrid(g, b, t, col)
  {
    var once := InsetGrid(g, b, t, col);
    var twice := InsetGrid(once, b, t, col);
    forall j | 0 <= j < b.Dy()
      ensures twice[j] == once[j]
    {
    }
  }

  /** Outset: every pixel of the outer frame of width t has the border colour. */
  lemma OutsetFrame(g: seq<seq<Pixel>>, w: int, h: int, t: int, col: Pixel, over: (Pixel, Pixel) -> Pixel)
    requires Grid(g, w, h) && t >= 1
    ensures var r := OutsetGrid(g, w, h, t, col, over);
      forall j, i :: 0 <= j < h + 2 * t && 0 <= i < w + 2 * t && (i < t || i >= t + w || j < t || j >= t + h) ==> r[j][i] == col
  {
  }

  /**
   * Outset: with an `over` that lets opaque pixels through, as `draw.Over` does, every opaque
   * source pixel (x, y) is found unchanged at (t + x, t + y) of the canvas, whatever the others are.
   */
  lemma OutsetOpaquePixel(g: seq<seq<Pixel>>, w: int, h: int, t: int, col: Pixel, over: (Pixel, Pixel) -> Pixel)
    requires Grid(g, w, h) && t >= 1
    requires forall s: Pixel, d: Pixel :: s.a == 255 ==> over(s, d) == s
    ensures var r := OutsetGrid(g, w, h, t, col, over);
      forall y, x :: 0 <= y < h && 0 <= x < w && g[y][x].a == 255 ==> r[t + y][t + x] == g[y][x]
  {
  }

  /** Outset: a wholly opaque source is found whole in the middle of the canvas: row t + y, columns t to t + w, is source row y. */
  lemma OutsetOpaque(g: seq<seq<Pixel>>, w: int, h: int, t: int, col: Pixel, over: (Pixel, Pixel) -> Pixel)
    requires Grid(g, w, h) && t >= 1
    requires forall s: Pixel, d: Pixel :: s.a == 255 ==> over(s, d) == s
    requires forall y, x :: 0 <= y < h && 0 <= x < w ==> g[y][x].a == 255
    ensures var r := OutsetGrid(g, w, h, t, col, over);
      forall y :: 0 <= y < h ==> r[t + y][t .. t + w] == g[y]
  {
    var r := OutsetGrid(g, w, h, t, col, over);
    forall y | 0 <= y < h
      ensures r[t + y][t .. t + w] == g[y]
    {
      forall x | 0 <= x < w
        ensures r[t + y][t .. t + w][x] == g[y][x]
      {
        OutsetOpaquePixel(g, w, h, t, col, over);
      }
    }
  }
}
