/**
 * The crop handler of pkg/crop/crop.go: the ModeRect rectangle is clamped into the image bounds,
 * and the selected region is drawn into a new 0-origin RGBA grid.
 */
module Crop {
  import opened IntUtil
  import opened Images

  /** `Mode`: ModeRect is 1, ModeCenterRatio is 2; anything else re-encodes the image as it is. */
  const ModeRect := 1
  const ModeCenterRatio := 2

  /** The integer fields of `Options` the rectangle and the quality use. */
  datatype Options = Options(mode: int, x: int, y: int, width: int, height: int, quality: int)

  /**
   * The ModeRect rectangle: x and y are clamped into [Min, Max] of the bounds, then the width
   * into [1, Max.X - x] and the height into [1, Max.Y - y].
   */
  function RectCrop(b: Rect, opt: Options): (r: Rect)
    requires b.Canonical()
    ensures r.Canonical()
    ensures b.minX <= r.minX <= b.maxX && b.minY <= r.minY <= b.maxY
    ensures b.minX <= opt.x <= b.maxX ==> r.minX == opt.x
    ensures b.minY <= opt.y <= b.maxY ==> r.minY == opt.y
    ensures r.minX < b.maxX ==> 1 <= r.Dx() && r.maxX <= b.maxX
    ensures r.minY < b.maxY ==> 1 <= r.Dy() && r.maxY <= b.maxY
    ensures r.minX < b.maxX && 1 <= opt.width <= b.maxX - r.minX ==> r.Dx() == opt.width
    ensures r.minY < b.maxY && 1 <= opt.height <= b.maxY - r.minY ==> r.Dy() == opt.height
    ensures r.minX < b.maxX && opt.width > b.maxX - r.minX ==> r.maxX == b.maxX
    ensures r.minY < b.maxY && opt.height > b.maxY - r.minY ==> r.maxY == b.maxY
    ensures r.minX < b.maxX && opt.width < 1 ==> r.Dx() == 1
    ensures r.minY < b.maxY && opt.height < 1 ==> r.Dy() == 1
    ensures r.minX == b.maxX ==> r.Dx() == (if opt.width < 1 then 1 else 0)
    ensures r.minY == b.maxY ==> r.Dy() == (if opt.height < 1 then 1 else 0)
  {
    var x := Clamp(opt.x, b.minX, b.maxX);
    var y := Clamp(opt.y, b.minY, b.maxY);
    var w := Clamp(opt.width, 1, b.maxX - x);
    var h := Clamp(opt.height, 1, b.maxY - y);
    Rect(x, y, x + w, y + h)
  }

  /** The pixel `draw.Draw` with `draw.Src` puts at (i, j) of the output: the source pixel at (cr.Min.X + i, cr.Min.Y + j) if the source has one, else the zero pixel. */
  function RegionPixel(g: seq<seq<Pixel>>, b: Rect, cr: Rect, i: int, j: int): Pixel
    requires Grid(g, b.Dx(), b.Dy())
  {
    if b.Contains(cr.minX + i, cr.minY + j) then g[cr.minY + j - b.minY][cr.minX + i - b.minX] else Transparent
  }

  /** The output grid of a crop to `cr` of the grid g with bounds b. */
  function Region(g: seq<seq<Pixel>>, b: Rect, cr: Rect): (r: seq<seq<Pixel>>)
    requires Grid(g, b.Dx(), b.Dy()) && cr.Canonical()
    ensures Grid(r, cr.Dx(), cr.Dy())
  {
    seq(cr.Dy(), j requires 0 <= j < cr.Dy() =>
      seq(cr.Dx(), i requires 0 <= i < cr.Dx() => RegionPixel(g, b, cr, i, j)))
  }

  /** The region copy: a new cr.Dx() x cr.Dy() image filled row by row from the source. */
  method CropRegion(img: Image, cr: Rect) returns (dst: Image)
    requires img.Valid() && cr.Canonical()
    ensures dst.Valid() && dst.bounds == Rect(0, 0, cr.Dx(), cr.Dy())
    ensures dst.Rows() == Region(img.Rows(), img.bounds, cr)
  {
    var dw, dh := cr.Dx(), cr.Dy();
    dst := new Image(Rect(0, 0, dw, dh));
    ghost var g := img.Rows();
    for j := 0 to dh
      invariant forall r, c :: 0 <= r < dh && 0 <= c < dw ==>
        dst.pix[r, c] == if r < j then RegionPixel(g, img.bounds, cr, c, r) else Transparent
    {
      for i := 0 to dw
        invariant forall r, c :: 0 <= r < dh && 0 <= c < dw ==>
          dst.pix[r, c] == if r < j || (r == j && c < i) then RegionPixel(g, img.bounds, cr, c, r) else Transparent
      {
        var sx, sy := cr.minX + i, cr.minY + j;
        if img.bounds.Contains(sx, sy) {
          dst.pix[j, i] := img.At(sx, sy);
        }
      }
    }
    RowsFrom(dst, Region(g, img.bounds, cr));
  }

  /**
   * The handler's mode switch on a decoded image. ModeRect crops to `RectCrop`; ModeCenterRatio
   * crops to `ratioRect`, the rectangle its floating-point arithmetic chose; any other mode
   * returns the decoded image itself for re-encoding.
   */
  method CropImage(img: Image, opt: Options, ratioRect: Rect) returns (dst: Image)
    requires img.Valid() && ratioRect.Canonical()
    ensures dst.Valid()
    ensures opt.mode == ModeRect ==>
      var cr := RectCrop(img.bounds, opt);
      dst.bounds == Rect(0, 0, cr.Dx(), cr.Dy()) && dst.Rows() == Region(img.Rows(), img.bounds, cr)
    ensures opt.mode == ModeCenterRatio ==>
      dst.bounds == Rect(0, 0, ratioRect.Dx(), ratioRect.Dy()) && dst.Rows() == Region(img.Rows(), img.bounds, ratioRect)
    ensures opt.mode !in {ModeRect, ModeCenterRatio} ==> dst == img
  {
    if opt.mode == ModeRect {
      dst := CropRegion(img, RectCrop(img.bounds, opt));
    } else if opt.mode == ModeCenterRatio {
      dst := CropRegion(img, ratioRect);
    } else {
      dst := img;
    }
  }

  // ---- properties ----

  /** A crop rectangle inside the bounds takes every output pixel from the source, shifted by its corner. */
  lemma RegionInside(g: seq<seq<Pixel>>, b: Rect, cr: Rect)
    requires Grid(g, b.Dx(), b.Dy()) && cr.Canonical()
    requires b.minX <= cr.minX && cr.maxX <= b.maxX && b.minY <= cr.minY && cr.maxY <= b.maxY
    ensures forall j, i :: 0 <= j < cr.Dy() && 0 <= i < cr.Dx() ==>
      Region(g, b, cr)[j][i] == g[cr.minY - b.minY + j][cr.minX - b.minX + i]
  {
    forall j, i | 0 <= j < cr.Dy() && 0 <= i < cr.Dx()
      ensures Region(g, b, cr)[j][i] == g[cr.minY - b.minY + j][cr.minX - b.minX + i]
    {
      assert b.Contains(cr.minX + i, cr.minY + j);
    }
  }

  /** Output pixels whose source position lies outside the bounds stay transparent black. */
  lemma RegionOutside(g: seq<seq<Pixel>>, b: Rect, cr: Rect, i: int, j: int)
    requires Grid(g, b.Dx(), b.Dy()) && cr.Canonical()
    requires 0 <= j < cr.Dy() && 0 <= i < cr.Dx() && !b.Contains(cr.minX + i, cr.minY + j)
    ensures Region(g, b, cr)[j][i] == Transparent
  {
  }

  /** Cropping to the image's own bounds gives the image back. */
  lemma RegionWhole(g: seq<seq<Pixel>>, b: Rect)
    requires Grid(g, b.Dx(), b.Dy()) && b.Canonical()
    ensures Region(g, b, b) == g
  {
    var r := Region(g, b, b);
    forall j | 0 <= j < b.Dy()
      ensures r[j] == g[j]
    {
      forall i | 0 <= i < b.Dx()
        ensures r[j][i] == g[j][i]
      {
        assert b.Contains(b.minX + i, b.minY + j);
      }
    }
  }

  /**
   * ModeRect with a corner strictly inside the image crops a non-empty rectangle that lies
   * inside the bounds, so every output pixel is a source pixel.
   */
  lemma RectCropInside(g: seq<seq<Pixel>>, b: Rect, opt: Options)
    requires Grid(g, b.Dx(), b.Dy()) && b.Canonical()
    requires b.minX <= opt.x < b.maxX && b.minY <= opt.y < b.maxY
    ensures var cr := RectCrop(b, opt);
      && cr.Dx() >= 1 && cr.Dy() >= 1
      && forall j, i :: 0 <= j < cr.Dy() && 0 <= i < cr.Dx() ==>
        Region(g, b, cr)[j][i] == g[opt.y - b.minY + j][opt.x - b.minX + i]
  {
    RegionInside(g, b, RectCrop(b, opt));
  }

  /**
   * At the right edge a non-positive width still yields a one-pixel column, and it lies outside
   * the image, so it is transparent black; a positive width yields no columns.
   */
  lemma RightEdgeColumn(g: seq<seq<Pixel>>, b: Rect, opt: Options)
    requires Grid(g, b.Dx(), b.Dy()) && b.Canonical()
    requires opt.x >= b.maxX && opt.width < 1
    ensures var cr := RectCrop(b, opt);
      && cr.Dx() == 1
      && forall j :: 0 <= j < cr.Dy() ==> Region(g, b, cr)[j][0] == Transparent
  {
    var cr := RectCrop(b, opt);
    forall j | 0 <= j < cr.Dy()
      ensures Region(g, b, cr)[j][0] == Transparent
    {
      RegionOutside(g, b, cr, 0, j);
    }
  }
}
