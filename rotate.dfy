/**
 * The pixel loops of the rotate handler in pkg/rotate/rotate.go. A source of width sw and
 * height sh is read at (Min.X + x, Min.Y + y) and written into a fresh 0-origin RGBA grid.
 */
module Rotate {
  import opened Images

  /** `Mode`: the three rotations are 1, 2 and 3; any other value copies the image. */
  const Rotate90CW := 1
  const Rotate180 := 2
  const Rotate270CW := 3

  /** 90 degrees clockwise: sh columns and sw rows, source (x, y) lands at (sh-1-y, x). */
  function Rot90(g: seq<seq<Pixel>>, w: int, h: int): (r: seq<seq<Pixel>>)
    requires Grid(g, w, h)
    ensures Grid(r, h, w)
    ensures forall y, x :: 0 <= y < h && 0 <= x < w ==> r[x][h - 1 - y] == g[y][x]
  {
    seq(w, i requires 0 <= i < w => seq(h, c requires 0 <= c < h => g[h - 1 - c][i]))
  }

  /** 180 degrees: the same size, source (x, y) lands at (sw-1-x, sh-1-y). */
  function Rot180(g: seq<seq<Pixel>>, w: int, h: int): (r: seq<seq<Pixel>>)
    requires Grid(g, w, h)
    ensures Grid(r, w, h)
    ensures forall y, x :: 0 <= y < h && 0 <= x < w ==> r[h - 1 - y][w - 1 - x] == g[y][x]
  {
    seq(h, j requires 0 <= j < h => seq(w, i requires 0 <= i < w => g[h - 1 - j][w - 1 - i]))
  }

  /** 270 degrees clockwise: sh columns and sw rows, source (x, y) lands at (y, sw-1-x). */
  function Rot270(g: seq<seq<Pixel>>, w: int, h: int): (r: seq<seq<Pixel>>)
    requires Grid(g, w, h)
    ensures Grid(r, h, w)
    ensures forall y, x :: 0 <= y < h && 0 <= x < w ==> r[w - 1 - x][y] == g[y][x]
  {
    seq(w, j requires 0 <= j < w => seq(h, i requires 0 <= i < h => g[i][w - 1 - j]))
  }

  /** The `Rotate90CW` case: nested y/x loops fill a new sh x sw image. */
  method Rotate90(src: Image) returns (dst: Image)
    requires src.Valid()
    ensures dst.Valid() && dst.bounds == Rect(0, 0, src.bounds.Dy(), src.bounds.Dx())
    ensures dst.Rows() == Rot90(src.Rows(), src.bounds.Dx(), src.bounds.Dy())
  {
    var sw, sh := src.bounds.Dx(), src.bounds.Dy();
    dst := new Image(Rect(0, 0, sh, sw));
    for y := 0 to sh
      invariant forall r, c :: 0 <= r < sw && 0 <= c < sh && sh - 1 - c < y ==> dst.pix[r, c] == src.pix[sh - 1 - c, r]
    {
      Rotate90Row(src, dst, y);
    }
    RowsFrom(dst, Rot90(src.Rows(), sw, sh));
  }

  /** One pass of the x loop of `Rotate90CW`: source row y becomes column sh-1-y. */
  method Rotate90Row(src: Image, dst: Image, y: int)
    requires src.Valid() && dst.Valid() && src.pix != dst.pix
    requires dst.pix.Length0 == src.pix.Length1 && dst.pix.Length1 == src.pix.Length0 && 0 <= y < src.pix.Length0
    modifies dst.pix
    ensures forall r, c :: 0 <= r < dst.pix.Length0 && 0 <= c < dst.pix.Length1 ==>
      dst.pix[r, c] == if c == src.pix.Length0 - 1 - y then src.pix[y, r] else old(dst.pix[r, c])
  {
    var sh := src.pix.Length0;
    for x := 0 to src.pix.Length1
      invariant forall r, c :: 0 <= r < dst.pix.Length0 && 0 <= c < dst.pix.Length1 ==>
        dst.pix[r, c] == if c == sh - 1 - y && r < x then src.pix[y, r] else old(dst.pix[r, c])
    {
      dst.pix[x, sh - 1 - y] := src.At(src.bounds.minX + x, src.bounds.minY + y);
    }
  }

  /** The `Rotate180` case: a new sw x sh image filled back to front. */
  method Rotate180Image(src: Image) returns (dst: Image)
    requires src.Valid()
    ensures dst.Valid() && dst.bounds == Rect(0, 0, src.bounds.Dx(), src.bounds.Dy())
    ensures dst.Rows() == Rot180(src.Rows(), src.bounds.Dx(), src.bounds.Dy())
  {
    var sw, sh := src.bounds.Dx(), src.bounds.Dy();
    dst := new Image(Rect(0, 0, sw, sh));
    for y := 0 to sh
      invariant forall r, c :: 0 <= r < sh && 0 <= c < sw && sh - 1 - r < y ==> dst.pix[r, c] == src.pix[sh - 1 - r, sw - 1 - c]
    {
      Rotate180Row(src, dst, y);
    }
    RowsFrom(dst, Rot180(src.Rows(), sw, sh));
  }

  /** One pass of the x loop of `Rotate180`: source row y becomes row sh-1-y, reversed. */
  method Rotate180Row(src: Image, dst: Image, y: int)
    requires src.Valid() && dst.Valid() && src.pix != dst.pix
    requires dst.pix.Length0 == src.pix.Length0 && dst.pix.Length1 == src.pix.Length1 && 0 <= y < src.pix.Length0
    modifies dst.pix
    ensures forall r, c :: 0 <= r < dst.pix.Length0 && 0 <= c < dst.pix.Length1 ==>
      dst.pix[r, c] == if r == src.pix.Length0 - 1 - y then src.pix[y, src.pix.Length1 - 1 - c] else old(dst.pix[r, c])
  {
    var sw, sh := src.pix.Length1, src.pix.Length0;
    for x := 0 to sw
      invariant forall r, c :: 0 <= r < dst.pix.Length0 && 0 <= c < dst.pix.Length1 ==>
        dst.pix[r, c] == if r == sh - 1 - y && sw - 1 - c < x then src.pix[y, sw - 1 - c] else old(dst.pix[r, c])
    {
      dst.pix[sh - 1 - y, sw - 1 - x] := src.At(src.bounds.minX + x, src.bounds.minY + y);
    }
  }

  /** The `Rotate270CW` case: nested y/x loops fill a new sh x sw image. */
  method Rotate270(src: Image) returns (dst: Image)
    requires src.Valid()
    ensures dst.Valid() && dst.bounds == Rect(0, 0, src.bounds.Dy(), src.bounds.Dx())
    ensures dst.Rows() == Rot270(src.Rows(), src.bounds.Dx(), src.bounds.Dy())
  {
    var sw, sh := src.bounds.Dx(), src.bounds.Dy();
    dst := new Image(Rect(0, 0, sh, sw));
    for y := 0 to sh
      invariant forall r, c :: 0 <= r < sw && 0 <= c < sh && c < y ==> dst.pix[r, c] == src.pix[c, sw - 1 - r]
    {
      Rotate270Row(src, dst, y);
    }
    RowsFrom(dst, Rot270(src.Rows(), sw, sh));
  }

  /** One pass of the x loop of `Rotate270CW`: source row y becomes column y, bottom to top. */
  method Rotate270Row(src: Image, dst: Image, y: int)
    requires src.Valid() && dst.Valid() && src.pix != dst.pix
    requires dst.pix.Length0 == src.pix.Length1 && dst.pix.Length1 == src.pix.Length0 && 0 <= y < src.pix.Length0
    modifies dst.pix
    ensures forall r, c :: 0 <= r < dst.pix.Length0 && 0 <= c < dst.pix.Length1 ==>
      dst.pix[r, c] == if c == y then src.pix[y, src.pix.Length1 - 1 - r] else old(dst.pix[r, c])
  {
    var sw := src.pix.Length1;
    for x := 0 to sw
      invariant forall r, c :: 0 <= r < dst.pix.Length0 && 0 <= c < dst.pix.Length1 ==>
        dst.pix[r, c] == if c == y && sw - 1 - r < x then src.pix[y, sw - 1 - r] else old(dst.pix[r, c])
    {
      dst.pix[sw - 1 - x, y] := src.At(src.bounds.minX + x, src.bounds.minY + y);
    }
  }

  /** The mode switch of the handler: 1, 2 and 3 rotate, anything else copies with the original bounds. */
  method RotateImage(src: Image, mode: int) returns (dst: Image)
    requires src.Valid()
    ensures dst.Valid()
    ensures var sw, sh := src.bounds.Dx(), src.bounds.Dy();
      && (mode == Rotate90CW ==> dst.bounds == Rect(0, 0, sh, sw) && dst.Rows() == Rot90(src.Rows(), sw, sh))
      && (mode == Rotate180 ==> dst.bounds == Rect(0, 0, sw, sh) && dst.Rows() == Rot180(src.Rows(), sw, sh))
      && (mode == Rotate270CW ==> dst.bounds == Rect(0, 0, sh, sw) && dst.Rows() == Rot270(src.Rows(), sw, sh))
      && (mode !in {Rotate90CW, Rotate180, Rotate270CW} ==> dst.bounds == src.bounds && dst.Rows() == src.Rows())
  {
    if mode == Rotate90CW {
      dst := Rotate90(src);
    } else if mode == Rotate180 {
      dst := Rotate180Image(src);
    } else if mode == Rotate270CW {
      dst := Rotate270(src);
    } else {
      dst := CopyImage(src);
    }
  }

  // ---- properties ----

  /** Rotating 90 degrees clockwise and then 270 restores the grid. */
  lemma Rot270AfterRot90(g: seq<seq<Pixel>>, w: int, h: int)
    requires Grid(g, w, h)
    ensures Rot270(Rot90(g, w, h), h, w) == g
  {
    var r := Rot270(Rot90(g, w, h), h, w);
    forall j | 0 <= j < h
      ensures r[j] == g[j]
    {
      forall i | 0 <= i < w
        ensures r[j][i] == g[j][i]
      {
        assert r[j][i] == Rot90(g, w, h)[i][h - 1 - j];
      }
    }
  }

  /** Rotating 270 degrees clockwise and then 90 restores the grid. */
  lemma Rot90AfterRot270(g: seq<seq<Pixel>>, w: int, h: int)
    requires Grid(g, w, h)
    ensures Rot90(Rot270(g, w, h), h, w) == g
  {
    var r := Rot90(Rot270(g, w, h), h, w);
    forall j | 0 <= j < h
      ensures r[j] == g[j]
    {
      forall i | 0 <= i < w
        ensures r[j][i] == g[j][i]
      {
        assert r[j][i] == Rot270(g, w, h)[w - 1 - i][j];
      }
    }
  }

  /** Rotating 180 degrees twice restores the grid. */
  lemma Rot180Twice(g: seq<seq<Pixel>>, w: int, h: int)
    requires Grid(g, w, h)
    ensures Rot180(Rot180(g, w, h), w, h) == g
  {
    var r := Rot180(Rot180(g, w, h), w, h);
    forall j | 0 <= j < h
      ensures r[j] == g[j]
    {
      forall i | 0 <= i < w
        ensures r[j][i] == g[j][i]
      {
        assert r[j][i] == Rot180(g, w, h)[h - 1 - j][w - 1 - i];
      }
    }
  }

  /** Two quarter turns clockwise are a half turn. */
  lemma Rot90Twice(g: seq<seq<Pixel>>, w: int, h: int)
    requires Grid(g, w, h)
    ensures Rot90(Rot90(g, w, h), h, w) == Rot180(g, w, h)
  {
    var r, s := Rot90(Rot90(g, w, h), h, w), Rot180(g, w, h);
    forall j | 0 <= j < h
      ensures r[j] == s[j]
    {
      forall i | 0 <= i < w
        ensures r[j][i] == s[j][i]
      {
        assert r[j][i] == Rot90(g, w, h)[w - 1 - i][j];
      }
    }
  }
}
