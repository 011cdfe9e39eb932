/** The small integer helpers that rotate.go, crop.go and border.go each define. */
module IntUtil {

  /** `clamp(v, lo, hi)`: the lower bound is tested first, so when hi < lo the result is lo for v < lo and hi otherwise. */
  function Clamp(v: int, lo: int, hi: int): (r: int)
    ensures v < lo ==> r == lo
    ensures lo <= v <= hi ==> r == v
    ensures lo <= v && hi < v ==> r == hi
    ensures lo <= hi ==> lo <= r <= hi
  {
    if v < lo then lo else if v > hi then hi else v
  }

  function Min(a: int, b: int): (r: int)
    ensures r <= a && r <= b && (r == a || r == b)
  {
    if a < b then a else b
  }

  function Max(a: int, b: int): (r: int)
    ensures r >= a && r >= b && (r == a || r == b)
  {
    if a > b then a else b
  }

  /** The JPEG quality used by rotate and border, `clamp(q, 1, 100)`. */
  function Quality(q: int): (r: int)
    ensures 1 <= r <= 100
    ensures 1 <= q <= 100 ==> r == q
    ensures q < 1 ==> r == 1
    ensures q > 100 ==> r == 100
  {
    Clamp(q, 1, 100)
  }

  /** The JPEG quality used by crop, `max(1, min(100, q))`: the same value as rotate's and border's. */
  function CropQuality(q: int): (r: int)
    ensures r == Quality(q)
  {
    Max(1, Min(100, q))
  }
}
