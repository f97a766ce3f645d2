/** Integer geometry shared by the crop strategies: the rectangle a crop keeps,
    the inclusive ranges `random.randint` draws from, the `max`/`min` clamp
    idiom, and how far a NumPy slice reaches along one axis. */
module Geometry {

  function Max(a: int, b: int): (r: int)
    ensures r >= a && r >= b
    ensures r == a || r == b
  {
    if a >= b then a else b
  }

  function Min(a: int, b: int): (r: int)
    ensures r <= a && r <= b
    ensures r == a || r == b
  {
    if a <= b then a else b
  }

  function Abs(a: int): (r: nat)
    ensures r == a || r == -a
  {
    if a < 0 then -a else a
  }

  /** `max(lo, min(hi, v))`. When the bounds are in order this is the point
      of `lo..hi` nearest to `v`; when they are not, it is `lo`. */
  function Clamp(v: int, lo: int, hi: int): (r: int)
    ensures lo <= hi ==> lo <= r <= hi
    ensures lo <= v <= hi ==> r == v
    ensures v < lo ==> r == lo
    ensures lo <= hi < v ==> r == hi
    ensures hi < lo ==> r == lo
  {
    Max(lo, Min(hi, v))
  }

  /** A crop rectangle in pixels: top-left corner `(x, y)` and size. */
  datatype Rect = Rect(x: int, y: int, width: int, height: int)

  /** The rectangle lies wholly inside an image `w` pixels wide and `h` high. */
  predicate Contained(r: Rect, w: int, h: int) {
    && 0 <= r.x && 0 <= r.width && r.x + r.width <= w
    && 0 <= r.y && 0 <= r.height && r.y + r.height <= h
  }

  /** The inclusive range `lo..hi` of a `random.randint(lo, hi)` call, which
      raises `ValueError` when the range is empty. */
  datatype Range = Range(lo: int, hi: int) {
    predicate NonEmpty() {
      lo <= hi
    }

    predicate Contains(v: int) {
      lo <= v <= hi
    }
  }

  /** How many positions `a[start:stop]` keeps along an axis of length `n`
      when both bounds are non-negative: NumPy clips each bound to `n` and an
      inverted slice is empty. */
  function SliceLength(n: nat, start: nat, stop: nat): (k: nat)
    ensures k <= n
    ensures start <= stop <= n ==> k == stop - start
    ensures n <= start || stop <= start ==> k == 0
  {
    var s := Min(start, n);
    var e := Min(stop, n);
    if e <= s then 0 else e - s
  }
}
