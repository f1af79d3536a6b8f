/**
 * Points, sizes and regions of the tile grid. opentile/geometry.py is not part
 * of this model; the operations below are the componentwise integer
 * arithmetic its callers rely on.
 */
module Geometry {

  datatype Point = Point(x: int, y: int)

  datatype Size = Size(width: int, height: int) {
    function Area(): int { width * height }
  }

  /** A rectangle of tile positions: `start` and `size`. */
  datatype Region = Region(start: Point, size: Size)

  predicate Positive(s: Size)
  {
    s.width > 0 && s.height > 0
  }

  /** Python's `a // b`: the quotient rounded toward minus infinity. */
  function FloorDiv(a: int, b: int): (q: int)
    requires b != 0
    ensures b > 0 ==> q * b <= a < q * b + b
    ensures b < 0 ==> q * b >= a > q * b + b
  {
    if b > 0 then a / b else (-a) / (-b)
  }

  /** Python's `a % b`: the remainder, with the sign of `b`. */
  function FloorMod(a: int, b: int): (m: int)
    requires b != 0
    ensures a == FloorDiv(a, b) * b + m
    ensures b > 0 ==> 0 <= m < b
    ensures b < 0 ==> b < m <= 0
  {
    a - FloorDiv(a, b) * b
  }

  function Max(a: int, b: int): int { if a < b then b else a }

  function Min(a: int, b: int): int { if a < b then a else b }

  /** Componentwise maximum of two sizes. */
  function MaxSize(a: Size, b: Size): (r: Size)
    ensures r.width >= a.width && r.width >= b.width
    ensures r.height >= a.height && r.height >= b.height
    ensures (r.width == a.width || r.width == b.width) && (r.height == a.height || r.height == b.height)
  {
    Size(Max(a.width, b.width), Max(a.height, b.height))
  }

  /** `2 ** n`. */
  function Pow2(n: nat): (r: nat)
    ensures r >= 1
  {
    if n == 0 then 1 else 2 * Pow2(n - 1)
  }

  /** Ceiling division of positive integers, `math.ceil(a / b)`. */
  function CeilDiv(a: nat, b: nat): (r: nat)
    requires b > 0
    ensures (r - 1) * b < a <= r * b || (a == 0 && r == 0)
  {
    (a + b - 1) / b
  }

  /** `math.ceil(a / b)` on integers: the smallest integer at least the true quotient. */
  function CeilDivInt(a: int, b: int): (r: int)
    requires b != 0
    ensures b > 0 ==> (r - 1) * b < a <= r * b
  {
    -FloorDiv(-a, b)
  }

  /** The positions of a region, row by row (y outer, x inner). */
  function RegionPoints(r: Region): (ps: seq<Point>)
    requires r.size.width >= 0 && r.size.height >= 0
    ensures |ps| == r.size.width * r.size.height
  {
    var w, h := r.size.width, r.size.height;
    seq(w * h, i requires 0 <= i < w * h =>
      assert w != 0;
      Point(r.start.x + i % w, r.start.y + i / w))
  }
}
