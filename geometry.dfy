/**
 * Points, splitting axes and bounding rectangles of the 2-D kd-tree.
 *
 * Coordinates are Java `int`s. The node comparators subtract two coordinates,
 * so the model bounds every coordinate to [-2^30, 2^30 - 1]: the difference of
 * two such values always fits in 32 bits and never wraps.
 */
module Geometry {

  const MinCoord: int := -0x4000_0000
  const MaxCoord: int := 0x3FFF_FFFF

  /** A point coordinate whose differences with any other coordinate fit in a Java int. */
  type Coord = c: int | MinCoord <= c <= MaxCoord

  /** True when `n` is representable as a Java (32-bit two's complement) int. */
  predicate IsInt32(n: int) {
    -0x8000_0000 <= n < 0x8000_0000
  }

  /**
   * The splitting axis at `depth`: x when `depth & 1 == 0`, y otherwise.
   * Dafny's `%` is Euclidean, so `depth % 2` is the low bit of the
   * two's complement representation for negative depths too.
   */
  predicate SplitsOnX(depth: int) {
    depth % 2 == 0
  }

  /** Two depths split on the same axis (`(d1 & 1) == (d2 & 1)`). */
  predicate SameAxis(d1: int, d2: int) {
    d1 % 2 == d2 % 2
  }

  /** The coordinate of point (x, y) on the splitting axis of `depth`. */
  function AxisCoord(depth: int, x: int, y: int): int {
    if SplitsOnX(depth) then x else y
  }

  lemma SameAxisCoord(d1: int, d2: int, x: int, y: int)
    requires SameAxis(d1, d2)
    ensures AxisCoord(d1, x, y) == AxisCoord(d2, x, y)
  {
  }

  /**
   * An axis-aligned rectangle given by its origin (x, y), width and height,
   * standing for the libgdx `Rectangle` (whose fields are floats there).
   */
  datatype Rect = Rect(x: int, y: int, width: int, height: int)

  /** The closed rectangle `r` holds point (px, py): the per-node test of the range search. */
  predicate InRect(r: Rect, px: int, py: int) {
    r.x <= px <= r.x + r.width && r.y <= py <= r.y + r.height
  }

  /** The closed intervals [lo1, hi1] and [lo2, hi2] have a point in common. */
  predicate IntervalsMeet(lo1: int, hi1: int, lo2: int, hi2: int) {
    lo1 <= hi1 && lo2 <= hi2 && lo1 <= hi2 && lo2 <= hi1
  }

  /** The closed rectangles `a` and `b` have a point in common. */
  predicate SharePoint(a: Rect, b: Rect) {
    IntervalsMeet(a.x, a.x + a.width, b.x, b.x + b.width) &&
    IntervalsMeet(a.y, a.y + a.height, b.y, b.y + b.height)
  }

  /** Every edge of `inner` lies within the closed `outer`. */
  predicate Encloses(outer: Rect, inner: Rect) {
    outer.x <= inner.x && inner.x + inner.width <= outer.x + outer.width &&
    outer.y <= inner.y && inner.y + inner.height <= outer.y + outer.height
  }

  lemma CommonPointMeets(a: Rect, b: Rect, px: int, py: int)
    requires InRect(a, px, py) && InRect(b, px, py)
    ensures SharePoint(a, b)
  {
  }

  lemma EnclosedPoint(outer: Rect, inner: Rect, px: int, py: int)
    requires Encloses(outer, inner) && InRect(inner, px, py)
    ensures InRect(outer, px, py)
  {
  }

  /**
   * `trimLeft`: the bound of the right half below a node at depth `depth` and
   * point (px, py). The lower edge on the node's axis moves to the node's
   * coordinate; the upper edge and the other axis stay as they were.
   */
  function TrimLeft(depth: int, px: int, py: int, rect: Rect): (r: Rect)
    ensures SplitsOnX(depth) ==>
      r.x == px && r.x + r.width == rect.x + rect.width && r.y == rect.y && r.height == rect.height
    ensures !SplitsOnX(depth) ==>
      r.y == py && r.y + r.height == rect.y + rect.height && r.x == rect.x && r.width == rect.width
  {
    if SplitsOnX(depth) then
      rect.(width := rect.width - (px - rect.x), x := px)
    else
      rect.(height := rect.height - (py - rect.y), y := py)
  }

  /**
   * `trimRight`: the bound of the left half below a node at depth `depth` and
   * point (px, py). The upper edge on the node's axis moves to the node's
   * coordinate; the lower edge and the other axis stay as they were.
   */
  function TrimRight(depth: int, px: int, py: int, rect: Rect): (r: Rect)
    ensures SplitsOnX(depth) ==>
      r.x == rect.x && r.x + r.width == px && r.y == rect.y && r.height == rect.height
    ensures !SplitsOnX(depth) ==>
      r.y == rect.y && r.y + r.height == py && r.x == rect.x && r.width == rect.width
  {
    if SplitsOnX(depth) then
      rect.(width := px - rect.x)
    else
      rect.(height := py - rect.y)
  }

  /** A point of `rect` on the upper side of the node's coordinate stays in the trimmed-left bound. */
  lemma TrimLeftKeeps(depth: int, px: int, py: int, rect: Rect, qx: int, qy: int)
    requires InRect(rect, qx, qy)
    requires AxisCoord(depth, px, py) <= AxisCoord(depth, qx, qy)
    ensures InRect(TrimLeft(depth, px, py, rect), qx, qy)
  {
  }

  /** A point of `rect` on the lower side of (or at) the node's coordinate stays in the trimmed-right bound. */
  lemma TrimRightKeeps(depth: int, px: int, py: int, rect: Rect, qx: int, qy: int)
    requires InRect(rect, qx, qy)
    requires AxisCoord(depth, qx, qy) <= AxisCoord(depth, px, py)
    ensures InRect(TrimRight(depth, px, py, rect), qx, qy)
  {
  }
}
