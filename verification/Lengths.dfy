/** Positions and lengths in a text: a byte count paired with a (row, column) extent.
    Models length.h and point.h; counts are unbounded, so sums are assumed to fit in 32 bits. */
module Lengths {

  datatype Point = Point(row: nat, column: nat)

  datatype Length = Length(bytes: nat, extent: Point)

  const ZERO := Length(0, Point(0, 0))

  function PointAdd(a: Point, b: Point): Point {
    if b.row > 0 then Point(a.row + b.row, b.column)
    else Point(a.row, a.column + b.column)
  }

  function PointSub(a: Point, b: Point): Point {
    if a.row > b.row then Point(a.row - b.row, a.column)
    else Point(0, if a.column >= b.column then a.column - b.column else 0)
  }

  predicate PointLte(a: Point, b: Point) {
    a.row < b.row || (a.row == b.row && a.column <= b.column)
  }

  function Add(a: Length, b: Length): Length {
    Length(a.bytes + b.bytes, PointAdd(a.extent, b.extent))
  }

  function Sub(a: Length, b: Length): Length {
    Length(if a.bytes >= b.bytes then a.bytes - b.bytes else 0, PointSub(a.extent, b.extent))
  }

  function SaturatingSub(a: Length, b: Length): Length {
    if a.bytes > b.bytes then Sub(a, b) else ZERO
  }

  /** Lengths form a monoid: a tree's total does not depend on how its parts are grouped. */
  lemma AddIsMonoid(a: Length, b: Length, c: Length)
    ensures Add(Add(a, b), c) == Add(a, Add(b, c))
    ensures Add(ZERO, a) == a == Add(a, ZERO)
  {
  }

  /** Subtracting a prefix gives back the suffix, whatever the two lengths are. */
  lemma SubCancelsPrefix(a: Length, b: Length)
    ensures Sub(Add(a, b), a) == b
  {
  }

  /** `Sub(a, b)` is the distance from `b` to `a` exactly when `b` does not lie after `a`;
      otherwise the saturation loses the original position. */
  lemma SubIsDistanceIff(a: Length, b: Length)
    ensures Add(b, Sub(a, b)) == a <==> b.bytes <= a.bytes && PointLte(b.extent, a.extent)
  {
  }

  /** Truncated subtraction on byte counts. */
  function Monus(a: nat, b: nat): nat {
    if a > b then a - b else 0
  }
}
