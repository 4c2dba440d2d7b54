/** The primitives the rasterizer draws and, for each, the exact set of
    grid points it covers. The coverage rules are the scan-conversion
    formulas of the drawing loops, written as predicates on one point. */
module Shapes {
  import opened Arith

  datatype Point = Point(x: int, y: int)

  /** The three-comparator sorting network of the triangle rasterizer:
      compare-and-swap the pairs (1,2), (2,3), (1,2), where a pair is
      swapped only when the first y is strictly greater. */
  function SortByY(p1: Point, p2: Point, p3: Point): (r: (Point, Point, Point))
    ensures r.0.y <= r.1.y <= r.2.y
    ensures multiset{r.0, r.1, r.2} == multiset{p1, p2, p3}
  {
    var swap12 := p1.y > p2.y;
    var a, b := if swap12 then p2 else p1, if swap12 then p1 else p2;
    var swap23 := b.y > p3.y;
    var b', c := if swap23 then p3 else b, if swap23 then b else p3;
    var swap12' := a.y > b'.y;
    (if swap12' then b' else a, if swap12' then a else b', c)
  }

  /** Row sampled by the general line rule at column `x`: the line through
      (x1, y1) with slope dy/dx, where both the offset `c` and the sample use
      truncating division. The offset comes from the endpoints as given,
      before the loop bounds are ordered. */
  function LineSample(x1: int, y1: int, x2: int, y2: int, x: int): (r: int)
    requires x1 != x2
    ensures x == x1 ==> r == y1
  {
    var dx, dy := x2 - x1, y2 - y1;
    var c := y1 - TruncDiv(dy * x1, dx);
    TruncDiv(dy * x, dx) + c
  }

  /** Column at row `y` of the triangle edge that starts at (xRef, yRef) and
      moves dxE columns per dyE rows; a horizontal edge (dyE == 0) stays at
      xRef. */
  function EdgeX(y: int, xRef: int, yRef: int, dxE: int, dyE: int): (r: int)
    ensures y == yRef ==> r == xRef
  {
    if dyE != 0 then
      TruncDivZero(dyE);
      TruncDiv((y - yRef) * dxE, dyE) + xRef
    else xRef
  }

  /** The span of the upper pass of the triangle fill at row `y`, for
      vertices already sorted by y: edges p1-p2 and p1-p3. */
  predicate InUpperHalf(p1: Point, p2: Point, p3: Point, x: int, y: int)
  {
    var s1 := EdgeX(y, p1.x, p1.y, p2.x - p1.x, p2.y - p1.y);
    var s2 := EdgeX(y, p1.x, p1.y, p3.x - p1.x, p3.y - p1.y);
    p1.y <= y <= p2.y && Min(s1, s2) <= x <= Max(s1, s2)
  }

  /** The span of the lower pass at row `y`: edges p3-p2 and p3-p1, both
      interpolated from the bottom vertex p3. */
  predicate InLowerHalf(p1: Point, p2: Point, p3: Point, x: int, y: int)
  {
    var s1 := EdgeX(y, p3.x, p3.y, p3.x - p2.x, p3.y - p2.y);
    var s2 := EdgeX(y, p3.x, p3.y, p3.x - p1.x, p3.y - p1.y);
    p2.y <= y <= p3.y && Min(s1, s2) <= x <= Max(s1, s2)
  }

  datatype Shape =
    | Everything
    | Rect(x0: int, y0: int, w: nat, h: nat)
    | Disk(cx: int, cy: int, r: int)
    | Segment(x1: int, y1: int, x2: int, y2: int)
    | Triangle(a: Point, b: Point, c: Point)
  {
    /** Whether the drawing routine for this shape writes grid point (x, y),
        before clipping against the buffer. */
    predicate Covers(x: int, y: int)
    {
      match this
      case Everything => true
      case Rect(x0, y0, w, h) =>
        x0 <= x < x0 + w && y0 <= y < y0 + h
      case Disk(cx, cy, r) =>
        cx - r <= x <= cx + r && cy - r <= y <= cy + r &&
        (x - cx) * (x - cx) + (y - cy) * (y - cy) <= r * r
      case Segment(x1, y1, x2, y2) =>
        if x1 != x2 then
          var s1 := LineSample(x1, y1, x2, y2, x);
          var s2 := LineSample(x1, y1, x2, y2, x + 1);
          Min(x1, x2) <= x < Max(x1, x2) && Min(s1, s2) <= y <= Max(s1, s2)
        else
          x == x1 && Min(y1, y2) <= y <= Max(y1, y2)
      case Triangle(a, b, c) =>
        var (p1, p2, p3) := SortByY(a, b, c);
        InUpperHalf(p1, p2, p3, x, y) || InLowerHalf(p1, p2, p3, x, y)
    }
  }
}
