/** What each drawing routine promises about the pixels it writes, stated
    on the coverage predicates and on Paint. */
module Coverage {
  import opened Arith
  import opened Shapes
  import opened Canvas

  // ---------------------------------------------------------------- rectangle

  /** After FillRect an in-bounds pixel holds the colour exactly when it lies
      in [x0, x0 + w) x [y0, y0 + h); every other pixel keeps its value. */
  lemma RectPixel(s: seq<Color>, width: nat, height: nat,
                  x0: int, y0: int, w: nat, h: nat, color: Color, x: int, y: int)
    requires |s| == width * height
    requires InBounds(x, y, width, height)
    ensures 0 <= Idx(x, y, width) < |s|
    ensures Paint(s, width, height, Rect(x0, y0, w, h), color)[Idx(x, y, width)]
         == if x0 <= x < x0 + w && y0 <= y < y0 + h then color else s[Idx(x, y, width)]
  {
    PaintAt(s, width, height, Rect(x0, y0, w, h), color, x, y);
  }

  /** A shape that covers no point of the buffer leaves it as it was. */
  lemma PaintNothing(s: seq<Color>, width: nat, height: nat, shape: Shape, color: Color)
    requires |s| == width * height
    requires forall x, y :: InBounds(x, y, width, height) ==> !shape.Covers(x, y)
    ensures Paint(s, width, height, shape, color) == s
  {
    forall k | 0 <= k < |s|
      ensures Paint(s, width, height, shape, color)[k] == s[k]
    {
      IndexIsPoint(k, width, height);
    }
  }

  // --------------------------------------------------------------------- disk

  lemma SquareBelow(a: int, r: int)
    requires r >= 0 && a * a <= r * r
    ensures -r <= a <= r
  {
  }

  /** For a non-negative radius the bounding-square test is redundant: the
      disk is exactly the points within squared distance r * r, boundary
      included. */
  lemma DiskIsDistanceTest(cx: int, cy: int, r: int, x: int, y: int)
    requires r >= 0
    ensures Disk(cx, cy, r).Covers(x, y) <==> (x - cx) * (x - cx) + (y - cy) * (y - cy) <= r * r
  {
    if (x - cx) * (x - cx) + (y - cy) * (y - cy) <= r * r {
      assert (x - cx) * (x - cx) <= r * r && (y - cy) * (y - cy) <= r * r;
      SquareBelow(x - cx, r);
      SquareBelow(y - cy, r);
    }
  }

  /** After FillCircle with r >= 0 an in-bounds pixel holds the colour
      exactly when its squared distance to the centre is at most r * r. */
  lemma CirclePixel(s: seq<Color>, width: nat, height: nat,
                    cx: int, cy: int, r: int, color: Color, x: int, y: int)
    requires |s| == width * height
    requires InBounds(x, y, width, height)
    requires r >= 0
    ensures 0 <= Idx(x, y, width) < |s|
    ensures Paint(s, width, height, Disk(cx, cy, r), color)[Idx(x, y, width)]
         == if (x - cx) * (x - cx) + (y - cy) * (y - cy) <= r * r then color else s[Idx(x, y, width)]
  {
    PaintAt(s, width, height, Disk(cx, cy, r), color, x, y);
    DiskIsDistanceTest(cx, cy, r, x, y);
  }

  /** Radius 0 covers the centre and nothing else. */
  lemma DiskRadiusZero(cx: int, cy: int, x: int, y: int)
    ensures Disk(cx, cy, 0).Covers(x, y) <==> x == cx && y == cy
  {
  }

  /** A negative radius makes both loop ranges empty: FillCircle writes
      nothing. */
  lemma DiskNegativeRadius(s: seq<Color>, width: nat, height: nat,
                           cx: int, cy: int, r: int, color: Color)
    requires |s| == width * height
    requires r < 0
    ensures Paint(s, width, height, Disk(cx, cy, r), color) == s
  {
    PaintNothing(s, width, height, Disk(cx, cy, r), color);
  }

  /** The boundary is inclusive: around (10, 10) with radius 3 the point
      (13, 10) at squared distance 9 is covered, (14, 10) at 16 is not. */
  lemma DiskBoundaryExample()
    ensures Disk(10, 10, 3).Covers(13, 10)
    ensures !Disk(10, 10, 3).Covers(14, 10)
  {
  }

  // --------------------------------------------------------------------- line

  /** A non-vertical segment is drawn only in the columns
      [min(x1, x2), max(x1, x2)): the far column is never written, whatever
      the direction. */
  lemma LineColumns(x1: int, y1: int, x2: int, y2: int, x: int, y: int)
    requires x1 != x2
    ensures Segment(x1, y1, x2, y2).Covers(x, y) ==> Min(x1, x2) <= x < Max(x1, x2)
    ensures !Segment(x1, y1, x2, y2).Covers(Max(x1, x2), y)
  {
  }

  /** In a drawn column x the segment covers exactly the inclusive run of
      rows between the samples at x and x + 1. */
  lemma LineColumnRun(x1: int, y1: int, x2: int, y2: int, x: int, y: int)
    requires x1 != x2
    requires Min(x1, x2) <= x < Max(x1, x2)
    ensures Segment(x1, y1, x2, y2).Covers(x, y) <==>
      var dx, dy := x2 - x1, y2 - y1;
      var c := y1 - TruncDiv(dy * x1, dx);
      var sy1, sy2 := TruncDiv(dy * x, dx) + c, TruncDiv(dy * (x + 1), dx) + c;
      Min(sy1, sy2) <= y <= Max(sy1, sy2)
  {
  }

  /** The sample at the first endpoint's column is the first endpoint's row,
      so a segment drawn left to right starts at (x1, y1); drawn right to
      left, that column is the excluded far one. */
  lemma LineFirstEndpoint(x1: int, y1: int, x2: int, y2: int)
    requires x1 != x2
    ensures LineSample(x1, y1, x2, y2, x1) == y1
    ensures x1 < x2 ==> Segment(x1, y1, x2, y2).Covers(x1, y1)
    ensures x1 > x2 ==> !Segment(x1, y1, x2, y2).Covers(x1, y1)
  {
  }

  /** No gaps along x: neighbouring drawn columns share the row sampled at
      their common edge. */
  lemma LineConnected(x1: int, y1: int, x2: int, y2: int, x: int)
    requires x1 != x2
    requires Min(x1, x2) <= x && x + 1 < Max(x1, x2)
    ensures Segment(x1, y1, x2, y2).Covers(x, LineSample(x1, y1, x2, y2, x + 1))
    ensures Segment(x1, y1, x2, y2).Covers(x + 1, LineSample(x1, y1, x2, y2, x + 1))
  {
  }

  /** A horizontal segment is the half-open run of row y1. */
  lemma LineHorizontal(x1: int, y1: int, x2: int, y: int, x: int)
    requires x1 != x2
    ensures Segment(x1, y1, x2, y1).Covers(x, y) <==> y == y1 && Min(x1, x2) <= x < Max(x1, x2)
  {
    TruncDivZero(x2 - x1);
  }

  /** From (0, 0) to (4, 0) the columns 0 to 3 of row 0 are drawn, and not
      column 4. */
  lemma LineHorizontalExample(x: int, y: int)
    ensures Segment(0, 0, 4, 0).Covers(x, y) <==> y == 0 && 0 <= x < 4
  {
    LineHorizontal(0, 0, 4, y, x);
  }

  /** A vertical segment is the inclusive column between its endpoints;
      a single point when both endpoints coincide. */
  lemma LineVertical(x1: int, y1: int, y2: int, x: int, y: int)
    ensures Segment(x1, y1, x1, y2).Covers(x, y) <==> x == x1 && Min(y1, y2) <= y <= Max(y1, y2)
    ensures Segment(x1, y1, x1, y1).Covers(x, y) <==> x == x1 && y == y1
  {
  }

  lemma DivShift(a: int, b: int, d: int)
    requires a >= 0 && b >= 0 && d > 0
    ensures (a + b * d) / d == a / d + b
  {
    var q, r := a / d, a % d;
    assert a + b * d == (q + b) * d + r;
    DivModUnique(a + b * d, d, q + b, r);
  }

  /** With both columns non-negative and the segment running left to right,
      the sample at x2 is y2 and so the last drawn column reaches row y2.
      Upward segments are where truncation and floor part: there `dy*x` is
      negative, so each sample is the negated quotient of `-dy*x`. */
  lemma LineReachesFarRow(x1: int, y1: int, x2: int, y2: int)
    requires 0 <= x1 < x2
    ensures LineSample(x1, y1, x2, y2, x2) == y2
    ensures Segment(x1, y1, x2, y2).Covers(x2 - 1, y2)
  {
    var dx, dy := x2 - x1, y2 - y1;
    if dy >= 0 {
      assert dy * x2 == dy * x1 + dy * dx;
      DivShift(dy * x1, dy, dx);
      TruncDivNonNegative(dy * x1, dx);
      TruncDivNonNegative(dy * x2, dx);
    } else {
      var m := -dy;
      assert m * x2 == m * x1 + m * dx;
      assert dy * x1 == -(m * x1) && dy * x2 == -(m * x2);
      DivShift(m * x1, m, dx);
      TruncDivNonNegative(m * x1, dx);
      TruncDivNonNegative(m * x2, dx);
      TruncDivNegate(m * x1, dx);
      TruncDivNegate(m * x2, dx);
    }
  }

  /** With negative coordinates truncation moves the samples: the segment
      from (1, 0) to (-2, 1) is drawn in columns -2 to 0 of row 0 only, so
      neither endpoint and no point of row 1 is drawn. */
  lemma LineTruncationExample(x: int, y: int)
    ensures Segment(1, 0, -2, 1).Covers(x, y) <==> y == 0 && -2 <= x < 1
  {
    assert TruncDiv(1, -3) == 0;
    if -2 <= x < 1 {
      assert TruncDiv(x, -3) == 0 && TruncDiv(x + 1, -3) == 0;
    }
  }

  // ----------------------------------------------------------------- triangle

  /** The sorting network leaves already-sorted input (ties included) as it
      is. */
  lemma SortByYKeepsSorted(p1: Point, p2: Point, p3: Point)
    requires p1.y <= p2.y <= p3.y
    ensures SortByY(p1, p2, p3) == (p1, p2, p3)
  {
  }

  /** The top and bottom rows of the sorted vertices are the least and
      greatest y of the input. */
  lemma SortByYExtremes(a: Point, b: Point, c: Point)
    ensures SortByY(a, b, c).0.y == Min(a.y, Min(b.y, c.y))
    ensures SortByY(a, b, c).2.y == Max(a.y, Max(b.y, c.y))
  {
    var (p1, p2, p3) := SortByY(a, b, c);
    assert a in multiset{p1, p2, p3} && b in multiset{p1, p2, p3} && c in multiset{p1, p2, p3};
    assert p1 in multiset{a, b, c} && p3 in multiset{a, b, c};
  }

  /** A triangle is drawn only in the rows from its least to its greatest
      vertex y. */
  lemma TriangleRows(a: Point, b: Point, c: Point, x: int, y: int)
    requires Triangle(a, b, c).Covers(x, y)
    ensures Min(a.y, Min(b.y, c.y)) <= y <= Max(a.y, Max(b.y, c.y))
  {
    SortByYExtremes(a, b, c);
  }

  /** In a row of the upper pass the covered columns are the inclusive span
      between the edges p1-p2 and p1-p3; a horizontal edge stays at p1.x. */
  lemma UpperHalfRow(p1: Point, p2: Point, p3: Point, x: int, y: int)
    requires p1.y <= y <= p2.y
    ensures InUpperHalf(p1, p2, p3, x, y) <==>
      var s1 := if p2.y - p1.y != 0 then TruncDiv((y - p1.y) * (p2.x - p1.x), p2.y - p1.y) + p1.x else p1.x;
      var s2 := if p3.y - p1.y != 0 then TruncDiv((y - p1.y) * (p3.x - p1.x), p3.y - p1.y) + p1.x else p1.x;
      Min(s1, s2) <= x <= Max(s1, s2)
  {
  }

  /** In a row of the lower pass the covered columns are the inclusive span
      between the edges p3-p2 and p3-p1; a horizontal edge stays at p3.x. */
  lemma LowerHalfRow(p1: Point, p2: Point, p3: Point, x: int, y: int)
    requires p2.y <= y <= p3.y
    ensures InLowerHalf(p1, p2, p3, x, y) <==>
      var s1 := if p3.y - p2.y != 0 then TruncDiv((y - p3.y) * (p3.x - p2.x), p3.y - p2.y) + p3.x else p3.x;
      var s2 := if p3.y - p1.y != 0 then TruncDiv((y - p3.y) * (p3.x - p1.x), p3.y - p1.y) + p3.x else p3.x;
      Min(s1, s2) <= x <= Max(s1, s2)
  {
  }

  /** An edge sampled a whole edge height away, in either direction, is at
      the corresponding other end: the upper pass's edges run forward from
      p1, the lower pass's edges run backward from p3. */
  lemma EdgeAtFarEnd(xRef: int, yRef: int, dxE: int, dyE: int)
    requires dyE != 0
    ensures EdgeX(yRef + dyE, xRef, yRef, dxE, dyE) == xRef + dxE
    ensures EdgeX(yRef - dyE, xRef, yRef, dxE, dyE) == xRef - dxE
  {
    assert (yRef + dyE - yRef) * dxE == dxE * dyE;
    TruncDivExact(dxE, dyE);
    assert (yRef - dyE - yRef) * dxE == (-dxE) * dyE;
    TruncDivExact(-dxE, dyE);
  }

  /** Unless all three vertices share one row, every vertex is drawn. */
  lemma TriangleCoversVertices(a: Point, b: Point, c: Point)
    requires !(a.y == b.y == c.y)
    ensures Triangle(a, b, c).Covers(a.x, a.y)
    ensures Triangle(a, b, c).Covers(b.x, b.y)
    ensures Triangle(a, b, c).Covers(c.x, c.y)
  {
    var (p1, p2, p3) := SortByY(a, b, c);
    SortedVertices(p1, p2, p3);
    assert a in multiset{p1, p2, p3} && b in multiset{p1, p2, p3} && c in multiset{p1, p2, p3};
  }

  lemma SortedVertices(p1: Point, p2: Point, p3: Point)
    requires p1.y <= p2.y <= p3.y && p1.y < p3.y
    ensures InUpperHalf(p1, p2, p3, p1.x, p1.y)
    ensures InUpperHalf(p1, p2, p3, p2.x, p2.y) || InLowerHalf(p1, p2, p3, p2.x, p2.y)
    ensures InLowerHalf(p1, p2, p3, p3.x, p3.y)
  {
    if p2.y > p1.y {
      EdgeAtFarEnd(p1.x, p1.y, p2.x - p1.x, p2.y - p1.y);
    } else {
      EdgeAtFarEnd(p3.x, p3.y, p3.x - p2.x, p3.y - p2.y);
    }
  }

  /** When all three vertices share one row the network swaps nothing and
      only the first and the last vertex are drawn: the middle one is not,
      nor anything between them. */
  lemma FlatTriangle(a: Point, b: Point, c: Point, x: int, y: int)
    requires a.y == b.y == c.y
    ensures Triangle(a, b, c).Covers(x, y) <==> y == a.y && (x == a.x || x == c.x)
  {
    SortByYKeepsSorted(a, b, c);
  }
}
