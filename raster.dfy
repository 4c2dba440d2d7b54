/** The drawing routines. Each one walks its shape's candidate points in the
    order the C loops do, clips every point against the buffer and
    writes the colour in place; each is proved to leave exactly
    `Paint(old buffer, shape)` behind. */
module Raster {
  import opened Arith
  import opened Shapes
  import opened Canvas

  /** Overwrites the whole buffer with one colour. */
  method Fill(pixels: array<Color>, width: nat, height: nat, color: Color)
    requires pixels.Length == width * height
    modifies pixels
    ensures pixels[..] == Paint(old(pixels[..]), width, height, Everything, color)
  {
    PointsInBuffer(width, height);
    var i := 0;
    while i < width * height
      invariant 0 <= i <= width * height
      invariant forall k :: 0 <= k < i ==> pixels[k] == color
    {
      pixels[i] := color;
      i := i + 1;
    }
  }

  /** Fills the w-by-h rectangle with top-left corner (x0, y0), skipping
      every point outside the buffer. */
  method FillRect(pixels: array<Color>, width: nat, height: nat,
                  x0: int, y0: int, w: nat, h: nat, color: Color)
    requires pixels.Length == width * height
    modifies pixels
    ensures pixels[..] == Paint(old(pixels[..]), width, height, Rect(x0, y0, w, h), color)
  {
    PointsInBuffer(width, height);
    ghost var before := pixels[..];
    var dy := 0;
    while dy < h
      invariant 0 <= dy <= h
      invariant forall px, py :: InBounds(px, py, width, height) ==>
        pixels[Idx(px, py, width)] == if Rect(x0, y0, w, dy).Covers(px, py) then color else before[Idx(px, py, width)]
    {
      var y := y0 + dy;
      if 0 <= y < height {
        var dx := 0;
        while dx < w
          invariant 0 <= dx <= w
          invariant forall px, py :: InBounds(px, py, width, height) ==>
            pixels[Idx(px, py, width)] == if Rect(x0, y0, w, dy).Covers(px, py)
                            || Rect(x0, y, dx, 1).Covers(px, py)
                         then color else before[Idx(px, py, width)]
        {
          var x := x0 + dx;
          if 0 <= x < width {
            IdxInjective(x, y, width, height);
            pixels[Idx(x, y, width)] := color;
          }
          dx := dx + 1;
        }
      }
      dy := dy + 1;
    }
    PaintFromPoints(pixels[..], before, width, height, Rect(x0, y0, w, h), color);
  }

  /** Fills the disk of radius r around (cx, cy): every point of the
      bounding square whose squared distance to the centre is at most r*r. */
  method FillCircle(pixels: array<Color>, width: nat, height: nat,
                    cx: int, cy: int, r: int, color: Color)
    requires pixels.Length == width * height
    modifies pixels
    ensures pixels[..] == Paint(old(pixels[..]), width, height, Disk(cx, cy, r), color)
  {
    PointsInBuffer(width, height);
    ghost var before := pixels[..];
    var x1 := cx - r;
    var y1 := cy - r;
    var x2 := cx + r;
    var y2 := cy + r;
    var y := y1;
    while y <= y2
      invariant y == y1 || y1 <= y <= y2 + 1
      invariant forall px, py :: InBounds(px, py, width, height) ==>
        pixels[Idx(px, py, width)] == if Disk(cx, cy, r).Covers(px, py) && py < y
                     then color else before[Idx(px, py, width)]
    {
      if 0 <= y < height {
        var x := x1;
        while x <= x2
          invariant x == x1 || x1 <= x <= x2 + 1
          invariant forall px, py :: InBounds(px, py, width, height) ==>
            pixels[Idx(px, py, width)] == if Disk(cx, cy, r).Covers(px, py)
                            && (py < y || (py == y && px < x))
                         then color else before[Idx(px, py, width)]
        {
          if 0 <= x < width {
            var dx := x - cx;
            var dy := y - cy;
            if dx * dx + dy * dy <= r * r {
              IdxInjective(x, y, width, height);
              pixels[Idx(x, y, width)] := color;
            }
          }
          x := x + 1;
        }
      }
      y := y + 1;
    }
    PaintFromPoints(pixels[..], before, width, height, Disk(cx, cy, r), color);
  }

  /** The inner loop shared by both branches of DrawLine: writes column x
      from row ya to row yb inclusive, skipping rows outside the buffer. */
  method FillColumn(pixels: array<Color>, width: nat, height: nat,
                    x: int, ya: int, yb: int, color: Color)
    requires pixels.Length == width * height
    requires 0 <= x < width
    modifies pixels
    ensures forall px, py :: InBounds(px, py, width, height) ==>
      0 <= Idx(px, py, width) < pixels.Length &&
      pixels[Idx(px, py, width)] ==
        if px == x && ya <= py <= yb then color else old(pixels[Idx(px, py, width)])
  {
    PointsInBuffer(width, height);
    var y := ya;
    while y <= yb
      invariant y == ya || ya <= y <= yb + 1
      invariant forall px, py :: InBounds(px, py, width, height) ==>
        pixels[Idx(px, py, width)] ==
          if px == x && ya <= py < y then color else old(pixels[Idx(px, py, width)])
    {
      if 0 <= y < height {
        IdxInjective(x, y, width, height);
        pixels[Idx(x, y, width)] := color;
      }
      y := y + 1;
    }
  }

  /** Draws the segment from (x1, y1) to (x2, y2). A vertical segment is one
      inclusive column; any other is walked column by column over
      [min(x1, x2), max(x1, x2)), filling in each column the inclusive run
      of rows between the line's samples at x and x + 1. */
  method DrawLine(pixels: array<Color>, width: nat, height: nat,
                  x1: int, y1: int, x2: int, y2: int, color: Color)
    requires pixels.Length == width * height
    modifies pixels
    ensures pixels[..] == Paint(old(pixels[..]), width, height, Segment(x1, y1, x2, y2), color)
  {
    PointsInBuffer(width, height);
    ghost var before := pixels[..];
    ghost var line := Segment(x1, y1, x2, y2);
    var dx := x2 - x1;
    var dy := y2 - y1;
    if dx != 0 {
      var c := y1 - TruncDiv(dy * x1, dx);
      var xa, xb := x1, x2;
      if xa > xb {
        xa, xb := xb, xa;
      }
      var x := xa;
      while x < xb
        invariant xa <= x <= xb
        invariant forall px, py :: InBounds(px, py, width, height) ==>
          pixels[Idx(px, py, width)] ==
            if line.Covers(px, py) && px < x then color else before[Idx(px, py, width)]
      {
        if 0 <= x < width {
          var sy1 := TruncDiv(dy * x, dx) + c;
          var sy2 := TruncDiv(dy * (x + 1), dx) + c;
          assert sy1 == LineSample(x1, y1, x2, y2, x) && sy2 == LineSample(x1, y1, x2, y2, x + 1);
          if sy1 > sy2 {
            sy1, sy2 := sy2, sy1;
          }
          FillColumn(pixels, width, height, x, sy1, sy2, color);
        }
        x := x + 1;
      }
    } else {
      var x := x1;
      if 0 <= x < width {
        var ya, yb := y1, y2;
        if ya > yb {
          ya, yb := yb, ya;
        }
        FillColumn(pixels, width, height, x, ya, yb, color);
      }
    }
    PaintFromPoints(pixels[..], before, width, height, Segment(x1, y1, x2, y2), color);
  }

  /** The inner loop shared by both passes of FillTriangle: writes row y
      from column xa to column xb inclusive, skipping columns outside the
      buffer. */
  method FillRow(pixels: array<Color>, width: nat, height: nat,
                 y: int, xa: int, xb: int, color: Color)
    requires pixels.Length == width * height
    requires 0 <= y < height
    modifies pixels
    ensures forall px, py :: InBounds(px, py, width, height) ==>
      0 <= Idx(px, py, width) < pixels.Length &&
      pixels[Idx(px, py, width)] ==
        if py == y && xa <= px <= xb then color else old(pixels[Idx(px, py, width)])
  {
    PointsInBuffer(width, height);
    var x := xa;
    while x <= xb
      invariant x == xa || xa <= x <= xb + 1
      invariant forall px, py :: InBounds(px, py, width, height) ==>
        pixels[Idx(px, py, width)] ==
          if py == y && xa <= px < x then color else old(pixels[Idx(px, py, width)])
    {
      if 0 <= x < width {
        IdxInjective(x, y, width, height);
        pixels[Idx(x, y, width)] := color;
      }
      x := x + 1;
    }
  }

  /** Fills the triangle with vertices (x1, y1), (x2, y2), (x3, y3): the
      vertices are sorted by y into p1, p2, p3, then the rows from p1 to p2
      are filled between edges p1-p2 and p1-p3, and the rows from p2 to p3
      between edges p3-p2 and p3-p1. The middle row belongs to both passes. */
  method FillTriangle(pixels: array<Color>, width: nat, height: nat,
                      x1: int, y1: int, x2: int, y2: int, x3: int, y3: int, color: Color)
    requires pixels.Length == width * height
    modifies pixels
    ensures pixels[..] == Paint(old(pixels[..]), width, height,
                                Triangle(Point(x1, y1), Point(x2, y2), Point(x3, y3)), color)
  {
    PointsInBuffer(width, height);
    ghost var before := pixels[..];
    var (p1, p2, p3) := SortByY(Point(x1, y1), Point(x2, y2), Point(x3, y3));

    var dx12 := p2.x - p1.x;
    var dy12 := p2.y - p1.y;
    var dx13 := p3.x - p1.x;
    var dy13 := p3.y - p1.y;
    var y := p1.y;
    while y <= p2.y
      invariant p1.y <= y <= p2.y + 1
      invariant forall px, py :: InBounds(px, py, width, height) ==>
        pixels[Idx(px, py, width)] ==
          if InUpperHalf(p1, p2, p3, px, py) && py < y then color else before[Idx(px, py, width)]
    {
      if 0 <= y < height {
        var s1 := if dy12 != 0 then TruncDiv((y - p1.y) * dx12, dy12) + p1.x else p1.x;
        var s2 := if dy13 != 0 then TruncDiv((y - p1.y) * dx13, dy13) + p1.x else p1.x;
        assert s1 == EdgeX(y, p1.x, p1.y, dx12, dy12) && s2 == EdgeX(y, p1.x, p1.y, dx13, dy13);
        if s1 > s2 {
          s1, s2 := s2, s1;
        }
        FillRow(pixels, width, height, y, s1, s2, color);
      }
      y := y + 1;
    }

    ghost var upper := pixels[..];
    var dx32 := p3.x - p2.x;
    var dy32 := p3.y - p2.y;
    var dx31 := p3.x - p1.x;
    var dy31 := p3.y - p1.y;
    y := p2.y;
    while y <= p3.y
      invariant p2.y <= y <= p3.y + 1
      invariant forall px, py :: InBounds(px, py, width, height) ==>
        pixels[Idx(px, py, width)] ==
          if InLowerHalf(p1, p2, p3, px, py) && py < y then color else upper[Idx(px, py, width)]
    {
      if 0 <= y < height {
        var s1 := if dy32 != 0 then TruncDiv((y - p3.y) * dx32, dy32) + p3.x else p3.x;
        var s2 := if dy31 != 0 then TruncDiv((y - p3.y) * dx31, dy31) + p3.x else p3.x;
        assert s1 == EdgeX(y, p3.x, p3.y, dx32, dy32) && s2 == EdgeX(y, p3.x, p3.y, dx31, dy31);
        if s1 > s2 {
          s1, s2 := s2, s1;
        }
        FillRow(pixels, width, height, y, s1, s2, color);
      }
      y := y + 1;
    }
    PaintFromPoints(pixels[..], before, width, height, Triangle(Point(x1, y1), Point(x2, y2), Point(x3, y3)), color);
  }
}
