/** The pixel-buffer convention: a row-major sequence of packed 32-bit
    colours, `width` columns by `height` rows, pixel (x, y) at index
    y * width + x. */
module Canvas {
  import opened Shapes

  type Color = bv32

  predicate InBounds(x: int, y: int, width: nat, height: nat)
  {
    0 <= x < width && 0 <= y < height
  }

  function Idx(x: int, y: int, width: nat): int
  {
    y * width + x
  }

  /** Every in-bounds grid point has an index inside the buffer, and the
      index gives the point back by division and remainder. */
  lemma IdxInBuffer(x: int, y: int, width: nat, height: nat)
    requires InBounds(x, y, width, height)
    ensures 0 <= Idx(x, y, width) < width * height
    ensures Idx(x, y, width) / width == y && Idx(x, y, width) % width == x
  {
    assert y * width <= (height - 1) * width by { MulLe(y, height - 1, width); }
    assert (height - 1) * width == height * width - width;
    DivModUnique(Idx(x, y, width), width, y, x);
  }

  /** Every buffer index is the index of the in-bounds point its quotient
      and remainder name. */
  lemma IndexIsPoint(k: int, width: nat, height: nat)
    requires 0 <= k < width * height
    ensures width > 0
    ensures InBounds(k % width, k / width, width, height)
    ensures Idx(k % width, k / width, width) == k
  {
    var y := k / width;
    if y >= height {
      MulLe(height, y, width);
      assert false;
    }
  }

  /** IdxInBuffer for every in-bounds point at once. */
  lemma PointsInBuffer(width: nat, height: nat)
    ensures forall x, y :: InBounds(x, y, width, height) ==> 0 <= Idx(x, y, width) < width * height
  {
    forall x, y | InBounds(x, y, width, height)
      ensures 0 <= Idx(x, y, width) < width * height
    {
      IdxInBuffer(x, y, width, height);
    }
  }

  /** Two in-bounds points share an index only if they are the same point. */
  lemma IdxInjective(x: int, y: int, width: nat, height: nat)
    requires InBounds(x, y, width, height)
    ensures forall px, py ::
      InBounds(px, py, width, height) && Idx(px, py, width) == Idx(x, y, width) ==> px == x && py == y
  {
    IdxInBuffer(x, y, width, height);
    forall px, py | InBounds(px, py, width, height) && Idx(px, py, width) == Idx(x, y, width)
      ensures px == x && py == y
    {
      IdxInBuffer(px, py, width, height);
    }
  }

  lemma MulLe(a: int, b: int, c: nat)
    requires a <= b
    ensures a * c <= b * c
  {
  }

  lemma DivModUnique(k: int, d: int, q: int, r: int)
    requires d > 0 && 0 <= r < d && k == q * d + r
    ensures k / d == q && k % d == r
  {
    var q', r' := k / d, k % d;
    if q' > q {
      MulLe(q + 1, q', d);
      assert false;
    } else if q' < q {
      MulLe(q' + 1, q, d);
      assert false;
    }
  }

  /** The buffer obtained by drawing `shape` in `color` over `s`: every
      pixel the shape covers takes the colour, every other keeps its value. */
  function Paint(s: seq<Color>, width: nat, height: nat, shape: Shape, color: Color): (r: seq<Color>)
    requires |s| == width * height
    ensures |r| == |s|
    ensures forall k :: 0 <= k < |s| ==> r[k] == color || r[k] == s[k]
  {
    seq(|s|, k requires 0 <= k < |s| =>
      IndexIsPoint(k, width, height);
      if shape.Covers(k % width, k / width) then color else s[k])
  }

  /** A buffer that agrees with painting `shape` over `base` at every
      in-bounds point is that painting. */
  lemma PaintFromPoints(cur: seq<Color>, base: seq<Color>, width: nat, height: nat, shape: Shape, color: Color)
    requires |cur| == |base| == width * height
    requires forall x, y :: InBounds(x, y, width, height) ==>
      0 <= Idx(x, y, width) < |cur| &&
      cur[Idx(x, y, width)] == if shape.Covers(x, y) then color else base[Idx(x, y, width)]
    ensures cur == Paint(base, width, height, shape, color)
  {
    var p := Paint(base, width, height, shape, color);
    forall k | 0 <= k < |cur|
      ensures cur[k] == p[k]
    {
      IndexIsPoint(k, width, height);
    }
  }

  /** Pixel (x, y) after painting is the colour exactly when the shape
      covers it; otherwise it is what it was. */
  lemma PaintAt(s: seq<Color>, width: nat, height: nat, shape: Shape, color: Color, x: int, y: int)
    requires |s| == width * height
    requires InBounds(x, y, width, height)
    ensures 0 <= Idx(x, y, width) < |s|
    ensures Paint(s, width, height, shape, color)[Idx(x, y, width)]
         == if shape.Covers(x, y) then color else s[Idx(x, y, width)]
  {
    IdxInBuffer(x, y, width, height);
  }

  /** Drawing the same shape twice in the same colour is the same as once. */
  lemma PaintIdempotent(s: seq<Color>, width: nat, height: nat, shape: Shape, color: Color)
    requires |s| == width * height
    ensures Paint(Paint(s, width, height, shape, color), width, height, shape, color)
         == Paint(s, width, height, shape, color)
  {
  }

  /** Filling everything makes the buffer uniform, whatever it held. */
  lemma PaintEverything(s: seq<Color>, width: nat, height: nat, color: Color)
    requires |s| == width * height
    ensures forall k :: 0 <= k < |s| ==> Paint(s, width, height, Everything, color)[k] == color
  {
  }
}
