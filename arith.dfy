/** Integer helpers shared by the rasterizers: C's truncating division and
    the min/max ordering that the swap macro performs on two locals. */
module Arith {

  function Abs(a: int): (r: int)
    ensures r >= 0 && (r == a || r == -a)
  {
    if a < 0 then -a else a
  }

  function Min(a: int, b: int): (r: int)
    ensures r <= a && r <= b && (r == a || r == b)
  {
    if a <= b then a else b
  }

  function Max(a: int, b: int): (r: int)
    ensures r >= a && r >= b && (r == a || r == b)
  {
    if a <= b then b else a
  }

  /** Integer division as C performs it: the quotient is rounded toward zero,
      so the remainder `a - q * b` takes the sign of the dividend and is
      smaller than the divisor in magnitude. Dafny's own `/` is Euclidean
      and differs whenever the dividend is negative. */
  function TruncDiv(a: int, b: int): (q: int)
    requires b != 0
    ensures a >= 0 ==> 0 <= a - q * b < Abs(b)
    ensures a < 0 ==> -Abs(b) < a - q * b <= 0
  {
    if a >= 0 then
      (if b > 0 then a / b else -(a / -b))
    else
      (if b > 0 then -((-a) / b) else (-a) / (-b))
  }

  /** The remainder conditions of TruncDiv's contract determine the quotient. */
  lemma TruncDivUnique(a: int, b: int, q: int)
    requires b != 0
    requires a >= 0 ==> 0 <= a - q * b < Abs(b)
    requires a < 0 ==> -Abs(b) < a - q * b <= 0
    ensures q == TruncDiv(a, b)
  {
    var t := TruncDiv(a, b);
    if q != t {
      var d := q - t;
      var r1, r2 := a - t * b, a - q * b;
      assert d * b == q * b - t * b by { MulSub(q, t, b); }
      assert r1 - r2 == d * b;
      assert Abs(r1 - r2) < Abs(b);
      if d > 0 {
        MulMonotone(d, b);
      } else {
        MulMonotone(-d, b);
      }
    }
  }

  lemma MulSub(q: int, t: int, b: int)
    ensures (q - t) * b == q * b - t * b
  {
  }

  lemma MulMonotone(d: int, b: int)
    requires d >= 1
    ensures Abs(d * b) >= Abs(b)
  {
    if b >= 0 {
      assert d * b >= 1 * b;
    } else {
      assert d * b <= 1 * b;
    }
  }

  /** For a non-negative dividend and a positive divisor both divisions agree. */
  lemma TruncDivNonNegative(a: int, b: int)
    requires a >= 0 && b > 0
    ensures TruncDiv(a, b) == a / b
  {
  }

  /** With a negative dividend the two divisions part: -1 / 2 is 0 in C
      and -1 in Dafny. */
  lemma TruncDivDiffersFromEuclid()
    ensures TruncDiv(-1, 2) == 0 && -1 / 2 == -1
    ensures TruncDiv(-7, 2) == -3 && -7 / 2 == -4
  {
  }

  /** Truncation is symmetric in the signs of both operands. */
  lemma TruncDivNegate(a: int, b: int)
    requires b != 0
    ensures TruncDiv(-a, b) == -TruncDiv(a, b)
    ensures TruncDiv(a, -b) == -TruncDiv(a, b)
    ensures TruncDiv(-a, -b) == TruncDiv(a, b)
  {
  }

  /** An exact multiple divides back to its factor. */
  lemma TruncDivExact(a: int, b: int)
    requires b != 0
    ensures TruncDiv(a * b, b) == a
  {
    TruncDivUnique(a * b, b, a);
  }

  lemma TruncDivZero(b: int)
    requires b != 0
    ensures TruncDiv(0, b) == 0
  {
  }
}
