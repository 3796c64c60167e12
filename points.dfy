/** Points of the plane (numpy arrays of two coordinates) over exact reals,
    and the square root `numpy.linalg.norm` relies on, taken as a parameter. */
module Points {
  import opened Arith

  datatype Point = Point(x: real, y: real)

  function Add(a: Point, b: Point): Point { Point(a.x + b.x, a.y + b.y) }

  function Sub(a: Point, b: Point): Point { Point(a.x - b.x, a.y - b.y) }

  function Neg(a: Point): Point { Point(-a.x, -a.y) }

  function Scale(k: real, a: Point): Point { Point(k * a.x, k * a.y) }

  /** Lexicographic order on (x, then y), as `lexsort` orders rows. */
  predicate LexLess(a: Point, b: Point)
  {
    a.x < b.x || (a.x == b.x && a.y < b.y)
  }

  function Sq(x: real): real { x * x }

  function Dot(a: Point, b: Point): real { Mul(a.x, b.x) + Mul(a.y, b.y) }

  /** The z component of the cross product a x b. */
  function Cross(a: Point, b: Point): real { Mul(a.x, b.y) - Mul(a.y, b.x) }

  /** Squared Euclidean norm. */
  function Norm2(a: Point): real { Sq(a.x) + Sq(a.y) }

  /** Squared Euclidean distance. */
  function Dist2(a: Point, b: Point): real { Norm2(Sub(a, b)) }

  lemma SquareNonNegative(x: real)
    ensures Sq(x) >= 0.0
  {
    if x != 0.0 { SquarePositive(x); }
  }

  lemma SquarePositive(x: real)
    requires x != 0.0
    ensures Sq(x) > 0.0
  {
    var a := if x < 0.0 then -x else x;
    assert Sq(x) == Mul(a, a);
    MulLt(0.0, a, a);
  }

  lemma MulLe(a: real, b: real, c: real)
    requires 0.0 <= c && a <= b
    ensures Mul(a, c) <= Mul(b, c)
  {
  }

  lemma MulLt(a: real, b: real, c: real)
    requires 0.0 < c && a < b
    ensures Mul(a, c) < Mul(b, c)
  {
  }

  /** Squaring is strictly increasing on the non-negative reals. */
  lemma SquareLess(a: real, b: real)
    requires 0.0 <= a < b
    ensures Sq(a) < Sq(b)
  {
    MulLe(a, b, a);
    MulLt(a, b, b);
    assert Mul(b, a) == Mul(a, b);
  }

  lemma Norm2NonNegative(a: Point)
    ensures Norm2(a) >= 0.0
  {
    SquareNonNegative(a.x);
    SquareNonNegative(a.y);
  }

  lemma Norm2Zero(a: Point)
    ensures Norm2(a) == 0.0 <==> a == Point(0.0, 0.0)
  {
    SquareNonNegative(a.x);
    SquareNonNegative(a.y);
    if a.x != 0.0 {
      SquarePositive(a.x);
    } else if a.y != 0.0 {
      SquarePositive(a.y);
    }
  }

  /** A positive squared distance separates the points. */
  lemma Dist2Positive(a: Point, b: Point)
    requires Dist2(a, b) > 0.0
    ensures a != b
  {
    if a == b {
      assert Sub(a, b) == Point(0.0, 0.0);
      Norm2Zero(Sub(a, b));
    }
  }

  lemma Dist2Translate(a: Point, b: Point, v: Point)
    ensures Dist2(Add(a, v), Add(b, v)) == Dist2(a, b)
  {
    assert Sub(Add(a, v), Add(b, v)) == Sub(a, b);
  }

  lemma Dist2Symmetric(a: Point, b: Point)
    ensures Dist2(a, b) == Dist2(b, a)
  {
    assert Sq(a.x - b.x) == Sq(b.x - a.x);
    assert Sq(a.y - b.y) == Sq(b.y - a.y);
  }

  /** A square root on the non-negative reals: the model's stand-in for
      `numpy.sqrt` and `numpy.linalg.norm`. */
  ghost predicate IsSqrt(sqrt: real -> real)
  {
    forall x: real :: 0.0 <= x ==> 0.0 <= sqrt(x) && Sq(sqrt(x)) == x
  }

  /** The root of a non-negative number is determined by being a non-negative
      square root of it. */
  lemma SqrtUnique(r: real, s: real)
    requires 0.0 <= r && 0.0 <= s && Sq(r) == Sq(s)
    ensures r == s
  {
    if r < s {
      SquareLess(r, s);
    } else if s < r {
      SquareLess(s, r);
    }
  }

  /** The root is monotone. */
  lemma SqrtMonotone(sqrt: real -> real, x: real, y: real)
    requires IsSqrt(sqrt) && 0.0 <= x <= y
    ensures sqrt(x) <= sqrt(y)
  {
    var a, b := sqrt(x), sqrt(y);
    assert 0.0 <= a && Sq(a) == x;
    assert 0.0 <= b && Sq(b) == y;
    if b < a {
      SquareLess(b, a);
    }
  }

  lemma SqrtPositive(sqrt: real -> real, x: real)
    requires IsSqrt(sqrt) && 0.0 < x
    ensures 0.0 < sqrt(x)
  {
    assert 0.0 <= sqrt(x) && Sq(sqrt(x)) == x;
  }

  /** The root of c * c is c, for c >= 0. */
  lemma SqrtOfSquare(sqrt: real -> real, c: real)
    requires IsSqrt(sqrt) && 0.0 <= c
    ensures sqrt(Sq(c)) == c
  {
    SquareNonNegative(c);
    var r := sqrt(Sq(c));
    assert 0.0 <= r && Sq(r) == Sq(c);
    SqrtUnique(r, c);
  }
}
