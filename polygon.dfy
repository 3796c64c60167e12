/** Polygons: vertex validation, orientation, side lengths, corners with
    their rational angles, and the `Polygon` object whose corners are
    translated in place. */
module Polygons {
  import opened Arith
  import opened Rationals
  import opened Wrappers
  import opened Points
  import opened Angles
  import opened CircularIterable
  import opened Sorting

  /** A corner: apex `c`, its angle, and unit vectors `v1` toward the next
      vertex and `v2` toward the previous one. */
  datatype Corner = Corner(c: Point, angle: Angle, v1: Point, v2: Point)

  /* ---------------------------------------------------------------- */
  /* `_to_array`                                                       */
  /* ---------------------------------------------------------------- */

  /** Nested lists of numbers, as `numpy.asarray` receives them. */
  datatype ArrayLike = Num(x: real) | Arr(items: seq<ArrayLike>)

  /** The numpy shape; None for a ragged nesting, which numpy rejects. */
  function Shape(a: ArrayLike): Option<seq<nat>>
    decreases a
  {
    match a
    case Num(_) => Some([])
    case Arr(items) =>
      if |items| == 0 then Some([0])
      else if forall i :: 0 <= i < |items| ==> Shape(items[i]).Some? && Shape(items[i]) == Shape(items[0])
      then Some([|items|] + Shape(items[0]).value)
      else None
  }

  /** An array of shape (n, m) is n rows of m numbers. */
  lemma ShapeMatrix(a: ArrayLike, n: nat, m: nat)
    requires Shape(a) == Some([n, m])
    ensures a.Arr? && |a.items| == n
    ensures forall i :: 0 <= i < n ==> a.items[i].Arr? && |a.items[i].items| == m
    ensures forall i, j :: 0 <= i < n && 0 <= j < m ==> a.items[i].items[j].Num?
  {
    match a
    case Arr(items) =>
      assert |items| > 0;
      var s0 := Shape(items[0]).value;
      var whole := [|items|] + s0;
      assert whole == [n, m] && whole[1..] == s0 && whole[0] == |items|;
      assert [n, m][1..] == [m];
      forall i | 0 <= i < n
        ensures items[i].Arr? && |items[i].items| == m
        ensures forall j :: 0 <= j < m ==> items[i].items[j].Num?
      {
        RowShape(items[i], m);
      }
  }

  lemma RowShape(row: ArrayLike, m: nat)
    requires Shape(row) == Some([m])
    ensures row.Arr? && |row.items| == m
    ensures forall j :: 0 <= j < m ==> row.items[j].Num?
  {
    match row
    case Arr(items) =>
      if |items| > 0 {
        var whole := [|items|] + Shape(items[0]).value;
        assert whole == [m] && whole[0] == |items|;
        forall j | 0 <= j < m ensures items[j].Num? {
          assert Shape(items[j]) == Some([]);
        }
      }
  }

  /** Shape (n, 2) with n >= 3: what `_to_array` accepts. */
  predicate IsVertexArray(a: ArrayLike)
    ensures IsVertexArray(a) ==> (a.Arr? && |a.items| >= 3 &&
      forall i :: 0 <= i < |a.items| ==>
        a.items[i].Arr? && |a.items[i].items| == 2 &&
        a.items[i].items[0].Num? && a.items[i].items[1].Num?)
  {
    var s := Shape(a);
    s.Some? && |s.value| == 2 && s.value[0] >= 3 && s.value[1] == 2 &&
    assert s.value == [s.value[0], s.value[1]]; ShapeMatrix(a, s.value[0], s.value[1]); true
  }

  /** `_to_array`: ValueError unless the input is a two-dimensional array of
      at least 3 rows and exactly 2 columns; otherwise its rows as points. */
  function ToArray(vertices: ArrayLike): (r: Result<seq<Point>>)
    ensures r.Ok? <==> IsVertexArray(vertices)
    ensures r.Err? ==> r.error == ValueError
    ensures r.Ok? ==> (|r.value| == |vertices.items| >= 3 &&
      forall i :: 0 <= i < |r.value| ==>
        r.value[i] == Point(vertices.items[i].items[0].x, vertices.items[i].items[1].x))
  {
    if !IsVertexArray(vertices) then Err(ValueError)
    else
      var rows := vertices.items;
      Ok(seq(|rows|, i requires 0 <= i < |rows| => Point(rows[i].items[0].x, rows[i].items[1].x)))
  }

  /* ---------------------------------------------------------------- */
  /* `_fix_orientation`                                                */
  /* ---------------------------------------------------------------- */

  /** `lexsort((y, x))[0]`: the first index of the lexicographically
      smallest point (lexsort is stable). */
  function LexMinIndex(pts: seq<Point>): (i: nat)
    requires |pts| > 0
    ensures i < |pts|
    ensures forall j :: 0 <= j < |pts| ==> !LexLess(pts[j], pts[i])
    ensures forall j :: 0 <= j < i ==> LexLess(pts[i], pts[j])
  {
    if |pts| == 1 then 0
    else
      var k := LexMinIndex(pts[1..]) + 1;
      assert forall j :: 1 <= j < |pts| ==> pts[j] == pts[1..][j - 1];
      if LexLess(pts[k], pts[0]) then k else 0
  }

  /** The index of the lexicographic minimum is its only characterisation. */
  lemma LexMinUnique(pts: seq<Point>, k: nat)
    requires k < |pts|
    requires forall j :: 0 <= j < |pts| ==> !LexLess(pts[j], pts[k])
    requires forall j :: 0 <= j < k ==> LexLess(pts[k], pts[j])
    ensures LexMinIndex(pts) == k
  {
  }

  /** The turn at the lexicographically smallest vertex A: the cross product
      of AB and AC, B the next vertex and C the previous one. */
  function TurnAtLexMin(pts: seq<Point>): real
    requires |pts| > 0
  {
    TurnAtVertex(pts, LexMinIndex(pts))
  }

  /** The cross product of the sides from vertex i to its next and its
      previous vertex. */
  function TurnAtVertex(pts: seq<Point>, i: nat): real
    requires i < |pts|
  {
    var n := |pts|;
    var a, b, c := pts[i], pts[(i + 1) % n], pts[(i - 1) % n];
    Cross(Sub(b, a), Sub(c, a))
  }

  /** `_fix_orientation`: the input reversed exactly when the turn at the
      lexicographically smallest vertex is negative. */
  function FixOrientation(pts: seq<Point>): (r: seq<Point>)
    requires |pts| > 0
    ensures r == (if TurnAtLexMin(pts) < 0.0 then Reverse(pts) else pts)
  {
    if TurnAtLexMin(pts) < 0.0 then Reverse(pts) else pts
  }

  predicate Distinct(pts: seq<Point>)
  {
    forall i, j :: 0 <= i < j < |pts| ==> pts[i] != pts[j]
  }

  lemma CrossAntisymmetric(u: Point, v: Point)
    ensures Cross(v, u) == -Cross(u, v)
  {
    assert Mul(v.x, u.y) == Mul(u.y, v.x);
    assert Mul(v.y, u.x) == Mul(u.x, v.y);
  }

  /** For distinct vertices the result turns counterclockwise (or not at all)
      at its lexicographically smallest vertex. */
  lemma FixOrientationTurn(pts: seq<Point>)
    requires |pts| > 0 && Distinct(pts)
    ensures |FixOrientation(pts)| == |pts|
    ensures TurnAtLexMin(FixOrientation(pts)) >= 0.0
  {
    ReversedLexMin(pts);
    var n, i := |pts|, LexMinIndex(pts);
    ReversedCross(pts, i);
  }

  /** At the mirrored vertex of the reversal the two neighbours swap, so the
      cross product changes sign. */
  lemma ReversedCross(pts: seq<Point>, i: nat)
    requires i < |pts|
    ensures TurnAtVertex(Reverse(pts), |pts| - 1 - i) == -TurnAtVertex(pts, i)
  {
    var n := |pts|;
    ReversedNeighbours(pts, i);
    CrossAntisymmetric(Sub(pts[(i + 1) % n], pts[i]), Sub(pts[(i - 1) % n], pts[i]));
  }

  lemma DistinctAt(pts: seq<Point>, a: nat, b: nat)
    requires Distinct(pts) && a < b < |pts|
    ensures pts[a] != pts[b]
  {
  }

  lemma LexStrict(a: Point, b: Point)
    requires !LexLess(b, a) && a != b
    ensures LexLess(a, b)
  {
  }

  /** With distinct points, the minimum of the reversal is the same point. */
  lemma ReversedLexMin(pts: seq<Point>)
    requires |pts| > 0 && Distinct(pts)
    ensures LexMinIndex(Reverse(pts)) == |pts| - 1 - LexMinIndex(pts)
  {
    var i := LexMinIndex(pts);
    ReversedMinimum(pts, i);
    LexMinUnique(Reverse(pts), |pts| - 1 - i);
  }

  lemma ReversedMinimum(pts: seq<Point>, i: nat)
    requires i < |pts| && Distinct(pts)
    requires forall j :: 0 <= j < |pts| ==> !LexLess(pts[j], pts[i])
    ensures var r, k := Reverse(pts), |pts| - 1 - i;
      (forall j :: 0 <= j < |r| ==> !LexLess(r[j], r[k])) &&
      (forall j :: 0 <= j < k ==> LexLess(r[k], r[j]))
  {
    var n, r, k := |pts|, Reverse(pts), |pts| - 1 - i;
    assert r[k] == pts[i];
    forall j | 0 <= j < k ensures LexLess(r[k], r[j]) {
      var m := n - 1 - j;
      assert r[j] == pts[m];
      DistinctAt(pts, i, m);
      LexStrict(pts[i], pts[m]);
    }
  }

  /** In the reversed sequence the neighbours of a vertex trade places. */
  lemma ReversedNeighbours(pts: seq<Point>, i: nat)
    requires i < |pts|
    ensures var n, k := |pts|, |pts| - 1 - i;
      Reverse(pts)[(k + 1) % n] == pts[(i - 1) % n] &&
      Reverse(pts)[(k - 1) % n] == pts[(i + 1) % n]
  {
    var n, k := |pts|, |pts| - 1 - i;
    if i == 0 {
      ModSmall(0, n);
      ModChar(k + 1, n, 1, 0);
      ModChar(i - 1, n, -1, n - 1);
    } else {
      ModSmall(k + 1, n);
      ModSmall(i - 1, n);
    }
    if i == n - 1 {
      ModChar(k - 1, n, -1, n - 1);
      ModChar(i + 1, n, 1, 0);
    } else {
      ModSmall(k - 1, n);
      ModSmall(i + 1, n);
    }
  }

  /* ---------------------------------------------------------------- */
  /* `_compute_lengths`                                                */
  /* ---------------------------------------------------------------- */

  /** Side i joins vertex i to vertex i + 1 (mod n). */
  function SideLength2(pts: seq<Point>, i: nat): real
    requires i < |pts|
  {
    Dist2(pts[(i + 1) % |pts|], pts[i])
  }

  const MIN_LENGTH: real := 0.00000001
  /** The square of MIN_LENGTH. */
  const MIN_LENGTH2: real := 0.0000000000000001

  lemma MinLengthSquared()
    ensures Sq(MIN_LENGTH) == MIN_LENGTH2
  {
  }

  /** `_compute_lengths`: the side lengths, ValueError if one of them is not
      above 1e-8. */
  function ComputeLengths(pts: seq<Point>, sqrt: real -> real): (r: Result<seq<real>>)
    requires IsSqrt(sqrt)
    ensures r.Ok? <==> forall i :: 0 <= i < |pts| ==> SideLength2(pts, i) > MIN_LENGTH2
    ensures r.Err? ==> r.error == ValueError
    ensures r.Ok? ==> (|r.value| == |pts| &&
      forall i :: 0 <= i < |pts| ==> r.value[i] > 0.0 && Sq(r.value[i]) == SideLength2(pts, i))
  {
    var lengths := seq(|pts|, i requires 0 <= i < |pts| => sqrt(SideLength2(pts, i)));
    LengthsAboveBound(pts, sqrt, lengths);
    if forall i :: 0 <= i < |lengths| ==> lengths[i] > MIN_LENGTH then Ok(lengths) else Err(ValueError)
  }

  lemma LengthsAboveBound(pts: seq<Point>, sqrt: real -> real, lengths: seq<real>)
    requires IsSqrt(sqrt) && |lengths| == |pts|
    requires forall i :: 0 <= i < |pts| ==> lengths[i] == sqrt(SideLength2(pts, i))
    ensures forall i :: 0 <= i < |pts| ==> Sq(lengths[i]) == SideLength2(pts, i) && lengths[i] >= 0.0
    ensures forall i :: 0 <= i < |pts| ==> (lengths[i] > MIN_LENGTH <==> SideLength2(pts, i) > MIN_LENGTH2)
  {
    forall i | 0 <= i < |pts|
      ensures Sq(lengths[i]) == SideLength2(pts, i) && lengths[i] >= 0.0
      ensures lengths[i] > MIN_LENGTH <==> SideLength2(pts, i) > MIN_LENGTH2
    {
      Norm2NonNegative(Sub(pts[(i + 1) % |pts|], pts[i]));
      SqrtAbove(sqrt, SideLength2(pts, i), MIN_LENGTH);
      MinLengthSquared();
    }
  }

  /** sqrt(x) > m exactly when x > m * m, for m >= 0. */
  lemma SqrtAbove(sqrt: real -> real, x: real, m: real)
    requires IsSqrt(sqrt) && 0.0 <= x && 0.0 <= m
    ensures sqrt(x) > m <==> x > Sq(m)
  {
    var r := sqrt(x);
    assert 0.0 <= r && Sq(r) == x;
    if r > m {
      SquareLess(m, r);
    } else if r < m {
      SquareLess(r, m);
    }
  }

  /* ---------------------------------------------------------------- */
  /* `_compute_corners`, `_normalize`, `_compute_angle`                */
  /* ---------------------------------------------------------------- */

  /** `_normalize`: v divided by its norm. */
  function UnitVector(v: Point, sqrt: real -> real): (u: Point)
    requires IsSqrt(sqrt) && v != Point(0.0, 0.0)
  {
    Norm2Zero(v);
    Norm2NonNegative(v);
    SqrtPositive(sqrt, Norm2(v));
    Scale(1.0 / sqrt(Norm2(v)), v)
  }

  /** The unit vector has norm 1 and points along v: v is it scaled by v's
      norm. */
  lemma UnitVectorSpec(v: Point, sqrt: real -> real)
    requires IsSqrt(sqrt) && v != Point(0.0, 0.0)
    ensures Norm2(UnitVector(v, sqrt)) == 1.0
    ensures Scale(sqrt(Norm2(v)), UnitVector(v, sqrt)) == v
  {
    Norm2Zero(v);
    Norm2NonNegative(v);
    SqrtPositive(sqrt, Norm2(v));
    var r := sqrt(Norm2(v));
    var k := 1.0 / r;
    assert Sq(r) == Norm2(v);
    assert k * r == 1.0;
    ScaledNorm(k, v);
    assert Sq(k) * Sq(r) == 1.0 by { assert Sq(k) * Sq(r) == (k * r) * (k * r); }
    assert r * (k * v.x) == v.x && r * (k * v.y) == v.y;
  }

  lemma ScaledNorm(k: real, v: Point)
    ensures Norm2(Scale(k, v)) == Sq(k) * Norm2(v)
  {
    assert Sq(k * v.x) == Sq(k) * Sq(v.x);
    assert Sq(k * v.y) == Sq(k) * Sq(v.y);
  }

  /** The sign fix of `_compute_angle`: a negative ratio r becomes 2 + r. */
  function SignFix(rho: Angle): (r: Angle)
    ensures r.Value() == rho.Value() || r.Value() == rho.Value() + 2.0
    ensures rho.Value() >= 0.0 ==> r == rho
    ensures -2.0 <= rho.Value() < 2.0 ==> 0.0 <= r.Value() < 2.0
  {
    if rho.Value() < 0.0 then
      AddTwoValue(rho.num, rho.den);
      Normalize(2 * rho.den + rho.num, rho.den)
    else rho
  }

  lemma AddTwoValue(n: int, d: int)
    requires d > 0
    ensures (2 * d + n) as real / d as real == 2.0 + n as real / d as real
  {
    SubValue(2, -n, d);
    NegQuotient(n, 1);
    assert (-n) as real / d as real == -(n as real / d as real);
  }

  /** The turn parameter: `Fraction(arctan2(sin, cos) / pi)` rounded by
      `limit_denominator`, a rational in [-1, 1]. */
  ghost predicate IsTurnParameter(turn: (real, real) -> Angle)
  {
    forall s: real, c: real :: -1.0 <= turn(s, c).Value() <= 1.0
  }

  /** The corner at apex A between the previous vertex C and the next one B. */
  function MakeCorner(prev: Point, apex: Point, next: Point, sqrt: real -> real,
                      turn: (real, real) -> Angle): Corner
    requires IsSqrt(sqrt) && prev != apex && next != apex
  {
    assert Sub(next, apex) != Point(0.0, 0.0) && Sub(prev, apex) != Point(0.0, 0.0);
    var ab := UnitVector(Sub(next, apex), sqrt);
    var ac := UnitVector(Sub(prev, apex), sqrt);
    Corner(apex, SignFix(turn(Cross(ab, ac), Dot(ab, ac))), ab, ac)
  }

  /** Side i joins two different vertices. */
  predicate SideOk(pts: seq<Point>, i: nat)
    requires i < |pts|
  {
    pts[i] != pts[(i + 1) % |pts|]
  }

  /** Consecutive vertices differ (what the length check ensures). */
  predicate SidesNonDegenerate(pts: seq<Point>)
  {
    forall i :: 0 <= i < |pts| ==> SideOk(pts, i)
  }

  lemma PreviousIndex(n: nat, i: nat)
    requires i < n
    ensures ((i + n - 1) % n + 1) % n == i
  {
    if i == 0 {
      ModSmall(n - 1, n);
      ModChar(n, n, 1, 0);
    } else {
      ModChar(i + n - 1, n, 1, i - 1);
      ModSmall(i, n);
    }
  }

  /** Corner i: apex vertex i, v1 toward vertex i + 1, v2 toward vertex i - 1. */
  function CornerAt(pts: seq<Point>, i: nat, sqrt: real -> real, turn: (real, real) -> Angle): Corner
    requires IsSqrt(sqrt) && SidesNonDegenerate(pts) && i < |pts|
  {
    var n := |pts|;
    var j := (i + n - 1) % n;
    PreviousIndex(n, i);
    assert SideOk(pts, j) && SideOk(pts, i);
    MakeCorner(pts[j], pts[i], pts[(i + 1) % n], sqrt, turn)
  }

  function CornersOf(pts: seq<Point>, sqrt: real -> real, turn: (real, real) -> Angle): (cs: seq<Corner>)
    requires IsSqrt(sqrt) && SidesNonDegenerate(pts)
    ensures |cs| == |pts|
  {
    seq(|pts|, i requires 0 <= i < |pts| => CornerAt(pts, i, sqrt, turn))
  }

  /** Corner i sits at vertex i; its vectors are the unit vectors toward the
      next and the previous vertex; with a turn parameter in [-1, 1] its angle
      lies in [0, 2). */
  lemma CornerAtSpec(pts: seq<Point>, i: nat, sqrt: real -> real, turn: (real, real) -> Angle)
    requires IsSqrt(sqrt) && SidesNonDegenerate(pts) && i < |pts|
    ensures var n, cn := |pts|, CornerAt(pts, i, sqrt, turn);
      cn.c == pts[i] &&
      Norm2(cn.v1) == 1.0 && Scale(sqrt(Dist2(pts[(i + 1) % n], pts[i])), cn.v1) == Sub(pts[(i + 1) % n], pts[i]) &&
      Norm2(cn.v2) == 1.0 && Scale(sqrt(Dist2(pts[(i + n - 1) % n], pts[i])), cn.v2) == Sub(pts[(i + n - 1) % n], pts[i])
    ensures IsTurnParameter(turn) ==> 0.0 <= CornerAt(pts, i, sqrt, turn).angle.Value() < 2.0
  {
    var n := |pts|;
    var j := (i + n - 1) % n;
    PreviousIndex(n, i);
    var next, prev := Sub(pts[(i + 1) % n], pts[i]), Sub(pts[j], pts[i]);
    assert SideOk(pts, i) && SideOk(pts, j);
    assert next != Point(0.0, 0.0) && prev != Point(0.0, 0.0);
    UnitVectorSpec(next, sqrt);
    UnitVectorSpec(prev, sqrt);
  }

  /** Sum of the corner angles, as `sum(c.angle for c in corners)`. */
  function AngleSum(cs: seq<Corner>): real
  {
    if |cs| == 0 then 0.0 else AngleSum(cs[..|cs| - 1]) + cs[|cs| - 1].angle.Value()
  }

  /** Triple k of the circular triples from the last vertex builds corner k. */
  lemma TripleCorner(pts: seq<Point>, k: nat, sqrt: real -> real, turn: (real, real) -> Angle,
                     prev: Point, apex: Point, next: Point)
    requires IsSqrt(sqrt) && SidesNonDegenerate(pts) && k < |pts|
    requires |CircularTriplewise(pts, |pts| - 1)| == |pts|
    requires CircularTriplewise(pts, |pts| - 1)[k] == (prev, apex, next)
    ensures prev != apex && next != apex && MakeCorner(prev, apex, next, sqrt, turn) == CornerAt(pts, k, sqrt, turn)
  {
    TriplewiseFromLast(pts, k);
    NeighboursDiffer(pts, k);
    CornerAtUnfold(pts, k, (k + |pts| - 1) % |pts|, sqrt, turn);
  }

  /** Vertex k differs from both its neighbours. */
  lemma NeighboursDiffer(pts: seq<Point>, k: nat)
    requires SidesNonDegenerate(pts) && k < |pts|
    ensures pts[(k + |pts| - 1) % |pts|] != pts[k] && pts[(k + 1) % |pts|] != pts[k]
  {
    var n := |pts|;
    PreviousIndex(n, k);
    assert SideOk(pts, (k + n - 1) % n) && SideOk(pts, k);
  }

  /** Corner i is built from vertices j = i - 1, i and i + 1. */
  lemma CornerAtUnfold(pts: seq<Point>, i: nat, j: nat, sqrt: real -> real, turn: (real, real) -> Angle)
    requires IsSqrt(sqrt) && SidesNonDegenerate(pts) && i < |pts| && j == (i + |pts| - 1) % |pts|
    requires pts[j] != pts[i] && pts[(i + 1) % |pts|] != pts[i]
    ensures CornerAt(pts, i, sqrt, turn) == MakeCorner(pts[j], pts[i], pts[(i + 1) % |pts|], sqrt, turn)
  {
  }

  /** The corners of the first k + 1 vertices extend those of the first k. */
  lemma CornersPrefix(pts: seq<Point>, k: nat, sqrt: real -> real, turn: (real, real) -> Angle)
    requires IsSqrt(sqrt) && SidesNonDegenerate(pts) && k < |pts|
    ensures CornersOf(pts, sqrt, turn)[..k + 1] == CornersOf(pts, sqrt, turn)[..k] + [CornerAt(pts, k, sqrt, turn)]
  {
    var cs := CornersOf(pts, sqrt, turn);
    assert cs[k] == CornerAt(pts, k, sqrt, turn);
    assert cs[..k + 1] == cs[..k] + [cs[k]];
  }

  /** `_compute_corners`: one corner per vertex, read off the circular
      triples starting at the last vertex; ValueError unless the angles add
      up to n - 2 (in units of pi), as they do for a simple polygon. */
  method ComputeCorners(pts: seq<Point>, sqrt: real -> real, turn: (real, real) -> Angle)
    returns (r: Result<seq<Corner>>)
    requires IsSqrt(sqrt) && SidesNonDegenerate(pts) && |pts| > 0
    ensures r.Ok? <==> AngleSum(CornersOf(pts, sqrt, turn)) == (|pts| - 2) as real
    ensures r.Err? ==> r.error == ValueError
    ensures r.Ok? ==> r.value == CornersOf(pts, sqrt, turn)
  {
    var n := |pts|;
    var triples := CircularTriplewise(pts, n - 1);
    TriplewiseFromLast(pts, 0);
    var corners: seq<Corner> := [];
    var k := 0;
    while k < |triples|
      invariant |triples| == n && 0 <= k <= n
      invariant corners == CornersOf(pts, sqrt, turn)[..k]
    {
      var (prev, apex, next) := triples[k];
      TripleCorner(pts, k, sqrt, turn, prev, apex, next);
      CornersPrefix(pts, k, sqrt, turn);
      corners := corners + [MakeCorner(prev, apex, next, sqrt, turn)];
      k := k + 1;
    }
    assert corners == CornersOf(pts, sqrt, turn);
    if AngleSum(corners) != (n - 2) as real {
      return Err(ValueError);
    }
    return Ok(corners);
  }

  /* ---------------------------------------------------------------- */
  /* Elementary angle and critical interval of a polygon               */
  /* ---------------------------------------------------------------- */

  /** `math.gcd(*xs)`: 0 for no arguments. */
  function GcdAll(xs: seq<nat>): nat
  {
    if |xs| == 0 then 0 else Gcd(xs[0], GcdAll(xs[1..]))
  }

  /** `math.lcm(*xs)` on positive numbers: 1 for no arguments. */
  function LcmAll(xs: seq<nat>): (l: nat)
    requires forall i :: 0 <= i < |xs| ==> xs[i] > 0
    ensures l > 0
  {
    if |xs| == 0 then 1 else Lcm(xs[0], LcmAll(xs[1..]))
  }

  lemma {:induction false} GcdAllDivides(xs: seq<nat>)
    requires |xs| > 0 && forall i :: 0 <= i < |xs| ==> xs[i] > 0
    ensures GcdAll(xs) > 0
    ensures forall i :: 0 <= i < |xs| ==> Divides(GcdAll(xs), xs[i])
  {
    var g := GcdAll(xs);
    GcdDivides(xs[0], GcdAll(xs[1..]));
    if |xs| > 1 {
      GcdAllDivides(xs[1..]);
      forall i | 1 <= i < |xs| ensures Divides(g, xs[i]) {
        assert xs[i] == xs[1..][i - 1];
        DividesTrans(g, GcdAll(xs[1..]), xs[i]);
      }
    }
  }

  lemma {:induction false} LcmAllMultiple(xs: seq<nat>)
    requires forall i :: 0 <= i < |xs| ==> xs[i] > 0
    ensures forall i :: 0 <= i < |xs| ==> Divides(xs[i], LcmAll(xs))
  {
    if |xs| > 0 {
      var l := LcmAll(xs);
      LcmAllMultiple(xs[1..]);
      forall i | 1 <= i < |xs| ensures Divides(xs[i], l) {
        assert xs[i] == xs[1..][i - 1];
        DividesTrans(xs[i], LcmAll(xs[1..]), l);
      }
    }
  }

  function ElementaryNumerators(cs: seq<Corner>): (ns: seq<nat>)
    ensures |ns| == |cs|
    ensures forall i :: 0 <= i < |cs| ==> ns[i] == ElementaryAngle(cs[i].angle).num > 0
  {
    seq(|cs|, i requires 0 <= i < |cs| => ElementaryNum(cs[i].angle))
  }

  /** The numerator of the elementary angle, which is positive. */
  function ElementaryNum(a: Angle): (n: nat)
    ensures n == ElementaryAngle(a).num > 0
  {
    ElementaryNumPositive(a);
    ElementaryAngle(a).num
  }

  lemma ElementaryNumPositive(a: Angle)
    ensures ElementaryAngle(a).num > 0
  {
    var e := ElementaryAngle(a);
    ElementarySumValue(a);
    ValuePositive(e.num, e.den);
    ValuePositive(2, ElementarySum(a));
  }

  function ElementaryDenominators(cs: seq<Corner>): (ds: seq<nat>)
    ensures |ds| == |cs|
    ensures forall i :: 0 <= i < |cs| ==> ds[i] == ElementaryAngle(cs[i].angle).den > 0
  {
    seq(|cs|, i requires 0 <= i < |cs| => ElementaryAngle(cs[i].angle).den)
  }

  /** `Polygon.get_elementary_angle`: gcd of the corners' elementary
      numerators over lcm of their denominators. */
  function PolygonElementaryAngle(cs: seq<Corner>): Angle
  {
    Normalize(GcdAll(ElementaryNumerators(cs)), LcmAll(ElementaryDenominators(cs)))
  }

  /** The polygon's elementary angle fits a whole number k >= 1 of times in
      each corner's elementary angle, and so p * k times in the corner's own
      angle when that lies strictly between 0 and 2. */
  lemma PolygonElementaryAngleDivides(cs: seq<Corner>, i: nat)
    requires i < |cs|
    ensures PolygonElementaryAngle(cs).Value() > 0.0
    ensures var e, big := ElementaryAngle(cs[i].angle), PolygonElementaryAngle(cs);
      var k := (e.num / GcdAll(ElementaryNumerators(cs))) * (LcmAll(ElementaryDenominators(cs)) / e.den);
      k >= 1 && e.Value() == Mul(k as real, big.Value()) &&
      (0.0 < cs[i].angle.Value() < 2.0 ==>
        cs[i].angle.Value() == Mul((ElementaryPQ(cs[i].angle).0 * k) as real, big.Value()))
  {
    var ns, ds := ElementaryNumerators(cs), ElementaryDenominators(cs);
    var g, l := GcdAll(ns), LcmAll(ds);
    GcdAllDivides(ns);
    LcmAllMultiple(ds);
    var e := ElementaryAngle(cs[i].angle);
    assert ns[i] == e.num && ds[i] == e.den;
    var v := PolygonElementaryAngle(cs).Value();
    assert v == g as real / l as real;
    var k := (e.num / g) * (l / e.den);
    WholeMultiple(e.num, e.den, g, l, v);
    if 0.0 < cs[i].angle.Value() < 2.0 {
      ElementaryAngleMultiples(cs[i].angle);
      MulAssoc(ElementaryPQ(cs[i].angle).0, k, v);
    }
  }

  /** g dividing n and d dividing l make n / d a whole multiple of g / l. */
  lemma WholeMultiple(n: int, d: int, g: int, l: int, v: real)
    requires n > 0 && d > 0 && g > 0 && l > 0 && Divides(g, n) && Divides(d, l)
    requires v == g as real / l as real
    ensures v > 0.0
    ensures (n / g) * (l / d) >= 1
    ensures n as real / d as real == Mul(((n / g) * (l / d)) as real, v)
  {
    ValuePositive(g, l);
    var k1, k2 := n / g, l / d;
    assert n == k1 * g && l == k2 * d;
    if k1 <= 0 { MulNonPositive(k1, g); }
    if k2 <= 0 { MulNonPositive(k2, d); }
    MulPositive(k1, k2);
    ScaledQuotient(n, d, g, l, k1, k2, v);
  }

  lemma MulNonPositive(a: int, b: int)
    requires a <= 0 && b > 0
    ensures a * b <= 0
  {
    if a < 0 { MulAtLeast(-a, b); assert (-a) * b == -(a * b); }
  }

  /** n / d == (k1 * k2) * (g / l) when n == k1 * g and l == k2 * d. */
  lemma ScaledQuotient(n: int, d: int, g: int, l: int, k1: int, k2: int, v: real)
    requires d > 0 && g > 0 && l > 0 && n == k1 * g && l == k2 * d && v == g as real / l as real
    ensures n as real / d as real == Mul((k1 * k2) as real, v)
  {
    assert n * l == (k1 * k2) * g * d by {
      assert n * l == (k1 * g) * (k2 * d);
    }
    FracEq(n, d, (k1 * k2) * g, l);
    ScaleValue(k1 * k2, g, l);
  }

  lemma MulAssoc(p: int, k: int, v: real)
    ensures Mul(p as real, Mul(k as real, v)) == Mul((p * k) as real, v)
  {
    assert (p * k) as real == p as real * k as real;
  }

  /** The hull of the corners' critical intervals, folded from the first
      corner on; IndexError without corners, ZeroDivisionError from the
      first corner whose interval raises. */
  function IntervalHull(cs: seq<Corner>): Result<(real, real)>
  {
    if |cs| == 0 then Err(IndexError)
    else if |cs| == 1 then CriticalInterval(cs[0].angle)
    else
      match IntervalHull(cs[..|cs| - 1])
      case Err(e) => Err(e)
      case Ok((a, b)) =>
        match CriticalInterval(cs[|cs| - 1].angle)
        case Err(e) => Err(e)
        case Ok((lo, hi)) => Ok((Min(a, lo), Max(b, hi)))
  }

  /** The hull exists iff there is a corner and no corner interval raises;
      then it runs from the least lower end to the greatest upper end. */
  lemma IntervalHullBounds(cs: seq<Corner>)
    ensures IntervalHull(cs).Ok? <==>
      |cs| > 0 && forall i :: 0 <= i < |cs| ==> CriticalInterval(cs[i].angle).Ok?
    ensures IntervalHull(cs).Ok? ==>
      var (a, b) := IntervalHull(cs).value;
      (forall i :: 0 <= i < |cs| ==>
         a <= CriticalInterval(cs[i].angle).value.0 && CriticalInterval(cs[i].angle).value.1 <= b) &&
      (exists i :: 0 <= i < |cs| && a == CriticalInterval(cs[i].angle).value.0) &&
      (exists i :: 0 <= i < |cs| && b == CriticalInterval(cs[i].angle).value.1)
  {
    IntervalHullOk(cs);
    if IntervalHull(cs).Ok? {
      IntervalHullSpan(cs);
    }
  }

  /** The corner intervals all lie in [a, b], and a and b are ends of some
      of them. */
  ghost predicate Spans(cs: seq<Corner>, a: real, b: real)
  {
    (forall i :: 0 <= i < |cs| ==> CriticalInterval(cs[i].angle).Ok?) &&
    (forall i :: 0 <= i < |cs| ==>
       a <= CriticalInterval(cs[i].angle).value.0 && CriticalInterval(cs[i].angle).value.1 <= b) &&
    (exists i :: 0 <= i < |cs| && a == CriticalInterval(cs[i].angle).value.0) &&
    (exists i :: 0 <= i < |cs| && b == CriticalInterval(cs[i].angle).value.1)
  }

  lemma {:induction false} IntervalHullOk(cs: seq<Corner>)
    ensures IntervalHull(cs).Ok? <==>
      |cs| > 0 && forall i :: 0 <= i < |cs| ==> CriticalInterval(cs[i].angle).Ok?
  {
    if |cs| > 1 {
      var init := cs[..|cs| - 1];
      IntervalHullOk(init);
      assert forall i :: 0 <= i < |init| ==> init[i] == cs[i];
    }
  }

  lemma {:induction false} IntervalHullSpan(cs: seq<Corner>)
    requires IntervalHull(cs).Ok?
    ensures Spans(cs, IntervalHull(cs).value.0, IntervalHull(cs).value.1)
  {
    if |cs| > 1 {
      var init, c := cs[..|cs| - 1], cs[|cs| - 1];
      IntervalHullSpan(init);
      assert cs == init + [c];
      var (a0, b0) := IntervalHull(init).value;
      var (lo, hi) := CriticalInterval(c.angle).value;
      assert IntervalHull(cs) == Ok((Min(a0, lo), Max(b0, hi)));
      SpansStep(init, c, a0, b0, lo, hi);
    } else {
      assert IntervalHull(cs) == CriticalInterval(cs[0].angle);
    }
  }

  /** One more corner widens the span by its interval. */
  lemma SpansStep(init: seq<Corner>, c: Corner, a0: real, b0: real, lo: real, hi: real)
    requires Spans(init, a0, b0) && CriticalInterval(c.angle) == Ok((lo, hi))
    ensures Spans(init + [c], Min(a0, lo), Max(b0, hi))
  {
    var cs := init + [c];
    assert forall i :: 0 <= i < |init| ==> cs[i] == init[i];
    var ia :| 0 <= ia < |init| && a0 == CriticalInterval(init[ia].angle).value.0;
    var ib :| 0 <= ib < |init| && b0 == CriticalInterval(init[ib].angle).value.1;
    if Min(a0, lo) == a0 { assert cs[ia] == init[ia]; } else { assert cs[|init|] == c; }
    if Max(b0, hi) == b0 { assert cs[ib] == init[ib]; } else { assert cs[|init|] == c; }
  }

  /** An error in a prefix of the corners is the error of the whole fold. */
  lemma {:induction false} IntervalHullPrefixErr(cs: seq<Corner>, k: nat)
    requires 1 <= k <= |cs| && IntervalHull(cs[..k]).Err?
    ensures IntervalHull(cs) == IntervalHull(cs[..k])
    decreases |cs| - k
  {
    if k < |cs| {
      var init := cs[..|cs| - 1];
      assert init[..k] == cs[..k];
      IntervalHullPrefixErr(init, k);
    } else {
      assert cs[..k] == cs;
    }
  }

  /** Every corner interval lies inside the hull. */
  lemma IntervalHullContains(cs: seq<Corner>, i: nat)
    requires i < |cs| && IntervalHull(cs).Ok?
    ensures CriticalInterval(cs[i].angle).Ok?
    ensures IntervalHull(cs).value.0 <= CriticalInterval(cs[i].angle).value.0
    ensures CriticalInterval(cs[i].angle).value.1 <= IntervalHull(cs).value.1
  {
    IntervalHullBounds(cs);
  }

  /* ---------------------------------------------------------------- */
  /* Translation                                                       */
  /* ---------------------------------------------------------------- */

  /** Every corner's apex moved by `vector`; nothing else changes. */
  function Translated(cs: seq<Corner>, vector: Point): (r: seq<Corner>)
    ensures |r| == |cs|
  {
    seq(|cs|, i requires 0 <= i < |cs| => cs[i].(c := Add(cs[i].c, vector)))
  }

  /** Translating back by the opposite vector restores the corners. */
  lemma TranslatedInverse(cs: seq<Corner>, vector: Point)
    ensures Translated(Translated(cs, vector), Neg(vector)) == cs
  {
    var r := Translated(Translated(cs, vector), Neg(vector));
    forall i | 0 <= i < |cs| ensures r[i] == cs[i] {
      assert Add(Add(cs[i].c, vector), Neg(vector)) == cs[i].c;
    }
  }

  /** Translation keeps every angle, so the elementary angle and the
      critical interval of the polygon do not move. */
  lemma TranslatedInvariants(cs: seq<Corner>, vector: Point)
    ensures forall i :: 0 <= i < |cs| ==> Translated(cs, vector)[i].angle == cs[i].angle
    ensures PolygonElementaryAngle(Translated(cs, vector)) == PolygonElementaryAngle(cs)
    ensures IntervalHull(Translated(cs, vector)) == IntervalHull(cs)
  {
    var t := Translated(cs, vector);
    assert ElementaryNumerators(t) == ElementaryNumerators(cs);
    assert ElementaryDenominators(t) == ElementaryDenominators(cs);
    SameAnglesHull(t, cs);
  }

  lemma {:induction false} SameAnglesHull(x: seq<Corner>, y: seq<Corner>)
    requires |x| == |y| && forall i :: 0 <= i < |x| ==> x[i].angle == y[i].angle
    ensures IntervalHull(x) == IntervalHull(y)
  {
    if |x| > 1 {
      SameAnglesHull(x[..|x| - 1], y[..|y| - 1]);
    }
  }

  /** A polygon object: corners (mutated in place by `translate`), side
      lengths and a name. */
  class Polygon {
    var corners: seq<Corner>
    var lengths: seq<real>
    var name: string

    constructor (corners: seq<Corner>, lengths: seq<real>, name: string)
      ensures this.corners == corners && this.lengths == lengths && this.name == name
    {
      this.corners := corners;
      this.lengths := lengths;
      this.name := name;
    }

    /** `Polygon.translate`: adds `vector` to every corner centre. */
    method Translate(vector: Point)
      modifies this
      ensures corners == Translated(old(corners), vector)
      ensures lengths == old(lengths) && name == old(name)
    {
      var i := 0;
      while i < |corners|
        invariant 0 <= i <= |corners| == |old(corners)|
        invariant forall j :: 0 <= j < i ==> corners[j] == old(corners[j]).(c := Add(old(corners[j]).c, vector))
        invariant forall j :: i <= j < |corners| ==> corners[j] == old(corners[j])
        invariant lengths == old(lengths) && name == old(name)
      {
        corners := corners[i := corners[i].(c := Add(corners[i].c, vector))];
        i := i + 1;
      }
    }

    /** `Polygon.get_vertices`: the corner centres, in order. */
    function GetVertices(): (vs: seq<Point>)
      reads this
      ensures |vs| == |corners| && forall i :: 0 <= i < |vs| ==> vs[i] == corners[i].c
    {
      seq(|corners|, i reads this requires 0 <= i < |corners| => corners[i].c)
    }

    /** `Polygon.get_elementary_angle`. */
    function GetElementaryAngle(): Angle
      reads this
    {
      PolygonElementaryAngle(corners)
    }

    /** `Polygon.critical_interval`: the running minimum of lower ends and
      maximum of upper ends over the corners. */
    method CriticalInterval() returns (r: Result<(real, real)>)
      ensures r == IntervalHull(corners)
    {
      if |corners| == 0 {
        return Err(IndexError);
      }
      var first := Angles.CriticalInterval(corners[0].angle);
      assert corners[..1] == [corners[0]];
      if first.Err? {
        IntervalHullPrefixErr(corners, 1);
        return first;
      }
      var (a, b) := first.value;
      var k := 1;
      while k < |corners|
        invariant 1 <= k <= |corners|
        invariant IntervalHull(corners[..k]) == Ok((a, b))
      {
        var interval := Angles.CriticalInterval(corners[k].angle);
        assert corners[..k + 1][..k] == corners[..k];
        if interval.Err? {
          IntervalHullPrefixErr(corners, k + 1);
          return Err(interval.error);
        }
        a := Min(a, interval.value.0);
        b := Max(b, interval.value.1);
        k := k + 1;
      }
      assert corners[..k] == corners;
      return Ok((a, b));
    }

    /** `Polygon.from_vertices`: validate, orient, measure the sides, build
      the corners. The rounding of angles to `max_denominator` is inside
      the turn parameter. */
    static method FromVertices(vertices: ArrayLike, name: string, sqrt: real -> real,
                               turn: (real, real) -> Angle)
      returns (r: Result<Polygon>)
      requires IsSqrt(sqrt)
      ensures ToArray(vertices).Err? ==> r == Err(ValueError)
      ensures ToArray(vertices).Ok? ==>
        var pts := FixOrientation(ToArray(vertices).value);
        (ComputeLengths(pts, sqrt).Err? ==> r == Err(ValueError)) &&
        (ComputeLengths(pts, sqrt).Ok? ==>
          SidesNonDegenerate(pts) &&
          (r.Ok? <==> AngleSum(CornersOf(pts, sqrt, turn)) == (|pts| - 2) as real) &&
          (r.Err? ==> r.error == ValueError) &&
          (r.Ok? ==> fresh(r.value) && r.value.corners == CornersOf(pts, sqrt, turn) &&
                     r.value.lengths == ComputeLengths(pts, sqrt).value && r.value.name == name))
    {
      var arr := ToArray(vertices);
      if arr.Err? {
        return Err(ValueError);
      }
      var pts := FixOrientation(arr.value);
      var lengths := ComputeLengths(pts, sqrt);
      if lengths.Err? {
        return Err(ValueError);
      }
      LengthsSeparate(pts);
      var corners := ComputeCorners(pts, sqrt, turn);
      if corners.Err? {
        return Err(corners.error);
      }
      var p := new Polygon(corners.value, lengths.value, name);
      return Ok(p);
    }
  }

  /** The vertices of a polygon built from pts are pts again: corner i
      sits at vertex i. */
  lemma VerticesRoundTrip(p: Polygon, pts: seq<Point>, sqrt: real -> real, turn: (real, real) -> Angle)
    requires IsSqrt(sqrt) && SidesNonDegenerate(pts) && p.corners == CornersOf(pts, sqrt, turn)
    ensures p.GetVertices() == pts
  {
    forall i | 0 <= i < |pts| ensures p.GetVertices()[i] == pts[i] {
      CornerAtSpec(pts, i, sqrt, turn);
    }
  }

  /** Sides longer than 1e-8 join distinct vertices. */
  lemma LengthsSeparate(pts: seq<Point>)
    requires forall i :: 0 <= i < |pts| ==> SideLength2(pts, i) > MIN_LENGTH2
    ensures SidesNonDegenerate(pts)
  {
    forall i | 0 <= i < |pts| ensures SideOk(pts, i) {
      assert SideLength2(pts, i) > 0.0;
      Dist2Positive(pts[(i + 1) % |pts|], pts[i]);
    }
  }

  /** After `translate` the vertices are the old ones moved by the vector. */
  lemma TranslatedVertices(cs: seq<Corner>, vector: Point, i: nat)
    requires i < |cs|
    ensures Translated(cs, vector)[i].c == Add(cs[i].c, vector)
    ensures Translated(cs, vector)[i].v1 == cs[i].v1 && Translated(cs, vector)[i].v2 == cs[i].v2
  {
  }
}
