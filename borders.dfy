/** The outer border of a geometry: a circle or an axis-aligned rectangle
    around the polygons, its signed clearance to a point set, and the
    automatic fit from the smallest enclosing circle or rectangle. Norms go
    through a square-root parameter. */
module Borders {
  import opened Arith
  import opened Wrappers
  import opened Points
  import SmallestBoundary

  const BACKGROUND_NAME: string := "background"
  const THICKNESS_NAME: string := "PML"

  /** `Border` itself (no shape), `Circular` or `Rectangular`. */
  datatype Shape =
    | Plain
    | Circular(radius: real)
    | Rectangular(halfWidth: real, halfHeight: real)

  datatype Border = Border(center: Point, backgroundName: string, thickness: Option<real>,
                           thicknessName: string, shape: Shape)

  /** The dataclass constructor with its field defaults: background name
      "background", no thickness, thickness name "PML". */
  function NewBorder(center: Point, shape: Shape, thickness: Option<real> := None,
                     backgroundName: string := BACKGROUND_NAME,
                     thicknessName: string := THICKNESS_NAME): (b: Border)
    ensures b.center == center && b.shape == shape && b.thickness == thickness
    ensures b.backgroundName == backgroundName && b.thicknessName == thicknessName
  {
    Border(center, backgroundName, thickness, thicknessName, shape)
  }

  /** `points - center`, row by row. */
  function Offsets(points: seq<Point>, center: Point): (r: seq<Point>)
    ensures |r| == |points| && forall k :: 0 <= k < |r| ==> r[k] == Sub(points[k], center)
  {
    seq(|points|, k requires 0 <= k < |points| => Sub(points[k], center))
  }

  /** `norm(vs, axis=1).max()`. */
  function MaxNorm(vs: seq<Point>, sqrt: real -> real): (m: real)
    requires |vs| > 0
    ensures forall k :: 0 <= k < |vs| ==> sqrt(Norm2(vs[k])) <= m
    ensures exists k :: 0 <= k < |vs| && m == sqrt(Norm2(vs[k]))
  {
    if |vs| == 1 then sqrt(Norm2(vs[0]))
    else
      var m := MaxNorm(vs[1..], sqrt);
      assert forall k :: 1 <= k < |vs| ==> vs[k] == vs[1..][k - 1];
      if sqrt(Norm2(vs[0])) >= m then sqrt(Norm2(vs[0])) else m
  }

  /** Python's `min(a, b)` on floats. */
  function RealMin(a: real, b: real): (m: real)
    ensures m <= a && m <= b && (m == a || m == b)
  {
    if b < a then b else a
  }

  /** `dist_to_inner_boundary`: the base border raises NotImplementedError;
      a circle gives radius - max |p - centre|, a rectangle
      min(hw - max(x - cx), hh - max(y - cy)). No points: ValueError (the
      maximum of an empty array). */
  function DistToInnerBoundary(b: Border, points: seq<Point>, sqrt: real -> real): (r: Result<real>)
    ensures b.shape.Plain? ==> r == Err(NotImplementedError)
    ensures !b.shape.Plain? ==> (r.Ok? <==> |points| > 0)
    ensures !b.shape.Plain? && r.Err? ==> r.error == ValueError
  {
    match b.shape
    case Plain => Err(NotImplementedError)
    case Circular(radius) =>
      if |points| == 0 then Err(ValueError)
      else Ok(radius - MaxNorm(Offsets(points, b.center), sqrt))
    case Rectangular(hw, hh) =>
      if |points| == 0 then Err(ValueError)
      else
        var pts := Offsets(points, b.center);
        Ok(RealMin(hw - SmallestBoundary.MaxCoord(pts, false), hh - SmallestBoundary.MaxCoord(pts, true)))
  }

  /** A circle's clearance is positive exactly when every point is strictly
      closer to the centre than the radius. */
  lemma CircularInside(b: Border, points: seq<Point>, sqrt: real -> real)
    requires b.shape.Circular? && |points| > 0
    ensures DistToInnerBoundary(b, points, sqrt).value > 0.0 <==>
      forall k :: 0 <= k < |points| ==> sqrt(Dist2(points[k], b.center)) < b.shape.radius
  {
    var vs := Offsets(points, b.center);
    var m := MaxNorm(vs, sqrt);
    assert forall k :: 0 <= k < |points| ==> Dist2(points[k], b.center) == Norm2(vs[k]);
    var k :| 0 <= k < |vs| && m == sqrt(Norm2(vs[k]));
  }

  /** A rectangle's clearance is positive exactly when every point is
      strictly left of the right side and below the top side. The offsets
      are signed: points beyond the left or bottom side do not count. */
  lemma RectangularInside(b: Border, points: seq<Point>, sqrt: real -> real)
    requires b.shape.Rectangular? && |points| > 0
    ensures DistToInnerBoundary(b, points, sqrt).value > 0.0 <==>
      forall k :: 0 <= k < |points| ==>
        points[k].x - b.center.x < b.shape.halfWidth && points[k].y - b.center.y < b.shape.halfHeight
  {
    var pts := Offsets(points, b.center);
    var mx, my := SmallestBoundary.MaxCoord(pts, false), SmallestBoundary.MaxCoord(pts, true);
    assert forall k :: 0 <= k < |points| ==>
      SmallestBoundary.Coord(pts[k], false) == points[k].x - b.center.x &&
      SmallestBoundary.Coord(pts[k], true) == points[k].y - b.center.y;
    var i :| 0 <= i < |pts| && mx == SmallestBoundary.Coord(pts[i], false);
    var j :| 0 <= j < |pts| && my == SmallestBoundary.Coord(pts[j], true);
  }

  /** The rectangle's clearance can be positive with a point outside: a
      point beyond the left side of the unit square around the origin
      leaves a clearance of 1. */
  lemma RectangularLeftOutside(sqrt: real -> real)
    ensures var b := NewBorder(Point(0.0, 0.0), Rectangular(1.0, 1.0));
      var pts := [Point(-5.0, 0.0)];
      -pts[0].x > b.shape.halfWidth && DistToInnerBoundary(b, pts, sqrt) == Ok(1.0)
  {
    var b := NewBorder(Point(0.0, 0.0), Rectangular(1.0, 1.0));
    var offs := Offsets([Point(-5.0, 0.0)], b.center);
    assert offs == [Point(-5.0, 0.0)];
  }

  /** The clearance only depends on the points relative to the centre:
      moving the points and the centre by the same vector changes nothing. */
  lemma DistTranslation(b: Border, points: seq<Point>, moved: seq<Point>, v: Point, sqrt: real -> real)
    requires |moved| == |points| && forall k :: 0 <= k < |points| ==> moved[k] == Add(points[k], v)
    ensures DistToInnerBoundary(b.(center := Add(b.center, v)), moved, sqrt)
         == DistToInnerBoundary(b, points, sqrt)
  {
    var c := Add(b.center, v);
    assert Offsets(moved, c) == Offsets(points, b.center) by {
      forall k | 0 <= k < |points| ensures Sub(moved[k], c) == Sub(points[k], b.center) {
      }
    }
  }

  /* ---------------------------------------------------------------- */
  /* Automatic fit                                                     */
  /* ---------------------------------------------------------------- */

  /** An optional thickness factor scaled by a size: None stays None. */
  function ScaledThickness(size: real, thicknessFactor: Option<real>): (t: Option<real>)
    ensures t.None? <==> thicknessFactor.None?
  {
    match thicknessFactor
    case None => None
    case Some(f) => Some(size * f)
  }

  /** The circular border fitted to a circle: radius * (1 + border_factor)
      and thickness radius * thickness_factor. The NaN circle of three
      coincident points gives a NaN border. */
  function FitCircle(circle: SmallestBoundary.Circle, borderFactor: real,
                     thicknessFactor: Option<real>, sqrt: real -> real): (r: Result<Border>)
    ensures r.Err? <==> circle.Undefined?
    ensures r.Err? ==> r.error == NotANumber
    ensures r.Ok? ==> (r.value.center == circle.center && r.value.shape.Circular? &&
      r.value.backgroundName == BACKGROUND_NAME && r.value.thicknessName == THICKNESS_NAME)
  {
    match circle
    case Undefined => Err(NotANumber)
    case Circle(c, r2) =>
      var radius := sqrt(r2);
      Ok(NewBorder(c, Circular(radius * (1.0 + borderFactor)), ScaledThickness(radius, thicknessFactor)))
  }

  /** With a non-negative border factor the fitted circle is no smaller
      than the one it is fitted to, and the thickness is None exactly when
      no thickness factor is given. */
  lemma FitCircleNoSmaller(c: Point, r2: real, borderFactor: real, thicknessFactor: Option<real>,
                           sqrt: real -> real)
    requires IsSqrt(sqrt) && 0.0 <= r2 && 0.0 <= borderFactor
    ensures var b := FitCircle(SmallestBoundary.Circle(c, r2), borderFactor, thicknessFactor, sqrt).value;
      b.shape.radius >= sqrt(r2) && (b.thickness.None? <==> thicknessFactor.None?)
  {
    assert 0.0 <= sqrt(r2);
    MulLe(1.0, 1.0 + borderFactor, sqrt(r2));
    assert Mul(1.0 + borderFactor, sqrt(r2)) == sqrt(r2) * (1.0 + borderFactor);
  }

  /** With a positive border factor, points enclosed by a circle of
      positive radius are strictly inside the fitted border. */
  lemma FitCircleClears(c: Point, r2: real, borderFactor: real, thicknessFactor: Option<real>,
                        points: seq<Point>, sqrt: real -> real)
    requires IsSqrt(sqrt) && 0.0 < r2 && 0.0 < borderFactor && |points| > 0
    requires forall k :: 0 <= k < |points| ==> Dist2(points[k], c) <= r2
    ensures var b := FitCircle(SmallestBoundary.Circle(c, r2), borderFactor, thicknessFactor, sqrt).value;
      DistToInnerBoundary(b, points, sqrt).value > 0.0
  {
    var b := FitCircle(SmallestBoundary.Circle(c, r2), borderFactor, thicknessFactor, sqrt).value;
    var radius := sqrt(r2);
    SqrtPositive(sqrt, r2);
    MulLt(1.0, 1.0 + borderFactor, radius);
    assert Mul(1.0 + borderFactor, radius) == radius * (1.0 + borderFactor);
    forall k | 0 <= k < |points| ensures sqrt(Dist2(points[k], c)) < b.shape.radius {
      Norm2NonNegative(Sub(points[k], c));
      SqrtMonotone(sqrt, Dist2(points[k], c), r2);
    }
    CircularInside(b, points, sqrt);
  }

  /** A border factor of at least the tolerance widens the radius by more
      than that tolerance admits: points the circle encloses (squared
      distance at most r2 * EPS_MUL, r2 > 0) are strictly inside the fitted
      border. */
  lemma FitCircleClearsEnclosed(circle: SmallestBoundary.Circle, borderFactor: real,
                                thicknessFactor: Option<real>, points: seq<Point>, sqrt: real -> real)
    requires IsSqrt(sqrt) && circle.Circle? && 0.0 < circle.r2
    requires SmallestBoundary.EPS_ADD <= borderFactor && |points| > 0
    requires forall k :: 0 <= k < |points| ==> SmallestBoundary.Encloses(circle, points[k])
    ensures DistToInnerBoundary(FitCircle(circle, borderFactor, thicknessFactor, sqrt).value, points, sqrt).value > 0.0
  {
    var b := FitCircle(circle, borderFactor, thicknessFactor, sqrt).value;
    var s := sqrt(circle.r2);
    var f := 1.0 + borderFactor;
    var t := s * f;
    SqrtPositive(sqrt, circle.r2);
    assert b.shape.radius == t;
    assert Sq(t) == Mul(circle.r2, Sq(f)) by {
      assert Sq(s) == circle.r2;
      assert Sq(t) == (s * s) * (f * f);
    }
    assert Sq(f) > SmallestBoundary.EPS_MUL by {
      assert Sq(f) == 1.0 + 2.0 * borderFactor + Sq(borderFactor);
      SquareNonNegative(borderFactor);
    }
    MulLt(SmallestBoundary.EPS_MUL, Sq(f), circle.r2);
    assert 0.0 <= t by { MulLe(0.0, f, s); }
    SqrtOfSquare(sqrt, t);
    forall k | 0 <= k < |points| ensures sqrt(Dist2(points[k], circle.center)) < t {
      var d := Dist2(points[k], circle.center);
      Norm2NonNegative(Sub(points[k], circle.center));
      assert d < Sq(t);
      SqrtMonotone(sqrt, d, Sq(t));
      assert Sq(sqrt(d)) == d;
    }
    CircularInside(b, points, sqrt);
  }

  /** `circular(points, border_factor, thickness_factor)`: the border
      fitted to the smallest enclosing circle of the points, with the
      single point taken as a circle of radius 0. */
  method CircularFit(points: seq<Point>, borderFactor: real, thicknessFactor: Option<real>,
                     sqrt: real -> real, shuffle: seq<Point> -> seq<Point>)
    returns (r: Result<Border>, ghost circle: SmallestBoundary.Circle, ghost run: SmallestBoundary.CircleRun)
    requires SmallestBoundary.IsShuffle(shuffle)
    ensures r == FitCircle(circle, borderFactor, thicknessFactor, sqrt)
    ensures SmallestBoundary.CircleOf(points, shuffle, circle, run)
    ensures multiset(shuffle(run.hull)) == multiset(run.hull)
    ensures |points| == 1 ==> circle == SmallestBoundary.Circle(points[0], 0.0)
  {
    var c;
    c, run := SmallestBoundary.SmallestCircle(points, shuffle);
    circle := c;
    r := FitCircle(c, borderFactor, thicknessFactor, sqrt);
  }

  /** The border fitted to at most three points, from a circle of positive
      radius and a border factor of at least the tolerance, has every point
      strictly inside. */
  lemma CircularFitClears(points: seq<Point>, shuffle: seq<Point> -> seq<Point>,
                          circle: SmallestBoundary.Circle, run: SmallestBoundary.CircleRun,
                          borderFactor: real, thicknessFactor: Option<real>, sqrt: real -> real)
    requires SmallestBoundary.CircleOf(points, shuffle, circle, run)
    requires multiset(shuffle(run.hull)) == multiset(run.hull)
    requires IsSqrt(sqrt) && 0 < |points| <= 3 && circle.Circle? && 0.0 < circle.r2
    requires SmallestBoundary.EPS_ADD <= borderFactor
    ensures DistToInnerBoundary(FitCircle(circle, borderFactor, thicknessFactor, sqrt).value, points, sqrt).value > 0.0
  {
    SmallestBoundary.CircleOfEncloses(points, shuffle, circle, run);
    FitCircleClearsEnclosed(circle, borderFactor, thicknessFactor, points, sqrt);
  }

  /** `rectangular(points, border_factor, thickness_factor)`: the bounding
      box widened on both axes by |lengths| * border_factor, thickness
      |lengths| * thickness_factor. No points: ValueError. */
  function FitRectangle(points: seq<Point>, borderFactor: real, thicknessFactor: Option<real>,
                        sqrt: real -> real): (r: Result<Border>)
    ensures r.Ok? <==> |points| > 0
    ensures r.Err? ==> r.error == ValueError
    ensures r.Ok? ==> (r.value.center == SmallestBoundary.SmallestRectangle(points).value.0 &&
      r.value.shape.Rectangular? &&
      r.value.backgroundName == BACKGROUND_NAME && r.value.thicknessName == THICKNESS_NAME)
  {
    match SmallestBoundary.SmallestRectangle(points)
    case Err(e) => Err(e)
    case Ok((c, lengths)) => Ok(WidenedBox(c, lengths, borderFactor, thicknessFactor, sqrt))
  }

  /** The rectangular border around the box (c, lengths): half extents
      lengths + |lengths| * border_factor. */
  function WidenedBox(c: Point, lengths: Point, borderFactor: real, thicknessFactor: Option<real>,
                      sqrt: real -> real): Border
  {
    var size := sqrt(Norm2(lengths));
    var l0 := Point(lengths.x + size * borderFactor, lengths.y + size * borderFactor);
    NewBorder(c, Rectangular(l0.x, l0.y), ScaledThickness(size, thicknessFactor))
  }

  lemma WidenedBoxBounds(c: Point, l: Point, borderFactor: real, thicknessFactor: Option<real>,
                         sqrt: real -> real)
    requires IsSqrt(sqrt) && 0.0 <= borderFactor
    ensures var b := WidenedBox(c, l, borderFactor, thicknessFactor, sqrt);
      b.shape.halfWidth >= l.x && b.shape.halfHeight >= l.y
    ensures var b := WidenedBox(c, l, borderFactor, thicknessFactor, sqrt);
      0.0 < borderFactor && Norm2(l) > 0.0 ==> b.shape.halfWidth > l.x && b.shape.halfHeight > l.y
  {
    Norm2NonNegative(l);
    var size := sqrt(Norm2(l));
    MulLe(0.0, size, borderFactor);
    assert Mul(size, borderFactor) == size * borderFactor;
    if 0.0 < borderFactor && Norm2(l) > 0.0 {
      SqrtPositive(sqrt, Norm2(l));
      MulLt(0.0, size, borderFactor);
    }
  }

  /** With a non-negative border factor the fitted rectangle holds the
      bounding box: its half extents are at least the box's. */
  lemma FitRectangleNoSmaller(points: seq<Point>, borderFactor: real, thicknessFactor: Option<real>,
                              sqrt: real -> real)
    requires IsSqrt(sqrt) && |points| > 0 && 0.0 <= borderFactor
    ensures var l := SmallestBoundary.SmallestRectangle(points).value.1;
      var b := FitRectangle(points, borderFactor, thicknessFactor, sqrt).value;
      b.shape.halfWidth >= l.x && b.shape.halfHeight >= l.y &&
      (b.thickness.None? <==> thicknessFactor.None?)
  {
    var (c, l) := SmallestBoundary.SmallestRectangle(points).value;
    WidenedBoxBounds(c, l, borderFactor, thicknessFactor, sqrt);
  }

  /** With a positive border factor and a box that is not a single point,
      every point is strictly inside the fitted rectangle. */
  lemma FitRectangleClears(points: seq<Point>, borderFactor: real, thicknessFactor: Option<real>,
                           sqrt: real -> real)
    requires IsSqrt(sqrt) && |points| > 0 && 0.0 < borderFactor
    requires Norm2(SmallestBoundary.SmallestRectangle(points).value.1) > 0.0
    ensures DistToInnerBoundary(FitRectangle(points, borderFactor, thicknessFactor, sqrt).value, points, sqrt).value > 0.0
  {
    var (c, l) := SmallestBoundary.SmallestRectangle(points).value;
    var b := FitRectangle(points, borderFactor, thicknessFactor, sqrt).value;
    WidenedBoxBounds(c, l, borderFactor, thicknessFactor, sqrt);
    RectangularInside(b, points, sqrt);
  }

  /* ---------------------------------------------------------------- */
  /* AutoBorder (the older border module)                              */
  /* ---------------------------------------------------------------- */

  datatype AutoKind = AutoBase | AutoCircular | AutoRectangular

  /** An automatic border: the kind, `border_factor` and
      `thickness_factor` (default None). */
  datatype AutoBorder = AutoBorder(kind: AutoKind, borderFactor: real, thicknessFactor: Option<real>)

  /** `AutoBorder.get_border`: NotImplementedError for the base class; the
      circle or rectangle fit for the two subclasses. */
  method GetBorder(auto: AutoBorder, points: seq<Point>, sqrt: real -> real,
                   shuffle: seq<Point> -> seq<Point>)
    returns (r: Result<Border>, ghost circle: SmallestBoundary.Circle, ghost run: SmallestBoundary.CircleRun)
    requires SmallestBoundary.IsShuffle(shuffle)
    ensures auto.kind == AutoBase ==> r == Err(NotImplementedError)
    ensures auto.kind == AutoCircular ==> r == FitCircle(circle, auto.borderFactor, auto.thicknessFactor, sqrt)
    ensures auto.kind == AutoCircular ==>
      SmallestBoundary.CircleOf(points, shuffle, circle, run) && multiset(shuffle(run.hull)) == multiset(run.hull)
    ensures auto.kind == AutoCircular && |points| == 1 ==> circle == SmallestBoundary.Circle(points[0], 0.0)
    ensures auto.kind == AutoRectangular ==> r == FitRectangle(points, auto.borderFactor, auto.thicknessFactor, sqrt)
  {
    circle := SmallestBoundary.Undefined;
    run := SmallestBoundary.CircleRun([]);
    match auto.kind
    case AutoBase =>
      r := Err(NotImplementedError);
    case AutoCircular =>
      r, circle, run := CircularFit(points, auto.borderFactor, auto.thicknessFactor, sqrt, shuffle);
    case AutoRectangular =>
      r := FitRectangle(points, auto.borderFactor, auto.thicknessFactor, sqrt);
  }
}
