/** A geometry: the polygons of the scatterer and the border around them,
    with the translation that puts the border centre at the origin, the
    critical intervals by polygon name and the largest admissible corner
    radius. */
module Geometries {
  import opened Wrappers
  import opened Points
  import opened Polygons
  import opened Borders
  import ClosestPoints
  import SmallestBoundary

  /** The centres of a corner list: what `get_vertices` returns. */
  function Centres(cs: seq<Corner>): (vs: seq<Point>)
    ensures |vs| == |cs| && forall i :: 0 <= i < |cs| ==> vs[i] == cs[i].c
  {
    seq(|cs|, i requires 0 <= i < |cs| => cs[i].c)
  }

  /** `vstack` of the vertices of several polygons, given by their corner
      lists. */
  function Stack(css: seq<seq<Corner>>): seq<Point>
  {
    if |css| == 0 then [] else Stack(css[..|css| - 1]) + Centres(css[|css| - 1])
  }

  /** Every corner list translated by the same vector. */
  function TranslatedAll(css: seq<seq<Corner>>, v: Point): (r: seq<seq<Corner>>)
    ensures |r| == |css| && forall i :: 0 <= i < |css| ==> r[i] == Translated(css[i], v)
  {
    seq(|css|, i requires 0 <= i < |css| => Translated(css[i], v))
  }

  /** Translating the polygons translates every stacked vertex. */
  lemma {:induction false} StackTranslated(css: seq<seq<Corner>>, v: Point)
    ensures |Stack(TranslatedAll(css, v))| == |Stack(css)|
    ensures forall k :: 0 <= k < |Stack(css)| ==> Stack(TranslatedAll(css, v))[k] == Add(Stack(css)[k], v)
  {
    if |css| > 0 {
      var init := css[..|css| - 1];
      var t := TranslatedAll(css, v);
      assert t[..|css| - 1] == TranslatedAll(init, v);
      StackTranslated(init, v);
      var a, b := Stack(init), Centres(css[|css| - 1]);
      var a', b' := Stack(TranslatedAll(init, v)), Centres(t[|css| - 1]);
      assert Stack(t) == a' + b';
      forall k | 0 <= k < |b| ensures b'[k] == Add(b[k], v) {
        TranslatedVertices(css[|css| - 1], v, k);
      }
    }
  }

  /** The two arguments of the minimum in `max_corner_radius`: half the
      minimum vertex distance (`inf` when there is no pair) and the border
      clearance, whose error propagates. */
  function CornerRadius(m: ClosestPoints.Dist, clearance: Result<real>): (r: Result<real>)
    ensures r.Err? <==> clearance.Err?
    ensures r.Err? ==> r.error == clearance.error
    ensures r.Ok? ==> r.value <= clearance.value && (r.value == clearance.value || m.Finite?)
    ensures r.Ok? && m.Finite? ==> r.value <= m.d / 2.0 && (r.value == m.d / 2.0 || r.value == clearance.value)
  {
    match clearance
    case Err(e) => Err(e)
    case Ok(b) => if m.Infinity? then Ok(b) else Ok(RealMin(m.d / 2.0, b))
  }

  /** Moving the polygons by v and the border centre by v keeps the minimum
      vertex distance and the border clearance, hence the corner radius. */
  lemma CornerRadiusTranslation(css: seq<seq<Corner>>, b: Border, v: Point, sqrt: real -> real,
                                m: ClosestPoints.Dist)
    ensures var moved := Stack(TranslatedAll(css, v));
      (ClosestPoints.IsMinDist(moved, sqrt, m) <==> ClosestPoints.IsMinDist(Stack(css), sqrt, m)) &&
      DistToInnerBoundary(b.(center := Add(b.center, v)), moved, sqrt) == DistToInnerBoundary(b, Stack(css), sqrt)
  {
    StackTranslated(css, v);
    var moved := Stack(TranslatedAll(css, v));
    ClosestPoints.MinDistTranslation(Stack(css), moved, v, sqrt, m);
    DistTranslation(b, Stack(css), moved, v, sqrt);
  }

  /** `make_center_origin` moves the border centre to the origin, so the
      corner radius is the same before and after. */
  lemma CenterOriginKeepsRadius(css: seq<seq<Corner>>, b: Border, sqrt: real -> real, m: ClosestPoints.Dist)
    requires ClosestPoints.IsMinDist(Stack(css), sqrt, m)
    ensures var moved := Stack(TranslatedAll(css, Neg(b.center)));
      ClosestPoints.IsMinDist(moved, sqrt, m) &&
      CornerRadius(m, DistToInnerBoundary(b.(center := Point(0.0, 0.0)), moved, sqrt))
        == CornerRadius(m, DistToInnerBoundary(b, Stack(css), sqrt))
  {
    var b0 := b.(center := Point(0.0, 0.0));
    assert b.(center := Add(b.center, Neg(b.center))) == b0;
    CornerRadiusTranslation(css, b, Neg(b.center), sqrt, m);
  }

  /** The names and corner lists of the polygons, in order. */
  function NamedIntervals(named: seq<(string, seq<Corner>)>): Result<map<string, (real, real)>>
  {
    if |named| == 0 then Ok(map[])
    else
      match NamedIntervals(named[..|named| - 1])
      case Err(e) => Err(e)
      case Ok(m) =>
        match IntervalHull(named[|named| - 1].1)
        case Err(e) => Err(e)
        case Ok(iv) => Ok(m[named[|named| - 1].0 := iv])
  }

  /** The dictionary fails exactly when some polygon's interval fails. */
  lemma {:induction false} NamedIntervalsOk(named: seq<(string, seq<Corner>)>)
    ensures NamedIntervals(named).Ok? <==> forall i :: 0 <= i < |named| ==> IntervalHull(named[i].1).Ok?
  {
    if |named| > 0 {
      var init := named[..|named| - 1];
      NamedIntervalsOk(init);
      assert forall i :: 0 <= i < |init| ==> init[i] == named[i];
    }
  }

  /** Its keys are exactly the polygon names. */
  lemma {:induction false} NamedIntervalsKeys(named: seq<(string, seq<Corner>)>)
    requires NamedIntervals(named).Ok?
    ensures NamedIntervals(named).value.Keys == set i | 0 <= i < |named| :: named[i].0
  {
    if |named| > 0 {
      var n := |named|;
      var init := named[..n - 1];
      NamedIntervalsKeys(init);
      assert forall i :: 0 <= i < n - 1 ==> init[i] == named[i];
      assert (set i | 0 <= i < |named| :: named[i].0) == (set i | 0 <= i < n - 1 :: init[i].0) + {named[n - 1].0};
    }
  }

  /** Each name maps to the interval of the LAST polygon carrying it. */
  lemma {:induction false} NamedIntervalsLast(named: seq<(string, seq<Corner>)>, i: nat)
    requires NamedIntervals(named).Ok? && i < |named|
    requires forall j :: i < j < |named| ==> named[j].0 != named[i].0
    ensures IntervalHull(named[i].1).Ok? && named[i].0 in NamedIntervals(named).value
    ensures NamedIntervals(named).value[named[i].0] == IntervalHull(named[i].1).value
  {
    var n := |named|;
    var init := named[..n - 1];
    if i < n - 1 {
      assert init[i] == named[i];
      NamedIntervalsLast(init, i);
    }
  }

  /** The stacked vertices of a list of polygons. */
  function Vertices(polygons: seq<Polygon>): (vs: seq<Point>)
    reads polygons
  {
    Stack(seq(|polygons|, i reads polygons requires 0 <= i < |polygons| => polygons[i].corners))
  }

  /** What `AutoBorder.get_border` gives for a kind: the circle fit for the
      circle it found, the rectangle fit, or NotImplementedError. */
  function AutoFit(auto: AutoBorder, circle: SmallestBoundary.Circle, points: seq<Point>,
                   sqrt: real -> real): (r: Result<Border>)
    ensures auto.kind == AutoBase ==> r == Err(NotImplementedError)
    ensures auto.kind == AutoRectangular ==> (r.Ok? <==> |points| > 0)
    ensures auto.kind == AutoCircular ==> (r.Ok? <==> circle.Circle?)
  {
    match auto.kind
    case AutoBase => Err(NotImplementedError)
    case AutoCircular => FitCircle(circle, auto.borderFactor, auto.thicknessFactor, sqrt)
    case AutoRectangular => FitRectangle(points, auto.borderFactor, auto.thicknessFactor, sqrt)
  }

  /** `Union[Border, AutoBorder]` and anything else. */
  datatype BorderArg = Given(border: Border) | Auto(auto: AutoBorder) | Unknown

  class Geometry {
    var polygons: seq<Polygon>
    var border: Border

    constructor (polygons: seq<Polygon>, border: Border)
      ensures this.polygons == polygons && this.border == border
    {
      this.polygons := polygons;
      this.border := border;
    }

    /** The corner lists of the polygons. */
    function CornerLists(): (css: seq<seq<Corner>>)
      reads this, polygons
      ensures |css| == |polygons| && forall i :: 0 <= i < |polygons| ==> css[i] == polygons[i].corners
    {
      seq(|polygons|, i reads this, polygons requires 0 <= i < |polygons| => polygons[i].corners)
    }

    /** Name and corners of each polygon. */
    function Named(): (named: seq<(string, seq<Corner>)>)
      reads this, polygons
      ensures |named| == |polygons|
      ensures forall i :: 0 <= i < |polygons| ==> named[i] == (polygons[i].name, polygons[i].corners)
    {
      seq(|polygons|, i reads this, polygons requires 0 <= i < |polygons| => (polygons[i].name, polygons[i].corners))
    }

    /** No polygon object appears twice. */
    predicate Distinct()
      reads this
    {
      forall i, j :: 0 <= i < j < |polygons| ==> polygons[i] != polygons[j]
    }

    /** `make_center_origin`: translates every polygon by minus the border
        centre, then puts that centre at the origin. */
    method MakeCenterOrigin()
      requires Distinct()
      modifies this, polygons
      ensures polygons == old(polygons) && border == old(border).(center := Point(0.0, 0.0))
      ensures CornerLists() == TranslatedAll(old(CornerLists()), Neg(old(border.center)))
      ensures forall i :: 0 <= i < |polygons| ==>
        polygons[i].lengths == old(polygons[i].lengths) && polygons[i].name == old(polygons[i].name)
    {
      var v := Neg(border.center);
      var i := 0;
      while i < |polygons|
        invariant 0 <= i <= |polygons|
        invariant polygons == old(polygons) && border == old(border)
        invariant forall j :: 0 <= j < i ==> polygons[j].corners == Translated(old(polygons[j].corners), v)
        invariant forall j :: i <= j < |polygons| ==> polygons[j].corners == old(polygons[j].corners)
        invariant forall j :: 0 <= j < |polygons| ==>
          polygons[j].lengths == old(polygons[j].lengths) && polygons[j].name == old(polygons[j].name)
      {
        polygons[i].Translate(v);
        i := i + 1;
      }
      border := border.(center := Point(0.0, 0.0));
    }

    /** `critical_interval`: polygon name to the polygon's interval, built
        in order, so a later polygon overrides an earlier one of the same
        name. */
    method CriticalInterval() returns (r: Result<map<string, (real, real)>>)
      ensures r == NamedIntervals(Named())
    {
      var named := Named();
      var m: map<string, (real, real)> := map[];
      var k := 0;
      while k < |polygons|
        invariant 0 <= k <= |polygons|
        invariant NamedIntervals(named[..k]) == Ok(m)
      {
        var iv := polygons[k].CriticalInterval();
        assert named[..k + 1][..k] == named[..k];
        if iv.Err? {
          assert named[k] == (polygons[k].name, polygons[k].corners);
          NamedIntervalsPrefix(named, k + 1);
          return Err(iv.error);
        }
        m := m[polygons[k].name := iv.value];
        k := k + 1;
      }
      assert named[..k] == named;
      r := Ok(m);
    }

    /** `max_corner_radius`: min(min_dist(V) / 2, border clearance of V)
        over the stacked vertices V; `vstack` of no polygon raises
        ValueError. */
    method MaxCornerRadius(sqrt: real -> real) returns (r: Result<real>, ghost m: ClosestPoints.Dist)
      requires IsSqrt(sqrt)
      ensures |polygons| == 0 ==> r == Err(ValueError)
      ensures |polygons| > 0 ==> (ClosestPoints.IsMinDist(Stack(CornerLists()), sqrt, m) &&
        r == CornerRadius(m, DistToInnerBoundary(border, Stack(CornerLists()), sqrt)))
    {
      m := ClosestPoints.Infinity;
      if |polygons| == 0 {
        return Err(ValueError), m;
      }
      var points := Stack(CornerLists());
      var d := ClosestPoints.MinDist(points, sqrt);
      m := d;
      r := CornerRadius(d, DistToInnerBoundary(border, points, sqrt));
    }

    /** `from_polygons`: an explicit border is kept, an automatic one is
        fitted to the stacked vertices, anything else raises ValueError;
        no polygon at all fails in `vstack` first. */
    static method FromPolygons(polygons: seq<Polygon>, border: BorderArg, sqrt: real -> real,
                               shuffle: seq<Point> -> seq<Point>)
      returns (r: Result<Geometry>, ghost circle: SmallestBoundary.Circle, ghost run: SmallestBoundary.CircleRun)
      requires SmallestBoundary.IsShuffle(shuffle)
      ensures |polygons| == 0 ==> r == Err(ValueError)
      ensures |polygons| > 0 && border.Unknown? ==> r == Err(ValueError)
      ensures |polygons| > 0 && border.Given? ==>
        r.Ok? && fresh(r.value) && r.value.polygons == polygons && r.value.border == border.border
      ensures |polygons| > 0 && border.Auto? ==>
        var fit := AutoFit(border.auto, circle, Vertices(polygons), sqrt);
        (r.Err? <==> fit.Err?) && (r.Err? ==> r.error == fit.error) &&
        (r.Ok? ==> fresh(r.value) && r.value.polygons == polygons && r.value.border == fit.value)
      ensures |polygons| > 0 && border.Auto? && border.auto.kind == AutoCircular ==>
        var vs := Vertices(polygons);
        SmallestBoundary.CircleOf(vs, shuffle, circle, run) && multiset(shuffle(run.hull)) == multiset(run.hull)
    {
      circle := SmallestBoundary.Undefined;
      run := SmallestBoundary.CircleRun([]);
      if |polygons| == 0 {
        return Err(ValueError), circle, run;
      }
      match border
      case Unknown =>
        r := Err(ValueError);
      case Given(b) =>
        var g := new Geometry(polygons, b);
        r := Ok(g);
      case Auto(auto) =>
        r, circle, run := FromAuto(polygons, auto, sqrt, shuffle);
    }

    /** The automatic-border case of `from_polygons`. */
    static method FromAuto(polygons: seq<Polygon>, auto: AutoBorder, sqrt: real -> real,
                           shuffle: seq<Point> -> seq<Point>)
      returns (r: Result<Geometry>, ghost circle: SmallestBoundary.Circle, ghost run: SmallestBoundary.CircleRun)
      requires SmallestBoundary.IsShuffle(shuffle)
      ensures var fit := AutoFit(auto, circle, Vertices(polygons), sqrt);
        (r.Err? <==> fit.Err?) && (r.Err? ==> r.error == fit.error) &&
        (r.Ok? ==> fresh(r.value) && r.value.polygons == polygons && r.value.border == fit.value)
      ensures auto.kind == AutoCircular ==>
        var vs := Vertices(polygons);
        SmallestBoundary.CircleOf(vs, shuffle, circle, run) && multiset(shuffle(run.hull)) == multiset(run.hull)
    {
      var fit;
      var vs := Vertices(polygons);
      fit, circle, run := GetBorder(auto, vs, sqrt, shuffle);
      assert fit == AutoFit(auto, circle, vs, sqrt);
      if fit.Err? {
        return Err(fit.error), circle, run;
      }
      var g := new Geometry(polygons, fit.value);
      assert Vertices(polygons) == vs;
      r := Ok(g);
    }

    /** `from_polygon`: the same as `from_polygons` on a one-element list,
        so an automatic border is fitted to that polygon's vertices. */
    static method FromPolygon(polygon: Polygon, border: BorderArg, sqrt: real -> real,
                              shuffle: seq<Point> -> seq<Point>)
      returns (r: Result<Geometry>, ghost circle: SmallestBoundary.Circle, ghost run: SmallestBoundary.CircleRun)
      requires SmallestBoundary.IsShuffle(shuffle)
      ensures border.Unknown? ==> r == Err(ValueError)
      ensures border.Given? ==>
        r.Ok? && fresh(r.value) && r.value.polygons == [polygon] && r.value.border == border.border
      ensures border.Auto? ==>
        var fit := AutoFit(border.auto, circle, polygon.GetVertices(), sqrt);
        (r.Err? <==> fit.Err?) && (r.Err? ==> r.error == fit.error) &&
        (r.Ok? ==> fresh(r.value) && r.value.polygons == [polygon] && r.value.border == fit.value)
      ensures border.Auto? && border.auto.kind == AutoCircular ==>
        var vs := polygon.GetVertices();
        SmallestBoundary.CircleOf(vs, shuffle, circle, run) && multiset(shuffle(run.hull)) == multiset(run.hull)
    {
      SingleVertices(polygon);
      r, circle, run := FromPolygons([polygon], border, sqrt, shuffle);
    }
  }

  /** The stacked vertices of one polygon are its own vertices. */
  lemma SingleVertices(polygon: Polygon)
    ensures Vertices([polygon]) == polygon.GetVertices()
  {
    var css := seq(1, i reads [polygon] requires 0 <= i < 1 => [polygon][i].corners);
    assert css == [polygon.corners];
    assert css[..0] == [];
    assert Stack(css) == Centres(polygon.corners);
    assert Centres(polygon.corners) == polygon.GetVertices();
  }

  /** An interval that fails in a prefix fails the whole dictionary. */
  lemma {:induction false} NamedIntervalsPrefix(named: seq<(string, seq<Corner>)>, k: nat)
    requires 0 < k <= |named|
    requires NamedIntervals(named[..k - 1]).Ok? && IntervalHull(named[k - 1].1).Err?
    ensures NamedIntervals(named).Err? && NamedIntervals(named).error == IntervalHull(named[k - 1].1).error
    decreases |named|
  {
    if k < |named| {
      var init := named[..|named| - 1];
      assert init[..k - 1] == named[..k - 1] && init[k - 1] == named[k - 1];
      NamedIntervalsPrefix(init, k);
    } else {
      assert named[..|named| - 1] == named[..k - 1];
    }
  }
}
