/** The layout of the T-conform mesh of a polygon: each corner becomes a
    disc of p + q sectors, the first p inside the polygon (cavity) and the
    last q outside (vacuum); each side becomes a cavity and a vacuum
    quadrangle between the discs of its two corners; the inner and outer
    curve loops close the mesh. The mesh kernel is a recording object
    that hands out consecutive tags. */
module MeshLost {
  import opened Arith
  import opened Rationals
  import opened Wrappers
  import opened Angles
  import opened Polygons
  import opened CircularIterable

  /* ---------------------------------------------------------------- */
  /* `_compute_pq`                                                     */
  /* ---------------------------------------------------------------- */

  /** a * b by repeated addition (keeps products out of unfoldings). */
  function Prod(a: nat, b: nat): (p: nat)
    ensures a > 0 && b > 0 ==> p >= a
  {
    if b == 0 then 0 else Prod(a, b - 1) + a
  }

  /** n / d by repeated subtraction. */
  function Quot(n: nat, d: nat): nat
    requires d > 0
  {
    if n < d then 0 else Quot(n - d, d) + 1
  }

  lemma {:induction false} ProdIsMul(a: nat, b: nat)
    ensures Prod(a, b) == a * b
  {
    if b > 0 {
      ProdIsMul(a, b - 1);
      assert a * b == a * (b - 1) + a;
    }
  }

  lemma {:induction false} QuotIsDiv(n: nat, d: nat)
    requires d > 0
    ensures Quot(n, d) == n / d
  {
    if n >= d {
      QuotIsDiv(n - d, d);
      ModChar(n, d, (n - d) / d + 1, (n - d) % d);
    } else {
      ModChar(n, d, 0, n);
    }
  }

  /** `int((xn / xd) / (fn / fd))` for fractions: the quotient truncated
      toward zero. */
  function TruncQuotient(xn: int, xd: nat, fn: int, fd: nat): int
    requires xd > 0 && fd > 0 && fn != 0
  {
    var mag: int := Quot(Prod(Abs(xn), fd), Prod(xd, Abs(fn)));
    if (xn >= 0) == (fn > 0) then mag else -mag
  }

  /** `_compute_pq(angle, phi)`: (int(angle / phi), int((2 - angle) / phi));
      dividing a fraction by a zero fraction raises ZeroDivisionError. */
  function ComputePQ(angle: Angle, phi: Angle): (r: Result<(int, int)>)
    ensures r.Err? <==> phi.num == 0
    ensures r.Err? ==> r.error == ZeroDivisionError
  {
    if phi.num == 0 then Err(ZeroDivisionError)
    else Ok((TruncQuotient(angle.num, angle.den, phi.num, phi.den),
             TruncQuotient(2 * angle.den - angle.num, angle.den, phi.num, phi.den)))
  }

  /** When x == m * phi for a whole m >= 0, int(x / phi) is m. */
  lemma ExactQuotient(xn: int, xd: int, phi: Angle, m: int)
    requires xd > 0 && phi.num > 0 && m >= 0
    requires xn as real / xd as real == Mul(m as real, phi.Value())
    ensures TruncQuotient(xn, xd, phi.num, phi.den) == m
  {
    MulPositive(xd, phi.num);
    ScaleValue(m, phi.num, phi.den);
    CrossMultiply(xn, xd, m * phi.num, phi.den);
    assert xn * phi.den == m * (xd * phi.num);
    if m > 0 {
      MulPositive(m, xd * phi.num);
    }
    if xn < 0 {
      MulPositive(-xn, phi.den);
      assert false;
    }
    ProdIsMul(xn, phi.den);
    ProdIsMul(xd, phi.num);
    QuotIsDiv(xn * phi.den, xd * phi.num);
    ModChar(xn * phi.den, xd * phi.num, m, 0);
  }

  /** With the polygon's elementary angle phi and a corner angle strictly
      between 0 and 2: p * phi is the angle, q * phi is 2 - angle, both
      p, q >= 2, and (p + q) * phi == 2. */
  lemma PolygonPQ(cs: seq<Corner>, i: nat)
    requires i < |cs| && 0.0 < cs[i].angle.Value() < 2.0
    ensures var phi := PolygonElementaryAngle(cs);
      var r := ComputePQ(cs[i].angle, phi);
      r.Ok? && r.value.0 >= 2 && r.value.1 >= 2 && phi.Value() > 0.0 &&
      cs[i].angle.Value() == Mul(r.value.0 as real, phi.Value()) &&
      2.0 - cs[i].angle.Value() == Mul(r.value.1 as real, phi.Value()) &&
      Mul((r.value.0 + r.value.1) as real, phi.Value()) == 2.0
  {
    var a, phi := cs[i].angle, PolygonElementaryAngle(cs);
    var p, q := CornerMultiples(cs, i);
    PQOfMultiples(a, phi, p, q);
  }

  /** The whole numbers of phi in the angle and in its complement to 2. */
  lemma CornerMultiples(cs: seq<Corner>, i: nat) returns (p: int, q: int)
    requires i < |cs| && 0.0 < cs[i].angle.Value() < 2.0
    ensures p >= 2 && q >= 2 && PolygonElementaryAngle(cs).Value() > 0.0
    ensures cs[i].angle.Value() == Mul(p as real, PolygonElementaryAngle(cs).Value())
    ensures 2.0 - cs[i].angle.Value() == Mul(q as real, PolygonElementaryAngle(cs).Value())
  {
    var a, phi := cs[i].angle, PolygonElementaryAngle(cs);
    PolygonElementaryAngleDivides(cs, i);
    ElementaryAngleMultiples(a);
    var e := ElementaryAngle(a);
    var k := (e.num / GcdAll(ElementaryNumerators(cs))) * (LcmAll(ElementaryDenominators(cs)) / e.den);
    var (p0, q0) := ElementaryPQ(a);
    p, q := ScaledMultiples(k, p0, q0, phi.Value(), e.Value(), a.Value());
  }

  /** From x == (p0 k) v, e == k v and 2 - x == q0 e: the multiples of v. */
  lemma ScaledMultiples(k: int, p0: int, q0: int, v: real, e: real, x: real) returns (p: int, q: int)
    requires k >= 1 && p0 >= 2 && q0 >= 2
    requires x == Mul((p0 * k) as real, v) && e == Mul(k as real, v) && 2.0 - x == Mul(q0 as real, e)
    ensures p >= 2 && q >= 2 && x == Mul(p as real, v) && 2.0 - x == Mul(q as real, v)
  {
    MulAssoc(q0, k, v);
    p, q := p0 * k, q0 * k;
    MulAtLeast(k, p0);
    MulAtLeast(k, q0);
    assert k * p0 == p0 * k && k * q0 == q0 * k;
  }

  /** `_compute_pq` on exact multiples. */
  lemma PQOfMultiples(a: Angle, phi: Angle, p: int, q: int)
    requires phi.Value() > 0.0 && p >= 0 && q >= 0
    requires a.Value() == Mul(p as real, phi.Value()) && 2.0 - a.Value() == Mul(q as real, phi.Value())
    ensures ComputePQ(a, phi) == Ok((p, q))
    ensures Mul((p + q) as real, phi.Value()) == 2.0
  {
    ValuePositive(phi.num, phi.den);
    ExactQuotient(a.num, a.den, phi, p);
    SubValue(2, a.num, a.den);
    ExactQuotient(2 * a.den - a.num, a.den, phi, q);
    MulAddInt(p, q, phi.Value());
  }

  lemma MulAddInt(p: int, q: int, v: real)
    ensures Mul(p as real, v) + Mul(q as real, v) == Mul((p + q) as real, v)
  {
    assert (p + q) as real == p as real + q as real;
  }

  /** The split exists and has p, q >= 2. */
  lemma SplitWide(cs: seq<Corner>, phi: Angle, i: nat)
    requires phi == PolygonElementaryAngle(cs)
    requires i < |cs| && 0.0 < cs[i].angle.Value() < 2.0
    ensures ComputePQ(cs[i].angle, phi).Ok? && ComputePQ(cs[i].angle, phi).value.0 >= 2 &&
      ComputePQ(cs[i].angle, phi).value.1 >= 2
  {
    PolygonPQ(cs, i);
  }

  /** Every corner strictly between 0 and 2 gets the same p + q. */
  lemma SamePQSum(cs: seq<Corner>, i: nat, j: nat)
    requires i < |cs| && 0.0 < cs[i].angle.Value() < 2.0
    requires j < |cs| && 0.0 < cs[j].angle.Value() < 2.0
    ensures var phi := PolygonElementaryAngle(cs);
      ComputePQ(cs[i].angle, phi).Ok? && ComputePQ(cs[j].angle, phi).Ok? &&
      ComputePQ(cs[i].angle, phi).value.0 + ComputePQ(cs[i].angle, phi).value.1 ==
      ComputePQ(cs[j].angle, phi).value.0 + ComputePQ(cs[j].angle, phi).value.1
  {
    var phi := PolygonElementaryAngle(cs);
    var pi, qi := CornerMultiples(cs, i);
    var pj, qj := CornerMultiples(cs, j);
    PQOfMultiples(cs[i].angle, phi, pi, qi);
    PQOfMultiples(cs[j].angle, phi, pj, qj);
    MulCancel((pi + qi) as real, (pj + qj) as real, phi.Value());
  }

  lemma MulCancel(x: real, y: real, v: real)
    requires v > 0.0 && Mul(x, v) == Mul(y, v)
    ensures x == y
  {
    assert (x - y) * v == 0.0;
  }

  /* ---------------------------------------------------------------- */
  /* Subdivision counts of `_tmesh_polygon`                            */
  /* ---------------------------------------------------------------- */

  /** Python's `round` of a float: to the nearest integer, ties to even. */
  function Round(x: real): (n: int)
    ensures x - 0.5 <= n as real <= x + 0.5
    ensures (n as real == x + 0.5 || n as real == x - 0.5) ==> n % 2 == 0
  {
    var f := x.Floor;
    if x - f as real < 0.5 then f
    else if x - f as real > 0.5 then f + 1
    else if f % 2 == 0 then f else f + 1
  }

  function MaxInt(a: int, b: int): int { if a < b then b else a }

  /** `N_corner = max(2, round(1 + r / h))`. */
  function NCorner(r: real, h: real): (n: int)
    requires h > 0.0
    ensures n >= 2
    ensures n == 2 || Round(1.0 + r / h) == n
  {
    MaxInt(2, Round(1.0 + r / h))
  }

  /** Since the corner radius is min(corner_radius, h), the radial lines
      of every corner always carry exactly 2 nodes. */
  lemma NCornerIsTwo(cornerRadius: real, h: real)
    requires h > 0.0
    ensures NCorner(Min(cornerRadius, h), h) == 2
  {
    var r := Min(cornerRadius, h);
    assert r / h <= 1.0;
  }

  /** `N_edge = max(2, round(1 + (l - 2 r) / h_corner))`: at least 2, and
      otherwise within one half of 1 + (l - 2 r) / h_corner. */
  function NEdge(l: real, r: real, hCorner: real): (n: int)
    requires hCorner > 0.0
    ensures n >= 2
    ensures n == 2 || (var x := 1.0 + (l - 2.0 * r) / hCorner; x - 0.5 <= n as real <= x + 0.5)
  {
    MaxInt(2, Round(1.0 + (l - 2.0 * r) / hCorner))
  }

  /* ---------------------------------------------------------------- */
  /* The mesh kernel                                                   */
  /* ---------------------------------------------------------------- */

  /** The geometry kernel as far as the layout uses it: every entity gets
      the next tag of its kind (1, 2, ...); a negative line tag in a curve
      loop means the line taken backwards. Point coordinates and mesh sizes
      are not recorded. */
  /** A snapshot of the records a kernel holds. */
  datatype KernelState = KernelState(points: nat, lines: seq<(int, int)>, loops: seq<seq<int>>, surfaces: seq<seq<int>>,
                                     transfiniteCurves: seq<(int, int, real)>, transfiniteSurfaces: seq<int>)

  class Kernel {
    /** Number of points; point t is the t-th one added. */
    var points: nat
    /** Line t joins the two point tags lines[t - 1]. */
    var lines: seq<(int, int)>
    /** Curve loop t: its signed line tags. */
    var loops: seq<seq<int>>
    /** Plane surface t: its curve loop tags. */
    var surfaces: seq<seq<int>>
    /** Transfinite curves: line tag, number of nodes, progression. */
    var transfiniteCurves: seq<(int, int, real)>
    /** Transfinite surfaces, by tag. */
    var transfiniteSurfaces: seq<int>

    constructor ()
      ensures points == 0 && lines == [] && loops == [] && surfaces == []
      ensures transfiniteCurves == [] && transfiniteSurfaces == []
    {
      points := 0;
      lines := [];
      loops := [];
      surfaces := [];
      transfiniteCurves := [];
      transfiniteSurfaces := [];
    }

    /** All the kernel records as one value. */
    function State(): KernelState
      reads this
    {
      KernelState(points, lines, loops, surfaces, transfiniteCurves, transfiniteSurfaces)
    }

    method AddPoint() returns (t: int)
      modifies this
      ensures points == old(points) + 1 && t == points
      ensures lines == old(lines) && loops == old(loops) && surfaces == old(surfaces)
      ensures transfiniteCurves == old(transfiniteCurves) && transfiniteSurfaces == old(transfiniteSurfaces)
    {
      points := points + 1;
      t := points;
    }

    method AddLine(a: int, b: int) returns (t: int)
      modifies this
      ensures lines == old(lines) + [(a, b)] && t == |lines|
      ensures points == old(points) && loops == old(loops) && surfaces == old(surfaces)
      ensures transfiniteCurves == old(transfiniteCurves) && transfiniteSurfaces == old(transfiniteSurfaces)
    {
      lines := lines + [(a, b)];
      t := |lines|;
    }

    method AddCurveLoop(ls: seq<int>) returns (t: int)
      modifies this
      ensures loops == old(loops) + [ls] && t == |loops|
      ensures points == old(points) && lines == old(lines) && surfaces == old(surfaces)
      ensures transfiniteCurves == old(transfiniteCurves) && transfiniteSurfaces == old(transfiniteSurfaces)
    {
      loops := loops + [ls];
      t := |loops|;
    }

    method AddPlaneSurface(ls: seq<int>) returns (t: int)
      modifies this
      ensures surfaces == old(surfaces) + [ls] && t == |surfaces|
      ensures points == old(points) && lines == old(lines) && loops == old(loops)
      ensures transfiniteCurves == old(transfiniteCurves) && transfiniteSurfaces == old(transfiniteSurfaces)
    {
      surfaces := surfaces + [ls];
      t := |surfaces|;
    }

    method SetTransfiniteCurve(line: int, n: int, coef: real)
      modifies this
      ensures transfiniteCurves == old(transfiniteCurves) + [(line, n, coef)]
      ensures points == old(points) && lines == old(lines) && loops == old(loops) && surfaces == old(surfaces)
      ensures transfiniteSurfaces == old(transfiniteSurfaces)
    {
      transfiniteCurves := transfiniteCurves + [(line, n, coef)];
    }

    method SetTransfiniteSurface(s: int)
      modifies this
      ensures transfiniteSurfaces == old(transfiniteSurfaces) + [s]
      ensures points == old(points) && lines == old(lines) && loops == old(loops) && surfaces == old(surfaces)
      ensures transfiniteCurves == old(transfiniteCurves)
    {
      transfiniteSurfaces := transfiniteSurfaces + [s];
    }
  }

  /* ---------------------------------------------------------------- */
  /* `_mesh_corner`                                                    */
  /* ---------------------------------------------------------------- */

  /** n consecutive tags from `first`. */
  function Block(first: int, n: nat): (b: seq<int>)
    ensures |b| == n && forall i :: 0 <= i < n ==> b[i] == first + i
  {
    seq(n, i requires 0 <= i < n => first + i)
  }

  /** Python's resolution of a slice bound `p` on a list of length n. */
  function SliceBound(p: int, n: nat): (k: nat)
    ensures k <= n
    ensures 0 <= p <= n ==> k == p
  {
    if p < 0 then (if n + p < 0 then 0 else n + p) else if p > n then n else p
  }

  /** `s[:p]` and `s[p:]`. */
  function Head<T>(s: seq<T>, p: int): seq<T> { s[..SliceBound(p, |s|)] }
  function Tail<T>(s: seq<T>, p: int): seq<T> { s[SliceBound(p, |s|)..] }

  lemma HeadTail<T>(s: seq<T>, p: int)
    ensures Head(s, p) + Tail(s, p) == s
  {
  }

  /** The tags of one corner's rim, split after the first p. */
  datatype CornerTag = CornerTag(ptsCav: seq<int>, ptsVac: seq<int>, linesCav: seq<int>, linesVac: seq<int>)

  datatype EdgeTag = EdgeTag(lineCav: int, lineVac: int)

  /** The radial lines: from the centre to every rim point. */
  function Spokes(c: int, rim: seq<int>): (r: seq<(int, int)>)
    ensures |r| == |rim| && forall i :: 0 <= i < |rim| ==> r[i] == (c, rim[i])
  {
    seq(|rim|, i requires 0 <= i < |rim| => (c, rim[i]))
  }

  /** The sector loops: spoke i, arc i, then spoke i + 1 backwards. */
  function Sectors(rad: seq<int>, ang: seq<int>): (r: seq<seq<int>>)
    requires |rad| == |ang|
    ensures |r| == |rad|
    ensures forall i :: 0 <= i < |rad| ==> r[i] == [rad[i], ang[i], -rad[(i + 1) % |rad|]]
  {
    seq(|rad|, i requires 0 <= i < |rad| => [rad[i], ang[i], -rad[(i + 1) % |rad|]])
  }

  /** One surface per loop. */
  function Singletons(ls: seq<int>): (r: seq<seq<int>>)
    ensures |r| == |ls| && forall i :: 0 <= i < |ls| ==> r[i] == [ls[i]]
  {
    seq(|ls|, i requires 0 <= i < |ls| => [ls[i]])
  }

  /** Every line with the same node count and progression. */
  function Transfinite(ls: seq<int>, n: int, coef: real): (r: seq<(int, int, real)>)
    ensures |r| == |ls| && forall i :: 0 <= i < |ls| ==> r[i] == (ls[i], n, coef)
  {
    seq(|ls|, i requires 0 <= i < |ls| => (ls[i], n, coef))
  }

  /** A list of points, one per call. */
  method AddPoints(k: Kernel, n: nat) returns (pts: seq<int>)
    modifies k
    ensures pts == Block(old(k.points) + 1, n)
    ensures k.State() == old(k.State()).(points := old(k.points) + n)
  {
    pts := [];
    while |pts| < n
      invariant |pts| <= n && pts == Block(old(k.points) + 1, |pts|) && k.points == old(k.points) + |pts|
      invariant k.lines == old(k.lines) && k.loops == old(k.loops) && k.surfaces == old(k.surfaces)
      invariant k.transfiniteCurves == old(k.transfiniteCurves) && k.transfiniteSurfaces == old(k.transfiniteSurfaces)
    {
      var t := k.AddPoint();
      pts := pts + [t];
    }
  }

  /** A line per pair of point tags, in order. */
  method AddLines(k: Kernel, ends: seq<(int, int)>) returns (ls: seq<int>)
    modifies k
    ensures ls == Block(|old(k.lines)| + 1, |ends|)
    ensures k.State() == old(k.State()).(lines := old(k.lines) + ends)
  {
    ls := [];
    while |ls| < |ends|
      invariant |ls| <= |ends| && ls == Block(|old(k.lines)| + 1, |ls|) && k.lines == old(k.lines) + ends[..|ls|]
      invariant k.points == old(k.points) && k.loops == old(k.loops) && k.surfaces == old(k.surfaces)
      invariant k.transfiniteCurves == old(k.transfiniteCurves) && k.transfiniteSurfaces == old(k.transfiniteSurfaces)
    {
      var (a, b) := ends[|ls|];
      assert ends[..|ls| + 1] == ends[..|ls|] + [(a, b)];
      var t := k.AddLine(a, b);
      ls := ls + [t];
    }
    assert ends[..|ls|] == ends;
  }

  /** A curve loop per list of signed lines, in order. */
  method AddCurveLoops(k: Kernel, lss: seq<seq<int>>) returns (ts: seq<int>)
    modifies k
    ensures ts == Block(|old(k.loops)| + 1, |lss|)
    ensures k.State() == old(k.State()).(loops := old(k.loops) + lss)
  {
    ts := [];
    while |ts| < |lss|
      invariant |ts| <= |lss| && ts == Block(|old(k.loops)| + 1, |ts|) && k.loops == old(k.loops) + lss[..|ts|]
      invariant k.points == old(k.points) && k.lines == old(k.lines) && k.surfaces == old(k.surfaces)
      invariant k.transfiniteCurves == old(k.transfiniteCurves) && k.transfiniteSurfaces == old(k.transfiniteSurfaces)
    {
      assert lss[..|ts| + 1] == lss[..|ts|] + [lss[|ts|]];
      var t := k.AddCurveLoop(lss[|ts|]);
      ts := ts + [t];
    }
    assert lss[..|ts|] == lss;
  }

  /** `setTransfiniteCurve` on each line. */
  method SetTransfiniteCurves(k: Kernel, ls: seq<int>, n: int, coef: real)
    modifies k
    ensures k.State() == old(k.State()).(transfiniteCurves := old(k.transfiniteCurves) + Transfinite(ls, n, coef))
  {
    var i := 0;
    while i < |ls|
      invariant i <= |ls| && k.transfiniteCurves == old(k.transfiniteCurves) + Transfinite(ls[..i], n, coef)
      invariant k.points == old(k.points) && k.lines == old(k.lines) && k.loops == old(k.loops)
      invariant k.surfaces == old(k.surfaces) && k.transfiniteSurfaces == old(k.transfiniteSurfaces)
    {
      assert Transfinite(ls[..i + 1], n, coef) == Transfinite(ls[..i], n, coef) + [(ls[i], n, coef)];
      k.SetTransfiniteCurve(ls[i], n, coef);
      i := i + 1;
    }
    assert ls[..i] == ls;
  }

  /** A transfinite plane surface per loop, in order. */
  method AddSectorSurfaces(k: Kernel, loops: seq<int>) returns (ss: seq<int>)
    modifies k
    ensures ss == Block(|old(k.surfaces)| + 1, |loops|)
    ensures k.State() == old(k.State()).(surfaces := old(k.surfaces) + Singletons(loops),
                                         transfiniteSurfaces := old(k.transfiniteSurfaces) + ss)
  {
    ss := [];
    while |ss| < |loops|
      invariant |ss| <= |loops| && ss == Block(|old(k.surfaces)| + 1, |ss|)
      invariant k.surfaces == old(k.surfaces) + Singletons(loops[..|ss|])
      invariant k.transfiniteSurfaces == old(k.transfiniteSurfaces) + ss
      invariant k.points == old(k.points) && k.lines == old(k.lines) && k.loops == old(k.loops)
      invariant k.transfiniteCurves == old(k.transfiniteCurves)
    {
      assert Singletons(loops[..|ss| + 1]) == Singletons(loops[..|ss|]) + [[loops[|ss|]]];
      var s := k.AddPlaneSurface([loops[|ss|]]);
      k.SetTransfiniteSurface(s);
      ss := ss + [s];
    }
    assert loops[..|ss|] == loops;
  }

  /** The rim point tags, arc tags and sector surface tags of a corner with
      m rim points built on kernel state s0 (whose next point is the
      centre). */
  function CornerRim(s0: KernelState, m: nat): seq<int> { Block(s0.points + 2, m) }
  function DiscRim(s0: KernelState, m: nat): seq<int> { Block(s0.points + 1, m) }
  function CornerSpokes(s0: KernelState, m: nat): seq<int> { Block(|s0.lines| + 1, m) }
  function CornerArcs(s0: KernelState, m: nat): seq<int> { Block(|s0.lines| + 1 + m, m) }
  function CornerSectors(s0: KernelState, m: nat): seq<int> { Block(|s0.loops| + 1, m) }
  function CornerSurfaces(s0: KernelState, m: nat): seq<int> { Block(|s0.surfaces| + 1, m) }

  /** s1 is s0 after the disc around the centre point c is built for m rim
      points: the rim, a spoke to each rim point followed by an arc between
      neighbours (spokes transfinite with progression f, arcs uniform, both
      with n nodes), one sector loop per spoke, and a transfinite plane
      surface per sector. */
  ghost predicate DiscBuilt(s0: KernelState, s1: KernelState, c: int, m: nat, n: int, f: real)
  {
    var rim, rad, ang := DiscRim(s0, m), CornerSpokes(s0, m), CornerArcs(s0, m);
    s1 == KernelState(s0.points + m,
                      s0.lines + Spokes(c, rim) + CircularPairwise(rim, 0),
                      s0.loops + Sectors(rad, ang),
                      s0.surfaces + Singletons(CornerSectors(s0, m)),
                      s0.transfiniteCurves + Transfinite(rad, n, f) + Transfinite(ang, n, 1.0),
                      s0.transfiniteSurfaces + CornerSurfaces(s0, m))
  }

  /** s1 is s0 after `_mesh_corner`'s kernel calls for m rim points: the
      centre, then its disc. */
  ghost predicate CornerBuilt(s0: KernelState, s1: KernelState, m: nat, n: int, f: real)
  {
    DiscBuilt(s0.(points := s0.points + 1), s1, s0.points + 1, m, n, f)
  }

  /** The kernel work of `_mesh_corner` after the centre c for m = p + q
      rim points. */
  method BuildCorner(k: Kernel, c: int, m: nat, n: int, f: real) returns (rim: seq<int>, ang: seq<int>, ss: seq<int>)
    modifies k
    ensures rim == DiscRim(old(k.State()), m) && ang == CornerArcs(old(k.State()), m)
    ensures ss == CornerSurfaces(old(k.State()), m)
    ensures DiscBuilt(old(k.State()), k.State(), c, m, n, f)
  {
    ghost var s0 := k.State();
    var rad;
    rim := RimPoints(k, m);
    ghost var s1 := k.State();
    rad, ang := RimLines(k, c, rim, n, f);
    ghost var s2 := k.State();
    ss := BuildSectors(k, rad, ang);
    CornerSteps(s0, s1, s2, k.State(), m, n, f, c, rim, rad, ang, ss);
  }

  /** The three stages of BuildCorner compose to DiscBuilt. */
  lemma CornerSteps(s0: KernelState, s1: KernelState, s2: KernelState, s3: KernelState, m: nat, n: int, f: real,
                    c: int, rim: seq<int>, rad: seq<int>, ang: seq<int>, ss: seq<int>)
    requires PointsAdded(s0, s1, m, rim) && LinesAdded(s1, s2, c, rim, n, f, rad, ang)
    requires SectorsAdded(s2, s3, rad, ang, ss)
    ensures rim == DiscRim(s0, m) && ang == CornerArcs(s0, m) && ss == CornerSurfaces(s0, m)
    ensures DiscBuilt(s0, s3, c, m, n, f)
  {
    assert |rim| == m && |rad| == m && s1.lines == s0.lines && s1.transfiniteCurves == s0.transfiniteCurves;
    assert s2.points == s0.points + m && s2.loops == s0.loops && s2.surfaces == s0.surfaces;
  }

  /** s1 is s0 with the m rim points added. */
  ghost predicate PointsAdded(s0: KernelState, s1: KernelState, m: nat, rim: seq<int>)
  {
    rim == Block(s0.points + 1, m) && s1 == s0.(points := s0.points + m)
  }

  /** s1 is s0 with the spokes rad from c to each rim point and the arcs
      ang between neighbours added, and made transfinite. */
  ghost predicate LinesAdded(s0: KernelState, s1: KernelState, c: int, rim: seq<int>, n: int, f: real,
                             rad: seq<int>, ang: seq<int>)
  {
    rad == Block(|s0.lines| + 1, |rim|) && ang == Block(|s0.lines| + 1 + |rim|, |rim|) &&
    s1 == s0.(lines := s0.lines + Spokes(c, rim) + CircularPairwise(rim, 0),
      transfiniteCurves := s0.transfiniteCurves + Transfinite(rad, n, f) + Transfinite(ang, n, 1.0))
  }

  /** s1 is s0 with one sector loop per spoke and the transfinite plane
      surfaces ss on them added. */
  ghost predicate SectorsAdded(s0: KernelState, s1: KernelState, rad: seq<int>, ang: seq<int>, ss: seq<int>)
  {
    |rad| == |ang| && ss == Block(|s0.surfaces| + 1, |rad|) &&
    s1 == KernelState(s0.points, s0.lines, s0.loops + Sectors(rad, ang),
                      s0.surfaces + Singletons(Block(|s0.loops| + 1, |rad|)),
                      s0.transfiniteCurves, s0.transfiniteSurfaces + ss)
  }

  /** The m rim points of a corner. */
  method RimPoints(k: Kernel, m: nat) returns (rim: seq<int>)
    modifies k
    ensures PointsAdded(old(k.State()), k.State(), m, rim)
  {
    rim := AddPoints(k, m);
  }

  /** The spokes from the centre c and the arcs around the rim, with their
      transfinite settings. */
  method RimLines(k: Kernel, c: int, rim: seq<int>, n: int, f: real) returns (rad: seq<int>, ang: seq<int>)
    modifies k
    ensures LinesAdded(old(k.State()), k.State(), c, rim, n, f, rad, ang)
  {
    rad := AddLines(k, Spokes(c, rim));
    ang := AddLines(k, CircularPairwise(rim, 0));
    SetTransfiniteCurves(k, rad, n, f);
    SetTransfiniteCurves(k, ang, n, 1.0);
  }

  /** One sector loop per spoke and a transfinite plane surface on each. */
  method BuildSectors(k: Kernel, rad: seq<int>, ang: seq<int>) returns (ss: seq<int>)
    requires |rad| == |ang|
    modifies k
    ensures SectorsAdded(old(k.State()), k.State(), rad, ang, ss)
  {
    var sectors := AddCurveLoops(k, Sectors(rad, ang));
    ss := AddSectorSurfaces(k, sectors);
  }

  /** s1 is s0 after `_mesh_corner` returned v: the split (p, q) exists,
      the corner is built for p + q rim points, and v holds the rim points,
      the arcs and the sector surfaces, the first p of each on the cavity
      side and the rest on the vacuum side. */
  ghost predicate CornerMeshed(s0: KernelState, s1: KernelState, corner: Corner, phi: Angle, n: int, f: real,
                               v: (CornerTag, seq<int>, seq<int>))
  {
    ComputePQ(corner.angle, phi).Ok? &&
    SplitMeshed(s0, s1, ComputePQ(corner.angle, phi).value.0, ComputePQ(corner.angle, phi).value.1, n, f, v)
  }

  /** s1 is s0 after a corner split into (p, q) was built and returned v. */
  ghost predicate SplitMeshed(s0: KernelState, s1: KernelState, p: int, q: int, n: int, f: real,
                              v: (CornerTag, seq<int>, seq<int>))
  {
    p + q >= 0 && CornerBuilt(s0, s1, p + q, n, f) &&
    var rim, ang, ss := CornerRim(s0, p + q), CornerArcs(s0, p + q), CornerSurfaces(s0, p + q);
    v == (CornerTag(Head(rim, p), Tail(rim, p), Head(ang, p), Tail(ang, p)), Head(ss, p), Tail(ss, p))
  }

  /** `_mesh_corner(corner, r, phi, h, N, f)`: the centre, p + q rim
      points, a spoke to each and an arc between neighbours (both
      transfinite with N nodes, the spokes with progression f), one sector
      per spoke and its transfinite surface; the first p of each list are
      the cavity side, the rest the vacuum side. A zero phi fails before
      any kernel call; p + q < 0 fails in `linspace`, after the centre. */
  method MeshCorner(k: Kernel, corner: Corner, phi: Angle, n: int, f: real)
    returns (r: Result<(CornerTag, seq<int>, seq<int>)>)
    modifies k
    ensures ComputePQ(corner.angle, phi).Err? ==> r == Err(ZeroDivisionError) && k.State() == old(k.State())
    ensures ComputePQ(corner.angle, phi).Ok? ==>
      var (p, q) := ComputePQ(corner.angle, phi).value;
      (r.Err? <==> p + q < 0) && (r.Err? ==> r.error == ValueError)
    ensures ComputePQ(corner.angle, phi).Ok? && r.Err? ==> k.State() == old(k.State()).(points := old(k.points) + 1)
    ensures r.Ok? ==> Fits(r.value.0, corner.angle, phi)
    ensures r.Ok? && ComputePQ(corner.angle, phi).value.0 >= 2 && ComputePQ(corner.angle, phi).value.1 >= 2 ==>
      Wide(r.value.0)
    ensures r.Ok? ==> CornerMeshed(old(k.State()), k.State(), corner, phi, n, f, r.value)
  {
    var pq := ComputePQ(corner.angle, phi);
    if pq.Err? {
      return Err(pq.error);
    }
    var (p, q) := pq.value;
    ghost var s0 := k.State();
    var c := k.AddPoint();
    ghost var s1 := k.State();
    assert s1 == s0.(points := s0.points + 1);
    if p + q < 0 {
      return Err(ValueError);
    }
    var m: nat := p + q;
    var rim, ang, ss := BuildCorner(k, c, m, n, f);
    var tag := CornerTag(Head(rim, p), Tail(rim, p), Head(ang, p), Tail(ang, p));
    SplitSizes(rim, ang, p, q);
    assert Fits(tag, corner.angle, phi);
    r := Ok((tag, Head(ss, p), Tail(ss, p)));
    CentreShift(s0, s1, m);
    CornerOfCentre(s0, s1, k.State(), m, n, f);
    CornerOfDisc(s0, k.State(), corner, phi, n, f, p, q, r.value);
  }

  /** A corner built on s0 with the split's tags is a meshed corner. */
  lemma CornerOfDisc(s0: KernelState, s2: KernelState, corner: Corner, phi: Angle, n: int, f: real,
                     p: int, q: int, v: (CornerTag, seq<int>, seq<int>))
    requires ComputePQ(corner.angle, phi) == Ok((p, q)) && p + q >= 0 && CornerBuilt(s0, s2, p + q, n, f)
    requires var rim, ang, ss := CornerRim(s0, p + q), CornerArcs(s0, p + q), CornerSurfaces(s0, p + q);
      v == (CornerTag(Head(rim, p), Tail(rim, p), Head(ang, p), Tail(ang, p)), Head(ss, p), Tail(ss, p))
    ensures CornerMeshed(s0, s2, corner, phi, n, f, v)
  {
    assert SplitMeshed(s0, s2, p, q, n, f, v);
  }

  /** The centre followed by its disc is the corner. */
  lemma CornerOfCentre(s0: KernelState, s1: KernelState, s2: KernelState, m: nat, n: int, f: real)
    requires s1 == s0.(points := s0.points + 1) && DiscBuilt(s1, s2, s0.points + 1, m, n, f)
    ensures CornerBuilt(s0, s2, m, n, f)
  {
    assert s0.(points := s0.points + 1) == s1;
  }

  /** After the centre, the disc's rim, arcs and surfaces are the corner's. */
  lemma CentreShift(s0: KernelState, s1: KernelState, m: nat)
    requires s1 == s0.(points := s0.points + 1)
    ensures DiscRim(s1, m) == CornerRim(s0, m) && CornerArcs(s1, m) == CornerArcs(s0, m)
    ensures CornerSurfaces(s1, m) == CornerSurfaces(s0, m)
  {
  }

  /** The cavity and vacuum halves of a corner list are the whole list,
      in order, split after exactly p when 0 <= p and 0 <= q. */
  lemma CornerSplit<T>(s: seq<T>, p: int, q: int)
    requires |s| == p + q
    ensures Head(s, p) + Tail(s, p) == s
    ensures p >= 0 && q >= 0 ==> |Head(s, p)| == p && |Tail(s, p)| == q
  {
  }

  /** Sector i of a corner is bounded by spoke i, arc i (from rim point i
      to rim point i + 1, wrapping) and spoke i + 1 taken backwards. */
  lemma SectorShape(c: int, rim: seq<int>, rad: seq<int>, ang: seq<int>, i: nat)
    requires |rad| == |ang| == |rim| && i < |rim|
    ensures Sectors(rad, ang)[i] == [rad[i], ang[i], -rad[(i + 1) % |rad|]]
    ensures Spokes(c, rim)[i] == (c, rim[i]) && CircularPairwise(rim, 0)[i] == (rim[i], rim[(i + 1) % |rim|])
    ensures Spokes(c, rim)[(i + 1) % |rim|] == (c, rim[(i + 1) % |rim|])
  {
    SectorLoop(rad, ang, i);
    SectorEdges(rim, i);
  }

  /** The loop of sector i. */
  lemma SectorLoop(rad: seq<int>, ang: seq<int>, i: nat)
    requires |rad| == |ang| && i < |rad|
    ensures Sectors(rad, ang)[i] == [rad[i], ang[i], -rad[(i + 1) % |rad|]]
  {
  }

  /** The arc of sector i. */
  lemma SectorEdges(rim: seq<int>, i: nat)
    requires i < |rim|
    ensures CircularPairwise(rim, 0)[i] == (rim[i], rim[(i + 1) % |rim|])
  {
    PairwiseFromZero(rim, i);
  }

  /* ---------------------------------------------------------------- */
  /* `_mesh_edge`                                                      */
  /* ---------------------------------------------------------------- */

  function Last(s: seq<int>): int
    requires |s| > 0
  {
    s[|s| - 1]
  }

  /** Every index `_mesh_edge` reads exists: 0 and 1 of both point lists,
      -1 of the other point lists, 0 and -1 of the line lists. */
  predicate EdgeReady(c: CornerTag, d: CornerTag)
  {
    |c.ptsCav| >= 2 && |d.ptsVac| >= 2 && |d.ptsCav| >= 1 && |c.ptsVac| >= 1 &&
    |c.linesCav| >= 1 && |d.linesCav| >= 1 && |c.linesVac| >= 1 && |d.linesVac| >= 1
  }

  /** `_mesh_edge(C, D, N)`: the interface from C's first cavity point to
      D's first vacuum point, a cavity line and a vacuum line closing the
      two quadrangles between the corners, all with N nodes, and the two
      transfinite surfaces. A missing index raises IndexError. */
  method MeshEdge(k: Kernel, c: CornerTag, d: CornerTag, n: int)
    returns (r: Result<(EdgeTag, seq<int>, seq<int>)>)
    modifies k
    ensures r.Err? <==> !EdgeReady(c, d)
    ensures r.Err? ==> r.error == IndexError && k.State() == old(k.State())
    ensures r.Ok? ==> EdgeAdded(old(k.State()), k.State(), c, d, n, r.value)
  {
    if !EdgeReady(c, d) {
      return Err(IndexError);
    }
    ghost var s0 := k.State();
    var interface, lineCav, lineVac := EdgeLines(k, [(c.ptsCav[0], d.ptsVac[0]), (Last(d.ptsCav), c.ptsCav[1]),
                                                     (Last(c.ptsVac), d.ptsVac[1])], n);
    ghost var s1 := k.State();
    var surfaceCav := EdgeSurface(k, [interface, -Last(d.linesCav), lineCav, -c.linesCav[0]]);
    ghost var s2 := k.State();
    var surfaceVac := EdgeSurface(k, [-interface, -d.linesVac[0], lineVac, -Last(c.linesVac)]);
    r := Ok((EdgeTag(lineCav, lineVac), [surfaceCav], [surfaceVac]));
    EdgeSteps(s0, s1, s2, k.State(), c, d, n, r.value);
  }

  /** s1 is s0 after `_mesh_edge(C, D, N)`: the interface from C's first
      cavity point to D's first vacuum point, the cavity line from D's last
      cavity point to C's second, the vacuum line from C's last vacuum point
      to D's second, all three transfinite with N nodes; the cavity loop
      (interface, D's last cavity arc and C's first, both reversed, and the
      cavity line), the vacuum loop likewise, and a transfinite plane surface
      on each. v holds the two lines and the two surfaces. */
  ghost predicate EdgeAdded(s0: KernelState, s1: KernelState, c: CornerTag, d: CornerTag, n: int,
                            v: (EdgeTag, seq<int>, seq<int>))
  {
    EdgeReady(c, d) &&
    var interface, lineCav, lineVac := |s0.lines| + 1, |s0.lines| + 2, |s0.lines| + 3;
    var sCav, sVac := |s0.surfaces| + 1, |s0.surfaces| + 2;
    s1 == KernelState(s0.points,
                      s0.lines + [(c.ptsCav[0], d.ptsVac[0]), (Last(d.ptsCav), c.ptsCav[1]), (Last(c.ptsVac), d.ptsVac[1])],
                      s0.loops + [[interface, -Last(d.linesCav), lineCav, -c.linesCav[0]],
                                  [-interface, -d.linesVac[0], lineVac, -Last(c.linesVac)]],
                      s0.surfaces + [[|s0.loops| + 1], [|s0.loops| + 2]],
                      s0.transfiniteCurves + Transfinite([interface, lineCav, lineVac], n, 1.0),
                      s0.transfiniteSurfaces + [sCav, sVac]) &&
    v == (EdgeTag(lineCav, lineVac), [sCav], [sVac])
  }

  /** The three lines of an edge, transfinite with n nodes. */
  method EdgeLines(k: Kernel, ends: seq<(int, int)>, n: int) returns (interface: int, lineCav: int, lineVac: int)
    requires |ends| == 3
    modifies k
    ensures interface == |old(k.State()).lines| + 1 && lineCav == interface + 1 && lineVac == interface + 2
    ensures k.State() == old(k.State()).(lines := old(k.State()).lines + ends,
      transfiniteCurves := old(k.State()).transfiniteCurves + Transfinite([interface, lineCav, lineVac], n, 1.0))
  {
    interface := k.AddLine(ends[0].0, ends[0].1);
    lineCav := k.AddLine(ends[1].0, ends[1].1);
    lineVac := k.AddLine(ends[2].0, ends[2].1);
    assert k.lines == old(k.lines) + ends;
    SetTransfiniteCurves(k, [interface, lineCav, lineVac], n, 1.0);
  }

  /** A curve loop on the lines ls and a transfinite plane surface on it. */
  method EdgeSurface(k: Kernel, ls: seq<int>) returns (s: int)
    modifies k
    ensures s == |old(k.State()).surfaces| + 1
    ensures k.State() == old(k.State()).(loops := old(k.State()).loops + [ls],
      surfaces := old(k.State()).surfaces + [[|old(k.State()).loops| + 1]],
      transfiniteSurfaces := old(k.State()).transfiniteSurfaces + [s])
  {
    var loop := k.AddCurveLoop(ls);
    s := k.AddPlaneSurface([loop]);
    k.SetTransfiniteSurface(s);
  }

  /** The stages of MeshEdge compose to EdgeAdded. */
  lemma EdgeSteps(s0: KernelState, s1: KernelState, s2: KernelState, s3: KernelState,
                  c: CornerTag, d: CornerTag, n: int, v: (EdgeTag, seq<int>, seq<int>))
    requires EdgeReady(c, d)
    requires var interface := |s0.lines| + 1;
      s1 == s0.(lines := s0.lines + [(c.ptsCav[0], d.ptsVac[0]), (Last(d.ptsCav), c.ptsCav[1]), (Last(c.ptsVac), d.ptsVac[1])],
                transfiniteCurves := s0.transfiniteCurves + Transfinite([interface, interface + 1, interface + 2], n, 1.0))
    requires var interface := |s0.lines| + 1;
      s2 == s1.(loops := s1.loops + [[interface, -Last(d.linesCav), interface + 1, -c.linesCav[0]]],
                surfaces := s1.surfaces + [[|s1.loops| + 1]],
                transfiniteSurfaces := s1.transfiniteSurfaces + [|s1.surfaces| + 1])
    requires var interface := |s0.lines| + 1;
      s3 == s2.(loops := s2.loops + [[-interface, -d.linesVac[0], interface + 2, -Last(c.linesVac)]],
                surfaces := s2.surfaces + [[|s2.loops| + 1]],
                transfiniteSurfaces := s2.transfiniteSurfaces + [|s2.surfaces| + 1])
    requires v == (EdgeTag(|s0.lines| + 2, |s0.lines| + 3), [|s0.surfaces| + 1], [|s2.surfaces| + 1])
    ensures EdgeAdded(s0, s3, c, d, n, v)
  {
  }

  /** A corner whose split has p, q >= 2 can be joined to any other such
      corner. */
  lemma EdgeReadyOfSplit(c: CornerTag, d: CornerTag)
    requires |c.ptsCav| >= 2 && |c.ptsVac| >= 2 && |c.linesCav| >= 2 && |c.linesVac| >= 2
    requires |d.ptsCav| >= 2 && |d.ptsVac| >= 2 && |d.linesCav| >= 2 && |d.linesVac| >= 2
    ensures EdgeReady(c, d)
  {
  }

  /* ---------------------------------------------------------------- */
  /* `_get_loops`                                                      */
  /* ---------------------------------------------------------------- */

  /** `s[1:-1]`. */
  function Middle(s: seq<int>): (m: seq<int>)
    ensures |s| >= 2 ==> m == s[1..|s| - 1]
    ensures |s| < 2 ==> m == []
  {
    if |s| < 2 then [] else s[1..|s| - 1]
  }

  function Negated(s: seq<int>): (r: seq<int>)
    ensures |r| == |s| && forall i :: 0 <= i < |s| ==> r[i] == -s[i]
  {
    seq(|s|, i requires 0 <= i < |s| => -s[i])
  }

  /** `s[1:-1]` between the first and the last item gives s back. */
  lemma MiddleRestores(s: seq<int>)
    ensures |Middle(s)| == if |s| < 2 then 0 else |s| - 2
    ensures |s| >= 2 ==> [s[0]] + Middle(s) + [s[|s| - 1]] == s
  {
    if |s| >= 2 {
      assert [s[0]] + s[1..|s| - 1] + [s[|s| - 1]] == s;
    }
  }

  /** Negating twice gives the loop back: the inner loop is its lines taken
      backwards, and nothing is lost. */
  lemma NegatedInvolution(s: seq<int>)
    ensures Negated(Negated(s)) == s
  {
    assert forall i :: 0 <= i < |s| ==> Negated(Negated(s))[i] == - -s[i];
  }

  /** The parts followed each by its closing line, in order. */
  function Chain(parts: seq<seq<int>>, joins: seq<int>): seq<int>
    requires |parts| == |joins|
  {
    if |parts| == 0 then []
    else Chain(parts[..|parts| - 1], joins[..|joins| - 1]) + parts[|parts| - 1] + [joins[|joins| - 1]]
  }

  function Sum(xs: seq<int>): int
  {
    if |xs| == 0 then 0 else Sum(xs[..|xs| - 1]) + xs[|xs| - 1]
  }

  function MinNat(a: nat, b: nat): nat { if a < b then a else b }

  /** The lines of the inner loop, before negation: per corner (zipped
      with the edges) its cavity arcs but the first and last, then the
      edge's cavity line. */
  function InnerLoop(cs: seq<CornerTag>, es: seq<EdgeTag>): seq<int>
  {
    var m := MinNat(|cs|, |es|);
    Chain(seq(m, i requires 0 <= i < m => Middle(cs[i].linesCav)), seq(m, i requires 0 <= i < m => es[i].lineCav))
  }

  /** The same over the vacuum arcs and lines. */
  function OuterLoop(cs: seq<CornerTag>, es: seq<EdgeTag>): seq<int>
  {
    var m := MinNat(|cs|, |es|);
    Chain(seq(m, i requires 0 <= i < m => Middle(cs[i].linesVac)), seq(m, i requires 0 <= i < m => es[i].lineVac))
  }

  /** The chain is as long as its parts plus one closing line each. */
  lemma {:induction false} ChainLength(parts: seq<seq<int>>, joins: seq<int>)
    requires |parts| == |joins|
    ensures |Chain(parts, joins)| == Sum(seq(|parts|, i requires 0 <= i < |parts| => |parts[i]|)) + |parts|
  {
    if |parts| > 0 {
      var n := |parts|;
      ChainLength(parts[..n - 1], joins[..n - 1]);
      var ls := seq(n, i requires 0 <= i < n => |parts[i]|);
      assert ls[..n - 1] == seq(n - 1, i requires 0 <= i < n - 1 => |parts[..n - 1][i]|);
    }
  }

  /** Arcs per corner beyond the first and last, cavity and vacuum side. */
  function CavityArcs(cs: seq<CornerTag>): (r: seq<int>)
    ensures |r| == |cs| && forall i :: 0 <= i < |cs| ==> r[i] == |cs[i].linesCav| - 2
  {
    seq(|cs|, i requires 0 <= i < |cs| => |cs[i].linesCav| - 2)
  }

  function VacuumArcs(cs: seq<CornerTag>): (r: seq<int>)
    ensures |r| == |cs| && forall i :: 0 <= i < |cs| ==> r[i] == |cs[i].linesVac| - 2
  {
    seq(|cs|, i requires 0 <= i < |cs| => |cs[i].linesVac| - 2)
  }

  /** With every corner split into at least 2 arcs on each side, the inner
      loop has sum(p_i - 2) + n lines and the outer sum(q_i - 2) + n. */
  lemma LoopLengths(cs: seq<CornerTag>, es: seq<EdgeTag>)
    requires |cs| == |es|
    requires forall i :: 0 <= i < |cs| ==> |cs[i].linesCav| >= 2 && |cs[i].linesVac| >= 2
    ensures |InnerLoop(cs, es)| == Sum(CavityArcs(cs)) + |cs|
    ensures |OuterLoop(cs, es)| == Sum(VacuumArcs(cs)) + |cs|
  {
    var n := |cs|;
    var inner := seq(n, i requires 0 <= i < n => Middle(cs[i].linesCav));
    var outer := seq(n, i requires 0 <= i < n => Middle(cs[i].linesVac));
    ChainLength(inner, seq(n, i requires 0 <= i < n => es[i].lineCav));
    ChainLength(outer, seq(n, i requires 0 <= i < n => es[i].lineVac));
    assert seq(n, i requires 0 <= i < n => |inner[i]|) == CavityArcs(cs);
    assert seq(n, i requires 0 <= i < n => |outer[i]|) == VacuumArcs(cs);
  }

  /** `_get_loops(corners_tag, edges_tag)`: the inner loop (its lines all
      negated) and the outer loop. */
  method GetLoops(k: Kernel, cs: seq<CornerTag>, es: seq<EdgeTag>) returns (inn: int, out: int)
    modifies k
    ensures k.loops == old(k.loops) + [Negated(InnerLoop(cs, es)), OuterLoop(cs, es)]
    ensures inn == |old(k.loops)| + 1 && out == inn + 1
    ensures k.points == old(k.points) && k.lines == old(k.lines) && k.surfaces == old(k.surfaces)
    ensures k.transfiniteCurves == old(k.transfiniteCurves) && k.transfiniteSurfaces == old(k.transfiniteSurfaces)
  {
    var loopInn, loopOut := ChainLoops(cs, es);
    inn := k.AddCurveLoop(Negated(loopInn));
    out := k.AddCurveLoop(loopOut);
  }

  /** The loop of `_get_loops` over zip(corners_tag, edges_tag): each
      corner's inner arcs and then the edge's line, on both sides. */
  method ChainLoops(cs: seq<CornerTag>, es: seq<EdgeTag>) returns (loopInn: seq<int>, loopOut: seq<int>)
    ensures loopInn == InnerLoop(cs, es) && loopOut == OuterLoop(cs, es)
  {
    var m := MinNat(|cs|, |es|);
    ghost var innerParts := seq(m, i requires 0 <= i < m => Middle(cs[i].linesCav));
    ghost var innerJoins := seq(m, i requires 0 <= i < m => es[i].lineCav);
    ghost var outerParts := seq(m, i requires 0 <= i < m => Middle(cs[i].linesVac));
    ghost var outerJoins := seq(m, i requires 0 <= i < m => es[i].lineVac);
    loopInn, loopOut := [], [];
    var i := 0;
    while i < m
      invariant i <= m
      invariant loopInn == Chain(innerParts[..i], innerJoins[..i])
      invariant loopOut == Chain(outerParts[..i], outerJoins[..i])
    {
      ChainStep(innerParts, innerJoins, i);
      ChainStep(outerParts, outerJoins, i);
      loopInn := loopInn + Middle(cs[i].linesCav) + [es[i].lineCav];
      loopOut := loopOut + Middle(cs[i].linesVac) + [es[i].lineVac];
      i := i + 1;
    }
    assert innerParts[..m] == innerParts && innerJoins[..m] == innerJoins;
    assert outerParts[..m] == outerParts && outerJoins[..m] == outerJoins;
  }

  /** The chain of the first i + 1 parts extends that of the first i. */
  lemma ChainStep(parts: seq<seq<int>>, joins: seq<int>, i: nat)
    requires |parts| == |joins| && i < |parts|
    ensures Chain(parts[..i + 1], joins[..i + 1]) == Chain(parts[..i], joins[..i]) + parts[i] + [joins[i]]
  {
    assert parts[..i + 1][..i] == parts[..i] && joins[..i + 1][..i] == joins[..i];
  }

  /* ---------------------------------------------------------------- */
  /* `_tmesh_polygon`                                                  */
  /* ---------------------------------------------------------------- */

  /** Every corner angle lies strictly between 0 and 2. */
  predicate AnglesInside(cs: seq<Corner>)
  {
    forall i :: 0 <= i < |cs| ==> 0.0 < cs[i].angle.Value() < 2.0
  }

  /** A corner's tags follow the split (p, q): p cavity and q vacuum
      points and arcs whenever both are non-negative. */
  predicate SplitAs(tag: CornerTag, p: int, q: int)
  {
    p + q >= 0 &&
    (p >= 0 && q >= 0 ==>
      |tag.ptsCav| == p && |tag.linesCav| == p && |tag.ptsVac| == q && |tag.linesVac| == q)
  }

  /** ... the split `_compute_pq` gives for the corner's angle. */
  predicate Fits(tag: CornerTag, angle: Angle, phi: Angle)
  {
    ComputePQ(angle, phi).Ok? && SplitAs(tag, ComputePQ(angle, phi).value.0, ComputePQ(angle, phi).value.1)
  }

  /** Slicing p + q rim points and arcs after p. */
  lemma SplitSizes(rim: seq<int>, ang: seq<int>, p: int, q: int)
    requires |rim| == |ang| == p + q
    ensures SplitAs(CornerTag(Head(rim, p), Tail(rim, p), Head(ang, p), Tail(ang, p)), p, q)
    ensures p >= 2 && q >= 2 ==> Wide(CornerTag(Head(rim, p), Tail(rim, p), Head(ang, p), Tail(ang, p)))
  {
  }

  /** A tag that fits the split s has s.0 cavity and s.1 vacuum arcs. */
  lemma FitSizes(tag: CornerTag, angle: Angle, phi: Angle, s: (int, int))
    requires ComputePQ(angle, phi) == Ok(s) && s.0 >= 0 && s.1 >= 0
    requires Fits(tag, angle, phi)
    ensures |tag.ptsCav| == |tag.linesCav| == s.0 && |tag.ptsVac| == |tag.linesVac| == s.1
  {
  }

  /** At least two points and arcs on each side. */
  predicate Wide(tag: CornerTag)
  {
    |tag.ptsCav| >= 2 && |tag.ptsVac| >= 2 && |tag.linesCav| >= 2 && |tag.linesVac| >= 2
  }

  /** Side i of the polygon is meshed with its own length between corner i
      and corner i + 1 (wrapping). */
  lemma EdgePairing<T>(lengths: seq<real>, tags: seq<T>, i: nat)
    requires i < |Zip(lengths, CircularPairwise(tags, 0))|
    ensures var pairs := Zip(lengths, CircularPairwise(tags, 0));
      i < |lengths| && i < |tags| && |pairs| == MinNat(|lengths|, |tags|) &&
      pairs[i] == (lengths[i], (tags[i], tags[(i + 1) % |tags|]))
  {
    var cp := CircularPairwise(tags, 0);
    assert i < |cp|;
    PairwiseFromZero(tags, i);
    assert Zip(lengths, cp)[i] == (lengths[i], cp[i]);
  }

  /** The tags of a list of (tag, cavity surfaces, vacuum surfaces)
      results. */
  function Firsts<T>(vs: seq<(T, seq<int>, seq<int>)>): (ts: seq<T>)
    ensures |ts| == |vs| && forall i :: 0 <= i < |vs| ==> ts[i] == vs[i].0
  {
    seq(|vs|, i requires 0 <= i < |vs| => vs[i].0)
  }

  /** The cavity surfaces of the results, extended in order. */
  function Cavities<T>(vs: seq<(T, seq<int>, seq<int>)>): seq<int>
  {
    if |vs| == 0 then [] else Cavities(vs[..|vs| - 1]) + vs[|vs| - 1].1
  }

  /** The vacuum surfaces of the results, extended in order. */
  function Vacua<T>(vs: seq<(T, seq<int>, seq<int>)>): seq<int>
  {
    if |vs| == 0 then [] else Vacua(vs[..|vs| - 1]) + vs[|vs| - 1].2
  }

  /** One more result extends the tags and both surface lists. */
  lemma ResultsStep<T>(vs: seq<(T, seq<int>, seq<int>)>, v: (T, seq<int>, seq<int>))
    ensures Firsts(vs + [v]) == Firsts(vs) + [v.0]
    ensures Cavities(vs + [v]) == Cavities(vs) + v.1 && Vacua(vs + [v]) == Vacua(vs) + v.2
  {
    assert (vs + [v])[..|vs|] == vs;
  }

  /** Corner i was meshed from kernel state i to kernel state i + 1 with
      result i. */
  ghost predicate CornerStep(states: seq<KernelState>, corners: seq<Corner>, phi: Angle, n: int, f: real,
                             vs: seq<(CornerTag, seq<int>, seq<int>)>, i: nat)
  {
    i + 1 < |states| && i < |corners| && i < |vs| &&
    CornerMeshed(states[i], states[i + 1], corners[i], phi, n, f, vs[i])
  }

  /** The corner loop meshed every corner in order, through the kernel
      states `states`, with results vs. */
  ghost predicate CornersMeshed(states: seq<KernelState>, corners: seq<Corner>, phi: Angle, n: int, f: real,
                                vs: seq<(CornerTag, seq<int>, seq<int>)>)
  {
    |states| == |corners| + 1 && |vs| == |corners| &&
    forall i :: 0 <= i < |corners| ==> CornerStep(states, corners, phi, n, f, vs, i)
  }

  /** A meshed corner at the end of the states extends the corner steps. */
  lemma CornerStepsGrow(states: seq<KernelState>, corners: seq<Corner>, phi: Angle, n: int, f: real,
                        vs: seq<(CornerTag, seq<int>, seq<int>)>, s: KernelState, v: (CornerTag, seq<int>, seq<int>))
    requires |states| == |vs| + 1 && |vs| < |corners|
    requires forall j :: 0 <= j < |vs| ==> CornerStep(states, corners, phi, n, f, vs, j)
    requires CornerMeshed(states[|vs|], s, corners[|vs|], phi, n, f, v)
    ensures forall j :: 0 <= j < |vs| + 1 ==> CornerStep(states + [s], corners, phi, n, f, vs + [v], j)
  {
    forall j | 0 <= j < |vs| + 1 ensures CornerStep(states + [s], corners, phi, n, f, vs + [v], j) {
      if j < |vs| {
        assert CornerStep(states, corners, phi, n, f, vs, j);
      }
    }
  }

  /** Meshed corners have tags that fit their splits, wide ones when every
      split has p, q >= 2. */
  lemma CornersFit(states: seq<KernelState>, corners: seq<Corner>, phi: Angle, n: int, f: real,
                   vs: seq<(CornerTag, seq<int>, seq<int>)>)
    requires CornersMeshed(states, corners, phi, n, f, vs)
    ensures forall i :: 0 <= i < |corners| ==> Fits(Firsts(vs)[i], corners[i].angle, phi)
    ensures AllWide(corners, phi) ==> forall i :: 0 <= i < |corners| ==> Wide(Firsts(vs)[i])
  {
    forall i | 0 <= i < |corners|
      ensures Fits(vs[i].0, corners[i].angle, phi)
      ensures AllWide(corners, phi) ==> Wide(vs[i].0)
    {
      assert CornerStep(states, corners, phi, n, f, vs, i);
      MeshedFits(states[i], states[i + 1], corners[i], phi, n, f, vs[i]);
    }
  }

  /** A meshed corner's tags fit its split. */
  lemma MeshedFits(s0: KernelState, s1: KernelState, corner: Corner, phi: Angle, n: int, f: real,
                   v: (CornerTag, seq<int>, seq<int>))
    requires CornerMeshed(s0, s1, corner, phi, n, f, v)
    ensures Fits(v.0, corner.angle, phi)
    ensures ComputePQ(corner.angle, phi).value.0 >= 2 && ComputePQ(corner.angle, phi).value.1 >= 2 ==> Wide(v.0)
  {
    var (p, q) := ComputePQ(corner.angle, phi).value;
    SplitSizes(CornerRim(s0, p + q), CornerArcs(s0, p + q), p, q);
  }

  /** The corner loop of `_tmesh_polygon`: mesh each corner in order,
      collecting its tags and extending the cavity and vacuum surface lists
      with its own. */
  method MeshCorners(k: Kernel, corners: seq<Corner>, phi: Angle, n: int, f: real)
    returns (r: Result<(seq<CornerTag>, seq<int>, seq<int>)>, ghost states: seq<KernelState>,
             ghost vs: seq<(CornerTag, seq<int>, seq<int>)>)
    modifies k
    ensures AllWide(corners, phi) ==> (r.Ok? && forall i :: 0 <= i < |r.value.0| ==> Wide(r.value.0[i]))
    ensures r.Ok? ==> (|r.value.0| == |corners| &&
      forall i :: 0 <= i < |corners| ==> Fits(r.value.0[i], corners[i].angle, phi))
    ensures r.Ok? ==> (CornersMeshed(states, corners, phi, n, f, vs) &&
      states[0] == old(k.State()) && states[|corners|] == k.State() &&
      r.value == (Firsts(vs), Cavities(vs), Vacua(vs)))
  {
    var surfacesCav: seq<int>, surfacesVac: seq<int> := [], [];
    var tags: seq<CornerTag> := [];
    states, vs := [k.State()], [];
    var i := 0;
    while i < |corners|
      invariant i <= |corners| && |tags| == i && |vs| == i && |states| == i + 1
      invariant states[0] == old(k.State()) && states[i] == k.State()
      invariant forall j :: 0 <= j < i ==> CornerStep(states, corners, phi, n, f, vs, j)
      invariant tags == Firsts(vs) && surfacesCav == Cavities(vs) && surfacesVac == Vacua(vs)
    {
      var res := MeshCornerSummary(k, corners[i], phi, n, f);
      if res.Err? {
        return Err(res.error), states, vs;
      }
      CornerStepsGrow(states, corners, phi, n, f, vs, k.State(), res.value);
      ResultsStep(vs, res.value);
      states, vs := states + [k.State()], vs + [res.value];
      tags := tags + [res.value.0];
      surfacesCav := surfacesCav + res.value.1;
      surfacesVac := surfacesVac + res.value.2;
      i := i + 1;
    }
    r := Ok((tags, surfacesCav, surfacesVac));
    CornersFit(states, corners, phi, n, f, vs);
  }

  /** MeshCorner as the corner loop needs it: the corner is meshed, its
      tags fit the split, and a split with p, q >= 2 meshes and gives wide
      tags. */
  method MeshCornerSummary(k: Kernel, corner: Corner, phi: Angle, n: int, f: real)
    returns (r: Result<(CornerTag, seq<int>, seq<int>)>)
    modifies k
    ensures r.Ok? ==> Fits(r.value.0, corner.angle, phi)
    ensures r.Ok? ==> CornerMeshed(old(k.State()), k.State(), corner, phi, n, f, r.value)
    ensures (var s := ComputePQ(corner.angle, phi); s.Ok? && s.value.0 >= 2 && s.value.1 >= 2) ==> r.Ok? && Wide(r.value.0)
  {
    r := MeshCorner(k, corner, phi, n, f);
  }

  /** Side j was meshed from kernel state j to kernel state j + 1 between
      corner j and corner j + 1 (wrapping), with the node count of its
      length, giving result j. */
  ghost predicate EdgeStep(states: seq<KernelState>, lengths: seq<real>, tags: seq<CornerTag>, r0: real, hCorner: real,
                           vs: seq<(EdgeTag, seq<int>, seq<int>)>, j: nat)
  {
    j + 1 < |states| && j < |lengths| && j < |tags| && j < |vs| && hCorner > 0.0 &&
    EdgeAdded(states[j], states[j + 1], tags[j], tags[(j + 1) % |tags|], NEdge(lengths[j], r0, hCorner), vs[j])
  }

  /** The side loop meshed every side zip reaches, in order, through the
      kernel states `states`, with results vs. */
  ghost predicate EdgesMeshed(states: seq<KernelState>, lengths: seq<real>, tags: seq<CornerTag>, r0: real,
                              hCorner: real, vs: seq<(EdgeTag, seq<int>, seq<int>)>)
  {
    |vs| == MinNat(|lengths|, |tags|) && |states| == |vs| + 1 &&
    forall j :: 0 <= j < |vs| ==> EdgeStep(states, lengths, tags, r0, hCorner, vs, j)
  }

  /** A meshed side at the end of the states extends the side steps. */
  lemma EdgeStepsGrow(states: seq<KernelState>, lengths: seq<real>, tags: seq<CornerTag>, r0: real, hCorner: real,
                      vs: seq<(EdgeTag, seq<int>, seq<int>)>, s: KernelState, v: (EdgeTag, seq<int>, seq<int>))
    requires |states| == |vs| + 1 && |vs| < |lengths| && |vs| < |tags| && hCorner > 0.0
    requires forall j :: 0 <= j < |vs| ==> EdgeStep(states, lengths, tags, r0, hCorner, vs, j)
    requires EdgeAdded(states[|vs|], s, tags[|vs|], tags[(|vs| + 1) % |tags|], NEdge(lengths[|vs|], r0, hCorner), v)
    ensures forall j :: 0 <= j < |vs| + 1 ==> EdgeStep(states + [s], lengths, tags, r0, hCorner, vs + [v], j)
  {
    forall j | 0 <= j < |vs| + 1 ensures EdgeStep(states + [s], lengths, tags, r0, hCorner, vs + [v], j) {
      if j < |vs| {
        assert EdgeStep(states, lengths, tags, r0, hCorner, vs, j);
      }
    }
  }

  /** The side loop of `_tmesh_polygon`: each length with the pair of
      consecutive corners it joins (zip stops at the shorter list). */
  method MeshEdges(k: Kernel, lengths: seq<real>, tags: seq<CornerTag>, r0: real, hCorner: real)
    returns (r: Result<(seq<EdgeTag>, seq<int>, seq<int>)>, ghost states: seq<KernelState>,
             ghost vs: seq<(EdgeTag, seq<int>, seq<int>)>)
    requires hCorner > 0.0
    modifies k
    ensures (forall i :: 0 <= i < |tags| ==> Wide(tags[i])) ==> r.Ok?
    ensures r.Ok? ==> |r.value.0| == MinNat(|lengths|, |tags|)
    ensures r.Ok? ==> (EdgesMeshed(states, lengths, tags, r0, hCorner, vs) &&
      states[0] == old(k.State()) && states[|vs|] == k.State() &&
      r.value == (Firsts(vs), Cavities(vs), Vacua(vs)))
  {
    ghost var wide := forall i :: 0 <= i < |tags| ==> Wide(tags[i]);
    var pairs := Zip(lengths, CircularPairwise(tags, 0));
    var edges: seq<EdgeTag> := [];
    var surfacesCav: seq<int>, surfacesVac: seq<int> := [], [];
    states, vs := [k.State()], [];
    var j := 0;
    while j < |pairs|
      invariant j <= |pairs| && |edges| == j && |vs| == j && |states| == j + 1
      invariant states[0] == old(k.State()) && states[j] == k.State()
      invariant forall i :: 0 <= i < j ==> EdgeStep(states, lengths, tags, r0, hCorner, vs, i)
      invariant edges == Firsts(vs) && surfacesCav == Cavities(vs) && surfacesVac == Vacua(vs)
    {
      var (l, (c, d)) := pairs[j];
      EdgePairing(lengths, tags, j);
      if wide {
        EdgeReadyOfSplit(c, d);
      }
      var e := MeshEdge(k, c, d, NEdge(l, r0, hCorner));
      if e.Err? {
        return Err(e.error), states, vs;
      }
      EdgeStepsGrow(states, lengths, tags, r0, hCorner, vs, k.State(), e.value);
      ResultsStep(vs, e.value);
      states, vs := states + [k.State()], vs + [e.value];
      edges := edges + [e.value.0];
      surfacesCav := surfacesCav + e.value.1;
      surfacesVac := surfacesVac + e.value.2;
      j := j + 1;
    }
    r := Ok((edges, surfacesCav, surfacesVac));
  }

  /** The kernel states and results of `_tmesh_polygon`'s two loops. */
  datatype PolygonRun = PolygonRun(cornerStates: seq<KernelState>, corners: seq<(CornerTag, seq<int>, seq<int>)>,
                                   edgeStates: seq<KernelState>, edges: seq<(EdgeTag, seq<int>, seq<int>)>)

  /** s1 is s0 after the body of `_tmesh_polygon` returned v: the corners
      meshed in order, then the sides between the corner tags, then the
      inner loop (negated) and the outer loop of their tags and a plane
      surface on the inner loop. v is the outer loop, the cavity surfaces of
      the corners, of the sides and the inner surface, and the vacuum
      surfaces of the corners and of the sides. */
  ghost predicate PolygonMeshed(s0: KernelState, s1: KernelState, corners: seq<Corner>, lengths: seq<real>, phi: Angle,
                                n: int, f: real, rr: real, hCorner: real, run: PolygonRun, v: (int, seq<int>, seq<int>))
  {
    SidesMeshed(s0, corners, lengths, phi, n, f, rr, hCorner, run) &&
    var se := run.edgeStates[|run.edges|];
    var tags, edges := Firsts(run.corners), Firsts(run.edges);
    s1 == se.(loops := se.loops + [Negated(InnerLoop(tags, edges)), OuterLoop(tags, edges)],
              surfaces := se.surfaces + [[|se.loops| + 1]]) &&
    v == (|se.loops| + 2, Cavities(run.corners) + Cavities(run.edges) + [|se.surfaces| + 1],
          Vacua(run.corners) + Vacua(run.edges))
  }

  /** The two loops of `_tmesh_polygon` from s0: the corners meshed in
      order, then the sides between the corner tags, starting where the
      corners ended. */
  ghost predicate SidesMeshed(s0: KernelState, corners: seq<Corner>, lengths: seq<real>, phi: Angle,
                              n: int, f: real, rr: real, hCorner: real, run: PolygonRun)
  {
    CornersMeshed(run.cornerStates, corners, phi, n, f, run.corners) && run.cornerStates[0] == s0 &&
    EdgesMeshed(run.edgeStates, lengths, Firsts(run.corners), rr, hCorner, run.edges) &&
    run.edgeStates[0] == run.cornerStates[|corners|]
  }

  /** `_tmesh_polygon(polygon, corner_radius, h, corner_coef)` with
      h_corner given: mesh every corner, then every side between the
      corners it joins, then the inner and outer loops, and a cavity
      surface on the inner loop. Returns the outer loop and the cavity and
      vacuum surfaces. */
  method TMeshPolygon(k: Kernel, polygon: Polygon, cornerRadius: real, h: real, cornerCoef: real,
                      hCorner: real)
    returns (r: Result<(int, seq<int>, seq<int>)>, ghost tags: seq<CornerTag>, ghost edges: seq<EdgeTag>,
             ghost run: PolygonRun)
    requires h > 0.0 && hCorner > 0.0
    modifies k
    ensures AnglesInside(polygon.corners) ==> r.Ok?
    ensures r.Ok? ==> |tags| == |polygon.corners| && |edges| == MinNat(|polygon.lengths|, |polygon.corners|)
    ensures r.Ok? ==> forall i :: 0 <= i < |tags| ==>
      Fits(tags[i], polygon.corners[i].angle, PolygonElementaryAngle(polygon.corners))
    ensures r.Ok? ==> (|k.loops| >= 2 && r.value.0 == |k.loops| &&
      k.loops[|k.loops| - 1] == OuterLoop(tags, edges) && k.loops[|k.loops| - 2] == Negated(InnerLoop(tags, edges)))
    ensures r.Ok? ==> (|r.value.1| > 0 && |k.surfaces| > 0 && r.value.1[|r.value.1| - 1] == |k.surfaces| &&
      k.surfaces[|k.surfaces| - 1] == [|k.loops| - 1])
    ensures r.Ok? ==> (tags == Firsts(run.corners) && edges == Firsts(run.edges) &&
      var rr := Min(cornerRadius, h);
      PolygonMeshed(old(k.State()), k.State(), polygon.corners, polygon.lengths, PolygonElementaryAngle(polygon.corners),
                    NCorner(rr, h), cornerCoef, rr, hCorner, run, r.value))
  {
    var phi := polygon.GetElementaryAngle();
    var rr := Min(cornerRadius, h);
    InsideWide(polygon.corners, phi);
    r, tags, edges, run := MeshPolygon(k, polygon.corners, polygon.lengths, phi, NCorner(rr, h), cornerCoef, rr, hCorner);
  }

  /** The body of `_tmesh_polygon` once phi, N and r are known. */
  method MeshPolygon(k: Kernel, corners: seq<Corner>, lengths: seq<real>, phi: Angle, n: int, f: real,
                     rr: real, hCorner: real)
    returns (r: Result<(int, seq<int>, seq<int>)>, ghost tags: seq<CornerTag>, ghost edges: seq<EdgeTag>,
             ghost run: PolygonRun)
    requires hCorner > 0.0
    modifies k
    ensures AllWide(corners, phi) ==> r.Ok?
    ensures r.Ok? ==> |tags| == |corners| && |edges| == MinNat(|lengths|, |corners|)
    ensures r.Ok? ==> forall i :: 0 <= i < |tags| ==> Fits(tags[i], corners[i].angle, phi)
    ensures r.Ok? ==> (|k.loops| >= 2 && r.value.0 == |k.loops| &&
      k.loops[|k.loops| - 1] == OuterLoop(tags, edges) && k.loops[|k.loops| - 2] == Negated(InnerLoop(tags, edges)))
    ensures r.Ok? ==> (|r.value.1| > 0 && |k.surfaces| > 0 && r.value.1[|r.value.1| - 1] == |k.surfaces| &&
      k.surfaces[|k.surfaces| - 1] == [|k.loops| - 1])
    ensures r.Ok? ==> (tags == Firsts(run.corners) && edges == Firsts(run.edges) &&
      PolygonMeshed(old(k.State()), k.State(), corners, lengths, phi, n, f, rr, hCorner, run, r.value))
  {
    tags, edges := [], [];
    ghost var s0 := k.State();
    var sides;
    sides, run := MeshSides(k, corners, lengths, phi, n, f, rr, hCorner);
    if sides.Err? {
      return Err(sides.error), tags, edges, run;
    }
    var (cornersTag, edgesTag, cav, vac) := sides.value;
    tags, edges := cornersTag, edgesTag;
    ghost var se := k.State();
    var inn, out := GetLoops(k, cornersTag, edgesTag);
    var s := k.AddPlaneSurface([inn]);
    r := Ok((out, cav + [s], vac));
    assert k.State() == se.(loops := se.loops + [Negated(InnerLoop(tags, edges)), OuterLoop(tags, edges)],
                            surfaces := se.surfaces + [[|se.loops| + 1]]);
    assert PolygonMeshed(s0, k.State(), corners, lengths, phi, n, f, rr, hCorner, run, r.value);
    PolygonLoops(s0, k.State(), corners, lengths, phi, n, f, rr, hCorner, run, r.value);
  }

  /** The two loops of `_tmesh_polygon`: every corner, then every side
      between the corner tags, collecting the cavity and vacuum surfaces
      in that order. */
  method MeshSides(k: Kernel, corners: seq<Corner>, lengths: seq<real>, phi: Angle, n: int, f: real,
                   rr: real, hCorner: real)
    returns (r: Result<(seq<CornerTag>, seq<EdgeTag>, seq<int>, seq<int>)>, ghost run: PolygonRun)
    requires hCorner > 0.0
    modifies k
    ensures AllWide(corners, phi) ==> r.Ok?
    ensures r.Ok? ==> |r.value.0| == |corners| && |r.value.1| == MinNat(|lengths|, |corners|)
    ensures r.Ok? ==> forall i :: 0 <= i < |corners| ==> Fits(r.value.0[i], corners[i].angle, phi)
    ensures r.Ok? ==> (SidesMeshed(old(k.State()), corners, lengths, phi, n, f, rr, hCorner, run) &&
      run.edgeStates[|run.edges|] == k.State() &&
      r.value == (Firsts(run.corners), Firsts(run.edges), Cavities(run.corners) + Cavities(run.edges),
                  Vacua(run.corners) + Vacua(run.edges)))
  {
    run := PolygonRun([], [], [], []);
    var cs, cornerStates, cornerVs := MeshCorners(k, corners, phi, n, f);
    if cs.Err? {
      return Err(cs.error), run;
    }
    var (cornersTag, cornersCav, cornersVac) := cs.value;
    var es, edgeStates, edgeVs := MeshEdges(k, lengths, cornersTag, rr, hCorner);
    if es.Err? {
      return Err(es.error), run;
    }
    var (edgesTag, edgesCav, edgesVac) := es.value;
    run := PolygonRun(cornerStates, cornerVs, edgeStates, edgeVs);
    r := Ok((cornersTag, edgesTag, cornersCav + edgesCav, cornersVac + edgesVac));
  }

  /** A meshed polygon ends with the negated inner loop and the outer loop,
      whose tag it returns, and with the cavity surface on the inner loop,
      returned last. */
  lemma PolygonLoops(s0: KernelState, s1: KernelState, corners: seq<Corner>, lengths: seq<real>, phi: Angle,
                     n: int, f: real, rr: real, hCorner: real, run: PolygonRun, v: (int, seq<int>, seq<int>))
    requires PolygonMeshed(s0, s1, corners, lengths, phi, n, f, rr, hCorner, run, v)
    ensures |s1.loops| >= 2 && v.0 == |s1.loops|
    ensures s1.loops[|s1.loops| - 1] == OuterLoop(Firsts(run.corners), Firsts(run.edges))
    ensures s1.loops[|s1.loops| - 2] == Negated(InnerLoop(Firsts(run.corners), Firsts(run.edges)))
    ensures |v.1| > 0 && |s1.surfaces| > 0 && v.1[|v.1| - 1] == |s1.surfaces|
    ensures s1.surfaces[|s1.surfaces| - 1] == [|s1.loops| - 1]
  {
  }

  /** Every sector surface of a meshed corner is returned once, on the
      cavity or on the vacuum side. */
  lemma CornerSurfaceCount(s0: KernelState, s1: KernelState, corner: Corner, phi: Angle, n: int, f: real,
                           v: (CornerTag, seq<int>, seq<int>))
    requires CornerMeshed(s0, s1, corner, phi, n, f, v)
    ensures |s1.surfaces| == |s0.surfaces| + |v.1| + |v.2|
  {
    var (p, q) := ComputePQ(corner.angle, phi).value;
    HeadTail(CornerSurfaces(s0, p + q), p);
  }

  /** The corner loop returns every surface it adds exactly once. */
  lemma {:induction false} CornersSurfaceCount(states: seq<KernelState>, corners: seq<Corner>, phi: Angle, n: int,
                                              f: real, vs: seq<(CornerTag, seq<int>, seq<int>)>, i: nat)
    requires CornersMeshed(states, corners, phi, n, f, vs) && i <= |corners|
    ensures |states[i].surfaces| == |states[0].surfaces| + |Cavities(vs[..i])| + |Vacua(vs[..i])|
  {
    if i > 0 {
      CornersSurfaceCount(states, corners, phi, n, f, vs, i - 1);
      assert CornerStep(states, corners, phi, n, f, vs, i - 1);
      CornerSurfaceCount(states[i - 1], states[i], corners[i - 1], phi, n, f, vs[i - 1]);
      assert vs[..i][..i - 1] == vs[..i - 1];
    }
  }

  /** The side loop returns both surfaces of every side exactly once. */
  lemma {:induction false} EdgesSurfaceCount(states: seq<KernelState>, lengths: seq<real>, tags: seq<CornerTag>,
                                            r0: real, hCorner: real, vs: seq<(EdgeTag, seq<int>, seq<int>)>, i: nat)
    requires EdgesMeshed(states, lengths, tags, r0, hCorner, vs) && i <= |vs|
    ensures |states[i].surfaces| == |states[0].surfaces| + |Cavities(vs[..i])| + |Vacua(vs[..i])|
  {
    if i > 0 {
      EdgesSurfaceCount(states, lengths, tags, r0, hCorner, vs, i - 1);
      assert EdgeStep(states, lengths, tags, r0, hCorner, vs, i - 1);
      assert vs[..i][..i - 1] == vs[..i - 1];
    }
  }

  /** Every plane surface `_tmesh_polygon` adds is returned exactly once,
      as a cavity or a vacuum surface, and the outer loop is the last loop
      it adds. */
  lemma PolygonSurfaceCount(s0: KernelState, s1: KernelState, corners: seq<Corner>, lengths: seq<real>, phi: Angle,
                            n: int, f: real, rr: real, hCorner: real, run: PolygonRun, v: (int, seq<int>, seq<int>))
    requires PolygonMeshed(s0, s1, corners, lengths, phi, n, f, rr, hCorner, run, v)
    ensures |s1.surfaces| == |s0.surfaces| + |v.1| + |v.2|
    ensures v.0 == |s1.loops| && s1.loops[v.0 - 1] == OuterLoop(Firsts(run.corners), Firsts(run.edges))
  {
    CornersSurfaceCount(run.cornerStates, corners, phi, n, f, run.corners, |corners|);
    EdgesSurfaceCount(run.edgeStates, lengths, Firsts(run.corners), rr, hCorner, run.edges, |run.edges|);
    assert run.corners[..|corners|] == run.corners && run.edges[..|run.edges|] == run.edges;
  }

  /** pq lists the (p, q) split `_compute_pq` gives for every corner. */
  ghost predicate SplitsOf(cs: seq<Corner>, phi: Angle, pq: seq<(int, int)>)
  {
    |pq| == |cs| && forall i :: 0 <= i < |cs| ==> ComputePQ(cs[i].angle, phi) == Ok(pq[i])
  }

  /** Every corner has a split with p, q >= 2. */
  ghost predicate AllWide(cs: seq<Corner>, phi: Angle)
  {
    forall i :: 0 <= i < |cs| ==> var r := ComputePQ(cs[i].angle, phi); r.Ok? && r.value.0 >= 2 && r.value.1 >= 2
  }

  /** For angles strictly between 0 and 2 every corner has a split, and
      each side of it has at least two sectors. */
  lemma Splits(cs: seq<Corner>, phi: Angle) returns (pq: seq<(int, int)>)
    requires phi == PolygonElementaryAngle(cs) && AnglesInside(cs)
    ensures SplitsOf(cs, phi, pq)
    ensures forall i :: 0 <= i < |pq| ==> pq[i].0 >= 2 && pq[i].1 >= 2
  {
    InsideWide(cs, phi);
    pq := WideSplits(cs, phi);
  }

  /** With the polygon's elementary angle, when every corner is strictly
      between 0 and 2, each splits at least 2 + 2. */
  lemma InsideWide(cs: seq<Corner>, phi: Angle)
    requires phi == PolygonElementaryAngle(cs)
    ensures AnglesInside(cs) ==> AllWide(cs, phi)
  {
    forall i | 0 <= i < |cs| && AnglesInside(cs)
      ensures var r := ComputePQ(cs[i].angle, phi); r.Ok? && r.value.0 >= 2 && r.value.1 >= 2
    {
      SplitWide(cs, phi, i);
    }
  }

  /** The splits of corners that all have one. */
  lemma WideSplits(cs: seq<Corner>, phi: Angle) returns (pq: seq<(int, int)>)
    requires AllWide(cs, phi)
    ensures SplitsOf(cs, phi, pq)
    ensures forall i :: 0 <= i < |pq| ==> pq[i].0 >= 2 && pq[i].1 >= 2
  {
    pq := [];
    while |pq| < |cs|
      invariant |pq| <= |cs|
      invariant forall i :: 0 <= i < |pq| ==> ComputePQ(cs[i].angle, phi) == Ok(pq[i])
      invariant forall i :: 0 <= i < |pq| ==> pq[i].0 >= 2 && pq[i].1 >= 2
    {
      pq := pq + [ComputePQ(cs[|pq|].angle, phi).value];
    }
  }

  function CavitySplits(pq: seq<(int, int)>): (r: seq<int>)
    ensures |r| == |pq| && forall i :: 0 <= i < |pq| ==> r[i] == pq[i].0 - 2
  {
    seq(|pq|, i requires 0 <= i < |pq| => pq[i].0 - 2)
  }

  function VacuumSplits(pq: seq<(int, int)>): (r: seq<int>)
    ensures |r| == |pq| && forall i :: 0 <= i < |pq| ==> r[i] == pq[i].1 - 2
  {
    seq(|pq|, i requires 0 <= i < |pq| => pq[i].1 - 2)
  }

  /** Tags that fit their corners follow the splits pq. */
  lemma FitsSplits(cs: seq<Corner>, phi: Angle, pq: seq<(int, int)>, tags: seq<CornerTag>)
    requires SplitsOf(cs, phi, pq) && |tags| == |cs|
    requires forall i :: 0 <= i < |tags| ==> Fits(tags[i], cs[i].angle, phi)
    ensures forall i :: 0 <= i < |tags| ==> SplitAs(tags[i], pq[i].0, pq[i].1)
  {
    forall i | 0 <= i < |tags|
      ensures SplitAs(tags[i], pq[i].0, pq[i].1)
    {
      assert ComputePQ(cs[i].angle, phi) == Ok(pq[i]);
      assert Fits(tags[i], cs[i].angle, phi);
    }
  }

  /** With every corner split at least 2 + 2 (as `Splits` shows for angles
      strictly between 0 and 2), tags following those splits and one side
      per corner, the inner loop has sum(p_i - 2) + n lines and the outer
      one sum(q_i - 2) + n. */
  lemma PolygonLoopLengths(pq: seq<(int, int)>, tags: seq<CornerTag>, es: seq<EdgeTag>)
    requires |pq| == |tags| == |es| && forall i :: 0 <= i < |pq| ==> pq[i].0 >= 2 && pq[i].1 >= 2
    requires forall i :: 0 <= i < |tags| ==> SplitAs(tags[i], pq[i].0, pq[i].1)
    ensures |InnerLoop(tags, es)| == Sum(CavitySplits(pq)) + |tags|
    ensures |OuterLoop(tags, es)| == Sum(VacuumSplits(pq)) + |tags|
  {
    LoopLengths(tags, es);
    ArcsOfSplits(pq, tags);
  }

  /** The arc counts of tags following pq are pq's. */
  lemma ArcsOfSplits(pq: seq<(int, int)>, tags: seq<CornerTag>)
    requires |pq| == |tags| && forall i :: 0 <= i < |pq| ==> pq[i].0 >= 2 && pq[i].1 >= 2
    requires forall i :: 0 <= i < |tags| ==> SplitAs(tags[i], pq[i].0, pq[i].1)
    ensures CavityArcs(tags) == CavitySplits(pq) && VacuumArcs(tags) == VacuumSplits(pq)
  {
    assert CavityArcs(tags) == CavitySplits(pq);
    assert VacuumArcs(tags) == VacuumSplits(pq);
  }
}
