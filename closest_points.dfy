/** The smallest Euclidean distance between the points of a set: the
    brute-force double loop and the divide-and-conquer algorithm (sort by x,
    split in halves, then search the strip around the split by y). The
    norm is a square-root parameter applied to squared distances. */
module ClosestPoints {
  import opened Points
  import opened Sorting

  /** A distance, or `inf` (the starting value of the running minimum). */
  datatype Dist = Finite(d: real) | Infinity

  predicate Less(a: Dist, b: Dist)
  {
    (a.Finite? && b.Infinity?) || (a.Finite? && b.Finite? && a.d < b.d)
  }

  predicate AtMost(a: Dist, b: Dist)
  {
    !Less(b, a)
  }

  /** Python's `min(a, b)`: a, unless b is smaller. */
  function MinOf(a: Dist, b: Dist): (m: Dist)
    ensures m == a || m == b
    ensures AtMost(m, a) && AtMost(m, b)
    ensures AtMost(a, m) || AtMost(b, m)
  {
    if Less(b, a) then b else a
  }

  function Abs(x: real): real
  {
    if x < 0.0 then -x else x
  }

  /** `norm(P - Q)` for the rows i and j. */
  function PairDist(pts: seq<Point>, sqrt: real -> real, i: nat, j: nat): real
    requires i < |pts| && j < |pts|
  {
    sqrt(Dist2(pts[i], pts[j]))
  }

  /** m is at most the distance of every pair i < j. */
  predicate LowerBound(pts: seq<Point>, sqrt: real -> real, m: Dist)
  {
    forall i, j :: 0 <= i < j < |pts| ==> AtMost(m, Finite(PairDist(pts, sqrt, i, j)))
  }

  /** A finite m is the distance of some pair i < j. */
  predicate Attained(pts: seq<Point>, sqrt: real -> real, m: Dist)
  {
    m.Finite? ==> exists i, j :: 0 <= i < j < |pts| && m.d == PairDist(pts, sqrt, i, j)
  }

  /** m is the minimum distance over all pairs, `inf` when there is none. */
  predicate IsMinDist(pts: seq<Point>, sqrt: real -> real, m: Dist)
  {
    LowerBound(pts, sqrt, m) && Attained(pts, sqrt, m)
  }

  /** The minimum is unique; it is `inf` exactly for fewer than two points. */
  lemma MinDistUnique(pts: seq<Point>, sqrt: real -> real, m1: Dist, m2: Dist)
    requires IsMinDist(pts, sqrt, m1) && IsMinDist(pts, sqrt, m2)
    ensures m1 == m2
    ensures m1.Infinity? <==> |pts| < 2
  {
    if |pts| >= 2 {
      assert AtMost(m1, Finite(PairDist(pts, sqrt, 0, 1)));
      assert AtMost(m2, Finite(PairDist(pts, sqrt, 0, 1)));
      var i1, j1 :| 0 <= i1 < j1 < |pts| && m1.d == PairDist(pts, sqrt, i1, j1);
      var i2, j2 :| 0 <= i2 < j2 < |pts| && m2.d == PairDist(pts, sqrt, i2, j2);
      assert AtMost(m1, Finite(PairDist(pts, sqrt, i2, j2)));
      assert AtMost(m2, Finite(PairDist(pts, sqrt, i1, j1)));
    }
  }

  /** Distances are symmetric, non-negative and at least the gap along
      each axis. */
  lemma PairDistGaps(pts: seq<Point>, sqrt: real -> real, i: nat, j: nat)
    requires IsSqrt(sqrt) && i < |pts| && j < |pts|
    ensures PairDist(pts, sqrt, i, j) == PairDist(pts, sqrt, j, i)
    ensures PairDist(pts, sqrt, i, j) >= Abs(pts[i].x - pts[j].x)
    ensures PairDist(pts, sqrt, i, j) >= Abs(pts[i].y - pts[j].y)
  {
    var p, q := pts[i], pts[j];
    Dist2Symmetric(p, q);
    SquareNonNegative(p.x - q.x);
    SquareNonNegative(p.y - q.y);
    assert Sq(p.x - q.x) == Sq(Abs(p.x - q.x));
    assert Sq(p.y - q.y) == Sq(Abs(p.y - q.y));
    SqrtMonotone(sqrt, Sq(Abs(p.x - q.x)), Dist2(p, q));
    SqrtMonotone(sqrt, Sq(Abs(p.y - q.y)), Dist2(p, q));
    SqrtOfSquare(sqrt, Abs(p.x - q.x));
    SqrtOfSquare(sqrt, Abs(p.y - q.y));
  }

  /** The pair of two different rows is attained, in whichever order. */
  lemma AttainedUnordered(pts: seq<Point>, sqrt: real -> real, i: nat, j: nat)
    requires IsSqrt(sqrt) && i < |pts| && j < |pts| && i != j
    ensures Attained(pts, sqrt, Finite(PairDist(pts, sqrt, i, j)))
  {
    PairDistGaps(pts, sqrt, i, j);
    if j < i {
      assert PairDist(pts, sqrt, i, j) == PairDist(pts, sqrt, j, i);
    }
  }

  /** Moving every point by the same vector keeps every pair distance, so
      it keeps the minimum. */
  lemma MinDistTranslation(pts: seq<Point>, moved: seq<Point>, v: Point, sqrt: real -> real, m: Dist)
    requires |moved| == |pts| && forall k :: 0 <= k < |pts| ==> moved[k] == Add(pts[k], v)
    ensures IsMinDist(moved, sqrt, m) <==> IsMinDist(pts, sqrt, m)
  {
    forall i, j | 0 <= i < |pts| && 0 <= j < |pts|
      ensures PairDist(moved, sqrt, i, j) == PairDist(pts, sqrt, i, j)
    {
      Dist2Translate(pts[i], pts[j], v);
    }
  }

  /* ---------------------------------------------------------------- */
  /* Brute force                                                       */
  /* ---------------------------------------------------------------- */

  /** The pairs (a, b), a < b, visited before (i, j) in the double loop all
      have distance at least m. */
  predicate Visited(pts: seq<Point>, sqrt: real -> real, m: Dist, i: nat, j: nat)
  {
    forall a, b :: 0 <= a < b < |pts| && (a < i || (a == i && b < j)) ==>
      AtMost(m, Finite(PairDist(pts, sqrt, a, b)))
  }

  /** `min_dist_naive`: the running minimum over all pairs i < j, starting
      from `inf`. */
  method MinDistNaive(points: seq<Point>, sqrt: real -> real) returns (r: Dist)
    ensures IsMinDist(points, sqrt, r)
  {
    var n := |points|;
    r := Infinity;
    var i := 0;
    while i < n
      invariant 0 <= i <= n
      invariant Visited(points, sqrt, r, i, 0) && Attained(points, sqrt, r)
    {
      var j := i + 1;
      while j < n
        invariant i + 1 <= j <= n
        invariant Visited(points, sqrt, r, i, j) && Attained(points, sqrt, r)
      {
        var t := PairDist(points, sqrt, i, j);
        if Less(Finite(t), r) {
          r := Finite(t);
        }
        j := j + 1;
      }
      i := i + 1;
    }
  }

  /* ---------------------------------------------------------------- */
  /* Divide and conquer                                                */
  /* ---------------------------------------------------------------- */

  function Coord(p: Point, byY: bool): real
  {
    if byY then p.y else p.x
  }

  /** The sort key of `argsort(points[:, 0])` (or column 1). */
  function AxisKey(points: seq<Point>, byY: bool): nat -> Point
  {
    (i: nat) => if i < |points| then Point(Coord(points[i], byY), 0.0) else Point(0.0, 0.0)
  }

  /** Rows x and y of the reordering are in order along the axis. */
  predicate AxisOrdered(points: seq<Point>, idx: seq<nat>, byY: bool, x: nat, y: nat)
    requires x < |idx| && y < |idx| && idx[x] < |points| && idx[y] < |points|
  {
    Coord(points[idx[x]], byY) <= Coord(points[idx[y]], byY)
  }

  /** `argsort` of one coordinate: a reordering of the row indices with
      non-decreasing coordinate. */
  function ArgSort(points: seq<Point>, byY: bool): (idx: seq<nat>)
    ensures |idx| == |points|
    ensures forall k :: 0 <= k < |idx| ==> idx[k] < |points|
    ensures forall m :: 0 <= m < |points| ==> m in idx
    ensures forall x, y :: 0 <= x < y < |idx| ==> idx[x] != idx[y]
    ensures forall x, y :: 0 <= x < y < |idx| ==> AxisOrdered(points, idx, byY, x, y)
  {
    var key := AxisKey(points, byY);
    SortRangePermutation(|points|, key);
    SortBySorted(Range(|points|), key);
    var idx := SortBy(Range(|points|), key);
    assert forall x :: 0 <= x < |idx| ==> key(idx[x]) == Point(Coord(points[idx[x]], byY), 0.0);
    idx
  }

  /** Rows at x-distance below d from the split abscissa. */
  predicate InStrip(p: Point, cx: real, d: Dist)
  {
    Less(Finite(Abs(p.x - cx)), d)
  }

  /** `where(less(absolute(points[:, 0] - M[0]), d))[0]` from row `from`
      on: the increasing indices of exactly the rows in the strip. */
  function StripIndices(points: seq<Point>, cx: real, d: Dist, from: nat): (idx: seq<nat>)
    requires from <= |points|
    ensures forall k :: 0 <= k < |idx| ==> from <= idx[k] < |points| && InStrip(points[idx[k]], cx, d)
    ensures forall x, y :: 0 <= x < y < |idx| ==> idx[x] < idx[y]
    ensures forall i :: from <= i < |points| && InStrip(points[i], cx, d) ==> i in idx
    decreases |points| - from
  {
    if from == |points| then []
    else
      var rest := StripIndices(points, cx, d, from + 1);
      if InStrip(points[from], cx, d) then [from] + rest else rest
  }

  /** The distance of the rows at positions x and y of a reordering. */
  function PosDist(points: seq<Point>, sqrt: real -> real, order: seq<nat>, x: nat, y: nat): real
    requires x < |order| && y < |order| && order[x] < |points| && order[y] < |points|
  {
    PairDist(points, sqrt, order[x], order[y])
  }

  /** After the break at position j of the y-order, every later row is at
      least the current minimum away from row order[i]. */
  lemma BreakBound(points: seq<Point>, sqrt: real -> real, order: seq<nat>, r: Dist, i: nat, j: nat)
    requires IsSqrt(sqrt) && |order| == |points|
    requires forall k :: 0 <= k < |order| ==> order[k] < |points|
    requires forall x, y :: 0 <= x < y < |order| ==> AxisOrdered(points, order, true, x, y)
    requires i < j < |order| && r.Finite?
    requires points[order[j]].y - points[order[i]].y >= r.d
    ensures forall y :: j <= y < |order| ==> AtMost(r, Finite(PosDist(points, sqrt, order, i, y)))
  {
    forall y | j <= y < |order|
      ensures AtMost(r, Finite(PosDist(points, sqrt, order, i, y)))
    {
      if j < y {
        assert AxisOrdered(points, order, true, j, y);
      }
      PairDistGaps(points, sqrt, order[i], order[y]);
    }
  }

  /** Bounds on the pairs of positions of a reordering are bounds on the
      pairs of rows. */
  lemma PositionsToRows(points: seq<Point>, sqrt: real -> real, order: seq<nat>, r: Dist)
    requires IsSqrt(sqrt) && |order| == |points|
    requires forall k :: 0 <= k < |order| ==> order[k] < |points|
    requires forall m :: 0 <= m < |points| ==> m in order
    requires forall x, y :: 0 <= x < y < |order| ==> AtMost(r, Finite(PosDist(points, sqrt, order, x, y)))
    ensures LowerBound(points, sqrt, r)
  {
    forall a, b | 0 <= a < b < |points|
      ensures AtMost(r, Finite(PairDist(points, sqrt, a, b)))
    {
      assert a in order && b in order;
      var x :| 0 <= x < |order| && order[x] == a;
      var y :| 0 <= y < |order| && order[y] == b;
      PairDistGaps(points, sqrt, a, b);
      if y < x {
        assert AtMost(r, Finite(PosDist(points, sqrt, order, y, x)));
      } else {
        assert AtMost(r, Finite(PosDist(points, sqrt, order, x, y)));
      }
    }
  }

  /** `_min_dist_strip(points, d)`: the running minimum from d over the
      pairs in y-order, each inner loop stopped once the y-gap reaches the
      minimum. The result is the smaller of d and the minimum distance of
      the strip. */
  method MinDistStrip(points: seq<Point>, d: Dist, sqrt: real -> real) returns (r: Dist)
    requires IsSqrt(sqrt)
    ensures AtMost(r, d) && LowerBound(points, sqrt, r)
    ensures r == d || (r.Finite? && Attained(points, sqrt, r))
  {
    var n := |points|;
    r := d;
    var order := ArgSort(points, true);
    var i := 0;
    while i < n
      invariant 0 <= i <= n
      invariant AtMost(r, d) && (r == d || (r.Finite? && Attained(points, sqrt, r)))
      invariant forall x, y :: 0 <= x < i && x < y < n ==> AtMost(r, Finite(PosDist(points, sqrt, order, x, y)))
    {
      ghost var r0 := r;
      r := StripRow(points, sqrt, order, i, r);
      RowsLowered(points, sqrt, order, i, r0, r);
      i := i + 1;
    }
    PositionsToRows(points, sqrt, order, r);
  }

  /** The inner loop of `_min_dist_strip` for position i of the y-order: it
      lowers the running minimum r0 to the distances from row order[i] to
      the rows after it, stopping at the first row at least r0 above it. */
  method StripRow(points: seq<Point>, sqrt: real -> real, order: seq<nat>, i: nat, r0: Dist) returns (r: Dist)
    requires IsSqrt(sqrt) && |order| == |points| && i < |points|
    requires forall k :: 0 <= k < |order| ==> order[k] < |points|
    requires forall x, y :: 0 <= x < y < |order| ==> order[x] != order[y]
    requires forall x, y :: 0 <= x < y < |order| ==> AxisOrdered(points, order, true, x, y)
    ensures AtMost(r, r0) && (r == r0 || (r.Finite? && Attained(points, sqrt, r)))
    ensures forall y :: i < y < |points| ==> AtMost(r, Finite(PosDist(points, sqrt, order, i, y)))
  {
    var n := |points|;
    r := r0;
    var p := points[order[i]];
    var j := i + 1;
    while j < n
      invariant i + 1 <= j <= n
      invariant AtMost(r, r0) && (r == r0 || (r.Finite? && Attained(points, sqrt, r)))
      invariant forall y :: i < y < j ==> AtMost(r, Finite(PosDist(points, sqrt, order, i, y)))
    {
      var q := points[order[j]];
      if !Less(Finite(q.y - p.y), r) {
        BreakBound(points, sqrt, order, r, i, j);
        break;
      }
      var t := PosDist(points, sqrt, order, i, j);
      if Less(Finite(t), r) {
        AttainedUnordered(points, sqrt, order[i], order[j]);
        r := Finite(t);
      }
      j := j + 1;
    }
  }

  /** Lowering the minimum keeps it below every pair already seen, and row
      i's pairs join them. */
  lemma RowsLowered(points: seq<Point>, sqrt: real -> real, order: seq<nat>, i: nat, r0: Dist, r: Dist)
    requires |order| == |points| && i < |points|
    requires forall k :: 0 <= k < |order| ==> order[k] < |points|
    requires forall x, y :: 0 <= x < i && x < y < |points| ==> AtMost(r0, Finite(PosDist(points, sqrt, order, x, y)))
    requires AtMost(r, r0)
    requires forall y :: i < y < |points| ==> AtMost(r, Finite(PosDist(points, sqrt, order, i, y)))
    ensures forall x, y :: 0 <= x < i + 1 && x < y < |points| ==> AtMost(r, Finite(PosDist(points, sqrt, order, x, y)))
  {
  }

  /** Sorted by abscissa. */
  predicate SortedX(points: seq<Point>)
  {
    forall j, k :: 0 <= j < k < |points| ==> points[j].x <= points[k].x
  }

  /** `_min_dist_rec`: brute force up to three rows; otherwise the halves
      split at n // 2, then the strip around the middle row. The result is
      always some pair distance, and it is the minimum when the rows are
      sorted by x. */
  method MinDistRec(points: seq<Point>, sqrt: real -> real) returns (r: Dist)
    requires IsSqrt(sqrt)
    ensures Attained(points, sqrt, r) && (|points| >= 2 ==> r.Finite?)
    ensures SortedX(points) ==> LowerBound(points, sqrt, r)
    decreases |points|
  {
    var n := |points|;
    if n <= 3 {
      r := MinDistNaive(points, sqrt);
      MinDistUnique(points, sqrt, r, r);
      return;
    }
    var mid := n / 2;
    var m := points[mid];
    var dl := MinDistRec(points[..mid], sqrt);
    var dr := MinDistRec(points[mid..], sqrt);
    var d := MinOf(dl, dr);
    var idx := StripIndices(points, m.x, d, 0);
    var strip := seq(|idx|, k requires 0 <= k < |idx| => points[idx[k]]);
    var s := MinDistStrip(strip, d, sqrt);
    r := MinOf(d, s);
    RecResult(points, sqrt, mid, dl, dr, idx, strip, s);
  }

  /** The facts of the two recursive calls and of the strip, combined. */
  lemma RecResult(points: seq<Point>, sqrt: real -> real, mid: nat, dl: Dist, dr: Dist,
                  idx: seq<nat>, strip: seq<Point>, s: Dist)
    requires IsSqrt(sqrt) && 2 <= mid <= |points| - 2
    requires Attained(points[..mid], sqrt, dl) && dl.Finite?
    requires Attained(points[mid..], sqrt, dr) && dr.Finite?
    requires SortedX(points[..mid]) ==> LowerBound(points[..mid], sqrt, dl)
    requires SortedX(points[mid..]) ==> LowerBound(points[mid..], sqrt, dr)
    requires forall i :: 0 <= i < |points| && InStrip(points[i], points[mid].x, MinOf(dl, dr)) ==> i in idx
    requires forall x, y :: 0 <= x < y < |idx| ==> idx[x] < idx[y]
    requires forall k :: 0 <= k < |idx| ==> idx[k] < |points|
    requires |strip| == |idx| && forall k :: 0 <= k < |idx| ==> strip[k] == points[idx[k]]
    requires AtMost(s, MinOf(dl, dr)) && LowerBound(strip, sqrt, s)
    requires s == MinOf(dl, dr) || (s.Finite? && Attained(strip, sqrt, s))
    ensures var r := MinOf(MinOf(dl, dr), s);
      Attained(points, sqrt, r) && r.Finite? && (SortedX(points) ==> LowerBound(points, sqrt, r))
  {
    var d := MinOf(dl, dr);
    HalvesAttained(points, sqrt, mid, dl, dr);
    if s != d {
      StripAttained(points, sqrt, idx, strip, s);
    }
    if SortedX(points) {
      HalvesSorted(points, mid);
      RecBound(points, sqrt, mid, dl, dr, idx, strip, s);
    }
  }

  lemma HalvesAttained(points: seq<Point>, sqrt: real -> real, mid: nat, dl: Dist, dr: Dist)
    requires mid <= |points|
    requires Attained(points[..mid], sqrt, dl) && Attained(points[mid..], sqrt, dr)
    ensures Attained(points, sqrt, dl) && Attained(points, sqrt, dr)
  {
    if dl.Finite? {
      var i, j :| 0 <= i < j < mid && dl.d == PairDist(points[..mid], sqrt, i, j);
      assert PairDist(points[..mid], sqrt, i, j) == PairDist(points, sqrt, i, j);
    }
    if dr.Finite? {
      var i, j :| 0 <= i < j < |points| - mid && dr.d == PairDist(points[mid..], sqrt, i, j);
      assert PairDist(points[mid..], sqrt, i, j) == PairDist(points, sqrt, i + mid, j + mid);
    }
  }

  /** A pair of the strip is a pair of rows, in the same order. */
  lemma StripAttained(points: seq<Point>, sqrt: real -> real, idx: seq<nat>, strip: seq<Point>, s: Dist)
    requires forall k :: 0 <= k < |idx| ==> idx[k] < |points|
    requires forall x, y :: 0 <= x < y < |idx| ==> idx[x] < idx[y]
    requires |strip| == |idx| && forall k :: 0 <= k < |idx| ==> strip[k] == points[idx[k]]
    requires Attained(strip, sqrt, s)
    ensures Attained(points, sqrt, s)
  {
    if s.Finite? {
      var x, y :| 0 <= x < y < |strip| && s.d == PairDist(strip, sqrt, x, y);
      assert PairDist(strip, sqrt, x, y) == PairDist(points, sqrt, idx[x], idx[y]);
    }
  }

  lemma HalvesSorted(points: seq<Point>, mid: nat)
    requires mid <= |points| && SortedX(points)
    ensures SortedX(points[..mid]) && SortedX(points[mid..])
  {
    var right := points[mid..];
    forall j, k | 0 <= j < k < |right| ensures right[j].x <= right[k].x {
      assert right[j] == points[j + mid] && right[k] == points[k + mid];
    }
  }

  /** On rows sorted by x, every pair is at least the result: pairs inside
      a half by the recursive bounds, pairs across the split because a
      crossing pair closer than d has both rows in the strip. */
  lemma RecBound(points: seq<Point>, sqrt: real -> real, mid: nat, dl: Dist, dr: Dist,
                 idx: seq<nat>, strip: seq<Point>, s: Dist)
    requires IsSqrt(sqrt) && SortedX(points) && 0 < mid < |points|
    requires LowerBound(points[..mid], sqrt, dl) && LowerBound(points[mid..], sqrt, dr)
    requires forall i :: 0 <= i < |points| && InStrip(points[i], points[mid].x, MinOf(dl, dr)) ==> i in idx
    requires forall x, y :: 0 <= x < y < |idx| ==> idx[x] < idx[y]
    requires forall k :: 0 <= k < |idx| ==> idx[k] < |points|
    requires |strip| == |idx| && forall k :: 0 <= k < |idx| ==> strip[k] == points[idx[k]]
    requires LowerBound(strip, sqrt, s)
    ensures LowerBound(points, sqrt, MinOf(MinOf(dl, dr), s))
  {
    var d := MinOf(dl, dr);
    var r := MinOf(d, s);
    forall i, j | 0 <= i < j < |points|
      ensures AtMost(r, Finite(PairDist(points, sqrt, i, j)))
    {
      var t := Finite(PairDist(points, sqrt, i, j));
      if j < mid {
        assert PairDist(points[..mid], sqrt, i, j) == t.d;
      } else if mid <= i {
        assert PairDist(points[mid..], sqrt, i - mid, j - mid) == t.d;
      } else if Less(t, d) {
        CrossingInStrip(points, sqrt, mid, d, idx, i, j);
        var x :| 0 <= x < |idx| && idx[x] == i;
        var y :| 0 <= y < |idx| && idx[y] == j;
        assert x < y;
        assert PairDist(strip, sqrt, x, y) == t.d;
      }
    }
  }

  /** A pair across the split closer than d: both rows are in the strip. */
  lemma CrossingInStrip(points: seq<Point>, sqrt: real -> real, mid: nat, d: Dist, idx: seq<nat>, i: nat, j: nat)
    requires IsSqrt(sqrt) && SortedX(points) && i < mid <= j < |points|
    requires Less(Finite(PairDist(points, sqrt, i, j)), d)
    requires forall k :: 0 <= k < |points| && InStrip(points[k], points[mid].x, d) ==> k in idx
    ensures i in idx && j in idx
  {
    PairDistGaps(points, sqrt, i, j);
    var cx := points[mid].x;
    assert points[i].x <= cx <= points[j].x;
    assert InStrip(points[i], cx, d);
    assert InStrip(points[j], cx, d);
  }

  /** `min_dist`: the divide and conquer on the rows sorted by x, which is
      the minimum distance over all pairs. */
  method MinDist(points: seq<Point>, sqrt: real -> real) returns (r: Dist)
    requires IsSqrt(sqrt)
    ensures IsMinDist(points, sqrt, r)
  {
    var idx := ArgSort(points, false);
    var sorted := seq(|idx|, k requires 0 <= k < |idx| => points[idx[k]]);
    assert SortedX(sorted) by {
      forall j, k | 0 <= j < k < |sorted| ensures sorted[j].x <= sorted[k].x {
        assert AxisOrdered(points, idx, false, j, k);
      }
    }
    r := MinDistRec(sorted, sqrt);
    Reordered(points, sqrt, idx, sorted, r);
  }

  /** The minimum distance does not depend on the order of the rows. */
  lemma Reordered(points: seq<Point>, sqrt: real -> real, idx: seq<nat>, sorted: seq<Point>, r: Dist)
    requires IsSqrt(sqrt) && |idx| == |points|
    requires forall k :: 0 <= k < |idx| ==> idx[k] < |points|
    requires forall m :: 0 <= m < |points| ==> m in idx
    requires forall x, y :: 0 <= x < y < |idx| ==> idx[x] != idx[y]
    requires |sorted| == |idx| && forall k :: 0 <= k < |idx| ==> sorted[k] == points[idx[k]]
    requires IsMinDist(sorted, sqrt, r)
    ensures IsMinDist(points, sqrt, r)
  {
    forall x, y | 0 <= x < y < |idx|
      ensures AtMost(r, Finite(PosDist(points, sqrt, idx, x, y)))
    {
      assert PairDist(sorted, sqrt, x, y) == PairDist(points, sqrt, idx[x], idx[y]);
    }
    PositionsToRows(points, sqrt, idx, r);
    if r.Finite? {
      var x, y :| 0 <= x < y < |sorted| && r.d == PairDist(sorted, sqrt, x, y);
      assert PairDist(sorted, sqrt, x, y) == PairDist(points, sqrt, idx[x], idx[y]);
      AttainedUnordered(points, sqrt, idx[x], idx[y]);
    }
  }

  /** The divide and conquer and the brute force agree. */
  method MinDistAgree(points: seq<Point>, sqrt: real -> real) returns (fast: Dist, naive: Dist)
    requires IsSqrt(sqrt)
    ensures fast == naive
    ensures fast.Infinity? <==> |points| < 2
  {
    fast := MinDist(points, sqrt);
    naive := MinDistNaive(points, sqrt);
    MinDistUnique(points, sqrt, fast, naive);
  }
}
