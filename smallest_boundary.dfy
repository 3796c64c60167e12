/** The smallest enclosing circle (Welzl's algorithm over the convex hull
    from Andrew's monotone chain) and the smallest axis-aligned rectangle of
    a point set. Radii are kept squared: `r2` stands for `radius ** 2`. */
module SmallestBoundary {
  import opened Arith
  import opened Wrappers
  import opened Points
  import opened Sorting
  import opened CircularIterable

  const EPS_ADD: real := 0.000000000001
  const EPS_MUL: real := 1.000000000001

  /** A circle by centre and squared radius; `Undefined` is the circle
      numpy computes from a zero determinant (NaN, or an infinite radius),
      which contains nothing. `_smallest_circle_3_points` reaches it for
      three coincident points; distinct collinear points are caught by a
      two-point circle first. */
  datatype Circle = Circle(center: Point, r2: real) | Undefined

  /* ---------------------------------------------------------------- */
  /* Convex hull                                                       */
  /* ---------------------------------------------------------------- */

  /** `_cross_product(o, u, v)`: the cross product of u - o and v - o. */
  function CrossProduct(o: Point, u: Point, v: Point): real
  {
    Mul(u.x - o.x, v.y - o.y) - Mul(u.y - o.y, v.x - o.x)
  }

  /** Exchanging u and v flips the sign; a common translation changes
      nothing. */
  lemma CrossProductSymmetries(o: Point, u: Point, v: Point, t: Point)
    ensures CrossProduct(o, v, u) == -CrossProduct(o, u, v)
    ensures CrossProduct(Add(o, t), Add(u, t), Add(v, t)) == CrossProduct(o, u, v)
  {
    assert Mul(v.x - o.x, u.y - o.y) == Mul(u.y - o.y, v.x - o.x);
    assert Mul(v.y - o.y, u.x - o.x) == Mul(u.x - o.x, v.y - o.y);
  }

  predicate InRange(pts: seq<Point>, s: seq<nat>)
  {
    forall k :: 0 <= k < |s| ==> s[k] < |pts|
  }

  /** Every three consecutive hull indices turn strictly left, by more than
      EPS_ADD. */
  predicate LeftTurns(pts: seq<Point>, s: seq<nat>)
    requires InRange(pts, s)
  {
    forall k :: 0 <= k < |s| - 2 ==> TurnAt(pts, s, k) > EPS_ADD
  }

  /** The turn of the hull indices k, k + 1, k + 2. */
  function TurnAt(pts: seq<Point>, s: seq<nat>, k: nat): real
    requires InRange(pts, s) && k + 2 < |s|
  {
    CrossProduct(pts[s[k]], pts[s[k + 1]], pts[s[k + 2]])
  }

  /** `lower` holds the elements of `order` at the strictly increasing
      positions `pos`, all below k. */
  predicate Picks(order: seq<nat>, lower: seq<nat>, pos: seq<nat>, k: nat)
  {
    |pos| == |lower| &&
    (forall j :: 0 <= j < |pos| ==> pos[j] < k && pos[j] < |order| && lower[j] == order[pos[j]]) &&
    (forall j :: 0 <= j < |pos| - 1 ==> pos[j] < pos[j + 1])
  }

  /** The stack invariant of `_lower_hull` after k elements of `order`. */
  predicate StackInv(pts: seq<Point>, order: seq<nat>, lower: seq<nat>, pos: seq<nat>, k: nat)
  {
    InRange(pts, lower) && LeftTurns(pts, lower) && Picks(order, lower, pos, k) &&
    (k == 0 ==> lower == []) && (k > 0 ==> |lower| > 0 && pos[0] == 0)
  }

  lemma StackPop(pts: seq<Point>, order: seq<nat>, lower: seq<nat>, pos: seq<nat>, k: nat)
    requires StackInv(pts, order, lower, pos, k) && |lower| >= 2
    ensures StackInv(pts, order, lower[..|lower| - 1], pos[..|pos| - 1], k)
  {
    var t := lower[..|lower| - 1];
    assert forall j :: 0 <= j < |t| ==> t[j] == lower[j];
    assert forall j :: 0 <= j < |t| - 2 ==> TurnAt(pts, t, j) == TurnAt(pts, lower, j);
  }

  lemma StackPush(pts: seq<Point>, order: seq<nat>, lower: seq<nat>, pos: seq<nat>, k: nat)
    requires StackInv(pts, order, lower, pos, k) && k < |order| && order[k] < |pts|
    requires |lower| >= 2 ==> CrossProduct(pts[lower[|lower| - 2]], pts[lower[|lower| - 1]], pts[order[k]]) > EPS_ADD
    ensures var lower', pos' := lower + [order[k]], pos + [k];
      StackInv(pts, order, lower', pos', k + 1) && pos'[|pos'| - 1] == k &&
      lower'[|lower'| - 1] == order[k] && (k > 0 ==> |lower'| >= 2)
  {
    var t := lower + [order[k]];
    assert forall j :: 0 <= j < |lower| ==> t[j] == lower[j];
    assert t[|lower|] == order[k];
    assert forall j :: 0 <= j < |lower| - 2 ==> TurnAt(pts, t, j) == TurnAt(pts, lower, j);
    if |lower| >= 2 {
      assert TurnAt(pts, t, |lower| - 2) > EPS_ADD;
    }
  }

  /** `pts[i, :]`; an index out of range reads the origin (every index the
      hull reads is in range). */
  function Row(pts: seq<Point>, i: nat): Point
  {
    if i < |pts| then pts[i] else Point(0.0, 0.0)
  }

  /** The turn `_lower_hull` tests with `lower` on the stack and i next. */
  function TopTurn(pts: seq<Point>, lower: seq<nat>, i: nat): real
    requires |lower| >= 2
  {
    CrossProduct(Row(pts, lower[|lower| - 2]), Row(pts, lower[|lower| - 1]), Row(pts, i))
  }

  /** The inner `while` of `_lower_hull`: the top is popped while the last
      two indices and i do not turn left by more than EPS_ADD. */
  function PopNonLeft(pts: seq<Point>, lower: seq<nat>, i: nat): seq<nat>
    decreases |lower|
  {
    if |lower| >= 2 && TopTurn(pts, lower, i) <= EPS_ADD then PopNonLeft(pts, lower[..|lower| - 1], i)
    else lower
  }

  /** The stack `_lower_hull` leaves after the indices of `order`, each
      pushed after the pops it causes. */
  function LowerStack(pts: seq<Point>, order: seq<nat>): seq<nat>
    decreases |order|
  {
    if |order| == 0 then []
    else PopNonLeft(pts, LowerStack(pts, order[..|order| - 1]), order[|order| - 1]) + [order[|order| - 1]]
  }

  /** What the pops leave: a prefix of the stack, non-empty when the stack
      was, ending in a turn above EPS_ADD towards i; the last index popped
      made a turn of at most EPS_ADD. */
  lemma {:induction false} PopNonLeftSpec(pts: seq<Point>, lower: seq<nat>, i: nat)
    ensures |PopNonLeft(pts, lower, i)| <= |lower|
    ensures PopNonLeft(pts, lower, i) == lower[..|PopNonLeft(pts, lower, i)|]
    ensures |lower| > 0 ==> |PopNonLeft(pts, lower, i)| > 0
    ensures |PopNonLeft(pts, lower, i)| >= 2 ==> TopTurn(pts, PopNonLeft(pts, lower, i), i) > EPS_ADD
    ensures |PopNonLeft(pts, lower, i)| < |lower| ==>
      TopTurn(pts, lower[..|PopNonLeft(pts, lower, i)| + 1], i) <= EPS_ADD
    decreases |lower|
  {
    if |lower| >= 2 && TopTurn(pts, lower, i) <= EPS_ADD {
      var t := lower[..|lower| - 1];
      PopNonLeftSpec(pts, t, i);
      var r := PopNonLeft(pts, t, i);
      assert r == lower[..|r|];
      if |r| < |t| {
        assert t[..|r| + 1] == lower[..|r| + 1];
      } else {
        assert lower[..|r| + 1] == lower;
      }
    }
  }

  /** `_lower_hull`: the loop of pops and pushes leaves `LowerStack`. */
  method LowerHull(pts: seq<Point>, order: seq<nat>) returns (lower: seq<nat>)
    requires InRange(pts, order)
    ensures lower == LowerStack(pts, order)
  {
    lower := [];
    var k := 0;
    while k < |order|
      invariant 0 <= k <= |order|
      invariant InRange(pts, lower) && lower == LowerStack(pts, order[..k])
    {
      var i := order[k];
      ghost var top := lower;
      while |lower| >= 2 && CrossProduct(pts[lower[|lower| - 2]], pts[lower[|lower| - 1]], pts[i]) <= EPS_ADD
        invariant InRange(pts, lower) && PopNonLeft(pts, lower, i) == PopNonLeft(pts, top, i)
        decreases |lower|
      {
        PopStep(pts, lower, i);
        lower := lower[..|lower| - 1];
      }
      PopDone(pts, lower, i);
      LowerStackStep(pts, order, k);
      lower := lower + [i];
      k := k + 1;
    }
    assert order[..|order|] == order;
  }

  /** One more index of `order`: its pops, then its push. */
  lemma LowerStackStep(pts: seq<Point>, order: seq<nat>, k: nat)
    requires k < |order|
    ensures LowerStack(pts, order[..k + 1]) == PopNonLeft(pts, LowerStack(pts, order[..k]), order[k]) + [order[k]]
  {
    assert order[..k + 1][..k] == order[..k];
  }

  /** One pop of the inner loop leads to the same stack. */
  lemma PopStep(pts: seq<Point>, lower: seq<nat>, i: nat)
    requires InRange(pts, lower) && i < |pts| && |lower| >= 2
    requires CrossProduct(pts[lower[|lower| - 2]], pts[lower[|lower| - 1]], pts[i]) <= EPS_ADD
    ensures InRange(pts, lower[..|lower| - 1])
    ensures PopNonLeft(pts, lower[..|lower| - 1], i) == PopNonLeft(pts, lower, i)
  {
  }

  /** Once the loop test fails nothing more is popped. */
  lemma PopDone(pts: seq<Point>, lower: seq<nat>, i: nat)
    requires InRange(pts, lower) && i < |pts|
    requires !(|lower| >= 2 && CrossProduct(pts[lower[|lower| - 2]], pts[lower[|lower| - 1]], pts[i]) <= EPS_ADD)
    ensures PopNonLeft(pts, lower, i) == lower
  {
  }

  /** The pops keep the stack invariant. */
  lemma {:induction false} PopChain(pts: seq<Point>, order: seq<nat>, lower: seq<nat>, pos: seq<nat>, k: nat, i: nat)
    returns (pos': seq<nat>)
    requires StackInv(pts, order, lower, pos, k) && i < |pts|
    ensures StackInv(pts, order, PopNonLeft(pts, lower, i), pos', k)
    decreases |lower|
  {
    if |lower| >= 2 && TopTurn(pts, lower, i) <= EPS_ADD {
      StackPop(pts, order, lower, pos, k);
      pos' := PopChain(pts, order, lower[..|lower| - 1], pos[..|pos| - 1], k, i);
    } else {
      pos' := pos;
    }
  }

  /** After the first k indices of `order` the stack is a subsequence of
      them starting at the first, turning strictly left throughout. */
  lemma {:induction false} LowerStackPrefix(pts: seq<Point>, order: seq<nat>, k: nat) returns (pos: seq<nat>)
    requires InRange(pts, order) && k <= |order|
    ensures StackInv(pts, order, LowerStack(pts, order[..k]), pos, k)
    ensures k >= 2 ==> |LowerStack(pts, order[..k])| >= 2
    decreases k
  {
    if k == 0 {
      return [];
    }
    var pos0 := LowerStackPrefix(pts, order, k - 1);
    var prev := LowerStack(pts, order[..k - 1]);
    LowerStackStep(pts, order, k - 1);
    pos := PushChain(pts, order, prev, pos0, k - 1);
  }

  /** The pops and the push of the index at k keep the stack invariant. */
  lemma PushChain(pts: seq<Point>, order: seq<nat>, lower: seq<nat>, pos: seq<nat>, k: nat) returns (pos': seq<nat>)
    requires StackInv(pts, order, lower, pos, k) && k < |order| && order[k] < |pts|
    ensures StackInv(pts, order, PopNonLeft(pts, lower, order[k]) + [order[k]], pos', k + 1)
    ensures k > 0 ==> |PopNonLeft(pts, lower, order[k]) + [order[k]]| >= 2
  {
    var pos1 := PopChain(pts, order, lower, pos, k, order[k]);
    PopNonLeftSpec(pts, lower, order[k]);
    StackPush(pts, order, PopNonLeft(pts, lower, order[k]), pos1, k);
    pos' := pos1 + [k];
  }

  /** The properties of the monotone chain: `LowerStack` holds elements of
      `order` at increasing positions `pos`, keeps its first and last
      element, and turns strictly left at every inner index. */
  lemma LowerStackChain(pts: seq<Point>, order: seq<nat>) returns (pos: seq<nat>)
    requires InRange(pts, order)
    ensures MonotoneChain(pts, order, LowerStack(pts, order), pos)
  {
    pos := LowerStackPrefix(pts, order, |order|);
    assert order[..|order|] == order;
  }

  /** An out-of-range index reads the origin; only in-range ones are sorted. */
  function RowKey(points: seq<Point>): nat -> Point
  {
    (i: nat) => if i < |points| then points[i] else Point(0.0, 0.0)
  }

  /** Sorting integers: the key of i is (i, 0). */
  function NumKey(i: nat): Point
  {
    Point(i as real, 0.0)
  }

  /** Row idx[j] is not lexicographically above row idx[k]. */
  predicate RowsInOrder(points: seq<Point>, idx: seq<nat>, j: nat, k: nat)
    requires InRange(points, idx) && j < |idx| && k < |idx|
  {
    !LexLess(points[idx[k]], points[idx[j]])
  }

  /** `lexsort((y, x))`: the row indices by x, then y. */
  function LexOrder(points: seq<Point>): (idx: seq<nat>)
    ensures |idx| == |points| && InRange(points, idx)
    ensures forall j :: 0 <= j < |points| ==> j in idx
    ensures forall j, k :: 0 <= j < k < |idx| ==> RowsInOrder(points, idx, j, k)
  {
    var key := RowKey(points);
    SortRangePermutation(|points|, key);
    SortBySorted(Range(|points|), key);
    var idx := SortBy(Range(|points|), key);
    assert forall k :: 0 <= k < |idx| ==> key(idx[k]) == points[idx[k]];
    idx
  }

  /** The first index of the lex order is a lexicographically smallest row,
      the last one a largest. */
  lemma LexOrderExtremes(points: seq<Point>)
    requires |points| > 0
    ensures var idx := LexOrder(points);
      forall j :: 0 <= j < |points| ==>
        !LexLess(points[j], points[idx[0]]) && !LexLess(points[idx[|idx| - 1]], points[j])
  {
    var idx, n := LexOrder(points), |points|;
    forall j | 0 <= j < n
      ensures !LexLess(points[j], points[idx[0]]) && !LexLess(points[idx[n - 1]], points[j])
    {
      assert j in idx;
      var m :| 0 <= m < n && idx[m] == j;
      if 0 < m { assert RowsInOrder(points, idx, 0, m); }
      if m < n - 1 { assert RowsInOrder(points, idx, m, n - 1); }
    }
  }

  /** What `convex_hull` returns: `arange(n)` (indices) for at most one
      point, rows of the input otherwise. */
  datatype Hull = IndexRange(n: nat) | Rows(rows: seq<Point>)

  /** `lower` is what `_lower_hull` leaves on its stack for `order`: the
      elements of `order` at the increasing positions `pos`, keeping its
      first and last element, turning strictly left at every inner index. */
  ghost predicate MonotoneChain(pts: seq<Point>, order: seq<nat>, lower: seq<nat>, pos: seq<nat>)
  {
    Picks(order, lower, pos, |order|) && InRange(pts, lower) && LeftTurns(pts, lower) &&
    (|order| == 0 ==> lower == []) &&
    (|order| > 0 ==> |lower| > 0 && lower[0] == order[0] && lower[|lower| - 1] == order[|order| - 1]) &&
    (|order| >= 2 ==> |lower| >= 2)
  }

  /** The two stacks of `convex_hull` with the positions they were picked at. */
  datatype Chains = Chains(lower: seq<nat>, lowerPos: seq<nat>, upper: seq<nat>, upperPos: seq<nat>)

  /** `s[:-1]`: all but the last element. */
  function DropLast(s: seq<nat>): seq<nat>
  {
    if |s| == 0 then [] else s[..|s| - 1]
  }

  /** `sort([*lower[:-1], *upper[:-1]])`. */
  function Selection(lower: seq<nat>, upper: seq<nat>): seq<nat>
  {
    SortBy(DropLast(lower) + DropLast(upper), NumKey)
  }

  /** The stack of `_lower_hull` over the lexicographic order. */
  function LowerChain(points: seq<Point>): seq<nat>
  {
    LowerStack(points, LexOrder(points))
  }

  /** The stack of `_lower_hull` over the reversed lexicographic order. */
  function UpperChain(points: seq<Point>): seq<nat>
  {
    LowerStack(points, Reverse(LexOrder(points)))
  }

  /** The row indices `convex_hull` selects from two points on. */
  function HullSelection(points: seq<Point>): seq<nat>
  {
    Selection(LowerChain(points), UpperChain(points))
  }

  /** `points[sel, :]`: the rows at the selected indices. */
  function RowsAt(points: seq<Point>, sel: seq<nat>): (rows: seq<Point>)
    ensures |rows| == |sel|
  {
    seq(|sel|, k requires 0 <= k < |sel| => Row(points, sel[k]))
  }

  /** The rows Welzl's recursion runs over: the rows of `convex_hull` from
      two points on, and the point set itself for at most one. */
  function HullRows(points: seq<Point>): seq<Point>
  {
    if |points| <= 1 then points else RowsAt(points, HullSelection(points))
  }

  /** `convex_hull`: `arange(n)` for at most one point; otherwise the rows
      at the sorted indices of the lower and the upper stack, each without
      its last index. */
  method ConvexHull(points: seq<Point>) returns (h: Hull)
    ensures |points| <= 1 ==> h == IndexRange(|points|)
    ensures |points| >= 2 ==> h == Rows(HullRows(points))
  {
    var n := |points|;
    if n <= 1 {
      return IndexRange(n);
    }
    var idx := LexOrder(points);
    assert InRange(points, Reverse(idx));
    var lower := LowerHull(points, idx);
    var upper := LowerHull(points, Reverse(idx));
    var sorted := Selection(lower, upper);
    h := Rows(RowsAt(points, sorted));
  }

  /** The stacks of two or more points: monotone chains over the
      lexicographic order and over its reverse, of at least two indices
      each. */
  lemma HullChainsSpec(points: seq<Point>) returns (ch: Chains)
    requires |points| >= 2
    ensures ch.lower == LowerChain(points) && ch.upper == UpperChain(points)
    ensures MonotoneChain(points, LexOrder(points), ch.lower, ch.lowerPos)
    ensures MonotoneChain(points, Reverse(LexOrder(points)), ch.upper, ch.upperPos)
    ensures |ch.lower| >= 2 && |ch.upper| >= 2
  {
    var idx := LexOrder(points);
    assert InRange(points, Reverse(idx));
    var pl := LowerStackChain(points, idx);
    var pu := LowerStackChain(points, Reverse(idx));
    ch := Chains(LowerStack(points, idx), pl, LowerStack(points, Reverse(idx)), pu);
  }

  /** The selection of two or more points is ascending, in range, holds the
      indices of both stacks without their last one, has at least two of
      them and keeps both lexicographic extremes. */
  lemma HullSelectionSpec(points: seq<Point>)
    requires |points| >= 2
    ensures multiset(HullSelection(points)) == multiset(DropLast(LowerChain(points)) + DropLast(UpperChain(points)))
    ensures Ascending(HullSelection(points)) && InRange(points, HullSelection(points))
    ensures |HullSelection(points)| >= 2
    ensures LexOrder(points)[0] in HullSelection(points)
    ensures LexOrder(points)[|points| - 1] in HullSelection(points)
  {
    var ch := HullChainsSpec(points);
    var idx := LexOrder(points);
    assert Reverse(idx)[0] == idx[|points| - 1];
    SelectionFacts(points, ch.lower, ch.upper, idx[0], idx[|points| - 1]);
  }

  /** The selection of two in-range stacks: sorted, in range, the same
      indices, with both first elements. */
  lemma SelectionFacts(points: seq<Point>, lower: seq<nat>, upper: seq<nat>, a: nat, b: nat)
    requires InRange(points, lower) && InRange(points, upper) && |lower| >= 2 && |upper| >= 2
    requires lower[0] == a && upper[0] == b
    ensures var sel := Selection(lower, upper);
      |sel| >= 2 && InRange(points, sel) && Ascending(sel) && a in sel && b in sel &&
      multiset(sel) == multiset(DropLast(lower) + DropLast(upper))
  {
    ChainsJoin(points, lower, upper);
    SortedSelection(points, lower[..|lower| - 1] + upper[..|upper| - 1]);
  }

  /** The rows of the hull of two or more points: one per selected index. */
  lemma HullRowsAt(points: seq<Point>)
    requires |points| >= 2
    ensures InRange(points, HullSelection(points)) && |HullRows(points)| == |HullSelection(points)| >= 2
    ensures forall k :: 0 <= k < |HullRows(points)| ==> HullRows(points)[k] == points[HullSelection(points)[k]]
  {
    HullSelectionSpec(points);
  }

  /** Non-decreasing, as `sort` leaves integers. */
  predicate Ascending(s: seq<nat>)
  {
    forall j, k :: 0 <= j < k < |s| ==> s[j] <= s[k]
  }

  /** Both chains without their last index, one after the other: in range,
      with the first index of each chain kept. */
  lemma ChainsJoin(points: seq<Point>, lower: seq<nat>, upper: seq<nat>)
    requires InRange(points, lower) && InRange(points, upper)
    requires |lower| >= 2 && |upper| >= 2
    ensures var chosen := lower[..|lower| - 1] + upper[..|upper| - 1];
      InRange(points, chosen) && chosen[0] == lower[0] && chosen[|lower| - 1] == upper[0]
  {
    var chosen := lower[..|lower| - 1] + upper[..|upper| - 1];
    forall k | 0 <= k < |chosen| ensures chosen[k] < |points| {
      if k < |lower| - 1 { assert chosen[k] == lower[k]; }
      else { assert chosen[k] == upper[k - (|lower| - 1)]; }
    }
  }

  /** `sort` of in-range indices: non-decreasing, in range, the same
      elements. */
  lemma SortedSelection(points: seq<Point>, chosen: seq<nat>)
    requires InRange(points, chosen)
    ensures var sel := SortBy(chosen, NumKey);
      |sel| == |chosen| && InRange(points, sel) &&
      (forall j, k :: 0 <= j < k < |sel| ==> sel[j] <= sel[k]) &&
      (forall x :: x in chosen ==> x in sel)
  {
    var sel := SortBy(chosen, NumKey);
    SortBySorted(chosen, NumKey);
    forall j, k | 0 <= j < k < |sel| ensures sel[j] <= sel[k] {
      assert !LexLess(NumKey(sel[k]), NumKey(sel[j]));
    }
    forall k | 0 <= k < |sel| ensures sel[k] < |points| {
      assert sel[k] in multiset(chosen);
    }
    forall x | x in chosen ensures x in sel {
      assert x in multiset(chosen);
    }
  }

  /* ---------------------------------------------------------------- */
  /* Circles                                                           */
  /* ---------------------------------------------------------------- */

  /** `_is_inside`: strictly inside the circle enlarged by the factor
      EPS_MUL on the squared radius. */
  function IsInside(circle: Circle, a: Point): bool
  {
    match circle
    case Undefined => false
    case Circle(c, r2) => Dist2(a, c) < r2 * EPS_MUL
  }

  /** The test is strict: nothing is inside a circle of radius 0, not even
      its centre; for a positive radius the closed disk is inside. */
  lemma IsInsideBounds(c: Point, r2: real, a: Point)
    ensures r2 <= 0.0 ==> !IsInside(Circle(c, r2), a)
    ensures r2 > 0.0 && Dist2(a, c) <= r2 ==> IsInside(Circle(c, r2), a)
  {
    Norm2NonNegative(Sub(a, c));
  }

  /** Inside or on the circle, up to the factor EPS_MUL. */
  predicate Encloses(circle: Circle, a: Point)
  {
    circle.Circle? && Dist2(a, circle.center) <= circle.r2 * EPS_MUL
  }

  lemma InsideEncloses(circle: Circle, a: Point)
    requires IsInside(circle, a)
    ensures Encloses(circle, a)
  {
  }

  /** A point on a circle of non-negative squared radius is enclosed. */
  lemma OnCircleEncloses(c: Point, r2: real, a: Point)
    requires Dist2(a, c) == r2 && r2 >= 0.0
    ensures Encloses(Circle(c, r2), a)
  {
  }

  /** `_smallest_circle_2_points`: centred at the midpoint, squared radius a
      quarter of the squared distance. */
  function TwoPointCircle(a: Point, b: Point): Circle
  {
    Circle(Point((a.x + b.x) / 2.0, (a.y + b.y) / 2.0), Dist2(a, b) / 4.0)
  }

  /** Both points lie on it. */
  lemma TwoPointCircleThrough(a: Point, b: Point)
    ensures TwoPointCircle(a, b).Circle? && TwoPointCircle(a, b).r2 >= 0.0
    ensures Dist2(a, TwoPointCircle(a, b).center) == TwoPointCircle(a, b).r2
    ensures Dist2(b, TwoPointCircle(a, b).center) == TwoPointCircle(a, b).r2
  {
    Norm2NonNegative(Sub(a, b));
    var m := TwoPointCircle(a, b).center;
    assert Sq(a.x - m.x) == Sq(a.x - b.x) / 4.0 && Sq(a.y - m.y) == Sq(a.y - b.y) / 4.0;
    assert Sq(b.x - m.x) == Sq(a.x - b.x) / 4.0 && Sq(b.y - m.y) == Sq(a.y - b.y) / 4.0;
  }

  /** No circle holding both points is smaller than the two-point circle. */
  lemma TwoPointCircleMinimal(a: Point, b: Point, c: Point, r2: real)
    requires Dist2(a, c) <= r2 && Dist2(b, c) <= r2
    ensures TwoPointCircle(a, b).r2 <= r2
  {
    Parallelogram(a.x - c.x, b.x - c.x);
    Parallelogram(a.y - c.y, b.y - c.y);
    SquareNonNegative(a.x + b.x - 2.0 * c.x);
    SquareNonNegative(a.y + b.y - 2.0 * c.y);
    assert a.x - b.x == (a.x - c.x) - (b.x - c.x) && a.y - b.y == (a.y - c.y) - (b.y - c.y);
  }

  lemma Parallelogram(u: real, v: real)
    ensures Sq(u - v) + Sq(u + v) == 2.0 * Sq(u) + 2.0 * Sq(v)
  {
  }

  /** The determinant of the 3 x 3 matrix given by rows. */
  function Det3(a1: real, a2: real, a3: real, b1: real, b2: real, b3: real,
                c1: real, c2: real, c3: real): real
  {
    a1 * (b2 * c3 - b3 * c2) - a2 * (b1 * c3 - b3 * c1) + a3 * (b1 * c2 - b2 * c1)
  }

  /** `_circumcircle_triangle`: the circle through three points, from the
      determinants of the rows (x, y, 1), (x, y, |p|^2), (|p|^2, y, 1) and
      (x, |p|^2, 1); undefined when the points are collinear (a == 0),
      where numpy divides by zero. */
  function Circumcircle(p: Point, q: Point, s: Point): Circle
  {
    var np, nq, ns := Norm2(p), Norm2(q), Norm2(s);
    var a := Det3(p.x, p.y, 1.0, q.x, q.y, 1.0, s.x, s.y, 1.0);
    var b := Det3(p.x, p.y, np, q.x, q.y, nq, s.x, s.y, ns);
    if a == 0.0 then Undefined
    else
      var cx := Det3(np, p.y, 1.0, nq, q.y, 1.0, ns, s.y, 1.0) / (2.0 * a);
      var cy := Det3(p.x, np, 1.0, q.x, nq, 1.0, s.x, ns, 1.0) / (2.0 * a);
      Circle(Point(cx, cy), b / a + Sq(cx) + Sq(cy))
  }

  /** Laplace expansion of a 4 x 4 determinant with a repeated row: the
      polynomial identity behind the circumcentre. */
  lemma CircumIdentity(xa: real, ya: real, na: real, xb: real, yb: real, nb: real,
                       xc: real, yc: real, nc: real, xp: real, yp: real, np: real)
    requires (xp, yp, np) == (xa, ya, na) || (xp, yp, np) == (xb, yb, nb) || (xp, yp, np) == (xc, yc, nc)
    ensures Mul(Det3(xa, ya, 1.0, xb, yb, 1.0, xc, yc, 1.0), np)
          - Mul(xp, Det3(na, ya, 1.0, nb, yb, 1.0, nc, yc, 1.0))
          - Mul(yp, Det3(xa, na, 1.0, xb, nb, 1.0, xc, nc, 1.0))
          - Det3(xa, ya, na, xb, yb, nb, xc, yc, nc) == 0.0
  {
  }

  /** A point whose row satisfies the identity is at squared distance r2
      from the centre. */
  lemma OnCircumcircle(x: real, y: real, n: real, a: real, b: real, dx: real, dy: real,
                       cx: real, cy: real, r2: real)
    requires a != 0.0 && n == Sq(x) + Sq(y)
    requires Mul(a, n) - Mul(x, dx) - Mul(y, dy) - b == 0.0
    requires cx == dx / (2.0 * a) && cy == dy / (2.0 * a) && r2 == b / a + Sq(cx) + Sq(cy)
    ensures Sq(x - cx) + Sq(y - cy) == r2
  {
    assert dx == 2.0 * a * cx;
    assert dy == 2.0 * a * cy;
    var ba := b / a;
    assert b == ba * a;
    assert (n - 2.0 * x * cx - 2.0 * y * cy) * a == b;
  }

  /** The circumcircle is undefined exactly for collinear points (zero
      determinant); otherwise all three points lie on it. */
  lemma CircumcircleThrough(p: Point, q: Point, s: Point)
    ensures Circumcircle(p, q, s).Circle? <==> Det3(p.x, p.y, 1.0, q.x, q.y, 1.0, s.x, s.y, 1.0) != 0.0
    ensures Circumcircle(p, q, s).Circle? ==>
      var c := Circumcircle(p, q, s);
      Dist2(p, c.center) == c.r2 && Dist2(q, c.center) == c.r2 && Dist2(s, c.center) == c.r2 &&
      c.r2 >= 0.0
  {
    if Circumcircle(p, q, s).Circle? {
      CircumcircleAt(p, q, s, p);
      CircumcircleAt(p, q, s, q);
      CircumcircleAt(p, q, s, s);
      Norm2NonNegative(Sub(p, Circumcircle(p, q, s).center));
    }
  }

  lemma CircumcircleAt(p: Point, q: Point, s: Point, t: Point)
    requires t == p || t == q || t == s
    requires Circumcircle(p, q, s).Circle?
    ensures Dist2(t, Circumcircle(p, q, s).center) == Circumcircle(p, q, s).r2
  {
    var np, nq, ns, nt := Norm2(p), Norm2(q), Norm2(s), Norm2(t);
    var a := Det3(p.x, p.y, 1.0, q.x, q.y, 1.0, s.x, s.y, 1.0);
    var b := Det3(p.x, p.y, np, q.x, q.y, nq, s.x, s.y, ns);
    var dx := Det3(np, p.y, 1.0, nq, q.y, 1.0, ns, s.y, 1.0);
    var dy := Det3(p.x, np, 1.0, q.x, nq, 1.0, s.x, ns, 1.0);
    var c := Circumcircle(p, q, s);
    var cx, cy := dx / (2.0 * a), dy / (2.0 * a);
    assert c.center == Point(cx, cy) && c.r2 == b / a + Sq(cx) + Sq(cy);
    CircumIdentity(p.x, p.y, np, q.x, q.y, nq, s.x, s.y, ns, t.x, t.y, nt);
    OnCircumcircle(t.x, t.y, nt, a, b, dx, dy, cx, cy, c.r2);
  }

  /** The first triple (P, Q, R) whose two-point circle on P, Q holds R;
      the circumcircle when none does. */
  function FirstDiameterCircle(ts: seq<(Point, Point, Point)>, p: Point, q: Point, s: Point): Circle
  {
    if |ts| == 0 then Circumcircle(p, q, s)
    else
      var circle := TwoPointCircle(ts[0].0, ts[0].1);
      if IsInside(circle, ts[0].2) then circle else FirstDiameterCircle(ts[1..], p, q, s)
  }

  /** `_smallest_circle_3_points`: tries the diameter circles on (A, B),
      (B, C), (C, A) in that order. */
  function SmallestCircle3Points(p: Point, q: Point, s: Point): (r: Circle)
    ensures r == if IsInside(TwoPointCircle(p, q), s) then TwoPointCircle(p, q)
                 else if IsInside(TwoPointCircle(q, s), p) then TwoPointCircle(q, s)
                 else if IsInside(TwoPointCircle(s, p), q) then TwoPointCircle(s, p)
                 else Circumcircle(p, q, s)
  {
    ThreeTriples(p, q, s);
    FirstDiameterOfThree(p, q, s);
    FirstDiameterCircle(CircularTriplewise([p, q, s], 0), p, q, s)
  }

  lemma FirstDiameterOfThree(p: Point, q: Point, s: Point)
    ensures FirstDiameterCircle([(p, q, s), (q, s, p), (s, p, q)], p, q, s)
         == if IsInside(TwoPointCircle(p, q), s) then TwoPointCircle(p, q)
            else if IsInside(TwoPointCircle(q, s), p) then TwoPointCircle(q, s)
            else if IsInside(TwoPointCircle(s, p), q) then TwoPointCircle(s, p)
            else Circumcircle(p, q, s)
  {
    var ts := [(p, q, s), (q, s, p), (s, p, q)];
    assert ts[1..] == [(q, s, p), (s, p, q)];
    assert ts[1..][1..] == [(s, p, q)];
    assert ts[1..][1..][1..] == [];
    assert FirstDiameterCircle(ts[1..][1..], p, q, s)
        == if IsInside(TwoPointCircle(s, p), q) then TwoPointCircle(s, p) else Circumcircle(p, q, s);
  }

  /** The circular triples of (A, B, C) from 0. */
  lemma ThreeTriples(p: Point, q: Point, s: Point)
    ensures CircularTriplewise([p, q, s], 0) == [(p, q, s), (q, s, p), (s, p, q)]
  {
    var c := [p, q, s];
    TriplewiseAt(c, 0, 0);
    TriplewiseAt(c, 0, 1);
    TriplewiseAt(c, 0, 2);
    ModSmall(1, 3);
    ModSmall(2, 3);
    ModChar(3, 3, 1, 0);
    ModChar(4, 3, 1, 1);
  }

  /** The three-point circle, when defined, encloses all three points. */
  lemma SmallestCircle3PointsEncloses(p: Point, q: Point, s: Point)
    ensures var c := SmallestCircle3Points(p, q, s);
      c.Circle? ==> Encloses(c, p) && Encloses(c, q) && Encloses(c, s)
  {
    TwoPointCircleThrough(p, q);
    TwoPointCircleThrough(q, s);
    TwoPointCircleThrough(s, p);
    CircumcircleThrough(p, q, s);
  }

  /** `trivial_circle`: the circle fixed by at most three boundary points;
      ValueError beyond three. */
  function TrivialCircle(boundary: seq<Point>): (r: Result<Circle>)
    ensures r.Ok? <==> |boundary| <= 3
    ensures r.Err? ==> r.error == ValueError
    ensures |boundary| == 0 ==> r == Ok(Circle(Point(0.0, 0.0), 0.0))
    ensures |boundary| == 1 ==> r == Ok(Circle(boundary[0], 0.0))
  {
    match |boundary|
    case 0 => Ok(Circle(Point(0.0, 0.0), 0.0))
    case 1 => Ok(Circle(boundary[0], 0.0))
    case 2 => Ok(TwoPointCircle(boundary[0], boundary[1]))
    case 3 => Ok(SmallestCircle3Points(boundary[0], boundary[1], boundary[2]))
    case _ => Err(ValueError)
  }

  /** A defined trivial circle encloses each of its boundary points. */
  lemma TrivialCircleEncloses(boundary: seq<Point>)
    requires |boundary| <= 3
    ensures var c := TrivialCircle(boundary).value;
      c.Circle? ==> forall j :: 0 <= j < |boundary| ==> Encloses(c, boundary[j])
  {
    var c := TrivialCircle(boundary).value;
    if |boundary| == 1 {
      PointCircleEncloses(boundary[0]);
    } else if |boundary| == 2 {
      TwoPointCircleEncloses(boundary[0], boundary[1]);
    } else if |boundary| == 3 {
      SmallestCircle3PointsEncloses(boundary[0], boundary[1], boundary[2]);
    }
  }

  /** The zero circle on a point encloses it. */
  lemma PointCircleEncloses(p: Point)
    ensures Encloses(Circle(p, 0.0), p)
  {
    assert Sub(p, p) == Point(0.0, 0.0);
    assert Dist2(p, p) == Sq(0.0) + Sq(0.0) == 0.0;
    OnCircleEncloses(p, 0.0, p);
  }

  /** The two-point circle encloses both points. */
  lemma TwoPointCircleEncloses(a: Point, b: Point)
    ensures Encloses(TwoPointCircle(a, b), a) && Encloses(TwoPointCircle(a, b), b)
  {
    TwoPointCircleThrough(a, b);
    var c := TwoPointCircle(a, b);
    OnCircleEncloses(c.center, c.r2, a);
    OnCircleEncloses(c.center, c.r2, b);
  }

  /** `welzl(points, boundary, lenght)`. The boundary list the source
      appends to is a fresh copy at each call, so it is a value here. */
  function Welzl(points: seq<Point>, boundary: seq<Point>, lenght: nat): Result<Circle>
    decreases lenght
  {
    if lenght == 0 || |boundary| == 3 then TrivialCircle(boundary)
    else if lenght > |points| then Err(IndexError)
    else
      var p := points[lenght - 1];
      match Welzl(points, boundary, lenght - 1)
      case Err(e) => Err(e)
      case Ok(c) => if IsInside(c, p) then Ok(c) else Welzl(points, boundary + [p], lenght - 1)
  }

  /** With at most three boundary points and a length within the list, the
      recursion never raises: recursive calls see a shorter length and a
      boundary of at most three points. */
  lemma {:induction false} WelzlOk(points: seq<Point>, boundary: seq<Point>, lenght: nat)
    requires |boundary| <= 3 && lenght <= |points|
    ensures Welzl(points, boundary, lenght).Ok?
    decreases lenght
  {
    if lenght > 0 && |boundary| < 3 {
      WelzlOk(points, boundary, lenght - 1);
      WelzlOk(points, boundary + [points[lenght - 1]], lenght - 1);
    }
  }

  /** The circle returned, when defined, encloses every boundary point and
      the last 3 - |boundary| points considered: a point the recursion
      finds outside becomes a boundary point of the circle that replaces
      the old one. */
  lemma {:induction false} WelzlEncloses(points: seq<Point>, boundary: seq<Point>, lenght: nat)
    requires |boundary| <= 3 && lenght <= |points|
    ensures Welzl(points, boundary, lenght).Ok?
    ensures var c := Welzl(points, boundary, lenght).value;
      c.Circle? ==>
        (forall j :: 0 <= j < |boundary| ==> Encloses(c, boundary[j])) &&
        EnclosesLast(c, points, lenght, 3 - |boundary|)
    decreases lenght
  {
    WelzlOk(points, boundary, lenght);
    if lenght == 0 || |boundary| == 3 {
      TrivialCircleEncloses(boundary);
    } else {
      var p := points[lenght - 1];
      WelzlEncloses(points, boundary, lenght - 1);
      var c := Welzl(points, boundary, lenght - 1).value;
      if IsInside(c, p) {
        InsideEncloses(c, p);
        FewerEncloses(points, c, lenght - 1, 3 - |boundary|);
        KeptEncloses(points, c, lenght, 3 - |boundary|);
      } else {
        var b := boundary + [p];
        WelzlEncloses(points, b, lenght - 1);
        assert forall j :: 0 <= j < |boundary| ==> b[j] == boundary[j];
        assert b[|boundary|] == p;
        var e := Welzl(points, b, lenght - 1).value;
        if e.Circle? {
          KeptEncloses(points, e, lenght, 3 - |boundary|);
        }
      }
    }
  }

  /** The circle encloses the last m of points[..lenght]. */
  ghost predicate EnclosesLast(c: Circle, points: seq<Point>, lenght: nat, m: nat)
    requires lenght <= |points|
  {
    forall k :: 0 <= k < lenght && lenght <= k + m ==> Encloses(c, points[k])
  }

  /** Enclosing points[lenght - 1] and the last m - 1 of points[..lenght - 1]
      is enclosing the last m of points[..lenght]. */
  lemma KeptEncloses(points: seq<Point>, c: Circle, lenght: nat, m: nat)
    requires 0 < lenght <= |points| && 0 < m && Encloses(c, points[lenght - 1])
    requires EnclosesLast(c, points, lenght - 1, m - 1)
    ensures EnclosesLast(c, points, lenght, m)
  {
  }

  /** Enclosing the last m is enclosing the last m - 1. */
  lemma FewerEncloses(points: seq<Point>, c: Circle, lenght: nat, m: nat)
    requires lenght <= |points| && 0 < m && EnclosesLast(c, points, lenght, m)
    ensures EnclosesLast(c, points, lenght, m - 1)
  {
  }

  /** The shuffle parameter: `numpy.random.shuffle`, any permutation. */
  ghost predicate IsShuffle(shuffle: seq<Point> -> seq<Point>)
  {
    forall s: seq<Point> :: multiset(shuffle(s)) == multiset(s)
  }

  /** `smallest_circle` as written: for a single point `convex_hull` returns
      the index array `arange(1)`, and `_is_inside` then indexes the scalar
      0, which raises IndexError; no point gives the zero circle. */
  method SmallestCircleAsWritten(points: seq<Point>, shuffle: seq<Point> -> seq<Point>)
    returns (r: Result<Circle>)
    requires IsShuffle(shuffle)
    ensures r.Err? <==> |points| == 1
    ensures r.Err? ==> r.error == IndexError
    ensures |points| == 0 ==> r == Ok(Circle(Point(0.0, 0.0), 0.0))
    ensures |points| == 3 ==> r == Ok(SmallestCircle3Points(points[0], points[1], points[2]))
  {
    if |points| == 3 {
      return Ok(SmallestCircle3Points(points[0], points[1], points[2]));
    }
    var hull := ConvexHull(points);
    match hull
    case IndexRange(n) =>
      if n == 0 {
        return TrivialCircle([]);
      }
      return Err(IndexError);
    case Rows(rows) =>
      var pts := shuffle(rows);
      assert |pts| == |multiset(pts)| == |multiset(rows)| == |rows|;
      WelzlOk(pts, [], |pts|);
      return Welzl(pts, [], |pts|);
  }

  /** What `smallest_circle` runs Welzl's recursion over: the hull rows. */
  datatype CircleRun = CircleRun(hull: seq<Point>)

  /** What `smallest_circle` computes: the three-point circle for three
      points; otherwise Welzl's recursion, with an empty boundary, over the
      shuffled hull rows `HullRows` fixes. */
  ghost predicate CircleOf(points: seq<Point>, shuffle: seq<Point> -> seq<Point>, r: Circle, run: CircleRun)
  {
    (|points| == 3 ==> r == SmallestCircle3Points(points[0], points[1], points[2])) &&
    (|points| != 3 ==> run.hull == HullRows(points) && Welzl(shuffle(run.hull), [], |run.hull|) == Ok(r))
  }

  /** `smallest_circle` with the single-point case returning that point as
      a circle of radius 0: the hull of at most one point is the point set
      itself. It never raises. */
  method SmallestCircle(points: seq<Point>, shuffle: seq<Point> -> seq<Point>)
    returns (r: Circle, ghost run: CircleRun)
    requires IsShuffle(shuffle)
    ensures CircleOf(points, shuffle, r, run)
    ensures multiset(shuffle(run.hull)) == multiset(run.hull)
    ensures |points| == 0 ==> r == Circle(Point(0.0, 0.0), 0.0)
    ensures |points| == 1 ==> r == Circle(points[0], 0.0)
  {
    if |points| == 3 {
      return SmallestCircle3Points(points[0], points[1], points[2]), CircleRun([]);
    }
    var h := ConvexHull(points);
    var rows := if h.IndexRange? then points else h.rows;
    run := CircleRun(rows);
    var pts := shuffle(rows);
    assert multiset(pts) == multiset(rows);
    CircleOfRows(points, rows, pts);
    r := Welzl(pts, [], |rows|).value;
  }

  /** The circle is determined by the points and the shuffle: any two runs
      of `smallest_circle` on the same input run over the same hull rows and
      return the same circle. */
  lemma CircleOfUnique(points: seq<Point>, shuffle: seq<Point> -> seq<Point>,
                       r1: Circle, run1: CircleRun, r2: Circle, run2: CircleRun)
    requires CircleOf(points, shuffle, r1, run1) && CircleOf(points, shuffle, r2, run2)
    ensures r1 == r2
    ensures |points| != 3 ==> run1.hull == run2.hull
  {
  }

  /** The points (0, 0), (2, 0), (1, 5), (1, -5); their lexicographic
      order is 0, 3, 2, 1. */
  function ExamplePoints(): seq<Point>
  {
    [Point(0.0, 0.0), Point(2.0, 0.0), Point(1.0, 5.0), Point(1.0, -5.0)]
  }

  /** The stack for `ExamplePoints` in their lexicographic order: index 2 is
      pushed, then popped when 1 makes a right turn, so the lower chain is
      0, 3, 1. */
  lemma LowerStackExample()
    ensures LowerStack(ExamplePoints(), [0, 3, 2, 1]) == [0, 3, 1]
  {
    ExampleTurns();
    ExampleStack(ExamplePoints());
  }

  /** The stack over 0, 3, 2, 1 when 0, 3, 2 turns left, 3, 2, 1 does not
      and 0, 3, 1 does. */
  lemma ExampleStack(pts: seq<Point>)
    requires |pts| == 4 && CrossProduct(pts[0], pts[3], pts[2]) > EPS_ADD
    requires CrossProduct(pts[3], pts[2], pts[1]) <= EPS_ADD && CrossProduct(pts[0], pts[3], pts[1]) > EPS_ADD
    ensures LowerStack(pts, [0, 3, 2, 1]) == [0, 3, 1]
  {
    PushThree(pts);
    PopOne(pts);
    assert [0, 3, 2, 1][..3] == [0, 3, 2];
  }

  /** The turns the example meets: 0, 3, 2 turns left, 3, 2, 1 right and
      0, 3, 1 left. */
  lemma ExampleTurns()
    ensures |ExamplePoints()| == 4
    ensures CrossProduct(ExamplePoints()[0], ExamplePoints()[3], ExamplePoints()[2]) == 10.0
    ensures CrossProduct(ExamplePoints()[3], ExamplePoints()[2], ExamplePoints()[1]) == -10.0
    ensures CrossProduct(ExamplePoints()[0], ExamplePoints()[3], ExamplePoints()[1]) == 10.0
  {
  }

  /** Three pushes without a pop when 0, 3, 2 turns left. */
  lemma PushThree(pts: seq<Point>)
    requires |pts| == 4 && CrossProduct(pts[0], pts[3], pts[2]) > EPS_ADD
    ensures LowerStack(pts, [0, 3, 2]) == [0, 3, 2]
  {
    assert [0, 3, 2][..2] == [0, 3] && [0, 3][..1] == [0] && [0][..0] == [];
    assert LowerStack(pts, [0]) == [0];
    assert LowerStack(pts, [0, 3]) == [0, 3];
  }

  /** One pop when 3, 2, 1 does not turn left and 0, 3, 1 does. */
  lemma PopOne(pts: seq<Point>)
    requires |pts| == 4
    requires CrossProduct(pts[3], pts[2], pts[1]) <= EPS_ADD && CrossProduct(pts[0], pts[3], pts[1]) > EPS_ADD
    ensures PopNonLeft(pts, [0, 3, 2], 1) == [0, 3]
  {
    assert [0, 3, 2][..2] == [0, 3];
    assert PopNonLeft(pts, [0, 3], 1) == [0, 3];
  }

  /** The circle of a run encloses, when defined: every point, for at most
      three points; otherwise the last three shuffled hull rows Welzl's
      recursion considers, and every hull row when the hull has at most
      three. Two or more points give a hull of at least two rows. */
  lemma CircleOfEncloses(points: seq<Point>, shuffle: seq<Point> -> seq<Point>, r: Circle, run: CircleRun)
    requires CircleOf(points, shuffle, r, run)
    requires multiset(shuffle(run.hull)) == multiset(run.hull)
    ensures |points| >= 2 && |points| != 3 ==> |run.hull| >= 2
    ensures r.Circle? && |points| <= 3 ==> forall k :: 0 <= k < |points| ==> Encloses(r, points[k])
    ensures r.Circle? && |points| != 3 ==>
      forall k :: 0 <= k < |run.hull| && |run.hull| <= k + 3 ==> Encloses(r, shuffle(run.hull)[k])
    ensures r.Circle? && |points| != 3 && |run.hull| <= 3 ==>
      forall k :: 0 <= k < |run.hull| ==> Encloses(r, run.hull[k])
  {
    if |points| == 3 {
      SmallestCircle3PointsEncloses(points[0], points[1], points[2]);
      return;
    }
    if |points| >= 2 {
      HullRowsAt(points);
    }
    WelzlRunEncloses(run.hull, shuffle(run.hull), r);
    if r.Circle? && |points| == 2 {
      TwoPointHull(points);
      HullMembersEnclosed(points, run.hull, r);
    }
  }

  /** Welzl's circle over a shuffle of the rows encloses its last three
      rows, and every row when there are at most three. */
  lemma WelzlRunEncloses(rows: seq<Point>, pts: seq<Point>, r: Circle)
    requires multiset(pts) == multiset(rows) && Welzl(pts, [], |rows|) == Ok(r)
    ensures r.Circle? ==> forall k :: 0 <= k < |rows| && |rows| <= k + 3 ==> Encloses(r, pts[k])
    ensures r.Circle? && |rows| <= 3 ==> forall k :: 0 <= k < |rows| ==> Encloses(r, rows[k])
  {
    ShuffledRows(rows, pts);
    WelzlEncloses(pts, [], |pts|);
    if r.Circle? && |rows| <= 3 {
      forall k | 0 <= k < |rows| ensures Encloses(r, rows[k]) {
        assert rows[k] in multiset(pts);
        var m :| 0 <= m < |pts| && pts[m] == rows[k];
      }
    }
  }

  /** Points that are rows, all of them enclosed, are enclosed. */
  lemma HullMembersEnclosed(points: seq<Point>, rows: seq<Point>, r: Circle)
    requires forall k :: 0 <= k < |points| ==> points[k] in rows
    requires forall k :: 0 <= k < |rows| ==> Encloses(r, rows[k])
    ensures forall k :: 0 <= k < |points| ==> Encloses(r, points[k])
  {
    forall k | 0 <= k < |points| ensures Encloses(r, points[k]) {
      var m :| 0 <= m < |rows| && rows[m] == points[k];
    }
  }

  /** Two points: the hull rows are both points, so at most three rows. */
  lemma TwoPointHull(points: seq<Point>)
    requires |points| == 2
    ensures |HullRows(points)| <= 3 && forall k :: 0 <= k < 2 ==> points[k] in HullRows(points)
  {
    var ch := HullChainsSpec(points);
    HullSelectionSpec(points);
    var idx := LexOrder(points);
    PicksLength(idx, ch.lower, ch.lowerPos, 2);
    PicksLength(Reverse(idx), ch.upper, ch.upperPos, 2);
    TwoPointSelection(idx, ch.lower, ch.upper, HullSelection(points));
    HullRowsAt(points);
    SelectionCovers(points, HullRows(points), HullSelection(points), idx);
  }

  /** With two points each stack is the two indices, so the selection is
      both of them. */
  lemma TwoPointSelection(idx: seq<nat>, lower: seq<nat>, upper: seq<nat>, sel: seq<nat>)
    requires |idx| == 2 && |lower| == 2 && |upper| == 2
    requires lower[0] == idx[0] && upper[0] == Reverse(idx)[0]
    requires multiset(sel) == multiset(DropLast(lower) + DropLast(upper))
    ensures multiset(sel) == multiset{idx[0], idx[1]}
  {
    assert DropLast(lower) + DropLast(upper) == [idx[0], idx[1]];
  }

  /** A selection holding both indices 0 and 1 reads both points. */
  lemma SelectionCovers(points: seq<Point>, hull: seq<Point>, sel: seq<nat>, idx: seq<nat>)
    requires |points| == 2 && |idx| == 2 && 0 in idx && 1 in idx
    requires multiset(sel) == multiset{idx[0], idx[1]}
    requires InRange(points, sel) && |hull| == |sel|
    requires forall k :: 0 <= k < |sel| ==> hull[k] == points[sel[k]]
    ensures |hull| <= 3 && forall k :: 0 <= k < 2 ==> points[k] in hull
  {
    assert |sel| == |multiset(sel)| == 2;
    forall j | 0 <= j < 2 ensures points[j] in hull {
      assert j == idx[0] || j == idx[1];
      assert j in multiset(sel);
      var t :| 0 <= t < |sel| && sel[t] == j;
      assert hull[t] == points[j];
    }
  }

  /** Strictly increasing positions below k: at most k of them. */
  lemma PicksLength(order: seq<nat>, lower: seq<nat>, pos: seq<nat>, k: nat)
    requires Picks(order, lower, pos, k)
    ensures |lower| <= k
  {
    if |pos| > 0 {
      PositionsGrow(pos, |pos| - 1);
    }
  }

  lemma {:induction false} PositionsGrow(pos: seq<nat>, j: nat)
    requires j < |pos| && forall i :: 0 <= i < |pos| - 1 ==> pos[i] < pos[i + 1]
    ensures pos[j] >= j
  {
    if j > 0 {
      PositionsGrow(pos, j - 1);
    }
  }

  /** Welzl's recursion on the shuffled hull rows never raises, and at most
      one point gives the trivial circle of that point set. */
  lemma CircleOfRows(points: seq<Point>, rows: seq<Point>, pts: seq<Point>)
    requires multiset(pts) == multiset(rows)
    requires |points| <= 1 ==> rows == points
    ensures Welzl(pts, [], |rows|).Ok?
    ensures var r := Welzl(pts, [], |rows|).value;
      (|points| == 0 ==> r == Circle(Point(0.0, 0.0), 0.0)) &&
      (|points| == 1 ==> r == Circle(points[0], 0.0))
  {
    ShuffledRows(rows, pts);
    WelzlOk(pts, [], |pts|);
    if |points| == 1 {
      assert pts == [points[0]];
      WelzlSingle(points[0]);
    }
  }

  /** A permutation keeps the length, and of a single point it is the
      point itself. */
  lemma ShuffledRows(rows: seq<Point>, pts: seq<Point>)
    requires multiset(pts) == multiset(rows)
    ensures |pts| == |rows| && (|rows| == 1 ==> pts == rows)
  {
    assert |pts| == |multiset(pts)| == |multiset(rows)| == |rows|;
    if |rows| == 1 {
      assert pts[0] in multiset(rows);
    }
  }

  /** A single point: the zero circle around the origin does not hold it
      (the test is strict), so the point itself becomes the boundary. */
  lemma WelzlSingle(p: Point)
    ensures Welzl([p], [], 1) == Ok(Circle(p, 0.0))
  {
    IsInsideBounds(Point(0.0, 0.0), 0.0, p);
    assert Welzl([p], [], 0) == Ok(Circle(Point(0.0, 0.0), 0.0));
    assert [] + [p] == [p];
  }

  /* ---------------------------------------------------------------- */
  /* Rectangle                                                         */
  /* ---------------------------------------------------------------- */

  function Coord(p: Point, axis: bool): real
  {
    if axis then p.y else p.x
  }

  /** `points[:, axis].min()`. */
  function MinCoord(ps: seq<Point>, axis: bool): (m: real)
    requires |ps| > 0
    ensures forall k :: 0 <= k < |ps| ==> m <= Coord(ps[k], axis)
    ensures exists k :: 0 <= k < |ps| && m == Coord(ps[k], axis)
  {
    if |ps| == 1 then Coord(ps[0], axis)
    else
      var m := MinCoord(ps[1..], axis);
      assert forall k :: 1 <= k < |ps| ==> ps[k] == ps[1..][k - 1];
      if Coord(ps[0], axis) <= m then Coord(ps[0], axis) else m
  }

  /** `points[:, axis].max()`. */
  function MaxCoord(ps: seq<Point>, axis: bool): (m: real)
    requires |ps| > 0
    ensures forall k :: 0 <= k < |ps| ==> Coord(ps[k], axis) <= m
    ensures exists k :: 0 <= k < |ps| && m == Coord(ps[k], axis)
  {
    if |ps| == 1 then Coord(ps[0], axis)
    else
      var m := MaxCoord(ps[1..], axis);
      assert forall k :: 1 <= k < |ps| ==> ps[k] == ps[1..][k - 1];
      if Coord(ps[0], axis) >= m then Coord(ps[0], axis) else m
  }

  /** `smallest_rectangle`: the bounding box as (centre, half lengths);
      ValueError for no points (the minimum of an empty array). The half
      lengths are non-negative, every point lies in the box, and each side
      touches a point. */
  function SmallestRectangle(points: seq<Point>): (r: Result<(Point, Point)>)
    ensures r.Ok? <==> |points| > 0
    ensures r.Err? ==> r.error == ValueError
    ensures r.Ok? ==> (var (c, l) := r.value;
      l.x >= 0.0 && l.y >= 0.0 &&
      (forall k :: 0 <= k < |points| ==>
         c.x - l.x <= points[k].x <= c.x + l.x && c.y - l.y <= points[k].y <= c.y + l.y) &&
      (exists k :: 0 <= k < |points| && points[k].x == c.x + l.x) &&
      (exists k :: 0 <= k < |points| && points[k].x == c.x - l.x) &&
      (exists k :: 0 <= k < |points| && points[k].y == c.y + l.y) &&
      (exists k :: 0 <= k < |points| && points[k].y == c.y - l.y))
  {
    if |points| == 0 then Err(ValueError)
    else
      var xmin, xmax := MinCoord(points, false), MaxCoord(points, false);
      var ymin, ymax := MinCoord(points, true), MaxCoord(points, true);
      var center := Point((xmin + xmax) / 2.0, (ymin + ymax) / 2.0);
      Ok((center, Sub(Point(xmax, ymax), center)))
  }
}
