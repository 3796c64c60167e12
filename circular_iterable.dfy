/** Circular iteration over a collection: the pairs and triples of cyclically
    consecutive elements, read from a start position for one full turn. */
module CircularIterable {
  import opened Arith

  /** One full turn of `cycle(c)` sliced from `start`: the same as
      `islice(cycle(c), start, start + len(c))`. */
  function Rotate<T>(c: seq<T>, start: nat): (r: seq<T>)
  {
    if |c| == 0 then [] else c[start % |c|..] + c[..start % |c|]
  }

  /** Position k of the rotation holds the element at index (start + k) mod n. */
  lemma RotateAt<T>(c: seq<T>, start: nat, k: nat)
    requires k < |c|
    ensures |Rotate(c, start)| == |c|
    ensures Rotate(c, start)[k] == c[(start + k) % |c|]
  {
    var n, s := |c|, start % |c|;
    ModOfSum(start, k, n);
    if s + k < n {
      ModSmall(s + k, n);
    } else {
      ModWrap(s + k, n);
    }
  }

  /** Python's `zip`: stops at the end of the shorter argument. */
  function Zip<A, B>(a: seq<A>, b: seq<B>): (r: seq<(A, B)>)
    ensures |r| == if |a| < |b| then |a| else |b|
    ensures forall k :: 0 <= k < |r| ==> r[k] == (a[k], b[k])
  {
    if |a| == 0 || |b| == 0 then [] else [(a[0], b[0])] + Zip(a[1..], b[1..])
  }

  function Zip3<A, B, C>(a: seq<A>, b: seq<B>, c: seq<C>): (r: seq<(A, B, C)>)
    ensures |r| == if |a| < |b| && |a| < |c| then |a| else if |b| < |c| then |b| else |c|
    ensures forall k :: 0 <= k < |r| ==> r[k] == (a[k], b[k], c[k])
  {
    if |a| == 0 || |b| == 0 || |c| == 0 then []
    else [(a[0], b[0], c[0])] + Zip3(a[1..], b[1..], c[1..])
  }

  /** `circular_pairwise(c, start)`. The second iterator is unbounded in the
      source; one turn of it is all `zip` ever reads. */
  function CircularPairwise<T>(c: seq<T>, start: nat): seq<(T, T)>
  {
    Zip(Rotate(c, start), Rotate(c, start + 1))
  }

  /** `circular_triplewise(c, start)`. */
  function CircularTriplewise<T>(c: seq<T>, start: nat): seq<(T, T, T)>
  {
    Zip3(Rotate(c, start), Rotate(c, start + 1), Rotate(c, start + 2))
  }

  /** There are exactly len(c) pairs, none for an empty collection, and pair k
      is (c[(start+k) mod n], c[(start+k+1) mod n]). */
  lemma PairwiseAt<T>(c: seq<T>, start: nat, k: nat)
    requires k < |c|
    ensures |CircularPairwise(c, start)| == |c|
    ensures CircularPairwise(c, start)[k] == (c[(start + k) % |c|], c[(start + k + 1) % |c|])
  {
    var a, b := Rotate(c, start), Rotate(c, start + 1);
    RotateAt(c, start, k);
    RotateAt(c, start + 1, k);
    assert a[k] == c[(start + k) % |c|] && b[k] == c[(start + k + 1) % |c|];
    assert Zip(a, b)[k] == (a[k], b[k]);
  }

  /** From position 0, pair k is (c[k], c[(k+1) mod n]). */
  lemma PairwiseFromZero<T>(c: seq<T>, k: nat)
    requires k < |c|
    ensures |CircularPairwise(c, 0)| == |c|
    ensures CircularPairwise(c, 0)[k] == (c[k], c[(k + 1) % |c|])
  {
    var a, b := Rotate(c, 0), Rotate(c, 1);
    assert a == c;
    RotateAt(c, 1, k);
    assert Zip(a, b)[k] == (a[k], b[k]);
  }

  lemma PairwiseEmpty<T>(c: seq<T>, start: nat)
    requires |c| == 0
    ensures CircularPairwise(c, start) == []
  {
  }

  /** The last pair wraps around: it ends with the element the first pair
      starts with, the one at `start`. */
  lemma PairwiseWraps<T>(c: seq<T>, start: nat)
    requires 0 < |c|
    ensures |CircularPairwise(c, start)| == |c|
    ensures CircularPairwise(c, start)[|c| - 1].1 == CircularPairwise(c, start)[0].0 == c[start % |c|]
  {
    var n := |c|;
    PairwiseAt(c, start, n - 1);
    PairwiseAt(c, start, 0);
    ModTurn(start, n);
  }

  lemma TriplewiseAt<T>(c: seq<T>, start: nat, k: nat)
    requires k < |c|
    ensures |CircularTriplewise(c, start)| == |c|
    ensures CircularTriplewise(c, start)[k]
         == (c[(start + k) % |c|], c[(start + k + 1) % |c|], c[(start + k + 2) % |c|])
  {
    var a, b, d := Rotate(c, start), Rotate(c, start + 1), Rotate(c, start + 2);
    RotateAt(c, start, k);
    RotateAt(c, start + 1, k);
    RotateAt(c, start + 2, k);
    assert a[k] == c[(start + k) % |c|] && b[k] == c[(start + k + 1) % |c|];
    assert d[k] == c[(start + k + 2) % |c|];
    assert Zip3(a, b, d)[k] == (a[k], b[k], d[k]);
  }

  /** With start = n - 1 (how corners are built), the middle of triple k is
      element k, flanked by its cyclic predecessor and successor. */
  lemma TriplewiseFromLast<T>(c: seq<T>, k: nat)
    requires k < |c|
    ensures |CircularTriplewise(c, |c| - 1)| == |c|
    ensures CircularTriplewise(c, |c| - 1)[k]
         == (c[(k + |c| - 1) % |c|], c[k], c[(k + 1) % |c|])
  {
    var n := |c|;
    TriplewiseAt(c, n - 1, k);
    ModAddOnce(k, n);
    ModSmall(k, n);
    ModAddOnce(k + 1, n);
  }

  /** The index read at slot k of a turn starting at `start`. */
  function Slot(n: nat, start: nat, k: nat): (m: nat)
    requires 0 < n
    ensures m < n
  {
    (start + k) % n
  }

  /** Every index m is read at exactly one slot k of a turn: so each element
      takes each tuple position exactly once across the output. */
  lemma SlotBijective(n: nat, start: nat, m: nat)
    requires m < n
    ensures exists k: nat :: k < n && Slot(n, start, k) == m
    ensures forall k1: nat, k2: nat :: k1 < n && k2 < n && Slot(n, start, k1) == m && Slot(n, start, k2) == m ==> k1 == k2
  {
    var s := start % n;
    var k: nat := if s <= m then m - s else m + n - s;
    ModOfSum(start, k, n);
    if s <= m {
      ModSmall(m, n);
    } else {
      ModAddOnce(m, n);
      ModSmall(m, n);
    }
    assert Slot(n, start, k) == m;
    forall k1: nat, k2: nat | k1 < n && k2 < n && Slot(n, start, k1) == m && Slot(n, start, k2) == m
      ensures k1 == k2
    {
      SlotInjective(n, start, k1, k2);
    }
  }

  lemma SlotInjective(n: nat, start: nat, k1: nat, k2: nat)
    requires k1 < n && k2 < n
    requires Slot(n, start, k1) == Slot(n, start, k2)
    ensures k1 == k2
  {
    var s := start % n;
    ModOfSum(start, k1, n);
    ModOfSum(start, k2, n);
    if s + k1 < n { ModSmall(s + k1, n); } else { ModWrap(s + k1, n); }
    if s + k2 < n { ModSmall(s + k2, n); } else { ModWrap(s + k2, n); }
  }
}
