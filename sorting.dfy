/** Stable insertion sort of indices by a point-valued key under the
    lexicographic order: the model of `lexsort`, `argsort` and `sort`. */
module Sorting {
  import opened Points

  /** Non-decreasing keys along the sequence. */
  predicate SortedBy(s: seq<nat>, key: nat -> Point)
  {
    forall j, k :: 0 <= j < k < |s| ==> !LexLess(key(s[k]), key(s[j]))
  }

  /** Inserts i after every element whose key is not above key(i). */
  function InsertBy(i: nat, s: seq<nat>, key: nat -> Point): (r: seq<nat>)
    ensures |r| == |s| + 1
    ensures multiset(r) == multiset(s) + multiset{i}
  {
    if |s| == 0 then [i]
    else if LexLess(key(i), key(s[0])) then [i] + s
    else
      assert s == [s[0]] + s[1..];
      [s[0]] + InsertBy(i, s[1..], key)
  }

  lemma LexLessTransitive(a: Point, b: Point, c: Point)
    requires !LexLess(b, a) && !LexLess(c, b)
    ensures !LexLess(c, a)
  {
  }

  lemma LexLessTotal(a: Point, b: Point)
    requires LexLess(a, b)
    ensures !LexLess(b, a)
  {
  }

  lemma {:induction false} InsertSorted(i: nat, s: seq<nat>, key: nat -> Point)
    requires SortedBy(s, key)
    ensures SortedBy(InsertBy(i, s, key), key)
  {
    if |s| > 0 && !LexLess(key(i), key(s[0])) {
      TailSorted(s, key);
      InsertSorted(i, s[1..], key);
      InsertAbove(i, s, key);
      ConsSorted(s[0], InsertBy(i, s[1..], key), key);
    } else if |s| > 0 {
      forall k | 0 <= k < |s| ensures !LexLess(key(s[k]), key(i)) {
        LexLessTotal(key(i), key(s[0]));
        if k > 0 {
          assert !LexLess(key(s[k]), key(s[0]));
          LexLessTransitive(key(i), key(s[0]), key(s[k]));
        }
      }
      ConsSorted(i, s, key);
    }
  }

  /** A sorted sequence stays sorted without its head. */
  lemma TailSorted(s: seq<nat>, key: nat -> Point)
    requires SortedBy(s, key) && |s| > 0
    ensures SortedBy(s[1..], key)
  {
    var t := s[1..];
    forall j, k | 0 <= j < k < |t| ensures !LexLess(key(t[k]), key(t[j])) {
      assert t[j] == s[j + 1] && t[k] == s[k + 1];
    }
  }

  /** Inserting i, not below the head, into the tail keeps everything at
      or above the head. */
  lemma InsertAbove(i: nat, s: seq<nat>, key: nat -> Point)
    requires SortedBy(s, key) && |s| > 0 && !LexLess(key(i), key(s[0]))
    ensures forall k :: 0 <= k < |InsertBy(i, s[1..], key)| ==> !LexLess(key(InsertBy(i, s[1..], key)[k]), key(s[0]))
  {
    var t := s[1..];
    var rest := InsertBy(i, t, key);
    forall k | 0 <= k < |rest| ensures !LexLess(key(rest[k]), key(s[0])) {
      assert rest[k] in multiset(rest);
      assert rest[k] in multiset(t) + multiset{i};
      if rest[k] != i {
        assert rest[k] in t;
        var m :| 0 <= m < |t| && t[m] == rest[k];
        assert s[m + 1] == rest[k];
      }
    }
  }

  /** A sorted sequence with a head not above any of it is sorted. */
  lemma ConsSorted(x: nat, rest: seq<nat>, key: nat -> Point)
    requires SortedBy(rest, key)
    requires forall k :: 0 <= k < |rest| ==> !LexLess(key(rest[k]), key(x))
    ensures SortedBy([x] + rest, key)
  {
    var r := [x] + rest;
    forall j, k | 0 <= j < k < |r| ensures !LexLess(key(r[k]), key(r[j])) {
      assert r[k] == rest[k - 1];
      if j > 0 {
        assert r[j] == rest[j - 1];
      }
    }
  }

  /** Insertion sort: the elements of s by non-decreasing key; elements
      with equal keys keep their order. */
  function SortBy(s: seq<nat>, key: nat -> Point): (r: seq<nat>)
    ensures |r| == |s|
    ensures multiset(r) == multiset(s)
    decreases |s|
  {
    if |s| == 0 then []
    else
      var init := s[..|s| - 1];
      assert s == init + [s[|s| - 1]];
      InsertBy(s[|s| - 1], SortBy(init, key), key)
  }

  /** The sort yields non-decreasing keys. */
  lemma {:induction false} SortBySorted(s: seq<nat>, key: nat -> Point)
    ensures SortedBy(SortBy(s, key), key)
    decreases |s|
  {
    if |s| > 0 {
      SortBySorted(s[..|s| - 1], key);
      InsertSorted(s[|s| - 1], SortBy(s[..|s| - 1], key), key);
    }
  }

  /** The sequence read backwards, as `s[::-1]`. */
  function Reverse<T>(s: seq<T>): (r: seq<T>)
    ensures |r| == |s| && forall k :: 0 <= k < |s| ==> r[k] == s[|s| - 1 - k]
  {
    seq(|s|, k requires 0 <= k < |s| => s[|s| - 1 - k])
  }

  /** 0, 1, ..., n - 1, as `arange(n)`. */
  function Range(n: nat): (r: seq<nat>)
    ensures |r| == n && forall k :: 0 <= k < n ==> r[k] == k
  {
    seq(n, k requires 0 <= k < n => k)
  }

  /** Sorting 0..n-1 gives each index exactly once. */
  lemma SortRangePermutation(n: nat, key: nat -> Point)
    ensures var r := SortBy(Range(n), key);
      |r| == n && (forall k :: 0 <= k < n ==> r[k] < n) &&
      (forall m :: 0 <= m < n ==> m in r) &&
      (forall x, y :: 0 <= x < y < n ==> r[x] != r[y])
  {
    var r := SortBy(Range(n), key);
    forall x, y | 0 <= x < y < n ensures r[x] != r[y] {
      SortRangeDistinct(r, n, x, y);
    }
    forall k | 0 <= k < n ensures r[k] < n {
      assert r[k] in multiset(Range(n));
    }
    forall m | 0 <= m < n ensures m in r {
      assert Range(n)[m] == m;
      assert m in multiset(Range(n));
    }
  }

  /** Two positions of a reordering of 0, 1, ..., n - 1 hold different
      indices. */
  lemma SortRangeDistinct(r: seq<nat>, n: nat, x: nat, y: nat)
    requires multiset(r) == multiset(Range(n)) && x < y < |r|
    ensures r[x] != r[y]
  {
    if r[x] == r[y] {
      var v := r[x];
      assert r == r[..y] + r[y..];
      assert v in multiset(r[..y]) by { assert r[..y][x] == v; }
      assert v in multiset(r[y..]) by { assert r[y..][0] == v; }
      assert multiset(r)[v] == multiset(r[..y])[v] + multiset(r[y..])[v];
      assert v in multiset(Range(n));
      assert v < n;
      RangeCount(n, v);
      assert false;
    }
  }

  /** Each index below n occurs once in 0, 1, ..., n - 1. */
  lemma {:induction false} RangeCount(n: nat, v: nat)
    requires v < n
    ensures multiset(Range(n))[v] == 1
  {
    assert Range(n) == Range(n - 1) + [n - 1];
    if v < n - 1 {
      RangeCount(n - 1, v);
    } else {
      assert v !in multiset(Range(n - 1));
    }
  }
}
