/** Integer facts about `/` and `%` on non-negative operands (where Dafny's
    Euclidean division agrees with Python's floor division). */
module Arith {

  lemma {:induction false} MulAtLeast(a: int, n: int)
    requires 1 <= a && 0 < n
    ensures a * n >= n
  {
    if a > 1 {
      MulAtLeast(a - 1, n);
      assert a * n == (a - 1) * n + n;
    }
  }

  /** Quotient and remainder are unique. */
  lemma ModChar(x: int, n: int, q: int, r: int)
    requires 0 < n && 0 <= r < n && x == q * n + r
    ensures x % n == r && x / n == q
  {
    var q', r' := x / n, x % n;
    assert x == q' * n + r';
    assert (q - q') * n == r' - r by { assert q * n - q' * n == (q - q') * n; }
    if q > q' {
      MulAtLeast(q - q', n);
      assert false;
    } else if q < q' {
      MulAtLeast(q' - q, n);
      assert false;
    }
  }

  /** An exact quotient multiplies back. */
  lemma DivExact(x: int, n: int)
    requires 0 < n && x % n == 0
    ensures x == (x / n) * n
  {
  }

  /** A product with a positive factor is positive only with a positive
      cofactor. */
  lemma PositiveFactor(t: int, n: int)
    requires 0 < n && t * n > 0
    ensures t > 0
  {
  }

  lemma ModOfSum(a: nat, b: nat, n: nat)
    requires 0 < n
    ensures (a + b) % n == (a % n + b) % n
  {
    var s := a % n + b;
    ModChar(a + b, n, a / n + s / n, s % n);
  }

  lemma ModAddOnce(x: nat, n: nat)
    requires 0 < n
    ensures (x + n) % n == x % n
  {
    ModChar(x + n, n, x / n + 1, x % n);
  }

  /** n - 1 steps and one more from x come back to x, mod n. */
  lemma ModTurn(x: nat, n: nat)
    requires 0 < n
    ensures (x + (n - 1) + 1) % n == x % n
  {
    ModAddOnce(x, n);
  }

  lemma ModSmall(x: nat, n: nat)
    requires x < n
    ensures x % n == x
  {
  }

  lemma ModWrap(x: nat, n: nat)
    requires n <= x < 2 * n
    ensures x % n == x - n
  {
  }

  /** Real products kept behind a name: facts stated about them stay linear
      for the solver. */
  function Mul(a: real, b: real): real { a * b }
}
