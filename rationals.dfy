/** Exact rational numbers as Python's `fractions.Fraction` stores them: a
    numerator and a positive denominator in lowest terms. `math.gcd` and
    `math.lcm` on non-negative integers. */
module Rationals {
  import opened Arith

  function Abs(x: int): nat { if x < 0 then -x else x }

  /** `math.gcd` on non-negative integers (Euclid's algorithm). */
  function Gcd(a: nat, b: nat): nat
    decreases b
  {
    if b == 0 then a else Gcd(b, a % b)
  }

  /** d is a positive divisor of x. */
  predicate Divides(d: int, x: int) { d > 0 && x % d == 0 }

  lemma DividesCombination(d: int, x: int, y: int, s: int, t: int)
    requires Divides(d, x) && Divides(d, y)
    ensures Divides(d, s * x + t * y)
  {
    var kx, ky := x / d, y / d;
    assert x == kx * d && y == ky * d;
    assert s * x + t * y == (s * kx + t * ky) * d;
    ModChar(s * x + t * y, d, s * kx + t * ky, 0);
  }

  lemma DividesMultiple(d: int, k: int)
    requires d > 0
    ensures Divides(d, k * d)
  {
    ModChar(k * d, d, k, 0);
  }

  /** The gcd divides both arguments (and so is positive unless both are 0). */
  lemma {:induction false} GcdDivides(a: nat, b: nat)
    requires a > 0 || b > 0
    decreases b
    ensures Divides(Gcd(a, b), a) && Divides(Gcd(a, b), b)
  {
    if b == 0 {
      ModChar(a, a, 1, 0);
      ModChar(0, a, 0, 0);
    } else {
      GcdDivides(b, a % b);
      var g := Gcd(b, a % b);
      assert a == (a / b) * b + 1 * (a % b);
      DividesCombination(g, b, a % b, a / b, 1);
    }
  }

  /** Bezout coefficients from the extended Euclidean algorithm. */
  function ExtGcd(a: nat, b: nat): (r: (int, int))
    decreases b
    ensures r.0 * a + r.1 * b == Gcd(a, b)
  {
    if b == 0 then (1, 0)
    else
      var (x, y) := ExtGcd(b, a % b);
      BezoutStep(a, b, a / b, a % b, x, y);
      (y, x - y * (a / b))
  }

  /** One step of the extended Euclidean algorithm: coefficients for b and
      a - k * b give coefficients for a and b. */
  lemma BezoutStep(a: int, b: int, k: int, r: int, x: int, y: int)
    requires a == k * b + r
    ensures x * b + y * r == y * a + (x - y * k) * b
  {
    assert y * a == y * (k * b) + y * r;
    assert (x - y * k) * b == x * b - (y * k) * b;
    assert y * (k * b) == (y * k) * b;
  }

  /** A positive number dividing 1 is 1. */
  lemma DividesOne(d: int)
    requires Divides(d, 1)
    ensures d == 1
  {
    if d > 1 { ModSmall(1, d); }
  }

  /** Euclid's lemma, from Bezout coefficients u*x + v*y == 1. */
  lemma Euclid(x: int, y: int, z: int, u: int, v: int)
    requires x > 0 && u * x + v * y == 1
    requires Divides(x, y * z)
    ensures Divides(x, z)
  {
    DividesMultiple(x, z);
    assert z == (u * z) * x + v * (y * z) by {
      calc {
        z;
        == (u * x + v * y) * z;
        == (u * z) * x + v * (y * z);
      }
    }
    DividesCombination(x, z * x, y * z, u, v);
    assert u * (z * x) + v * (y * z) == z;
  }

  /** Coprime numbers in the sense of Bezout. */
  lemma CoprimeBezout(a: nat, b: nat) returns (u: int, v: int)
    requires Gcd(a, b) == 1
    ensures u * a + v * b == 1
  {
    var r := ExtGcd(a, b);
    u, v := r.0, r.1;
  }

  /** From w * g == g with g > 0 follows w == 1. */
  lemma CancelPositive(w: int, g: int)
    requires g > 0 && w * g == g
    ensures w == 1
  {
    if w > 1 {
      assert w * g == (w - 1) * g + g;
      MulAtLeast(w - 1, g);
    } else if w < 0 {
      assert (-w) * g == -(w * g);
      MulAtLeast(-w, g);
    }
  }

  /** Bezout coefficients of a and b serve a / g and b / g with sum 1. */
  lemma BezoutOfQuotients(a: int, b: int, a': int, b': int, g: int, u: int, v: int)
    requires g > 0 && a == a' * g && b == b' * g && u * a + v * b == g
    ensures u * a' + v * b' == 1
  {
    assert (u * a' + v * b') * g == u * (a' * g) + v * (b' * g);
    CancelPositive(u * a' + v * b', g);
  }

  /** Numbers with a Bezout combination equal to 1 are coprime. */
  lemma BezoutCoprime(x: nat, y: nat, u: int, v: int)
    requires u * x + v * y == 1
    ensures Gcd(x, y) == 1
  {
    assert x > 0 || y > 0;
    GcdDivides(x, y);
    DividesCombination(Gcd(x, y), x, y, u, v);
    DividesOne(Gcd(x, y));
  }

  /** Dividing two numbers by their gcd leaves them coprime. */
  lemma QuotientsCoprime(a: nat, b: nat, g: int, a': nat, b': nat)
    requires g == Gcd(a, b) && g > 0 && a == a' * g && b == b' * g
    ensures Gcd(a', b') == 1
  {
    var r := ExtGcd(a, b);
    var u, v := r.0, r.1;
    BezoutOfQuotients(a, b, a', b', g, u, v);
    BezoutCoprime(a', b', u, v);
  }

  /** `math.lcm` of two positive integers. */
  function Lcm(a: nat, b: nat): (l: nat)
    requires a > 0 && b > 0
    ensures l > 0 && Divides(a, l) && Divides(b, l)
  {
    GcdDivides(a, b);
    var g := Gcd(a, b);
    assert a == (a / g) * g && b == (b / g) * g;
    assert (a / g) * b == a * (b / g);
    DividesMultiple(b, a / g);
    DividesMultiple(a, b / g);
    MulPositive(a / g, b);
    (a / g) * b
  }

  lemma MulPositive(x: int, y: int)
    requires x > 0 && y > 0
    ensures x * y > 0
  {
  }

  /** A divisor of a divisor divides. */
  lemma DividesTrans(a: int, b: int, c: int)
    requires Divides(a, b) && Divides(b, c)
    ensures Divides(a, c)
  {
    var k := c / b;
    assert c == k * b;
    DividesCombination(a, b, 0, k, 0);
    assert k * b + 0 * 0 == c;
  }

  /** A Fraction: num/den in lowest terms with den > 0 once `Valid`. */
  datatype Frac = Frac(num: int, den: int) {
    predicate Valid() { den > 0 && Gcd(Abs(num), den) == 1 }
    function Value(): real
      requires den != 0
    {
      num as real / den as real
    }
  }

  lemma QuotientValue(n: int, d: int, g: int)
    requires d != 0 && g > 0 && n % g == 0 && d % g == 0
    ensures (n / g) as real / (d / g) as real == n as real / d as real
  {
    var n', d' := n / g, d / g;
    assert n == n' * g && d == d' * g;
    assert n as real == n' as real * g as real;
    assert d as real == d' as real * g as real;
  }

  lemma NegQuotient(x: int, g: int)
    requires g > 0 && x % g == 0
    ensures (-x) % g == 0 && (-x) / g == -(x / g)
  {
    assert x == (x / g) * g;
    ModChar(-x, g, -(x / g), 0);
  }

  lemma AbsDivides(x: int, g: int)
    requires Divides(g, Abs(x))
    ensures x % g == 0 && Abs(x / g) == Abs(x) / g
  {
    if x < 0 { NegQuotient(-x, g); }
  }

  /** Lowest terms of n / d for a positive denominator. */
  function ReducePositive(n: int, d: int): (r: Frac)
    requires d > 0
    ensures r.Valid()
    ensures r.Value() == n as real / d as real
  {
    var g := Gcd(Abs(n), d);
    GcdDivides(Abs(n), d);
    ReduceFacts(n, d, g);
    Frac(n / g, d / g)
  }

  lemma ReduceFacts(n: int, d: int, g: int)
    requires d > 0 && g == Gcd(Abs(n), d) && Divides(g, Abs(n)) && Divides(g, d)
    ensures d / g > 0 && Gcd(Abs(n / g), d / g) == 1
    ensures (n / g) as real / (d / g) as real == n as real / d as real
  {
    ReduceCoprime(n, d, g);
    AbsDivides(n, g);
    QuotientValue(n, d, g);
  }

  lemma ReduceCoprime(n: int, d: int, g: int)
    requires d > 0 && g == Gcd(Abs(n), d) && Divides(g, Abs(n)) && Divides(g, d)
    ensures d / g > 0 && Gcd(Abs(n / g), d / g) == 1
  {
    AbsDivides(n, g);
    var a, b := Abs(n / g), d / g;
    DivExact(Abs(n), g);
    DivExact(d, g);
    PositiveFactor(b, g);
    QuotientsCoprime(Abs(n), d, g, a, b);
  }

  /** `Fraction(n, d)`: lowest terms, and a negative denominator moves its sign
      to the numerator. Python raises ZeroDivisionError for d == 0; callers
      here never pass it. */
  function Normalize(n: int, d: int): (r: Frac)
    requires d != 0
    ensures r.Valid()
    ensures r.Value() == n as real / d as real
  {
    if d < 0 then
      var r := ReducePositive(-n, -d);
      assert (-n) as real / (-d) as real == n as real / d as real;
      r
    else
      ReducePositive(n, d)
  }

  lemma CrossMultiply(a: int, b: int, c: int, d: int)
    requires b > 0 && d > 0
    requires a as real / b as real == c as real / d as real
    ensures a * d == c * b
  {
    var x := a as real / b as real;
    assert a as real == x * b as real;
    assert c as real == x * d as real;
    assert (a * d) as real == a as real * d as real == x * b as real * d as real;
    assert (c * b) as real == c as real * b as real == x * d as real * b as real;
  }

  /** Lowest terms make the representation canonical: two valid fractions
      with the same value are the same fraction. */
  lemma FracUnique(a: Frac, b: Frac)
    requires a.Valid() && b.Valid() && a.Value() == b.Value()
    ensures a == b
  {
    CrossMultiply(a.num, a.den, b.num, b.den);
    DenDivides(a, b);
    DenDivides(b, a);
    var ka, kb := b.den / a.den, a.den / b.den;
    assert b.den == ka * a.den && a.den == kb * b.den;
    assert (kb * ka) * a.den == a.den;
    CancelPositive(kb * ka, a.den);
    if ka > 1 { MulAtLeast(ka, kb); }
    assert a.den == b.den;
    assert a.num * b.den == b.num * b.den;
  }

  lemma DenDivides(a: Frac, b: Frac)
    requires a.Valid() && b.Valid() && a.num * b.den == b.num * a.den
    ensures Divides(a.den, b.den)
  {
    var u, v := CoprimeBezout(Abs(a.num), a.den);
    var s := if a.num < 0 then -1 else 1;
    assert Abs(a.num) * b.den == s * (b.num * a.den);
    assert s * (b.num * a.den) == (s * b.num) * a.den;
    DividesMultiple(a.den, s * b.num);
    Euclid(a.den, Abs(a.num), b.den, v, u);
  }

  /** Equal cross products give equal values. */
  lemma FracEq(n1: int, d1: int, n2: int, d2: int)
    requires d1 > 0 && d2 > 0 && n1 * d2 == n2 * d1
    ensures n1 as real / d1 as real == n2 as real / d2 as real
  {
    var x := n1 as real / d1 as real;
    assert n1 as real == x * d1 as real;
    assert (n1 * d2) as real == n1 as real * d2 as real;
    assert (n2 * d1) as real == n2 as real * d1 as real;
    assert n2 as real == x * d2 as real;
  }

  lemma ScaleValue(k: int, n: int, d: int)
    requires d > 0
    ensures k as real * (n as real / d as real) == (k * n) as real / d as real
  {
    assert (k * n) as real == k as real * n as real;
  }

  lemma ValueLess(n: int, d: int, m: int)
    requires d > 0
    ensures n as real / d as real < m as real <==> n < m * d
  {
    var x := n as real / d as real;
    assert n as real == x * d as real;
    assert (m * d) as real == m as real * d as real;
  }

  lemma ValuePositive(n: int, d: int)
    requires d > 0
    ensures 0.0 < n as real / d as real <==> 0 < n
  {
    var x := n as real / d as real;
    assert n as real == x * d as real;
  }

  lemma ValueZero(n: int, d: int)
    requires d > 0
    ensures n as real / d as real == 0.0 <==> n == 0
  {
    var x := n as real / d as real;
    assert n as real == x * d as real;
  }

  /** Cancelling a positive factor. */
  lemma CancelFactor(x: int, y: int, b: int)
    requires b > 0 && x * b == y * b
    ensures x == y
  {
    if x < y {
      assert y * b - x * b == (y - x) * b;
      MulAtLeast(y - x, b);
    } else if y < x {
      assert x * b - y * b == (x - y) * b;
      MulAtLeast(x - y, b);
    }
  }

  /** The numerator of a valid fraction with numerator 0 has denominator 1. */
  lemma ZeroFrac(f: Frac)
    requires f.Valid() && f.num == 0
    ensures f == Frac(0, 1)
  {
    assert Gcd(0, f.den) == Gcd(f.den, 0);
  }
}
