/** Angles as exact rational multiples of pi (`Angle`, a `Fraction`
    subclass), their printed form, and the two per-corner computations on a
    corner's angle: the elementary angle and the critical interval. */
module Angles {
  import opened Arith
  import opened Rationals
  import opened Wrappers

  /** A Fraction always holds lowest terms with a positive denominator. */
  type Angle = f: Frac | f.Valid() witness Frac(0, 1)

  /* ---------------------------------------------------------------- */
  /* Printing (`Angle.__str__`)                                        */
  /* ---------------------------------------------------------------- */

  const PI: char := '\U{03C0}'

  function DigitChar(d: nat): char
    requires d < 10
  {
    (('0' as int) + d) as char
  }

  predicate IsDigit(c: char) { '0' <= c <= '9' }

  predicate IsDigits(s: string) { forall i :: 0 <= i < |s| ==> IsDigit(s[i]) }

  /** Decimal form of a natural number, as `f"{n}"` prints it. */
  function NatStr(n: nat): (s: string)
    decreases n
    ensures |s| > 0 && IsDigits(s)
  {
    if n < 10 then [DigitChar(n)] else NatStr(n / 10) + [DigitChar(n % 10)]
  }

  /** Decimal value of a string of digits. */
  function ParseNat(s: string): nat
    requires IsDigits(s)
  {
    if |s| == 0 then 0
    else ParseNat(s[..|s| - 1]) * 10 + ((s[|s| - 1] as int) - ('0' as int))
  }

  lemma {:induction false} ParseNatStr(n: nat)
    ensures ParseNat(NatStr(n)) == n
    decreases n
  {
    if n >= 10 {
      var s := NatStr(n / 10);
      assert (s + [DigitChar(n % 10)])[..|s|] == s;
      ParseNatStr(n / 10);
    }
  }

  /** The numerator part in front of the pi sign: empty for 1, "-" for -1,
      the signed decimal otherwise. */
  function NumeratorStr(num: int): string
  {
    if num == 1 then ""
    else if num == -1 then "-"
    else if num < 0 then "-" + NatStr(-num)
    else NatStr(num)
  }

  /** `Angle.__str__`: "0", or numerator, pi sign, "/", denominator. */
  function Str(a: Angle): (s: string)
  {
    if a.num == 0 then "0" else NumeratorStr(a.num) + [PI, '/'] + NatStr(a.den)
  }

  /** First position of character c in s. */
  function Find(s: string, c: char): (r: Option<nat>)
    ensures r.Some? ==> r.value < |s| && s[r.value] == c && c !in s[..r.value]
    ensures r.None? ==> c !in s
  {
    if |s| == 0 then None
    else if s[0] == c then Some(0)
    else
      var r := Find(s[1..], c);
      if r.Some? then
        assert s[..r.value + 1] == [s[0]] + s[1..][..r.value];
        Some(r.value + 1)
      else None
  }

  lemma FindAfter(h: string, c: char, t: string)
    requires c !in h
    ensures Find(h + [c] + t, c) == Some(|h|)
  {
    var s := h + [c] + t;
    assert s[|h|] == c;
    assert s[..|h|] == h;
  }

  function ParseNumerator(h: string): Option<int>
  {
    if h == "" then Some(1)
    else if h == "-" then Some(-1)
    else if h[0] == '-' && IsDigits(h[1..]) then Some(0 - ParseNat(h[1..]) as int)
    else if IsDigits(h) then Some(ParseNat(h))
    else None
  }

  /** Reads back the printed form of an angle. */
  function ParseAngle(s: string): Option<Frac>
  {
    if s == "0" then Some(Frac(0, 1))
    else
      match Find(s, PI)
      case None => None
      case Some(k) =>
        var head, tail := s[..k], s[k + 1..];
        if |tail| < 2 || tail[0] != '/' || !IsDigits(tail[1..]) then None
        else
          match ParseNumerator(head)
          case None => None
          case Some(num) => Some(Frac(num, ParseNat(tail[1..])))
  }

  lemma NumeratorRoundTrip(num: int)
    requires num != 0
    ensures PI !in NumeratorStr(num)
    ensures ParseNumerator(NumeratorStr(num)) == Some(num)
  {
    if num < -1 {
      NegativeNumerator(-num);
    } else if num > 1 {
      PositiveNumerator(num);
    }
  }

  lemma DigitsNoPi(d: string)
    requires IsDigits(d)
    ensures PI !in d
  {
    forall i | 0 <= i < |d| ensures d[i] != PI {
      assert IsDigit(d[i]);
    }
  }

  lemma NegativeNumerator(n: nat)
    requires n > 1
    ensures PI !in "-" + NatStr(n) && ParseNumerator("-" + NatStr(n)) == Some(-(n as int))
  {
    var d := NatStr(n);
    assert ("-" + d)[1..] == d && ("-" + d)[0] == '-' && |"-" + d| > 1;
    ParseNatStr(n);
    DigitsNoPi(d);
  }

  lemma PositiveNumerator(n: nat)
    requires n > 1
    ensures PI !in NatStr(n) && ParseNumerator(NatStr(n)) == Some(n)
  {
    var d := NatStr(n);
    assert IsDigit(d[0]);
    ParseNatStr(n);
    DigitsNoPi(d);
  }

  /** The printed form determines the angle: parsing it gives the angle back.
      So two different angles never print alike. */
  lemma StrRoundTrip(a: Angle)
    ensures ParseAngle(Str(a)) == Some(Frac(a.num, a.den))
  {
    if a.num == 0 {
      ZeroFrac(a);
    } else {
      var h, t := NumeratorStr(a.num), ['/'] + NatStr(a.den);
      NumeratorRoundTrip(a.num);
      assert Str(a) == h + [PI] + t;
      FindAfter(h, PI, t);
      var s := Str(a);
      assert s[..|h|] == h;
      assert s[|h| + 1..] == t;
      assert t[1..] == NatStr(a.den);
      ParseNatStr(a.den);
      assert s != "0" by { assert |s| >= 3; }
    }
  }

  /* ---------------------------------------------------------------- */
  /* Elementary angle of a corner (`Corner.elementary_angle`)          */
  /* ---------------------------------------------------------------- */

  /** p and q before doubling, by the parity of the numerator. */
  function BasePQ(a: Angle): (int, int)
  {
    if a.num % 2 == 0 then (a.num / 2, a.den - a.num / 2)
    else (a.num, 2 * a.den - a.num)
  }

  /** The integers p and q of `Corner.elementary_angle`: doubled when either
      of them is 1. */
  function ElementaryPQ(a: Angle): (int, int)
  {
    var (p, q) := BasePQ(a);
    if p == 1 || q == 1 then (2 * p, 2 * q) else (p, q)
  }

  function ElementarySum(a: Angle): int
  {
    ElementaryPQ(a).0 + ElementaryPQ(a).1
  }

  /** p + q is the denominator (even numerator) or twice it (odd numerator),
      doubled once more when p or q was 1. */
  lemma ElementarySumValue(a: Angle)
    ensures ElementarySum(a) > 0
    ensures var s0 := if a.num % 2 == 0 then a.den else 2 * a.den;
      var (p, q) := BasePQ(a);
      ElementarySum(a) == if p == 1 || q == 1 then 2 * s0 else s0
  {
  }

  /** `Corner.elementary_angle`: the angle 2 / (p + q) in lowest terms. */
  function ElementaryAngle(a: Angle): (e: Angle)
    ensures e.Value() == 2.0 / ElementarySum(a) as real
  {
    ElementarySumValue(a);
    Normalize(2, ElementarySum(a))
  }

  /** The identity behind p: angle == 2p / (p + q), cross-multiplied. */
  lemma ElementaryIdentity(a: Angle)
    ensures a.num * ElementarySum(a) == 2 * ElementaryPQ(a).0 * a.den
  {
    var (p0, q0) := BasePQ(a);
    BaseIdentity(a.num, a.den, p0, q0);
    if p0 == 1 || q0 == 1 {
      DoubledIdentity(a.num, a.den, p0, p0 + q0);
    }
  }

  lemma BaseIdentity(n: int, b: int, p0: int, q0: int)
    requires (p0, q0) == if n % 2 == 0 then (n / 2, b - n / 2) else (n, 2 * b - n)
    ensures n * (p0 + q0) == 2 * p0 * b
  {
    if n % 2 == 0 {
      assert n == 2 * (n / 2);
    }
  }

  lemma DoubledIdentity(n: int, b: int, p: int, s: int)
    requires n * s == 2 * p * b
    ensures n * (2 * s) == 2 * (2 * p) * b
  {
  }

  /** For 0 < numerator < 2 * denominator both p and q are at least 2. */
  lemma ElementaryPQBounds(a: Angle)
    requires 0 < a.num < 2 * a.den
    ensures ElementaryPQ(a).0 >= 2 && ElementaryPQ(a).1 >= 2
  {
    var (p0, q0) := BasePQ(a);
    if a.num % 2 == 0 {
      assert a.num == 2 * (a.num / 2);
    }
    assert p0 >= 1 && q0 >= 1;
  }

  /** The documented rule: for an angle strictly between 0 and 2 (in units of
      pi) the elementary angle e splits it as angle == p * e and the rest of
      the full turn as 2 - angle == q * e, with integers p, q >= 2. */
  lemma ElementaryAngleMultiples(a: Angle)
    requires 0.0 < a.Value() < 2.0
    ensures ElementaryPQ(a).0 >= 2 && ElementaryPQ(a).1 >= 2
    ensures a.Value() == Mul(ElementaryPQ(a).0 as real, ElementaryAngle(a).Value())
    ensures 2.0 - a.Value() == Mul(ElementaryPQ(a).1 as real, ElementaryAngle(a).Value())
  {
    var n, b := a.num, a.den;
    ValuePositive(n, b);
    ValueLess(n, b, 2);
    ElementaryPQBounds(a);
    ElementarySumValue(a);
    ElementaryIdentity(a);
    var p, q, s := ElementaryPQ(a).0, ElementaryPQ(a).1, ElementarySum(a);
    var ev := ElementaryAngle(a).Value();
    MultipleP(n, b, p, s, ev);
    RestIdentity(n, b, p, q, s);
    MultipleQ(n, b, q, s, ev);
  }

  lemma RestIdentity(n: int, b: int, p: int, q: int, s: int)
    requires s == p + q && n * s == 2 * p * b
    ensures (2 * b - n) * s == 2 * q * b
  {
    assert (2 * b - n) * s == 2 * b * s - n * s;
    assert 2 * b * s - 2 * p * b == 2 * b * (s - p);
  }

  lemma MultipleP(n: int, b: int, p: int, s: int, ev: real)
    requires b > 0 && s > 0 && n * s == 2 * p * b && ev == 2.0 / s as real
    ensures n as real / b as real == Mul(p as real, ev)
  {
    FracEq(n, b, 2 * p, s);
    ScaleValue(p, 2, s);
  }

  lemma MultipleQ(n: int, b: int, q: int, s: int, ev: real)
    requires b > 0 && s > 0 && (2 * b - n) * s == 2 * q * b && ev == 2.0 / s as real
    ensures 2.0 - n as real / b as real == Mul(q as real, ev)
  {
    FracEq(2 * b - n, b, 2 * q, s);
    ScaleValue(q, 2, s);
    SubValue(2, n, b);
  }

  lemma SubValue(k: int, n: int, d: int)
    requires d > 0
    ensures k as real - n as real / d as real == (k * d - n) as real / d as real
  {
    var x := n as real / d as real;
    assert n as real == x * d as real;
    assert (k * d) as real == k as real * d as real;
  }

  /** No coarser split exists: whenever angle == 2p' / (p' + q') with
      integers p', q' >= 2, then p' + q' >= p + q, so 2 / (p' + q') is at most
      the elementary angle. */
  lemma ElementaryAngleCoarsest(a: Angle, p': int, q': int)
    requires p' >= 2 && q' >= 2
    requires a.Value() == (2 * p') as real / (p' + q') as real
    ensures ElementarySum(a) <= p' + q'
  {
    var n, b, s' := a.num, a.den, p' + q';
    CrossMultiply(n, b, 2 * p', s');
    ValuePositive(n, b);
    ValuePositive(2 * p', s');
    var u, v := CoprimeBezout(Abs(n), b);
    ElementarySumValue(a);
    if n % 2 == 1 {
      CoarsestOdd(n, b, p', q', u, v);
    } else {
      CoarsestEven(n, b, p', q', u, v);
    }
  }

  lemma CoarsestOdd(n: int, b: int, p': int, q': int, u: int, v: int)
    requires n % 2 == 1 && n > 0 && b > 0 && p' >= 2 && q' >= 2
    requires u * n + v * b == 1 && n * (p' + q') == (2 * p') * b
    ensures p' + q' >= 2 * b
    ensures n == 1 || 2 * b - n == 1 ==> p' + q' >= 4 * b
  {
    var s' := p' + q';
    DividesMultiple(b, 2 * p');
    Euclid(b, n, s', v, u);
    var t := s' / b;
    assert s' == t * b;
    assert (n * t) * b == (2 * p') * b;
    CancelFactor(n * t, 2 * p', b);
    OddFactorEven(n, t, p');
    if t == 2 {
      assert p' == n && q' == 2 * b - n;
    }
    if t >= 4 { MulLeft(4, t, b); } else { MulLeft(2, t, b); }
  }

  lemma CoarsestEven(n: int, b: int, p': int, q': int, u: int, v: int)
    requires n % 2 == 0 && n > 0 && b > 0 && p' >= 2 && q' >= 2
    requires u * n + v * b == 1 && n * (p' + q') == (2 * p') * b
    ensures p' + q' >= b
    ensures n / 2 == 1 || b - n / 2 == 1 ==> p' + q' >= 2 * b
  {
    var s', c := p' + q', n / 2;
    assert n == 2 * c;
    assert c * s' == p' * b;
    DividesMultiple(b, p');
    Euclid(b, c, s', v, 2 * u);
    var t := s' / b;
    assert s' == t * b;
    MulPositiveSign(t, b);
    if t == 1 {
      CancelFactor(c, p', b);
      assert p' == c && q' == b - c;
    }
    if t >= 2 { MulLeft(2, t, b); } else { MulLeft(1, t, b); }
  }

  /** An odd n with n * t == 2 * p' and t > 0 forces an even t >= 2. */
  lemma OddFactorEven(n: int, t: int, p': int)
    requires n % 2 == 1 && n > 0 && n * t == 2 * p' && p' > 0
    ensures t >= 2 && t % 2 == 0
  {
    var k := n / 2;
    assert n == 2 * k + 1;
    assert t == 2 * (p' - k * t) by { assert n * t == 2 * k * t + t; }
    ModChar(t, 2, p' - k * t, 0);
    MulPositiveSign(t, n);
  }

  lemma MulPositiveSign(t: int, b: int)
    requires b > 0 && t * b > 0
    ensures t > 0
  {
  }

  lemma MulLeft(k: int, t: int, b: int)
    requires b > 0 && k <= t
    ensures k * b <= t * b
  {
    assert t * b - k * b == (t - k) * b;
  }

  /** One row of the table: p + q is s and the fraction e has value 2 / s. */
  lemma TableRow(a: Angle, e: Angle, s: int)
    requires ElementarySum(a) == s && s > 0 && e.num * s == 2 * e.den
    ensures ElementaryAngle(a) == e
  {
    FracEq(2, s, e.num, e.den);
    FracUnique(ElementaryAngle(a), e);
  }

  /* The test table of the elementary-angle tests: k/12 for k = 1 .. 23,
     one row per lemma. */

  lemma ElementaryAngleTable1()
    ensures ElementaryAngle(Frac(1, 12)) == Frac(1, 24)
  {
    assert ElementarySum(Frac(1, 12)) == 48;
    TableRow(Frac(1, 12), Frac(1, 24), 48);
  }

  lemma ElementaryAngleTable2()
    ensures ElementaryAngle(Frac(1, 6)) == Frac(1, 12)
  {
    assert ElementarySum(Frac(1, 6)) == 24;
    TableRow(Frac(1, 6), Frac(1, 12), 24);
  }

  lemma ElementaryAngleTable3()
    ensures ElementaryAngle(Frac(1, 4)) == Frac(1, 8)
  {
    assert ElementarySum(Frac(1, 4)) == 16;
    TableRow(Frac(1, 4), Frac(1, 8), 16);
  }

  lemma ElementaryAngleTable4()
    ensures ElementaryAngle(Frac(1, 3)) == Frac(1, 6)
  {
    assert ElementarySum(Frac(1, 3)) == 12;
    TableRow(Frac(1, 3), Frac(1, 6), 12);
  }

  lemma ElementaryAngleTable5()
    ensures ElementaryAngle(Frac(5, 12)) == Frac(1, 12)
  {
    assert ElementarySum(Frac(5, 12)) == 24;
    TableRow(Frac(5, 12), Frac(1, 12), 24);
  }

  lemma ElementaryAngleTable6()
    ensures ElementaryAngle(Frac(1, 2)) == Frac(1, 4)
  {
    assert ElementarySum(Frac(1, 2)) == 8;
    TableRow(Frac(1, 2), Frac(1, 4), 8);
  }

  lemma ElementaryAngleTable7()
    ensures ElementaryAngle(Frac(7, 12)) == Frac(1, 12)
  {
    assert ElementarySum(Frac(7, 12)) == 24;
    TableRow(Frac(7, 12), Frac(1, 12), 24);
  }

  lemma ElementaryAngleTable8()
    ensures ElementaryAngle(Frac(2, 3)) == Frac(1, 3)
  {
    assert ElementarySum(Frac(2, 3)) == 6;
    TableRow(Frac(2, 3), Frac(1, 3), 6);
  }

  lemma ElementaryAngleTable9()
    ensures ElementaryAngle(Frac(3, 4)) == Frac(1, 4)
  {
    assert ElementarySum(Frac(3, 4)) == 8;
    TableRow(Frac(3, 4), Frac(1, 4), 8);
  }

  lemma ElementaryAngleTable10()
    ensures ElementaryAngle(Frac(5, 6)) == Frac(1, 6)
  {
    assert ElementarySum(Frac(5, 6)) == 12;
    TableRow(Frac(5, 6), Frac(1, 6), 12);
  }

  lemma ElementaryAngleTable11()
    ensures ElementaryAngle(Frac(11, 12)) == Frac(1, 12)
  {
    assert BasePQ(Frac(11, 12)) == (11, 13);
    assert ElementarySum(Frac(11, 12)) == 24;
    TableRow(Frac(11, 12), Frac(1, 12), 24);
  }

  lemma ElementaryAngleTable12()
    ensures ElementaryAngle(Frac(1, 1)) == Frac(1, 2)
  {
    assert ElementarySum(Frac(1, 1)) == 4;
    TableRow(Frac(1, 1), Frac(1, 2), 4);
  }

  lemma ElementaryAngleTable13()
    ensures ElementaryAngle(Frac(13, 12)) == Frac(1, 12)
  {
    assert ElementarySum(Frac(13, 12)) == 24;
    TableRow(Frac(13, 12), Frac(1, 12), 24);
  }

  lemma ElementaryAngleTable14()
    ensures ElementaryAngle(Frac(7, 6)) == Frac(1, 6)
  {
    assert ElementarySum(Frac(7, 6)) == 12;
    TableRow(Frac(7, 6), Frac(1, 6), 12);
  }

  lemma ElementaryAngleTable15()
    ensures ElementaryAngle(Frac(5, 4)) == Frac(1, 4)
  {
    assert ElementarySum(Frac(5, 4)) == 8;
    TableRow(Frac(5, 4), Frac(1, 4), 8);
  }

  lemma ElementaryAngleTable16()
    ensures ElementaryAngle(Frac(4, 3)) == Frac(1, 3)
  {
    assert ElementarySum(Frac(4, 3)) == 6;
    TableRow(Frac(4, 3), Frac(1, 3), 6);
  }

  lemma ElementaryAngleTable17()
    ensures ElementaryAngle(Frac(17, 12)) == Frac(1, 12)
  {
    assert ElementarySum(Frac(17, 12)) == 24;
    TableRow(Frac(17, 12), Frac(1, 12), 24);
  }

  lemma ElementaryAngleTable18()
    ensures ElementaryAngle(Frac(3, 2)) == Frac(1, 4)
  {
    assert ElementarySum(Frac(3, 2)) == 8;
    TableRow(Frac(3, 2), Frac(1, 4), 8);
  }

  lemma ElementaryAngleTable19()
    ensures ElementaryAngle(Frac(19, 12)) == Frac(1, 12)
  {
    assert ElementarySum(Frac(19, 12)) == 24;
    TableRow(Frac(19, 12), Frac(1, 12), 24);
  }

  lemma ElementaryAngleTable20()
    ensures ElementaryAngle(Frac(5, 3)) == Frac(1, 6)
  {
    assert ElementarySum(Frac(5, 3)) == 12;
    TableRow(Frac(5, 3), Frac(1, 6), 12);
  }

  lemma ElementaryAngleTable21()
    ensures ElementaryAngle(Frac(7, 4)) == Frac(1, 8)
  {
    assert ElementarySum(Frac(7, 4)) == 16;
    TableRow(Frac(7, 4), Frac(1, 8), 16);
  }

  lemma ElementaryAngleTable22()
    ensures ElementaryAngle(Frac(11, 6)) == Frac(1, 12)
  {
    assert ElementarySum(Frac(11, 6)) == 24;
    TableRow(Frac(11, 6), Frac(1, 12), 24);
  }

  lemma ElementaryAngleTable23()
    ensures ElementaryAngle(Frac(23, 12)) == Frac(1, 24)
  {
    assert ElementarySum(Frac(23, 12)) == 48;
    TableRow(Frac(23, 12), Frac(1, 24), 48);
  }

  /* ---------------------------------------------------------------- */
  /* Critical interval of a corner (`Corner.critical_interval`)        */
  /* ---------------------------------------------------------------- */

  /** a = (2 - angle) / angle and b = 1 / a, both divisions raising
      ZeroDivisionError on a zero divisor; the interval is (-b, -a) for an
      angle above 1 and (-a, -b) otherwise. */
  function CriticalInterval(angle: Angle): (r: Result<(real, real)>)
    ensures r.Err? <==> angle.Value() == 0.0 || angle.Value() == 2.0
  {
    var v := angle.Value();
    if v == 0.0 then Err(ZeroDivisionError)
    else
      var a := (2.0 - v) / v;
      if a == 0.0 then Err(ZeroDivisionError)
      else
        var b := 1.0 / a;
        if v > 1.0 then Ok((-b, -a)) else Ok((-a, -b))
  }

  function Min(x: real, y: real): real { if x <= y then x else y }

  function Max(x: real, y: real): real { if x <= y then y else x }

  /** For an angle strictly between 0 and 2 the interval runs from
      -max(a, 1/a) to -min(a, 1/a) with a = (2 - angle) / angle: its ends are
      negative, ordered, and reciprocal. A flat angle (1) gives (-1, -1). */
  lemma CriticalIntervalBounds(angle: Angle)
    requires 0.0 < angle.Value() < 2.0
    ensures CriticalInterval(angle).Ok?
    ensures var (lo, hi) := CriticalInterval(angle).value;
      var a := (2.0 - angle.Value()) / angle.Value();
      a > 0.0 && lo == -Max(a, 1.0 / a) && hi == -Min(a, 1.0 / a) &&
      lo <= hi < 0.0 && lo * hi == 1.0
    ensures angle.Value() == 1.0 ==> CriticalInterval(angle).value == (-1.0, -1.0)
  {
    var v := angle.Value();
    var a := (2.0 - v) / v;
    assert a * v == 2.0 - v;
    assert a > 0.0;
    var b := 1.0 / a;
    assert a * b == 1.0;
    if v > 1.0 {
      assert a < 1.0;
      assert b > 1.0;
    } else {
      assert a >= 1.0;
      assert b <= 1.0;
    }
  }
}
