/** Exact square roots of rationals, as the constant evaluator of utils/answer_verifier.py takes
    them: integer square roots of the numerator and denominator of a fraction in lowest terms. */
module RationalRoot {
  /** A Python `Fraction`: lowest terms, positive denominator. */
  datatype Fraction = Fraction(num: int, den: int) {
    predicate Reduced() { den > 0 && Gcd(Abs(num), den) == 1 }
  }

  function Abs(x: int): nat { if x < 0 then -x else x }

  function Gcd(a: nat, b: nat): nat
    decreases b
  {
    if b == 0 then a else Gcd(b, a % b)
  }

  // ----- divisors -----

  lemma {:induction false} GcdDivides(a: nat, b: nat) returns (j: nat, k: nat)
    ensures a == Gcd(a, b) * j && b == Gcd(a, b) * k
    decreases b
  {
    if b == 0 {
      j, k := 1, 0;
    } else {
      var j', k' := GcdDivides(b, a % b);
      var g := Gcd(a, b);
      MultipleOfDivisor(g, a, a / b, b, a % b, j', k');
      j, k := (a / b) * j' + k', j';
    }
  }

  lemma MultipleOfDivisor(g: nat, a: nat, q: nat, b: nat, r: nat, j: nat, k: nat)
    requires a == q * b + r && b == g * j && r == g * k
    ensures a == g * (q * j + k)
  {
    assert q * (g * j) == g * (q * j);
    assert g * (q * j + k) == g * (q * j) + g * k;
  }

  lemma {:induction false} Bezout(a: nat, b: nat) returns (x: int, y: int)
    ensures x * a + y * b == Gcd(a, b)
    decreases b
  {
    if b == 0 {
      x, y := 1, 0;
    } else {
      var x', y' := Bezout(b, a % b);
      var q := a / b;
      x, y := y', x' - y' * q;
      assert a % b == a - q * b;
      assert y' * (a - q * b) == y' * a - y' * (q * b);
      assert y' * (q * b) == (y' * q) * b;
      assert (x' - y' * q) * b == x' * b - (y' * q) * b;
    }
  }

  lemma {:induction false} GcdPositive(a: nat, b: nat)
    requires a > 0 || b > 0
    ensures Gcd(a, b) > 0
    decreases b
  {
    if b > 0 {
      GcdPositive(b, a % b);
    }
  }

  /** A common divisor of numbers with a unit combination is one. */
  lemma UnitDivisor(k: nat, a: int, b: int, x: int, y: int)
    requires x * (a * k) + y * (b * k) == 1
    ensures k == 1
  {
    assert x * (a * k) == (x * a) * k && y * (b * k) == (y * b) * k;
    Distribute(x * a, y * b, k);
    ProductOne(x * a + y * b, k);
  }

  lemma MulMono(a: nat, b: nat, c: nat, d: nat)
    requires a <= b && c <= d
    ensures a * c <= b * d
  {
    assert a * c <= a * d;
    assert a * d <= b * d;
  }

  lemma NegProduct(a: int, b: int)
    ensures a * -b == -(a * b)
  {}

  lemma ProductOne(m: int, k: nat)
    requires m * k == 1
    ensures k == 1
  {
    if m <= 0 {
      MulMono(0, -m, 0, k);
    } else if k >= 2 {
      MulMono(1, m, k, k);
    }
  }

  /** A unit combination of p and q gives one of their squares: cube it. */
  lemma SquareCombination(p: int, q: int, x: int, y: int) returns (u: int, v: int)
    requires x * p + y * q == 1
    ensures u * (p * p) + v * (q * q) == 1
  {
    var s, t := x * p, y * q;
    u := (x * x) * (s + 3 * t);
    v := (y * y) * (3 * s + t);
    SquareThrough(x, p, s + 3 * t);
    SquareThrough(y, q, 3 * s + t);
    CubeOfSum(s, t);
  }

  lemma SquareThrough(x: int, p: int, k: int)
    ensures (x * x) * k * (p * p) == ((x * p) * (x * p)) * k
  {
    var s := x * p;
    assert (x * x) * (p * p) == s * s;
    Regroup3(x * x, k, p * p);
  }

  lemma Distribute(a: int, b: int, c: int)
    ensures (a + b) * c == a * c + b * c
  {}

  lemma Regroup3(a: int, b: int, c: int)
    ensures (a * b) * c == (a * c) * b && (b * a) * c == (a * c) * b
  {}

  lemma CubeOfSum(s: int, t: int)
    requires s + t == 1
    ensures (s * s) * (s + 3 * t) + (t * t) * (3 * s + t) == 1
  {
    assert t == 1 - s;
    var ss := s * s;
    assert t * t == 1 - 2 * s + ss;
    assert ss * (s + 3 * t) == 3 * ss - 2 * (ss * s);
    assert (1 - 2 * s + ss) * (3 * s + t) == (1 - 2 * s + ss) * (2 * s + 1);
    assert (1 - 2 * s + ss) * (2 * s + 1) == 1 - 3 * ss + 2 * (ss * s);
  }

  // ----- rational squares in lowest terms -----

  /** p/q is a square root of f. */
  predicate IsRoot(f: Fraction, p: int, q: int) { q > 0 && p * p * f.den == q * q * f.num }

  /** If n * q^2 = d * p^2 with n/d and p/q both in lowest terms, then n = p^2 and d = q^2. */
  lemma CoprimeSquares(n: nat, d: nat, p: nat, q: nat)
    requires d > 0 && q > 0 && Gcd(n, d) == 1 && Gcd(p, q) == 1
    requires p * p * d == q * q * n
    ensures n == p * p && d == q * q
  {
    var x, y := Bezout(p, q);
    var u, v := SquareCombination(p, q, x, y);
    var k := u * n + v * d;
    SharedFactor(p * p, q * q, n, d, u, v);
    assert k > 0 by {
      if k <= 0 {
        NegProduct(q * q, k);
        MulMono(0, q * q, 0, -k);
      }
    }
    var s, t := Bezout(n, d);
    UnitDivisor(k, p * p, q * q, s, t);
  }

  lemma SharedFactor(pp: int, qq: int, n: int, d: int, u: int, v: int)
    requires pp * d == qq * n && u * pp + v * qq == 1
    ensures n == pp * (u * n + v * d) && d == qq * (u * n + v * d)
  {
    Distribute(u * pp, v * qq, n);
    Distribute(u * pp, v * qq, d);
    FactorOut(pp, u, n, v, d);
    FactorOut(qq, u, n, v, d);
    assert v * qq * n == v * (qq * n) && u * pp * d == u * (pp * d);
    assert u * pp * n == pp * (u * n) && v * qq * d == qq * (v * d);
  }

  lemma FactorOut(a: int, u: int, n: int, v: int, d: int)
    ensures a * (u * n + v * d) == u * a * n + v * (a * d)
    ensures a * (u * n + v * d) == u * (a * n) + v * a * d
  {
    assert a * (u * n) == u * a * n == u * (a * n);
    assert a * (v * d) == v * (a * d) == v * a * d;
  }

  lemma CancelSquare(g: nat, p: nat, q: nat, n: nat, d: nat)
    requires g > 0 && (g * p) * (g * p) * d == (g * q) * (g * q) * n
    ensures p * p * d == q * q * n
  {
    assert (g * p) * (g * p) * d == (g * g) * (p * p * d);
    assert (g * q) * (g * q) * n == (g * g) * (q * q * n);
    var gg := g * g;
    assert gg > 0;
    var a, b := p * p * d, q * q * n;
    assert gg * a == gg * b;
    assert gg * (a - b) == 0;
  }

  lemma {:induction false} GcdScale(g: nat, a: nat, b: nat)
    requires g > 0
    ensures Gcd(g * a, g * b) == g * Gcd(a, b)
    decreases b
  {
    if b > 0 {
      assert g * b > 0;
      assert (g * a) % (g * b) == g * (a % b) by {
        var q, r := a / b, a % b;
        assert g * a == q * (g * b) + g * r by {
          assert a == q * b + r;
          assert g * (q * b + r) == g * (q * b) + g * r;
          assert g * (q * b) == q * (g * b);
        }
        assert 0 <= g * r < g * b;
        DivModUnique(g * a, g * b, q, g * r);
      }
      GcdScale(g, b, a % b);
    }
  }

  lemma DivModUnique(a: int, b: int, q: int, r: int)
    requires b > 0 && 0 <= r < b && a == q * b + r
    ensures a % b == r
  {
    var q', r' := a / b, a % b;
    assert a == q' * b + r';
    Distribute(q' - q, q, b);
    SmallMultiple(q' - q, b, r - r');
  }

  lemma SmallMultiple(m: int, b: int, r: int)
    requires b > 0 && -b < r < b && m * b == r
    ensures r == 0
  {
    if m > 0 {
      MulMono(1, m, b, b);
    } else if m < 0 {
      NegProduct(b, m);
      MulMono(1, -m, b, b);
    }
  }

  /** Any rational root of a reduced fraction has square parts in lowest terms. */
  lemma RootMeansSquares(f: Fraction, p: nat, q: nat) returns (a: nat, b: nat)
    requires f.Reduced() && f.num >= 0 && IsRoot(f, p, q)
    ensures b > 0 && f.num == a * a && f.den == b * b && Gcd(a, b) == 1
  {
    var g := Gcd(p, q);
    GcdPositive(p, q);
    a, b := GcdDivides(p, q);
    GcdScale(g, a, b);
    assert g * Gcd(a, b) == g * 1;
    CancelFactor(g, Gcd(a, b), 1);
    assert b > 0;
    CancelSquare(g, a, b, f.num, f.den);
    CoprimeSquares(f.num, f.den, a, b);
  }

  lemma CancelFactor(g: nat, a: nat, b: nat)
    requires g > 0 && g * a == g * b
    ensures a == b
  {
    assert g * (a - b) == 0;
  }

  // ----- the evaluator's square root -----

  /** `math.isqrt`. */
  function Isqrt(n: nat): (r: nat)
    ensures r * r <= n < (r + 1) * (r + 1)
  {
    if n == 0 then 0 else
      var r := Isqrt(n - 1);
      if (r + 1) * (r + 1) <= n then
        assert (r + 1) * (r + 1) == n;
        r + 1
      else r
  }

  lemma IsqrtOfSquare(a: nat)
    ensures Isqrt(a * a) == a
  {
    hide Isqrt;
    FloorOfSquare(Isqrt(a * a), a);
  }

  lemma FloorOfSquare(r: nat, a: nat)
    requires r * r <= a * a < (r + 1) * (r + 1)
    ensures r == a
  {
    if r < a { MulMono(r + 1, a, r + 1, a); }
    if r > a { MulMono(a + 1, r, a + 1, r); }
  }

  datatype Value = Exact(f: Fraction) | Float | Error

  /** The normalizing constructor `Fraction(n, d)`. */
  function Make(n: int, d: nat): (f: Fraction)
    requires d > 0
  {
    var g := Gcd(Abs(n), d);
    GcdPositive(Abs(n), d);
    Fraction(if n < 0 then -(Abs(n) / g) else Abs(n) / g, d / g)
  }

  function SquareRoot(f: Fraction): Value
    requires f.Reduced()
  {
    if f.num < 0 then Error else
      var a, b := Isqrt(f.num), Isqrt(f.den);
      if a * a == f.num && b * b == f.den then
        (if b == 0 then assert false; Error else Exact(Make(a, b)))
      else Float
  }

  /** The exact branch is taken exactly when a rational square root exists, and it returns the
      non-negative one in lowest terms. */
  lemma SquareRootIsExactAndComplete(f: Fraction)
    requires f.Reduced() && f.num >= 0
    ensures SquareRoot(f).Exact? <==> exists p: nat, q: nat :: IsRoot(f, p, q)
    ensures SquareRoot(f).Exact? ==>
      var r := SquareRoot(f).f;
      r.Reduced() && r.num >= 0 && IsRoot(f, r.num, r.den)
  {
    hide SquareRoot, Isqrt, Gcd, IsRoot;
    if p: nat, q: nat :| IsRoot(f, p, q) {
      RootTakesExact(f, p, q);
    }
    if SquareRoot(f).Exact? {
      var a, b := ExactParts(f);
      ExactIsRoot(f, a, b);
    }
  }

  /** A rational root is found. */
  lemma RootTakesExact(f: Fraction, p: nat, q: nat)
    requires f.Reduced() && f.num >= 0 && IsRoot(f, p, q)
    ensures SquareRoot(f).Exact?
  {
    hide Isqrt, Gcd, IsRoot;
    var a, b := RootMeansSquares(f, p, q);
    IsqrtOfSquare(a);
    IsqrtOfSquare(b);
  }

  /** The exact branch returns the normalized quotient of two integer roots. */
  lemma ExactParts(f: Fraction) returns (a: nat, b: nat)
    requires f.Reduced() && SquareRoot(f).Exact?
    ensures b > 0 && a * a == f.num && b * b == f.den && SquareRoot(f).f == Make(a, b)
  {
    hide Isqrt, Gcd, Make;
    a, b := Isqrt(f.num), Isqrt(f.den);
  }

  /** ... which is in lowest terms already. */
  lemma ExactIsRoot(f: Fraction, a: nat, b: nat)
    requires f.Reduced() && b > 0 && a * a == f.num && b * b == f.den
    ensures IsRoot(f, a, b) && Make(a, b) == Fraction(a, b) && Gcd(a, b) == 1
  {
    assert IsRoot(f, a, b);
    hide Gcd, Make, IsRoot;
    var c, d := RootMeansSquares(f, a, b);
    EqualSquares(a, c);
    EqualSquares(b, d);
    MakeReduced(a, b);
  }

  lemma EqualSquares(a: nat, b: nat)
    requires a * a == b * b
    ensures a == b
  {
    if a < b { MulMono(a + 1, b, a + 1, b); }
    if b < a { MulMono(b + 1, a, b + 1, a); }
  }

  lemma MakeReduced(a: nat, b: nat)
    requires b > 0 && Gcd(a, b) == 1
    ensures Make(a, b) == Fraction(a, b)
  {}
}
