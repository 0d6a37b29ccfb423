/** Evaluating constant arithmetic exactly over fractions as long as possible, and in floating point
    where not. Models utils/answer_verifier.py. */
module ExactEvaluation {
  import opened Basics
  import opened RationalRoot

  type Positive = n: nat | n > 0 witness 1

  datatype Op = Add | Sub | Mul | Div | Pow

  /** The accepted syntax; `Lit` is an integer or decimal literal. */
  datatype Expr =
    | Lit(num: int, den: Positive)
    | Pi
    | Plus(operand: Expr)
    | Minus(operand: Expr)
    | Bin(op: Op, left: Expr, right: Expr)
    | Sqrt(operand: Expr)

  /** Floating point, with floats as reals: its constant pi, square root and power, and which
      numbers `float` converts without an overflow. */
  datatype FloatOps = FloatOps(pi: real, root: real -> real, power: (real, int) -> real, fits: real -> bool)

  datatype Number = Rational(f: Fraction) | Approx(x: real)

  // ----- fraction arithmetic -----

  function Val(f: Fraction): real
    requires f.den != 0
  {
    f.num as real / f.den as real
  }

  function Product(a: nat, b: nat): (r: nat)
    requires a > 0 && b > 0
    ensures r > 0 && r == a * b
  {
    a * b
  }

  lemma Quotient(n: real, d: real, x: real)
    requires d != 0.0 && x * d == n
    ensures x == n / d
  {}

  lemma ValTimesDen(f: Fraction)
    requires f.den != 0
    ensures Val(f) * (f.den as real) == f.num as real
  {}

  lemma ScaledQuotient(g: int, j: int, k: int)
    requires g != 0 && k != 0
    ensures g * k != 0 && j as real / k as real == (g * j) as real / (g * k) as real
  {
    var x := j as real / k as real;
    var rg, rk := g as real, k as real;
    assert x * rk == j as real;
    assert x * (rg * rk) == rg * (x * rk);
    Quotient((g * j) as real, (g * k) as real, x);
  }

  /** `Fraction(n, d)` is n/d in lowest terms. */
  lemma MakeIs(n: int, d: nat)
    requires d > 0
    ensures Make(n, d).Reduced() && Val(Make(n, d)) == n as real / d as real
  {
    var g := Gcd(Abs(n), d);
    GcdPositive(Abs(n), d);
    var j, k := GcdDivides(Abs(n), d);
    GcdScale(g, j, k);
    CancelFactor(g, Gcd(j, k), 1);
    ExactQuotient(g, j);
    ExactQuotient(g, k);
    if n < 0 {
      NegProduct(g, j);
      var m: int := j;
      ScaledQuotient(g, -m, k);
    } else {
      ScaledQuotient(g, j, k);
    }
  }

  lemma ExactQuotient(g: nat, j: nat)
    requires g > 0
    ensures (g * j) / g == j
  {
    var q, r := (g * j) / g, (g * j) % g;
    assert g * j == q * g + r;
    Distribute(j, -q, g);
    assert (j - q) * g == r;
    SmallMultiple(j - q, g, r);
    CancelFactor(g, j, q);
  }

  function AddF(a: Fraction, b: Fraction): Fraction
    requires a.Reduced() && b.Reduced()
  {
    Make(a.num * b.den + b.num * a.den, Product(a.den, b.den))
  }

  function MulF(a: Fraction, b: Fraction): Fraction
    requires a.Reduced() && b.Reduced()
  {
    Make(a.num * b.num, Product(a.den, b.den))
  }

  function NegF(a: Fraction): Fraction { Fraction(-a.num, a.den) }

  function InvF(a: Fraction): Fraction
    requires a.Reduced() && a.num != 0
  {
    if a.num > 0 then Fraction(a.den, a.num) else Fraction(-a.den, -a.num)
  }

  lemma Cast(a: int, b: int)
    ensures (a * b) as real == a as real * b as real
  {}

  lemma CrossSum(x: real, y: real, n: real, p: real, m: real, q: real)
    requires x * p == n && y * q == m
    ensures (x + y) * (p * q) == n * q + m * p
  {
    assert x * (p * q) == (x * p) * q;
    assert y * (p * q) == (y * q) * p;
  }

  lemma CrossProduct(x: real, y: real, n: real, p: real, m: real, q: real)
    requires x * p == n && y * q == m
    ensures (x * y) * (p * q) == n * m
  {
    assert (x * y) * (p * q) == (x * p) * (y * q);
  }

  lemma CrossInverse(x: real, y: real, n: real, d: real)
    requires x * d == n && y * n == d && n != 0.0 && d != 0.0
    ensures x != 0.0 && y == 1.0 / x
  {
    assert (y * x) * d == y * (x * d);
    CancelReal(y * x, 1.0, d);
    Quotient(1.0, x, y);
  }

  lemma CancelReal(a: real, b: real, d: real)
    requires a * d == b * d && d != 0.0
    ensures a == b
  {
    assert (a - b) * d == 0.0;
  }

  lemma SumQuotient(n: int, d: int, m: int, e: int, x: real, y: real)
    requires d > 0 && e > 0 && x * (d as real) == n as real && y * (e as real) == m as real
    ensures d * e > 0 && x + y == (n * e + m * d) as real / (d * e) as real
  {
    CrossSum(x, y, n as real, d as real, m as real, e as real);
    Cast(n, e);
    Cast(m, d);
    Cast(d, e);
    Quotient((n * e + m * d) as real, (d * e) as real, x + y);
  }

  lemma ProductQuotient(n: int, d: int, m: int, e: int, x: real, y: real)
    requires d > 0 && e > 0 && x * (d as real) == n as real && y * (e as real) == m as real
    ensures d * e > 0 && x * y == (n * m) as real / (d * e) as real
  {
    CrossProduct(x, y, n as real, d as real, m as real, e as real);
    Cast(n, m);
    Cast(d, e);
    Quotient((n * m) as real, (d * e) as real, x * y);
  }

  lemma AddIs(a: Fraction, b: Fraction)
    requires a.Reduced() && b.Reduced()
    ensures AddF(a, b).Reduced() && Val(AddF(a, b)) == Val(a) + Val(b)
  {
    hide Make, Gcd, Val;
    MakeIs(a.num * b.den + b.num * a.den, Product(a.den, b.den));
    ValTimesDen(a);
    ValTimesDen(b);
    SumQuotient(a.num, a.den, b.num, b.den, Val(a), Val(b));
  }

  lemma MulIs(a: Fraction, b: Fraction)
    requires a.Reduced() && b.Reduced()
    ensures MulF(a, b).Reduced() && Val(MulF(a, b)) == Val(a) * Val(b)
  {
    hide Make, Gcd, Val;
    MakeIs(a.num * b.num, Product(a.den, b.den));
    ValTimesDen(a);
    ValTimesDen(b);
    ProductQuotient(a.num, a.den, b.num, b.den, Val(a), Val(b));
  }

  lemma NegReduced(a: Fraction)
    requires a.Reduced()
    ensures NegF(a).Reduced()
  {}

  lemma NegVal(a: Fraction)
    requires a.Reduced()
    ensures NegF(a).den > 0 && Val(NegF(a)) == -Val(a)
  {}

  lemma {:induction false} GcdSwap(a: nat, b: nat)
    requires a > 0 && b > 0 && Gcd(a, b) == 1
    ensures Gcd(b, a) == 1
  {
    var x, y := Bezout(a, b);
    var j, k := GcdDivides(b, a);
    var g := Gcd(b, a);
    assert x * (k * g) + y * (j * g) == 1;
    UnitDivisor(g, k, j, x, y);
  }

  lemma InvIs(a: Fraction)
    requires a.Reduced() && a.num != 0
    ensures InvF(a).Reduced() && Val(a) != 0.0 && Val(InvF(a)) == 1.0 / Val(a)
  {
    InvReduced(a);
    InvCross(a);
    ValTimesDen(a);
    hide Val, InvF, Gcd;
    CrossInverse(Val(a), Val(InvF(a)), a.num as real, a.den as real);
  }

  lemma InvReduced(a: Fraction)
    requires a.Reduced() && a.num != 0
    ensures InvF(a).Reduced()
  {
    GcdSwap(Abs(a.num), a.den);
  }

  lemma InvCross(a: Fraction)
    requires a.Reduced() && a.num != 0 && InvF(a).den > 0
    ensures Val(InvF(a)) * (a.num as real) == a.den as real
  {
    hide Val, Gcd;
    ValTimesDen(InvF(a));
    if a.num < 0 {
      NegReal(Val(InvF(a)), a.num as real);
    }
  }

  lemma NegReal(y: real, n: real)
    ensures y * -n == -(y * n)
  {}

  function PowF(a: Fraction, k: nat): (r: Fraction)
    requires a.Reduced()
    ensures r.Reduced()
  {
    if k == 0 then assert Gcd(1, 1) == 1; Fraction(1, 1) else
      AsReduced(MulF(PowF(a, k - 1), a), PowF(a, k - 1), a)
  }

  function AsReduced(m: Fraction, a: Fraction, b: Fraction): (r: Fraction)
    requires a.Reduced() && b.Reduced() && m == MulF(a, b)
    ensures r == m && r.Reduced()
  {
    MulIs(a, b);
    m
  }

  // ----- the evaluator -----

  ghost predicate Normal(n: Number) { n.Rational? ==> n.f.Reduced() }

  function AsReal(n: Number): real
    requires Normal(n)
  {
    match n case Rational(f) => Val(f) case Approx(x) => x
  }

  function ExactOp(op: Op, a: Fraction, b: Fraction): (r: Result<Number>)
    requires a.Reduced() && b.Reduced() && op != Pow
    ensures r.Ok? ==> Normal(r.value)
  {
    match op
    case Add => AddIs(a, b); Ok(Rational(AddF(a, b)))
    case Sub => NegReduced(b); AddIs(a, NegF(b)); Ok(Rational(AddF(a, NegF(b))))
    case Mul => MulIs(a, b); Ok(Rational(MulF(a, b)))
    case Div =>
      if b.num == 0 then Err("division by zero")
      else InvIs(b); MulIs(a, InvF(b)); Ok(Rational(MulF(a, InvF(b))))
  }

  function FloatOp(op: Op, a: real, b: real): Result<Number>
    requires op != Pow
  {
    match op
    case Add => Ok(Approx(a + b))
    case Sub => Ok(Approx(a - b))
    case Mul => Ok(Approx(a * b))
    case Div => if b == 0.0 then Err("division by zero") else Ok(Approx(a / b))
  }

  /** Only integer exponents up to a thousand either way. */
  function Raise(a: Number, b: Number, fl: FloatOps): (r: Result<Number>)
    requires Normal(a) && Normal(b)
    ensures r.Ok? ==> Normal(r.value)
  {
    if !b.Rational? || b.f.den != 1 then Err("non-integer power")
    else
      var k := b.f.num;
      if Abs(k) > 1000 then Err("exponent too large")
      else match a
        case Rational(f) =>
          if k >= 0 then Ok(Rational(PowF(f, k)))
          else if f.num == 0 then Err("zero to a negative power")
          else InvIs(f); Ok(Rational(PowF(InvF(f), -k)))
        case Approx(x) =>
          if x == 0.0 && k < 0 then Err("zero to a negative power") else Ok(Approx(fl.power(x, k)))
  }

  function Combine(op: Op, a: Number, b: Number, fl: FloatOps): (r: Result<Number>)
    requires Normal(a) && Normal(b)
    ensures r.Ok? ==> Normal(r.value)
  {
    if op == Pow then Raise(a, b, fl)
    else if a.Rational? && b.Rational? then ExactOp(op, a.f, b.f)
    else if op == Div && AsReal(b) == 0.0 then Err("division by zero")
    else if (a.Rational? && !fl.fits(AsReal(a))) || (b.Rational? && !fl.fits(AsReal(b))) then Err("overflow")
    else FloatOp(op, AsReal(a), AsReal(b))
  }

  function Root(a: Number, fl: FloatOps): (r: Result<Number>)
    requires Normal(a)
    ensures r.Ok? ==> Normal(r.value)
  {
    if AsReal(a) < 0.0 then Err("negative square root")
    else match a
      case Approx(x) => Ok(Approx(fl.root(x)))
      case Rational(f) =>
        NonNegative(f);
        SquareRootIsExactAndComplete(f);
        if SquareRoot(f).Exact? then Ok(Rational(SquareRoot(f).f))
        else if !fl.fits(Val(f)) then Err("overflow")
        else Ok(Approx(fl.root(Val(f))))
  }

  lemma NonNegative(f: Fraction)
    requires f.Reduced()
    ensures Val(f) >= 0.0 <==> f.num >= 0
  {
    ValTimesDen(f);
  }

  /** `_evaluate_constant_node` */
  function Evaluate(e: Expr, fl: FloatOps): (r: Result<Number>)
    ensures r.Ok? ==> Normal(r.value)
  {
    match e
    case Lit(n, d) => MakeIs(n, d); Ok(Rational(Make(n, d)))
    case Pi => Ok(Approx(fl.pi))
    case Plus(a) => Evaluate(a, fl)
    case Minus(a) =>
      var x := Evaluate(a, fl);
      if x.Err? then x
      else if x.value.Rational? then NegReduced(x.value.f); Ok(Rational(NegF(x.value.f)))
      else Ok(Approx(-x.value.x))
    case Bin(op, a, b) =>
      var x := Evaluate(a, fl);
      if x.Err? then x else
        var y := Evaluate(b, fl);
        if y.Err? then y else Combine(op, x.value, y.value, fl)
    case Sqrt(a) =>
      var x := Evaluate(a, fl);
      if x.Err? then x else Root(x.value, fl)
  }

  // ----- what an expression means -----

  ghost function RealPow(x: real, k: nat): real { if k == 0 then 1.0 else RealPow(x, k - 1) * x }

  ghost predicate PowMeans(a: real, k: int, x: real) {
    if k >= 0 then x == RealPow(a, k) else a != 0.0 && x * RealPow(a, -k) == 1.0
  }

  /** What the four operations mean for reals. */
  ghost predicate OpMeans(op: Op, a: real, b: real, x: real)
    requires op != Pow
  {
    match op
    case Add => x == a + b
    case Sub => x == a - b
    case Mul => x == a * b
    case Div => b != 0.0 && x * b == a
  }

  /** The real number x is the value of e, where `pi` is the circle constant. Nothing is the value
      of a quotient by zero or of the root of a negative number. */
  ghost predicate Means(e: Expr, pi: real, x: real) {
    match e
    case Lit(n, d) => x * (d as real) == n as real
    case Pi => x == pi
    case Plus(a) => Means(a, pi, x)
    case Minus(a) => Means(a, pi, -x)
    case Bin(op, l, r) =>
      if op == Pow then exists a: real, k: int :: Means(l, pi, a) && Means(r, pi, k as real) && PowMeans(a, k, x)
      else exists a: real, b: real :: Means(l, pi, a) && Means(r, pi, b) && OpMeans(op, a, b, x)
    case Sqrt(a) => x >= 0.0 && Means(a, pi, x * x)
  }

  /** e has the value v and no other. */
  ghost predicate IsValue(e: Expr, pi: real, v: real) { forall x: real :: Means(e, pi, x) <==> x == v }

  lemma LitValue(n: int, d: Positive, pi: real)
    ensures IsValue(Lit(n, d), pi, n as real / d as real)
  {
    var q := d as real;
    forall x: real ensures Means(Lit(n, d), pi, x) <==> x == n as real / q {
      if x * q == n as real {
        Quotient(n as real, q, x);
      }
    }
  }

  lemma PlusValue(a: Expr, pi: real, v: real)
    requires IsValue(a, pi, v)
    ensures IsValue(Plus(a), pi, v)
  {}

  lemma MinusValue(a: Expr, pi: real, v: real)
    requires IsValue(a, pi, v)
    ensures IsValue(Minus(a), pi, -v)
  {
    forall x: real ensures Means(Minus(a), pi, x) <==> x == -v {
      assert Means(a, pi, -x) <==> -x == v;
    }
  }

  ghost function OpValue(op: Op, a: real, b: real): real
    requires op != Pow && (op == Div ==> b != 0.0)
  {
    match op case Add => a + b case Sub => a - b case Mul => a * b case Div => a / b
  }

  lemma OpUnique(op: Op, a: real, b: real, x: real)
    requires op != Pow && (op == Div ==> b != 0.0)
    ensures OpMeans(op, a, b, x) <==> x == OpValue(op, a, b)
  {
    if op == Div && x * b == a {
      Quotient(a, b, x);
    }
  }

  lemma BinValue(op: Op, l: Expr, r: Expr, pi: real, a: real, b: real)
    requires IsValue(l, pi, a) && IsValue(r, pi, b) && op != Pow && (op == Div ==> b != 0.0)
    ensures IsValue(Bin(op, l, r), pi, OpValue(op, a, b))
  {
    hide OpMeans, OpValue;
    forall x: real ensures Means(Bin(op, l, r), pi, x) <==> x == OpValue(op, a, b) {
      OpUnique(op, a, b, x);
      assert Means(l, pi, a) && Means(r, pi, b);
    }
  }

  lemma PowUnique(a: real, k: int, x: real, y: real)
    requires PowMeans(a, k, x) && PowMeans(a, k, y)
    ensures x == y
  {
    if k < 0 {
      var p := RealPow(a, -k);
      UnitFactor(x, p);
      CancelReal(x, y, p);
    }
  }

  lemma UnitFactor(x: real, p: real)
    requires x * p == 1.0
    ensures p != 0.0
  {}

  lemma PowValue(l: Expr, r: Expr, pi: real, a: real, k: int, y: real)
    requires IsValue(l, pi, a) && IsValue(r, pi, k as real) && PowMeans(a, k, y)
    ensures IsValue(Bin(Pow, l, r), pi, y)
  {
    hide PowMeans;
    forall x: real ensures Means(Bin(Pow, l, r), pi, x) <==> x == y {
      assert Means(l, pi, a) && Means(r, pi, k as real);
      if Means(Bin(Pow, l, r), pi, x) {
        var b: real, j: int :| Means(l, pi, b) && Means(r, pi, j as real) && PowMeans(b, j, x);
        assert b == a && j as real == k as real;
        PowUnique(a, k, x, y);
      }
    }
  }

  lemma {:induction false} PowFIs(a: Fraction, k: nat)
    requires a.Reduced()
    ensures Val(PowF(a, k)) == RealPow(Val(a), k)
  {
    hide MulF;
    if k > 0 {
      PowFIs(a, k - 1);
      MulIs(PowF(a, k - 1), a);
    }
  }

  lemma {:induction false} InversePow(w: real, v: real, k: nat)
    requires w * v == 1.0
    ensures RealPow(w, k) * RealPow(v, k) == 1.0
  {
    if k > 0 {
      InversePow(w, v, k - 1);
      Regroup(RealPow(w, k - 1), w, RealPow(v, k - 1), v);
    }
  }

  lemma Regroup(p: real, w: real, q: real, v: real)
    requires p * q == 1.0 && w * v == 1.0
    ensures (p * w) * (q * v) == 1.0
  {
    assert (p * w) * (q * v) == (p * q) * (w * v);
  }

  lemma NegativePow(f: Fraction, k: nat)
    requires f.Reduced() && f.num != 0
    ensures Val(f) != 0.0 && InvF(f).Reduced() && Val(PowF(InvF(f), k)) * RealPow(Val(f), k) == 1.0
  {
    hide Val, PowF, InvF;
    InvIs(f);
    PowFIs(InvF(f), k);
    InverseTimes(Val(f), Val(InvF(f)));
    InversePow(Val(InvF(f)), Val(f), k);
  }

  /** An exact power is the power. */
  lemma RaiseIs(f: Fraction, k: int, b: Number, fl: FloatOps)
    requires f.Reduced() && b == Rational(Fraction(k, 1)) && Normal(b)
    requires Raise(Rational(f), b, fl).Ok?
    ensures Raise(Rational(f), b, fl).value.Rational?
    ensures PowMeans(Val(f), k, Val(Raise(Rational(f), b, fl).value.f))
  {
    hide Val, PowF, InvF, Gcd;
    if k >= 0 {
      PowFIs(f, k);
    } else {
      InvIs(f);
      NegativePow(f, -k);
    }
  }

  lemma InverseTimes(v: real, w: real)
    requires v != 0.0 && w == 1.0 / v
    ensures w * v == 1.0
  {}

  lemma RootUnique(x: real, y: real)
    requires x >= 0.0 && y >= 0.0 && x * x == y * y
    ensures x == y
  {
    assert (x - y) * (x + y) == 0.0;
    if x != y {
      CancelReal(x + y, 0.0, x - y);
    }
  }

  lemma SqrtValue(a: Expr, pi: real, v: real, y: real)
    requires IsValue(a, pi, v) && y >= 0.0 && y * y == v
    ensures IsValue(Sqrt(a), pi, y)
  {
    forall x: real ensures Means(Sqrt(a), pi, x) <==> x == y {
      assert Means(a, pi, x * x) <==> x * x == v;
      if x >= 0.0 && x * x == v {
        RootUnique(x, y);
      }
    }
  }

  /** A rational root in the integers is a root in the reals, and the other way round. */
  lemma RootInReals(f: Fraction, p: int, q: int, y: real)
    requires f.Reduced() && q > 0 && y * (q as real) == p as real
    ensures IsRoot(f, p, q) <==> y * y == Val(f)
  {
    ValTimesDen(f);
    Cast(p, p);
    Cast(q, q);
    Cast(p * p, f.den);
    Cast(q * q, f.num);
    SquareCross(y, q as real, p as real, Val(f), f.den as real, f.num as real);
  }

  function Times(a: real, b: real): (r: real)
    requires a > 0.0 && b > 0.0
    ensures r > 0.0 && r == a * b
  {
    a * b
  }

  lemma SquareCross(y: real, q: real, p: real, v: real, d: real, n: real)
    requires y * q == p && v * d == n && q > 0.0 && d > 0.0
    ensures p * p * d == q * q * n <==> y * y == v
  {
    var qq := Times(q, q);
    var s := Times(qq, d);
    assert p * p * d == (y * y) * s;
    assert qq * n == v * s;
    if (y * y) * s == v * s {
      CancelReal(y * y, v, s);
    }
  }

  lemma RootIs(f: Fraction)
    requires f.Reduced() && f.num >= 0 && SquareRoot(f).Exact?
    ensures var r := SquareRoot(f).f; r.Reduced() && Val(r) >= 0.0 && Val(r) * Val(r) == Val(f)
  {
    hide SquareRoot;
    SquareRootIsExactAndComplete(f);
    var r := SquareRoot(f).f;
    NonNegative(r);
    ValTimesDen(r);
    RootInReals(f, r.num, r.den, Val(r));
  }

  // ----- exact results are the values -----

  ghost predicate ExactHere(e: Expr, fl: FloatOps) { Evaluate(e, fl).Ok? && Evaluate(e, fl).value.Rational? }

  ghost function ExactVal(e: Expr, fl: FloatOps): real
    requires ExactHere(e, fl)
  {
    Val(Evaluate(e, fl).value.f)
  }

  lemma ExactOpIs(op: Op, a: Fraction, b: Fraction)
    requires a.Reduced() && b.Reduced() && op != Pow && ExactOp(op, a, b).Ok?
    ensures op == Div ==> Val(b) != 0.0
    ensures ExactOp(op, a, b).value.Rational?
    ensures Val(ExactOp(op, a, b).value.f) == OpValue(op, Val(a), Val(b))
  {
    hide AddF, MulF, NegF, InvF, Val, Gcd;
    match op
    case Add => AddIs(a, b);
    case Sub => NegReduced(b); NegVal(b); AddIs(a, NegF(b));
    case Mul => MulIs(a, b);
    case Div => InvIs(b); MulIs(a, InvF(b)); TimesInverse(Val(a), Val(b));
  }

  lemma ExactBin(op: Op, l: Expr, r: Expr, fl: FloatOps, pi: real)
    requires ExactHere(Bin(op, l, r), fl) && ExactHere(l, fl) && ExactHere(r, fl)
    requires IsValue(l, pi, ExactVal(l, fl)) && IsValue(r, pi, ExactVal(r, fl))
    ensures IsValue(Bin(op, l, r), pi, ExactVal(Bin(op, l, r), fl))
  {
    hide IsValue, ExactOp, Raise, Val, PowMeans, OpValue;
    var a, b := Evaluate(l, fl).value.f, Evaluate(r, fl).value.f;
    assert Evaluate(Bin(op, l, r), fl) == Combine(op, Rational(a), Rational(b), fl);
    if op == Pow {
      WholeExponent(a, b, fl);
      RaiseIs(a, b.num, Rational(b), fl);
      WholeVal(b);
      PowValue(l, r, pi, Val(a), b.num, ExactVal(Bin(op, l, r), fl));
    } else {
      ExactOpIs(op, a, b);
      BinValue(op, l, r, pi, Val(a), Val(b));
    }
  }

  lemma WholeExponent(a: Fraction, b: Fraction, fl: FloatOps)
    requires a.Reduced() && b.Reduced() && Raise(Rational(a), Rational(b), fl).Ok?
    ensures b.den == 1
  {}

  lemma WholeVal(b: Fraction)
    requires b.den == 1
    ensures Val(b) == b.num as real
  {}

  lemma TimesInverse(a: real, b: real)
    requires b != 0.0
    ensures a * (1.0 / b) == a / b
  {}

  /** Only exact parts give an exact result. */
  lemma PartsExact(e: Expr, fl: FloatOps)
    requires ExactHere(e, fl)
    ensures !e.Pi?
    ensures e.Bin? ==> ExactHere(e.left, fl) && ExactHere(e.right, fl)
    ensures e.Plus? || e.Minus? || e.Sqrt? ==> ExactHere(e.operand, fl)
  {}

  /** An exact result is in lowest terms and is the one real number the expression means. */
  lemma {:induction false} ExactIsMeaning(e: Expr, fl: FloatOps, pi: real)
    requires ExactHere(e, fl)
    ensures Evaluate(e, fl).value.f.Reduced() && IsValue(e, pi, ExactVal(e, fl))
    decreases e
  {
    hide IsValue, Val, SquareRoot, Gcd;
    PartsExact(e, fl);
    match e
    case Lit(n, d) =>
      MakeIs(n, d);
      LitValue(n, d, pi);
    case Plus(a) =>
      ExactIsMeaning(a, fl, pi);
      PlusValue(a, pi, ExactVal(a, fl));
    case Minus(a) =>
      ExactIsMeaning(a, fl, pi);
      NegReduced(Evaluate(a, fl).value.f);
      NegVal(Evaluate(a, fl).value.f);
      MinusValue(a, pi, ExactVal(a, fl));
    case Bin(op, l, r) =>
      ExactIsMeaning(l, fl, pi);
      ExactIsMeaning(r, fl, pi);
      ExactBin(op, l, r, fl, pi);
    case Sqrt(a) =>
      ExactIsMeaning(a, fl, pi);
      var f := Evaluate(a, fl).value.f;
      NonNegative(f);
      RootIs(f);
      SqrtValue(a, pi, Val(f), ExactVal(e, fl));
  }

  // ----- approximate results mean the value as well -----

  /** Floating point that computes its constant pi, roots and powers without an error. */
  ghost predicate Faithful(fl: FloatOps, pi: real) {
    && fl.pi == pi
    && (forall x: real :: x >= 0.0 ==> fl.root(x) >= 0.0 && fl.root(x) * fl.root(x) == x)
    && forall x: real, k: int :: k >= 0 || x != 0.0 ==> PowMeans(x, k, fl.power(x, k))
  }

  /** Whatever an evaluation returns, exact or approximate, is the one real number the expression
      means, up to the errors of floating point itself. */
  lemma {:induction false} ResultIsMeaning(e: Expr, fl: FloatOps, pi: real)
    requires Faithful(fl, pi) && Evaluate(e, fl).Ok?
    ensures IsValue(e, pi, AsReal(Evaluate(e, fl).value))
    decreases e
  {
    hide IsValue, Val, SquareRoot, Gcd, Faithful, Combine, Root, ExactOp, Raise, FloatOp;
    match e
    case Lit(n, d) =>
      MakeIs(n, d);
      LitValue(n, d, pi);
    case Pi => PiValue(fl, pi);
    case Plus(a) =>
      ResultIsMeaning(a, fl, pi);
      PlusValue(a, pi, AsReal(Evaluate(a, fl).value));
    case Minus(a) =>
      ResultIsMeaning(a, fl, pi);
      var x := Evaluate(a, fl).value;
      if x.Rational? { NegReduced(x.f); NegVal(x.f); }
      MinusValue(a, pi, AsReal(x));
    case Bin(op, l, r) =>
      ResultIsMeaning(l, fl, pi);
      ResultIsMeaning(r, fl, pi);
      ResultBin(op, l, r, fl, pi);
    case Sqrt(a) =>
      ResultIsMeaning(a, fl, pi);
      ResultRoot(a, fl, pi);
  }

  lemma PiValue(fl: FloatOps, pi: real)
    requires Faithful(fl, pi)
    ensures IsValue(Pi, pi, fl.pi)
  {}

  lemma ResultBin(op: Op, l: Expr, r: Expr, fl: FloatOps, pi: real)
    requires Faithful(fl, pi) && Evaluate(Bin(op, l, r), fl).Ok?
    requires Evaluate(l, fl).Ok? && IsValue(l, pi, AsReal(Evaluate(l, fl).value))
    requires Evaluate(r, fl).Ok? && IsValue(r, pi, AsReal(Evaluate(r, fl).value))
    ensures IsValue(Bin(op, l, r), pi, AsReal(Evaluate(Bin(op, l, r), fl).value))
  {
    hide IsValue, Val, Gcd, PowMeans, OpValue, ExactOp, Raise;
    var a, b := Evaluate(l, fl).value, Evaluate(r, fl).value;
    var v := Evaluate(Bin(op, l, r), fl).value;
    assert Evaluate(Bin(op, l, r), fl) == Combine(op, a, b, fl) == Ok(v);
    if op == Pow {
      hide Evaluate;
      RaiseMeans(a, b, fl, pi);
      PowValue(l, r, pi, AsReal(a), b.f.num, AsReal(v));
    } else {
      hide Evaluate;
      CombineMeans(op, a, b, fl);
      BinValue(op, l, r, pi, AsReal(a), AsReal(b));
    }
  }

  lemma RaiseMeans(a: Number, b: Number, fl: FloatOps, pi: real)
    requires Faithful(fl, pi) && Normal(a) && Normal(b) && Raise(a, b, fl).Ok?
    ensures b.Rational? && AsReal(b) == b.f.num as real
    ensures PowMeans(AsReal(a), b.f.num, AsReal(Raise(a, b, fl).value))
  {
    hide Val, Gcd, PowMeans, PowF, InvF;
    WholeVal(b.f);
    if a.Rational? {
      RaiseIs(a.f, b.f.num, b, fl);
    }
  }

  lemma CombineMeans(op: Op, a: Number, b: Number, fl: FloatOps)
    requires op != Pow && Normal(a) && Normal(b) && Combine(op, a, b, fl).Ok?
    ensures op == Div ==> AsReal(b) != 0.0
    ensures AsReal(Combine(op, a, b, fl).value) == OpValue(op, AsReal(a), AsReal(b))
  {
    hide Val, Gcd, ExactOp;
    if a.Rational? && b.Rational? {
      ExactOpIs(op, a.f, b.f);
    }
  }

  lemma ResultRoot(a: Expr, fl: FloatOps, pi: real)
    requires Faithful(fl, pi) && Evaluate(Sqrt(a), fl).Ok?
    requires Evaluate(a, fl).Ok? && IsValue(a, pi, AsReal(Evaluate(a, fl).value))
    ensures IsValue(Sqrt(a), pi, AsReal(Evaluate(Sqrt(a), fl).value))
  {
    hide IsValue, Val, Gcd, SquareRoot, Evaluate, Root, Faithful;
    EvaluateSqrt(a, fl);
    var x := Evaluate(a, fl).value;
    RootMeans(x, fl, pi);
    SqrtValue(a, pi, AsReal(x), AsReal(Root(x, fl).value));
  }

  lemma EvaluateSqrt(a: Expr, fl: FloatOps)
    ensures Evaluate(Sqrt(a), fl) == if Evaluate(a, fl).Ok? then Root(Evaluate(a, fl).value, fl) else Evaluate(a, fl)
  {
    hide Root;
  }

  lemma RootMeans(x: Number, fl: FloatOps, pi: real)
    requires Faithful(fl, pi) && Normal(x) && Root(x, fl).Ok?
    ensures var y := AsReal(Root(x, fl).value); y >= 0.0 && y * y == AsReal(x)
  {
    hide Val, Gcd, SquareRoot;
    if x.Rational? && SquareRoot(x.f).Exact? {
      NonNegative(x.f);
      RootIs(x.f);
    }
  }

  // ----- when a result is exact -----

  function Ratio(p: int, q: Positive): (r: real)
    ensures r * (q as real) == p as real
  {
    p as real / q as real
  }

  ghost predicate MeansRational(e: Expr, pi: real) {
    exists p: int, q: Positive :: Means(e, pi, Ratio(p, q))
  }

  /** The expression and all its parts mean rational numbers, and none of them is pi. */
  ghost predicate AllRational(e: Expr, pi: real) {
    && MeansRational(e, pi)
    && match e
       case Lit(_, _) => true
       case Pi => false
       case Plus(a) => AllRational(a, pi)
       case Minus(a) => AllRational(a, pi)
       case Bin(_, l, r) => AllRational(l, pi) && AllRational(r, pi)
       case Sqrt(a) => AllRational(a, pi)
  }

  lemma ExactMeansRational(e: Expr, fl: FloatOps, pi: real)
    requires ExactHere(e, fl)
    ensures MeansRational(e, pi)
  {
    hide Means;
    ExactIsMeaning(e, fl, pi);
    var f := Evaluate(e, fl).value.f;
    var q: Positive := f.den;
    assert Means(e, pi, Ratio(f.num, q));
  }

  lemma {:induction false} ExactAllRational(e: Expr, fl: FloatOps, pi: real)
    requires ExactHere(e, fl)
    ensures AllRational(e, pi)
    decreases e
  {
    hide MeansRational, Means;
    PartsExact(e, fl);
    ExactMeansRational(e, fl, pi);
    match e
    case Lit(_, _) =>
    case Plus(a) => ExactAllRational(a, fl, pi);
    case Minus(a) => ExactAllRational(a, fl, pi);
    case Bin(_, l, r) => ExactAllRational(l, fl, pi); ExactAllRational(r, fl, pi);
    case Sqrt(a) => ExactAllRational(a, fl, pi);
  }

  /** A root that is rational in the reals is found. */
  lemma RationalRootIsExact(a: Expr, fl: FloatOps, pi: real)
    requires ExactHere(a, fl) && MeansRational(Sqrt(a), pi)
    ensures ExactHere(Sqrt(a), fl)
  {
    hide Means, Evaluate, Val, Ratio, IsRoot, SquareRoot;
    ExactIsMeaning(a, fl, pi);
    var f := Evaluate(a, fl).value.f;
    var p: int, q: Positive :| Means(Sqrt(a), pi, Ratio(p, q));
    var y := Ratio(p, q);
    SqrtParts(a, pi, y);
    RatioSign(p, q);
    NonNegative(f);
    RootInReals(f, p, q, y);
    RootFound(f, p, q);
    RootExact(a, fl);
  }

  lemma SqrtParts(a: Expr, pi: real, y: real)
    requires Means(Sqrt(a), pi, y)
    ensures y >= 0.0 && y * y >= 0.0 && Means(a, pi, y * y)
  {}

  lemma RatioSign(p: int, q: Positive)
    ensures Ratio(p, q) >= 0.0 ==> p >= 0
  {}

  lemma RootFound(f: Fraction, p: int, q: Positive)
    requires f.Reduced() && f.num >= 0 && p >= 0 && IsRoot(f, p, q)
    ensures SquareRoot(f).Exact?
  {
    hide SquareRoot, IsRoot;
    var n: nat, d: nat := p, q;
    assert IsRoot(f, n, d);
    SquareRootIsExactAndComplete(f);
  }

  lemma RootExact(a: Expr, fl: FloatOps)
    requires ExactHere(a, fl) && Evaluate(a, fl).value.f.num >= 0 && SquareRoot(Evaluate(a, fl).value.f).Exact?
    ensures ExactHere(Sqrt(a), fl)
  {
    hide SquareRoot;
    NonNegative(Evaluate(a, fl).value.f);
  }

  lemma {:induction false} AllRationalExact(e: Expr, fl: FloatOps, pi: real)
    requires Evaluate(e, fl).Ok? && AllRational(e, pi)
    ensures ExactHere(e, fl)
    decreases e
  {
    hide MeansRational, Means;
    match e
    case Lit(_, _) =>
    case Plus(a) => AllRationalExact(a, fl, pi);
    case Minus(a) => AllRationalExact(a, fl, pi);
    case Bin(_, l, r) => AllRationalExact(l, fl, pi); AllRationalExact(r, fl, pi);
    case Sqrt(a) => AllRationalExact(a, fl, pi); RationalRootIsExact(a, fl, pi);
  }

  ghost predicate MeansWhole(e: Expr, pi: real, k: int) { Means(e, pi, k as real) }

  /** Every exponent in e means an integer of at most a thousand either way. */
  ghost predicate PowersWithin(e: Expr, pi: real) {
    match e
    case Lit(_, _) => true
    case Pi => true
    case Plus(a) => PowersWithin(a, pi)
    case Minus(a) => PowersWithin(a, pi)
    case Bin(op, l, r) =>
      && PowersWithin(l, pi) && PowersWithin(r, pi)
      && (op == Pow ==> exists k: int :: -1000 <= k <= 1000 && MeansWhole(r, pi, k))
    case Sqrt(a) => PowersWithin(a, pi)
  }

  /** Exactly the expressions all of whose parts mean rational numbers, without pi and with
      exponents in range, evaluate exactly; no other expression does, and none of these raises. */
  lemma ExactIff(e: Expr, fl: FloatOps, pi: real)
    ensures ExactHere(e, fl) <==> AllRational(e, pi) && PowersWithin(e, pi)
  {
    if ExactHere(e, fl) {
      ExactAllRational(e, fl, pi);
      ExactPowersWithin(e, fl, pi);
    } else if AllRational(e, pi) && PowersWithin(e, pi) {
      AllRationalEvaluates(e, fl, pi);
    }
  }

  /** So an expression all of whose parts mean rational numbers raises exactly when an exponent is out
      of range; and an evaluation that returns is exact exactly for these expressions. */
  lemma ExactIffAllRational(e: Expr, fl: FloatOps, pi: real)
    ensures AllRational(e, pi) ==> (Evaluate(e, fl).Err? <==> !PowersWithin(e, pi))
    ensures Evaluate(e, fl).Ok? ==> (Evaluate(e, fl).value.Rational? <==> AllRational(e, pi))
  {
    hide AllRational, PowersWithin, Evaluate;
    ExactIff(e, fl, pi);
    if Evaluate(e, fl).Ok? && AllRational(e, pi) {
      AllRationalExact(e, fl, pi);
    }
  }

  lemma {:induction false} ExactPowersWithin(e: Expr, fl: FloatOps, pi: real)
    requires ExactHere(e, fl)
    ensures PowersWithin(e, pi)
    decreases e
  {
    hide Means;
    PartsExact(e, fl);
    match e
    case Lit(_, _) =>
    case Plus(a) => ExactPowersWithin(a, fl, pi);
    case Minus(a) => ExactPowersWithin(a, fl, pi);
    case Bin(op, l, r) =>
      ExactPowersWithin(l, fl, pi);
      ExactPowersWithin(r, fl, pi);
      if op == Pow { ExponentWithin(l, r, fl, pi); }
    case Sqrt(a) => ExactPowersWithin(a, fl, pi);
  }

  lemma ExponentWithin(l: Expr, r: Expr, fl: FloatOps, pi: real)
    requires ExactHere(Bin(Pow, l, r), fl) && ExactHere(l, fl) && ExactHere(r, fl)
    ensures exists k: int :: -1000 <= k <= 1000 && MeansWhole(r, pi, k)
  {
    hide Means;
    ExactIsMeaning(r, fl, pi);
    var a, b := Evaluate(l, fl).value, Evaluate(r, fl).value;
    assert Raise(a, b, fl).Ok?;
    WholeVal(b.f);
    assert MeansWhole(r, pi, b.f.num);
  }

  lemma {:induction false} AllRationalEvaluates(e: Expr, fl: FloatOps, pi: real)
    requires AllRational(e, pi) && PowersWithin(e, pi)
    ensures ExactHere(e, fl)
    decreases e
  {
    hide MeansRational, Means, Evaluate;
    match e
    case Lit(_, _) => LitEvaluates(e, fl);
    case Plus(a) => AllRationalEvaluates(a, fl, pi); SignEvaluates(a, fl);
    case Minus(a) => AllRationalEvaluates(a, fl, pi); SignEvaluates(a, fl);
    case Bin(op, l, r) =>
      AllRationalEvaluates(l, fl, pi);
      AllRationalEvaluates(r, fl, pi);
      BinEvaluates(op, l, r, fl, pi);
    case Sqrt(a) => AllRationalEvaluates(a, fl, pi); RationalRootIsExact(a, fl, pi);
  }

  lemma LitEvaluates(e: Expr, fl: FloatOps)
    requires e.Lit?
    ensures ExactHere(e, fl)
  {}

  lemma SignEvaluates(a: Expr, fl: FloatOps)
    requires ExactHere(a, fl)
    ensures ExactHere(Plus(a), fl) && ExactHere(Minus(a), fl)
  {}

  lemma BinEvaluates(op: Op, l: Expr, r: Expr, fl: FloatOps, pi: real)
    requires ExactHere(l, fl) && ExactHere(r, fl) && MeansRational(Bin(op, l, r), pi)
    requires op == Pow ==> exists k: int :: -1000 <= k <= 1000 && MeansWhole(r, pi, k)
    ensures ExactHere(Bin(op, l, r), fl)
  {
    hide Val, Means, PowMeans, OpMeans, Gcd;
    ExactIsMeaning(l, fl, pi);
    ExactIsMeaning(r, fl, pi);
    var a, b := Evaluate(l, fl).value.f, Evaluate(r, fl).value.f;
    var p: int, q: Positive :| Means(Bin(op, l, r), pi, Ratio(p, q));
    if op == Pow {
      var k: int :| -1000 <= k <= 1000 && MeansWhole(r, pi, k);
      WholeIs(b, k);
      PowerBase(l, r, pi, Val(a), k, Ratio(p, q));
      NonZero(a);
      if k < 0 { InvIs(a); }
      assert Raise(Rational(a), Rational(b), fl).Ok?;
    } else {
      if op == Div { DivisorNonZero(l, r, pi, Val(b), Ratio(p, q)); }
      NonZero(b);
      assert ExactOp(op, a, b).Ok? && ExactOp(op, a, b).value.Rational?;
    }
    assert Evaluate(Bin(op, l, r), fl) == Combine(op, Rational(a), Rational(b), fl);
  }

  lemma NonZero(f: Fraction)
    requires f.Reduced()
    ensures Val(f) != 0.0 <==> f.num != 0
  {
    ValTimesDen(f);
  }

  lemma WholeIs(f: Fraction, k: int)
    requires f.Reduced() && Val(f) == k as real
    ensures f == Fraction(k, 1)
  {
    GcdOne(Abs(k));
    ReducedUnique(f, Fraction(k, 1));
  }

  lemma {:induction false} GcdOne(n: nat)
    ensures Gcd(n, 1) == 1
  {
    if n > 1 { GcdOne(n - 1); }
  }

  lemma PowerBase(l: Expr, r: Expr, pi: real, a: real, k: int, x: real)
    requires IsValue(l, pi, a) && IsValue(r, pi, k as real) && Means(Bin(Pow, l, r), pi, x)
    ensures k < 0 ==> a != 0.0
  {
    var b: real, j: int :| Means(l, pi, b) && Means(r, pi, j as real) && PowMeans(b, j, x);
    assert b == a && j as real == k as real;
  }

  lemma DivisorNonZero(l: Expr, r: Expr, pi: real, b: real, x: real)
    requires IsValue(r, pi, b) && Means(Bin(Div, l, r), pi, x)
    ensures b != 0.0
  {
    var c: real, d: real :| Means(l, pi, c) && Means(r, pi, d) && OpMeans(Div, c, d, x);
    assert d == b;
  }

  // ----- comparing answers -----

  /** `_constant_math_value`: nothing where the evaluation raises or leaves the float range. */
  function ConstantValue(e: Expr, fl: FloatOps): (r: Option<Number>)
    ensures r.Some? ==> Normal(r.value)
  {
    var v := Evaluate(e, fl);
    if v.Err? || !fl.fits(AsReal(v.value)) then None else Some(v.value)
  }

  /** `_constant_math_equal`: exact answers are equal as fractions, others closely. */
  predicate ConstantEqual(a: Option<Number>, b: Option<Number>, close: (real, real) -> bool)
    requires a.Some? ==> Normal(a.value)
    requires b.Some? ==> Normal(b.value)
  {
    if a.None? || b.None? then false
    else if a.value.Rational? && b.value.Rational? then a.value.f == b.value.f
    else close(AsReal(a.value), AsReal(b.value))
  }

  /** d divides e when d and n have a unit combination and n*e is a multiple of d. */
  lemma DividesByUnit(x: int, n: int, y: int, d: nat, m: int, e: nat) returns (c: int)
    requires x * n + y * d == 1 && n * e == m * d
    ensures e == c * d
  {
    c := x * m + y * e;
    assert x * (n * e) == x * (m * d);
    assert (x * n + y * d) * e == x * (n * e) + (y * e) * d;
    Distribute(x * m, y * e, d);
  }

  lemma MultipleAtLeast(d: nat, e: nat, c: int)
    requires d > 0 && e > 0 && e == c * d
    ensures d <= e
  {
    if c <= 0 {
      MulMono(0, -c, 0, d);
    } else {
      MulMono(1, c, d, d);
    }
  }

  lemma CrossEqual(n: int, d: int, m: int, e: int, v: real)
    requires v * (d as real) == n as real && v * (e as real) == m as real
    ensures n * e == m * d
  {
    Cast(n, e);
    Cast(m, d);
    assert (v * (d as real)) * (e as real) == (v * (e as real)) * (d as real);
  }

  /** A rational number has one reduced fraction. */
  lemma ReducedUnique(f: Fraction, g: Fraction)
    requires f.Reduced() && g.Reduced() && Val(f) == Val(g)
    ensures f == g
  {
    ValTimesDen(f);
    ValTimesDen(g);
    CrossEqual(f.num, f.den, g.num, g.den, Val(f));
    var x, y := SignedBezout(f.num, f.den);
    var u, v := SignedBezout(g.num, g.den);
    var c := DividesByUnit(x, f.num, y, f.den, g.num, g.den);
    var b := DividesByUnit(u, g.num, v, g.den, f.num, f.den);
    MultipleAtLeast(f.den, g.den, c);
    MultipleAtLeast(g.den, f.den, b);
    SameFactor(f.num, g.num, f.den);
  }

  lemma SignedBezout(n: int, d: nat) returns (x: int, y: int)
    requires Gcd(Abs(n), d) == 1
    ensures x * n + y * d == 1
  {
    x, y := Bezout(Abs(n), d);
    if n < 0 {
      assert x * Abs(n) == (-x) * n;
      x := -x;
    }
  }

  lemma SameFactor(a: int, b: int, d: nat)
    requires d > 0 && a * d == b * d
    ensures a == b
  {
    assert (a - b) * d == 0;
  }

  /** Comparing two exact answers: they compare equal exactly when the two expressions mean the
      same real number and that number is in the float range. */
  lemma ExactComparison(a: Expr, b: Expr, fl: FloatOps, pi: real, close: (real, real) -> bool)
    requires ExactHere(a, fl) && ExactHere(b, fl)
    ensures ConstantEqual(ConstantValue(a, fl), ConstantValue(b, fl), close) <==>
            exists x: real :: Means(a, pi, x) && Means(b, pi, x) && fl.fits(x)
  {
    hide Means, Evaluate, Val;
    ExactIsMeaning(a, fl, pi);
    ExactIsMeaning(b, fl, pi);
    var f, g := Evaluate(a, fl).value.f, Evaluate(b, fl).value.f;
    assert Means(a, pi, Val(f)) && Means(b, pi, Val(g));
    if Val(f) == Val(g) {
      ReducedUnique(f, g);
    }
  }

  /** Comparing answers of which one is approximate: they compare equal exactly when the numbers the
      expressions mean are in the float range and close. */
  lemma ApproximateComparison(a: Expr, b: Expr, fl: FloatOps, pi: real, close: (real, real) -> bool)
    requires Faithful(fl, pi) && Evaluate(a, fl).Ok? && Evaluate(b, fl).Ok? && !(ExactHere(a, fl) && ExactHere(b, fl))
    ensures ConstantEqual(ConstantValue(a, fl), ConstantValue(b, fl), close) <==>
            exists x: real, y: real :: Means(a, pi, x) && Means(b, pi, y) && fl.fits(x) && fl.fits(y) && close(x, y)
  {
    hide Means, Evaluate, Val, Faithful;
    ResultIsMeaning(a, fl, pi);
    ResultIsMeaning(b, fl, pi);
    var x, y := AsReal(Evaluate(a, fl).value), AsReal(Evaluate(b, fl).value);
    assert Means(a, pi, x) && Means(b, pi, y);
  }

  /** An integer beyond the float range does not even equal itself. */
  lemma HugeDiffersFromItself(n: int, fl: FloatOps, close: (real, real) -> bool)
    requires !fl.fits(n as real)
    ensures !ConstantEqual(ConstantValue(Lit(n, 1), fl), ConstantValue(Lit(n, 1), fl), close)
  {
    MakeIs(n, 1);
    Quotient(n as real, 1.0, n as real);
  }
}
