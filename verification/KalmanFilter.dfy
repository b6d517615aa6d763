/** The scalar Kalman filter in exact real arithmetic: its covariance recursion, its error, its convergence. */
module KalmanFilter {

  datatype Params = Params(q: real, r: real, p0: real)

  function Gain(q: real, r: real, p: real): real
    requires p + q + r != 0.0
  {
    (p + q) / (p + q + r)
  }

  /** The covariance after one update. */
  function NextP(q: real, r: real, p: real): real
    requires p + q + r != 0.0
  {
    (1.0 - Gain(q, r, p)) * (p + q)
  }

  function NextX(q: real, r: real, p: real, x: real, z: real): real
    requires p + q + r != 0.0
  {
    x + Gain(q, r, p) * (z - x)
  }

  /** The lower bound of the covariance that `convergence` measures against. */
  function IdealP(q: real, r: real): real
    requires q + r != 0.0
  {
    q * r / (q + r)
  }

  const EPSILON: real := 0.000001

  function Convergence(params: Params, p: real): real
    requires params.q + params.r != 0.0 && params.p0 - IdealP(params.q, params.r) + EPSILON != 0.0
  {
    var ideal := IdealP(params.q, params.r);
    if ideal > 0.0 then 1.0 - (p - ideal) / (params.p0 - ideal + EPSILON) else 1.0
  }

  class KalmanFilter {
    const params: Params
    var x: real
    var p: real

    /** Parameters and covariance for which the bounds below hold; no operation needs more than it says itself. */
    ghost predicate Valid()
      reads this
    {
      params.q > 0.0 && params.r > 0.0 && p >= 0.0
    }

    constructor (params: Params)
      ensures this.params == params && x == 0.0 && p == params.p0
      ensures params.q > 0.0 && params.r > 0.0 && params.p0 >= 0.0 ==> Valid()
    {
      this.params, x, p := params, 0.0, params.p0;
    }

    /** Defined for every parameter and covariance; only a zero divisor has no value in the reals. */
    method Update(z: real) returns (estimate: real)
      requires p + params.q + params.r != 0.0
      modifies this
      ensures x == NextX(params.q, params.r, old(p), old(x), z) == estimate
      ensures p == NextP(params.q, params.r, old(p))
      ensures old(Valid()) ==> Valid()
    {
      if Valid() {
        CovarianceBounds(params.q, params.r, p);
      }
      var pPred := p + params.q;
      var k := pPred / (pPred + params.r);
      x := x + k * (z - x);
      p := (1.0 - k) * pPred;
      return x;
    }

    method Seed(value: real)
      modifies this
      ensures x == value && p == params.p0
      ensures old(Valid()) && params.p0 >= 0.0 ==> Valid()
    {
      x, p := value, params.p0;
    }
  }

  // ---- Fractions ----

  lemma Fraction(a: real, d: real)
    requires d != 0.0
    ensures a / d * d == a
  {
  }

  lemma FractionLess(a: real, d: real, b: real, e: real)
    requires d > 0.0 && e > 0.0
    ensures a / d <= b / e <==> a * e <= b * d
    ensures a / d < b / e <==> a * e < b * d
  {
    var u, v := a / d, b / e;
    assert a == u * d && b == v * e;
    assert a * e == u * (d * e) && b * d == v * (d * e);
    ScaleOrder(u, v, d * e);
  }

  lemma ScaleOrder(u: real, v: real, s: real)
    requires s > 0.0
    ensures u <= v <==> u * s <= v * s
    ensures u < v <==> u * s < v * s
  {
    if u < v {
      assert (v - u) * s > 0.0;
    } else if v < u {
      assert (u - v) * s > 0.0;
    }
  }

  /** One minus the gain, and the covariance, as fractions. */
  lemma Forms(q: real, r: real, p: real)
    requires q > 0.0 && r > 0.0 && p >= 0.0
    ensures 1.0 - Gain(q, r, p) == r / (p + q + r)
    ensures NextP(q, r, p) == r * (p + q) / (p + q + r)
    ensures 0.0 < Gain(q, r, p) < 1.0
  {
    var s, d := p + q, p + q + r;
    var k := s / d;
    assert k * d == s;
    assert (1.0 - k) * d == r;
    FractionOf(1.0 - k, d, r);
    assert ((1.0 - k) * s) * d == r * s by {
      assert ((1.0 - k) * s) * d == ((1.0 - k) * d) * s;
    }
    FractionOf((1.0 - k) * s, d, r * s);
    FractionLess(0.0, 1.0, s, d);
    FractionLess(s, d, 1.0, 1.0);
  }

  lemma FractionOf(u: real, d: real, a: real)
    requires d > 0.0 && u * d == a
    ensures u == a / d
  {
  }

  // ---- Covariance ----

  lemma IdealPolynomial(q: real, r: real, p: real)
    ensures r * (p + q) * (q + r) - q * r * (p + q + r) == r * r * p
  {
  }

  /** After any update the covariance lies between the ideal value and the measurement noise. */
  lemma CovarianceBounds(q: real, r: real, p: real)
    requires q > 0.0 && r > 0.0 && p >= 0.0
    ensures 0.0 < IdealP(q, r) <= NextP(q, r, p) < r
    ensures p > 0.0 ==> IdealP(q, r) < NextP(q, r, p)
  {
    Forms(q, r, p);
    hide Gain, NextP;
    FractionLess(q * r, q + r, r * (p + q), p + q + r);
    IdealPolynomial(q, r, p);
    Products(r, r, p);
    FractionLess(r * (p + q), p + q + r, r, 1.0);
    Products(r, 1.0, 1.0);
    assert r * (p + q) < r * (p + q + r);
    Products(q, r, 1.0);
    FractionLess(0.0, 1.0, q * r, q + r);
  }

  lemma Products(a: real, b: real, c: real)
    requires a > 0.0 && b > 0.0 && c >= 0.0
    ensures a * b > 0.0 && a * b * c >= 0.0
    ensures c > 0.0 ==> a * b * c > 0.0
  {
  }

  function Abs(a: real): (b: real)
    ensures b >= 0.0 && (b == a || b == -a)
  {
    if a < 0.0 then -a else a
  }

  lemma AbsProduct(a: real, b: real)
    ensures Abs(a * b) == Abs(a) * Abs(b)
  {
  }

  /** The least factor by which one update shrinks an error. */
  function Factor(q: real, r: real): real
    requires q + r != 0.0
  {
    r / (q + r)
  }

  function Square(f: real): real {
    f * f
  }

  lemma Shrink(q: real, r: real, p: real)
    requires q > 0.0 && r > 0.0 && p >= 0.0
    ensures 0.0 < r / (p + q + r) <= Factor(q, r) < 1.0
    ensures Square(Factor(q, r)) > 0.0
  {
    FractionLess(r, p + q + r, r, q + r);
    Products(r, 1.0, p);
    FractionLess(0.0, 1.0, r, p + q + r);
    FractionLess(r, q + r, 1.0, 1.0);
    Products(Factor(q, r), Factor(q, r), 0.0);
  }

  lemma DifferencePolynomial(q: real, r: real, a: real, b: real)
    ensures r * (a + q) * (b + q + r) - r * (b + q) * (a + q + r) == r * r * (a - b)
  {
  }

  /** The difference of two covariances after an update. */
  lemma DifferenceForm(q: real, r: real, a: real, b: real)
    requires q > 0.0 && r > 0.0 && a >= 0.0 && b >= 0.0
    ensures NextP(q, r, a) - NextP(q, r, b) == r / (a + q + r) * (r / (b + q + r)) * (a - b)
  {
    Forms(q, r, a);
    Forms(q, r, b);
    hide NextP, Gain;
    var d, e := a + q + r, b + q + r;
    Fraction(r, d);
    Fraction(r, e);
    Fraction(r * (a + q), d);
    Fraction(r * (b + q), e);
    DifferenceOfMultiples(q, r, a, b, NextP(q, r, a), NextP(q, r, b), r / d, r / e);
  }

  lemma DifferenceOfMultiples(q: real, r: real, a: real, b: real, x: real, y: real, u: real, v: real)
    requires a + q + r > 0.0 && b + q + r > 0.0
    requires u * (a + q + r) == r && v * (b + q + r) == r
    requires x * (a + q + r) == r * (a + q) && y * (b + q + r) == r * (b + q)
    ensures x - y == u * v * (a - b)
  {
    var d, e := a + q + r, b + q + r;
    DifferencePolynomial(q, r, a, b);
    CrossMultiply(x, d, r * (a + q), y, e, r * (b + q));
    TwoFractions(u, d, v, e, r, a - b);
    Products(d, e, 0.0);
    SameMultiple(x - y, u * v * (a - b), d * e);
  }

  lemma CrossMultiply(x: real, d: real, m: real, y: real, e: real, n: real)
    requires x * d == m && y * e == n
    ensures (x - y) * (d * e) == m * e - n * d
  {
    assert x * (d * e) == (x * d) * e;
    assert y * (d * e) == (y * e) * d;
  }

  lemma TwoFractions(u: real, d: real, v: real, e: real, r: real, c: real)
    requires u * d == r && v * e == r
    ensures u * v * c * (d * e) == r * r * c
  {
    assert u * v * c * (d * e) == (u * d) * (v * e) * c;
  }

  lemma SameMultiple(x: real, y: real, s: real)
    requires s > 0.0 && x * s == y * s
    ensures x == y
  {
    ScaleOrder(x, y, s);
    ScaleOrder(y, x, s);
  }

  lemma ProductMono(a: real, b: real, c: real, d: real)
    requires 0.0 <= a <= b && 0.0 <= c <= d
    ensures 0.0 <= a * c <= b * d
  {
    assert a * c <= b * c;
    assert b * c <= b * d;
  }

  /** Two covariances approach each other by at least the factor (r / (q + r))^2. */
  lemma CovarianceContracts(q: real, r: real, a: real, b: real)
    requires q > 0.0 && r > 0.0 && a >= 0.0 && b >= 0.0
    ensures Abs(NextP(q, r, a) - NextP(q, r, b)) <= Square(Factor(q, r)) * Abs(a - b)
  {
    DifferenceForm(q, r, a, b);
    hide NextP, Factor;
    var f := Factor(q, r);
    var u, v := r / (a + q + r), r / (b + q + r);
    Shrink(q, r, a);
    Shrink(q, r, b);
    ProductMono(u, f, v, f);
    AbsProduct(u * v, a - b);
    ProductMono(u * v, f * f, Abs(a - b), Abs(a - b));
  }

  // ---- Runs of updates ----

  /** The covariance after n updates. Measurements do not enter. */
  function PAfter(q: real, r: real, p: real, n: nat): (pn: real)
    requires q > 0.0 && r > 0.0 && p >= 0.0
    ensures pn >= 0.0
    ensures n > 0 ==> IdealP(q, r) <= pn < r
  {
    if n == 0 then p
    else
      CovarianceBounds(q, r, PAfter(q, r, p, n - 1));
      NextP(q, r, PAfter(q, r, p, n - 1))
  }

  /** The estimate after n updates with one and the same measurement. */
  function XAfter(q: real, r: real, p: real, x: real, z: real, n: nat): real
    requires q > 0.0 && r > 0.0 && p >= 0.0
  {
    if n == 0 then x else NextX(q, r, PAfter(q, r, p, n - 1), XAfter(q, r, p, x, z, n - 1), z)
  }

  function Power(f: real, n: nat): real {
    if n == 0 then 1.0 else f * Power(f, n - 1)
  }

  lemma {:induction false} PowerPositive(f: real, n: nat)
    requires f > 0.0
    ensures Power(f, n) > 0.0
  {
    if n > 0 {
      PowerPositive(f, n - 1);
      Products(f, Power(f, n - 1), 0.0);
    }
  }

  /** The error after n steps is at most the n-th power of the factor times the first error. */
  predicate Decayed(error: real, f: real, n: nat, first: real) {
    error <= Power(f, n) * first
  }

  predicate Shrunk(next: real, f: real, error: real) {
    next <= f * error
  }

  lemma GeometricStep(f: real, next: real, error: real, n: nat, first: real)
    requires f > 0.0 && Shrunk(next, f, error) && Decayed(error, f, n, first)
    ensures Decayed(next, f, n + 1, first)
  {
    var power := Power(f, n);
    ScaleOrder(error, power * first, f);
    assert power * first * f == f * power * first;
  }

  lemma CovarianceErrorStep(q: real, r: real, a: real, b: real, n: nat)
    requires q > 0.0 && r > 0.0 && a >= 0.0 && b >= 0.0
    ensures Shrunk(Abs(PAfter(q, r, a, n + 1) - PAfter(q, r, b, n + 1)), Square(Factor(q, r)),
                   Abs(PAfter(q, r, a, n) - PAfter(q, r, b, n)))
  {
    hide NextP, IdealP, Abs, Square, Factor;
    CovarianceContracts(q, r, PAfter(q, r, a, n), PAfter(q, r, b, n));
  }

  /** Whatever two filters start from, their covariances converge geometrically. */
  lemma {:induction false} CovarianceConverges(q: real, r: real, a: real, b: real, n: nat)
    requires q > 0.0 && r > 0.0 && a >= 0.0 && b >= 0.0
    ensures Decayed(Abs(PAfter(q, r, a, n) - PAfter(q, r, b, n)), Square(Factor(q, r)), n, Abs(a - b))
  {
    if n > 0 {
      hide *;
      Shrink(q, r, 0.0);
      CovarianceConverges(q, r, a, b, n - 1);
      CovarianceErrorStep(q, r, a, b, n - 1);
      GeometricStep(Square(Factor(q, r)), Abs(PAfter(q, r, a, n) - PAfter(q, r, b, n)),
                    Abs(PAfter(q, r, a, n - 1) - PAfter(q, r, b, n - 1)), n - 1, Abs(a - b));
    }
  }

  lemma ErrorStep(q: real, r: real, p: real, x: real, z: real)
    requires q > 0.0 && r > 0.0 && p >= 0.0
    ensures Abs(NextX(q, r, p, x, z) - z) <= Factor(q, r) * Abs(x - z)
  {
    Forms(q, r, p);
    Shrink(q, r, p);
    var k, u := Gain(q, r, p), r / (p + q + r);
    hide Gain;
    assert x + k * (z - x) - z == (1.0 - k) * (x - z);
    AbsProduct(u, x - z);
    ProductMono(u, Factor(q, r), Abs(x - z), Abs(x - z));
  }

  lemma EstimateErrorStep(q: real, r: real, p: real, x: real, z: real, n: nat)
    requires q > 0.0 && r > 0.0 && p >= 0.0
    ensures Shrunk(Abs(XAfter(q, r, p, x, z, n + 1) - z), Factor(q, r), Abs(XAfter(q, r, p, x, z, n) - z))
  {
    hide NextX, IdealP, Abs, Factor;
    ErrorStep(q, r, PAfter(q, r, p, n), XAfter(q, r, p, x, z, n), z);
  }

  /** The exact error after an update: the fraction r / (p + q + r) of the error before. */
  lemma ErrorExactly(q: real, r: real, p: real, x: real, z: real)
    requires q > 0.0 && r > 0.0 && p >= 0.0
    ensures NextX(q, r, p, x, z) - z == r / (p + q + r) * (x - z)
  {
    Forms(q, r, p);
    var k := Gain(q, r, p);
    hide Gain;
    assert x + k * (z - x) - z == (1.0 - k) * (x - z);
  }

  /** The error variance when an estimate of variance p + q and a measurement of variance r are mixed with weight k. */
  function Variance(q: real, r: real, p: real, k: real): real {
    (1.0 - k) * (1.0 - k) * (p + q) + k * k * r
  }

  lemma CompleteSquare(s: real, r: real, g: real, k: real)
    requires g * (s + r) == s
    ensures (1.0 - k) * (1.0 - k) * s + k * k * r == (1.0 - g) * s + (s + r) * Square(k - g)
  {
    var d := s + r;
    assert (1.0 - k) * (1.0 - k) * s + k * k * r == s - 2.0 * k * s + k * k * d;
    assert d * ((k - g) * (k - g)) == k * k * d - 2.0 * k * (g * d) + g * (g * d);
  }

  /** The filter's weight is the best one, and the covariance is what it achieves: no other weight does as well. */
  lemma BestWeight(q: real, r: real, p: real, x: real, z: real, k: real)
    requires q > 0.0 && r > 0.0 && p >= 0.0
    ensures Variance(q, r, p, k) >= NextP(q, r, p)
    ensures Variance(q, r, p, k) == NextP(q, r, p) <==> k == Gain(q, r, p)
    ensures k == Gain(q, r, p) ==> NextX(q, r, p, x, z) == x + k * (z - x)
  {
    var g, s, d := Gain(q, r, p), p + q, p + q + r;
    Fraction(s, d);
    hide Gain;
    CompleteSquare(s, r, g, k);
    hide Square;
    SquareSign(d, k - g);
  }

  lemma SquareOfPositive(e: real)
    requires e > 0.0
    ensures Square(e) > 0.0
  {
    PositiveProduct(e, e, Square(e));
  }

  lemma PositiveProduct(a: real, b: real, c: real)
    requires a > 0.0 && b > 0.0 && c == a * b
    ensures c > 0.0
  {
  }

  lemma SquareOfNegation(e: real)
    ensures Square(-e) == Square(e) && Square(0.0) == 0.0
  {
  }

  lemma PositiveSquare(e: real)
    ensures Square(e) >= 0.0 && (Square(e) == 0.0 <==> e == 0.0)
  {
    hide Square;
    SquareOfNegation(e);
    if e > 0.0 {
      SquareOfPositive(e);
    } else if e < 0.0 {
      SquareOfPositive(-e);
    }
  }

  lemma SquareSign(d: real, e: real)
    requires d > 0.0
    ensures d * Square(e) >= 0.0 && (d * Square(e) == 0.0 <==> e == 0.0)
  {
    PositiveSquare(e);
    hide Square;
    if e != 0.0 {
      ScaleOrder(0.0, Square(e), d);
    }
  }

  /** Under a constant measurement the error shrinks geometrically. */
  lemma {:induction false} EstimateConverges(q: real, r: real, p: real, x: real, z: real, n: nat)
    requires q > 0.0 && r > 0.0 && p >= 0.0
    ensures Decayed(Abs(XAfter(q, r, p, x, z, n) - z), Factor(q, r), n, Abs(x - z))
  {
    if n > 0 {
      hide *;
      Shrink(q, r, 0.0);
      EstimateConverges(q, r, p, x, z, n - 1);
      EstimateErrorStep(q, r, p, x, z, n - 1);
      GeometricStep(Factor(q, r), Abs(XAfter(q, r, p, x, z, n) - z),
                    Abs(XAfter(q, r, p, x, z, n - 1) - z), n - 1, Abs(x - z));
    }
  }

  /** The covariance stands still exactly at the positive root of the excess, and from anywhere converges to it. */
  lemma FixedPoint(q: real, r: real, b: real)
    requires q > 0.0 && r > 0.0 && b >= 0.0
    ensures NextP(q, r, b) == b <==> Excess(q, r, b) == 0.0
  {
    Forms(q, r, b);
    hide NextP, Gain;
    ExcessPolynomial(q, r, b);
    hide Excess;
    var t, d := NextP(q, r, b), b + q + r;
    assert t * d == r * (b + q);
    if b * d == r * (b + q) {
      SameMultiple(t, b, d);
    }
  }

  lemma {:induction false} StaysAtFixedPoint(q: real, r: real, b: real, n: nat)
    requires q > 0.0 && r > 0.0 && b >= 0.0 && NextP(q, r, b) == b
    ensures PAfter(q, r, b, n) == b
  {
    if n > 0 {
      StaysAtFixedPoint(q, r, b, n - 1);
    }
  }

  lemma ConvergesToFixedPoint(q: real, r: real, p: real, b: real, n: nat)
    requires q > 0.0 && r > 0.0 && p >= 0.0 && b >= 0.0 && Excess(q, r, b) == 0.0
    ensures Decayed(Abs(PAfter(q, r, p, n) - b), Square(Factor(q, r)), n, Abs(p - b))
  {
    FixedPoint(q, r, b);
    hide *;
    StaysAtFixedPoint(q, r, b, n);
    CovarianceConverges(q, r, p, b, n);
  }

  /** The new estimate lies between the old one and the measurement. */
  lemma EstimateBetween(q: real, r: real, p: real, x: real, z: real, lo: real, hi: real)
    requires q > 0.0 && r > 0.0 && p >= 0.0 && lo <= x <= hi && lo <= z <= hi
    ensures lo <= NextX(q, r, p, x, z) <= hi
  {
    Forms(q, r, p);
    var k := Gain(q, r, p);
    hide Gain;
    Weighted(k, x, z, lo);
    Weighted(k, -x, -z, -hi);
    assert -x + k * (-z - -x) == -(x + k * (z - x));
  }

  lemma Weighted(k: real, x: real, z: real, lo: real)
    requires 0.0 < k < 1.0 && lo <= x && lo <= z
    ensures lo <= x + k * (z - x)
  {
    assert x + k * (z - x) - lo == (1.0 - k) * (x - lo) + k * (z - lo);
    ProductMono(0.0, 1.0 - k, 0.0, x - lo);
    ProductMono(0.0, k, 0.0, z - lo);
  }

  // ---- Convergence measure ----

  /** Positive exactly above the fixed point of the covariance recursion. */
  function Excess(q: real, r: real, p: real): real {
    p * p + q * p - q * r
  }

  lemma ExcessPolynomial(q: real, r: real, p: real)
    ensures p * (p + q + r) - r * (p + q) == Excess(q, r, p)
  {
  }

  /** An update lowers the covariance, or keeps it, exactly at and above the fixed point. */
  lemma FallsAboveFixedPoint(q: real, r: real, p: real)
    requires q > 0.0 && r > 0.0 && p >= 0.0
    ensures NextP(q, r, p) <= p <==> Excess(q, r, p) >= 0.0
  {
    Forms(q, r, p);
    hide NextP, Gain;
    FractionLess(r * (p + q), p + q + r, p, 1.0);
    ExcessPolynomial(q, r, p);
    hide Excess;
  }

  lemma NextExcessPolynomial(q: real, r: real, s: real)
    ensures r * s * (r * s) + q * (r * s) * (s + r) - q * r * ((s + r) * (s + r))
         == r * r * (s * s - q * s - q * r)
  {
    assert q * (r * s) * (s + r) == q * r * (s * s) + q * r * (s * r);
    assert q * r * ((s + r) * (s + r)) == q * r * (s * s) + q * r * (s * r) + q * r * (s * r) + q * r * (r * r);
    assert r * r * (s * s - q * s - q * r) == r * r * (s * s) - r * r * (q * s) - r * r * (q * r);
  }

  /** From above the fixed point an update does not lead below it. */
  lemma ExcessKept(q: real, r: real, p: real)
    requires q > 0.0 && r > 0.0 && p >= 0.0 && Excess(q, r, p) >= 0.0
    ensures Excess(q, r, NextP(q, r, p)) >= 0.0
  {
    Forms(q, r, p);
    var s, d := p + q, p + q + r;
    var t := NextP(q, r, p);
    hide NextP, Gain;
    assert t * d == r * s;
    assert s * s - q * s - q * r == Excess(q, r, p);
    NextExcessPolynomial(q, r, s);
    ExcessScaled(q, r, t, d, r * s);
    ProductMono(0.0, r * r, 0.0, Excess(q, r, p));
    hide Excess;
    Products(d, d, 0.0);
    ScaleOrder(0.0, Excess(q, r, t), d * d);
  }

  lemma ExcessScaled(q: real, r: real, t: real, d: real, m: real)
    requires t * d == m
    ensures Excess(q, r, t) * (d * d) == m * m + q * m * d - q * r * (d * d)
  {
    assert t * t * (d * d) == (t * d) * (t * d);
    assert q * t * (d * d) == q * (t * d) * d;
  }

  lemma {:induction false} ExcessAfter(q: real, r: real, p: real, n: nat)
    requires q > 0.0 && r > 0.0 && p >= 0.0 && Excess(q, r, p) >= 0.0
    ensures Excess(q, r, PAfter(q, r, p, n)) >= 0.0
    ensures PAfter(q, r, p, n) <= p
  {
    if n > 0 {
      hide NextP, Excess, IdealP;
      ExcessAfter(q, r, p, n - 1);
      ExcessKept(q, r, PAfter(q, r, p, n - 1));
      FallsAboveFixedPoint(q, r, PAfter(q, r, p, n - 1));
    }
  }

  /** The convergence is affine in the covariance: one at the ideal value, and falling to the initial covariance. */
  lemma ConvergenceExactly(params: Params, p: real)
    requires params.q > 0.0 && params.r > 0.0 && params.p0 >= IdealP(params.q, params.r)
    ensures var ideal := IdealP(params.q, params.r);
            && ideal * (params.q + params.r) == params.q * params.r
            && (1.0 - Convergence(params, p)) * (params.p0 - ideal + 0.000001) == p - ideal
  {
    CovarianceBounds(params.q, params.r, 0.0);
    var ideal := IdealP(params.q, params.r);
    Fraction(params.q * params.r, params.q + params.r);
    hide IdealP, NextP;
    Fraction(p - ideal, params.p0 - ideal + EPSILON);
  }

  /** Without process noise the ideal value is zero, and the filter counts as converged. */
  lemma ConvergenceWithoutNoise(params: Params, p: real)
    requires params.q == 0.0 && params.r > 0.0 && params.p0 >= 0.0
    ensures Convergence(params, p) == 1.0
  {
    FractionOf(0.0, params.q + params.r, params.q * params.r);
  }

  /** A smaller covariance means more convergence, when the scale starts above the ideal value. */
  lemma ConvergenceOrder(params: Params, a: real, b: real)
    requires params.q > 0.0 && params.r > 0.0 && params.p0 >= IdealP(params.q, params.r)
    ensures Convergence(params, a) <= Convergence(params, b) <==> b <= a
    ensures Convergence(params, a) < 1.0 <==> IdealP(params.q, params.r) < a
    ensures Convergence(params, a) >= 0.0 <==> a <= params.p0 + EPSILON
  {
    CovarianceBounds(params.q, params.r, 0.0);
    var ideal := IdealP(params.q, params.r);
    hide IdealP, NextP;
    var d := params.p0 - ideal + EPSILON;
    FractionLess(b - ideal, d, a - ideal, d);
    ScaleOrder(b - ideal, a - ideal, d);
    FractionLess(0.0, 1.0, a - ideal, d);
    FractionLess(a - ideal, d, 1.0, 1.0);
  }

  /** An update does not lower the convergence exactly when the covariance is at or above the fixed point. */
  lemma ConvergenceRises(params: Params, p: real)
    requires params.q > 0.0 && params.r > 0.0 && params.p0 >= IdealP(params.q, params.r) && p >= 0.0
    ensures Convergence(params, p) <= Convergence(params, NextP(params.q, params.r, p))
       <==> Excess(params.q, params.r, p) >= 0.0
  {
    FallsAboveFixedPoint(params.q, params.r, p);
    ConvergenceOrder(params, p, NextP(params.q, params.r, p));
  }

  const SERVICE: Params := Params(1.0, 4.0, 100.0)

  /** With the parameters of the speed service, convergence never falls between seeds and stays in [0, 1). */
  lemma ServiceConvergence(n: nat)
    ensures var p := PAfter(1.0, 4.0, 100.0, n);
            && 0.0 <= Convergence(SERVICE, p) < 1.0
            && Convergence(SERVICE, p) <= Convergence(SERVICE, PAfter(1.0, 4.0, 100.0, n + 1))
  {
    var p := PAfter(1.0, 4.0, 100.0, n);
    assert IdealP(1.0, 4.0) == 0.8;
    assert Excess(1.0, 4.0, 100.0) >= 0.0;
    ExcessAfter(1.0, 4.0, 100.0, n);
    assert p > 0.8 by {
      if p <= 0.8 {
        ProductMono(p, 0.8, p, 0.8);
      }
    }
    ConvergenceOrder(SERVICE, p, p);
    ConvergenceRises(SERVICE, p);
  }
}
