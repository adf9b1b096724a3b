/** The group law of the curve: neutral element, inverses, commutativity and associativity of
    the affine addition, all proved from the curve equation. */
module GroupLaw {
  import opened ModArith
  import opened Edwards

  lemma AddCommutes(c: Curve, a: Affine, b: Affine)
    requires c.p >= 2
    ensures AffineAdd(c, a, b) == AffineAdd(c, b, a)
  {
    assert Kappa(c, a, b) == Kappa(c, b, a);
  }

  lemma NeutralOnCurve(c: Curve)
    requires ValidCurve(c)
    ensures OnCurve(c, NEUTRAL) && Represents(c, NEUTRAL_POINT, NEUTRAL)
  {
    assert CurveExpr(c.d, 0, 1) == 0;
    if Dvd(c.p, 1) { DvdSmall(c.p, 1); }
    CongRefl(c.p, 0);
    CongRefl(c.p, 1);
  }

  /** A candidate that satisfies both fractions of the addition law is the sum. */
  lemma SumIs(c: Curve, a: Affine, b: Affine, r: Affine)
    requires ValidCurve(c) && OnCurve(c, a) && OnCurve(c, b)
    requires 0 <= r.x < c.p && 0 <= r.y < c.p
    requires Cong(c.p, r.x * (1 + Kappa(c, a, b)), a.x * b.y + a.y * b.x)
    requires Cong(c.p, r.y * (1 - Kappa(c, a, b)), a.y * b.y + a.x * b.x)
    ensures AffineAdd(c, a, b) == r
  {
    hide Dvd, OnCurve;
    var p, k, s := c.p, Kappa(c, a, b), AffineAdd(c, a, b);
    AffineAddFractions(c, a, b);
    DenominatorsInvertible(c, a, b);
    SameFraction(p, s.x, r.x, 1 + k, a.x * b.y + a.y * b.x);
    SameFraction(p, s.y, r.y, 1 - k, a.y * b.y + a.x * b.x);
  }

  lemma SameFraction(p: int, s: int, r: int, u: int, n: int)
    requires IsPrime(p) && !Dvd(p, u) && 0 <= s < p && 0 <= r < p
    requires Cong(p, s * u, n) && Cong(p, r * u, n)
    ensures s == r
  {
    hide Dvd;
    CongSym(p, r * u, n);
    CongTrans(p, s * u, n, r * u);
    CongCancel(p, s, r, u);
    ReducedUnique(p, s, r);
  }

  lemma AddNeutral(c: Curve, a: Affine)
    requires ValidCurve(c) && OnCurve(c, a)
    ensures AffineAdd(c, a, NEUTRAL) == a && AffineAdd(c, NEUTRAL, a) == a
  {
    NeutralOnCurve(c);
    assert Kappa(c, a, NEUTRAL) == 0;
    CongRefl(c.p, a.x);
    CongRefl(c.p, a.y);
    SumIs(c, a, NEUTRAL, a);
    AddCommutes(c, a, NEUTRAL);
  }

  lemma NegateOnCurve(c: Curve, a: Affine)
    requires ValidCurve(c) && OnCurve(c, a)
    ensures OnCurve(c, Negate(c, a)) && Cong(c.p, Negate(c, a).x, -a.x)
  {
    hide Dvd;
    var n := Negate(c, a).x;
    ModCong(c.p, -a.x);
    CongMul(c.p, n, -a.x, n, -a.x);
    assert (-a.x) * (-a.x) == a.x * a.x;
    CongRefl(c.p, a.y * a.y);
    CongRefl(c.p, 1);
    CongRefl(c.p, c.d);
    CongAdd(c.p, a.y * a.y, a.y * a.y, n * n, a.x * a.x);
    CongAdd(c.p, a.y * a.y - n * n, a.y * a.y - a.x * a.x, 1, 1);
    CongMul(c.p, c.d, c.d, n * n, a.x * a.x);
    CongMul(c.p, c.d * (n * n), c.d * (a.x * a.x), a.y * a.y, a.y * a.y);
    CongAdd(c.p, a.y * a.y - n * n - 1, a.y * a.y - a.x * a.x - 1,
            c.d * (n * n) * (a.y * a.y), c.d * (a.x * a.x) * (a.y * a.y));
    CongDvd(c.p, CurveExpr(c.d, n, a.y), CurveExpr(c.d, a.x, a.y));
  }

  lemma AddInverse(c: Curve, a: Affine)
    requires ValidCurve(c) && OnCurve(c, a)
    ensures OnCurve(c, Negate(c, a)) && AffineAdd(c, a, Negate(c, a)) == NEUTRAL
  {
    hide Dvd;
    var b := Negate(c, a);
    NegateOnCurve(c, a);
    NeutralOnCurve(c);
    CongRefl(c.p, a.x);
    CongRefl(c.p, a.y);
    CongMul(c.p, a.y, a.y, b.x, -a.x);
    CongRefl(c.p, a.x * b.y);
    CongAdd(c.p, a.x * b.y, a.x * b.y, a.y * b.x, a.y * -a.x);
    assert a.x * b.y + a.y * -a.x == 0;
    CongSym(c.p, a.x * b.y + a.y * b.x, 0);
    InverseOrdinate(c, a, b.x);
    SumIs(c, a, b, NEUTRAL);
  }

  lemma InverseOrdinate(c: Curve, a: Affine, n: int)
    requires ValidCurve(c) && OnCurve(c, a) && Cong(c.p, n, -a.x)
    ensures Cong(c.p, 1 * (1 - Kappa(c, a, Affine(n, a.y))), a.y * a.y + a.x * n)
  {
    hide Dvd;
    var p, m := c.p, a.x * a.y;
    var f := c.d * m * a.y + a.x;
    CongRefl(p, f);
    CongMul(p, f, f, n, -a.x);
    CurveExprAtoms(c.d, a.x, a.y);
    OrdinateFactor(c.d, m, a.x, a.y, n);
    // 1 - k - (y^2 + x n) = (1 - y^2) - f n, and f n = -d m^2 - x^2 = 1 - y^2 + CurveExpr
    var e, kappa := CurveExpr(c.d, a.x, a.y), Kappa(c, a, Affine(n, a.y));
    hide CurveExpr, Kappa, OnCurve;
    DvdAdd(p, f * n - f * -a.x, e);
    DvdMul(p, f * n - f * -a.x + e, -1);
    OrdinateSum(f * n, f * -a.x, e, kappa, a.y * a.y, a.x * n, c.d * (m * m), a.x * a.x);
  }

  lemma OrdinateFactor(d: int, m: int, x: int, y: int, n: int)
    requires m == x * y
    ensures (d * m * y + x) * n == d * m * (n * y) + x * n
    ensures (d * m * y + x) * -x == -(d * (m * m)) - x * x
  {
    assert d * m * y * n == d * m * (n * y);
    assert d * m * y * x == d * (m * m) by { assert y * x == m; assert d * m * y * x == d * m * (y * x); }
  }

  lemma OrdinateSum(fn: int, fx: int, e: int, kappa: int, yy: int, xn: int, dm: int, xx: int)
    requires fn == kappa + xn && fx == -dm - xx && e == yy - xx - 1 - dm
    ensures (fn - fx + e) * -1 == 1 * (1 - kappa) - (yy + xn)
  {
  }

  // ---- associativity ----
  //
  // With m_i = x_i y_i, s_i = x_i^2 + y_i^2 and w_i = d m_i^2, clearing the denominators of
  // (P1 + P2) + P3 and P1 + (P2 + P3) and cross-multiplying leaves d m_2 times a sum of four
  // monomials.  The coefficient of each monomial has one and the same shape (Coefficient below,
  // for different choices of signs) and vanishes by the three curve equations alone.

  /** The coefficient of a monomial in the cross-multiplied difference: eta is 1 for the abscissa
      and -1 for the ordinate, a_i is x_i^2 (d_i = 1) or y_i^2 (d_i = -1). */
  function Coefficient(eta: int, d1: int, d3: int, a1: int, a2: int, a3: int,
                       w1: int, w2: int, w3: int, s1: int, s2: int, s3: int): int
  {
    Shape(eta, d1, d3, a1, a2, a3, w1, w2, w3, s3 * a1 - s1 * a3, s3 * a2 - s2 * a3, s2 * a1 - s1 * a2)
  }

  /** The coefficient in terms of the three determinants of the s_i and a_i. */
  function Shape(eta: int, d1: int, d3: int, a1: int, a2: int, a3: int,
                 w1: int, w2: int, w3: int, x13: int, x23: int, x12: int): int
  {
    (w1 - w3) * a2 + eta * x13
    - (eta * d3) * a1 * (1 - w2 * w3) - d3 * w1 * x23
    + (eta * d1) * a3 * (1 - w1 * w2) - d1 * w3 * x12
  }

  predicate Sign(s: int) { s == 1 || s == -1 }

  lemma ShapeLinear(eta: int, d1: int, d3: int, a1: int, a2: int, a3: int, w1: int, w2: int, w3: int,
                    x13: int, x23: int, x12: int, y13: int, y23: int, y12: int)
    ensures Shape(eta, d1, d3, a1, a2, a3, w1, w2, w3, x13 + y13, x23 + y23, x12 + y12)
         == Shape(eta, d1, d3, a1, a2, a3, w1, w2, w3, x13, x23, x12) + eta * y13 - d3 * w1 * y23 - d1 * w3 * y12
  {
    var p, q := d3 * w1, d1 * w3;
    assert p * (x23 + y23) == p * x23 + p * y23 && q * (x12 + y12) == q * x12 + q * y12;
    assert eta * (x13 + y13) == eta * x13 + eta * y13;
  }

  /** On the curve equations themselves the shape is zero: g1 = eta d1 and g3 = eta d3. */
  lemma ShapeZeroAtoms(g1: int, g3: int, a1: int, a2: int, a3: int, w1: int, w2: int, w3: int)
    ensures (w1 - w3) * a2 + (g3 * (1 + w3) * a1 - g1 * (1 + w1) * a3)
          - g3 * a1 * (1 - w2 * w3) - (w1 * (1 + w3) * a2 - g1 * w1 * (1 + w2) * a3)
          + g1 * a3 * (1 - w1 * w2) - (g3 * w3 * (1 + w2) * a1 - w3 * (1 + w1) * a2) == 0
  {
    var b1, b3 := g3 * a1, g1 * a3;
    assert g3 * (1 + w3) * a1 == b1 + b1 * w3 && g1 * (1 + w1) * a3 == b3 + b3 * w1;
    assert g3 * w3 * (1 + w2) * a1 == b1 * w3 + b1 * (w2 * w3);
    assert g1 * w1 * (1 + w2) * a3 == b3 * w1 + b3 * (w1 * w2);
  }

  lemma SignProduct(d: int, e: int, w: int, v: int)
    requires d * d == 1
    ensures d * w * (d * v) == w * v && d * w * (e * d * v) == e * w * v
  {
    MulSwap(d, w, d, v);
    MulSwap(d, w, e * d, v);
    assert d * (e * d) == e;
  }

  lemma SubDistribute(k: int, x: int, y: int)
    ensures k * (x - y) == k * x - k * y
  {
  }

  lemma OneDeterminant(d: int, g: int, w: int, u: int, v: int)
    requires d * d == 1
    ensures d * w * (d * u - g * d * v) == w * u - g * w * v
  {
    SubDistribute(d * w, d * u, g * d * v);
    SignProduct(d, g, w, u);
    SignProduct(d, g, w, v);
  }

  lemma FirstDeterminant(eta: int, d1: int, d3: int, a1: int, a3: int, v1: int, v3: int)
    ensures eta * (d3 * v3 * a1 - d1 * v1 * a3) == (eta * d3) * v3 * a1 - (eta * d1) * v1 * a3
  {
    SubDistribute(eta, d3 * v3 * a1, d1 * v1 * a3);
  }

  lemma SecondDeterminant(eta: int, d1: int, d3: int, a2: int, a3: int, v2: int, v3: int, w1: int)
    requires d3 * d3 == 1
    ensures d3 * w1 * (d3 * v3 * a2 - eta * d1 * d3 * v2 * a3) == w1 * v3 * a2 - (eta * d1) * w1 * v2 * a3
  {
    OneDeterminant(d3, eta * d1, w1, v3 * a2, v2 * a3);
    assert d3 * v3 * a2 == d3 * (v3 * a2);
    assert eta * d1 * d3 * v2 * a3 == (eta * d1) * d3 * (v2 * a3);
  }

  lemma ThirdDeterminant(eta: int, d1: int, d3: int, a1: int, a2: int, v1: int, v2: int, w3: int)
    requires d1 * d1 == 1
    ensures d1 * w3 * (eta * d1 * d3 * v2 * a1 - d1 * v1 * a2) == (eta * d3) * w3 * v2 * a1 - w3 * v1 * a2
  {
    OneDeterminant(d1, eta * d3, w3, v1 * a2, v2 * a1);
    assert d1 * v1 * a2 == d1 * (v1 * a2);
    assert eta * d1 * d3 * v2 * a1 == (eta * d3) * d1 * (v2 * a1);
    SubDistribute(d1 * w3, d1 * (v1 * a2), (eta * d3) * d1 * (v2 * a1));
    SubDistribute(d1 * w3, (eta * d3) * d1 * (v2 * a1), d1 * (v1 * a2));
  }

  lemma ShapeZero(eta: int, d1: int, d3: int, a1: int, a2: int, a3: int, w1: int, w2: int, w3: int,
                  f1: int, f2: int, f3: int)
    requires d1 * d1 == 1 && d3 * d3 == 1
    requires f1 == d1 * (1 + w1) && f2 == eta * d1 * d3 * (1 + w2) && f3 == d3 * (1 + w3)
    ensures Shape(eta, d1, d3, a1, a2, a3, w1, w2, w3, f3 * a1 - f1 * a3, f3 * a2 - f2 * a3, f2 * a1 - f1 * a2) == 0
  {
    ShapeZeroAtoms(eta * d1, eta * d3, a1, a2, a3, w1, w2, w3);
    FirstDeterminant(eta, d1, d3, a1, a3, 1 + w1, 1 + w3);
    SecondDeterminant(eta, d1, d3, a2, a3, 1 + w2, 1 + w3, w1);
    ThirdDeterminant(eta, d1, d3, a1, a2, 1 + w1, 1 + w2, w3);
  }

  /** Adding multiples of the a_i to the s_i does not change the determinants. */
  lemma DoubledColumn(a: int, b: int, f: int, g: int, x: int, y: int)
    ensures (2 * a + f + x) * b - (2 * b + g + y) * a == (f * b - g * a) + (x * b - y * a)
  {
  }

  lemma ShapeOf(eta: int, d1: int, d3: int, a1: int, a2: int, a3: int, w1: int, w2: int, w3: int,
                f1: int, f2: int, f3: int, t1: int, t2: int, t3: int)
    requires d1 * d1 == 1 && d3 * d3 == 1
    requires f1 == d1 * (1 + w1) && f2 == eta * d1 * d3 * (1 + w2) && f3 == d3 * (1 + w3)
    ensures Coefficient(eta, d1, d3, a1, a2, a3, w1, w2, w3, 2 * a1 + f1 + t1, 2 * a2 + f2 + t2, 2 * a3 + f3 + t3)
         == eta * (t3 * a1 - t1 * a3) - d3 * w1 * (t3 * a2 - t2 * a3) - d1 * w3 * (t2 * a1 - t1 * a2)
  {
    hide Shape;
    ShapeZero(eta, d1, d3, a1, a2, a3, w1, w2, w3, f1, f2, f3);
    ShapeLinear(eta, d1, d3, a1, a2, a3, w1, w2, w3,
                f3 * a1 - f1 * a3, f3 * a2 - f2 * a3, f2 * a1 - f1 * a2,
                t3 * a1 - t1 * a3, t3 * a2 - t2 * a3, t2 * a1 - t1 * a2);
    DoubledColumn(a3, a1, f3, f1, t3, t1);
    DoubledColumn(a3, a2, f3, f2, t3, t2);
    DoubledColumn(a2, a1, f2, f1, t2, t1);
  }

  lemma CoefficientVanishes(p: int, eta: int, d1: int, d3: int, a1: int, a2: int, a3: int,
                            w1: int, w2: int, w3: int, f1: int, f2: int, f3: int, t1: int, t2: int, t3: int)
    requires p > 0 && d1 * d1 == 1 && d3 * d3 == 1
    requires f1 == d1 * (1 + w1) && f2 == eta * d1 * d3 * (1 + w2) && f3 == d3 * (1 + w3)
    requires Dvd(p, t1) && Dvd(p, t2) && Dvd(p, t3)
    ensures Dvd(p, Coefficient(eta, d1, d3, a1, a2, a3, w1, w2, w3,
                               2 * a1 + f1 + t1, 2 * a2 + f2 + t2, 2 * a3 + f3 + t3))
  {
    hide Dvd, Coefficient;
    ShapeOf(eta, d1, d3, a1, a2, a3, w1, w2, w3, f1, f2, f3, t1, t2, t3);
    TwoMultiples(p, t3, a1, t1, a3);
    TwoMultiples(p, t3, a2, t2, a3);
    TwoMultiples(p, t2, a1, t1, a2);
    var x, y, z := t3 * a1 - t1 * a3, t3 * a2 - t2 * a3, t2 * a1 - t1 * a2;
    Combine4(p, x, eta, y, -(d3 * w1), z, -(d1 * w3), t1, 0);
    Regroup(eta, d3 * w1, d1 * w3, x, y, z);
  }

  lemma Regroup(k: int, l: int, m: int, x: int, y: int, z: int)
    ensures x * k + y * -l + z * -m == k * x - l * y - m * z
  {
  }

  lemma TwoMultiples(p: int, e: int, x: int, f: int, y: int)
    requires p > 0 && Dvd(p, e) && Dvd(p, f)
    ensures Dvd(p, e * x - f * y)
  {
    DvdMul(p, e, x);
    DvdMul(p, f, y);
    DvdAdd(p, e * x, f * y);
  }

  // The cross-multiplied difference.  u_i, v_i, z_i stand for m_i times the symmetric sum sigma
  // and the two alternating sums tau3 and tau1 of the numerators.

  datatype Terms = Terms(u1: int, u2: int, u3: int, v1: int, v2: int, v3: int, z1: int, z2: int, z3: int)

  datatype Env = Env(eta: int, w1: int, w2: int, w3: int, s1: int, s2: int, s3: int)

  function Plus(a: Terms, b: Terms): Terms {
    Terms(a.u1 + b.u1, a.u2 + b.u2, a.u3 + b.u3, a.v1 + b.v1, a.v2 + b.v2, a.v3 + b.v3,
          a.z1 + b.z1, a.z2 + b.z2, a.z3 + b.z3)
  }

  function Spread(e: Env, t: Terms): int {
    (e.w1 - e.w3) * t.u2 + e.eta * (e.s3 * t.u1 - e.s1 * t.u3)
    + ((1 - e.w2 * e.w3) * t.v1 + e.eta * e.w1 * (e.s3 * t.v2 + e.s2 * t.v3))
    - ((1 - e.w1 * e.w2) * t.z3 + e.eta * e.w3 * (e.s2 * t.z1 + e.s1 * t.z2))
  }

  lemma LinearPair(k: int, a: int, b: int, x: int, y: int, x': int, y': int)
    ensures k * (a * (x + x') + b * (y + y')) == k * (a * x + b * y) + k * (a * x' + b * y')
  {
  }

  lemma SpreadPlus(e: Env, a: Terms, b: Terms)
    ensures Spread(e, Plus(a, b)) == Spread(e, a) + Spread(e, b)
  {
    LinearPair(e.eta, e.s3, -e.s1, a.u1, a.u3, b.u1, b.u3);
    LinearPair(e.eta * e.w1, e.s3, e.s2, a.v2, a.v3, b.v2, b.v3);
    LinearPair(e.eta * e.w3, e.s2, e.s1, a.z1, a.z2, b.z1, b.z2);
  }

  /** What one monomial t contributes. */
  function Basis(eta: int, d1: int, d3: int, a1: int, a2: int, a3: int, t: int): Terms {
    Terms(a1 * t, a2 * t, a3 * t,
          -(eta * d3) * (a1 * t), -(eta * d3) * (a2 * t), eta * d3 * (a3 * t),
          eta * d1 * (a1 * t), -(eta * d1) * (a2 * t), -(eta * d1) * (a3 * t))
  }

  lemma EtaOnce(eta: int, w: int, d: int, x: int, y: int, z: int)
    requires eta * eta == 1
    ensures eta * w * (x * (-(eta * d) * y) + z) == -(d * w * (x * y)) + eta * w * z
  {
    assert eta * w * (x * (-(eta * d) * y)) == -((eta * eta) * (d * w * (x * y)));
  }

  lemma EtaTwice(eta: int, w: int, d: int, s: int, y: int, r: int, z: int)
    requires eta * eta == 1
    ensures eta * w * (s * (-(eta * d) * y) + r * (eta * d * z)) == -(d * w * (s * y - r * z))
    ensures eta * w * (r * (eta * d * z) + s * (-(eta * d) * y)) == d * w * (r * z - s * y)
  {
    EtaOnce(eta, w, d, s, y, r * (eta * d * z));
    assert eta * w * (r * (eta * d * z)) == (eta * eta) * (d * w * (r * z));
  }

  lemma SpreadBasis(e: Env, d1: int, d3: int, a1: int, a2: int, a3: int, t: int)
    requires e.eta * e.eta == 1
    ensures Spread(e, Basis(e.eta, d1, d3, a1, a2, a3, t))
         == t * Coefficient(e.eta, d1, d3, a1, a2, a3, e.w1, e.w2, e.w3, e.s1, e.s2, e.s3)
  {
    var b1, b2, b3 := a1 * t, a2 * t, a3 * t;
    EtaTwice(e.eta, e.w1, d3, e.s3, b2, e.s2, b3);
    EtaTwice(e.eta, e.w3, d1, e.s1, b2, e.s2, b1);
    ShapeScaled(e, d1, d3, a1, a2, a3, t);
  }

  lemma ShapeScaled(e: Env, d1: int, d3: int, a1: int, a2: int, a3: int, t: int)
    ensures (e.w1 - e.w3) * (a2 * t) + e.eta * (e.s3 * (a1 * t) - e.s1 * (a3 * t))
          + ((1 - e.w2 * e.w3) * (-(e.eta * d3) * (a1 * t)) - d3 * e.w1 * (e.s3 * (a2 * t) - e.s2 * (a3 * t)))
          - ((1 - e.w1 * e.w2) * (-(e.eta * d1) * (a3 * t)) + d1 * e.w3 * (e.s2 * (a1 * t) - e.s1 * (a2 * t)))
         == t * Coefficient(e.eta, d1, d3, a1, a2, a3, e.w1, e.w2, e.w3, e.s1, e.s2, e.s3)
  {
    var x13, x23, x12 := e.s3 * a1 - e.s1 * a3, e.s3 * a2 - e.s2 * a3, e.s2 * a1 - e.s1 * a2;
    ScaledDifference(e.s3, a1, e.s1, a3, t);
    ScaledDifference(e.s3, a2, e.s2, a3, t);
    ScaledDifference(e.s2, a1, e.s1, a2, t);
    ScaledSix(t, e.w1 - e.w3, a2, e.eta, x13, e.eta * d3 * a1, 1 - e.w2 * e.w3, d3 * e.w1, x23,
              e.eta * d1 * a3, 1 - e.w1 * e.w2, d1 * e.w3, x12);
    ScaledNegative(1 - e.w2 * e.w3, e.eta * d3, a1, t);
    ScaledNegative(1 - e.w1 * e.w2, e.eta * d1, a3, t);
  }

  lemma ScaledDifference(s: int, a: int, s': int, a': int, t: int)
    ensures s * (a * t) - s' * (a' * t) == (s * a - s' * a') * t
  {
  }

  lemma ScaledNegative(f: int, e: int, a: int, t: int)
    ensures f * (-e * (a * t)) == -(e * a * f * t)
  {
    assert f * (-e * (a * t)) == (f * -e) * (a * t) == -(e * f * (a * t));
  }

  lemma ScaledSix(t: int, a: int, b: int, c: int, d: int, e: int, f: int, g: int, h: int,
                  i: int, j: int, k: int, l: int)
    ensures a * (b * t) + c * (d * t) - e * f * t - g * (h * t) + i * j * t - k * (l * t)
         == t * (a * b + c * d - e * f - g * h + i * j - k * l)
  {
  }

  /** The denominator of (P1 + P2) + P3 (or, with 1 and 3 exchanged, of P1 + (P2 + P3)), cleared. */
  function Denominator(eta: int, d: int, k: int, m1: int, m2: int, m3: int, s1: int, s2: int): int {
    1 - k * k + eta * d * m3 * (m1 * s2 + m2 * s1)
  }

  lemma SquareOfKappa(d: int, m: int, n: int)
    ensures (d * m * n) * (d * m * n) == (d * (m * m)) * (d * (n * n))
    ensures (d * m * n) * (d * m * n) == (d * m) * (m * (d * (n * n)))
  {
    MulSwap(d * m, n, d * m, n);
    MulSwap(d, m, d, m);
    MulSwap(d, m * m, d, n * n);
    assert (d * m) * (m * (d * (n * n))) == (d * (m * m)) * (d * (n * n));
  }

  lemma DenominatorGap(eta: int, d: int, m1: int, m2: int, m3: int, s1: int, s2: int, s3: int, w1: int, w3: int)
    requires w1 == d * (m1 * m1) && w3 == d * (m3 * m3)
    ensures Denominator(eta, d, d * m2 * m3, m3, m2, m1, s3, s2) - Denominator(eta, d, d * m1 * m2, m1, m2, m3, s1, s2)
         == d * m2 * (m2 * (w1 - w3) + eta * (m1 * s3 - m3 * s1))
  {
    SquareOfKappa(d, m2, m1);
    SquareOfKappa(d, m2, m3);
    assert d * m1 * m2 == d * m2 * m1;
    GapAtoms(eta * d, m1, m2, m3, s1, s2, s3);
    GapLinear(d * m2, m2, w1, w3, eta * d * m2 * (m1 * s3 - m3 * s1), eta, m1 * s3 - m3 * s1, d);
  }

  lemma GapLinear(g: int, m2: int, w1: int, w3: int, x: int, eta: int, y: int, d: int)
    requires g == d * m2 && x == eta * d * m2 * y
    ensures g * (m2 * w1) - g * (m2 * w3) + x == g * (m2 * (w1 - w3) + eta * y)
  {
    assert x == g * (eta * y);
    assert m2 * (w1 - w3) == m2 * w1 - m2 * w3;
  }

  lemma GapAtoms(h: int, m1: int, m2: int, m3: int, s1: int, s2: int, s3: int)
    ensures h * m1 * (m3 * s2 + m2 * s3) - h * m3 * (m1 * s2 + m2 * s1) == h * m2 * (m1 * s3 - m3 * s1)
  {
  }

  /** k tau B is d m2 times the terms of Spread that belong to tau. */
  lemma OneSide(eta: int, d: int, m1: int, m2: int, m3: int, s2: int, s3: int, w1: int, w2: int, w3: int, tau: int)
    requires w1 == d * (m1 * m1) && w2 == d * (m2 * m2) && w3 == d * (m3 * m3)
    ensures d * m1 * m2 * tau * Denominator(eta, d, d * m2 * m3, m3, m2, m1, s3, s2)
         == d * m2 * ((1 - w2 * w3) * (m1 * tau) + eta * w1 * (s3 * (m2 * tau) + s2 * (m3 * tau)))
  {
    var x := m3 * s2 + m2 * s3;
    SquareOfKappa(d, m2, m3);
    OneSideAtoms(eta, d, m1, x, tau);
    assert tau * x == s3 * (m2 * tau) + s2 * (m3 * tau);
    OneSideLinear(d, m1, m2, tau, w2 * w3, eta * d * m1 * x, eta * w1 * (tau * x));
  }

  lemma OneSideLinear(d: int, m1: int, m2: int, tau: int, kk: int, y: int, z: int)
    requires (m1 * tau) * y == z
    ensures d * m1 * m2 * tau * (1 - kk + y) == d * m2 * ((1 - kk) * (m1 * tau) + z)
  {
    var t := m1 * tau;
    assert d * m1 * m2 * tau == d * m2 * t;
    assert t * (1 - kk + y) == (1 - kk) * t + z;
    assert d * m2 * t * (1 - kk + y) == d * m2 * (t * (1 - kk + y));
  }

  lemma OneSideAtoms(eta: int, d: int, m: int, x: int, tau: int)
    ensures (m * tau) * (eta * d * m * x) == eta * (d * (m * m)) * (tau * x)
  {
  }

  lemma CrossDifference(d: int, m1: int, m2: int, m3: int, sigma: int, tau3: int, tau1: int, e: Env)
    requires e.w1 == d * (m1 * m1) && e.w2 == d * (m2 * m2) && e.w3 == d * (m3 * m3)
    ensures var b1 := Denominator(e.eta, d, d * m1 * m2, m1, m2, m3, e.s1, e.s2);
            var b2 := Denominator(e.eta, d, d * m2 * m3, m3, m2, m1, e.s3, e.s2);
      (sigma + d * m1 * m2 * tau3) * b2 - (sigma + d * m2 * m3 * tau1) * b1
      == d * m2 * Spread(e, Terms(m1 * sigma, m2 * sigma, m3 * sigma, m1 * tau3, m2 * tau3, m3 * tau3,
                                  m1 * tau1, m2 * tau1, m3 * tau1))
  {
    var b1 := Denominator(e.eta, d, d * m1 * m2, m1, m2, m3, e.s1, e.s2);
    var b2 := Denominator(e.eta, d, d * m2 * m3, m3, m2, m1, e.s3, e.s2);
    DenominatorGap(e.eta, d, m1, m2, m3, e.s1, e.s2, e.s3, e.w1, e.w3);
    OneSide(e.eta, d, m1, m2, m3, e.s2, e.s3, e.w1, e.w2, e.w3, tau3);
    OneSide(e.eta, d, m3, m2, m1, e.s2, e.s1, e.w3, e.w2, e.w1, tau1);
    Reorder(d, m1, m2, m3);
    hide Denominator;
    GapTimesSigma(d * m2, m2, e.w1 - e.w3, e.eta, m1, e.s3, m3, e.s1, sigma);
    CrossLinear(d * m2, sigma, d * m1 * m2 * tau3, d * m2 * m3 * tau1, b1, b2,
                (e.w1 - e.w3) * (m2 * sigma) + e.eta * (e.s3 * (m1 * sigma) - e.s1 * (m3 * sigma)),
                (1 - e.w2 * e.w3) * (m1 * tau3) + e.eta * e.w1 * (e.s3 * (m2 * tau3) + e.s2 * (m3 * tau3)),
                (1 - e.w1 * e.w2) * (m3 * tau1) + e.eta * e.w3 * (e.s2 * (m1 * tau1) + e.s1 * (m2 * tau1)));
  }

  lemma Reorder(d: int, m1: int, m2: int, m3: int)
    ensures d * m3 * m2 == d * m2 * m3 && d * m2 * m1 == d * m1 * m2
  {
  }

  lemma GapTimesSigma(g: int, m2: int, w: int, eta: int, m1: int, s3: int, m3: int, s1: int, sigma: int)
    ensures sigma * (g * (m2 * w + eta * (m1 * s3 - m3 * s1)))
         == g * (w * (m2 * sigma) + eta * (s3 * (m1 * sigma) - s1 * (m3 * sigma)))
  {
    assert sigma * (m2 * w + eta * (m1 * s3 - m3 * s1)) == w * (m2 * sigma) + eta * (s3 * (m1 * sigma) - s1 * (m3 * sigma));
    assert sigma * (g * (m2 * w + eta * (m1 * s3 - m3 * s1))) == g * (sigma * (m2 * w + eta * (m1 * s3 - m3 * s1)));
  }

  lemma CrossLinear(g: int, sigma: int, x: int, y: int, b1: int, b2: int, p: int, q: int, r: int)
    requires sigma * (b2 - b1) == g * p && x * b2 == g * q && y * b1 == g * r
    ensures (sigma + x) * b2 - (sigma + y) * b1 == g * (p + q - r)
  {
    assert (sigma + x) * b2 - (sigma + y) * b1 == sigma * (b2 - b1) + x * b2 - y * b1;
  }

  function W(d: int, a: Affine): int { d * ((a.x * a.y) * (a.x * a.y)) }

  function S(a: Affine): int { a.y * a.y + a.x * a.x }

  function Square(sign: int, a: Affine): int {
    if sign == 1 then a.x * a.x else a.y * a.y
  }

  function EnvOf(eta: int, d: int, a: Affine, b: Affine, c: Affine): Env {
    Env(eta, W(d, a), W(d, b), W(d, c), S(a), S(b), S(c))
  }

  lemma SumOfSquares(d: int, sign: int, a: Affine)
    requires Sign(sign)
    ensures S(a) == 2 * Square(sign, a) + sign * (1 + W(d, a)) + sign * CurveExpr(d, a.x, a.y)
  {
    CurveExprAtoms(d, a.x, a.y);
  }

  lemma BasisVanishes(p: int, d: int, eta: int, d1: int, d3: int, a: Affine, b: Affine, c: Affine, t: int)
    requires p > 0 && Sign(eta) && Sign(d1) && Sign(d3)
    requires Dvd(p, CurveExpr(d, a.x, a.y)) && Dvd(p, CurveExpr(d, b.x, b.y)) && Dvd(p, CurveExpr(d, c.x, c.y))
    ensures Dvd(p, Spread(EnvOf(eta, d, a, b, c),
                          Basis(eta, d1, d3, Square(d1, a), Square(eta * d1 * d3, b), Square(d3, c), t)))
  {
    hide Dvd, Coefficient, Spread, Basis, CurveExpr, W, S, Square;
    var d2 := eta * d1 * d3;
    assert Sign(d2) && d1 * d1 == 1 && d3 * d3 == 1 && eta * eta == 1;
    SumOfSquares(d, d1, a);
    SumOfSquares(d, d2, b);
    SumOfSquares(d, d3, c);
    SpreadBasis(EnvOf(eta, d, a, b, c), d1, d3, Square(d1, a), Square(d2, b), Square(d3, c), t);
    DvdMul(p, CurveExpr(d, a.x, a.y), d1);
    DvdMul(p, CurveExpr(d, b.x, b.y), d2);
    DvdMul(p, CurveExpr(d, c.x, c.y), d3);
    CoefficientVanishes(p, eta, d1, d3, Square(d1, a), Square(d2, b), Square(d3, c), W(d, a), W(d, b), W(d, c),
                        d1 * (1 + W(d, a)), d2 * (1 + W(d, b)), d3 * (1 + W(d, c)),
                        d1 * CurveExpr(d, a.x, a.y), d2 * CurveExpr(d, b.x, b.y), d3 * CurveExpr(d, c.x, c.y));
    DvdMul(p, Coefficient(eta, d1, d3, Square(d1, a), Square(d2, b), Square(d3, c),
                          W(d, a), W(d, b), W(d, c), S(a), S(b), S(c)), t);
  }

  /** A factor x of a monomial, at each of the three positions, times x y: y takes its place. */
  lemma Exchange1(x: int, y: int, u: int, v: int)
    ensures (x * y) * (x * u * v) == (x * x) * (y * u * v)
    ensures (y * x) * (x * u * v) == (x * x) * (y * u * v)
  {
    MulSwap(x, y, x, u * v);
    assert x * u * v == x * (u * v) && y * u * v == y * (u * v);
  }

  lemma Exchange2(x: int, y: int, u: int, v: int)
    ensures (x * y) * (u * x * v) == (x * x) * (u * y * v)
    ensures (y * x) * (u * x * v) == (x * x) * (u * y * v)
  {
    Exchange1(x, y, u, v);
    assert u * x * v == x * u * v && u * y * v == y * u * v;
  }

  lemma Exchange3(x: int, y: int, u: int, v: int)
    ensures (x * y) * (u * v * x) == (x * x) * (u * v * y)
    ensures (y * x) * (u * v * x) == (x * x) * (u * v * y)
  {
    Exchange1(x, y, u, v);
    assert u * v * x == x * u * v && u * v * y == y * u * v;
  }

  /** The products x1 y1, x2 y2, x3 y3 permute the eight monomials in the coordinates. */
  lemma Monomials1(x1: int, y1: int, x2: int, y2: int, x3: int, y3: int)
    ensures (x1 * y1) * (x1 * y2 * y3) == (x1 * x1) * (y1 * y2 * y3)
    ensures (x1 * y1) * (y1 * x2 * y3) == (y1 * y1) * (x1 * x2 * y3)
    ensures (x1 * y1) * (y1 * y2 * x3) == (y1 * y1) * (x1 * y2 * x3)
    ensures (x1 * y1) * (x1 * x2 * x3) == (x1 * x1) * (y1 * x2 * x3)
  {
    Exchange1(x1, y1, y2, y3);
    Exchange1(y1, x1, x2, y3);
    Exchange1(y1, x1, y2, x3);
    Exchange1(x1, y1, x2, x3);
  }

  lemma Monomials2(x1: int, y1: int, x2: int, y2: int, x3: int, y3: int)
    ensures (x2 * y2) * (x1 * y2 * y3) == (y2 * y2) * (x1 * x2 * y3)
    ensures (x2 * y2) * (y1 * x2 * y3) == (x2 * x2) * (y1 * y2 * y3)
    ensures (x2 * y2) * (y1 * y2 * x3) == (y2 * y2) * (y1 * x2 * x3)
    ensures (x2 * y2) * (x1 * x2 * x3) == (x2 * x2) * (x1 * y2 * x3)
  {
    Exchange2(y2, x2, x1, y3);
    Exchange2(x2, y2, y1, y3);
    Exchange2(y2, x2, y1, x3);
    Exchange2(x2, y2, x1, x3);
  }

  lemma Monomials3(x1: int, y1: int, x2: int, y2: int, x3: int, y3: int)
    ensures (x3 * y3) * (x1 * y2 * y3) == (y3 * y3) * (x1 * y2 * x3)
    ensures (x3 * y3) * (y1 * x2 * y3) == (y3 * y3) * (y1 * x2 * x3)
    ensures (x3 * y3) * (y1 * y2 * x3) == (x3 * x3) * (y1 * y2 * y3)
    ensures (x3 * y3) * (x1 * x2 * x3) == (x3 * x3) * (x1 * x2 * y3)
  {
    Exchange3(y3, x3, x1, y2);
    Exchange3(y3, x3, y1, x2);
    Exchange3(x3, y3, y1, y2);
    Exchange3(x3, y3, x1, x2);
  }

  lemma FourTimes(m: int, a: int, b: int, c: int, e: int)
    ensures m * (a + b + c + e) == m * a + m * b + m * c + m * e
    ensures m * (c + e - a - b) == m * c + m * e - m * a - m * b
    ensures m * (a + e - b - c) == m * a + m * e - m * b - m * c
  {
  }

  lemma DualMonomials1(x1: int, y1: int, x2: int, y2: int, x3: int, y3: int)
    ensures (x1 * y1) * (y1 * y2 * y3) == (y1 * y1) * (x1 * y2 * y3)
    ensures (x1 * y1) * (y1 * x2 * x3) == (y1 * y1) * (x1 * x2 * x3)
    ensures (x1 * y1) * (x1 * y2 * x3) == (x1 * x1) * (y1 * y2 * x3)
    ensures (x1 * y1) * (x1 * x2 * y3) == (x1 * x1) * (y1 * x2 * y3)
  {
    Exchange1(y1, x1, y2, y3);
    Exchange1(y1, x1, x2, x3);
    Exchange1(x1, y1, y2, x3);
    Exchange1(x1, y1, x2, y3);
  }

  lemma DualMonomials2(x1: int, y1: int, x2: int, y2: int, x3: int, y3: int)
    ensures (x2 * y2) * (y1 * y2 * y3) == (y2 * y2) * (y1 * x2 * y3)
    ensures (x2 * y2) * (y1 * x2 * x3) == (x2 * x2) * (y1 * y2 * x3)
    ensures (x2 * y2) * (x1 * y2 * x3) == (y2 * y2) * (x1 * x2 * x3)
    ensures (x2 * y2) * (x1 * x2 * y3) == (x2 * x2) * (x1 * y2 * y3)
  {
    Exchange2(y2, x2, y1, y3);
    Exchange2(x2, y2, y1, x3);
    Exchange2(y2, x2, x1, x3);
    Exchange2(x2, y2, x1, y3);
  }

  lemma DualMonomials3(x1: int, y1: int, x2: int, y2: int, x3: int, y3: int)
    ensures (x3 * y3) * (y1 * y2 * y3) == (y3 * y3) * (y1 * y2 * x3)
    ensures (x3 * y3) * (y1 * x2 * x3) == (x3 * x3) * (y1 * x2 * y3)
    ensures (x3 * y3) * (x1 * y2 * x3) == (x3 * x3) * (x1 * y2 * y3)
    ensures (x3 * y3) * (x1 * x2 * y3) == (y3 * y3) * (x1 * x2 * x3)
  {
    Exchange3(y3, x3, y1, y2);
    Exchange3(x3, y3, y1, x2);
    Exchange3(x3, y3, x1, y2);
    Exchange3(y3, x3, x1, x2);
  }

  /** m_i times the three sums of a, b, c, e. */
  function TermsOf(m1: int, m2: int, m3: int, a: int, b: int, c: int, e: int): Terms {
    var u, v, z := a + b + c + e, c + e - a - b, a + e - b - c;
    Terms(m1 * u, m2 * u, m3 * u, m1 * v, m2 * v, m3 * v, m1 * z, m2 * z, m3 * z)
  }

  /** The terms of the abscissa, sorted by monomial. */
  lemma AbscissaTerms(x1: int, y1: int, x2: int, y2: int, x3: int, y3: int)
    ensures
      TermsOf(x1 * y1, x2 * y2, x3 * y3, x1 * y2 * y3, y1 * x2 * y3, y1 * y2 * x3, x1 * x2 * x3)
      == Plus(Plus(Basis(1, 1, 1, x1 * x1, x2 * x2, x3 * x3, y1 * y2 * y3),
                   Basis(1, 1, -1, x1 * x1, y2 * y2, y3 * y3, y1 * x2 * x3)),
              Plus(Basis(1, -1, -1, y1 * y1, x2 * x2, y3 * y3, x1 * y2 * x3),
                   Basis(1, -1, 1, y1 * y1, y2 * y2, x3 * x3, x1 * x2 * y3)))
  {
    var a, b, c, e := x1 * y2 * y3, y1 * x2 * y3, y1 * y2 * x3, x1 * x2 * x3;
    Monomials1(x1, y1, x2, y2, x3, y3);
    Monomials2(x1, y1, x2, y2, x3, y3);
    Monomials3(x1, y1, x2, y2, x3, y3);
    FourTimes(x1 * y1, a, b, c, e);
    FourTimes(x2 * y2, a, b, c, e);
    FourTimes(x3 * y3, a, b, c, e);
  }

  /** The terms of the ordinate, sorted by monomial. */
  lemma OrdinateTerms(x1: int, y1: int, x2: int, y2: int, x3: int, y3: int)
    ensures
      TermsOf(x1 * y1, x2 * y2, x3 * y3, y1 * x2 * x3, x1 * y2 * x3, x1 * x2 * y3, y1 * y2 * y3)
      == Plus(Plus(Basis(-1, -1, 1, y1 * y1, x2 * x2, x3 * x3, x1 * y2 * y3),
                   Basis(-1, 1, 1, x1 * x1, y2 * y2, x3 * x3, y1 * x2 * y3)),
              Plus(Basis(-1, 1, -1, x1 * x1, x2 * x2, y3 * y3, y1 * y2 * x3),
                   Basis(-1, -1, -1, y1 * y1, y2 * y2, y3 * y3, x1 * x2 * x3)))
  {
    var a, b, c, e := y1 * x2 * x3, x1 * y2 * x3, x1 * x2 * y3, y1 * y2 * y3;
    DualMonomials1(x1, y1, x2, y2, x3, y3);
    DualMonomials2(x1, y1, x2, y2, x3, y3);
    DualMonomials3(x1, y1, x2, y2, x3, y3);
    FourTimes(x1 * y1, a, b, c, e);
    FourTimes(x2 * y2, a, b, c, e);
    FourTimes(x3 * y3, a, b, c, e);
  }

  lemma SpreadPlusVanishes(p: int, e: Env, a: Terms, b: Terms)
    requires p > 0 && Dvd(p, Spread(e, a)) && Dvd(p, Spread(e, b))
    ensures Dvd(p, Spread(e, Plus(a, b)))
  {
    hide Dvd;
    SpreadPlus(e, a, b);
    DvdAdd(p, Spread(e, a), Spread(e, b));
  }

  predicate AllOnCurve(c: Curve, p1: Affine, p2: Affine, p3: Affine)
    requires c.p > 0
  {
    OnCurve(c, p1) && OnCurve(c, p2) && OnCurve(c, p3)
  }

  lemma AbscissaVanishes(c: Curve, p1: Affine, p2: Affine, p3: Affine)
    requires c.p > 0 && AllOnCurve(c, p1, p2, p3)
    ensures Dvd(c.p, Spread(EnvOf(1, c.d, p1, p2, p3),
      TermsOf(p1.x * p1.y, p2.x * p2.y, p3.x * p3.y,
              p1.x * p2.y * p3.y, p1.y * p2.x * p3.y, p1.y * p2.y * p3.x, p1.x * p2.x * p3.x)))
  {
    hide Dvd, Spread, Basis, Plus, EnvOf, TermsOf, CurveExpr;
    var e, p := EnvOf(1, c.d, p1, p2, p3), c.p;
    AbscissaTerms(p1.x, p1.y, p2.x, p2.y, p3.x, p3.y);
    BasisVanishes(p, c.d, 1, 1, 1, p1, p2, p3, p1.y * p2.y * p3.y);
    BasisVanishes(p, c.d, 1, 1, -1, p1, p2, p3, p1.y * p2.x * p3.x);
    BasisVanishes(p, c.d, 1, -1, -1, p1, p2, p3, p1.x * p2.y * p3.x);
    BasisVanishes(p, c.d, 1, -1, 1, p1, p2, p3, p1.x * p2.x * p3.y);
    var b1 := Basis(1, 1, 1, p1.x * p1.x, p2.x * p2.x, p3.x * p3.x, p1.y * p2.y * p3.y);
    var b2 := Basis(1, 1, -1, p1.x * p1.x, p2.y * p2.y, p3.y * p3.y, p1.y * p2.x * p3.x);
    var b3 := Basis(1, -1, -1, p1.y * p1.y, p2.x * p2.x, p3.y * p3.y, p1.x * p2.y * p3.x);
    var b4 := Basis(1, -1, 1, p1.y * p1.y, p2.y * p2.y, p3.x * p3.x, p1.x * p2.x * p3.y);
    SpreadPlusVanishes(p, e, b1, b2);
    SpreadPlusVanishes(p, e, b3, b4);
    SpreadPlusVanishes(p, e, Plus(b1, b2), Plus(b3, b4));
  }

  lemma OrdinateVanishes(c: Curve, p1: Affine, p2: Affine, p3: Affine)
    requires c.p > 0 && AllOnCurve(c, p1, p2, p3)
    ensures Dvd(c.p, Spread(EnvOf(-1, c.d, p1, p2, p3),
      TermsOf(p1.x * p1.y, p2.x * p2.y, p3.x * p3.y,
              p1.y * p2.x * p3.x, p1.x * p2.y * p3.x, p1.x * p2.x * p3.y, p1.y * p2.y * p3.y)))
  {
    hide Dvd, Spread, Basis, Plus, EnvOf, TermsOf, CurveExpr;
    var e, p := EnvOf(-1, c.d, p1, p2, p3), c.p;
    OrdinateTerms(p1.x, p1.y, p2.x, p2.y, p3.x, p3.y);
    BasisVanishes(p, c.d, -1, -1, 1, p1, p2, p3, p1.x * p2.y * p3.y);
    BasisVanishes(p, c.d, -1, 1, 1, p1, p2, p3, p1.y * p2.x * p3.y);
    BasisVanishes(p, c.d, -1, 1, -1, p1, p2, p3, p1.y * p2.y * p3.x);
    BasisVanishes(p, c.d, -1, -1, -1, p1, p2, p3, p1.x * p2.x * p3.x);
    var b1 := Basis(-1, -1, 1, p1.y * p1.y, p2.x * p2.x, p3.x * p3.x, p1.x * p2.y * p3.y);
    var b2 := Basis(-1, 1, 1, p1.x * p1.x, p2.y * p2.y, p3.x * p3.x, p1.y * p2.x * p3.y);
    var b3 := Basis(-1, 1, -1, p1.x * p1.x, p2.x * p2.x, p3.y * p3.y, p1.y * p2.y * p3.x);
    var b4 := Basis(-1, -1, -1, p1.y * p1.y, p2.y * p2.y, p3.y * p3.y, p1.x * p2.x * p3.x);
    SpreadPlusVanishes(p, e, b1, b2);
    SpreadPlusVanishes(p, e, b3, b4);
    SpreadPlusVanishes(p, e, Plus(b1, b2), Plus(b3, b4));
  }

  // ---- clearing the denominators of (P1 + P2) + P3 ----

  /** From l (1 + eta g r q) = r u + q v modulo p, with r f = n and q h = m: multiply by f h. */
  lemma ClearDenominators(p: int, l: int, eta: int, g: int, r: int, q: int, u: int, v: int,
                          f: int, h: int, n: int, m: int)
    requires p > 0 && Cong(p, r * f, n) && Cong(p, q * h, m)
    requires Cong(p, l * (1 + eta * (g * (r * q))), r * u + q * v)
    ensures Cong(p, l * (f * h + eta * (g * (n * m))), n * h * u + m * f * v)
    ensures Cong(p, f * h * (1 + eta * (g * (r * q))), f * h + eta * (g * (n * m)))
  {
    hide Dvd;
    var fh, k := f * h, eta * (g * (r * q));
    // denominator
    CongMul(p, r * f, n, q * h, m);
    CongRefl(p, eta * g);
    CongMul(p, eta * g, eta * g, (r * f) * (q * h), n * m);
    CongRefl(p, fh);
    CongAdd(p, fh, fh, (eta * g) * ((r * f) * (q * h)), (eta * g) * (n * m));
    ClearedDenominator(eta, g, r, q, f, h);
    assert (eta * g) * (n * m) == eta * (g * (n * m));
    // numerator
    CongRefl(p, h * u);
    CongRefl(p, f * v);
    CongMul(p, r * f, n, h * u, h * u);
    CongMul(p, q * h, m, f * v, f * v);
    CongAdd(p, (r * f) * (h * u), n * (h * u), (q * h) * (f * v), m * (f * v));
    ClearedNumerator(r, q, u, v, f, h);
    assert n * (h * u) == n * h * u && m * (f * v) == m * f * v;
    // together
    CongMul(p, l * (1 + k), r * u + q * v, fh, fh);
    CongTrans(p, (l * (1 + k)) * fh, (r * u + q * v) * fh, n * h * u + m * f * v);
    CongRefl(p, l);
    CongMul(p, l, l, fh * (1 + k), fh + eta * (g * (n * m)));
    CongSym(p, l * (fh * (1 + k)), l * (fh + eta * (g * (n * m))));
    assert l * (fh * (1 + k)) == (l * (1 + k)) * fh;
    CongTrans(p, l * (fh + eta * (g * (n * m))), l * (fh * (1 + k)), n * h * u + m * f * v);
  }

  lemma ClearedDenominator(eta: int, g: int, r: int, q: int, f: int, h: int)
    ensures f * h + (eta * g) * ((r * f) * (q * h)) == f * h * (1 + eta * (g * (r * q)))
  {
    MulSwap(r, f, q, h);
    assert (eta * g) * ((r * q) * (f * h)) == f * h * (eta * (g * (r * q)));
  }

  lemma ClearedNumerator(r: int, q: int, u: int, v: int, f: int, h: int)
    ensures (r * f) * (h * u) + (q * h) * (f * v) == (r * u + q * v) * (f * h)
  {
    FourFactors(r, f, h, u);
    MulSwap(q, h, f, v);
    assert (r * f) * (h * u) == (r * u) * (f * h);
    assert (q * h) * (f * v) == (q * v) * (f * h);
  }

  lemma AbscissaNumerator(x1: int, y1: int, x2: int, y2: int, x3: int, y3: int, k: int)
    ensures (x1 * y2 + y1 * x2) * (1 - k) * y3 + (y1 * y2 + x1 * x2) * (1 + k) * x3
         == (x1 * y2 * y3 + y1 * x2 * y3 + y1 * y2 * x3 + x1 * x2 * x3)
          + k * (y1 * y2 * x3 + x1 * x2 * x3 - x1 * y2 * y3 - y1 * x2 * y3)
  {
    var n, m := x1 * y2 + y1 * x2, y1 * y2 + x1 * x2;
    assert n * (1 - k) * y3 == n * y3 - k * (n * y3) && m * (1 + k) * x3 == m * x3 + k * (m * x3);
    assert n * y3 == x1 * y2 * y3 + y1 * x2 * y3 && m * x3 == y1 * y2 * x3 + x1 * x2 * x3;
  }

  lemma OrdinateNumerator(x1: int, y1: int, x2: int, y2: int, x3: int, y3: int, k: int)
    ensures (y1 * y2 + x1 * x2) * (1 + k) * y3 + (x1 * y2 + y1 * x2) * (1 - k) * x3
         == (y1 * x2 * x3 + x1 * y2 * x3 + x1 * x2 * y3 + y1 * y2 * y3)
          + k * (x1 * x2 * y3 + y1 * y2 * y3 - y1 * x2 * x3 - x1 * y2 * x3)
  {
    var n, m := x1 * y2 + y1 * x2, y1 * y2 + x1 * x2;
    assert n * (1 - k) * x3 == n * x3 - k * (n * x3) && m * (1 + k) * y3 == m * y3 + k * (m * y3);
    assert n * x3 == x1 * y2 * x3 + y1 * x2 * x3 && m * y3 == y1 * y2 * y3 + x1 * x2 * y3;
  }

  function Sum3(c: Curve, p1: Affine, p2: Affine, p3: Affine): Affine
    requires c.p >= 2
  {
    AffineAdd(c, AffineAdd(c, p1, p2), p3)
  }

  function ClearedDen(eta: int, d: int, p1: Affine, p2: Affine, p3: Affine): int {
    var m1, m2, m3 := p1.x * p1.y, p2.x * p2.y, p3.x * p3.y;
    Denominator(eta, d, d * m1 * m2, m1, m2, m3, S(p1), S(p2))
  }

  function ClearedX(d: int, p1: Affine, p2: Affine, p3: Affine): int {
    (p1.x * p2.y * p3.y + p1.y * p2.x * p3.y + p1.y * p2.y * p3.x + p1.x * p2.x * p3.x)
    + d * (p1.x * p1.y) * (p2.x * p2.y)
      * (p1.y * p2.y * p3.x + p1.x * p2.x * p3.x - p1.x * p2.y * p3.y - p1.y * p2.x * p3.y)
  }

  function ClearedY(d: int, p1: Affine, p2: Affine, p3: Affine): int {
    (p1.y * p2.x * p3.x + p1.x * p2.y * p3.x + p1.x * p2.x * p3.y + p1.y * p2.y * p3.y)
    + d * (p1.x * p1.y) * (p2.x * p2.y)
      * (p1.x * p2.x * p3.y + p1.y * p2.y * p3.y - p1.y * p2.x * p3.x - p1.x * p2.y * p3.x)
  }

  lemma NumeratorsBySums(p1: Affine, p2: Affine)
    ensures (p1.x * p2.y + p1.y * p2.x) * (p1.y * p2.y + p1.x * p2.x) == (p1.x * p1.y) * S(p2) + (p2.x * p2.y) * S(p1)
  {
    ProductOfNumerators(p1.x, p1.y, p2.x, p2.y);
  }

  lemma ExpandedDenominator(eta: int, d: int, k: int, m: int, q: int)
    ensures 1 - k * k + eta * d * m * q == (1 + k) * (1 - k) + eta * (d * m * q)
  {
    assert (1 + k) * (1 - k) == 1 - k * k;
    assert eta * d * m * q == eta * (d * m) * q == eta * (d * m * q);
  }

  lemma DenominatorForm(eta: int, d: int, p1: Affine, p2: Affine, p3: Affine, k: int)
    requires k == d * (p1.x * p1.y) * (p2.x * p2.y)
    ensures ClearedDen(eta, d, p1, p2, p3)
         == (1 + k) * (1 - k) + eta * (d * (p3.x * p3.y) * ((p1.x * p2.y + p1.y * p2.x) * (p1.y * p2.y + p1.x * p2.x)))
  {
    hide S;
    NumeratorsBySums(p1, p2);
    ExpandedDenominator(eta, d, k, p3.x * p3.y, (p1.x * p1.y) * S(p2) + (p2.x * p2.y) * S(p1));
  }

  /** The facts about the two additions that both coordinates use. */
  lemma TwoSums(c: Curve, p1: Affine, p2: Affine, p3: Affine)
    requires ValidCurve(c) && AllOnCurve(c, p1, p2, p3)
    ensures var r, l := AffineAdd(c, p1, p2), Sum3(c, p1, p2, p3);
      var k, kk := Kappa(c, p1, p2), Kappa(c, r, p3);
      && OnCurve(c, r) && 0 <= l.x < c.p && 0 <= l.y < c.p
      && Cong(c.p, r.x * (1 + k), p1.x * p2.y + p1.y * p2.x) && Cong(c.p, r.y * (1 - k), p1.y * p2.y + p1.x * p2.x)
      && Cong(c.p, l.x * (1 + kk), r.x * p3.y + r.y * p3.x) && Cong(c.p, l.y * (1 - kk), r.y * p3.y + r.x * p3.x)
      && !Dvd(c.p, 1 + k) && !Dvd(c.p, 1 - k) && !Dvd(c.p, 1 + kk) && !Dvd(c.p, 1 - kk)
  {
    hide Dvd, OnCurve, AffineAdd, Kappa, Cong;
    var r := AffineAdd(c, p1, p2);
    AddStaysOnCurve(c, p1, p2);
    AffineAddFractions(c, p1, p2);
    AffineAddFractions(c, r, p3);
    DenominatorsInvertible(c, p1, p2);
    DenominatorsInvertible(c, r, p3);
  }

  lemma ThreeInvertible(p: int, a: int, b: int, c: int, d: int)
    requires IsPrime(p) && !Dvd(p, a) && !Dvd(p, b) && !Dvd(p, c) && Cong(p, a * b * c, d)
    ensures !Dvd(p, d)
  {
    hide Dvd;
    Euclid(p, a, b);
    Euclid(p, a * b, c);
    CongDvd(p, a * b * c, d);
  }

  lemma SumOfThreeX(c: Curve, p1: Affine, p2: Affine, p3: Affine)
    requires ValidCurve(c) && AllOnCurve(c, p1, p2, p3)
    ensures var l := Sum3(c, p1, p2, p3);
      && Cong(c.p, l.x * ClearedDen(1, c.d, p1, p2, p3), ClearedX(c.d, p1, p2, p3))
      && !Dvd(c.p, ClearedDen(1, c.d, p1, p2, p3))
  {
    hide Dvd, OnCurve, ClearedDen, Denominator, Cong, AffineAdd, AllOnCurve;
    TwoSums(c, p1, p2, p3);
    var r, k, g := AffineAdd(c, p1, p2), Kappa(c, p1, p2), c.d * (p3.x * p3.y);
    var l, kk := Sum3(c, p1, p2, p3), Kappa(c, r, p3);
    var n, m := p1.x * p2.y + p1.y * p2.x, p1.y * p2.y + p1.x * p2.x;
    OtherKappa(c.d, r.x, r.y, p3.x, p3.y);
    ClearDenominators(c.p, l.x, 1, g, r.x, r.y, p3.y, p3.x, 1 + k, 1 - k, n, m);
    DenominatorForm(1, c.d, p1, p2, p3, k);
    AbscissaNumerator(p1.x, p1.y, p2.x, p2.y, p3.x, p3.y, k);
    ThreeInvertible(c.p, 1 + k, 1 - k, 1 + kk, ClearedDen(1, c.d, p1, p2, p3));
  }

  lemma SumOfThreeY(c: Curve, p1: Affine, p2: Affine, p3: Affine)
    requires ValidCurve(c) && AllOnCurve(c, p1, p2, p3)
    ensures var l := Sum3(c, p1, p2, p3);
      && Cong(c.p, l.y * ClearedDen(-1, c.d, p1, p2, p3), ClearedY(c.d, p1, p2, p3))
      && !Dvd(c.p, ClearedDen(-1, c.d, p1, p2, p3))
  {
    hide Dvd, OnCurve, ClearedDen, Denominator, Cong, AffineAdd, AllOnCurve;
    TwoSums(c, p1, p2, p3);
    var r, k, g := AffineAdd(c, p1, p2), Kappa(c, p1, p2), c.d * (p3.x * p3.y);
    var l, kk := Sum3(c, p1, p2, p3), Kappa(c, r, p3);
    var n, m := p1.x * p2.y + p1.y * p2.x, p1.y * p2.y + p1.x * p2.x;
    OtherKappa(c.d, r.x, r.y, p3.x, p3.y);
    ClearDenominators(c.p, l.y, -1, g, r.x, r.y, p3.x, p3.y, 1 + k, 1 - k, n, m);
    DenominatorForm(-1, c.d, p1, p2, p3, k);
    OrdinateNumerator(p1.x, p1.y, p2.x, p2.y, p3.x, p3.y, k);
    ThreeInvertible(c.p, 1 + k, 1 - k, 1 - kk, ClearedDen(-1, c.d, p1, p2, p3));
  }

  lemma OtherKappa(d: int, rx: int, ry: int, x: int, y: int)
    ensures d * (rx * ry) * (x * y) == (d * (x * y)) * (rx * ry) == (d * (x * y)) * (ry * rx)
  {
  }

  lemma SumOfThree(c: Curve, p1: Affine, p2: Affine, p3: Affine)
    requires ValidCurve(c) && AllOnCurve(c, p1, p2, p3)
    ensures var l := Sum3(c, p1, p2, p3);
      && 0 <= l.x < c.p && 0 <= l.y < c.p
      && Cong(c.p, l.x * ClearedDen(1, c.d, p1, p2, p3), ClearedX(c.d, p1, p2, p3))
      && Cong(c.p, l.y * ClearedDen(-1, c.d, p1, p2, p3), ClearedY(c.d, p1, p2, p3))
      && !Dvd(c.p, ClearedDen(1, c.d, p1, p2, p3)) && !Dvd(c.p, ClearedDen(-1, c.d, p1, p2, p3))
  {
    hide *;
    TwoSums(c, p1, p2, p3);
    SumOfThreeX(c, p1, p2, p3);
    SumOfThreeY(c, p1, p2, p3);
  }

  /** Equal cross products of two fractions with invertible denominators: equal quotients. */
  lemma CrossEqual(p: int, l: int, r: int, b1: int, a1: int, b2: int, a2: int)
    requires IsPrime(p) && 0 <= l < p && 0 <= r < p && !Dvd(p, b1) && !Dvd(p, b2)
    requires Cong(p, l * b1, a1) && Cong(p, r * b2, a2) && Dvd(p, a1 * b2 - a2 * b1)
    ensures l == r
  {
    hide Dvd;
    CongRefl(p, b1);
    CongRefl(p, b2);
    CongMul(p, l * b1, a1, b2, b2);
    CongMul(p, r * b2, a2, b1, b1);
    CongTrans(p, (l * b1) * b2, a1 * b2, a2 * b1);
    CongSym(p, (r * b2) * b1, a2 * b1);
    CongTrans(p, (l * b1) * b2, a2 * b1, (r * b2) * b1);
    assert (l * b1) * b2 == l * (b1 * b2) && (r * b2) * b1 == r * (b1 * b2);
    Euclid(p, b1, b2);
    CongCancel(p, l, r, b1 * b2);
    ReducedUnique(p, l, r);
  }

  /** The two orders of adding three points have equal cross products. */
  lemma CrossVanishes(c: Curve, p1: Affine, p2: Affine, p3: Affine)
    requires c.p > 0 && AllOnCurve(c, p1, p2, p3)
    ensures Dvd(c.p, ClearedX(c.d, p1, p2, p3) * ClearedDen(1, c.d, p3, p2, p1)
                     - ClearedX(c.d, p3, p2, p1) * ClearedDen(1, c.d, p1, p2, p3))
    ensures Dvd(c.p, ClearedY(c.d, p1, p2, p3) * ClearedDen(-1, c.d, p3, p2, p1)
                     - ClearedY(c.d, p3, p2, p1) * ClearedDen(-1, c.d, p1, p2, p3))
  {
    CrossX(c, p1, p2, p3);
    CrossY(c, p1, p2, p3);
  }

  lemma CrossX(c: Curve, p1: Affine, p2: Affine, p3: Affine)
    requires c.p > 0 && AllOnCurve(c, p1, p2, p3)
    ensures Dvd(c.p, ClearedX(c.d, p1, p2, p3) * ClearedDen(1, c.d, p3, p2, p1)
                     - ClearedX(c.d, p3, p2, p1) * ClearedDen(1, c.d, p1, p2, p3))
  {
    hide Dvd, Spread, Denominator, OnCurve;
    var m1, m2, m3 := p1.x * p1.y, p2.x * p2.y, p3.x * p3.y;
    var a, b, cc, e := p1.x * p2.y * p3.y, p1.y * p2.x * p3.y, p1.y * p2.y * p3.x, p1.x * p2.x * p3.x;
    var env := EnvOf(1, c.d, p1, p2, p3);
    AbscissaVanishes(c, p1, p2, p3);
    CrossDifference(c.d, m1, m2, m3, a + b + cc + e, cc + e - a - b, a + e - b - cc, env);
    DvdMul(c.p, Spread(env, TermsOf(m1, m2, m3, a, b, cc, e)), c.d * m2);
    Reorder(c.d, m1, m2, m3);
    ReverseMonomials(p1.x, p2.y, p3.y);
    ReverseMonomials(p1.y, p2.x, p3.y);
    ReverseMonomials(p1.y, p2.y, p3.x);
    ReverseMonomials(p1.x, p2.x, p3.x);
  }

  lemma CrossY(c: Curve, p1: Affine, p2: Affine, p3: Affine)
    requires c.p > 0 && AllOnCurve(c, p1, p2, p3)
    ensures Dvd(c.p, ClearedY(c.d, p1, p2, p3) * ClearedDen(-1, c.d, p3, p2, p1)
                     - ClearedY(c.d, p3, p2, p1) * ClearedDen(-1, c.d, p1, p2, p3))
  {
    hide Dvd, Spread, Denominator, OnCurve;
    var m1, m2, m3 := p1.x * p1.y, p2.x * p2.y, p3.x * p3.y;
    var a, b, cc, e := p1.y * p2.x * p3.x, p1.x * p2.y * p3.x, p1.x * p2.x * p3.y, p1.y * p2.y * p3.y;
    var env := EnvOf(-1, c.d, p1, p2, p3);
    OrdinateVanishes(c, p1, p2, p3);
    CrossDifference(c.d, m1, m2, m3, a + b + cc + e, cc + e - a - b, a + e - b - cc, env);
    DvdMul(c.p, Spread(env, TermsOf(m1, m2, m3, a, b, cc, e)), c.d * m2);
    Reorder(c.d, m1, m2, m3);
    ReverseMonomials(p1.y, p2.x, p3.x);
    ReverseMonomials(p1.x, p2.y, p3.x);
    ReverseMonomials(p1.x, p2.x, p3.y);
    ReverseMonomials(p1.y, p2.y, p3.y);
  }

  lemma ReverseMonomials(a: int, b: int, c: int)
    ensures c * b * a == a * b * c
  {
  }

  /** The affine addition law is associative on the curve. */
  lemma AddAssociative(c: Curve, p1: Affine, p2: Affine, p3: Affine)
    requires ValidCurve(c) && AllOnCurve(c, p1, p2, p3)
    ensures AffineAdd(c, AffineAdd(c, p1, p2), p3) == AffineAdd(c, p1, AffineAdd(c, p2, p3))
  {
    hide Dvd, OnCurve, ClearedDen, ClearedX, ClearedY, AffineAdd;
    SumOfThree(c, p1, p2, p3);
    SumOfThree(c, p3, p2, p1);
    CrossVanishes(c, p1, p2, p3);
    var l, r := Sum3(c, p1, p2, p3), Sum3(c, p3, p2, p1);
    CrossEqual(c.p, l.x, r.x, ClearedDen(1, c.d, p1, p2, p3), ClearedX(c.d, p1, p2, p3),
               ClearedDen(1, c.d, p3, p2, p1), ClearedX(c.d, p3, p2, p1));
    CrossEqual(c.p, l.y, r.y, ClearedDen(-1, c.d, p1, p2, p3), ClearedY(c.d, p1, p2, p3),
               ClearedDen(-1, c.d, p3, p2, p1), ClearedY(c.d, p3, p2, p1));
    AddCommutes(c, p2, p3);
    AddCommutes(c, p1, AffineAdd(c, p2, p3));
  }
}
