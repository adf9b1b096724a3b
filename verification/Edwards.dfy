/** The twisted Edwards curve -x^2 + y^2 = 1 + d x^2 y^2 over the integers modulo a prime p,
    in affine coordinates, and the extended-coordinate addition that computes on it. */
module Edwards {
  import opened ModArith

  /** The module constants of the verifier: the modulus, the curve coefficient and a root of -1. */
  datatype Curve = Curve(p: int, d: int, sqrtM1: int)

  datatype Affine = Affine(x: int, y: int)

  /** Extended coordinates: x = X/Z, y = Y/Z, xy = T/Z. */
  datatype Point = Point(x: int, y: int, z: int, t: int)

  /** What the constants of Ed25519 satisfy: p is a prime of the form 8k + 5, sqrtM1 is a square
      root of -1, and d is not a square. */
  ghost predicate ValidCurve(c: Curve) {
    && IsPrime(c.p)
    && c.p % 8 == 5
    && Cong(c.p, c.sqrtM1 * c.sqrtM1, -1)
    && NonSquare(c.p, c.d)
  }

  ghost predicate NonSquare(p: int, d: int)
    requires p > 0
  {
    forall w :: !Cong(p, w * w, d)
  }

  /** The curve equation, as an expression that has to vanish modulo p. */
  function CurveExpr(d: int, x: int, y: int): int {
    y * y - x * x - 1 - d * (x * x) * (y * y)
  }

  predicate OnCurve(c: Curve, a: Affine)
    requires c.p > 0
  {
    0 <= a.x < c.p && 0 <= a.y < c.p && Dvd(c.p, CurveExpr(c.d, a.x, a.y))
  }

  const NEUTRAL: Affine := Affine(0, 1)

  const NEUTRAL_POINT: Point := Point(0, 1, 1, 0)

  /** Inversion by Fermat's little theorem, as the verifier does it. */
  function Inv(p: int, z: int): int
    requires p >= 2
  {
    Pow(z, p - 2) % p
  }

  /** The product d x1 x2 y1 y2 that decides the denominators of the addition law. */
  function Kappa(c: Curve, a: Affine, b: Affine): int {
    c.d * (a.x * a.y) * (b.x * b.y)
  }

  /** The affine addition law. */
  function AffineAdd(c: Curve, a: Affine, b: Affine): Affine
    requires c.p >= 2
  {
    var k := Kappa(c, a, b);
    Affine((a.x * b.y + a.y * b.x) * Inv(c.p, 1 + k) % c.p,
           (a.y * b.y + a.x * b.x) * Inv(c.p, 1 - k) % c.p)
  }

  function Negate(c: Curve, a: Affine): Affine
    requires c.p > 0
  {
    Affine((-a.x) % c.p, a.y)
  }

  function PointAdd(c: Curve, p1: Point, p2: Point): Point
    requires c.p > 0
  {
    var a := (p1.y - p1.x) * (p2.y - p2.x) % c.p;
    var b := (p1.y + p1.x) * (p2.y + p2.x) % c.p;
    var cc := 2 * p1.t * p2.t * c.d % c.p;
    var dd := 2 * p1.z * p2.z % c.p;
    var e, f, g, h := b - a, dd - cc, dd + cc, b + a;
    Point(e * f % c.p, g * h % c.p, f * g % c.p, e * h % c.p)
  }

  predicate PointEqual(c: Curve, p1: Point, p2: Point)
    requires c.p > 0
  {
    && (p1.x * p2.z - p2.x * p1.z) % c.p == 0
    && (p1.y * p2.z - p2.y * p1.z) % c.p == 0
  }

  /** The extended point pt stands for the affine point a. */
  predicate Represents(c: Curve, pt: Point, a: Affine)
    requires c.p > 0
  {
    && !Dvd(c.p, pt.z)
    && Cong(c.p, pt.x, a.x * pt.z)
    && Cong(c.p, pt.y, a.y * pt.z)
    && Cong(c.p, pt.t * pt.z, pt.x * pt.y)
  }

  /** The affine point that an extended point with invertible Z stands for. */
  function ToAffine(c: Curve, pt: Point): Affine
    requires c.p >= 2
  {
    var zi := Inv(c.p, pt.z);
    Affine(pt.x * zi % c.p, pt.y * zi % c.p)
  }

  // ---- inverses ----

  lemma InvIsInverse(p: int, z: int)
    requires IsPrime(p) && !Dvd(p, z)
    ensures Cong(p, z * Inv(p, z), 1)
  {
    hide Dvd;
    Fermat(p, z);
    ModCong(p, Pow(z, p - 2));
    CongRefl(p, z);
    CongMul(p, z, z, Inv(p, z), Pow(z, p - 2));
    assert Pow(z, p - 1) == z * Pow(z, p - 2);
    CongTrans(p, z * Inv(p, z), Pow(z, p - 1), 1);
  }

  /** Division by z: the quotient computed with Inv is the one that multiplies back. */
  lemma Quotient(p: int, n: int, z: int)
    requires IsPrime(p) && !Dvd(p, z)
    ensures Cong(p, (n * Inv(p, z) % p) * z, n)
  {
    hide Dvd;
    var i := Inv(p, z);
    InvIsInverse(p, z);
    ModCong(p, n * i);
    CongRefl(p, z);
    CongMul(p, n * i % p, n * i, z, z);
    CongRefl(p, n);
    CongMul(p, n, n, z * i, 1);
    assert n * i * z == n * (z * i);
    CongTrans(p, (n * i % p) * z, n * (z * i), n * 1);
  }

  lemma ReducedUnique(p: int, a: int, b: int)
    requires p > 0 && 0 <= a < p && 0 <= b < p && Cong(p, a, b)
    ensures a == b
  {
    DvdSmall(p, a - b);
  }

  /** A point with Z invertible and T Z = X Y represents exactly one reduced affine point. */
  lemma RepresentsToAffine(c: Curve, pt: Point)
    requires IsPrime(c.p) && !Dvd(c.p, pt.z) && Cong(c.p, pt.t * pt.z, pt.x * pt.y)
    ensures Represents(c, pt, ToAffine(c, pt))
    ensures 0 <= ToAffine(c, pt).x < c.p && 0 <= ToAffine(c, pt).y < c.p
  {
    hide Dvd;
    Quotient(c.p, pt.x, pt.z);
    Quotient(c.p, pt.y, pt.z);
    var a := ToAffine(c, pt);
    CongSym(c.p, a.x * pt.z, pt.x);
    CongSym(c.p, a.y * pt.z, pt.y);
    ModCong(c.p, pt.x * Inv(c.p, pt.z));
    ModCong(c.p, pt.y * Inv(c.p, pt.z));
  }

  lemma NegativeFactor(p: int, a: int)
    requires p > 0 && Dvd(p, -a)
    ensures Dvd(p, a)
  {
    DvdMul(p, -a, -1);
  }

  // ---- completeness: the denominators 1 + k and 1 - k never vanish ----

  /** d is not a quotient of two squares. */
  lemma NotQuotientOfSquares(p: int, d: int, u: int, v: int)
    requires IsPrime(p) && NonSquare(p, d) && Cong(p, u * u, d * (v * v))
    ensures Dvd(p, v)
  {
    hide Dvd;
    if !Dvd(p, v) {
      var w := u * Inv(p, v);
      var i := Inv(p, v);
      InvIsInverse(p, v);
      CongMul(p, v * i, 1, v * i, 1);
      CongRefl(p, i * i);
      CongMul(p, u * u, d * (v * v), i * i, i * i);
      CongRefl(p, d);
      CongMul(p, d, d, (v * i) * (v * i), 1);
      assert (u * u) * (i * i) == w * w by { MulSwap(u, i, u, i); MulSwap(u, u, i, i); }
      assert (d * (v * v)) * (i * i) == d * ((v * i) * (v * i)) by { MulSwap(v, v, i, i); }
      CongTrans(p, w * w, d * ((v * i) * (v * i)), d * 1);
      assert false;
    }
  }

  /** Four multiples of p add up to a multiple of p. */
  lemma Combine4(p: int, e1: int, c1: int, e2: int, c2: int, e3: int, c3: int, e4: int, c4: int)
    requires p > 0 && Dvd(p, e1) && Dvd(p, e2) && Dvd(p, e3) && Dvd(p, e4)
    ensures Dvd(p, e1 * c1 + e2 * c2 + e3 * c3 + e4 * c4)
  {
    hide Dvd;
    DvdMul(p, e1, c1);
    DvdMul(p, e2, c2);
    DvdMul(p, e3, c3);
    DvdMul(p, e4, c4);
    DvdAdd(p, e1 * c1, e2 * c2);
    DvdAdd(p, e1 * c1 + e2 * c2, e3 * c3);
    DvdAdd(p, e1 * c1 + e2 * c2 + e3 * c3, e4 * c4);
  }

  /** The polynomial identity behind completeness, with squares and products as atoms:
      xx = x^2, yy = y^2, m = x y of the first point, uu, vv, n of the second, and j = i^2. */
  lemma CompletenessAtoms(d: int, i: int, j: int, eps: int, k: int,
                          xx: int, yy: int, m: int, uu: int, vv: int, n: int)
    requires eps * eps == 1 && k == d * m * n
    ensures (yy + 2 * eps * i * m + j * xx) - d * (m * m * (vv + 2 * i * n + j * uu))
         == (yy - xx - 1 - d * (m * m)) * 1
          + (k - eps) * (-(eps + k) - 2 * i * m)
          + (j + 1) * (xx - d * (m * m) * uu)
          + (vv - uu - 1 - d * (n * n)) * (-(d * (m * m)))
  {
    var mm, nn := d * (m * m), d * (n * n);
    KappaSquare(d, m, n);
    WeightedSum(d, m * m, vv, i, n, j, uu);
    KappaFactor(k, eps, i, m);
    SumTimesDifference(j, xx, mm * uu);
    TimesNegative(vv, uu, nn, mm);
    CompletenessLinear(yy, xx, mm, nn, i * m, k, k * m, mm * n, mm * vv, mm * uu, eps, i, j);
  }

  lemma KappaSquare(d: int, m: int, n: int)
    ensures (d * m * n) * (d * m * n) == (d * (n * n)) * (d * (m * m))
    ensures (d * m * n) * m == (d * (m * m)) * n
  {
    MulSwap(d * m, n, d * m, n);
    MulSwap(d, m, d, m);
    assert ((d * d) * (m * m)) * (n * n) == (d * (n * n)) * (d * (m * m));
    assert (d * m * n) * m == (d * (m * m)) * n;
  }

  lemma WeightedSum(d: int, q: int, vv: int, i: int, n: int, j: int, uu: int)
    ensures d * (q * (vv + 2 * i * n + j * uu)) == (d * q) * vv + 2 * (i * ((d * q) * n)) + j * ((d * q) * uu)
  {
    var w := d * q;
    assert d * (q * (vv + 2 * i * n + j * uu)) == w * (vv + 2 * i * n + j * uu);
    assert w * (vv + 2 * i * n + j * uu) == w * vv + w * (2 * i * n) + w * (j * uu);
    assert w * (2 * i * n) == 2 * (i * (w * n));
    assert w * (j * uu) == j * (w * uu);
  }

  lemma KappaFactor(k: int, eps: int, i: int, m: int)
    requires eps * eps == 1
    ensures (k - eps) * (-(eps + k) - 2 * i * m) == 1 - k * k - 2 * (i * (k * m)) + 2 * (eps * (i * m))
  {
    assert (k - eps) * (-(eps + k)) == eps * eps - k * k;
    assert (k - eps) * (2 * i * m) == k * (2 * i * m) - eps * (2 * i * m);
    assert k * (2 * i * m) == 2 * (i * (k * m));
    assert eps * (2 * i * m) == 2 * (eps * (i * m));
    assert (k - eps) * (-(eps + k) - 2 * i * m) == (k - eps) * (-(eps + k)) - (k - eps) * (2 * i * m);
  }

  lemma SumTimesDifference(j: int, x: int, w: int)
    ensures (j + 1) * (x - w) == j * x + x - j * w - w
  {
  }

  lemma TimesNegative(v: int, u: int, n: int, m: int)
    ensures (v - u - 1 - n) * -m == -(m * v) + m * u + m + n * m
  {
  }

  /** The identity once every product is an atom. */
  lemma CompletenessLinear(yy: int, xx: int, mm: int, nn: int, im: int, k: int, km: int, mn: int, mv: int, mu: int,
                           eps: int, i: int, j: int)
    requires km == mn && k * k == nn * mm
    ensures (yy + 2 * (eps * im) + j * xx) - (mv + 2 * (i * mn) + j * mu)
         == (yy - xx - 1 - mm) * 1
          + (1 - k * k - 2 * (i * km) + 2 * (eps * im))
          + (j * xx + xx - j * mu - mu)
          + (-mv + mu + mm + nn * mm)
  {
  }

  lemma CurveExprAtoms(d: int, x: int, y: int)
    ensures CurveExpr(d, x, y) == y * y - x * x - 1 - d * ((x * y) * (x * y))
  {
    MulSwap(x, x, y, y);
  }

  /** The square of y + s x, and of m (y + s x). */
  lemma SquareOfSum(m: int, y: int, s: int, x: int)
    ensures (m * (y + s * x)) * (m * (y + s * x)) == m * m * (y * y + 2 * s * (x * y) + (s * s) * (x * x))
  {
    var t := y + s * x;
    assert t * t == y * y + 2 * s * (x * y) + (s * s) * (x * x) by {
      assert (s * x) * (s * x) == (s * s) * (x * x) by { MulSwap(s, x, s, x); }
    }
    MulSwap(m, t, m, t);
  }

  lemma UnitTwist(eps: int, i: int, m: int)
    requires eps * eps == 1
    ensures (eps * i) * (eps * i) == i * i && 2 * (eps * i) * m == 2 * eps * i * m
  {
    MulSwap(eps, i, eps, i);
  }

  lemma HalfComplete(c: Curve, i: int, eps: int, a: Affine, b: Affine)
    requires ValidCurve(c) && OnCurve(c, a) && OnCurve(c, b)
    requires eps * eps == 1 && Dvd(c.p, i * i + 1)
    requires Dvd(c.p, c.d * (a.x * a.y) * (b.x * b.y) - eps)
    ensures Dvd(c.p, a.x * a.y * (b.y + i * b.x))
  {
    hide Dvd;
    var m, n := a.x * a.y, b.x * b.y;
    var k := c.d * m * n;
    var u := a.y + (eps * i) * a.x;
    var v := m * (b.y + i * b.x);
    CompletenessAtoms(c.d, i, i * i, eps, k, a.x * a.x, a.y * a.y, m, b.x * b.x, b.y * b.y, n);
    CurveExprAtoms(c.d, a.x, a.y);
    CurveExprAtoms(c.d, b.x, b.y);
    Combine4(c.p, CurveExpr(c.d, a.x, a.y), 1,
             k - eps, -(eps + k) - 2 * i * m,
             i * i + 1, a.x * a.x - c.d * (m * m) * (b.x * b.x),
             CurveExpr(c.d, b.x, b.y), -(c.d * (m * m)));
    SquareOfSum(1, a.y, eps * i, a.x);
    SquareOfSum(m, b.y, i, b.x);
    hide CurveExpr, OnCurve;
    UnitTwist(eps, i, m);
    NotQuotientOfSquares(c.p, c.d, u, v);
  }

  /** i and -i together: m and y2 cannot both be invertible when k = eps. */
  lemma KappaForcesZero(c: Curve, eps: int, a: Affine, b: Affine)
    requires ValidCurve(c) && OnCurve(c, a) && OnCurve(c, b)
    requires eps * eps == 1 && Dvd(c.p, Kappa(c, a, b) - eps)
    ensures Dvd(c.p, a.x * a.y) || Dvd(c.p, b.y)
  {
    hide Dvd;
    var p, i, m := c.p, c.sqrtM1, a.x * a.y;
    HalfComplete(c, i, eps, a, b);
    assert (-i) * (-i) == i * i;
    HalfComplete(c, -i, eps, a, b);
    Euclid(p, m, b.y + i * b.x);
    Euclid(p, m, b.y + (-i) * b.x);
    if !Dvd(p, m) {
      DvdAdd(p, b.y + i * b.x, b.y + (-i) * b.x);
      assert (b.y + i * b.x) + (b.y + (-i) * b.x) == 2 * b.y;
      Euclid(p, 2, b.y);
      if Dvd(p, 2) { DvdSmall(p, 2); }
    }
  }

  lemma KappaIsNot(c: Curve, eps: int, a: Affine, b: Affine)
    requires ValidCurve(c) && OnCurve(c, a) && OnCurve(c, b)
    requires eps == 1 || eps == -1
    ensures !Dvd(c.p, Kappa(c, a, b) - eps)
  {
    hide Dvd, OnCurve;
    var p, k := c.p, Kappa(c, a, b);
    if Dvd(p, k - eps) {
      KappaForcesZero(c, eps, a, b);
      var m, n := a.x * a.y, b.x * b.y;
      if Dvd(p, m) {
        DvdMul(p, m, c.d * n);
        assert m * (c.d * n) == k;
      } else {
        DvdMul(p, b.y, c.d * m * b.x);
        assert b.y * (c.d * m * b.x) == k;
      }
      DvdAdd(p, k, k - eps);
      DvdSmall(p, eps);
      assert false;
    }
  }

  /** Completeness of the addition law: on the curve both denominators are invertible. */
  lemma DenominatorsInvertible(c: Curve, a: Affine, b: Affine)
    requires ValidCurve(c) && OnCurve(c, a) && OnCurve(c, b)
    ensures !Dvd(c.p, 1 + Kappa(c, a, b)) && !Dvd(c.p, 1 - Kappa(c, a, b))
  {
    hide Dvd;
    KappaIsNot(c, 1, a, b);
    KappaIsNot(c, -1, a, b);
    if Dvd(c.p, 1 - Kappa(c, a, b)) { NegativeFactor(c.p, Kappa(c, a, b) - 1); }
  }

  // ---- closure: the sum of two points of the curve is on the curve ----

  /** ny^2 (1+k)^2 - nx^2 (1-k)^2 - (1-k^2)^2 - d nx^2 ny^2 in terms of the differences
      m_i = y_i^2 - x_i^2 and b_i = d x_i^2 y_i^2. */
  lemma ClosureNormalForm(d: int, x1: int, y1: int, x2: int, y2: int, k: int)
    requires k == d * (x1 * y1) * (x2 * y2)
    ensures var nx, ny := x1 * y2 + y1 * x2, y1 * y2 + x1 * x2;
            var m1, m2 := y1 * y1 - x1 * x1, y2 * y2 - x2 * x2;
            var b1, b2 := d * ((x1 * y1) * (x1 * y1)), d * ((x2 * y2) * (x2 * y2));
      (ny * (1 + k)) * (ny * (1 + k)) - (nx * (1 - k)) * (nx * (1 - k)) - d * ((nx * ny) * (nx * ny))
      == m1 * m2 * (1 + k * k) - b1 * (m2 * m2) - b2 * (m1 * m1)
  {
    var nx, ny := x1 * y2 + y1 * x2, y1 * y2 + x1 * x2;
    var m1, m2 := y1 * y1 - x1 * x1, y2 * y2 - x2 * x2;
    var s1, s2 := y1 * y1 + x1 * x1, y2 * y2 + x2 * x2;
    var r1, r2 := x1 * y1, x2 * y2;
    SumAndDifference(x1, y1, x2, y2);
    ProductOfNumerators(x1, y1, x2, y2);
    SquareOfDifference(x1, y1);
    SquareOfDifference(x2, y2);
    MulSwap(ny, 1 + k, ny, 1 + k);
    MulSwap(nx, 1 - k, nx, 1 - k);
    ClosureAtoms(d, k, ny * ny, nx * nx, nx * ny, m1, m2, s1, s2, r1, r2);
  }

  lemma SumAndDifference(x1: int, y1: int, x2: int, y2: int)
    ensures var nx, ny := x1 * y2 + y1 * x2, y1 * y2 + x1 * x2;
      && ny * ny - nx * nx == (y1 * y1 - x1 * x1) * (y2 * y2 - x2 * x2)
      && ny * ny + nx * nx == (y1 * y1 + x1 * x1) * (y2 * y2 + x2 * x2) + 4 * ((x1 * y1) * (x2 * y2))
  {
    SquareOfTwo(y1 * y2, x1 * x2);
    SquareOfTwo(x1 * y2, y1 * x2);
    MulSwap(y1, y2, y1, y2);
    MulSwap(x1, x2, x1, x2);
    MulSwap(x1, y2, x1, y2);
    MulSwap(y1, x2, y1, x2);
    MulSwap(x1, x2, y1, y2);
    MulSwap(x1, y2, y1, x2);
    TwoByTwo(y1 * y1, x1 * x1, y2 * y2, x2 * x2);
  }

  lemma TwoByTwo(a: int, b: int, c: int, d: int)
    ensures (a - b) * (c - d) == a * c - a * d - b * c + b * d
    ensures (a + b) * (c + d) == a * c + a * d + b * c + b * d
  {
  }

  lemma ProductOfNumerators(x1: int, y1: int, x2: int, y2: int)
    ensures (x1 * y2 + y1 * x2) * (y1 * y2 + x1 * x2)
         == (x1 * y1) * (y2 * y2 + x2 * x2) + (x2 * y2) * (y1 * y1 + x1 * x1)
  {
  }

  lemma SquareOfDifference(x: int, y: int)
    ensures (y * y + x * x) * (y * y + x * x) == (y * y - x * x) * (y * y - x * x) + 4 * ((x * y) * (x * y))
  {
  }

  lemma SquareOfTwo(a: int, b: int)
    ensures (a + b) * (a + b) == a * a + b * b + 2 * (a * b)
  {
  }

  lemma ClosureAtoms(d: int, k: int, hh: int, ee: int, eh: int,
                     m1: int, m2: int, s1: int, s2: int, r1: int, r2: int)
    requires k == d * r1 * r2
    requires hh - ee == m1 * m2 && hh + ee == s1 * s2 + 4 * (r1 * r2)
    requires eh == r1 * s2 + r2 * s1
    requires s1 * s1 == m1 * m1 + 4 * (r1 * r1) && s2 * s2 == m2 * m2 + 4 * (r2 * r2)
    ensures hh * ((1 + k) * (1 + k)) - ee * ((1 - k) * (1 - k)) - d * (eh * eh)
         == m1 * m2 * (1 + k * k) - d * (r1 * r1) * (m2 * m2) - d * (r2 * r2) * (m1 * m1)
  {
    WeightedSquares(k, hh, ee);
    SquareOfTwo(r1 * s2, r2 * s1);
    MulSwap(r1, s2, r1, s2);
    MulSwap(r2, s1, r2, s1);
    MulSwap(r1, s2, s1, r2);
    MulSwap(r1, r2, r1, r2);
    ClosureLinear(d, k, hh, ee, eh * eh, m1 * m2, m1 * m1, m2 * m2, s1 * s1, s2 * s2, s1 * s2,
                  r1 * r1, r2 * r2, r1 * r2);
  }

  lemma WeightedSquares(k: int, hh: int, ee: int)
    ensures hh * ((1 + k) * (1 + k)) - ee * ((1 - k) * (1 - k)) == (hh - ee) * (1 + k * k) + 2 * k * (hh + ee)
  {
  }

  lemma ClosureLinear(d: int, k: int, hh: int, ee: int, eheh: int, m12: int, m11: int, m22: int,
                      s11: int, s22: int, s12: int, r11: int, r22: int, q: int)
    requires k == d * q && q * q == r11 * r22
    requires hh - ee == m12 && hh + ee == s12 + 4 * q
    requires s11 == m11 + 4 * r11 && s22 == m22 + 4 * r22
    requires eheh == r11 * s22 + r22 * s11 + 2 * (q * s12)
    ensures (hh - ee) * (1 + k * k) + 2 * k * (hh + ee) - d * eheh
         == m12 * (1 + k * k) - d * r11 * m22 - d * r22 * m11
  {
    SameFactor(r11, s22, m22 + 4 * r22);
    SameFactor(r22, s11, m11 + 4 * r11);
    ThreeTerms(d, r11 * s22, r22 * s11, q * s12);
    ShiftedTerm(d, r11, m22, r22);
    ShiftedTerm(d, r22, m11, r11);
    TwiceShifted(k, s12, q);
    KappaProducts(d, q, s12, r11 * r22);
    ClosureSum(m12, k * k, d * eheh, 2 * k * (hh + ee), d * r11 * m22, d * r22 * m11, d * (r11 * r22), k * s12);
  }

  lemma SameFactor(a: int, x: int, y: int)
    requires x == y
    ensures a * x == a * y
  {
  }

  lemma KappaProducts(d: int, q: int, s: int, qq: int)
    requires q * q == qq
    ensures (d * q) * q == d * qq && d * (q * s) == (d * q) * s
  {
    assert (d * q) * q == d * (q * q);
  }

  lemma ClosureSum(m12: int, kk: int, t: int, x: int, a: int, b: int, c: int, ks: int)
    requires t == a + 4 * c + (b + 4 * c) + 2 * ks && x == 2 * ks + 8 * c
    ensures m12 * (1 + kk) + x - t == m12 * (1 + kk) - a - b
  {
  }

  lemma ThreeTerms(d: int, a: int, b: int, c: int)
    ensures d * (a + b + 2 * c) == d * a + d * b + 2 * (d * c)
  {
  }

  lemma ShiftedTerm(d: int, r: int, m: int, t: int)
    ensures d * (r * (m + 4 * t)) == d * r * m + 4 * (d * (r * t))
  {
    assert r * (m + 4 * t) == r * m + 4 * (r * t);
  }

  lemma TwiceShifted(k: int, s: int, q: int)
    ensures 2 * k * (s + 4 * q) == 2 * (k * s) + 8 * (k * q)
  {
  }

  /** With m_i = n_i + e_i, n_i = 1 + b_i and w = k^2 = b1 b2, the normal form is a combination
      of e1 and e2. */
  lemma ClosureCofactors(w: int, m1: int, m2: int, b1: int, b2: int, e1: int, e2: int)
    requires m1 == 1 + b1 + e1 && m2 == 1 + b2 + e2 && w == b1 * b2
    ensures m1 * m2 * (1 + w) - b1 * (m2 * m2) - b2 * (m1 * m1) - (1 - w) * (1 - w)
         == e1 * (m2 * (1 + w) - b2 * (m1 + 1 + b1)) + e2 * ((1 + b1) * (1 + w) - b1 * (m2 + 1 + b2))
  {
    var n1, n2 := 1 + b1, 1 + b2;
    ClosureAtOne(b1, b2);
    SquareDiff(b2, m1, n1, e1);
    SquareDiff(b1, m2, n2, e2);
    ProductDiff(1 + w, m1, m2, n1, n2, e1, e2);
    assert e1 * (m2 * (1 + w) - b2 * (m1 + n1)) == e1 * (m2 * (1 + w)) - e1 * (b2 * (m1 + n1));
    assert e2 * (n1 * (1 + w) - b1 * (m2 + n2)) == e2 * (n1 * (1 + w)) - e2 * (b1 * (m2 + n2));
  }

  lemma ClosureAtOne(b1: int, b2: int)
    ensures (1 + b1) * (1 + b2) * (1 + b1 * b2) - b1 * ((1 + b2) * (1 + b2)) - b2 * ((1 + b1) * (1 + b1))
         == (1 - b1 * b2) * (1 - b1 * b2)
  {
  }

  lemma SquareDiff(b: int, m: int, n: int, e: int)
    requires m == n + e
    ensures b * (m * m) == b * (n * n) + e * (b * (m + n))
  {
  }

  lemma ProductDiff(v: int, m1: int, m2: int, n1: int, n2: int, e1: int, e2: int)
    requires m1 == n1 + e1 && m2 == n2 + e2
    ensures m1 * m2 * v == n1 * n2 * v + e1 * (m2 * v) + e2 * (n1 * v)
  {
  }

  lemma CongSquare(p: int, a: int, b: int)
    requires p > 0 && Cong(p, a, b)
    ensures Cong(p, a * a, b * b)
  {
    CongMul(p, a, b, a, b);
  }

  /** (u v)^2 times the curve expression at (x, y), in the scaled coordinates x u and y v. */
  lemma ScaledCurveExpr(d: int, u: int, v: int, x: int, y: int, xu: int, yv: int)
    requires xu == x * u && yv == y * v
    ensures (u * v) * (u * v) * CurveExpr(d, x, y)
         == (yv * u) * (yv * u) - (xu * v) * (xu * v) - d * ((xu * yv) * (xu * yv)) - (u * v) * (u * v)
  {
    var g := u * v;
    CurveExprAtoms(d, x, y);
    assert yv * u == g * y && xu * v == g * x && xu * yv == g * (x * y) by { MulSwap(x, u, y, v); }
    MulSwap(g, y, g, y);
    MulSwap(g, x, g, x);
    MulSwap(g, x * y, g, x * y);
    ScaledAtoms(d, g * g, x * x, y * y, (x * y) * (x * y));
  }

  lemma ScaledAtoms(d: int, gg: int, xx: int, yy: int, mm: int)
    ensures gg * (yy - xx - 1 - d * mm) == gg * yy - gg * xx - d * (gg * mm) - gg
  {
  }

  lemma ClosureExpr(d: int, x1: int, y1: int, x2: int, y2: int, k: int)
    requires k == d * (x1 * y1) * (x2 * y2)
    ensures var nx, ny := x1 * y2 + y1 * x2, y1 * y2 + x1 * x2;
            var m1, m2 := y1 * y1 - x1 * x1, y2 * y2 - x2 * x2;
            var b1, b2 := d * ((x1 * y1) * (x1 * y1)), d * ((x2 * y2) * (x2 * y2));
      (ny * (1 + k)) * (ny * (1 + k)) - (nx * (1 - k)) * (nx * (1 - k)) - d * ((nx * ny) * (nx * ny))
        - ((1 + k) * (1 - k)) * ((1 + k) * (1 - k))
      == CurveExpr(d, x1, y1) * (m2 * (1 + k * k) - b2 * (m1 + 1 + b1))
       + CurveExpr(d, x2, y2) * ((1 + b1) * (1 + k * k) - b1 * (m2 + 1 + b2))
  {
    var r1, r2 := x1 * y1, x2 * y2;
    ClosureNormalForm(d, x1, y1, x2, y2, k);
    CurveExprAtoms(d, x1, y1);
    CurveExprAtoms(d, x2, y2);
    assert k * k == (d * (r1 * r1)) * (d * (r2 * r2)) by {
      MulSwap(d * r1, r2, d * r1, r2);
      MulSwap(d, r1, d, r1);
      MulSwap(d, r1 * r1, d, r2 * r2);
    }
    ClosureCofactors(k * k, y1 * y1 - x1 * x1, y2 * y2 - x2 * x2, d * (r1 * r1), d * (r2 * r2),
                     CurveExpr(d, x1, y1), CurveExpr(d, x2, y2));
    assert (1 + k) * (1 - k) == 1 - k * k;
  }

  /** What the affine sum is: the fractions of the addition law, without the divisions. */
  lemma AffineAddFractions(c: Curve, a: Affine, b: Affine)
    requires ValidCurve(c) && OnCurve(c, a) && OnCurve(c, b)
    ensures var r, k := AffineAdd(c, a, b), Kappa(c, a, b);
      && 0 <= r.x < c.p && 0 <= r.y < c.p
      && Cong(c.p, r.x * (1 + k), a.x * b.y + a.y * b.x)
      && Cong(c.p, r.y * (1 - k), a.y * b.y + a.x * b.x)
  {
    hide Dvd, OnCurve;
    var k := Kappa(c, a, b);
    DenominatorsInvertible(c, a, b);
    Quotient(c.p, a.x * b.y + a.y * b.x, 1 + k);
    Quotient(c.p, a.y * b.y + a.x * b.x, 1 - k);
    ModCong(c.p, (a.x * b.y + a.y * b.x) * Inv(c.p, 1 + k));
    ModCong(c.p, (a.y * b.y + a.x * b.x) * Inv(c.p, 1 - k));
  }

  /** The affine sum of two points of the curve is on the curve. */
  lemma AddStaysOnCurve(c: Curve, a: Affine, b: Affine)
    requires ValidCurve(c) && OnCurve(c, a) && OnCurve(c, b)
    ensures OnCurve(c, AffineAdd(c, a, b))
  {
    hide Dvd;
    var p, d, k, r := c.p, c.d, Kappa(c, a, b), AffineAdd(c, a, b);
    var u, v := 1 + k, 1 - k;
    var nx, ny := a.x * b.y + a.y * b.x, a.y * b.y + a.x * b.x;
    AffineAddFractions(c, a, b);
    DenominatorsInvertible(c, a, b);
    ClosureDivisible(c, a, b);
    ScaledClosure(p, d, u, v, nx, ny, r.x * u, r.y * v);
    ScaledCurveExpr(d, u, v, r.x, r.y, r.x * u, r.y * v);
    CongDvd(p, (u * v) * (u * v) * CurveExpr(d, r.x, r.y),
            (ny * u) * (ny * u) - (nx * v) * (nx * v) - d * ((nx * ny) * (nx * ny)) - (u * v) * (u * v));
    Euclid(p, u, v);
    Euclid(p, u * v, u * v);
    Euclid(p, (u * v) * (u * v), CurveExpr(d, r.x, r.y));
  }

  lemma ClosureDivisible(c: Curve, a: Affine, b: Affine)
    requires c.p > 0 && OnCurve(c, a) && OnCurve(c, b)
    ensures var k := Kappa(c, a, b);
            var nx, ny := a.x * b.y + a.y * b.x, a.y * b.y + a.x * b.x;
      Dvd(c.p, (ny * (1 + k)) * (ny * (1 + k)) - (nx * (1 - k)) * (nx * (1 - k))
               - c.d * ((nx * ny) * (nx * ny)) - ((1 + k) * (1 - k)) * ((1 + k) * (1 - k)))
  {
    hide Dvd;
    var d, k := c.d, Kappa(c, a, b);
    var m1, m2 := a.y * a.y - a.x * a.x, b.y * b.y - b.x * b.x;
    var b1, b2 := d * ((a.x * a.y) * (a.x * a.y)), d * ((b.x * b.y) * (b.x * b.y));
    var c1, c2 := m2 * (1 + k * k) - b2 * (m1 + 1 + b1), (1 + b1) * (1 + k * k) - b1 * (m2 + 1 + b2);
    ClosureExpr(d, a.x, a.y, b.x, b.y, k);
    DvdMul(c.p, CurveExpr(d, a.x, a.y), c1);
    DvdMul(c.p, CurveExpr(d, b.x, b.y), c2);
    DvdAdd(c.p, CurveExpr(d, a.x, a.y) * c1, CurveExpr(d, b.x, b.y) * c2);
  }

  lemma ScaledClosure(p: int, d: int, u: int, v: int, nx: int, ny: int, xu: int, yv: int)
    requires p > 0 && Cong(p, xu, nx) && Cong(p, yv, ny)
    ensures Cong(p, (yv * u) * (yv * u) - (xu * v) * (xu * v) - d * ((xu * yv) * (xu * yv)) - (u * v) * (u * v),
                    (ny * u) * (ny * u) - (nx * v) * (nx * v) - d * ((nx * ny) * (nx * ny)) - (u * v) * (u * v))
  {
    hide Dvd;
    CongRefl(p, u);
    CongRefl(p, v);
    CongRefl(p, d);
    CongRefl(p, (u * v) * (u * v));
    CongMul(p, yv, ny, u, u);
    CongMul(p, xu, nx, v, v);
    CongMul(p, xu, nx, yv, ny);
    CongSquare(p, yv * u, ny * u);
    CongSquare(p, xu * v, nx * v);
    CongSquare(p, xu * yv, nx * ny);
    CongMul(p, d, d, (xu * yv) * (xu * yv), (nx * ny) * (nx * ny));
    CongAdd(p, (yv * u) * (yv * u), (ny * u) * (ny * u), (xu * v) * (xu * v), (nx * v) * (nx * v));
    CongAdd(p, (yv * u) * (yv * u) - (xu * v) * (xu * v), (ny * u) * (ny * u) - (nx * v) * (nx * v),
            d * ((xu * yv) * (xu * yv)), d * ((nx * ny) * (nx * ny)));
    CongAdd(p, (yv * u) * (yv * u) - (xu * v) * (xu * v) - d * ((xu * yv) * (xu * yv)),
            (ny * u) * (ny * u) - (nx * v) * (nx * v) - d * ((nx * ny) * (nx * ny)),
            (u * v) * (u * v), (u * v) * (u * v));
  }

  // ---- refinement: extended addition computes the affine sum ----

  /** Cong(a, a') and Cong(b, b') multiply, and the product may be reduced. */
  lemma ReducedProduct(p: int, a: int, a': int, b: int, b': int)
    requires p > 0 && Cong(p, a, a') && Cong(p, b, b')
    ensures Cong(p, a * b % p, a' * b')
  {
    hide Dvd;
    CongMul(p, a, a', b, b');
    ModCong(p, a * b);
    CongTrans(p, a * b % p, a * b, a' * b');
  }

  lemma ThirdCoordinate(c: Curve, pt: Point, a: Affine)
    requires IsPrime(c.p) && Represents(c, pt, a)
    ensures Cong(c.p, pt.t, a.x * a.y * pt.z)
  {
    hide Dvd;
    CongMul(c.p, pt.x, a.x * pt.z, pt.y, a.y * pt.z);
    assert (a.x * pt.z) * (a.y * pt.z) == (a.x * a.y * pt.z) * pt.z by { MulSwap(a.x, pt.z, a.y, pt.z); }
    CongTrans(c.p, pt.t * pt.z, pt.x * pt.y, (a.x * a.y * pt.z) * pt.z);
    CongCancel(c.p, pt.t, a.x * a.y * pt.z, pt.z);
  }

  lemma MixedTerms(c: Curve, p1: Point, p2: Point, a: Affine, b: Affine)
    requires IsPrime(c.p) && Represents(c, p1, a) && Represents(c, p2, b)
    ensures var w := p1.z * p2.z;
      && Cong(c.p, (p1.y - p1.x) * (p2.y - p2.x) % c.p, (a.y - a.x) * (b.y - b.x) * w)
      && Cong(c.p, (p1.y + p1.x) * (p2.y + p2.x) % c.p, (a.y + a.x) * (b.y + b.x) * w)
  {
    hide Dvd;
    var z1, z2 := p1.z, p2.z;
    CongAdd(c.p, p1.y, a.y * z1, p1.x, a.x * z1);
    CongAdd(c.p, p2.y, b.y * z2, p2.x, b.x * z2);
    assert a.y * z1 - a.x * z1 == (a.y - a.x) * z1 && b.y * z2 - b.x * z2 == (b.y - b.x) * z2;
    assert a.y * z1 + a.x * z1 == (a.y + a.x) * z1 && b.y * z2 + b.x * z2 == (b.y + b.x) * z2;
    ReducedProduct(c.p, p1.y - p1.x, (a.y - a.x) * z1, p2.y - p2.x, (b.y - b.x) * z2);
    ReducedProduct(c.p, p1.y + p1.x, (a.y + a.x) * z1, p2.y + p2.x, (b.y + b.x) * z2);
    MulSwap(a.y - a.x, z1, b.y - b.x, z2);
    MulSwap(a.y + a.x, z1, b.y + b.x, z2);
  }

  lemma PlainTerms(c: Curve, p1: Point, p2: Point, a: Affine, b: Affine)
    requires IsPrime(c.p) && Represents(c, p1, a) && Represents(c, p2, b)
    ensures var w := p1.z * p2.z;
      && Cong(c.p, 2 * p1.t * p2.t * c.d % c.p, 2 * w * Kappa(c, a, b))
      && Cong(c.p, 2 * p1.z * p2.z % c.p, 2 * w)
  {
    hide Dvd;
    var z1, z2, m, n := p1.z, p2.z, a.x * a.y, b.x * b.y;
    ThirdCoordinate(c, p1, a);
    ThirdCoordinate(c, p2, b);
    CongRefl(c.p, 2);
    CongRefl(c.p, c.d);
    CongMul(c.p, 2, 2, p1.t, m * z1);
    CongMul(c.p, 2 * p1.t, 2 * (m * z1), p2.t, n * z2);
    ReducedProduct(c.p, 2 * p1.t * p2.t, 2 * (m * z1) * (n * z2), c.d, c.d);
    assert 2 * (m * z1) * (n * z2) * c.d == 2 * (z1 * z2) * (c.d * m * n) by {
      MulSwap(m, z1, n, z2);
    }
    ModCong(c.p, 2 * z1 * z2);
    assert 2 * z1 * z2 == 2 * (z1 * z2);
  }

  /** Congruences of the intermediate sums e, f, g, h of the addition formula. */
  lemma AdditionTerms(c: Curve, p1: Point, p2: Point, a: Affine, b: Affine)
    requires IsPrime(c.p) && Represents(c, p1, a) && Represents(c, p2, b)
    ensures
      var va := (p1.y - p1.x) * (p2.y - p2.x) % c.p;
      var vb := (p1.y + p1.x) * (p2.y + p2.x) % c.p;
      var vc := 2 * p1.t * p2.t * c.d % c.p;
      var vd := 2 * p1.z * p2.z % c.p;
      var w, k := 2 * (p1.z * p2.z), Kappa(c, a, b);
      && Cong(c.p, vb - va, w * (a.x * b.y + a.y * b.x))
      && Cong(c.p, vd - vc, w * (1 - k))
      && Cong(c.p, vd + vc, w * (1 + k))
      && Cong(c.p, vb + va, w * (a.y * b.y + a.x * b.x))
  {
    hide Dvd, Represents, Kappa, Cong;
    MixedTerms(c, p1, p2, a, b);
    PlainTerms(c, p1, p2, a, b);
    TermSums(c.p, (p1.y + p1.x) * (p2.y + p2.x) % c.p, (p1.y - p1.x) * (p2.y - p2.x) % c.p,
             2 * p1.z * p2.z % c.p, 2 * p1.t * p2.t * c.d % c.p, p1.z * p2.z, Kappa(c, a, b), a.x, a.y, b.x, b.y);
  }

  lemma TermSums(p: int, vb: int, va: int, vd: int, vc: int, zz: int, k: int, x1: int, y1: int, x2: int, y2: int)
    requires p > 0
    requires Cong(p, vb, (y1 + x1) * (y2 + x2) * zz) && Cong(p, va, (y1 - x1) * (y2 - x2) * zz)
    requires Cong(p, vd, 2 * zz) && Cong(p, vc, 2 * zz * k)
    ensures Cong(p, vb - va, 2 * zz * (x1 * y2 + y1 * x2)) && Cong(p, vb + va, 2 * zz * (y1 * y2 + x1 * x2))
    ensures Cong(p, vd - vc, 2 * zz * (1 - k)) && Cong(p, vd + vc, 2 * zz * (1 + k))
  {
    hide Cong;
    CongAdd(p, vb, (y1 + x1) * (y2 + x2) * zz, va, (y1 - x1) * (y2 - x2) * zz);
    FactorSums(x1, y1, x2, y2, zz);
    CongAdd(p, vd, 2 * zz, vc, 2 * zz * k);
    FactorUnits(2 * zz, k);
  }

  lemma FactorUnits(w: int, k: int)
    ensures w - w * k == w * (1 - k) && w + w * k == w * (1 + k)
  {
  }

  lemma FactorSums(x1: int, y1: int, x2: int, y2: int, w: int)
    ensures (y1 + x1) * (y2 + x2) * w - (y1 - x1) * (y2 - x2) * w == 2 * w * (x1 * y2 + y1 * x2)
    ensures (y1 + x1) * (y2 + x2) * w + (y1 - x1) * (y2 - x2) * w == 2 * w * (y1 * y2 + x1 * x2)
  {
    assert (y1 + x1) * (y2 + x2) - (y1 - x1) * (y2 - x2) == 2 * (x1 * y2 + y1 * x2);
    assert (y1 + x1) * (y2 + x2) + (y1 - x1) * (y2 - x2) == 2 * (y1 * y2 + x1 * x2);
  }

  /** From the products of the terms to the represented point, for any common factor w. */
  lemma ProductsRepresent(c: Curve, pt: Point, r: Affine, w: int, u: int, v: int, nx: int, ny: int)
    requires IsPrime(c.p) && !Dvd(c.p, w) && !Dvd(c.p, u) && !Dvd(c.p, v)
    requires Cong(c.p, r.x * u, nx) && Cong(c.p, r.y * v, ny)
    requires Cong(c.p, pt.x, (w * nx) * (w * v)) && Cong(c.p, pt.y, (w * u) * (w * ny))
    requires Cong(c.p, pt.z, (w * v) * (w * u)) && Cong(c.p, pt.t, (w * nx) * (w * ny))
    ensures Represents(c, pt, r)
  {
    hide Dvd;
    var p, ww := c.p, w * w;
    var z := (w * v) * (w * u);
    MulSwap(w, v, w, u);
    MulSwap(w, nx, w, v);
    MulSwap(w, u, w, ny);
    Euclid(p, w, w);
    Euclid(p, v, u);
    Euclid(p, ww, v * u);
    CongDvd(p, pt.z, z);
    // x
    CongRefl(p, r.x);
    CongRefl(p, r.y);
    CongRefl(p, ww * v);
    CongRefl(p, ww * u);
    CongMul(p, r.x, r.x, pt.z, z);
    CongMul(p, r.y, r.y, pt.z, z);
    CongMul(p, ww * v, ww * v, r.x * u, nx);
    CongMul(p, ww * u, ww * u, r.y * v, ny);
    assert r.x * z == (ww * v) * (r.x * u) by { Shuffle(r.x, ww, v, u); }
    assert r.y * z == (ww * u) * (r.y * v) by { Shuffle(r.y, ww, u, v); assert v * u == u * v; }
    assert (ww * v) * nx == (w * nx) * (w * v) && (ww * u) * ny == (w * u) * (w * ny);
    CongTrans(p, r.x * pt.z, r.x * z, (w * nx) * (w * v));
    CongTrans(p, r.y * pt.z, r.y * z, (w * u) * (w * ny));
    CongSym(p, r.x * pt.z, (w * nx) * (w * v));
    CongSym(p, r.y * pt.z, (w * u) * (w * ny));
    CongTrans(p, pt.x, (w * nx) * (w * v), r.x * pt.z);
    CongTrans(p, pt.y, (w * u) * (w * ny), r.y * pt.z);
    // t
    CongMul(p, pt.t, (w * nx) * (w * ny), pt.z, z);
    CongMul(p, pt.x, (w * nx) * (w * v), pt.y, (w * u) * (w * ny));
    CongSym(p, pt.x * pt.y, ((w * nx) * (w * v)) * ((w * u) * (w * ny)));
    FourFactors(w * nx, w * ny, w * v, w * u);
    CongTrans(p, pt.t * pt.z, ((w * nx) * (w * ny)) * z, pt.x * pt.y);
  }

  lemma Shuffle(x: int, g: int, a: int, b: int)
    ensures x * (g * (a * b)) == (g * a) * (x * b)
  {
    assert (g * a) * (x * b) == (g * x) * (a * b) by { MulSwap(g, a, x, b); }
  }

  lemma FourFactors(e: int, h: int, f: int, g: int)
    ensures (e * h) * (f * g) == (e * f) * (g * h)
  {
    MulSwap(e, h, f, g);
    assert h * g == g * h;
  }

  /** Extended addition refines the affine addition law, for distinct points and doublings alike
      (section 5.1.4 of RFC 8032). */
  lemma PointAddRefines(c: Curve, p1: Point, p2: Point, a: Affine, b: Affine)
    requires ValidCurve(c) && OnCurve(c, a) && OnCurve(c, b)
    requires Represents(c, p1, a) && Represents(c, p2, b)
    ensures Represents(c, PointAdd(c, p1, p2), AffineAdd(c, a, b))
    ensures OnCurve(c, AffineAdd(c, a, b))
  {
    hide Dvd, OnCurve, Represents;
    var p, k := c.p, Kappa(c, a, b);
    var w := 2 * (p1.z * p2.z);
    var nx, ny := a.x * b.y + a.y * b.x, a.y * b.y + a.x * b.x;
    AddStaysOnCurve(c, a, b);
    AffineAddFractions(c, a, b);
    DenominatorsInvertible(c, a, b);
    AdditionTerms(c, p1, p2, a, b);
    var va := (p1.y - p1.x) * (p2.y - p2.x) % p;
    var vb := (p1.y + p1.x) * (p2.y + p2.x) % p;
    var vc := 2 * p1.t * p2.t * c.d % p;
    var vd := 2 * p1.z * p2.z % p;
    ReducedProduct(p, vb - va, w * nx, vd - vc, w * (1 - k));
    ReducedProduct(p, vd + vc, w * (1 + k), vb + va, w * ny);
    ReducedProduct(p, vd - vc, w * (1 - k), vd + vc, w * (1 + k));
    ReducedProduct(p, vb - va, w * nx, vb + va, w * ny);
    WNonzero(c, p1, p2, a, b);
    ProductsRepresent(c, PointAdd(c, p1, p2), AffineAdd(c, a, b), w, 1 + k, 1 - k, nx, ny);
  }

  lemma WNonzero(c: Curve, p1: Point, p2: Point, a: Affine, b: Affine)
    requires ValidCurve(c) && Represents(c, p1, a) && Represents(c, p2, b)
    ensures !Dvd(c.p, 2 * (p1.z * p2.z))
  {
    hide Dvd;
    Euclid(c.p, p1.z, p2.z);
    Euclid(c.p, 2, p1.z * p2.z);
    if Dvd(c.p, 2) { DvdSmall(c.p, 2); }
  }

  /** Projective equality is equality of the represented points. */
  lemma PointEqualIff(c: Curve, p1: Point, p2: Point, a: Affine, b: Affine)
    requires IsPrime(c.p) && Represents(c, p1, a) && Represents(c, p2, b)
    requires 0 <= a.x < c.p && 0 <= a.y < c.p && 0 <= b.x < c.p && 0 <= b.y < c.p
    ensures PointEqual(c, p1, p2) <==> a == b
  {
    CrossMultiply(c.p, p1.x, a.x, p1.z, p2.x, b.x, p2.z);
    CrossMultiply(c.p, p1.y, a.y, p1.z, p2.y, b.y, p2.z);
  }

  lemma CrossMultiply(p: int, x1: int, a: int, z1: int, x2: int, b: int, z2: int)
    requires IsPrime(p) && !Dvd(p, z1) && !Dvd(p, z2) && 0 <= a < p && 0 <= b < p
    requires Cong(p, x1, a * z1) && Cong(p, x2, b * z2)
    ensures Dvd(p, x1 * z2 - x2 * z1) <==> a == b
  {
    hide Dvd;
    CongRefl(p, z1);
    CongRefl(p, z2);
    CongMul(p, x1, a * z1, z2, z2);
    CongMul(p, x2, b * z2, z1, z1);
    CongAdd(p, x1 * z2, a * z1 * z2, x2 * z1, b * z2 * z1);
    CongDvd(p, x1 * z2 - x2 * z1, a * z1 * z2 - b * z2 * z1);
    assert a * z1 * z2 - b * z2 * z1 == (a - b) * (z1 * z2);
    Euclid(p, z1, z2);
    Euclid(p, a - b, z1 * z2);
    if Dvd(p, a - b) { DvdSmall(p, a - b); }
    if a == b { CongRefl(p, 0); }
  }
}
