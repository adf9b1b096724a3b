/** Arithmetic modulo a prime: divisibility, Euclid's lemma, powers and Fermat's little theorem.
    Proofs above this module hide `Dvd`, so that the solver never sees a remainder. */
module ModArith {

  predicate Dvd(p: int, a: int)
    requires p > 0
  {
    a % p == 0
  }

  /** a and b have the same residue. */
  predicate Cong(p: int, a: int, b: int)
    requires p > 0
  {
    Dvd(p, a - b)
  }

  ghost predicate IsPrime(p: int) {
    p >= 2 && forall k :: 1 < k < p ==> !DvdBy(k, p)
  }

  predicate DvdBy(k: int, a: int) {
    k > 0 && a % k == 0
  }

  // ---- division with remainder ----

  lemma MulAtLeast(t: int, p: int)
    requires p > 0 && t >= 1
    ensures t * p >= p
  {
  }

  lemma QuotientIsUnique(p: int, q: int, r: int, q': int, r': int)
    requires p > 0 && 0 <= r < p && 0 <= r' < p
    requires q * p + r == q' * p + r'
    ensures q == q' && r == r'
  {
    assert (q - q') * p == r' - r;
    assert (q' - q) * p == r - r';
    if q > q' { MulAtLeast(q - q', p); }
    if q' > q { MulAtLeast(q' - q, p); }
  }

  lemma DivMod(p: int, a: int)
    requires p > 0
    ensures a == (a / p) * p + a % p && 0 <= a % p < p
  {
  }

  lemma DvdIntro(p: int, k: int)
    requires p > 0
    ensures Dvd(p, k * p) && Dvd(p, p * k)
  {
    DivMod(p, k * p);
    QuotientIsUnique(p, k, 0, (k * p) / p, (k * p) % p);
  }

  lemma DvdElim(p: int, a: int) returns (k: int)
    requires p > 0 && Dvd(p, a)
    ensures a == k * p
  {
    k := a / p;
    DivMod(p, a);
  }

  lemma DvdMul(p: int, a: int, b: int)
    requires p > 0 && Dvd(p, a)
    ensures Dvd(p, a * b) && Dvd(p, b * a)
  {
    var k := DvdElim(p, a);
    DvdIntro(p, k * b);
    assert a * b == (k * b) * p by {
      hide Dvd;
      assert k * p * b == k * b * p;
    }
  }

  lemma DvdAdd(p: int, a: int, b: int)
    requires p > 0 && Dvd(p, a) && Dvd(p, b)
    ensures Dvd(p, a + b) && Dvd(p, a - b)
  {
    var k := DvdElim(p, a);
    var l := DvdElim(p, b);
    DvdIntro(p, k + l);
    DvdIntro(p, k - l);
    assert a + b == (k + l) * p;
    assert a - b == (k - l) * p;
  }

  lemma DvdSmall(p: int, a: int)
    requires p > 0 && Dvd(p, a) && -p < a < p
    ensures a == 0
  {
    var k := DvdElim(p, a);
    if k >= 1 { MulAtLeast(k, p); }
    if k <= -1 { MulAtLeast(-k, p); }
  }

  lemma ModCong(p: int, a: int)
    requires p > 0
    ensures Cong(p, a % p, a) && Cong(p, a, a % p) && 0 <= a % p < p
  {
    DivMod(p, a);
    DvdIntro(p, a / p);
    DvdIntro(p, -(a / p));
    assert a - a % p == (a / p) * p;
    assert a % p - a == (-(a / p)) * p;
  }

  // ---- congruence calculus ----

  lemma CongRefl(p: int, a: int)
    requires p > 0
    ensures Cong(p, a, a)
  {
    DvdIntro(p, 0);
  }

  lemma CongSym(p: int, a: int, b: int)
    requires p > 0 && Cong(p, a, b)
    ensures Cong(p, b, a)
  {
    DvdMul(p, a - b, -1);
    assert (a - b) * -1 == b - a;
  }

  lemma CongTrans(p: int, a: int, b: int, c: int)
    requires p > 0 && Cong(p, a, b) && Cong(p, b, c)
    ensures Cong(p, a, c)
  {
    DvdAdd(p, a - b, b - c);
    assert (a - b) + (b - c) == a - c;
  }

  lemma CongAdd(p: int, a: int, a': int, b: int, b': int)
    requires p > 0 && Cong(p, a, a') && Cong(p, b, b')
    ensures Cong(p, a + b, a' + b') && Cong(p, a - b, a' - b')
  {
    DvdAdd(p, a - a', b - b');
    assert (a - a') + (b - b') == (a + b) - (a' + b');
    assert (a - a') - (b - b') == (a - b) - (a' - b');
  }

  lemma CongMul(p: int, a: int, a': int, b: int, b': int)
    requires p > 0 && Cong(p, a, a') && Cong(p, b, b')
    ensures Cong(p, a * b, a' * b')
  {
    hide Dvd;
    DvdMul(p, a - a', b);
    DvdMul(p, b - b', a');
    DvdAdd(p, (a - a') * b, (b - b') * a');
    assert (a - a') * b + (b - b') * a' == a * b - a' * b';
  }

  lemma CongDvd(p: int, a: int, b: int)
    requires p > 0 && Cong(p, a, b)
    ensures Dvd(p, a) <==> Dvd(p, b)
  {
    if Dvd(p, a) { DvdAdd(p, a, a - b); }
    if Dvd(p, b) { DvdAdd(p, b, a - b); }
  }

  // ---- primes ----

  lemma EuclidSmall(p: int, a: int, b: int)
    requires IsPrime(p) && 0 < a < p && Dvd(p, a * b)
    ensures Dvd(p, b)
    decreases a
  {
    hide Dvd;
    if a > 1 {
      var q, r := p / a, p % a;
      DivMod(a, p);
      assert !DvdBy(a, p);
      assert 0 < r < a;
      DvdIntro(p, b);
      DvdMul(p, a * b, q);
      DvdAdd(p, p * b, q * (a * b));
      assert p * b - q * (a * b) == r * b by {
        assert q * (a * b) == q * a * b;
        assert r == p - q * a;
      }
      EuclidSmall(p, r, b);
    }
  }

  /** Euclid's lemma. */
  lemma Euclid(p: int, a: int, b: int)
    requires IsPrime(p)
    ensures Dvd(p, a * b) <==> Dvd(p, a) || Dvd(p, b)
  {
    if Dvd(p, a) {
      DvdMul(p, a, b);
    } else if Dvd(p, b) {
      DvdMul(p, b, a);
    } else if Dvd(p, a * b) {
      var r := a % p;
      ModCong(p, a);
      CongRefl(p, b);
      CongMul(p, a, r, b, b);
      CongDvd(p, a * b, r * b);
      EuclidSmall(p, r, b);
    }
  }

  lemma CongCancel(p: int, a: int, b: int, c: int)
    requires IsPrime(p) && !Dvd(p, c) && Cong(p, a * c, b * c)
    ensures Cong(p, a, b)
  {
    hide Dvd;
    assert a * c - b * c == (a - b) * c;
    Euclid(p, a - b, c);
  }

  // ---- powers ----

  function Pow(b: int, e: nat): int {
    if e == 0 then 1 else b * Pow(b, e - 1)
  }

  lemma {:induction false} PowAdd(b: int, m: nat, n: nat)
    ensures Pow(b, m + n) == Pow(b, m) * Pow(b, n)
  {
    if m > 0 {
      PowAdd(b, m - 1, n);
      assert b * (Pow(b, m - 1) * Pow(b, n)) == b * Pow(b, m - 1) * Pow(b, n);
    }
  }

  lemma MulSwap(a: int, b: int, x: int, y: int)
    ensures (a * b) * (x * y) == (a * x) * (b * y)
  {
  }

  lemma {:induction false} PowPow(b: int, m: nat, n: nat)
    ensures m * n >= 0 && Pow(b, m * n) == Pow(Pow(b, m), n)
  {
    if n > 0 {
      PowPow(b, m, n - 1);
      assert m * n == m + m * (n - 1);
      PowAdd(b, m, m * (n - 1));
    } else {
      assert m * n == 0;
    }
  }

  lemma {:induction false} PowCong(p: int, a: int, b: int, n: nat)
    requires p > 0 && Cong(p, a, b)
    ensures Cong(p, Pow(a, n), Pow(b, n))
  {
    hide Dvd;
    if n == 0 {
      CongRefl(p, 1);
    } else {
      PowCong(p, a, b, n - 1);
      CongMul(p, a, b, Pow(a, n - 1), Pow(b, n - 1));
    }
  }

  // ---- Fermat's little theorem, by the binomial expansion of (a + 1)^p ----

  ghost function Choose(n: nat, k: nat): nat {
    if k == 0 then 1
    else if n == 0 then 0
    else Choose(n - 1, k - 1) + Choose(n - 1, k)
  }

  /** The first m + 1 terms of the expansion of (a + 1)^n. */
  ghost function Expand(a: int, n: nat, m: nat): int {
    if m == 0 then 1 else Choose(n, m) * Pow(a, m) + Expand(a, n, m - 1)
  }

  lemma {:induction false} ChooseTooMany(n: nat, k: nat)
    requires k > n
    ensures Choose(n, k) == 0
  {
    if n > 0 {
      ChooseTooMany(n - 1, k - 1);
      ChooseTooMany(n - 1, k);
    }
  }

  lemma {:induction false} ChooseAll(n: nat)
    ensures Choose(n, n) == 1
  {
    if n > 0 {
      ChooseAll(n - 1);
      ChooseTooMany(n - 1, n);
    }
  }

  lemma AbsorptionStep(n: int, k: int, x: int, y: int, xy: int, z: int)
    requires xy == x + y
    requires (k - 1) * xy == (n - 1) * x
    requires k * z == (n - 1) * y
    ensures k * (xy + z) == n * xy
  {
    assert (n - 1) * x + (n - 1) * y == (n - 1) * xy;
    assert k * (xy + z) == (k - 1) * xy + xy + k * z;
  }

  lemma {:induction false} Absorption(n: nat, k: nat)
    requires n > 0 && k > 0
    ensures k * Choose(n, k) == n * Choose(n - 1, k - 1)
  {
    if n == 1 {
      if k > 1 { ChooseTooMany(1, k); ChooseTooMany(0, k - 1); }
    } else if k == 1 {
      Absorption(n - 1, 1);
    } else {
      Absorption(n - 1, k - 1);
      Absorption(n - 1, k);
      AbsorptionStep(n, k, Choose(n - 2, k - 2), Choose(n - 2, k - 1), Choose(n - 1, k - 1), Choose(n - 1, k));
    }
  }

  lemma {:induction false} ExpandStep(a: int, n: nat, m: nat)
    ensures Expand(a, n + 1, m + 1) == Expand(a, n, m + 1) + a * Expand(a, n, m)
  {
    var c, c' := Choose(n, m + 1), Choose(n, m);
    var w := Pow(a, m);
    assert Choose(n + 1, m + 1) == c' + c;
    assert (c' + c) * (a * w) == c * (a * w) + a * (c' * w);
    if m > 0 {
      ExpandStep(a, n, m - 1);
      assert a * (c' * w + Expand(a, n, m - 1)) == a * (c' * w) + a * Expand(a, n, m - 1);
    } else {
      assert w == 1 && c' == 1;
    }
  }

  lemma {:induction false} Binomial(a: int, n: nat)
    ensures Expand(a, n, n) == Pow(a + 1, n)
  {
    if n > 0 {
      hide Choose;
      Binomial(a, n - 1);
      ExpandStep(a, n - 1, n - 1);
      ChooseTooMany(n - 1, n);
      var e := Expand(a, n - 1, n - 1);
      assert Expand(a, n - 1, n) == Choose(n - 1, n) * Pow(a, n) + e;
      assert Pow(a + 1, n) == (a + 1) * Pow(a + 1, n - 1);
      hide Expand, Pow;
      assert e + a * e == (a + 1) * e;
    }
  }

  lemma {:induction false} MiddleTermsVanish(p: int, a: int, m: nat)
    requires IsPrime(p) && m < p
    ensures Cong(p, Expand(a, p, m), 1)
  {
    hide Dvd;
    if m == 0 {
      CongRefl(p, 1);
    } else {
      MiddleTermsVanish(p, a, m - 1);
      Absorption(p, m);
      DvdIntro(p, Choose(p - 1, m - 1));
      Euclid(p, m, Choose(p, m));
      if Dvd(p, m) { DvdSmall(p, m); }
      DvdMul(p, Choose(p, m), Pow(a, m));
      DvdAdd(p, Choose(p, m) * Pow(a, m), Expand(a, p, m - 1) - 1);
    }
  }

  lemma {:induction false} FermatNat(p: int, a: nat)
    requires IsPrime(p)
    ensures Cong(p, Pow(a, p), a)
  {
    hide Dvd;
    if a == 0 {
      assert Pow(0, p) == 0 * Pow(0, p - 1);
      CongRefl(p, 0);
    } else {
      FermatNat(p, a - 1);
      Binomial(a - 1, p);
      MiddleTermsVanish(p, a - 1, p - 1);
      ChooseAll(p);
      var e := Expand(a - 1, p, p - 1);
      assert Pow(a, p) == 1 * Pow(a - 1, p) + e;
      CongAdd(p, Pow(a - 1, p), a - 1, e, 1);
    }
  }

  /** Fermat's little theorem. */
  lemma Fermat(p: int, a: int)
    requires IsPrime(p) && !Dvd(p, a)
    ensures Cong(p, Pow(a, p - 1), 1)
  {
    hide Dvd;
    var r := a % p;
    ModCong(p, a);
    CongDvd(p, a, r);
    FermatNat(p, r);
    assert Pow(r, p) == r * Pow(r, p - 1);
    assert Cong(p, Pow(r, p - 1) * r, 1 * r);
    CongCancel(p, Pow(r, p - 1), 1, r);
    PowCong(p, a, r, p - 1);
    CongTrans(p, Pow(a, p - 1), Pow(r, p - 1), 1);
  }
}
