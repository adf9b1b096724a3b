/** The hypotheses about the curve and the base point can be met: a curve over the integers modulo 13,
    with a base point of order 4, meets them all. */
module SmallCurve {
  import opened ModArith
  import opened Edwards
  import opened ScalarMul
  import opened PointCodec
  import opened Ed25519

  const SMALL := Curve(13, 2, 5)

  lemma SquareOfRemainder(q: int, r: int)
    ensures (13 * q + r) * (13 * q + r) == (q * (13 * q + 2 * r)) * 13 + r * r
  {
    assert (13 * q + r) * (13 * q + r) == 169 * (q * q) + 26 * (q * r) + r * r;
    assert q * (13 * q + 2 * r) == 13 * (q * q) + 2 * (q * r);
  }

  lemma SquaresBelow(r: nat)
    requires r < 13
    ensures r * r in {0, 1, 4, 9, 16, 25, 36, 49, 64, 81, 100, 121, 144}
  {
    if r < 4 {
    } else if r < 8 {
      assert r == 4 || r == 5 || r == 6 || r == 7;
    } else {
      assert r == 8 || r == 9 || r == 10 || r == 11 || r == 12;
    }
  }

  lemma NotTwo(square: int)
    requires square in {0, 1, 4, 9, 16, 25, 36, 49, 64, 81, 100, 121, 144}
    ensures !Dvd(13, square - 2)
  {
    if Dvd(13, square - 2) {
      var k := DvdElim(13, square - 2);
      assert false;
    }
  }

  lemma TwoIsNoSquare(w: int)
    ensures !Cong(13, w * w, 2)
  {
    hide Dvd;
    var q, r := w / 13, w % 13;
    SquareOfRemainder(q, r);
    DvdIntro(13, q * (13 * q + 2 * r));
    SquaresBelow(r);
    NotTwo(r * r);
    if Cong(13, w * w, 2) {
      DvdAdd(13, w * w - 2, q * (13 * q + 2 * r) * 13);
    }
  }

  lemma ThirteenIsPrime()
    ensures IsPrime(13)
  {
    forall k | 1 < k < 13 ensures !DvdBy(k, 13) {
      assert 13 % 2 == 1 && 13 % 3 == 1 && 13 % 4 == 1 && 13 % 5 == 3 && 13 % 6 == 1 && 13 % 7 == 6;
    }
  }

  lemma SmallCurveIsValid()
    ensures ValidCurve(SMALL)
  {
    ThirteenIsPrime();
    DvdIntro(13, 2);
    assert Cong(13, 5 * 5, -1);
    forall w ensures !Cong(13, w * w, 2) {
      TwoIsNoSquare(w);
    }
  }

  // ---- a base point of order 4 ----

  const BASE := Affine(5, 0)

  lemma InvOfOne()
    ensures Inv(13, 1) == 1
  {
    PowOfOne(11);
  }

  lemma {:induction false} PowOfOne(n: nat)
    ensures Pow(1, n) == 1
  {
    if n > 0 { PowOfOne(n - 1); }
  }

  /** Points with one zero coordinate have denominators 1. */
  lemma BaseAdds(a: Affine)
    requires a.x == 0 || a.y == 0
    ensures AffineAdd(SMALL, a, BASE) == Affine(5 * a.y % 13, 5 * a.x % 13)
  {
    InvOfOne();
    hide Inv;
    assert Kappa(SMALL, a, BASE) == 0;
  }

  lemma BaseIsOnCurve()
    ensures OnCurve(SMALL, BASE)
  {
    assert CurveExpr(2, 5, 0) == 13 * -2 || CurveExpr(2, 5, 0) == 13 * 2;
    DvdIntro(13, -2);
    DvdIntro(13, 2);
  }

  lemma TimesStep(n: nat)
    ensures Times(SMALL, n + 1, BASE) == AffineAdd(SMALL, Times(SMALL, n, BASE), BASE)
  {
    hide AffineAdd;
  }

  lemma TimesZero()
    ensures Times(SMALL, 0, BASE) == NEUTRAL
  {
  }

  /** The multiples go round in four steps, and only the fourth is neutral. */
  lemma {:induction false} BaseHasOrderFour(n: nat)
    ensures Times(SMALL, n, BASE) == match n % 4
      case 0 => NEUTRAL
      case 1 => BASE
      case 2 => Affine(0, 12)
      case _ => Affine(8, 0)
  {
    hide Times, AffineAdd;
    if n == 0 {
      TimesZero();
    } else {
      BaseHasOrderFour(n - 1);
      NextMultiple(n - 1, Times(SMALL, n - 1, BASE));
    }
  }

  lemma NextMultiple(n: nat, a: Affine)
    requires Times(SMALL, n, BASE) == a && (a.x == 0 || a.y == 0)
    ensures Times(SMALL, n + 1, BASE) == Affine(5 * a.y % 13, 5 * a.x % 13)
  {
    TimesStep(n);
    BaseAdds(a);
    hide *;
  }

  /** The hypotheses about the constants of the verifier can be met as well, with any hash. */
  lemma SmallSuiteIsValid(sha512: seq<Byte> -> seq<Byte>)
    ensures ValidSuite(Suite(SMALL, 4, BASE, sha512))
  {
    SmallCurveIsValid();
    BaseIsOnCurve();
    hide Times, OnCurve, ValidCurve;
    BaseHasOrderFour(4);
  }
}
