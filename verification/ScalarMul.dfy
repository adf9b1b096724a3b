/** Double-and-add in extended coordinates, against n-fold affine addition. */
module ScalarMul {
  import opened ModArith
  import opened Edwards
  import opened GroupLaw

  /** n-fold addition of a. */
  ghost function Times(c: Curve, n: nat, a: Affine): Affine
    requires c.p >= 2
  {
    if n == 0 then NEUTRAL else AffineAdd(c, Times(c, n - 1, a), a)
  }

  lemma {:induction false} TimesOnCurve(c: Curve, n: nat, a: Affine)
    requires ValidCurve(c) && OnCurve(c, a)
    ensures OnCurve(c, Times(c, n, a))
  {
    hide OnCurve;
    if n == 0 {
      NeutralOnCurve(c);
    } else {
      TimesOnCurve(c, n - 1, a);
      AddStaysOnCurve(c, Times(c, n - 1, a), a);
    }
  }

  lemma {:induction false} TimesAdd(c: Curve, m: nat, n: nat, a: Affine)
    requires ValidCurve(c) && OnCurve(c, a)
    ensures Times(c, m + n, a) == AffineAdd(c, Times(c, m, a), Times(c, n, a))
  {
    hide OnCurve, AffineAdd;
    TimesOnCurve(c, m, a);
    if n == 0 {
      AddNeutral(c, Times(c, m, a));
    } else {
      TimesOnCurve(c, n - 1, a);
      TimesAdd(c, m, n - 1, a);
      AddAssociative(c, Times(c, m, a), Times(c, n - 1, a), a);
    }
  }

  lemma {:induction false} TimesMul(c: Curve, m: nat, n: nat, a: Affine)
    requires ValidCurve(c) && OnCurve(c, a)
    ensures m * n >= 0 && Times(c, m * n, a) == Times(c, m, Times(c, n, a))
  {
    hide OnCurve, AffineAdd;
    if m == 0 {
    } else {
      TimesMul(c, m - 1, n, a);
      assert m * n == (m - 1) * n + n;
      TimesAdd(c, (m - 1) * n, n, a);
    }
  }

  lemma {:induction false} TimesNeutral(c: Curve, n: nat)
    requires ValidCurve(c)
    ensures Times(c, n, NEUTRAL) == NEUTRAL
  {
    hide AffineAdd;
    if n > 0 {
      TimesNeutral(c, n - 1);
      NeutralOnCurve(c);
      AddNeutral(c, NEUTRAL);
    }
  }

  /** When [l]a is neutral, scalars may be reduced modulo l. */
  lemma TimesMod(c: Curve, l: nat, n: nat, a: Affine)
    requires ValidCurve(c) && OnCurve(c, a) && l > 0 && Times(c, l, a) == NEUTRAL
    ensures Times(c, n % l, a) == Times(c, n, a)
  {
    hide OnCurve, AffineAdd;
    var q, r := n / l, n % l;
    DivMod(l, n);
    TimesMul(c, q, l, a);
    TimesNeutral(c, q);
    TimesAdd(c, q * l, r, a);
    TimesOnCurve(c, r, a);
    AddNeutral(c, Times(c, r, a));
  }

  /** Cancellation in the group: a + b = a + b' forces b = b'. */
  lemma AddCancels(c: Curve, a: Affine, b: Affine, b': Affine)
    requires ValidCurve(c) && OnCurve(c, a) && OnCurve(c, b) && OnCurve(c, b')
    requires AffineAdd(c, a, b) == AffineAdd(c, a, b')
    ensures b == b'
  {
    hide OnCurve, AffineAdd;
    var n := Negate(c, a);
    AddInverse(c, a);
    AddCommutes(c, a, n);
    AddAssociative(c, n, a, b);
    AddAssociative(c, n, a, b');
    AddNeutral(c, b);
    AddNeutral(c, b');
  }

  /** If l is the order of a, the multiples [0]a, ..., [l-1]a are pairwise distinct. */
  lemma TimesInjective(c: Curve, l: nat, a: Affine, m: nat, n: nat)
    requires ValidCurve(c) && OnCurve(c, a)
    requires forall k :: 0 < k < l ==> Times(c, k, a) != NEUTRAL
    requires m < l && n < l && Times(c, m, a) == Times(c, n, a)
    ensures m == n
  {
    hide OnCurve, AffineAdd;
    var lo, hi := if m < n then m else n, if m < n then n else m;
    TimesAdd(c, lo, hi - lo, a);
    TimesOnCurve(c, lo, a);
    TimesOnCurve(c, hi - lo, a);
    NeutralOnCurve(c);
    AddNeutral(c, Times(c, lo, a));
    AddCancels(c, Times(c, lo, a), Times(c, hi - lo, a), NEUTRAL);
  }

  // ---- double-and-add ----

  /** The value of the loop from an accumulator q, a scalar s and the current doubling. */
  function MulFrom(c: Curve, q: Point, s: nat, point: Point): Point
    requires c.p > 0
    decreases s
  {
    if s == 0 then q
    else MulFrom(c, if s % 2 == 1 then PointAdd(c, q, point) else q, s / 2, PointAdd(c, point, point))
  }

  method PointMul(c: Curve, scalar: nat, pt: Point) returns (q: Point)
    requires c.p > 0
    ensures q == MulFrom(c, NEUTRAL_POINT, scalar, pt)
    ensures forall a :: ValidCurve(c) && OnCurve(c, a) && Represents(c, pt, a)
              ==> Represents(c, q, Times(c, scalar, a))
  {
    var s, point := scalar, pt;
    q := NEUTRAL_POINT;
    while s != 0
      invariant MulFrom(c, q, s, point) == MulFrom(c, NEUTRAL_POINT, scalar, pt)
    {
      if s % 2 == 1 {
        q := PointAdd(c, q, point);
      }
      point := PointAdd(c, point, point);
      s := s / 2;
    }
    forall a | ValidCurve(c) && OnCurve(c, a) && Represents(c, pt, a)
      ensures Represents(c, q, Times(c, scalar, a))
    {
      MulIsTimes(c, scalar, pt, a);
    }
  }

  lemma {:induction false} MulFromIsTimes(c: Curve, q: Point, s: nat, point: Point, b: Affine, a: Affine)
    requires ValidCurve(c) && OnCurve(c, a) && OnCurve(c, b)
    requires Represents(c, q, b) && Represents(c, point, a)
    ensures Represents(c, MulFrom(c, q, s, point), AffineAdd(c, b, Times(c, s, a)))
    decreases s
  {
    hide OnCurve, AffineAdd, Represents, PointAdd;
    if s == 0 {
      AddNeutral(c, b);
    } else {
      var twice, h := AffineAdd(c, a, a), s / 2;
      PointAddRefines(c, point, point, a, a);
      TimesTwice(c, h, a);
      TimesOnCurve(c, h, twice);
      if s % 2 == 1 {
        PointAddRefines(c, q, point, b, a);
        MulFromIsTimes(c, PointAdd(c, q, point), h, PointAdd(c, point, point), AffineAdd(c, b, a), twice);
        AddAssociative(c, b, a, Times(c, h, twice));
        AddCommutes(c, a, Times(c, h, twice));
        assert s == 2 * h + 1;
      } else {
        MulFromIsTimes(c, q, h, PointAdd(c, point, point), b, twice);
        assert s == 2 * h;
      }
    }
  }

  lemma TimesTwice(c: Curve, h: nat, a: Affine)
    requires ValidCurve(c) && OnCurve(c, a)
    ensures Times(c, 2 * h, a) == Times(c, h, AffineAdd(c, a, a))
  {
    hide OnCurve, AffineAdd;
    TimesMul(c, h, 2, a);
    AddNeutral(c, a);
    assert Times(c, 1, a) == a;
    assert Times(c, 2, a) == AffineAdd(c, a, a);
  }

  /** The loop computes [s]a in extended coordinates. */
  lemma MulIsTimes(c: Curve, s: nat, pt: Point, a: Affine)
    requires ValidCurve(c) && OnCurve(c, a) && Represents(c, pt, a)
    ensures Represents(c, MulFrom(c, NEUTRAL_POINT, s, pt), Times(c, s, a))
    ensures OnCurve(c, Times(c, s, a))
  {
    hide OnCurve, AffineAdd;
    NeutralOnCurve(c);
    TimesOnCurve(c, s, a);
    MulFromIsTimes(c, NEUTRAL_POINT, s, pt, NEUTRAL, a);
    AddNeutral(c, Times(c, s, a));
  }

  /** Multiplying by s + t is adding the two multiples, up to projective equality. */
  lemma MulDistributes(c: Curve, s: nat, t: nat, pt: Point, a: Affine)
    requires ValidCurve(c) && OnCurve(c, a) && Represents(c, pt, a)
    ensures PointEqual(c, MulFrom(c, NEUTRAL_POINT, s + t, pt),
                       PointAdd(c, MulFrom(c, NEUTRAL_POINT, s, pt), MulFrom(c, NEUTRAL_POINT, t, pt)))
  {
    hide AffineAdd, PointAdd, PointEqual, MulFrom;
    var ps, pt' := MulFrom(c, NEUTRAL_POINT, s, pt), MulFrom(c, NEUTRAL_POINT, t, pt);
    MulIsTimes(c, s, pt, a);
    MulIsTimes(c, t, pt, a);
    MulIsTimes(c, s + t, pt, a);
    PointAddRefines(c, ps, pt', Times(c, s, a), Times(c, t, a));
    TimesAdd(c, s, t, a);
    PointEqualIff(c, MulFrom(c, NEUTRAL_POINT, s + t, pt), PointAdd(c, ps, pt'),
                  Times(c, s + t, a), Times(c, s + t, a));
  }
}
