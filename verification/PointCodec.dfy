/** Point compression: recovering x from y and a sign bit, and the 32-byte little-endian form
    (sections 5.1.2 and 5.1.3 of RFC 8032). */
module PointCodec {
  import opened Wrappers
  import opened ModArith
  import opened Edwards

  type Byte = b: int | 0 <= b < 256

  /** 2^255, the weight of the sign bit. */
  const SIGN_BIT: nat := 0x8000000000000000_0000000000000000_0000000000000000_0000000000000000

  // ---- square roots ----

  /** The decoder's candidate for a root of x2: a power, corrected by the root of -1 at most once. */
  function Candidate(c: Curve, x2: int): int
    requires c.p >= 2
  {
    var x0 := Pow(x2, (c.p + 3) / 8) % c.p;
    if (x0 * x0 - x2) % c.p != 0 then x0 * c.sqrtM1 % c.p else x0
  }

  /** x as the decoder computes it. */
  function RecoverX(c: Curve, y: int, sign: int): Option<int>
    requires c.p >= 2
  {
    if y >= c.p then None
    else
      var x2 := (y * y - 1) * Inv(c.p, c.d * y * y + 1) % c.p;
      if x2 == 0 then (if sign != 0 then None else Some(0))
      else
        var x1 := Candidate(c, x2);
        if (x1 * x1 - x2) % c.p != 0 then None
        else if x1 % 2 != sign then Some(c.p - x1)
        else Some(x1)
  }

  /** d y^2 + 1 is invertible, because -1 is a square and d is not. */
  lemma DenominatorOfX(c: Curve, y: int)
    requires ValidCurve(c)
    ensures !Dvd(c.p, c.d * y * y + 1)
  {
    hide Dvd;
    var p, i := c.p, c.sqrtM1;
    if Dvd(p, c.d * y * y + 1) {
      assert c.d * y * y + 1 == c.d * (y * y) - -1;
      CongSym(p, c.d * (y * y), -1);
      CongTrans(p, i * i, -1, c.d * (y * y));
      NotQuotientOfSquares(p, c.d, i, y);
      DvdMul(p, y, c.d * y);
      assert y * (c.d * y) == c.d * y * y;
      DvdAdd(p, c.d * y * y + 1, c.d * y * y);
      DvdSmall(p, 1);
      assert false;
    }
  }

  /** The curve equation at (x, y) says that x^2 is the computed quotient. */
  lemma CurveAsSquare(c: Curve, x: int, y: int)
    requires ValidCurve(c)
    ensures var x2 := (y * y - 1) * Inv(c.p, c.d * y * y + 1) % c.p;
      Dvd(c.p, CurveExpr(c.d, x, y)) <==> Cong(c.p, x * x, x2)
  {
    hide Dvd;
    var p, v, u := c.p, c.d * y * y + 1, y * y - 1;
    var x2 := u * Inv(p, v) % p;
    DenominatorOfX(c, y);
    Quotient(p, u, v);
    assert CurveExpr(c.d, x, y) == u - x * x * v by {
      assert c.d * (x * x) * (y * y) == x * x * (c.d * y * y);
    }
    if Dvd(p, CurveExpr(c.d, x, y)) {
      CongTrans(p, x2 * v, u, x * x * v);
      CongCancel(p, x2, x * x, v);
      CongSym(p, x2, x * x);
    }
    if Cong(p, x * x, x2) {
      CongRefl(p, v);
      CongMul(p, x * x, x2, v, v);
      CongTrans(p, x * x * v, x2 * v, u);
      CongSym(p, x * x * v, u);
    }
  }

  /** The two square roots of a residue: z^2 = w^2 only for z = w and z = -w. */
  lemma RootsOfSquare(p: int, z: int, w: int)
    requires IsPrime(p) && Cong(p, z * z, w * w)
    ensures Cong(p, z, w) || Cong(p, z, -w)
  {
    hide Dvd;
    assert z * z - w * w == (z - w) * (z + w);
    Euclid(p, z - w, z + w);
  }

  /** w^((p-1)/2) is 1 or -1. */
  lemma HalfPower(p: int, w: int, k: nat)
    requires IsPrime(p) && !Dvd(p, w) && p == 2 * k + 1
    ensures Cong(p, Pow(w, k), 1) || Cong(p, Pow(w, k), -1)
  {
    hide Dvd;
    Fermat(p, w);
    PowAdd(w, k, k);
    RootsOfSquare(p, Pow(w, k), 1);
  }

  /** For p = 8k + 5 the power x2^(k+1) of a square x2 = w^2 squares to x2 or to -x2. */
  lemma CandidateSquares(p: int, k: nat, x2: int, w: int)
    requires IsPrime(p) && p == 8 * k + 5 && Cong(p, w * w, x2) && !Dvd(p, x2)
    ensures var r := Pow(x2, k + 1); Cong(p, r * r, x2) || Cong(p, r * r, -x2)
  {
    hide Dvd;
    var r, h := Pow(x2, k + 1), Pow(w, 4 * k + 2);
    CongDvd(p, w * w, x2);
    Euclid(p, w, w);
    HalfPower(p, w, 4 * k + 2);
    // r^2 = x2^(2k+2) = w^(4k+4) = w^(4k+2) x2
    PowAdd(x2, k + 1, k + 1);
    PowCong(p, w * w, x2, 2 * k + 2);
    assert Pow(w, 2) == w * w by { assert Pow(w, 1) == w; }
    PowPow(w, 2, 2 * k + 2);
    PowAdd(w, 4 * k + 2, 2);
    CongRefl(p, h);
    CongMul(p, h, h, w * w, x2);
    CongSym(p, h * (w * w), r * r);
    assert Cong(p, r * r, h * (w * w)) by { CongSym(p, Pow(w * w, 2 * k + 2), r * r); }
    CongTrans(p, r * r, h * (w * w), h * x2);
    CongRefl(p, x2);
    if Cong(p, h, 1) {
      CongMul(p, h, 1, x2, x2);
      CongTrans(p, r * r, h * x2, 1 * x2);
    } else {
      CongMul(p, h, -1, x2, x2);
      CongTrans(p, r * r, h * x2, -1 * x2);
    }
  }

  /** Multiplying by the root of -1 turns a root of -x2 into a root of x2. */
  lemma CorrectedRoot(c: Curve, x0: int, x2: int)
    requires ValidCurve(c) && Cong(c.p, x0 * x0, -x2)
    ensures var x1 := x0 * c.sqrtM1 % c.p; Cong(c.p, x1 * x1, x2)
  {
    hide Dvd;
    var p, i := c.p, c.sqrtM1;
    var x1 := x0 * i % p;
    ModCong(p, x0 * i);
    CongMul(p, x1, x0 * i, x1, x0 * i);
    MulSwap(x0, i, x0, i);
    CongMul(p, x0 * x0, -x2, i * i, -1);
    assert -x2 * -1 == x2;
    CongTrans(p, x1 * x1, (x0 * x0) * (i * i), x2);
  }

  /** The decoder finds a root of x2 whenever there is one. */
  lemma CandidateIsRoot(c: Curve, x2: int, w: int)
    requires ValidCurve(c) && !Dvd(c.p, x2) && Cong(c.p, w * w, x2)
    ensures var x1 := Candidate(c, x2); Cong(c.p, x1 * x1, x2)
  {
    hide Dvd;
    var p, k := c.p, c.p / 8;
    var r := Pow(x2, k + 1);
    var x0 := r % p;
    assert (p + 3) / 8 == k + 1;
    CandidateSquares(p, k, x2, w);
    ModCong(p, r);
    CongMul(p, x0, r, x0, r);
    assert Cong(p, x0 * x0, x2) <==> (x0 * x0 - x2) % p == 0 by { DvdIsRemainder(p, x0 * x0 - x2); }
    if !Cong(p, x0 * x0, x2) {
      if Cong(p, r * r, x2) { CongTrans(p, x0 * x0, r * r, x2); }
      CongTrans(p, x0 * x0, r * r, -x2);
      CorrectedRoot(c, x0, x2);
    }
  }

  lemma DvdIsRemainder(p: int, a: int)
    requires p > 0
    ensures Dvd(p, a) <==> a % p == 0
  {
  }

  /** Among 0 < x < p exactly two residues, z and p - z, have the square of z; they differ in parity. */
  lemma OtherRoot(p: int, z: int)
    ensures (p - z) * (p - z) - z * z == p * (p - 2 * z)
  {
  }

  lemma TwoRoots(p: int, z: int, x: int)
    requires IsPrime(p) && p % 2 == 1 && 0 < z < p && 0 <= x < p
    ensures Cong(p, x * x, z * z) <==> x == z || x == p - z
    ensures (p - z) % 2 != z % 2
  {
    hide Dvd;
    CongRefl(p, z * z);
    DvdIntro(p, p - 2 * z);
    OtherRoot(p, z);
    if Cong(p, x * x, z * z) {
      RootsOfSquare(p, x, z);
      if Cong(p, x, z) { ReducedUnique(p, x, z); }
      if Cong(p, x, -z) { NegatedRoot(p, x, z); }
    }
  }

  lemma NegatedRoot(p: int, x: int, z: int)
    requires 0 < z < p && 0 <= x < p && Cong(p, x, -z)
    ensures x == p - z
  {
    hide Dvd;
    assert x - -z == x + z;
    DvdIntro(p, 1);
    DvdAdd(p, x + z, 1 * p);
    DvdSmall(p, x + z - p);
  }

  lemma CandidateReduced(c: Curve, x2: int)
    requires c.p >= 2
    ensures 0 <= Candidate(c, x2) < c.p
  {
  }

  lemma OddModulus(c: Curve)
    requires ValidCurve(c)
    ensures c.p % 2 == 1
  {
  }

  /** Decompression is sound and complete: it returns x exactly when (x, y) is the point of the
      curve whose abscissa has the requested parity (section 5.1.3 of RFC 8032). */
  lemma RecoverXIff(c: Curve, y: int, sign: int, x: int)
    requires ValidCurve(c) && 0 <= y && 0 <= sign <= 1
    ensures RecoverX(c, y, sign) == Some(x) <==> OnCurve(c, Affine(x, y)) && x % 2 == sign
  {
    var p := c.p;
    if y < p {
      var x2 := (y * y - 1) * Inv(p, c.d * y * y + 1) % p;
      ModCong(p, (y * y - 1) * Inv(p, c.d * y * y + 1));
      CurveAsSquare(c, x, y);
      if x2 == 0 {
        RecoverZero(c, y, sign, x);
      } else {
        RecoverRoot(c, x2, x);
        RecoverNonzero(c, y, sign, x, x2);
      }
    }
  }

  lemma RecoverZero(c: Curve, y: int, sign: int, x: int)
    requires ValidCurve(c) && 0 <= y < c.p && 0 <= sign <= 1
    requires (y * y - 1) * Inv(c.p, c.d * y * y + 1) % c.p == 0
    ensures RecoverX(c, y, sign) == Some(x) <==> OnCurve(c, Affine(x, y)) && x % 2 == sign
  {
    hide Inv, CurveExpr, Dvd;
    CurveAsSquare(c, x, y);
    Euclid(c.p, x, x);
    if 0 <= x < c.p && Dvd(c.p, x) { DvdSmall(c.p, x); }
    if x == 0 { CongRefl(c.p, 0); }
  }

  /** Which reduced x square to x2, in terms of the candidate. */
  lemma RecoverRoot(c: Curve, x2: int, x: int)
    requires ValidCurve(c) && 0 < x2 < c.p
    ensures var x1 := Candidate(c, x2);
      && (Cong(c.p, x1 * x1, x2) ==> 0 < x1 < c.p && (c.p - x1) % 2 != x1 % 2)
      && (0 <= x < c.p ==>
            (Cong(c.p, x * x, x2) <==> Cong(c.p, x1 * x1, x2) && (x == x1 || x == c.p - x1)))
  {
    hide Dvd, Candidate;
    var p, x1 := c.p, Candidate(c, x2);
    OddModulus(c);
    CandidateReduced(c, x2);
    if Dvd(p, x2) { DvdSmall(p, x2); }
    if Cong(p, x1 * x1, x2) {
      CongDvd(p, x1 * x1, x2);
      if x1 == 0 { CongRefl(p, 0); }
      CongSym(p, x1 * x1, x2);
      if 0 <= x < p {
        TwoRoots(p, x1, x);
        if Cong(p, x * x, x2) { CongTrans(p, x * x, x2, x1 * x1); }
        if Cong(p, x * x, x1 * x1) { CongTrans(p, x * x, x1 * x1, x2); }
      } else {
        TwoRoots(p, x1, x1);
      }
    } else if Cong(p, x * x, x2) {
      CandidateIsRoot(c, x2, x);
    }
  }

  lemma RecoverNonzero(c: Curve, y: int, sign: int, x: int, x2: int)
    requires ValidCurve(c) && 0 <= y < c.p && 0 <= sign <= 1
    requires x2 == (y * y - 1) * Inv(c.p, c.d * y * y + 1) % c.p && x2 != 0
    ensures RecoverX(c, y, sign) == Some(x) <==> OnCurve(c, Affine(x, y)) && x % 2 == sign
  {
    hide Inv, CurveExpr, Candidate;
    var x1 := Candidate(c, x2);
    ModCong(c.p, (y * y - 1) * Inv(c.p, c.d * y * y + 1));
    CurveAsSquare(c, x, y);
    RecoverRoot(c, x2, x);
    DvdIsRemainder(c.p, x1 * x1 - x2);
    CandidateReduced(c, x2);
    OddModulus(c);
    hide Dvd;
  }

  // ---- bytes ----

  /** int.from_bytes(s, "little") */
  function FromLE(s: seq<Byte>): (n: nat) {
    if s == [] then 0 else s[0] + 256 * FromLE(s[1..])
  }

  /** The k-byte little-endian form. */
  function ToLE(n: nat, k: nat): (s: seq<Byte>)
    ensures |s| == k
  {
    if k == 0 then [] else [n % 256] + ToLE(n / 256, k - 1)
  }

  /** The bytes that follow weigh 256^|s| times as much. */
  lemma {:induction false} FromLEAppend(s: seq<Byte>, t: seq<Byte>)
    ensures FromLE(s + t) == FromLE(s) + Pow(256, |s|) * FromLE(t)
  {
    if s == [] {
      assert s + t == t;
    } else {
      FromLEAppend(s[1..], t);
      assert (s + t)[1..] == s[1..] + t;
      assert 256 * (Pow(256, |s| - 1) * FromLE(t)) == 256 * Pow(256, |s| - 1) * FromLE(t);
    }
  }

  lemma {:induction false} FromLEBound(s: seq<Byte>)
    ensures FromLE(s) < Pow(256, |s|)
  {
    if s != [] { FromLEBound(s[1..]); }
  }

  lemma {:induction false} ToLEFromLE(s: seq<Byte>)
    ensures ToLE(FromLE(s), |s|) == s
  {
    if s != [] {
      ToLEFromLE(s[1..]);
      assert FromLE(s) % 256 == s[0] && FromLE(s) / 256 == FromLE(s[1..]);
    }
  }

  lemma {:induction false} FromLEToLE(n: nat, k: nat)
    requires n < Pow(256, k)
    ensures FromLE(ToLE(n, k)) == n
  {
    if k > 0 {
      assert n / 256 < Pow(256, k - 1);
      FromLEToLE(n / 256, k - 1);
      assert ToLE(n, k)[1..] == ToLE(n / 256, k - 1);
    }
  }

  lemma Width()
    ensures Pow(256, 32) == 2 * SIGN_BIT
  {
    assert Pow(256, 4) == 0x1_0000_0000;
    PowAdd(256, 4, 4);
    PowAdd(256, 8, 8);
    PowAdd(256, 16, 16);
  }

  function Decompress(c: Curve, raw: seq<Byte>): Option<Point>
    requires c.p >= 2
  {
    if |raw| != 32 then None
    else
      var n := FromLE(raw);
      var sign, y := n / SIGN_BIT, n % SIGN_BIT;
      match RecoverX(c, y, sign)
      case None => None
      case Some(x) => Some(Point(x, y, 1, x * y % c.p))
  }

  /** The 32-byte form of a point: y with the parity of x in the top bit (section 5.1.2 of RFC 8032). */
  function Encode(a: Affine): seq<Byte>
    requires 0 <= a.y
  {
    ToLE(a.y + (a.x % 2) * SIGN_BIT, 32)
  }

  function Lift(c: Curve, a: Affine): Point
    requires c.p > 0
  {
    Point(a.x, a.y, 1, a.x * a.y % c.p)
  }

  lemma SplitSignBit(n: nat)
    requires n < 2 * SIGN_BIT
    ensures 0 <= n / SIGN_BIT <= 1 && n == n % SIGN_BIT + (n / SIGN_BIT) * SIGN_BIT
  {
  }

  lemma JoinSignBit(y: nat, sign: nat)
    requires y < SIGN_BIT && sign <= 1
    ensures y + sign * SIGN_BIT < 2 * SIGN_BIT
    ensures (y + sign * SIGN_BIT) / SIGN_BIT == sign && (y + sign * SIGN_BIT) % SIGN_BIT == y
  {
  }

  /** A decompressed point is on the curve, and encoding it gives back the bytes. */
  lemma EncodeDecompress(c: Curve, raw: seq<Byte>)
    requires ValidCurve(c)
    ensures Decompress(c, raw).Some? ==>
      var pt := Decompress(c, raw).value;
      var a := Affine(pt.x, pt.y);
      OnCurve(c, a) && Encode(a) == raw && pt == Lift(c, a)
  {
    hide OnCurve, RecoverX;
    if Decompress(c, raw).Some? {
      var n := FromLE(raw);
      FromLEBound(raw);
      Width();
      SplitSignBit(n);
      var pt := Decompress(c, raw).value;
      RecoverXIff(c, n % SIGN_BIT, n / SIGN_BIT, pt.x);
      ToLEFromLE(raw);
    }
  }

  /** Every point of the curve is what its encoding decompresses to. */
  lemma DecompressEncode(c: Curve, a: Affine)
    requires ValidCurve(c) && c.p <= SIGN_BIT && OnCurve(c, a)
    ensures Decompress(c, Encode(a)) == Some(Lift(c, a))
  {
    hide RecoverX;
    Width();
    JoinSignBit(a.y, a.x % 2);
    FromLEToLE(a.y + (a.x % 2) * SIGN_BIT, 32);
    RecoverXIff(c, a.y, a.x % 2, a.x);
  }

  /** The bytes that decompress are exactly the encodings of the points of the curve. */
  lemma DecompressIff(c: Curve, raw: seq<Byte>, a: Affine)
    requires ValidCurve(c) && c.p <= SIGN_BIT
    ensures OnCurve(c, a) && raw == Encode(a)
       <==> Decompress(c, raw) == Some(Lift(c, a))
  {
    if OnCurve(c, a) && raw == Encode(a) { DecompressEncode(c, a); }
    if Decompress(c, raw) == Some(Lift(c, a)) { EncodeDecompress(c, raw); }
  }

  lemma LiftRepresents(c: Curve, a: Affine)
    requires ValidCurve(c) && OnCurve(c, a)
    ensures Represents(c, Lift(c, a), a)
  {
    if Dvd(c.p, 1) { DvdSmall(c.p, 1); }
    CongRefl(c.p, a.x);
    CongRefl(c.p, a.y);
    ModCong(c.p, a.x * a.y);
  }
}
