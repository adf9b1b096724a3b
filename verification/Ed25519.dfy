/** The signature check of the keyless grant verifier (section 5.1.7 of RFC 8032, without the
    cofactor), against the group equation [S]G = R + [h]A. */
module Ed25519 {
  import opened Wrappers
  import opened ModArith
  import opened Edwards
  import opened GroupLaw
  import opened ScalarMul
  import opened PointCodec

  /** The constants of the verifier: curve, order and base point; and the hash it calls. */
  datatype Suite = Suite(curve: Curve, order: nat, base: Affine, sha512: seq<Byte> -> seq<Byte>)

  /** The base point is on the curve and [order]G is neutral; both numbers fit their encodings. */
  ghost predicate ValidSuite(e: Suite) {
    && ValidCurve(e.curve)
    && e.curve.p <= SIGN_BIT
    && 0 < e.order <= 2 * SIGN_BIT
    && OnCurve(e.curve, e.base)
    && Times(e.curve, e.order, e.base) == NEUTRAL
  }

  function Challenge(e: Suite, rBytes: seq<Byte>, public: seq<Byte>, message: seq<Byte>): nat
    requires e.order > 0
  {
    FromLE(e.sha512(rBytes + public + message)) % e.order
  }

  function Verify(e: Suite, public: seq<Byte>, message: seq<Byte>, signature: seq<Byte>): bool
    requires e.curve.p >= 2 && e.order > 0
  {
    if |public| != 32 || |signature| != 64 then false
    else
      match Decompress(e.curve, public)
      case None => false
      case Some(a) =>
        match Decompress(e.curve, signature[..32])
        case None => false
        case Some(r) =>
          var s := FromLE(signature[32..]);
          if s >= e.order then false
          else
            var h := Challenge(e, signature[..32], public, message);
            PointEqual(e.curve, MulFrom(e.curve, NEUTRAL_POINT, s, Lift(e.curve, e.base)),
                       PointAdd(e.curve, r, MulFrom(e.curve, NEUTRAL_POINT, h, a)))
  }

  /** What a signature has to satisfy, on the curve; h is the SHA-512 of R, the key and the message, in this
      order, read as a little-endian number modulo the order. */
  ghost predicate Accepts(e: Suite, a: Affine, r: Affine, s: nat, public: seq<Byte>, message: seq<Byte>,
                          signature: seq<Byte>)
    requires e.curve.p >= 2 && e.order > 0
  {
    && OnCurve(e.curve, a) && OnCurve(e.curve, r)
    && public == Encode(a) && signature == Encode(r) + ToLE(s, 32)
    && s < e.order
    && Times(e.curve, s, e.base)
       == AffineAdd(e.curve, r, Times(e.curve, FromLE(e.sha512(Encode(r) + public + message)) % e.order, a))
  }

  /** The extended-coordinate equation is the affine one. */
  lemma EquationRefines(e: Suite, a: Affine, r: Affine, s: nat, h: nat)
    requires ValidSuite(e) && OnCurve(e.curve, a) && OnCurve(e.curve, r)
    ensures PointEqual(e.curve, MulFrom(e.curve, NEUTRAL_POINT, s, Lift(e.curve, e.base)),
                       PointAdd(e.curve, Lift(e.curve, r), MulFrom(e.curve, NEUTRAL_POINT, h, Lift(e.curve, a))))
       <==> Times(e.curve, s, e.base) == AffineAdd(e.curve, r, Times(e.curve, h, a))
  {
    hide PointEqual, PointAdd, AffineAdd, MulFrom, Lift;
    var c := e.curve;
    LiftRepresents(c, e.base);
    LiftRepresents(c, a);
    LiftRepresents(c, r);
    MulIsTimes(c, s, Lift(c, e.base), e.base);
    MulIsTimes(c, h, Lift(c, a), a);
    var left := MulFrom(c, NEUTRAL_POINT, s, Lift(c, e.base));
    var ha := MulFrom(c, NEUTRAL_POINT, h, Lift(c, a));
    PointAddRefines(c, Lift(c, r), ha, r, Times(c, h, a));
    PointEqualIff(c, left, PointAdd(c, Lift(c, r), ha),
                  Times(c, s, e.base), AffineAdd(c, r, Times(c, h, a)));
  }

  lemma SplitSignature(r: Affine, s: nat, signature: seq<Byte>)
    requires 0 <= r.y && signature == Encode(r) + ToLE(s, 32)
    ensures |signature| == 64 && signature[..32] == Encode(r) && signature[32..] == ToLE(s, 32)
  {
  }

  /** Completeness of the equation check: any signature that satisfies the equation is accepted. */
  lemma AcceptsVerifies(e: Suite, a: Affine, r: Affine, s: nat, public: seq<Byte>, message: seq<Byte>,
                        signature: seq<Byte>)
    requires ValidSuite(e) && Accepts(e, a, r, s, public, message, signature)
    ensures Verify(e, public, message, signature)
  {
    hide PointEqual, PointAdd, AffineAdd, MulFrom, Lift, Decompress;
    SplitSignature(r, s, signature);
    Width();
    FromLEToLE(s, 32);
    DecompressEncode(e.curve, a);
    DecompressEncode(e.curve, r);
    EquationRefines(e, a, r, s, Challenge(e, Encode(r), public, message));
  }

  /** Soundness: an accepted signature decodes to points A and R of the curve and a scalar
      S < L with [S]G = R + [h]A. */
  lemma VerifyAccepts(e: Suite, public: seq<Byte>, message: seq<Byte>, signature: seq<Byte>)
    returns (a: Affine, r: Affine, s: nat)
    requires ValidSuite(e) && Verify(e, public, message, signature)
    ensures Accepts(e, a, r, s, public, message, signature)
  {
    hide PointEqual, PointAdd, AffineAdd, MulFrom, Lift, Decompress;
    var rBytes, sBytes := signature[..32], signature[32..];
    EncodeDecompress(e.curve, public);
    EncodeDecompress(e.curve, rBytes);
    var pa, pr := Decompress(e.curve, public).value, Decompress(e.curve, rBytes).value;
    a, r, s := Affine(pa.x, pa.y), Affine(pr.x, pr.y), FromLE(sBytes);
    ToLEFromLE(sBytes);
    assert signature == rBytes + sBytes;
    EquationRefines(e, a, r, s, Challenge(e, rBytes, public, message));
  }

  /** The verifier accepts exactly the signatures that satisfy the group equation. */
  lemma VerifyIff(e: Suite, public: seq<Byte>, message: seq<Byte>, signature: seq<Byte>)
    requires ValidSuite(e)
    ensures Verify(e, public, message, signature)
       <==> exists a, r, s :: Accepts(e, a, r, s, public, message, signature)
  {
    if Verify(e, public, message, signature) {
      var a, r, s := VerifyAccepts(e, public, message, signature);
    }
    if exists a, r, s :: Accepts(e, a, r, s, public, message, signature) {
      var a, r, s :| Accepts(e, a, r, s, public, message, signature);
      AcceptsVerifies(e, a, r, s, public, message, signature);
    }
  }

  /** The point that the key encodes has no neutral multiple [k]A with 0 < k < L. */
  ghost predicate FullOrder(e: Suite, public: seq<Byte>)
    requires e.curve.p >= 2
  {
    forall a, k {:trigger Times(e.curve, k, a), Encode(a)} ::
      OnCurve(e.curve, a) && Encode(a) == public && 0 < k < e.order ==> Times(e.curve, k, a) != NEUTRAL
  }

  /** R, S and the key are fixed by the bytes, so two equations differ in their multiples of A alone. */
  lemma SameSignature(e: Suite, public: seq<Byte>, m1: seq<Byte>, m2: seq<Byte>, signature: seq<Byte>)
    returns (a: Affine, r: Affine, h1: nat, h2: nat)
    requires ValidSuite(e) && Verify(e, public, m1, signature) && Verify(e, public, m2, signature)
    ensures |signature| == 64 && OnCurve(e.curve, a) && OnCurve(e.curve, r) && Encode(a) == public
    ensures h1 == FromLE(e.sha512(signature[..32] + public + m1)) % e.order
    ensures h2 == FromLE(e.sha512(signature[..32] + public + m2)) % e.order
    ensures AffineAdd(e.curve, r, Times(e.curve, h1, a)) == AffineAdd(e.curve, r, Times(e.curve, h2, a))
  {
    hide AffineAdd, Verify, Encode, Times, ToLE, FromLE;
    var s, a', r', s';
    a, r, s := VerifyAccepts(e, public, m1, signature);
    a', r', s' := VerifyAccepts(e, public, m2, signature);
    SplitSignature(r, s, signature);
    SplitSignature(r', s', signature);
    EncodeInjective(e.curve, a, a');
    EncodeInjective(e.curve, r, r');
    ToLEInjective(s, s');
    h1 := FromLE(e.sha512(signature[..32] + public + m1)) % e.order;
    h2 := FromLE(e.sha512(signature[..32] + public + m2)) % e.order;
  }

  /** One signature, one message: an accepted signature is accepted for another message exactly when the two
      hashes agree modulo the order, provided that the key has full order. */
  lemma MessageIsBound(e: Suite, public: seq<Byte>, m1: seq<Byte>, m2: seq<Byte>, signature: seq<Byte>)
    requires ValidSuite(e) && Verify(e, public, m1, signature) && FullOrder(e, public)
    ensures |signature| == 64
    ensures Verify(e, public, m2, signature) <==>
      FromLE(e.sha512(signature[..32] + public + m1)) % e.order == FromLE(e.sha512(signature[..32] + public + m2)) % e.order
  {
    if Verify(e, public, m2, signature) {
      hide AffineAdd, Verify, Encode, OnCurve, FromLE;
      var a, r, h1, h2 := SameSignature(e, public, m1, m2, signature);
      TimesOnCurve(e.curve, h1, a);
      TimesOnCurve(e.curve, h2, a);
      AddCancels(e.curve, r, Times(e.curve, h1, a), Times(e.curve, h2, a));
      TimesInjective(e.curve, e.order, a, h1, h2);
    } else {
      hide AffineAdd, Verify, Encode, FromLE, Times, ToLE;
      var a, r, s := VerifyAccepts(e, public, m1, signature);
      SplitSignature(r, s, signature);
      if FromLE(e.sha512(signature[..32] + public + m1)) % e.order == FromLE(e.sha512(signature[..32] + public + m2)) % e.order {
        AcceptsVerifies(e, a, r, s, public, m2, signature);
      }
    }
  }

  lemma ToLEInjective(s: nat, t: nat)
    requires s < 2 * SIGN_BIT && t < 2 * SIGN_BIT && ToLE(s, 32) == ToLE(t, 32)
    ensures s == t
  {
    Width();
    FromLEToLE(s, 32);
    FromLEToLE(t, 32);
    hide ToLE, FromLE;
  }

  /** What a signer with secret scalar k and nonce n publishes for a message. */
  ghost function PublicKey(e: Suite, k: nat): seq<Byte>
    requires ValidSuite(e)
  {
    TimesOnCurve(e.curve, k, e.base);
    Encode(Times(e.curve, k, e.base))
  }

  ghost function Sign(e: Suite, k: nat, n: nat, message: seq<Byte>): seq<Byte>
    requires ValidSuite(e)
  {
    TimesOnCurve(e.curve, n, e.base);
    var rBytes := Encode(Times(e.curve, n, e.base));
    rBytes + ToLE((n + Challenge(e, rBytes, PublicKey(e, k), message) * k) % e.order, 32)
  }

  /** Every honestly produced signature verifies, for every key, nonce and message. */
  lemma HonestVerifies(e: Suite, k: nat, n: nat, message: seq<Byte>)
    requires ValidSuite(e)
    ensures Verify(e, PublicKey(e, k), message, Sign(e, k, n, message))
  {
    hide AffineAdd, Verify, Encode;
    var c, g := e.curve, e.base;
    TimesOnCurve(c, k, g);
    TimesOnCurve(c, n, g);
    var a, r := Times(c, k, g), Times(c, n, g);
    var h := Challenge(e, Encode(r), PublicKey(e, k), message);
    TimesMod(c, e.order, n + h * k, g);
    TimesMul(c, h, k, g);
    TimesAdd(c, n, h * k, g);
    AcceptsVerifies(e, a, r, (n + h * k) % e.order, PublicKey(e, k), message, Sign(e, k, n, message));
  }

  /** One scalar per commitment: when the order of G is exactly L, two accepted signatures of the
      same message under the same key that share R are the same bytes. */
  lemma ScalarIsUnique(e: Suite, public: seq<Byte>, message: seq<Byte>, sig1: seq<Byte>, sig2: seq<Byte>)
    requires ValidSuite(e) && forall k :: 0 < k < e.order ==> Times(e.curve, k, e.base) != NEUTRAL
    requires Verify(e, public, message, sig1) && Verify(e, public, message, sig2)
    requires sig1[..32] == sig2[..32]
    ensures sig1 == sig2
  {
    hide AffineAdd, Verify;
    var a1, r1, s1 := VerifyAccepts(e, public, message, sig1);
    var a2, r2, s2 := VerifyAccepts(e, public, message, sig2);
    SplitSignature(r1, s1, sig1);
    SplitSignature(r2, s2, sig2);
    EncodeInjective(e.curve, a1, a2);
    EncodeInjective(e.curve, r1, r2);
    TimesInjective(e.curve, e.order, e.base, s1, s2);
  }

  lemma EncodeInjective(c: Curve, a: Affine, b: Affine)
    requires ValidCurve(c) && c.p <= SIGN_BIT && OnCurve(c, a) && OnCurve(c, b) && Encode(a) == Encode(b)
    ensures a == b
  {
    DecompressEncode(c, a);
    DecompressEncode(c, b);
  }
}
