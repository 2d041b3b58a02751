/** Encodings of curve points, and the verification equation, over any complete curve and any weight of the sign. */
module VerificationEquation {
  import opened Decompression
  import opened Edwards
  import opened EdwardsGroup
  import opened Ladder
  import opened Modular
  import opened PrimeField

  // ---- Decoding ----

  /** Decoding the encoding of a curve point gives its negative. */
  lemma NegativePointIsNegated(curve: Curve, a: Affine)
    requires CurveHypotheses(curve) && curve.p % 2 == 1 && AffineOnCurve(curve, a)
    requires IsX(curve, CorrectedRoot(curve, a.y), a.y)
    ensures NegativeAffine(curve, a.y, a.x % 2) == Negated(curve, a)
  {
    SquareIsX(curve, a.x, a.y);
    RemainderIsUnique(a.x, 0, a.x, curve.p);
    RemainderIsUnique(a.y, 0, a.y, curve.p);
    NegativeRoot(curve, CorrectedRoot(curve, a.y), a.x, a.y, a.x % 2);
  }

  lemma NegativeRoot(curve: Curve, root: int, x: int, y: int, parity: int)
    requires CurveHypotheses(curve) && curve.p % 2 == 1 && IsX(curve, root, y) && IsX(curve, x, y)
    requires parity == (x % curve.p) % 2
    ensures SignedRoot(curve, root, parity) == (-x) % curve.p
  {
    SignedRootIsAnX(curve, root, y, parity);
    NegatedIsX(curve, x, y);
    NegationFlipsParity(x, curve.p);
    SignedRootIsUnique(curve, SignedRoot(curve, root, parity), (-x) % curve.p, y, parity);
  }

  /** The affine point that UnpackNegative finds for y and a sign bit. */
  function NegativeAffine(curve: Curve, y: int, sign: int): Affine {
    var q := NegativePoint(curve, y, sign);
    Affine(q.x, q.y)
  }

  lemma NegativeAffineIsOnCurve(curve: Curve, y: int, sign: int)
    requires curve.p % 2 == 1 && (sign == 0 || sign == 1) && IsX(curve, CorrectedRoot(curve, y), y)
    ensures var q, a := NegativePoint(curve, y, sign), NegativeAffine(curve, y, sign);
            Proper(curve, q) && ToAffine(curve, q) == a && AffineOnCurve(curve, a)
  {
    NegativePointIsOnCurve(curve, y, sign);
    UnitZIsAffine(curve, NegativePoint(curve, y, sign));
  }

  lemma AffinePointHasX(curve: Curve, a: Affine)
    requires AffineOnCurve(curve, a)
    ensures 0 <= a.x < curve.p && 0 <= a.y < curve.p && IsX(curve, a.x, a.y)
  {
    SquareIsX(curve, a.x, a.y);
  }

  /** The encoding determines the curve point. */
  lemma EncodeDeterminesPoint(curve: Curve, a: Affine, b: Affine, w: int)
    requires CurveHypotheses(curve) && curve.p % 2 == 1 && curve.p < w
    requires AffineOnCurve(curve, a) && AffineOnCurve(curve, b)
    ensures EncodeAt(a, w) == EncodeAt(b, w) <==> a == b
  {
    if EncodeAt(a, w) == EncodeAt(b, w) {
      EncodingParts(EncodeAt(a, w), a.y, a.x % 2, w);
      EncodingParts(EncodeAt(b, w), b.y, b.x % 2, w);
      AffinePointHasX(curve, a);
      AffinePointHasX(curve, b);
      SignedRootIsUnique(curve, a.x, b.x, a.y, 1 - a.x % 2);
    }
  }

  lemma EncodingParts(v: int, y: int, parity: int, w: int)
    requires 0 <= y < w && (parity == 0 || parity == 1) && v == y + parity * w
    ensures parity == (if v < w then 0 else 1) && y == (if v < w then v else v - w)
  {
  }

  // ---- Projective equality ----

  /** The equality of extended points in section 5.1.4 of RFC 8032. */
  predicate SamePoint(curve: Curve, l: Quad, r: Quad) {
    Congruent(l.x * r.z, r.x * l.z, curve.p) && Congruent(l.y * r.z, r.y * l.z, curve.p)
  }

  lemma SamePointExactlyWhenSameAffine(curve: Curve, l: Quad, r: Quad)
    requires PrimeModulus(curve.p) && Proper(curve, l) && Proper(curve, r)
    ensures SamePoint(curve, l, r) <==> ToAffine(curve, l) == ToAffine(curve, r)
  {
    if SamePoint(curve, l, r) {
      FractionsAgree(l.x, l.z, r.x, r.z, curve.p);
      FractionsAgree(l.y, l.z, r.y, r.z, curve.p);
    }
    if ToAffine(curve, l) == ToAffine(curve, r) {
      var a := ToAffine(curve, l);
      ToAffineRepresents(curve, l);
      ToAffineRepresents(curve, r);
      CrossMultiply(a.x, l.x, l.z, r.x, r.z, curve.p);
      CrossMultiply(a.y, l.y, l.z, r.y, r.z, curve.p);
    }
  }

  lemma CrossMultiply(a: int, x: int, z: int, x': int, z': int, p: int)
    requires p > 0 && Congruent(x, a * z, p) && Congruent(x', a * z', p)
    ensures Congruent(x * z', x' * z, p)
  {
    CongruentMul(x, a * z, z', z', p);
    CongruentMul(x', a * z', z, z, p);
    assert (a * z) * z' == (a * z') * z by { SwapLast(a, z, z'); }
  }

  lemma SwapLast(a: int, b: int, c: int)
    ensures (a * b) * c == (a * c) * b
  {
    Associate(a, b, c);
    Associate(a, c, b);
  }

  function Scaled(k: int, q: Quad): Quad {
    Quad(k * q.x, k * q.y, k * q.z, k * q.t)
  }

  lemma ZeroHasZeroInverse(z: int, p: int)
    requires p > 2 && z % p == 0
    ensures Inverse(z, p) == 0
  {
    assert Pow(z, p - 2) == z * Pow(z, p - 3);
    ZeroTimes(z, Pow(z, p - 3), p);
  }

  /** Scaling X, Y, Z and T by a nonzero factor keeps the affine point, and with it what PackPoint writes, for every
      point, on the curve or not. */
  lemma ScalingKeepsAffine(curve: Curve, k: int, q: Quad, w: int)
    requires PrimeModulus(curve.p) && k % curve.p != 0
    ensures ToAffine(curve, Scaled(k, q)) == ToAffine(curve, q)
    ensures EncodeAt(ToAffine(curve, Scaled(k, q)), w) == EncodeAt(ToAffine(curve, q), w)
  {
    var p := curve.p;
    if q.z % p == 0 {
      assert k * q.z == q.z * k;
      ZeroTimes(q.z, k, p);
      ZeroHasZeroInverse(q.z, p);
      ZeroHasZeroInverse(k * q.z, p);
    } else {
      ProductIsNonzero(k, q.z, p);
      SwapFirst(k, q.x, q.z);
      SwapFirst(k, q.y, q.z);
      FractionsAgree(k * q.x, k * q.z, q.x, q.z, p);
      FractionsAgree(k * q.y, k * q.z, q.y, q.z, p);
    }
  }

  /** So does reducing the coordinates, as they are when a point is packed. */
  lemma ReducingKeepsAffine(curve: Curve, q: Quad)
    ensures ToAffine(curve, Reduce(curve, q)) == ToAffine(curve, q)
  {
    var r, p := Reduce(curve, q), curve.p;
    ReducedParts(curve, q);
    PowCongruent(q.z, r.z, p - 2, p);
    CongruentMul(q.x, r.x, Inverse(q.z, p), Inverse(r.z, p), p);
    CongruentMul(q.y, r.y, Inverse(q.z, p), Inverse(r.z, p), p);
  }

  /** The packed encodings of two curve points are equal exactly when they are the same point. */
  lemma EncodingsAgreeExactlyOnSamePoint(curve: Curve, l: Quad, r: Quad, w: int)
    requires CurveHypotheses(curve) && curve.p % 2 == 1 && curve.p < w
    requires Proper(curve, l) && Proper(curve, r)
    ensures EncodeAt(ToAffine(curve, l), w) == EncodeAt(ToAffine(curve, r), w) <==> SamePoint(curve, l, r)
  {
    ToAffineRepresents(curve, l);
    ToAffineRepresents(curve, r);
    SamePointExactlyWhenSameAffine(curve, l, r);
    EncodeDeterminesPoint(curve, ToAffine(curve, l), ToAffine(curve, r), w);
  }

  lemma SwapFirst(k: int, x: int, z: int)
    ensures (k * x) * z == x * (k * z)
  {
    Associate(x, k, z);
  }

  lemma ScaledIsOnCurve(curve: Curve, k: int, q: Quad)
    requires OnCurve(curve, q)
    ensures OnCurve(curve, Scaled(k, q))
  {
    var p, k2 := curve.p, k * k;
    Rearrange(k, q.x, k, q.y);
    Rearrange(k, q.z, k, q.t);
    Rearrange(k, q.x, k, q.x);
    Rearrange(k, q.y, k, q.y);
    Rearrange(k, q.z, k, q.z);
    Rearrange(k, q.t, k, q.t);
    CongruentMul(k2, k2, q.x * q.y, q.z * q.t, p);
    CongruentMul(k2, k2, q.y * q.y - q.x * q.x, q.z * q.z + curve.d * (q.t * q.t), p);
    Distribute(k2, q.y * q.y, -(q.x * q.x));
    Distribute(k2, q.z * q.z, curve.d * (q.t * q.t));
    SwapScale(k2, curve.d, q.t * q.t);
  }

  lemma SwapScale(k: int, d: int, t: int)
    ensures k * (d * t) == d * (k * t)
  {
    Associate(k, d, t);
    Associate(d, k, t);
  }

  // ---- The equation ----

  /** The extended computation is the affine sum [h](-A) + [s]B. */
  lemma RecomputedIsAffineSum(curve: Curve, y: int, sign: int, base: Quad, h: nat, s: nat, bits: nat)
    requires GroupHypotheses(curve) && curve.p % 2 == 1 && (sign == 0 || sign == 1)
    requires IsX(curve, CorrectedRoot(curve, y), y) && Proper(curve, base)
    requires h < Pow(2, bits) && s < Pow(2, bits)
    ensures ToAffine(curve, Sum(curve, LadderOutput(curve, NegativePoint(curve, y, sign), h, bits),
                                       LadderOutput(curve, base, s, bits))) ==
            AffineSum(curve, CurveTimes(curve, h, NegativeAffine(curve, y, sign)),
                             CurveTimes(curve, s, ToAffine(curve, base)))
  {
    var q := NegativePoint(curve, y, sign);
    NegativeAffineIsOnCurve(curve, y, sign);
    LadderComputesMultiple(curve, q, h, bits);
    LadderComputesMultiple(curve, base, s, bits);
    SumIsAffineSum(curve, LadderOutput(curve, q, h, bits), LadderOutput(curve, base, s, bits));
  }

  /** With a = [s]b, the verification sum [h](-a) + [(h s + r) mod order]b is [r]b. */
  lemma VerificationSum(curve: Curve, b: Affine, order: nat, s: nat, r: nat, h: nat, n: nat)
    requires GroupHypotheses(curve) && AffineOnCurve(curve, b)
    requires order > 0 && CurveTimes(curve, order, b) == NEUTRAL && n == h * s
    ensures AffineOnCurve(curve, CurveTimes(curve, s, b))
    ensures AffineSum(curve, CurveTimes(curve, h, Negated(curve, CurveTimes(curve, s, b))),
                             CurveTimes(curve, (n + r) % order, b)) == CurveTimes(curve, r, b)
  {
    var g, a := CurveMonoid(curve), CurveTimes(curve, s, b);
    CurveIsMonoid(curve);
    TimesIsCarried(g, s, b);
    NegatedIsOnCurve(curve, a);
    NegatedCancels(curve, a);
    SignatureEquation(g, b, order, s, r, h, n, Negated(curve, a));
  }

  /** Decoding the encoding of any curve point succeeds and gives its negative. */
  lemma EncodedPointDecodes(curve: Curve, a: Affine, y: int, sign: int, w: int, m: nat)
    requires CurveHypotheses(curve) && curve.p == 8 * m + 5 && curve.p < w && AffineOnCurve(curve, a)
    requires 0 <= y < w && (sign == 0 || sign == 1) && y + sign * w == EncodeAt(a, w)
    ensures y == a.y && sign == a.x % 2
    ensures IsX(curve, CorrectedRoot(curve, y), y) && NegativeAffine(curve, y, sign) == Negated(curve, a)
  {
    AffinePointHasX(curve, a);
    EncodingParts(EncodeAt(a, w), a.y, a.x % 2, w);
    EncodingParts(EncodeAt(a, w), y, sign, w);
    AffinePointDecodes(curve, a, m);
  }

  lemma AffinePointDecodes(curve: Curve, a: Affine, m: nat)
    requires CurveHypotheses(curve) && curve.p == 8 * m + 5 && AffineOnCurve(curve, a)
    ensures IsX(curve, CorrectedRoot(curve, a.y), a.y)
    ensures NegativeAffine(curve, a.y, a.x % 2) == Negated(curve, a)
  {
    AffinePointHasX(curve, a);
    RootExistsExactlyWhenFound(curve, a.y, m);
    NegativePointIsNegated(curve, a);
  }

  /** For a key that encodes [s]b, the equation with the response (h s + r) mod order gives [r]b. */
  lemma HonestEquation(curve: Curve, b: Affine, order: nat, y: int, sign: int, w: int, m: nat, s: nat, r: nat, h: nat,
                       n: nat)
    requires GroupHypotheses(curve) && curve.p == 8 * m + 5 && curve.p < w && AffineOnCurve(curve, b)
    requires order > 0 && CurveTimes(curve, order, b) == NEUTRAL && n == h * s
    requires 0 <= y < w && (sign == 0 || sign == 1) && y + sign * w == EncodeAt(CurveTimes(curve, s, b), w)
    ensures IsX(curve, CorrectedRoot(curve, y), y)
    ensures AffineSum(curve, CurveTimes(curve, h, NegativeAffine(curve, y, sign)),
                             CurveTimes(curve, (n + r) % order, b)) == CurveTimes(curve, r, b)
  {
    VerificationSum(curve, b, order, s, r, h, n);
    EncodedPointDecodes(curve, CurveTimes(curve, s, b), y, sign, w, m);
  }

  // ---- One response for one R ----

  /** No multiple of b below the order is neutral. */
  ghost predicate NoSmallerOrder(curve: Curve, b: Affine, order: nat) {
    forall n: nat :: 0 < n < order ==> CurveTimes(curve, n, b) != NEUTRAL
  }

  lemma MultipleIsOnCurve(curve: Curve, n: nat, a: Affine)
    requires GroupHypotheses(curve) && AffineOnCurve(curve, a)
    ensures AffineOnCurve(curve, CurveTimes(curve, n, a))
  {
    CurveIsMonoid(curve);
    TimesIsCarried(CurveMonoid(curve), n, a);
  }

  /** Points that agree after adding x to both are equal. */
  lemma SummandsAgree(curve: Curve, x: Affine, a: Affine, b: Affine)
    requires GroupHypotheses(curve) && AffineOnCurve(curve, x) && AffineOnCurve(curve, a) && AffineOnCurve(curve, b)
    requires AffineSum(curve, x, a) == AffineSum(curve, x, b)
    ensures a == b
  {
    var g, n := CurveMonoid(curve), Negated(curve, x);
    CurveIsMonoid(curve);
    NegatedIsOnCurve(curve, x);
    NegatedCancels(curve, x);
    CancelLeft(g, n, x, a);
    CancelLeft(g, n, x, b);
  }

  /** The multiples of b below its order are distinct. */
  lemma MultiplesAreDistinct(curve: Curve, b: Affine, order: nat, s: nat, s': nat)
    requires GroupHypotheses(curve) && AffineOnCurve(curve, b) && NoSmallerOrder(curve, b, order)
    requires s < order && s' < order && CurveTimes(curve, s, b) == CurveTimes(curve, s', b)
    ensures s == s'
  {
    if s < s' {
      LaterMultipleDiffers(curve, b, order, s, s', s' - s);
    } else if s' < s {
      LaterMultipleDiffers(curve, b, order, s', s, s - s');
    }
  }

  lemma LaterMultipleDiffers(curve: Curve, b: Affine, order: nat, s: nat, later: nat, d: nat)
    requires GroupHypotheses(curve) && AffineOnCurve(curve, b) && NoSmallerOrder(curve, b, order)
    requires 0 < d < order && later == s + d
    ensures CurveTimes(curve, s, b) != CurveTimes(curve, later, b)
  {
    if CurveTimes(curve, s, b) == CurveTimes(curve, later, b) {
      DifferenceIsNeutral(curve, b, s, d);
    }
  }

  lemma DifferenceIsNeutral(curve: Curve, b: Affine, s: nat, d: nat)
    requires GroupHypotheses(curve) && AffineOnCurve(curve, b)
    requires CurveTimes(curve, s, b) == CurveTimes(curve, s + d, b)
    ensures CurveTimes(curve, d, b) == NEUTRAL
  {
    var g := CurveMonoid(curve);
    CurveIsMonoid(curve);
    MultipleIsOnCurve(curve, s, b);
    MultipleIsOnCurve(curve, d, b);
    TimesAdds(g, s, d, b);
    ZeroAdds(g, Times(g, s, b));
    SummandsAgree(curve, CurveTimes(curve, s, b), CurveTimes(curve, d, b), NEUTRAL);
  }

  /** With R and x given, the encoded sum x + [s]b determines s below the order of b. */
  lemma ResponseIsUnique(curve: Curve, x: Affine, b: Affine, order: nat, s: nat, s': nat, w: int)
    requires GroupHypotheses(curve) && curve.p % 2 == 1 && curve.p < w
    requires AffineOnCurve(curve, x) && AffineOnCurve(curve, b) && NoSmallerOrder(curve, b, order)
    requires s < order && s' < order
    requires EncodeAt(AffineSum(curve, x, CurveTimes(curve, s, b)), w) ==
             EncodeAt(AffineSum(curve, x, CurveTimes(curve, s', b)), w)
    ensures s == s'
  {
    MultipleIsOnCurve(curve, s, b);
    MultipleIsOnCurve(curve, s', b);
    var y, y' := CurveTimes(curve, s, b), CurveTimes(curve, s', b);
    AffineSumIsClosed(curve, x, y);
    AffineSumIsClosed(curve, x, y');
    EncodeDeterminesPoint(curve, AffineSum(curve, x, y), AffineSum(curve, x, y'), w);
    SummandsAgree(curve, x, y, y');
    MultiplesAreDistinct(curve, b, order, s, s');
  }

  /** The same for the sum [h](-A) + [s]b of the equation, with A decoded from y and a sign. */
  lemma KeyedResponseIsUnique(curve: Curve, y: int, sign: int, h: nat, b: Affine, order: nat, s: nat, s': nat, w: int)
    requires GroupHypotheses(curve) && curve.p % 2 == 1 && curve.p < w && (sign == 0 || sign == 1)
    requires IsX(curve, CorrectedRoot(curve, y), y) && AffineOnCurve(curve, b) && NoSmallerOrder(curve, b, order)
    requires s < order && s' < order
    requires var x := CurveTimes(curve, h, NegativeAffine(curve, y, sign));
             EncodeAt(AffineSum(curve, x, CurveTimes(curve, s, b)), w) ==
             EncodeAt(AffineSum(curve, x, CurveTimes(curve, s', b)), w)
    ensures s == s'
  {
    NegativeAffineIsOnCurve(curve, y, sign);
    MultipleIsOnCurve(curve, h, NegativeAffine(curve, y, sign));
    ResponseIsUnique(curve, CurveTimes(curve, h, NegativeAffine(curve, y, sign)), b, order, s, s', w);
  }
}
