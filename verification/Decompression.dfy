/** Recovering x from y: the square root of (y^2 - 1) / (d y^2 + 1) (section 5.1.3 of RFC 8032),
    and the encoding of a point by y and the parity of x. */
module Decompression {
  import opened Edwards
  import opened Modular
  import opened PrimeField

  /** Numerator and denominator of x^2. */
  function U(y: int): int { y * y - 1 }
  function V(curve: Curve, y: int): int { 1 + y * y * curve.d }

  /** x solves the curve equation for this y. */
  predicate IsX(curve: Curve, x: int, y: int) {
    Congruent(x * x * V(curve, y), U(y), curve.p)
  }

  /** u v^3 (u v^7)^((p - 5) / 8), the candidate root, in the code's order of multiplication. */
  function CandidateOf(u: int, v: int, p: int): int
    requires p > 4
  {
    var v2 := v * v;
    var v4 := v2 * v2;
    Pow(v4 * v2 * u * v, Eighth(p)) * u * v * v * v
  }

  function Eighth(p: int): nat
    requires p > 4
  {
    (p - 5) / 8
  }

  function Candidate(curve: Curve, y: int): int {
    CandidateOf(U(y), V(curve, y), curve.p)
  }

  lemma CandidateOfCongruent(u: int, u': int, v: int, v': int, p: int)
    requires p > 4 && Congruent(u, u', p) && Congruent(v, v', p)
    ensures Congruent(CandidateOf(u, v, p), CandidateOf(u', v', p), p)
  {
    var e := Eighth(p);
    CongruentMul(v, v', v, v', p);
    CongruentMul(v * v, v' * v', v * v, v' * v', p);
    var v2, v2', v4, v4' := v * v, v' * v', (v * v) * (v * v), (v' * v') * (v' * v');
    CongruentMul(v4, v4', v2, v2', p);
    CongruentMul(v4 * v2, v4' * v2', u, u', p);
    CongruentMul(v4 * v2 * u, v4' * v2' * u', v, v', p);
    PowCongruent(v4 * v2 * u * v, v4' * v2' * u' * v', e, p);
    var t, t' := Pow(v4 * v2 * u * v, e), Pow(v4' * v2' * u' * v', e);
    CongruentMul(t, t', u, u', p);
    CongruentMul(t * u, t' * u', v, v', p);
    CongruentMul(t * u * v, t' * u' * v', v, v', p);
    CongruentMul(t * u * v * v, t' * u' * v' * v', v, v', p);
  }

  /** The candidate, corrected by a square root of -1 when it solves the negated equation. */
  function CorrectedRoot(curve: Curve, y: int): int {
    if IsX(curve, Candidate(curve, y), y) then Candidate(curve, y) else Candidate(curve, y) * curve.i
  }

  // ---- The candidate is a root whenever there is one ----

  lemma SquareIsX(curve: Curve, x: int, y: int)
    ensures IsX(curve, x, y) <==> Congruent(y * y - x * x, 1 + curve.d * ((x * x) * (y * y)), curve.p)
  {
    var e := 1 + curve.d * ((x * x) * (y * y));
    assert x * x * V(curve, y) == x * x + curve.d * ((x * x) * (y * y)) by {
      Distribute(x * x, 1, y * y * curve.d);
      Associate(x * x, y * y, curve.d);
    }
    if IsX(curve, x, y) {
      CongruentAdd(U(y), x * x * V(curve, y), 1 - x * x, 1 - x * x, curve.p);
    }
    if Congruent(y * y - x * x, e, curve.p) {
      CongruentAdd(e, y * y - x * x, x * x - 1, x * x - 1, curve.p);
    }
  }

  /** With u = x^2 v, the candidate is x w^(2 m + 1) for w = x v^4. */
  lemma CandidateInRoots(curve: Curve, x: int, y: int, m: nat)
    requires curve.p == 8 * m + 5 && IsX(curve, x, y)
    ensures var v := V(curve, y);
            Congruent(Candidate(curve, y), x * Pow(x * ((v * v) * (v * v)), 2 * m + 1), curve.p)
  {
    var u, v, p := U(y), V(curve, y), curve.p;
    var v2 := v * v;
    var v4 := v2 * v2;
    var w, uu := x * v4, x * x * v;
    CongruentMul(v4 * v2, v4 * v2, u, uu, p);
    CongruentMul(v4 * v2 * u, v4 * v2 * uu, v, v, p);
    PowCongruent(v4 * v2 * u * v, v4 * v2 * uu * v, m, p);
    assert v4 * v2 * uu * v == w * w by { RootSquare(x, v); }
    PowMultiplies(w, 2, m);
    assert Pow(w, 2) == w * w by { assert Pow(w, 1) == w * Pow(w, 0); }
    var t := Pow(w, 2 * m);
    CongruentMul(Pow(v4 * v2 * u * v, m), t, u, uu, p);
    CongruentMul(Pow(v4 * v2 * u * v, m) * u, t * uu, v, v, p);
    CongruentMul(Pow(v4 * v2 * u * v, m) * u * v, t * uu * v, v, v, p);
    CongruentMul(Pow(v4 * v2 * u * v, m) * u * v * v, t * uu * v * v, v, v, p);
    assert t * uu * v * v * v == x * (w * t) by { RootTail(t, x, v); }
    assert Pow(w, 2 * m + 1) == w * t;
  }

  lemma RootSquare(x: int, v: int)
    ensures var v2 := v * v; var v4 := v2 * v2;
            v4 * v2 * (x * x * v) * v == (x * v4) * (x * v4)
  {
    var v2 := v * v;
    var v4 := v2 * v2;
    Rearrange(x, v4, x, v4);
    Associate(v4 * v2, x * x * v, v);
    Associate(x * x, v, v);
    Rearrange(v4, v2, x * x, v2);
    assert v4 * (x * x) * v4 == x * x * (v4 * v4) by {
      Associate(x * x, v4, v4);
      assert v4 * (x * x) == x * x * v4;
    }
  }

  lemma RootTail(t: int, x: int, v: int)
    ensures var v4 := (v * v) * (v * v);
            t * (x * x * v) * v * v * v == x * ((x * v4) * t)
  {
    var v2, a := v * v, t * (x * x * v);
    var v4 := v2 * v2;
    assert a * v * v * v == a * (v * v2) by {
      Associate(a, v, v);
      Associate(a, v2, v);
      assert v2 * v == v * v2;
    }
    Associate(t, x * x * v, v * v2);
    assert x * x * v * (v * v2) == x * x * v4 by {
      Associate(x * x, v, v * v2);
      Associate(v, v, v2);
    }
    Associate(x, x, v4);
    assert t * (x * (x * v4)) == x * ((x * v4) * t) by {
      Associate(t, x, x * v4);
      Associate(x, t, x * v4);
      assert t * x == x * t && t * (x * v4) == (x * v4) * t;
    }
  }

  /** w^((p - 1) / 2) is a square root of 1. */
  lemma HalfPowerIsSign(w: int, m: nat, p: int)
    requires PrimeModulus(p) && p == 8 * m + 5 && w % p != 0
    ensures var h := Pow(w, 2 * m + 1); Congruent(h * h, 1, p) || Congruent(h * h, -1, p)
  {
    var h := Pow(w, 2 * m + 1);
    PowAdds(w, 2 * m + 1, 2 * m + 1);
    PowAdds(w, 4 * m + 2, 4 * m + 2);
    assert 2 * m + 1 + (2 * m + 1) == 4 * m + 2 && 4 * m + 2 + (4 * m + 2) == p - 1;
    RemainderIsUnique(1, 0, 1, p);
    SquaresToOneOrMinusOne(h * h, p);
  }

  /** (x h)^2 v = x^2 v h^2. */
  lemma ScaledRoot(x: int, h: int, v: int)
    ensures (x * h) * (x * h) * v == (x * x * v) * (h * h)
  {
    Rearrange(x, h, x, h);
    Associate(x * x, h * h, v);
    Associate(x * x, v, h * h);
    assert h * h * v == v * (h * h);
  }

  lemma XDependsOnResidue(curve: Curve, x: int, x': int, y: int)
    requires Congruent(x, x', curve.p)
    ensures IsX(curve, x, y) <==> IsX(curve, x', y)
  {
    CongruentMul(x, x', x, x', curve.p);
    CongruentMul(x * x, x' * x', V(curve, y), V(curve, y), curve.p);
  }

  /** The candidate solves the equation or its negation. */
  lemma CandidateSquares(curve: Curve, x: int, y: int, m: nat)
    requires PrimeModulus(curve.p) && curve.p == 8 * m + 5 && IsX(curve, x, y)
    ensures var c := Candidate(curve, y);
            IsX(curve, c, y) || Congruent(c * c * V(curve, y), -U(y), curve.p)
  {
    var v, u, p, c := V(curve, y), U(y), curve.p, Candidate(curve, y);
    var w := x * ((v * v) * (v * v));
    var h := Pow(w, 2 * m + 1);
    CandidateInRoots(curve, x, y, m);
    CongruentMul(c, x * h, c, x * h, p);
    CongruentMul(c * c, (x * h) * (x * h), v, v, p);
    ScaledRoot(x, h, v);
    CongruentMul(x * x * v, u, h * h, h * h, p);
    if w % p != 0 {
      HalfPowerIsSign(w, m, p);
      if Congruent(h * h, 1, p) {
        CongruentMul(u, u, h * h, 1, p);
      } else {
        CongruentMul(u, u, h * h, -1, p);
      }
    } else {
      VanishingRoot(curve, x, y, w, c, h);
    }
  }

  lemma VanishingRoot(curve: Curve, x: int, y: int, w: int, c: int, h: int)
    requires PrimeModulus(curve.p) && IsX(curve, x, y)
    requires w == x * ((V(curve, y) * V(curve, y)) * (V(curve, y) * V(curve, y))) && w % curve.p == 0
    requires Congruent(c * c * V(curve, y), U(y) * (h * h), curve.p)
    ensures IsX(curve, c, y)
  {
    FourthPowerVanishes(x, V(curve, y), curve.p);
    NumeratorVanishes(x, V(curve, y), U(y), curve.p);
    ZeroTimes(U(y), h * h, curve.p);
  }

  lemma FourthPowerVanishes(x: int, v: int, p: int)
    requires PrimeModulus(p) && (x * ((v * v) * (v * v))) % p == 0
    ensures x % p == 0 || v % p == 0
  {
    NoZeroDivisors(x, (v * v) * (v * v), p);
    if x % p != 0 {
      NoZeroDivisors(v * v, v * v, p);
      NoZeroDivisors(v, v, p);
    }
  }

  lemma NumeratorVanishes(x: int, v: int, u: int, p: int)
    requires p > 0 && (x % p == 0 || v % p == 0) && Congruent(x * x * v, u, p)
    ensures u % p == 0
  {
    if x % p == 0 {
      ZeroTimes(x, x, p);
      ZeroTimes(x * x, v, p);
    } else {
      ZeroTimes(v, x * x, p);
      assert x * x * v == v * (x * x);
    }
  }

  /** UnpackNegative's final check succeeds exactly when some x completes y to a curve point. */
  lemma RootExistsExactlyWhenFound(curve: Curve, y: int, m: nat)
    requires PrimeModulus(curve.p) && curve.p == 8 * m + 5 && Congruent(curve.i * curve.i, -1, curve.p)
    ensures IsX(curve, CorrectedRoot(curve, y), y) <==> exists x :: IsX(curve, x, y)
  {
    if x :| IsX(curve, x, y) {
      CandidateSquares(curve, x, y, m);
      var c := Candidate(curve, y);
      if !IsX(curve, c, y) {
        NegatedRoot(curve, c, y);
      }
    }
  }

  lemma NegatedRoot(curve: Curve, c: int, y: int)
    requires Congruent(c * c * V(curve, y), -U(y), curve.p) && Congruent(curve.i * curve.i, -1, curve.p)
    ensures IsX(curve, c * curve.i, y)
  {
    var v := V(curve, y);
    ScaledRoot(c, curve.i, v);
    CongruentMul(c * c * v, -U(y), curve.i * curve.i, -1, curve.p);
  }

  // ---- The root is unique up to sign, so an encoding determines its point ----

  lemma DenominatorIsInvertible(curve: Curve, y: int)
    requires CurveHypotheses(curve)
    ensures V(curve, y) % curve.p != 0
  {
    var p := curve.p;
    if V(curve, y) % p == 0 {
      // d y^2 = -1 = i^2 would make d a square
      RemainderIsUnique(0, 0, 0, p);
      CongruentSub(V(curve, y), 0, 1, 1, p);
      assert y * y * curve.d == curve.d * (y * y);
      assert Congruent(curve.i * curve.i, curve.d * (y * y), p);
      ZeroTimes(y, y * curve.d, p);
      assert y * (y * curve.d) == y * y * curve.d by { Associate(y, y, curve.d); }
      RemainderIsUnique(1, 0, 1, p);
      CongruentAdd(y * y * curve.d, 0, 1, 1, p);
      assert false;
    }
  }

  lemma RootsDifferBySign(curve: Curve, x: int, x': int, y: int)
    requires CurveHypotheses(curve) && IsX(curve, x, y) && IsX(curve, x', y)
    ensures Congruent(x, x', curve.p) || Congruent(x, -x', curve.p)
  {
    var p := curve.p;
    DenominatorIsInvertible(curve, y);
    CancelFactor(x * x, x' * x', V(curve, y), p);
    DifferenceIsZero(x * x, x' * x', p);
    assert (x - x') * (x + x') == x * x - x' * x';
    NoZeroDivisors(x - x', x + x', p);
    DifferenceIsZero(x, x', p);
    DifferenceIsZero(x, -x', p);
  }

  /** Negating a nonzero residue of an odd modulus flips its parity. */
  lemma NegationFlipsParity(x: int, p: int)
    requires p > 2 && p % 2 == 1
    ensures (-x) % p == if x % p == 0 then 0 else p - x % p
    ensures x % p != 0 ==> ((-x) % p) % 2 == 1 - (x % p) % 2
  {
    NegatedRemainder(x, p);
    if x % p != 0 {
      ParityOfComplement(p, x % p);
    }
  }

  lemma NegatedRemainder(x: int, p: int)
    requires p > 2
    ensures (-x) % p == if x % p == 0 then 0 else p - x % p
  {
    var q, r := x / p, x % p;
    assert x == q * p + r;
    if r == 0 {
      assert -x == (-q) * p + 0;
      RemainderIsUnique(-x, -q, 0, p);
    } else {
      assert -x == (-q - 1) * p + (p - r) by { Distribute(p, -q, -1); }
      RemainderIsUnique(-x, -q - 1, p - r, p);
    }
  }

  lemma ParityOfComplement(p: int, r: int)
    requires p % 2 == 1
    ensures (p - r) % 2 == 1 - r % 2
  {
  }

  /** The x that UnpackNegative settles on: its parity is the opposite of the sign bit, unless it is 0. */
  function SignedRoot(curve: Curve, x: int, sign: int): int {
    if (x % curve.p) % 2 == sign then (-x) % curve.p else x % curve.p
  }

  lemma SignedRootIsAnX(curve: Curve, x: int, y: int, sign: int)
    requires curve.p % 2 == 1 && (sign == 0 || sign == 1)
    ensures var r := SignedRoot(curve, x, sign);
            0 <= r < curve.p && (IsX(curve, x, y) <==> IsX(curve, r, y)) && (r != 0 ==> r % 2 == 1 - sign)
  {
    NegationFlipsParity(x, curve.p);
    NegatedIsX(curve, x, y);
    ReducedIsX(curve, x, y);
  }

  lemma ReducedIsX(curve: Curve, x: int, y: int)
    ensures IsX(curve, x % curve.p, y) <==> IsX(curve, x, y)
  {
    RemainderIsCongruent(x, curve.p);
    XDependsOnResidue(curve, x, x % curve.p, y);
  }

  lemma NegatedIsX(curve: Curve, x: int, y: int)
    ensures IsX(curve, (-x) % curve.p, y) <==> IsX(curve, x, y)
  {
    ReducedIsX(curve, -x, y);
    SquareOfNegation(x);
  }

  /** Sign and y leave at most one x. */
  lemma SignedRootIsUnique(curve: Curve, x: int, x': int, y: int, sign: int)
    requires CurveHypotheses(curve) && curve.p % 2 == 1 && (sign == 0 || sign == 1)
    requires IsX(curve, x, y) && IsX(curve, x', y)
    requires 0 <= x < curve.p && 0 <= x' < curve.p
    requires (x != 0 ==> x % 2 == 1 - sign) && (x' != 0 ==> x' % 2 == 1 - sign)
    ensures x == x'
  {
    var p := curve.p;
    RootsDifferBySign(curve, x, x', y);
    RemainderIsUnique(x, 0, x, p);
    RemainderIsUnique(x', 0, x', p);
    NegationFlipsParity(x', p);
  }

  /** The encoding of section 5.1.2 of RFC 8032 as an integer: y with the parity of x at the weight w. */
  function EncodeAt(a: Affine, w: int): int {
    a.y + (a.x % 2) * w
  }

  function Encode(a: Affine): int {
    EncodeAt(a, Pow(2, 255))
  }

  /** The point UnpackNegative returns for y and a sign bit: the negative of the encoded one. */
  function NegativePoint(curve: Curve, y: int, sign: int): Quad {
    var x := SignedRoot(curve, CorrectedRoot(curve, y), sign);
    Quad(x, y % curve.p, 1, (x * y) % curve.p)
  }

  /** Whenever the check succeeds, the result is a curve point with Z = 1 and T = XY, for this y, whose
      x is the one whose parity is the opposite of the sign bit. */
  lemma NegativePointIsOnCurve(curve: Curve, y: int, sign: int)
    requires curve.p % 2 == 1 && (sign == 0 || sign == 1)
    requires IsX(curve, CorrectedRoot(curve, y), y)
    ensures var q := NegativePoint(curve, y, sign);
            Proper(curve, q) && q.z == 1 && Congruent(q.y, y, curve.p) && Congruent(q.t, q.x * q.y, curve.p) &&
            (q.x != 0 ==> q.x % 2 == 1 - sign) && AffineOnCurve(curve, Affine(q.x, q.y))
  {
    var q, p := NegativePoint(curve, y, sign), curve.p;
    SignedRootIsAnX(curve, CorrectedRoot(curve, y), y, sign);
    RemainderIsCongruent(y, p);
    RemainderIsCongruent(q.x * y, p);
    CongruentMul(q.x, q.x, q.y, y, p);
    XFitsReducedY(curve, q.x, y);
    SquareIsX(curve, q.x, q.y);
    ExtendedFromAffine(curve, q);
    RemainderIsUnique(1, 0, 1, p);
  }

  lemma XFitsReducedY(curve: Curve, x: int, y: int)
    ensures IsX(curve, x, y % curve.p) <==> IsX(curve, x, y)
  {
    var p, y' := curve.p, y % curve.p;
    RemainderIsCongruent(y, p);
    CongruentMul(y', y, y', y, p);
    CongruentSub(y' * y', y * y, 1, 1, p);
    CongruentMul(y' * y', y * y, curve.d, curve.d, p);
    CongruentAdd(1, 1, y' * y' * curve.d, y * y * curve.d, p);
    CongruentMul(x * x, x * x, V(curve, y'), V(curve, y), p);
  }

  lemma ExtendedFromAffine(curve: Curve, q: Quad)
    requires q.z == 1 && Congruent(q.t, q.x * q.y, curve.p)
    requires Congruent(q.y * q.y - q.x * q.x, 1 + curve.d * ((q.x * q.x) * (q.y * q.y)), curve.p)
    ensures OnCurve(curve, q)
  {
    CongruentMul(q.t, q.x * q.y, q.t, q.x * q.y, curve.p);
    Rearrange(q.x, q.y, q.x, q.y);
    CongruentMul(curve.d, curve.d, q.t * q.t, (q.x * q.x) * (q.y * q.y), curve.p);
    CongruentAdd(1, 1, curve.d * (q.t * q.t), curve.d * ((q.x * q.x) * (q.y * q.y)), curve.p);
  }
}
