/** d has no square root modulo P. 2 has none because P = 5 modulo 8, and 2 d has one. */
module NonSquareConstant {
  import opened Edwards
  import opened Modular
  import opened PrimeField

  lemma {:induction false} OddPowerOfMinusOne(m: nat)
    ensures Pow(-1, 2 * m + 1) == -1
  {
    if m > 0 {
      OddPowerOfMinusOne(m - 1);
      assert Pow(-1, 2 * m + 1) == -1 * (-1 * Pow(-1, 2 * m - 1));
    }
  }

  /** If v^2 = i u^2 then v^(p-1) = -u^(p-1), as p - 1 is four times an odd number. */
  lemma QuarterTurnFlipsSign(v: int, u: int, i: int, m: nat, p: int)
    requires p == 8 * m + 5
    requires Congruent(i * i, -1, p) && Congruent(v * v, i * (u * u), p)
    ensures Congruent(Pow(v, p - 1), -Pow(u, p - 1), p)
  {
    var odd := 2 * m + 1;
    assert Pow(v, 4) == (v * v) * (v * v) by { FourthPower(v); }
    assert Pow(u, 4) == (u * u) * (u * u) by { FourthPower(u); }
    CongruentMul(v * v, i * (u * u), v * v, i * (u * u), p);
    Rearrange(i, u * u, i, u * u);
    CongruentMul(i * i, -1, Pow(u, 4), Pow(u, 4), p);
    PowCongruent(Pow(v, 4), -1 * Pow(u, 4), odd, p);
    PowDistributes(-1, Pow(u, 4), odd);
    OddPowerOfMinusOne(m);
    PowMultiplies(v, 4, odd);
    PowMultiplies(u, 4, odd);
    assert 4 * odd == p - 1;
  }

  lemma FourthPower(v: int)
    ensures Pow(v, 4) == (v * v) * (v * v)
  {
    PowAdds(v, 2, 2);
    assert Pow(v, 2) == v * Pow(v, 1) && Pow(v, 1) == v * Pow(v, 0);
  }

  lemma QuarterTurnIsImpossible(v: int, u: int, i: int, m: nat, p: int)
    requires PrimeModulus(p) && p == 8 * m + 5 && u % p != 0 && v % p != 0
    requires Congruent(i * i, -1, p)
    ensures !Congruent(v * v, i * (u * u), p)
  {
    if Congruent(v * v, i * (u * u), p) {
      QuarterTurnFlipsSign(v, u, i, m, p);
      RemainderIsUnique(1, 0, 1, p);
      CongruentSub(0, 0, Pow(u, p - 1), 1, p);
      RemainderIsUnique(-1, -1, p - 1, p);
      assert false;
    }
  }

  /** (1 + i)^2 = 2 i turns a square root of d into a forbidden quarter turn. */
  lemma RootGivesQuarterTurn(curve: Curve, root: int, s: int, w: int)
    requires Congruent(curve.i * curve.i, -1, curve.p) && Congruent(root * root, 2 * curve.d, curve.p)
    requires Congruent(s * s, curve.d * (w * w), curve.p)
    ensures var v, u := (1 + curve.i) * s, root * w;
            Congruent(v * v, curve.i * (u * u), curve.p)
  {
    var i, p := curve.i, curve.p;
    var v, u := (1 + i) * s, root * w;
    Rearrange(1 + i, s, 1 + i, s);
    Rearrange(root, w, root, w);
    assert (1 + i) * (1 + i) == i * i + 1 + 2 * i;
    CongruentAdd(i * i, -1, 1 + 2 * i, 1 + 2 * i, p);
    CongruentMul((1 + i) * (1 + i), 2 * i, s * s, curve.d * (w * w), p);
    CongruentMul(root * root, 2 * curve.d, w * w, w * w, p);
    CongruentMul(i, i, u * u, 2 * curve.d * (w * w), p);
    assert 2 * i * (curve.d * (w * w)) == i * (2 * curve.d * (w * w)) by { MoveTwo(i, curve.d, w * w); }
  }

  lemma MoveTwo(i: int, d: int, w: int)
    ensures 2 * i * (d * w) == i * (2 * d * w)
  {
    Associate(2, d, w);
    Associate(i, 2, d * w);
    assert i * 2 == 2 * i;
  }

  /** The test used for edwards25519: a square root of 2 d, with p = 5 modulo 8. */
  lemma TwiceSquareIsNonSquare(curve: Curve, root: int, m: nat)
    requires PrimeModulus(curve.p) && curve.p == 8 * m + 5 && curve.d % curve.p != 0
    requires Congruent(curve.i * curve.i, -1, curve.p) && Congruent(root * root, 2 * curve.d, curve.p)
    ensures NonSquare(curve)
  {
    forall s: int, w: int | Congruent(s * s, curve.d * (w * w), curve.p) ensures w % curve.p == 0 {
      if w % curve.p != 0 {
        RootGivesQuarterTurn(curve, root, s, w);
        NonzeroFactors(curve, root, s, w);
        QuarterTurnIsImpossible((1 + curve.i) * s, root * w, curve.i, m, curve.p);
        assert false;
      }
    }
  }

  lemma NonzeroFactors(curve: Curve, root: int, s: int, w: int)
    requires PrimeModulus(curve.p) && curve.d % curve.p != 0 && w % curve.p != 0
    requires Congruent(curve.i * curve.i, -1, curve.p) && Congruent(root * root, 2 * curve.d, curve.p)
    requires Congruent(s * s, curve.d * (w * w), curve.p)
    ensures ((1 + curve.i) * s) % curve.p != 0 && (root * w) % curve.p != 0
  {
    var p := curve.p;
    RemainderIsUnique(2, 0, 2, p);
    ProductIsNonzero(2, curve.d, p);
    ProductIsNonzero(w, w, p);
    ProductIsNonzero(curve.d, w * w, p);
    if root % p == 0 { ZeroTimes(root, root, p); assert false; }
    if s % p == 0 { ZeroTimes(s, s, p); assert false; }
    ProductIsNonzero(root, w, p);
    if (1 + curve.i) % p == 0 {
      // i = -1 would give i^2 = 1
      RemainderIsUnique(0, 0, 0, p);
      CongruentSub(1 + curve.i, 0, 1, 1, p);
      CongruentMul(curve.i, -1, curve.i, -1, p);
      RemainderIsUnique(1, 0, 1, p);
      RemainderIsUnique(-1, -1, p - 1, p);
      assert false;
    }
    ProductIsNonzero(1 + curve.i, s, p);
  }

  lemma CompleteFromRoot(curve: Curve, root: int, m: nat)
    requires PrimeModulus(curve.p) && curve.p == 8 * m + 5 && curve.d % curve.p != 0
    requires Congruent(curve.i * curve.i, -1, curve.p) && Congruent(root * root, 2 * curve.d, curve.p)
    ensures CurveHypotheses(curve)
  {
    TwiceSquareIsNonSquare(curve, root, m);
  }
}
