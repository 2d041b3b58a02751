/** Scalar multiples on the affine curve, and the double-and-add ladder that computes them. */
module EdwardsGroup {
  import opened Edwards
  import opened Ladder
  import opened Modular
  import opened PrimeField

  /** The one group axiom that is assumed of the affine law; the others are proved below. */
  ghost predicate Associative(curve: Curve) {
    forall a, b, c :: AffineOnCurve(curve, a) && AffineOnCurve(curve, b) && AffineOnCurve(curve, c) ==>
      AffineSum(curve, AffineSum(curve, a, b), c) == AffineSum(curve, a, AffineSum(curve, b, c))
  }

  ghost predicate GroupHypotheses(curve: Curve) {
    CurveHypotheses(curve) && Associative(curve)
  }

  lemma {:induction false} PowersOfOne(n: nat)
    ensures Pow(1, n) == 1
  {
    if n > 0 {
      PowersOfOne(n - 1);
    }
  }

  lemma InverseOfOne(m: int)
    requires m > 2
    ensures Inverse(1, m) == 1
  {
    PowersOfOne(m - 2);
    RemainderIsUnique(1, 0, 1, m);
  }

  lemma LiftIsProper(curve: Curve, a: Affine)
    requires AffineOnCurve(curve, a)
    ensures Proper(curve, Lift(a)) && ToAffine(curve, Lift(a)) == a
  {
    RemainderIsUnique(1, 0, 1, curve.p);
    Rearrange(a.x, a.y, a.x, a.y);
    InverseOfOne(curve.p);
    RemainderIsUnique(a.x, 0, a.x, curve.p);
    RemainderIsUnique(a.y, 0, a.y, curve.p);
  }

  /** The affine law stays on the curve, because the extended one does. */
  lemma AffineSumIsClosed(curve: Curve, a: Affine, b: Affine)
    requires CurveHypotheses(curve) && AffineOnCurve(curve, a) && AffineOnCurve(curve, b)
    ensures AffineOnCurve(curve, AffineSum(curve, a, b))
  {
    LiftIsProper(curve, a);
    LiftIsProper(curve, b);
    SumIsAffineSum(curve, Lift(a), Lift(b));
    ToAffineRepresents(curve, Sum(curve, Lift(a), Lift(b)));
  }

  lemma AffineSumCommutes(curve: Curve, a: Affine, b: Affine)
    ensures AffineSum(curve, a, b) == AffineSum(curve, b, a)
  {
    assert a.x * b.x == b.x * a.x && a.y * b.y == b.y * a.y;
    assert CrossTerm(curve, a, b) == CrossTerm(curve, b, a);
  }

  lemma NeutralIsOnCurve(curve: Curve)
    ensures AffineOnCurve(curve, NEUTRAL) && Proper(curve, IDENTITY) && ToAffine(curve, IDENTITY) == NEUTRAL
  {
    RemainderIsUnique(1, 0, 1, curve.p);
    RemainderIsUnique(0, 0, 0, curve.p);
    InverseOfOne(curve.p);
  }

  lemma NeutralIsNeutral(curve: Curve, a: Affine)
    requires 0 <= a.x < curve.p && 0 <= a.y < curve.p
    ensures AffineSum(curve, a, NEUTRAL) == a && AffineSum(curve, NEUTRAL, a) == a
  {
    InverseOfOne(curve.p);
    assert CrossTerm(curve, a, NEUTRAL) == 0;
    RemainderIsUnique(a.x, 0, a.x, curve.p);
    RemainderIsUnique(a.y, 0, a.y, curve.p);
    AffineSumCommutes(curve, a, NEUTRAL);
  }

  ghost function CurveMonoid(curve: Curve): Monoid<Affine> {
    Monoid(a => AffineOnCurve(curve, a), (a, b) => AffineSum(curve, a, b), NEUTRAL)
  }

  ghost function CurveCoordinates(curve: Curve): Coordinates<Quad, Affine> {
    Coordinates(q => Proper(curve, q), AddOn(curve), IDENTITY, q => ToAffine(curve, q))
  }

  function AddOn(curve: Curve): (Quad, Quad) -> Quad {
    (l, r) => Sum(curve, l, r)
  }

  lemma CurveIsMonoid(curve: Curve)
    requires GroupHypotheses(curve)
    ensures IsMonoid(CurveMonoid(curve))
  {
    var g := CurveMonoid(curve);
    NeutralIsOnCurve(curve);
    forall a | g.carrier(a) ensures g.add(a, g.zero) == a && g.add(g.zero, a) == a {
      NeutralIsNeutral(curve, a);
    }
    forall a, b | g.carrier(a) && g.carrier(b) ensures g.carrier(g.add(a, b)) {
      AffineSumIsClosed(curve, a, b);
    }
  }

  lemma CoordinatesAreHomomorphic(curve: Curve)
    requires CurveHypotheses(curve)
    ensures IsHomomorphism(CurveCoordinates(curve), CurveMonoid(curve))
  {
    var c, g := CurveCoordinates(curve), CurveMonoid(curve);
    NeutralIsOnCurve(curve);
    forall p | c.proper(p) ensures g.carrier(c.meaning(p)) {
      ToAffineRepresents(curve, p);
    }
    forall p, q | c.proper(p) && c.proper(q)
      ensures c.proper(c.add(p, q)) && c.meaning(c.add(p, q)) == g.add(c.meaning(p), c.meaning(q))
    {
      SumIsAffineSum(curve, p, q);
    }
  }

  /** [n]a on the affine curve. */
  ghost function CurveTimes(curve: Curve, n: nat, a: Affine): Affine {
    Times(CurveMonoid(curve), n, a)
  }

  /** The output of the ladder in extended coordinates. */
  function LadderOutput(curve: Curve, point: Quad, n: int, rounds: nat): Quad {
    Run(AddOn(curve), IDENTITY, point, n, rounds).output
  }

  /** The ladder over curve points computes the scalar multiple, for every scalar of `rounds` bits. */
  lemma LadderComputesMultiple(curve: Curve, point: Quad, n: nat, rounds: nat)
    requires GroupHypotheses(curve) && Proper(curve, point) && n < Pow(2, rounds)
    ensures var q := LadderOutput(curve, point, n, rounds);
            Proper(curve, q) && ToAffine(curve, q) == CurveTimes(curve, n, ToAffine(curve, point))
  {
    CurveIsMonoid(curve);
    CoordinatesAreHomomorphic(curve);
    LadderHoldsMultiples(CurveCoordinates(curve), CurveMonoid(curve), point, n, rounds);
  }

  // ---- Inverses, and extended points with Z = 1 ----

  function Negated(curve: Curve, a: Affine): Affine {
    Affine((-a.x) % curve.p, a.y)
  }

  lemma NegatedIsOnCurve(curve: Curve, a: Affine)
    requires AffineOnCurve(curve, a)
    ensures AffineOnCurve(curve, Negated(curve, a))
  {
    SquareOfNegatedResidue(a.x, curve.p);
    var x := (-a.x) % curve.p;
    CurveEquationOfSquare(curve, x * x, a.x * a.x, a.y * a.y);
  }

  lemma SquareOfNegatedResidue(x: int, p: int)
    requires p > 0
    ensures Congruent(((-x) % p) * ((-x) % p), x * x, p)
  {
    SquareOfResidue(-x, p);
    assert Congruent((-x) * (-x), x * x, p) by { SquareOfNegation(x); }
  }

  lemma SquareOfResidue(n: int, p: int)
    requires p > 0
    ensures Congruent((n % p) * (n % p), n * n, p)
  {
    RemainderIsCongruent(n, p);
    CongruentMul(n % p, n, n % p, n, p);
  }

  lemma CurveEquationOfSquare(curve: Curve, s: int, s': int, y2: int)
    requires Congruent(s, s', curve.p) && Congruent(y2 - s', 1 + curve.d * (s' * y2), curve.p)
    ensures Congruent(y2 - s, 1 + curve.d * (s * y2), curve.p)
  {
    CongruentSub(y2, y2, s, s', curve.p);
    CongruentMul(s, s', y2, y2, curve.p);
    CongruentMul(curve.d, curve.d, s * y2, s' * y2, curve.p);
    CongruentAdd(1, 1, curve.d * (s * y2), curve.d * (s' * y2), curve.p);
  }

  lemma NegatedCancels(curve: Curve, a: Affine)
    requires CurveHypotheses(curve) && AffineOnCurve(curve, a)
    ensures AffineSum(curve, Negated(curve, a), a) == NEUTRAL
  {
    var n, p := Negated(curve, a), curve.p;
    RemainderIsCongruent(-a.x, p);
    CancelledX(n.x, a.x, a.y, Inverse(1 + CrossTerm(curve, n, a), p), p);
    NegatedSumHasY(curve, a, n);
  }

  lemma NegatedSumHasY(curve: Curve, a: Affine, n: Affine)
    requires CurveHypotheses(curve) && AffineOnCurve(curve, a) && n == Negated(curve, a)
    ensures ((a.y * a.y + n.x * a.x) * Inverse(1 - CrossTerm(curve, n, a), curve.p)) % curve.p == 1
  {
    NegatedIsOnCurve(curve, a);
    DenominatorsAreInvertible(curve, n, a);
    RemainderIsCongruent(-a.x, curve.p);
    CancelledY(curve, n.x, a.x, a.y);
    QuotientIsOne(a.y * a.y + n.x * a.x, 1 - CrossTerm(curve, n, a), curve.p);
  }

  lemma QuotientIsOne(a: int, b: int, p: int)
    requires PrimeModulus(p) && b % p != 0 && Congruent(a, b, p)
    ensures (a * Inverse(b, p)) % p == 1
  {
    InverseCancels(b, p);
    CongruentMul(a, b, Inverse(b, p), Inverse(b, p), p);
    RemainderIsUnique(1, 0, 1, p);
  }

  lemma CancelledX(nx: int, x: int, y: int, i: int, p: int)
    requires p > 0 && Congruent(nx, -x, p)
    ensures ((nx * y + x * y) * i) % p == 0
  {
    CongruentMul(nx, -x, y, y, p);
    CongruentAdd(nx * y, -x * y, x * y, x * y, p);
    assert -x * y + x * y == 0;
    RemainderIsUnique(0, 0, 0, p);
    ZeroTimes(nx * y + x * y, i, p);
  }

  lemma CancelledY(curve: Curve, nx: int, x: int, y: int)
    requires Congruent(nx, -x, curve.p)
    requires Congruent(y * y - x * x, 1 + curve.d * ((x * x) * (y * y)), curve.p)
    ensures Congruent(y * y + nx * x, 1 - curve.d * ((nx * x) * (y * y)), curve.p)
  {
    var p := curve.p;
    CongruentMul(nx, -x, x, x, p);
    assert -x * x == -(x * x);
    CongruentAdd(y * y, y * y, nx * x, -(x * x), p);
    CongruentMul(nx * x, -(x * x), y * y, y * y, p);
    CongruentMul(curve.d, curve.d, (nx * x) * (y * y), -(x * x) * (y * y), p);
    CongruentSub(1, 1, curve.d * ((nx * x) * (y * y)), curve.d * (-(x * x) * (y * y)), p);
    assert curve.d * (-(x * x) * (y * y)) == -(curve.d * ((x * x) * (y * y))) by {
      MoveSign(curve.d, x * x, y * y);
    }
  }

  lemma MoveSign(d: int, a: int, b: int)
    ensures d * (-a * b) == -(d * (a * b))
  {
    assert -a * b == -(a * b);
  }

  /** An extended point with Z = 1 is its own affine point. */
  lemma UnitZIsAffine(curve: Curve, q: Quad)
    requires q.z == 1 && 0 <= q.x < curve.p && 0 <= q.y < curve.p
    ensures ToAffine(curve, q) == Affine(q.x, q.y)
  {
    InverseOfOne(curve.p);
    RemainderIsUnique(q.x, 0, q.x, curve.p);
    RemainderIsUnique(q.y, 0, q.y, curve.p);
  }
}
