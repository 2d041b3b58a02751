/** The twisted Edwards curve -x^2 + y^2 = 1 + d x^2 y^2 modulo p in extended coordinates
    (sections 5.1 and 5.1.4 of RFC 8032), and the addition that AddPoints computes. */
module Edwards {
  import opened Modular
  import opened PrimeField

  /** A modulus, the curve constant d and a square root i of -1. Keeping them symbolic keeps the
      algebra below independent of their size. */
  datatype RawCurve = RawCurve(p: int, d: int, i: int)
  type Curve = c: RawCurve | c.p > 4 witness RawCurve(5, 2, 2)

  /** A point in extended homogeneous coordinates (X, Y, Z, T). */
  datatype Quad = Quad(x: int, y: int, z: int, t: int)

  /** XY = ZT and the curve equation with denominators cleared. */
  predicate OnCurve(curve: Curve, q: Quad) {
    Congruent(q.x * q.y, q.z * q.t, curve.p) &&
    Congruent(q.y * q.y - q.x * q.x, q.z * q.z + curve.d * (q.t * q.t), curve.p)
  }

  const IDENTITY: Quad := Quad(0, 1, 1, 0)

  /** The coordinates that AddPoints writes, reduced modulo p. */
  function Sum(curve: Curve, l: Quad, r: Quad): Quad {
    var a := (l.y - l.x) * (r.y - r.x);
    var b := (l.x + l.y) * (r.x + r.y);
    var c := l.t * r.t * (2 * curve.d);
    var d := 2 * (l.z * r.z);
    var e, f, g, h := b - a, d - c, d + c, b + a;
    Quad((e * f) % curve.p, (h * g) % curve.p, (g * f) % curve.p, (e * h) % curve.p)
  }

  // ---- The addition formulas, with the factors of two taken out ----

  function HalfE(l: Quad, r: Quad): int { l.x * r.y + l.y * r.x }
  function HalfH(l: Quad, r: Quad): int { l.y * r.y + l.x * r.x }
  function HalfU(l: Quad, r: Quad): int { l.z * r.z }
  function HalfV(curve: Curve, l: Quad, r: Quad): int { curve.d * (l.t * r.t) }

  lemma TwiceScaled(k: int, d: int)
    ensures k * (2 * d) == 2 * (d * k)
  {
  }

  /** Sum is four times the product of the halved factors E F, H G, G F and E H. */
  lemma SumInHalves(curve: Curve, l: Quad, r: Quad)
    ensures var e, h, u, v := HalfE(l, r), HalfH(l, r), HalfU(l, r), HalfV(curve, l, r);
            var s := Sum(curve, l, r);
            Congruent(s.x, 4 * (e * (u - v)), curve.p) && Congruent(s.y, 4 * (h * (u + v)), curve.p) &&
            Congruent(s.z, 4 * ((u + v) * (u - v)), curve.p) && Congruent(s.t, 4 * (e * h), curve.p)
  {
    var e, h, u, v := HalfE(l, r), HalfH(l, r), HalfU(l, r), HalfV(curve, l, r);
    var c := l.t * r.t * (2 * curve.d);
    assert c == 2 * v by { TwiceScaled(l.t * r.t, curve.d); }
    var a := (l.y - l.x) * (r.y - r.x);
    var b := (l.x + l.y) * (r.x + r.y);
    assert b - a == 2 * e && b + a == 2 * h;
    CongruentSub(2 * u, 2 * u, c, 2 * v, curve.p);
    CongruentAdd(2 * u, 2 * u, c, 2 * v, curve.p);
    DoubledProduct(curve, 2 * e, e, 2 * u - c, u - v);
    DoubledProduct(curve, 2 * h, h, 2 * u + c, u + v);
    DoubledProduct(curve, 2 * u + c, u + v, 2 * u - c, u - v);
    DoubledProduct(curve, 2 * e, e, 2 * h, h);
  }

  lemma DoubledProduct(curve: Curve, a: int, halfA: int, b: int, halfB: int)
    requires Congruent(a, 2 * halfA, curve.p) && Congruent(b, 2 * halfB, curve.p)
    ensures Congruent((a * b) % curve.p, 4 * (halfA * halfB), curve.p)
  {
    CongruentMul(a, 2 * halfA, b, 2 * halfB, curve.p);
    RemainderIsCongruent(a * b, curve.p);
    assert (2 * halfA) * (2 * halfB) == 4 * (halfA * halfB) by {
      Rearrange(2, halfA, 2, halfB);
    }
  }

  // ---- The sum stays on the curve ----

  /** Whatever the operands are, the result satisfies XY = ZT. */
  lemma SumIsExtended(curve: Curve, l: Quad, r: Quad)
    ensures var s := Sum(curve, l, r); Congruent(s.x * s.y, s.z * s.t, curve.p)
  {
    var e, h, u, v := HalfE(l, r), HalfH(l, r), HalfU(l, r), HalfV(curve, l, r);
    var s := Sum(curve, l, r);
    SumInHalves(curve, l, r);
    CongruentMul(s.x, 4 * (e * (u - v)), s.y, 4 * (h * (u + v)), curve.p);
    CongruentMul(s.z, 4 * ((u + v) * (u - v)), s.t, 4 * (e * h), curve.p);
    assert (4 * (e * (u - v))) * (4 * (h * (u + v))) == (4 * ((u + v) * (u - v))) * (4 * (e * h)) by {
      FourFactors(e, u - v, h, u + v);
    }
  }

  lemma FourFactors(a: int, b: int, c: int, d: int)
    ensures (4 * (a * b)) * (4 * (c * d)) == (4 * (d * b)) * (4 * (a * c))
  {
    Rearrange(4, a * b, 4, c * d);
    Rearrange(4, d * b, 4, a * c);
    Rearrange(a, b, c, d);
    assert (d * b) * (a * c) == (a * c) * (b * d);
  }

  lemma NormProduct(x1: int, y1: int, x2: int, y2: int)
    ensures var e, h := x1 * y2 + y1 * x2, y1 * y2 + x1 * x2;
            h * h - e * e == (y1 * y1 - x1 * x1) * (y2 * y2 - x2 * x2)
  {
  }

  lemma NormSum(x1: int, y1: int, x2: int, y2: int)
    ensures var e, h := x1 * y2 + y1 * x2, y1 * y2 + x1 * x2;
            h * h + e * e == (x1 * x1 + y1 * y1) * (x2 * x2 + y2 * y2) + 4 * ((x1 * y1) * (x2 * y2))
  {
  }

  lemma CrossProduct(x1: int, y1: int, x2: int, y2: int)
    ensures var e, h := x1 * y2 + y1 * x2, y1 * y2 + x1 * x2;
            e * h == (x1 * y1) * (x2 * x2 + y2 * y2) + (x2 * y2) * (x1 * x1 + y1 * y1)
  {
  }

  lemma SquareOfSum(x: int, y: int)
    ensures var s, c := x * x + y * y, y * y - x * x; s * s == c * c + 4 * ((x * y) * (x * y))
  {
  }

  lemma LeftSide(h: int, e: int, u: int, v: int)
    ensures (h * (u + v)) * (h * (u + v)) - (e * (u - v)) * (e * (u - v)) ==
            (h * h - e * e) * (u * u + v * v) + 2 * (u * v) * (h * h + e * e)
  {
  }

  /** The heart of the closure proof, in the squares of Z and the scaled squares of T. */
  lemma ClosureIdentity(z1: int, z2: int, t1: int, t2: int)
    ensures 4 * ((z1 * z2) * (t1 * t2)) + (z1 * t2 + t1 * z2) * (z1 * z2 + t1 * t2) ==
            (z1 * t1) * ((z2 + t2) * (z2 + t2)) + (z2 * t2) * ((z1 + t1) * (z1 + t1))
  {
    var p1, p2 := z1 * t1, z2 * t2;
    Foil(z1 * t2, t1 * z2, z1 * z2, t1 * t2);
    Rearrange(z1, t2, z1, z2);
    Rearrange(z1, t2, t1, t2);
    Rearrange(t1, z2, z1, z2);
    Rearrange(t1, z2, t1, t2);
    Rearrange(z1, z2, t1, t2);
    Foil(z1, t1, z1, t1);
    Foil(z2, t2, z2, t2);
    WeightedSquare(p1, z2 * z2, p2, t2 * t2);
    WeightedSquare(p2, z1 * z1, p1, t1 * t1);
  }

  lemma Foil(a: int, b: int, c: int, d: int)
    ensures (a + b) * (c + d) == a * c + a * d + b * c + b * d
  {
    Distribute(a + b, c, d);
  }

  lemma WeightedSquare(p: int, a: int, q: int, b: int)
    ensures p * (a + q + q + b) == a * p + 2 * (p * q) + p * b
  {
    Distribute(p, a + q + q, b);
    Distribute(p, a + q, q);
    Distribute(p, a, q);
  }

  /** The left side of the curve equation of the sum, from the invariants of the operands. */
  function Left(c: int, n: int, w: int, sigma: int, rho: int): int {
    c * n + 2 * w * (sigma + 4 * rho)
  }

  /** The right side, likewise. */
  function Right(curve: Curve, m: int, a: int, b: int, sigma: int, rho: int): int {
    m + curve.d * (a + b + 8 * (rho * rho) + 2 * rho * sigma)
  }

  lemma CrossSquare(p1: int, s1: int, c1: int, p2: int, s2: int, c2: int)
    requires s1 * s1 == c1 * c1 + 4 * (p1 * p1) && s2 * s2 == c2 * c2 + 4 * (p2 * p2)
    ensures (p1 * s2 + p2 * s1) * (p1 * s2 + p2 * s1) ==
            (p1 * c2) * (p1 * c2) + (p2 * c1) * (p2 * c1) + 8 * ((p1 * p2) * (p1 * p2)) + 2 * (p1 * p2) * (s1 * s2)
  {
    var a, b := p1 * s2, p2 * s1;
    assert (a + b) * (a + b) == a * a + b * b + 2 * (a * b);
    assert a * a == (p1 * p1) * (s2 * s2) by { Rearrange(p1, s2, p1, s2); }
    assert b * b == (p2 * p2) * (s1 * s1) by { Rearrange(p2, s1, p2, s1); }
    assert a * b == (p1 * p2) * (s2 * s1) by { Rearrange(p1, s2, p2, s1); }
    Distribute(p1 * p1, c2 * c2, 4 * (p2 * p2));
    Distribute(p2 * p2, c1 * c1, 4 * (p1 * p1));
    assert (p1 * c2) * (p1 * c2) == (p1 * p1) * (c2 * c2) by { Rearrange(p1, c2, p1, c2); }
    assert (p2 * c1) * (p2 * c1) == (p2 * p2) * (c1 * c1) by { Rearrange(p2, c1, p2, c1); }
    assert (p1 * p2) * (p1 * p2) == (p1 * p1) * (p2 * p2) by { Rearrange(p1, p2, p1, p2); }
    assert s2 * s1 == s1 * s2;
  }

  /** Over the integers, before any congruence is used. */
  lemma SidesOfTheSum(curve: Curve, l: Quad, r: Quad)
    ensures var e, h, u, v := HalfE(l, r), HalfH(l, r), HalfU(l, r), HalfV(curve, l, r);
            var c1, c2 := l.y * l.y - l.x * l.x, r.y * r.y - r.x * r.x;
            var p1, p2 := l.x * l.y, r.x * r.y;
            var sigma := (l.x * l.x + l.y * l.y) * (r.x * r.x + r.y * r.y);
            var f, g := u - v, u + v;
            (h * g) * (h * g) - (e * f) * (e * f) == Left(c1 * c2, u * u + v * v, u * v, sigma, p1 * p2) &&
            (g * f) * (g * f) + curve.d * ((e * h) * (e * h)) ==
              Right(curve, (g * f) * (g * f), (p1 * c2) * (p1 * c2), (p2 * c1) * (p2 * c1), sigma, p1 * p2)
  {
    var e, h, u, v := HalfE(l, r), HalfH(l, r), HalfU(l, r), HalfV(curve, l, r);
    NormProduct(l.x, l.y, r.x, r.y);
    NormSum(l.x, l.y, r.x, r.y);
    CrossProduct(l.x, l.y, r.x, r.y);
    SquareOfSum(l.x, l.y);
    SquareOfSum(r.x, r.y);
    LeftSide(h, e, u, v);
    CrossSquare(l.x * l.y, l.x * l.x + l.y * l.y, l.y * l.y - l.x * l.x,
                r.x * r.y, r.x * r.x + r.y * r.y, r.y * r.y - r.x * r.x);
  }

  /** After replacing the operands' invariants by their Z and T forms, both sides are one polynomial. */
  lemma SidesAgree(curve: Curve, z1: int, t1: int, z2: int, t2: int, sigma: int)
    ensures var u, v := z1 * z2, curve.d * (t1 * t2);
            var q1, q2 := z1 * z1 + curve.d * (t1 * t1), z2 * z2 + curve.d * (t2 * t2);
            var m1, m2 := z1 * t1, z2 * t2;
            var gf := (u + v) * (u - v);
            Left(q1 * q2, u * u + v * v, u * v, sigma, m1 * m2) ==
            Right(curve, gf * gf, (m1 * q2) * (m1 * q2), (m2 * q1) * (m2 * q1), sigma, m1 * m2)
  {
    var u, v := z1 * z2, curve.d * (t1 * t2);
    var a1, a2, b1, b2 := z1 * z1, z2 * z2, curve.d * (t1 * t1), curve.d * (t2 * t2);
    var q1, q2, m1, m2 := a1 + b1, a2 + b2, z1 * t1, z2 * t2;
    ProductsOfHalves(curve.d, z1, t1, z2, t2);
    ScaledSquare(curve, z1, t1, q2);
    ScaledSquare(curve, z2, t2, q1);
    ProductOfNorms(a1, a2, b1, b2, u, v);
    Combine(curve, q1 * q2 * (u * u + v * v), ((u + v) * (u - v)) * ((u + v) * (u - v)),
      (m1 * q2) * (m1 * q2), (m2 * q1) * (m2 * q1), m1 * m2, sigma);
  }

  lemma ProductsOfHalves(d: int, z1: int, t1: int, z2: int, t2: int)
    ensures var u, v := z1 * z2, d * (t1 * t2);
            u * v == d * ((z1 * t1) * (z2 * t2)) && u * u == (z1 * z1) * (z2 * z2) &&
            v * v == (d * (t1 * t1)) * (d * (t2 * t2))
  {
    Rearrange(z1, t1, z2, t2);
    Associate(z1 * z2, d, t1 * t2);
    Associate(d, z1 * z2, t1 * t2);
    Rearrange(z1, z2, z1, z2);
    Rearrange(d, t1 * t2, d, t1 * t2);
    Rearrange(t1, t2, t1, t2);
    Rearrange(d, t1 * t1, d, t2 * t2);
  }

  /** q1 q2 (u^2 + v^2) exceeds (u^2 - v^2)^2 by exactly the two cross terms. */
  lemma ProductOfNorms(a1: int, a2: int, b1: int, b2: int, u: int, v: int)
    requires u * u == a1 * a2 && v * v == b1 * b2
    ensures var gf := (u + v) * (u - v);
            (a1 + b1) * (a2 + b2) * (u * u + v * v) ==
            gf * gf + (a1 * b1) * ((a2 + b2) * (a2 + b2)) + (a2 * b2) * ((a1 + b1) * (a1 + b1))
  {
    ClosureIdentity(a1, a2, b1, b2);
    var x, y := a1 * a2, b1 * b2;
    var n := x + y;
    assert (u + v) * (u - v) == x - y by { assert (u + v) * (u - v) == u * u - v * v; }
    SquareDifference(x, y);
    assert (a1 + b1) * (a2 + b2) == n + (a1 * b2 + b1 * a2);
    Distribute(n, n, a1 * b2 + b1 * a2);
  }

  lemma SquareDifference(a: int, b: int)
    ensures (a - b) * (a - b) == (a + b) * (a + b) - 4 * (a * b)
  {
  }

  lemma ScaledSquare(curve: Curve, z: int, t: int, q: int)
    ensures curve.d * ((z * t * q) * (z * t * q)) == ((z * z) * (curve.d * (t * t))) * (q * q)
  {
    Rearrange(z * t, q, z * t, q);
    Rearrange(z, t, z, t);
    Associate(curve.d, (z * z) * (t * t), q * q);
    Associate(curve.d, z * z, t * t);
    Associate(z * z, curve.d, t * t);
  }

  lemma Combine(curve: Curve, product: int, square: int, a: int, b: int, rho: int, sigma: int)
    requires product == square + curve.d * a + curve.d * b
    ensures product + 2 * (curve.d * rho) * (sigma + 4 * rho) ==
            square + curve.d * (a + b + 8 * (rho * rho) + 2 * rho * sigma)
  {
    Distribute(curve.d, a + b, 8 * (rho * rho) + 2 * rho * sigma);
    Distribute(curve.d, a, b);
    Distribute(2 * (curve.d * rho), sigma, 4 * rho);
    Distribute(curve.d, 8 * (rho * rho), 2 * rho * sigma);
    Associate(curve.d, rho, sigma);
    Associate(curve.d, rho, rho);
  }

  lemma SidesAreCongruent(curve: Curve, c: int, q: int, n: int, w: int, m: int, a: int, a': int, b: int, b': int,
                          sigma: int, rho: int, rho': int)
    requires Congruent(c, q, curve.p) && Congruent(rho, rho', curve.p) && Congruent(a, a', curve.p) &&
             Congruent(b, b', curve.p)
    ensures Congruent(Left(c, n, w, sigma, rho), Left(q, n, w, sigma, rho'), curve.p)
    ensures Congruent(Right(curve, m, a, b, sigma, rho), Right(curve, m, a', b', sigma, rho'), curve.p)
  {
    CongruentMul(c, q, n, n, curve.p);
    CongruentMul(4, 4, rho, rho', curve.p);
    CongruentAdd(sigma, sigma, 4 * rho, 4 * rho', curve.p);
    CongruentMul(2 * w, 2 * w, sigma + 4 * rho, sigma + 4 * rho', curve.p);
    CongruentAdd(c * n, q * n, 2 * w * (sigma + 4 * rho), 2 * w * (sigma + 4 * rho'), curve.p);
    CongruentMul(rho, rho', rho, rho', curve.p);
    CongruentMul(8, 8, rho * rho, rho' * rho', curve.p);
    CongruentMul(2, 2, rho, rho', curve.p);
    CongruentMul(2 * rho, 2 * rho', sigma, sigma, curve.p);
    CongruentAdd(a, a', b, b', curve.p);
    CongruentAdd(a + b, a' + b', 8 * (rho * rho), 8 * (rho' * rho'), curve.p);
    CongruentAdd(a + b + 8 * (rho * rho), a' + b' + 8 * (rho' * rho'), 2 * rho * sigma, 2 * rho' * sigma, curve.p);
    var x, x' := a + b + 8 * (rho * rho) + 2 * rho * sigma, a' + b' + 8 * (rho' * rho') + 2 * rho' * sigma;
    CongruentMul(curve.d, curve.d, x, x', curve.p);
    CongruentAdd(m, m, curve.d * x, curve.d * x', curve.p);
  }

  lemma SquareCongruent(curve: Curve, a: int, b: int)
    requires Congruent(a, b, curve.p)
    ensures Congruent(a * a, b * b, curve.p)
  {
    CongruentMul(a, b, a, b, curve.p);
  }

  /** With both operands on the curve, so is the halved sum. */
  lemma HalvedSumOnCurve(curve: Curve, l: Quad, r: Quad)
    requires OnCurve(curve, l) && OnCurve(curve, r)
    ensures var e, h, u, v := HalfE(l, r), HalfH(l, r), HalfU(l, r), HalfV(curve, l, r);
            var f, g := u - v, u + v;
            Congruent((h * g) * (h * g) - (e * f) * (e * f), (g * f) * (g * f) + curve.d * ((e * h) * (e * h)), curve.p)
  {
    var u, v := HalfU(l, r), HalfV(curve, l, r);
    var c1, c2 := l.y * l.y - l.x * l.x, r.y * r.y - r.x * r.x;
    var q1, q2 := l.z * l.z + curve.d * (l.t * l.t), r.z * r.z + curve.d * (r.t * r.t);
    var p1, p2, m1, m2 := l.x * l.y, r.x * r.y, l.z * l.t, r.z * r.t;
    var sigma := (l.x * l.x + l.y * l.y) * (r.x * r.x + r.y * r.y);
    CongruentMul(c1, q1, c2, q2, curve.p);
    CongruentMul(p1, m1, p2, m2, curve.p);
    CongruentMul(p1, m1, c2, q2, curve.p);
    CongruentMul(p2, m2, c1, q1, curve.p);
    SquareCongruent(curve, p1 * c2, m1 * q2);
    SquareCongruent(curve, p2 * c1, m2 * q1);
    var gf := (u + v) * (u - v);
    SidesAreCongruent(curve, c1 * c2, q1 * q2, u * u + v * v, u * v, gf * gf,
      (p1 * c2) * (p1 * c2), (m1 * q2) * (m1 * q2), (p2 * c1) * (p2 * c1), (m2 * q1) * (m2 * q1),
      sigma, p1 * p2, m1 * m2);
    SidesOfTheSum(curve, l, r);
    SidesAgree(curve, l.z, l.t, r.z, r.t, sigma);
  }

  lemma ScaledEquation(curve: Curve, q: Quad, x: int, y: int, z: int, t: int)
    requires Congruent(q.x, 4 * x, curve.p) && Congruent(q.y, 4 * y, curve.p)
    requires Congruent(q.z, 4 * z, curve.p) && Congruent(q.t, 4 * t, curve.p)
    requires Congruent(y * y - x * x, z * z + curve.d * (t * t), curve.p)
    ensures Congruent(q.y * q.y - q.x * q.x, q.z * q.z + curve.d * (q.t * q.t), curve.p)
  {
    ScaledSquareCongruent(curve, q.x, x);
    ScaledSquareCongruent(curve, q.y, y);
    ScaledSquareCongruent(curve, q.z, z);
    ScaledSquareCongruent(curve, q.t, t);
    CongruentSub(q.y * q.y, 16 * (y * y), q.x * q.x, 16 * (x * x), curve.p);
    CongruentMul(curve.d, curve.d, q.t * q.t, 16 * (t * t), curve.p);
    CongruentAdd(q.z * q.z, 16 * (z * z), curve.d * (q.t * q.t), curve.d * (16 * (t * t)), curve.p);
    CongruentMul(16, 16, y * y - x * x, z * z + curve.d * (t * t), curve.p);
    SixteenTimes(curve, x * x, y * y, z * z, t * t);
  }

  lemma ScaledSquareCongruent(curve: Curve, a: int, b: int)
    requires Congruent(a, 4 * b, curve.p)
    ensures Congruent(a * a, 16 * (b * b), curve.p)
  {
    SquareCongruent(curve, a, 4 * b);
    Rearrange(4, b, 4, b);
  }

  lemma SixteenTimes(curve: Curve, x: int, y: int, z: int, t: int)
    ensures 16 * y - 16 * x == 16 * (y - x)
    ensures 16 * z + curve.d * (16 * t) == 16 * (z + curve.d * t)
  {
  }

  /** AddPoints keeps the curve: no hypothesis on p is needed. */
  lemma SumStaysOnCurve(curve: Curve, l: Quad, r: Quad)
    requires OnCurve(curve, l) && OnCurve(curve, r)
    ensures OnCurve(curve, Sum(curve, l, r))
  {
    var e, h, u, v := HalfE(l, r), HalfH(l, r), HalfU(l, r), HalfV(curve, l, r);
    SumInHalves(curve, l, r);
    HalvedSumOnCurve(curve, l, r);
    ScaledEquation(curve, Sum(curve, l, r), e * (u - v), h * (u + v), (u + v) * (u - v), e * h);
    SumIsExtended(curve, l, r);
  }

  // ---- The affine group law of section 5.1.4 of RFC 8032 ----

  datatype Affine = Affine(x: int, y: int)

  predicate AffineOnCurve(curve: Curve, a: Affine) {
    0 <= a.x < curve.p && 0 <= a.y < curve.p &&
    Congruent(a.y * a.y - a.x * a.x, 1 + curve.d * ((a.x * a.x) * (a.y * a.y)), curve.p)
  }

  const NEUTRAL: Affine := Affine(0, 1)

  function CrossTerm(curve: Curve, a: Affine, b: Affine): int {
    curve.d * ((a.x * b.x) * (a.y * b.y))
  }

  /** The complete addition law: x3 = (x1 y2 + x2 y1) / (1 + d x1 x2 y1 y2) and
      y3 = (y1 y2 + x1 x2) / (1 - d x1 x2 y1 y2). */
  ghost function AffineSum(curve: Curve, a: Affine, b: Affine): Affine {
    var k := CrossTerm(curve, a, b);
    Affine(((a.x * b.y + b.x * a.y) * Inverse(1 + k, curve.p)) % curve.p,
           ((a.y * b.y + a.x * b.x) * Inverse(1 - k, curve.p)) % curve.p)
  }

  ghost function ToAffine(curve: Curve, q: Quad): Affine {
    Affine((q.x * Inverse(q.z, curve.p)) % curve.p, (q.y * Inverse(q.z, curve.p)) % curve.p)
  }

  /** A point on the curve with an invertible Z. */
  predicate Proper(curve: Curve, q: Quad) {
    OnCurve(curve, q) && q.z % curve.p != 0
  }

  function Lift(a: Affine): Quad {
    Quad(a.x, a.y, 1, a.x * a.y)
  }

  /** d has no square root modulo p (the requirement on d in section 5.1 of RFC 8032). */
  ghost predicate NonSquare(curve: Curve) {
    forall s: int, w: int :: Congruent(s * s, curve.d * (w * w), curve.p) ==> w % curve.p == 0
  }

  /** What the completeness of the law rests on. */
  ghost predicate CurveHypotheses(curve: Curve) {
    PrimeModulus(curve.p) && NonSquare(curve) && Congruent(curve.i * curve.i, -1, curve.p)
  }

  // ---- Completeness: the denominators never vanish ----

  lemma SquareOfBinomial(i: int, x: int, c: int, y: int)
    ensures (i * x + c * y) * (i * x + c * y) == (i * i) * (x * x) + 2 * (i * c * (x * y)) + (c * c) * (y * y)
  {
    var a, b := i * x, c * y;
    assert (a + b) * (a + b) == a * a + 2 * (a * b) + b * b;
    Rearrange(i, x, i, x);
    Rearrange(i, x, c, y);
    Rearrange(c, y, c, y);
  }

  /** If d x1 x2 y1 y2 were +1 or -1, then d w^2 would be a square for this w. */
  lemma VanishingDenominatorGivesSquare(curve: Curve, x1: int, y1: int, x2: int, y2: int, i: int, eps: int)
    requires Congruent(y1 * y1 - x1 * x1, 1 + curve.d * ((x1 * x1) * (y1 * y1)), curve.p)
    requires Congruent(y2 * y2 - x2 * x2, 1 + curve.d * ((x2 * x2) * (y2 * y2)), curve.p)
    requires Congruent(i * i, -1, curve.p) && eps * eps == 1
    requires Congruent(curve.d * ((x1 * x2) * (y1 * y2)), eps, curve.p)
    ensures Congruent((i * x1 + eps * y1) * (i * x1 + eps * y1),
                      curve.d * ((x1 * y1 * (i * x2 + y2)) * (x1 * y1 * (i * x2 + y2))), curve.p)
  {
    LeftOfSquare(curve, x1, y1, i, eps);
    RightOfSquare(curve, x1, y1, x2, y2, i, eps);
  }

  /** s^2 = i^2 x1^2 + 2 i eps x1 y1 + y1^2. */
  lemma LeftOfSquare(curve: Curve, x1: int, y1: int, i: int, eps: int)
    requires Congruent(y1 * y1 - x1 * x1, 1 + curve.d * ((x1 * x1) * (y1 * y1)), curve.p)
    requires Congruent(i * i, -1, curve.p) && eps * eps == 1
    ensures var p1 := x1 * y1;
            Congruent((i * x1 + eps * y1) * (i * x1 + eps * y1), 1 + curve.d * (p1 * p1) + 2 * (i * eps * p1), curve.p)
  {
    var p1 := x1 * y1;
    SquareOfBinomial(i, x1, eps, y1);
    Rearrange(x1, y1, x1, y1);
    NormPlusMiddle(curve, i * i, x1 * x1, y1 * y1, 1 + curve.d * (p1 * p1), 2 * (i * eps * p1));
  }

  lemma NormPlusMiddle(curve: Curve, ii: int, xx: int, yy: int, q: int, middle: int)
    requires Congruent(ii, -1, curve.p) && Congruent(yy - xx, q, curve.p)
    ensures Congruent(ii * xx + middle + yy, q + middle, curve.p)
  {
    CongruentMul(ii, -1, xx, xx, curve.p);
    CongruentAdd(ii * xx, -xx, yy, yy, curve.p);
    CongruentAdd(ii * xx + yy, q, middle, middle, curve.p);
  }

  /** d w^2 = d p1^2 (i^2 x2^2 + y2^2) + 2 i p1 k. */
  lemma RightOfSquare(curve: Curve, x1: int, y1: int, x2: int, y2: int, i: int, eps: int)
    requires Congruent(y2 * y2 - x2 * x2, 1 + curve.d * ((x2 * x2) * (y2 * y2)), curve.p)
    requires Congruent(i * i, -1, curve.p) && eps * eps == 1
    requires Congruent(curve.d * ((x1 * x2) * (y1 * y2)), eps, curve.p)
    ensures var p1 := x1 * y1;
            Congruent(curve.d * ((p1 * (i * x2 + y2)) * (p1 * (i * x2 + y2))),
                      1 + curve.d * (p1 * p1) + 2 * (i * eps * p1), curve.p)
  {
    var p1, p2, k, w := x1 * y1, x2 * y2, curve.d * ((x1 * x2) * (y1 * y2)), i * x2 + y2;
    SquareOfBinomial(i, x2, 1, y2);
    CongruentMul(i * i, -1, x2 * x2, x2 * x2, curve.p);
    CongruentAdd((i * i) * (x2 * x2), -(x2 * x2), y2 * y2, y2 * y2, curve.p);
    Rearrange(x2, y2, x2, y2);
    Rearrange(x1, x2, y1, y2);
    var norm := (i * i) * (x2 * x2) + y2 * y2;
    assert Congruent(norm, 1 + curve.d * (p2 * p2), curve.p);
    RightInNorms(curve, p1, p2, k, i, w, norm, eps);
  }

  lemma RightInNorms(curve: Curve, p1: int, p2: int, k: int, i: int, w: int, norm: int, eps: int)
    requires k == curve.d * (p1 * p2) && w * w == norm + 2 * (i * 1 * p2) && eps * eps == 1
    requires Congruent(norm, 1 + curve.d * (p2 * p2), curve.p) && Congruent(k, eps, curve.p)
    ensures Congruent(curve.d * ((p1 * w) * (p1 * w)), 1 + curve.d * (p1 * p1) + 2 * (i * eps * p1), curve.p)
  {
    var q := curve.d * (p1 * p1);
    CongruentMul(q, q, norm, 1 + curve.d * (p2 * p2), curve.p);
    ExpandRight(curve, p1, p2, k, i, w, norm);
    CongruentMul(k, eps, k, eps, curve.p);
    CongruentMul(2 * (i * p1), 2 * (i * p1), k, eps, curve.p);
    CongruentAdd(q * norm, q * (1 + curve.d * (p2 * p2)), 2 * (i * p1) * k, 2 * (i * p1) * eps, curve.p);
    CongruentAdd(q, q, k * k, 1, curve.p);
    CongruentAdd(q + k * k, q + 1, 2 * (i * p1) * eps, 2 * (i * p1) * eps, curve.p);
    Swap3(i, p1, eps);
  }

  lemma Swap3(a: int, b: int, c: int)
    ensures 2 * (a * b) * c == 2 * (a * c * b)
  {
    Associate(2, a * b, c);
    Associate(a, b, c);
    Associate(a, c, b);
    assert b * c == c * b;
  }

  lemma ExpandRight(curve: Curve, p1: int, p2: int, k: int, i: int, w: int, norm: int)
    requires k == curve.d * (p1 * p2) && w * w == norm + 2 * (i * 1 * p2)
    ensures curve.d * ((p1 * w) * (p1 * w)) == curve.d * (p1 * p1) * norm + 2 * (i * p1) * k
    ensures curve.d * (p1 * p1) * (1 + curve.d * (p2 * p2)) == curve.d * (p1 * p1) + k * k
  {
    Rearrange(p1, w, p1, w);
    Associate(curve.d, p1 * p1, w * w);
    Distribute(curve.d * (p1 * p1), norm, 2 * (i * p2));
    CrossPart(curve, p1, p2, i);
    Distribute(curve.d * (p1 * p1), 1, curve.d * (p2 * p2));
    Rearrange(curve.d, p1 * p1, curve.d, p2 * p2);
    Rearrange(p1, p1, p2, p2);
    Rearrange(curve.d, p1 * p2, curve.d, p1 * p2);
  }

  lemma CrossPart(curve: Curve, p1: int, p2: int, i: int)
    ensures curve.d * (p1 * p1) * (2 * (i * p2)) == 2 * (i * p1) * (curve.d * (p1 * p2))
  {
    Rearrange(curve.d, p1 * p1, 2, i * p2);
    Rearrange(p1, p1, i, p2);
    Rearrange(2, i * p1, curve.d, p1 * p2);
    assert curve.d * 2 == 2 * curve.d && p1 * i == i * p1;
  }

  lemma FactorVanishes(curve: Curve, x1: int, y1: int, x2: int, y2: int, i: int, eps: int)
    requires NonSquare(curve) && (eps == 1 || eps == -1) && Congruent(i * i, -1, curve.p)
    requires Congruent(y1 * y1 - x1 * x1, 1 + curve.d * ((x1 * x1) * (y1 * y1)), curve.p)
    requires Congruent(y2 * y2 - x2 * x2, 1 + curve.d * ((x2 * x2) * (y2 * y2)), curve.p)
    requires Congruent(curve.d * ((x1 * x2) * (y1 * y2)), eps, curve.p)
    ensures (x1 * y1 * (i * x2 + y2)) % curve.p == 0
  {
    VanishingDenominatorGivesSquare(curve, x1, y1, x2, y2, i, eps);
  }

  lemma BothFactorsVanish(curve: Curve, a: Affine, b: Affine, i: int, eps: int)
    requires NonSquare(curve) && AffineOnCurve(curve, a) && AffineOnCurve(curve, b) && (eps == 1 || eps == -1)
    requires Congruent(i * i, -1, curve.p) && Congruent(CrossTerm(curve, a, b), eps, curve.p)
    ensures (a.x * a.y * (i * b.x + b.y)) % curve.p == 0
    ensures (a.x * -a.y * (i * b.x + -b.y)) % curve.p == 0
  {
    NegatedProducts(a.y, b.y);
    FactorVanishes(curve, a.x, a.y, b.x, b.y, i, eps);
    FactorVanishes(curve, a.x, -a.y, b.x, -b.y, i, eps);
  }

  lemma NegatedProducts(y: int, z: int)
    ensures (-y) * (-y) == y * y && (-z) * (-z) == z * z && (-y) * (-z) == y * z
  {
  }

  lemma UnitIsNotHalfZero(curve: Curve, k: int, eps: int)
    requires Congruent(k, eps, curve.p) && (eps == 1 || eps == -1)
    ensures (2 * k) % curve.p != 0
  {
    CongruentMul(2, 2, k, eps, curve.p);
    RemainderIsUnique(2, 0, 2, curve.p);
    RemainderIsUnique(-2, -1, curve.p - 2, curve.p);
  }

  lemma CrossTermIsNotUnit(curve: Curve, a: Affine, b: Affine, eps: int)
    requires CurveHypotheses(curve) && AffineOnCurve(curve, a) && AffineOnCurve(curve, b) && (eps == 1 || eps == -1)
    ensures !Congruent(CrossTerm(curve, a, b), eps, curve.p)
  {
    if Congruent(CrossTerm(curve, a, b), eps, curve.p) {
      BothFactorsVanish(curve, a, b, curve.i, eps);
      UnitIsNotHalfZero(curve, CrossTerm(curve, a, b), eps);
      TwiceCrossVanishes(curve, a, b, curve.i * b.x);
      assert false;
    }
  }

  lemma TwiceCrossVanishes(curve: Curve, a: Affine, b: Affine, u: int)
    requires (a.x * a.y * (u + b.y)) % curve.p == 0 && (a.x * -a.y * (u + -b.y)) % curve.p == 0
    ensures (2 * CrossTerm(curve, a, b)) % curve.p == 0
  {
    TwiceProduct(a.x, a.y, u, b.y);
    SumOfZeros(a.x * a.y * (u + b.y), a.x * -a.y * (u + -b.y), curve.p);
    ZeroTimes(2 * (a.x * a.y * b.y), curve.d * b.x, curve.p);
    TwiceCross(curve, a, b);
  }

  lemma SumOfZeros(a: int, b: int, m: int)
    requires m > 0 && a % m == 0 && b % m == 0
    ensures (a + b) % m == 0
  {
    RemainderIsUnique(0, 0, 0, m);
    CongruentAdd(a, 0, b, 0, m);
  }

  lemma TwiceProduct(x: int, y: int, u: int, v: int)
    ensures x * y * (u + v) + x * -y * (u + -v) == 2 * (x * y * v)
  {
    var p := x * y;
    assert x * -y == -p;
    Distribute(p, u, v);
    Distribute(-p, u, -v);
    assert -p * -v == p * v && -p * u == -(p * u);
  }

  lemma TwiceCross(curve: Curve, a: Affine, b: Affine)
    ensures 2 * (a.x * a.y * b.y) * (curve.d * b.x) == 2 * CrossTerm(curve, a, b)
  {
    var p := a.x * a.y * b.y;
    assert p * (curve.d * b.x) == curve.d * (p * b.x) by {
      Associate(p, curve.d, b.x);
      Associate(curve.d, p, b.x);
    }
    assert p * b.x == (a.x * b.x) * (a.y * b.y) by {
      Associate(a.x, a.y, b.y);
      Associate(a.x, a.y * b.y, b.x);
      Associate(a.x, b.x, a.y * b.y);
      assert (a.y * b.y) * b.x == b.x * (a.y * b.y);
    }
    Associate(2, p, curve.d * b.x);
  }

  lemma DenominatorsAreInvertible(curve: Curve, a: Affine, b: Affine)
    requires CurveHypotheses(curve) && AffineOnCurve(curve, a) && AffineOnCurve(curve, b)
    ensures (1 + CrossTerm(curve, a, b)) % curve.p != 0 && (1 - CrossTerm(curve, a, b)) % curve.p != 0
  {
    var k := CrossTerm(curve, a, b);
    CrossTermIsNotUnit(curve, a, b, 1);
    CrossTermIsNotUnit(curve, a, b, -1);
    DifferenceIsZero(1, k, curve.p);
    DifferenceIsZero(k, -1, curve.p);
  }

  // ---- Sum refines the affine law ----

  /** q is the extended form of the affine point a. */
  predicate Represents(curve: Curve, q: Quad, a: Affine) {
    Congruent(q.x, a.x * q.z, curve.p) && Congruent(q.y, a.y * q.z, curve.p) && Congruent(q.t, a.x * a.y * q.z, curve.p)
  }

  lemma Reduced(curve: Curve, a: int)
    ensures 0 <= a % curve.p < curve.p && Congruent(a % curve.p, a, curve.p)
  {
    RemainderIsCongruent(a, curve.p);
  }

  lemma ToAffineRepresents(curve: Curve, q: Quad)
    requires PrimeModulus(curve.p) && Proper(curve, q)
    ensures Represents(curve, q, ToAffine(curve, q)) && AffineOnCurve(curve, ToAffine(curve, q))
  {
    InverseCancels(q.z, curve.p);
    Reduced(curve, q.x * Inverse(q.z, curve.p));
    Reduced(curve, q.y * Inverse(q.z, curve.p));
    DividedRepresents(curve, q, Inverse(q.z, curve.p), ToAffine(curve, q));
  }

  lemma DividedRepresents(curve: Curve, q: Quad, i: int, a: Affine)
    requires OnCurve(curve, q) && Congruent(q.z * i, 1, curve.p)
    requires Congruent(q.x * i, a.x, curve.p) && Congruent(q.y * i, a.y, curve.p)
    ensures Represents(curve, q, a)
    ensures Congruent(a.y * a.y - a.x * a.x, 1 + curve.d * ((a.x * a.x) * (a.y * a.y)), curve.p)
  {
    Restore(curve, q.x, i, q.z, a.x);
    Restore(curve, q.y, i, q.z, a.y);
    // T i = x y: multiply X Y = Z T by i^2
    CongruentMul(q.x * i, a.x, q.y * i, a.y, curve.p);
    CongruentMul(q.x * q.y, q.z * q.t, i * i, i * i, curve.p);
    Rearrange(q.x, i, q.y, i);
    assert (q.z * q.t) * (i * i) == (q.z * i) * (q.t * i) by { Rearrange(q.z, q.t, i, i); }
    CongruentMul(q.z * i, 1, q.t * i, q.t * i, curve.p);
    assert Congruent(q.t * i, a.x * a.y, curve.p);
    Restore(curve, q.t, i, q.z, a.x * a.y);
    AffineEquation(curve, q, i, a);
  }

  lemma Restore(curve: Curve, x: int, i: int, z: int, a: int)
    requires Congruent(z * i, 1, curve.p) && Congruent(x * i, a, curve.p)
    ensures Congruent(x, a * z, curve.p)
  {
    CongruentMul(x * i, a, z, z, curve.p);
    CongruentMul(x, x, z * i, 1, curve.p);
    assert (x * i) * z == x * (z * i) by {
      Associate(x, i, z);
      assert i * z == z * i;
    }
  }

  lemma AffineEquation(curve: Curve, q: Quad, i: int, a: Affine)
    requires Congruent(q.z * i, 1, curve.p) && Congruent(q.t * i, a.x * a.y, curve.p)
    requires Congruent(q.x * i, a.x, curve.p) && Congruent(q.y * i, a.y, curve.p)
    requires Congruent(q.y * q.y - q.x * q.x, q.z * q.z + curve.d * (q.t * q.t), curve.p)
    ensures Congruent(a.y * a.y - a.x * a.x, 1 + curve.d * ((a.x * a.x) * (a.y * a.y)), curve.p)
  {
    CongruentMul(q.y * q.y - q.x * q.x, q.z * q.z + curve.d * (q.t * q.t), i * i, i * i, curve.p);
    SquareCongruent(curve, q.x * i, a.x);
    SquareCongruent(curve, q.y * i, a.y);
    SquareCongruent(curve, q.z * i, 1);
    SquareCongruent(curve, q.t * i, a.x * a.y);
    CongruentSub((q.y * i) * (q.y * i), a.y * a.y, (q.x * i) * (q.x * i), a.x * a.x, curve.p);
    CongruentMul(curve.d, curve.d, (q.t * i) * (q.t * i), (a.x * a.y) * (a.x * a.y), curve.p);
    CongruentAdd((q.z * i) * (q.z * i), 1, curve.d * ((q.t * i) * (q.t * i)), curve.d * ((a.x * a.y) * (a.x * a.y)),
                 curve.p);
    Rearrange(a.x, a.y, a.x, a.y);
    Rearrange(q.x, i, q.x, i);
    Rearrange(q.y, i, q.y, i);
    Rearrange(q.z, i, q.z, i);
    Rearrange(q.t, i, q.t, i);
    ScaleBoth(curve, q.x * q.x, q.y * q.y, q.z * q.z, q.t * q.t, i * i);
  }

  lemma ScaleBoth(curve: Curve, x: int, y: int, z: int, t: int, w: int)
    ensures (y - x) * w == y * w - x * w
    ensures (z + curve.d * t) * w == z * w + curve.d * (t * w)
  {
  }

  lemma HalvesInAffineTerms(curve: Curve, l: Quad, r: Quad, a: Affine, b: Affine)
    requires Represents(curve, l, a) && Represents(curve, r, b)
    ensures var w, k := l.z * r.z, CrossTerm(curve, a, b);
            Congruent(HalfE(l, r), (a.x * b.y + b.x * a.y) * w, curve.p) &&
            Congruent(HalfH(l, r), (a.y * b.y + a.x * b.x) * w, curve.p) &&
            Congruent(HalfU(l, r) - HalfV(curve, l, r), (1 - k) * w, curve.p) &&
            Congruent(HalfU(l, r) + HalfV(curve, l, r), (1 + k) * w, curve.p)
  {
    var w, k := l.z * r.z, CrossTerm(curve, a, b);
    Pairwise(curve, l.x, a.x, l.z, r.y, b.y, r.z);
    Pairwise(curve, l.y, a.y, l.z, r.x, b.x, r.z);
    Pairwise(curve, l.y, a.y, l.z, r.y, b.y, r.z);
    Pairwise(curve, l.x, a.x, l.z, r.x, b.x, r.z);
    Pairwise(curve, l.t, a.x * a.y, l.z, r.t, b.x * b.y, r.z);
    CongruentAdd(l.x * r.y, a.x * b.y * w, l.y * r.x, a.y * b.x * w, curve.p);
    CongruentAdd(l.y * r.y, a.y * b.y * w, l.x * r.x, a.x * b.x * w, curve.p);
    assert (a.x * b.y + b.x * a.y) * w == a.x * b.y * w + a.y * b.x * w;
    assert (a.y * b.y + a.x * b.x) * w == a.y * b.y * w + a.x * b.x * w;
    CongruentMul(curve.d, curve.d, l.t * r.t, a.x * a.y * (b.x * b.y) * w, curve.p);
    Rearrange(a.x, a.y, b.x, b.y);
    Associate(curve.d, (a.x * b.x) * (a.y * b.y), w);
    CongruentSub(w, w, HalfV(curve, l, r), k * w, curve.p);
    CongruentAdd(w, w, HalfV(curve, l, r), k * w, curve.p);
    assert (1 - k) * w == w - k * w && (1 + k) * w == w + k * w;
  }

  lemma Pairwise(curve: Curve, x: int, a: int, z: int, x': int, a': int, z': int)
    requires Congruent(x, a * z, curve.p) && Congruent(x', a' * z', curve.p)
    ensures Congruent(x * x', a * a' * (z * z'), curve.p)
  {
    CongruentMul(x, a * z, x', a' * z', curve.p);
    Rearrange(a, z, a', z');
  }

  /** X and Z of a sum share a nonzero factor m, and without it they are the affine fraction for x. */
  lemma SumXAndZ(curve: Curve, l: Quad, r: Quad, a: Affine, b: Affine) returns (m: int)
    requires CurveHypotheses(curve) && Represents(curve, l, a) && Represents(curve, r, b)
    requires AffineOnCurve(curve, a) && AffineOnCurve(curve, b) && l.z % curve.p != 0 && r.z % curve.p != 0
    ensures m % curve.p != 0
    ensures Congruent(Sum(curve, l, r).x, (a.x * b.y + b.x * a.y) * m, curve.p)
    ensures Congruent(Sum(curve, l, r).z, (1 + CrossTerm(curve, a, b)) * m, curve.p)
  {
    var w, plus, minus := l.z * r.z, 1 + CrossTerm(curve, a, b), 1 - CrossTerm(curve, a, b);
    var e, f, g := HalfE(l, r), HalfU(l, r) - HalfV(curve, l, r), HalfU(l, r) + HalfV(curve, l, r);
    HalvesInAffineTerms(curve, l, r, a, b);
    FourTimes(curve, e, a.x * b.y + b.x * a.y, w, f, minus);
    FourTimes(curve, g, plus, w, f, minus);
    SumInHalves(curve, l, r);
    DenominatorsAreInvertible(curve, a, b);
    CommonFactorIsNonzero(curve, l.z, r.z);
    m := minus * (4 * (w * w));
    ProductIsNonzero(minus, 4 * (w * w), curve.p);
  }

  lemma SumYAndZ(curve: Curve, l: Quad, r: Quad, a: Affine, b: Affine) returns (m: int)
    requires CurveHypotheses(curve) && Represents(curve, l, a) && Represents(curve, r, b)
    requires AffineOnCurve(curve, a) && AffineOnCurve(curve, b) && l.z % curve.p != 0 && r.z % curve.p != 0
    ensures m % curve.p != 0
    ensures Congruent(Sum(curve, l, r).y, (a.y * b.y + a.x * b.x) * m, curve.p)
    ensures Congruent(Sum(curve, l, r).z, (1 - CrossTerm(curve, a, b)) * m, curve.p)
  {
    var w, plus, minus := l.z * r.z, 1 + CrossTerm(curve, a, b), 1 - CrossTerm(curve, a, b);
    var h, f, g := HalfH(l, r), HalfU(l, r) - HalfV(curve, l, r), HalfU(l, r) + HalfV(curve, l, r);
    HalvesInAffineTerms(curve, l, r, a, b);
    FourTimes(curve, h, a.y * b.y + a.x * b.x, w, g, plus);
    FourTimes(curve, g, plus, w, f, minus);
    SwapFactors(plus, minus, 4 * (w * w));
    SumInHalves(curve, l, r);
    DenominatorsAreInvertible(curve, a, b);
    CommonFactorIsNonzero(curve, l.z, r.z);
    m := plus * (4 * (w * w));
    ProductIsNonzero(plus, 4 * (w * w), curve.p);
  }

  lemma SwapFactors(a: int, b: int, c: int)
    ensures a * (b * c) == b * (a * c)
  {
    Associate(a, b, c);
    Associate(b, a, c);
    assert a * b == b * a;
  }

  lemma FourTimes(curve: Curve, x: int, a: int, w: int, y: int, b: int)
    requires Congruent(x, a * w, curve.p) && Congruent(y, b * w, curve.p)
    ensures Congruent(4 * (x * y), a * (b * (4 * (w * w))), curve.p)
  {
    Pairwise(curve, x, a, w, y, b, w);
    CongruentMul(4, 4, x * y, a * b * (w * w), curve.p);
    Associate(a, b, 4 * (w * w));
    SwapFactors(a * b, 4, w * w);
  }

  /** AddPoints is a homomorphism onto the affine law, and its result always has an invertible Z. */
  lemma SumIsAffineSum(curve: Curve, l: Quad, r: Quad)
    requires CurveHypotheses(curve) && Proper(curve, l) && Proper(curve, r)
    ensures Proper(curve, Sum(curve, l, r))
    ensures ToAffine(curve, Sum(curve, l, r)) == AffineSum(curve, ToAffine(curve, l), ToAffine(curve, r))
  {
    SumStaysOnCurve(curve, l, r);
    assert Sum(curve, l, r).z % curve.p != 0 &&
           ToAffine(curve, Sum(curve, l, r)) == AffineSum(curve, ToAffine(curve, l), ToAffine(curve, r)) by {
      ToAffineRepresents(curve, l);
      ToAffineRepresents(curve, r);
      SumOfRepresented(curve, l, r, ToAffine(curve, l), ToAffine(curve, r), Sum(curve, l, r));
    }
  }

  lemma SumOfRepresented(curve: Curve, l: Quad, r: Quad, a: Affine, b: Affine, s: Quad)
    requires CurveHypotheses(curve) && Represents(curve, l, a) && Represents(curve, r, b)
    requires AffineOnCurve(curve, a) && AffineOnCurve(curve, b) && l.z % curve.p != 0 && r.z % curve.p != 0
    requires s == Sum(curve, l, r)
    ensures s.z % curve.p != 0 && ToAffine(curve, s) == AffineSum(curve, a, b)
  {
    SumX(curve, l, r, a, b, s);
    SumY(curve, l, r, a, b, s);
  }

  lemma SumX(curve: Curve, l: Quad, r: Quad, a: Affine, b: Affine, s: Quad)
    requires CurveHypotheses(curve) && Represents(curve, l, a) && Represents(curve, r, b)
    requires AffineOnCurve(curve, a) && AffineOnCurve(curve, b) && l.z % curve.p != 0 && r.z % curve.p != 0
    requires s == Sum(curve, l, r)
    ensures s.z % curve.p != 0 && ToAffine(curve, s).x == AffineSum(curve, a, b).x
  {
    var m := SumXAndZ(curve, l, r, a, b);
    DenominatorsAreInvertible(curve, a, b);
    QuotientX(curve, s, a, b, m);
  }

  lemma SumY(curve: Curve, l: Quad, r: Quad, a: Affine, b: Affine, s: Quad)
    requires CurveHypotheses(curve) && Represents(curve, l, a) && Represents(curve, r, b)
    requires AffineOnCurve(curve, a) && AffineOnCurve(curve, b) && l.z % curve.p != 0 && r.z % curve.p != 0
    requires s == Sum(curve, l, r)
    ensures ToAffine(curve, s).y == AffineSum(curve, a, b).y
  {
    var m := SumYAndZ(curve, l, r, a, b);
    DenominatorsAreInvertible(curve, a, b);
    QuotientY(curve, s, a, b, m);
  }

  lemma QuotientX(curve: Curve, s: Quad, a: Affine, b: Affine, m: int)
    requires PrimeModulus(curve.p) && (1 + CrossTerm(curve, a, b)) % curve.p != 0 && m % curve.p != 0
    requires Congruent(s.x, (a.x * b.y + b.x * a.y) * m, curve.p)
    requires Congruent(s.z, (1 + CrossTerm(curve, a, b)) * m, curve.p)
    ensures s.z % curve.p != 0 && ToAffine(curve, s).x == AffineSum(curve, a, b).x
  {
    QuotientOfSum(curve, s.x, s.z, a.x * b.y + b.x * a.y, 1 + CrossTerm(curve, a, b), m);
  }

  lemma QuotientY(curve: Curve, s: Quad, a: Affine, b: Affine, m: int)
    requires PrimeModulus(curve.p) && (1 - CrossTerm(curve, a, b)) % curve.p != 0 && m % curve.p != 0
    requires Congruent(s.y, (a.y * b.y + a.x * b.x) * m, curve.p)
    requires Congruent(s.z, (1 - CrossTerm(curve, a, b)) * m, curve.p)
    ensures s.z % curve.p != 0 && ToAffine(curve, s).y == AffineSum(curve, a, b).y
  {
    QuotientOfSum(curve, s.y, s.z, a.y * b.y + a.x * b.x, 1 - CrossTerm(curve, a, b), m);
  }

  lemma QuotientOfSum(curve: Curve, x: int, z: int, n: int, d: int, m: int)
    requires PrimeModulus(curve.p) && d % curve.p != 0 && m % curve.p != 0
    requires Congruent(x, n * m, curve.p) && Congruent(z, d * m, curve.p)
    ensures z % curve.p != 0
    ensures (x * Inverse(z, curve.p)) % curve.p == (n * Inverse(d, curve.p)) % curve.p
  {
    ProductIsNonzero(d, m, curve.p);
    CongruentMul(x, n * m, d, d, curve.p);
    CongruentMul(n, n, z, d * m, curve.p);
    assert (n * m) * d == n * (d * m) by {
      Associate(n, m, d);
      assert m * d == d * m;
    }
    FractionsAgree(x, z, n, d, curve.p);
  }

  lemma CommonFactorIsNonzero(curve: Curve, z1: int, z2: int)
    requires PrimeModulus(curve.p) && z1 % curve.p != 0 && z2 % curve.p != 0
    ensures (4 * ((z1 * z2) * (z1 * z2))) % curve.p != 0
  {
    ProductIsNonzero(z1, z2, curve.p);
    ProductIsNonzero(z1 * z2, z1 * z2, curve.p);
    RemainderIsUnique(4, 0, 4, curve.p);
    ProductIsNonzero(4, (z1 * z2) * (z1 * z2), curve.p);
  }

  // ---- From lazily reduced values to coordinates ----

  function Reduce(curve: Curve, q: Quad): Quad {
    Quad(q.x % curve.p, q.y % curve.p, q.z % curve.p, q.t % curve.p)
  }

  /** The intermediate values A, B, C, D may be any representatives. */
  lemma SumFromParts(curve: Curve, l: Quad, r: Quad, a: int, b: int, c: int, d: int, s: Quad)
    requires Congruent(a, (l.y - l.x) * (r.y - r.x), curve.p) && Congruent(b, (l.x + l.y) * (r.x + r.y), curve.p)
    requires Congruent(c, l.t * r.t * (2 * curve.d), curve.p) && Congruent(d, 2 * (l.z * r.z), curve.p)
    requires Congruent(s.x, (b - a) * (d - c), curve.p) && Congruent(s.y, (b + a) * (d + c), curve.p)
    requires Congruent(s.z, (d + c) * (d - c), curve.p) && Congruent(s.t, (b - a) * (b + a), curve.p)
    ensures Reduce(curve, s) == Sum(curve, l, r)
  {
    var a', b' := (l.y - l.x) * (r.y - r.x), (l.x + l.y) * (r.x + r.y);
    var c', d' := l.t * r.t * (2 * curve.d), 2 * (l.z * r.z);
    CongruentSub(b, b', a, a', curve.p);
    CongruentAdd(b, b', a, a', curve.p);
    CongruentSub(d, d', c, c', curve.p);
    CongruentAdd(d, d', c, c', curve.p);
    CongruentMul(b - a, b' - a', d - c, d' - c', curve.p);
    CongruentMul(b + a, b' + a', d + c, d' + c', curve.p);
    CongruentMul(d + c, d' + c', d - c, d' - c', curve.p);
    CongruentMul(b - a, b' - a', b + a, b' + a', curve.p);
  }

  /** The addition depends only on the residues of its operands. */
  lemma SumOfReduced(curve: Curve, l: Quad, r: Quad)
    ensures Sum(curve, Reduce(curve, l), Reduce(curve, r)) == Sum(curve, l, r)
  {
    var l', r' := Reduce(curve, l), Reduce(curve, r);
    ReducedParts(curve, l);
    ReducedParts(curve, r);
    CongruentSub(l.y, l'.y, l.x, l'.x, curve.p);
    CongruentSub(r.y, r'.y, r.x, r'.x, curve.p);
    CongruentAdd(l.x, l'.x, l.y, l'.y, curve.p);
    CongruentAdd(r.x, r'.x, r.y, r'.y, curve.p);
    CongruentMul(l.y - l.x, l'.y - l'.x, r.y - r.x, r'.y - r'.x, curve.p);
    CongruentMul(l.x + l.y, l'.x + l'.y, r.x + r.y, r'.x + r'.y, curve.p);
    CongruentMul(l.t, l'.t, r.t, r'.t, curve.p);
    CongruentMul(l.t * r.t, l'.t * r'.t, 2 * curve.d, 2 * curve.d, curve.p);
    CongruentMul(l.z, l'.z, r.z, r'.z, curve.p);
    CongruentMul(2, 2, l.z * r.z, l'.z * r'.z, curve.p);
    SumFromSameParts(curve, l, r, l', r');
  }

  lemma ReducedParts(curve: Curve, q: Quad)
    ensures var q' := Reduce(curve, q);
            Congruent(q.x, q'.x, curve.p) && Congruent(q.y, q'.y, curve.p) &&
            Congruent(q.z, q'.z, curve.p) && Congruent(q.t, q'.t, curve.p)
  {
    RemainderIsCongruent(q.x, curve.p);
    RemainderIsCongruent(q.y, curve.p);
    RemainderIsCongruent(q.z, curve.p);
    RemainderIsCongruent(q.t, curve.p);
  }

  lemma SumFromSameParts(curve: Curve, l: Quad, r: Quad, l': Quad, r': Quad)
    requires Congruent((l.y - l.x) * (r.y - r.x), (l'.y - l'.x) * (r'.y - r'.x), curve.p)
    requires Congruent((l.x + l.y) * (r.x + r.y), (l'.x + l'.y) * (r'.x + r'.y), curve.p)
    requires Congruent(l.t * r.t * (2 * curve.d), l'.t * r'.t * (2 * curve.d), curve.p)
    requires Congruent(2 * (l.z * r.z), 2 * (l'.z * r'.z), curve.p)
    ensures Sum(curve, l', r') == Sum(curve, l, r)
  {
    var a, b := (l.y - l.x) * (r.y - r.x), (l.x + l.y) * (r.x + r.y);
    var c, d := l.t * r.t * (2 * curve.d), 2 * (l.z * r.z);
    var s := Quad((b - a) * (d - c), (b + a) * (d + c), (d + c) * (d - c), (b - a) * (b + a));
    SumFromParts(curve, l, r, a, b, c, d, s);
    SumFromParts(curve, l', r', a, b, c, d, s);
  }
}
