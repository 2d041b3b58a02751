/** Congruence arithmetic and integer powers. Every lemma takes the modulus as a parameter. */
module Modular {
  function Pow(base: int, exponent: nat): (power: int)
    ensures base > 0 ==> power > 0
  {
    if exponent == 0 then 1 else base * Pow(base, exponent - 1)
  }

  lemma ScaleInequality(a: int, b: int, factor: int)
    requires a <= b && factor >= 0
    ensures factor * a <= factor * b
  {
    assert factor * (b - a) >= 0;
  }

  lemma Rearrange(a: int, b: int, c: int, d: int)
    ensures (a * b) * (c * d) == (a * c) * (b * d)
  {
    Associate(a, b, c * d);
    Associate(b, c, d);
    Associate(c, b, d);
    Associate(a, c, b * d);
    assert b * c == c * b;
    assert b * (c * d) == c * (b * d);
  }

  lemma Associate(a: int, b: int, c: int)
    ensures (a * b) * c == a * (b * c)
  {
  }

  lemma Distribute(a: int, b: int, c: int)
    ensures a * (b + c) == a * b + a * c
  {
  }

  lemma SquareOfNegation(x: int)
    ensures (-x) * (-x) == x * x
  {
  }

  /** The remainder is the only representative in [0, m). */
  lemma RemainderIsUnique(a: int, q: int, r: int, m: int)
    requires 0 <= r < m && a == q * m + r
    ensures a % m == r && a / m == q
  {
    var q', r' := a / m, a % m;
    assert a == q' * m + r';
    assert (q - q') * m == r' - r;
    assert q == q' by {
      if q - q' >= 1 {
        ScaleInequality(1, q - q', m);
        assert false;
      }
      if q - q' <= -1 {
        ScaleInequality(q - q', -1, m);
        assert false;
      }
    }
  }

  lemma AddMultiple(a: int, k: int, m: int)
    requires m > 0
    ensures (a + k * m) % m == a % m
  {
    var q := a / m;
    assert a + k * m == (q + k) * m + a % m by {
      assert (q + k) * m == q * m + k * m;
    }
    RemainderIsUnique(a + k * m, q + k, a % m, m);
  }

  predicate Congruent(a: int, b: int, m: int)
    requires m > 0
  {
    a % m == b % m
  }

  lemma CongruentFromDifference(a: int, b: int, k: int, m: int)
    requires m > 0 && a - b == k * m
    ensures Congruent(a, b, m)
  {
    AddMultiple(b, k, m);
  }

  lemma DifferenceFromCongruent(a: int, b: int, m: int) returns (k: int)
    requires m > 0 && Congruent(a, b, m)
    ensures a == b + k * m
  {
    k := a / m - b / m;
    assert k * m == (a / m) * m - (b / m) * m;
  }

  lemma CongruentAdd(a: int, a': int, b: int, b': int, m: int)
    requires m > 0 && Congruent(a, a', m) && Congruent(b, b', m)
    ensures Congruent(a + b, a' + b', m)
  {
    var k := DifferenceFromCongruent(a, a', m);
    var l := DifferenceFromCongruent(b, b', m);
    assert (k + l) * m == k * m + l * m;
    CongruentFromDifference(a + b, a' + b', k + l, m);
  }

  lemma CongruentSub(a: int, a': int, b: int, b': int, m: int)
    requires m > 0 && Congruent(a, a', m) && Congruent(b, b', m)
    ensures Congruent(a - b, a' - b', m)
  {
    var k := DifferenceFromCongruent(a, a', m);
    var l := DifferenceFromCongruent(b, b', m);
    assert (k - l) * m == k * m - l * m;
    CongruentFromDifference(a - b, a' - b', k - l, m);
  }

  lemma ProductShift(a: int, k: int, b: int, m: int)
    ensures (a + k * m) * b == a * b + (k * b) * m
  {
    Distribute(b, a, k * m);
    Associate(k, m, b);
    Associate(k, b, m);
    assert m * b == b * m;
  }

  lemma CongruentMul(a: int, a': int, b: int, b': int, m: int)
    requires m > 0 && Congruent(a, a', m) && Congruent(b, b', m)
    ensures Congruent(a * b, a' * b', m)
  {
    var k := DifferenceFromCongruent(a, a', m);
    var l := DifferenceFromCongruent(b, b', m);
    // One factor at a time.
    assert (a' + k * m) * b == a' * b + (k * b) * m by { ProductShift(a', k, b, m); }
    assert (b' + l * m) * a' == b' * a' + (l * a') * m by { ProductShift(b', l, a', m); }
    assert a * b == a' * b + (k * b) * m;
    assert a' * b == b * a' == a' * b' + (l * a') * m;
    TwoShifts(a * b, a' * b, a' * b', k * b, l * a', m);
  }

  lemma TwoShifts(x: int, y: int, z: int, i: int, j: int, m: int)
    requires m > 0 && x == y + i * m && y == z + j * m
    ensures Congruent(x, z, m)
  {
    AddMultiple(y, i, m);
    AddMultiple(z, j, m);
  }

  lemma RemainderIsCongruent(a: int, m: int)
    requires m > 0
    ensures Congruent(a % m, a, m)
  {
    RemainderIsUnique(a % m, 0, a % m, m);
  }

  lemma {:induction false} PowAdds(base: int, i: nat, j: nat)
    ensures Pow(base, i + j) == Pow(base, i) * Pow(base, j)
  {
    if i > 0 {
      PowAdds(base, i - 1, j);
      Associate(base, Pow(base, i - 1), Pow(base, j));
    }
  }

  lemma {:induction false} PowMultiplies(base: int, i: nat, j: nat)
    ensures i * j >= 0
    ensures Pow(Pow(base, i), j) == Pow(base, i * j)
  {
    if j > 0 {
      PowMultiplies(base, i, j - 1);
      assert i * j == i + i * (j - 1);
      PowAdds(base, i, i * (j - 1));
    }
  }

  lemma {:induction false} PowDistributes(a: int, b: int, i: nat)
    ensures Pow(a * b, i) == Pow(a, i) * Pow(b, i)
  {
    if i > 0 {
      PowDistributes(a, b, i - 1);
      var u, v := Pow(a, i - 1), Pow(b, i - 1);
      Rearrange(a, b, u, v);
    }
  }

  lemma {:induction false} PowCongruent(a: int, b: int, i: nat, m: int)
    requires m > 0 && Congruent(a, b, m)
    ensures Congruent(Pow(a, i), Pow(b, i), m)
  {
    if i > 0 {
      PowCongruent(a, b, i - 1, m);
      CongruentMul(a, b, Pow(a, i - 1), Pow(b, i - 1), m);
    }
  }
}
