/** Consequences of one hypothesis on the modulus: every nonzero residue has (m - 1)-th power 1. By
    Fermat's little theorem and its converse for all residues this says that m is prime. */
module PrimeField {
  import opened Modular

  ghost predicate PrimeModulus(m: int) {
    m > 2 && forall a: int :: a % m != 0 ==> Pow(a, m - 1) % m == 1
  }

  /** The power that InvertField computes, reduced. */
  ghost function Inverse(a: int, m: int): int
    requires m > 2
  {
    Pow(a, m - 2) % m
  }

  lemma InverseCancels(a: int, m: int)
    requires PrimeModulus(m) && a % m != 0
    ensures Congruent(a * Inverse(a, m), 1, m)
  {
    assert Pow(a, m - 1) == a * Pow(a, m - 2);
    RemainderIsCongruent(Pow(a, m - 2), m);
    CongruentMul(a, a, Inverse(a, m), Pow(a, m - 2), m);
    RemainderIsUnique(1, 0, 1, m);
  }

  lemma ZeroTimes(a: int, b: int, m: int)
    requires m > 0 && a % m == 0
    ensures (a * b) % m == 0
  {
    RemainderIsUnique(0, 0, 0, m);
    CongruentMul(a, 0, b, b, m);
  }

  lemma NoZeroDivisors(a: int, b: int, m: int)
    requires PrimeModulus(m) && (a * b) % m == 0
    ensures a % m == 0 || b % m == 0
  {
    if a % m != 0 {
      var i := Inverse(a, m);
      InverseCancels(a, m);
      CongruentMul(a * i, 1, b, b, m);
      ZeroTimes(a * b, i, m);
      assert (a * b) * i == (a * i) * b by {
        Associate(a, b, i);
        Associate(a, i, b);
        assert b * i == i * b;
      }
    }
  }

  lemma DifferenceIsZero(a: int, b: int, m: int)
    requires m > 0
    ensures Congruent(a, b, m) <==> (a - b) % m == 0
  {
    if Congruent(a, b, m) {
      CongruentSub(a, b, b, b, m);
      RemainderIsUnique(0, 0, 0, m);
    }
    if (a - b) % m == 0 {
      RemainderIsUnique(0, 0, 0, m);
      CongruentAdd(a - b, 0, b, b, m);
    }
  }

  lemma CancelFactor(a: int, b: int, c: int, m: int)
    requires PrimeModulus(m) && c % m != 0 && Congruent(a * c, b * c, m)
    ensures Congruent(a, b, m)
  {
    DifferenceIsZero(a * c, b * c, m);
    assert (a - b) * c == a * c - b * c;
    NoZeroDivisors(a - b, c, m);
    DifferenceIsZero(a, b, m);
  }

  lemma ProductIsNonzero(a: int, b: int, m: int)
    requires PrimeModulus(m) && a % m != 0 && b % m != 0
    ensures (a * b) % m != 0
  {
    if (a * b) % m == 0 {
      NoZeroDivisors(a, b, m);
    }
  }

  /** Two fractions agree when they agree after cross-multiplication. */
  lemma FractionsAgree(a: int, b: int, c: int, d: int, m: int)
    requires PrimeModulus(m) && b % m != 0 && d % m != 0
    requires Congruent(a * d, c * b, m)
    ensures Congruent(a * Inverse(b, m), c * Inverse(d, m), m)
  {
    var i, j := Inverse(b, m), Inverse(d, m);
    InverseCancels(b, m);
    InverseCancels(d, m);
    ProductIsNonzero(b, d, m);
    // (a i)(b d) = a d (b i) and (c j)(b d) = c b (d j)
    CongruentMul(a * d, c * b, b * i, 1, m);
    CongruentMul(c * b, c * b, d * j, 1, m);
    assert (a * i) * (b * d) == (a * d) * (b * i) by { Rearrange4(a, i, b, d); }
    assert (c * j) * (b * d) == (c * b) * (d * j) by { Rearrange(c, j, b, d); assert j * d == d * j; }
    CancelFactor(a * i, c * j, b * d, m);
  }

  lemma Rearrange4(a: int, i: int, b: int, d: int)
    ensures (a * i) * (b * d) == (a * d) * (b * i)
  {
    Rearrange(a, i, d, b);
    assert d * b == b * d && i * b == b * i;
  }

  lemma SquaresToOneOrMinusOne(a: int, m: int)
    requires PrimeModulus(m) && Congruent(a * a, 1, m)
    ensures Congruent(a, 1, m) || Congruent(a, -1, m)
  {
    DifferenceIsZero(a * a, 1, m);
    assert (a - 1) * (a + 1) == a * a - 1;
    NoZeroDivisors(a - 1, a + 1, m);
    DifferenceIsZero(a, 1, m);
    DifferenceIsZero(a, -1, m);
  }
}
