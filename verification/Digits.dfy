/** Little-endian positional numbers whose digits may be signed or oversized, as lazily carried
    limbs are. */
module Digits {
  import opened Modular

  /** The number that `digits` denotes in `base`, least significant digit first. */
  function Value(base: int, digits: seq<int>): int {
    if |digits| == 0 then 0 else digits[0] + base * Value(base, digits[1..])
  }

  ghost predicate Canonical(base: int, digits: seq<int>) {
    forall i :: 0 <= i < |digits| ==> 0 <= digits[i] < base
  }

  lemma {:induction false} ValueOfUpdate(base: int, digits: seq<int>, i: nat, digit: int)
    requires i < |digits|
    ensures Value(base, digits[i := digit]) ==
            Value(base, digits) + (digit - digits[i]) * Pow(base, i)
  {
    var updated := digits[i := digit];
    if i == 0 {
      assert updated[1..] == digits[1..];
    } else {
      assert updated[1..] == digits[1..][i - 1 := digit];
      ValueOfUpdate(base, digits[1..], i - 1, digit);
      var d, w := digit - digits[i], Pow(base, i - 1);
      assert base * (d * w) == d * (base * w);
      var v := Value(base, digits[1..]);
      assert base * (v + d * w) == base * v + base * (d * w);
    }
  }

  lemma {:induction false} ValueOfConcat(base: int, low: seq<int>, high: seq<int>)
    ensures Value(base, low + high) ==
            Value(base, low) + Pow(base, |low|) * Value(base, high)
  {
    if |low| == 0 {
      assert low + high == high;
    } else {
      assert (low + high)[1..] == low[1..] + high;
      ValueOfConcat(base, low[1..], high);
      var v, w, h := Value(base, low[1..]), Pow(base, |low| - 1), Value(base, high);
      assert base * (v + w * h) == base * v + (base * w) * h;
    }
  }

  lemma ValueOfSplit(base: int, digits: seq<int>, i: nat)
    requires i <= |digits|
    ensures Value(base, digits) ==
            Value(base, digits[..i]) + Pow(base, i) * Value(base, digits[i..])
  {
    assert digits == digits[..i] + digits[i..];
    ValueOfConcat(base, digits[..i], digits[i..]);
  }

  lemma ValueOfPrefixStep(base: int, digits: seq<int>, i: nat)
    requires i < |digits|
    ensures Value(base, digits[..i + 1]) == Value(base, digits[..i]) + digits[i] * Pow(base, i)
  {
    assert digits[..i + 1] == digits[..i] + [digits[i]];
    ValueOfConcat(base, digits[..i], [digits[i]]);
    assert Value(base, [digits[i]]) == digits[i] by {
      assert [digits[i]][1..] == [];
    }
  }

  lemma ValueOfSuffixStep(base: int, digits: seq<int>, i: nat)
    requires i < |digits|
    ensures Value(base, digits[i..]) == digits[i] + base * Value(base, digits[i + 1..])
  {
    assert digits[i..][1..] == digits[i + 1..];
  }

  lemma {:induction false} ValueOfZeros(base: int, digits: seq<int>)
    requires forall i :: 0 <= i < |digits| ==> digits[i] == 0
    ensures Value(base, digits) == 0
  {
    if |digits| > 0 {
      ValueOfZeros(base, digits[1..]);
    }
  }

  lemma {:induction false} CanonicalValueIsBounded(base: int, digits: seq<int>)
    requires base > 1 && Canonical(base, digits)
    ensures 0 <= Value(base, digits) < Pow(base, |digits|)
  {
    if |digits| > 0 {
      CanonicalValueIsBounded(base, digits[1..]);
      var v, w := Value(base, digits[1..]), Pow(base, |digits| - 1);
      ScaleInequality(0, v, base);
      ScaleInequality(v, w - 1, base);
      Distribute(base, w, -1);
    }
  }

  /** A value determines its canonical digits. */
  lemma {:induction false} CanonicalDigitsAreUnique(base: int, a: seq<int>, b: seq<int>)
    requires base > 1 && Canonical(base, a) && Canonical(base, b)
    requires |a| == |b| && Value(base, a) == Value(base, b)
    ensures a == b
  {
    if |a| > 0 {
      var v, w := Value(base, a[1..]), Value(base, b[1..]);
      RemainderIsUnique(a[0] + base * v, v, a[0], base);
      RemainderIsUnique(b[0] + base * w, w, b[0], base);
      CanonicalDigitsAreUnique(base, a[1..], b[1..]);
      assert a == [a[0]] + a[1..] && b == [b[0]] + b[1..];
    }
  }

  /** Digits of magnitude at most `bound` denote a number of magnitude at most bound * base^n. */
  lemma {:induction false} BoundedValue(base: int, digits: seq<int>, bound: int)
    requires base > 1 && bound >= 0
    requires forall i :: 0 <= i < |digits| ==> -bound <= digits[i] <= bound
    ensures -bound * (Pow(base, |digits|) - 1) <= Value(base, digits) <= bound * (Pow(base, |digits|) - 1)
  {
    if |digits| > 0 {
      BoundedValue(base, digits[1..], bound);
      BoundStep(base, digits[0], Value(base, digits[1..]), Pow(base, |digits| - 1), bound);
    } else {
      assert Pow(base, 0) == 1;
    }
  }

  lemma BoundStep(base: int, digit: int, v: int, w: int, bound: int)
    requires base > 1 && bound >= 0 && w >= 1 && -bound <= digit <= bound
    requires -bound * (w - 1) <= v <= bound * (w - 1)
    ensures -bound * (base * w - 1) <= digit + base * v <= bound * (base * w - 1)
  {
    var limit := bound * (w - 1);
    assert -bound * (w - 1) == -limit;
    ScaleInequality(v, limit, base);
    ScaleInequality(-limit, v, base);
    BoundCancels(base, w, bound);
    ScaleInequality(1, base - 1, bound);
  }

  lemma BoundCancels(base: int, w: int, bound: int)
    ensures base * (bound * (w - 1)) + bound * (base - 1) == bound * (base * w - 1)
    ensures -bound * (base * w - 1) == -(bound * (base * w - 1))
  {
    Associate(base, bound, w - 1);
    Associate(bound, base, w - 1);
    Distribute(base, w, -1);
    Distribute(bound, base * w - base, base - 1);
  }

  /** The sharp form of BoundedValue: a geometric sum is (base^n - 1) / (base - 1). */
  lemma {:induction false} GeometricBound(base: int, digits: seq<int>, low: int, high: int)
    requires base > 1 && low <= 0 <= high
    requires forall i :: 0 <= i < |digits| ==> low <= digits[i] <= high
    ensures low * (Pow(base, |digits|) - 1) <= (base - 1) * Value(base, digits) <= high * (Pow(base, |digits|) - 1)
  {
    if |digits| > 0 {
      GeometricBound(base, digits[1..], low, high);
      var d, v, w := digits[0], Value(base, digits[1..]), Pow(base, |digits| - 1);
      GeometricStep(base, d, v, w, high);
      GeometricStepDown(base, d, v, w, low);
    }
  }

  lemma GeometricStepDown(base: int, digit: int, v: int, w: int, low: int)
    requires base > 1 && low <= digit && low * (w - 1) <= (base - 1) * v
    ensures low * (base * w - 1) <= (base - 1) * (digit + base * v)
  {
    ScaleInequality(low, digit, base - 1);
    ScaleInequality(low * (w - 1), (base - 1) * v, base);
    BoundCancels(base, w, low);
    Distribute(base - 1, digit, base * v);
    Associate(base - 1, base, v);
    Associate(base, base - 1, v);
    assert (base - 1) * low == low * (base - 1);
  }

  lemma GeometricStep(base: int, digit: int, v: int, w: int, high: int)
    requires base > 1 && digit <= high && (base - 1) * v <= high * (w - 1)
    ensures (base - 1) * (digit + base * v) <= high * (base * w - 1)
  {
    ScaleInequality(digit, high, base - 1);
    ScaleInequality((base - 1) * v, high * (w - 1), base);
    BoundCancels(base, w, high);
    Distribute(base - 1, digit, base * v);
    Associate(base - 1, base, v);
    Associate(base, base - 1, v);
    assert (base - 1) * high == high * (base - 1);
  }

  /** Canonical numbers compare by their highest differing digit. */
  lemma HighestDifferenceDecides(base: int, a: seq<int>, b: seq<int>, i: nat)
    requires base > 1 && Canonical(base, a) && Canonical(base, b)
    requires |a| == |b| && i < |a| && a[i + 1..] == b[i + 1..] && a[i] < b[i]
    ensures Value(base, a) < Value(base, b)
  {
    ValueOfSplit(base, a, i + 1);
    ValueOfSplit(base, b, i + 1);
    ValueOfPrefixStep(base, a, i);
    ValueOfPrefixStep(base, b, i);
    CanonicalValueIsBounded(base, a[..i]);
    CanonicalValueIsBounded(base, b[..i]);
    assert Value(base, a[..i + 1]) < Value(base, b[..i + 1]) by {
      TopDigitDecides(Value(base, a[..i]), Value(base, b[..i]), a[i], b[i], Pow(base, i));
    }
  }

  lemma TopDigitDecides(lowA: int, lowB: int, topA: int, topB: int, w: int)
    requires 0 <= lowA < w && 0 <= lowB && topA < topB
    ensures lowA + topA * w < lowB + topB * w
  {
    ScaleInequality(topA + 1, topB, w);
    Distribute(w, topA, 1);
  }

  lemma ZeroTailVanishes(base: int, digits: seq<int>, i: nat)
    requires i <= |digits| && forall j :: i <= j < |digits| ==> digits[j] == 0
    ensures Value(base, digits) == Value(base, digits[..i])
  {
    ValueOfSplit(base, digits, i);
    ValueOfZeros(base, digits[i..]);
  }
}
