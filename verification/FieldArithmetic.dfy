/** Arithmetic modulo 2^255 - 19 on sixteen signed 16-bit limbs held in 64-bit words
    (Payload/Admission/Ed25519Verifier.cpp). Every C++ intermediate result is assigned to a `Limb`,
    so a method that verifies never overflows. */
module FieldArithmetic {
  import opened Basics
  import opened Bits
  import opened Digits
  import opened Modular

  type Limb = x: int | -0x8000_0000_0000_0000 <= x < 0x8000_0000_0000_0000

  const P: int := 0x7fff_ffff_ffff_ffff_ffff_ffff_ffff_ffff_ffff_ffff_ffff_ffff_ffff_ffff_ffff_ffed

  /** 2^256, the weight just above the sixteen limbs. */
  ghost function Radix(): (r: int)
    ensures r == 2 * P + 38
  {
    RadixValue();
    Pow(65536, 16)
  }

  lemma RadixValue()
    ensures Pow(65536, 16) == 2 * P + 38
  {
    assert Pow(65536, 4) == 0x1_0000_0000_0000_0000;
    PowAdds(65536, 4, 4);
    PowAdds(65536, 8, 8);
  }

  /** The integer that a limb vector denotes. */
  function FieldValue(limbs: seq<int>): int {
    Value(65536, limbs)
  }

  ghost predicate Bounded(limbs: seq<int>, bound: int) {
    |limbs| == 16 && forall i :: 0 <= i < 16 ==> -bound <= limbs[i] <= bound
  }

  /** All limbs canonical except the lowest, which still holds 38 times the top carry. */
  ghost predicate CarriedBy(limbs: seq<int>, top: int) {
    |limbs| == 16 && 38 * top <= limbs[0] <= 38 * top + 65535 &&
    forall i :: 1 <= i < 16 ==> 0 <= limbs[i] <= 65535
  }

  lemma CarryMovesUp(limbs: seq<int>, i: nat, carry: int)
    requires i + 1 < |limbs|
    ensures FieldValue(limbs[i := limbs[i] - carry * 65536][i + 1 := limbs[i + 1] + carry]) == FieldValue(limbs)
  {
    var lowered := limbs[i := limbs[i] - carry * 65536];
    ValueOfUpdate(65536, limbs, i, limbs[i] - carry * 65536);
    ValueOfUpdate(65536, lowered, i + 1, limbs[i + 1] + carry);
    var w := Pow(65536, i);
    assert (-carry * 65536) * w + carry * (65536 * w) == 0 by {
      Associate(carry, 65536, w);
    }
  }

  lemma CarryWraps(limbs: seq<int>, carry: int)
    requires |limbs| == 16
    ensures FieldValue(limbs[15 := limbs[15] - carry * 65536][0 := limbs[0] + 38 * carry]) ==
            FieldValue(limbs) - carry * Radix() + 38 * carry
  {
    var lowered := limbs[15 := limbs[15] - carry * 65536];
    ValueOfUpdate(65536, limbs, 15, limbs[15] - carry * 65536);
    ValueOfUpdate(65536, lowered, 0, limbs[0] + 38 * carry);
    var w := Pow(65536, 15);
    assert Radix() == 65536 * w;
    Associate(carry, 65536, w);
    assert Pow(65536, 0) == 1;
  }

  /** One carry pass: the top carry is exactly the quotient by 2^256 and comes back multiplied by 38. */
  method Carry(output: array<Limb>)
    requires output.Length == 16 && Bounded(output[..], 0x4000_0000_0000_0000)
    modifies output
    ensures var top := FieldValue(old(output[..])) / Radix();
            CarriedBy(output[..], top) &&
            FieldValue(output[..]) == FieldValue(old(output[..])) % Radix() + 38 * top
  {
    ghost var value := FieldValue(output[..]);
    ghost var top := 0;
    for index := 0 to 16
      invariant index < 16 ==> FieldValue(output[..]) == value
      invariant index < 16 ==> -0x4001_0000_0000_0000 <= output[index] <= 0x4001_0000_0000_0000
      invariant forall j :: index < j < 16 ==> output[j] == old(output[j])
      invariant forall j :: 1 <= j < index ==> 0 <= output[j] <= 65535
      invariant 0 < index < 16 ==> 0 <= output[0] <= 65535
      invariant index == 16 ==> 38 * top <= output[0] <= 38 * top + 65535
      invariant index == 16 ==> FieldValue(output[..]) == value - top * Radix() + 38 * top
    {
      ghost var before: seq<int> := output[..];
      output[index] := output[index] + 65536;
      var carry: Limb := output[index] / 65536;
      var shifted: Limb := carry * 65536;
      output[index] := output[index] - shifted;
      var excess: Limb := carry - 1;
      if index < 15 {
        output[index + 1] := output[index + 1] + excess;
        CarryMovesUp(before, index, excess);
        assert output[..] == before[index := before[index] - excess * 65536][index + 1 := before[index + 1] + excess];
      } else {
        var folded: Limb := 38 * excess;
        output[0] := output[0] + folded;
        top := excess;
        CarryWraps(before, excess);
        assert output[..] == before[15 := before[15] - excess * 65536][0 := before[0] + 38 * excess];
      }
    }
    CarryQuotient(output[..], value, top);
  }

  lemma CarryQuotient(limbs: seq<int>, value: int, top: int)
    requires CarriedBy(limbs, top)
    requires FieldValue(limbs) == value - top * Radix() + 38 * top
    ensures value / Radix() == top && value % Radix() == FieldValue(limbs) - 38 * top
  {
    var canonical := limbs[0 := limbs[0] - 38 * top];
    ValueOfUpdate(65536, limbs, 0, limbs[0] - 38 * top);
    assert Pow(65536, 0) == 1;
    CanonicalValueIsBounded(65536, canonical);
    RemainderIsUnique(value, top, FieldValue(canonical), Radix());
  }

  /** Horner form of a sixteen-limb value, for the constants. */
  function Horner(l: seq<int>): int
    requires |l| == 16
  {
    l[0] + 65536 * (l[1] + 65536 * (l[2] + 65536 * (l[3] + 65536 * (
    l[4] + 65536 * (l[5] + 65536 * (l[6] + 65536 * (l[7] + 65536 * (
    l[8] + 65536 * (l[9] + 65536 * (l[10] + 65536 * (l[11] + 65536 * (
    l[12] + 65536 * (l[13] + 65536 * (l[14] + 65536 * l[15]))))))))))))))
  }

  lemma FieldValueIsHorner(l: seq<int>)
    requires |l| == 16
    ensures FieldValue(l) == Horner(l)
  {
    assert l[0..] == l && l[16..] == [];
    forall i | 0 <= i < 16 ensures Value(65536, l[i..]) == l[i] + 65536 * Value(65536, l[i + 1..]) {
      ValueOfSuffixStep(65536, l, i);
    }
    assert Value(65536, l[15..]) == l[15];
    assert Value(65536, l[12..]) == l[12] + 65536 * (l[13] + 65536 * (l[14] + 65536 * l[15]));
    assert Value(65536, l[8..]) ==
           l[8] + 65536 * (l[9] + 65536 * (l[10] + 65536 * (l[11] + 65536 * Value(65536, l[12..]))));
    assert Value(65536, l[4..]) ==
           l[4] + 65536 * (l[5] + 65536 * (l[6] + 65536 * (l[7] + 65536 * Value(65536, l[8..]))));
    assert Value(65536, l[0..]) ==
           l[0] + 65536 * (l[1] + 65536 * (l[2] + 65536 * (l[3] + 65536 * Value(65536, l[4..]))));
  }

  const PRIME_LIMBS: seq<int> :=
    [0xffed, 0xffff, 0xffff, 0xffff, 0xffff, 0xffff, 0xffff, 0xffff,
     0xffff, 0xffff, 0xffff, 0xffff, 0xffff, 0xffff, 0xffff, 0x7fff]

  lemma PrimeLimbsDenoteP()
    ensures |PRIME_LIMBS| == 16 && FieldValue(PRIME_LIMBS) == P
  {
    FieldValueIsHorner(PRIME_LIMBS);
  }

  /** A masked exchange without a branch: swap when choice is 1, nothing when it is 0. */
  method ConditionalSwap(left: array<Limb>, right: array<Limb>, choice: int)
    requires left.Length == right.Length == 16 && left != right
    requires choice == 0 || choice == 1
    modifies left, right
    ensures left[..] == if choice == 1 then old(right[..]) else old(left[..])
    ensures right[..] == if choice == 1 then old(left[..]) else old(right[..])
  {
    var mask := -(choice - 1) - 1;
    for index := 0 to 16
      invariant forall j :: 0 <= j < index ==>
        left[j] == (if choice == 1 then old(right[j]) else old(left[j])) &&
        right[j] == (if choice == 1 then old(left[j]) else old(right[j]))
      invariant forall j :: index <= j < 16 ==> left[j] == old(left[j]) && right[j] == old(right[j])
    {
      var value := And(mask, Xor(left[index], right[index]));
      MaskedSwap(left[index], right[index], choice);
      left[index] := Xor(left[index], value);
      right[index] := Xor(right[index], value);
    }
  }

  lemma MaskedSwap(l: int, r: int, choice: int)
    requires choice == 0 || choice == 1
    ensures var value := And(-choice, Xor(l, r));
            Xor(l, value) == (if choice == 1 then r else l) &&
            Xor(r, value) == (if choice == 1 then l else r)
  {
    if choice == 1 {
      AndAllOnes(Xor(l, r));
      XorCancels(l, r);
      XorCommutes(l, r);
      XorCancels(r, l);
    } else {
      AndNone(Xor(l, r));
      XorZero(l);
      XorZero(r);
    }
  }

  /** Three carry passes bring any bounded value into [0, 2^256) without changing it modulo P. */
  lemma ThreeCarriesSettle(v0: int, v1: int, v2: int)
    requires -0x100_0000_0000_0000 * Radix() <= v0 <= 0x100_0000_0000_0000 * Radix()
    requires v1 == v0 % Radix() + 38 * (v0 / Radix())
    requires v2 == v1 % Radix() + 38 * (v1 / Radix())
    ensures -0x100_0000_0000_0000 <= v0 / Radix() <= 0x100_0000_0000_0000
    ensures -1 <= v1 / Radix() <= 1
    ensures 0 <= v2 < Radix() && v2 / Radix() == 0 && v2 % Radix() == v2
    ensures Congruent(v2, v0, P)
  {
    QuotientIsBounded(v0, 0x100_0000_0000_0000, Radix());
    SettleGeneric(v0, v1, v2, P, Radix());
  }

  lemma QuotientIsBounded(v: int, bound: int, r: int)
    requires r > 0 && -bound * r <= v <= bound * r
    ensures -bound <= v / r <= bound
  {
    var q := v / r;
    assert q * r <= v < q * r + r;
    if q > bound {
      ScaleInequality(bound + 1, q, r);
      assert false;
    }
    if q < -bound {
      ScaleInequality(q, -bound - 1, r);
      assert false;
    }
  }

  lemma SettleGeneric(v0: int, v1: int, v2: int, p: int, r: int)
    requires r == 2 * p + 38 && p > 0x1_0000_0000_0000_0000
    requires -0x100_0000_0000_0000 <= v0 / r <= 0x100_0000_0000_0000
    requires v1 == v0 % r + 38 * (v0 / r)
    requires v2 == v1 % r + 38 * (v1 / r)
    ensures -1 <= v1 / r <= 1
    ensures 0 <= v2 < r && v2 / r == 0 && v2 % r == v2
    ensures Congruent(v2, v0, p)
  {
    CarryPassIsCongruent(v0, v1, p, r);
    CarryPassIsCongruent(v1, v2, p, r);
    if v1 < 0 {
      RemainderIsUnique(v1, -1, v1 + r, r);
    } else if v1 < r {
      RemainderIsUnique(v1, 0, v1, r);
    } else {
      RemainderIsUnique(v1, 1, v1 - r, r);
    }
    RemainderIsUnique(v2, 0, v2, r);
  }

  lemma CarryPassIsCongruent(v: int, w: int, p: int, r: int)
    requires p > 0 && r == 2 * p + 38 && w == v % r + 38 * (v / r)
    ensures Congruent(w, v, p)
  {
    var q := v / r;
    assert v == q * r + v % r;
    assert q * r == (2 * q) * p + 38 * q by {
      Distribute(q, 2 * p, 38);
      Associate(q, 2, p);
    }
    CongruentFromDifference(w, v, -2 * q, p);
  }

  /** One trial subtraction of P with borrows (the body of the pass loop of PackField). */
  method SubtractPrime(reduced: array<Limb>, candidate: array<Limb>) returns (borrow: int)
    requires reduced.Length == candidate.Length == 16 && reduced != candidate
    requires Canonical(65536, reduced[..])
    modifies candidate
    ensures FieldValue(candidate[..]) == FieldValue(reduced[..]) - P
    ensures borrow == if FieldValue(reduced[..]) < P then 1 else 0
    ensures borrow == 0 ==> Canonical(65536, candidate[..])
  {
    candidate[0] := reduced[0] - 0xffed;
    for index := 1 to 15
      invariant BorrowedThrough(reduced[..], candidate[..], index)
    {
      ghost var before: seq<int> := candidate[..];
      var borrowed: Limb := (candidate[index - 1] / 65536) % 2;
      var difference: Limb := reduced[index] - 0xffff;
      candidate[index] := difference - borrowed;
      candidate[index - 1] := candidate[index - 1] % 65536;
      BorrowStep(reduced[..], before, candidate[..], index);
    }
    ghost var before: seq<int> := candidate[..];
    var borrowed: Limb := (candidate[14] / 65536) % 2;
    var difference: Limb := reduced[15] - 0x7fff;
    candidate[15] := difference - borrowed;
    borrow := (candidate[15] / 65536) % 2;
    candidate[14] := candidate[14] % 65536;
    BorrowStep(reduced[..], before, candidate[..], 15);
    BorrowDone(reduced[..], candidate[..]);
  }

  /** The first i limbs of the difference are written, the last of them not yet masked. */
  ghost predicate BorrowedThrough(reduced: seq<int>, candidate: seq<int>, i: nat) {
    |reduced| == |candidate| == 16 && 1 <= i <= 16 && Canonical(65536, reduced) &&
    (forall j :: 0 <= j < i - 1 ==> 0 <= candidate[j] <= 65535) &&
    -65536 <= candidate[i - 1] <= 65535 &&
    (i == 16 ==> -32768 <= candidate[15] <= 32768) &&
    Value(65536, candidate[..i]) == Value(65536, reduced[..i]) - Value(65536, PRIME_LIMBS[..i])
  }

  lemma BorrowStep(reduced: seq<int>, before: seq<int>, after: seq<int>, i: nat)
    requires 1 <= i < 16 && BorrowedThrough(reduced, before, i) && |after| == 16
    requires var borrowed := (before[i - 1] / 65536) % 2;
             after[i - 1] == before[i - 1] % 65536 && after[i] == reduced[i] - PRIME_LIMBS[i] - borrowed
    requires forall j :: 0 <= j < i - 1 ==> after[j] == before[j]
    ensures BorrowedThrough(reduced, after, i + 1)
  {
    var borrowed := (before[i - 1] / 65536) % 2;
    MaskRestoresBorrow(before[i - 1]);
    BorrowValue(reduced, before, after, i, borrowed);
    assert 0 <= reduced[i] < 65536;
  }

  lemma BorrowValue(reduced: seq<int>, before: seq<int>, after: seq<int>, i: nat, borrowed: int)
    requires |reduced| == |before| == |after| == 16 && 1 <= i < 16
    requires Value(65536, before[..i]) == Value(65536, reduced[..i]) - Value(65536, PRIME_LIMBS[..i])
    requires after[i - 1] == before[i - 1] + 65536 * borrowed
    requires after[i] == reduced[i] - PRIME_LIMBS[i] - borrowed
    requires forall j :: 0 <= j < i - 1 ==> after[j] == before[j]
    ensures Value(65536, after[..i + 1]) == Value(65536, reduced[..i + 1]) - Value(65536, PRIME_LIMBS[..i + 1])
  {
    assert after[..i] == before[..i][i - 1 := after[i - 1]];
    ValueOfUpdate(65536, before[..i], i - 1, after[i - 1]);
    ValueOfPrefixStep(65536, after, i);
    ValueOfPrefixStep(65536, reduced, i);
    ValueOfPrefixStep(65536, PRIME_LIMBS, i);
    BorrowCancels(reduced[i], PRIME_LIMBS[i], borrowed, Pow(65536, i - 1));
  }

  lemma MaskRestoresBorrow(x: int)
    requires -65536 <= x <= 65535
    ensures x % 65536 == x + 65536 * ((x / 65536) % 2) && 0 <= (x / 65536) % 2 <= 1
  {
  }

  lemma BorrowCancels(r: int, p: int, borrowed: int, v: int)
    ensures (65536 * borrowed) * v + (r - p - borrowed) * (65536 * v) == r * (65536 * v) - p * (65536 * v)
  {
    var w := 65536 * v;
    assert (65536 * borrowed) * v == borrowed * w by {
      Associate(borrowed, 65536, v);
    }
    Distribute(w, r - p, -borrowed);
    Distribute(w, r, -p);
  }

  lemma BorrowDone(reduced: seq<int>, candidate: seq<int>)
    requires BorrowedThrough(reduced, candidate, 16)
    ensures FieldValue(candidate) == FieldValue(reduced) - P
    ensures FieldValue(reduced) < P <==> candidate[15] < 0
    ensures FieldValue(reduced) >= P ==> Canonical(65536, candidate)
  {
    PrimeLimbsDenoteP();
    assert candidate[..16] == candidate && reduced[..16] == reduced && PRIME_LIMBS[..16] == PRIME_LIMBS;
    SignFromTopDigit(candidate);
  }

  /** With canonical lower limbs the top limb carries the sign. */
  lemma SignFromTopDigit(limbs: seq<int>)
    requires |limbs| == 16 && forall i :: 0 <= i < 15 ==> 0 <= limbs[i] <= 65535
    ensures FieldValue(limbs) < 0 <==> limbs[15] < 0
  {
    assert limbs[..16] == limbs;
    ValueOfPrefixStep(65536, limbs, 15);
    CanonicalValueIsBounded(65536, limbs[..15]);
    SignOfSum(Value(65536, limbs[..15]), limbs[15], Pow(65536, 15));
  }

  lemma SignOfSum(low: int, top: int, w: int)
    requires 0 <= low < w
    ensures low + top * w < 0 <==> top < 0
  {
    if top < 0 {
      ScaleInequality(top, -1, w);
    } else {
      ScaleInequality(0, top, w);
    }
  }

  /** Three carries, then P is subtracted at most twice: the little-endian bytes of the unique
      representative in [0, P). */
  method PackField(output: array<Byte>, input: array<Limb>)
    requires output.Length == 32 && input.Length == 16
    requires Bounded(input[..], 0x100_0000_0000_0000)
    modifies output
    ensures Value(256, output[..]) == FieldValue(input[..]) % P
  {
    var reduced := new Limb[16](i requires 0 <= i < 16 reads input => input[i]);
    assert reduced[..] == input[..];
    ReduceFully(reduced);
    ghost var limbs: seq<int> := reduced[..];
    for index := 0 to 16
      invariant reduced[..] == limbs
      invariant Value(256, output[..2 * index]) == Value(65536, limbs[..index])
    {
      ghost var before := output[..];
      assert 0 <= limbs[index] < 65536 && reduced[index] == limbs[index];
      output[index * 2] := reduced[index] % 256;
      output[index * 2 + 1] := reduced[index] / 256;
      assert output[..2 * index] == before[..2 * index];
      BytesOfLimb(output[..], limbs, index);
    }
    assert output[..32] == output[..] && limbs[..16] == limbs;
  }

  /** The first half of PackField: the limbs of the unique representative in [0, P). */
  method ReduceFully(reduced: array<Limb>)
    requires reduced.Length == 16 && Bounded(reduced[..], 0x100_0000_0000_0000)
    modifies reduced
    ensures Canonical(65536, reduced[..])
    ensures FieldValue(reduced[..]) == old(FieldValue(reduced[..])) % P
  {
    ghost var value := FieldValue(reduced[..]);
    BoundedValue(65536, reduced[..], 0x100_0000_0000_0000);
    Carry(reduced);
    ghost var v1 := FieldValue(reduced[..]);
    Carry(reduced);
    ghost var v2 := FieldValue(reduced[..]);
    ThreeCarriesSettle(value, v1, v2);
    Carry(reduced);
    var candidate := new Limb[16](i => 0);
    for pass := 0 to 2
      invariant Canonical(65536, reduced[..])
      invariant pass == 0 ==> FieldValue(reduced[..]) == v2
      invariant pass == 1 ==> FieldValue(reduced[..]) == if v2 < P then v2 else v2 - P
      invariant pass == 2 ==> FieldValue(reduced[..]) == value % P
    {
      var borrow := SubtractPrime(reduced, candidate);
      ConditionalSwap(reduced, candidate, 1 - borrow);
      if pass == 1 {
        AtMostTwoSubtractions(v2, value);
      }
    }
  }

  lemma AtMostTwoSubtractions(v2: int, value: int)
    requires 0 <= v2 < Radix() && Congruent(v2, value, P)
    ensures value % P == (if v2 < P then v2 else if v2 - P < P then v2 - P else v2 - 2 * P)
  {
  }

  lemma BytesOfLimb(bytes: seq<int>, limbs: seq<int>, i: nat)
    requires 2 * i + 1 < |bytes| && i < |limbs|
    requires Value(256, bytes[..2 * i]) == Value(65536, limbs[..i])
    requires bytes[2 * i] + 256 * bytes[2 * i + 1] == limbs[i]
    ensures Value(256, bytes[..2 * (i + 1)]) == Value(65536, limbs[..i + 1])
  {
    ValueOfPrefixStep(256, bytes, 2 * i);
    ValueOfPrefixStep(256, bytes, 2 * i + 1);
    ValueOfPrefixStep(65536, limbs, i);
    var w := Pow(256, 2 * i);
    PowMultiplies(256, 2, i);
    assert Pow(256, 2) == 65536;
    assert Pow(65536, i) == w;
    Associate(bytes[2 * i + 1], 256, w);
    assert bytes[2 * i + 1] * (256 * w) == (256 * bytes[2 * i + 1]) * w;
    Distribute(w, bytes[2 * i], 256 * bytes[2 * i + 1]);
  }

  /** Accumulates every difference instead of stopping at the first. */
  method EqualBytes(left: array<Byte>, right: array<Byte>) returns (equal: bool)
    ensures equal <==> left[..] == right[..]
  {
    if left.Length != right.Length {
      return false;
    }
    var difference := 0;
    for index := 0 to left.Length
      invariant difference == 0 <==> left[..index] == right[..index]
    {
      XorIsZeroExactlyWhenEqual(left[index], right[index]);
      OrIsZeroExactlyWhenBothAre(difference, Xor(left[index], right[index]));
      difference := Or(difference, Xor(left[index], right[index]));
      assert left[..index + 1] == left[..index] + [left[index]];
      assert right[..index + 1] == right[..index] + [right[index]];
    }
    assert left[..left.Length] == left[..] && right[..right.Length] == right[..];
    return difference == 0;
  }

  /** Two limb vectors are equal exactly when they denote the same residue. */
  method EqualField(left: array<Limb>, right: array<Limb>) returns (equal: bool)
    requires left.Length == right.Length == 16
    requires Bounded(left[..], 0x100_0000_0000_0000) && Bounded(right[..], 0x100_0000_0000_0000)
    ensures equal <==> Congruent(FieldValue(left[..]), FieldValue(right[..]), P)
  {
    var packedLeft := new Byte[32](i => 0);
    var packedRight := new Byte[32](i => 0);
    PackField(packedLeft, left);
    PackField(packedRight, right);
    equal := EqualBytes(packedLeft, packedRight);
    if Value(256, packedLeft[..]) == Value(256, packedRight[..]) {
      CanonicalDigitsAreUnique(256, packedLeft[..], packedRight[..]);
    }
  }

  /** The low bit of the unique representative. */
  method Parity(input: array<Limb>) returns (parity: int)
    requires input.Length == 16 && Bounded(input[..], 0x100_0000_0000_0000)
    ensures parity == (FieldValue(input[..]) % P) % 2
  {
    var packed := new Byte[32](i => 0);
    PackField(packed, input);
    parity := packed[0] % 2;
    LowDigitParity(packed[..]);
  }

  lemma LowDigitParity(bytes: seq<int>)
    requires |bytes| > 0
    ensures Value(256, bytes) % 2 == bytes[0] % 2
  {
    assert Value(256, bytes) == bytes[0] + 2 * (128 * Value(256, bytes[1..]));
  }

  /** Reads 255 bits: the top bit of the last byte is dropped, and the result need not be below P. */
  method UnpackField(output: array<Limb>, input: array<Byte>)
    requires output.Length == 16 && input.Length == 32
    modifies output
    ensures Canonical(65536, output[..])
    ensures FieldValue(output[..]) == Value(256, input[..]) % (P + 19)
  {
    for index := 0 to 16
      invariant forall j :: 0 <= j < index ==> output[j] == input[2 * j] as int + 256 * (input[2 * j + 1] as int)
      invariant Value(256, input[..2 * index]) == Value(65536, output[..index])
    {
      ghost var before := output[..];
      var high: Limb := (input[index * 2 + 1] as int) * 256;
      output[index] := input[index * 2] as int + high;
      assert output[..index] == before[..index];
      BytesOfLimb(input[..], output[..], index);
    }
    ghost var full: seq<int> := output[..];
    assert output[..16] == full && input[..32] == input[..];
    output[15] := output[15] % 32768;
    assert output[..] == full[15 := full[15] % 32768];
    TopBitDropped(full);
  }

  lemma TopBitDropped(limbs: seq<int>)
    requires |limbs| == 16 && Canonical(65536, limbs)
    ensures FieldValue(limbs[15 := limbs[15] % 32768]) == FieldValue(limbs) % (P + 19)
  {
    var masked := limbs[15 := limbs[15] % 32768];
    var bit := limbs[15] / 32768;
    ValueOfUpdate(65536, limbs, 15, limbs[15] % 32768);
    HalfRadix();
    TopLimbBelow(masked);
    Associate(bit, 32768, Pow(65536, 15));
    RemainderIsUnique(FieldValue(limbs), bit, FieldValue(masked), P + 19);
  }

  lemma HalfRadix()
    ensures 32768 * Pow(65536, 15) == P + 19
  {
    RadixValue();
    assert Pow(65536, 16) == 65536 * Pow(65536, 15);
  }

  /** The exponent is a variable so that the power is not unfolded 255 times. */
  lemma TwoTo255(n: nat, k: nat)
    requires n == 255 && k == 15
    ensures Pow(2, n) == P + 19
  {
    PowAdds(2, k, n - k);
    PowMultiplies(2, k + 1, k);
    LimbPowers();
    assert n - k == (k + 1) * k;
    HalfRadix();
  }

  lemma LimbPowers()
    ensures Pow(2, 15) == 32768 && Pow(2, 16) == 65536
  {
    assert Pow(2, 8) == 256;
  }

  lemma TopLimbBelow(limbs: seq<int>)
    requires |limbs| == 16 && Canonical(65536, limbs) && limbs[15] < 32768
    ensures 0 <= FieldValue(limbs) < 32768 * Pow(65536, 15)
  {
    assert limbs[..16] == limbs;
    ValueOfPrefixStep(65536, limbs, 15);
    CanonicalValueIsBounded(65536, limbs[..15]);
    var w := Pow(65536, 15);
    ScaleInequality(limbs[15], 32767, w);
    ScaleInequality(0, limbs[15], w);
  }

  method AddField(output: array<Limb>, left: array<Limb>, right: array<Limb>)
    requires output.Length == left.Length == right.Length == 16
    requires Bounded(left[..], 0x100_0000_0000_0000) && Bounded(right[..], 0x100_0000_0000_0000)
    modifies output
    ensures FieldValue(output[..]) == old(FieldValue(left[..])) + old(FieldValue(right[..]))
    ensures forall i :: 0 <= i < 16 ==> output[i] == old(left[i]) + old(right[i])
  {
    ghost var l, r := left[..], right[..];
    for index := 0 to 16
      invariant forall j :: 0 <= j < index ==> output[j] == l[j] + r[j]
      invariant forall j :: index <= j < 16 ==> left[j] == l[j] && right[j] == r[j]
    {
      assert -0x100_0000_0000_0000 <= l[index] <= 0x100_0000_0000_0000;
      assert -0x100_0000_0000_0000 <= r[index] <= 0x100_0000_0000_0000;
      output[index] := left[index] + right[index];
    }
    ValueOfSum(65536, l, r, output[..]);
  }

  method SubtractField(output: array<Limb>, left: array<Limb>, right: array<Limb>)
    requires output.Length == left.Length == right.Length == 16
    requires Bounded(left[..], 0x100_0000_0000_0000) && Bounded(right[..], 0x100_0000_0000_0000)
    modifies output
    ensures FieldValue(output[..]) == old(FieldValue(left[..])) - old(FieldValue(right[..]))
    ensures forall i :: 0 <= i < 16 ==> output[i] == old(left[i]) - old(right[i])
  {
    ghost var l, r := left[..], right[..];
    for index := 0 to 16
      invariant forall j :: 0 <= j < index ==> output[j] == l[j] - r[j]
      invariant forall j :: index <= j < 16 ==> left[j] == l[j] && right[j] == r[j]
    {
      assert -0x100_0000_0000_0000 <= l[index] <= 0x100_0000_0000_0000;
      assert -0x100_0000_0000_0000 <= r[index] <= 0x100_0000_0000_0000;
      output[index] := left[index] - right[index];
    }
    ValueOfSum(65536, output[..], r, l);
  }

  lemma {:induction false} ValueOfSum(base: int, a: seq<int>, b: seq<int>, c: seq<int>)
    requires |a| == |b| == |c| && forall i :: 0 <= i < |a| ==> c[i] == a[i] + b[i]
    ensures Value(base, c) == Value(base, a) + Value(base, b)
  {
    if |a| > 0 {
      ValueOfSum(base, a[1..], b[1..], c[1..]);
      Distribute(base, Value(base, a[1..]), Value(base, b[1..]));
    }
  }

  /** What two carry passes leave behind: every product has this shape. */
  ghost predicate Settled(limbs: seq<int>) {
    |limbs| == 16 && -38 <= limbs[0] <= 65573 && forall i :: 1 <= i < 16 ==> 0 <= limbs[i] <= 65535
  }

  /** The bound under which a product cannot overflow. */
  const FACTOR_BOUND := 0x4_0000

  /** The convolution after all of left[..i] and, for limb i, right[..j]. */
  ghost predicate Accumulated(product: seq<int>, left: seq<int>, right: seq<int>, i: nat, j: nat) {
    |product| == 31 && |left| == |right| == 16 && i <= 16 && j <= 16 && (i == 16 ==> j == 0) &&
    Value(65536, product) == Value(65536, left[..i]) * FieldValue(right) +
      (if i == 16 then 0 else left[i] * Pow(65536, i) * Value(65536, right[..j])) &&
    forall k :: 0 <= k < 31 ==>
      var limit := (if i <= k < i + j then i + 1 else i) * 0x10_0000_0000;
      -limit <= product[k] <= limit
  }

  lemma AccumulateStep(before: seq<int>, after: seq<int>, left: seq<int>, right: seq<int>, i: nat, j: nat)
    requires i < 16 && j < 16 && Accumulated(before, left, right, i, j)
    requires Bounded(left, FACTOR_BOUND) && Bounded(right, FACTOR_BOUND)
    requires after == before[i + j := before[i + j] + left[i] * right[j]]
    ensures -0x10_0000_0000 <= left[i] * right[j] <= 0x10_0000_0000
    ensures Accumulated(after, left, right, i, j + 1)
  {
    ProductBound(left[i], right[j], FACTOR_BOUND);
    AccumulateValue(before, left[i], right, i, j);
  }

  lemma AccumulateValue(before: seq<int>, l: int, right: seq<int>, i: nat, j: nat)
    requires i + j < |before| && j < |right|
    ensures Value(65536, before[i + j := before[i + j] + l * right[j]]) ==
            Value(65536, before) - l * Pow(65536, i) * Value(65536, right[..j]) +
            l * Pow(65536, i) * Value(65536, right[..j + 1])
  {
    ValueOfUpdate(65536, before, i + j, before[i + j] + l * right[j]);
    ValueOfPrefixStep(65536, right, j);
    PowAdds(65536, i, j);
    Rearrange(l, right[j], Pow(65536, i), Pow(65536, j));
    Distribute(l * Pow(65536, i), Value(65536, right[..j]), right[j] * Pow(65536, j));
  }

  lemma ProductBound(a: int, b: int, bound: int)
    requires -bound <= a <= bound && -bound <= b <= bound
    ensures -bound * bound <= a * b <= bound * bound
  {
    if b >= 0 {
      ScaleInequality(a, bound, b);
      ScaleInequality(-bound, a, b);
    } else {
      ScaleInequality(a, bound, -b);
      ScaleInequality(-bound, a, -b);
    }
    ScaleInequality(b, bound, bound);
    ScaleInequality(-bound, b, bound);
  }

  lemma AccumulateRow(product: seq<int>, left: seq<int>, right: seq<int>, i: nat)
    requires i < 16 && Accumulated(product, left, right, i, 16)
    ensures Accumulated(product, left, right, i + 1, 0)
  {
    assert right[..16] == right;
    ValueOfPrefixStep(65536, left, i);
    var f := FieldValue(right);
    Distribute(f, Value(65536, left[..i]), left[i] * Pow(65536, i));
    assert Value(65536, right[..0]) == 0;
    forall k | 0 <= k < 31
      ensures -(i + 1) * 0x10_0000_0000 <= product[k] <= (i + 1) * 0x10_0000_0000
    {
    }
  }

  /** Folding limb 16 + k onto limb k with weight 38, for all k below `index`. */
  ghost predicate Folded(product: seq<int>, original: seq<int>, index: nat) {
    |product| == |original| == 31 && index <= 15 &&
    product[16..] == original[16..] &&
    (forall k :: 0 <= k < 16 && (k >= index) ==> product[k] == original[k]) &&
    (forall k :: 0 <= k < index ==> product[k] == original[k] + 38 * original[k + 16]) &&
    FieldValue(product[..16]) == FieldValue(original[..16]) + 38 * Value(65536, original[16..][..index])
  }

  lemma FoldStep(before: seq<int>, after: seq<int>, original: seq<int>, index: nat)
    requires index < 15 && Folded(before, original, index)
    requires after == before[index := before[index] + 38 * before[index + 16]]
    ensures Folded(after, original, index + 1)
  {
    var high := original[16..];
    assert before[index + 16] == before[16..][index] == high[index];
    assert after[..16] == before[..16][index := after[index]];
    ValueOfUpdate(65536, before[..16], index, after[index]);
    ValueOfPrefixStep(65536, high, index);
    Distribute(38, Value(65536, high[..index]), high[index] * Pow(65536, index));
    Associate(38, high[index], Pow(65536, index));
    assert after[16..] == before[16..];
  }

  lemma FoldOperands(before: seq<int>, original: seq<int>, index: nat)
    requires index < 15 && Folded(before, original, index)
    ensures before[index] == original[index] && before[index + 16] == original[index + 16]
  {
    assert before[index + 16] == before[16..][index];
    assert original[index + 16] == original[16..][index];
  }

  lemma FoldIsCongruent(product: seq<int>, original: seq<int>)
    requires Folded(product, original, 15)
    ensures forall k :: 0 <= k < 16 ==>
            product[k] == original[k] || (k < 15 && product[k] == original[k] + 38 * original[k + 16])
    ensures Congruent(FieldValue(product[..16]), Value(65536, original), P)
  {
    ValueOfSplit(65536, original, 16);
    assert original[16..][..15] == original[16..];
    var h := Value(65536, original[16..]);
    RadixTimes(h);
    CongruentFromDifference(FieldValue(product[..16]), Value(65536, original), -2 * h, P);
  }

  lemma RadixTimes(h: int)
    ensures Radix() * h == (2 * h) * P + 38 * h
  {
    Distribute(h, 2 * P, 38);
    Associate(h, 2, P);
  }

  /** Schoolbook product, folded once at 2^256 = 38, then carried twice. The output may be either
      operand: it is written only after the whole product is known. */
  method MultiplyField(output: array<Limb>, left: array<Limb>, right: array<Limb>)
    requires output.Length == left.Length == right.Length == 16
    requires Bounded(left[..], FACTOR_BOUND) && Bounded(right[..], FACTOR_BOUND)
    modifies output
    ensures Settled(output[..])
    ensures Congruent(FieldValue(output[..]), old(FieldValue(left[..])) * old(FieldValue(right[..])), P)
  {
    var product := Convolve(left, right);
    FoldProduct(product);
    for index := 0 to 16
      invariant forall j :: 0 <= j < index ==> output[j] == product[j]
      invariant forall k :: 0 <= k < 16 ==> -0x4000_0000_0000 <= product[k] <= 0x4000_0000_0000
      invariant Congruent(FieldValue(product[..16]), old(FieldValue(left[..])) * old(FieldValue(right[..])), P)
    {
      output[index] := product[index];
    }
    assert output[..] == product[..16];
    TwoCarries(output);
  }

  method FoldProduct(product: array<Limb>)
    requires product.Length == 31
    requires forall k :: 0 <= k < 31 ==> -0x100_0000_0000 <= product[k] <= 0x100_0000_0000
    modifies product
    ensures forall k :: 0 <= k < 16 ==> -0x4000_0000_0000 <= product[k] <= 0x4000_0000_0000
    ensures Congruent(FieldValue(product[..16]), old(Value(65536, product[..])), P)
  {
    ghost var original: seq<int> := product[..];
    assert original[16..][..0] == [];
    for index := 0 to 15
      invariant Folded(product[..], original, index)
    {
      ghost var before: seq<int> := product[..];
      FoldOperands(before, original, index);
      var folded: Limb := 38 * product[index + 16];
      product[index] := product[index] + folded;
      FoldStep(before, product[..], original, index);
    }
    FoldIsCongruent(product[..], original);
    forall k | 0 <= k < 16 ensures -0x4000_0000_0000 <= product[k] <= 0x4000_0000_0000 {
      assert product[k] == product[..][k];
      assert -0x100_0000_0000 <= original[k] <= 0x100_0000_0000;
      assert k < 15 ==> -0x100_0000_0000 <= original[k + 16] <= 0x100_0000_0000;
    }
  }

  /** The double loop of MultiplyField: the exact integer product as 31 limbs. */
  method Convolve(left: array<Limb>, right: array<Limb>) returns (product: array<Limb>)
    requires left.Length == right.Length == 16
    requires Bounded(left[..], FACTOR_BOUND) && Bounded(right[..], FACTOR_BOUND)
    ensures fresh(product) && product.Length == 31
    ensures Value(65536, product[..]) == FieldValue(left[..]) * FieldValue(right[..])
    ensures forall k :: 0 <= k < 31 ==> -0x100_0000_0000 <= product[k] <= 0x100_0000_0000
  {
    product := new Limb[31](i => 0);
    ghost var l: seq<int>, r: seq<int> := left[..], right[..];
    ValueOfZeros(65536, product[..]);
    for leftIndex := 0 to 16
      invariant Accumulated(product[..], l, r, leftIndex, 0)
    {
      for rightIndex := 0 to 16
        invariant Accumulated(product[..], l, r, leftIndex, rightIndex)
      {
        ghost var before: seq<int> := product[..];
        assert left[leftIndex] == l[leftIndex] && right[rightIndex] == r[rightIndex];
        AccumulateStep(before,
                       before[leftIndex + rightIndex := before[leftIndex + rightIndex] + l[leftIndex] * r[rightIndex]],
          l, r, leftIndex, rightIndex);
        var term: Limb := left[leftIndex] * right[rightIndex];
        product[leftIndex + rightIndex] := product[leftIndex + rightIndex] + term;
      }
      AccumulateRow(product[..], l, r, leftIndex);
    }
    assert l[..16] == l;
    forall k | 0 <= k < 31 ensures -0x100_0000_0000 <= product[k] <= 0x100_0000_0000 {
      assert product[k] == product[..][k];
    }
  }

  method TwoCarries(output: array<Limb>)
    requires output.Length == 16 && Bounded(output[..], 0x4000_0000_0000)
    modifies output
    ensures Settled(output[..])
    ensures Congruent(FieldValue(output[..]), old(FieldValue(output[..])), P)
  {
    ghost var value := FieldValue(output[..]);
    BoundedValue(65536, output[..], 0x4000_0000_0000);
    QuotientIsBounded(value, 0x4000_0000_0000, Radix());
    Carry(output);
    ghost var v1 := FieldValue(output[..]);
    Carry(output);
    ThreeCarriesSettle(value, v1, FieldValue(output[..]));
  }

  method SquareField(output: array<Limb>, input: array<Limb>)
    requires output.Length == input.Length == 16 && Bounded(input[..], FACTOR_BOUND)
    modifies output
    ensures Settled(output[..])
    ensures Congruent(FieldValue(output[..]), old(FieldValue(input[..])) * old(FieldValue(input[..])), P)
  {
    MultiplyField(output, input, input);
  }

  /** The exponent reached by InvertField after `done` of its 254 rounds. */
  ghost function InvertExponent(done: nat): int {
    Pow(2, done + 1) - (if done <= 249 then 1 else if done == 250 then 2 else if done == 251 then 3
                        else if done == 252 then 6 else if done == 253 then 11 else 21)
  }

  /** The exponent reached by Power2523 after `done` of its 251 rounds. */
  ghost function RootExponent(done: nat): int {
    Pow(2, done + 1) - (if done <= 249 then 1 else if done == 250 then 2 else 3)
  }

  lemma {:induction false} PowerOfTwoAtLeast(n: nat)
    ensures Pow(2, n) >= n + 1
  {
    if n > 0 {
      PowerOfTwoAtLeast(n - 1);
    }
  }

  lemma ExponentsAreNatural(done: nat)
    ensures InvertExponent(done) >= 0 && RootExponent(done) >= 0
  {
    PowerOfTwoAtLeast(done + 1);
  }

  lemma SquareStep(x: int, e: nat, before: int, after: int, p: int)
    requires p > 0 && Congruent(before, Pow(x, e), p) && Congruent(after, before * before, p)
    ensures Congruent(after, Pow(x, 2 * e), p)
  {
    CongruentMul(before, Pow(x, e), before, Pow(x, e), p);
    PowAdds(x, e, e);
  }

  lemma MultiplyStep(x: int, e: nat, before: int, after: int, p: int)
    requires p > 0 && Congruent(before, Pow(x, e), p) && Congruent(after, before * x, p)
    ensures Congruent(after, Pow(x, e + 1), p)
  {
    CongruentMul(before, Pow(x, e), x, x, p);
  }

  lemma PowOne(x: int)
    ensures Pow(x, 1) == x
  {
    assert Pow(x, 0) == 1;
  }

  /** Raises to the power P - 2: the inverse of a nonzero residue. */
  method InvertField(output: array<Limb>, input: array<Limb>)
    requires output.Length == input.Length == 16 && Bounded(input[..], FACTOR_BOUND)
    modifies output
    ensures Settled(output[..])
    ensures Congruent(FieldValue(output[..]), Pow(old(FieldValue(input[..])), P - 2), P)
  {
    var value := new Limb[16](i requires 0 <= i < 16 reads input => input[i]);
    assert value[..] == input[..];
    ghost var x := FieldValue(input[..]);
    ghost var e: nat := 1;
    PowOne(x);
    for exponent := 254 downto 0
      invariant e == InvertExponent(254 - exponent)
      invariant exponent < 254 ==> Settled(value[..])
      invariant Bounded(value[..], FACTOR_BOUND)
      invariant Bounded(input[..], FACTOR_BOUND) && FieldValue(input[..]) == x
      invariant Congruent(FieldValue(value[..]), Pow(x, e), P)
    {
      ExponentsAreNatural(253 - exponent);
      ghost var start := FieldValue(value[..]);
      SquareField(value, value);
      ghost var squared := FieldValue(value[..]);
      SquareStep(x, e, start, squared, P);
      e := 2 * e;
      if exponent != 2 && exponent != 4 {
        MultiplyField(value, value, input);
        MultiplyStep(x, e, squared, FieldValue(value[..]), P);
        e := e + 1;
      }
      assert Pow(2, 255 - exponent) == 2 * Pow(2, 254 - exponent);
    }
    TwoTo255(255, 15);
    CopyField(output, value);
  }

  /** Raises to the power (P - 5) / 8: the core of a square root modulo P. */
  method Power2523(output: array<Limb>, input: array<Limb>)
    requires output.Length == input.Length == 16 && Bounded(input[..], FACTOR_BOUND)
    modifies output
    ensures Settled(output[..])
    ensures Congruent(FieldValue(output[..]), Pow(old(FieldValue(input[..])), (P - 5) / 8), P)
  {
    var value := new Limb[16](i requires 0 <= i < 16 reads input => input[i]);
    assert value[..] == input[..];
    ghost var x := FieldValue(input[..]);
    ghost var e: nat := 1;
    PowOne(x);
    for exponent := 251 downto 0
      invariant e == RootExponent(251 - exponent)
      invariant exponent < 251 ==> Settled(value[..])
      invariant Bounded(value[..], FACTOR_BOUND)
      invariant Bounded(input[..], FACTOR_BOUND) && FieldValue(input[..]) == x
      invariant Congruent(FieldValue(value[..]), Pow(x, e), P)
    {
      ExponentsAreNatural(250 - exponent);
      ghost var start := FieldValue(value[..]);
      SquareField(value, value);
      ghost var squared := FieldValue(value[..]);
      SquareStep(x, e, start, squared, P);
      e := 2 * e;
      if exponent != 1 {
        MultiplyField(value, value, input);
        MultiplyStep(x, e, squared, FieldValue(value[..]), P);
        e := e + 1;
      }
      assert Pow(2, 252 - exponent) == 2 * Pow(2, 251 - exponent);
    }
    RootExponentIsFinal(252);
    CopyField(output, value);
  }

  lemma RootExponentIsFinal(n: nat)
    requires n == 252
    ensures Pow(2, n) - 3 == (P - 5) / 8
  {
    TwoTo255(n + 3, 15);
    PowAdds(2, 3, n);
    assert Pow(2, 3) == 8;
  }

  method CopyField(output: array<Limb>, source: array<Limb>)
    requires output.Length == source.Length == 16
    modifies output
    ensures output[..] == old(source[..])
  {
    for index := 0 to 16
      invariant forall j :: 0 <= j < index ==> output[j] == old(source[j])
      invariant forall j :: 0 <= j < 16 ==> source[j] == old(source[j])
    {
      output[index] := source[index];
    }
  }
}
