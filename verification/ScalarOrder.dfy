/** Scalars modulo the order L of the base point (Payload/Admission/Ed25519Verifier.cpp:370-420). */
module ScalarOrder {
  import opened Basics
  import opened Digits
  import opened FieldArithmetic
  import opened Modular

  /** The group order of section 5.1 of RFC 8032. */
  const L: int := 0x1000_0000_0000_0000_0000_0000_0000_0000_14de_f9de_a2f7_9cd6_5812_631a_5cf5_d3ed

  /** The order's bytes: sixteen significant ones, fifteen zeros and the top byte. */
  const ORDER_LOW: seq<int> := [0xed, 0xd3, 0xf5, 0x5c, 0x1a, 0x63, 0x12, 0x58]

  const ORDER_MIDDLE: seq<int> := [0xd6, 0x9c, 0xf7, 0xa2, 0xde, 0xf9, 0xde, 0x14]

  /** L - 2^252, the part of L held in its low sixteen bytes. */
  const TAIL: int := 0x14de_f9de_a2f7_9cd6_5812_631a_5cf5_d3ed

  lemma EightBytes(digits: seq<int>)
    requires |digits| == 8
    ensures Value(256, digits) ==
            digits[0] + 256 * (digits[1] + 256 * (digits[2] + 256 * (digits[3] + 256 * (
            digits[4] + 256 * (digits[5] + 256 * (digits[6] + 256 * digits[7]))))))
  {
    assert digits[0..] == digits && digits[8..] == [];
    forall i | 0 <= i < 8 ensures Value(256, digits[i..]) == digits[i] + 256 * Value(256, digits[i + 1..]) {
      ValueOfSuffixStep(256, digits, i);
    }
    assert Value(256, digits[4..]) == digits[4] + 256 * (digits[5] + 256 * (digits[6] + 256 * digits[7]));
  }

  lemma LowBytes()
    ensures |ORDER_LOW| == 8 && Canonical(256, ORDER_LOW) && Value(256, ORDER_LOW) == 0x5812_631a_5cf5_d3ed
  {
    EightBytes(ORDER_LOW);
  }

  lemma MiddleBytes()
    ensures |ORDER_MIDDLE| == 8 && Canonical(256, ORDER_MIDDLE) && Value(256, ORDER_MIDDLE) == 0x14de_f9de_a2f7_9cd6
  {
    EightBytes(ORDER_MIDDLE);
  }

  lemma JoinedBytesAreTail(low: seq<int>, middle: seq<int>)
    requires |low| == 8 && Value(256, low) == 0x5812_631a_5cf5_d3ed
    requires Value(256, middle) == 0x14de_f9de_a2f7_9cd6
    ensures Value(256, low + middle) == TAIL
  {
    ValueOfConcat(256, low, middle);
    assert Pow(256, 8) == 0x1_0000_0000_0000_0000;
  }

  /** 256^n == 2^248 for n = 31; a variable exponent keeps the power folded. */
  lemma TopByteWeight(n: nat)
    requires n == 31
    ensures 256 * Pow(256, n) == 2 * P + 38
    ensures Pow(256, n + 1) == 256 * Pow(256, n)
  {
    RadixValue();
    PowMultiplies(256, 2, 16);
    assert Pow(256, 2) == 65536;
    assert n + 1 == 2 * 16;
  }

  /** What the algorithms below use of the order's byte table. */
  ghost predicate OrderTable(order: seq<int>) {
    |order| == 32 && Canonical(256, order) && Value(256, order) == L && order[31] == 16 &&
    (forall k :: 16 <= k < 31 ==> order[k] == 0) && Value(256, order[..16]) == TAIL
  }

  method LoadOrder() returns (order: seq<int>)
    ensures OrderTable(order)
  {
    LowBytes();
    MiddleBytes();
    order := AssembleOrder(ORDER_LOW, ORDER_MIDDLE);
  }

  method AssembleOrder(low: seq<int>, middle: seq<int>) returns (order: seq<int>)
    requires |low| == |middle| == 8 && Canonical(256, low) && Canonical(256, middle)
    requires Value(256, low) == 0x5812_631a_5cf5_d3ed && Value(256, middle) == 0x14de_f9de_a2f7_9cd6
    ensures OrderTable(order) && order == low + middle + seq(15, i => 0) + [0x10]
  {
    JoinedBytesAreTail(low, middle);
    order := low + middle + seq(15, i => 0) + [0x10];
    assert order[..16] == low + middle;
    TableDenotesL(order);
  }

  lemma TableDenotesL(order: seq<int>)
    requires |order| == 32 && order[31] == 16 && (forall k :: 16 <= k < 31 ==> order[k] == 0)
    requires Value(256, order[..16]) == TAIL
    ensures Value(256, order) == L
  {
    ZerosAboveTail(order, 31);
    ValueOfPrefixStep(256, order, 31);
    assert order[..32] == order;
    TopByteWeight(31);
  }

  lemma {:induction false} ZerosAboveTail(order: seq<int>, k: nat)
    requires |order| == 32 && 16 <= k <= 31 && (forall k :: 16 <= k < 31 ==> order[k] == 0)
    requires Value(256, order[..16]) == TAIL
    ensures Value(256, order[..k]) == TAIL
  {
    if k > 16 {
      ZerosAboveTail(order, k - 1);
      ValueOfPrefixStep(256, order, k - 1);
    }
  }

  /** True exactly for the encodings of integers below L. */
  method CanonicalScalar(scalar: array<Byte>) returns (canonical: bool)
    requires scalar.Length == 32
    ensures canonical <==> Value(256, scalar[..]) < L
  {
    var orderTable := LoadOrder();
    for index := 32 downto 0
      invariant scalar[index..] == orderTable[index..]
    {
      var value := scalar[index] as int;
      var order := orderTable[index];
      if value < order {
        HighestDifferenceDecides(256, scalar[..], orderTable, index);
        return true;
      }
      if value > order {
        HighestDifferenceDecides(256, orderTable, scalar[..], index);
        return false;
      }
      assert scalar[index..] == [scalar[index]] + scalar[index + 1..];
      assert orderTable[index..] == [orderTable[index]] + orderTable[index + 1..];
    }
    assert scalar[..] == scalar[0..] == orderTable[0..] == orderTable;
    return false;
  }

  /** The signed digits left once every digit above `top` has been eliminated. */
  predicate DigitRange(x: int, j: int, top: int) {
    if j > top then x == 0
    else if top == 63 then 0 <= x <= 255
    else if j >= 51 then -129 <= x <= 256
    else if j >= top - 11 then -129 <= x <= 128
    else if j >= top - 31 then -128 <= x <= 127
    else 0 <= x <= 255
  }

  ghost predicate Ranges(work: seq<int>, top: int) {
    |work| == 64 && forall j :: 0 <= j < 64 ==> DigitRange(work[j], j, top)
  }

  /** The carry out of offset k in one elimination round. It collapses over the four zero bytes 16..19. */
  function CarryLimit(k: int): int {
    if k == 0 then 0 else if k <= 16 then 4100 else if k == 17 then 17 else 1
  }

  lemma CarryShrinks(digit: int, carry: int, x: int, o: int, k: nat)
    requires k < 20 && -128 <= digit <= 255 && -129 <= x <= 256 && 0 <= o <= 255
    requires k >= 16 ==> o == 0
    requires -CarryLimit(k) <= carry <= CarryLimit(k)
    ensures -CarryLimit(k + 1) <= (digit + carry - 16 * x * o + 128) / 256 <= CarryLimit(k + 1)
    ensures -526320 <= 16 * x * o <= 1044480
  {
    WeightedDigit(x, o);
    CarryBound(digit, carry, x * o, k);
  }

  lemma WeightedDigit(x: int, o: int)
    requires -129 <= x <= 256 && 0 <= o <= 255
    ensures -129 * 255 <= x * o <= 256 * 255 && 16 * x * o == 16 * (x * o)
  {
    ScaleInequality(x, 256, o);
    ScaleInequality(-129, x, o);
    Associate(16, x, o);
  }

  lemma CarryBound(digit: int, carry: int, product: int, k: nat)
    requires k < 20 && -128 <= digit <= 255 && -129 * 255 <= product <= 256 * 255
    requires k >= 16 ==> product == 0
    requires -CarryLimit(k) <= carry <= CarryLimit(k)
    ensures -CarryLimit(k + 1) <= (digit + carry - 16 * product + 128) / 256 <= CarryLimit(k + 1)
  {
  }

  /** Digits in flight while the round for `index` is at offset k. */
  ghost predicate InFlight(work: seq<int>, start: seq<int>, index: int, k: nat, carry: int) {
    |work| == |start| == 64 && 32 <= index <= 63 && k <= 20 &&
    (forall j :: 0 <= j < 64 && !(index - 32 <= j < index - 32 + k) ==> work[j] == start[j]) &&
    (forall j :: index - 32 <= j < index - 32 + k ==> -128 <= work[j] <= 127) &&
    -CarryLimit(k) <= carry <= CarryLimit(k)
  }

  /** ... and the value that they keep. */
  ghost predicate Eliminating(work: seq<int>, start: seq<int>, order: seq<int>, index: int, k: nat, carry: int) {
    |order| == 32 && InFlight(work, start, index, k, carry) &&
    Value(256, work) + carry * Pow(256, index - 32 + k) ==
      Value(256, start) - 16 * start[index] * Pow(256, index - 32) * Value(256, order[..k])
  }

  lemma EliminateStepRanges(work: seq<int>, start: seq<int>, o: int, index: int, k: nat, carry: int, next: int)
    requires Ranges(start, index) && k < 20 && InFlight(work, start, index, k, carry)
    requires 0 <= o <= 255 && (k >= 16 ==> o == 0)
    requires next == (work[index - 32 + k] + carry - 16 * start[index] * o + 128) / 256
    ensures var t := index - 32 + k;
            InFlight(work[t := work[t] + carry - 16 * start[index] * o - next * 256], start, index, k + 1, next)
  {
    var t, x := index - 32 + k, start[index];
    assert DigitRange(start[t], t, index) && DigitRange(x, index, index);
    CarryShrinks(start[t], carry, x, o, k);
    CarryLeavesDigit(work[t] + carry - 16 * x * o, next);
  }

  lemma CarryLeavesDigit(sum: int, next: int)
    requires next == (sum + 128) / 256
    ensures -128 <= sum - next * 256 <= 127
  {
  }

  lemma EliminateStep(work: seq<int>, start: seq<int>, order: seq<int>, index: int, k: nat, carry: int, next: int)
    requires OrderTable(order) && Ranges(start, index)
    requires k < 20 && Eliminating(work, start, order, index, k, carry)
    requires var t := index - 32 + k;
             next == (work[t] + carry - 16 * start[index] * order[k] + 128) / 256
    ensures var t := index - 32 + k;
            Eliminating(work[t := work[t] + carry - 16 * start[index] * order[k] - next * 256], start, order, index,
                        k + 1, next)
  {
    EliminateStepRanges(work, start, order[k], index, k, carry, next);
    EliminateStepValue(work, index - 32 + k, start[index], order, k, carry, next);
  }

  lemma EliminateStepValue(work: seq<int>, t: nat, x: int, order: seq<int>, k: nat, carry: int, next: int)
    requires k < |order| && k <= t < |work|
    ensures Value(256, work[t := work[t] + carry - 16 * x * order[k] - next * 256]) + next * Pow(256, t + 1) ==
            Value(256, work) + carry * Pow(256, t) -
            16 * x * Pow(256, t - k) * Value(256, order[..k + 1]) + 16 * x * Pow(256, t - k) * Value(256, order[..k])
  {
    ValueOfUpdate(256, work, t, work[t] + carry - 16 * x * order[k] - next * 256);
    ValueOfPrefixStep(256, order, k);
    PowAdds(256, t - k, k);
    StepCancels(carry, x, order[k], next, Pow(256, t - k), Pow(256, k), Value(256, order[..k]));
  }

  lemma StepCancels(carry: int, x: int, o: int, next: int, base: int, w: int, prefix: int)
    ensures (carry - 16 * x * o - next * 256) * (base * w) + next * (256 * (base * w)) ==
            carry * (base * w) - 16 * x * base * (prefix + o * w) + 16 * x * base * prefix
  {
    var t := base * w;
    Distribute(t, carry - 16 * x * o, -next * 256);
    Distribute(t, carry, -16 * x * o);
    Associate(next, 256, t);
    Distribute(16 * x * base, prefix, o * w);
    Rearrange(16 * x, o, base, w);
    assert (carry - 16 * x * o) * t == carry * t - (16 * x * o) * t;
  }

  lemma EliminateLastRanges(work: seq<int>, start: seq<int>, order: seq<int>, index: int, carry: int)
    requires Ranges(start, index) && Eliminating(work, start, order, index, 20, carry)
    ensures Ranges(work[index - 12 := work[index - 12] + carry][index := 0], index - 1)
  {
    var after := work[index - 12 := work[index - 12] + carry][index := 0];
    forall j | 0 <= j < 64 ensures DigitRange(after[j], j, index - 1) {
      assert DigitRange(start[j], j, index);
    }
  }

  lemma EliminateLastValue(work: seq<int>, start: seq<int>, order: seq<int>, index: int, carry: int)
    requires OrderTable(order) && Eliminating(work, start, order, index, 20, carry)
    ensures Congruent(Value(256, work[index - 12 := work[index - 12] + carry][index := 0]), Value(256, start), L)
  {
    MovedValue(work, index, carry);
    ZerosAboveTail(order, 20);
    WeightOfTop(index);
    LastCancels(Value(256, work), Value(256, work[index - 12 := work[index - 12] + carry][index := 0]),
                Value(256, start), carry, start[index], Pow(256, index - 32), Pow(256, index - 12), Pow(256, index));
  }

  lemma MovedValue(work: seq<int>, index: nat, carry: int)
    requires 12 <= index < |work|
    ensures Value(256, work[index - 12 := work[index - 12] + carry][index := 0]) ==
            Value(256, work) + carry * Pow(256, index - 12) - work[index] * Pow(256, index)
  {
    var moved := work[index - 12 := work[index - 12] + carry];
    ValueOfUpdate(256, work, index - 12, work[index - 12] + carry);
    ValueOfUpdate(256, moved, index, 0);
    assert (0 - work[index]) * Pow(256, index) == -(work[index] * Pow(256, index));
  }

  lemma WeightOfTop(index: int)
    requires index >= 32
    ensures Pow(256, index) == Pow(256, index - 32) * Pow(256, 32)
  {
    PowAdds(256, index - 32, 32);
  }

  lemma LastCancels(work: int, after: int, start: int, carry: int, x: int, base: int, wCarry: int, wTop: int)
    requires work + carry * wCarry == start - 16 * x * base * TAIL
    requires after == work + carry * wCarry - x * wTop
    requires wTop == base * Pow(256, 32)
    ensures Congruent(after, start, L)
  {
    OneMoreThanTail(x, base);
    CongruentFromDifference(after, start, -x * base * 16, L);
  }

  lemma OneMoreThanTail(x: int, base: int)
    ensures -(16 * x * base * TAIL) - x * (base * Pow(256, 32)) == (-x * base * 16) * L
  {
    TopByteWeight(31);
    var w := Pow(256, 31);
    assert L == TAIL + 16 * w && Pow(256, 32) == 256 * w;
    var b := x * base;
    Associate(x, base, 256 * w);
    Associate(b, 16, TAIL);
    Associate(b, 16, L);
    Distribute(16 * b, TAIL, 16 * w);
    assert 16 * x * base == 16 * b by { Associate(16, x, base); }
    assert -x * base * 16 == -(16 * b);
    assert b * (256 * w) == 16 * b * (16 * w);
  }

  lemma InFlightDigit(work: seq<int>, start: seq<int>, order: seq<int>, index: int, k: nat, carry: int)
    requires OrderTable(order) && Ranges(start, index)
    requires k < 20 && Eliminating(work, start, order, index, k, carry)
    ensures work[index] == start[index] && -129 <= work[index] <= 256
    ensures -128 <= work[index - 32 + k] <= 255 && -4100 <= carry <= 4100
    ensures 0 <= order[k] <= 255
  {
    assert DigitRange(start[index], index, index);
    assert DigitRange(start[index - 32 + k], index - 32 + k, index);
  }

  /** The body of the inner loop: subtract 16 * work[index] * weight with carry-in, keep a signed byte. */
  method SubtractDigit(work: array<Limb>, index: int, target: int, weight: Limb, carry: Limb) returns (next: Limb)
    requires work.Length == 64 && 0 <= target < index < 64
    requires -129 <= work[index] <= 256 && -128 <= work[target] <= 255
    requires 0 <= weight <= 255 && -4100 <= carry <= 4100
    modifies work
    ensures next == (old(work[target]) + carry - 16 * old(work[index]) * weight + 128) / 256
    ensures work[..] == old(work[..])[target := old(work[target]) + carry - 16 * old(work[index]) * weight - next * 256]
  {
    var scaled: Limb := 16 * work[index];
    ProductInRange(scaled, weight);
    var product: Limb := scaled * weight;
    var change: Limb := carry - product;
    work[target] := work[target] + change;
    var rounded: Limb := work[target] + 128;
    next := rounded / 256;
    var shifted: Limb := next * 256;
    work[target] := work[target] - shifted;
  }

  lemma ProductInRange(x: int, weight: int)
    requires -4096 <= x <= 4096 && 0 <= weight <= 255
    ensures -4096 * 255 <= x * weight <= 4096 * 255
  {
    ScaleInequality(x, 4096, weight);
    ScaleInequality(-4096, x, weight);
  }

  /** One round of the elimination loop: a multiple of 16 L is subtracted so that digit `index` vanishes. */
  method EliminateTop(work: array<Limb>, order: seq<int>, index: int)
    requires work.Length == 64 && OrderTable(order)
    requires 32 <= index <= 63 && Ranges(work[..], index)
    modifies work
    ensures Ranges(work[..], index - 1)
    ensures Congruent(Value(256, work[..]), old(Value(256, work[..])), L)
  {
    ghost var start: seq<int> := work[..];
    var carry: Limb := 0;
    var target := index - 32;
    while target < index - 12
      invariant index - 32 <= target <= index - 12
      invariant Eliminating(work[..], start, order, index, target - (index - 32), carry)
    {
      ghost var k := target - (index - 32);
      ghost var before: seq<int> := work[..];
      InFlightDigit(before, start, order, index, k, carry);
      var next := SubtractDigit(work, index, target, order[target - (index - 32)], carry);
      EliminateStep(before, start, order, index, k, carry, next);
      carry := next;
      target := target + 1;
    }
    CloseRound(work, start, order, index, carry);
  }

  method CloseRound(work: array<Limb>, ghost start: seq<int>, ghost order: seq<int>, index: int, carry: Limb)
    requires work.Length == 64 && OrderTable(order) && Ranges(start, index)
    requires Eliminating(work[..], start, order, index, 20, carry)
    modifies work
    ensures Ranges(work[..], index - 1)
    ensures Congruent(Value(256, work[..]), Value(256, start), L)
  {
    ghost var before: seq<int> := work[..];
    assert DigitRange(start[index - 12], index - 12, index);
    work[index - 12] := work[index - 12] + carry;
    work[index] := 0;
    assert work[..] == before[index - 12 := before[index - 12] + carry][index := 0];
    EliminateLastRanges(before, start, order, index, carry);
    EliminateLastValue(before, start, order, index, carry);
  }

  /** Subtracting quotient * L with carries, for the digits below `index`. */
  ghost predicate Subtracting(work: seq<int>, start: seq<int>, order: seq<int>, quotient: int, index: nat, carry: int) {
    |work| == |start| == 64 && |order| == 32 && index <= 32 &&
    (forall j :: index <= j < 64 ==> work[j] == start[j]) &&
    (forall j :: 0 <= j < index ==> 0 <= work[j] <= 255) &&
    -10 <= carry <= 10 &&
    Value(256, work[..index]) + carry * Pow(256, index) ==
      Value(256, start[..index]) - quotient * Value(256, order[..index])
  }

  lemma SubtractStep(work: seq<int>, start: seq<int>, order: seq<int>, quotient: int, index: nat, carry: int,
                     digit: int)
    requires OrderTable(order) && Ranges(start, 31) && -9 <= quotient <= 8
    requires index < 32 && Subtracting(work, start, order, quotient, index, carry)
    requires digit == work[index] + carry - quotient * order[index]
    ensures -4000 <= quotient * order[index] <= 4000 && -129 <= work[index] <= 128
    ensures Subtracting(work[index := digit % 256], start, order, quotient, index + 1, digit / 256)
  {
    assert DigitRange(start[index], index, 31);
    var o := order[index];
    ScaleInequality(quotient, 8, o);
    ScaleInequality(-9, quotient, o);
    var after := work[index := digit % 256];
    assert after[..index] == work[..index];
    ValueOfPrefixStep(256, after, index);
    ValueOfPrefixStep(256, start, index);
    ValueOfPrefixStep(256, order, index);
    SubtractCancels(digit, start[index], carry, quotient, o, Pow(256, index), Value(256, order[..index]));
  }

  lemma SubtractCancels(digit: int, d: int, carry: int, q: int, o: int, w: int, prefix: int)
    requires digit == d + carry - q * o
    ensures (digit % 256) * w + (digit / 256) * (256 * w) == d * w + carry * w - q * (prefix + o * w) + q * prefix
  {
    Associate(digit / 256, 256, w);
    Distribute(w, digit % 256, (digit / 256) * 256);
    Distribute(w, d + carry, -(q * o));
    Distribute(w, d, carry);
    Distribute(q, prefix, o * w);
    Associate(q, o, w);
    assert -(q * o) * w == -(q * o * w);
  }

  method SubtractQuotient(work: array<Limb>, order: seq<int>) returns (carry: Limb)
    requires work.Length == 64 && OrderTable(order) && Ranges(work[..], 31)
    modifies work
    ensures Subtracting(work[..], old(work[..]), order, old(work[31]) / 16, 32, carry)
  {
    ghost var start: seq<int> := work[..];
    assert DigitRange(start[31], 31, 31);
    carry := 0;
    for index := 0 to 32
      invariant Subtracting(work[..], start, order, start[31] / 16, index, carry)
    {
      ghost var before: seq<int> := work[..];
      assert work[31] == start[31] && order[index] <= 255;
      var quotient: Limb := work[31] / 16;
      var weight: Limb := order[index];
      ghost var next := before[index] + carry - quotient * order[index];
      SubtractStep(before, start, order, quotient, index, carry, next);
      var product: Limb := quotient * weight;
      var change: Limb := carry - product;
      work[index] := work[index] + change;
      carry := work[index] / 256;
      work[index] := work[index] % 256;
      assert work[..] == before[index := next % 256];
    }
  }

  /** The quotient estimate is off by at most one: what is left lies strictly between -L and L. */
  lemma EstimateIsClose(start: seq<int>)
    requires Ranges(start, 31)
    ensures -Pow(256, 31) < Value(256, start[..32]) - (start[31] / 16) * L < 16 * Pow(256, 31)
  {
    TopByteWeight(31);
    var w, q := Pow(256, 31), start[31] / 16;
    forall j | 0 <= j < 32 ensures -129 <= start[j] <= 128 {
      assert DigitRange(start[j], j, 31);
    }
    ValueOfPrefixStep(256, start, 31);
    GeometricBound(256, start[..31], -129, 128);
    assert q * L == q * TAIL + (16 * q) * w by {
      Distribute(q, TAIL, 16 * w);
      Associate(q, 16, w);
    }
    RemainingDigit(start[31], q, w);
  }

  lemma RemainingDigit(top: int, q: int, w: int)
    requires q == top / 16 && w >= 0
    ensures 0 <= top * w - (16 * q) * w <= 15 * w
  {
    assert top * w - (16 * q) * w == (top % 16) * w by {
      Distribute(w, 16 * q, top % 16);
    }
    ScaleInequality(top % 16, 15, w);
    ScaleInequality(0, top % 16, w);
  }

  /** The carry left over says whether one L must be added back. */
  lemma CarryIsBorrow(work: seq<int>, start: seq<int>, order: seq<int>, carry: int)
    requires OrderTable(order) && Ranges(start, 31)
    requires Subtracting(work, start, order, start[31] / 16, 32, carry)
    ensures var rest := Value(256, start[..32]) - (start[31] / 16) * L;
            carry == (if rest < 0 then -1 else 0) && Value(256, work[..32]) == rest - carry * Pow(256, 32) &&
            -L < rest < L
  {
    EstimateIsClose(start);
    TopByteWeight(31);
    assert order[..32] == order;
    var rest := Value(256, start[..32]) - (start[31] / 16) * L;
    CanonicalValueIsBounded(256, work[..32]);
    BorrowFromRange(Value(256, work[..32]), carry, rest, Pow(256, 32));
  }

  lemma BorrowFromRange(low: int, carry: int, rest: int, r: int)
    requires 0 <= low < r && low + carry * r == rest && -r <= rest < r
    ensures carry == if rest < 0 then -1 else 0
  {
    if carry >= 1 {
      ScaleInequality(1, carry, r);
    } else if carry <= -2 {
      ScaleInequality(carry, -2, r);
    }
  }

  method AddBack(work: array<Limb>, order: seq<int>, carry: Limb)
    requires work.Length == 64 && OrderTable(order) && -1 <= carry <= 0
    requires forall j :: 0 <= j < 32 ==> 0 <= work[j] <= 255
    modifies work
    ensures Value(256, work[..32]) == old(Value(256, work[..32])) - carry * L
    ensures forall j :: 0 <= j < 32 ==> 0 <= work[j] <= 510
    ensures forall j :: 32 <= j < 64 ==> work[j] == old(work[j])
  {
    ghost var start: seq<int> := work[..];
    for index := 0 to 32
      invariant forall j :: 0 <= j < index ==> work[j] == start[j] - carry * order[j] && 0 <= work[j] <= 510
      invariant forall j :: index <= j < 64 ==> work[j] == start[j]
    {
      var weight: Limb := order[index];
      var product: Limb := carry * weight;
      work[index] := work[index] - product;
    }
    if carry == 0 {
      assert work[..32] == start[..32];
    } else {
      assert order[..32] == order;
      ValueOfSum(256, start[..32], order, work[..32]);
    }
  }

  /** The bytes below `index` are out; the digit at `index` holds the pending carry. */
  ghost predicate Emitting(bytes: seq<int>, work: seq<int>, start: seq<int>, index: nat) {
    |work| == |start| == 64 && |bytes| == 64 && index <= 32 &&
    (forall j :: index < j < 64 ==> work[j] == start[j]) && 0 <= work[index] <= 1000 &&
    Value(256, bytes[..index]) + work[index] * Pow(256, index) == Value(256, start[..index + 1])
  }

  lemma EmitStep(bytes: seq<int>, work: seq<int>, start: seq<int>, index: nat)
    requires index < 32 && Emitting(bytes, work, start, index) && 0 <= start[index + 1] <= 510
    ensures Emitting(bytes[index := work[index] % 256], work[index + 1 := work[index + 1] + work[index] / 256], start,
                     index + 1)
  {
    var after := bytes[index := work[index] % 256];
    assert after[..index] == bytes[..index];
    ValueOfPrefixStep(256, after, index);
    ValueOfPrefixStep(256, start, index + 1);
    EmitCancels(work[index], start[index + 1], Pow(256, index));
  }

  lemma EmitCancels(d: int, next: int, w: int)
    ensures (d % 256) * w + (next + d / 256) * (256 * w) == d * w + next * (256 * w)
  {
    Associate(d / 256, 256, w);
    Distribute(w, d % 256, (d / 256) * 256);
    Distribute(256 * w, next, d / 256);
  }

  method EmitBytes(value: array<Byte>, work: array<Limb>)
    requires value.Length == 64 && work.Length == 64 && work[32] == 0
    requires forall j :: 0 <= j < 32 ==> 0 <= work[j] <= 510
    modifies value, work
    ensures Value(256, value[..32]) == old(Value(256, work[..32])) % Pow(256, 32)
    ensures forall j :: 32 <= j < 64 ==> value[j] == old(value[j])
  {
    ghost var start: seq<int> := work[..];
    ghost var original: seq<int> := value[..];
    ValueOfPrefixStep(256, start, 0);
    for index := 0 to 32
      invariant Emitting(value[..], work[..], start, index)
      invariant value[index..] == original[index..]
    {
      ghost var bytes: seq<int>, before: seq<int> := value[..], work[..];
      assert start[index + 1] <= 510;
      EmitStep(bytes, before, start, index);
      var shifted: Limb := work[index] / 256;
      work[index + 1] := work[index + 1] + shifted;
      value[index] := work[index] % 256;
      assert work[..] == before[index + 1 := before[index + 1] + before[index] / 256];
      assert value[..] == bytes[index := before[index] % 256];
      assert value[index + 1..] == original[index..][1..];
    }
    forall j | 32 <= j < 64 ensures value[j] == original[j] {
      assert value[j] == value[32..][j - 32];
    }
    ValueOfPrefixStep(256, start, 32);
    CanonicalValueIsBounded(256, value[..32]);
    RemainderIsUnique(Value(256, start[..32]), work[32], Value(256, value[..32]), Pow(256, 32));
  }

  lemma FinalValue(rest: int, carry: int, shifted: int, value: int, r: int)
    requires -L < rest < L && carry == (if rest < 0 then -1 else 0)
    requires r > L && shifted == rest - carry * r - carry * L && value == shifted % r
    ensures 0 <= value < L && Congruent(value, rest, L)
  {
    if rest < 0 {
      RemainderIsUnique(shifted, 1, rest + L, r);
      CongruentFromDifference(rest + L, rest, 1, L);
    } else {
      RemainderIsUnique(shifted, 0, rest, r);
    }
  }

  method EliminateAll(work: array<Limb>, order: seq<int>)
    requires work.Length == 64 && OrderTable(order) && Ranges(work[..], 63)
    modifies work
    ensures Ranges(work[..], 31)
    ensures Congruent(Value(256, work[..]), old(Value(256, work[..])), L)
  {
    for index := 64 downto 32
      invariant Ranges(work[..], index - 1)
      invariant Congruent(Value(256, work[..]), old(Value(256, work[..])), L)
    {
      EliminateTop(work, order, index);
    }
  }

  /** In place: a 64-byte integer becomes its remainder modulo L in 32 bytes, zero-extended. */
  method ReduceModOrder(value: array<Byte>)
    requires value.Length == 64
    modifies value
    ensures Value(256, value[..32]) == old(Value(256, value[..])) % L
    ensures forall j :: 32 <= j < 64 ==> value[j] == 0
  {
    var order := LoadOrder();
    var work := new Limb[64](i requires 0 <= i < 64 reads value => value[i]);
    assert work[..] == value[..];
    ghost var input := Value(256, value[..]);
    for index := 0 to 64
      invariant forall j :: 0 <= j < index ==> value[j] == 0
      invariant Ranges(work[..], 63) && Value(256, work[..]) == input
    {
      value[index] := 0;
    }
    EliminateAll(work, order);
    ghost var digits: seq<int> := work[..];
    HighDigitsVanish(digits);
    var carry := SubtractQuotient(work, order);
    ghost var subtracted: seq<int> := work[..];
    CarryIsBorrow(subtracted, digits, order, carry);
    AddBack(work, order, carry);
    EmitBytes(value, work);
    FinishReduction(digits, carry, Value(256, subtracted[..32]) - carry * L, Value(256, value[..32]), input);
  }

  lemma FinishReduction(digits: seq<int>, carry: int, shifted: int, value: int, input: int)
    requires Ranges(digits, 31) && Congruent(Value(256, digits[..32]), input, L)
    requires var rest := Value(256, digits[..32]) - (digits[31] / 16) * L;
             -L < rest < L && carry == (if rest < 0 then -1 else 0) &&
             shifted == rest - carry * Pow(256, 32) - carry * L
    requires value == shifted % Pow(256, 32)
    ensures value == input % L
  {
    var rest := Value(256, digits[..32]) - (digits[31] / 16) * L;
    TopByteWeight(31);
    FinalValue(rest, carry, shifted, value, Pow(256, 32));
    CongruentFromDifference(rest, Value(256, digits[..32]), -(digits[31] / 16), L);
    RemainderFromCongruence(value, rest, input);
  }

  lemma RemainderFromCongruence(value: int, rest: int, input: int)
    requires 0 <= value < L && Congruent(value, rest, L) && Congruent(rest, input, L)
    ensures value == input % L
  {
  }

  lemma HighDigitsVanish(digits: seq<int>)
    requires Ranges(digits, 31)
    ensures Value(256, digits) == Value(256, digits[..32]) && digits[32] == 0
  {
    forall j | 32 <= j < 64 ensures digits[j] == 0 {
      assert DigitRange(digits[j], j, 31);
    }
    ZeroTailVanishes(256, digits, 32);
  }
}
