/** Two's-complement bitwise operators on unbounded integers. A machine word of any width is the
    integer it denotes, so these are the C++ operators `^`, `&` and `|` on signed operands. */
module Bits {
  import opened BitStrings

  function Magnitude(x: int): nat {
    if x < 0 then -x - 1 else x
  }

  function Xor(x: int, y: int): int
    decreases Magnitude(x) + Magnitude(y)
  {
    if -1 <= x <= 0 && -1 <= y <= 0 then
      (if x == y then 0 else -1)
    else
      2 * Xor(x / 2, y / 2) + (x + y) % 2
  }

  function And(x: int, y: int): int
    decreases Magnitude(x) + Magnitude(y)
  {
    if -1 <= x <= 0 && -1 <= y <= 0 then
      (if x == y then x else 0)
    else
      2 * And(x / 2, y / 2) + (if x % 2 == 1 && y % 2 == 1 then 1 else 0)
  }

  function Or(x: int, y: int): int
    decreases Magnitude(x) + Magnitude(y)
  {
    if -1 <= x <= 0 && -1 <= y <= 0 then
      (if x == y then x else -1)
    else
      2 * Or(x / 2, y / 2) + (if x % 2 == 0 && y % 2 == 0 then 0 else 1)
  }

  lemma {:induction false} XorCommutes(x: int, y: int)
    ensures Xor(x, y) == Xor(y, x)
    decreases Magnitude(x) + Magnitude(y)
  {
    if !(-1 <= x <= 0 && -1 <= y <= 0) {
      XorCommutes(x / 2, y / 2);
    }
  }

  /** Applying `^ x` twice gives the other operand back: the identity behind a masked swap. */
  lemma {:induction false} XorCancels(x: int, y: int)
    ensures Xor(x, Xor(x, y)) == y
    decreases Magnitude(x) + Magnitude(y)
  {
    if !(-1 <= x <= 0 && -1 <= y <= 0) {
      XorCancels(x / 2, y / 2);
      XorUnfolds(x, y);
      XorUnfolds(x, Xor(x, y));
      ParityCancels(x, y, Xor(x / 2, y / 2));
    }
  }

  lemma ParityCancels(x: int, y: int, half: int)
    ensures var z := 2 * half + (x + y) % 2; z / 2 == half && (x + z) % 2 == y % 2
  {
  }

  /** The recursive equation also holds in the base case. */
  lemma XorUnfolds(x: int, y: int)
    ensures Xor(x, y) == 2 * Xor(x / 2, y / 2) + (x + y) % 2
  {
    if -1 <= x <= 0 && -1 <= y <= 0 {
      assert x / 2 == x && y / 2 == y;
    }
  }

  lemma {:induction false} XorZero(x: int)
    ensures Xor(x, 0) == x
    decreases Magnitude(x)
  {
    if !(-1 <= x <= 0) {
      XorZero(x / 2);
    }
  }

  lemma XorIsZeroExactlyWhenEqual(x: int, y: int)
    ensures Xor(x, y) == 0 <==> x == y
  {
    XorCancels(x, y);
    XorZero(x);
    XorCancels(x, 0);
  }

  lemma {:induction false} AndAllOnes(x: int)
    ensures And(-1, x) == x
    decreases Magnitude(x)
  {
    if !(-1 <= x <= 0) {
      AndAllOnes(x / 2);
    }
  }

  lemma {:induction false} AndNone(x: int)
    ensures And(0, x) == 0
    decreases Magnitude(x)
  {
    if !(-1 <= x <= 0) {
      AndNone(x / 2);
    }
  }

  lemma {:induction false} OrIsZeroExactlyWhenBothAre(x: int, y: int)
    ensures Or(x, y) == 0 <==> x == 0 && y == 0
    decreases Magnitude(x) + Magnitude(y)
  {
    if !(-1 <= x <= 0 && -1 <= y <= 0) {
      OrIsZeroExactlyWhenBothAre(x / 2, y / 2);
    }
  }

  lemma {:induction false} OrCommutes(x: int, y: int)
    ensures Or(x, y) == Or(y, x)
    decreases Magnitude(x) + Magnitude(y)
  {
    if !(-1 <= x <= 0 && -1 <= y <= 0) {
      OrCommutes(x / 2, y / 2);
    }
  }

  lemma {:induction false} OrNone(x: int)
    ensures Or(x, 0) == x
    decreases Magnitude(x)
  {
    if !(-1 <= x <= 0) {
      OrNone(x / 2);
    }
  }

  /** The disjunction of words fits the word. */
  lemma {:induction false} OrIsBounded(x: nat, y: nat, n: nat)
    requires x < Power2(n) && y < Power2(n)
    ensures 0 <= Or(x, y) < Power2(n)
    decreases n
  {
    if n > 0 && (x != 0 || y != 0) {
      OrIsBounded(x / 2, y / 2, n - 1);
    }
  }

  /** The disjunction of a number of n bits and of bits above them is their sum. */
  lemma OrOfDisjoint(low: nat, high: nat, n: nat)
    requires low < Power2(n)
    ensures Or(high * Power2(n), low) == high * Power2(n) + low
  {
    ShiftIsProduct(high, n);
    OrOfShifted(low, high, n);
  }

  function ShiftLeft(x: nat, n: nat): nat {
    if n == 0 then x else 2 * ShiftLeft(x, n - 1)
  }

  lemma {:induction false} ShiftIsProduct(x: nat, n: nat)
    ensures ShiftLeft(x, n) == x * Power2(n)
  {
    if n > 0 {
      ShiftIsProduct(x, n - 1);
      DoubledWeight(x, Power2(n - 1));
    }
  }

  lemma DoubledWeight(x: nat, w: nat)
    ensures x * (2 * w) == 2 * (x * w)
  {
  }

  lemma {:induction false} OrOfShifted(low: nat, high: nat, n: nat)
    requires low < Power2(n)
    ensures Or(ShiftLeft(high, n), low) == ShiftLeft(high, n) + low
    decreases n
  {
    if n == 0 {
      OrNone(high);
    } else {
      OrOfShifted(low / 2, high, n - 1);
      OrDoubles(ShiftLeft(high, n), low, ShiftLeft(high, n - 1), low / 2, low % 2);
    }
  }

  lemma OrDoubles(top: int, low: int, x: int, y: int, bit: int)
    requires 0 <= bit <= 1 && low == 2 * y + bit && top == 2 * x
    ensures Or(top, low) == 2 * Or(x, y) + bit
  {
    Halves(x, 0);
    Halves(y, bit);
    OrUnfolds(top, low);
    LastBit(x, 0);
    LastBit(y, bit);
  }

  lemma LastBit(x: int, bit: int)
    requires 0 <= bit <= 1
    ensures (2 * x + bit) % 2 == bit
  {
  }

  lemma OrUnfolds(x: int, y: int)
    ensures Or(x, y) == 2 * Or(x / 2, y / 2) + if x % 2 == 0 && y % 2 == 0 then 0 else 1
  {
    if -1 <= x <= 0 && -1 <= y <= 0 {
      assert x / 2 == x && y / 2 == y;
    }
  }

  /** Setting the clear top bit of a byte adds its weight. */
  lemma XorTopBit(low: nat)
    requires low < 128
    ensures Xor(low, 128) == low + 128
  {
    XorPowerOfTwo(low, 128, 7);
  }

  lemma {:induction false} XorPowerOfTwo(low: nat, top: nat, height: nat)
    requires low < top && top == Power2(height)
    ensures Xor(low, top) == low + top
    decreases height
  {
    if height == 0 {
      assert low == 0 && top == 1;
      assert Xor(0, 1) == 2 * Xor(0, 0) + 1;
    } else {
      var half := Power2(height - 1);
      XorPowerOfTwo(low / 2, half, height - 1);
      XorDoubles(low, top, low / 2, half, low % 2);
    }
  }

  lemma XorDoubles(low: int, top: int, x: int, y: int, bit: int)
    requires 0 <= bit <= 1 && low == 2 * x + bit && top == 2 * y
    ensures Xor(low, top) == 2 * Xor(x, y) + bit
  {
    Halves(x, bit);
    Halves(y, 0);
    ParityOfDoubles(x, y, bit);
    XorUnfolds(low, top);
  }

  lemma Halves(x: int, bit: int)
    requires 0 <= bit <= 1
    ensures (2 * x + bit) / 2 == x
  {
  }

  lemma ParityOfDoubles(x: int, y: int, bit: int)
    requires 0 <= bit <= 1
    ensures (2 * x + bit + 2 * y) % 2 == bit
  {
  }
}
