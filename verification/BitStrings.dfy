/** Big-endian bit strings of small numbers. */
module BitStrings {
  import opened Basics

  function Power2(n: nat): (p: nat)
    ensures p > 0
  {
    if n == 0 then 1 else 2 * Power2(n - 1)
  }

  lemma {:induction false} Power2Grows(n: nat, m: nat)
    requires n <= m
    ensures Power2(n) <= Power2(m)
  {
    if n < m {
      Power2Grows(n, m - 1);
    }
  }

  lemma {:induction false} Power2Adds(n: nat, m: nat)
    ensures Power2(n + m) == Power2(n) * Power2(m)
  {
    if n > 0 {
      Power2Adds(n - 1, m);
    }
  }

  /** The low n bits of v, most significant first. */
  function BitsOf(v: int, n: nat): (bits: seq<bool>)
    ensures |bits| == n
    decreases n, v
  {
    if n == 0 then [] else BitsOf(v / 2, n - 1) + [v % 2 == 1]
  }

  function Zeros(n: nat): seq<bool> {
    seq(n, i => false)
  }

  /** The number a bit string denotes. */
  function NumberOf(bits: seq<bool>): (v: nat)
    ensures v < Power2(|bits|)
  {
    if bits == [] then 0 else 2 * NumberOf(bits[..|bits| - 1]) + if bits[|bits| - 1] then 1 else 0
  }

  lemma {:induction false} BitsOfNumber(bits: seq<bool>)
    ensures BitsOf(NumberOf(bits), |bits|) == bits
  {
    if bits != [] {
      var front, last := bits[..|bits| - 1], bits[|bits| - 1];
      BitsOfNumber(front);
      AppendBit(NumberOf(front), last, |front|);
      assert bits == front + [last];
    }
  }

  lemma AppendBit(v: nat, bit: bool, n: nat)
    ensures BitsOf(2 * v + if bit then 1 else 0, n + 1) == BitsOf(v, n) + [bit]
  {
  }

  lemma {:induction false} NumberOfBits(v: nat, n: nat)
    requires v < Power2(n)
    ensures NumberOf(BitsOf(v, n)) == v
  {
    if n > 0 {
      NumberOfBits(v / 2, n - 1);
      assert BitsOf(v, n)[..n - 1] == BitsOf(v / 2, n - 1);
    }
  }

  /** The C++ shift v >> n of an unsigned number. */
  function ShiftRight(v: nat, n: nat): nat
    decreases n, v
  {
    if n == 0 then v else ShiftRight(v / 2, n - 1)
  }

  /** The C++ mask v & ((1 << n) - 1) of an unsigned number. */
  function LowBits(v: nat, n: nat): (low: nat)
    ensures low < Power2(n)
    decreases n, v
  {
    if n == 0 then 0 else 2 * LowBits(v / 2, n - 1) + v % 2
  }

  /** A shift and a mask cut the bits in two. */
  lemma {:induction false} ShiftCutsBits(v: nat, n: nat, m: nat)
    requires v < Power2(m + n)
    ensures ShiftRight(v, n) < Power2(m)
    ensures BitsOf(v, m + n) == BitsOf(ShiftRight(v, n), m) + BitsOf(LowBits(v, n), n)
    decreases n, v
  {
    if n > 0 {
      ShiftCutsBits(v / 2, n - 1, m);
    }
  }

  lemma CutAt2(v: nat, high: nat, low: nat, n: nat)
    requires v == high * 4 + low && low < 4
    ensures BitsOf(v, n + 2) == BitsOf(high, n) + BitsOf(low, 2)
  {
    CutAt1(v, high * 2 + low / 2, low % 2, n + 1);
    CutAt1(high * 2 + low / 2, high, low / 2, n);
    CutAt1(low, low / 2, low % 2, 1);
    ConcatAssociates(BitsOf(high, n), BitsOf(low / 2, 1), BitsOf(low % 2, 1));
  }

  lemma CutAt1(v: nat, high: nat, low: nat, n: nat)
    requires v == high * 2 + low && low < 2
    ensures BitsOf(v, n + 1) == BitsOf(high, n) + BitsOf(low, 1)
  {
    assert BitsOf(low, 0) == [];
  }

  lemma CutAt4(v: nat, high: nat, low: nat, n: nat)
    requires v == high * 16 + low && low < 16
    ensures BitsOf(v, n + 4) == BitsOf(high, n) + BitsOf(low, 4)
  {
    CutAt2(v, high * 4 + low / 4, low % 4, n + 2);
    CutAt2(high * 4 + low / 4, high, low / 4, n);
    CutAt2(low, low / 4, low % 4, 2);
    ConcatAssociates(BitsOf(high, n), BitsOf(low / 4, 2), BitsOf(low % 4, 2));
  }

  lemma CutAt6(v: nat, high: nat, low: nat, n: nat)
    requires v == high * 64 + low && low < 64
    ensures BitsOf(v, n + 6) == BitsOf(high, n) + BitsOf(low, 6)
  {
    CutAt4(v, high * 4 + low / 16, low % 16, n + 2);
    CutAt2(high * 4 + low / 16, high, low / 16, n);
    CutAt4(low, low / 16, low % 16, 2);
    ConcatAssociates(BitsOf(high, n), BitsOf(low / 16, 2), BitsOf(low % 16, 4));
  }

  lemma {:induction false} BitsOfZero(n: nat)
    ensures BitsOf(0, n) == Zeros(n)
  {
    if n > 0 {
      BitsOfZero(n - 1);
      assert Zeros(n) == Zeros(n - 1) + [false];
    }
  }

  lemma {:induction false} OnlyZeroHasZeroBits(v: nat, n: nat)
    requires v < Power2(n)
    ensures v == 0 <==> BitsOf(v, n) == Zeros(n)
  {
    BitsOfZero(n);
    NumberOfBits(v, n);
    NumberOfBits(0, n);
  }

  // ---- Strings of n-bit digits ----

  predicate DigitsFit(digits: seq<int>, n: nat) {
    forall i :: 0 <= i < |digits| ==> 0 <= digits[i] < Power2(n)
  }

  function DigitBits(digits: seq<int>, n: nat): (bits: seq<bool>)
    ensures |bits| == n * |digits|
  {
    if digits == [] then [] else
    assert n * |digits| == n + n * (|digits| - 1);
    BitsOf(digits[0], n) + DigitBits(digits[1..], n)
  }

  lemma {:induction false} DigitBitsAppend(a: seq<int>, b: seq<int>, n: nat)
    ensures DigitBits(a + b, n) == DigitBits(a, n) + DigitBits(b, n)
  {
    if a == [] {
      assert a + b == b;
    } else {
      DigitBitsAppend(a[1..], b, n);
      assert (a + b)[1..] == a[1..] + b && (a + b)[0] == a[0];
      ConcatAssociates(BitsOf(a[0], n), DigitBits(a[1..], n), DigitBits(b, n));
    }
  }

  lemma ConcatAssociates<T>(a: seq<T>, b: seq<T>, c: seq<T>)
    ensures (a + b) + c == a + (b + c)
  {
  }

  /** The digits are determined by their bits. */
  lemma {:induction false} DigitBitsAreInjective(a: seq<int>, b: seq<int>, n: nat)
    requires DigitsFit(a, n) && DigitsFit(b, n) && |a| == |b| && DigitBits(a, n) == DigitBits(b, n)
    ensures a == b
  {
    if a != [] {
      assert BitsOf(a[0], n) == DigitBits(a, n)[..n] == DigitBits(b, n)[..n] == BitsOf(b[0], n);
      NumberOfBits(a[0], n);
      NumberOfBits(b[0], n);
      assert DigitBits(a[1..], n) == DigitBits(a, n)[n..] == DigitBits(b, n)[n..] == DigitBits(b[1..], n);
      DigitBitsAreInjective(a[1..], b[1..], n);
      assert a == [a[0]] + a[1..] && b == [b[0]] + b[1..];
    }
  }

  /** The whole octets at the front of a bit string. */
  function Octets(bits: seq<bool>): (bytes: seq<Byte>)
    ensures |bytes| == |bits| / 8
  {
    if |bits| < 8 then [] else
    assert Power2(8) == 256;
    [NumberOf(bits[..8])] + Octets(bits[8..])
  }

  lemma {:induction false} OctetBits(bits: seq<bool>)
    ensures DigitBits(Octets(bits), 8) == bits[..8 * (|bits| / 8)]
  {
    if |bits| < 8 {
      assert Octets(bits) == [];
    } else {
      var bytes: seq<int> := Octets(bits);
      BitsOfNumber(bits[..8]);
      OctetBits(bits[8..]);
      assert bytes[1..] == Octets(bits[8..]);
      FirstOctet(bits, 8 * (|bits[8..]| / 8));
    }
  }

  lemma FirstOctet(bits: seq<bool>, n: nat)
    requires 8 <= |bits| && 8 + n <= |bits|
    ensures bits[..8] + bits[8..][..n] == bits[..8 + n]
  {
  }

  lemma BytesFit(bytes: seq<Byte>)
    ensures DigitsFit(bytes, 8)
  {
    assert Power2(8) == 256;
  }

  /** Octets is the inverse of writing bytes as bits, whatever short tail follows. */
  lemma OctetsOfBits(bytes: seq<Byte>, tail: seq<bool>)
    requires |tail| < 8
    ensures Octets(DigitBits(bytes, 8) + tail) == bytes
  {
    var body := DigitBits(bytes, 8);
    var bits := body + tail;
    assert |bits| == 8 * |bytes| + |tail|;
    assert |bits| / 8 == |bytes|;
    OctetBits(bits);
    assert bits[..|body|] == body;
    SameOctets(Octets(bits), bytes);
  }

  lemma SameOctets(a: seq<Byte>, b: seq<Byte>)
    requires |a| == |b| && DigitBits(a, 8) == DigitBits(b, 8)
    ensures a == b
  {
    BytesFit(a);
    BytesFit(b);
    DigitBitsAreInjective(a, b, 8);
  }
}
