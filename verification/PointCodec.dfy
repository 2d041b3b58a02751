/** PackPoint and UnpackNegative (Payload/Admission/Ed25519Verifier.cpp:317-368). */
module PointCodec {
  import opened Basics
  import opened Bits
  import opened Decompression
  import opened Digits
  import opened Edwards
  import opened FieldArithmetic
  import opened Modular
  import opened PointArithmetic
  import opened PrimeField

  /** Encodes the affine point: y with the parity of x in the top bit. */
  method PackPoint(output: array<Byte>, point: Point)
    requires output.Length == 32 && Separate(point) && InBounds(point)
    modifies output
    ensures Value(256, output[..]) == Encode(ToAffine(ED25519, Residues(point)))
  {
    var inverse := NewField();
    var x := NewField();
    var y := NewField();
    InvertField(inverse, point.z);
    ghost var i := FieldValue(inverse[..]);
    MultiplyField(x, point.x, inverse);
    MultiplyField(y, point.y, inverse);
    QuotientOfResidues(Values(point).x, Values(point).z, i, FieldValue(x[..]));
    QuotientOfResidues(Values(point).y, Values(point).z, i, FieldValue(y[..]));
    PackField(output, y);
    var parity := Parity(x);
    MixParity(output, parity);
  }

  /** The final step of PackPoint: the parity enters the top bit of the last byte. */
  method MixParity(output: array<Byte>, parity: int)
    requires output.Length == 32 && Value(256, output[..]) < P && (parity == 0 || parity == 1)
    modifies output
    ensures Value(256, output[..]) == old(Value(256, output[..])) + parity * Pow(2, 255)
  {
    ghost var low: seq<int> := output[..];
    CanonicalValueIsNatural(low);
    TopByteIsSmall(low, Value(256, low));
    MixedParity(output[31], parity);
    output[31] := Xor(output[31], parity * 128);
    assert output[..] == low[31 := low[31] + parity * 128];
    TopBitValue(low, parity);
  }

  lemma QuotientOfResidues(a: int, z: int, i: int, q: int)
    requires Congruent(i, Pow(z, P - 2), P) && Congruent(q, a * i, P)
    ensures q % P == ((a % P) * Inverse(z % P, P)) % P
  {
    RemainderIsCongruent(z, P);
    RemainderIsCongruent(a, P);
    PowCongruent(z % P, z, P - 2, P);
    RemainderIsCongruent(Pow(z % P, P - 2), P);
    CongruentMul(a % P, a, Inverse(z % P, P), i, P);
  }

  lemma TopByteIsSmall(bytes: seq<int>, v: int)
    requires |bytes| == 32 && Canonical(256, bytes) && Value(256, bytes) == v && 0 <= v < P
    ensures 0 <= bytes[31] < 128
  {
    assert bytes[..32] == bytes;
    ValueOfPrefixStep(256, bytes, 31);
    CanonicalValueIsBounded(256, bytes[..31]);
    TopWeight(31);
    TopDigitBelow(Value(256, bytes[..31]), bytes[31], Pow(256, 31));
  }

  lemma TopDigitBelow(low: int, top: int, w: int)
    requires low >= 0 && w > 0 && low + top * w < 128 * w
    ensures top < 128
  {
    if top >= 128 {
      ScaleInequality(128, top, w);
      assert false;
    }
  }

  /** 128 * 256^31 == 2^255; a variable exponent keeps the power folded. */
  lemma TopWeight(n: nat)
    requires n == 31
    ensures 128 * Pow(256, n) == P + 19
  {
    RadixValue();
    PowMultiplies(256, 2, 16);
    assert Pow(256, 2) == 65536;
    assert n + 1 == 2 * 16;
    assert Pow(256, n + 1) == 256 * Pow(256, n);
  }

  lemma MixedParity(low: int, parity: int)
    requires 0 <= low < 128 && (parity == 0 || parity == 1)
    ensures Xor(low, parity * 128) == low + parity * 128
  {
    if parity == 1 {
      XorTopBit(low);
    } else {
      XorZero(low);
    }
  }

  lemma TopBitValue(low: seq<int>, parity: int)
    requires |low| == 32
    ensures Value(256, low[31 := low[31] + parity * 128]) == Value(256, low) + parity * Pow(2, 255)
  {
    ValueOfUpdate(256, low, 31, low[31] + parity * 128);
    TopWeight(31);
    TwoTo255(255, 15);
    Associate(parity, 128, Pow(256, 31));
  }

  /** y^2 - 1 and d y^2 + 1 as limb vectors. */
  method Ratio(y: array<Limb>) returns (numerator: array<Limb>, denominator: array<Limb>)
    requires y.Length == 16 && Bounded(y[..], COORDINATE_BOUND)
    ensures fresh(numerator) && fresh(denominator)
    ensures Bounded(numerator[..], FACTOR_BOUND) && Bounded(denominator[..], FACTOR_BOUND)
    ensures Congruent(FieldValue(numerator[..]), U(FieldValue(y[..])), P)
    ensures Congruent(FieldValue(denominator[..]), V(ED25519, FieldValue(y[..])), P)
  {
    numerator := NewField();
    denominator := NewField();
    var one := OneConstant();
    var d := DConstant();
    ghost var v := FieldValue(y[..]);
    SquareField(numerator, y);
    ghost var squared := FieldValue(numerator[..]);
    MultiplyField(denominator, numerator, d);
    ghost var scaled := FieldValue(denominator[..]);
    SubtractField(numerator, numerator, one);
    AddField(denominator, one, denominator);
    CongruentSub(squared, v * v, 1, 1, P);
    CongruentMul(squared, v * v, D, D, P);
    CongruentAdd(1, 1, scaled, v * v * D, P);
  }

  /** den^7 num: the argument of the root exponentiation. */
  method RootArgument(numerator: array<Limb>, denominator: array<Limb>) returns (temporary: array<Limb>)
    requires numerator.Length == denominator.Length == 16
    requires Bounded(numerator[..], FACTOR_BOUND) && Bounded(denominator[..], FACTOR_BOUND)
    ensures fresh(temporary) && Settled(temporary[..])
    ensures var u, v := FieldValue(numerator[..]), FieldValue(denominator[..]);
            Congruent(FieldValue(temporary[..]), (v * v) * (v * v) * (v * v) * u * v, P)
  {
    temporary := NewField();
    var denominator2 := NewField();
    var denominator4 := NewField();
    var denominator6 := NewField();
    ghost var u, v := FieldValue(numerator[..]), FieldValue(denominator[..]);
    SquareField(denominator2, denominator);
    ghost var a2 := FieldValue(denominator2[..]);
    SquareField(denominator4, denominator2);
    ghost var a4 := FieldValue(denominator4[..]);
    MultiplyField(denominator6, denominator4, denominator2);
    ghost var a6 := FieldValue(denominator6[..]);
    MultiplyField(temporary, denominator6, numerator);
    ghost var a := FieldValue(temporary[..]);
    MultiplyField(temporary, temporary, denominator);
    ArgumentSteps(u, v, a2, a4, a6, a, FieldValue(temporary[..]));
  }

  lemma ArgumentSteps(u: int, v: int, a2: int, a4: int, a6: int, a: int, b: int)
    requires Congruent(a2, v * v, P) && Congruent(a4, a2 * a2, P) && Congruent(a6, a4 * a2, P)
    requires Congruent(a, a6 * u, P) && Congruent(b, a * v, P)
    ensures Congruent(b, (v * v) * (v * v) * (v * v) * u * v, P)
  {
    var v2 := v * v;
    CongruentMul(a2, v2, a2, v2, P);
    CongruentMul(a4, v2 * v2, a2, v2, P);
    CongruentMul(a6, v2 * v2 * v2, u, u, P);
    CongruentMul(a, v2 * v2 * v2 * u, v, v, P);
  }

  /** The candidate square root, written to x. */
  method WriteCandidate(x: array<Limb>, numerator: array<Limb>, denominator: array<Limb>)
    requires x.Length == numerator.Length == denominator.Length == 16 && x != numerator && x != denominator
    requires Bounded(numerator[..], FACTOR_BOUND) && Bounded(denominator[..], FACTOR_BOUND)
    modifies x
    ensures Settled(x[..])
    ensures Congruent(FieldValue(x[..]), CandidateOf(FieldValue(numerator[..]), FieldValue(denominator[..]), P), P)
  {
    var temporary := RootArgument(numerator, denominator);
    ghost var u, v, a := FieldValue(numerator[..]), FieldValue(denominator[..]), FieldValue(temporary[..]);
    Power2523(temporary, temporary);
    ghost var t := FieldValue(temporary[..]);
    MultiplyField(temporary, temporary, numerator);
    ghost var t1 := FieldValue(temporary[..]);
    MultiplyField(temporary, temporary, denominator);
    ghost var t2 := FieldValue(temporary[..]);
    MultiplyField(temporary, temporary, denominator);
    ghost var t3 := FieldValue(temporary[..]);
    MultiplyField(x, temporary, denominator);
    CandidateSteps(u, v, a, t, t1, t2, t3, FieldValue(x[..]));
  }

  lemma CandidateSteps(u: int, v: int, a: int, t: int, t1: int, t2: int, t3: int, x: int)
    requires Congruent(a, (v * v) * (v * v) * (v * v) * u * v, P)
    requires Congruent(t, Pow(a, (P - 5) / 8), P) && Congruent(t1, t * u, P) && Congruent(t2, t1 * v, P)
    requires Congruent(t3, t2 * v, P) && Congruent(x, t3 * v, P)
    ensures Congruent(x, CandidateOf(u, v, P), P)
  {
    var b := (v * v) * (v * v) * (v * v) * u * v;
    PowCongruent(a, b, (P - 5) / 8, P);
    var s := Pow(b, (P - 5) / 8);
    CongruentMul(t, s, u, u, P);
    CongruentMul(t1, s * u, v, v, P);
    CongruentMul(t2, s * u * v, v, v, P);
    CongruentMul(t3, s * u * v * v, v, v, P);
  }

  /** x^2 den = num, compared as packed representatives. */
  method SatisfiesCurve(x: array<Limb>, numerator: array<Limb>, denominator: array<Limb>) returns (ok: bool)
    requires x.Length == numerator.Length == denominator.Length == 16
    requires Settled(x[..]) && Bounded(numerator[..], FACTOR_BOUND) && Bounded(denominator[..], FACTOR_BOUND)
    ensures ok <==>
            Congruent(FieldValue(x[..]) * FieldValue(x[..]) * FieldValue(denominator[..]), FieldValue(numerator[..]), P)
  {
    var check := NewField();
    ghost var r, v := FieldValue(x[..]), FieldValue(denominator[..]);
    SquareField(check, x);
    ghost var squared := FieldValue(check[..]);
    MultiplyField(check, check, denominator);
    CongruentMul(squared, r * r, v, v, P);
    ok := EqualField(check, numerator);
  }

  lemma CheckMeansIsX(r: int, y: int, u: int, v: int)
    requires Congruent(u, U(y), P) && Congruent(v, V(ED25519, y), P)
    ensures Congruent(r * r * v, u, P) <==> IsX(ED25519, r, y)
  {
    CongruentMul(r * r, r * r, v, V(ED25519, y), P);
  }

  /** The root, corrected by kI if the first check fails; ok says whether the second check holds. */
  method FindRoot(x: array<Limb>, y: array<Limb>) returns (ok: bool)
    requires x.Length == y.Length == 16 && x != y && Bounded(y[..], COORDINATE_BOUND)
    modifies x
    ensures Settled(x[..])
    ensures Congruent(FieldValue(x[..]), CorrectedRoot(ED25519, FieldValue(y[..])), P)
    ensures ok <==> IsX(ED25519, CorrectedRoot(ED25519, FieldValue(y[..])), FieldValue(y[..]))
  {
    ghost var w := FieldValue(y[..]);
    var numerator, denominator := Ratio(y);
    WriteCandidate(x, numerator, denominator);
    ghost var u, v, first := FieldValue(numerator[..]), FieldValue(denominator[..]), FieldValue(x[..]);
    CandidateOfCongruent(u, U(w), v, V(ED25519, w), P);
    XDependsOnResidue(ED25519, first, Candidate(ED25519, w), w);
    CheckMeansIsX(first, w, u, v);
    var direct := SatisfiesCurve(x, numerator, denominator);
    if !direct {
      var i := IConstant();
      MultiplyField(x, x, i);
      CongruentMul(first, Candidate(ED25519, w), I, I, P);
    }
    ghost var root := FieldValue(x[..]);
    XDependsOnResidue(ED25519, root, CorrectedRoot(ED25519, w), w);
    CheckMeansIsX(root, w, u, v);
    ok := SatisfiesCurve(x, numerator, denominator);
  }

  /** The y coordinate that a 32-byte encoding denotes: 255 bits, not required to be below P. */
  function EncodedY(packed: seq<int>): int {
    Value(256, packed) % (P + 19)
  }

  function EncodedSign(packed: seq<int>): int
    requires |packed| == 32
  {
    packed[31] / 128
  }

  /** Decodes a point and negates it, or reports that no x exists. */
  method UnpackNegative(output: Point, packed: array<Byte>) returns (ok: bool)
    requires Separate(output) && packed.Length == 32
    modifies Arrays(output)
    ensures ok <==> IsX(ED25519, CorrectedRoot(ED25519, EncodedY(packed[..])), EncodedY(packed[..]))
    ensures ok ==> InBounds(output) &&
                   Residues(output) == NegativePoint(ED25519, EncodedY(packed[..]), EncodedSign(packed[..]))
  {
    ghost var y, sign := EncodedY(packed[..]), EncodedSign(packed[..]);
    var zero := NewField();
    var one := OneConstant();
    CopyField(output.z, one);
    UnpackField(output.y, packed);
    ok := FindRoot(output.x, output.y);
    if !ok {
      return;
    }
    ghost var root := FieldValue(output.x[..]);
    var parity := Parity(output.x);
    if parity == (packed[31] as int) / 128 {
      SubtractField(output.x, zero, output.x);
    }
    SignedRootOfCongruent(root, CorrectedRoot(ED25519, y), sign, FieldValue(output.x[..]));
    ghost var x := FieldValue(output.x[..]);
    MultiplyField(output.t, output.x, output.y);
    RemainderIsCongruent(x, P);
    CongruentMul(x % P, x, y, y, P);
  }

  lemma SignedRootOfCongruent(root: int, exact: int, sign: int, x: int)
    requires Congruent(root, exact, P)
    requires x == if (root % P) % 2 == sign then 0 - root else root
    ensures x % P == SignedRoot(ED25519, exact, sign)
  {
    CongruentSub(0, 0, root, exact, P);
  }
}
