/** Points as four limb vectors: AddPoints, ScalarMultiply and ScalarBase
    (Payload/Admission/Ed25519Verifier.cpp:24-40 and 250-315). */
module PointArithmetic {
  import opened Basics
  import opened Digits
  import opened Edwards
  import opened EdwardsGroup
  import opened FieldArithmetic
  import opened Ladder
  import opened Modular
  import opened NonSquareConstant
  import opened PrimeField

  const D: int := 0x5203_6cee_2b6f_fe73_8cc7_4079_7779_e898_0070_0a4d_4141_d8ab_75eb_4dca_1359_78a3
  const I: int := 0x2b83_2480_4fc1_df0b_2b4d_0099_3dfb_d7a7_2f43_1806_ad2f_e478_c4ee_1b27_4a0e_a0b0

  /** edwards25519: the modulus, d and a square root of -1. */
  const ED25519: Curve := RawCurve(P, D, I)

  /** A table entry: sixteen unsigned bits. */
  type Word = x: int | 0 <= x < 65536

  const ONE_LIMBS: seq<Word> := [1, 0, 0, 0, 0, 0, 0, 0, 0, 0, 0, 0, 0, 0, 0, 0]
  const D_LIMBS: seq<Word> :=
    [0x78a3, 0x1359, 0x4dca, 0x75eb, 0xd8ab, 0x4141, 0x0a4d, 0x0070,
     0xe898, 0x7779, 0x4079, 0x8cc7, 0xfe73, 0x2b6f, 0x6cee, 0x5203]
  const D2_LIMBS: seq<Word> :=
    [0xf159, 0x26b2, 0x9b94, 0xebd6, 0xb156, 0x8283, 0x149a, 0x00e0,
     0xd130, 0xeef3, 0x80f2, 0x198e, 0xfce7, 0x56df, 0xd9dc, 0x2406]
  const X_LIMBS: seq<Word> :=
    [0xd51a, 0x8f25, 0x2d60, 0xc956, 0xa7b2, 0x9525, 0xc760, 0x692c,
     0xdc5c, 0xfdd6, 0xe231, 0xc0a4, 0x53fe, 0xcd6e, 0x36d3, 0x2169]
  const Y_LIMBS: seq<Word> :=
    [0x6658, 0x6666, 0x6666, 0x6666, 0x6666, 0x6666, 0x6666, 0x6666,
     0x6666, 0x6666, 0x6666, 0x6666, 0x6666, 0x6666, 0x6666, 0x6666]
  const I_LIMBS: seq<Word> :=
    [0xa0b0, 0x4a0e, 0x1b27, 0xc4ee, 0xe478, 0xad2f, 0x1806, 0x2f43,
     0xd7a7, 0x3dfb, 0x0099, 0x2b4d, 0xdf0b, 0x4fc1, 0x2480, 0x2b83]

  /** The base point of section 5.1 of RFC 8032. */
  const BASE_X: int := 0x2169_36d3_cd6e_53fe_c0a4_e231_fdd6_dc5c_692c_c760_9525_a7b2_c956_2d60_8f25_d51a
  const BASE_Y: int := 0x6666_6666_6666_6666_6666_6666_6666_6666_6666_6666_6666_6666_6666_6666_6666_6658

  lemma OneDenotes()
    ensures |ONE_LIMBS| == 16 && FieldValue(ONE_LIMBS) == 1
  {
    FieldValueIsHorner(ONE_LIMBS);
  }

  lemma DDenotes()
    ensures |D_LIMBS| == 16 && FieldValue(D_LIMBS) == D
  {
    FieldValueIsHorner(D_LIMBS);
  }

  lemma D2Denotes()
    ensures |D2_LIMBS| == 16 && FieldValue(D2_LIMBS) == 2 * D - P
  {
    FieldValueIsHorner(D2_LIMBS);
  }

  lemma XDenotes()
    ensures |X_LIMBS| == 16 && FieldValue(X_LIMBS) == BASE_X
  {
    FieldValueIsHorner(X_LIMBS);
  }

  lemma YDenotes()
    ensures |Y_LIMBS| == 16 && FieldValue(Y_LIMBS) == BASE_Y
  {
    FieldValueIsHorner(Y_LIMBS);
  }

  lemma IDenotes()
    ensures |I_LIMBS| == 16 && FieldValue(I_LIMBS) == I
  {
    FieldValueIsHorner(I_LIMBS);
  }

  /** The constants of RFC 8032: d = -121665/121666, i^2 = -1, and the base point
      has y = 4/5 and lies on the curve. */
  lemma ConstantsAreRight()
    ensures Congruent(121666 * D, -121665, P)
    ensures Congruent(I * I, -1, P)
    ensures Congruent(5 * BASE_Y, 4, P)
    ensures Congruent(BASE_Y * BASE_Y - BASE_X * BASE_X, 1 + D * ((BASE_X * BASE_X) * (BASE_Y * BASE_Y)), P)
    ensures 0 <= BASE_X < P && 0 <= BASE_Y < P && BASE_X % 2 == 0
  {
    DIsRight();
    IIsRight();
    BaseYIsRight();
    BaseIsRight();
  }

  lemma DIsRight()
    ensures Congruent(121666 * D, -121665, P)
  {
    ConstantCongruent(121666 * D, -121665);
  }

  lemma IIsRight()
    ensures Congruent(I * I, -1, P)
  {
    ConstantCongruent(I * I, -1);
  }

  lemma BaseYIsRight()
    ensures Congruent(5 * BASE_Y, 4, P)
  {
    ConstantCongruent(5 * BASE_Y, 4);
  }

  lemma BaseIsRight()
    ensures Congruent(BASE_Y * BASE_Y - BASE_X * BASE_X, 1 + D * ((BASE_X * BASE_X) * (BASE_Y * BASE_Y)), P)
  {
    ConstantCongruent(BASE_Y * BASE_Y - BASE_X * BASE_X, 1 + D * ((BASE_X * BASE_X) * (BASE_Y * BASE_Y)));
  }

  lemma ConstantCongruent(a: int, b: int)
    requires (a - b) % P == 0
    ensures Congruent(a, b, P)
  {
    CongruentFromDifference(a, b, (a - b) / P, P);
  }

  /** A square root of 2 d. */
  const TWICE_D_ROOT: int := 0x0553_1cdb_02f5_3976_ef34_bf39_cfb5_4948_2449_c01e_5e3e_a252_a3b8_85e4_6ebd_673d

  /** Primality of P is the only hypothesis that completeness of the addition law needs. */
  lemma Ed25519IsComplete()
    requires PrimeModulus(P)
    ensures CurveHypotheses(ED25519)
  {
    IIsRight();
    ConstantCongruent(TWICE_D_ROOT * TWICE_D_ROOT, 2 * D);
    CompleteFromRoot(ED25519, TWICE_D_ROOT, (P - 5) / 8);
  }

  // ---- Points in memory ----

  /** Four limb vectors, in the order X, Y, Z, T of the C++ array. */
  datatype Point = Point(x: array<Limb>, y: array<Limb>, z: array<Limb>, t: array<Limb>)

  predicate Separate(p: Point) {
    p.x.Length == p.y.Length == p.z.Length == p.t.Length == 16 &&
    p.x != p.y && p.x != p.z && p.x != p.t && p.y != p.z && p.y != p.t && p.z != p.t
  }

  function Arrays(p: Point): set<object> {
    {p.x, p.y, p.z, p.t}
  }

  /** The bound on point coordinates that every caller meets: what two carries leave, with either sign. */
  const COORDINATE_BOUND := 65573

  ghost predicate InBounds(p: Point)
    reads Arrays(p)
  {
    Bounded(p.x[..], COORDINATE_BOUND) && Bounded(p.y[..], COORDINATE_BOUND) &&
    Bounded(p.z[..], COORDINATE_BOUND) && Bounded(p.t[..], COORDINATE_BOUND)
  }

  ghost function Values(p: Point): Quad
    reads Arrays(p)
  {
    Quad(FieldValue(p.x[..]), FieldValue(p.y[..]), FieldValue(p.z[..]), FieldValue(p.t[..]))
  }

  /** The coordinates of a point modulo P. */
  ghost function Residues(p: Point): Quad
    reads Arrays(p)
  {
    Reduce(ED25519, Values(p))
  }

  method NewField() returns (f: array<Limb>)
    ensures fresh(f) && f.Length == 16 && f[..] == seq(16, i => 0) && FieldValue(f[..]) == 0
  {
    f := new Limb[16](i => 0);
    ValueOfZeros(65536, f[..]);
  }

  /** A constant table as an array. */
  method FieldConstant(limbs: seq<Word>) returns (f: array<Limb>)
    requires |limbs| == 16
    ensures fresh(f) && f[..] == limbs && Bounded(f[..], COORDINATE_BOUND)
  {
    f := new Limb[16](i => 0);
    for index := 0 to 16
      invariant forall j :: 0 <= j < index ==> f[j] == limbs[j]
    {
      f[index] := limbs[index];
    }
  }

  method OneConstant() returns (f: array<Limb>)
    ensures fresh(f) && f.Length == 16 && Bounded(f[..], COORDINATE_BOUND) && FieldValue(f[..]) == 1
  {
    OneDenotes();
    f := FieldConstant(ONE_LIMBS);
  }

  method DConstant() returns (f: array<Limb>)
    ensures fresh(f) && f.Length == 16 && Bounded(f[..], COORDINATE_BOUND) && FieldValue(f[..]) == D
  {
    DDenotes();
    f := FieldConstant(D_LIMBS);
  }

  method D2Constant() returns (f: array<Limb>)
    ensures fresh(f) && f.Length == 16 && Bounded(f[..], COORDINATE_BOUND) && FieldValue(f[..]) == 2 * D - P
  {
    D2Denotes();
    f := FieldConstant(D2_LIMBS);
  }

  method XConstant() returns (f: array<Limb>)
    ensures fresh(f) && f.Length == 16 && Bounded(f[..], COORDINATE_BOUND) && FieldValue(f[..]) == BASE_X
  {
    XDenotes();
    f := FieldConstant(X_LIMBS);
  }

  method YConstant() returns (f: array<Limb>)
    ensures fresh(f) && f.Length == 16 && Bounded(f[..], COORDINATE_BOUND) && FieldValue(f[..]) == BASE_Y
  {
    YDenotes();
    f := FieldConstant(Y_LIMBS);
  }

  method IConstant() returns (f: array<Limb>)
    ensures fresh(f) && f.Length == 16 && Bounded(f[..], COORDINATE_BOUND) && FieldValue(f[..]) == I
  {
    IDenotes();
    f := FieldConstant(I_LIMBS);
  }

  /** (left difference) * (right difference): the A of the formulas. */
  method DifferenceProduct(l1: array<Limb>, l0: array<Limb>, r1: array<Limb>, r0: array<Limb>) returns (a: array<Limb>)
    requires l1.Length == l0.Length == r1.Length == r0.Length == 16
    requires Bounded(l1[..], COORDINATE_BOUND) && Bounded(l0[..], COORDINATE_BOUND)
    requires Bounded(r1[..], COORDINATE_BOUND) && Bounded(r0[..], COORDINATE_BOUND)
    ensures fresh(a) && Settled(a[..])
    ensures Congruent(FieldValue(a[..]),
      (FieldValue(l1[..]) - FieldValue(l0[..])) * (FieldValue(r1[..]) - FieldValue(r0[..])), P)
  {
    a := NewField();
    var temporary := NewField();
    SubtractField(a, l1, l0);
    SubtractField(temporary, r1, r0);
    MultiplyField(a, a, temporary);
  }

  /** (left sum) * (right sum): the B of the formulas. */
  method SumProduct(l0: array<Limb>, l1: array<Limb>, r0: array<Limb>, r1: array<Limb>) returns (b: array<Limb>)
    requires l1.Length == l0.Length == r1.Length == r0.Length == 16
    requires Bounded(l1[..], COORDINATE_BOUND) && Bounded(l0[..], COORDINATE_BOUND)
    requires Bounded(r1[..], COORDINATE_BOUND) && Bounded(r0[..], COORDINATE_BOUND)
    ensures fresh(b) && Settled(b[..])
    ensures Congruent(FieldValue(b[..]),
      (FieldValue(l0[..]) + FieldValue(l1[..])) * (FieldValue(r0[..]) + FieldValue(r1[..])), P)
  {
    b := NewField();
    var temporary := NewField();
    AddField(b, l0, l1);
    AddField(temporary, r0, r1);
    MultiplyField(b, b, temporary);
  }

  /** T1 * T2 * 2d: the C of the formulas. */
  method ScaledProduct(l3: array<Limb>, r3: array<Limb>) returns (c: array<Limb>)
    requires l3.Length == r3.Length == 16
    requires Bounded(l3[..], COORDINATE_BOUND) && Bounded(r3[..], COORDINATE_BOUND)
    ensures fresh(c) && Settled(c[..])
    ensures Congruent(FieldValue(c[..]), FieldValue(l3[..]) * FieldValue(r3[..]) * (2 * D), P)
  {
    c := NewField();
    var d2 := D2Constant();
    ghost var l, r := FieldValue(l3[..]), FieldValue(r3[..]);
    MultiplyField(c, l3, r3);
    ghost var product := FieldValue(c[..]);
    MultiplyField(c, c, d2);
    CongruentFromDifference(2 * D - P, 2 * D, -1, P);
    CongruentMul(product, l * r, 2 * D - P, 2 * D, P);
  }

  /** 2 * Z1 * Z2: the D of the formulas. The doubling is `AddField(d, d, d)`. */
  method DoubledProductOf(l2: array<Limb>, r2: array<Limb>) returns (d: array<Limb>)
    requires l2.Length == r2.Length == 16
    requires Bounded(l2[..], COORDINATE_BOUND) && Bounded(r2[..], COORDINATE_BOUND)
    ensures fresh(d) && Bounded(d[..], 2 * COORDINATE_BOUND)
    ensures Congruent(FieldValue(d[..]), 2 * (FieldValue(l2[..]) * FieldValue(r2[..])), P)
  {
    d := NewField();
    ghost var l, r := FieldValue(l2[..]), FieldValue(r2[..]);
    MultiplyField(d, l2, r2);
    ghost var product := FieldValue(d[..]);
    AddField(d, d, d);
    CongruentMul(2, 2, product, l * r, P);
  }

  /** left := left + right. The call `AddPoints(output, output)` is allowed: every input is read first. */
  method AddPoints(left: Point, right: Point)
    requires Separate(left) && Separate(right) && (left == right || Arrays(left) !! Arrays(right))
    requires InBounds(left) && InBounds(right)
    modifies Arrays(left)
    ensures Residues(left) == Sum(ED25519, old(Residues(left)), old(Residues(right)))
    ensures InBounds(left)
  {
    ghost var l, r := Values(left), Values(right);
    var a := DifferenceProduct(left.y, left.x, right.y, right.x);
    var b := SumProduct(left.x, left.y, right.x, right.y);
    var c := ScaledProduct(left.t, right.t);
    var d := DoubledProductOf(left.z, right.z);
    ghost var va, vb, vc, vd := FieldValue(a[..]), FieldValue(b[..]), FieldValue(c[..]), FieldValue(d[..]);
    WriteSum(left, a, b, c, d);
    SumFromParts(ED25519, l, r, va, vb, vc, vd, Values(left));
    SumOfReduced(ED25519, l, r);
  }

  /** The second half of AddPoints: E, F, G, H and the four products. */
  method WriteSum(left: Point, a: array<Limb>, b: array<Limb>, c: array<Limb>, d: array<Limb>)
    requires Separate(left) && a.Length == b.Length == c.Length == d.Length == 16
    requires {a, b, c, d} !! Arrays(left)
    requires Settled(a[..]) && Settled(b[..]) && Settled(c[..]) && Bounded(d[..], 2 * COORDINATE_BOUND)
    modifies Arrays(left)
    ensures InBounds(left)
    ensures var va, vb := old(FieldValue(a[..])), old(FieldValue(b[..]));
            var vc, vd := old(FieldValue(c[..])), old(FieldValue(d[..]));
            Congruent(FieldValue(left.x[..]), (vb - va) * (vd - vc), P) &&
            Congruent(FieldValue(left.y[..]), (vb + va) * (vd + vc), P) &&
            Congruent(FieldValue(left.z[..]), (vd + vc) * (vd - vc), P) &&
            Congruent(FieldValue(left.t[..]), (vb - va) * (vb + va), P)
  {
    var e, h := DifferenceAndSum(b, a);
    var f, g := DifferenceAndSum(d, c);
    MultiplyField(left.x, e, f);
    MultiplyField(left.y, h, g);
    MultiplyField(left.z, g, f);
    MultiplyField(left.t, e, h);
  }

  /** E = B - A with H = B + A, or F = D - C with G = D + C. */
  method DifferenceAndSum(u: array<Limb>, v: array<Limb>) returns (difference: array<Limb>, sum: array<Limb>)
    requires u.Length == v.Length == 16 && Bounded(u[..], 2 * COORDINATE_BOUND) && Settled(v[..])
    ensures fresh(difference) && fresh(sum) && difference != sum
    ensures Bounded(difference[..], FACTOR_BOUND) && Bounded(sum[..], FACTOR_BOUND)
    ensures FieldValue(difference[..]) == FieldValue(u[..]) - FieldValue(v[..])
    ensures FieldValue(sum[..]) == FieldValue(u[..]) + FieldValue(v[..])
  {
    difference := NewField();
    sum := NewField();
    SubtractField(difference, u, v);
    AddField(sum, u, v);
  }

  /** The four coordinates are exchanged together. */
  method SwapPoints(left: Point, right: Point, choice: int)
    requires Separate(left) && Separate(right) && Arrays(left) !! Arrays(right)
    requires choice == 0 || choice == 1
    requires InBounds(left) && InBounds(right)
    modifies Arrays(left), Arrays(right)
    ensures Residues(left) == if choice == 1 then old(Residues(right)) else old(Residues(left))
    ensures Residues(right) == if choice == 1 then old(Residues(left)) else old(Residues(right))
    ensures InBounds(left) && InBounds(right)
  {
    ConditionalSwap(left.x, right.x, choice);
    ConditionalSwap(left.y, right.y, choice);
    ConditionalSwap(left.z, right.z, choice);
    ConditionalSwap(left.t, right.t, choice);
  }

  /** One round of the ladder loop. */
  method LadderRound(output: Point, point: Point, choice: int)
    requires Separate(output) && Separate(point) && Arrays(output) !! Arrays(point)
    requires choice == 0 || choice == 1
    requires InBounds(output) && InBounds(point)
    modifies Arrays(output), Arrays(point)
    ensures InBounds(output) && InBounds(point)
    ensures LadderState(Residues(output), Residues(point)) ==
            Step(AddOn(ED25519), LadderState(old(Residues(output)), old(Residues(point))), choice)
  {
    SwapPoints(output, point, choice);
    AddPoints(point, output);
    AddPoints(output, output);
    SwapPoints(output, point, choice);
  }

  /** Bit b of a little-endian byte string. */
  lemma ScalarBit(bytes: seq<int>, b: nat)
    requires Canonical(256, bytes) && b / 8 < |bytes|
    ensures (Value(256, bytes) / Pow(2, b)) % 2 == (bytes[b / 8] / Pow(2, b % 8)) % 2
  {
    var k, j := b / 8, b % 8;
    TopBytes(bytes, k);
    BitPosition(k, j, b);
    CanonicalValueIsNatural(bytes);
    DivideTwice(Value(256, bytes), Pow(256, k), Pow(2, j));
    BitOfByte(bytes[k], Value(256, bytes[k + 1..]), j);
  }

  lemma CanonicalValueIsNatural(bytes: seq<int>)
    requires Canonical(256, bytes)
    ensures Value(256, bytes) >= 0
  {
    CanonicalValueIsBounded(256, bytes);
  }

  lemma BitPosition(k: nat, j: nat, b: nat)
    requires b == 8 * k + j
    ensures Pow(2, b) == Pow(256, k) * Pow(2, j)
  {
    PowMultiplies(2, 8, k);
    assert Pow(2, 8) == 256;
    PowAdds(2, 8 * k, j);
  }

  lemma TopBytes(bytes: seq<int>, k: nat)
    requires Canonical(256, bytes) && k < |bytes|
    ensures Value(256, bytes) / Pow(256, k) == bytes[k] + 256 * Value(256, bytes[k + 1..])
  {
    ValueOfSplit(256, bytes, k);
    assert Value(256, bytes[k..]) == bytes[k] + 256 * Value(256, bytes[k + 1..]) by {
      ValueOfSuffixStep(256, bytes, k);
    }
    CanonicalValueIsBounded(256, bytes[..k]);
    QuotientByWeight(Value(256, bytes), Value(256, bytes[..k]), Pow(256, k), Value(256, bytes[k..]));
  }

  lemma QuotientByWeight(v: int, low: int, w: int, high: int)
    requires v == low + w * high && 0 <= low < w
    ensures v / w == high
  {
    RemainderIsUnique(v, high, low, w);
  }

  lemma DivideTwice(v: int, a: int, b: int)
    requires v >= 0 && a > 0 && b > 0
    ensures a * b > 0 && v / (a * b) == (v / a) / b
  {
    var q, r := v / a, v % a;
    var q', r' := q / b, q % b;
    assert v == q' * (a * b) + (r' * a + r) by {
      assert q * a == (q' * b + r') * a;
      Distribute(a, q' * b, r');
      Associate(q', b, a);
      assert b * a == a * b;
    }
    ScaleInequality(r', b - 1, a);
    Distribute(a, b, -1);
    ScaleInequality(0, r', a);
    RemainderIsUnique(v, q', r' * a + r, a * b);
  }

  lemma BitOfByte(byte: int, high: int, j: nat)
    requires j < 8
    ensures ((byte + 256 * high) / Pow(2, j)) % 2 == (byte / Pow(2, j)) % 2
  {
    PowAdds(2, 7 - j, j);
    assert Pow(2, 7) == 128;
    ShiftedByte(byte, high, Pow(2, j), Pow(2, 7 - j));
  }

  lemma ShiftedByte(byte: int, high: int, w: int, half: int)
    requires w > 0 && half * w == 128
    ensures ((byte + 256 * high) / w) % 2 == (byte / w) % 2
  {
    var k := 2 * (half * high);
    assert 256 * high == k * w by {
      Associate(half, high, w);
      Associate(half, w, high);
      assert high * w == w * high;
      Associate(2, half * high, w);
    }
    QuotientOfShift(byte, k, w);
  }

  lemma QuotientOfShift(a: int, k: int, w: int)
    requires w > 0
    ensures (a + k * w) / w == a / w + k
  {
    Distribute(w, a / w, k);
    RemainderIsUnique(a + k * w, a / w + k, a % w, w);
  }

  /** A scalar prefix grows by one bit. */
  lemma PrefixGrows(v: int, b: nat)
    requires v >= 0
    ensures v / Pow(2, b + 1) == (v / Pow(2, b)) / 2
  {
    DivideTwice(v, Pow(2, b), 2);
    assert Pow(2, b + 1) == 2 * Pow(2, b);
  }

  method CopyPoint(source: Point) returns (copy: Point)
    requires Separate(source) && InBounds(source)
    ensures Separate(copy) && fresh(Arrays(copy)) && InBounds(copy)
    ensures Residues(copy) == Residues(source)
  {
    var x := NewField();
    var y := NewField();
    var z := NewField();
    var t := NewField();
    CopyField(x, source.x);
    CopyField(y, source.y);
    CopyField(z, source.z);
    CopyField(t, source.t);
    copy := Point(x, y, z, t);
  }

  method SetIdentity(output: Point)
    requires Separate(output)
    modifies Arrays(output)
    ensures InBounds(output) && Residues(output) == IDENTITY
  {
    var zero := NewField();
    var one := OneConstant();
    assert Bounded(zero[..], COORDINATE_BOUND);
    CopyField(output.x, zero);
    CopyField(output.y, one);
    CopyField(output.z, one);
    CopyField(output.t, zero);
  }

  /** output := [scalar] source, exactly as the ladder computes it in extended coordinates. */
  method ScalarMultiply(output: Point, source: Point, scalar: array<Byte>)
    requires Separate(output) && Separate(source) && InBounds(source) && scalar.Length == 32
    modifies Arrays(output)
    ensures InBounds(output)
    ensures Residues(output) ==
            LadderOutput(ED25519, old(Residues(source)), Value(256, scalar[..]), 256)
  {
    var point := CopyPoint(source);
    SetIdentity(output);
    RunLadder(output, point, scalar);
  }

  /** The loop over the scalar's bits, highest first. */
  method RunLadder(output: Point, point: Point, scalar: array<Byte>)
    requires Separate(output) && Separate(point) && Arrays(output) !! Arrays(point)
    requires InBounds(output) && InBounds(point) && Residues(output) == IDENTITY && scalar.Length == 32
    modifies Arrays(output), Arrays(point)
    ensures InBounds(output)
    ensures Residues(output) == LadderOutput(ED25519, old(Residues(point)), Value(256, scalar[..]), 256)
  {
    ghost var p0: Quad, bytes: seq<int> := Residues(point), scalar[..];
    LadderStarts(p0, bytes);
    for bitIndex := 256 downto 0
      invariant InBounds(output) && InBounds(point)
      invariant LadderState(Residues(output), Residues(point)) == LadderAt(p0, Value(256, bytes), bitIndex)
    {
      var choice := (scalar[bitIndex / 8] / Pow(2, bitIndex % 8)) % 2;
      LadderAdvances(p0, bytes, bitIndex);
      LadderRound(output, point, choice);
    }
    assert Value(256, bytes) / Pow(2, 0) == Value(256, bytes);
  }

  lemma LadderStarts(p0: Quad, bytes: seq<int>)
    requires |bytes| == 32 && Canonical(256, bytes)
    ensures LadderAt(p0, Value(256, bytes), 256) == LadderState(IDENTITY, p0)
  {
    CanonicalValueIsBounded(256, bytes);
    AllBitsPending(Value(256, bytes));
  }

  /** The ladder once the bits from 255 down to `bitIndex` have been consumed. */
  ghost function LadderAt(p0: Quad, v: int, bitIndex: nat): LadderState<Quad>
    requires bitIndex <= 256
  {
    Run(AddOn(ED25519), IDENTITY, p0, v / Pow(2, bitIndex), 256 - bitIndex)
  }

  lemma LadderAdvances(p0: Quad, bytes: seq<int>, b: nat)
    requires b < 256 && |bytes| == 32 && Canonical(256, bytes)
    ensures var v, choice := Value(256, bytes), (bytes[b / 8] / Pow(2, b % 8)) % 2;
            LadderAt(p0, v, b) == Step(AddOn(ED25519), LadderAt(p0, v, b + 1), choice)
  {
    ScalarBit(bytes, b);
    CanonicalValueIsNatural(bytes);
    PrefixGrows(Value(256, bytes), b);
  }

  lemma AllBitsPending(v: int)
    requires 0 <= v < Pow(256, 32)
    ensures v / Pow(2, 256) == 0
  {
    PowMultiplies(2, 8, 32);
    assert Pow(2, 8) == 256;
    RemainderIsUnique(v, 0, v, Pow(2, 256));
  }

  method BasePoint() returns (base: Point)
    ensures fresh(Arrays(base)) && Separate(base) && InBounds(base)
    ensures Residues(base) == Reduce(ED25519, Quad(BASE_X, BASE_Y, 1, BASE_X * BASE_Y))
  {
    var x := XConstant();
    var y := YConstant();
    var z := OneConstant();
    var t := NewField();
    MultiplyField(t, x, y);
    base := Point(x, y, z, t);
  }

  method ScalarBase(output: Point, scalar: array<Byte>)
    requires Separate(output) && scalar.Length == 32
    modifies Arrays(output)
    ensures InBounds(output)
    ensures Residues(output) ==
            var base := Reduce(ED25519, Quad(BASE_X, BASE_Y, 1, BASE_X * BASE_Y));
            LadderOutput(ED25519, base, Value(256, scalar[..]), 256)
  {
    var base := BasePoint();
    ScalarMultiply(output, base, scalar);
  }
}
