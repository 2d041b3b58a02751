/** VerifyEd25519: the composition of the parts (Payload/Admission/Ed25519Verifier.cpp:423-474). */
module Ed25519Verify {
  import opened Basics
  import opened Decompression
  import opened Digits
  import opened Edwards
  import opened EdwardsGroup
  import opened FieldArithmetic
  import opened Modular
  import opened PointArithmetic
  import opened PointCodec
  import opened PrimeField
  import opened ScalarOrder
  import opened VerificationEquation

  /** The digest function of the platform; it may fail. Nothing about it is assumed. */
  type Digest = s: seq<Byte> | |s| == 64 witness seq(64, i => 0)
  type HashFunction = seq<Byte> -> Option<Digest>

  const MAXIMUM_MESSAGE := 48 * 1024

  const BASE_QUAD: Quad := Reduce(ED25519, Quad(BASE_X, BASE_Y, 1, BASE_X * BASE_Y))

  /** The point [h](-A) + [s]B as the code computes it, in extended coordinates. */
  function Recomputed(key: seq<int>, h: int, s: int): Quad
    requires |key| == 32
  {
    Sum(ED25519, LadderOutput(ED25519, NegativePoint(ED25519, EncodedY(key), EncodedSign(key)), h, 256),
                 LadderOutput(ED25519, BASE_QUAD, s, 256))
  }

  predicate Decodes(key: seq<int>) {
    IsX(ED25519, CorrectedRoot(ED25519, EncodedY(key)), EncodedY(key))
  }

  /** The decision of VerifyEd25519 over byte strings. */
  ghost predicate Accepts(key: seq<Byte>, message: seq<Byte>, signature: seq<Byte>, hash: HashFunction) {
    |key| == 32 && |signature| == 64 && |message| <= MAXIMUM_MESSAGE &&
    Value(256, signature[32..]) < L && Decodes(key) &&
    var digest := hash(signature[..32] + key + message);
    digest.Some? &&
    Value(256, signature[..32]) ==
      Encode(ToAffine(ED25519, Recomputed(key, Value(256, digest.value) % L, Value(256, signature[32..]))))
  }

  method NewPoint() returns (p: Point)
    ensures Separate(p) && fresh(Arrays(p))
  {
    var x := NewField();
    var y := NewField();
    var z := NewField();
    var t := NewField();
    p := Point(x, y, z, t);
  }

  method Bytes(s: seq<Byte>) returns (a: array<Byte>)
    ensures fresh(a) && a[..] == s
  {
    a := new Byte[|s|](i requires 0 <= i < |s| => s[i]);
  }

  /** The points and the encoding, once the inputs have passed. */
  method PackRecomputed(publicPoint: Point, challenge: array<Byte>, scalar: array<Byte>) returns (packed: array<Byte>)
    requires Separate(publicPoint) && InBounds(publicPoint) && challenge.Length == 32 && scalar.Length == 32
    ensures fresh(packed) && packed.Length == 32
    ensures Value(256, packed[..]) ==
            Encode(ToAffine(ED25519, Sum(ED25519,
              LadderOutput(ED25519, Residues(publicPoint), Value(256, challenge[..]), 256),
              LadderOutput(ED25519, BASE_QUAD, Value(256, scalar[..]), 256))))
  {
    var calculated, signaturePoint := Multiples(publicPoint, challenge, scalar);
    packed := PackSum(calculated, signaturePoint, Residues(calculated), Residues(signaturePoint));
  }

  method Multiples(publicPoint: Point, challenge: array<Byte>, scalar: array<Byte>)
    returns (calculated: Point, signaturePoint: Point)
    requires Separate(publicPoint) && InBounds(publicPoint) && challenge.Length == 32 && scalar.Length == 32
    ensures Separate(calculated) && fresh(Arrays(calculated)) && InBounds(calculated)
    ensures Separate(signaturePoint) && fresh(Arrays(signaturePoint)) && InBounds(signaturePoint)
    ensures Arrays(calculated) !! Arrays(signaturePoint)
    ensures Residues(calculated) == LadderOutput(ED25519, Residues(publicPoint), Value(256, challenge[..]), 256)
    ensures Residues(signaturePoint) == LadderOutput(ED25519, BASE_QUAD, Value(256, scalar[..]), 256)
  {
    calculated := MultipleOf(publicPoint, challenge);
    signaturePoint := MultipleOfBase(scalar, Arrays(calculated));
  }

  method PackSum(calculated: Point, signaturePoint: Point, ghost left: Quad, ghost right: Quad)
    returns (packed: array<Byte>)
    requires Separate(calculated) && Separate(signaturePoint) && Arrays(calculated) !! Arrays(signaturePoint)
    requires InBounds(calculated) && InBounds(signaturePoint)
    requires Residues(calculated) == left && Residues(signaturePoint) == right
    modifies Arrays(calculated)
    ensures fresh(packed) && packed.Length == 32
    ensures Value(256, packed[..]) == Encode(ToAffine(ED25519, Sum(ED25519, left, right)))
  {
    AddPoints(calculated, signaturePoint);
    packed := new Byte[32](i => 0);
    PackPoint(packed, calculated);
  }

  method MultipleOf(point: Point, scalar: array<Byte>) returns (product: Point)
    requires Separate(point) && InBounds(point) && scalar.Length == 32
    ensures Separate(product) && fresh(Arrays(product)) && InBounds(product)
    ensures Residues(product) == LadderOutput(ED25519, Residues(point), Value(256, scalar[..]), 256)
  {
    product := NewPoint();
    ScalarMultiply(product, point, scalar);
  }

  method MultipleOfBase(scalar: array<Byte>, ghost taken: set<object>) returns (product: Point)
    requires scalar.Length == 32
    ensures Separate(product) && fresh(Arrays(product)) && Arrays(product) !! taken && InBounds(product)
    ensures Residues(product) == LadderOutput(ED25519, BASE_QUAD, Value(256, scalar[..]), 256)
  {
    product := NewPoint();
    ScalarBase(product, scalar);
  }

  method VerifyEd25519(publicKey: seq<Byte>, message: seq<Byte>, signature: seq<Byte>, hash: HashFunction)
    returns (verified: bool)
    ensures verified <==> Accepts(publicKey, message, signature, hash)
  {
    if |publicKey| != 32 || |signature| != 64 || |message| > MAXIMUM_MESSAGE {
      return false;
    }
    var scalar := Bytes(signature[32..]);
    var canonical := CanonicalScalar(scalar);
    if !canonical {
      return false;
    }
    var key := Bytes(publicKey);
    var publicPoint := NewPoint();
    var decoded := UnpackNegative(publicPoint, key);
    if !decoded {
      return false;
    }
    var digest := hash(signature[..32] + publicKey + message);
    if digest.None? {
      return false;
    }
    verified := CompareEncodings(publicPoint, scalar, digest.value, signature[..32], Residues(publicPoint));
  }

  /** The rest of the verification, once the inputs have passed: the recomputed encoding against that of R. */
  method CompareEncodings(publicPoint: Point, scalar: array<Byte>, digest: Digest, encoded: seq<Byte>, ghost q: Quad)
    returns (equal: bool)
    requires Separate(publicPoint) && InBounds(publicPoint) && scalar.Length == 32 && |encoded| == 32
    requires Residues(publicPoint) == q
    ensures equal <==>
            Value(256, encoded) ==
              Encode(ToAffine(ED25519, Sum(ED25519, LadderOutput(ED25519, q, Value(256, digest) % L, 256),
                                                    LadderOutput(ED25519, BASE_QUAD, Value(256, scalar[..]), 256))))
  {
    var challenge := ReduceDigest(digest);
    var packed := PackRecomputed(publicPoint, challenge, scalar);
    var encodedR := Bytes(encoded);
    equal := EqualBytes(packed, encodedR);
    EqualEncodings(packed[..], encodedR[..]);
  }

  method ReduceDigest(digest: Digest) returns (challenge: array<Byte>)
    ensures fresh(challenge) && challenge.Length == 32 && Value(256, challenge[..]) == Value(256, digest) % L
  {
    var wide := Bytes(digest);
    ReduceModOrder(wide);
    challenge := Bytes(wide[..32]);
  }

  lemma EqualEncodings(a: seq<int>, b: seq<int>)
    requires |a| == |b| && Canonical(256, a) && Canonical(256, b)
    ensures a == b <==> Value(256, a) == Value(256, b)
  {
    if Value(256, a) == Value(256, b) {
      CanonicalDigitsAreUnique(256, a, b);
    }
  }

  // ---- What acceptance means ----

  const BASE: Affine := Affine(BASE_X, BASE_Y)

  lemma BaseIsProper()
    ensures Proper(ED25519, BASE_QUAD) && ToAffine(ED25519, BASE_QUAD) == BASE && AffineOnCurve(ED25519, BASE)
  {
    ConstantsAreRight();
    RemainderIsUnique(BASE_X, 0, BASE_X, P);
    RemainderIsUnique(BASE_Y, 0, BASE_Y, P);
    RemainderIsUnique(1, 0, 1, P);
    RemainderIsCongruent(BASE_X * BASE_Y, P);
    ExtendedFromAffine(ED25519, BASE_QUAD);
    UnitZIsAffine(ED25519, BASE_QUAD);
  }

  /** The decoded key, negated. */
  function NegativeKey(key: seq<int>): Affine
    requires |key| == 32
  {
    NegativeAffine(ED25519, EncodedY(key), EncodedSign(key))
  }

  lemma SignIsBit(key: seq<int>)
    requires |key| == 32 && Canonical(256, key)
    ensures EncodedSign(key) == 0 || EncodedSign(key) == 1
  {
  }

  lemma ScalarsFit(n: int, k: nat)
    requires 0 <= n < L && k == 256
    ensures n < Pow(2, k)
  {
    TwoTo255(255, 15);
    assert Pow(2, 255 + 1) == 2 * Pow(2, 255);
  }

  lemma RecomputedOverEd25519(key: seq<int>, h: int, s: int)
    requires PrimeModulus(P) && Associative(ED25519)
    requires |key| == 32 && Canonical(256, key) && Decodes(key) && 0 <= h < L && 0 <= s < L
    ensures ToAffine(ED25519, Recomputed(key, h, s)) ==
            AffineSum(ED25519, CurveTimes(ED25519, h, NegativeKey(key)), CurveTimes(ED25519, s, BASE))
  {
    Ed25519IsComplete();
    BaseIsProper();
    ScalarsFit(h, 256);
    ScalarsFit(s, 256);
    SignIsBit(key);
    RecomputedIsAffineSum(ED25519, EncodedY(key), EncodedSign(key), BASE_QUAD, h, s, 256);
  }

  /** Section 5.1.7 of RFC 8032 without the cofactor: R = [S]B - [h]A over the affine curve, for a key
      whose y has an x at all. */
  ghost predicate SatisfiesEquation(key: seq<Byte>, message: seq<Byte>, signature: seq<Byte>, hash: HashFunction) {
    |key| == 32 && |signature| == 64 && |message| <= 49152 &&
    Value(256, signature[32..]) < L && (exists x :: IsX(ED25519, x, EncodedY(key))) &&
    var digest := hash(signature[..32] + key + message);
    var s := Value(256, signature[32..]);
    digest.Some? && s >= 0 &&
    Value(256, signature[..32]) ==
      Encode(AffineSum(ED25519, CurveTimes(ED25519, Value(256, digest.value) % L, NegativeKey(key)),
                                CurveTimes(ED25519, s, BASE)))
  }

  lemma KeyDecodesExactlyWhenItHasX(key: seq<int>)
    requires PrimeModulus(P)
    ensures Decodes(key) <==> exists x :: IsX(ED25519, x, EncodedY(key))
  {
    ConstantsAreRight();
    RootExistsExactlyWhenFound(ED25519, EncodedY(key), (P - 5) / 8);
  }

  lemma AcceptanceIsTheEquation(key: seq<Byte>, message: seq<Byte>, signature: seq<Byte>, hash: HashFunction)
    requires PrimeModulus(P) && Associative(ED25519)
    ensures Accepts(key, message, signature, hash) <==> SatisfiesEquation(key, message, signature, hash)
  {
    if |key| == 32 && |signature| == 64 {
      KeyDecodesExactlyWhenItHasX(key);
      var s := Value(256, signature[32..]);
      CanonicalValueIsNatural(signature[32..]);
      var digest := hash(signature[..32] + key + message);
      if Decodes(key) && s < L && digest.Some? {
        RecomputedOverEd25519(key, Value(256, digest.value) % L, s);
      }
    }
  }

  // ---- Honest signatures are accepted ----

  /** The 32 bytes of a key are its y and its sign. */
  lemma KeySplits(key: seq<int>, w: int)
    requires |key| == 32 && Canonical(256, key) && w == P + 19
    ensures 0 <= EncodedY(key) < w && 0 <= EncodedSign(key) <= 1
    ensures Value(256, key) == EncodedY(key) + EncodedSign(key) * w
  {
    var low, half := Value(256, key[..31]), Pow(256, 31);
    assert key[..32] == key;
    ValueOfPrefixStep(256, key, 31);
    CanonicalValueIsBounded(256, key[..31]);
    TopWeight(31);
    SplitTop(low, key[31], half);
    RemainderIsUnique(Value(256, key), key[31] / 128, low + key[31] % 128 * half, w);
  }

  lemma SplitTop(low: int, top: int, half: int)
    requires 0 <= low < half && 0 <= top < 256
    ensures 0 <= low + top % 128 * half < 128 * half
    ensures low + top * half == top / 128 * (128 * half) + (low + top % 128 * half)
  {
    var q, r := top / 128, top % 128;
    ScaleInequality(0, r, half);
    ScaleInequality(r, 127, half);
    Distribute(half, r, q * 128);
    Associate(q, 128, half);
  }

  lemma HonestSum(key: seq<int>, s: nat, r: nat, h: nat, n: nat, response: int)
    requires PrimeModulus(P) && Associative(ED25519) && CurveTimes(ED25519, L, BASE) == NEUTRAL
    requires |key| == 32 && Canonical(256, key) && Value(256, key) == Encode(CurveTimes(ED25519, s, BASE))
    requires n == h * s && h < L && response == (n + r) % L
    ensures 0 <= response < L && Decodes(key)
    ensures ToAffine(ED25519, Recomputed(key, h, response)) == CurveTimes(ED25519, r, BASE)
  {
    Ed25519IsComplete();
    BaseIsProper();
    TwoTo255(255, 15);
    KeySplits(key, P + 19);
    HonestEquation(ED25519, BASE, L, EncodedY(key), EncodedSign(key), P + 19, (P - 5) / 8, s, r, h, n);
    RecomputedOverEd25519(key, h, response);
  }

  /** A signature made as in section 5.1.6 of RFC 8032, with secret scalar s and nonce r, is accepted.
      Hypotheses: P is prime, the affine law is associative, and B has order dividing L. */
  lemma HonestSignatureIsAccepted(key: seq<Byte>, message: seq<Byte>, signature: seq<Byte>, hash: HashFunction,
                                  s: nat, r: nat, h: nat, n: nat)
    requires PrimeModulus(P) && Associative(ED25519) && CurveTimes(ED25519, L, BASE) == NEUTRAL
    requires |key| == 32 && |signature| == 64 && |message| <= 49152
    requires Value(256, key) == Encode(CurveTimes(ED25519, s, BASE))
    requires Value(256, signature[..32]) == Encode(CurveTimes(ED25519, r, BASE))
    requires var digest := hash(signature[..32] + key + message);
             digest.Some? && h == Value(256, digest.value) % L
    requires n == h * s && Value(256, signature[32..]) == (n + r) % L
    ensures Accepts(key, message, signature, hash)
  {
    HonestSum(key, s, r, h, n, Value(256, signature[32..]));
  }

  // ---- One signature for one R ----

  lemma RecomputedEncoding(key: seq<int>, h: int, s: int)
    requires PrimeModulus(P) && Associative(ED25519)
    requires |key| == 32 && Canonical(256, key) && Decodes(key) && 0 <= h < L && 0 <= s < L
    ensures Encode(ToAffine(ED25519, Recomputed(key, h, s))) ==
            EncodeAt(AffineSum(ED25519, CurveTimes(ED25519, h, NegativeKey(key)), CurveTimes(ED25519, s, BASE)), P + 19)
  {
    TwoTo255(255, 15);
    RecomputedOverEd25519(key, h, s);
  }

  /** The responses of two accepted signatures with one challenge and one R. */
  lemma ResponsesAgree(key: seq<int>, h: int, s: int, s': int)
    requires PrimeModulus(P) && Associative(ED25519) && NoSmallerOrder(ED25519, BASE, L)
    requires |key| == 32 && Canonical(256, key) && Decodes(key) && 0 <= h < L && 0 <= s < L && 0 <= s' < L
    requires var x := CurveTimes(ED25519, h, NegativeKey(key));
             EncodeAt(AffineSum(ED25519, x, CurveTimes(ED25519, s, BASE)), P + 19) ==
             EncodeAt(AffineSum(ED25519, x, CurveTimes(ED25519, s', BASE)), P + 19)
    ensures s == s'
  {
    Ed25519IsComplete();
    BaseIsProper();
    SignIsBit(key);
    KeyedResponseIsUnique(ED25519, EncodedY(key), EncodedSign(key), h, BASE, L, s, s', P + 19);
  }

  /** Nobody can change an accepted signature into another one with the same R: the canonical scalar is unique.
      Hypotheses: P is prime, the affine law is associative, and no multiple of B below L is neutral. */
  lemma SignatureIsUnique(key: seq<Byte>, message: seq<Byte>, signature: seq<Byte>, signature': seq<Byte>,
                          hash: HashFunction)
    requires PrimeModulus(P) && Associative(ED25519) && NoSmallerOrder(ED25519, BASE, L)
    requires Accepts(key, message, signature, hash) && Accepts(key, message, signature', hash)
    requires signature[..32] == signature'[..32]
    ensures signature == signature'
  {
    var s, s' := Value(256, signature[32..]), Value(256, signature'[32..]);
    CanonicalValueIsNatural(signature[32..]);
    CanonicalValueIsNatural(signature'[32..]);
    var h := Value(256, hash(signature[..32] + key + message).value) % L;
    RecomputedEncoding(key, h, s);
    RecomputedEncoding(key, h, s');
    ResponsesAgree(key, h, s, s');
    EqualEncodings(signature[32..], signature'[32..]);
    SameHalves(signature, signature');
  }

  lemma SameHalves(a: seq<Byte>, b: seq<Byte>)
    requires |a| == |b| == 64 && a[..32] == b[..32] && a[32..] == b[32..]
    ensures a == b
  {
    assert a == a[..32] + a[32..] && b == b[..32] + b[32..];
  }
}
