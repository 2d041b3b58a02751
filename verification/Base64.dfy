/** Base64 decoding with a bit accumulator (Payload/Admission/StrictRosterPolicy.h:42-98), against the
    encodings of sections 4 and 5 of RFC 4648. */
module Base64 {
  import opened Basics
  import opened Bits
  import opened BitStrings

  const MAXIMUM_TEXT := 60 * 1024

  /** An unsigned 32-bit word. */
  type Word = x: int | 0 <= x < 0x1_0000_0000

  /** Both alphabets at once, as in the source; -1 for every other character. */
  function Base64Value(ch: char): int {
    if 'A' <= ch <= 'Z' then ch as int - 'A' as int
    else if 'a' <= ch <= 'z' then ch as int - 'a' as int + 26
    else if '0' <= ch <= '9' then ch as int - '0' as int + 52
    else if ch == '+' || ch == '-' then 62
    else if ch == '/' || ch == '_' then 63
    else -1
  }

  predicate InAlphabet(ch: char, urlSafe: bool) {
    Base64Value(ch) >= 0 && (if urlSafe then ch != '+' && ch != '/' else ch != '-' && ch != '_')
  }

  function Sextet(ch: char): (v: nat)
    ensures v < 64
  {
    if Base64Value(ch) < 0 then 0 else Base64Value(ch)
  }

  function Sextets(text: string): (digits: seq<int>)
    ensures |digits| == |text| && DigitsFit(digits, 6)
  {
    assert Power2(6) == 64;
    seq(|text|, i requires 0 <= i < |text| => Sextet(text[i]))
  }

  /** The number of characters before the first padding character. */
  function BodyLength(text: string): (n: nat)
    ensures n <= |text|
  {
    if text == [] || text[0] == '=' then 0 else 1 + BodyLength(text[1..])
  }

  /** Up to `end`, n characters of the alphabet followed by nothing but padding. */
  predicate SplitsUpTo(text: string, end: nat, n: nat, urlSafe: bool) {
    n <= end <= |text| &&
    (forall k :: 0 <= k < n ==> InAlphabet(text[k], urlSafe)) &&
    (forall k :: n <= k < end ==> text[k] == '=')
  }

  predicate Splits(text: string, n: nat, urlSafe: bool) {
    SplitsUpTo(text, |text|, n, urlSafe)
  }

  lemma {:induction false} SplitIsAtBodyLength(text: string, n: nat, urlSafe: bool)
    requires Splits(text, n, urlSafe)
    ensures n == BodyLength(text)
  {
    if n > 0 {
      SplitIsAtBodyLength(text[1..], n - 1, urlSafe);
    }
  }

  /** The whole octets of a bit string, unless a set bit would be lost. */
  function WholeOctets(bits: seq<bool>): Option<seq<Byte>> {
    var whole := 8 * (|bits| / 8);
    if bits[whole..] == Zeros(|bits| - whole) then Some(Octets(bits)) else None
  }

  /** What the decoder accepts and returns. Neither the amount of padding nor the length modulo 4 matters. */
  function Decoded(text: string, urlSafe: bool): Option<seq<Byte>> {
    var n := BodyLength(text);
    if text == "" || |text| > MAXIMUM_TEXT || !Splits(text, n, urlSafe) then None
    else WholeOctets(DigitBits(Sextets(text[..n]), 6))
  }

  /** A text is accepted exactly when it has 1 to 61440 characters, some of one alphabet and then only padding, whose
      bits are whole octets but for fewer than eight zeros. */
  lemma DecodesExactly(text: string, urlSafe: bool)
    ensures Decoded(text, urlSafe).Some? <==>
              1 <= |text| <= 61440 && exists n: nat ::
                Splits(text, n, urlSafe) && n <= |text| && WholeOctets(DigitBits(Sextets(text[..n]), 6)).Some?
  {
    forall n: nat | Splits(text, n, urlSafe) ensures n == BodyLength(text) {
      SplitIsAtBodyLength(text, n, urlSafe);
    }
  }

  /** The bits read so far are the bits of the output followed by those of the accumulator. */
  predicate Accumulates(read: seq<int>, decoded: seq<Byte>, accumulator: nat, bits: nat) {
    bits < 8 && accumulator < Power2(bits) &&
    DigitBits(read, 6) == DigitBits(decoded, 8) + BitsOf(accumulator, bits)
  }

  method DecodeBase64(encoded: string, urlSafe: bool) returns (ok: bool, decoded: seq<Byte>)
    ensures ok <==> Decoded(encoded, urlSafe).Some?
    ensures ok ==> decoded == Decoded(encoded, urlSafe).value
  {
    decoded := [];
    if |encoded| == 0 || |encoded| > MAXIMUM_TEXT {
      return false, decoded;
    }
    var accumulator: Word, bits, padding := 0, 0, false;
    ghost var n := 0;
    for i := 0 to |encoded|
      invariant n <= i && (padding <==> n < i) && SplitsUpTo(encoded, i, n, urlSafe)
      invariant Accumulates(Sextets(encoded[..n]), decoded, accumulator, bits)
    {
      var ch := encoded[i];
      if ch == '=' {
        padding := true;
      } else {
        if padding || (!urlSafe && (ch == '-' || ch == '_')) || (urlSafe && (ch == '+' || ch == '/')) {
          NoSplit(encoded, i, n, urlSafe);
          return false, decoded;
        }
        var value := Base64Value(ch);
        if value < 0 {
          NoSplit(encoded, i, n, urlSafe);
          return false, decoded;
        }
        ReadStep(encoded, n, urlSafe);
        decoded, accumulator, bits := PushSextet(Sextets(encoded[..n]), decoded, accumulator, bits, value);
        n := n + 1;
      }
    }
    SplitIsAtBodyLength(encoded, n, urlSafe);
    FinishedBits(Sextets(encoded[..n]), decoded, accumulator, bits);
    ok := bits == 0 || accumulator == 0;
  }

  /** One character enters the accumulator and, when eight bits are there, a byte leaves. The shifts
      and the mask of the source are exact on these ranges: nothing is lost to the word size or
      to the cast to a byte. */
  method PushSextet(ghost read: seq<int>, decoded: seq<Byte>, accumulator: Word, bits: nat, value: nat)
    returns (decoded': seq<Byte>, accumulator': Word, bits': nat)
    requires value < 64 && Accumulates(read, decoded, accumulator, bits)
    ensures Accumulates(read + [value], decoded', accumulator', bits')
  {
    AppendSextet(read, decoded, accumulator, bits, value);
    var sum := AppendBits(accumulator, value);
    decoded', accumulator', bits' := PopOctet(read + [value], decoded, sum, bits + 6);
  }

  /** A byte leaves the accumulator when its eight bits are there. */
  method PopOctet(ghost read: seq<int>, decoded: seq<Byte>, accumulator: Word, bits: nat)
    returns (decoded': seq<Byte>, accumulator': Word, bits': nat)
    requires bits < 16 && accumulator < Power2(bits)
    requires DigitBits(read, 6) == DigitBits(decoded, 8) + BitsOf(accumulator, bits)
    ensures Accumulates(read, decoded', accumulator', bits')
  {
    decoded', accumulator', bits' := decoded, accumulator, bits;
    if bits' >= 8 {
      bits' := bits' - 8;
      TopOctet(accumulator', bits');
      var octet: Byte := ShiftRight(accumulator', bits');
      PushOctet(decoded, octet, LowBits(accumulator', bits'), bits');
      decoded' := decoded' + [octet];
      accumulator' := LowBits(accumulator', bits');
    }
  }

  /** The six bits of a character do not overlap the shifted accumulator, so the disjunction is a sum. */
  method AppendBits(accumulator: nat, value: nat) returns (sum: nat)
    requires value < 64
    ensures sum == accumulator * 64 + value
  {
    assert Power2(6) == 64;
    OrOfDisjoint(value, accumulator, 6);
    sum := Or(accumulator * 64, value);
  }

  lemma {:induction false} SextetPower(bits: nat)
    ensures Power2(bits + 6) == 64 * Power2(bits)
    ensures bits < 8 ==> Power2(bits) <= 128
  {
    if bits > 0 {
      SextetPower(bits - 1);
    }
    assert Power2(7) == 128 && Power2(6) == 64;
    if bits < 8 {
      Power2Grows(bits, 7);
    }
  }

  lemma AppendSextet(read: seq<int>, decoded: seq<Byte>, accumulator: nat, bits: nat, value: nat)
    requires value < 64 && Accumulates(read, decoded, accumulator, bits)
    ensures accumulator < 128 && accumulator * 64 + value < Power2(bits + 6)
    ensures DigitBits(read + [value], 6) == DigitBits(decoded, 8) + BitsOf(accumulator * 64 + value, bits + 6)
  {
    SextetPower(bits);
    DigitBitsAppend(read, [value], 6);
    SingleBits(value, 6);
    CutAt6(accumulator * 64 + value, accumulator, value, bits);
    ConcatAssociates(DigitBits(decoded, 8), BitsOf(accumulator, bits), BitsOf(value, 6));
  }

  lemma TopOctet(all: nat, bits: nat)
    requires all < Power2(8 + bits)
    ensures ShiftRight(all, bits) < 256 && LowBits(all, bits) < Power2(bits)
    ensures BitsOf(all, bits + 8) == BitsOf(ShiftRight(all, bits), 8) + BitsOf(LowBits(all, bits), bits)
  {
    assert Power2(8) == 256;
    ShiftCutsBits(all, bits, 8);
  }

  lemma PushOctet(decoded: seq<Byte>, octet: Byte, accumulator: nat, bits: nat)
    ensures DigitBits(decoded + [octet], 8) + BitsOf(accumulator, bits) ==
            DigitBits(decoded, 8) + (BitsOf(octet, 8) + BitsOf(accumulator, bits))
  {
    DigitBitsAppend(decoded, [octet], 8);
    SingleBits(octet, 8);
    ConcatAssociates(DigitBits(decoded, 8), BitsOf(octet, 8), BitsOf(accumulator, bits));
  }

  lemma FinishedBits(read: seq<int>, decoded: seq<Byte>, accumulator: nat, bits: nat)
    requires Accumulates(read, decoded, accumulator, bits)
    ensures WholeOctets(DigitBits(read, 6)) == if bits == 0 || accumulator == 0 then Some(decoded) else None
  {
    var all, tail := DigitBits(read, 6), BitsOf(accumulator, bits);
    assert |all| == 8 * |decoded| + bits;
    assert |all| / 8 == |decoded|;
    OctetsOfBits(decoded, tail);
    assert all[8 * |decoded|..] == tail;
    OnlyZeroHasZeroBits(accumulator, bits);
  }

  lemma ReadStep(text: string, n: nat, urlSafe: bool)
    requires n < |text| && InAlphabet(text[n], urlSafe) && SplitsUpTo(text, n, n, urlSafe)
    ensures SplitsUpTo(text, n + 1, n + 1, urlSafe)
    ensures Sextets(text[..n + 1]) == Sextets(text[..n]) + [Base64Value(text[n])]
  {
  }

  lemma NoSplit(text: string, i: nat, n: nat, urlSafe: bool)
    requires n <= i < |text| && text[i] != '='
    requires n < i ==> text[n] == '='
    requires n == i ==> !InAlphabet(text[i], urlSafe)
    ensures !Splits(text, BodyLength(text), urlSafe)
  {
    assert !InAlphabet('=', urlSafe);
  }

  // ---- The encoders of RFC 4648 ----

  function Character(v: nat, urlSafe: bool): (ch: char)
    requires v < 64
    ensures InAlphabet(ch, urlSafe) && Base64Value(ch) == v
  {
    if v < 26 then 'A' + v as char
    else if v < 52 then 'a' + (v - 26) as char
    else if v < 62 then '0' + (v - 52) as char
    else if v == 62 then (if urlSafe then '-' else '+')
    else if urlSafe then '_' else '/'
  }

  /** The 6-bit groups of section 4 of RFC 4648, by groups of three octets. */
  function Groups(data: seq<Byte>): (digits: seq<int>)
    ensures forall i :: 0 <= i < |digits| ==> 0 <= digits[i] < 64
  {
    if |data| == 0 then []
    else if |data| == 1 then [data[0] / 4, data[0] % 4 * 16]
    else if |data| == 2 then [data[0] / 4, data[0] % 4 * 16 + data[1] / 16, data[1] % 16 * 4]
    else
      [data[0] / 4, data[0] % 4 * 16 + data[1] / 16, data[1] % 16 * 4 + data[2] / 64, data[2] % 64] + Groups(data[3..])
  }

  function Unpadded(data: seq<Byte>, urlSafe: bool): (text: string)
    ensures |text| == |Groups(data)|
    ensures forall i :: 0 <= i < |text| ==> InAlphabet(text[i], urlSafe)
  {
    var g := Groups(data);
    seq(|g|, i requires 0 <= i < |g| => Character(g[i], urlSafe))
  }

  function Repeat(ch: char, n: nat): string {
    seq(n, i => ch)
  }

  /** The padding the RFC asks for after this many characters. */
  function PaddingFor(length: nat): nat {
    (4 - length % 4) % 4
  }

  function Padded(data: seq<Byte>, urlSafe: bool): string {
    Unpadded(data, urlSafe) + Repeat('=', PaddingFor(|Groups(data)|))
  }

  lemma {:induction false} GroupCount(data: seq<Byte>)
    ensures |Groups(data)| == (8 * |data| + 5) / 6 && |Groups(data)| % 4 != 1
  {
    if |data| > 2 {
      GroupCount(data[3..]);
      GroupsUnfold(data);
      ThreeMore(|data[3..]|, |Groups(data[3..])|);
    }
  }

  lemma ThreeMore(n: nat, groups: nat)
    requires groups == (8 * n + 5) / 6 && groups % 4 != 1
    ensures groups + 4 == (8 * (n + 3) + 5) / 6 && (groups + 4) % 4 != 1
  {
  }

  function Spare(data: seq<Byte>): (n: int)
  {
    6 * |Groups(data)| - 8 * |data|
  }

  /** The bits of the octets, filled up with zeros. */
  lemma {:induction false} GroupsKeepBits(data: seq<Byte>)
    ensures Spare(data) < 8 && BitsAreKept(data)
  {
    SpareIsSmall(data);
    if |data| == 0 {
      NoGroup(data);
    } else if |data| == 1 {
      SingleGroup(data, data[0]);
    } else if |data| == 2 {
      DoubleGroup(data, data[0], data[1]);
    } else {
      GroupsKeepBits(data[3..]);
      FullGroup(data);
    }
  }

  predicate BitsAreKept(data: seq<Byte>) {
    0 <= Spare(data) && DigitBits(Groups(data), 6) == DigitBits(data, 8) + Zeros(Spare(data))
  }

  lemma NoGroup(data: seq<Byte>)
    requires data == []
    ensures BitsAreKept(data)
  {
  }

  lemma SingleGroup(data: seq<Byte>, d: Byte)
    requires data == [d]
    ensures BitsAreKept(data)
  {
    OneOctet(d, d % 4 * 16, d / 4, d % 4);
  }

  lemma DoubleGroup(data: seq<Byte>, d: Byte, e: Byte)
    requires data == [d, e]
    ensures BitsAreKept(data)
  {
    TwoOctets(d, e, d % 4 * 16 + e / 16, e % 16 * 4, d / 4, d % 4, e / 16, e % 16);
  }

  lemma FullGroup(data: seq<Byte>)
    requires |data| >= 3 && BitsAreKept(data[3..])
    ensures BitsAreKept(data)
  {
    var groups, zeros := Groups(data[3..]), Zeros(Spare(data[3..]));
    var x, y := data[0] % 4 * 16 + data[1] / 16, data[1] % 16 * 4 + data[2] / 64;
    LeadingOctets(data, groups, x, y, zeros);
    SameSpare(data);
    GroupsUnfold(data);
  }

  lemma SameSpare(data: seq<Byte>)
    requires |data| >= 3
    ensures Spare(data) == Spare(data[3..]) && 0 <= Spare(data)
  {
    SpareIsSmall(data);
  }

  lemma LeadingOctets(data: seq<int>, groups: seq<int>, x: nat, y: nat, zeros: seq<bool>)
    requires |data| >= 3 && 0 <= data[0] < 256 && 0 <= data[1] < 256 && 0 <= data[2] < 256
    requires x == data[0] % 4 * 16 + data[1] / 16 && y == data[1] % 16 * 4 + data[2] / 64
    requires DigitBits(groups, 6) == DigitBits(data[3..], 8) + zeros
    ensures DigitBits([data[0] / 4, x, y, data[2] % 64] + groups, 6) == DigitBits(data, 8) + zeros
  {
    var a, b, c := data[0], data[1], data[2];
    ThreeOctets(a, b, c, x, y, a / 4, a % 4, b / 16, b % 16, c / 64, c % 64);
    LeadingGroup([a, b, c], data[3..], [a / 4, x, y, c % 64], groups, zeros);
    FrontOfThree(data);
  }

  lemma SpareIsSmall(data: seq<Byte>)
    ensures 0 <= Spare(data) < 8 && (|data| >= 3 ==> Spare(data) == Spare(data[3..]))
  {
    GroupCount(data);
    if |data| >= 3 {
      GroupsUnfold(data);
    }
  }

  lemma GroupsUnfold(data: seq<Byte>)
    requires |data| >= 3
    ensures Groups(data) ==
            [data[0] / 4, data[0] % 4 * 16 + data[1] / 16, data[1] % 16 * 4 + data[2] / 64, data[2] % 64] +
                            Groups(data[3..])
  {
  }

  lemma FrontOfThree(data: seq<int>)
    requires |data| >= 3
    ensures data == [data[0], data[1], data[2]] + data[3..]
  {
  }

  lemma LeadingGroup(front: seq<int>, rest: seq<int>, head: seq<int>, groups: seq<int>, zeros: seq<bool>)
    requires DigitBits(head, 6) == DigitBits(front, 8) && DigitBits(groups, 6) == DigitBits(rest, 8) + zeros
    ensures DigitBits(head + groups, 6) == DigitBits(front + rest, 8) + zeros
  {
    DigitBitsAppend(head, groups, 6);
    DigitBitsAppend(front, rest, 8);
    ConcatAssociates(DigitBits(front, 8), DigitBits(rest, 8), zeros);
  }

  lemma PairBits(x: int, y: int, n: nat)
    ensures DigitBits([x, y], n) == BitsOf(x, n) + BitsOf(y, n)
  {
    SingleBits(y, n);
    assert [x, y][1..] == [y];
  }

  lemma TripleBits(x: int, y: int, z: int, n: nat)
    ensures DigitBits([x, y, z], n) == BitsOf(x, n) + (BitsOf(y, n) + BitsOf(z, n))
  {
    PairBits(y, z, n);
    assert [x, y, z][1..] == [y, z];
  }

  lemma FourBits(w: int, x: int, y: int, z: int, n: nat)
    ensures DigitBits([w, x, y, z], n) == BitsOf(w, n) + (BitsOf(x, n) + (BitsOf(y, n) + BitsOf(z, n)))
  {
    TripleBits(x, y, z, n);
    assert [w, x, y, z][1..] == [x, y, z];
  }

  /** Three octets and four sextets over the same six pieces. */
  lemma Regroup(sextets: seq<bool>, octets: seq<bool>, w: seq<bool>, x: seq<bool>, y: seq<bool>, z: seq<bool>,
                d: seq<bool>, e: seq<bool>, f: seq<bool>, x1: seq<bool>, x2: seq<bool>, y1: seq<bool>, y2: seq<bool>)
    requires sextets == w + (x + (y + z)) && octets == d + (e + f)
    requires d == w + x1 && x == x1 + x2 && e == x2 + y1 && y == y1 + y2 && f == y2 + z
    ensures sextets == octets
  {
  }

  lemma OneOctet(d: nat, x: nat, a: nat, a': nat)
    requires a' < 4 && d == a * 4 + a' && x == a' * 16
    ensures DigitBits([a, x], 6) == DigitBits([d], 8) + Zeros(4)
  {
    PairBits(a, x, 6);
    CutAt2(d, a, a', 6);
    CutAt4(x, a', 0, 2);
    BitsOfZero(4);
    SingleBits(d, 8);
    ConcatAssociates(BitsOf(a, 6), BitsOf(a', 2), Zeros(4));
  }

  lemma SingleBits(x: int, n: nat)
    ensures DigitBits([x], n) == BitsOf(x, n)
  {
    assert DigitBits([x], n) == BitsOf(x, n) + DigitBits([], n);
  }

  lemma TwoOctets(d: nat, e: nat, x: nat, y: nat, a: nat, a': nat, b: nat, b': nat)
    requires a' < 4 && b < 16 && b' < 16
    requires d == a * 4 + a' && e == b * 16 + b' && x == a' * 16 + b && y == b' * 4
    ensures DigitBits([a, x, y], 6) == DigitBits([d, e], 8) + Zeros(2)
  {
    TripleBits(a, x, y, 6);
    PairBits(d, e, 8);
    CutAt2(d, a, a', 6);
    CutAt4(x, a', b, 2);
    CutAt4(e, b, b', 4);
    CutAt2(y, b', 0, 4);
    BitsOfZero(2);
    RegroupTwo(DigitBits([a, x, y], 6), DigitBits([d, e], 8), BitsOf(a, 6), BitsOf(x, 6), BitsOf(y, 6),
               BitsOf(d, 8), BitsOf(e, 8), BitsOf(a', 2), BitsOf(b, 4), BitsOf(b', 4), Zeros(2));
  }

  lemma RegroupTwo(sextets: seq<bool>, octets: seq<bool>, w: seq<bool>, x: seq<bool>, y: seq<bool>,
                   d: seq<bool>, e: seq<bool>, x1: seq<bool>, x2: seq<bool>, y1: seq<bool>, zeros: seq<bool>)
    requires sextets == w + (x + y) && octets == d + e
    requires d == w + x1 && x == x1 + x2 && e == x2 + y1 && y == y1 + zeros
    ensures sextets == octets + zeros
  {
  }

  lemma ThreeOctets(d: nat, e: nat, f: nat, x: nat, y: nat, a: nat, a': nat, b: nat, b': nat, c: nat, c': nat)
    requires a' < 4 && b < 16 && b' < 16 && c < 4 && c' < 64
    requires d == a * 4 + a' && e == b * 16 + b' && f == c * 64 + c' && x == a' * 16 + b && y == b' * 4 + c
    ensures DigitBits([a, x, y, c'], 6) == DigitBits([d, e, f], 8)
  {
    FourBits(a, x, y, c', 6);
    TripleBits(d, e, f, 8);
    CutAt2(d, a, a', 6);
    CutAt4(x, a', b, 2);
    CutAt4(e, b, b', 4);
    CutAt2(y, b', c, 4);
    CutAt6(f, c, c', 2);
    Regroup(DigitBits([a, x, y, c'], 6), DigitBits([d, e, f], 8), BitsOf(a, 6), BitsOf(x, 6), BitsOf(y, 6),
            BitsOf(c', 6), BitsOf(d, 8), BitsOf(e, 8), BitsOf(f, 8), BitsOf(a', 2), BitsOf(b, 4), BitsOf(b', 4),
            BitsOf(c, 2));
  }

  // ---- Round trips ----

  lemma SextetsOfUnpadded(data: seq<Byte>, urlSafe: bool)
    ensures Sextets(Unpadded(data, urlSafe)) == Groups(data)
  {
  }

  lemma EncodedSplits(data: seq<Byte>, urlSafe: bool, padding: nat)
    ensures var n, text := |Groups(data)|, Unpadded(data, urlSafe) + Repeat('=', padding);
            BodyLength(text) == n && Splits(text, n, urlSafe) && text[..n] == Unpadded(data, urlSafe)
  {
    var n, text := |Groups(data)|, Unpadded(data, urlSafe) + Repeat('=', padding);
    SplitIsAtBodyLength(text, n, urlSafe);
  }

  /** Decoding inverts both encoders, with the padding of the RFC, with none and with any other amount, for
      every nonempty text within the size limit. */
  lemma DecodeInvertsEncode(data: seq<Byte>, urlSafe: bool, padding: nat)
    requires var text := Unpadded(data, urlSafe) + Repeat('=', padding); 0 < |text| <= MAXIMUM_TEXT
    ensures Decoded(Unpadded(data, urlSafe) + Repeat('=', padding), urlSafe) == Some(data)
    ensures padding == PaddingFor(|Groups(data)|) ==> Decoded(Padded(data, urlSafe), urlSafe) == Some(data)
    ensures padding == 0 ==> Decoded(Unpadded(data, urlSafe), urlSafe) == Some(data)
  {
    EncodedSplits(data, urlSafe, padding);
    SextetsOfUnpadded(data, urlSafe);
    GroupsKeepBits(data);
    ZerosAreDropped(data, Spare(data));
    if padding == 0 {
      assert Unpadded(data, urlSafe) + Repeat('=', padding) == Unpadded(data, urlSafe);
    }
  }

  lemma ZerosAreDropped(data: seq<Byte>, n: nat)
    requires n < 8
    ensures WholeOctets(DigitBits(data, 8) + Zeros(n)) == Some(data)
  {
    var bits := DigitBits(data, 8) + Zeros(n);
    assert |bits| == 8 * |data| + n;
    assert |bits| / 8 == |data|;
    OctetsOfBits(data, Zeros(n));
    assert bits[8 * |data|..] == Zeros(n);
  }

  /** Re-encoding an accepted text gives its characters back exactly when their number is not 1 modulo 4. */
  lemma EncodeInvertsDecode(text: string, urlSafe: bool)
    requires Decoded(text, urlSafe).Some?
    ensures var n := BodyLength(text);
            Unpadded(Decoded(text, urlSafe).value, urlSafe) == text[..n] <==> n % 4 != 1
  {
    var n := BodyLength(text);
    var data, digits := Decoded(text, urlSafe).value, Sextets(text[..n]);
    GroupCount(data);
    if n % 4 != 1 {
      GroupsOfAccepted(digits, data);
      SameCharacters(text[..n], Unpadded(data, urlSafe), urlSafe);
    }
  }

  lemma GroupsOfAccepted(digits: seq<int>, data: seq<Byte>)
    requires DigitsFit(digits, 6) && |digits| % 4 != 1 && WholeOctets(DigitBits(digits, 6)) == Some(data)
    ensures Groups(data) == digits
  {
    var bits := DigitBits(digits, 6);
    SextetCount(|digits|);
    GroupCount(data);
    AcceptedBits(bits);
    GroupsKeepBits(data);
    assert Power2(6) == 64;
    DigitBitsAreInjective(Groups(data), digits, 6);
  }

  lemma SextetCount(n: nat)
    requires n % 4 != 1
    ensures (8 * (6 * n / 8) + 5) / 6 == n
  {
    WholeGroups(n / 4, n % 4);
  }

  lemma WholeGroups(k: nat, r: nat)
    requires r < 4 && r != 1
    ensures (8 * (6 * (4 * k + r) / 8) + 5) / 6 == 4 * k + r
  {
    var octets := 3 * k + (if r == 0 then 0 else r - 1);
    assert 6 * (4 * k + r) == 8 * octets + (if r == 0 then 0 else 8 - 2 * r);
    assert 6 * (4 * k + r) / 8 == octets;
    assert 8 * octets + 5 == 6 * (4 * k + r) + (if r == 0 then 5 else 2 * r - 3);
  }

  lemma AcceptedBits(bits: seq<bool>)
    requires WholeOctets(bits).Some?
    ensures bits == DigitBits(WholeOctets(bits).value, 8) + Zeros(|bits| - 8 * (|bits| / 8))
  {
    var whole := 8 * (|bits| / 8);
    OctetBits(bits);
    assert bits == bits[..whole] + bits[whole..];
  }

  lemma SameCharacters(a: string, b: string, urlSafe: bool)
    requires |a| == |b| && Sextets(a) == Sextets(b)
    requires forall i :: 0 <= i < |a| ==> InAlphabet(a[i], urlSafe) && InAlphabet(b[i], urlSafe)
    ensures a == b
  {
    forall i | 0 <= i < |a| ensures a[i] == b[i] {
      assert Sextets(a)[i] == Sextets(b)[i];
      ValueIsInjective(a[i], b[i], urlSafe);
    }
  }

  lemma ValueIsInjective(x: char, y: char, urlSafe: bool)
    requires InAlphabet(x, urlSafe) && InAlphabet(y, urlSafe) && Base64Value(x) == Base64Value(y)
    ensures x == y
  {
  }
}
