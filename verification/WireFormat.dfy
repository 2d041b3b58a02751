/** Hexadecimal text, varints and fields of the minimal protobuf reader
    (Payload/Loadout/LoadoutSerializer.cpp:1500-1557). */
module WireFormat {
  import opened Basics
  import opened Bits
  import opened BitStrings
  import opened Modular

  const WORD_SIZE := 0x1_0000_0000

  /** An unsigned 32-bit word. */
  type Word32 = x: int | 0 <= x < 0x1_0000_0000

  // ---- Varints ----

  /** What a shift by 32 or more adds is undefined in C++: any word, as a function of what was read. */
  type Overshift = (int, Byte, nat) -> Word32

  datatype VarintResult = VarintResult(value: Word32, next: nat, ok: bool)

  /** One more byte of a varint; bits beyond the word are lost. */
  function AddBits(overshift: Overshift, result: Word32, b: Byte, shift: nat): Word32 {
    if shift >= 32 then overshift(result, b, shift)
    else
      WordIsPower();
      OrIsBounded(result, Shifted(b, shift), 32);
      Or(result, Shifted(b, shift))
  }

  function Shifted(b: Byte, shift: nat): Word32 {
    b % 128 * Power2(shift) % WORD_SIZE
  }

  lemma ShiftedFits(b: Byte, shift: nat, w: nat)
    requires w == Power2(shift) && 0 <= b % 128 * w < WORD_SIZE
    ensures Shifted(b, shift) == b % 128 * w
  {
  }

  /** The new bits do not overlap the old ones, so the disjunction is a sum. */
  lemma AddBitsIsSum(overshift: Overshift, result: Word32, b: Byte, shift: nat, w: nat)
    requires shift < 32 && w == Power2(shift) && result < w && 0 <= b % 128 * w < WORD_SIZE
    ensures AddBits(overshift, result, b, shift) == result + b % 128 * w
  {
    ShiftedFits(b, shift, w);
    OrCommutes(result, Shifted(b, shift));
    OrOfDisjoint(result, b % 128, shift);
  }

  function VarintFrom(overshift: Overshift, data: seq<Byte>, offset: nat, result: Word32, shift: nat): (r: VarintResult)
    requires offset <= |data|
    ensures offset <= r.next <= |data| && (r.ok ==> offset < r.next) && (!r.ok ==> r.value == 0 && r.next == |data|)
    decreases |data| - offset
  {
    if offset == |data| then VarintResult(0, offset, false)
    else
      var sum := AddBits(overshift, result, data[offset], shift);
      if data[offset] < 128 then VarintResult(sum, offset + 1, true)
      else VarintFrom(overshift, data, offset + 1, sum, shift + 7)
  }

  function Varint(overshift: Overshift, data: seq<Byte>, offset: nat): (r: VarintResult)
    requires offset <= |data|
    ensures offset <= r.next <= |data| && (r.ok ==> offset < r.next) && (!r.ok ==> r.value == 0)
  {
    VarintFrom(overshift, data, offset, 0, 0)
  }

  method ReadVarint(overshift: Overshift, data: seq<Byte>, offset: nat) returns (value: Word32, next: nat, ok: bool)
    requires offset <= |data|
    ensures VarintResult(value, next, ok) == Varint(overshift, data, offset)
  {
    var result: Word32, shift := 0, 0;
    next := offset;
    while next < |data|
      invariant offset <= next <= |data|
      invariant VarintFrom(overshift, data, next, result, shift) == Varint(overshift, data, offset)
    {
      var b := data[next];
      next := next + 1;
      result := AddBits(overshift, result, b, shift);
      if b < 128 {
        return result, next, true;
      }
      shift := shift + 7;
    }
    value, ok := 0, false;
  }

  /** The shortest varint of a number. */
  function WriteVarint(v: nat): (bytes: seq<Byte>)
    ensures bytes != []
  {
    if v < 128 then [v] else [v % 128 + 128] + WriteVarint(v / 128)
  }

  /** `part` stands in `data` at `offset`. */
  predicate At(data: seq<Byte>, offset: nat, part: seq<Byte>) {
    offset + |part| <= |data| && data[offset..offset + |part|] == part
  }

  lemma AtSplit(data: seq<Byte>, offset: nat, a: seq<Byte>, b: seq<Byte>)
    requires At(data, offset, a + b)
    ensures At(data, offset, a) && At(data, offset + |a|, b)
  {
    var whole := a + b;
    assert data[offset..offset + |whole|][..|a|] == a && data[offset..offset + |whole|][|a|..] == b;
  }

  lemma LowPart(v: nat, w: nat)
    ensures v * w == v % 128 * w + v / 128 * (128 * w)
    ensures 0 <= v % 128 * w <= 127 * w && 0 <= v / 128 * (128 * w)
  {
    var q, r := v / 128, v % 128;
    Distribute(w, r, q * 128);
    Associate(q, 128, w);
    ScaleInequality(0, r, w);
    ScaleInequality(r, 127, w);
    ScaleInequality(0, q, 128 * w);
  }

  lemma WordIsPower()
    ensures Power2(32) == WORD_SIZE && Power2(7) == 128
  {
    assert Power2(4) == 16 && Power2(7) == 128;
    Power2Adds(4, 4);
    Power2Adds(8, 8);
    Power2Adds(16, 16);
  }

  /** A value with something left to read fits a shift below 32. */
  lemma ShiftIsInWord(v: nat, w: nat, shift: nat)
    requires w == Power2(shift) && v > 0 && v * w < WORD_SIZE
    ensures shift < 32
  {
    WordIsPower();
    ScaleInequality(1, v, w);
    if shift >= 32 {
      Power2Grows(32, shift);
    }
  }

  /** Reading one byte of a value adds its seven bits and leaves the rest for the next shift. */
  lemma ReadByte(overshift: Overshift, result: Word32, v: nat, b: Byte, shift: nat, w: nat)
    requires w == Power2(shift) && result < w && result + v * w < WORD_SIZE && (v > 0 || shift < 32) &&
             b % 128 == v % 128
    ensures var sum := result + v % 128 * w;
            AddBits(overshift, result, b, shift) == sum < 128 * w == Power2(shift + 7) &&
            result + v * w == sum + v / 128 * (128 * w) < WORD_SIZE
  {
    LowPart(v, w);
    if v > 0 {
      ShiftIsInWord(v, w, shift);
    }
    WordIsPower();
    AddBitsIsSum(overshift, result, b, shift, w);
    Power2Adds(7, shift);
  }

  lemma {:induction false} ReadInvertsWriteFrom(overshift: Overshift, data: seq<Byte>, offset: nat, v: nat,
                                                result: Word32, shift: nat, w: nat)
    requires At(data, offset, WriteVarint(v)) && w == Power2(shift) && result < w && result + v * w < WORD_SIZE
    requires v > 0 || shift < 32
    ensures VarintFrom(overshift, data, offset, result, shift) ==
            VarintResult(result + v * w, offset + |WriteVarint(v)|, true)
    decreases v
  {
    if v < 128 {
      assert data[offset] == data[offset..offset + 1][0] == v;
      ReadByte(overshift, result, v, v, shift, w);
    } else {
      var b: Byte := v % 128 + 128;
      AtSplit(data, offset, [b], WriteVarint(v / 128));
      assert data[offset] == data[offset..offset + 1][0] == b;
      ReadByte(overshift, result, v, b, shift, w);
      ReadInvertsWriteFrom(overshift, data, offset + 1, v / 128, result + v % 128 * w, shift + 7, 128 * w);
    }
  }

  lemma ReadInvertsWrite(overshift: Overshift, data: seq<Byte>, offset: nat, v: Word32)
    requires At(data, offset, WriteVarint(v))
    ensures Varint(overshift, data, offset) == VarintResult(v, offset + |WriteVarint(v)|, true)
  {
    ReadInvertsWriteFrom(overshift, data, offset, v, 0, 0, 1);
  }

  // ---- Fields ----

  /** A field: its number, wire type, its value when it is a varint, and its bytes otherwise. */
  datatype Field = Field(number: nat, wire: nat, value: Word32, bytes: seq<Byte>)

  /** A field that was read whole, or the number and wire type of one whose value is cut off or unreadable; the number
      is missing when the tag itself is cut off. */
  datatype FieldResult = Whole(field: Field, next: nat) | Cut(number: Option<nat>, wire: nat)

  function Fixed(data: seq<Byte>, offset: nat, number: nat, wire: nat, length: nat): FieldResult
    requires offset <= |data|
  {
    if offset + length > |data| then Cut(Some(number), wire)
    else Whole(Field(number, wire, 0, data[offset..offset + length]), offset + length)
  }

  /** The value after a tag. */
  function FieldValue(overshift: Overshift, data: seq<Byte>, offset: nat, number: nat, wire: nat): (r: FieldResult)
    requires offset <= |data|
    ensures r.Whole? ==> offset <= r.next <= |data| && r.field.number == number && r.field.wire == wire
    ensures r.Cut? ==> r == Cut(Some(number), wire)
  {
    if wire == 0 then
      var v := Varint(overshift, data, offset);
      if v.ok then Whole(Field(number, 0, v.value, []), v.next) else Cut(Some(number), 0)
    else if wire == 1 then Fixed(data, offset, number, 1, 8)
    else if wire == 2 then
      var length := Varint(overshift, data, offset);
      if length.ok then Fixed(data, length.next, number, 2, length.value) else Cut(Some(number), 2)
    else if wire == 5 then Fixed(data, offset, number, 5, 4)
    else Cut(Some(number), wire)
  }

  function NextField(overshift: Overshift, data: seq<Byte>, offset: nat): (r: FieldResult)
    requires offset <= |data|
    ensures r.Whole? ==> offset < r.next <= |data|
  {
    var tag := Varint(overshift, data, offset);
    if tag.ok then FieldValue(overshift, data, tag.next, tag.value / 8, tag.value % 8) else Cut(None, 0)
  }

  /** The fields of a message up to its end or to the first that cannot be read. */
  datatype Message = Message(fields: seq<Field>, cut: FieldResult)

  const COMPLETE := Cut(None, 0)

  function Scan(overshift: Overshift, data: seq<Byte>, offset: nat): Message
    requires offset <= |data|
    decreases |data| - offset
  {
    if offset == |data| then Message([], COMPLETE)
    else
      match NextField(overshift, data, offset)
      case Cut(number, wire) => Message([], Cut(number, wire))
      case Whole(field, next) =>
        var rest := Scan(overshift, data, next);
        Message([field] + rest.fields, rest.cut)
  }

  /** A scan is the next field and the scan after it, or ends where no field can be read. */
  lemma ScanStep(overshift: Overshift, data: seq<Byte>, offset: nat)
    requires offset < |data|
    ensures var field, m := NextField(overshift, data, offset), Scan(overshift, data, offset);
            if field.Cut? then m == Message([], field)
            else m.fields != [] && m.fields[0] == field.field &&
                 m.fields[1..] == Scan(overshift, data, field.next).fields &&
                 m.cut == Scan(overshift, data, field.next).cut
  {
  }

  /** Skips a value; the same bytes are passed over as when it is read. */
  method SkipWireValue(overshift: Overshift, data: seq<Byte>, offset: nat, ghost number: nat, wire: nat)
    returns (next: nat, skipped: bool)
    requires offset <= |data|
    ensures skipped <==> FieldValue(overshift, data, offset, number, wire).Whole?
    ensures skipped ==> next == FieldValue(overshift, data, offset, number, wire).next
  {
    next := offset;
    match wire {
      case 0 =>
        var value, after, ok := ReadVarint(overshift, data, offset);
        return after, ok;
      case 1 =>
        if offset + 8 > |data| {
          return offset, false;
        }
        return offset + 8, true;
      case 2 =>
        var length, after, ok := ReadVarint(overshift, data, offset);
        if !ok || after + length > |data| {
          return after, false;
        }
        return after + length, true;
      case 5 =>
        if offset + 4 > |data| {
          return offset, false;
        }
        return offset + 4, true;
      case _ =>
        return offset, false;
    }
  }

  /** Reads a length and that many bytes, as every loop does for wire type 2. */
  method ReadBytes(overshift: Overshift, data: seq<Byte>, offset: nat, ghost number: nat)
    returns (payload: seq<Byte>, next: nat, ok: bool)
    requires offset <= |data|
    ensures ok <==> FieldValue(overshift, data, offset, number, 2).Whole?
    ensures ok ==> FieldValue(overshift, data, offset, number, 2) == Whole(Field(number, 2, 0, payload), next)
  {
    var length, after, read := ReadVarint(overshift, data, offset);
    if !read || after + length > |data| {
      return [], after, false;
    }
    return data[after..after + length], after + length, true;
  }

  // ---- Writing fields ----

  predicate Writable(f: Field) {
    f.number < 0x2000_0000 &&
    (match f.wire
     case 0 => f.bytes == []
     case 1 => f.value == 0 && |f.bytes| == 8
     case 2 => f.value == 0 && |f.bytes| < WORD_SIZE
     case 5 => f.value == 0 && |f.bytes| == 4
     case _ => false)
  }

  predicate AllWritable(fields: seq<Field>) {
    forall k :: 0 <= k < |fields| ==> Writable(fields[k])
  }

  function WriteValue(f: Field): seq<Byte> {
    if f.wire == 0 then WriteVarint(f.value)
    else if f.wire == 2 then WriteVarint(|f.bytes|) + f.bytes
    else f.bytes
  }

  function WriteField(f: Field): seq<Byte> {
    WriteVarint(f.number * 8 + f.wire) + WriteValue(f)
  }

  function WriteFields(fields: seq<Field>): seq<Byte> {
    if fields == [] then [] else WriteField(fields[0]) + WriteFields(fields[1..])
  }

  lemma ReadBytesInvertsWrite(overshift: Overshift, data: seq<Byte>, offset: nat, f: Field)
    requires Writable(f) && f.wire == 2 && At(data, offset, WriteVarint(|f.bytes|) + f.bytes)
    ensures FieldValue(overshift, data, offset, f.number, 2) ==
            Whole(f, offset + |WriteVarint(|f.bytes|)| + |f.bytes|)
  {
    AtSplit(data, offset, WriteVarint(|f.bytes|), f.bytes);
    ReadInvertsWrite(overshift, data, offset, |f.bytes|);
  }

  lemma ReadValueInvertsWrite(overshift: Overshift, data: seq<Byte>, offset: nat, f: Field)
    requires Writable(f) && At(data, offset, WriteValue(f))
    ensures FieldValue(overshift, data, offset, f.number, f.wire) == Whole(f, offset + |WriteValue(f)|)
  {
    if f.wire == 0 {
      ReadInvertsWrite(overshift, data, offset, f.value);
    } else if f.wire == 2 {
      ReadBytesInvertsWrite(overshift, data, offset, f);
    }
  }

  lemma TagParts(number: nat, wire: nat)
    requires wire < 8
    ensures (number * 8 + wire) / 8 == number && (number * 8 + wire) % 8 == wire
  {
  }

  lemma NextFieldOf(overshift: Overshift, data: seq<Byte>, offset: nat, tag: Word32, next: nat)
    requires offset <= |data| && Varint(overshift, data, offset) == VarintResult(tag, next, true)
    ensures next <= |data| && NextField(overshift, data, offset) == FieldValue(overshift, data, next, tag / 8, tag % 8)
  {
  }

  lemma ReadFieldInvertsWrite(overshift: Overshift, data: seq<Byte>, offset: nat, f: Field)
    requires Writable(f) && At(data, offset, WriteField(f))
    ensures NextField(overshift, data, offset) == Whole(f, offset + |WriteField(f)|)
  {
    var tag := f.number * 8 + f.wire;
    TagParts(f.number, f.wire);
    var next := offset + |WriteVarint(tag)|;
    AtSplit(data, offset, WriteVarint(tag), WriteValue(f));
    ReadInvertsWrite(overshift, data, offset, tag);
    ReadValueInvertsWrite(overshift, data, next, f);
    NextFieldOf(overshift, data, offset, tag, next);
  }

  lemma FirstFieldAt(data: seq<Byte>, offset: nat, fields: seq<Field>, next: nat, rest: seq<Field>)
    requires fields != [] && At(data, offset, WriteFields(fields))
    requires next == offset + |WriteField(fields[0])| && rest == fields[1..]
    ensures At(data, offset, WriteField(fields[0])) && At(data, next, WriteFields(rest))
    ensures offset + |WriteFields(fields)| == next + |WriteFields(rest)|
  {
    var first := WriteField(fields[0]);
    WriteFieldsSplit(fields);
    AtSplit(data, offset, first, WriteFields(rest));
  }

  lemma RestIsWritable(fields: seq<Field>)
    requires fields != [] && AllWritable(fields)
    ensures Writable(fields[0]) && AllWritable(fields[1..])
  {
  }

  lemma WriteFieldsSplit(fields: seq<Field>)
    requires fields != []
    ensures WriteFields(fields) == WriteField(fields[0]) + WriteFields(fields[1..])
  {
  }

  /** Scanning inverts writing, for every list of fields. */
  lemma {:induction false} ScanInvertsWriteAt(overshift: Overshift, data: seq<Byte>, offset: nat, fields: seq<Field>)
    requires AllWritable(fields) && At(data, offset, WriteFields(fields))
    requires offset + |WriteFields(fields)| == |data|
    ensures Scan(overshift, data, offset) == Message(fields, COMPLETE)
    decreases |fields|
  {
    if fields != [] {
      var next, rest := offset + |WriteField(fields[0])|, fields[1..];
      FirstFieldAt(data, offset, fields, next, rest);
      RestIsWritable(fields);
      ReadFieldInvertsWrite(overshift, data, offset, fields[0]);
      ScanInvertsWriteAt(overshift, data, next, rest);
      ScanWhole(overshift, data, offset, fields, next);
    } else {
      NothingLeft(overshift, data, offset);
    }
  }

  lemma NothingLeft(overshift: Overshift, data: seq<Byte>, offset: nat)
    requires offset == |data|
    ensures Scan(overshift, data, offset) == Message([], COMPLETE)
  {
  }

  lemma ScanWhole(overshift: Overshift, data: seq<Byte>, offset: nat, fields: seq<Field>, next: nat)
    requires offset < |data| && next <= |data| && fields != []
    requires NextField(overshift, data, offset) == Whole(fields[0], next)
    requires Scan(overshift, data, next) == Message(fields[1..], COMPLETE)
    ensures Scan(overshift, data, offset) == Message(fields, COMPLETE)
  {
    FirstAndRest(fields);
  }

  lemma FirstAndRest(fields: seq<Field>)
    requires fields != []
    ensures [fields[0]] + fields[1..] == fields
  {
  }

  lemma ScanInvertsWrite(overshift: Overshift, fields: seq<Field>)
    requires AllWritable(fields)
    ensures Scan(overshift, WriteFields(fields), 0) == Message(fields, COMPLETE)
  {
    var data := WriteFields(fields);
    assert data[0..0 + |data|] == data;
    ScanInvertsWriteAt(overshift, data, 0, fields);
  }

  // ---- Hexadecimal text ----

  /** The value of a hexadecimal digit, or 16. */
  function DigitValue(ch: char): (v: nat)
    ensures v <= 16
  {
    if '0' <= ch <= '9' then ch as int - '0' as int
    else if 'a' <= ch <= 'f' then ch as int - 'a' as int + 10
    else if 'A' <= ch <= 'F' then ch as int - 'A' as int + 10
    else 16
  }

  predicate IsBlank(ch: char) {
    ch == ' ' || '\t' <= ch <= '\r'
  }

  /** What strtol with base 16 makes of two characters, if it takes both: besides two digits, a digit after a blank or a
      sign. The cast to a byte wraps a negative value around. */
  function HexPair(a: char, b: char): Option<Byte> {
    if DigitValue(b) == 16 then None
    else if DigitValue(a) < 16 then Some(16 * DigitValue(a) + DigitValue(b))
    else if IsBlank(a) || a == '+' then Some(DigitValue(b))
    else if a == '-' then Some((256 - DigitValue(b)) % 256)
    else None
  }

  function HexBytes(hex: string): Option<seq<Byte>> {
    if |hex| % 2 != 0 then None
    else if hex == "" then Some([])
    else
      var first, rest := HexPair(hex[0], hex[1]), HexBytes(hex[2..]);
      if first.Some? && rest.Some? then Some([first.value] + rest.value) else None
  }

  method HexToBytes(hex: string) returns (ok: bool, bytes: seq<Byte>)
    ensures ok <==> HexBytes(hex).Some?
    ensures ok ==> bytes == HexBytes(hex).value
  {
    bytes := [];
    if |hex| % 2 != 0 {
      return false, [];
    }
    var i := 0;
    assert hex[0..] == hex;
    assert HexBytes(hex).Some? ==> bytes + HexBytes(hex).value == HexBytes(hex).value;
    while i < |hex|
      invariant i <= |hex| && i % 2 == 0
      invariant HexBytes(hex) == var rest := HexBytes(hex[i..]); if rest.Some? then Some(bytes + rest.value) else None
    {
      var pair := HexPair(hex[i], hex[i + 1]);
      assert hex[i..][2..] == hex[i + 2..];
      if pair.None? {
        return false, bytes;
      }
      ghost var rest := HexBytes(hex[i + 2..]);
      assert rest.Some? ==> bytes + ([pair.value] + rest.value) == (bytes + [pair.value]) + rest.value;
      bytes := bytes + [pair.value];
      i := i + 2;
    }
    ok := true;
  }

  function HexDigit(v: nat, upper: bool): (ch: char)
    requires v < 16
    ensures DigitValue(ch) == v
  {
    if v < 10 then '0' + v as char else if upper then 'A' + (v - 10) as char else 'a' + (v - 10) as char
  }

  function WriteHex(bytes: seq<Byte>, upper: bool): (hex: string)
    ensures |hex| == 2 * |bytes|
  {
    if bytes == [] then ""
    else [HexDigit(bytes[0] / 16, upper), HexDigit(bytes[0] % 16, upper)] + WriteHex(bytes[1..], upper)
  }

  lemma {:induction false} HexInvertsWrite(bytes: seq<Byte>, upper: bool)
    ensures HexBytes(WriteHex(bytes, upper)) == Some(bytes)
  {
    if bytes != [] {
      HexInvertsWrite(bytes[1..], upper);
      var hex := WriteHex(bytes, upper);
      assert hex[2..] == WriteHex(bytes[1..], upper);
      assert HexPair(hex[0], hex[1]) == Some(bytes[0]);
      assert bytes == [bytes[0]] + bytes[1..];
    }
  }
}
