/** Messages that are cut off, and what a part is in general (Payload/Loadout/LoadoutSerializer.cpp:1500-1648). */
module TruncatedMessages {
  import opened Basics
  import opened WeaponArchive
  import opened WeaponRoundTrip
  import opened WireFormat

  // ---- Varints ----

  /** A varint ends at its first byte below 128; without one it cannot be read. */
  lemma {:induction false} VarintEnds(overshift: Overshift, data: seq<Byte>, offset: nat, result: Word32, shift: nat,
                                      n: nat)
    requires offset <= n <= |data| && (forall k :: offset <= k < n ==> data[k] >= 128)
    requires n < |data| ==> data[n] < 128
    ensures var r := VarintFrom(overshift, data, offset, result, shift);
            (r.ok <==> n < |data|) && r.next == if n < |data| then n + 1 else |data|
    decreases n - offset
  {
    if offset < n {
      VarintEnds(overshift, data, offset + 1, AddBits(overshift, result, data[offset], shift), shift + 7, n);
    }
  }

  /** What a sixth byte or a later one adds is not determined. */
  lemma LateByteIsAnything(overshift: Overshift, data: seq<Byte>, offset: nat, result: Word32, shift: nat)
    requires offset < |data| && data[offset] < 128 && shift >= 32
    ensures VarintFrom(overshift, data, offset, result, shift) ==
            VarintResult(overshift(result, data[offset], shift), offset + 1, true)
  {
  }

  /** All bytes of a written varint but the last are 128 or more. */
  lemma {:induction false} OnlyLastByteEnds(v: nat, k: nat)
    requires k < |WriteVarint(v)|
    ensures WriteVarint(v)[k] >= 128 <==> k + 1 < |WriteVarint(v)|
  {
    if v >= 128 {
      assert WriteVarint(v) == [v % 128 + 128] + WriteVarint(v / 128);
      if k > 0 {
        OnlyLastByteEnds(v / 128, k - 1);
      }
    }
  }

  /** A varint that is cut off cannot be read. */
  lemma CutVarint(overshift: Overshift, data: seq<Byte>, offset: nat, v: nat, k: nat)
    requires offset <= |data| && k < |WriteVarint(v)| && data[offset..] == WriteVarint(v)[..k]
    ensures !Varint(overshift, data, offset).ok
  {
    forall j | offset <= j < |data| ensures data[j] >= 128 {
      assert data[offset..][j - offset] == WriteVarint(v)[j - offset];
      OnlyLastByteEnds(v, j - offset);
    }
    VarintEnds(overshift, data, offset, 0, 0, |data|);
  }

  // ---- Fields ----

  /** A tag of wire type 3, 4, 6 or 7 stops the reading. */
  lemma UnreadableWireStops(overshift: Overshift, data: seq<Byte>, offset: nat, number: nat, wire: nat)
    requires number < 0x2000_0000 && (wire == 3 || wire == 4 || wire == 6 || wire == 7)
    requires At(data, offset, WriteVarint(number * 8 + wire))
    ensures NextField(overshift, data, offset) == Cut(Some(number), wire)
  {
    TagParts(number, wire);
    ReadInvertsWrite(overshift, data, offset, number * 8 + wire);
  }

  /** What is left of a field from which bytes at the end are missing: its number and wire type, if the tag is there. */
  function CutOff(f: Field, k: nat): FieldResult {
    if k < |WriteVarint(f.number * 8 + f.wire)| then Cut(None, 0) else Cut(Some(f.number), f.wire)
  }

  lemma CutValue(overshift: Overshift, data: seq<Byte>, offset: nat, f: Field, k: nat)
    requires Writable(f) && k < |WriteValue(f)| && offset <= |data| && data[offset..] == WriteValue(f)[..k]
    ensures FieldValue(overshift, data, offset, f.number, f.wire) == Cut(Some(f.number), f.wire)
  {
    if f.wire == 0 {
      CutVarint(overshift, data, offset, f.value, k);
    } else if f.wire == 2 {
      CutBytes(overshift, data, offset, f, k);
    }
  }

  lemma CutBytes(overshift: Overshift, data: seq<Byte>, offset: nat, f: Field, k: nat)
    requires Writable(f) && f.wire == 2 && k < |WriteValue(f)| && offset <= |data|
    requires data[offset..] == WriteValue(f)[..k]
    ensures FieldValue(overshift, data, offset, f.number, 2) == Cut(Some(f.number), 2)
  {
    var length := WriteVarint(|f.bytes|);
    if k < |length| {
      assert WriteValue(f)[..k] == length[..k];
      CutVarint(overshift, data, offset, |f.bytes|, k);
    } else {
      StartOfRest(data, offset, length, f.bytes, k);
      ReadInvertsWrite(overshift, data, offset, |f.bytes|);
    }
  }

  /** What follows the offset begins with a, and goes on with what is left of b. */
  lemma StartOfRest(data: seq<Byte>, offset: nat, a: seq<Byte>, b: seq<Byte>, k: nat)
    requires offset <= |data| && |a| <= k <= |a + b| && data[offset..] == (a + b)[..k]
    ensures At(data, offset, a) && offset + |a| <= |data| && data[offset + |a|..] == b[..k - |a|]
  {
    assert data[offset..][..|a|] == a && data[offset..][|a|..] == b[..k - |a|];
  }

  lemma CutField(overshift: Overshift, data: seq<Byte>, offset: nat, f: Field, k: nat)
    requires Writable(f) && k < |WriteField(f)| && offset <= |data| && data[offset..] == WriteField(f)[..k]
    ensures NextField(overshift, data, offset) == CutOff(f, k)
  {
    var tag := f.number * 8 + f.wire;
    if k < |WriteVarint(tag)| {
      assert WriteField(f)[..k] == WriteVarint(tag)[..k];
      CutVarint(overshift, data, offset, tag, k);
    } else {
      var next := offset + |WriteVarint(tag)|;
      StartOfRest(data, offset, WriteVarint(tag), WriteValue(f), k);
      ReadInvertsWrite(overshift, data, offset, tag);
      NextFieldOf(overshift, data, offset, tag, next);
      TagParts(f.number, f.wire);
      CutValue(overshift, data, next, f, k - |WriteVarint(tag)|);
    }
  }

  // ---- Messages ----

  /** Written fields are read back, whatever follows them. */
  lemma {:induction false} ScanPrefix(overshift: Overshift, data: seq<Byte>, offset: nat, fields: seq<Field>, end: nat)
    requires AllWritable(fields) && At(data, offset, WriteFields(fields)) && end == offset + |WriteFields(fields)|
    ensures Scan(overshift, data, offset) ==
            Message(fields + Scan(overshift, data, end).fields, Scan(overshift, data, end).cut)
    decreases |fields|
  {
    if fields == [] {
      NoFields(Scan(overshift, data, offset).fields);
    } else {
      var next, rest := offset + |WriteField(fields[0])|, fields[1..];
      FirstFieldAt(data, offset, fields, next, rest);
      RestIsWritable(fields);
      ReadFieldInvertsWrite(overshift, data, offset, fields[0]);
      ScanPrefix(overshift, data, next, rest, end);
      ScanFirst(overshift, data, offset, fields[0], next);
      FrontOfConcat(fields, Scan(overshift, data, end).fields);
    }
  }

  lemma NoFields(fields: seq<Field>)
    ensures [] + fields == fields
  {
  }

  lemma FrontOfConcat(fields: seq<Field>, end: seq<Field>)
    requires fields != []
    ensures [fields[0]] + (fields[1..] + end) == fields + end
  {
  }

  lemma ScanFirst(overshift: Overshift, data: seq<Byte>, offset: nat, f: Field, next: nat)
    requires offset < |data| && next <= |data| && NextField(overshift, data, offset) == Whole(f, next)
    ensures var rest := Scan(overshift, data, next);
            Scan(overshift, data, offset) == Message([f] + rest.fields, rest.cut)
  {
  }

  /** A written message, cut off after any byte of its last field, is read as the fields before. */
  lemma TruncatedMessage(overshift: Overshift, fields: seq<Field>, f: Field, k: nat)
    requires AllWritable(fields) && Writable(f) && 0 < k < |WriteField(f)|
    ensures Scan(overshift, WriteFields(fields) + WriteField(f)[..k], 0) == Message(fields, CutOff(f, k))
  {
    var whole, data := WriteFields(fields), WriteFields(fields) + WriteField(f)[..k];
    assert data[0..0 + |whole|] == whole && data[|whole|..] == WriteField(f)[..k];
    ScanPrefix(overshift, data, 0, fields, |whole|);
    CutField(overshift, data, |whole|, f, k);
    assert fields + [] == fields;
  }

  /** An archive that is cut off is the archive of the fields before. */
  lemma TruncatedArchive(overshift: Overshift, fields: seq<Field>, f: Field, k: nat)
    requires AllWritable(fields) && Writable(f) && 0 < k < |WriteField(f)|
    ensures WeaponOf(overshift, WriteFields(fields) + WriteField(f)[..k]) == WeaponOf(overshift, WriteFields(fields))
  {
    TruncatedMessage(overshift, fields, f, k);
    ScanInvertsWrite(overshift, fields);
  }

  // ---- Parts ----

  /** The last field of this number and wire type. */
  predicate IsLast(fields: seq<Field>, i: nat, number: nat, wire: nat) {
    i < |fields| && fields[i].number == number && fields[i].wire == wire &&
    forall k :: i < k < |fields| ==> !(fields[k].number == number && fields[k].wire == wire)
  }

  predicate HasNone(fields: seq<Field>, number: nat, wire: nat) {
    forall k :: 0 <= k < |fields| ==> !(fields[k].number == number && fields[k].wire == wire)
  }

  lemma PartFoldLast(p: Part, fields: seq<Field>)
    requires fields != []
    ensures PartFold(p, fields) == PartStep(PartFold(p, fields[..|fields| - 1]), fields[|fields| - 1])
  {
    var n := |fields| - 1;
    assert fields == fields[..n] + [fields[n]];
    PartFoldConcat(p, fields[..n], [fields[n]]);
    assert [fields[n]][1..] == [];
  }

  lemma LastOfFront(fields: seq<Field>, i: nat, number: nat, wire: nat)
    requires IsLast(fields, i, number, wire) && i + 1 < |fields|
    ensures IsLast(fields[..|fields| - 1], i, number, wire) && !IsLast(fields, |fields| - 1, number, wire)
  {
  }

  lemma {:induction false} FoldedSlot(fields: seq<Field>, i: nat)
    requires IsLast(fields, i, 1, 0)
    ensures PartFold(NO_PART, fields).slot ==
            if fields[i].value < 0x8000_0000 then fields[i].value else fields[i].value - 0x1_0000_0000
  {
    PartFoldLast(NO_PART, fields);
    if i + 1 < |fields| {
      LastOfFront(fields, i, 1, 0);
      FoldedSlot(fields[..|fields| - 1], i);
    }
  }

  lemma {:induction false} FoldedId(fields: seq<Field>, j: nat)
    requires IsLast(fields, j, 2, 2)
    ensures PartFold(NO_PART, fields).id == fields[j].bytes
  {
    PartFoldLast(NO_PART, fields);
    if j + 1 < |fields| {
      LastOfFront(fields, j, 2, 2);
      FoldedId(fields[..|fields| - 1], j);
    }
  }

  lemma {:induction false} NothingFolded(fields: seq<Field>)
    ensures HasNone(fields, 1, 0) ==> PartFold(NO_PART, fields).slot < 0
    ensures HasNone(fields, 2, 2) ==> PartFold(NO_PART, fields).id == []
  {
    if fields != [] {
      NothingFolded(fields[..|fields| - 1]);
      PartFoldLast(NO_PART, fields);
    }
  }

  /** A part has the last slot and the last id of its message. It counts only if both are there, the slot is below 2^31
      and the id is not empty. */
  lemma PartExactly(overshift: Overshift, fields: seq<Field>)
    requires AllWritable(fields)
    ensures HasNone(fields, 1, 0) || HasNone(fields, 2, 2) ==> PartOf(overshift, WriteFields(fields)) == None
    ensures forall i: nat, j: nat :: IsLast(fields, i, 1, 0) && IsLast(fields, j, 2, 2) ==>
              var value, id := fields[i].value, fields[j].bytes;
              PartOf(overshift, WriteFields(fields)) ==
              if value < 0x8000_0000 && id != [] then Some(Part(value, id)) else None
  {
    ScanInvertsWrite(overshift, fields);
    NothingFolded(fields);
    forall i: nat | IsLast(fields, i, 1, 0)
      ensures PartFold(NO_PART, fields).slot ==
              if fields[i].value < 0x8000_0000 then fields[i].value else fields[i].value - 0x1_0000_0000
    {
      FoldedSlot(fields, i);
    }
    forall j: nat | IsLast(fields, j, 2, 2) ensures PartFold(NO_PART, fields).id == fields[j].bytes {
      FoldedId(fields, j);
    }
  }

  /** A part that is cut off is the part of the fields before, but for one case: a slot cut off after its tag is 0. */
  lemma TruncatedPart(overshift: Overshift, fields: seq<Field>, f: Field, k: nat)
    requires AllWritable(fields) && Writable(f) && 0 < k < |WriteField(f)|
    ensures var kept := if f.number == 1 && f.wire == 0 then fields + [Field(1, 0, 0, [])] else fields;
            PartOf(overshift, WriteFields(fields) + WriteField(f)[..k]) == PartOf(overshift, WriteFields(kept))
  {
    TruncatedMessage(overshift, fields, f, k);
    ScanInvertsWrite(overshift, fields);
    if f.number == 1 && f.wire == 0 {
      SlotTag();
      WithSlotZero(overshift, fields);
    }
  }

  lemma SlotTag()
    ensures |WriteVarint(1 * 8 + 0)| == 1
  {
  }

  lemma WithSlotZero(overshift: Overshift, fields: seq<Field>)
    requires AllWritable(fields)
    ensures PartOf(overshift, WriteFields(fields + [Field(1, 0, 0, [])])) ==
            PartResult(PartFold(NO_PART, fields).(slot := 0))
  {
    var slot := Field(1, 0, 0, []);
    ScanInvertsWrite(overshift, fields + [slot]);
    PartFoldConcat(NO_PART, fields, [slot]);
    assert [slot][1..] == [];
  }

  // ---- Hexadecimal pairs ----

  predicate IsHexDigit(ch: char) {
    '0' <= ch <= '9' || 'a' <= ch <= 'f' || 'A' <= ch <= 'F'
  }

  /** Two digits in either case give a byte; a digit after a blank or a plus its value; a digit after a minus the
      negative, modulo 256. Nothing else is a pair. */
  lemma HexPairExactly(a: char, b: char, x: nat, upperX: bool, y: nat, upperY: bool)
    requires x < 16 && y < 16
    ensures HexPair(HexDigit(x, upperX), HexDigit(y, upperY)) == Some(16 * x + y)
    ensures a == ' ' || a == '\t' || a == '\n' || a == '\r' || a == 11 as char || a == 12 as char || a == '+' ==>
              HexPair(a, HexDigit(y, upperY)) == Some(y)
    ensures HexPair('-', HexDigit(y, upperY)) == Some(if y == 0 then 0 else 256 - y)
    ensures !IsHexDigit(b) ==> HexPair(a, b) == None
    ensures !IsHexDigit(a) && a != ' ' && !('\t' <= a <= '\r') && a != '+' && a != '-' ==> HexPair(a, b) == None
  {
  }
}
