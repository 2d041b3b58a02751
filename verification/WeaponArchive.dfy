/** Decoding weapon archives from hexadecimal protobuf text (Payload/Loadout/LoadoutSerializer.cpp:1559-1708).
    Identifiers are byte strings; the fixed default entries of the produced objects are left out. */
module WeaponArchive {
  import opened Basics
  import opened WireFormat

  datatype Part = Part(slot: int, id: seq<Byte>)
  datatype Weapon = Weapon(id: seq<Byte>, parts: seq<Part>)
  type Configs = map<seq<Byte>, Weapon>

  /** The cast of a word to a signed 32-bit integer. */
  function AsInt32(v: Word32): int {
    if v < 0x8000_0000 then v else v - WORD_SIZE
  }

  // ---- What the fields of a message mean ----

  predicate Is(f: Field, number: nat, wire: nat) {
    f.number == number && f.wire == wire
  }

  function PartStep(p: Part, f: Field): Part {
    if Is(f, 1, 0) then p.(slot := AsInt32(f.value)) else if Is(f, 2, 2) then p.(id := f.bytes) else p
  }

  function PartFold(p: Part, fields: seq<Field>): Part
    decreases |fields|
  {
    if fields == [] then p else PartFold(PartStep(p, fields[0]), fields[1..])
  }

  function PartResult(p: Part): Option<Part> {
    if p.slot < 0 || p.id == [] then None else Some(p)
  }

  /** A slot whose varint is cut off counts as slot 0. */
  function PartFrom(p: Part, m: Message): Option<Part> {
    var end := PartFold(p, m.fields);
    PartResult(if m.cut == Cut(Some(1), 0) then end.(slot := 0) else end)
  }

  const NO_PART := Part(-1, [])

  function PartOf(overshift: Overshift, data: seq<Byte>): Option<Part> {
    PartFrom(NO_PART, Scan(overshift, data, 0))
  }

  function WeaponStep(overshift: Overshift, w: Weapon, f: Field): Weapon {
    if Is(f, 1, 2) then w.(id := f.bytes)
    else if Is(f, 2, 2) then
      var part := PartOf(overshift, f.bytes);
      if part.Some? then w.(parts := w.parts + [part.value]) else w
    else w
  }

  function WeaponFold(overshift: Overshift, w: Weapon, fields: seq<Field>): Weapon
    decreases |fields|
  {
    if fields == [] then w else WeaponFold(overshift, WeaponStep(overshift, w, fields[0]), fields[1..])
  }

  function WeaponResult(w: Weapon): Option<Weapon> {
    if w.id == [] then None else Some(w)
  }

  const NO_WEAPON := Weapon([], [])

  function WeaponOf(overshift: Overshift, data: seq<Byte>): Option<Weapon> {
    WeaponResult(WeaponFold(overshift, NO_WEAPON, Scan(overshift, data, 0).fields))
  }

  function Merged(configs: Configs, w: Option<Weapon>): Configs {
    if w.Some? then configs[w.value.id := w.value] else configs
  }

  function TopStep(overshift: Overshift, configs: Configs, f: Field): Configs {
    if f.wire == 2 && (f.number == 2 || f.number == 3) then Merged(configs, WeaponOf(overshift, f.bytes)) else configs
  }

  function TopFold(overshift: Overshift, configs: Configs, fields: seq<Field>): Configs
    decreases |fields|
  {
    if fields == [] then configs else TopFold(overshift, TopStep(overshift, configs, fields[0]), fields[1..])
  }

  /** First as a request with weapons inside, and if there are none, as one bare archive. */
  function ConfigsOf(overshift: Overshift, data: seq<Byte>): Configs {
    var top := TopFold(overshift, map[], Scan(overshift, data, 0).fields);
    if top == map[] then Merged(map[], WeaponOf(overshift, data)) else top
  }

  function Decoded(overshift: Overshift, hex: string): Configs {
    var data := HexBytes(hex);
    if hex == "" || data.None? then map[] else ConfigsOf(overshift, data.value)
  }

  // ---- The parsing loops ----

  lemma TopFoldStep(overshift: Overshift, configs: Configs, data: seq<Byte>, offset: nat)
    requires offset < |data|
    ensures var field := NextField(overshift, data, offset);
            TopFold(overshift, configs, Scan(overshift, data, offset).fields) ==
            if field.Cut? then configs
            else TopFold(overshift, TopStep(overshift, configs, field.field), Scan(overshift, data, field.next).fields)
  {
    ScanStep(overshift, data, offset);
  }

  lemma WeaponFoldStep(overshift: Overshift, w: Weapon, data: seq<Byte>, offset: nat)
    requires offset < |data|
    ensures var field := NextField(overshift, data, offset);
            WeaponFold(overshift, w, Scan(overshift, data, offset).fields) ==
            if field.Cut? then w
            else WeaponFold(overshift, WeaponStep(overshift, w, field.field), Scan(overshift, data, field.next).fields)
  {
    ScanStep(overshift, data, offset);
  }

  method ParseWeaponPartSlot(overshift: Overshift, data: seq<Byte>) returns (part: Option<Part>)
    ensures part == PartOf(overshift, data)
  {
    var offset, p := 0, NO_PART;
    while offset < |data|
      invariant offset <= |data|
      invariant PartFrom(p, Scan(overshift, data, offset)) == PartOf(overshift, data)
      decreases |data| - offset
    {
      ghost var field := NextField(overshift, data, offset);
      var tag, next, ok := ReadVarint(overshift, data, offset);
      if !ok {
        break;
      }
      if tag / 8 == 1 && tag % 8 == 0 {
        var value, after, read := ReadVarint(overshift, data, next);
        p := p.(slot := AsInt32(value));
        offset := after;
        if !read {
          break;
        }
      } else if tag / 8 == 2 && tag % 8 == 2 {
        var payload, after, read := ReadBytes(overshift, data, next, 2);
        if !read {
          break;
        }
        p := p.(id := payload);
        offset := after;
      } else {
        var after, skipped := SkipWireValue(overshift, data, next, tag / 8, tag % 8);
        if !skipped {
          break;
        }
        offset := after;
      }
      assert field.Whole? && field.next == offset;
    }
    part := PartResult(p);
  }

  method ParseWeaponArchiveMessage(overshift: Overshift, data: seq<Byte>) returns (weapon: Option<Weapon>)
    ensures weapon == WeaponOf(overshift, data)
  {
    var offset, w := 0, NO_WEAPON;
    while offset < |data|
      invariant offset <= |data|
      invariant WeaponResult(WeaponFold(overshift, w, Scan(overshift, data, offset).fields)) ==
                WeaponOf(overshift, data)
      decreases |data| - offset
    {
      WeaponFoldStep(overshift, w, data, offset);
      ghost var field := NextField(overshift, data, offset);
      var tag, next, ok := ReadVarint(overshift, data, offset);
      if !ok {
        break;
      }
      if tag % 8 == 2 && (tag / 8 == 1 || tag / 8 == 2) {
        var payload, after, read := ReadBytes(overshift, data, next, tag / 8);
        if !read {
          break;
        }
        if tag / 8 == 1 {
          w := w.(id := payload);
        } else {
          var part := ParseWeaponPartSlot(overshift, payload);
          if part.Some? {
            w := w.(parts := w.parts + [part.value]);
          }
        }
        offset := after;
      } else {
        var after, skipped := SkipWireValue(overshift, data, next, tag / 8, tag % 8);
        if !skipped {
          break;
        }
        offset := after;
      }
      assert field.Whole? && field.next == offset;
    }
    weapon := WeaponResult(w);
  }

  method DecodeWeaponArchiveRaw(overshift: Overshift, hexPayload: string) returns (configs: Configs)
    ensures configs == Decoded(overshift, hexPayload)
  {
    configs := map[];
    if hexPayload == "" {
      return;
    }
    var ok, data := HexToBytes(hexPayload);
    if !ok {
      return;
    }
    configs := ParseRequest(overshift, data);
    if configs == map[] {
      var weapon := ParseWeaponArchiveMessage(overshift, data);
      configs := Merged(configs, weapon);
    }
  }

  method ParseRequest(overshift: Overshift, data: seq<Byte>) returns (configs: Configs)
    ensures configs == TopFold(overshift, map[], Scan(overshift, data, 0).fields)
  {
    configs := map[];
    var offset := 0;
    while offset < |data|
      invariant offset <= |data|
      invariant TopFold(overshift, configs, Scan(overshift, data, offset).fields) ==
                TopFold(overshift, map[], Scan(overshift, data, 0).fields)
      decreases |data| - offset
    {
      TopFoldStep(overshift, configs, data, offset);
      ghost var field := NextField(overshift, data, offset);
      var tag, next, ok := ReadVarint(overshift, data, offset);
      if !ok {
        break;
      }
      if tag % 8 == 2 {
        var payload, after, read := ReadBytes(overshift, data, next, tag / 8);
        if !read {
          break;
        }
        if tag / 8 == 2 || tag / 8 == 3 {
          var weapon := ParseWeaponArchiveMessage(overshift, payload);
          configs := Merged(configs, weapon);
        }
        offset := after;
      } else {
        var after, skipped := SkipWireValue(overshift, data, next, tag / 8, tag % 8);
        if !skipped {
          break;
        }
        offset := after;
      }
      assert field.Whole? && field.next == offset;
    }
  }
}
