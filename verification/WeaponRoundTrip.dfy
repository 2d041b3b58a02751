/** The weapon archive decoder against a reference writer. */
module WeaponRoundTrip {
  import opened Basics
  import opened WeaponArchive
  import opened WireFormat

  function BytesField(number: nat, bytes: seq<Byte>): Field {
    Field(number, 2, 0, bytes)
  }

  // ---- The reference writer ----

  predicate ValidPart(p: Part) {
    0 <= p.slot < 0x8000_0000 && p.id != [] && AllWritable(PartFields(p))
  }

  function PartFields(p: Part): seq<Field> {
    [Field(1, 0, if 0 <= p.slot < WORD_SIZE then p.slot else 0, []), BytesField(2, p.id)]
  }

  function PartEntries(parts: seq<Part>): seq<Field> {
    if parts == [] then [] else [BytesField(2, WriteFields(PartFields(parts[0])))] + PartEntries(parts[1..])
  }

  function WeaponFields(w: Weapon): seq<Field> {
    [BytesField(1, w.id)] + PartEntries(w.parts)
  }

  predicate ValidWeapon(w: Weapon) {
    w.id != [] && AllWritable(WeaponFields(w)) && forall k :: 0 <= k < |w.parts| ==> ValidPart(w.parts[k])
  }

  /** The request form: a role and, in field 3, an archive. */
  function RequestFields(role: seq<Byte>, w: Weapon): seq<Field> {
    [BytesField(1, role), BytesField(3, WriteFields(WeaponFields(w)))]
  }

  function Entries(weapons: seq<Weapon>): seq<Field> {
    if weapons == [] then [] else [BytesField(2, WriteFields(WeaponFields(weapons[0])))] + Entries(weapons[1..])
  }

  /** The aggregate form: a role and, in repeated fields 2, archives. */
  function AggregateFields(role: seq<Byte>, weapons: seq<Weapon>): seq<Field> {
    [BytesField(1, role)] + Entries(weapons)
  }

  // ---- Folds over concatenations ----

  lemma {:induction false} PartFoldConcat(p: Part, a: seq<Field>, b: seq<Field>)
    ensures PartFold(p, a + b) == PartFold(PartFold(p, a), b)
    decreases |a|
  {
    if a == [] {
      assert a + b == b;
    } else {
      assert (a + b)[1..] == a[1..] + b;
      PartFoldConcat(PartStep(p, a[0]), a[1..], b);
    }
  }

  lemma {:induction false} WeaponFoldConcat(overshift: Overshift, w: Weapon, a: seq<Field>, b: seq<Field>)
    ensures WeaponFold(overshift, w, a + b) == WeaponFold(overshift, WeaponFold(overshift, w, a), b)
    decreases |a|
  {
    if a == [] {
      assert a + b == b;
    } else {
      assert (a + b)[1..] == a[1..] + b;
      WeaponFoldConcat(overshift, WeaponStep(overshift, w, a[0]), a[1..], b);
    }
  }

  lemma {:induction false} TopFoldConcat(overshift: Overshift, configs: Configs, a: seq<Field>, b: seq<Field>)
    ensures TopFold(overshift, configs, a + b) == TopFold(overshift, TopFold(overshift, configs, a), b)
    decreases |a|
  {
    if a == [] {
      assert a + b == b;
    } else {
      assert (a + b)[1..] == a[1..] + b;
      TopFoldConcat(overshift, TopStep(overshift, configs, a[0]), a[1..], b);
    }
  }

  // ---- Round trips of parts and weapons ----

  lemma PartFoldOfPart(p: Part)
    requires 0 <= p.slot < 0x8000_0000
    ensures PartFold(NO_PART, PartFields(p)) == p
  {
    var fields := PartFields(p);
    assert fields[1..] == [fields[1]] && fields[1..][1..] == [];
    assert PartStep(NO_PART, fields[0]) == Part(p.slot, []);
    assert PartFold(Part(p.slot, []), fields[1..]) == PartFold(p, fields[1..][1..]);
  }

  lemma PartRoundTrip(overshift: Overshift, p: Part)
    requires ValidPart(p)
    ensures PartOf(overshift, WriteFields(PartFields(p))) == Some(p)
  {
    ScanInvertsWrite(overshift, PartFields(p));
    PartFoldOfPart(p);
  }

  lemma EntryHead(parts: seq<Part>)
    requires parts != []
    ensures PartEntries(parts)[0] == BytesField(2, WriteFields(PartFields(parts[0])))
    ensures PartEntries(parts)[1..] == PartEntries(parts[1..])
  {
  }

  lemma PartEntryStep(overshift: Overshift, w: Weapon, p: Part)
    requires ValidPart(p)
    ensures WeaponStep(overshift, w, BytesField(2, WriteFields(PartFields(p)))) == w.(parts := w.parts + [p])
  {
    PartRoundTrip(overshift, p);
  }

  lemma {:induction false} EntriesGiveParts(overshift: Overshift, w: Weapon, parts: seq<Part>)
    requires forall k :: 0 <= k < |parts| ==> ValidPart(parts[k])
    ensures WeaponFold(overshift, w, PartEntries(parts)) == w.(parts := w.parts + parts)
    decreases |parts|
  {
    if parts == [] {
      assert w.parts + parts == w.parts;
    } else {
      EntryHead(parts);
      PartEntryStep(overshift, w, parts[0]);
      EntriesGiveParts(overshift, w.(parts := w.parts + [parts[0]]), parts[1..]);
      OnePartMore(w.parts, parts);
    }
  }

  lemma OnePartMore(before: seq<Part>, parts: seq<Part>)
    requires parts != []
    ensures before + [parts[0]] + parts[1..] == before + parts
  {
  }

  lemma WeaponFoldOfWeapon(overshift: Overshift, w: Weapon)
    requires ValidWeapon(w)
    ensures WeaponFold(overshift, NO_WEAPON, WeaponFields(w)) == w
  {
    var fields := WeaponFields(w);
    assert fields[0] == BytesField(1, w.id) && fields[1..] == PartEntries(w.parts);
    EntriesGiveParts(overshift, Weapon(w.id, []), w.parts);
    assert [] + w.parts == w.parts;
  }

  lemma WeaponRoundTrips(overshift: Overshift, w: Weapon)
    requires ValidWeapon(w)
    ensures WeaponOf(overshift, WriteFields(WeaponFields(w))) == Some(w)
  {
    ScanInvertsWrite(overshift, WeaponFields(w));
    WeaponFoldOfWeapon(overshift, w);
  }

  // ---- Round trips of whole texts ----

  lemma DecodedFields(overshift: Overshift, fields: seq<Field>, upper: bool)
    requires AllWritable(fields)
    ensures var top, bare := TopFold(overshift, map[], fields), WeaponResult(WeaponFold(overshift, NO_WEAPON, fields));
            Decoded(overshift, WriteHex(WriteFields(fields), upper)) ==
            if top == map[] then Merged(map[], bare) else top
  {
    var data := WriteFields(fields);
    HexInvertsWrite(data, upper);
    ScanInvertsWrite(overshift, fields);
    if fields != [] {
      SomethingWritten(fields);
    }
  }

  lemma SomethingWritten(fields: seq<Field>)
    requires fields != []
    ensures WriteFields(fields) != []
  {
  }

  lemma TwoFields(overshift: Overshift, f: Field, g: Field)
    ensures TopFold(overshift, map[], [f, g]) == TopStep(overshift, TopStep(overshift, map[], f), g)
  {
    var first := TopStep(overshift, map[], f);
    assert [f, g][1..] == [g] && [g][1..] == [];
    assert TopFold(overshift, first, [g]) == TopFold(overshift, TopStep(overshift, first, g), []);
  }

  /** The request form comes back as the one archive it holds, for every role. */
  lemma RequestRoundTrip(overshift: Overshift, role: seq<Byte>, w: Weapon, upper: bool)
    requires ValidWeapon(w) && AllWritable(RequestFields(role, w))
    ensures Decoded(overshift, WriteHex(WriteFields(RequestFields(role, w)), upper)) == map[w.id := w]
  {
    DecodedFields(overshift, RequestFields(role, w), upper);
    WeaponRoundTrips(overshift, w);
    TwoFields(overshift, BytesField(1, role), BytesField(3, WriteFields(WeaponFields(w))));
    MergedIntoNothing(Some(w));
  }

  lemma MergedIntoNothing(w: Option<Weapon>)
    ensures Merged(map[], w) == map[] <==> w.None?
  {
    if w.Some? {
      assert w.value.id in Merged(map[], w);
    }
  }

  /** The configurations of several weapons; of two with one id the later stays. */
  function MergedAll(configs: Configs, weapons: seq<Weapon>): Configs
    decreases |weapons|
  {
    if weapons == [] then configs else MergedAll(configs[weapons[0].id := weapons[0]], weapons[1..])
  }

  lemma WeaponEntryHead(weapons: seq<Weapon>)
    requires weapons != []
    ensures Entries(weapons)[0] == BytesField(2, WriteFields(WeaponFields(weapons[0])))
    ensures Entries(weapons)[1..] == Entries(weapons[1..])
  {
  }

  lemma WeaponEntryStep(overshift: Overshift, configs: Configs, w: Weapon)
    requires ValidWeapon(w)
    ensures TopStep(overshift, configs, BytesField(2, WriteFields(WeaponFields(w)))) == configs[w.id := w]
  {
    WeaponRoundTrips(overshift, w);
  }

  lemma {:induction false} EntriesGiveConfigs(overshift: Overshift, configs: Configs, weapons: seq<Weapon>)
    requires forall k :: 0 <= k < |weapons| ==> ValidWeapon(weapons[k])
    ensures TopFold(overshift, configs, Entries(weapons)) == MergedAll(configs, weapons)
    decreases |weapons|
  {
    if weapons != [] {
      WeaponEntryHead(weapons);
      WeaponEntryStep(overshift, configs, weapons[0]);
      EntriesGiveConfigs(overshift, configs[weapons[0].id := weapons[0]], weapons[1..]);
    }
  }

  lemma {:induction false} MergingOnlyAdds(configs: Configs, weapons: seq<Weapon>)
    ensures configs.Keys <= MergedAll(configs, weapons).Keys
    decreases |weapons|
  {
    if weapons != [] {
      MergingOnlyAdds(configs[weapons[0].id := weapons[0]], weapons[1..]);
    }
  }

  /** The aggregate form comes back as all its archives. */
  lemma AggregateRoundTrip(overshift: Overshift, role: seq<Byte>, weapons: seq<Weapon>, upper: bool)
    requires weapons != [] && AllWritable(AggregateFields(role, weapons))
    requires forall k :: 0 <= k < |weapons| ==> ValidWeapon(weapons[k])
    ensures Decoded(overshift, WriteHex(WriteFields(AggregateFields(role, weapons)), upper)) ==
            MergedAll(map[], weapons)
  {
    var fields := AggregateFields(role, weapons);
    DecodedFields(overshift, fields, upper);
    assert fields[1..] == Entries(weapons);
    EntriesGiveConfigs(overshift, map[], weapons);
    MergingOnlyAdds(map[weapons[0].id := weapons[0]], weapons[1..]);
    assert weapons[0].id in MergedAll(map[], weapons);
  }

  /** A part is no weapon: read as one it has no id. */
  lemma PartIsNoWeapon(overshift: Overshift, p: Part)
    requires AllWritable(PartFields(p))
    ensures WeaponOf(overshift, WriteFields(PartFields(p))) == None
  {
    var fields := PartFields(p);
    ScanInvertsWrite(overshift, fields);
    assert fields[1..] == [fields[1]] && fields[1..][1..] == [];
    var w := WeaponStep(overshift, WeaponStep(overshift, NO_WEAPON, fields[0]), fields[1]);
    assert WeaponFold(overshift, NO_WEAPON, fields) == WeaponFold(overshift, w, []);
  }

  lemma {:induction false} PartEntriesGiveNoConfigs(overshift: Overshift, parts: seq<Part>)
    requires forall k :: 0 <= k < |parts| ==> AllWritable(PartFields(parts[k]))
    ensures TopFold(overshift, map[], PartEntries(parts)) == map[]
    decreases |parts|
  {
    if parts != [] {
      PartIsNoWeapon(overshift, parts[0]);
      assert PartEntries(parts)[1..] == PartEntries(parts[1..]);
      PartEntriesGiveNoConfigs(overshift, parts[1..]);
    }
  }

  /** The bare archive form comes back as the archive, although it is first read as a request. */
  lemma BareRoundTrip(overshift: Overshift, w: Weapon, upper: bool)
    requires ValidWeapon(w)
    ensures Decoded(overshift, WriteHex(WriteFields(WeaponFields(w)), upper)) == map[w.id := w]
  {
    var fields := WeaponFields(w);
    DecodedFields(overshift, fields, upper);
    assert fields[1..] == PartEntries(w.parts);
    PartEntriesGiveNoConfigs(overshift, w.parts);
    WeaponFoldOfWeapon(overshift, w);
  }
}
