/** What fields that a message does not know do to the decoding of weapon archives
    (Payload/Loadout/LoadoutSerializer.cpp:1559-1708). A field is unknown to a part, an archive or the top level when
    the loop there skips it; such a field may hold anything. */
module UnknownFields {
  import opened Basics
  import opened WeaponArchive
  import opened WeaponRoundTrip
  import opened WireFormat

  predicate UnknownInPart(u: Field) {
    !Is(u, 1, 0) && !Is(u, 2, 2)
  }

  predicate UnknownInWeapon(u: Field) {
    !Is(u, 1, 2) && !Is(u, 2, 2)
  }

  predicate UnknownAtTop(u: Field) {
    !Is(u, 2, 2) && !Is(u, 3, 2)
  }

  lemma AllWritableConcat(a: seq<Field>, u: Field, b: seq<Field>)
    requires AllWritable(a + [u] + b)
    ensures AllWritable(a + b) && Writable(u)
  {
    var all := a + [u] + b;
    assert all[|a|] == u;
    forall k | 0 <= k < |a + b| ensures Writable((a + b)[k]) {
      assert (a + b)[k] == if k < |a| then all[k] else all[k + 1];
    }
  }

  /** An unknown field of any wire type, anywhere in a part, changes nothing. */
  lemma UnknownInPartIsSkipped(overshift: Overshift, a: seq<Field>, u: Field, b: seq<Field>)
    requires AllWritable(a + [u] + b) && UnknownInPart(u)
    ensures PartOf(overshift, WriteFields(a + [u] + b)) == PartOf(overshift, WriteFields(a + b))
  {
    AllWritableConcat(a, u, b);
    ScanInvertsWrite(overshift, a + [u] + b);
    ScanInvertsWrite(overshift, a + b);
    PartFoldConcat(NO_PART, a + [u], b);
    PartFoldConcat(NO_PART, a, [u]);
    PartFoldConcat(NO_PART, a, b);
    assert [u][1..] == [];
  }

  lemma WeaponFoldSkips(overshift: Overshift, a: seq<Field>, u: Field, b: seq<Field>)
    requires UnknownInWeapon(u)
    ensures WeaponFold(overshift, NO_WEAPON, a + [u] + b) == WeaponFold(overshift, NO_WEAPON, a + b)
  {
    WeaponFoldConcat(overshift, NO_WEAPON, a + [u], b);
    WeaponFoldConcat(overshift, NO_WEAPON, a, [u]);
    WeaponFoldConcat(overshift, NO_WEAPON, a, b);
    assert [u][1..] == [];
  }

  /** The same in an archive. */
  lemma UnknownInWeaponIsSkipped(overshift: Overshift, a: seq<Field>, u: Field, b: seq<Field>)
    requires AllWritable(a + [u] + b) && UnknownInWeapon(u)
    ensures WeaponOf(overshift, WriteFields(a + [u] + b)) == WeaponOf(overshift, WriteFields(a + b))
  {
    AllWritableConcat(a, u, b);
    ScanInvertsWrite(overshift, a + [u] + b);
    ScanInvertsWrite(overshift, a + b);
    WeaponFoldSkips(overshift, a, u, b);
  }

  lemma TopFoldInserts(overshift: Overshift, a: seq<Field>, u: Field, b: seq<Field>)
    ensures TopFold(overshift, map[], a + [u] + b) ==
            TopFold(overshift, TopStep(overshift, TopFold(overshift, map[], a), u), b)
    ensures TopFold(overshift, map[], a + b) == TopFold(overshift, TopFold(overshift, map[], a), b)
  {
    TopFoldConcat(overshift, map[], a + [u], b);
    TopFoldConcat(overshift, map[], a, [u]);
    TopFoldConcat(overshift, map[], a, b);
    assert [u][1..] == [];
  }

  // ---- Sizes ----

  lemma {:induction false} LongerVarint(m: nat, n: nat)
    requires m <= n
    ensures |WriteVarint(m)| <= |WriteVarint(n)|
  {
    if m >= 128 {
      LongerVarint(m / 128, n / 128);
    }
  }

  lemma {:induction false} WriteFieldsConcat(a: seq<Field>, b: seq<Field>)
    ensures WriteFields(a + b) == WriteFields(a) + WriteFields(b)
  {
    if a == [] {
      assert a + b == b;
    } else {
      assert (a + b)[1..] == a[1..] + b && (a + b)[0] == a[0];
      WriteFieldsConcat(a[1..], b);
      JoinedBytes(WriteField(a[0]), WriteFields(a[1..]), WriteFields(b));
    }
  }

  lemma JoinedBytes(a: seq<Byte>, b: seq<Byte>, c: seq<Byte>)
    ensures a + b + c == a + (b + c)
  {
  }

  lemma OneFieldWritten(f: Field)
    ensures WriteFields([f]) == WriteField(f)
  {
    assert [f][1..] == [];
    assert WriteFields([f]) == WriteField(f) + WriteFields([]);
  }

  /** What is written around a field. */
  lemma WrittenAround(a: seq<Field>, f: Field, b: seq<Field>)
    ensures |WriteFields(a + [f] + b)| == |WriteFields(a)| + |WriteField(f)| + |WriteFields(b)|
    ensures |WriteFields(a + b)| == |WriteFields(a)| + |WriteFields(b)|
  {
    WriteFieldsConcat(a + [f], b);
    WriteFieldsConcat(a, [f]);
    WriteFieldsConcat(a, b);
    OneFieldWritten(f);
  }

  lemma SmallerEntry(number: nat, p: seq<Byte>, q: seq<Byte>)
    requires |p| <= |q|
    ensures |WriteField(BytesField(number, p))| <= |WriteField(BytesField(number, q))|
    ensures Writable(BytesField(number, q)) ==> Writable(BytesField(number, p))
  {
    LongerVarint(|p|, |q|);
  }

  lemma EntryWritable(a: seq<Field>, number: nat, p: seq<Byte>, q: seq<Byte>, b: seq<Field>)
    requires AllWritable(a + [BytesField(number, q)] + b) && |p| <= |q|
    ensures AllWritable(a + [BytesField(number, p)] + b)
    ensures |WriteFields(a + [BytesField(number, p)] + b)| <= |WriteFields(a + [BytesField(number, q)] + b)|
  {
    var with, without := a + [BytesField(number, q)] + b, a + [BytesField(number, p)] + b;
    WrittenAround(a, BytesField(number, p), b);
    WrittenAround(a, BytesField(number, q), b);
    assert with[|a|] == BytesField(number, q);
    SmallerEntry(number, p, q);
    forall k | 0 <= k < |without| ensures Writable(without[k]) {
      assert k != |a| ==> without[k] == with[k];
    }
  }

  // ---- The request and the aggregate form ----

  lemma ReplacedEntry(overshift: Overshift, a: seq<Field>, f: Field, g: Field, b: seq<Field>)
    requires forall c: Configs :: TopStep(overshift, c, f) == TopStep(overshift, c, g)
    ensures TopFold(overshift, map[], a + [f] + b) == TopFold(overshift, map[], a + [g] + b)
  {
    TopFoldInserts(overshift, a, f, b);
    TopFoldInserts(overshift, a, g, b);
  }

  /** Two messages that differ in one entry, whose two payloads hold the same archive, if any. */
  lemma SameArchiveSameResult(overshift: Overshift, a: seq<Field>, number: nat, p: seq<Byte>, q: seq<Byte>,
                              b: seq<Field>, upper: bool)
    requires AllWritable(a + [BytesField(number, q)] + b) && |p| <= |q| &&
             WeaponOf(overshift, p) == WeaponOf(overshift, q)
    requires TopFold(overshift, map[], a + [BytesField(number, p)] + b) != map[]
    ensures Decoded(overshift, WriteHex(WriteFields(a + [BytesField(number, q)] + b), upper)) ==
            Decoded(overshift, WriteHex(WriteFields(a + [BytesField(number, p)] + b), upper))
  {
    EntryWritable(a, number, p, q, b);
    DecodedFields(overshift, a + [BytesField(number, q)] + b, upper);
    DecodedFields(overshift, a + [BytesField(number, p)] + b, upper);
    ReplacedEntry(overshift, a, BytesField(number, p), BytesField(number, q), b);
  }

  /** At the top level: an unknown field changes nothing. */
  lemma UnknownAtTopIsSkipped(overshift: Overshift, a: seq<Field>, u: Field, b: seq<Field>, upper: bool)
    requires AllWritable(a + [u] + b) && UnknownAtTop(u) && TopFold(overshift, map[], a + b) != map[]
    ensures Decoded(overshift, WriteHex(WriteFields(a + [u] + b), upper)) ==
            Decoded(overshift, WriteHex(WriteFields(a + b), upper))
  {
    AllWritableConcat(a, u, b);
    DecodedFields(overshift, a + [u] + b, upper);
    DecodedFields(overshift, a + b, upper);
    TopFoldInserts(overshift, a, u, b);
  }

  /** In an archive x + y inside a message with archives: an unknown field changes nothing of what is decoded. */
  lemma UnknownInArchiveIsSkipped(overshift: Overshift, a: seq<Field>, number: nat, x: seq<Field>, u: Field,
                                  y: seq<Field>, b: seq<Field>, upper: bool)
    requires AllWritable(x + [u] + y) && UnknownInWeapon(u)
    requires AllWritable(a + [BytesField(number, WriteFields(x + [u] + y))] + b)
    requires TopFold(overshift, map[], a + [BytesField(number, WriteFields(x + y))] + b) != map[]
    ensures Decoded(overshift, WriteHex(WriteFields(a + [BytesField(number, WriteFields(x + [u] + y))] + b), upper)) ==
            Decoded(overshift, WriteHex(WriteFields(a + [BytesField(number, WriteFields(x + y))] + b), upper))
  {
    WrittenAround(x, u, y);
    UnknownInWeaponIsSkipped(overshift, x, u, y);
    SameArchiveSameResult(overshift, a, number, WriteFields(x + y), WriteFields(x + [u] + y), b, upper);
  }

  /** An archive with a part whose two encodings hold the same part, if any. */
  lemma SamePartSameArchive(overshift: Overshift, x: seq<Field>, p: seq<Byte>, q: seq<Byte>, y: seq<Field>)
    requires AllWritable(x + [BytesField(2, q)] + y) && |p| <= |q| && PartOf(overshift, p) == PartOf(overshift, q)
    ensures AllWritable(x + [BytesField(2, p)] + y)
    ensures WeaponFold(overshift, NO_WEAPON, x + [BytesField(2, p)] + y) ==
            WeaponFold(overshift, NO_WEAPON, x + [BytesField(2, q)] + y)
    ensures WeaponOf(overshift, WriteFields(x + [BytesField(2, p)] + y)) ==
            WeaponOf(overshift, WriteFields(x + [BytesField(2, q)] + y))
  {
    EntryWritable(x, 2, p, q, y);
    ScanInvertsWrite(overshift, x + [BytesField(2, p)] + y);
    ScanInvertsWrite(overshift, x + [BytesField(2, q)] + y);
    WeaponFoldAround(overshift, x, BytesField(2, p), y);
    WeaponFoldAround(overshift, x, BytesField(2, q), y);
  }

  lemma WeaponFoldAround(overshift: Overshift, a: seq<Field>, f: Field, b: seq<Field>)
    ensures WeaponFold(overshift, NO_WEAPON, a + [f] + b) ==
            WeaponFold(overshift, WeaponStep(overshift, WeaponFold(overshift, NO_WEAPON, a), f), b)
  {
    WeaponFoldConcat(overshift, NO_WEAPON, a + [f], b);
    WeaponFoldConcat(overshift, NO_WEAPON, a, [f]);
    assert [f][1..] == [];
  }

  /** In a part s + t of such an archive: an unknown field changes nothing of what is decoded. */
  lemma UnknownInPartOfArchiveIsSkipped(overshift: Overshift, a: seq<Field>, number: nat, x: seq<Field>, s: seq<Field>,
                                        u: Field, t: seq<Field>, y: seq<Field>, b: seq<Field>, upper: bool)
    requires AllWritable(s + [u] + t) && UnknownInPart(u)
    requires AllWritable(x + [BytesField(2, WriteFields(s + [u] + t))] + y)
    requires AllWritable(a + [BytesField(number, WriteFields(x + [BytesField(2, WriteFields(s + [u] + t))] + y))] + b)
    requires TopFold(overshift, map[],
                     a + [BytesField(number, WriteFields(x + [BytesField(2, WriteFields(s + t))] + y))] + b) != map[]
    ensures var p, q := WriteFields(s + t), WriteFields(s + [u] + t);
            var without := a + [BytesField(number, WriteFields(x + [BytesField(2, p)] + y))] + b;
            var with := a + [BytesField(number, WriteFields(x + [BytesField(2, q)] + y))] + b;
            Decoded(overshift, WriteHex(WriteFields(with), upper)) ==
            Decoded(overshift, WriteHex(WriteFields(without), upper))
  {
    var p, q := WriteFields(s + t), WriteFields(s + [u] + t);
    WrittenAround(s, u, t);
    UnknownInPartIsSkipped(overshift, s, u, t);
    SamePartSameArchive(overshift, x, p, q, y);
    EntryWritable(x, 2, p, q, y);
    SameArchiveSameResult(overshift, a, number, WriteFields(x + [BytesField(2, p)] + y),
                          WriteFields(x + [BytesField(2, q)] + y), b, upper);
  }

  // ---- The bare form ----

  lemma {:induction false} TopFoldOnlyAdds(overshift: Overshift, configs: Configs, fields: seq<Field>)
    ensures configs.Keys <= TopFold(overshift, configs, fields).Keys
    decreases |fields|
  {
    if fields != [] {
      TopFoldOnlyAdds(overshift, TopStep(overshift, configs, fields[0]), fields[1..]);
    }
  }

  lemma NothingStaysNothing(overshift: Overshift, configs: Configs, fields: seq<Field>)
    requires TopFold(overshift, configs, fields) == map[]
    ensures configs == map[]
  {
    TopFoldOnlyAdds(overshift, configs, fields);
    assert configs.Keys == {};
  }

  lemma OnlyResult(w: Weapon, o: Option<Weapon>)
    ensures map[w.id := w] == Merged(map[], o) <==> o == Some(w)
  {
    if o.Some? && map[w.id := w] == Merged(map[], o) {
      assert o.value.id in Merged(map[], o);
    }
    if o.None? {
      assert w.id in map[w.id := w];
    }
  }

  /** Fields that merge nothing into an empty result merge nothing into any. */
  lemma {:induction false} QuietTail(overshift: Overshift, none: Configs, configs: Configs, fields: seq<Field>)
    requires none == map[] && TopFold(overshift, none, fields) == none
    ensures TopFold(overshift, configs, fields) == configs
    decreases |fields|
  {
    if fields != [] {
      NothingStaysNothing(overshift, TopStep(overshift, none, fields[0]), fields[1..]);
      if fields[0].wire == 2 && (fields[0].number == 2 || fields[0].number == 3) {
        MergedIntoNothing(WeaponOf(overshift, fields[0].bytes));
      }
      QuietTail(overshift, none, configs, fields[1..]);
    }
  }

  /** A message without archives into which one entry brings one. */
  lemma OneArchiveAmongNone(overshift: Overshift, a: seq<Field>, f: Field, b: seq<Field>, o: Option<Weapon>)
    requires TopFold(overshift, map[], a) == map[] && TopFold(overshift, map[], b) == map[]
    requires TopStep(overshift, map[], f) == Merged(map[], o)
    ensures TopFold(overshift, map[], a + [f] + b) == Merged(map[], o)
  {
    TopFoldInserts(overshift, a, f, b);
    QuietTail(overshift, map[], Merged(map[], o), b);
  }

  /** In the bare form a field that the archive does not know is skipped unless the first pass takes it for an archive
      of its own; then only that archive comes back. So nothing changes exactly when the field is not taken for one, or
      holds the very archive it stands in. */
  lemma UnknownInBareForm(overshift: Overshift, a: seq<Field>, u: Field, b: seq<Field>, upper: bool)
    requires AllWritable(a + [u] + b) && UnknownInWeapon(u) && TopFold(overshift, map[], a + b) == map[]
    ensures Decoded(overshift, WriteHex(WriteFields(a + [u] + b), upper)) ==
            Decoded(overshift, WriteHex(WriteFields(a + b), upper)) <==>
            !Is(u, 3, 2) || WeaponOf(overshift, u.bytes).None? ||
            WeaponOf(overshift, u.bytes) == WeaponOf(overshift, WriteFields(a + b))
  {
    AllWritableConcat(a, u, b);
    DecodedFields(overshift, a + [u] + b, upper);
    DecodedFields(overshift, a + b, upper);
    ScanInvertsWrite(overshift, a + b);
    WeaponFoldSkips(overshift, a, u, b);
    TopFoldInserts(overshift, a, u, b);
    NothingStaysNothing(overshift, TopFold(overshift, map[], a), b);
    var o := if Is(u, 3, 2) then WeaponOf(overshift, u.bytes) else None;
    OneArchiveAmongNone(overshift, a, u, b, o);
    MergedIntoNothing(o);
    if o.Some? {
      OnlyResult(o.value, WeaponOf(overshift, WriteFields(a + b)));
    }
  }

  /** Some field is a weapon id. */
  predicate HasId(fields: seq<Field>) {
    exists k :: 0 <= k < |fields| && Is(fields[k], 1, 2)
  }

  /** An id set before some fields survives exactly if none of them sets another; the parts do not depend on it. */
  lemma {:induction false} EarlierId(overshift: Overshift, w: Weapon, id: seq<Byte>, fields: seq<Field>)
    ensures var end := WeaponFold(overshift, w, fields);
            WeaponFold(overshift, w.(id := id), fields) == end.(id := if HasId(fields) then end.id else id)
    decreases |fields|
  {
    if fields != [] {
      var first, rest := fields[0], fields[1..];
      assert fields == [first] + rest;
      if Is(first, 1, 2) {
        assert fields[0] == first;
        assert WeaponStep(overshift, w.(id := id), first) == WeaponStep(overshift, w, first);
      } else {
        assert HasId(fields) <==> HasId(rest) by { LaterId(fields); }
        EarlierId(overshift, WeaponStep(overshift, w, first), id, rest);
        assert WeaponStep(overshift, w.(id := id), first) == WeaponStep(overshift, w, first).(id := id);
      }
    }
  }

  lemma LaterId(fields: seq<Field>)
    requires fields != [] && !Is(fields[0], 1, 2)
    ensures HasId(fields) <==> HasId(fields[1..])
  {
    if HasId(fields) {
      var k :| 0 <= k < |fields| && Is(fields[k], 1, 2);
      assert fields[1..][k - 1] == fields[k];
    }
    if HasId(fields[1..]) {
      var k :| 0 <= k < |fields[1..]| && Is(fields[1..][k], 1, 2);
      assert fields[k + 1] == fields[1..][k];
    }
  }

  /** The field turns a part that goes on with the fields t into something that reads as an archive. */
  predicate MakesArchive(u: Field, t: seq<Field>) {
    Is(u, 1, 2) && u.bytes != [] && !HasId(t)
  }

  /** What a part reads as, taken for an archive, with a field inserted that the part does not know. */
  lemma PartAsArchive(overshift: Overshift, s: seq<Field>, u: Field, t: seq<Field>)
    requires AllWritable(s + [u] + t) && UnknownInPart(u) && WeaponOf(overshift, WriteFields(s + t)) == None
    ensures WeaponOf(overshift, WriteFields(s + [u] + t)) ==
            if MakesArchive(u, t) then Some(Weapon(u.bytes, WeaponFold(overshift, NO_WEAPON, s + t).parts)) else None
  {
    AllWritableConcat(s, u, t);
    ScanInvertsWrite(overshift, s + t);
    ScanInvertsWrite(overshift, s + [u] + t);
    WeaponFoldAround(overshift, s, u, t);
    WeaponFoldConcat(overshift, NO_WEAPON, s, t);
    EarlierId(overshift, WeaponFold(overshift, NO_WEAPON, s), u.bytes, t);
  }

  /** In the bare form a field inserted in a part s + t, which the part does not know, is skipped by the second pass,
      but the first reads the part as an archive: if the field is a nonempty id and no id follows it there, only the
      archive of that id comes back. So nothing changes exactly when the field is no such id, or that archive is the
      very one decoded without the field. */
  lemma UnknownInPartOfBareForm(overshift: Overshift, x: seq<Field>, s: seq<Field>, u: Field, t: seq<Field>,
                                y: seq<Field>, upper: bool)
    requires AllWritable(s + [u] + t) && UnknownInPart(u)
    requires AllWritable(x + [BytesField(2, WriteFields(s + [u] + t))] + y)
    requires TopFold(overshift, map[], x + [BytesField(2, WriteFields(s + t))] + y) == map[]
    ensures var without := x + [BytesField(2, WriteFields(s + t))] + y;
            var with := x + [BytesField(2, WriteFields(s + [u] + t))] + y;
            Decoded(overshift, WriteHex(WriteFields(with), upper)) ==
            Decoded(overshift, WriteHex(WriteFields(without), upper)) <==>
            !MakesArchive(u, t) ||
            WeaponOf(overshift, WriteFields(without)) ==
              Some(Weapon(u.bytes, WeaponFold(overshift, NO_WEAPON, s + t).parts))
  {
    var p, q := WriteFields(s + t), WriteFields(s + [u] + t);
    var with, without := x + [BytesField(2, q)] + y, x + [BytesField(2, p)] + y;
    WrittenAround(s, u, t);
    UnknownInPartIsSkipped(overshift, s, u, t);
    SamePartSameArchive(overshift, x, p, q, y);
    ScanInvertsWrite(overshift, without);
    DecodedFields(overshift, with, upper);
    DecodedFields(overshift, without, upper);
    QuietAround(overshift, x, BytesField(2, p), y);
    MergedIntoNothing(WeaponOf(overshift, p));
    PartAsArchive(overshift, s, u, t);
    var o := WeaponOf(overshift, q);
    OneArchiveAmongNone(overshift, x, BytesField(2, q), y, o);
    MergedIntoNothing(o);
    if o.Some? {
      OnlyResult(o.value, WeaponOf(overshift, WriteFields(without)));
    }
  }

  lemma QuietAround(overshift: Overshift, a: seq<Field>, f: Field, b: seq<Field>)
    requires TopFold(overshift, map[], a + [f] + b) == map[]
    ensures TopFold(overshift, map[], a) == map[] && TopStep(overshift, map[], f) == map[] &&
            TopFold(overshift, map[], b) == map[]
  {
    TopFoldInserts(overshift, a, f, b);
    NothingStaysNothing(overshift, TopStep(overshift, TopFold(overshift, map[], a), f), b);
    TopFoldOnlyAdds(overshift, TopFold(overshift, map[], a), [f]);
    OneStep(overshift, TopFold(overshift, map[], a), f);
    NothingStaysNothing(overshift, TopFold(overshift, map[], a), [f]);
  }

  lemma OneStep(overshift: Overshift, configs: Configs, f: Field)
    ensures TopFold(overshift, configs, [f]) == TopStep(overshift, configs, f)
  {
    assert [f][1..] == [];
  }

  // ---- Two bare archives that change ----

  /** An example where it changes: a bare archive with a field 3 that holds another archive decodes to the other one. */
  lemma BareFormCanChange(overshift: Overshift, upper: bool)
    ensures var w, other := Weapon([1], []), Weapon([2], []);
            var u := BytesField(3, WriteFields(WeaponFields(other)));
            UnknownInWeapon(u) &&
            Decoded(overshift, WriteHex(WriteFields(WeaponFields(w) + [u]), upper)) == map[other.id := other] &&
            Decoded(overshift, WriteHex(WriteFields(WeaponFields(w)), upper)) == map[w.id := w]
  {
    var w, other := Weapon([1], []), Weapon([2], []);
    var a, u := WeaponFields(w), BytesField(3, WriteFields(WeaponFields(other)));
    assert a == [BytesField(1, [1])] && a + [u] == [a[0], u];
    SmallArchive(other);
    BareRoundTrip(overshift, w, upper);
    WeaponRoundTrips(overshift, other);
    DecodedFields(overshift, a + [u], upper);
    TwoFields(overshift, a[0], u);
    MergedIntoNothing(Some(other));
  }

  lemma SmallArchive(w: Weapon)
    requires w.id == [2] && w.parts == []
    ensures WriteFields(WeaponFields(w)) == [10, 1, 2]
  {
    assert WeaponFields(w) == [BytesField(1, [2])];
    IdBytes(2);
    OneFieldWritten(BytesField(1, [2]));
  }

  /** The archive with id 1 and one part, in whose part stands a field 1 with the byte 9, decodes to the archive with
      id 9 and no parts. */
  lemma PartOfBareFormCanChange(overshift: Overshift, upper: bool)
    ensures var part, u := Part(0, [5]), BytesField(1, [9]);
            var with := [BytesField(1, [1]), BytesField(2, WriteFields(PartFields(part) + [u]))];
            UnknownInPart(u) && WriteFields(with) == [10, 1, 1] + ([18, 8] + [8, 0, 18, 1, 5, 10, 1, 9]) &&
            Decoded(overshift, WriteHex(WriteFields(with), upper)) == map[[9] := Weapon([9], [])] &&
            Decoded(overshift, WriteHex(WriteFields(WeaponFields(Weapon([1], [part]))), upper)) ==
              map[[1] := Weapon([1], [part])]
  {
    var part, u := Part(0, [5]), BytesField(1, [9]);
    var payload := WriteFields(PartFields(part) + [u]);
    PartBytes(part, u);
    ArchiveBytes(payload);
    ExamplePartIsArchive(overshift, part, u);
    TakenForPart(overshift, [1], payload, Weapon([9], []), upper);
    ExampleWithout(overshift, part, upper);
  }

  lemma ExamplePartIsArchive(overshift: Overshift, part: Part, u: Field)
    requires part == Part(0, [5]) && u == BytesField(1, [9])
    ensures WeaponOf(overshift, WriteFields(PartFields(part) + [u])) == Some(Weapon([9], []))
  {
    var fields := PartFields(part);
    ScanInvertsWrite(overshift, fields + [u]);
    FiveIsNoPart(overshift);
    assert fields + [u] == [fields[0], fields[1], u];
    ThreeFields(overshift, fields[0], fields[1], u);
  }

  /** A bare archive whose one part reads as another archive decodes to that one. */
  lemma TakenForPart(overshift: Overshift, id: seq<Byte>, payload: seq<Byte>, w: Weapon, upper: bool)
    requires AllWritable([BytesField(1, id), BytesField(2, payload)]) && WeaponOf(overshift, payload) == Some(w)
    ensures Decoded(overshift, WriteHex(WriteFields([BytesField(1, id), BytesField(2, payload)]), upper)) ==
            map[w.id := w]
  {
    var f, g := BytesField(1, id), BytesField(2, payload);
    DecodedFields(overshift, [f, g], upper);
    TwoFields(overshift, f, g);
    MergedIntoNothing(Some(w));
  }

  lemma ExampleWithout(overshift: Overshift, part: Part, upper: bool)
    requires part == Part(0, [5])
    ensures Decoded(overshift, WriteHex(WriteFields(WeaponFields(Weapon([1], [part]))), upper)) ==
            map[[1] := Weapon([1], [part])]
  {
    assert PartEntries([part]) == [BytesField(2, WriteFields(PartFields(part)))];
    assert |WriteFields(PartFields(part))| == 5 by { WithoutBytes(part); }
    BareRoundTrip(overshift, Weapon([1], [part]), upper);
  }

  lemma WithoutBytes(part: Part)
    requires part == Part(0, [5])
    ensures WriteFields(PartFields(part)) == [8, 0, 18, 1, 5]
  {
    var fields := PartFields(part);
    assert fields == [fields[0]] + [fields[1]];
    assert WriteField(fields[0]) == [8, 0] && WriteField(fields[1]) == [18, 1, 5];
    WriteFieldsConcat([fields[0]], [fields[1]]);
    OneFieldWritten(fields[0]);
    OneFieldWritten(fields[1]);
  }

  lemma PartBytes(part: Part, u: Field)
    requires part == Part(0, [5]) && u == BytesField(1, [9])
    ensures WriteFields(PartFields(part) + [u]) == [8, 0, 18, 1, 5, 10, 1, 9]
  {
    IdBytes(9);
    WithoutBytes(part);
    WriteFieldsConcat(PartFields(part), [u]);
    OneFieldWritten(u);
  }

  lemma ArchiveBytes(payload: seq<Byte>)
    requires |payload| == 8
    ensures WriteFields([BytesField(1, [1]), BytesField(2, payload)]) == [10, 1, 1] + ([18, 8] + payload)
  {
    EntryBytes(payload);
    IdBytes(1);
    TwoFieldsWritten(BytesField(1, [1]), BytesField(2, payload));
  }

  lemma IdBytes(id: Byte)
    ensures WriteField(BytesField(1, [id])) == [10, 1, id]
  {
    assert WriteVarint(10) == [10] && WriteVarint(1) == [1];
  }

  lemma TwoFieldsWritten(f: Field, g: Field)
    ensures WriteFields([f, g]) == WriteField(f) + WriteField(g)
  {
    assert [f, g] == [f] + [g];
    WriteFieldsConcat([f], [g]);
    OneFieldWritten(f);
    OneFieldWritten(g);
  }

  lemma EntryBytes(payload: seq<Byte>)
    requires |payload| == 8
    ensures WriteField(BytesField(2, payload)) == [18, 8] + payload
  {
    assert WriteVarint(18) == [18] && WriteVarint(8) == [8];
  }

  /** The byte 5 alone is the tag of a fixed value that is missing. */
  lemma FiveIsNoPart(overshift: Overshift)
    ensures PartOf(overshift, [5]) == None
  {
    assert WriteVarint(5) == [5];
    ReadInvertsWrite(overshift, [5], 0, 5);
  }

  lemma ThreeFields(overshift: Overshift, f: Field, g: Field, h: Field)
    ensures WeaponFold(overshift, NO_WEAPON, [f, g, h]) ==
            WeaponStep(overshift, WeaponStep(overshift, WeaponStep(overshift, NO_WEAPON, f), g), h)
  {
    assert [f, g, h] == [f, g] + [h] && [f, g] == [f] + [g];
    WeaponFoldAround(overshift, [f], g, [h]);
    assert [f][1..] == [] && [h][1..] == [];
    assert WeaponFold(overshift, NO_WEAPON, [f]) == WeaponStep(overshift, NO_WEAPON, f);
  }
}
