/** Printing a central directory, and that what is printed passes the preflight
    of module `CentralDirectory`. */
module PrintedDirectory {
  import opened Wrappers
  import opened Bytes
  import opened CentralDirectory

  /** A number of `n` bytes to be written at an offset. */
  datatype Field = Field(at: nat, n: nat, v: nat)

  predicate FitsField(field: Field, length: nat) {
    field.at + field.n <= length
  }

  /** Fields in ascending order, none overlapping the next. */
  predicate Disjoint(fields: seq<Field>, length: nat) {
    && (forall i :: 0 <= i < |fields| ==> FitsField(fields[i], length))
    && (forall i, j :: 0 <= i < j < |fields| ==> fields[i].at + fields[i].n <= fields[j].at)
  }

  function Put(bytes: seq<Byte>, field: Field): (r: seq<Byte>)
    requires FitsField(field, |bytes|)
    ensures |r| == |bytes|
  {
    bytes[..field.at] + Digits(field.v, field.n) + bytes[field.at + field.n..]
  }

  /** Write the fields into a record whose other bytes stay as they are. */
  function PutAll(bytes: seq<Byte>, fields: seq<Field>): (r: seq<Byte>)
    requires Disjoint(fields, |bytes|)
    ensures |r| == |bytes|
  {
    if fields == [] then bytes else Put(PutAll(bytes, fields[..|fields| - 1]), fields[|fields| - 1])
  }

  lemma PutKeepsEarlier(bytes: seq<Byte>, field: Field, at: nat, n: nat)
    requires FitsField(field, |bytes|) && at + n <= field.at
    ensures Put(bytes, field)[at..at + n] == bytes[at..at + n]
  {
    hide Digits;
  }

  lemma PutWrites(bytes: seq<Byte>, field: Field)
    requires FitsField(field, |bytes|)
    ensures FieldIs(Put(bytes, field), field.at, field.n, field.v)
  {
    hide Digits;
  }

  lemma {:induction false} PutAllHolds(bytes: seq<Byte>, fields: seq<Field>, i: nat)
    requires Disjoint(fields, |bytes|) && i < |fields|
    ensures FieldIs(PutAll(bytes, fields), fields[i].at, fields[i].n, fields[i].v)
    decreases |fields|
  {
    var last := |fields| - 1;
    var before, f := PutAll(bytes, fields[..last]), fields[i];
    assert PutAll(bytes, fields) == Put(before, fields[last]);
    hide Put, Digits;
    if i < last {
      PutAllHolds(bytes, fields[..last], i);
      PutKeepsEarlier(before, fields[last], f.at, f.n);
    } else {
      PutWrites(before, f);
    }
  }

  // ---------------------------------------------------------------- headers

  function HeaderFields(e: Entry): (fields: seq<Field>)
    ensures Disjoint(fields, HEADER_BYTES)
  {
    [Field(0, 4, HEADER_SIGNATURE), Field(8, 2, e.flags), Field(10, 2, e.compression), Field(20, 4, e.compressed32),
     Field(24, 4, e.uncompressed32), Field(28, 2, |e.name|), Field(30, 2, |e.extra|), Field(32, 2, |e.comment|), Field(34, 2, e.disk)]
  }

  /** What stands in a header's fields that the preflight ignores. */
  type Base = bytes: seq<Byte> | |bytes| == HEADER_BYTES witness Zeros(HEADER_BYTES)

  function PrintEntry(e: Entry, base: Base): (bytes: seq<Byte>)
    ensures |bytes| == Size(e)
  {
    PutAll(base, HeaderFields(e)) + e.name + e.extra + e.comment
  }

  lemma PrintedHeader(e: Entry, base: Base)
    ensures HeaderIs(PutAll(base, HeaderFields(e)), e)
  {
    hide FieldIs, PutAll;
    var fields := HeaderFields(e);
    PutAllHolds(base, fields, 0);
    PutAllHolds(base, fields, 1);
    PutAllHolds(base, fields, 2);
    PutAllHolds(base, fields, 3);
    PutAllHolds(base, fields, 4);
    PutAllHolds(base, fields, 5);
    PutAllHolds(base, fields, 6);
    PutAllHolds(base, fields, 7);
    PutAllHolds(base, fields, 8);
  }

  lemma PrintedEntry(e: Entry, base: Base, rest: seq<Byte>)
    ensures BeginsWith(PrintEntry(e, base) + rest, e) && (PrintEntry(e, base) + rest)[Size(e)..] == rest
  {
    hide HeaderIs, PutAll;
    PrintedHeader(e, base);
    var bytes := PrintEntry(e, base) + rest;
    assert bytes[..HEADER_BYTES] == PutAll(base, HeaderFields(e));
    assert bytes[HEADER_BYTES..Size(e)] == e.name + e.extra + e.comment;
  }

  function PrintEntries(entries: seq<Entry>, bases: seq<Base>): seq<Byte>
    requires |bases| == |entries|
    decreases |entries|
  {
    if entries == [] then [] else PrintEntry(entries[0], bases[0]) + PrintEntries(entries[1..], bases[1..])
  }

  lemma {:induction false} PrintedTile(entries: seq<Entry>, bases: seq<Base>)
    requires |bases| == |entries|
    ensures TiledBy(PrintEntries(entries, bases), entries)
    decreases |entries|
  {
    hide BeginsWith;
    if entries != [] {
      PrintedEntry(entries[0], bases[0], PrintEntries(entries[1..], bases[1..]));
      PrintedTile(entries[1..], bases[1..]);
      EntryFits(PrintEntries(entries, bases), entries[0]);
    }
  }

  lemma EntryFits(bytes: seq<Byte>, e: Entry)
    requires BeginsWith(bytes, e)
    ensures Size(e) <= |bytes|
  {
  }

  // ---------------------------------------------------------------- extra fields

  function PrintExtra(id: nat, data: seq<Byte>): seq<Byte> {
    Digits(id, 2) + Digits(|data|, 2) + data
  }

  /** The first ZIP64 field of the extra data is found, behind any others. */
  lemma ExtraFieldIsRead(id: nat, data: seq<Byte>, rest: seq<Byte>)
    requires id <= U16_MAX && |data| <= U16_MAX
    ensures Zip64Data(PrintExtra(id, data) + rest) == if id == ZIP64_FIELD then Some(data) else Zip64Data(rest)
  {
    var extra := PrintExtra(id, data) + rest;
    Widths();
    DigitsRead(id, 2);
    DigitsRead(|data|, 2);
    assert extra[..2] == Digits(id, 2) && extra[2..4] == Digits(|data|, 2);
    hide Digits, LittleEndian;
    assert extra[4..4 + |data|] == data && extra[4 + |data|..] == rest;
  }

  /** Sizes too large for their fields are read back from the ZIP64 field. */
  lemma LargeSizesAreRead(compressed: nat, uncompressed: nat, rest: seq<Byte>)
    requires compressed <= U64_MAX && uncompressed <= U64_MAX
    ensures EntrySizes(U32_MAX, U32_MAX, PrintExtra(ZIP64_FIELD, Digits(uncompressed, 8) + Digits(compressed, 8)) + rest)
      == Some((compressed, uncompressed))
  {
    var data := Digits(uncompressed, 8) + Digits(compressed, 8);
    ExtraFieldIsRead(ZIP64_FIELD, data, rest);
    Widths();
    DigitsRead(uncompressed, 8);
    DigitsRead(compressed, 8);
    hide Digits, LittleEndian, PrintExtra, Zip64Data;
    assert data[..8] == Digits(uncompressed, 8) && data[8..][..8] == Digits(compressed, 8);
  }

  // ---------------------------------------------------------------- end records

  function Zeros(n: nat): (s: seq<Byte>)
    ensures |s| == n
  {
    seq(n, _ => 0)
  }

  function EocdFields(count: nat, size: nat, offset: nat): (fields: seq<Field>)
    ensures Disjoint(fields, EOCD_BYTES)
  {
    [Field(0, 4, EOCD_SIGNATURE), Field(4, 2, 0), Field(6, 2, 0), Field(8, 2, count), Field(10, 2, count),
     Field(12, 4, size), Field(16, 4, offset), Field(20, 2, 0)]
  }

  function PrintEocd(count: nat, size: nat, offset: nat): (eocd: seq<Byte>)
    ensures |eocd| == EOCD_BYTES
  {
    PutAll(Zeros(EOCD_BYTES), EocdFields(count, size, offset))
  }

  lemma PrintedEocd(count: nat, size: nat, offset: nat)
    ensures var eocd := PrintEocd(count, size, offset); IsEocd(eocd) && PlainEnd(eocd, Extent(0, count, size, offset))
  {
    hide FieldIs, PutAll;
    var fields := EocdFields(count, size, offset);
    PutAllHolds(Zeros(EOCD_BYTES), fields, 0);
    PutAllHolds(Zeros(EOCD_BYTES), fields, 1);
    PutAllHolds(Zeros(EOCD_BYTES), fields, 2);
    PutAllHolds(Zeros(EOCD_BYTES), fields, 3);
    PutAllHolds(Zeros(EOCD_BYTES), fields, 4);
    PutAllHolds(Zeros(EOCD_BYTES), fields, 5);
    PutAllHolds(Zeros(EOCD_BYTES), fields, 6);
    PutAllHolds(Zeros(EOCD_BYTES), fields, 7);
  }

  lemma {:induction false} DigitsDiffer(v: nat, w: nat, n: nat)
    requires v < Power256(n) && w < Power256(n) && Digits(v, n) == Digits(w, n)
    ensures v == w
  {
    DigitsRead(v, n);
    DigitsRead(w, n);
  }

  /** The fields that small directories leave to the plain record. */
  lemma SmallIsPlain(eocd: seq<Byte>, x: Extent)
    requires PlainEnd(eocd, x) && x.count < U16_MAX && x.size < U32_MAX && x.offset < U32_MAX
    ensures !RefersToZip64(eocd)
  {
    Widths();
    hide Digits, Power256;
    if FieldIs(eocd, 8, 2, U16_MAX) || FieldIs(eocd, 10, 2, U16_MAX) { DigitsDiffer(x.count, U16_MAX, 2); }
    if FieldIs(eocd, 12, 4, U32_MAX) { DigitsDiffer(x.size, U32_MAX, 4); }
    if FieldIs(eocd, 16, 4, U32_MAX) { DigitsDiffer(x.offset, U32_MAX, 4); }
  }

  function Zip64Fields(x: Extent, record: nat): (fields: seq<Field>)
    ensures Disjoint(fields, ZIP64_END_BYTES)
  {
    [Field(0, 4, ZIP64_END_SIGNATURE), Field(4, 8, record), Field(16, 4, 0), Field(20, 4, 0), Field(24, 8, x.count),
     Field(32, 8, x.count), Field(40, 8, x.size), Field(48, 8, x.offset)]
  }

  function LocatorFields(target: nat): (fields: seq<Field>)
    ensures Disjoint(fields, LOCATOR_BYTES)
  {
    [Field(0, 4, ZIP64_LOCATOR_SIGNATURE), Field(4, 4, 0), Field(8, 8, target), Field(16, 4, 1)]
  }

  lemma PrintedZip64(x: Extent)
    ensures IsZip64End(PutAll(Zeros(ZIP64_END_BYTES), Zip64Fields(x, ZIP64_RECORD_MINIMUM)), x)
    ensures IsLocator(PutAll(Zeros(LOCATOR_BYTES), LocatorFields(x.boundary)), x.boundary)
  {
    hide FieldIs, PutAll;
    var fields, locator := Zip64Fields(x, ZIP64_RECORD_MINIMUM), LocatorFields(x.boundary);
    PutAllHolds(Zeros(ZIP64_END_BYTES), fields, 0);
    PutAllHolds(Zeros(ZIP64_END_BYTES), fields, 1);
    PutAllHolds(Zeros(ZIP64_END_BYTES), fields, 2);
    PutAllHolds(Zeros(ZIP64_END_BYTES), fields, 3);
    PutAllHolds(Zeros(ZIP64_END_BYTES), fields, 4);
    PutAllHolds(Zeros(ZIP64_END_BYTES), fields, 5);
    PutAllHolds(Zeros(ZIP64_END_BYTES), fields, 6);
    PutAllHolds(Zeros(ZIP64_END_BYTES), fields, 7);
    PutAllHolds(Zeros(LOCATOR_BYTES), locator, 0);
    PutAllHolds(Zeros(LOCATOR_BYTES), locator, 1);
    PutAllHolds(Zeros(LOCATOR_BYTES), locator, 2);
    PutAllHolds(Zeros(LOCATOR_BYTES), locator, 3);
  }

  /** The end records for an extent: plain when everything fits, else ZIP64
      with all plain fields at their limits. */
  function PrintEnd(x: Extent): seq<Byte> {
    if x.count < U16_MAX && x.size < U32_MAX && x.offset < U32_MAX then PrintEocd(x.count, x.size, x.offset)
    else
      PutAll(Zeros(ZIP64_END_BYTES), Zip64Fields(x, ZIP64_RECORD_MINIMUM))
      + PutAll(Zeros(LOCATOR_BYTES), LocatorFields(x.boundary)) + PrintEocd(U16_MAX, U32_MAX, U32_MAX)
  }

  lemma PrintedEnd(front: seq<Byte>, x: Extent)
    requires x.boundary == |front| && ExtentInRange(x)
    ensures EndsWith(front + PrintEnd(x), x)
  {
    hide FieldIs, PutAll, IsEocd, PlainEnd, IsLocator, IsZip64End, RefersToZip64;
    var file := front + PrintEnd(x);
    if x.count < U16_MAX && x.size < U32_MAX && x.offset < U32_MAX {
      PrintedEocd(x.count, x.size, x.offset);
      var eocd := PrintEocd(x.count, x.size, x.offset);
      assert file[|file| - EOCD_BYTES..] == eocd;
      SameEnd(eocd, x);
      SmallIsPlain(eocd, x);
    } else {
      PrintedZip64(x);
      PrintedEocd(U16_MAX, U32_MAX, U32_MAX);
      var eocd := PrintEocd(U16_MAX, U32_MAX, U32_MAX);
      assert file[|file| - EOCD_BYTES..] == eocd;
      Refers(eocd);
      var locator := |file| - EOCD_BYTES - LOCATOR_BYTES;
      assert file[locator..locator + LOCATOR_BYTES] == PutAll(Zeros(LOCATOR_BYTES), LocatorFields(x.boundary));
      assert file[x.boundary..locator] == PutAll(Zeros(ZIP64_END_BYTES), Zip64Fields(x, ZIP64_RECORD_MINIMUM));
    }
  }

  lemma SameEnd(eocd: seq<Byte>, x: Extent)
    requires PlainEnd(eocd, Extent(0, x.count, x.size, x.offset))
    ensures PlainEnd(eocd, x)
  {
  }

  lemma Refers(eocd: seq<Byte>)
    requires PlainEnd(eocd, Extent(0, U16_MAX, U32_MAX, U32_MAX))
    ensures RefersToZip64(eocd)
  {
  }

  // ---------------------------------------------------------------- archives

  function PrintArchive(front: seq<Byte>, entries: seq<Entry>, bases: seq<Base>): seq<Byte>
    requires |bases| == |entries|
  {
    var directory := PrintEntries(entries, bases);
    front + directory + PrintEnd(Extent(|front| + |directory|, |entries|, |directory|, |front|))
  }

  /** Every directory printed from legal entries within the limits is accepted,
      whatever each header holds in the fields that are ignored. */
  lemma PrintedArchiveIsAccepted(front: seq<Byte>, entries: seq<Entry>, bases: seq<Base>, limits: Limits, fold: Fold)
    requires |bases| == |entries| && |PrintArchive(front, entries, bases)| <= U64_MAX
    requires 0 < |entries| <= limits.maxEntries && |PrintEntries(entries, bases)| <= limits.maxCentralDirectoryBytes
    requires forall i :: 0 <= i < |entries| ==> InRange(entries[i]) && Legal(entries[i], limits)
    requires DistinctNames(entries, fold)
    ensures exists x :: Describes(PrintArchive(front, entries, bases), x, entries, limits, fold)
  {
    hide InRange, Legal, EndsWith, TiledBy, PrintEntries, PrintEnd, LegalEntries;
    var directory := PrintEntries(entries, bases);
    var x := Extent(|front| + |directory|, |entries|, |directory|, |front|);
    CountFits(entries, bases);
    PrintedEnd(front + directory, x);
    PrintedTile(entries, bases);
    LegalMeans(entries, limits, fold, {});
    var file := PrintArchive(front, entries, bases);
    assert file == (front + directory) + PrintEnd(x);
    assert file[x.offset..x.boundary] == directory;
    assert Describes(file, x, entries, limits, fold);
  }

  lemma {:induction false} CountFits(entries: seq<Entry>, bases: seq<Base>)
    requires |bases| == |entries|
    ensures |entries| <= |PrintEntries(entries, bases)|
    decreases |entries|
  {
    if entries != [] { CountFits(entries[1..], bases[1..]); }
  }
}
