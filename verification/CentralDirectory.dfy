/** The ZIP central-directory preflight (crates/reforge-package/src/reader.rs),
    against the record layouts of PKWARE APPNOTE.TXT sections 4.3.12, 4.3.14 to
    4.3.16 and 4.5.3. */
module CentralDirectory {
  import opened Wrappers
  import opened Bytes
  import Utf8

  const U16_MAX: nat := 0xFFFF
  const U32_MAX: nat := 0xFFFF_FFFF
  const U64_MAX: nat := 0xFFFF_FFFF_FFFF_FFFF
  const EOCD_SIGNATURE: nat := 0x0605_4b50
  const ZIP64_END_SIGNATURE: nat := 0x0606_4b50
  const ZIP64_LOCATOR_SIGNATURE: nat := 0x0706_4b50
  const HEADER_SIGNATURE: nat := 0x0201_4b50
  const EOCD_BYTES: nat := 22
  const HEADER_BYTES: nat := 46
  const ZIP64_FIELD: nat := 1
  const MAX_COMMENT_BYTES: nat := 0xFFFF
  const LOCATOR_BYTES: nat := 20
  const ZIP64_END_BYTES: nat := 56
  const ZIP64_RECORD_MINIMUM: nat := 44

  datatype ErrorCode = PackageCorrupt | SecurityPolicy

  datatype Limits = Limits(maxEntries: nat, maxCentralDirectoryBytes: nat, maxEntryNameBytes: nat, maxCompressionRatio: nat)

  // ---------------------------------------------------------------- little-endian fields

  function Power256(n: nat): nat {
    if n == 0 then 1 else 256 * Power256(n - 1)
  }

  /** A number written in `n` bytes, the lowest first. */
  function Digits(v: nat, n: nat): (s: seq<Byte>)
    ensures |s| == n
  {
    if n == 0 then [] else [v % 256] + Digits(v / 256, n - 1)
  }

  function LittleEndian(s: seq<Byte>): nat {
    if s == [] then 0 else s[0] + 256 * LittleEndian(s[1..])
  }

  function ReadField(bytes: seq<Byte>, n: nat): Option<nat> {
    if |bytes| < n then None else Some(LittleEndian(bytes[..n]))
  }

  function ReadU16(bytes: seq<Byte>): Option<nat> { ReadField(bytes, 2) }
  function ReadU32(bytes: seq<Byte>): Option<nat> { ReadField(bytes, 4) }
  function ReadU64(bytes: seq<Byte>): Option<nat> { ReadField(bytes, 8) }

  lemma {:induction false} DigitsRead(v: nat, n: nat)
    requires v < Power256(n)
    ensures LittleEndian(Digits(v, n)) == v
  {
    if n > 0 { DigitsRead(v / 256, n - 1); }
  }

  lemma {:induction false} ReadDigits(s: seq<Byte>)
    ensures Digits(LittleEndian(s), |s|) == s && LittleEndian(s) < Power256(|s|)
  {
    if s != [] { ReadDigits(s[1..]); }
  }

  lemma Widths()
    ensures Power256(2) == 0x1_0000 && Power256(4) == 0x1_0000_0000 && Power256(8) == 0x1_0000_0000_0000_0000
  {
    assert Power256(2) == 0x1_0000;
    assert Power256(4) == 0x1_0000_0000;
  }

  /** The field of `n` bytes at `at` holds the number. */
  predicate FieldIs(bytes: seq<Byte>, at: nat, n: nat, v: nat) {
    at + n <= |bytes| && bytes[at..at + n] == Digits(v, n)
  }

  /** Reading a field finds the number written there, and only that. */
  lemma FieldReads(bytes: seq<Byte>, at: nat, n: nat, v: nat)
    requires at + n <= |bytes| && v < Power256(n)
    ensures FieldIs(bytes, at, n, v) <==> ReadField(bytes[at..], n) == Some(v)
    ensures ReadField(bytes[at..], n).Some? && FieldIs(bytes, at, n, ReadField(bytes[at..], n).value)
    ensures ReadField(bytes[at..], n).value < Power256(n)
  {
    assert bytes[at..][..n] == bytes[at..at + n];
    DigitsRead(v, n);
    ReadDigits(bytes[at..at + n]);
  }

  // ---------------------------------------------------------------- extra fields

  /** Extra data cut into fields of an identifier and some bytes; the data of
      the first ZIP64 field, if one is reached before the data breaks off. */
  function Zip64Data(extra: seq<Byte>): Option<seq<Byte>>
    decreases |extra|
  {
    if |extra| < 4 then None
    else
      var id, length := LittleEndian(extra[..2]), LittleEndian(extra[2..4]);
      if 4 + length > |extra| then None
      else if id == ZIP64_FIELD then Some(extra[4..4 + length])
      else Zip64Data(extra[4 + length..])
  }

  /** Compressed and uncompressed size: large ones are in the ZIP64 field, the
      uncompressed one first. */
  function EntrySizes(compressed: nat, uncompressed: nat, extra: seq<Byte>): Option<(nat, nat)> {
    if compressed != U32_MAX && uncompressed != U32_MAX then Some((compressed, uncompressed))
    else
      var data := Zip64Data(extra);
      if data.None? then None
      else
        var first := ReadU64(data.value);
        if uncompressed != U32_MAX then (if first.None? then None else Some((first.value, uncompressed)))
        else if compressed != U32_MAX then (if first.None? then None else Some((compressed, first.value)))
        else
          var second := if |data.value| < 8 then None else ReadU64(data.value[8..]);
          if second.None? then None else Some((second.value, first.value))
  }

  method CentralEntrySizes(compressed32: nat, uncompressed32: nat, extra: seq<Byte>) returns (r: Result<(nat, nat), ErrorCode>)
    ensures r.Ok? <==> EntrySizes(compressed32, uncompressed32, extra).Some?
    ensures r.Ok? ==> r.value == EntrySizes(compressed32, uncompressed32, extra).value
    ensures r.Err? ==> r.error == PackageCorrupt
  {
    var needsUncompressed, needsCompressed := uncompressed32 == U32_MAX, compressed32 == U32_MAX;
    if !needsUncompressed && !needsCompressed { return Ok((compressed32, uncompressed32)); }
    var offset: nat := 0;
    while offset + 4 <= |extra|
      invariant offset <= |extra| && Zip64Data(extra[offset..]) == Zip64Data(extra)
    {
      var rest := extra[offset..];
      assert rest[2..][..2] == rest[2..4];
      var fieldId, fieldLength := ReadU16(rest).value, ReadU16(extra[offset + 2..]).value;
      assert extra[offset + 2..][..2] == rest[2..4];
      offset := offset + 4;
      var end := offset + fieldLength;
      if end > |extra| { return Err(PackageCorrupt); }
      if fieldId == ZIP64_FIELD {
        var field := extra[offset..end];
        assert field == rest[4..4 + fieldLength];
        var cursor := 0;
        var uncompressed := uncompressed32;
        if needsUncompressed {
          var value := ReadU64(field);
          if value.None? { return Err(PackageCorrupt); }
          uncompressed := value.value;
          cursor := 8;
        }
        var compressed := compressed32;
        if needsCompressed {
          var value := ReadU64(field[cursor..]);
          if value.None? { return Err(PackageCorrupt); }
          compressed := value.value;
        }
        return Ok((compressed, uncompressed));
      }
      assert rest[4 + fieldLength..] == extra[end..];
      offset := end;
    }
    r := Err(PackageCorrupt);
  }

  // ---------------------------------------------------------------- entries

  /** A central-directory file header; fields the preflight ignores are left out. */
  datatype Entry = Entry(flags: nat, compression: nat, compressed32: nat, uncompressed32: nat, disk: nat,
                         name: seq<Byte>, extra: seq<Byte>, comment: seq<Byte>)

  function Size(e: Entry): nat {
    HEADER_BYTES + |e.name| + |e.extra| + |e.comment|
  }

  /** The fixed part of a header (APPNOTE section 4.3.12). */
  predicate HeaderIs(header: seq<Byte>, e: Entry) {
    && FieldIs(header, 0, 4, HEADER_SIGNATURE)
    && FieldIs(header, 8, 2, e.flags) && FieldIs(header, 10, 2, e.compression)
    && FieldIs(header, 20, 4, e.compressed32) && FieldIs(header, 24, 4, e.uncompressed32)
    && FieldIs(header, 28, 2, |e.name|) && FieldIs(header, 30, 2, |e.extra|) && FieldIs(header, 32, 2, |e.comment|)
    && FieldIs(header, 34, 2, e.disk)
  }

  /** The bytes begin with this header. */
  predicate BeginsWith(bytes: seq<Byte>, e: Entry) {
    && Size(e) <= |bytes|
    && HeaderIs(bytes[..HEADER_BYTES], e)
    && bytes[HEADER_BYTES..Size(e)] == e.name + e.extra + e.comment
  }

  /** All fields fit their widths. */
  predicate InRange(e: Entry) {
    && e.flags <= U16_MAX && e.compression <= U16_MAX && e.disk <= U16_MAX
    && e.compressed32 <= U32_MAX && e.uncompressed32 <= U32_MAX
    && |e.name| <= U16_MAX && |e.extra| <= U16_MAX && |e.comment| <= U16_MAX
  }

  function VariableLength(header: seq<Byte>): nat
    requires |header| == HEADER_BYTES
  {
    ReadU16(header[28..]).value + ReadU16(header[30..]).value + ReadU16(header[32..]).value
  }

  function EntryFrom(header: seq<Byte>, variable: seq<Byte>): Entry
    requires |header| == HEADER_BYTES && |variable| == VariableLength(header)
  {
    var nameLength, extraLength := ReadU16(header[28..]).value, ReadU16(header[30..]).value;
    Entry(ReadU16(header[8..]).value, ReadU16(header[10..]).value, ReadU32(header[20..]).value, ReadU32(header[24..]).value,
          ReadU16(header[34..]).value, variable[..nameLength], variable[nameLength..nameLength + extraLength],
          variable[nameLength + extraLength..])
  }

  /** The header at the start of the bytes, if they hold a whole one. */
  function ParseEntry(bytes: seq<Byte>): Option<Entry> {
    if |bytes| < HEADER_BYTES then None
    else
      var header := bytes[..HEADER_BYTES];
      if ReadU32(header).value != HEADER_SIGNATURE || HEADER_BYTES + VariableLength(header) > |bytes| then None
      else Some(EntryFrom(header, bytes[HEADER_BYTES..HEADER_BYTES + VariableLength(header)]))
  }

  lemma HeaderReads(header: seq<Byte>, e: Entry)
    requires |header| == HEADER_BYTES && InRange(e)
    ensures HeaderIs(header, e) <==>
      (ReadU32(header).value == HEADER_SIGNATURE
       && ReadU16(header[8..]).value == e.flags && ReadU16(header[10..]).value == e.compression
       && ReadU32(header[20..]).value == e.compressed32 && ReadU32(header[24..]).value == e.uncompressed32
       && ReadU16(header[28..]).value == |e.name| && ReadU16(header[30..]).value == |e.extra|
       && ReadU16(header[32..]).value == |e.comment| && ReadU16(header[34..]).value == e.disk)
  {
    Widths();
    assert header[0..] == header;
    hide FieldIs, Power256, LittleEndian;
    FieldReads(header, 0, 4, HEADER_SIGNATURE);
    FieldReads(header, 8, 2, e.flags);
    FieldReads(header, 10, 2, e.compression);
    FieldReads(header, 20, 4, e.compressed32);
    FieldReads(header, 24, 4, e.uncompressed32);
    FieldReads(header, 28, 2, |e.name|);
    FieldReads(header, 30, 2, |e.extra|);
    FieldReads(header, 32, 2, |e.comment|);
    FieldReads(header, 34, 2, e.disk);
  }

  lemma ReadInRange(header: seq<Byte>, variable: seq<Byte>)
    requires |header| == HEADER_BYTES && |variable| == VariableLength(header)
    ensures InRange(EntryFrom(header, variable))
  {
    Widths();
    hide FieldIs, Power256, LittleEndian;
    FieldReads(header, 8, 2, 0);
    FieldReads(header, 10, 2, 0);
    FieldReads(header, 20, 4, 0);
    FieldReads(header, 24, 4, 0);
    FieldReads(header, 28, 2, 0);
    FieldReads(header, 30, 2, 0);
    FieldReads(header, 32, 2, 0);
    FieldReads(header, 34, 2, 0);
  }

  /** Reading a header is exact. */
  lemma ParseIsExact(bytes: seq<Byte>, e: Entry)
    ensures ParseEntry(bytes) == Some(e) <==> (InRange(e) && BeginsWith(bytes, e))
    ensures BeginsWith(bytes, e) ==> Size(e) <= |bytes|
  {
    hide HeaderIs, LittleEndian;
    if ParseEntry(bytes) == Some(e) {
      var header := bytes[..HEADER_BYTES];
      var variable := bytes[HEADER_BYTES..HEADER_BYTES + VariableLength(header)];
      ReadInRange(header, variable);
      HeaderReads(header, e);
      assert variable == e.name + e.extra + e.comment;
    }
    if InRange(e) && BeginsWith(bytes, e) {
      var header := bytes[..HEADER_BYTES];
      HeaderReads(header, e);
      var variable := e.name + e.extra + e.comment;
      assert variable == bytes[HEADER_BYTES..HEADER_BYTES + VariableLength(header)];
      assert EntryFrom(header, variable) == e;
    }
  }

  // ---------------------------------------------------------------- what makes an entry legal

  function Segments(name: seq<Byte>): (segments: seq<seq<Byte>>)
    ensures segments != []
  {
    if name == [] then [[]]
    else
      var rest := Segments(name[1..]);
      if name[0] == 0x2F then [[]] + rest else [[name[0]] + rest[0]] + rest[1..]
  }

  /** A relative path of plain segments: no NUL, backslash or colon. */
  predicate SafeName(name: seq<Byte>) {
    && name != [] && 0x00 !in name && 0x5C !in name && name[0] != 0x2F && name[|name| - 1] != 0x2F
    && forall segment :: segment in Segments(name) ==> segment != [] && segment != [0x2E] && segment != [0x2E, 0x2E] && 0x3A !in segment
  }

  predicate Bit(flags: nat, mask: nat)
    requires mask > 0
  {
    flags / mask % 2 == 1
  }

  predicate IsAscii(name: seq<Byte>) {
    forall b :: b in name ==> b < 0x80
  }

  predicate ExceedsRatio(uncompressed: nat, compressed: nat, maximum: nat) {
    uncompressed > compressed * maximum
  }

  /** Text in bytes, as the automaton of module `Utf8` reads it. */
  predicate IsUtf8(name: seq<Byte>) {
    Utf8.Run(Utf8.Boundary, name) == Utf8.Boundary
  }

  predicate Legal(e: Entry, limits: Limits) {
    && |e.name| <= limits.maxEntryNameBytes
    && IsUtf8(e.name) && (IsAscii(e.name) || Bit(e.flags, 0x800)) && SafeName(e.name)
    && e.comment == [] && !Bit(e.flags, 0x1) && !Bit(e.flags, 0x40) && e.disk == 0 && e.compression == 0
    && var sizes := EntrySizes(e.compressed32, e.uncompressed32, e.extra);
      sizes.Some? && sizes.value.0 == sizes.value.1
      && (sizes.value.0 != 0 ==> !ExceedsRatio(sizes.value.1, sizes.value.0, limits.maxCompressionRatio))
  }

  // ---------------------------------------------------------------- a directory

  /** Case folding of names. */
  type Fold = seq<Byte> -> seq<Byte>

  /** The region is tiled by these headers, without gap or overlap. */
  predicate TiledBy(region: seq<Byte>, entries: seq<Entry>)
    decreases |entries|
  {
    if entries == [] then region == []
    else BeginsWith(region, entries[0]) && TiledBy(region[Size(entries[0])..], entries[1..])
  }

  /** Legal entries whose folded names differ from each other and from `names`. */
  predicate LegalEntries(entries: seq<Entry>, limits: Limits, fold: Fold, names: set<seq<Byte>>)
    decreases |entries|
  {
    entries == []
    || (InRange(entries[0]) && Legal(entries[0], limits) && fold(entries[0].name) !in names
        && LegalEntries(entries[1..], limits, fold, names + {fold(entries[0].name)}))
  }

  predicate DistinctNames(entries: seq<Entry>, fold: Fold) {
    forall i, j :: 0 <= i < j < |entries| ==> fold(entries[i].name) != fold(entries[j].name)
  }

  lemma {:induction false} LegalMeans(entries: seq<Entry>, limits: Limits, fold: Fold, names: set<seq<Byte>>)
    ensures LegalEntries(entries, limits, fold, names) <==>
      ((forall i :: 0 <= i < |entries| ==> InRange(entries[i]) && Legal(entries[i], limits) && fold(entries[i].name) !in names)
       && DistinctNames(entries, fold))
    decreases |entries|
  {
    hide Legal, InRange;
    if entries != [] {
      LegalMeans(entries[1..], limits, fold, names + {fold(entries[0].name)});
      assert forall i :: 0 < i < |entries| ==> entries[i] == entries[1..][i - 1];
      assert forall i :: 0 <= i < |entries| - 1 ==> entries[1..][i] == entries[i + 1];
    }
  }

  /** Read one header after the other. */
  function Accepts(region: seq<Byte>, count: nat, limits: Limits, fold: Fold, names: set<seq<Byte>>): bool
    decreases count
  {
    if count == 0 then region == []
    else
      var e := ParseEntry(region);
      e.Some? && Legal(e.value, limits) && fold(e.value.name) !in names
      && Accepts(region[Size(e.value)..], count - 1, limits, fold, names + {fold(e.value.name)})
  }

  /** A region is accepted exactly when so many legal headers tile it. */
  lemma {:induction false} AcceptsExactly(region: seq<Byte>, count: nat, limits: Limits, fold: Fold, names: set<seq<Byte>>)
    ensures Accepts(region, count, limits, fold, names)
      <==> exists entries :: |entries| == count && TiledBy(region, entries) && LegalEntries(entries, limits, fold, names)
    decreases count
  {
    hide Legal, InRange, BeginsWith, ParseEntry;
    if Accepts(region, count, limits, fold, names) {
      if count == 0 {
        assert TiledBy(region, []) && LegalEntries([], limits, fold, names);
      } else {
        var e := ParseEntry(region).value;
        ParseIsExact(region, e);
        AcceptsExactly(region[Size(e)..], count - 1, limits, fold, names + {fold(e.name)});
        var rest :| |rest| == count - 1 && TiledBy(region[Size(e)..], rest) && LegalEntries(rest, limits, fold, names + {fold(e.name)});
        var entries := [e] + rest;
        assert entries[1..] == rest;
        assert TiledBy(region, entries) && LegalEntries(entries, limits, fold, names);
      }
    }
    if entries :| |entries| == count && TiledBy(region, entries) && LegalEntries(entries, limits, fold, names) {
      if count > 0 {
        var e := entries[0];
        ParseIsExact(region, e);
        AcceptsExactly(region[Size(e)..], count - 1, limits, fold, names + {fold(e.name)});
        assert |entries[1..]| == count - 1;
      }
    }
  }

  // ---------------------------------------------------------------- end records

  /** Where the directory ends and what the end records say about it. */
  datatype Extent = Extent(boundary: nat, count: nat, size: nat, offset: nat)

  /** An end-of-central-directory record on one disk, without comment
      (APPNOTE section 4.3.16). */
  predicate IsEocd(eocd: seq<Byte>) {
    |eocd| == EOCD_BYTES && FieldIs(eocd, 0, 4, EOCD_SIGNATURE) && FieldIs(eocd, 4, 2, 0) && FieldIs(eocd, 6, 2, 0) && FieldIs(eocd, 20, 2, 0)
  }

  /** Some field refers to the ZIP64 record. */
  predicate RefersToZip64(eocd: seq<Byte>) {
    FieldIs(eocd, 8, 2, U16_MAX) || FieldIs(eocd, 10, 2, U16_MAX) || FieldIs(eocd, 12, 4, U32_MAX) || FieldIs(eocd, 16, 4, U32_MAX)
  }

  predicate PlainEnd(eocd: seq<Byte>, x: Extent) {
    FieldIs(eocd, 8, 2, x.count) && FieldIs(eocd, 10, 2, x.count) && FieldIs(eocd, 12, 4, x.size) && FieldIs(eocd, 16, 4, x.offset)
  }

  /** A ZIP64 end record that fills the bytes (APPNOTE section 4.3.14). */
  predicate IsZip64End(record: seq<Byte>, x: Extent) {
    && |record| >= ZIP64_END_BYTES
    && FieldIs(record, 0, 4, ZIP64_END_SIGNATURE) && FieldIs(record, 4, 8, |record| - 12)
    && FieldIs(record, 16, 4, 0) && FieldIs(record, 20, 4, 0)
    && FieldIs(record, 24, 8, x.count) && FieldIs(record, 32, 8, x.count)
    && FieldIs(record, 40, 8, x.size) && FieldIs(record, 48, 8, x.offset)
  }

  /** A ZIP64 locator (APPNOTE section 4.3.15). */
  predicate IsLocator(locator: seq<Byte>, target: nat) {
    && |locator| == LOCATOR_BYTES && FieldIs(locator, 0, 4, ZIP64_LOCATOR_SIGNATURE)
    && FieldIs(locator, 4, 4, 0) && FieldIs(locator, 8, 8, target) && FieldIs(locator, 16, 4, 1)
  }

  predicate ExtentInRange(x: Extent) {
    x.count <= U64_MAX && x.size <= U64_MAX && x.offset <= U64_MAX
  }

  /** The file ends, from the boundary on, in records that state this extent. */
  predicate EndsWith(file: seq<Byte>, x: Extent) {
    && x.boundary + EOCD_BYTES <= |file| && ExtentInRange(x)
    && var eocd := file[|file| - EOCD_BYTES..];
      && IsEocd(eocd)
      && if !RefersToZip64(eocd) then x.boundary == |file| - EOCD_BYTES && x.count <= U16_MAX && x.size <= U32_MAX && x.offset <= U32_MAX && PlainEnd(eocd, x)
         else
           && x.boundary + ZIP64_END_BYTES + LOCATOR_BYTES + EOCD_BYTES <= |file|
           && var locator := |file| - EOCD_BYTES - LOCATOR_BYTES;
             IsLocator(file[locator..locator + LOCATOR_BYTES], x.boundary) && IsZip64End(file[x.boundary..locator], x)
  }

  /** An accepted archive: legal headers tile the directory up to the end records. */
  predicate Describes(file: seq<Byte>, x: Extent, entries: seq<Entry>, limits: Limits, fold: Fold) {
    && EndsWith(file, x)
    && x.offset + x.size == x.boundary && x.count == |entries|
    && 0 < |entries| <= limits.maxEntries && x.size <= limits.maxCentralDirectoryBytes
    && TiledBy(file[x.offset..x.boundary], entries)
    && LegalEntries(entries, limits, fold, {})
  }

  // ---------------------------------------------------------------- reading the file

  class ArchiveFile {
    const bytes: seq<Byte>
    var position: nat

    constructor (bytes: seq<Byte>)
      ensures this.bytes == bytes
    {
      this.bytes := bytes;
      position := 0;
    }

    method Seek(to: nat)
      modifies this
      ensures position == to
    {
      position := to;
    }

    method ReadExact(n: nat) returns (r: Option<seq<Byte>>)
      modifies this
      ensures r.Some? <==> old(position) + n <= |bytes|
      ensures r.Some? ==> r.value == bytes[old(position)..old(position) + n] && position == old(position) + n
    {
      if position + n > |bytes| { return None; }
      r := Some(bytes[position..position + n]);
      position := position + n;
    }
  }

  /** What is looked at before the sizes. */
  predicate WellMarked(e: Entry, limits: Limits) {
    && |e.name| <= limits.maxEntryNameBytes
    && IsUtf8(e.name) && (IsAscii(e.name) || Bit(e.flags, 0x800)) && SafeName(e.name)
    && e.comment == [] && !Bit(e.flags, 0x1) && !Bit(e.flags, 0x40) && e.disk == 0
  }

  /** A header without readable sizes is corrupt; all else is against policy. */
  method CheckEntry(e: Entry, limits: Limits) returns (r: Result<(), ErrorCode>)
    ensures r.Ok? <==> Legal(e, limits)
    ensures r.Err? ==> r.error == if WellMarked(e, limits) && EntrySizes(e.compressed32, e.uncompressed32, e.extra).None? then PackageCorrupt else SecurityPolicy
  {
    if |e.name| > limits.maxEntryNameBytes { return Err(SecurityPolicy); }
    if !IsUtf8(e.name) { return Err(SecurityPolicy); }
    if !IsAscii(e.name) && !Bit(e.flags, 0x800) { return Err(SecurityPolicy); }
    if !SafeName(e.name) { return Err(SecurityPolicy); }
    if |e.comment| != 0 { return Err(SecurityPolicy); }
    if Bit(e.flags, 0x1) || Bit(e.flags, 0x40) { return Err(SecurityPolicy); }
    if e.disk != 0 { return Err(SecurityPolicy); }
    var sizes := CentralEntrySizes(e.compressed32, e.uncompressed32, e.extra);
    if sizes.Err? { return Err(sizes.error); }
    var (compressed, uncompressed) := sizes.value;
    if compressed == 0 && uncompressed != 0 { return Err(SecurityPolicy); }
    if compressed != 0 && ExceedsRatio(uncompressed, compressed, limits.maxCompressionRatio) { return Err(SecurityPolicy); }
    if e.compression != 0 || compressed != uncompressed { return Err(SecurityPolicy); }
    r := Ok(());
  }

  lemma SliceOfSlice(s: seq<Byte>, a: nat, n: nat, b: nat, m: nat)
    requires b + m <= n && a + n <= |s|
    ensures s[a..a + n][b..b + m] == s[a + b..a + b + m]
  {
    var slice, inner, direct := s[a..a + n], s[a..a + n][b..b + m], s[a + b..a + b + m];
    forall i | 0 <= i < m ensures inner[i] == direct[i] {
      assert inner[i] == slice[b + i] == s[a + b + i];
    }
  }

  /** Read the next header; it must end within the directory. */
  method ReadEntry(file: ArchiveFile, remaining: nat) returns (r: Result<Entry, ErrorCode>)
    requires file.position + remaining <= |file.bytes|
    modifies file
    ensures var region := file.bytes[old(file.position)..old(file.position) + remaining];
      && (r.Ok? <==> ParseEntry(region).Some?)
      && (r.Ok? ==> r.value == ParseEntry(region).value && file.position == old(file.position) + Size(r.value) && Size(r.value) <= remaining)
  {
    hide LittleEndian, EntryFrom, VariableLength, ReadField, ParseEntry;
    ghost var start := file.position;
    ghost var region := file.bytes[start..start + remaining];
    RegionParses(file.bytes, start, remaining);
    var header := file.ReadExact(HEADER_BYTES);
    if header.None? { return Err(PackageCorrupt); }
    var h := header.value;
    if ReadSignature(h) != HEADER_SIGNATURE { return Err(PackageCorrupt); }
    var variableLength := VariableLength(h);
    if HEADER_BYTES + variableLength > remaining { return Err(SecurityPolicy); }
    var variable := file.ReadExact(variableLength);
    r := Ok(EntryFrom(h, variable.value));
    SizeOfParsed(h, variable.value);
  }

  function ReadSignature(header: seq<Byte>): nat
    requires |header| == HEADER_BYTES
  {
    ReadU32(header).value
  }

  lemma SizeOfParsed(header: seq<Byte>, variable: seq<Byte>)
    requires |header| == HEADER_BYTES && |variable| == VariableLength(header)
    ensures Size(EntryFrom(header, variable)) == HEADER_BYTES + |variable|
  {
    hide LittleEndian;
  }

  /** Parsing the region, in terms of the file around it. */
  lemma RegionParses(bytes: seq<Byte>, start: nat, remaining: nat)
    requires start + remaining <= |bytes|
    ensures var region := bytes[start..start + remaining];
      if remaining < HEADER_BYTES then ParseEntry(region).None?
      else
        var h := bytes[start..start + HEADER_BYTES];
        if ReadSignature(h) != HEADER_SIGNATURE || HEADER_BYTES + VariableLength(h) > remaining then ParseEntry(region).None?
        else ParseEntry(region) == Some(EntryFrom(h, bytes[start + HEADER_BYTES..start + HEADER_BYTES + VariableLength(h)]))
  {
    hide LittleEndian, EntryFrom;
    if remaining >= HEADER_BYTES {
      var region, h := bytes[start..start + remaining], bytes[start..start + HEADER_BYTES];
      SliceOfSlice(bytes, start, remaining, 0, HEADER_BYTES);
      assert region[..HEADER_BYTES] == region[0..0 + HEADER_BYTES] == h;
      if HEADER_BYTES + VariableLength(h) <= remaining {
        SliceOfSlice(bytes, start, remaining, HEADER_BYTES, VariableLength(h));
      }
    }
  }

  method ValidateCentralDirectoryEntries(file: ArchiveFile, offset: nat, size: nat, count: nat, limits: Limits, fold: Fold)
    returns (r: Result<(), ErrorCode>)
    requires offset + size <= |file.bytes|
    modifies file
    ensures r.Ok? <==> Accepts(file.bytes[offset..offset + size], count, limits, fold, {})
  {
    hide ParseEntry, Legal, EntryFrom;
    file.Seek(offset);
    ghost var region := file.bytes[offset..offset + size];
    var consumed: nat := 0;
    var names: set<seq<Byte>> := {};
    assert region[0..] == region;
    for n := 0 to count
      invariant consumed <= size && file.position == offset + consumed
      invariant Accepts(region[consumed..], count - n, limits, fold, names) <==> Accepts(region, count, limits, fold, {})
    {
      var entry := ReadEntry(file, size - consumed);
      assert file.bytes[offset + consumed..offset + consumed + (size - consumed)] == region[consumed..];
      if entry.Err? { return Err(entry.error); }
      var e := entry.value;
      var checked := CheckEntry(e, limits);
      if checked.Err? { return Err(checked.error); }
      if fold(e.name) in names { return Err(SecurityPolicy); }
      names := names + {fold(e.name)};
      assert region[consumed..][Size(e)..] == region[consumed + Size(e)..];
      consumed := consumed + Size(e);
    }
    if consumed != size { return Err(PackageCorrupt); }
    r := Ok(());
  }

  // ---------------------------------------------------------------- finding the end

  predicate EocdAt(tail: seq<Byte>, i: nat) {
    && i + EOCD_BYTES <= |tail|
    && ReadU32(tail[i..]) == Some(EOCD_SIGNATURE)
    && ReadU16(tail[i + 20..]).Some? && i + EOCD_BYTES + ReadU16(tail[i + 20..]).value == |tail|
  }

  /** The last record whose comment runs exactly to the end. */
  method FindEocd(tail: seq<Byte>) returns (r: Option<nat>)
    requires |tail| >= EOCD_BYTES
    ensures r.Some? ==> EocdAt(tail, r.value)
    ensures forall i: nat :: EocdAt(tail, i) ==> r.Some? && i <= r.value
  {
    hide ReadField;
    var index := |tail| - EOCD_BYTES;
    while index >= 0
      invariant index <= |tail| - EOCD_BYTES
      invariant forall i: nat :: EocdAt(tail, i) ==> i <= index
    {
      if EocdAt(tail, index) { return Some(index); }
      index := index - 1;
    }
    r := None;
  }

  lemma EocdReads(eocd: seq<Byte>)
    requires |eocd| == EOCD_BYTES
    ensures IsEocd(eocd) <==> (ReadU32(eocd).value == EOCD_SIGNATURE && ReadU16(eocd[4..]).value == 0
      && ReadU16(eocd[6..]).value == 0 && ReadU16(eocd[20..]).value == 0)
    ensures RefersToZip64(eocd) <==> (ReadU16(eocd[8..]).value == U16_MAX || ReadU16(eocd[10..]).value == U16_MAX
      || ReadU32(eocd[12..]).value == U32_MAX || ReadU32(eocd[16..]).value == U32_MAX)
  {
    Widths();
    assert eocd[0..] == eocd;
    hide FieldIs, Power256, LittleEndian;
    FieldReads(eocd, 0, 4, EOCD_SIGNATURE);
    FieldReads(eocd, 4, 2, 0);
    FieldReads(eocd, 6, 2, 0);
    FieldReads(eocd, 20, 2, 0);
    FieldReads(eocd, 8, 2, U16_MAX);
    FieldReads(eocd, 10, 2, U16_MAX);
    FieldReads(eocd, 12, 4, U32_MAX);
    FieldReads(eocd, 16, 4, U32_MAX);
  }

  /** The record must stand in the last 22 bytes: with a comment it is refused. */
  method ReadEocd(file: ArchiveFile) returns (r: Result<seq<Byte>, ErrorCode>)
    modifies file
    ensures r.Ok? <==> |file.bytes| >= EOCD_BYTES && IsEocd(file.bytes[|file.bytes| - EOCD_BYTES..])
    ensures r.Ok? ==> r.value == file.bytes[|file.bytes| - EOCD_BYTES..]
  {
    hide LittleEndian, FieldIs;
    var archiveBytes := |file.bytes|;
    if archiveBytes < EOCD_BYTES { return Err(PackageCorrupt); }
    var tailLength := if archiveBytes < EOCD_BYTES + MAX_COMMENT_BYTES then archiveBytes else EOCD_BYTES + MAX_COMMENT_BYTES;
    file.Seek(archiveBytes - tailLength);
    var read := file.ReadExact(tailLength);
    var tail := read.value;
    var index := FindEocd(tail);
    var last := tailLength - EOCD_BYTES;
    ghost var end := file.bytes[archiveBytes - EOCD_BYTES..];
    assert tail[last..] == end && tail[last + 20..] == end[20..];
    EocdReads(end);
    assert IsEocd(end) ==> EocdAt(tail, last);
    if index.None? { return Err(PackageCorrupt); }
    if ReadU16(tail[index.value + 20..]) != Some(0) { return Err(SecurityPolicy); }
    var eocd := tail[index.value..];
    if ReadU16(eocd[4..]).value != 0 || ReadU16(eocd[6..]).value != 0 { return Err(SecurityPolicy); }
    r := Ok(eocd);
  }

  lemma LocatorReads(locator: seq<Byte>, target: nat)
    requires |locator| == LOCATOR_BYTES && target <= U64_MAX
    ensures ReadU64(locator[8..]).value <= U64_MAX
    ensures IsLocator(locator, target) <==> (ReadU32(locator).value == ZIP64_LOCATOR_SIGNATURE && ReadU32(locator[4..]).value == 0
      && ReadU32(locator[16..]).value == 1 && ReadU64(locator[8..]).value == target)
  {
    Widths();
    assert locator[0..] == locator;
    hide FieldIs, Power256, LittleEndian;
    FieldReads(locator, 0, 4, ZIP64_LOCATOR_SIGNATURE);
    FieldReads(locator, 4, 4, 0);
    FieldReads(locator, 16, 4, 1);
    FieldReads(locator, 8, 8, target);
  }

  /** A ZIP64 record is read from its first 56 bytes. */
  lemma Zip64Reads(record: seq<Byte>, fixed: seq<Byte>, x: Extent)
    requires |record| >= ZIP64_END_BYTES && fixed == record[..ZIP64_END_BYTES] && ExtentInRange(x) && |record| <= U64_MAX
    ensures ReadU64(fixed[24..]).value <= U64_MAX && ReadU64(fixed[40..]).value <= U64_MAX && ReadU64(fixed[48..]).value <= U64_MAX
    ensures IsZip64End(record, x) <==> (ReadU32(fixed).value == ZIP64_END_SIGNATURE && ReadU64(fixed[4..]).value == |record| - 12
      && ReadU32(fixed[16..]).value == 0 && ReadU32(fixed[20..]).value == 0
      && ReadU64(fixed[24..]).value == x.count && ReadU64(fixed[32..]).value == x.count
      && ReadU64(fixed[40..]).value == x.size && ReadU64(fixed[48..]).value == x.offset)
  {
    Widths();
    assert fixed[0..] == fixed;
    SameFields(record, fixed, x);
    hide FieldIs, Power256, LittleEndian;
    FieldReads(fixed, 0, 4, ZIP64_END_SIGNATURE);
    FieldReads(fixed, 4, 8, |record| - 12);
    FieldReads(fixed, 16, 4, 0);
    FieldReads(fixed, 20, 4, 0);
    FieldReads(fixed, 24, 8, x.count);
    FieldReads(fixed, 32, 8, x.count);
    FieldReads(fixed, 40, 8, x.size);
    FieldReads(fixed, 48, 8, x.offset);
  }

  lemma SameField(record: seq<Byte>, fixed: seq<Byte>, at: nat, n: nat, v: nat)
    requires |record| >= |fixed| && fixed == record[..|fixed|] && at + n <= |fixed|
    ensures FieldIs(record, at, n, v) <==> FieldIs(fixed, at, n, v)
  {
    assert record[at..at + n] == fixed[at..at + n];
  }

  lemma SameFields(record: seq<Byte>, fixed: seq<Byte>, x: Extent)
    requires |record| >= ZIP64_END_BYTES && fixed == record[..ZIP64_END_BYTES]
    ensures IsZip64End(record, x) <==>
      (FieldIs(fixed, 0, 4, ZIP64_END_SIGNATURE) && FieldIs(fixed, 4, 8, |record| - 12)
       && FieldIs(fixed, 16, 4, 0) && FieldIs(fixed, 20, 4, 0) && FieldIs(fixed, 24, 8, x.count) && FieldIs(fixed, 32, 8, x.count)
       && FieldIs(fixed, 40, 8, x.size) && FieldIs(fixed, 48, 8, x.offset))
  {
    hide FieldIs;
    SameField(record, fixed, 0, 4, ZIP64_END_SIGNATURE);
    SameField(record, fixed, 4, 8, |record| - 12);
    SameField(record, fixed, 16, 4, 0);
    SameField(record, fixed, 20, 4, 0);
    SameField(record, fixed, 24, 8, x.count);
    SameField(record, fixed, 32, 8, x.count);
    SameField(record, fixed, 40, 8, x.size);
    SameField(record, fixed, 48, 8, x.offset);
  }

  lemma PlainReads(eocd: seq<Byte>, x: Extent)
    requires |eocd| == EOCD_BYTES && x.count <= U16_MAX && x.size <= U32_MAX && x.offset <= U32_MAX
    ensures PlainEnd(eocd, x) <==> (ReadU16(eocd[8..]).value == x.count && ReadU16(eocd[10..]).value == x.count
      && ReadU32(eocd[12..]).value == x.size && ReadU32(eocd[16..]).value == x.offset)
    ensures ReadU16(eocd[10..]).value <= U16_MAX && ReadU32(eocd[12..]).value <= U32_MAX && ReadU32(eocd[16..]).value <= U32_MAX
  {
    Widths();
    hide FieldIs, Power256, LittleEndian;
    FieldReads(eocd, 8, 2, x.count);
    FieldReads(eocd, 10, 2, x.count);
    FieldReads(eocd, 12, 4, x.size);
    FieldReads(eocd, 16, 4, x.offset);
  }

  /** The extent that the end records state, if they state one. */
  method ReadExtent(file: ArchiveFile, eocd: seq<Byte>) returns (r: Result<Extent, ErrorCode>)
    requires EOCD_BYTES <= |file.bytes| <= U64_MAX && eocd == file.bytes[|file.bytes| - EOCD_BYTES..] && IsEocd(eocd)
    modifies file
    ensures forall x :: EndsWith(file.bytes, x) <==> r == Ok(x)
  {
    EocdReads(eocd);
    if ReadU16(eocd[10..]).value == U16_MAX || ReadU16(eocd[8..]).value == U16_MAX
       || ReadU32(eocd[12..]).value == U32_MAX || ReadU32(eocd[16..]).value == U32_MAX {
      r := ReadZip64Extent(file);
    } else {
      r := ReadPlainExtent(file, eocd);
    }
  }

  method ReadPlainExtent(file: ArchiveFile, eocd: seq<Byte>) returns (r: Result<Extent, ErrorCode>)
    requires EOCD_BYTES <= |file.bytes| <= U64_MAX && eocd == file.bytes[|file.bytes| - EOCD_BYTES..]
    requires IsEocd(eocd) && !RefersToZip64(eocd)
    ensures forall x :: EndsWith(file.bytes, x) <==> r == Ok(x)
  {
    hide LittleEndian, FieldIs, PlainEnd, RefersToZip64;
    var entriesOnDisk, entries := ReadU16(eocd[8..]).value, ReadU16(eocd[10..]).value;
    var extent := Extent(|file.bytes| - EOCD_BYTES, entries, ReadU32(eocd[12..]).value, ReadU32(eocd[16..]).value);
    PlainReads(eocd, Extent(0, 0, 0, 0));
    PlainReads(eocd, extent);
    forall x | EndsWith(file.bytes, x) ensures entriesOnDisk == entries && x == extent {
      PlainReads(eocd, x);
    }
    if entriesOnDisk != entries { return Err(SecurityPolicy); }
    r := Ok(extent);
  }

  ghost predicate Zip64Ends(bytes: seq<Byte>, x: Extent) {
    && x.boundary + ZIP64_END_BYTES + LOCATOR_BYTES + EOCD_BYTES <= |bytes| && ExtentInRange(x)
    && var locator := |bytes| - EOCD_BYTES - LOCATOR_BYTES;
      IsLocator(bytes[locator..locator + LOCATOR_BYTES], x.boundary) && IsZip64End(bytes[x.boundary..locator], x)
  }

  method ReadZip64Extent(file: ArchiveFile) returns (r: Result<Extent, ErrorCode>)
    requires EOCD_BYTES <= |file.bytes| <= U64_MAX
    requires IsEocd(file.bytes[|file.bytes| - EOCD_BYTES..]) && RefersToZip64(file.bytes[|file.bytes| - EOCD_BYTES..])
    modifies file
    ensures forall x :: EndsWith(file.bytes, x) <==> r == Ok(x)
  {
    hide LittleEndian, FieldIs, RefersToZip64, IsEocd, IsLocator, IsZip64End;
    ghost var bytes := file.bytes;
    assert forall x :: EndsWith(bytes, x) <==> Zip64Ends(bytes, x);
    hide EndsWith;
    var eocdOffset := |file.bytes| - EOCD_BYTES;
    if eocdOffset < LOCATOR_BYTES { return Err(PackageCorrupt); }
    var locatorOffset := eocdOffset - LOCATOR_BYTES;
    file.Seek(locatorOffset);
    var read := file.ReadExact(LOCATOR_BYTES);
    var locator := read.value;
    LocatorReads(locator, 0);
    var zip64Offset := ReadU64(locator[8..]).value;
    LocatorReads(locator, zip64Offset);
    forall x | Zip64Ends(bytes, x) ensures IsLocator(locator, x.boundary) && IsLocator(locator, zip64Offset) && x.boundary == zip64Offset {
      LocatorReads(locator, x.boundary);
    }
    if ReadU32(locator).value != ZIP64_LOCATOR_SIGNATURE || ReadU32(locator[4..]).value != 0 || ReadU32(locator[16..]).value != 1 {
      return Err(SecurityPolicy);
    }
    if zip64Offset >= locatorOffset { return Err(PackageCorrupt); }
    var record := ReadZip64Record(file, zip64Offset, locatorOffset);
    forall x ensures Zip64Ends(bytes, x) <==> record == Ok(x) {
      if record == Ok(x) { Zip64IsLong(bytes[zip64Offset..locatorOffset], x); }
      assert bytes[locatorOffset..locatorOffset + LOCATOR_BYTES] == locator;
    }
    r := record;
  }

  /** The ZIP64 record between its offset and the locator. */
  method ReadZip64Record(file: ArchiveFile, zip64Offset: nat, locatorOffset: nat) returns (r: Result<Extent, ErrorCode>)
    requires zip64Offset < locatorOffset && locatorOffset + LOCATOR_BYTES + EOCD_BYTES == |file.bytes| <= U64_MAX
    modifies file
    ensures forall x: Extent :: (x.boundary == zip64Offset && ExtentInRange(x) && IsZip64End(file.bytes[zip64Offset..locatorOffset], x)) <==> r == Ok(x)
  {
    hide LittleEndian, FieldIs, IsZip64End;
    ghost var record := file.bytes[zip64Offset..locatorOffset];
    file.Seek(zip64Offset);
    var read := file.ReadExact(ZIP64_END_BYTES);
    forall x | IsZip64End(record, x) ensures |record| >= ZIP64_END_BYTES { Zip64IsLong(record, x); }
    if read.None? { return Err(PackageCorrupt); }
    var zip64 := read.value;
    if |record| >= ZIP64_END_BYTES {
      assert zip64 == record[..ZIP64_END_BYTES];
      Zip64Reads(record, zip64, Extent(zip64Offset, 0, 0, 0));
    }
    var recordSize := ReadU64(zip64[4..]).value;
    var onDisk, count := ReadU64(zip64[24..]).value, ReadU64(zip64[32..]).value;
    var extent := Extent(zip64Offset, count, ReadU64(zip64[40..]).value, ReadU64(zip64[48..]).value);
    forall x | |record| >= ZIP64_END_BYTES && ExtentInRange(x)
      ensures IsZip64End(record, x) && x.boundary == zip64Offset ==> x == extent && onDisk == count
      ensures IsZip64End(record, x) ==> recordSize == |record| - 12 && ReadU32(zip64).value == ZIP64_END_SIGNATURE
                                        && ReadU32(zip64[16..]).value == 0 && ReadU32(zip64[20..]).value == 0
    {
      Zip64Reads(record, zip64, x);
    }
    if ReadU32(zip64).value != ZIP64_END_SIGNATURE || recordSize < ZIP64_RECORD_MINIMUM || zip64Offset + 12 + recordSize != locatorOffset
       || ReadU32(zip64[16..]).value != 0 || ReadU32(zip64[20..]).value != 0 {
      return Err(PackageCorrupt);
    }
    if onDisk != count { return Err(SecurityPolicy); }
    Zip64Reads(record, zip64, extent);
    r := Ok(extent);
  }

  lemma Zip64IsLong(record: seq<Byte>, x: Extent)
    requires IsZip64End(record, x)
    ensures |record| >= ZIP64_END_BYTES
  {
  }

  // ---------------------------------------------------------------- the preflight

  /** An archive passes exactly when legal headers tile its directory up to end
      records that describe it, within the limits. */
  method PreflightCentralDirectory(file: ArchiveFile, limits: Limits, fold: Fold) returns (r: Result<nat, ErrorCode>)
    requires |file.bytes| <= U64_MAX
    modifies file
    ensures r.Ok? <==> exists x, entries :: Describes(file.bytes, x, entries, limits, fold)
    ensures forall x, entries :: Describes(file.bytes, x, entries, limits, fold) ==> r == Ok(|entries|)
  {
    hide EndsWith, IsEocd, TiledBy, LegalEntries, Accepts;
    ghost var bytes := file.bytes;
    forall x | EndsWith(bytes, x) ensures |bytes| >= EOCD_BYTES && IsEocd(bytes[|bytes| - EOCD_BYTES..]) && x.boundary <= |bytes| { EndsInEocd(bytes, x); }
    var eocd := ReadEocd(file);
    if eocd.Err? { return Err(eocd.error); }
    var extent := ReadExtent(file, eocd.value);
    if extent.Err? { return Err(extent.error); }
    var x := extent.value;
    if x.count == 0 || x.count > limits.maxEntries { return Err(SecurityPolicy); }
    if x.size > limits.maxCentralDirectoryBytes { return Err(SecurityPolicy); }
    if x.offset + x.size > U64_MAX { return Err(PackageCorrupt); }
    if x.offset + x.size != x.boundary || x.boundary > |file.bytes| { return Err(PackageCorrupt); }
    AcceptsExactly(bytes[x.offset..x.boundary], x.count, limits, fold, {});
    var valid := ValidateCentralDirectoryEntries(file, x.offset, x.size, x.count, limits, fold);
    if valid.Err? { return Err(valid.error); }
    ghost var entries :| |entries| == x.count && TiledBy(bytes[x.offset..x.boundary], entries) && LegalEntries(entries, limits, fold, {});
    assert Describes(bytes, x, entries, limits, fold);
    r := Ok(x.count);
  }

  lemma EndsInEocd(bytes: seq<Byte>, x: Extent)
    requires EndsWith(bytes, x)
    ensures |bytes| >= EOCD_BYTES && IsEocd(bytes[|bytes| - EOCD_BYTES..]) && x.boundary <= |bytes|
  {
  }
}
