/** Chunked files and their manifests (crates/reforge-package/src/content_store.rs,
    crates/reforge-domain/src/model.rs), with the canonical text of a manifest. */
module FileManifests {
  import opened Wrappers
  import opened Bytes
  import CanonicalJson
  import CanonicalTheorems

  type U64 = n: nat | n < 0x1_0000_0000_0000_0000

  const U64_MAX: nat := 0xFFFF_FFFF_FFFF_FFFF
  const FILE_CHUNK_BYTES: nat := 8 * 1024 * 1024
  const DEFAULT_MAX_OBJECT_BYTES: nat := 64 * 1024 * 1024
  const DEFAULT_MAX_FILE_BYTES: nat := 4 * 1_099_511_627_776

  /** BLAKE3, idealized: an identifier determines the bytes it was made from. */
  datatype ObjectId = ObjectId(content: seq<Byte>)

  datatype ContentType = Utf8Text | Json | Jsonc | Toml | Binary | Archive | Unknown

  datatype ChunkRef = ChunkRef(id: ObjectId, uncompressedBytes: nat)

  datatype FileManifest = FileManifest(sizeBytes: nat, chunks: seq<ChunkRef>, contentType: ContentType, attributes: nat)

  // ---------------------------------------------------------------- chunks

  function Chunks(content: seq<Byte>): seq<seq<Byte>>
    decreases |content|
  {
    if content == [] then []
    else if |content| <= FILE_CHUNK_BYTES then [content]
    else [content[..FILE_CHUNK_BYTES]] + Chunks(content[FILE_CHUNK_BYTES..])
  }

  /** Every part but the last is a full chunk, and no part is empty. */
  predicate FullChunks(parts: seq<seq<Byte>>) {
    && (forall i :: 0 <= i < |parts| ==> 0 < |parts[i]| <= FILE_CHUNK_BYTES)
    && (forall i :: 0 <= i < |parts| - 1 ==> |parts[i]| == FILE_CHUNK_BYTES)
  }

  /** Chunking is the one way to cut the content into full chunks. */
  lemma ChunksAreTheFullChunks(content: seq<Byte>, parts: seq<seq<Byte>>)
    ensures parts == Chunks(content) <==> (FullChunks(parts) && Concat(parts) == content)
  {
    ChunksAreFull(content);
    if FullChunks(parts) && Concat(parts) == content { FullChunksAreUnique(content, parts); }
  }

  lemma {:induction false} ChunksAreFull(content: seq<Byte>)
    ensures FullChunks(Chunks(content)) && Concat(Chunks(content)) == content
    decreases |content|
  {
    if 0 < |content| <= FILE_CHUNK_BYTES {
      assert Concat([content]) == content + Concat([]) == content;
    } else if content != [] {
      var head, tail := content[..FILE_CHUNK_BYTES], content[FILE_CHUNK_BYTES..];
      ChunksAreFull(tail);
      ChunksOfMore(tail);
      var rest := Chunks(tail);
      hide Chunks;
      assert ([head] + rest)[1..] == rest;
      assert head + tail == content;
    }
  }

  lemma ChunksOfMore(content: seq<Byte>)
    ensures content != [] ==> Chunks(content) != []
  {
  }

  lemma {:induction false} FullChunksAreUnique(content: seq<Byte>, parts: seq<seq<Byte>>)
    requires FullChunks(parts) && Concat(parts) == content
    ensures parts == Chunks(content)
    decreases |parts|
  {
    if parts != [] {
      var tail := parts[1..];
      assert FullChunks(tail);
      assert content == parts[0] + Concat(tail);
      if tail == [] {
        assert Concat(tail) == [] && content == parts[0] + [] == parts[0];
        assert parts == [parts[0]];
        assert 0 < |content| <= FILE_CHUNK_BYTES && Chunks(content) == [content];
      } else {
        FirstPartIsShorter(parts);
        FullChunksAreUnique(content[FILE_CHUNK_BYTES..], tail);
        assert parts == [parts[0]] + tail;
      }
    }
  }

  lemma FirstPartIsShorter(parts: seq<seq<Byte>>)
    requires FullChunks(parts) && |parts| > 1
    ensures |Concat(parts)| > FILE_CHUNK_BYTES
  {
    assert Concat(parts[1..]) == parts[1] + Concat(parts[1..][1..]);
  }

  function ChunkRefs(parts: seq<seq<Byte>>): (refs: seq<ChunkRef>)
    ensures |refs| == |parts| && forall i :: 0 <= i < |parts| ==> refs[i] == ChunkRef(ObjectId(parts[i]), |parts[i]|)
  {
    seq(|parts|, i requires 0 <= i < |parts| => ChunkRef(ObjectId(parts[i]), |parts[i]|))
  }

  function ManifestOf(content: seq<Byte>, contentType: ContentType, attributes: nat): FileManifest {
    FileManifest(|content|, ChunkRefs(Chunks(content)), contentType, attributes)
  }

  /** The first chunk of what is left. */
  lemma NextChunk(rest: seq<Byte>, take: nat)
    requires rest != [] && take == (if |rest| < FILE_CHUNK_BYTES then |rest| else FILE_CHUNK_BYTES)
    ensures Chunks(rest) == [rest[..take]] + Chunks(rest[take..])
  {
    if take == |rest| {
      assert rest[..take] == rest && rest[take..] == [];
    }
  }

  function Total(refs: seq<ChunkRef>): nat {
    if refs == [] then 0 else Total(refs[..|refs| - 1]) + refs[|refs| - 1].uncompressedBytes
  }

  /** The chunk rules by which a packaged manifest is accepted. */
  predicate LawfulChunks(manifest: FileManifest) {
    && (forall i :: 0 <= i < |manifest.chunks| ==> 0 < manifest.chunks[i].uncompressedBytes <= FILE_CHUNK_BYTES)
    && (forall i :: 0 <= i < |manifest.chunks| - 1 ==> manifest.chunks[i].uncompressedBytes == FILE_CHUNK_BYTES)
    && Total(manifest.chunks) == manifest.sizeBytes
  }

  lemma {:induction false} TotalOfParts(parts: seq<seq<Byte>>)
    ensures Total(ChunkRefs(parts)) == |Concat(parts)|
  {
    if parts != [] {
      var last := |parts| - 1;
      TotalOfParts(parts[..last]);
      assert ChunkRefs(parts)[..last] == ChunkRefs(parts[..last]);
      assert parts == parts[..last] + [parts[last]];
      ConcatOneMore(parts[..last], parts[last]);
    }
  }

  /** A stored file's manifest passes the chunk rules. */
  lemma StoredManifestIsLawful(content: seq<Byte>, contentType: ContentType, attributes: nat)
    ensures LawfulChunks(ManifestOf(content, contentType, attributes))
  {
    var parts := Chunks(content);
    ChunksAreTheFullChunks(content, parts);
    TotalOfParts(parts);
  }

  // ---------------------------------------------------------------- canonical text of a manifest

  function Decimal(n: nat): (s: string)
    ensures s != []
  {
    if n < 10 then [Digit(n)] else Decimal(n / 10) + [Digit(n % 10)]
  }

  function Digit(n: nat): char
    requires n < 10
  {
    '0' + (n as char)
  }

  function ContentTypeName(t: ContentType): string {
    match t
    case Utf8Text => "UTF8_TEXT"
    case Json => "JSON"
    case Jsonc => "JSONC"
    case Toml => "TOML"
    case Binary => "BINARY"
    case Archive => "ARCHIVE"
    case Unknown => "UNKNOWN"
  }

  /** How identifiers are written: `obj_` and 64 hex digits. */
  type IdText = ObjectId -> string

  predicate IsIdChar(c: char) {
    '0' <= c <= '9' || 'a' <= c <= 'z' || c == '_'
  }

  const ID_LENGTH: nat := 68

  ghost predicate WritesIds(idText: IdText) {
    forall id :: |idText(id)| == ID_LENGTH && forall i :: 0 <= i < |idText(id)| ==> IsIdChar(idText(id)[i])
  }

  datatype FieldName = SizeBytes | ChunkList | TypeOfContent | Attributes | Id | UncompressedBytes

  function Key(name: FieldName): string {
    match name
    case SizeBytes => "size_bytes"
    case ChunkList => "chunks"
    case TypeOfContent => "content_type"
    case Attributes => "attributes"
    case Id => "id"
    case UncompressedBytes => "uncompressed_bytes"
  }

  function Field(name: FieldName, value: CanonicalJson.Value): CanonicalJson.Member {
    CanonicalJson.Member(Key(name), value)
  }

  function KeyLength(name: FieldName): nat {
    match name
    case SizeBytes => 10
    case ChunkList => 6
    case TypeOfContent => 12
    case Attributes => 10
    case Id => 2
    case UncompressedBytes => 18
  }

  lemma KeyFacts(name: FieldName)
    ensures PlainNames(Key(name)) && |Key(name)| == KeyLength(name)
    ensures !CanonicalJson.IsTimestampField(Key(name)) && !CanonicalJson.IsPathField(Key(name))
  {
    var s := Key(name);
    assert s[0] != 'o' && s[0] != 't' && s[0] != 'd' && s[0] != 'p' && s[0] != 'r';
  }

  function ChunkValue(chunk: ChunkRef, idText: IdText): CanonicalJson.Value {
    CanonicalJson.Object([
      Field(Id, CanonicalJson.Text(idText(chunk.id))),
      Field(UncompressedBytes, CanonicalJson.Number(Decimal(chunk.uncompressedBytes)))])
  }

  function ChunkValues(chunks: seq<ChunkRef>, idText: IdText): (values: seq<CanonicalJson.Value>)
    ensures |values| == |chunks|
  {
    if chunks == [] then [] else [ChunkValue(chunks[0], idText)] + ChunkValues(chunks[1..], idText)
  }

  /** The fields in their declared order. */
  function ManifestValue(m: FileManifest, idText: IdText): CanonicalJson.Value {
    CanonicalJson.Object([
      Field(SizeBytes, CanonicalJson.Number(Decimal(m.sizeBytes))),
      Field(ChunkList, CanonicalJson.Array(ChunkValues(m.chunks, idText))),
      Field(TypeOfContent, CanonicalJson.Text(ContentTypeName(m.contentType))),
      Field(Attributes, CanonicalJson.Number(Decimal(m.attributes)))])
  }

  /** Whole numbers are written in decimal. */
  ghost predicate WritesDecimals(f: CanonicalJson.Formats) {
    forall n: nat :: f.number(Decimal(n)) == Some(Decimal(n))
  }

  predicate PlainNames(s: string) {
    forall i :: 0 <= i < |s| ==> IsIdChar(s[i]) || 'A' <= s[i] <= 'Z'
  }

  lemma {:induction false} PlainTextIsQuoted(s: string)
    requires PlainNames(s)
    ensures CanonicalJson.EscapeAll(s) == s
  {
    if s != [] {
      assert IsIdChar(s[0]) || 'A' <= s[0] <= 'Z';
      assert CanonicalJson.Escape(s[0]) == [s[0]];
      PlainTextIsQuoted(s[1..]);
      assert s == [s[0]] + s[1..];
    }
  }

  lemma QuoteLength(s: string)
    requires PlainNames(s)
    ensures |CanonicalJson.Quote(s)| == |s| + 2
  {
    PlainTextIsQuoted(s);
  }

  /** Printed length of a member, with its comma. */
  ghost function MemberLength(m: CanonicalJson.Member): nat {
    |CanonicalJson.Quote(m.key)| + |CanonicalJson.Print(m.value)| + 2
  }

  ghost function MembersLength(members: seq<CanonicalJson.Member>): nat {
    if members == [] then 0 else MemberLength(members[0]) + MembersLength(members[1..])
  }

  lemma {:induction false} PrintedMembersLength(members: seq<CanonicalJson.Member>)
    ensures |CanonicalJson.PrintMembers(members)| == MembersLength(members)
  {
    hide CanonicalJson.Quote, CanonicalJson.Print;
    if members != [] { PrintedMembersLength(members[1..]); }
  }

  lemma {:induction false} InsertedLength(m: CanonicalJson.Member, sorted: seq<CanonicalJson.Member>)
    ensures MembersLength(CanonicalJson.InsertMember(m, sorted)) == MemberLength(m) + MembersLength(sorted)
  {
    hide MemberLength, CanonicalJson.Less;
    if sorted != [] && !CanonicalJson.Less(m.key, sorted[0].key) {
      InsertedLength(m, sorted[1..]);
    } else {
      assert ([m] + sorted)[1..] == sorted;
    }
  }

  lemma {:induction false} SortedLength(members: seq<CanonicalJson.Member>)
    ensures MembersLength(CanonicalJson.Sorted(members)) == MembersLength(members)
  {
    hide MemberLength, CanonicalJson.InsertMember;
    if members != [] {
      SortedLength(members[1..]);
      InsertedLength(members[0], CanonicalJson.Sorted(members[1..]));
    }
  }

  /** An object whose parts are in normal form prints at a length that does
      not depend on the member order. */
  lemma ObjectLength(members: seq<CanonicalJson.Member>, field: Option<string>, f: CanonicalJson.Formats)
    requires members != [] && forall m :: m in members ==> CanonicalJson.Normal(m.value, Some(m.key), f) == Some(m.value)
    ensures CanonicalJson.Normal(CanonicalJson.Object(members), field, f).Some?
    ensures |CanonicalJson.Print(CanonicalJson.Normal(CanonicalJson.Object(members), field, f).value)| == MembersLength(members) + 1
  {
    assert forall m :: m in members ==> CanonicalTheorems.NormalMember(m, f) == Some(m.value);
    CanonicalTheorems.SettledMembers(members, f);
    hide CanonicalJson.NormalMembers, CanonicalJson.PrintMembers;
    var sorted := CanonicalJson.Sorted(members);
    assert CanonicalJson.Normal(CanonicalJson.Object(members), field, f) == Some(CanonicalJson.Object(sorted));
    SortedLength(members);
    PrintedMembersLength(sorted);
    CanonicalJson.EmptyPrintsEmpty([], sorted);
    CanonicalJson.SortedMembers(members);
    assert members[0] in sorted;
  }

  lemma {:induction false} DecimalLength(n: nat, digits: nat)
    requires n < Power(digits) && digits > 0
    ensures |Decimal(n)| <= digits
  {
    if n >= 10 {
      assert Power(0) == 1 && Power(digits) == 10 * Power(digits - 1);
      assert digits > 1;
      hide Power;
      DecimalLength(n / 10, digits - 1);
    }
  }

  function Power(digits: nat): nat {
    if digits == 0 then 1 else 10 * Power(digits - 1)
  }

  lemma FieldLength(name: FieldName, value: CanonicalJson.Value)
    ensures MemberLength(Field(name, value)) == KeyLength(name) + 4 + |CanonicalJson.Print(value)|
  {
    hide Key;
    KeyFacts(name);
    QuoteLength(Key(name));
  }

  lemma ConsLength(m: CanonicalJson.Member, rest: seq<CanonicalJson.Member>)
    ensures MembersLength([m] + rest) == MemberLength(m) + MembersLength(rest)
  {
    assert ([m] + rest)[1..] == rest;
  }

  lemma ChunkLength(chunk: ChunkRef, idText: IdText, f: CanonicalJson.Formats)
    requires WritesIds(idText) && WritesDecimals(f)
    ensures CanonicalJson.Normal(ChunkValue(chunk, idText), None, f) == Some(ChunkValue(chunk, idText))
    ensures |CanonicalJson.Print(ChunkValue(chunk, idText))| == 31 + ID_LENGTH + |Decimal(chunk.uncompressedBytes)|
  {
    hide Key, CanonicalJson.Normal;
    var v := ChunkValue(chunk, idText);
    var id, size := CanonicalJson.Text(idText(chunk.id)), CanonicalJson.Number(Decimal(chunk.uncompressedBytes));
    var a, b := Field(Id, id), Field(UncompressedBytes, size);
    ChunkIsNormal(chunk, idText, f);
    QuoteLength(idText(chunk.id));
    assert |CanonicalJson.Print(id)| == ID_LENGTH + 2;
    hide CanonicalJson.Print, CanonicalJson.Normal, MemberLength, MembersLength, Decimal, WritesIds, CanonicalJson.Quote;
    FieldLength(Id, id);
    FieldLength(UncompressedBytes, size);
    assert v.members == [a] + ([b] + []);
    ConsLength(a, [b] + []);
    ConsLength(b, []);
    NothingLength();
  }

  lemma NothingLength()
    ensures MembersLength([]) == 0
  {
  }

  lemma IdFirst()
    ensures CanonicalJson.Less(Key(Id), Key(UncompressedBytes))
  {
    assert Key(Id)[0] < Key(UncompressedBytes)[0];
  }

  lemma PlainIsNormal(chunk: ChunkRef, idText: IdText, f: CanonicalJson.Formats)
    requires WritesDecimals(f)
    ensures forall m :: m in ChunkValue(chunk, idText).members ==>
      CanonicalTheorems.NormalMember(m, f) == Some(m.value) == CanonicalJson.Normal(m.value, Some(m.key), f)
  {
    KeyFacts(Id);
    hide Key, Decimal, CanonicalJson.IsTimestampField, CanonicalJson.IsPathField;
  }

  lemma ObjectNormal(members: seq<CanonicalJson.Member>, f: CanonicalJson.Formats)
    requires CanonicalJson.NormalMembers(members, f) == Some(members) && CanonicalJson.Sorted(members) == members
    ensures CanonicalJson.Normal(CanonicalJson.Object(members), None, f) == Some(CanonicalJson.Object(members))
  {
  }

  lemma ChunkIsNormal(chunk: ChunkRef, idText: IdText, f: CanonicalJson.Formats)
    requires WritesDecimals(f)
    ensures CanonicalJson.Normal(ChunkValue(chunk, idText), None, f) == Some(ChunkValue(chunk, idText))
    ensures |CanonicalJson.Print(ChunkValue(chunk, idText))| == MembersLength(ChunkValue(chunk, idText).members) + 1
  {
    IdFirst();
    KeyFacts(Id);
    PlainIsNormal(chunk, idText, f);
    hide Key, CanonicalJson.Normal, CanonicalJson.NormalMembers, CanonicalJson.Less, CanonicalJson.Print, MembersLength, Decimal, CanonicalJson.IsTimestampField, CanonicalJson.IsPathField;
    var v := ChunkValue(chunk, idText);
    CanonicalJson.OrderedStaysSorted(v.members);
    CanonicalTheorems.SettledMembers(v.members, f);
    ObjectLength(v.members, None, f);
    ObjectNormal(v.members, f);
  }

  lemma {:induction false} ChunksLength(chunks: seq<ChunkRef>, idText: IdText, f: CanonicalJson.Formats)
    requires WritesIds(idText) && WritesDecimals(f)
    requires forall i :: 0 <= i < |chunks| ==> chunks[i].uncompressedBytes <= FILE_CHUNK_BYTES
    ensures CanonicalJson.NormalItems(ChunkValues(chunks, idText), f) == Some(ChunkValues(chunks, idText))
    ensures 101 * |chunks| <= |CanonicalJson.PrintItems(ChunkValues(chunks, idText))| <= 107 * |chunks|
  {
    if chunks != [] {
      ChunkLength(chunks[0], idText, f);
      assert Power(7) == 10_000_000;
      DecimalLength(chunks[0].uncompressedBytes, 7);
      ChunksLength(chunks[1..], idText, f);
      hide ChunkValue, CanonicalJson.Normal, CanonicalJson.Print, Decimal;
      assert ChunkValues(chunks, idText)[1..] == ChunkValues(chunks[1..], idText);
    }
  }

  /** The canonical text of a manifest exists; its length is known to within
      the digits of its numbers. */
  lemma ManifestLength(m: FileManifest, idText: IdText, f: CanonicalJson.Formats)
    requires WritesIds(idText) && WritesDecimals(f)
    requires m.sizeBytes <= U64_MAX && m.attributes < 0x1_0000_0000
    requires forall i :: 0 <= i < |m.chunks| ==> m.chunks[i].uncompressedBytes <= FILE_CHUNK_BYTES
    ensures CanonicalJson.Encode(ManifestValue(m, idText), f).Some?
    ensures 101 * |m.chunks| <= |CanonicalJson.Encode(ManifestValue(m, idText), f).value| <= 107 * |m.chunks| + 120
  {
    hide Key, CanonicalJson.Print, Decimal, MembersLength, ContentTypeName, ChunkValues, CanonicalJson.Quote, CanonicalJson.Listed, CanonicalJson.PrintItems, CanonicalJson.NormalItems, WritesIds, WritesDecimals;
    var v := ManifestValue(m, idText);
    ChunksLength(m.chunks, idText, f);
    ManifestPartsAreNormal(m, idText, f);
    ObjectLength(v.members, None, f);
    ManifestFieldsLength(m, idText);
    ContentTypeLength(m.contentType);
    assert Power(20) == 100_000_000_000_000_000_000 by { assert Power(10) == 10_000_000_000; }
    DecimalLength(m.sizeBytes, 20);
    DecimalLength(m.attributes, 20);
    EmptyListLength(ChunkValues(m.chunks, idText));
  }

  lemma EmptyListLength(items: seq<CanonicalJson.Value>)
    ensures |CanonicalJson.Listed(CanonicalJson.PrintItems(items))| == if items == [] then 0 else |CanonicalJson.PrintItems(items)| - 1
  {
    CanonicalJson.EmptyPrintsEmpty(items, []);
  }

  lemma KeyLengths()
    ensures KeyLength(SizeBytes) == 10 && KeyLength(ChunkList) == 6 && KeyLength(TypeOfContent) == 12 && KeyLength(Attributes) == 10
  {
  }

  lemma MembersInOrder(m: FileManifest, idText: IdText)
    ensures ManifestValue(m, idText) == CanonicalJson.Object([
      Field(SizeBytes, CanonicalJson.Number(Decimal(m.sizeBytes))),
      Field(ChunkList, CanonicalJson.Array(ChunkValues(m.chunks, idText))),
      Field(TypeOfContent, CanonicalJson.Text(ContentTypeName(m.contentType))),
      Field(Attributes, CanonicalJson.Number(Decimal(m.attributes)))])
  {
  }

  lemma ManifestFieldsLength(m: FileManifest, idText: IdText)
    ensures MembersLength(ManifestValue(m, idText).members) == 56
      + |Decimal(m.sizeBytes)| + |CanonicalJson.Listed(CanonicalJson.PrintItems(ChunkValues(m.chunks, idText)))|
      + |CanonicalJson.Quote(ContentTypeName(m.contentType))| + |Decimal(m.attributes)|
  {
    KeyLengths();
    MembersInOrder(m, idText);
    hide *;
    var size, chunks := CanonicalJson.Number(Decimal(m.sizeBytes)), CanonicalJson.Array(ChunkValues(m.chunks, idText));
    var content, attributes := CanonicalJson.Text(ContentTypeName(m.contentType)), CanonicalJson.Number(Decimal(m.attributes));
    var a, b, c, d := Field(SizeBytes, size), Field(ChunkList, chunks), Field(TypeOfContent, content), Field(Attributes, attributes);
    PrintedLengths(Decimal(m.sizeBytes), Decimal(m.attributes), ContentTypeName(m.contentType), ChunkValues(m.chunks, idText));
    FieldLength(SizeBytes, size);
    FieldLength(ChunkList, chunks);
    FieldLength(TypeOfContent, content);
    FieldLength(Attributes, attributes);
    assert [a, b, c, d] == [a] + ([b] + ([c] + ([d] + [])));
    ConsLength(a, [b] + ([c] + ([d] + [])));
    ConsLength(b, [c] + ([d] + []));
    ConsLength(c, [d] + []);
    ConsLength(d, []);
    NothingLength();
  }

  lemma PrintedLengths(first: string, second: string, text: string, items: seq<CanonicalJson.Value>)
    ensures |CanonicalJson.Print(CanonicalJson.Number(first))| == |first| && |CanonicalJson.Print(CanonicalJson.Number(second))| == |second|
    ensures |CanonicalJson.Print(CanonicalJson.Text(text))| == |CanonicalJson.Quote(text)|
    ensures |CanonicalJson.Print(CanonicalJson.Array(items))| == 2 + |CanonicalJson.Listed(CanonicalJson.PrintItems(items))|
  {
  }

  lemma ContentTypeLength(t: ContentType)
    ensures PlainNames(ContentTypeName(t)) && |CanonicalJson.Quote(ContentTypeName(t))| <= 11
  {
    assert PlainNames(ContentTypeName(t));
    QuoteLength(ContentTypeName(t));
  }

  lemma ManifestPartsAreNormal(m: FileManifest, idText: IdText, f: CanonicalJson.Formats)
    requires WritesIds(idText) && WritesDecimals(f)
    requires CanonicalJson.NormalItems(ChunkValues(m.chunks, idText), f) == Some(ChunkValues(m.chunks, idText))
    ensures forall x :: x in ManifestValue(m, idText).members ==> CanonicalJson.Normal(x.value, Some(x.key), f) == Some(x.value)
  {
    KeyFacts(TypeOfContent);
    hide ChunkValues, CanonicalJson.NormalItems, Key, CanonicalJson.IsTimestampField, CanonicalJson.IsPathField;
  }

  lemma {:induction false} ChunkCount(content: seq<Byte>)
    ensures (|Chunks(content)| - 1) * FILE_CHUNK_BYTES < |content| <= |Chunks(content)| * FILE_CHUNK_BYTES || content == []
    ensures content == [] ==> Chunks(content) == []
    decreases |content|
  {
    if |content| > FILE_CHUNK_BYTES { ChunkCount(content[FILE_CHUNK_BYTES..]); }
  }

  ghost function CanonicalManifest(content: seq<Byte>, contentType: ContentType, attributes: nat, idText: IdText, f: CanonicalJson.Formats): Option<string> {
    CanonicalJson.Encode(ManifestValue(ManifestOf(content, contentType, attributes), idText), f)
  }

  /** With the default limits every permitted file has a manifest that fits;
      with a custom pair of limits it need not. */
  lemma DefaultLimitsHoldManifests(content: seq<Byte>, contentType: ContentType, attributes: nat, idText: IdText, f: CanonicalJson.Formats)
    requires WritesIds(idText) && WritesDecimals(f) && |content| <= U64_MAX && attributes < 0x1_0000_0000
    ensures CanonicalManifest(content, contentType, attributes, idText, f).Some?
    ensures var length := |CanonicalManifest(content, contentType, attributes, idText, f).value|;
      && (|content| <= DEFAULT_MAX_FILE_BYTES ==> length <= DEFAULT_MAX_OBJECT_BYTES)
      && (|content| > 83_056 * FILE_CHUNK_BYTES ==> length > FILE_CHUNK_BYTES)
  {
    hide Chunks, CanonicalJson.Encode, ManifestValue, WritesIds, WritesDecimals, Concat;
    ChunkCount(content);
    ChunksAreTheFullChunks(content, Chunks(content));
    ManifestLength(ManifestOf(content, contentType, attributes), idText, f);
  }
}
