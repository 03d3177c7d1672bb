/** The canonical text of a manifest, character by character
    (crates/reforge-domain/src/model.rs, `FileManifest`). */
module ManifestText {
  import opened Wrappers
  import CanonicalJson
  import CanonicalTheorems
  import opened FileManifests

  // ---------------------------------------------------------------- numbers

  /** The number that decimal digits stand for. */
  function NumberIn(s: string): int {
    if s == [] then 0 else 10 * NumberIn(s[..|s| - 1]) + (s[|s| - 1] as int - 48)
  }

  /** Decimal digits without a leading zero, for exactly this number. */
  lemma {:induction false} DecimalMeaning(n: nat)
    ensures NumberIn(Decimal(n)) == n
    ensures forall i :: 0 <= i < |Decimal(n)| ==> 48 <= Decimal(n)[i] as int <= 57
    ensures n > 0 ==> Decimal(n)[0] as int > 48
    ensures n == 0 ==> Decimal(n) == "0"
  {
    var s := Decimal(n);
    if n < 10 {
      assert s[..0] == [];
    } else {
      DecimalMeaning(n / 10);
      assert s == Decimal(n / 10) + [Digit(n % 10)];
      assert s[..|s| - 1] == Decimal(n / 10);
    }
  }

  // ---------------------------------------------------------------- text

  function Quoted(s: string): string {
    "\"" + s + "\""
  }

  /** A key in quotes, a colon and a value. */
  function Entry(key: string, value: string): string {
    Quoted(key) + ":" + value
  }

  /** With a comma between each two. */
  function Entries(entries: seq<string>): string {
    if entries == [] then ""
    else if |entries| == 1 then entries[0]
    else entries[0] + "," + Entries(entries[1..])
  }

  function TypeText(t: ContentType): string {
    match t
    case Utf8Text => "UTF8_TEXT"
    case Json => "JSON"
    case Jsonc => "JSONC"
    case Toml => "TOML"
    case Binary => "BINARY"
    case Archive => "ARCHIVE"
    case Unknown => "UNKNOWN"
  }

  function ChunkText(chunk: ChunkRef, idText: IdText): string {
    "{" + Entries([Entry("id", Quoted(idText(chunk.id))), Entry("uncompressed_bytes", Decimal(chunk.uncompressedBytes))]) + "}"
  }

  /** Each chunk behind a comma. */
  function ChunkTexts(chunks: seq<ChunkRef>, idText: IdText): string {
    if chunks == [] then "" else "," + ChunkText(chunks[0], idText) + ChunkTexts(chunks[1..], idText)
  }

  function TextOf(m: FileManifest, idText: IdText): string {
    "{" + Entries([
      Entry("attributes", Decimal(m.attributes)),
      Entry("chunks", "[" + CanonicalJson.Listed(ChunkTexts(m.chunks, idText)) + "]"),
      Entry("content_type", Quoted(TypeText(m.contentType))),
      Entry("size_bytes", Decimal(m.sizeBytes))]) + "}"
  }

  lemma KeyIsQuoted(name: FieldName)
    ensures CanonicalJson.Quote(Key(name)) == Quoted(Key(name))
  {
    KeyFacts(name);
    PlainTextIsQuoted(Key(name));
  }

  lemma KeysSpelled()
    ensures Key(SizeBytes) == "size_bytes" && Key(ChunkList) == "chunks" && Key(TypeOfContent) == "content_type"
    ensures Key(Attributes) == "attributes" && Key(Id) == "id" && Key(UncompressedBytes) == "uncompressed_bytes"
  {
  }

  /** What is printed for a member, behind its comma. */
  lemma MemberText(name: FieldName, value: CanonicalJson.Value, rest: seq<CanonicalJson.Member>)
    ensures CanonicalJson.PrintMembers([Field(name, value)] + rest)
      == "," + Quoted(Key(name)) + ":" + CanonicalJson.Print(value) + CanonicalJson.PrintMembers(rest)
  {
    KeyIsQuoted(name);
    assert ([Field(name, value)] + rest)[1..] == rest;
    hide CanonicalJson.Print, CanonicalJson.Quote, Quoted, Key;
  }

  lemma NothingPrinted()
    ensures CanonicalJson.PrintMembers([]) == ""
  {
  }

  lemma ChunkPrints(chunk: ChunkRef, idText: IdText)
    requires WritesIds(idText)
    ensures CanonicalJson.Print(ChunkValue(chunk, idText)) == ChunkText(chunk, idText)
  {
    var id, size := CanonicalJson.Text(idText(chunk.id)), CanonicalJson.Number(Decimal(chunk.uncompressedBytes));
    var a, b := Field(Id, id), Field(UncompressedBytes, size);
    PlainTextIsQuoted(idText(chunk.id));
    assert CanonicalJson.Print(id) == Quoted(idText(chunk.id));
    assert CanonicalJson.Print(size) == Decimal(chunk.uncompressedBytes);
    KeysSpelled();
    MemberText(Id, id, [b]);
    MemberText(UncompressedBytes, size, []);
    NothingPrinted();
    ObjectPrints([a, b]);
    assert [a] + [b] == [a, b] && [b] + [] == [b];
    hide CanonicalJson.PrintMembers, Key, Decimal, WritesIds, Field, CanonicalJson.Print, Quoted;
    JoinTwo("id", Quoted(idText(chunk.id)), "uncompressed_bytes", Decimal(chunk.uncompressedBytes));
  }

  lemma ObjectPrints(members: seq<CanonicalJson.Member>)
    ensures CanonicalJson.Print(CanonicalJson.Object(members)) == "{" + CanonicalJson.Listed(CanonicalJson.PrintMembers(members)) + "}"
  {
  }

  lemma JoinTwo(p: string, a: string, q: string, b: string)
    ensures CanonicalJson.Listed("," + Quoted(p) + ":" + a + ("," + Quoted(q) + ":" + b + "")) == Entries([Entry(p, a), Entry(q, b)])
  {
    hide Quoted;
    var s := "," + Quoted(p) + ":" + a + ("," + Quoted(q) + ":" + b + "");
    assert s[1..] == Entry(p, a) + "," + Entry(q, b);
    assert [Entry(p, a), Entry(q, b)][1..] == [Entry(q, b)];
  }

  lemma {:induction false} ChunksPrint(chunks: seq<ChunkRef>, idText: IdText)
    requires WritesIds(idText)
    ensures CanonicalJson.PrintItems(ChunkValues(chunks, idText)) == ChunkTexts(chunks, idText)
  {
    hide CanonicalJson.Print, ChunkValue, ChunkText;
    if chunks != [] {
      ChunkPrints(chunks[0], idText);
      ChunksPrint(chunks[1..], idText);
      assert ChunkValues(chunks, idText)[1..] == ChunkValues(chunks[1..], idText);
    }
  }

  // ---------------------------------------------------------------- order

  lemma KeyOrder()
    ensures CanonicalJson.Less(Key(Attributes), Key(ChunkList)) && CanonicalJson.Less(Key(ChunkList), Key(TypeOfContent))
    ensures CanonicalJson.Less(Key(TypeOfContent), Key(SizeBytes))
  {
    assert Key(Attributes)[0] < Key(ChunkList)[0];
    assert Key(TypeOfContent)[0] < Key(SizeBytes)[0];
    assert Key(ChunkList)[0] == Key(TypeOfContent)[0] && Key(ChunkList)[1..][0] < Key(TypeOfContent)[1..][0];
  }

  lemma InOrder(a: CanonicalJson.Member, b: CanonicalJson.Member, c: CanonicalJson.Member, d: CanonicalJson.Member)
    requires CanonicalJson.Less(a.key, b.key) && CanonicalJson.Less(b.key, c.key) && CanonicalJson.Less(c.key, d.key)
    ensures CanonicalJson.Sorted([d, b, c, a]) == [a, b, c, d]
  {
    hide CanonicalJson.Less;
    CanonicalJson.LessTransitive(a.key, b.key, c.key);
    CanonicalJson.LessTransitive(a.key, c.key, d.key);
    CanonicalJson.LessTransitive(b.key, c.key, d.key);
    CanonicalJson.LessAsymmetric(a.key, b.key);
    CanonicalJson.LessAsymmetric(a.key, c.key);
    CanonicalJson.LessAsymmetric(a.key, d.key);
    CanonicalJson.LessAsymmetric(b.key, d.key);
    CanonicalJson.LessAsymmetric(c.key, d.key);
    SortedStep(a, []);
    assert CanonicalJson.Sorted([]) == [] && CanonicalJson.InsertMember(a, []) == [a];
    SortedStep(c, [a]);
    InsertBehind(c, a, []);
    assert CanonicalJson.InsertMember(c, []) == [c];
    SortedStep(b, [c, a]);
    InsertBehind(b, a, [c]);
    assert CanonicalJson.InsertMember(b, [c]) == [b] + [c];
    SortedStep(d, [b, c, a]);
    InsertBehind(d, a, [b, c]);
    InsertBehind(d, b, [c]);
    InsertBehind(d, c, []);
    assert CanonicalJson.InsertMember(d, []) == [d];
    hide CanonicalJson.InsertMember, CanonicalJson.Sorted;
    assert [a] + [c] == [a, c] && [c] + [a] == [c, a] && [a] + ([b] + [c]) == [a, b, c] && [b] + [c, a] == [b, c, a];
    assert [b] + ([c] + [d]) == [b, c, d] && [b] + [c] == [b, c] && [c] + [] == [c] && [c] + [d] == [c, d];
    assert [d] + [b, c, a] == [d, b, c, a] && [a] + [b, c, d] == [a, b, c, d] && [a] + [b, c] == [a, b, c] && [a] + [] == [a];
  }

  lemma SortedStep(m: CanonicalJson.Member, rest: seq<CanonicalJson.Member>)
    ensures CanonicalJson.Sorted([m] + rest) == CanonicalJson.InsertMember(m, CanonicalJson.Sorted(rest))
  {
    assert ([m] + rest)[1..] == rest;
  }

  lemma InsertBehind(m: CanonicalJson.Member, first: CanonicalJson.Member, rest: seq<CanonicalJson.Member>)
    requires !CanonicalJson.Less(m.key, first.key)
    ensures CanonicalJson.InsertMember(m, [first] + rest) == [first] + CanonicalJson.InsertMember(m, rest)
  {
    assert ([first] + rest)[1..] == rest;
  }

  // ---------------------------------------------------------------- the manifest

  lemma ManifestNormal(m: FileManifest, idText: IdText, f: CanonicalJson.Formats)
    requires WritesIds(idText) && WritesDecimals(f)
    requires forall i :: 0 <= i < |m.chunks| ==> m.chunks[i].uncompressedBytes <= FILE_CHUNK_BYTES
    ensures CanonicalJson.Normal(ManifestValue(m, idText), None, f)
      == Some(CanonicalJson.Object(CanonicalJson.Sorted(ManifestValue(m, idText).members)))
  {
    hide CanonicalJson.Normal, CanonicalJson.NormalItems, CanonicalJson.PrintItems, ChunkValues, Key, Decimal, ContentTypeName, Field;
    ChunksLength(m.chunks, idText, f);
    ManifestPartsAreNormal(m, idText, f);
    var members := ManifestValue(m, idText).members;
    assert ManifestValue(m, idText) == CanonicalJson.Object(members);
    ObjectNormalForm(members, f);
  }

  lemma ObjectNormalForm(members: seq<CanonicalJson.Member>, f: CanonicalJson.Formats)
    requires forall x :: x in members ==> CanonicalJson.Normal(x.value, Some(x.key), f) == Some(x.value)
    ensures CanonicalJson.Normal(CanonicalJson.Object(members), None, f) == Some(CanonicalJson.Object(CanonicalJson.Sorted(members)))
  {
    hide CanonicalJson.NormalMembers, CanonicalJson.Sorted;
    assert forall x :: x in members ==> CanonicalTheorems.NormalMember(x, f) == Some(x.value);
    CanonicalTheorems.SettledMembers(members, f);
  }

  lemma ManifestMembers(m: FileManifest, idText: IdText)
    requires WritesIds(idText)
    ensures CanonicalJson.Sorted(ManifestValue(m, idText).members) == [
      Field(Attributes, CanonicalJson.Number(Decimal(m.attributes))),
      Field(ChunkList, CanonicalJson.Array(ChunkValues(m.chunks, idText))),
      Field(TypeOfContent, CanonicalJson.Text(ContentTypeName(m.contentType))),
      Field(SizeBytes, CanonicalJson.Number(Decimal(m.sizeBytes)))]
  {
    KeyOrder();
    hide CanonicalJson.Less, Key, Decimal, ContentTypeName, ChunkValues, CanonicalJson.Sorted;
    InOrder(Field(Attributes, CanonicalJson.Number(Decimal(m.attributes))), Field(ChunkList, CanonicalJson.Array(ChunkValues(m.chunks, idText))),
            Field(TypeOfContent, CanonicalJson.Text(ContentTypeName(m.contentType))), Field(SizeBytes, CanonicalJson.Number(Decimal(m.sizeBytes))));
  }

  lemma FourMembersPrint(attributes: CanonicalJson.Value, chunks: CanonicalJson.Value, content: CanonicalJson.Value, size: CanonicalJson.Value)
    ensures CanonicalJson.PrintMembers([Field(Attributes, attributes), Field(ChunkList, chunks), Field(TypeOfContent, content), Field(SizeBytes, size)])
      == "," + Quoted("attributes") + ":" + CanonicalJson.Print(attributes)
         + ("," + Quoted("chunks") + ":" + CanonicalJson.Print(chunks)
            + ("," + Quoted("content_type") + ":" + CanonicalJson.Print(content)
               + ("," + Quoted("size_bytes") + ":" + CanonicalJson.Print(size) + "")))
  {
    KeysSpelled();
    hide CanonicalJson.Print, CanonicalJson.PrintMembers, Key, Quoted;
    var a, b, c, d := Field(Attributes, attributes), Field(ChunkList, chunks), Field(TypeOfContent, content), Field(SizeBytes, size);
    MemberText(Attributes, attributes, [b, c, d]);
    MemberText(ChunkList, chunks, [c, d]);
    MemberText(TypeOfContent, content, [d]);
    MemberText(SizeBytes, size, []);
    NothingPrinted();
    assert [a] + [b, c, d] == [a, b, c, d] && [b] + [c, d] == [b, c, d] && [c] + [d] == [c, d] && [d] + [] == [d];
  }

  /** The canonical text of a manifest is this text, and no other. */
  lemma ManifestTextIs(m: FileManifest, idText: IdText, f: CanonicalJson.Formats)
    requires WritesIds(idText) && WritesDecimals(f)
    requires forall i :: 0 <= i < |m.chunks| ==> m.chunks[i].uncompressedBytes <= FILE_CHUNK_BYTES
    ensures CanonicalJson.Encode(ManifestValue(m, idText), f) == Some(TextOf(m, idText))
  {
    var attributes, chunks := CanonicalJson.Number(Decimal(m.attributes)), CanonicalJson.Array(ChunkValues(m.chunks, idText));
    var content, size := CanonicalJson.Text(ContentTypeName(m.contentType)), CanonicalJson.Number(Decimal(m.sizeBytes));
    ManifestNormal(m, idText, f);
    ManifestMembers(m, idText);
    FourMembersPrint(attributes, chunks, content, size);
    ChunksPrint(m.chunks, idText);
    ValuesPrint(m, idText);
    hide ManifestValue, CanonicalJson.PrintMembers, CanonicalJson.PrintItems, CanonicalJson.Normal, ChunkValues, ChunkTexts, Decimal, ContentTypeName, TypeText, WritesIds, WritesDecimals, Field, CanonicalJson.Sorted;
    ObjectPrints([Field(Attributes, attributes), Field(ChunkList, chunks), Field(TypeOfContent, content), Field(SizeBytes, size)]);
    hide CanonicalJson.Print, Quoted, CanonicalJson.Listed, Entries;
    JoinFour("attributes", Decimal(m.attributes), "chunks", "[" + CanonicalJson.Listed(ChunkTexts(m.chunks, idText)) + "]",
             "content_type", Quoted(TypeText(m.contentType)), "size_bytes", Decimal(m.sizeBytes));
  }

  lemma JoinFour(p: string, a: string, q: string, b: string, r: string, c: string, t: string, d: string)
    ensures CanonicalJson.Listed("," + Quoted(p) + ":" + a + ("," + Quoted(q) + ":" + b + ("," + Quoted(r) + ":" + c + ("," + Quoted(t) + ":" + d + ""))))
      == Entries([Entry(p, a), Entry(q, b), Entry(r, c), Entry(t, d)])
  {
    hide Quoted;
    var w, x, y, z := Entry(p, a), Entry(q, b), Entry(r, c), Entry(t, d);
    FourEntries(w, x, y, z);
    hide Entries;
    assert "," + Quoted(t) + ":" + d + "" == "," + z;
    assert "," + Quoted(r) + ":" + c + ("," + z) == "," + (y + "," + z);
    assert "," + Quoted(q) + ":" + b + ("," + (y + "," + z)) == "," + (x + "," + (y + "," + z));
    var s := "," + Quoted(p) + ":" + a + ("," + (x + "," + (y + "," + z)));
    assert s[1..] == w + "," + (x + "," + (y + "," + z));
  }

  lemma FourEntries(w: string, x: string, y: string, z: string)
    ensures Entries([w, x, y, z]) == w + "," + (x + "," + (y + "," + z))
  {
    assert [w, x, y, z][1..] == [x, y, z] && [x, y, z][1..] == [y, z] && [y, z][1..] == [z];
    assert Entries([y, z]) == y + "," + Entries([z]) == y + "," + z;
    assert Entries([x, y, z]) == x + "," + Entries([y, z]);
  }

  lemma ValuesPrint(m: FileManifest, idText: IdText)
    ensures CanonicalJson.Print(CanonicalJson.Number(Decimal(m.attributes))) == Decimal(m.attributes)
    ensures CanonicalJson.Print(CanonicalJson.Number(Decimal(m.sizeBytes))) == Decimal(m.sizeBytes)
    ensures CanonicalJson.Print(CanonicalJson.Array(ChunkValues(m.chunks, idText)))
      == "[" + CanonicalJson.Listed(CanonicalJson.PrintItems(ChunkValues(m.chunks, idText))) + "]"
    ensures CanonicalJson.Print(CanonicalJson.Text(ContentTypeName(m.contentType))) == Quoted(TypeText(m.contentType))
  {
    ContentTypeLength(m.contentType);
    PlainTextIsQuoted(ContentTypeName(m.contentType));
    assert ContentTypeName(m.contentType) == TypeText(m.contentType);
    hide ContentTypeName, Decimal, ChunkValues, CanonicalJson.PrintItems;
  }
}
