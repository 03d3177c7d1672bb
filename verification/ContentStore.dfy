/** Storing one file, seen from a single writer
    (crates/reforge-package/src/content_store.rs): bounded streams, chunks read
    through short reads, objects, and the manifest that names them. */
module ContentStore {
  import opened Wrappers
  import opened Bytes
  import opened FileManifests
  import CanonicalJson

  const STREAM_BUFFER_BYTES: nat := 64 * 1024

  datatype ErrorCode = SecurityPolicy | PackageCorrupt | SchemaInvalid

  // ---------------------------------------------------------------- reading

  /** A source of bytes. Each read may stop short, but not before the first
      byte unless the end is reached. */
  class Reader {
    const content: seq<Byte>
    var position: nat

    constructor (content: seq<Byte>)
      ensures this.content == content && position == 0
    {
      this.content := content;
      position := 0;
    }

    ghost predicate Valid()
      reads this
    {
      position <= |content|
    }

    function Rest(): seq<Byte>
      reads this
      requires Valid()
    {
      content[position..]
    }

    method Read(buffer: array<Byte>, from: nat, to: nat) returns (read: nat)
      requires Valid() && from <= to <= buffer.Length
      modifies this, buffer
      ensures Valid() && position == old(position) + read && read <= to - from
      ensures read == 0 <==> (from == to || old(Rest()) == [])
      ensures buffer[from..from + read] == old(Rest())[..read]
      ensures buffer[..from] == old(buffer[..from])
    {
      if from == to || position == |content| { return 0; }
      read :| 1 <= read <= to - from && read <= |content| - position;
      for n := 0 to read
        invariant buffer[from..from + n] == content[position..position + n]
        invariant buffer[..from] == old(buffer[..from])
        modifies buffer
      {
        buffer[from + n] := content[position + n];
        assert buffer[from..from + n + 1] == buffer[from..from + n] + [content[position + n]];
      }
      assert content[position..][..read] == content[position..position + read];
      position := position + read;
    }
  }

  /** Fill the buffer up to `limit`, or to the end of the source. */
  method FillChunk(reader: Reader, buffer: array<Byte>, limit: nat) returns (filled: nat)
    requires reader.Valid() && limit <= buffer.Length
    modifies reader, buffer
    ensures reader.Valid() && reader.position == old(reader.position) + filled
    ensures filled == if |old(reader.Rest())| < limit then |old(reader.Rest())| else limit
    ensures buffer[..filled] == old(reader.Rest())[..filled]
  {
    filled := 0;
    var read := 1;
    while filled < limit && read != 0
      invariant reader.Valid() && filled <= limit && reader.position == old(reader.position) + filled
      invariant buffer[..filled] == old(reader.Rest())[..filled]
      invariant read == 0 ==> reader.Rest() == []
      decreases limit - filled, read
    {
      ghost var rest := reader.Rest();
      assert rest == old(reader.Rest())[filled..];
      read := reader.Read(buffer, filled, limit);
      assert old(reader.Rest())[..filled + read] == old(reader.Rest())[..filled] + rest[..read];
      assert buffer[..filled + read] == buffer[..filled] + buffer[filled..filled + read];
      filled := filled + read;
    }
  }

  /** The source has nothing more to give. */
  method EnsureEof(reader: Reader) returns (ok: bool)
    requires reader.Valid()
    modifies reader
    ensures reader.Valid()
    ensures ok <==> old(reader.Rest()) == []
    ensures ok ==> reader.Rest() == []
  {
    var probe := new Byte[1];
    var read := reader.Read(probe, 0, 1);
    ok := read == 0;
  }

  // ---------------------------------------------------------------- bounded streams

  /** Forwards bytes to a sink that may take only part of what it is offered,
      and keeps count and digest of what went through. */
  class BoundedStreamWriter {
    var sink: seq<Byte>
    const maxBytes: U64
    var bytes: nat
    var hashed: seq<Byte>

    ghost predicate Valid()
      reads this
    {
      bytes == |sink| <= maxBytes && hashed == sink
    }

    constructor (maxBytes: U64)
      ensures Valid() && sink == [] && this.maxBytes == maxBytes
    {
      sink, bytes, hashed := [], 0, [];
      this.maxBytes := maxBytes;
    }

    method Write(data: seq<Byte>) returns (written: Option<nat>)
      requires Valid()
      modifies this
      ensures Valid()
      ensures written.Some? <==> old(bytes) + |data| <= maxBytes
      ensures written.Some? ==> written.value <= |data| && (data != [] ==> written.value > 0) && sink == old(sink) + data[..written.value]
      ensures written.None? ==> sink == old(sink)
    {
      if bytes + |data| > U64_MAX || bytes + |data| > maxBytes { return None; }
      var taken: nat := 0;
      if data != [] { taken :| 1 <= taken <= |data|; }
      sink := sink + data[..taken];
      hashed := hashed + data[..taken];
      bytes := bytes + taken;
      written := Some(taken);
    }

    /** Offer the data until all of it is taken. */
    method WriteAll(data: seq<Byte>) returns (ok: bool)
      requires Valid()
      modifies this
      ensures Valid()
      ensures ok <==> old(bytes) + |data| <= maxBytes
      ensures ok ==> sink == old(sink) + data
      ensures !ok ==> sink == old(sink)
    {
      var done := 0;
      ok := true;
      while done < |data|
        invariant done <= |data| && Valid() && sink == old(sink) + data[..done]
        invariant done > 0 ==> old(bytes) + |data| <= maxBytes
        decreases |data| - done
      {
        ghost var before := sink;
        var written := Write(data[done..]);
        if written.None? { return false; }
        assert data[..done + written.value] == data[..done] + data[done..][..written.value];
        done := done + written.value;
      }
      assert data[..|data|] == data;
      assert data == [] ==> sink == old(sink);
    }

    method Finish() returns (bytes': nat, digest: ObjectId)
      requires Valid()
      ensures bytes' == |sink| && digest == ObjectId(sink)
    {
      bytes', digest := bytes, ObjectId(hashed);
    }
  }

  // ---------------------------------------------------------------- objects

  /** Compression, and decompression that undoes it. */
  datatype Codec = Codec(compress: seq<Byte> -> seq<Byte>, expand: seq<Byte> -> Option<seq<Byte>>)

  ghost predicate Lossless(codec: Codec) {
    forall bytes :: codec.expand(codec.compress(bytes)) == Some(bytes)
  }

  datatype ObjectEntry = ObjectEntry(id: ObjectId, uncompressedBytes: nat, compressedBytes: nat, contentType: ContentType)

  datatype StoredObject = StoredObject(entry: ObjectEntry, deduplicated: bool)

  datatype StagedObject = StagedObject(frame: seq<Byte>, id: ObjectId, uncompressedBytes: nat, compressedBytes: nat)

  datatype StoredFile = StoredFile(manifest: FileManifest, manifestObject: StoredObject, chunkObjects: seq<StoredObject>)

  datatype Limits = Limits(maxObjectBytes: U64, maxFileBytes: U64)

  /** A file of one full chunk. */
  lemma FullChunk() returns (content: seq<Byte>)
    ensures content in Chunks(content) && |content| == FILE_CHUNK_BYTES
  {
    content := seq(FILE_CHUNK_BYTES, _ => 0);
    assert Chunks(content) == [content];
  }

  /** Limits are accepted exactly when every chunk of every file can be stored
      as an object under them. */
  method NewLimits(maxObjectBytes: U64, maxFileBytes: U64) returns (r: Result<Limits, ErrorCode>)
    ensures r.Ok? <==> forall content, chunk :: chunk in Chunks(content) ==> |chunk| <= maxObjectBytes
    ensures r.Ok? ==> r.value == Limits(maxObjectBytes, maxFileBytes)
  {
    if maxObjectBytes < FILE_CHUNK_BYTES {
      var full := FullChunk();
      return Err(SecurityPolicy);
    }
    forall content, chunk | chunk in Chunks(content) ensures |chunk| <= FILE_CHUNK_BYTES {
      ChunksAreTheFullChunks(content, Chunks(content));
    }
    r := Ok(Limits(maxObjectBytes, maxFileBytes));
  }

  lemma MoveOver(before: seq<Byte>, rest: seq<Byte>, n: nat)
    requires n <= |rest|
    ensures before + rest == (before + rest[..n]) + rest[n..]
  {
  }

  /** What a stored object of this content is, next to objects already there. */
  ghost predicate Stores(o: StoredObject, content: seq<Byte>, contentType: ContentType, present: set<ObjectId>) {
    && o.entry.id == ObjectId(content) && o.entry.uncompressedBytes == |content| && o.entry.contentType == contentType
    && (o.deduplicated <==> ObjectId(content) in present)
  }

  /** The identifiers of some contents. */
  ghost function Ids(parts: seq<seq<Byte>>): set<ObjectId> {
    set part | part in parts :: ObjectId(part)
  }

  /** Text as the bytes it is written in; manifests are plain ASCII. */
  function TextBytes(text: string): (bytes: seq<Byte>)
    ensures |bytes| == |text|
  {
    seq(|text|, i requires 0 <= i < |text| => text[i] as nat % 256)
  }

  /** ASCII text is written as its code points. */
  lemma TextBytesMeaning(text: string)
    ensures forall i :: 0 <= i < |text| && text[i] as int < 128 ==> TextBytes(text)[i] == text[i] as int
  {
  }

  /** Each chunk has its object, new unless stored before or an earlier chunk. */
  ghost predicate ChunksStored(objects: seq<StoredObject>, parts: seq<seq<Byte>>, contentType: ContentType, before: set<ObjectId>) {
    && |objects| == |parts|
    && forall i :: 0 <= i < |parts| ==> Stores(objects[i], parts[i], contentType, before + Ids(parts[..i]))
  }

  /** Objects already stored for this file. */
  ghost predicate Seen(seen: map<ObjectId, ObjectEntry>, parts: seq<seq<Byte>>, contentType: ContentType) {
    seen.Keys == Ids(parts)
    && forall id :: id in seen ==> seen[id].id == id && seen[id].uncompressedBytes == |id.content| && seen[id].contentType == contentType
  }

  /** Visible objects: compressed frames under their names. */
  type Frames = map<ObjectId, seq<Byte>>

  /** The object is visible and expands to the bytes its name was made from. */
  ghost predicate Holds(codec: Codec, frames: Frames, id: ObjectId) {
    id in frames && codec.expand(frames[id]) == Some(id.content)
  }

  /** The name is free, or its object is intact. */
  ghost predicate Usable(codec: Codec, frames: Frames, id: ObjectId) {
    id in frames ==> Holds(codec, frames, id)
  }

  ghost predicate AllUsable(codec: Codec, frames: Frames, parts: seq<seq<Byte>>) {
    forall part :: part in parts ==> Usable(codec, frames, ObjectId(part))
  }

  /** Nothing visible before has changed or gone. */
  ghost predicate Kept(before: Frames, after: Frames) {
    forall id :: id in before ==> id in after && after[id] == before[id]
  }

  /** Exactly these objects were added, unless present, and all of them are intact. */
  ghost predicate Extends(codec: Codec, before: Frames, after: Frames, ids: set<ObjectId>) {
    && Kept(before, after) && after.Keys == before.Keys + ids
    && forall id :: id in ids ==> Holds(codec, after, id)
  }

  /** Adding intact objects neither damages nor repairs others. */
  lemma UsableStaysUsable(codec: Codec, before: Frames, after: Frames, ids: set<ObjectId>)
    requires Extends(codec, before, after, ids)
    ensures forall id :: Usable(codec, after, id) <==> Usable(codec, before, id)
  {
    forall id | id in before ensures Usable(codec, after, id) <==> Usable(codec, before, id) {
      assert after[id] == before[id];
    }
  }

  lemma ExtendsTwice(codec: Codec, first: Frames, second: Frames, third: Frames, ids: set<ObjectId>, more: set<ObjectId>)
    requires Extends(codec, first, second, ids) && Extends(codec, second, third, more)
    ensures Extends(codec, first, third, ids + more)
  {
  }

  class ObjectStore {
    var frames: Frames
    const limits: Limits
    const codec: Codec
    const formats: CanonicalJson.Formats
    const idText: IdText

    ghost predicate Valid()
      reads this
    {
      Lossless(codec) && WritesIds(idText) && WritesDecimals(formats) && limits.maxObjectBytes >= FILE_CHUNK_BYTES
    }

    constructor (limits: Limits, codec: Codec, formats: CanonicalJson.Formats, idText: IdText)
      requires Lossless(codec) && WritesIds(idText) && WritesDecimals(formats) && limits.maxObjectBytes >= FILE_CHUNK_BYTES
      ensures Valid() && frames == map[] && this.limits == limits && this.formats == formats && this.idText == idText
    {
      frames := map[];
      this.limits, this.codec, this.formats, this.idText := limits, codec, formats, idText;
    }

    /** Look at the object visible under a name and check what it holds. */
    method VerifiedExisting(id: ObjectId, bytes: nat, contentType: ContentType) returns (r: Result<Option<ObjectEntry>, ErrorCode>)
      requires Valid() && bytes == |id.content|
      ensures r.Ok? <==> Usable(codec, frames, id)
      ensures r.Ok? ==> r.value == if id in frames then Some(ObjectEntry(id, bytes, |frames[id]|, contentType)) else None
      ensures r.Err? ==> r.error == PackageCorrupt
    {
      if id !in frames { return Ok(None); }
      var expanded := codec.expand(frames[id]);
      if expanded.None? || |expanded.value| != bytes || ObjectId(expanded.value) != id { return Err(PackageCorrupt); }
      r := Ok(Some(ObjectEntry(id, bytes, |frames[id]|, contentType)));
    }

    /** Compress a stream into a staged frame, within a limit and, if stated,
        to an expected identity. */
    method StageObject(reader: Reader, maxBytes: U64, expected: Option<(ObjectId, nat)>) returns (r: Result<StagedObject, ErrorCode>)
      requires Valid() && reader.Valid()
      modifies reader
      ensures reader.Valid()
      ensures var content := old(reader.Rest());
        && (r.Ok? <==> |content| <= maxBytes && (expected.None? || expected.value == (ObjectId(content), |content|)))
        && (r.Ok? ==> r.value == StagedObject(codec.compress(content), ObjectId(content), |content|, |codec.compress(content)|))
        && (r.Err? ==> r.error == if |content| > maxBytes then SecurityPolicy else PackageCorrupt)
    {
      hide WritesIds, WritesDecimals;
      var bounded := new BoundedStreamWriter(maxBytes);
      var buffer := new Byte[STREAM_BUFFER_BYTES];
      ghost var content := reader.Rest();
      var read := 1;
      while read != 0
        invariant reader.Valid() && bounded.Valid() && bounded.maxBytes == maxBytes
        invariant content == bounded.sink + reader.Rest()
        invariant read == 0 ==> reader.Rest() == []
        decreases |reader.Rest()|, read
      {
        ghost var rest := reader.Rest();
        read := reader.Read(buffer, 0, buffer.Length);
        if read != 0 {
          if bounded.bytes + read > maxBytes { return Err(SecurityPolicy); }
          var chunk := buffer[..read];
          assert chunk == rest[..read];
          ghost var before := bounded.sink;
          var ok := bounded.WriteAll(chunk);
          MoveOver(before, rest, read);
          assert reader.Rest() == rest[read..];
        }
      }
      assert bounded.sink == content;
      var bytes, digest := bounded.Finish();
      if expected.Some? && (bytes != expected.value.1 || digest != expected.value.0) { return Err(PackageCorrupt); }
      var frame := codec.compress(bounded.sink);
      var expanded := codec.expand(frame);
      if expanded != Some(bounded.sink) { return Err(PackageCorrupt); }
      r := Ok(StagedObject(frame, digest, bytes, |frame|));
    }

    /** Make a staged frame visible, unless its name is taken. */
    method CommitStaged(staged: StagedObject, contentType: ContentType) returns (r: Result<StoredObject, ErrorCode>)
      requires Valid() && staged.uncompressedBytes == |staged.id.content| && codec.expand(staged.frame) == Some(staged.id.content)
      modifies this`frames
      ensures frames == if staged.id in old(frames) then old(frames) else old(frames)[staged.id := staged.frame]
      ensures r.Ok? <==> Usable(codec, old(frames), staged.id)
      ensures r.Ok? ==> Stores(r.value, staged.id.content, contentType, old(frames.Keys)) && Holds(codec, frames, staged.id)
      ensures r.Err? ==> r.error == PackageCorrupt
    {
      var existing := VerifiedExisting(staged.id, staged.uncompressedBytes, contentType);
      if existing.Err? { return Err(existing.error); }
      if existing.value.Some? { return Ok(StoredObject(existing.value.value, true)); }
      frames := frames[staged.id := staged.frame];
      r := Ok(StoredObject(ObjectEntry(staged.id, staged.uncompressedBytes, staged.compressedBytes, contentType), false));
    }

    /** Store one stream as an object. */
    method PutObject(reader: Reader, contentType: ContentType) returns (r: Result<StoredObject, ErrorCode>)
      requires Valid() && reader.Valid()
      modifies this`frames, reader
      ensures var content := old(reader.Rest());
        && (r.Ok? <==> |content| <= limits.maxObjectBytes && Usable(codec, old(frames), ObjectId(content)))
        && (r.Ok? ==> Stores(r.value, content, contentType, old(frames.Keys)))
        && (r.Ok? ==> Extends(codec, old(frames), frames, {ObjectId(content)}))
        && (r.Err? ==> r.error == if |content| > limits.maxObjectBytes then SecurityPolicy else PackageCorrupt)
      ensures r.Err? ==> frames == old(frames)
    {
      var staged := StageObject(reader, limits.maxObjectBytes, None);
      match staged {
        case Err(error) => r := Err(error);
        case Ok(ready) => r := CommitStaged(ready, contentType);
      }
    }

    /** Store bytes held in memory as an object. */
    method PutKnownBytes(bytes: seq<Byte>, contentType: ContentType) returns (r: Result<StoredObject, ErrorCode>)
      requires Valid()
      modifies this`frames
      ensures r.Ok? <==> |bytes| <= limits.maxObjectBytes && Usable(codec, old(frames), ObjectId(bytes))
      ensures r.Ok? ==> Stores(r.value, bytes, contentType, old(frames.Keys))
      ensures r.Ok? ==> Extends(codec, old(frames), frames, {ObjectId(bytes)})
      ensures r.Err? ==> frames == old(frames) && r.error == if |bytes| > limits.maxObjectBytes then SecurityPolicy else PackageCorrupt
    {
      if |bytes| > limits.maxObjectBytes { return Err(SecurityPolicy); }
      var id := ObjectId(bytes);
      var existing := VerifiedExisting(id, |bytes|, contentType);
      if existing.Err? { return Err(existing.error); }
      if existing.value.Some? {
        assert frames.Keys == old(frames.Keys) + {id};
        return Ok(StoredObject(existing.value.value, true));
      }
      var cursor := new Reader(bytes);
      assert cursor.Rest() == bytes;
      var staged := StageObject(cursor, limits.maxObjectBytes, Some((id, |bytes|)));
      match staged {
        case Err(error) => r := Err(error);
        case Ok(ready) => r := CommitStaged(ready, contentType);
      }
    }

    // -------------------------------------------------------------- files

    /** Store one chunk, or reuse the object of an equal earlier one. */
    method StoreChunk(bytes: seq<Byte>, contentType: ContentType, seen: map<ObjectId, ObjectEntry>, ghost parts: seq<seq<Byte>>)
      returns (r: Result<StoredObject, ErrorCode>, seen': map<ObjectId, ObjectEntry>)
      requires Valid() && |bytes| <= FILE_CHUNK_BYTES
      requires Seen(seen, parts, contentType) && forall id :: id in Ids(parts) ==> Holds(codec, frames, id)
      modifies this`frames
      ensures r.Ok? <==> Usable(codec, old(frames), ObjectId(bytes))
      ensures r.Ok? ==> Extends(codec, old(frames), frames, {ObjectId(bytes)}) && Seen(seen', parts + [bytes], contentType)
      ensures r.Ok? ==> Stores(r.value, bytes, contentType, old(frames.Keys))
      ensures r.Err? ==> frames == old(frames) && r.error == PackageCorrupt
    {
      var id := ObjectId(bytes);
      seen' := seen;
      IdsOneMore(parts, bytes);
      if id in seen {
        assert frames.Keys == old(frames.Keys) + {id};
        return Ok(StoredObject(seen[id], true)), seen;
      }
      r := PutKnownBytes(bytes, contentType);
      match r {
        case Err(_) =>
        case Ok(stored) => seen' := seen[id := stored.entry];
      }
    }

    function ManifestBytes(m: FileManifest): seq<Byte>
      reads this
    {
      var text := CanonicalJson.Encode(ManifestValue(m, idText), formats);
      if text.None? then [] else TextBytes(text.value)
    }

    /** The next chunk of a source, if the file stays within its limit. */
    method ReadChunk(reader: Reader, buffer: array<Byte>, totalBytes: nat) returns (r: Result<seq<Byte>, ErrorCode>)
      requires reader.Valid() && buffer.Length == FILE_CHUNK_BYTES && totalBytes <= limits.maxFileBytes
      modifies reader, buffer
      ensures reader.Valid()
      ensures r.Err? ==> r.error == SecurityPolicy && totalBytes + |old(reader.Rest())| > limits.maxFileBytes
      ensures r.Ok? ==> var rest := old(reader.Rest());
        r.value == rest[..if |rest| < FILE_CHUNK_BYTES then |rest| else FILE_CHUNK_BYTES]
        && reader.Rest() == rest[|r.value|..] && totalBytes + |r.value| <= limits.maxFileBytes
    {
      if totalBytes == limits.maxFileBytes {
        var eof := EnsureEof(reader);
        return if eof then Ok([]) else Err(SecurityPolicy);
      }
      var remaining := limits.maxFileBytes - totalBytes;
      var readLimit := if remaining < FILE_CHUNK_BYTES then remaining + 1 else FILE_CHUNK_BYTES;
      var read := FillChunk(reader, buffer, readLimit);
      if totalBytes + read > U64_MAX || totalBytes + read > limits.maxFileBytes { return Err(SecurityPolicy); }
      r := Ok(buffer[..read]);
    }

    /** Cut a source into chunks and store each. */
    method StoreChunks(reader: Reader, contentType: ContentType) returns (r: Result<(nat, seq<ChunkRef>, seq<StoredObject>), ErrorCode>)
      requires Valid() && reader.Valid()
      modifies this`frames, reader
      ensures var content := old(reader.Rest());
        && (r.Ok? <==> |content| <= limits.maxFileBytes && AllUsable(codec, old(frames), Chunks(content)))
        && (r.Ok? ==> r.value.0 == |content| && r.value.1 == ChunkRefs(Chunks(content)))
        && (r.Ok? ==> ChunksStored(r.value.2, Chunks(content), contentType, old(frames.Keys)))
        && (r.Ok? ==> Extends(codec, old(frames), frames, Ids(Chunks(content))))
        && (r.Err? ==> Kept(old(frames), frames) && frames.Keys <= old(frames.Keys) + Ids(Chunks(content)))
        && (r.Err? ==> || (r.error == SecurityPolicy && |content| > limits.maxFileBytes)
                       || (r.error == PackageCorrupt && !AllUsable(codec, old(frames), Chunks(content))))
    {
      NothingStored(codec, frames, reader.Rest(), contentType);
      hide SoFar, Chunks, Stores, Usable, AllUsable, Extends, Ids, Seen, ChunksStored, Kept;
      ghost var content := reader.Rest();
      var buffer := new Byte[FILE_CHUNK_BYTES];
      var totalBytes: nat := 0;
      var chunks: seq<ChunkRef> := [];
      var chunkObjects: seq<StoredObject> := [];
      var seen: map<ObjectId, ObjectEntry> := map[];
      ghost var parts: seq<seq<Byte>> := [];
      var more := true;
      while more
        invariant reader.Valid() && totalBytes <= limits.maxFileBytes
        invariant totalBytes + |reader.Rest()| == |content|
        invariant more || reader.Rest() == []
        invariant SoFar(codec, old(frames), frames, content, reader.Rest(), parts, chunks, chunkObjects, seen, contentType)
        decreases |reader.Rest()|, more
      {
        ghost var rest := reader.Rest();
        Ready(codec, old(frames), frames, content, rest, parts, chunks, chunkObjects, seen, contentType);
        var read := ReadChunk(reader, buffer, totalBytes);
        if read.Err? { return Err(read.error); }
        var bytes := read.value;
        if bytes == [] {
          more := false;
        } else {
          totalBytes := totalBytes + |bytes|;
          ghost var earlier, earlierSeen := frames, seen;
          var stored;
          stored, seen := StoreChunk(bytes, contentType, seen, parts);
          if stored.Err? { return Err(stored.error); }
          SoFarOneMore(codec, old(frames), earlier, frames, content, rest, parts, chunks, chunkObjects, earlierSeen, seen, contentType, bytes, stored.value);
          chunks := chunks + [ChunkRef(ObjectId(bytes), |bytes|)];
          chunkObjects := chunkObjects + [stored.value];
          parts := parts + [bytes];
          if |bytes| < FILE_CHUNK_BYTES { more := false; }
        }
      }
      AllStored(codec, old(frames), frames, content, parts, chunks, chunkObjects, seen, contentType);
      r := Ok((totalBytes, chunks, chunkObjects));
    }

    /** Cut a source into chunks, store each, then store the manifest. Without
        I/O errors this succeeds exactly when the file and its manifest are
        within their limits and no name it needs holds a damaged object; the
        result depends on the content alone, however the source was read. */
    method StoreFile(reader: Reader, contentType: ContentType, attributes: nat) returns (r: Result<StoredFile, ErrorCode>)
      requires Valid() && reader.Valid() && attributes < 0x1_0000_0000
      modifies this`frames, reader
      ensures var content := old(reader.Rest());
        var manifest := ManifestOf(content, contentType, attributes);
        && (r.Ok? <==> |content| <= limits.maxFileBytes && |ManifestBytes(manifest)| <= limits.maxObjectBytes
                       && AllUsable(codec, old(frames), Chunks(content)) && Usable(codec, old(frames), ObjectId(ManifestBytes(manifest))))
        && (r.Ok? ==> r.value.manifest == manifest && ChunksStored(r.value.chunkObjects, Chunks(content), contentType, old(frames.Keys)))
        && (r.Ok? ==> Stores(r.value.manifestObject, ManifestBytes(manifest), Json, old(frames.Keys) + Ids(Chunks(content))))
        && (r.Ok? ==> Extends(codec, old(frames), frames, Ids(Chunks(content)) + {ObjectId(ManifestBytes(manifest))}))
        && (r.Err? ==> Kept(old(frames), frames) && frames.Keys <= old(frames.Keys) + Ids(Chunks(content)))
        && (r.Err? ==> || (r.error == SecurityPolicy && (|content| > limits.maxFileBytes || |ManifestBytes(manifest)| > limits.maxObjectBytes))
                       || (r.error == PackageCorrupt
                           && !(AllUsable(codec, old(frames), Chunks(content)) && Usable(codec, old(frames), ObjectId(ManifestBytes(manifest))))))
    {
      hide Chunks, ChunksStored, Stores, Usable, AllUsable, Extends, Ids, ManifestValue;
      ghost var content := reader.Rest();
      var stored := StoreChunks(reader, contentType);
      if stored.Err? { return Err(stored.error); }
      var manifest := FileManifest(stored.value.0, stored.value.1, contentType, attributes);
      ghost var ids, earlier := Ids(Chunks(content)), frames;
      UsableStaysUsable(codec, old(frames), frames, ids);
      PrefixStored(codec, old(frames), frames, Chunks(content), []);
      var manifestObject := PutKnownBytes(ManifestBytes(manifest), Json);
      assert Chunks(content) + [] == Chunks(content);
      if manifestObject.Err? { return Err(manifestObject.error); }
      ExtendsTwice(codec, old(frames), earlier, frames, ids, {ObjectId(ManifestBytes(manifest))});
      KeysExtended(codec, old(frames), earlier, ids);
      r := Ok(StoredFile(manifest, manifestObject.value, stored.value.2));
    }
  }

  /** The leading parts of the content are stored; `rest` is still to come. */
  ghost predicate SoFar(codec: Codec, before: Frames, after: Frames, content: seq<Byte>, rest: seq<Byte>, parts: seq<seq<Byte>>,
                        chunks: seq<ChunkRef>, objects: seq<StoredObject>, seen: map<ObjectId, ObjectEntry>, contentType: ContentType) {
    && parts + Chunks(rest) == Chunks(content)
    && chunks == ChunkRefs(parts) && ChunksStored(objects, parts, contentType, before.Keys)
    && Seen(seen, parts, contentType) && Extends(codec, before, after, Ids(parts)) && AllUsable(codec, before, parts)
  }

  lemma NothingStored(codec: Codec, frames: Frames, content: seq<Byte>, contentType: ContentType)
    ensures SoFar(codec, frames, frames, content, content, [], [], [], map[], contentType)
  {
  }

  /** What the next chunk meets. */
  lemma Ready(codec: Codec, before: Frames, after: Frames, content: seq<Byte>, rest: seq<Byte>, parts: seq<seq<Byte>>,
              chunks: seq<ChunkRef>, objects: seq<StoredObject>, seen: map<ObjectId, ObjectEntry>, contentType: ContentType)
    requires SoFar(codec, before, after, content, rest, parts, chunks, objects, seen, contentType)
    ensures Kept(before, after) && after.Keys <= before.Keys + Ids(Chunks(content))
    ensures Seen(seen, parts, contentType) && forall id :: id in Ids(parts) ==> Holds(codec, after, id)
    ensures rest != [] ==> var bytes := rest[..if |rest| < FILE_CHUNK_BYTES then |rest| else FILE_CHUNK_BYTES];
      && (Usable(codec, after, ObjectId(bytes)) <==> AllUsable(codec, before, parts + [bytes]))
      && (AllUsable(codec, before, Chunks(content)) ==> AllUsable(codec, before, parts + [bytes]))
  {
    PrefixStored(codec, before, after, parts, Chunks(rest));
    if rest != [] {
      var take := if |rest| < FILE_CHUNK_BYTES then |rest| else FILE_CHUNK_BYTES;
      NextChunk(rest, take);
      OneMoreUsable(codec, before, after, parts, rest[..take], Chunks(rest[take..]));
    }
  }

  lemma SoFarOneMore(codec: Codec, before: Frames, earlier: Frames, after: Frames, content: seq<Byte>, rest: seq<Byte>, parts: seq<seq<Byte>>,
                     chunks: seq<ChunkRef>, objects: seq<StoredObject>, seen: map<ObjectId, ObjectEntry>, seen': map<ObjectId, ObjectEntry>,
                     contentType: ContentType, bytes: seq<Byte>, o: StoredObject)
    requires SoFar(codec, before, earlier, content, rest, parts, chunks, objects, seen, contentType) && rest != []
    requires bytes == rest[..if |rest| < FILE_CHUNK_BYTES then |rest| else FILE_CHUNK_BYTES] && AllUsable(codec, before, parts + [bytes])
    requires Extends(codec, earlier, after, {ObjectId(bytes)}) && Seen(seen', parts + [bytes], contentType)
    requires Stores(o, bytes, contentType, earlier.Keys)
    ensures SoFar(codec, before, after, content, rest[|bytes|..], parts + [bytes],
                  chunks + [ChunkRef(ObjectId(bytes), |bytes|)], objects + [o], seen', contentType)
  {
    hide Chunks, Stores, Usable, AllUsable, Extends, Ids, Seen, ChunksStored;
    NextChunk(rest, |bytes|);
    ExtendsTwice(codec, before, earlier, after, Ids(parts), {ObjectId(bytes)});
    IdsOneMore(parts, bytes);
    NewlyStored(codec, before, earlier, o, bytes, contentType, parts);
    OneMoreStored(objects, parts, contentType, before.Keys, o, bytes);
  }

  lemma AllStored(codec: Codec, before: Frames, after: Frames, content: seq<Byte>, parts: seq<seq<Byte>>,
                  chunks: seq<ChunkRef>, objects: seq<StoredObject>, seen: map<ObjectId, ObjectEntry>, contentType: ContentType)
    requires SoFar(codec, before, after, content, [], parts, chunks, objects, seen, contentType)
    ensures chunks == ChunkRefs(Chunks(content)) && ChunksStored(objects, Chunks(content), contentType, before.Keys)
    ensures Extends(codec, before, after, Ids(Chunks(content))) && AllUsable(codec, before, Chunks(content))
  {
    hide ChunksStored, Seen, Extends, AllUsable;
    assert parts + [] == parts;
  }

  lemma KeysExtended(codec: Codec, before: Frames, after: Frames, ids: set<ObjectId>)
    requires Extends(codec, before, after, ids)
    ensures after.Keys == before.Keys + ids
  {
  }

  /** Storing some leading parts adds nothing beyond the parts. */
  lemma PrefixStored(codec: Codec, before: Frames, after: Frames, parts: seq<seq<Byte>>, rest: seq<seq<Byte>>)
    requires Extends(codec, before, after, Ids(parts))
    ensures Kept(before, after) && after.Keys <= before.Keys + Ids(parts + rest)
    ensures forall id :: id in Ids(parts) ==> Holds(codec, after, id)
  {
    assert forall part :: part in parts ==> part in parts + rest;
  }

  lemma OneMoreUsable(codec: Codec, before: Frames, after: Frames, parts: seq<seq<Byte>>, part: seq<Byte>, rest: seq<seq<Byte>>)
    requires Extends(codec, before, after, Ids(parts)) && AllUsable(codec, before, parts)
    ensures Usable(codec, after, ObjectId(part)) <==> AllUsable(codec, before, parts + [part])
    ensures AllUsable(codec, before, parts + ([part] + rest)) ==> AllUsable(codec, before, parts + [part])
  {
    UsableStaysUsable(codec, before, after, Ids(parts));
    assert part in parts + [part] && part in parts + ([part] + rest);
    assert forall x :: x in parts + [part] <==> x in parts || x == part;
  }

  lemma NewlyStored(codec: Codec, before: Frames, earlier: Frames, o: StoredObject, part: seq<Byte>, contentType: ContentType, parts: seq<seq<Byte>>)
    requires Extends(codec, before, earlier, Ids(parts)) && Stores(o, part, contentType, earlier.Keys)
    ensures Stores(o, part, contentType, before.Keys + Ids(parts))
  {
  }

  lemma IdsOneMore(parts: seq<seq<Byte>>, part: seq<Byte>)
    ensures Ids(parts + [part]) == Ids(parts) + {ObjectId(part)}
  {
  }

  lemma OneMoreStored(objects: seq<StoredObject>, parts: seq<seq<Byte>>, contentType: ContentType, before: set<ObjectId>, o: StoredObject, part: seq<Byte>)
    requires ChunksStored(objects, parts, contentType, before) && Stores(o, part, contentType, before + Ids(parts))
    ensures ChunksStored(objects + [o], parts + [part], contentType, before)
  {
    hide Stores, Ids;
    forall i | 0 <= i <= |parts| ensures Stores((objects + [o])[i], (parts + [part])[i], contentType, before + Ids((parts + [part])[..i])) {
      assert (parts + [part])[..i] == parts[..i];
      if i == |parts| { assert parts[..i] == parts; }
    }
  }
}
