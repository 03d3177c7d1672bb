/** The object index of a package: collected while files are stored
    (crates/reforge-cli/src/main.rs, `build_package_inputs`), and checked before
    the package is written (crates/reforge-package/src/writer.rs). */
module PackageObjects {
  import opened Wrappers
  import opened Bytes
  import opened FileManifests
  import opened ContentStore

  type Index = map<ObjectId, ObjectEntry>

  /** The typed decoding of a manifest's canonical bytes. */
  type ManifestReader = seq<Byte> -> Option<FileManifest>

  function ManifestId(file: StoredFile): ObjectId {
    file.manifestObject.entry.id
  }

  /** What `StoreFile` returns: the manifest of some content, with an entry for
      each of its chunks. */
  ghost predicate AsStored(file: StoredFile) {
    exists content, before :: StoredFrom(file, content, before)
  }

  ghost predicate StoredFrom(file: StoredFile, content: seq<Byte>, before: set<ObjectId>) {
    && |content| <= U64_MAX
    && file.manifest == ManifestOf(content, file.manifest.contentType, file.manifest.attributes)
    && ChunksStored(file.chunkObjects, Chunks(content), file.manifest.contentType, before)
    && file.manifestObject.entry.contentType == Json
  }

  // ---------------------------------------------------------------- collecting entries

  function WithChunks(index: Index, objects: seq<StoredObject>): Index {
    if objects == [] then index
    else
      var entry := objects[|objects| - 1].entry;
      WithChunks(index, objects[..|objects| - 1])[entry.id := entry]
  }

  function WithFile(index: Index, file: StoredFile): Index {
    WithChunks(index[ManifestId(file) := file.manifestObject.entry], file.chunkObjects)
  }

  /** Later entries of one name replace earlier ones. */
  function IndexOf(files: seq<StoredFile>): Index {
    if files == [] then map[] else WithFile(IndexOf(files[..|files| - 1]), files[|files| - 1])
  }

  method CollectObjects(files: seq<StoredFile>) returns (objects: Index)
    ensures objects == IndexOf(files)
  {
    objects := map[];
    for n := 0 to |files|
      invariant objects == IndexOf(files[..n])
    {
      var file := files[n];
      ghost var before := objects[ManifestId(file) := file.manifestObject.entry];
      objects := objects[ManifestId(file) := file.manifestObject.entry];
      for k := 0 to |file.chunkObjects|
        invariant objects == WithChunks(before, file.chunkObjects[..k])
      {
        assert file.chunkObjects[..k + 1][..k] == file.chunkObjects[..k];
        objects := objects[file.chunkObjects[k].entry.id := file.chunkObjects[k].entry];
      }
      assert file.chunkObjects[..|file.chunkObjects|] == file.chunkObjects;
      assert files[..n + 1][..n] == files[..n];
    }
    assert files[..|files|] == files;
  }

  /** The entry was collected for this file. */
  predicate EntryOf(file: StoredFile, entry: ObjectEntry) {
    entry == file.manifestObject.entry || exists k :: 0 <= k < |file.chunkObjects| && file.chunkObjects[k].entry == entry
  }

  ghost predicate Covers(index: Index, files: seq<StoredFile>) {
    && (forall file, entry :: file in files && EntryOf(file, entry) ==> entry.id in index)
    && (forall id :: id in index ==> index[id].id == id && exists file :: file in files && EntryOf(file, index[id]))
  }

  lemma {:induction false} WithChunksHolds(index: Index, objects: seq<StoredObject>)
    ensures var after := WithChunks(index, objects);
      && (forall id :: id in after ==> (id in index && after[id] == index[id])
                                       || exists k :: 0 <= k < |objects| && objects[k].entry == after[id] && id == after[id].id)
      && index.Keys <= after.Keys
      && forall k :: 0 <= k < |objects| ==> objects[k].entry.id in after
  {
    if objects != [] {
      var last := |objects| - 1;
      WithChunksHolds(index, objects[..last]);
      assert forall k :: 0 <= k < last ==> objects[..last][k] == objects[k];
    }
  }

  /** The index has every collected entry's name, and nothing but collected
      entries. */
  lemma {:induction false} IndexCovers(files: seq<StoredFile>)
    ensures Covers(IndexOf(files), files)
  {
    hide Covers, WithFile;
    if files == [] {
      NothingCovered();
    } else {
      var last := |files| - 1;
      IndexCovers(files[..last]);
      CoversOneMore(IndexOf(files[..last]), files[..last], files[last]);
      assert files == files[..last] + [files[last]];
    }
  }

  lemma NothingCovered()
    ensures Covers(map[], [])
  {
  }

  lemma CoversOneMore(index: Index, files: seq<StoredFile>, file: StoredFile)
    requires Covers(index, files)
    ensures Covers(WithFile(index, file), files + [file])
  {
    hide WithChunks;
    var start, after := index[ManifestId(file) := file.manifestObject.entry], WithFile(index, file);
    WithChunksHolds(start, file.chunkObjects);
    forall id | id in after ensures after[id].id == id && exists f :: f in files + [file] && EntryOf(f, after[id]) {
      if id in index && after[id] == index[id] {
        var f :| f in files && EntryOf(f, index[id]);
        assert f in files + [file];
      } else {
        assert EntryOf(file, after[id]) && file in files + [file];
      }
    }
  }

  // ---------------------------------------------------------------- checking a manifest

  predicate ChunkIndexed(chunk: ChunkRef, contentType: ContentType, index: Index) {
    && chunk.id in index && index[chunk.id].uncompressedBytes == chunk.uncompressedBytes
    && index[chunk.id].contentType == contentType
  }

  /** The manifest is that of a file of this size and type, cut into full chunks
      that the index knows by the same length and type. */
  predicate ManifestHolds(manifest: FileManifest, expectedBytes: nat, expectedType: ContentType, index: Index) {
    && manifest.sizeBytes == expectedBytes && manifest.contentType == expectedType
    && LawfulChunks(manifest)
    && forall i :: 0 <= i < |manifest.chunks| ==> ChunkIndexed(manifest.chunks[i], expectedType, index)
  }

  lemma {:induction false} TotalGrows(chunks: seq<ChunkRef>, n: nat)
    requires n <= |chunks|
    ensures Total(chunks[..n]) <= Total(chunks)
    decreases |chunks| - n
  {
    if n == |chunks| {
      assert chunks[..n] == chunks;
    } else {
      TotalGrows(chunks, n + 1);
      assert chunks[..n + 1][..n] == chunks[..n];
    }
  }

  method ValidateFileManifest(manifest: FileManifest, expectedBytes: nat, expectedType: ContentType, index: Index) returns (ok: bool)
    requires manifest.sizeBytes <= U64_MAX
    ensures ok <==> ManifestHolds(manifest, expectedBytes, expectedType, index)
  {
    if manifest.sizeBytes != expectedBytes || manifest.contentType != expectedType { return false; }
    var chunks := manifest.chunks;
    var total: nat := 0;
    for n := 0 to |chunks|
      invariant total == Total(chunks[..n]) && (n > 0 ==> total > 0)
      invariant forall i :: 0 <= i < n ==> 0 < chunks[i].uncompressedBytes <= FILE_CHUNK_BYTES
      invariant forall i :: 0 <= i < n && i < |chunks| - 1 ==> chunks[i].uncompressedBytes == FILE_CHUNK_BYTES
      invariant forall i :: 0 <= i < n ==> ChunkIndexed(chunks[i], expectedType, index)
    {
      var chunk := chunks[n];
      if chunk.uncompressedBytes == 0 || chunk.uncompressedBytes > FILE_CHUNK_BYTES { return false; }
      if n + 1 != |chunks| && chunk.uncompressedBytes != FILE_CHUNK_BYTES { return false; }
      if chunk.id !in index { return false; }
      var entry := index[chunk.id];
      if entry.uncompressedBytes != chunk.uncompressedBytes { return false; }
      if entry.contentType != manifest.contentType { return false; }
      assert chunks[..n + 1][..n] == chunks[..n];
      TotalGrows(chunks, n + 1);
      if total + chunk.uncompressedBytes > U64_MAX { return false; }
      total := total + chunk.uncompressedBytes;
    }
    assert chunks[..|chunks|] == chunks;
    ok := !(total != manifest.sizeBytes || (manifest.sizeBytes == 0 && chunks != []) || (manifest.sizeBytes != 0 && chunks == []));
  }

  // ---------------------------------------------------------------- checking all files

  /** The manifest object can be read back. */
  predicate ManifestIndexed(id: ObjectId, index: Index, maxMetadataBytes: nat) {
    && id in index && index[id].contentType == Json
    && index[id].uncompressedBytes <= maxMetadataBytes && index[id].compressedBytes <= maxMetadataBytes
  }

  predicate FileHolds(file: StoredFile, index: Index, maxMetadataBytes: nat) {
    && ManifestIndexed(ManifestId(file), index, maxMetadataBytes)
    && ManifestHolds(file.manifest, file.manifest.sizeBytes, file.manifest.contentType, index)
  }

  /** Manifests are read back as they were stored. */
  ghost predicate ReadsBack(read: ManifestReader, files: seq<StoredFile>) {
    forall file :: file in files ==> read(ManifestId(file).content) == Some(file.manifest) && file.manifest.sizeBytes <= U64_MAX
  }

  function Loaded(files: seq<StoredFile>): (manifests: map<ObjectId, FileManifest>)
    ensures manifests.Keys == set file | file in files :: ManifestId(file)
  {
    if files == [] then map[]
    else
      var last := |files| - 1;
      assert files == files[..last] + [files[last]];
      Loaded(files[..last])[ManifestId(files[last]) := files[last].manifest]
  }

  lemma {:induction false} LoadedIsRead(files: seq<StoredFile>, read: ManifestReader)
    requires ReadsBack(read, files)
    ensures forall file :: file in files ==> Loaded(files)[ManifestId(file)] == file.manifest
  {
    if files != [] {
      var last := |files| - 1;
      assert files == files[..last] + [files[last]];
      LoadedIsRead(files[..last], read);
      forall file | file in files[..last] ensures Loaded(files)[ManifestId(file)] == file.manifest {
        if ManifestId(file) == ManifestId(files[last]) {
          assert Some(file.manifest) == read(ManifestId(file).content) == Some(files[last].manifest);
        }
      }
    }
  }

  method LoadFileManifest(file: StoredFile, index: Index, read: ManifestReader, maxMetadataBytes: nat) returns (r: Option<FileManifest>)
    requires file.manifest.sizeBytes <= U64_MAX && read(ManifestId(file).content) == Some(file.manifest)
    ensures r.Some? <==> FileHolds(file, index, maxMetadataBytes)
    ensures r.Some? ==> r.value == file.manifest
  {
    hide ManifestHolds;
    if ManifestId(file) !in index { return None; }
    var entry := index[ManifestId(file)];
    if entry.contentType != Json { return None; }
    if entry.uncompressedBytes > maxMetadataBytes || entry.compressedBytes > maxMetadataBytes { return None; }
    var manifest := read(ManifestId(file).content);
    var ok := ValidateFileManifest(manifest.value, file.manifest.sizeBytes, file.manifest.contentType, index);
    r := if ok then manifest else None;
  }

  /** Read every manifest once and check it against the index. */
  method LoadFileManifests(files: seq<StoredFile>, index: Index, read: ManifestReader, maxMetadataBytes: nat)
    returns (r: Option<map<ObjectId, FileManifest>>)
    requires ReadsBack(read, files)
    ensures r.Some? <==> forall file :: file in files ==> FileHolds(file, index, maxMetadataBytes)
    ensures r.Some? ==> r.value == Loaded(files)
  {
    hide FileHolds, Loaded, ReadsBack;
    var manifests: map<ObjectId, FileManifest> := map[];
    NothingLoaded();
    for n := 0 to |files|
      invariant manifests == Loaded(files[..n])
      invariant forall i :: 0 <= i < n ==> FileHolds(files[i], index, maxMetadataBytes)
    {
      var file := files[n];
      LoadedStep(files, n, read);
      if ManifestId(file) in manifests {
        LoadedBefore(files, n, read, index, maxMetadataBytes);
      } else {
        var manifest := LoadFileManifest(file, index, read, maxMetadataBytes);
        if manifest.None? { return None; }
        manifests := manifests[ManifestId(file) := manifest.value];
      }
    }
    assert files[..|files|] == files;
    r := Some(manifests);
  }

  lemma NothingLoaded()
    ensures Loaded([]) == map[]
  {
  }

  lemma LoadedStep(files: seq<StoredFile>, n: nat, read: ManifestReader)
    requires ReadsBack(read, files) && n < |files|
    ensures files[n] in files && Loaded(files[..n + 1]) == Loaded(files[..n])[ManifestId(files[n]) := files[n].manifest]
    ensures files[n].manifest.sizeBytes <= U64_MAX && read(ManifestId(files[n]).content) == Some(files[n].manifest)
  {
    assert files[..n + 1][..n] == files[..n] && files[n] in files;
  }

  /** A manifest met before is the same one. */
  lemma LoadedBefore(files: seq<StoredFile>, n: nat, read: ManifestReader, index: Index, maxMetadataBytes: nat)
    requires ReadsBack(read, files) && n < |files| && ManifestId(files[n]) in Loaded(files[..n])
    requires forall i :: 0 <= i < n ==> FileHolds(files[i], index, maxMetadataBytes)
    ensures Loaded(files[..n + 1]) == Loaded(files[..n]) && FileHolds(files[n], index, maxMetadataBytes)
  {
    LoadedStep(files, n, read);
    var k := SameManifest(files, n, read);
    hide Loaded, ManifestIndexed, ManifestHolds, ReadsBack, ManifestId;
    assert FileHolds(files[k], index, maxMetadataBytes);
  }

  lemma SameManifest(files: seq<StoredFile>, n: nat, read: ManifestReader) returns (k: nat)
    requires ReadsBack(read, files) && n < |files| && ManifestId(files[n]) in Loaded(files[..n])
    ensures k < n && ManifestId(files[k]) == ManifestId(files[n]) && files[k].manifest == files[n].manifest
    ensures Loaded(files[..n])[ManifestId(files[n])] == files[n].manifest
  {
    hide Loaded, ManifestId;
    var earlier := files[..n];
    var file :| file in earlier && ManifestId(file) == ManifestId(files[n]);
    k :| 0 <= k < n && earlier[k] == file;
    assert ReadsBack(read, earlier);
    LoadedIsRead(earlier, read);
    assert files[n] in files && file in files;
  }

  predicate IsChunkOf(id: ObjectId, manifest: FileManifest) {
    exists i :: 0 <= i < |manifest.chunks| && manifest.chunks[i].id == id
  }

  /** Objects are manifests or chunks, none both, and the index has those and no
      others. */
  ghost predicate Locatable(index: Index, manifests: map<ObjectId, FileManifest>) {
    && (forall m, id :: m in manifests && IsChunkOf(id, manifests[m]) ==> id !in manifests && id in index)
    && (forall id :: id in index <==> id in manifests || exists m :: m in manifests && IsChunkOf(id, manifests[m]))
  }

  /** The checks that the writer makes on the objects of a package. */
  ghost predicate ObjectsAccepted(files: seq<StoredFile>, index: Index, maxMetadataBytes: nat) {
    (forall file :: file in files ==> FileHolds(file, index, maxMetadataBytes)) && Locatable(index, Loaded(files))
  }

  // ---------------------------------------------------------------- when a package's own files pass

  predicate ManifestsFit(files: seq<StoredFile>, maxMetadataBytes: nat) {
    forall file :: file in files ==> var entry := file.manifestObject.entry;
      entry.uncompressedBytes <= maxMetadataBytes && entry.compressedBytes <= maxMetadataBytes
  }

  predicate NoManifestIsChunk(files: seq<StoredFile>) {
    forall f, g :: f in files && g in files ==> !IsChunkOf(ManifestId(f), g.manifest)
  }

  ghost predicate SharedChunksAgree(files: seq<StoredFile>) {
    forall f, g, id :: f in files && g in files && IsChunkOf(id, f.manifest) && IsChunkOf(id, g.manifest)
      ==> f.manifest.contentType == g.manifest.contentType
  }

  /** One name, one entry for a manifest. */
  predicate OneManifestEntry(files: seq<StoredFile>) {
    forall f, g :: f in files && g in files && ManifestId(f) == ManifestId(g) ==> f.manifestObject.entry == g.manifestObject.entry
  }

  /** The entries of a stored file are those of its chunks, with their lengths
      and the type of the file. */
  lemma StoredEntries(file: StoredFile)
    requires AsStored(file)
    ensures LawfulChunks(file.manifest) && |file.chunkObjects| == |file.manifest.chunks|
    ensures forall k :: 0 <= k < |file.chunkObjects| ==> var entry, chunk := file.chunkObjects[k].entry, file.manifest.chunks[k];
      entry.id == chunk.id && entry.uncompressedBytes == chunk.uncompressedBytes == |chunk.id.content| && entry.contentType == file.manifest.contentType
  {
    var content, before :| StoredFrom(file, content, before);
    StoredManifestIsLawful(content, file.manifest.contentType, file.manifest.attributes);
    hide LawfulChunks, Chunks, Ids;
    var parts := Chunks(content);
    forall k | 0 <= k < |parts|
      ensures var entry, chunk := file.chunkObjects[k].entry, file.manifest.chunks[k];
        entry.id == chunk.id && entry.uncompressedBytes == chunk.uncompressedBytes == |chunk.id.content| && entry.contentType == file.manifest.contentType
    {
      assert Stores(file.chunkObjects[k], parts[k], file.manifest.contentType, before + Ids(parts[..k]));
    }
  }

  /** The index knows each chunk of a file by its length and type. */
  lemma ChunkIsIndexed(files: seq<StoredFile>, f: StoredFile, i: nat)
    requires f in files && forall file :: file in files ==> AsStored(file)
    requires NoManifestIsChunk(files) && SharedChunksAgree(files) && i < |f.manifest.chunks|
    ensures ChunkIndexed(f.manifest.chunks[i], f.manifest.contentType, IndexOf(files))
  {
    hide AsStored;
    var index, chunk := IndexOf(files), f.manifest.chunks[i];
    IndexCovers(files);
    StoredEntries(f);
    assert EntryOf(f, f.chunkObjects[i].entry);
    assert chunk.id in index && IsChunkOf(chunk.id, f.manifest);
    var g :| g in files && EntryOf(g, index[chunk.id]);
    StoredEntries(g);
    assert !IsChunkOf(ManifestId(g), f.manifest);
    var k :| 0 <= k < |g.chunkObjects| && g.chunkObjects[k].entry == index[chunk.id];
    assert IsChunkOf(chunk.id, g.manifest);
  }

  /** The index holds a manifest under the entry it was stored with. */
  lemma ManifestIsIndexed(files: seq<StoredFile>, f: StoredFile, maxMetadataBytes: nat)
    requires f in files && forall file :: file in files ==> AsStored(file)
    requires NoManifestIsChunk(files) && OneManifestEntry(files)
    ensures ManifestId(f) in IndexOf(files) && IndexOf(files)[ManifestId(f)] == f.manifestObject.entry
  {
    hide AsStored;
    var index, id := IndexOf(files), ManifestId(f);
    IndexCovers(files);
    assert EntryOf(f, f.manifestObject.entry);
    var g :| g in files && EntryOf(g, index[id]);
    StoredEntries(g);
    assert !IsChunkOf(id, g.manifest);
    forall k | 0 <= k < |g.chunkObjects| ensures g.chunkObjects[k].entry.id != id {
      assert g.manifest.chunks[k].id != id;
    }
  }

  /** The files of a package pass the writer's object checks exactly when their
      manifests fit, no manifest is also a chunk, and files that share a chunk
      have one content type. */
  lemma ObjectsAreAcceptedExactlyWhen(files: seq<StoredFile>, read: ManifestReader, maxMetadataBytes: nat)
    requires ReadsBack(read, files) && OneManifestEntry(files) && forall file :: file in files ==> AsStored(file)
    ensures ObjectsAccepted(files, IndexOf(files), maxMetadataBytes)
      <==> ManifestsFit(files, maxMetadataBytes) && NoManifestIsChunk(files) && SharedChunksAgree(files)
  {
    if ManifestsFit(files, maxMetadataBytes) && NoManifestIsChunk(files) && SharedChunksAgree(files) {
      GoodFilesAreAccepted(files, read, maxMetadataBytes);
    }
    if ObjectsAccepted(files, IndexOf(files), maxMetadataBytes) {
      AcceptedFilesAreGood(files, read, maxMetadataBytes);
    }
  }

  lemma GoodFilesAreAccepted(files: seq<StoredFile>, read: ManifestReader, maxMetadataBytes: nat)
    requires ReadsBack(read, files) && OneManifestEntry(files) && forall file :: file in files ==> AsStored(file)
    requires ManifestsFit(files, maxMetadataBytes) && NoManifestIsChunk(files) && SharedChunksAgree(files)
    ensures ObjectsAccepted(files, IndexOf(files), maxMetadataBytes)
  {
    hide AsStored, Loaded, SharedChunksAgree, OneManifestEntry, LawfulChunks, IndexOf, ReadsBack;
    var index := IndexOf(files);
    forall f | f in files ensures FileHolds(f, index, maxMetadataBytes) {
      StoredEntries(f);
      ManifestIsIndexed(files, f, maxMetadataBytes);
      IndexCovers(files);
      assert EntryOf(f, f.manifestObject.entry);
      forall i | 0 <= i < |f.manifest.chunks| ensures ChunkIndexed(f.manifest.chunks[i], f.manifest.contentType, index) {
        ChunkIsIndexed(files, f, i);
      }
      assert f.manifestObject.entry.contentType == Json by { StoredAsJson(f); }
    }
    FilesAreLocatable(files, read);
  }

  lemma StoredAsJson(file: StoredFile)
    requires AsStored(file)
    ensures file.manifestObject.entry.contentType == Json
  {
  }

  lemma FilesAreLocatable(files: seq<StoredFile>, read: ManifestReader)
    requires ReadsBack(read, files) && NoManifestIsChunk(files) && forall file :: file in files ==> AsStored(file)
    ensures Locatable(IndexOf(files), Loaded(files))
  {
    hide AsStored, LawfulChunks, IndexOf, ReadsBack;
    var index, manifests := IndexOf(files), Loaded(files);
    LoadedIsRead(files, read);
    IndexCovers(files);
    hide Loaded;
    forall m, id | m in manifests && IsChunkOf(id, manifests[m]) ensures id !in manifests && id in index {
      var f :| f in files && ManifestId(f) == m;
      StoredEntries(f);
      var i :| 0 <= i < |f.manifest.chunks| && f.manifest.chunks[i].id == id;
      assert EntryOf(f, f.chunkObjects[i].entry);
      assert IsChunkOf(id, f.manifest);
      assert forall g :: g in files ==> ManifestId(g) != id;
    }
    forall id | id in index ensures id in manifests || exists m :: m in manifests && IsChunkOf(id, manifests[m]) {
      var f :| f in files && EntryOf(f, index[id]);
      StoredEntries(f);
      if index[id] != f.manifestObject.entry {
        var k :| 0 <= k < |f.chunkObjects| && f.chunkObjects[k].entry == index[id];
        assert f.manifest.chunks[k].id == id;
        assert ManifestId(f) in manifests && IsChunkOf(id, manifests[ManifestId(f)]);
      }
    }
    forall id | id in manifests ensures id in index {
      var f :| f in files && ManifestId(f) == id;
      assert EntryOf(f, f.manifestObject.entry);
    }
  }

  lemma AcceptedFilesAreGood(files: seq<StoredFile>, read: ManifestReader, maxMetadataBytes: nat)
    requires ReadsBack(read, files) && OneManifestEntry(files) && forall file :: file in files ==> AsStored(file)
    requires ObjectsAccepted(files, IndexOf(files), maxMetadataBytes)
    ensures ManifestsFit(files, maxMetadataBytes) && NoManifestIsChunk(files) && SharedChunksAgree(files)
  {
    hide AsStored, LawfulChunks, IndexOf;
    var index, manifests := IndexOf(files), Loaded(files);
    LoadedIsRead(files, read);
    hide Loaded, ReadsBack;
    forall f, g | f in files && g in files ensures !IsChunkOf(ManifestId(f), g.manifest) {
      assert manifests[ManifestId(g)] == g.manifest;
    }
    forall f, g, id | f in files && g in files && IsChunkOf(id, f.manifest) && IsChunkOf(id, g.manifest)
      ensures f.manifest.contentType == g.manifest.contentType
    {
      assert FileHolds(f, index, maxMetadataBytes) && FileHolds(g, index, maxMetadataBytes);
      var i :| 0 <= i < |f.manifest.chunks| && f.manifest.chunks[i].id == id;
      var j :| 0 <= j < |g.manifest.chunks| && g.manifest.chunks[j].id == id;
      assert ChunkIndexed(f.manifest.chunks[i], f.manifest.contentType, index);
      assert ChunkIndexed(g.manifest.chunks[j], g.manifest.contentType, index);
    }
    forall f | f in files
      ensures f.manifestObject.entry.uncompressedBytes <= maxMetadataBytes && f.manifestObject.entry.compressedBytes <= maxMetadataBytes
    {
      ManifestIsIndexed(files, f, maxMetadataBytes);
      assert FileHolds(f, index, maxMetadataBytes);
    }
  }

  /** The same bytes stored under two content types spoil the package. */
  lemma OneContentOfTwoTypesIsRefused(files: seq<StoredFile>, f: StoredFile, g: StoredFile, content: seq<Byte>, before: set<ObjectId>, later: set<ObjectId>, maxMetadataBytes: nat)
    requires f in files && g in files && forall file :: file in files ==> AsStored(file)
    requires StoredFrom(f, content, before) && StoredFrom(g, content, later) && content != []
    requires f.manifest.contentType != g.manifest.contentType
    ensures !ObjectsAccepted(files, IndexOf(files), maxMetadataBytes)
  {
    hide LawfulChunks, IndexOf, AsStored;
    ChunksOfMore(content);
    var index, chunk := IndexOf(files), f.manifest.chunks[0];
    assert FileHolds(f, index, maxMetadataBytes) ==> ChunkIndexed(chunk, f.manifest.contentType, index);
    assert FileHolds(g, index, maxMetadataBytes) ==> ChunkIndexed(g.manifest.chunks[0], g.manifest.contentType, index);
    assert g.manifest.chunks[0] == chunk;
  }
}
