/** Concurrent writers on one object directory
    (crates/reforge-package/src/content_store.rs): frames are staged under
    temporary names and made visible by hard links. Writers interleave freely
    and may stop for good between any two steps. */
module StoreProtocol {
  import opened Wrappers
  import opened Bytes
  import opened FileManifests
  import opened ContentStore
  import CanonicalJson

  // ---------------------------------------------------------------- states

  datatype Name = Temp(number: nat) | Object(id: ObjectId)

  /** How far a writer is with its current object. */
  datatype Phase =
    | Ready
    | Writing(temp: nat, inode: nat, written: nat)
    | Staged(temp: nat, inode: nat)
    | Leaving(temp: nat, inode: nat)
    | Refused

  /** A writer stores a list of contents in order: the chunks of a file, then
      its manifest. */
  datatype Writer = Writer(jobs: seq<seq<Byte>>, done: nat, phase: Phase) {
    predicate Busy() {
      done < |jobs|
    }

    function Job(): seq<Byte>
      requires Busy()
    {
      jobs[done]
    }

    function Target(): Name
      requires Busy()
    {
      Object(ObjectId(jobs[done]))
    }

    function Advance(): Writer {
      this.(done := done + 1, phase := Ready)
    }
  }

  datatype State = State(writers: map<nat, Writer>, names: map<Name, nat>, inodes: map<nat, seq<Byte>>) {
    function Put(w: nat, writer: Writer): State {
      this.(writers := writers[w := writer])
    }
  }

  /** The object visible under a name passes verification. */
  predicate Verified(s: State, codec: Codec, id: ObjectId) {
    Object(id) in s.names && s.names[Object(id)] in s.inodes && codec.expand(s.inodes[s.names[Object(id)]]) == Some(id.content)
  }

  // ---------------------------------------------------------------- steps

  datatype Action =
    | Start(jobs: seq<seq<Byte>>)
    | SkipSeen                         // an equal chunk was stored earlier by this writer
    | FindExisting                     // the object is already visible and intact
    | Refuse                           // the object is visible and damaged
    | CreateTemp(temp: nat, inode: nat)
    | WriteSome(count: nat)
    | FinishStaging                    // flushed, read back and verified
    | FindExistingStaged               // someone else made the object visible meanwhile
    | Link                             // made visible, atomically and only if the name is free
    | RemoveTemp
    | Stop                             // the writer is gone, its temporary file stays

  ghost predicate Enabled(s: State, codec: Codec, w: nat, a: Action) {
    if a.Start? then w !in s.writers
    else
      w in s.writers && var me := s.writers[w];
      match a
      case Stop => true
      case SkipSeen => me.phase.Ready? && me.Busy() && me.Job() in me.jobs[..me.done]
      case FindExisting => me.phase.Ready? && me.Busy() && Verified(s, codec, ObjectId(me.Job()))
      case Refuse => (me.phase.Ready? || me.phase.Staged?) && me.Busy() && me.Target() in s.names && !Verified(s, codec, ObjectId(me.Job()))
      case CreateTemp(temp, inode) =>
        // the name was free a moment ago; it may be taken by now
        me.phase.Ready? && me.Busy() && Temp(temp) !in s.names && inode !in s.inodes
      case WriteSome(count) => me.phase.Writing? && me.Busy() && me.phase.written + count <= |codec.compress(me.Job())|
      case FinishStaging =>
        me.phase.Writing? && me.Busy() && me.phase.written == |codec.compress(me.Job())|
        && me.phase.inode in s.inodes && codec.expand(s.inodes[me.phase.inode]) == Some(me.Job())
      case FindExistingStaged => me.phase.Staged? && me.Busy() && Verified(s, codec, ObjectId(me.Job()))
      case Link => me.phase.Staged? && me.Busy() && me.Target() !in s.names && Temp(me.phase.temp) in s.names
      case RemoveTemp => me.phase.Leaving?
      case Start(_) => false
  }

  ghost function Apply(s: State, codec: Codec, w: nat, a: Action): State
    requires Enabled(s, codec, w, a)
  {
    if a.Start? then s.Put(w, Writer(a.jobs, 0, Ready))
    else
      var me := s.writers[w];
      match a
      case Stop => s.(writers := s.writers - {w})
      case SkipSeen => s.Put(w, me.Advance())
      case FindExisting => s.Put(w, me.Advance())
      case Refuse => s.Put(w, me.(phase := Refused))
      case CreateTemp(temp, inode) =>
        s.Put(w, me.(phase := Writing(temp, inode, 0))).(names := s.names[Temp(temp) := inode], inodes := s.inodes[inode := []])
      case WriteSome(count) =>
        var written := me.phase.written + count;
        s.Put(w, me.(phase := me.phase.(written := written))).(inodes := s.inodes[me.phase.inode := codec.compress(me.Job())[..written]])
      case FinishStaging => s.Put(w, me.(phase := Staged(me.phase.temp, me.phase.inode)))
      case FindExistingStaged => s.Put(w, me.(phase := Leaving(me.phase.temp, me.phase.inode)))
      case Link =>
        s.Put(w, me.(phase := Leaving(me.phase.temp, me.phase.inode))).(names := s.names[me.Target() := s.names[Temp(me.phase.temp)]])
      case RemoveTemp => s.Put(w, me.Advance()).(names := s.names - {Temp(me.phase.temp)})
  }

  // ---------------------------------------------------------------- invariant

  /** Names lead to files, and visible objects are complete. */
  ghost predicate ObjectsSound(s: State, codec: Codec) {
    && (forall n :: n in s.names ==> s.names[n] in s.inodes)
    && (forall id :: Object(id) in s.names ==> Verified(s, codec, id))
  }

  predicate Holding(p: Phase) {
    p.Writing? || p.Staged? || p.Leaving?
  }

  /** A writer's temporary name is its own, and leads to what it wrote. */
  ghost predicate Tidy(s: State, codec: Codec, w: nat)
    requires w in s.writers
  {
    var me := s.writers[w];
    && (Holding(me.phase) ==> me.Busy() && Temp(me.phase.temp) in s.names && s.names[Temp(me.phase.temp)] == me.phase.inode)
    && (me.phase.Writing? ==>
          && me.phase.written <= |codec.compress(me.Job())|
          && me.phase.inode in s.inodes && s.inodes[me.phase.inode] == codec.compress(me.Job())[..me.phase.written]
          && Unlinked(s, me.phase.inode))
    && (me.phase.Staged? ==> me.phase.inode in s.inodes && codec.expand(s.inodes[me.phase.inode]) == Some(me.Job()))
    && (me.phase.Leaving? ==> me.Target() in s.names)
  }

  /** No object name leads to the file. */
  ghost predicate Unlinked(s: State, inode: nat) {
    forall id :: Object(id) in s.names ==> s.names[Object(id)] != inode
  }

  /** Two writers never share a temporary file. */
  predicate Apart(a: Phase, b: Phase) {
    Holding(a) && Holding(b) ==> a.temp != b.temp && a.inode != b.inode
  }

  /** Everything this writer has done is visible. */
  ghost predicate DoneVisible(s: State, me: Writer) {
    me.done <= |me.jobs| && forall j :: 0 <= j < me.done ==> Object(ObjectId(me.jobs[j])) in s.names
  }

  ghost predicate Inv(s: State, codec: Codec) {
    && ObjectsSound(s, codec)
    && (forall w :: w in s.writers ==> Tidy(s, codec, w) && DoneVisible(s, s.writers[w]))
    && (forall v, w :: v in s.writers && w in s.writers && v != w ==> Apart(s.writers[v].phase, s.writers[w].phase))
  }

  /** What a step leaves as it was: objects stay visible with their bytes. */
  ghost predicate ObjectsKept(s: State, s': State) {
    forall id :: Object(id) in s.names ==>
      Object(id) in s'.names && s'.names[Object(id)] == s.names[Object(id)]
      && (s.names[Object(id)] in s.inodes ==> s.names[Object(id)] in s'.inodes && s'.inodes[s.names[Object(id)]] == s.inodes[s.names[Object(id)]])
  }

  /** A writer that keeps its temporary file, or has none, and changes no file. */
  lemma WriterMoves(s: State, codec: Codec, w: nat, me: Writer)
    requires Inv(s, codec)
    requires Tidy(s.Put(w, me), codec, w) && DoneVisible(s, me)
    requires Holding(me.phase) ==> w in s.writers && var was := s.writers[w].phase;
      Holding(was) && was.temp == me.phase.temp && was.inode == me.phase.inode
    ensures Inv(s.Put(w, me), codec) && ObjectsKept(s, s.Put(w, me))
  {
    var s' := s.Put(w, me);
    forall v | v in s'.writers ensures Tidy(s', codec, v) && DoneVisible(s', s'.writers[v]) {
      if v != w { assert Tidy(s, codec, v); }
    }
  }

  lemma WriterStops(s: State, codec: Codec, w: nat)
    requires Inv(s, codec) && w in s.writers
    ensures var s' := s.(writers := s.writers - {w}); Inv(s', codec) && ObjectsKept(s, s')
  {
    var s' := s.(writers := s.writers - {w});
    forall v | v in s'.writers ensures Tidy(s', codec, v) && DoneVisible(s', s'.writers[v]) {
      assert Tidy(s, codec, v);
    }
  }

  lemma TempIsCreated(s: State, codec: Codec, w: nat, temp: nat, inode: nat)
    requires Inv(s, codec) && Enabled(s, codec, w, CreateTemp(temp, inode))
    ensures var s' := Apply(s, codec, w, CreateTemp(temp, inode)); Inv(s', codec) && ObjectsKept(s, s')
  {
    var s' := Apply(s, codec, w, CreateTemp(temp, inode));
    assert ObjectsKept(s, s');
    ObjectsStaySound(s, s', codec);
    forall v | v in s'.writers ensures Tidy(s', codec, v) && DoneVisible(s', s'.writers[v]) {
      if v != w { assert Tidy(s, codec, v) && DoneVisible(s, s.writers[v]); }
    }
    forall u, v | u in s'.writers && v in s'.writers && u != v ensures Apart(s'.writers[u].phase, s'.writers[v].phase) {
      if u != w { assert Tidy(s, codec, u); }
      if v != w { assert Tidy(s, codec, v); }
    }
  }

  lemma ObjectsStaySound(s: State, s': State, codec: Codec)
    requires ObjectsSound(s, codec) && ObjectsKept(s, s')
    requires forall n :: n in s'.names ==> s'.names[n] in s'.inodes
    requires forall id :: Object(id) in s'.names && Object(id) !in s.names ==> Verified(s', codec, id)
    ensures ObjectsSound(s', codec)
  {
    forall id | Object(id) in s'.names ensures Verified(s', codec, id) {
      if Object(id) in s.names { assert Verified(s, codec, id); }
    }
  }

  lemma TempIsWritten(s: State, codec: Codec, w: nat, count: nat)
    requires Inv(s, codec) && Enabled(s, codec, w, WriteSome(count))
    ensures var s' := Apply(s, codec, w, WriteSome(count)); Inv(s', codec) && ObjectsKept(s, s')
  {
    var s' := Apply(s, codec, w, WriteSome(count));
    assert Tidy(s, codec, w);
    assert ObjectsKept(s, s');
    ObjectsStaySound(s, s', codec);
    forall v | v in s'.writers ensures Tidy(s', codec, v) && DoneVisible(s', s'.writers[v]) {
      if v != w { assert Tidy(s, codec, v) && DoneVisible(s, s.writers[v]) && Apart(s.writers[v].phase, s.writers[w].phase); }
    }
  }

  lemma ObjectIsLinked(s: State, codec: Codec, w: nat)
    requires Inv(s, codec) && Enabled(s, codec, w, Link)
    ensures var s' := Apply(s, codec, w, Link); Inv(s', codec) && ObjectsKept(s, s')
  {
    var s' := Apply(s, codec, w, Link);
    assert Tidy(s, codec, w);
    assert ObjectsKept(s, s');
    ObjectsStaySound(s, s', codec);
    forall v | v in s'.writers ensures Tidy(s', codec, v) && DoneVisible(s', s'.writers[v]) {
      if v != w { assert Tidy(s, codec, v) && DoneVisible(s, s.writers[v]) && Apart(s.writers[v].phase, s.writers[w].phase); }
    }
  }

  lemma TempIsRemoved(s: State, codec: Codec, w: nat)
    requires Inv(s, codec) && Enabled(s, codec, w, RemoveTemp)
    ensures var s' := Apply(s, codec, w, RemoveTemp); Inv(s', codec) && ObjectsKept(s, s')
  {
    var s' := Apply(s, codec, w, RemoveTemp);
    assert Tidy(s, codec, w);
    assert ObjectsKept(s, s');
    ObjectsStaySound(s, s', codec);
    forall v | v in s'.writers ensures Tidy(s', codec, v) && DoneVisible(s', s'.writers[v]) {
      if v != w { assert Tidy(s, codec, v) && DoneVisible(s, s.writers[v]) && Apart(s.writers[v].phase, s.writers[w].phase); }
    }
  }

  /** A visible object always verifies, so no writer is ever turned away. */
  lemma NeverRefused(s: State, codec: Codec, w: nat)
    requires Inv(s, codec)
    ensures !Enabled(s, codec, w, Refuse)
  {
    assert forall id :: Object(id) in s.names ==> Verified(s, codec, id);
  }

  /** A writer with work left can always take another step, given a fresh name. */
  lemma WriterCanGoOn(s: State, codec: Codec, w: nat, temp: nat, inode: nat) returns (a: Action)
    requires Lossless(codec) && Inv(s, codec) && w in s.writers && s.writers[w].Busy() && !s.writers[w].phase.Refused?
    requires Temp(temp) !in s.names && inode !in s.inodes
    ensures !a.Stop? && a != WriteSome(0) && Enabled(s, codec, w, a)
  {
    var me := s.writers[w];
    assert Tidy(s, codec, w);
    var id := ObjectId(me.Job());
    if me.Target() in s.names { assert Verified(s, codec, id); }
    match me.phase
    case Ready => a := if me.Target() in s.names then FindExisting else CreateTemp(temp, inode);
    case Writing(_, _, written) =>
      var frame := codec.compress(me.Job());
      if written == |frame| { assert frame[..written] == frame; }
      a := if written == |frame| then FinishStaging else WriteSome(|frame| - written);
    case Staged(_, _) => a := if me.Target() in s.names then FindExistingStaged else Link;
    case Leaving(_, _) => a := RemoveTemp;
  }

  /** Every step keeps the invariant, and all visible objects as they are. */
  lemma StepKeepsInvariant(s: State, codec: Codec, w: nat, a: Action)
    requires Inv(s, codec) && Enabled(s, codec, w, a)
    ensures Inv(Apply(s, codec, w, a), codec) && ObjectsKept(s, Apply(s, codec, w, a))
  {
    match a
    case CreateTemp(temp, inode) => TempIsCreated(s, codec, w, temp, inode);
    case WriteSome(count) => TempIsWritten(s, codec, w, count);
    case Link => ObjectIsLinked(s, codec, w);
    case RemoveTemp => TempIsRemoved(s, codec, w);
    case Stop => WriterStops(s, codec, w);
    case Refuse => NeverRefused(s, codec, w);
    case _ =>
      var s' := Apply(s, codec, w, a);
      var me := s'.writers[w];
      if !a.Start? { SkippedIsVisible(s, codec, w); }
      hide Apart, ObjectsSound;
      WriterMoves(s, codec, w, me);
  }

  lemma SkippedIsVisible(s: State, codec: Codec, w: nat)
    requires Inv(s, codec) && w in s.writers
    ensures Tidy(s, codec, w) && DoneVisible(s, s.writers[w])
    ensures s.writers[w].Busy() && s.writers[w].Job() in s.writers[w].jobs[..s.writers[w].done] ==> s.writers[w].Target() in s.names
  {
  }

  // ---------------------------------------------------------------- runs

  ghost predicate Step(s: State, codec: Codec, s': State) {
    exists w, a :: Enabled(s, codec, w, a) && s' == Apply(s, codec, w, a)
  }

  /** Any interleaving, from a directory whose objects are intact. */
  ghost predicate IsRun(states: seq<State>, codec: Codec) {
    && states != [] && ObjectsSound(states[0], codec) && states[0].writers == map[]
    && forall i :: 0 <= i < |states| - 1 ==> Step(states[i], codec, states[i + 1])
  }

  lemma {:induction false} RunsKeepInvariant(states: seq<State>, codec: Codec, i: nat)
    requires IsRun(states, codec) && i < |states|
    ensures Inv(states[i], codec)
  {
    if i > 0 {
      RunsKeepInvariant(states, codec, i - 1);
      assert Step(states[i - 1], codec, states[i]);
      var w, a :| Enabled(states[i - 1], codec, w, a) && states[i] == Apply(states[i - 1], codec, w, a);
      StepKeepsInvariant(states[i - 1], codec, w, a);
    }
  }

  /** The bytes behind a visible name. */
  ghost function BytesAt(s: State, id: ObjectId): Option<seq<Byte>> {
    if Object(id) in s.names && s.names[Object(id)] in s.inodes then Some(s.inodes[s.names[Object(id)]]) else None
  }

  /** In every interleaving a visible object is complete, hashes to its name,
      stays visible, and never changes. */
  lemma {:induction false} VisibleObjectsStand(states: seq<State>, codec: Codec, i: nat, j: nat, id: ObjectId)
    requires IsRun(states, codec) && i <= j < |states| && Object(id) in states[i].names
    ensures Verified(states[i], codec, id) && Verified(states[j], codec, id)
    ensures BytesAt(states[j], id) == BytesAt(states[i], id)
    decreases j
  {
    hide Tidy, DoneVisible, Apart, Enabled, Apply;
    RunsKeepInvariant(states, codec, j);
    RunsKeepInvariant(states, codec, i);
    if i < j {
      VisibleObjectsStand(states, codec, i, j - 1, id);
      RunsKeepInvariant(states, codec, j - 1);
      assert Step(states[j - 1], codec, states[j]);
      var w, a :| Enabled(states[j - 1], codec, w, a) && states[j] == Apply(states[j - 1], codec, w, a);
      StepKeepsInvariant(states[j - 1], codec, w, a);
    }
  }

  /** A temporary name that was there before, or is in use by a writer. */
  ghost predicate Accounted(first: State, s: State, temp: nat) {
    Temp(temp) in first.names || exists w :: w in s.writers && Holding(s.writers[w].phase) && s.writers[w].phase.temp == temp
  }

  ghost predicate KeepsWriters(s: State, s': State) {
    forall w :: w in s.writers ==> w in s'.writers
  }

  lemma StepAccounts(first: State, s: State, codec: Codec, w: nat, a: Action, temp: nat)
    requires Inv(s, codec) && Enabled(s, codec, w, a) && !a.Stop? && !a.Refuse?
    requires Temp(temp) in s.names ==> Accounted(first, s, temp)
    requires Temp(temp) in Apply(s, codec, w, a).names
    ensures Accounted(first, Apply(s, codec, w, a), temp)
  {
    var s' := Apply(s, codec, w, a);
    if Temp(temp) in s.names && Temp(temp) !in first.names {
      var v :| v in s.writers && Holding(s.writers[v].phase) && s.writers[v].phase.temp == temp;
      assert Tidy(s, codec, v);
      assert v in s'.writers && Holding(s'.writers[v].phase) && s'.writers[v].phase.temp == temp;
    } else if Temp(temp) !in s.names {
      assert w in s'.writers && Holding(s'.writers[w].phase) && s'.writers[w].phase.temp == temp;
    }
  }

  /** As long as no writer is lost, every temporary file is in use: writers that
      are through leave none behind. */
  lemma {:induction false} TempsAreInUse(states: seq<State>, codec: Codec, i: nat, temp: nat)
    requires IsRun(states, codec) && i < |states| && Temp(temp) in states[i].names
    requires forall j :: 0 <= j < i ==> KeepsWriters(states[j], states[j + 1])
    ensures Accounted(states[0], states[i], temp)
  {
    if i > 0 {
      hide Inv, Accounted, Enabled, Apply, KeepsWriters, ObjectsSound;
      RunsKeepInvariant(states, codec, i - 1);
      if Temp(temp) in states[i - 1].names { TempsAreInUse(states, codec, i - 1, temp); }
      assert Step(states[i - 1], codec, states[i]);
      var w, a :| Enabled(states[i - 1], codec, w, a) && states[i] == Apply(states[i - 1], codec, w, a);
      NotStopped(states[i - 1], codec, w, a);
      NeverRefused(states[i - 1], codec, w);
      StepAccounts(states[0], states[i - 1], codec, w, a, temp);
    }
  }

  lemma NotStopped(s: State, codec: Codec, w: nat, a: Action)
    requires Enabled(s, codec, w, a) && KeepsWriters(s, Apply(s, codec, w, a))
    ensures !a.Stop?
  {
  }

  /** What a writer stores for a file. */
  function FileJobs(content: seq<Byte>, manifest: seq<Byte>): seq<seq<Byte>> {
    Chunks(content) + [manifest]
  }

  /** Once a writer works on the manifest of a file, or is through with it, all
      chunks of the file are visible and intact, then and ever after; once it
      is through, so is the manifest. */
  lemma ManifestComesAfterChunks(states: seq<State>, codec: Codec, i: nat, j: nat, w: nat, content: seq<Byte>, manifest: seq<Byte>)
    requires IsRun(states, codec) && i <= j < |states| && w in states[i].writers
    requires states[i].writers[w].jobs == FileJobs(content, manifest) && states[i].writers[w].done >= |Chunks(content)|
    ensures forall chunk :: chunk in Chunks(content) ==> Verified(states[j], codec, ObjectId(chunk))
    ensures !states[i].writers[w].Busy() ==> Verified(states[j], codec, ObjectId(manifest))
  {
    var me := states[i].writers[w];
    RunsKeepInvariant(states, codec, i);
    forall k | 0 <= k < me.done ensures Verified(states[j], codec, ObjectId(me.jobs[k])) {
      VisibleObjectsStand(states, codec, i, j, ObjectId(me.jobs[k]));
    }
    forall chunk | chunk in Chunks(content) ensures Verified(states[j], codec, ObjectId(chunk)) {
      var k :| 0 <= k < |Chunks(content)| && Chunks(content)[k] == chunk;
      assert me.jobs[k] == chunk;
    }
    if !me.Busy() { assert me.jobs[|Chunks(content)|] == manifest; }
  }

  lemma RunGrows(states: seq<State>, codec: Codec, w: nat, a: Action)
    requires IsRun(states, codec) && Enabled(states[|states| - 1], codec, w, a)
    ensures IsRun(states + [Apply(states[|states| - 1], codec, w, a)], codec)
  {
    var last := states[|states| - 1];
    var more := states + [Apply(last, codec, w, a)];
    assert Step(last, codec, more[|states|]);
    forall i | 0 <= i < |more| - 1 ensures Step(more[i], codec, more[i + 1]) {
      if i < |states| - 1 { assert Step(states[i], codec, states[i + 1]); }
    }
  }

  // ---------------------------------------------------------------- what a visible manifest tells

  /** A file as it is stored: its content and its manifest. */
  datatype File = File(content: seq<Byte>, manifest: seq<Byte>)

  /** All that is ever stored are these files. */
  ghost predicate StoresOnly(states: seq<State>, files: iset<File>) {
    forall i, w :: 0 <= i < |states| && w in states[i].writers ==> StoresOneOf(states[i].writers[w].jobs, files)
  }

  ghost predicate StoresOneOf(jobs: seq<seq<Byte>>, files: iset<File>) {
    exists f :: f in files && jobs == FileJobs(f.content, f.manifest)
  }

  /** Wherever the bytes of the manifest are stored, the chunks of the content
      have been stored before. */
  predicate InOrder(jobs: seq<seq<Byte>>, content: seq<Byte>, manifest: seq<Byte>) {
    forall k :: 0 <= k < |jobs| && jobs[k] == manifest ==> forall chunk :: chunk in Chunks(content) ==> chunk in jobs[..k + 1]
  }

  /** In the state, the manifest is not visible without the chunks. */
  ghost predicate TellsChunks(s: State, codec: Codec, content: seq<Byte>, manifest: seq<Byte>) {
    Object(ObjectId(manifest)) in s.names ==> forall chunk :: chunk in Chunks(content) ==> Verified(s, codec, ObjectId(chunk))
  }

  /** A name only becomes visible by the link of a writer that is at it. */
  lemma OnlyLinksShow(s: State, codec: Codec, w: nat, a: Action, id: ObjectId)
    requires Enabled(s, codec, w, a) && Object(id) !in s.names && Object(id) in Apply(s, codec, w, a).names
    ensures w in s.writers && s.writers[w].Busy() && ObjectId(s.writers[w].Job()) == id
  {
  }

  lemma {:induction false} OrderedFilesTellChunks(states: seq<State>, codec: Codec, files: iset<File>, content: seq<Byte>, manifest: seq<Byte>, i: nat)
    requires IsRun(states, codec) && StoresOnly(states, files) && i < |states|
    requires Object(ObjectId(manifest)) !in states[0].names
    requires forall f :: f in files ==> InOrder(FileJobs(f.content, f.manifest), content, manifest)
    ensures TellsChunks(states[i], codec, content, manifest)
  {
    hide Tidy, Apart, FileJobs;
    var id := ObjectId(manifest);
    if i > 0 && Object(id) in states[i].names {
      var s := states[i - 1];
      OrderedFilesTellChunks(states, codec, files, content, manifest, i - 1);
      RunsKeepInvariant(states, codec, i - 1);
      RunsKeepInvariant(states, codec, i);
      forall chunk | chunk in Chunks(content) ensures Verified(states[i], codec, ObjectId(chunk)) {
        if Object(id) in s.names {
          VisibleObjectsStand(states, codec, i - 1, i, ObjectId(chunk));
        } else {
          assert Step(s, codec, states[i]);
          var w, a :| Enabled(s, codec, w, a) && states[i] == Apply(s, codec, w, a);
          OnlyLinksShow(s, codec, w, a, id);
          hide Enabled, Apply;
          var me := s.writers[w];
          assert StoresOneOf(me.jobs, files);
          assert chunk in me.jobs[..me.done + 1];
          DoneOrDoing(states, codec, i, me, chunk);
        }
      }
    }
  }

  /** What a writer stored before, or is at, and which is visible, verifies. */
  lemma DoneOrDoing(states: seq<State>, codec: Codec, i: nat, me: Writer, chunk: seq<Byte>)
    requires IsRun(states, codec) && 0 < i < |states| && DoneVisible(states[i - 1], me) && me.Busy()
    requires chunk in me.jobs[..me.done + 1] && Object(ObjectId(me.Job())) in states[i].names
    ensures Verified(states[i], codec, ObjectId(chunk))
  {
    hide Tidy, Apart;
    var k :| 0 <= k < me.done + 1 && me.jobs[..me.done + 1][k] == chunk;
    assert me.jobs[k] == chunk;
    if k < me.done {
      VisibleObjectsStand(states, codec, i - 1, i, ObjectId(chunk));
    } else {
      VisibleObjectsStand(states, codec, i, i, ObjectId(chunk));
    }
  }

  // ---------------------------------------------------------------- one writer alone

  /** A lone writer that has stored its first jobs and left nothing else. */
  ghost predicate Alone(s: State, jobs: seq<seq<Byte>>, n: nat) {
    && n <= |jobs| && s.writers == map[0 := Writer(jobs, n, Ready)]
    && (forall name :: name in s.names ==> name.Object?)
    && (forall id :: Object(id) in s.names <==> exists k :: 0 <= k < n && ObjectId(jobs[k]) == id)
    && (forall inode :: inode in s.inodes ==> inode < n)
  }

  ghost predicate OnlyWriter(states: seq<State>, jobs: seq<seq<Byte>>) {
    forall i, w :: 0 <= i < |states| && w in states[i].writers ==> states[i].writers[w].jobs == jobs
  }

  lemma OneMoreState(states: seq<State>, codec: Codec, jobs: seq<seq<Byte>>, a: Action) returns (more: seq<State>)
    requires IsRun(states, codec) && OnlyWriter(states, jobs) && Enabled(states[|states| - 1], codec, 0, a)
    requires 0 in states[|states| - 1].writers && !a.Start?
    ensures IsRun(more, codec) && OnlyWriter(more, jobs) && more[0] == states[0]
    ensures more[|more| - 1] == Apply(states[|states| - 1], codec, 0, a)
  {
    RunGrows(states, codec, 0, a);
    more := states + [Apply(states[|states| - 1], codec, 0, a)];
    SameJobs(states[|states| - 1], codec, a);
    hide IsRun, Enabled, Apply;
    forall i, w | 0 <= i < |more| && w in more[i].writers ensures more[i].writers[w].jobs == jobs {
      if i < |states| {
        assert more[i] == states[i];
      } else {
        assert w in states[|states| - 1].writers;
      }
    }
  }

  lemma SameJobs(s: State, codec: Codec, a: Action)
    requires 0 in s.writers && !a.Start? && Enabled(s, codec, 0, a)
    ensures forall w :: w in Apply(s, codec, 0, a).writers ==> w in s.writers && Apply(s, codec, 0, a).writers[w].jobs == s.writers[w].jobs
  {
  }

  /** A lone writer stores its jobs one after the other on an empty directory. */
  lemma {:induction false} LoneWriter(codec: Codec, jobs: seq<seq<Byte>>, n: nat) returns (states: seq<State>)
    requires Lossless(codec) && n <= |jobs|
    ensures IsRun(states, codec) && OnlyWriter(states, jobs) && states[0].names == map[]
    ensures Alone(states[|states| - 1], jobs, n)
  {
    if n == 0 {
      var s := State(map[], map[], map[]);
      RunGrows([s], codec, 0, Start(jobs));
      states := [s] + [Apply(s, codec, 0, Start(jobs))];
    } else {
      states := LoneWriter(codec, jobs, n - 1);
      var s := states[|states| - 1];
      if Object(ObjectId(jobs[n - 1])) in s.names {
        RunsKeepInvariant(states, codec, |states| - 1);
        assert Verified(s, codec, ObjectId(jobs[n - 1]));
        states := OneMoreState(states, codec, jobs, FindExisting);
      } else {
        states := StoreNew(states, codec, jobs, n - 1);
      }
    }
  }

  function Lone(jobs: seq<seq<Byte>>, done: nat, phase: Phase, names: map<Name, nat>, inodes: map<nat, seq<Byte>>): State {
    State(map[0 := Writer(jobs, done, phase)], names, inodes)
  }

  lemma LoneCreates(codec: Codec, jobs: seq<seq<Byte>>, n: nat, s: State)
    requires n < |jobs| && Alone(s, jobs, n)
    ensures Enabled(s, codec, 0, CreateTemp(0, n))
    ensures Apply(s, codec, 0, CreateTemp(0, n)) == Lone(jobs, n, Writing(0, n, 0), s.names[Temp(0) := n], s.inodes[n := []])
  {
  }

  lemma LoneWrites(codec: Codec, jobs: seq<seq<Byte>>, n: nat, names: map<Name, nat>, inodes: map<nat, seq<Byte>>)
    requires n < |jobs|
    ensures var s, frame := Lone(jobs, n, Writing(0, n, 0), names, inodes[n := []]), codec.compress(jobs[n]);
      && Enabled(s, codec, 0, WriteSome(|frame|))
      && Apply(s, codec, 0, WriteSome(|frame|)) == Lone(jobs, n, Writing(0, n, |frame|), names, inodes[n := frame])
  {
    var frame := codec.compress(jobs[n]);
    assert frame[..|frame|] == frame;
    assert inodes[n := []][n := frame] == inodes[n := frame];
  }

  lemma LoneStages(codec: Codec, jobs: seq<seq<Byte>>, n: nat, names: map<Name, nat>, inodes: map<nat, seq<Byte>>)
    requires Lossless(codec) && n < |jobs|
    ensures var frame := codec.compress(jobs[n]);
      var s := Lone(jobs, n, Writing(0, n, |frame|), names, inodes[n := frame]);
      && Enabled(s, codec, 0, FinishStaging)
      && Apply(s, codec, 0, FinishStaging) == Lone(jobs, n, Staged(0, n), names, inodes[n := frame])
  {
  }

  lemma LoneLinks(codec: Codec, jobs: seq<seq<Byte>>, n: nat, names: map<Name, nat>, inodes: map<nat, seq<Byte>>)
    requires n < |jobs| && Object(ObjectId(jobs[n])) !in names
    ensures var s := Lone(jobs, n, Staged(0, n), names[Temp(0) := n], inodes);
      && Enabled(s, codec, 0, Link)
      && Apply(s, codec, 0, Link) == Lone(jobs, n, Leaving(0, n), names[Temp(0) := n][Object(ObjectId(jobs[n])) := n], inodes)
  {
  }

  lemma LoneCleans(codec: Codec, jobs: seq<seq<Byte>>, n: nat, s: State, frame: seq<Byte>)
    requires n < |jobs| && Alone(s, jobs, n)
    ensures var id := ObjectId(jobs[n]);
      var t := Lone(jobs, n, Leaving(0, n), s.names[Temp(0) := n][Object(id) := n], s.inodes[n := frame]);
      Enabled(t, codec, 0, RemoveTemp) && Alone(Apply(t, codec, 0, RemoveTemp), jobs, n + 1)
  {
  }

  /** Stage, link and clean up one object. */
  lemma StoreNew(states: seq<State>, codec: Codec, jobs: seq<seq<Byte>>, n: nat) returns (more: seq<State>)
    requires Lossless(codec) && n < |jobs| && IsRun(states, codec) && OnlyWriter(states, jobs)
    requires Alone(states[|states| - 1], jobs, n) && Object(ObjectId(jobs[n])) !in states[|states| - 1].names
    ensures IsRun(more, codec) && OnlyWriter(more, jobs) && more[0] == states[0]
    ensures Alone(more[|more| - 1], jobs, n + 1)
  {
    hide OnlyWriter, Enabled, Apply, Alone, Lossless;
    var s, frame := states[|states| - 1], codec.compress(jobs[n]);
    var names, inodes := s.names[Temp(0) := n], s.inodes;
    LoneHasWriter(s, jobs, n);
    LoneCreates(codec, jobs, n, s);
    more := OneMoreState(states, codec, jobs, CreateTemp(0, n));
    hide IsRun;
    LoneWrites(codec, jobs, n, names, inodes);
    more := OneMoreState(more, codec, jobs, WriteSome(|frame|));
    LoneStages(codec, jobs, n, names, inodes);
    more := OneMoreState(more, codec, jobs, FinishStaging);
    LoneLinks(codec, jobs, n, s.names, inodes[n := frame]);
    more := OneMoreState(more, codec, jobs, Link);
    LoneCleans(codec, jobs, n, s, frame);
    more := OneMoreState(more, codec, jobs, RemoveTemp);
  }

  lemma LoneHasWriter(s: State, jobs: seq<seq<Byte>>, n: nat)
    requires Alone(s, jobs, n)
    ensures 0 in s.writers
  {
  }

  /** Storing a file out of order lets the manifest be seen without the chunks. */
  lemma DisorderShows(codec: Codec, files: iset<File>, f: File, content: seq<Byte>, manifest: seq<Byte>) returns (states: seq<State>)
    requires Lossless(codec) && f in files && !InOrder(FileJobs(f.content, f.manifest), content, manifest)
    ensures IsRun(states, codec) && StoresOnly(states, files) && states[0].names == map[]
    ensures !TellsChunks(states[|states| - 1], codec, content, manifest)
  {
    var jobs := FileJobs(f.content, f.manifest);
    var k, chunk :| 0 <= k < |jobs| && jobs[k] == manifest && chunk in Chunks(content) && chunk !in jobs[..k + 1];
    states := LoneWriter(codec, jobs, k + 1);
    forall i, w | 0 <= i < |states| && w in states[i].writers ensures StoresOneOf(states[i].writers[w].jobs, files) {
      assert states[i].writers[w].jobs == jobs;
    }
    ManifestShown(states[|states| - 1], jobs, k, chunk);
  }

  lemma ManifestShown(s: State, jobs: seq<seq<Byte>>, k: nat, chunk: seq<Byte>)
    requires k < |jobs| && Alone(s, jobs, k + 1) && chunk !in jobs[..k + 1]
    ensures Object(ObjectId(jobs[k])) in s.names && Object(ObjectId(chunk)) !in s.names
  {
    forall j | 0 <= j < k + 1 ensures jobs[j] != chunk {
      assert jobs[j] == jobs[..k + 1][j];
    }
  }

  /** A run that starts without the manifest and stores these files never shows
      the manifest without the chunks. */
  ghost predicate AlwaysTells(states: seq<State>, codec: Codec, files: iset<File>, content: seq<Byte>, manifest: seq<Byte>) {
    (IsRun(states, codec) && StoresOnly(states, files) && Object(ObjectId(manifest)) !in states[0].names)
    ==> (forall i :: 0 <= i < |states| ==> TellsChunks(states[i], codec, content, manifest))
  }

  /** A visible manifest implies visible chunks, in every interleaving, exactly
      when each stored file that has the manifest's bytes, as a chunk or as its
      own manifest, has all the chunks up to there. */
  lemma ManifestTellsChunksExactlyWhenInOrder(codec: Codec, files: iset<File>, content: seq<Byte>, manifest: seq<Byte>)
    requires Lossless(codec)
    ensures (forall states :: AlwaysTells(states, codec, files, content, manifest))
      <==> (forall f :: f in files ==> InOrder(FileJobs(f.content, f.manifest), content, manifest))
  {
    if forall f :: f in files ==> InOrder(FileJobs(f.content, f.manifest), content, manifest) {
      forall states: seq<State> ensures AlwaysTells(states, codec, files, content, manifest) {
        if IsRun(states, codec) && StoresOnly(states, files) && Object(ObjectId(manifest)) !in states[0].names {
          forall i | 0 <= i < |states| ensures TellsChunks(states[i], codec, content, manifest) {
            OrderedFilesTellChunks(states, codec, files, content, manifest, i);
          }
        }
      }
    } else {
      var f :| f in files && !InOrder(FileJobs(f.content, f.manifest), content, manifest);
      var states := DisorderShows(codec, files, f, content, manifest);
      assert !AlwaysTells(states, codec, files, content, manifest);
    }
  }

  /** Files without a chunk equal to the manifest, where only files of the same
      chunks have it as their own, are stored in order. */
  lemma DistinctChunksAreInOrder(f: File, content: seq<Byte>, manifest: seq<Byte>)
    requires manifest !in Chunks(f.content) && (f.manifest == manifest ==> Chunks(f.content) == Chunks(content))
    ensures InOrder(FileJobs(f.content, f.manifest), content, manifest)
  {
    var jobs, chunks := FileJobs(f.content, f.manifest), Chunks(f.content);
    assert forall i :: 0 <= i < |chunks| ==> jobs[i] == chunks[i] && chunks[i] in chunks;
    forall k | 0 <= k < |jobs| && jobs[k] == manifest ensures forall chunk :: chunk in Chunks(content) ==> chunk in jobs[..k + 1] {
      assert jobs[..k + 1] == chunks + [f.manifest];
    }
  }

  /** The exception is real: a run on an empty directory that stores a file
      whose one chunk is the manifest of another file, a short one, and shows
      that manifest without the chunk it names. */
  lemma ManifestBytesMayComeAlone(codec: Codec, content: seq<Byte>, contentType: ContentType, attributes: nat,
                                  idText: IdText, formats: CanonicalJson.Formats, other: seq<Byte>) returns (states: seq<State>)
    requires Lossless(codec) && WritesIds(idText) && WritesDecimals(formats) && attributes < 0x1_0000_0000
    requires 0 < |content| <= 100
    ensures var text := CanonicalManifest(content, contentType, attributes, idText, formats);
      && text.Some?
      && var manifest := TextBytes(text.value);
        && IsRun(states, codec) && StoresOnly(states, iset{File(manifest, other)}) && states[0].names == map[]
        && Chunks(manifest) == [manifest] && Chunks(content) == [content]
        && Object(ObjectId(manifest)) in states[|states| - 1].names && !TellsChunks(states[|states| - 1], codec, content, manifest)
  {
    ManifestLength(ManifestOf(content, contentType, attributes), idText, formats);
    var manifest := TextBytes(CanonicalManifest(content, contentType, attributes, idText, formats).value);
    var f := File(manifest, other);
    var jobs := FileJobs(manifest, other);
    assert jobs[0] == manifest && jobs[..1] == [manifest];
    assert content in Chunks(content) && content !in jobs[..1];
    states := DisorderShows(codec, iset{f}, f, content, manifest);
  }
}
