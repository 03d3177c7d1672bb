# Reforge, modelled and proved in Dafny

Reforge scans a Windows machine into a graph of components, removes duplicates,
scores what it found, closes a user's selection over dependencies, packs the
result into a content-addressed archive, and validates a restore plan before
anything is written back. This project models the algorithmic core of that path
and proves what each part promises, over all inputs, all runs and all
interleavings.

| part | files |
|---|---|
| identity dedup: a union-find whose roots carry tiered identity keys, refined to a partition run; when a conflict is bridged | `IdentityKeys`, `Partition`, `UnionFind`, `Dedup`, `Bridging`, `IdentityMeaning`, `SortedLists`, `EdgeMerge` |
| restore plans: cycle search, precedence, overlapping destinations | `Graphs`, `Ordering`, `Paths`, `PathMeaning`, `RestorePlan`, `PlanMeaning` |
| selection closure, and closing the packaged selection again on restore | `Closure`, `Selection`, `SelectionOrder`, `SelectionMeaning`, `Repackage` |
| content store: chunking one file, many writers on one directory, and the object index of a package | `Bytes`, `FileManifests`, `ManifestText`, `ContentStore`, `StoreProtocol`, `PackageObjects` |
| canonical JSON: writing, reading back, what the text identifies | `CanonicalJson`, `CanonicalReading`, `CanonicalTheorems`, `CanonicalMinimal` |
| ZIP central-directory preflight and the directories it accepts | `CentralDirectory`, `DirectoryMeaning`, `PrintedDirectory` |
| UTF-8 and newline probe; Base32 identifiers | `Utf8`, `ContentProbe`, `Base32` |
| recommendations; filtering of structured values | `Sorting`, `Recommend`, `RecommendMeaning`, `ValueFilter` |

The modules named `…Meaning`, with `TextMeaning`, `ManifestText` and
`CanonicalMinimal`, say in terms of input fields, characters and bytes what the
functions mean that an operation and its specification share.

Conventions. Code that updates state in the source is a method or a class here,
proved against a specification function; what the source promises is then proved
about that function. Hashing is an injective constructor, compression a function
with a left inverse, timestamp and number formatting idempotent normalizers, and
identifiers natural numbers unless their text matters. Readers and sinks choose
freely how much they take at a time, so results proved equal to a function of
the content hold for every pattern of short reads and writes.

What the proofs found where code and description differ:

- Dedup says that lower-quality observations cannot bridge conflicts. That holds
  for provider facts (`Partition.ProvidersNeverBridged`). On a lower tier a
  conflict stands unless a component with a better fact is within reach of
  agreement (`Bridging.DisagreementStandsWithoutBetterFact`), and then it can be
  bridged (`Bridging.FamilyConflictIsBridged`). A component without provider whose
  package family one provider claims joins that provider exactly for this claim,
  although another package family of the same provider is in the group
  (`Bridging.FamilyConflictIsBridgedExactlyByClaim`). Components also merge when
  they carry the very same ID.
- Two plain writes, or two merges, of one place need no ordering
  (`RestorePlan.TwoPlainWritesAreAccepted`); only a write against a merge does. An
  accepted plan treats all that overlaps in one order exactly when its
  prerequisites relate those pairs too
  (`RestorePlan.OverlapsAreFixedExactlyWhenLikeOnesAreOrdered`).
- A dependency that a component outside the selection holds for one inside it is
  followed at backup and lost on restore (`Repackage.ForeignEdgeIsLost`). The graph
  that dedup emits has no such edges.
- A file within the file limit is refused when its manifest outgrows the object
  limit. The default limits rule this out; permitted custom ones do not
  (`FileManifests.DefaultLimitsHoldManifests`).
- A visible manifest does not by itself imply visible chunks, since a file may
  contain the bytes of another file's manifest
  (`StoreProtocol.ManifestBytesMayComeAlone`). It does so exactly when, in every file
  ever stored, those bytes come after the chunks
  (`StoreProtocol.ManifestTellsChunksExactlyWhenInOrder`). A package refuses a chunk
  that is a manifest, and also files that share a chunk under two content types
  (`PackageObjects.ObjectsAreAcceptedExactlyWhen`).
- A file whose only line endings are lone carriage returns is reported as mixed;
  only files with carriage returns and no line feed are misreported
  (`ContentProbes.MixedMeansSeveralKindsExactlyUnlessOnlyCr`).
- The identifier grammar accepts texts that are the Base32 form of no digest
  (`Base32.AcceptedIdIsDigestExactlyWhenPadded`).
- Recommendations have an explanation for components without any signal
  (`recommend.rs:237-243`). It is never given: every component has a reproducible
  source or lacks one, and both are signals (`RecommendMeaning.ScoreMeaning`).
- Screening a screened value again can find more (`ValueFilter.RescanCanFindMore`):
  exactly when the value came in with an object about to lose everything beside
  `redacted: true` (`ValueFilter.RescanIsEmptyExactlyWithoutNewMarkers`).

## Model

| member | source | states |
|---|---|---|
| IdentityKeys.IdentityPriorityConflicts | crates/reforge-discovery/src/dedup.rs:210-235 | two key sets conflict exactly when some tier is inhabited on both sides by different facts and no better or equal tier agrees |
| IdentityKeys.OneKeyPerTier | crates/reforge-discovery/src/dedup.rs:310-364 | the keys of any component lie on the five tiers, at most one on each, and its provider fact is there exactly if it has one |
| IdentityKeys.CompatibleUnionKeepsSoleBestKey | crates/reforge-discovery/src/dedup.rs:210-246 | uniting two key sets that do not conflict leaves exactly one key on the best inhabited tier |
| Partition.EveryRunKeepsSoleBestKey | crates/reforge-discovery/src/dedup.rs:185-208 | after every sequence of union attempts each class has exactly one key on its best inhabited tier |
| Partition.ProvidersNeverBridged | crates/reforge-discovery/src/dedup.rs:28-31 | after every sequence of union attempts, members of one class with provider facts have the same provider fact |
| Partition.SharedProviderMerges | crates/reforge-discovery/src/dedup.rs:185-235 | an attempt between two carriers of one provider fact always merges, whatever else their classes hold |
| Partition.RunCoarsens | crates/reforge-discovery/src/dedup.rs:185-208 | attempts never separate what was together |
| UnionFindForest.RankStaysSmall | crates/reforge-discovery/src/dedup.rs:22-39 | a class that pays for its rank with 2^rank members out of 250,000 has rank below 18, so the rank increment never saturates |
| UnionFindForest.CompressionRepresents | crates/reforge-discovery/src/dedup.rs:177-183 | redirecting nodes to nodes nearer the top of their own class changes neither partition, nor key sets, nor rank bounds |
| UnionFindForest.LinkRepresents | crates/reforge-discovery/src/dedup.rs:191-207 | linking two roots by rank represents the joined partition, with united keys and ranks still paid for |
| UnionFindForest.UnionFind.constructor | crates/reforge-discovery/src/dedup.rs:160-175 | the forest starts as singletons, each holding its own keys |
| UnionFindForest.UnionFind.Root | crates/reforge-discovery/src/dedup.rs:177-183 | the lookup terminates at the one root of the class and compresses paths without moving any class |
| UnionFindForest.UnionFind.Find | crates/reforge-discovery/src/dedup.rs:177-183 | the lookup keeps the represented partition and every root a root |
| UnionFindForest.UnionFind.UnionIfCompatible | crates/reforge-discovery/src/dedup.rs:185-208 | the in-place union records one more attempt of the partition run and keeps the whole invariant: ranks rise along links, classes pay 2^rank, roots hold exactly their members' keys |
| Dedup.ProviderFactsDecideGroups | crates/reforge-discovery/src/dedup.rs:248-308 | two components with provider keys end in one group if and only if their normalized keys are equal, for every order within a tier |
| Dedup.OneBestFactPerGroup | crates/reforge-discovery/src/dedup.rs:248-308 | every group has exactly one key at its best inhabited tier |
| Dedup.MergesRestOnAgreement | crates/reforge-discovery/src/dedup.rs:28-31 | members of a group are joined by a chain inside the group whose neighbours agree on a supported key or on their ID |
| Dedup.DisagreementsSitBelowABetterFact | crates/reforge-discovery/src/dedup.rs:28-31 | members of one group disagree on a tier only when the group holds a fact on a better tier |
| Bridging.DisagreementStandsWithoutBetterFact | crates/reforge-discovery/src/dedup.rs:28-31 | components that disagree on a tier are never grouped when nothing connected to one of them by agreement has a fact on a better tier, for every order of keys |
| Bridging.BridgeNeedsClaim | crates/reforge-discovery/src/dedup.rs:266-290 | a component joins one of a provider with another package family only if some component of that provider carries its own family |
| Bridging.SoleClaimantIsJoined | crates/reforge-discovery/src/dedup.rs:266-290 | a component without provider joins the one provider that claims its package family, for every order of keys |
| Bridging.FamilyConflictIsBridgedExactlyByClaim | crates/reforge-discovery/src/dedup.rs:28-31 | a component without provider shares a group with a provider's component of another package family if and only if that provider claims its own family, when no second provider does |
| Bridging.FamilyConflictIsBridged | crates/reforge-discovery/src/dedup.rs:28-31 | three scanned components of which two with conflicting best facts share a group in every order of keys |
| Dedup.IndexByKey | crates/reforge-discovery/src/dedup.rs:249-258 | the index lists under each key and owner exactly its components in order |
| Dedup.BuildGroups | crates/reforge-discovery/src/dedup.rs:248-299 | the indexed union-find algorithm computes the classes of the partition run over a tier-ordered schedule of all keys |
| TextMeaning.LowerMeaning | crates/reforge-discovery/src/dedup.rs:374-381 | folding case forgets the case of letters and nothing else |
| IdentityMeaning.NormalizedMeaning | crates/reforge-discovery/src/dedup.rs:374-381 | a text has a normal form exactly when something without controls is left between its outer space; two agree exactly when the texts do up to letter case and outer space; none holds a capital, a control or outer space |
| IdentityMeaning.KeyMeaning | crates/reforge-discovery/src/dedup.rs:310-372 | a component has a key on a tier exactly when each text of that fact states something, and two components share it exactly when all of them agree up to case and outer space |
| IdentityMeaning.ConflictMeaning | crates/reforge-discovery/src/dedup.rs:210-235 | two components conflict exactly when they carry a fact of some tier each and agree on none up to that tier |
| IdentityMeaning.AgreeMeaning | crates/reforge-discovery/src/dedup.rs:248-308 | what merges rest on is the very same ID or agreement on the texts of one of the five facts |
| IdentityMeaning.SearchKeysMeaning | crates/reforge-discovery/src/dedup.rs:353-356 | candidates are looked up by their facts, and by their own ID exactly when they have none |
| IdentityMeaning.ProviderTextsDecideGroups | crates/reforge-discovery/src/dedup.rs:248-308 | components with provider texts share a group if and only if provider, source and package agree up to case and outer space |
| EdgeMerge.MergeEdges | crates/reforge-discovery/src/dedup.rs:876-918 | output keys are exactly the image of all input edges under the mapping, each once, in order, with evidence the sorted duplicate-free union |
| EdgeMerge.MergeIgnoresInputOrder | crates/reforge-discovery/src/dedup.rs:876-918 | two merges of the same edges, in any order and repetition, are equal |
| EdgeMerge.OutgoingMembers | crates/reforge-discovery/src/dedup.rs:102-108 | a component's rebuilt dependencies are exactly its outgoing merged edges, in order |
| EdgeMerge.RewrittenMeaning | crates/reforge-discovery/src/dedup.rs:876-900 | both ends of an edge are looked up in the mapping and stand for themselves without an entry; nothing else changes |
| EdgeMerge.BeforeMeaning | crates/reforge-discovery/src/dedup.rs:920-935 | edges are ordered by the first of source, target, kind and requiredness that differs |
| EdgeMerge.MergingAgainChangesNothing | crates/reforge-discovery/src/dedup.rs:97-108 | merging a normalized graph, whose edges are stated twice, gives the same edges back under any mapping that leaves its IDs alone |
| Paths.NormalizeRelativePath | crates/reforge-domain/src/model.rs:249-278 | the loop computes the domain normal form of a relative path or the same error |
| Paths.NormalizePath | crates/reforge-package/src/canonical.rs:544-571 | the loop computes the normal form of a declared path or the same error |
| PathMeaning.SplitIsTheCut | crates/reforge-domain/src/model.rs:266-266 | segments are the one way to cut a text at its slashes and backslashes |
| PathMeaning.RelativeMeaning | crates/reforge-domain/src/model.rs:249-278 | a relative path is accepted exactly when it has no control character and no colon, does not start at a slash and has no `..` segment; the segments that name something remain; each refusal has its code |
| PathMeaning.DeclaredMeaning | crates/reforge-package/src/canonical.rs:544-571 | a declared path likewise, with NUL the only control refused |
| PathMeaning.NormalMeaning | crates/reforge-domain/src/model.rs:223-229 | normal paths are those of named folders with one slash between each two |
| PathMeaning.OverlapMeaning | crates/reforge-domain/src/model.rs:1783-1792 | places overlap exactly when under one root either is the other or a folder above it, up to letter case |
| Paths.GrammarsAgree | crates/reforge-domain/src/model.rs:249-278 | the domain rule accepts exactly the declared paths without control characters, with the same normal form |
| Paths.NormalizationIsIdempotent | crates/reforge-domain/src/model.rs:249-278 | domain normal forms are fixed points of both rules |
| Paths.DeclaredIsIdempotent | crates/reforge-package/src/canonical.rs:544-571 | the declared-path rule leaves its own results alone |
| Paths.OverlapIsFolderPrefix | crates/reforge-domain/src/model.rs:1783-1792 | on normal paths overlap means one root and folder lists that are equal or a non-empty prefix of one another, ignoring case |
| Ordering.PrecedenceIsExact | crates/reforge-domain/src/model.rs:1696-1716 | one operation needs another, directly or through others, exactly when every execution runs it later |
| Ordering.FixedOrderIsPrecedence | crates/reforge-domain/src/model.rs:1640-1667 | all executions agree on the order of two operations exactly when one transitively needs the other |
| Ordering.ExecutionExcludesCycles | crates/reforge-domain/src/model.rs:1672-1694 | prerequisites that can be executed have no cycle |
| RestorePlan.VisitOperation | crates/reforge-domain/src/model.rs:1672-1694 | the depth-first search fails exactly on a cycle in reach and otherwise extends a topological order by what it visited |
| RestorePlan.VisitAll | crates/reforge-domain/src/model.rs:1551-1566 | over all operations the search reports a cycle exactly when the prerequisites have one |
| RestorePlan.OperationPrecedes | crates/reforge-domain/src/model.rs:1696-1716 | the backward search terminates on every graph and is true exactly on the transitive closure |
| RestorePlan.ValidateRestorePlan | crates/reforge-domain/src/model.rs:1527-1670 | the result, with its error code, is the declarative verdict on identities, prerequisites, cycles, objects, paths, policy and conflicts |
| PlanMeaning.AcceptanceByField | crates/reforge-domain/src/model.rs:1527-1670 | a plan is accepted if and only if, by constructor and field, identities and prerequisites are sound and acyclic, each named path is clean and object indexed, no file goes under Program Files or unelevated under ProgramData, no environment value is a secret, and writes that meet JSON or TOML merges are ordered |
| PlanMeaning.CodesByField | crates/reforge-domain/src/model.rs:1527-1670 | which of these faults gives which error code, the first unsound operation and rule deciding |
| RestorePlan.AcyclicPlansExecute | crates/reforge-domain/src/model.rs:1672-1694 | complete prerequisites without cycles have an execution |
| RestorePlan.AcceptanceIsDeterminism | crates/reforge-domain/src/model.rs:1640-1667 | a plan that passes every other check is accepted if and only if all executions perform each write and merge that overlap in one order |
| RestorePlan.TwoPlainWritesAreAccepted | crates/reforge-domain/src/model.rs:1640-1667 | an accepted plan with two unordered plain writes of one destination |
| RestorePlan.OverlapsAreFixedExactlyWhenLikeOnesAreOrdered | crates/reforge-domain/src/model.rs:1640-1667 | all executions of an accepted plan perform everything that overlaps in one order if and only if prerequisites relate each two overlapping writes and each two overlapping merges |
| Closure.ClosureIsLeast | crates/reforge-domain/src/selection.rs:71-103 | the closure contains the roots, is closed under required edges, and is the least such set |
| Closure.ClosureIsMonotone | crates/reforge-domain/src/selection.rs:71-103 | more roots, edges or components never shrink the closure |
| Closure.ClosureIsIdempotent | crates/reforge-domain/src/selection.rs:71-103 | closing the closure changes nothing |
| Closure.ClosureOfUnion | crates/reforge-domain/src/selection.rs:71-103 | closing several selections together is uniting their closures |
| Closure.RestrictionKeepsClosure | crates/reforge-cli/src/main.rs:2602-2620 | over the closure and its inner edges the roots close to the same set without loose ends |
| Selection.IndexEdges | crates/reforge-domain/src/selection.rs:243-276 | each stated edge is listed exactly under its source |
| Selection.CloseRequired | crates/reforge-domain/src/selection.rs:71-103 | the worklist computes the least closure; it fails for a dangling required edge or for more components than allowed, and for nothing else |
| Selection.CheckComponents | crates/reforge-domain/src/selection.rs:358-421 | component policies pass exactly when each selected component is allowed, and the warnings are exactly those called for |
| Selection.ChooseArtifacts | crates/reforge-domain/src/selection.rs:137-195 | artifacts are taken exactly when each pick is allowed and the sums fit, and then the sums are those of all picks |
| Selection.BuildSelectionClosure | crates/reforge-domain/src/selection.rs:54-204 | it succeeds exactly on the selectable inputs, with the declaratively determined record; auto-added is closure minus roots; the missing-dependency error is exact below the component limit; a refusal on policy or limits has a cause with its code |
| SelectionMeaning.ComponentVerdictMeaning | crates/reforge-domain/src/selection.rs:358-421 | sensitive and secret components need vault selection, unknown binaries portable selection and a safe hash; error code and warnings by field |
| SelectionMeaning.DecisionsMeaning | crates/reforge-domain/src/selection.rs:485-498 | a decided artifact is taken exactly as decided; of the others exactly configuration, data and exports up to 16 MiB |
| SelectionMeaning.ArtifactVerdictMeaning | crates/reforge-domain/src/selection.rs:423-483 | an artifact taken along needs a clean path, vault selection if secret, and a decision by name under confirmation if large; error code by field |
| SelectionMeaning.SelectableByField | crates/reforge-domain/src/selection.rs:54-204 | a selection resolves if and only if names and dependencies resolve, every selected component and taken artifact is permitted by its fields, and the four numeric limits are kept |
| SelectionMeaning.RecordByField | crates/reforge-domain/src/selection.rs:105-204 | the record holds exactly the closure, the artifacts taken, and the eight kinds of warnings that fields call for |
| SelectionOrder.OutcomeForgetsOrder | crates/reforge-domain/src/selection.rs:54-204 | the record is the same for every order of components, edges, roots and decisions |
| SelectionOrder.SelectionForgetsOrder | crates/reforge-domain/src/selection.rs:54-204 | whether a selection resolves does not depend on the order in which anything is listed |
| Repackage.BuildPackageInputs | crates/reforge-cli/src/main.rs:2593-2697 | the loops compute the restriction of graph and decisions to the record and fail exactly when an artifact taken along needs a vault, or the stored bytes overflow or pass the limit |
| Repackage.EdgeIsKept | crates/reforge-cli/src/main.rs:2602-2620 | exactly the edges with both ends taken along are kept, one by one and in order |
| Repackage.DecisionIsKept | crates/reforge-cli/src/main.rs:2597-2599 | exactly the decisions on artifacts taken along are kept, one by one and in order |
| Repackage.PackagedTotal | crates/reforge-cli/src/main.rs:2669-2690 | the bytes counted while packing are the stored sizes of the artifacts taken at selection |
| Repackage.ComponentsCloseAgain | crates/reforge-cli/src/main.rs:1816 | closing the packaged roots over the packaged graph gives the same components without loose ends |
| Repackage.RestoreReproducesSelection | crates/reforge-cli/src/main.rs:1816 | with unchanged sizes the packaged selection resolves again, to the same components, auto-added dependencies, artifacts and byte total, with no new warning |
| Repackage.ResizedSelectionIsReproducedExactlyWhenConfirmed | crates/reforge-cli/src/main.rs:2669-2697 | when contents were resized, the same artifacts are taken on restore if and only if those stored large were asked for by name under a policy that allows them, within the warning limit |
| Repackage.ResizedSelectionWarnsOfLargeOnly | crates/reforge-domain/src/selection.rs:449-481 | a confirmed selection of resized contents warns on restore of nothing new but artifacts stored large |
| Repackage.ConfirmationAloneDecides | crates/reforge-cli/src/main.rs:2669-2697 | when the recorded warnings and those for artifacts stored large stay within the warning limit, the same artifacts are taken on restore exactly when the large ones were confirmed |
| Repackage.ComponentsCloseAgainExactlyWhenLostEdgesAreBypassed | crates/reforge-cli/src/main.rs:2602-2633 | for any graph, the components close again exactly when each required dependency that only outsiders state leads to a component that dependencies stated by members reach from the roots |
| Repackage.ForeignEdgeIsLost | crates/reforge-cli/src/main.rs:2631-2633 | a graph on which a dependency added at backup is not added on restore |
| FileManifests.ChunksAreTheFullChunks | crates/reforge-package/src/content_store.rs:374-436 | the chunks are the one way to cut the content into parts of exactly 8 MiB and a shorter non-empty last one, and they concatenate to it |
| FileManifests.StoredManifestIsLawful | crates/reforge-package/src/writer.rs:675-709 | a stored file's manifest passes the chunk length rules, with sizes summing to the file size |
| FileManifests.ManifestLength | crates/reforge-package/src/content_store.rs:438-449 | the canonical text of a manifest exists, and its length lies between 101 and 107 characters a chunk, plus at most 120 |
| ManifestText.ManifestTextIs | crates/reforge-package/src/content_store.rs:438-449 | the canonical text of a manifest spelled out: four fields in key order, each chunk by identifier and length |
| ManifestText.DecimalMeaning | crates/reforge-package/src/content_store.rs:438-449 | sizes are written in decimal digits for exactly that number, without leading zero |
| FileManifests.DefaultLimitsHoldManifests | crates/reforge-package/src/content_store.rs:27-68 | under the default limits every permitted file has a manifest that fits; past 83,056 chunks one exceeds an 8 MiB object limit |
| ContentStore.FillChunk | crates/reforge-package/src/content_store.rs:700-711 | a chunk is filled to the limit or the end of the source, however short the reads |
| ContentStore.EnsureEof | crates/reforge-package/src/content_store.rs:713-722 | the probe succeeds exactly at the end of the source |
| ContentStore.BoundedStreamWriter.Write | crates/reforge-package/src/content_store.rs:104-123 | a write is refused exactly when it would pass the limit; count and digest cover exactly the forwarded bytes |
| ContentStore.BoundedStreamWriter.WriteAll | crates/reforge-package/src/content_store.rs:104-123 | all data is forwarded or none, whatever part the sink takes at a time |
| ContentStore.NewLimits | crates/reforge-package/src/content_store.rs:47-57 | limits are accepted exactly when every chunk of every file can be stored under them |
| ContentStore.ObjectStore.StageObject | crates/reforge-package/src/content_store.rs:513-584 | staging succeeds exactly for streams within the limit and of the expected identity, with a frame that expands to the stream |
| ContentStore.ObjectStore.CommitStaged | crates/reforge-package/src/content_store.rs:586-625 | an object becomes visible unless its name is taken; it fails exactly when the taken name holds damaged bytes |
| ContentStore.ObjectStore.PutObject | crates/reforge-package/src/content_store.rs:345-352 | a stream is stored exactly when it is within the object limit and its name is usable; nothing else changes |
| ContentStore.ObjectStore.PutKnownBytes | crates/reforge-package/src/content_store.rs:486-511 | the object is stored exactly when it fits and its name is usable; nothing else changes |
| ContentStore.ObjectStore.ReadChunk | crates/reforge-package/src/content_store.rs:386-411 | the read-limit arithmetic yields the next full or last chunk, or fails exactly when the file is too long |
| ContentStore.ObjectStore.StoreFile | crates/reforge-package/src/content_store.rs:374-449 | success exactly when file and manifest fit their limits and no needed name is damaged; manifest, entries and duplicate flags are functions of the content; a failure adds at most chunks and its code tells limits from damage |
| StoreProtocol.StepKeepsInvariant | crates/reforge-package/src/content_store.rs:486-698 | every step of every writer keeps: visible objects complete, staged files private to their writer, finished work visible; and leaves visible objects as they are |
| StoreProtocol.VisibleObjectsStand | crates/reforge-package/src/content_store.rs:486-647 | in every interleaving a visible object holds complete bytes that hash to its name, stays visible and never changes |
| StoreProtocol.ManifestComesAfterChunks | crates/reforge-package/src/content_store.rs:374-449 | once a writer is at the manifest of a file, all its chunks are visible and intact for good; once it is done, so is the manifest |
| StoreProtocol.ManifestTellsChunksExactlyWhenInOrder | crates/reforge-package/src/content_store.rs:374-449 | in every interleaving of writers that store given files a visible manifest implies its visible, intact chunks, if and only if in each of these files the manifest's bytes come after those chunks |
| StoreProtocol.DistinctChunksAreInOrder | crates/reforge-package/src/content_store.rs:374-449 | this is so for files that have no chunk equal to the manifest and, if it is their own, the same chunks |
| StoreProtocol.ManifestBytesMayComeAlone | crates/reforge-package/src/content_store.rs:1-8 | for every short file, a run that stores another file holding the first one's manifest and shows that manifest without the chunk it names |
| StoreProtocol.NeverRefused | crates/reforge-package/src/content_store.rs:586-647 | starting from intact objects no writer ever meets a damaged or vanished one |
| StoreProtocol.TempsAreInUse | crates/reforge-package/src/content_store.rs:586-625 | as long as no writer is lost, every temporary file is in use, so writers that are through leave none behind |
| StoreProtocol.WriterCanGoOn | crates/reforge-package/src/content_store.rs:486-625 | a writer with work left can always take a further step, whatever the others did |
| PackageObjects.IndexCovers | crates/reforge-cli/src/main.rs:2674-2687 | the collected index has the name of every entry of every stored file, and each of its entries is that of some file |
| PackageObjects.CollectObjects | crates/reforge-cli/src/main.rs:2674-2687 | the loop over files and chunks builds that index, later entries of one name replacing earlier ones |
| PackageObjects.StoredEntries | crates/reforge-package/src/writer.rs:686-701 | the entries returned for a stored file are those of its chunks, with their lengths and the file's content type |
| PackageObjects.ValidateFileManifest | crates/reforge-package/src/writer.rs:662-709 | a manifest passes exactly when size and type are the artifact's, the chunks are full, sum to the size, and are indexed with their length and type |
| PackageObjects.LoadFileManifests | crates/reforge-package/src/writer.rs:621-660 | reading each manifest once accepts exactly the files of which each would pass by itself |
| PackageObjects.ObjectsAreAcceptedExactlyWhen | crates/reforge-package/src/writer.rs:567-660 | stored files pass the checks on index, manifests and locations if and only if their manifests fit, no manifest is a chunk, and files that share a chunk have one content type |
| PackageObjects.OneContentOfTwoTypesIsRefused | crates/reforge-package/src/writer.rs:694-701 | the same non-empty bytes stored under two content types make the package fail |
| CanonicalJson.WriteValue | crates/reforge-package/src/canonical.rs:425-452 | what is appended to the shared output is the printed normal form, and it fails exactly when there is none |
| CanonicalJson.WriteObject | crates/reforge-package/src/canonical.rs:454-475 | members are written in key order, each under its own field rule |
| CanonicalJson.NormalOfSorted | crates/reforge-package/src/canonical.rs:454-475 | normalizing members after sorting equals sorting them after normalizing |
| CanonicalReading.ReadPrinted | crates/reforge-package/src/reader.rs:915-927 | a printed canonical value is read back, whatever follows it |
| CanonicalTheorems.SameTextExactlyWhenAlike | crates/reforge-package/src/canonical.rs:425-511 | two values have one canonical text if and only if they are equal up to member order and declared-field normalization |
| CanonicalTheorems.CanonicalTextIsFixed | crates/reforge-package/src/canonical.rs:425-511 | canonical text decodes to the normal form of its value, which encodes to the same text |
| CanonicalMinimal.TextIsShortest | crates/reforge-package/src/canonical.rs:507-511 | no JSON string that reads as a text is shorter than what is written for it, and one as short is the same up to the case of hex digits |
| CanonicalMinimal.EscapeIsLower | crates/reforge-package/src/canonical.rs:507-511 | escapes use lower-case hex digits, and only controls need them |
| CanonicalMinimal.PrintIsShortest | crates/reforge-package/src/canonical.rs:425-475 | no text with normal numerals reads as a value and is shorter than its canonical text |
| CanonicalMinimal.MembersInKeyOrder | crates/reforge-package/src/canonical.rs:454-475 | a written object holds all members, and at the first difference of two keys the earlier ends or has the smaller code point |
| CanonicalMinimal.FieldRules | crates/reforge-package/src/canonical.rs:490-542 | text is rewritten under eight timestamp names and four path names only |
| CanonicalTheorems.ReadCanonicalJson | crates/reforge-package/src/reader.rs:915-927 | a text is taken exactly when it is the canonical text of some JSON value, and read as that value's normal form |
| CentralDirectory.CentralEntrySizes | crates/reforge-package/src/reader.rs:1201-1246 | the cursor loop finds the sizes that the first ZIP64 field gives, or fails when it is missing or cut off |
| CentralDirectory.FieldReads | crates/reforge-package/src/reader.rs:1248-1258 | reading a little-endian field finds exactly the number written there |
| CentralDirectory.ParseIsExact | crates/reforge-package/src/reader.rs:1102-1150 | a header is parsed from bytes exactly when they begin with its encoding |
| CentralDirectory.AcceptsExactly | crates/reforge-package/src/reader.rs:1090-1195 | a region is accepted if and only if so many legal headers tile it without gap or overlap, with distinct folded names |
| DirectoryMeaning.NameMeaning | crates/reforge-package/src/reader.rs:1141-1150 | a name is safe exactly when no byte is NUL, backslash or colon and no stretch between slashes is empty, `.` or `..` |
| DirectoryMeaning.LegalMeaning | crates/reforge-package/src/reader.rs:1130-1187 | an entry is legal if and only if its name is short, safe and UTF-8, marked so by bit 11 unless ASCII, and it is stored unencrypted and uncompressed on this disk without comment, its two sizes equal |
| DirectoryMeaning.RecordsSpelled | crates/reforge-package/src/reader.rs:955-1055 | the bytes of the four signatures and the lengths of the fixed parts |
| CentralDirectory.ValidateCentralDirectoryEntries | crates/reforge-package/src/reader.rs:1090-1195 | the loop over file and cursors decides that acceptance |
| CentralDirectory.ReadEocd | crates/reforge-package/src/reader.rs:960-1002 | the backward search accepts only an end record in the last 22 bytes, on one disk and without comment |
| CentralDirectory.ReadZip64Record | crates/reforge-package/src/reader.rs:1022-1054 | the ZIP64 record is accepted exactly when it fills the space up to its locator and states one extent |
| CentralDirectory.PreflightCentralDirectory | crates/reforge-package/src/reader.rs:955-1088 | an archive passes if and only if legal headers tile its directory up to end records that describe it within the limits; no read is out of range on any bytes |
| PrintedDirectory.PrintedArchiveIsAccepted | crates/reforge-package/src/reader.rs:955-1195 | every directory printed from legal entries within the limits is accepted, plain or ZIP64, whatever each header holds in ignored fields |
| PrintedDirectory.LargeSizesAreRead | crates/reforge-package/src/reader.rs:1201-1246 | sizes too large for their fields are read back from the ZIP64 field |
| Utf8.AutomatonIsExact | crates/reforge-discovery/src/artifacts.rs:660-719 | the automaton ends between characters exactly on the encodings of sequences of Unicode scalar values |
| ContentProbes.MixedMeansSeveralKindsExactlyUnlessOnlyCr | crates/reforge-discovery/src/artifacts.rs:637-657 | the style is mixed exactly for files with several kinds of line endings, if and only if the file is not one with carriage returns and no line feed |
| ContentProbes.LoneCrIsCalledMixed | crates/reforge-discovery/src/artifacts.rs:637-657 | a file of one kind of line ending that is reported as mixed |
| ContentProbes.OneMoreByte | crates/reforge-discovery/src/artifacts.rs:722-745 | one more byte adds exactly the line ending it completes, of the right kind |
| ContentProbes.StyleMeaning | crates/reforge-discovery/src/artifacts.rs:637-657 | no style for files without LF and CR, LF for those with LF and no CR, CRLF exactly when both only occur as pairs |
| ContentProbes.ContentProbe.ObserveUtf8 | crates/reforge-discovery/src/artifacts.rs:660-719 | the fields step as the automaton does |
| ContentProbes.ContentProbe.Write | crates/reforge-discovery/src/artifacts.rs:722-745 | after any writes the fields sum up the concatenation of all bytes seen |
| ContentProbes.ContentProbe.Finish | crates/reforge-discovery/src/artifacts.rs:637-657 | NUL, UTF-8 validity, the three saturating counts and the style are those of the whole input |
| ContentProbes.Probe | crates/reforge-discovery/src/artifacts.rs:637-745 | the report is the same for every way of splitting the input |
| Base32.EncodeBase32Lower | crates/reforge-domain/src/ids.rs:474-498 | the loop, with fewer than five bits held between bytes, writes symbols that carry exactly the input bits and fewer than five zeros more |
| Base32.DecodeIsExact | crates/reforge-domain/src/ids.rs:474-498 | strict decoding accepts exactly the encodings and returns what was encoded |
| Base32.EncodingIsUnique | crates/reforge-domain/src/ids.rs:474-498 | n bytes have one encoding, of ceil(8n/5) symbols, shared by no other bytes |
| Base32.IdFromDigest | crates/reforge-domain/src/ids.rs:57-92 | the identifier of every 32-byte digest is accepted by the identifier grammar |
| Base32.AcceptedIdIsDigestExactlyWhenPadded | crates/reforge-domain/src/ids.rs:57-70 | an accepted identifier stands for a digest if and only if its last symbol is `a` or `q` |
| Recommend.ScoreIsChipSum | crates/reforge-discovery/src/recommend.rs:125-268 | every score is the sum of its chips and lies within -70 and 85, so nothing saturates |
| RecommendMeaning.ScoreMeaning | crates/reforge-discovery/src/recommend.rs:125-268 | base score and chips are those whose field conditions hold, with their weights; a component is allowed exactly when no field excludes it |
| Recommend.RecommendedIsLeast | crates/reforge-discovery/src/recommend.rs:50-91 | the recommended set is the least one holding the initial components and each allowed, then positive component that a different member requires |
| Recommend.IndexComponents | crates/reforge-discovery/src/recommend.rs:44-48 | an identifier stands for the last component that carries it |
| Recommend.RequiredDependencies | crates/reforge-discovery/src/recommend.rs:270-289 | the index lists exactly the required edges between known identifiers |
| Recommend.Promote | crates/reforge-discovery/src/recommend.rs:50-91 | the worklist ends, in whatever order targets are taken, at the fixed point with each raise given once |
| Recommend.FinalMeaning | crates/reforge-discovery/src/recommend.rs:50-91 | at the end a component is recommended exactly when in the least set, its score is its base score plus 20 exactly when a different recommended component requires it, and within -70 and 105 |
| Recommend.Recommendations | crates/reforge-discovery/src/recommend.rs:40-113 | the output is the fixed point ranked by score, category and identifier |
| RecommendMeaning.RankingIsComplete | crates/reforge-discovery/src/recommend.rs:93-112 | every component comes out once, by falling score, then kinds as declared, then identifier |
| RecommendMeaning.RecommendationsByField | crates/reforge-discovery/src/recommend.rs:32-112 | each result is recommended if and only if no field excludes its component (secret, large, bound, privileged or manual) and its score is positive; score and chips are those of the fields, with 20 more exactly when a different recommended component needs it |
| Recommend.RankingForgetsOrder | crates/reforge-discovery/src/recommend.rs:40-113 | with distinct identifiers the ranking does not depend on the order of components or edges |
| ValueFilter.CollectUnsafeValuePaths | crates/reforge-cli/src/main.rs:2277-2319 | the recursion adds exactly the collected paths to the shared set |
| ValueFilter.UnsafeValuePaths | crates/reforge-cli/src/main.rs:2271-2275 | the paths collected from the root, at depth zero |
| ValueFilter.FilteredIsPruned | crates/reforge-cli/src/main.rs:2277-2355 | filtering by the collected paths equals leaving unsafe parts out in one pass |
| ValueFilter.LeftOutExactly | crates/reforge-cli/src/main.rs:2277-2331 | what is left out is exactly what is too deep, redacted or unstable text, an object that stands for a secret, or stands under a sensitive key |
| ValueFilter.ScreeningIsSafe | crates/reforge-cli/src/main.rs:2271-2355 | what is left has no sensitive key, no unstable text and nothing too deep; it is the input itself exactly when nothing was collected |
| ValueFilter.FilterKeepsOpenLeaves | crates/reforge-cli/src/main.rs:2333-2355 | for any blocked set, the remaining leaves are exactly those with no blocked path on their way, in order |
| ValueFilter.RescanIsEmptyExactlyWithoutNewMarkers | crates/reforge-cli/src/main.rs:2321-2355 | screening again finds nothing if and only if the value, as it came in, holds no kept object whose members are all left out beside `redacted: true` |
| ValueFilter.RescanCanFindMore | crates/reforge-cli/src/main.rs:2321-2331 | an object that becomes a marker when the field beside it is left out |

## Left out

- Foreign and presentation code: scanning adapters, the registry, WinRT, named pipes, the elevation helper, terminal and desktop front ends, reports, signatures, the journal, executor and planner. An execution is any linear order that respects prerequisites.
- Merging of component fields in `merge_component` and the uniqueness of merged component IDs.
- Identifiers as text, except in `Base32`: elsewhere they are natural numbers, so the order among them is the order of numbers.
- Unicode case folding, whitespace trimming beyond ASCII, and normalization: case is folded for ASCII letters, and the preflight takes folding as a parameter.
- Timestamp parsing, float formatting, BLAKE3, zstd and the redaction scanner: parameters with the properties named above.
- Iteration order of ordered maps: where the source visits map entries in ID order, dedup visits keys of a tier in any order, selection visits artifacts in inventory order, and recommendation visits targets in any order. Results are proved equal for all orders; only which of several errors is reported first is not compared.
- Texts behind some facts of a component: safe executable hash, reported source and signature, reachability and size hints are booleans, and sanitizing extensions on the way into a package is taken to keep them.
- The review step before packaging, screening of artifact contents and metadata on the way into a package, and the safe configuration it adds to a component: `Repackage` takes the stored sizes as they come out.
- Warning texts of the selection: warnings are values of a datatype, which identify the text.
- I/O errors, interrupted reads, access checks on directories and files, and durability after a power loss.
- CanonicalTheorems.ReadCanonicalJson: the source decodes into the type of the document and so refuses canonical text of another shape; schemas are not modelled, the decoder here reads any RFC 8259 value, without a recursion limit.
- Bridging.BridgeNeedsClaim: one way only when several providers claim a package family; facts on lower tiers and the order of keys then decide which of them a component joins. For one claimant `Bridging.FamilyConflictIsBridgedExactlyByClaim` is exact.
- PackageObjects.ObjectsAreAcceptedExactlyWhen: decoding a manifest's bytes is a parameter that gives back what was stored, one name has one compressed length, and the bytes of objects are taken as intact.
- CentralDirectory.PreflightCentralDirectory: refusal is exact, but which of its two error codes a refused archive gets is stated only for the checks on one header and its sizes (`CentralDirectory.CheckEntry`).
- Local file headers, CRC checks and object paths of the archive: only the central directory is checked here.
- Repackage.RestoreReproducesSelection: requires that embedded edges leave the component that holds them, which the dedup output satisfies; the case without it is `Repackage.ComponentsCloseAgainExactlyWhenLostEdgesAreBypassed`.
- Scheduling: a writer is never stuck, but that it gets to run is not modelled. The single-writer methods of `ContentStore` run to their end without interference; interference is the subject of `StoreProtocol`.
