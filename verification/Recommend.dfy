/** Automatic recommendations (crates/reforge-discovery/src/recommend.rs): a
    score per component, and promotion of required dependencies to a fixed
    point. */
module Recommend {
  import opened Wrappers
  import opened Graphs
  import opened Closure
  import Selection
  import opened Sorting

  const DEFAULT_LARGE_ARTIFACT_THRESHOLD_BYTES: nat := 16 * 1024 * 1024

  datatype Kind =
    | Application | Package | Runtime | Tool | Harness | McpServer | Skill | Agent | Hook | Plugin | Browser | BrowserProfile
    | Editor | Extension | Configuration | DataArtifact | SecretReference | EnvironmentVariable | SystemFeature | Service
    | ScheduledTask | Shell | PortableBinaryKind | WslDistribution | DockerContext | DockerImage | DockerVolume | UnknownKind

  datatype Confidence = Confirmed | High | Medium | Low | UnknownConfidence

  datatype Portability =
    | Portable | SupportedExport | SyncRestorable | PartiallyPortable | ApplicationBound | UserBound | MachineBoundState
    | ReauthRequiredState | Unsupported | UnknownPortability

  datatype Strategy =
    | Reinstall | ConfigPortable | DataPortable | ExportImport | PortableBinary | SecretExportable | ReauthRequired
    | MachineBound | Partial | Manual | UnknownStrategy

  datatype Artifact = Artifact(policy: Selection.ArtifactPolicy, sizeBytes: nat)

  datatype Edge = Edge(from: nat, to: nat, required: bool)

  /** `name` stands for the rank of the display name; `reachable` for an
      observed reachability hint or start-menu rule; `reproducible` for a source
      URL or a named package of a provider; `largeHint` for the extension flag. */
  datatype Component = Component(
    id: nat,
    kind: Kind,
    name: nat,
    confidence: Confidence,
    portability: Portability,
    primary: Strategy,
    restoreElevated: bool,
    compatibilityElevated: bool,
    sensitive: bool,
    sizeBytes: nat,
    artifacts: seq<Artifact>,
    reachable: bool,
    reproducible: bool,
    largeHint: bool,
    dependencies: seq<Edge>)

  datatype Graph = Graph(components: seq<Component>, edges: seq<Edge>)

  datatype Code =
    | ConfirmedIdentity | ReachableExecutable | RequiredDependency | PortableConfiguration | UserFacingCategory
    | ReproducibleSource | MachineAccountBound | ManualPrivileged | LargeData | UnknownSource | SensitiveExcluded | NoSignal

  datatype Chip = Chip(code: Code, delta: int)

  datatype Scored = Scored(component: Component, score: int, chips: seq<Chip>, autoAllowed: bool, recommended: bool, promoted: bool)

  // ---------------------------------------------------------------- scores

  /** 16-bit saturating addition. */
  function Saturating(n: int): int {
    if n > 32767 then 32767 else if n < -32768 then -32768 else n
  }

  predicate IsLarge(c: Component) {
    c.sizeBytes > DEFAULT_LARGE_ARTIFACT_THRESHOLD_BYTES
    || (exists a :: a in c.artifacts && (a.sizeBytes > DEFAULT_LARGE_ARTIFACT_THRESHOLD_BYTES || a.policy == Selection.LargeOptIn))
    || c.largeHint
  }

  predicate IsSensitive(c: Component) {
    c.sensitive || c.kind == SecretReference || c.primary == SecretExportable
    || exists a :: a in c.artifacts && a.policy == Selection.SecretReference
  }

  predicate IsMachineOrAccountBound(c: Component) {
    c.portability == MachineBoundState || c.portability == UserBound || c.portability == ApplicationBound
    || c.portability == ReauthRequiredState || c.primary == MachineBound || c.primary == ReauthRequired
  }

  predicate IsManualOrPrivileged(c: Component) {
    c.restoreElevated || c.compatibilityElevated
    || c.primary == Manual || c.primary == PortableBinary || c.primary == Partial || c.primary == UnknownStrategy
    || c.kind == Service || c.kind == ScheduledTask || c.kind == SystemFeature
  }

  predicate HasPortableConfiguration(c: Component) {
    c.primary == ConfigPortable || c.primary == ExportImport
    || exists a :: a in c.artifacts && (a.policy == Selection.Config || a.policy == Selection.Export)
  }

  predicate IsConfirmed(c: Component) {
    (c.kind == Package || c.kind == Application) && c.confidence == Confirmed
  }

  predicate IsUserFacing(c: Component) {
    c.kind == Application || c.kind == Editor || c.kind == Browser || c.kind == Harness
  }

  predicate IsUncertain(c: Component) {
    c.confidence == Low || c.confidence == UnknownConfidence || !c.reproducible
  }

  predicate AutoAllowed(c: Component) {
    !IsSensitive(c) && !IsLarge(c) && !IsMachineOrAccountBound(c) && !IsManualOrPrivileged(c) && c.primary != SecretExportable
  }

  function AddChip(s: (int, seq<Chip>), condition: bool, code: Code, delta: int): (int, seq<Chip>) {
    if condition then (Saturating(s.0 + delta), s.1 + [Chip(code, delta)]) else s
  }

  /** What speaks for a component. */
  function Gains(c: Component): (int, seq<Chip>) {
    var s := AddChip((0, []), IsConfirmed(c), ConfirmedIdentity, 30);
    var s := AddChip(s, c.reachable, ReachableExecutable, 20);
    var s := AddChip(s, HasPortableConfiguration(c), PortableConfiguration, 15);
    var s := AddChip(s, IsUserFacing(c), UserFacingCategory, 10);
    AddChip(s, c.reproducible, ReproducibleSource, 10)
  }

  /** And what speaks against it. */
  function Losses(s: (int, seq<Chip>), c: Component): (int, seq<Chip>) {
    var s := AddChip(s, IsMachineOrAccountBound(c), MachineAccountBound, -25);
    var s := AddChip(s, IsManualOrPrivileged(c), ManualPrivileged, -20);
    var s := AddChip(s, IsLarge(c), LargeData, -15);
    AddChip(s, IsUncertain(c), UnknownSource, -10)
  }

  function Notes(s: (int, seq<Chip>), c: Component): (int, seq<Chip>) {
    var s := AddChip(s, IsSensitive(c), SensitiveExcluded, 0);
    AddChip(s, s.1 == [], NoSignal, 0)
  }

  function ScoreComponent(c: Component): Scored {
    var s := Notes(Losses(Gains(c), c), c);
    Scored(c, s.0, s.1, AutoAllowed(c), AutoAllowed(c) && s.0 > 0, false)
  }

  function ChipSum(chips: seq<Chip>): int {
    if chips == [] then 0 else ChipSum(chips[..|chips| - 1]) + chips[|chips| - 1].delta
  }

  /** Score and chips so far: the sum is exact and within these bounds. */
  predicate Tallied(s: (int, seq<Chip>), low: int, high: int) {
    s.0 == ChipSum(s.1) && low <= s.0 <= high
  }

  lemma TallyOneMore(s: (int, seq<Chip>), condition: bool, code: Code, delta: int, low: int, high: int)
    requires Tallied(s, low, high) && -1000 <= low && high <= 1000 && -100 <= delta <= 100
    ensures Tallied(AddChip(s, condition, code, delta), if delta < 0 then low + delta else low, if delta > 0 then high + delta else high)
  {
    assert (s.1 + [Chip(code, delta)])[..|s.1|] == s.1;
  }

  /** Every score is the sum of its chips, far from where 16 bits saturate. */
  lemma ScoreIsChipSum(c: Component)
    ensures var s := ScoreComponent(c); s.score == ChipSum(s.chips) && -70 <= s.score <= 85
    ensures ScoreComponent(c).component == c && !ScoreComponent(c).promoted && ScoreComponent(c).chips != []
  {
    GainsTally(c);
    LossesTally(Gains(c), c);
    NotesTally(Losses(Gains(c), c), c);
    hide Gains, Losses, AutoAllowed;
  }

  lemma GainsTally(c: Component)
    ensures Tallied(Gains(c), 0, 85)
  {
    hide HasPortableConfiguration, IsConfirmed, IsUserFacing, Tallied, AddChip;
    assert Tallied((0, []), 0, 0) by { NothingTallied(); }
    TallyOneMore((0, []), IsConfirmed(c), ConfirmedIdentity, 30, 0, 0);
    var s := AddChip((0, []), IsConfirmed(c), ConfirmedIdentity, 30);
    TallyOneMore(s, c.reachable, ReachableExecutable, 20, 0, 30);
    var s' := AddChip(s, c.reachable, ReachableExecutable, 20);
    TallyOneMore(s', HasPortableConfiguration(c), PortableConfiguration, 15, 0, 50);
    var s'' := AddChip(s', HasPortableConfiguration(c), PortableConfiguration, 15);
    TallyOneMore(s'', IsUserFacing(c), UserFacingCategory, 10, 0, 65);
    TallyOneMore(AddChip(s'', IsUserFacing(c), UserFacingCategory, 10), c.reproducible, ReproducibleSource, 10, 0, 75);
  }

  lemma NothingTallied()
    ensures Tallied((0, []), 0, 0)
  {
  }

  lemma LossesTally(s: (int, seq<Chip>), c: Component)
    requires Tallied(s, 0, 85)
    ensures Tallied(Losses(s, c), -70, 85)
  {
    hide IsLarge, IsMachineOrAccountBound, IsManualOrPrivileged, IsUncertain, Tallied, AddChip;
    TallyOneMore(s, IsMachineOrAccountBound(c), MachineAccountBound, -25, 0, 85);
    var s' := AddChip(s, IsMachineOrAccountBound(c), MachineAccountBound, -25);
    TallyOneMore(s', IsManualOrPrivileged(c), ManualPrivileged, -20, -25, 85);
    var s'' := AddChip(s', IsManualOrPrivileged(c), ManualPrivileged, -20);
    TallyOneMore(s'', IsLarge(c), LargeData, -15, -45, 85);
    TallyOneMore(AddChip(s'', IsLarge(c), LargeData, -15), IsUncertain(c), UnknownSource, -10, -60, 85);
  }

  lemma NotesTally(s: (int, seq<Chip>), c: Component)
    requires Tallied(s, -70, 85)
    ensures Tallied(Notes(s, c), -70, 85) && Notes(s, c).1 != []
  {
    hide IsSensitive;
    TallyOneMore(s, IsSensitive(c), SensitiveExcluded, 0, -70, 85);
    var s' := AddChip(s, IsSensitive(c), SensitiveExcluded, 0);
    TallyOneMore(s', s'.1 == [], NoSignal, 0, -70, 85);
  }

  // ---------------------------------------------------------------- what the fixed point is

  type Id = nat

  /** An identifier stands for the last component that carries it. */
  predicate Stands(components: seq<Component>, t: nat) {
    t < |components| && forall j :: t < j < |components| ==> components[j].id != components[t].id
  }

  function Embedded(components: seq<Component>): (edges: seq<Edge>) {
    if components == [] then []
    else Embedded(components[..|components| - 1]) + components[|components| - 1].dependencies
  }

  function AllEdges(graph: Graph): seq<Edge> {
    graph.edges + Embedded(graph.components)
  }

  ghost predicate Requires(edges: seq<Edge>, from: Id, to: Id) {
    Edge(from, to, true) in edges
  }

  /** One component requires another. */
  ghost function Pairs(components: seq<Component>, edges: seq<Edge>): Edges {
    set s: nat, t: nat | s < |components| && t < |components| && s != t && Stands(components, t)
      && Requires(edges, components[s].id, components[t].id) :: (s, t)
  }

  function Base(components: seq<Component>): (base: seq<Scored>)
    ensures |base| == |components| && forall i :: 0 <= i < |base| ==> base[i] == ScoreComponent(components[i])
  {
    seq(|components|, i requires 0 <= i < |components| => ScoreComponent(components[i]))
  }

  /** Recommended once required. */
  predicate Promotable(s: Scored) {
    s.autoAllowed && Saturating(s.score + 20) > 0
  }

  /** The effect of being required by a recommended component. */
  function Raised(s: Scored): Scored {
    var (score, chips) := AddChip((s.score, s.chips), true, RequiredDependency, 20);
    s.(score := score, chips := chips, promoted := true, recommended := s.recommended || (s.autoAllowed && score > 0))
  }

  ghost function Seeds(base: seq<Scored>): set<nat> {
    set i: nat | i < |base| && base[i].recommended
  }

  ghost function Promoting(base: seq<Scored>, pairs: Edges): Edges {
    set p | p in pairs && p.1 < |base| && Promotable(base[p.1])
  }

  ghost function All(n: nat): (all: set<nat>)
    ensures forall i: nat :: i in all <==> i < n
  {
    if n == 0 then {} else All(n - 1) + {n - 1}
  }

  /** The least set that holds the initially recommended components and each
      promotable one that a different member requires. */
  ghost function Recommended(base: seq<Scored>, pairs: Edges): set<nat> {
    ClosureOf(Promoting(base, pairs), All(|base|), Seeds(base))
  }

  /** Whatever a recommended component requires. */
  ghost function Required(pairs: Edges, recommended: set<nat>): set<nat> {
    set p | p in pairs && p.0 in recommended :: p.1
  }

  /** Scores with exactly these components raised, each once. */
  ghost predicate RaisedAt(scored: seq<Scored>, base: seq<Scored>, raised: set<nat>) {
    |scored| == |base| && forall i :: 0 <= i < |base| ==> scored[i] == if i in raised then Raised(base[i]) else base[i]
  }

  lemma RecommendedIsLeast(base: seq<Scored>, pairs: Edges)
    ensures var r := Recommended(base, pairs);
      && Seeds(base) <= r <= All(|base|)
      && (forall s, t :: s in r && (s, t) in pairs && t < |base| && Promotable(base[t]) ==> t in r)
      && forall other :: Seeds(base) <= other && (forall s, t :: s in other && (s, t) in pairs && t < |base| && Promotable(base[t]) ==> t in other) ==> r <= other
  {
    var promoting, all, seeds := Promoting(base, pairs), All(|base|), Seeds(base);
    var r := Recommended(base, pairs);
    ClosureIsLeast(promoting, all, seeds);
    forall s, t | s in r && (s, t) in pairs && t < |base| && Promotable(base[t]) ensures t in r {
      assert (s, t) in Inner(promoting, all);
    }
    forall other | Seeds(base) <= other && (forall s, t :: s in other && (s, t) in pairs && t < |base| && Promotable(base[t]) ==> t in other)
      ensures r <= other
    {
      assert Closed(Inner(promoting, all), other);
    }
  }

  // ---------------------------------------------------------------- the worklist

  /** State of the worklist: nothing is raised without cause, and all that a
      settled recommended component requires is raised. */
  ghost predicate Working(base: seq<Scored>, pairs: Edges, scored: seq<Scored>, raised: set<nat>, queue: seq<nat>) {
    && (forall i :: 0 <= i < |base| ==> !base[i].promoted)
    && RaisedAt(scored, base, raised)
    && raised <= Required(pairs, Recommended(base, pairs))
    && (forall s :: s in queue ==> s < |base| && scored[s].recommended)
    && (forall s, t :: 0 <= s < |base| && scored[s].recommended && s !in queue && (s, t) in pairs ==> t in raised)
  }

  ghost predicate InRange(pairs: Edges, n: nat) {
    forall s, t :: (s, t) in pairs ==> s < n && t < n
  }

  lemma OnlyMembersAreRecommended(base: seq<Scored>, pairs: Edges, scored: seq<Scored>, raised: set<nat>)
    requires RaisedAt(scored, base, raised) && raised <= Required(pairs, Recommended(base, pairs))
    ensures forall i :: 0 <= i < |base| && scored[i].recommended ==> i in Recommended(base, pairs)
  {
    RecommendedIsLeast(base, pairs);
    forall i | 0 <= i < |base| && scored[i].recommended ensures i in Recommended(base, pairs) {
      if i in raised && i !in Seeds(base) {
        var s: nat :| (s, i) in pairs && s in Recommended(base, pairs);
        assert Promotable(base[i]);
      }
    }
  }

  /** With an empty queue the fixed point is reached. */
  lemma WorkIsDone(base: seq<Scored>, pairs: Edges, scored: seq<Scored>, raised: set<nat>)
    requires Working(base, pairs, scored, raised, []) && InRange(pairs, |base|)
    ensures forall i: nat :: i < |base| ==> (scored[i].recommended <==> i in Recommended(base, pairs))
    ensures raised == Required(pairs, Recommended(base, pairs))
  {
    var r := Recommended(base, pairs);
    RecommendedIsLeast(base, pairs);
    OnlyMembersAreRecommended(base, pairs, scored, raised);
    var marked := set i: nat | i < |base| && scored[i].recommended;
    assert Seeds(base) <= marked;
    assert forall s, t :: s in marked && (s, t) in pairs && t < |base| && Promotable(base[t]) ==> t in marked;
    assert r <= marked;
    assert Required(pairs, r) <= raised;
  }

  lemma OneMoreRaised(base: seq<Scored>, pairs: Edges, scored: seq<Scored>, raised: set<nat>, queue: seq<nat>, source: nat, target: nat)
    requires Working(base, pairs, scored, raised, [source] + queue)
    requires (source, target) in pairs && target < |base| && target !in raised
    ensures scored[target] == base[target]
    ensures var next := Raised(base[target]);
      var queue' := if next.recommended && !base[target].recommended then queue + [target] else queue;
      Working(base, pairs, scored[target := next], raised + {target}, [source] + queue')
  {
    OnlyMembersAreRecommended(base, pairs, scored, raised);
    assert source in [source] + queue;
    assert source in Recommended(base, pairs);
    hide Required, Recommended;
    TargetIsRequired(pairs, Recommended(base, pairs), source, target);
    var next := Raised(base[target]);
    hide Raised;
    var queue' := if next.recommended && !base[target].recommended then queue + [target] else queue;
    assert forall x :: x in [source] + queue' <==> x in [source] + queue || (x == target && next.recommended && !base[target].recommended);
    assert base[target].recommended ==> next.recommended by { RaisingKeeps(base[target]); }
  }

  lemma RaisingKeeps(s: Scored)
    ensures s.recommended ==> Raised(s).recommended
  {
  }

  lemma TargetIsRequired(pairs: Edges, r: set<nat>, s: nat, t: nat)
    requires (s, t) in pairs && s in r
    ensures t in Required(pairs, r)
  {
    assert (s, t).1 == t;
  }

  // ---------------------------------------------------------------- running it

  lemma PromotedAreRaised(base: seq<Scored>, pairs: Edges, scored: seq<Scored>, raised: set<nat>, queue: seq<nat>)
    requires Working(base, pairs, scored, raised, queue)
    ensures |scored| == |base| && forall i: nat :: i < |base| ==> (scored[i].promoted <==> i in raised)
  {
  }

  type Indexes = map<Id, nat>

  /** Each identifier is indexed at the component it stands for. */
  ghost predicate Indexed(components: seq<Component>, indexes: Indexes) {
    && (forall id :: id in indexes <==> exists c :: c in components && c.id == id)
    && (forall id :: id in indexes ==> indexes[id] < |components| && components[indexes[id]].id == id && Stands(components, indexes[id]))
  }

  lemma IndexedOneMore(components: seq<Component>, c: Component, indexes: Indexes)
    requires Indexed(components, indexes)
    ensures Indexed(components + [c], indexes[c.id := |components|])
  {
    var more, indexes' := components + [c], indexes[c.id := |components|];
    forall id ensures id in indexes' <==> exists x :: x in more && x.id == id {
      if id in indexes' {
        if id == c.id { assert c in more; }
        else { var x :| x in components && x.id == id; assert x in more; }
      }
    }
    forall id | id in indexes' ensures indexes'[id] < |more| && more[indexes'[id]].id == id && Stands(more, indexes'[id]) {
      if id != c.id { assert Stands(components, indexes[id]); }
    }
  }

  /** Each identifier's component. */
  method IndexComponents(components: seq<Component>) returns (indexes: Indexes)
    ensures Indexed(components, indexes)
  {
    indexes := map[];
    for n := 0 to |components|
      invariant Indexed(components[..n], indexes)
    {
      hide Indexed;
      IndexedOneMore(components[..n], components[n], indexes);
      assert components[..n] + [components[n]] == components[..n + 1];
      indexes := indexes[components[n].id := n];
    }
    assert components[..|components|] == components;
  }

  type Dependencies = map<Id, set<Id>>

  ghost predicate ListedRightly(dependencies: Dependencies, edges: seq<Edge>, indexes: Indexes, a: Id, b: Id) {
    (a in dependencies && b in dependencies[a]) <==> (Requires(edges, a, b) && a in indexes && b in indexes)
  }

  ghost predicate Lists(dependencies: Dependencies, edges: seq<Edge>, indexes: Indexes) {
    forall a, b :: ListedRightly(dependencies, edges, indexes, a, b)
  }

  predicate Counts(edge: Edge, indexes: Indexes) {
    edge.required && edge.from in indexes && edge.to in indexes
  }

  function WithTarget(required: Dependencies, edge: Edge): Dependencies {
    required[edge.from := (if edge.from in required then required[edge.from] else {}) + {edge.to}]
  }

  lemma ListsOneMore(required: Dependencies, edges: seq<Edge>, indexes: Indexes, edge: Edge)
    requires Lists(required, edges, indexes)
    ensures Lists(if Counts(edge, indexes) then WithTarget(required, edge) else required, edges + [edge], indexes)
  {
    var required' := if Counts(edge, indexes) then WithTarget(required, edge) else required;
    forall a, b ensures ListedRightly(required', edges + [edge], indexes, a, b) {
      assert ListedRightly(required, edges, indexes, a, b);
      assert Requires(edges + [edge], a, b) <==> Requires(edges, a, b) || edge == Edge(a, b, true);
    }
  }

  lemma NothingListed(edges: seq<Edge>, indexes: Indexes)
    requires edges == []
    ensures Lists(map[], edges, indexes)
  {
  }

  method RequiredDependencies(edges: seq<Edge>, indexes: Indexes) returns (required: Dependencies)
    ensures Lists(required, edges, indexes)
  {
    required := map[];
    hide Lists;
    assert Lists(required, edges[..0], indexes) by { NothingListed(edges[..0], indexes); }
    for n := 0 to |edges|
      invariant Lists(required, edges[..n], indexes)
    {
      var edge := edges[n];
      assert edges[..n + 1] == edges[..n] + [edge];
      ListsOneMore(required, edges[..n], indexes, edge);
      if Counts(edge, indexes) { required := WithTarget(required, edge); }
    }
    assert edges[..|edges|] == edges;
  }

  /** Raise what one recommended component requires; the order is immaterial. */
  method PromoteTargets(base: seq<Scored>, ghost pairs: Edges, source: nat, targets: set<Id>, indexes: Indexes, scored: seq<Scored>,
                        ghost raised: set<nat>, queue: seq<nat>)
    returns (scored': seq<Scored>, ghost raised': set<nat>, queue': seq<nat>)
    requires Working(base, pairs, scored, raised, [source] + queue)
    requires forall id :: id in targets && id in indexes ==> indexes[id] < |base| && (indexes[id] != source ==> (source, indexes[id]) in pairs)
    ensures Working(base, pairs, scored', raised', [source] + queue')
    ensures raised <= raised' && forall id :: id in targets && id in indexes && indexes[id] != source ==> indexes[id] in raised'
    ensures raised' == raised ==> queue' == queue
  {
    scored', raised', queue' := scored, raised, queue;
    var todo := targets;
    while todo != {}
      invariant todo <= targets && Working(base, pairs, scored', raised', [source] + queue')
      invariant raised <= raised' && forall id :: id in targets && id !in todo && id in indexes && indexes[id] != source ==> indexes[id] in raised'
      invariant raised' == raised ==> queue' == queue
      decreases todo
    {
      var id :| id in todo;
      todo := todo - {id};
      PromotedAreRaised(base, pairs, scored', raised', [source] + queue');
      if id in indexes && indexes[id] != source && !scored'[indexes[id]].promoted {
        var target := indexes[id];
        OneMoreRaised(base, pairs, scored', raised', queue', source, target);
        var was := scored'[target];
        scored' := scored'[target := Raised(was)];
        raised' := raised' + {target};
        if scored'[target].recommended && !was.recommended { queue' := queue' + [target]; }
      }
    }
  }

  /** Scores at the fixed point. */
  ghost function Final(base: seq<Scored>, pairs: Edges): (scored: seq<Scored>)
    ensures |scored| == |base|
  {
    seq(|base|, i requires 0 <= i < |base| => if i in Required(pairs, Recommended(base, pairs)) then Raised(base[i]) else base[i])
  }

  /** Positions of the initially recommended components. */
  function Initial(base: seq<Scored>, n: nat): (queue: seq<nat>)
    requires n <= |base|
    ensures forall i: nat :: i in queue <==> (i < n && base[i].recommended)
  {
    if n == 0 then [] else Initial(base, n - 1) + (if base[n - 1].recommended then [n - 1] else [])
  }

  lemma SettleSource(base: seq<Scored>, pairs: Edges, scored: seq<Scored>, raised: set<nat>, source: nat, queue: seq<nat>)
    requires Working(base, pairs, scored, raised, [source] + queue)
    requires forall t :: (source, t) in pairs ==> t in raised
    ensures Working(base, pairs, scored, raised, queue)
  {
    assert forall s :: s in [source] + queue <==> s == source || s in queue;
  }

  lemma PairsAreInRange(components: seq<Component>, edges: seq<Edge>)
    ensures InRange(Pairs(components, edges), |components|)
  {
  }

  /** Promote to the fixed point. */
  method Promote(components: seq<Component>, edges: seq<Edge>) returns (scored: seq<Scored>)
    ensures scored == Final(Base(components), Pairs(components, edges))
  {
    var indexes := IndexComponents(components);
    hide Working, Pairs, Base, All, Final, Initial, InRange, Lists, Stands, Indexed, TargetsOf;
    var base := Base(components);
    ghost var pairs := Pairs(components, edges);
    var required := RequiredDependencies(edges, indexes);
    var queue := Initial(base, |base|);
    scored := base;
    ghost var raised: set<nat> := {};
    PairsAreInRange(components, edges);
    WorkBegins(components, pairs);
    while queue != []
      invariant Working(base, pairs, scored, raised, queue) && raised <= All(|base|)
      decreases All(|base|) - raised, |queue|
    {
      var source := queue[0];
      assert [source] + queue[1..] == queue;
      QueuedIsInRange(base, pairs, scored, raised, queue);
      var sourceId := components[source].id;
      var targets := TargetsOf(required, sourceId);
      TargetsArePairs(components, edges, indexes, required, source);
      ghost var before := raised;
      scored, raised, queue := PromoteTargets(base, pairs, source, targets, indexes, scored, raised, queue[1..]);
      SettleSource(base, pairs, scored, raised, source, queue);
      RaisedAreInRange(base, pairs, scored, raised, queue);
      assert before != raised ==> All(|base|) - raised < All(|base|) - before;
    }
    assert queue == [];
    WorkEnds(base, pairs, scored, raised);
  }

  lemma WorkBegins(components: seq<Component>, pairs: Edges)
    ensures var base := Base(components); Working(base, pairs, base, {}, Initial(base, |base|))
  {
    hide ScoreComponent, Required, Recommended;
    var base := Base(components);
    forall i | 0 <= i < |base| ensures !base[i].promoted { ScoreIsChipSum(components[i]); }
  }

  lemma WorkEnds(base: seq<Scored>, pairs: Edges, scored: seq<Scored>, raised: set<nat>)
    requires Working(base, pairs, scored, raised, []) && InRange(pairs, |base|)
    ensures scored == Final(base, pairs)
  {
    WorkIsDone(base, pairs, scored, raised);
    hide Raised, Required, Recommended;
  }

  lemma QueuedIsInRange(base: seq<Scored>, pairs: Edges, scored: seq<Scored>, raised: set<nat>, queue: seq<nat>)
    requires Working(base, pairs, scored, raised, queue) && queue != []
    ensures queue[0] < |base|
  {
    assert queue[0] in queue;
  }

  lemma RaisedAreInRange(base: seq<Scored>, pairs: Edges, scored: seq<Scored>, raised: set<nat>, queue: seq<nat>)
    requires Working(base, pairs, scored, raised, queue) && InRange(pairs, |base|)
    ensures raised <= All(|base|)
  {
    hide Recommended;
  }

  function TargetsOf(required: Dependencies, id: Id): set<Id> {
    if id in required then required[id] else {}
  }

  lemma TargetIsPair(components: seq<Component>, edges: seq<Edge>, indexes: Indexes, required: Dependencies, source: nat, to: Id)
    requires source < |components| && Lists(required, edges, indexes) && Indexed(components, indexes)
    requires to in TargetsOf(required, components[source].id) && to in indexes && indexes[to] != source
    ensures (source, indexes[to]) in Pairs(components, edges)
  {
    assert ListedRightly(required, edges, indexes, components[source].id, to);
  }

  lemma PairIsTarget(components: seq<Component>, edges: seq<Edge>, indexes: Indexes, required: Dependencies, source: nat, t: nat)
    requires source < |components| && Lists(required, edges, indexes) && Indexed(components, indexes)
    requires (source, t) in Pairs(components, edges)
    ensures t < |components| && t != source
    ensures var to := components[t].id; to in TargetsOf(required, components[source].id) && to in indexes && indexes[to] == t
  {
    assert components[source] in components && components[t] in components;
    assert components[source].id in indexes && components[t].id in indexes;
    assert ListedRightly(required, edges, indexes, components[source].id, components[t].id);
    var last := indexes[components[t].id];
    assert !(last < t) && !(t < last);
  }

  /** The listed targets of a component are its pairs. */
  lemma TargetsArePairs(components: seq<Component>, edges: seq<Edge>, indexes: Indexes, required: Dependencies, source: nat)
    requires source < |components| && Lists(required, edges, indexes) && Indexed(components, indexes)
    ensures var targets := TargetsOf(required, components[source].id);
      && (forall t :: t in targets && t in indexes ==> indexes[t] < |components|)
      && (forall t :: t in targets && t in indexes && indexes[t] != source ==> (source, indexes[t]) in Pairs(components, edges))
      && (forall t :: (source, t) in Pairs(components, edges) ==>
            t < |components| && t != source && components[t].id in targets && components[t].id in indexes && indexes[components[t].id] == t)
  {
    var targets := TargetsOf(required, components[source].id);
    hide Pairs, Lists, TargetsOf;
    forall to | to in targets && to in indexes && indexes[to] != source ensures (source, indexes[to]) in Pairs(components, edges) {
      TargetIsPair(components, edges, indexes, required, source, to);
    }
    forall t: nat | (source, t) in Pairs(components, edges)
      ensures t < |components| && t != source && components[t].id in targets && components[t].id in indexes && indexes[components[t].id] == t
    {
      PairIsTarget(components, edges, indexes, required, source, t);
    }
  }

  // ---------------------------------------------------------------- what comes out

  /** At the fixed point a component is recommended exactly when it belongs to
      the least set; it has its base score, and 20 more, once, when a different
      recommended component requires it. */
  lemma FinalMeaning(components: seq<Component>, edges: seq<Edge>, i: nat)
    requires i < |components|
    ensures var base, pairs := Base(components), Pairs(components, edges);
      var r, s := Recommended(base, pairs), Final(base, pairs)[i];
      && (s.recommended <==> i in r)
      && s.component == components[i]
      && s.score == ScoreComponent(components[i]).score + (if exists j :: j in r && (j, i) in pairs then 20 else 0)
      && s.score == ChipSum(s.chips) && -70 <= s.score <= 105
  {
    var base, pairs := Base(components), Pairs(components, edges);
    var r := Recommended(base, pairs);
    var raised := Required(pairs, r);
    hide ScoreComponent, Pairs;
    ScoreIsChipSum(components[i]);
    RecommendedExactly(base, pairs, i);
    if i in raised {
      var p :| p in pairs && p.0 in r && p.1 == i;
      assert (p.0, i) in pairs;
      TallyOneMore((base[i].score, base[i].chips), true, RequiredDependency, 20, -70, 85);
    }
    if j :| j in r && (j, i) in pairs { TargetIsRequired(pairs, r, j, i); }
    SeedIsAllowed(components[i]);
  }

  lemma SeedIsAllowed(c: Component)
    ensures var s := ScoreComponent(c); s.recommended <==> s.autoAllowed && s.score > 0
  {
  }

  lemma RecommendedExactly(base: seq<Scored>, pairs: Edges, i: nat)
    requires i < |base|
    ensures var r := Recommended(base, pairs);
      i in r <==> base[i].recommended || (i in Required(pairs, r) && Promotable(base[i]))
  {
    var r := Recommended(base, pairs);
    RecommendedIsLeast(base, pairs);
    var other := set x: nat | x in r && (base[x].recommended || (x in Required(pairs, r) && Promotable(base[x])));
    forall s, t | s in other && (s, t) in pairs && t < |base| && Promotable(base[t]) ensures t in other {
      TargetIsRequired(pairs, r, s, t);
    }
    assert r <= other;
    if i in Required(pairs, r) && Promotable(base[i]) {
      var p :| p in pairs && p.0 in r && p.1 == i;
      assert (p.0, i) in pairs;
    }
  }

  function Category(c: Component): nat {
    match c.kind
    case Application => 0 case Package => 1 case Runtime => 2 case Tool => 3 case Harness => 4 case McpServer => 5
    case Skill => 6 case Agent => 7 case Hook => 8 case Plugin => 9 case Browser => 10 case BrowserProfile => 11
    case Editor => 12 case Extension => 13 case Configuration => 14 case DataArtifact => 15 case SecretReference => 16
    case EnvironmentVariable => 17 case SystemFeature => 18 case Service => 19 case ScheduledTask => 20 case Shell => 21
    case PortableBinaryKind => 22 case WslDistribution => 23 case DockerContext => 24 case DockerImage => 25
    case DockerVolume => 26 case UnknownKind => 27
  }

  /** Components by identifier, category and name. */
  function ComponentOrder(a: Component, b: Component): bool {
    a.id < b.id || (a.id == b.id && (Category(a) < Category(b) || (Category(a) == Category(b) && a.name <= b.name)))
  }

  /** Results by falling score, then category, then identifier. */
  function RankOrder(a: Scored, b: Scored): bool {
    a.score > b.score
    || (a.score == b.score && (Category(a.component) < Category(b.component)
                               || (Category(a.component) == Category(b.component) && a.component.id <= b.component.id)))
  }

  ghost function Ranking(graph: Graph): seq<Scored> {
    var components := SortBy(graph.components, ComponentOrder);
    SortBy(Final(Base(components), Pairs(components, AllEdges(graph))), RankOrder)
  }

  /** Score, promote and rank a graph. */
  method Recommendations(graph: Graph) returns (output: seq<Scored>)
    ensures output == Ranking(graph) && SortedBy(output, RankOrder)
  {
    var components := SortBy(graph.components, ComponentOrder);
    var scored := Promote(components, AllEdges(graph));
    output := SortBy(scored, RankOrder);
    RankOrderIsTotal();
    SortOrders(scored, RankOrder);
  }

  lemma RankOrderIsTotal()
    ensures TotalOrder(RankOrder)
  {
    hide Category;
  }

  lemma ComponentOrderIsTotal()
    ensures TotalOrder(ComponentOrder)
  {
    hide Category;
  }

  ghost predicate DistinctIds(components: seq<Component>) {
    forall c, d :: c in components && d in components && c.id == d.id ==> c == d
  }

  /** With distinct identifiers the ranking does not depend on the order in
      which the graph lists its components or its edges. */
  lemma RankingForgetsOrder(graph: Graph, graph': Graph)
    requires DistinctIds(graph.components) && multiset(graph.components) == multiset(graph'.components)
    requires forall e :: e in AllEdges(graph) <==> e in AllEdges(graph')
    ensures Ranking(graph) == Ranking(graph')
  {
    ComponentOrderIsTotal();
    hide Category;
    SortForgetsOrder(graph.components, graph'.components, ComponentOrder);
    var components := SortBy(graph.components, ComponentOrder);
    SamePairs(components, AllEdges(graph), AllEdges(graph'));
  }

  lemma SamePairs(components: seq<Component>, edges: seq<Edge>, edges': seq<Edge>)
    requires forall e :: e in edges <==> e in edges'
    ensures Pairs(components, edges) == Pairs(components, edges')
  {
    assert forall a, b :: Requires(edges, a, b) == Requires(edges', a, b);
  }
}
