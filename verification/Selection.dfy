/** Resolving a user selection into the frozen record that packaging consumes
    (crates/reforge-domain/src/selection.rs, `build_selection_closure`). */
module Selection {
  import opened Wrappers
  import opened Graphs
  import opened Closure
  import opened Paths

  type ComponentId = nat
  type ArtifactId = nat
  type U64 = n: nat | n < 0x1_0000_0000_0000_0000

  const DEFAULT_LARGE_ARTIFACT_THRESHOLD_BYTES: nat := 16 * 1024 * 1024
  const MAX_SELECTED_COMPONENTS: nat := 250_000
  const MAX_SELECTED_ARTIFACTS: nat := 1_000_000
  const MAX_SELECTION_WARNINGS: nat := 4_096
  const U64_MAX: nat := 0xFFFF_FFFF_FFFF_FFFF

  datatype ErrorCode = SchemaInvalid | SelectionIncomplete | SecurityPolicy | VaultRequired

  datatype ArtifactPolicy = Config | Data | Export | PortableBinary | LargeOptIn | SecretReference | Manual

  datatype Artifact = Artifact(id: ArtifactId, sourcePath: PathToken, sizeBytes: U64, policy: ArtifactPolicy)

  datatype Edge = Edge(from: ComponentId, to: ComponentId, kind: nat, required: bool)

  /** The last four facts summarize texts: whether an executable is named or
      hashed, whether that hash is well formed, and whether source and
      signature are reported. */
  datatype Component = Component(
    id: ComponentId,
    secretKind: bool,
    portableKind: bool,
    unknownKind: bool,
    sensitive: bool,
    restoresPortableBinary: bool,
    artifacts: seq<Artifact>,
    dependencies: seq<Edge>,
    executableKnown: bool,
    hashSafe: bool,
    sourceReported: bool,
    signatureReported: bool)

  datatype Graph = Graph(components: seq<Component>, edges: seq<Edge>)

  datatype SelectionPolicy = SelectionPolicy(
    vaultExplicit: bool,          // secrets: VaultExplicit rather than Exclude
    largeConfirmable: bool,       // large data: RequireConfirmation rather than Exclude
    portableBinaries: bool,       // unknown binaries: PortableBinaryExplicit rather than Exclude
    maxBytes: Option<U64>)

  datatype Decision = Decision(artifact: ArtifactId, wanted: bool)

  datatype Input = Input(components: seq<ComponentId>, artifacts: seq<Decision>, policy: SelectionPolicy)

  datatype Warning =
    | AutoAdded(component: ComponentId)
    | OptionalDependency(available: bool, component: ComponentId)
    | SensitiveComponent(component: ComponentId)
    | UnknownSource(component: ComponentId)
    | Unsigned(component: ComponentId)
    | SecretArtifact(artifact: ArtifactId)
    | LargeArtifact(artifact: ArtifactId)
    | ManualArtifact(artifact: ArtifactId)

  datatype ClosureRecord = ClosureRecord(
    components: set<ComponentId>, artifacts: set<ArtifactId>, autoAdded: set<ComponentId>, totalBytes: nat, warnings: set<Warning>)

  // ---------------------------------------------------------------- the graph

  function Embedded(components: seq<Component>): (edges: seq<Edge>)
    ensures forall e :: e in edges <==> exists c :: c in components && e in c.dependencies
  {
    if components == [] then []
    else
      var last := |components| - 1;
      assert components == components[..last] + [components[last]];
      Embedded(components[..last]) + components[last].dependencies
  }

  /** Every stated edge: the edge list, then the dependency lists. */
  function AllEdges(graph: Graph): seq<Edge> {
    graph.edges + Embedded(graph.components)
  }

  function RequiredEdges(graph: Graph): Edges {
    RequiredPairs(AllEdges(graph))
  }

  function RequiredPairs(edges: seq<Edge>): Edges {
    set e | e in edges && e.required :: (e.from, e.to)
  }

  function Inventory(components: seq<Component>): set<ComponentId> {
    set c | c in components :: c.id
  }

  predicate UniqueComponents(components: seq<Component>) {
    forall i, j :: 0 <= i < j < |components| ==> components[i].id != components[j].id
  }

  function ArtifactIds(artifacts: seq<Artifact>): set<ArtifactId> {
    set a | a in artifacts :: a.id
  }

  function ListedArtifacts(components: seq<Component>): set<ArtifactId> {
    set c, a | c in components && a in c.artifacts :: a.id
  }

  predicate OwnArtifactsUnique(artifacts: seq<Artifact>) {
    forall k, l :: 0 <= k < l < |artifacts| ==> artifacts[k].id != artifacts[l].id
  }

  /** No artifact ID occurs twice, within a component or across components. */
  predicate UniqueArtifacts(components: seq<Component>) {
    forall i :: 0 <= i < |components| ==> ArtifactsNewAt(components, i)
  }

  predicate ArtifactsNewAt(components: seq<Component>, i: nat)
    requires i < |components|
  {
    OwnArtifactsUnique(components[i].artifacts) && ListedArtifacts(components[..i]) !! ArtifactIds(components[i].artifacts)
  }

  // ---------------------------------------------------------------- policies

  function DefaultArtifactSelection(a: Artifact): bool {
    if a.policy == LargeOptIn || a.policy == SecretReference || a.policy == PortableBinary || a.policy == Manual
       || a.sizeBytes > DEFAULT_LARGE_ARTIFACT_THRESHOLD_BYTES
    then false
    else a.policy == Config || a.policy == Data || a.policy == Export
  }

  predicate IsUnknownBinary(c: Component) {
    c.portableKind || c.restoresPortableBinary
    || (exists a :: a in c.artifacts && a.policy == PortableBinary)
    || (c.unknownKind && c.executableKnown)
  }

  predicate IsSecret(c: Component) {
    c.sensitive || c.secretKind
  }

  function When(condition: bool, warning: Warning): set<Warning> {
    if condition then {warning} else {}
  }

  function ComponentVerdict(c: Component, policy: SelectionPolicy): Result<set<Warning>, ErrorCode> {
    if IsSecret(c) && !policy.vaultExplicit then Err(SecurityPolicy)
    else if IsUnknownBinary(c) && !policy.portableBinaries then Err(SecurityPolicy)
    else if IsUnknownBinary(c) && !c.hashSafe then Err(SelectionIncomplete)
    else Ok(When(IsSecret(c), SensitiveComponent(c.id))
            + When(IsUnknownBinary(c) && !c.sourceReported, UnknownSource(c.id))
            + When(IsUnknownBinary(c) && !c.signatureReported, Unsigned(c.id)))
  }

  predicate IsLarge(a: Artifact) {
    a.policy == LargeOptIn || a.sizeBytes > DEFAULT_LARGE_ARTIFACT_THRESHOLD_BYTES
  }

  function ArtifactVerdict(c: Component, a: Artifact, explicit: bool, policy: SelectionPolicy): Result<set<Warning>, ErrorCode> {
    var secret := a.policy == SecretReference || IsSecret(c);
    if !ValidToken(a.sourcePath) then Err(SecurityPolicy)
    else if secret && !policy.vaultExplicit then Err(SecurityPolicy)
    else if IsLarge(a) && !policy.largeConfirmable then Err(SecurityPolicy)
    else if IsLarge(a) && !explicit then Err(SelectionIncomplete)
    else Ok(When(secret, SecretArtifact(a.id)) + When(IsLarge(a), LargeArtifact(a.id))
            + When(a.policy == Manual, ManualArtifact(a.id)))
  }

  // ---------------------------------------------------------------- what a selection amounts to

  type Decisions = map<ArtifactId, bool>

  function DecisionMap(artifacts: seq<Decision>): (m: Decisions)
    ensures forall id :: id in m <==> exists d :: d in artifacts && d.artifact == id
    ensures forall d :: d in artifacts ==> d.artifact in m
  {
    if artifacts == [] then map[]
    else
      var last := |artifacts| - 1;
      assert artifacts == artifacts[..last] + [artifacts[last]];
      DecisionMap(artifacts[..last])[artifacts[last].artifact := artifacts[last].wanted]
  }

  predicate UniqueDecisions(artifacts: seq<Decision>) {
    forall i, j :: 0 <= i < j < |artifacts| ==> artifacts[i].artifact != artifacts[j].artifact
  }

  function Included(a: Artifact, decisions: Decisions): bool {
    if a.id in decisions then decisions[a.id] else DefaultArtifactSelection(a)
  }

  /** An artifact taken along, with the component that owns it. */
  datatype Pick = Pick(owner: Component, artifact: Artifact)

  function PicksOf(c: Component, artifacts: seq<Artifact>, decisions: Decisions): seq<Pick> {
    if artifacts == [] then []
    else
      var last := |artifacts| - 1;
      PicksOf(c, artifacts[..last], decisions) + (if Included(artifacts[last], decisions) then [Pick(c, artifacts[last])] else [])
  }

  /** Artifacts of the selected components that are taken along. */
  function Picks(components: seq<Component>, selected: set<ComponentId>, decisions: Decisions): seq<Pick> {
    if components == [] then []
    else
      var last := |components| - 1;
      Picks(components[..last], selected, decisions)
      + (if components[last].id in selected then PicksOf(components[last], components[last].artifacts, decisions) else [])
  }

  function PickVerdict(p: Pick, decisions: Decisions, policy: SelectionPolicy): Result<set<Warning>, ErrorCode> {
    ArtifactVerdict(p.owner, p.artifact, p.artifact.id in decisions, policy)
  }

  function Raised(p: Pick, decisions: Decisions, policy: SelectionPolicy): set<Warning> {
    var verdict := PickVerdict(p, decisions, policy);
    if verdict.Ok? then verdict.value else {}
  }

  /** What a list of picks adds up to. */
  datatype Choice = Choice(ids: set<ArtifactId>, total: nat, warnings: set<Warning>)

  function Add(choice: Choice, p: Pick, warnings: set<Warning>): Choice {
    Choice(choice.ids + {p.artifact.id}, choice.total + p.artifact.sizeBytes, choice.warnings + warnings)
  }

  function Sum(picks: seq<Pick>, decisions: Decisions, policy: SelectionPolicy, given: set<Warning>): Choice {
    if picks == [] then Choice({}, 0, given)
    else
      var p := picks[|picks| - 1];
      Add(Sum(picks[..|picks| - 1], decisions, policy, given), p, Raised(p, decisions, policy))
  }

  /** Some pick is refused with this code. */
  ghost predicate PickFault(picks: seq<Pick>, decisions: Decisions, policy: SelectionPolicy, code: ErrorCode) {
    exists i :: 0 <= i < |picks| && PickVerdict(picks[i], decisions, policy) == Err(code)
  }

  /** Some selected component is refused with this code. */
  ghost predicate ComponentFault(components: seq<Component>, selected: set<ComponentId>, policy: SelectionPolicy, code: ErrorCode) {
    exists i :: 0 <= i < |components| && components[i].id in selected && ComponentVerdict(components[i], policy) == Err(code)
  }

  predicate PicksAllowed(picks: seq<Pick>, decisions: Decisions, policy: SelectionPolicy) {
    forall i :: 0 <= i < |picks| ==> PickVerdict(picks[i], decisions, policy).Ok?
  }

  predicate ComponentsAllowed(components: seq<Component>, selected: set<ComponentId>, policy: SelectionPolicy) {
    forall i :: 0 <= i < |components| && components[i].id in selected ==> ComponentVerdict(components[i], policy).Ok?
  }

  function ComponentWarnings(components: seq<Component>, selected: set<ComponentId>, policy: SelectionPolicy): set<Warning> {
    if components == [] then {}
    else
      var c := components[|components| - 1];
      var verdict := ComponentVerdict(c, policy);
      ComponentWarnings(components[..|components| - 1], selected, policy)
      + (if c.id in selected && verdict.Ok? then verdict.value else {})
  }

  function OptionalWarnings(edges: seq<Edge>, inventory: set<ComponentId>, selected: set<ComponentId>): set<Warning> {
    set e | e in edges && !e.required && e.from in selected && e.to !in selected :: OptionalDependency(e.to in inventory, e.to)
  }

  function AutoWarnings(added: set<ComponentId>): set<Warning> {
    set d | d in added :: AutoAdded(d)
  }

  ghost function Selected(graph: Graph, input: Input): set<ComponentId> {
    ClosureOf(RequiredEdges(graph), Inventory(graph.components), Roots(input))
  }

  function Roots(input: Input): set<ComponentId> {
    AsSet(input.components)
  }

  function AsSet(ids: seq<ComponentId>): set<ComponentId> {
    set c | c in ids
  }

  /** Warnings raised before artifacts are looked at. */
  ghost function EarlyWarnings(graph: Graph, input: Input): set<Warning> {
    var selected := Selected(graph, input);
    AutoWarnings(selected - Roots(input))
    + OptionalWarnings(AllEdges(graph), Inventory(graph.components), selected)
    + ComponentWarnings(graph.components, selected, input.policy)
  }

  ghost function Taken(graph: Graph, input: Input): seq<Pick> {
    Picks(graph.components, Selected(graph, input), DecisionMap(input.artifacts))
  }

  ghost function Outcome(graph: Graph, input: Input): ClosureRecord {
    var selected := Selected(graph, input);
    var choice := Sum(Taken(graph, input), DecisionMap(input.artifacts), input.policy, EarlyWarnings(graph, input));
    ClosureRecord(selected, choice.ids, selected - Roots(input), choice.total, choice.warnings)
  }

  predicate DecisionsResolve(artifacts: seq<Decision>, listed: set<ArtifactId>) {
    (forall d :: d in artifacts ==> d.artifact in listed) && UniqueDecisions(artifacts)
  }

  predicate RootsResolve(components: seq<ComponentId>, inventory: set<ComponentId>) {
    && AsSet(components) <= inventory
    && forall i, j :: 0 <= i < j < |components| ==> components[i] != components[j]
  }

  /** Names in the inventory and in the input are unique and resolve. */
  predicate WellReferenced(graph: Graph, input: Input) {
    && UniqueComponents(graph.components) && UniqueArtifacts(graph.components)
    && DecisionsResolve(input.artifacts, ListedArtifacts(graph.components))
    && |input.components| <= MAX_SELECTED_COMPONENTS
    && RootsResolve(input.components, Inventory(graph.components))
  }

  /** Required dependencies resolve within the component limit. */
  ghost predicate Closable(graph: Graph, input: Input) {
    && !Dangling(RequiredEdges(graph), Inventory(graph.components), Roots(input))
    && |Selected(graph, input)| <= MAX_SELECTED_COMPONENTS
  }

  /** An artifact is asked for together with the component that owns it. */
  predicate OwnersSelected(components: seq<Component>, selected: set<ComponentId>, decisions: seq<Decision>) {
    forall c, a, d :: c in components && a in c.artifacts && d in decisions && d.artifact == a.id && d.wanted
      ==> c.id in selected
  }

  ghost predicate WithinPolicy(graph: Graph, input: Input) {
    var selected, decisions := Selected(graph, input), DecisionMap(input.artifacts);
    && ComponentsAllowed(graph.components, selected, input.policy)
    && OwnersSelected(graph.components, selected, input.artifacts)
    && PicksAllowed(Taken(graph, input), decisions, input.policy)
  }

  ghost predicate WithinLimits(input: Input, outcome: ClosureRecord) {
    && |outcome.warnings| <= MAX_SELECTION_WARNINGS
    && outcome.totalBytes <= U64_MAX
    && |outcome.artifacts| <= MAX_SELECTED_ARTIFACTS
    && (input.policy.maxBytes.Some? ==> outcome.totalBytes <= input.policy.maxBytes.value)
  }

  /** What a well-referenced, closable selection may be refused for, and how. */
  ghost predicate Refusal(graph: Graph, input: Input, code: ErrorCode) {
    || ComponentFault(graph.components, Selected(graph, input), input.policy, code)
    || (code == SelectionIncomplete && !OwnersSelected(graph.components, Selected(graph, input), input.artifacts))
    || PickFault(Taken(graph, input), DecisionMap(input.artifacts), input.policy, code)
    || (code == SecurityPolicy && !WithinLimits(input, Outcome(graph, input)))
  }

  ghost predicate Selectable(graph: Graph, input: Input) {
    && WellReferenced(graph, input)
    && Closable(graph, input)
    && WithinPolicy(graph, input)
    && WithinLimits(input, Outcome(graph, input))
  }

  // ---------------------------------------------------------------- indexes

  type Adjacency = map<ComponentId, seq<Edge>>

  /** Each stated edge is listed once under its source. */
  ghost predicate Indexes(adjacency: Adjacency, edges: seq<Edge>) {
    forall a, e :: (a in adjacency && e in adjacency[a]) <==> (e in edges && e.from == a)
  }

  method IndexEdges(edges: seq<Edge>) returns (indexed: Adjacency)
    ensures Indexes(indexed, edges)
  {
    indexed := map[];
    var seen: set<Edge> := {};
    for n := 0 to |edges|
      invariant seen == set e | e in edges[..n]
      invariant Indexes(indexed, edges[..n])
    {
      var edge := edges[n];
      assert edges[..n + 1] == edges[..n] + [edge];
      if edge !in seen {
        seen := seen + {edge};
        indexed := indexed[edge.from := (if edge.from in indexed then indexed[edge.from] else []) + [edge]];
      }
    }
    assert edges[..|edges|] == edges;
  }

  // ---------------------------------------------------------------- required closure

  function RequiredTargets(targets: seq<Edge>): set<ComponentId> {
    set e | e in targets && e.required :: e.to
  }

  /** Select the required targets of one component; new ones are queued. */
  method VisitTargets(targets: seq<Edge>, inventory: set<ComponentId>, selected: set<ComponentId>, pending: seq<ComponentId>)
    returns (r: Result<(), ErrorCode>, selected': set<ComponentId>, pending': seq<ComponentId>)
    requires |selected| <= MAX_SELECTED_COMPONENTS
    ensures selected <= selected' <= selected + RequiredTargets(targets) * inventory
    ensures r.Ok? ==> RequiredTargets(targets) <= selected' && |selected'| <= MAX_SELECTED_COMPONENTS
    ensures r.Ok? ==> pending <= pending' && forall x :: x in pending'[|pending|..] <==> x in selected' - selected
    ensures r.Ok? && selected' == selected ==> pending' == pending
    ensures r.Err? ==> (r.error == SelectionIncomplete && !(RequiredTargets(targets) <= inventory))
                       || (r.error == SecurityPolicy && |selected'| > MAX_SELECTED_COMPONENTS)
  {
    selected', pending' := selected, pending;
    var added: seq<ComponentId> := [];
    for n := 0 to |targets|
      invariant selected <= selected' <= selected + RequiredTargets(targets) * inventory
      invariant |selected'| <= MAX_SELECTED_COMPONENTS
      invariant pending' == pending + added && forall x :: x in added <==> x in selected' - selected
      invariant forall k :: 0 <= k < n && targets[k].required ==> targets[k].to in selected'
    {
      var edge := targets[n];
      assert edge in targets;
      if edge.required {
        if edge.to !in inventory {
          return Err(SelectionIncomplete), selected', pending';
        }
        if edge.to !in selected' {
          selected' := selected' + {edge.to};
          if |selected'| > MAX_SELECTED_COMPONENTS {
            return Err(SecurityPolicy), selected', pending';
          }
          pending' := pending' + [edge.to];
          added := added + [edge.to];
        }
      }
    }
    if added != [] { assert added[0] in added; }
    r := Ok(());
  }

  /** Every required target of a settled component is selected. */
  ghost predicate Settled(edges: Edges, selected: set<ComponentId>, pending: seq<ComponentId>) {
    forall a, b :: (a, b) in edges && a in selected && a !in pending ==> b in selected
  }

  lemma SourceTargets(adjacency: Adjacency, edges: seq<Edge>, source: ComponentId, targets: seq<Edge>)
    requires Indexes(adjacency, edges) && targets == if source in adjacency then adjacency[source] else []
    ensures forall b :: b in RequiredTargets(targets) <==> (source, b) in RequiredPairs(edges)
  {
    forall b ensures b in RequiredTargets(targets) <==> (source, b) in RequiredPairs(edges) {
      if (source, b) in RequiredPairs(edges) {
        var e :| e in edges && e.required && (e.from, e.to) == (source, b);
        assert e in adjacency[source];
      }
    }
  }

  lemma TargetsDerived(required: Edges, inventory: set<ComponentId>, roots: set<ComponentId>, source: ComponentId, targets: set<ComponentId>)
    requires source in ClosureOf(required, inventory, roots) && forall b :: b in targets ==> (source, b) in required
    ensures targets * inventory <= ClosureOf(required, inventory, roots)
  {
    forall b | b in targets * inventory ensures b in ClosureOf(required, inventory, roots) {
      DerivedStep(required, inventory, roots, source, b);
    }
  }

  lemma SettledStep(required: Edges, selected: set<ComponentId>, rest: seq<ComponentId>, source: ComponentId,
                    grown: set<ComponentId>, queue: seq<ComponentId>)
    requires Settled(required, selected, rest + [source]) && selected <= grown
    requires forall b :: (source, b) in required ==> b in grown
    requires rest <= queue && forall x :: x in queue[|rest|..] <==> x in grown - selected
    requires forall x :: x in rest ==> x in selected
    ensures Settled(required, grown, queue) && forall x :: x in queue ==> x in grown
  {
    assert queue == rest + queue[|rest|..];
  }

  lemma SettledIsClosure(required: Edges, inventory: set<ComponentId>, roots: set<ComponentId>, selected: set<ComponentId>)
    requires roots <= selected <= ClosureOf(required, inventory, roots) && roots <= inventory
    requires Settled(required, selected, [])
    ensures selected == ClosureOf(required, inventory, roots) && !Dangling(required, inventory, roots)
  {
    ClosureIsLeast(required, inventory, roots);
    assert Closed(Inner(required, inventory), selected);
  }

  /** Worklist search for the least closed set around the roots. */
  method CloseRequired(adjacency: Adjacency, ghost edges: seq<Edge>, inventory: set<ComponentId>, roots: set<ComponentId>)
    returns (r: Result<set<ComponentId>, ErrorCode>)
    requires Indexes(adjacency, edges) && roots <= inventory && |roots| <= MAX_SELECTED_COMPONENTS
    ensures r.Ok? ==> r.value == ClosureOf(RequiredPairs(edges), inventory, roots)
    ensures r.Ok? ==> !Dangling(RequiredPairs(edges), inventory, roots) && |r.value| <= MAX_SELECTED_COMPONENTS
    ensures r.Err? ==>
      (r.error == SelectionIncomplete && Dangling(RequiredPairs(edges), inventory, roots))
      || (r.error == SecurityPolicy && |ClosureOf(RequiredPairs(edges), inventory, roots)| > MAX_SELECTED_COMPONENTS)
  {
    hide Indexes, RequiredPairs, RequiredTargets, ClosureOf, Settled, Dangling;
    ghost var required := RequiredPairs(edges);
    ghost var closure := ClosureOf(required, inventory, roots);
    ClosureIsLeast(required, inventory, roots);
    var selected := roots;
    var pending := ListOf(roots);
    AllPending(required, roots, pending);
    while pending != []
      invariant roots <= selected <= closure && |selected| <= MAX_SELECTED_COMPONENTS
      invariant forall x :: x in pending ==> x in selected
      invariant Settled(required, selected, pending)
      decreases closure - selected, |pending|
    {
      var source := pending[|pending| - 1];
      var rest := pending[..|pending| - 1];
      assert pending == rest + [source];
      var targets := if source in adjacency then adjacency[source] else [];
      SourceTargets(adjacency, edges, source, targets);
      TargetsDerived(required, inventory, roots, source, RequiredTargets(targets));
      var visit, grown, queue := VisitTargets(targets, inventory, selected, rest);
      if visit.Err? {
        if visit.error == SecurityPolicy {
          SubsetCardinality(grown, closure);
        } else {
          MissingTarget(required, inventory, roots, source, RequiredTargets(targets));
        }
        return Err(visit.error);
      }
      SettledStep(required, selected, rest, source, grown, queue);
      selected, pending := grown, queue;
    }
    SettledIsClosure(required, inventory, roots, selected);
    r := Ok(selected);
  }

  lemma AllPending(required: Edges, roots: set<ComponentId>, pending: seq<ComponentId>)
    requires forall x :: x in pending <==> x in roots
    ensures Settled(required, roots, pending)
  {
  }

  lemma MissingTarget(required: Edges, inventory: set<ComponentId>, roots: set<ComponentId>, source: ComponentId, targets: set<ComponentId>)
    requires source in ClosureOf(required, inventory, roots) && !(targets <= inventory)
    requires forall b :: b in targets ==> (source, b) in required
    ensures Dangling(required, inventory, roots)
  {
    var b :| b in targets && b !in inventory;
    assert (source, b) in required;
  }

  method ListOf(s: set<ComponentId>) returns (list: seq<ComponentId>)
    ensures forall x :: x in list <==> x in s
  {
    list := [];
    var rest := s;
    while rest != {}
      invariant rest <= s && forall x :: x in list <==> x in s - rest
      decreases rest
    {
      var x :| x in rest;
      rest := rest - {x};
      list := list + [x];
    }
  }

  // ---------------------------------------------------------------- references

  method IndexComponents(components: seq<Component>) returns (r: Result<set<ComponentId>, ErrorCode>)
    ensures r == if UniqueComponents(components) then Ok(Inventory(components)) else Err(SchemaInvalid)
  {
    var ids: set<ComponentId> := {};
    for n := 0 to |components|
      invariant UniqueComponents(components[..n])
      invariant ids == Inventory(components[..n])
    {
      assert components[..n + 1] == components[..n] + [components[n]];
      if components[n].id in ids {
        var c :| c in components[..n] && c.id == components[n].id;
        return Err(SchemaInvalid);
      }
      ids := ids + {components[n].id};
    }
    assert components[..|components|] == components;
    r := Ok(ids);
  }

  method IndexOwnArtifacts(artifacts: seq<Artifact>, listed: set<ArtifactId>) returns (r: Result<set<ArtifactId>, ErrorCode>)
    ensures r == if OwnArtifactsUnique(artifacts) && listed !! ArtifactIds(artifacts)
                 then Ok(listed + ArtifactIds(artifacts)) else Err(SchemaInvalid)
  {
    var ids := listed;
    for n := 0 to |artifacts|
      invariant OwnArtifactsUnique(artifacts[..n]) && listed !! ArtifactIds(artifacts[..n])
      invariant ids == listed + ArtifactIds(artifacts[..n])
    {
      assert artifacts[..n + 1] == artifacts[..n] + [artifacts[n]];
      if artifacts[n].id in ids {
        if artifacts[n].id in listed {
          assert artifacts[n].id in ArtifactIds(artifacts);
        } else {
          var a :| a in artifacts[..n] && a.id == artifacts[n].id;
        }
        return Err(SchemaInvalid);
      }
      ids := ids + {artifacts[n].id};
    }
    assert artifacts[..|artifacts|] == artifacts;
    r := Ok(ids);
  }

  method IndexArtifacts(components: seq<Component>) returns (r: Result<set<ArtifactId>, ErrorCode>)
    ensures r == if UniqueArtifacts(components) then Ok(ListedArtifacts(components)) else Err(SchemaInvalid)
  {
    var ids: set<ArtifactId> := {};
    for n := 0 to |components|
      invariant forall i :: 0 <= i < n ==> ArtifactsNewAt(components, i)
      invariant ids == ListedArtifacts(components[..n])
    {
      assert components[..n + 1] == components[..n] + [components[n]];
      var own := IndexOwnArtifacts(components[n].artifacts, ids);
      if own.Err? {
        assert !ArtifactsNewAt(components, n);
        return Err(own.error);
      }
      ids := own.value;
    }
    assert components[..|components|] == components;
    r := Ok(ids);
  }

  lemma NoDecisions(listed: set<ArtifactId>)
    ensures DecisionsResolve([], listed) && DecisionMap([]) == map[]
  {
  }

  lemma DecisionMapStep(artifacts: seq<Decision>, d: Decision)
    ensures DecisionMap(artifacts + [d]) == DecisionMap(artifacts)[d.artifact := d.wanted]
  {
    assert (artifacts + [d])[..|artifacts|] == artifacts;
  }

  lemma UniqueStep(artifacts: seq<Decision>, d: Decision)
    ensures UniqueDecisions(artifacts + [d]) <==> UniqueDecisions(artifacts) && forall i :: 0 <= i < |artifacts| ==> artifacts[i].artifact != d.artifact
  {
    var after := artifacts + [d];
    assert forall i :: 0 <= i < |artifacts| ==> after[i] == artifacts[i];
    assert after[|artifacts|] == d;
  }

  lemma DecisionStep(artifacts: seq<Decision>, d: Decision, listed: set<ArtifactId>)
    ensures DecisionsResolve(artifacts + [d], listed)
      <==> DecisionsResolve(artifacts, listed) && d.artifact in listed && d.artifact !in DecisionMap(artifacts)
  {
    UniqueStep(artifacts, d);
    var after, m := artifacts + [d], DecisionMap(artifacts);
    assert d.artifact in m <==> exists i :: 0 <= i < |artifacts| && artifacts[i].artifact == d.artifact;
    hide DecisionMap, UniqueDecisions;
    assert forall x :: x in after <==> x in artifacts || x == d;
  }

  lemma DecisionsPrefix(artifacts: seq<Decision>, n: nat, listed: set<ArtifactId>)
    requires n <= |artifacts| && DecisionsResolve(artifacts, listed)
    ensures DecisionsResolve(artifacts[..n], listed)
  {
  }

  method IndexArtifactSelection(artifacts: seq<Decision>, listed: set<ArtifactId>) returns (r: Result<Decisions, ErrorCode>)
    ensures r == if DecisionsResolve(artifacts, listed) then Ok(DecisionMap(artifacts)) else Err(SelectionIncomplete)
  {
    var indexed: Decisions := map[];
    NoDecisions(listed);
    hide DecisionsResolve, DecisionMap;
    for n := 0 to |artifacts|
      invariant DecisionsResolve(artifacts[..n], listed)
      invariant indexed == DecisionMap(artifacts[..n])
    {
      DecisionMapStep(artifacts[..n], artifacts[n]);
      DecisionStep(artifacts[..n], artifacts[n], listed);
      assert artifacts[..n] + [artifacts[n]] == artifacts[..n + 1];
      if DecisionsResolve(artifacts, listed) { DecisionsPrefix(artifacts, n + 1, listed); }
      if artifacts[n].artifact !in listed { return Err(SelectionIncomplete); }
      if artifacts[n].artifact in indexed { return Err(SelectionIncomplete); }
      indexed := indexed[artifacts[n].artifact := artifacts[n].wanted];
    }
    assert artifacts[..|artifacts|] == artifacts;
    r := Ok(indexed);
  }

  method UserSelectedComponents(components: seq<ComponentId>, inventory: set<ComponentId>)
    returns (r: Result<set<ComponentId>, ErrorCode>)
    ensures r == if RootsResolve(components, inventory) then Ok(AsSet(components)) else Err(SelectionIncomplete)
    ensures r.Ok? ==> |r.value| <= |components|
  {
    var selected: set<ComponentId> := {};
    for n := 0 to |components|
      invariant RootsResolve(components[..n], inventory)
      invariant selected == AsSet(components[..n]) && |selected| <= n
    {
      assert components[..n + 1] == components[..n] + [components[n]];
      if components[n] !in inventory || components[n] in selected {
        assert components[n] in components;
        return Err(SelectionIncomplete);
      }
      selected := selected + {components[n]};
    }
    assert components[..|components|] == components;
    r := Ok(selected);
  }

  // ---------------------------------------------------------------- policies and totals

  /** Warnings accumulate up to the reviewed limit. */
  function PushWarnings(warnings: set<Warning>, more: set<Warning>): Result<set<Warning>, ErrorCode> {
    if |warnings + more| > MAX_SELECTION_WARNINGS then Err(SecurityPolicy) else Ok(warnings + more)
  }

  lemma ComponentStep(components: seq<Component>, n: nat, selected: set<ComponentId>, policy: SelectionPolicy)
    requires n < |components|
    ensures ComponentWarnings(components[..n + 1], selected, policy) == ComponentWarnings(components[..n], selected, policy)
      + (if components[n].id in selected && ComponentVerdict(components[n], policy).Ok? then ComponentVerdict(components[n], policy).value else {})
  {
    assert components[..n + 1][..n] == components[..n];
  }

  lemma {:induction false} ComponentWarningsGrow(components: seq<Component>, n: nat, selected: set<ComponentId>, policy: SelectionPolicy)
    requires n <= |components|
    ensures ComponentWarnings(components[..n], selected, policy) <= ComponentWarnings(components, selected, policy)
    decreases |components| - n
  {
    if n < |components| {
      ComponentWarningsGrow(components, n + 1, selected, policy);
      ComponentStep(components, n, selected, policy);
    } else {
      assert components[..n] == components;
    }
  }

  method CheckComponents(components: seq<Component>, selected: set<ComponentId>, policy: SelectionPolicy, given: set<Warning>)
    returns (r: Result<set<Warning>, ErrorCode>)
    requires |given| <= MAX_SELECTION_WARNINGS
    ensures r.Ok? <==> (ComponentsAllowed(components, selected, policy)
                        && |given + ComponentWarnings(components, selected, policy)| <= MAX_SELECTION_WARNINGS)
    ensures r.Ok? ==> r.value == given + ComponentWarnings(components, selected, policy)
    ensures r.Err? ==>
      || ComponentFault(components, selected, policy, r.error)
      || (r.error == SecurityPolicy && |given + ComponentWarnings(components, selected, policy)| > MAX_SELECTION_WARNINGS)
  {
    hide ComponentVerdict, ComponentWarnings;
    var warnings := given;
    NoComponentWarnings(selected, policy);
    for n := 0 to |components|
      invariant forall i :: 0 <= i < n && components[i].id in selected ==> ComponentVerdict(components[i], policy).Ok?
      invariant warnings == given + ComponentWarnings(components[..n], selected, policy)
      invariant |warnings| <= MAX_SELECTION_WARNINGS
    {
      ComponentStep(components, n, selected, policy);
      if components[n].id in selected {
        var verdict := ComponentVerdict(components[n], policy);
        if verdict.Err? { return Err(verdict.error); }
        var pushed := PushWarnings(warnings, verdict.value);
        if pushed.Err? {
          ComponentWarningsGrow(components, n + 1, selected, policy);
          SubsetCardinality(warnings + verdict.value, given + ComponentWarnings(components, selected, policy));
          return Err(pushed.error);
        }
        warnings := pushed.value;
      }
    }
    assert components[..|components|] == components;
    r := Ok(warnings);
  }

  lemma NoComponentWarnings(selected: set<ComponentId>, policy: SelectionPolicy)
    ensures ComponentWarnings([], selected, policy) == {}
  {
  }

  ghost predicate ChoiceFits(choice: Choice) {
    choice.total <= U64_MAX && |choice.ids| <= MAX_SELECTED_ARTIFACTS && |choice.warnings| <= MAX_SELECTION_WARNINGS
  }

  lemma SumStep(picks: seq<Pick>, p: Pick, decisions: Decisions, policy: SelectionPolicy, given: set<Warning>)
    ensures Sum(picks + [p], decisions, policy, given)
      == Add(Sum(picks, decisions, policy, given), p, Raised(p, decisions, policy))
  {
    assert (picks + [p])[..|picks|] == picks;
  }

  lemma {:induction false} SumGrows(picks: seq<Pick>, more: seq<Pick>, decisions: Decisions, policy: SelectionPolicy, given: set<Warning>)
    ensures var before, after := Sum(picks, decisions, policy, given), Sum(picks + more, decisions, policy, given);
      before.ids <= after.ids && before.total <= after.total && before.warnings <= after.warnings
    decreases |more|
  {
    hide PickVerdict, ArtifactVerdict;
    if more == [] {
      assert picks + more == picks;
    } else {
      var last := |more| - 1;
      SumGrows(picks, more[..last], decisions, policy, given);
      assert picks + more == (picks + more[..last]) + [more[last]];
      SumStep(picks + more[..last], more[last], decisions, policy, given);
    }
  }

  /** Picks that do not fit, or are not allowed, spoil every longer list. */
  lemma SpoiledStaysSpoiled(picks: seq<Pick>, more: seq<Pick>, decisions: Decisions, policy: SelectionPolicy, given: set<Warning>)
    ensures !PicksAllowed(picks, decisions, policy) ==> !PicksAllowed(picks + more, decisions, policy)
    ensures !ChoiceFits(Sum(picks, decisions, policy, given)) ==> !ChoiceFits(Sum(picks + more, decisions, policy, given))
    ensures forall code :: PickFault(picks, decisions, policy, code) ==> PickFault(picks + more, decisions, policy, code)
  {
    hide PickVerdict, Sum;
    var before, after := Sum(picks, decisions, policy, given), Sum(picks + more, decisions, policy, given);
    SumGrows(picks, more, decisions, policy, given);
    SubsetCardinality(before.ids, after.ids);
    SubsetCardinality(before.warnings, after.warnings);
    assert forall i :: 0 <= i < |picks| ==> (picks + more)[i] == picks[i];
  }

  lemma AllowedStep(picks: seq<Pick>, p: Pick, decisions: Decisions, policy: SelectionPolicy)
    ensures PicksAllowed(picks + [p], decisions, policy) <==> PicksAllowed(picks, decisions, policy) && PickVerdict(p, decisions, policy).Ok?
  {
    hide PickVerdict;
    assert (picks + [p])[|picks|] == p;
    assert forall i :: 0 <= i < |picks| ==> (picks + [p])[i] == picks[i];
  }

  /** Take one artifact along, within policy and limits. */
  method TakeOne(ghost picks: seq<Pick>, p: Pick, decisions: Decisions, policy: SelectionPolicy, ghost given: set<Warning>, choice: Choice)
    returns (r: Result<Choice, ErrorCode>)
    requires choice == Sum(picks, decisions, policy, given) && PicksAllowed(picks, decisions, policy) && ChoiceFits(choice)
    ensures r.Ok? <==> (PicksAllowed(picks + [p], decisions, policy) && ChoiceFits(Sum(picks + [p], decisions, policy, given)))
    ensures r.Ok? ==> r.value == Sum(picks + [p], decisions, policy, given)
    ensures r.Err? ==>
      || PickFault(picks + [p], decisions, policy, r.error)
      || (r.error == SecurityPolicy && !ChoiceFits(Sum(picks + [p], decisions, policy, given)))
  {
    SumStep(picks, p, decisions, policy, given);
    AllowedStep(picks, p, decisions, policy);
    hide Sum, PicksAllowed, PickVerdict;
    var verdict := PickVerdict(p, decisions, policy);
    if verdict.Err? {
      assert (picks + [p])[|picks|] == p;
      return Err(verdict.error);
    }
    var pushed := PushWarnings(choice.warnings, verdict.value);
    if pushed.Err? { return Err(pushed.error); }
    var total := choice.total + p.artifact.sizeBytes;
    if total > U64_MAX { return Err(SecurityPolicy); }
    var ids := choice.ids + {p.artifact.id};
    if |ids| > MAX_SELECTED_ARTIFACTS { return Err(SecurityPolicy); }
    r := Ok(Choice(ids, total, pushed.value));
  }

  /** The remaining picks after the first `k` artifacts of component `n`. */
  lemma {:induction false} PicksOfSplits(c: Component, artifacts: seq<Artifact>, k: nat, decisions: Decisions)
    returns (rest: seq<Pick>)
    requires k <= |artifacts|
    ensures PicksOf(c, artifacts, decisions) == PicksOf(c, artifacts[..k], decisions) + rest
    decreases |artifacts|
  {
    if k == |artifacts| {
      assert artifacts[..k] == artifacts;
      rest := [];
    } else {
      var last := |artifacts| - 1;
      assert artifacts[..last][..k] == artifacts[..k];
      rest := PicksOfSplits(c, artifacts[..last], k, decisions);
      rest := rest + if Included(artifacts[last], decisions) then [Pick(c, artifacts[last])] else [];
    }
  }

  lemma {:induction false} PicksSplit(components: seq<Component>, n: nat, selected: set<ComponentId>, decisions: Decisions)
    returns (rest: seq<Pick>)
    requires n <= |components|
    ensures Picks(components, selected, decisions) == Picks(components[..n], selected, decisions) + rest
    decreases |components|
  {
    if n == |components| {
      assert components[..n] == components;
      rest := [];
    } else {
      var last := |components| - 1;
      assert components[..last][..n] == components[..n];
      rest := PicksSplit(components[..last], n, selected, decisions);
      rest := rest + if components[last].id in selected then PicksOf(components[last], components[last].artifacts, decisions) else [];
    }
  }

  method TakeComponent(ghost earlier: seq<Pick>, c: Component, decisions: Decisions, policy: SelectionPolicy, ghost given: set<Warning>, start: Choice)
    returns (r: Result<Choice, ErrorCode>)
    requires start == Sum(earlier, decisions, policy, given) && PicksAllowed(earlier, decisions, policy) && ChoiceFits(start)
    ensures var all := earlier + PicksOf(c, c.artifacts, decisions);
      && (r.Ok? <==> (PicksAllowed(all, decisions, policy) && ChoiceFits(Sum(all, decisions, policy, given))))
      && (r.Ok? ==> r.value == Sum(all, decisions, policy, given))
      && (r.Err? ==> PickFault(all, decisions, policy, r.error) || (r.error == SecurityPolicy && !ChoiceFits(Sum(all, decisions, policy, given))))
  {
    hide Sum, PicksAllowed, ChoiceFits, Included, PickFault;
    var choice := start;
    assert earlier + PicksOf(c, c.artifacts[..0], decisions) == earlier;
    for k := 0 to |c.artifacts|
      invariant var sofar := earlier + PicksOf(c, c.artifacts[..k], decisions);
        choice == Sum(sofar, decisions, policy, given) && PicksAllowed(sofar, decisions, policy) && ChoiceFits(choice)
    {
      var a := c.artifacts[k];
      ghost var sofar := earlier + PicksOf(c, c.artifacts[..k], decisions);
      assert c.artifacts[..k + 1][..k] == c.artifacts[..k];
      if Included(a, decisions) {
        assert earlier + PicksOf(c, c.artifacts[..k + 1], decisions) == sofar + [Pick(c, a)];
        var next := TakeOne(sofar, Pick(c, a), decisions, policy, given, choice);
        if next.Err? {
          ghost var rest := PicksOfSplits(c, c.artifacts, k + 1, decisions);
          SpoiledStaysSpoiled(sofar + [Pick(c, a)], rest, decisions, policy, given);
          assert earlier + PicksOf(c, c.artifacts, decisions) == (sofar + [Pick(c, a)]) + rest;
          return Err(next.error);
        }
        choice := next.value;
      } else {
        assert earlier + PicksOf(c, c.artifacts[..k + 1], decisions) == sofar;
      }
    }
    assert c.artifacts[..|c.artifacts|] == c.artifacts;
    r := Ok(choice);
  }

  method ChooseArtifacts(components: seq<Component>, selected: set<ComponentId>, decisions: Decisions, policy: SelectionPolicy, given: set<Warning>)
    returns (r: Result<Choice, ErrorCode>)
    requires |given| <= MAX_SELECTION_WARNINGS
    ensures var all := Picks(components, selected, decisions);
      && (r.Ok? <==> (PicksAllowed(all, decisions, policy) && ChoiceFits(Sum(all, decisions, policy, given))))
      && (r.Ok? ==> r.value == Sum(all, decisions, policy, given))
      && (r.Err? ==> PickFault(all, decisions, policy, r.error) || (r.error == SecurityPolicy && !ChoiceFits(Sum(all, decisions, policy, given))))
  {
    var choice := Choice({}, 0, given);
    assert Picks(components[..0], selected, decisions) == [];
    assert Sum([], decisions, policy, given) == choice && PicksAllowed([], decisions, policy) && ChoiceFits(choice);
    hide Sum, PicksAllowed, ChoiceFits, PickFault;
    for n := 0 to |components|
      invariant var sofar := Picks(components[..n], selected, decisions);
        choice == Sum(sofar, decisions, policy, given) && PicksAllowed(sofar, decisions, policy) && ChoiceFits(choice)
    {
      var c := components[n];
      ghost var sofar := Picks(components[..n], selected, decisions);
      assert components[..n + 1][..n] == components[..n];
      if c.id in selected {
        assert Picks(components[..n + 1], selected, decisions) == sofar + PicksOf(c, c.artifacts, decisions);
        var next := TakeComponent(sofar, c, decisions, policy, given, choice);
        if next.Err? {
          ghost var rest := PicksSplit(components, n + 1, selected, decisions);
          SpoiledStaysSpoiled(sofar + PicksOf(c, c.artifacts, decisions), rest, decisions, policy, given);
          return Err(next.error);
        }
        choice := next.value;
      } else {
        assert Picks(components[..n + 1], selected, decisions) == sofar + [];
        assert sofar + [] == sofar;
      }
    }
    assert components[..|components|] == components;
    r := Ok(choice);
  }

  // ---------------------------------------------------------------- the whole resolution

  /** Early warnings of a selection, pushed in turn. */
  method WarnEarly(graph: Graph, inventory: set<ComponentId>, selected: set<ComponentId>, roots: set<ComponentId>, policy: SelectionPolicy)
    returns (r: Result<set<Warning>, ErrorCode>)
    ensures var all := AutoWarnings(selected - roots) + OptionalWarnings(AllEdges(graph), inventory, selected)
                       + ComponentWarnings(graph.components, selected, policy);
      && (r.Ok? <==> (ComponentsAllowed(graph.components, selected, policy) && |all| <= MAX_SELECTION_WARNINGS))
      && (r.Ok? ==> r.value == all)
      && (r.Err? ==> || ComponentFault(graph.components, selected, policy, r.error)
                     || (r.error == SecurityPolicy && |all| > MAX_SELECTION_WARNINGS))
  {
    hide AutoWarnings, OptionalWarnings, ComponentWarnings, ComponentsAllowed, ComponentFault;
    var auto, optional := AutoWarnings(selected - roots), OptionalWarnings(AllEdges(graph), inventory, selected);
    ghost var all := auto + optional + ComponentWarnings(graph.components, selected, policy);
    var first := PushWarnings({}, auto);
    if first.Err? {
      SubsetCardinality({} + auto, all);
      return Err(first.error);
    }
    var second := PushWarnings(first.value, optional);
    if second.Err? {
      SubsetCardinality(first.value + optional, all);
      return Err(second.error);
    }
    assert second.value == auto + optional;
    r := CheckComponents(graph.components, selected, policy, second.value);
  }

  method OwnersAreSelected(components: seq<Component>, selected: set<ComponentId>, decisions: seq<Decision>) returns (r: bool)
    ensures r <==> OwnersSelected(components, selected, decisions)
  {
    r := forall c :: c in components ==> forall a :: a in c.artifacts ==>
      forall d :: d in decisions ==> d.artifact == a.id && d.wanted ==> c.id in selected;
  }

  /** Resolve a selection. It succeeds exactly on the selectable inputs, and the
      record is then fully determined. */
  method BuildSelectionClosure(graph: Graph, input: Input) returns (r: Result<ClosureRecord, ErrorCode>)
    ensures r.Ok? <==> Selectable(graph, input)
    ensures r.Ok? ==> r.value == Outcome(graph, input)
    ensures WellReferenced(graph, input) && !Closable(graph, input) && |Selected(graph, input)| <= MAX_SELECTED_COMPONENTS
      ==> r == Err(SelectionIncomplete)
    ensures WellReferenced(graph, input) && !Closable(graph, input) && !Dangling(RequiredEdges(graph), Inventory(graph.components), Roots(input))
      ==> r == Err(SecurityPolicy)
    ensures !UniqueComponents(graph.components) || !UniqueArtifacts(graph.components) ==> r == Err(SchemaInvalid)
    ensures WellReferenced(graph, input) && Closable(graph, input) && r.Err? ==> Refusal(graph, input, r.error)
  {
    hide UniqueComponents, UniqueArtifacts, DecisionsResolve, RootsResolve, Dangling, ClosureOf, RequiredPairs, Inventory, ListedArtifacts;
    hide ComponentFault, PickFault;
    hide ComponentsAllowed, OwnersSelected, PicksAllowed, Sum, Picks, DecisionMap, AllEdges, AutoWarnings, OptionalWarnings, ComponentWarnings, Indexes;
    var inventory := IndexComponents(graph.components);
    if inventory.Err? { return Err(inventory.error); }
    var listed := IndexArtifacts(graph.components);
    if listed.Err? { return Err(listed.error); }
    var adjacency := IndexEdges(AllEdges(graph));
    var decisions := IndexArtifactSelection(input.artifacts, listed.value);
    if decisions.Err? { return Err(decisions.error); }
    if |input.components| > MAX_SELECTED_COMPONENTS { return Err(SecurityPolicy); }
    var roots := UserSelectedComponents(input.components, inventory.value);
    if roots.Err? { return Err(roots.error); }
    assert roots.value <= inventory.value by { ResolvedRootsAreListed(input.components, inventory.value); }
    assert WellReferenced(graph, input);
    var selected := CloseRequired(adjacency, AllEdges(graph), inventory.value, roots.value);
    if selected.Err? { return Err(selected.error); }
    var warnings := WarnEarly(graph, inventory.value, selected.value, roots.value, input.policy);
    if warnings.Err? {
      TooManyWarnings(graph, input);
      return Err(warnings.error);
    }
    var owned := OwnersAreSelected(graph.components, selected.value, input.artifacts);
    if !owned { return Err(SelectionIncomplete); }
    var choice := ChooseArtifacts(graph.components, selected.value, decisions.value, input.policy, warnings.value);
    if choice.Err? { return Err(choice.error); }
    if input.policy.maxBytes.Some? && choice.value.total > input.policy.maxBytes.value { return Err(SecurityPolicy); }
    r := Ok(ClosureRecord(selected.value, choice.value.ids, selected.value - roots.value, choice.value.total, choice.value.warnings));
  }

  lemma ResolvedRootsAreListed(components: seq<ComponentId>, inventory: set<ComponentId>)
    requires RootsResolve(components, inventory)
    ensures AsSet(components) <= inventory
  {
  }

  lemma TooManyWarnings(graph: Graph, input: Input)
    ensures |EarlyWarnings(graph, input)| <= |Outcome(graph, input).warnings|
  {
    var picks, decisions := Taken(graph, input), DecisionMap(input.artifacts);
    SumGrows([], picks, decisions, input.policy, EarlyWarnings(graph, input));
    assert [] + picks == picks;
    SubsetCardinality(EarlyWarnings(graph, input), Outcome(graph, input).warnings);
  }
}
