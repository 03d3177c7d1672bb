/** What is recommended, at which score and why, field by field
    (crates/reforge-discovery/src/recommend.rs). */
module RecommendMeaning {
  import opened Wrappers
  import opened Graphs
  import Selection
  import SelectionOrder
  import opened Sorting
  import opened Recommend

  // ---------------------------------------------------------------- fields

  /** A secret by mark, kind, restore strategy or one of its artifacts. */
  predicate HoldsSecret(c: Component) {
    || c.sensitive || c.kind.SecretReference? || c.primary.SecretExportable?
    || exists i :: 0 <= i < |c.artifacts| && c.artifacts[i].policy.SecretReference?
  }

  /** More than 16 MiB in all or in one artifact, or marked as large. */
  predicate HoldsMuch(c: Component) {
    || c.sizeBytes > 16_777_216 || c.largeHint
    || exists i :: 0 <= i < |c.artifacts| && (c.artifacts[i].sizeBytes > 16_777_216 || c.artifacts[i].policy.LargeOptIn?)
  }

  predicate IsBound(c: Component) {
    match c.portability
    case MachineBoundState => true
    case UserBound => true
    case ApplicationBound => true
    case ReauthRequiredState => true
    case _ => c.primary.MachineBound? || c.primary.ReauthRequired?
  }

  predicate NeedsHands(c: Component) {
    || c.restoreElevated || c.compatibilityElevated
    || (match c.primary case Manual => true case PortableBinary => true case Partial => true case UnknownStrategy => true case _ => false)
    || (match c.kind case Service => true case ScheduledTask => true case SystemFeature => true case _ => false)
  }

  predicate BringsConfiguration(c: Component) {
    || c.primary.ConfigPortable? || c.primary.ExportImport?
    || exists i :: 0 <= i < |c.artifacts| && (c.artifacts[i].policy.Config? || c.artifacts[i].policy.Export?)
  }

  /** Never recommended, whatever its score. */
  predicate Excluded(c: Component) {
    HoldsSecret(c) || HoldsMuch(c) || IsBound(c) || NeedsHands(c)
  }

  /** When a chip is given; `required` says whether a recommended component
      requires this one. */
  predicate Applies(c: Component, code: Code, required: bool) {
    match code
    case ConfirmedIdentity => (c.kind.Package? || c.kind.Application?) && c.confidence.Confirmed?
    case ReachableExecutable => c.reachable
    case PortableConfiguration => BringsConfiguration(c)
    case UserFacingCategory => c.kind.Application? || c.kind.Editor? || c.kind.Browser? || c.kind.Harness?
    case ReproducibleSource => c.reproducible
    case MachineAccountBound => IsBound(c)
    case ManualPrivileged => NeedsHands(c)
    case LargeData => HoldsMuch(c)
    case UnknownSource => c.confidence.Low? || c.confidence.UnknownConfidence? || !c.reproducible
    case SensitiveExcluded => HoldsSecret(c)
    case RequiredDependency => required
    case NoSignal => false
  }

  function Weight(code: Code): int {
    match code
    case ConfirmedIdentity => 30
    case ReachableExecutable => 20
    case PortableConfiguration => 15
    case UserFacingCategory => 10
    case ReproducibleSource => 10
    case MachineAccountBound => -25
    case ManualPrivileged => -20
    case LargeData => -15
    case UnknownSource => -10
    case SensitiveExcluded => 0
    case RequiredDependency => 20
    case NoSignal => 0
  }

  /** The order in which chips are listed. */
  const CODES: seq<Code> := [
    ConfirmedIdentity, ReachableExecutable, PortableConfiguration, UserFacingCategory, ReproducibleSource,
    MachineAccountBound, ManualPrivileged, LargeData, UnknownSource, SensitiveExcluded, RequiredDependency]

  lemma CodesInOrder()
    ensures |CODES| == 11 && CODES[0] == ConfirmedIdentity && CODES[1] == ReachableExecutable && CODES[2] == PortableConfiguration
    ensures CODES[3] == UserFacingCategory && CODES[4] == ReproducibleSource && CODES[5] == MachineAccountBound
    ensures CODES[6] == ManualPrivileged && CODES[7] == LargeData && CODES[8] == UnknownSource && CODES[9] == SensitiveExcluded
    ensures CODES[10] == RequiredDependency
  {
  }

  /** The chips of these codes that apply. */
  function Explain(codes: seq<Code>, c: Component, required: bool): seq<Chip> {
    if codes == [] then []
    else
      var code := codes[|codes| - 1];
      Explain(codes[..|codes| - 1], c, required) + (if Applies(c, code, required) then [Chip(code, Weight(code))] else [])
  }

  /** The weights of these codes that apply. */
  function Worth(codes: seq<Code>, c: Component, required: bool): int {
    if codes == [] then 0
    else
      var code := codes[|codes| - 1];
      Worth(codes[..|codes| - 1], c, required) + (if Applies(c, code, required) then Weight(code) else 0)
  }

  lemma LastExplained(codes: seq<Code>, c: Component, required: bool)
    requires codes != []
    ensures var last := |codes| - 1;
      Explain(codes, c, required)
      == Explain(codes[..last], c, required) + (if Applies(c, codes[last], required) then [Chip(codes[last], Weight(codes[last]))] else [])
  {
  }

  lemma ChipSumOneMore(chips: seq<Chip>, chip: Chip)
    ensures ChipSum(chips + [chip]) == ChipSum(chips) + chip.delta
  {
    assert (chips + [chip])[..|chips|] == chips;
  }

  lemma {:induction false} ExplainedSum(codes: seq<Code>, c: Component, required: bool)
    ensures ChipSum(Explain(codes, c, required)) == Worth(codes, c, required)
  {
    hide Applies, Weight, ChipSum, Explain;
    if codes == [] {
      assert ChipSum(Explain([], c, required)) == 0 by { NothingExplained(c, required); }
    } else {
      var last := |codes| - 1;
      ExplainedSum(codes[..last], c, required);
      LastExplained(codes, c, required);
      ChipSumOneMore(Explain(codes[..last], c, required), Chip(codes[last], Weight(codes[last])));
      assert Explain(codes[..last], c, required) + [] == Explain(codes[..last], c, required);
    }
  }

  lemma NothingExplained(c: Component, required: bool)
    ensures Explain([], c, required) == [] && ChipSum([]) == 0
  {
  }

  /** The chips are those that apply, with their weights. */
  lemma {:induction false} ExplainedMembers(codes: seq<Code>, c: Component, required: bool)
    ensures forall chip :: chip in Explain(codes, c, required) <==>
      chip.code in codes && Applies(c, chip.code, required) && chip.delta == Weight(chip.code)
  {
    hide Applies, Weight;
    if codes != [] {
      ExplainedMembers(codes[..|codes| - 1], c, required);
      assert codes == codes[..|codes| - 1] + [codes[|codes| - 1]];
    }
  }

  // ---------------------------------------------------------------- scores

  lemma FieldsMeaning(c: Component)
    ensures IsSensitive(c) <==> HoldsSecret(c)
    ensures IsLarge(c) <==> HoldsMuch(c)
    ensures IsMachineOrAccountBound(c) <==> IsBound(c)
    ensures IsManualOrPrivileged(c) <==> NeedsHands(c)
    ensures HasPortableConfiguration(c) <==> BringsConfiguration(c)
  {
    ArtifactsMeaning(c);
  }

  lemma ArtifactsMeaning(c: Component)
    ensures (exists a :: a in c.artifacts && a.policy == Selection.SecretReference)
      <==> exists i :: 0 <= i < |c.artifacts| && c.artifacts[i].policy.SecretReference?
    ensures (exists a :: a in c.artifacts && (a.sizeBytes > 16_777_216 || a.policy == Selection.LargeOptIn))
      <==> exists i :: 0 <= i < |c.artifacts| && (c.artifacts[i].sizeBytes > 16_777_216 || c.artifacts[i].policy.LargeOptIn?)
    ensures (exists a :: a in c.artifacts && (a.policy == Selection.Config || a.policy == Selection.Export))
      <==> exists i :: 0 <= i < |c.artifacts| && (c.artifacts[i].policy.Config? || c.artifacts[i].policy.Export?)
  {
    assert forall i :: 0 <= i < |c.artifacts| ==> c.artifacts[i] in c.artifacts;
  }

  lemma ChipsOneMore(s: (int, seq<Chip>), c: Component, n: nat, condition: bool)
    requires n < 10 && s.1 == Explain(CODES[..n], c, false) && condition == Applies(c, CODES[n], false)
    ensures AddChip(s, condition, CODES[n], Weight(CODES[n])).1 == Explain(CODES[..n + 1], c, false)
  {
    hide Applies, Explain;
    assert CODES[..n + 1][..n] == CODES[..n] && CODES[..n + 1][n] == CODES[n];
    LastExplained(CODES[..n + 1], c, false);
    assert s.1 + [] == s.1;
  }

  lemma GainedChips(c: Component)
    ensures Gains(c).1 == Explain(CODES[..5], c, false)
  {
    FieldsMeaning(c);
    NothingExplained(c, false);
    CodesInOrder();
    hide Explain, AddChip, HasPortableConfiguration, BringsConfiguration, CODES;
    assert CODES[..0] == [];
    var s0: (int, seq<Chip>) := (0, []);
    ChipsOneMore(s0, c, 0, IsConfirmed(c));
    var s1 := AddChip(s0, IsConfirmed(c), ConfirmedIdentity, 30);
    ChipsOneMore(s1, c, 1, c.reachable);
    var s2 := AddChip(s1, c.reachable, ReachableExecutable, 20);
    ChipsOneMore(s2, c, 2, HasPortableConfiguration(c));
    var s3 := AddChip(s2, HasPortableConfiguration(c), PortableConfiguration, 15);
    ChipsOneMore(s3, c, 3, IsUserFacing(c));
    ChipsOneMore(AddChip(s3, IsUserFacing(c), UserFacingCategory, 10), c, 4, c.reproducible);
  }

  lemma LostChips(s: (int, seq<Chip>), c: Component)
    requires s.1 == Explain(CODES[..5], c, false)
    ensures Losses(s, c).1 == Explain(CODES[..9], c, false)
  {
    FieldsMeaning(c);
    CodesInOrder();
    hide CODES, Explain, AddChip, IsLarge, HoldsMuch, IsBound, IsMachineOrAccountBound, NeedsHands, IsManualOrPrivileged;
    ChipsOneMore(s, c, 5, IsMachineOrAccountBound(c));
    var s1 := AddChip(s, IsMachineOrAccountBound(c), MachineAccountBound, -25);
    ChipsOneMore(s1, c, 6, IsManualOrPrivileged(c));
    var s2 := AddChip(s1, IsManualOrPrivileged(c), ManualPrivileged, -20);
    ChipsOneMore(s2, c, 7, IsLarge(c));
    ChipsOneMore(AddChip(s2, IsLarge(c), LargeData, -15), c, 8, IsUncertain(c));
  }

  /** The base score is the sum of the weights that apply, its chips say which.
      Every component has a reproducible source or lacks one, so some chip is
      always given and the one for no signal never is. */
  lemma ScoreMeaning(c: Component)
    ensures var s := ScoreComponent(c);
      && s.chips == Explain(CODES[..10], c, false) && s.score == Worth(CODES[..10], c, false)
      && (s.autoAllowed <==> !Excluded(c)) && (s.recommended <==> !Excluded(c) && s.score > 0)
  {
    GainedChips(c);
    LostChips(Gains(c), c);
    NotedChips(Losses(Gains(c), c), c);
    FieldsMeaning(c);
    ScoreIsChipSum(c);
    ExplainedSum(CODES[..10], c, false);
    hide Explain, Gains, Losses, Notes, IsSensitive, IsLarge, IsMachineOrAccountBound, IsManualOrPrivileged, HoldsSecret, HoldsMuch, IsBound, NeedsHands, CODES;
    SecretStrategyIsSecret(c);
  }

  lemma SecretStrategyIsSecret(c: Component)
    ensures c.primary == SecretExportable ==> HoldsSecret(c)
  {
  }

  lemma NotedChips(s: (int, seq<Chip>), c: Component)
    requires s.1 == Explain(CODES[..9], c, false)
    ensures Notes(s, c).1 == Explain(CODES[..10], c, false)
  {
    FieldsMeaning(c);
    CodesInOrder();
    SourceIsNoted(c);
    ExplainedMembers(CODES[..9], c, false);
    hide Explain, CODES, IsSensitive, HoldsSecret, Applies;
    SensitiveApplies(c);
    ChipsOneMore(s, c, 9, IsSensitive(c));
    var code :| code in CODES[..9] && Applies(c, code, false);
    assert Chip(code, Weight(code)) in s.1;
  }

  lemma SensitiveApplies(c: Component)
    ensures Applies(c, SensitiveExcluded, false) <==> IsSensitive(c)
  {
    FieldsMeaning(c);
    hide HoldsSecret, IsSensitive;
  }

  lemma SourceIsNoted(c: Component)
    ensures exists code :: code in CODES[..9] && Applies(c, code, false)
  {
    CodesInOrder();
    assert CODES[..9][4] == ReproducibleSource && CODES[..9][8] == UnknownSource;
    hide CODES;
    assert ReproducibleSource in CODES[..9] && UnknownSource in CODES[..9];
    assert Applies(c, ReproducibleSource, false) || Applies(c, UnknownSource, false);
  }

  // ---------------------------------------------------------------- the edges

  lemma {:induction false} EmbeddedMeaning(components: seq<Component>)
    ensures forall e :: e in Embedded(components) <==> exists c :: c in components && e in c.dependencies
  {
    if components != [] {
      var last := |components| - 1;
      EmbeddedMeaning(components[..last]);
      assert components == components[..last] + [components[last]];
    }
  }

  /** The graph or one of its components states that one needs the other. */
  predicate StatesNeed(graph: Graph, from: Id, to: Id) {
    || Edge(from, to, true) in graph.edges
    || exists c :: c in graph.components && Edge(from, to, true) in c.dependencies
  }

  // ---------------------------------------------------------------- the ranking

  /** A result as its fields call for, given whether a recommended component
      requires it. */
  predicate AsFieldsSay(s: Scored, required: bool) {
    && s.chips == Explain(CODES, s.component, required) && s.score == Worth(CODES, s.component, required)
    && (s.recommended <==> !Excluded(s.component) && s.score > 0)
  }

  lemma RaisedMeaning(c: Component)
    ensures AsFieldsSay(ScoreComponent(c), false) && AsFieldsSay(Raised(ScoreComponent(c)), true)
  {
    ScoreMeaning(c);
    ScoreIsChipSum(c);
    WorthBounds(c, false);
    WorthBounds(c, true);
    hide ScoreComponent, Excluded, Explain, Worth;
    var base := ScoreComponent(c);
    assert base.chips + [] == base.chips;
  }

  /** Required does not matter to the other codes. */
  lemma WorthBounds(c: Component, required: bool)
    ensures Worth(CODES, c, required) == Worth(CODES[..10], c, false) + (if required then 20 else 0)
    ensures Explain(CODES, c, required) == Explain(CODES[..10], c, false) + (if required then [Chip(RequiredDependency, 20)] else [])
  {
    assert CODES[..|CODES| - 1] == CODES[..10] && CODES[|CODES| - 1] == RequiredDependency;
    assert RequiredDependency !in CODES[..10] by { assert forall i :: 0 <= i < 10 ==> CODES[..10][i] != RequiredDependency; }
    SameWithout(CODES[..10], c, required);
  }

  lemma {:induction false} SameWithout(codes: seq<Code>, c: Component, required: bool)
    requires RequiredDependency !in codes
    ensures Explain(codes, c, required) == Explain(codes, c, false) && Worth(codes, c, required) == Worth(codes, c, false)
  {
    if codes != [] {
      var last := |codes| - 1;
      assert codes[last] in codes && forall code :: code in codes[..last] ==> code in codes;
      SameWithout(codes[..last], c, required);
      hide HoldsSecret, HoldsMuch, IsBound, NeedsHands, BringsConfiguration;
    }
  }

  function ComponentsOf(scored: seq<Scored>): (components: seq<Component>)
    ensures |components| == |scored| && forall i :: 0 <= i < |scored| ==> components[i] == scored[i].component
  {
    seq(|scored|, i requires 0 <= i < |scored| => scored[i].component)
  }

  lemma ConsComponents(x: Scored, scored: seq<Scored>)
    ensures multiset(ComponentsOf([x] + scored)) == multiset{x.component} + multiset(ComponentsOf(scored))
  {
    assert ComponentsOf([x] + scored) == [x.component] + ComponentsOf(scored);
  }

  lemma {:induction false} InsertKeepsComponents(x: Scored, sorted: seq<Scored>, before: (Scored, Scored) -> bool)
    ensures multiset(ComponentsOf(InsertBy(x, sorted, before))) == multiset{x.component} + multiset(ComponentsOf(sorted))
  {
    hide ComponentsOf;
    ConsComponents(x, sorted);
    if sorted != [] && before(sorted[0], x) {
      InsertKeepsComponents(x, sorted[1..], before);
      ConsComponents(sorted[0], sorted[1..]);
      ConsComponents(sorted[0], InsertBy(x, sorted[1..], before));
      assert sorted == [sorted[0]] + sorted[1..];
    }
  }

  lemma {:induction false} SortKeepsComponents(xs: seq<Scored>, before: (Scored, Scored) -> bool)
    ensures multiset(ComponentsOf(SortBy(xs, before))) == multiset(ComponentsOf(xs))
  {
    if xs != [] {
      var last := |xs| - 1;
      SortKeepsComponents(xs[..last], before);
      InsertKeepsComponents(xs[last], SortBy(xs[..last], before), before);
      assert ComponentsOf(xs) == ComponentsOf(xs[..last]) + [xs[last].component];
    }
  }

  /** The kinds in the order of their declaration. */
  const KINDS: seq<Kind> := [
    Application, Package, Runtime, Tool, Harness, McpServer, Skill, Agent, Hook, Plugin, Browser, BrowserProfile, Editor, Extension,
    Configuration, DataArtifact, SecretReference, EnvironmentVariable, SystemFeature, Service, ScheduledTask, Shell,
    PortableBinaryKind, WslDistribution, DockerContext, DockerImage, DockerVolume, UnknownKind]

  lemma CategoryMeaning(c: Component)
    ensures Category(c) < |KINDS| && KINDS[Category(c)] == c.kind
  {
  }

  /** Falling scores; at equal score kinds as they are declared, then identifiers. */
  predicate RankedBefore(s: Scored, t: Scored) {
    || s.score > t.score
    || (s.score == t.score && exists i, j :: 0 <= i <= j < |KINDS| && KINDS[i] == s.component.kind && KINDS[j] == t.component.kind
                                && (i == j ==> s.component.id <= t.component.id))
  }

  /** Every component comes out once, ranked by falling score. */
  lemma RankingIsComplete(graph: Graph)
    ensures multiset(ComponentsOf(Ranking(graph))) == multiset(graph.components)
    ensures forall i, j :: 0 <= i < j < |Ranking(graph)| ==> RankedBefore(Ranking(graph)[i], Ranking(graph)[j])
  {
    var components := SortBy(graph.components, ComponentOrder);
    SortKeepsContents(graph.components, ComponentOrder);
    var scored := Final(Base(components), Pairs(components, AllEdges(graph)));
    hide Category;
    forall i | 0 <= i < |components| ensures scored[i].component == components[i] {
      FinalMeaning(components, AllEdges(graph), i);
    }
    assert ComponentsOf(scored) == components;
    SortKeepsComponents(scored, RankOrder);
    RankOrderIsTotal();
    SortOrders(scored, RankOrder);
    var output := Ranking(graph);
    hide Ranking, Final;
    forall i, j | 0 <= i < j < |output| ensures RankedBefore(output[i], output[j]) {
      assert RankOrder(output[i], output[j]);
      CategoryMeaning(output[i].component);
      CategoryMeaning(output[j].component);
      hide KINDS;
    }
  }

  predicate IdsDiffer(components: seq<Component>) {
    forall i, j :: 0 <= i < j < |components| ==> components[i].id != components[j].id
  }

  /** A different recommended component needs this one. */
  ghost predicate NeededByRecommended(graph: Graph, s: Scored) {
    exists o :: o in Ranking(graph) && o.recommended && o.component.id != s.component.id && StatesNeed(graph, o.component.id, s.component.id)
  }

  lemma NeedIsRequired(graph: Graph, from: Id, to: Id)
    ensures StatesNeed(graph, from, to) <==> Requires(AllEdges(graph), from, to)
  {
    EmbeddedMeaning(graph.components);
  }

  lemma SortedIdsDiffer(components: seq<Component>)
    requires IdsDiffer(components)
    ensures IdsDiffer(SortBy(components, ComponentOrder))
  {
    var sorted := SortBy(components, ComponentOrder);
    SortKeepsContents(components, ComponentOrder);
    var apart := (c: Component, d: Component) => c.id != d.id;
    hide ComponentOrder;
    assert SelectionOrder.Pairwise(components, apart);
    SelectionOrder.PairwiseForgetsOrder(components, sorted, apart);
    assert forall i, j :: 0 <= i < j < |sorted| ==> apart(sorted[i], sorted[j]);
  }

  /** Positions in the sorted graph and results in the ranking. */
  lemma RankedAt(graph: Graph, s: Scored)
    ensures var components := SortBy(graph.components, ComponentOrder);
      s in Ranking(graph) <==> s in Final(Base(components), Pairs(components, AllEdges(graph)))
  {
    var components := SortBy(graph.components, ComponentOrder);
    var scored := Final(Base(components), Pairs(components, AllEdges(graph)));
    SortKeepsContents(scored, RankOrder);
    SameMembers(Ranking(graph), scored);
  }

  lemma PairMeaning(components: seq<Component>, edges: seq<Edge>, j: nat, i: nat)
    requires IdsDiffer(components) && j < |components| && i < |components|
    ensures (j, i) in Pairs(components, edges) <==> components[j].id != components[i].id && Requires(edges, components[j].id, components[i].id)
  {
    assert j < i ==> components[j].id != components[i].id;
    assert i < j ==> components[i].id != components[j].id;
  }

  /** Results stand for their components, and members of the least set are
      those recommended. */
  ghost predicate ResultsOf(scored: seq<Scored>, components: seq<Component>, r: set<nat>) {
    && |scored| == |components|
    && (forall j :: 0 <= j < |components| ==> scored[j].component == components[j] && (scored[j].recommended <==> j in r))
    && (forall j :: j in r ==> j < |components|)
  }

  lemma FinalResults(components: seq<Component>, edges: seq<Edge>)
    ensures var base, pairs := Base(components), Pairs(components, edges);
      ResultsOf(Final(base, pairs), components, Recommended(base, pairs))
  {
    var base, pairs := Base(components), Pairs(components, edges);
    RecommendedIsLeast(base, pairs);
    forall j | 0 <= j < |components|
      ensures Final(base, pairs)[j].component == components[j] && (Final(base, pairs)[j].recommended <==> j in Recommended(base, pairs))
    {
      FinalMeaning(components, edges, j);
    }
    hide Final, Recommended;
  }

  /** Some recommended result needs this component. */
  ghost predicate NeededIn(scored: seq<Scored>, edges: seq<Edge>, id: Id) {
    exists o :: o in scored && o.recommended && o.component.id != id && Requires(edges, o.component.id, id)
  }

  lemma RequiredIsNeeded(components: seq<Component>, edges: seq<Edge>, scored: seq<Scored>, r: set<nat>, i: nat)
    requires IdsDiffer(components) && i < |components| && ResultsOf(scored, components, r)
    ensures i in Required(Pairs(components, edges), r) <==> NeededIn(scored, edges, components[i].id)
  {
    var pairs := Pairs(components, edges);
    forall j: nat | j < |components|
      ensures (j, i) in pairs <==> components[j].id != components[i].id && Requires(edges, components[j].id, components[i].id)
    {
      PairMeaning(components, edges, j, i);
    }
    hide Pairs, Requires;
    if i in Required(pairs, r) {
      var p :| p in pairs && p.0 in r && p.1 == i;
      assert (p.0, i) in pairs && scored[p.0] in scored;
    }
    if NeededIn(scored, edges, components[i].id) {
      var o :| o in scored && o.recommended && o.component.id != components[i].id && Requires(edges, o.component.id, components[i].id);
      var j: nat :| j < |scored| && scored[j] == o;
      assert (j, i) in pairs;
    }
  }

  lemma NeededInRanking(graph: Graph, s: Scored)
    ensures var components := SortBy(graph.components, ComponentOrder);
      var scored := Final(Base(components), Pairs(components, AllEdges(graph)));
      NeededIn(scored, AllEdges(graph), s.component.id) <==> NeededByRecommended(graph, s)
  {
    var components := SortBy(graph.components, ComponentOrder);
    var scored := Final(Base(components), Pairs(components, AllEdges(graph)));
    forall o ensures o in Ranking(graph) <==> o in scored { RankedAt(graph, o); }
    forall a, b ensures StatesNeed(graph, a, b) <==> Requires(AllEdges(graph), a, b) { NeedIsRequired(graph, a, b); }
    hide Ranking, Final, StatesNeed, Requires, AllEdges;
  }

  /** Recommendations by field: each result is recommended exactly when its
      component is not excluded and its score is positive; score and chips are
      those of the fields, and 20 more when the graph or a component states that
      a different recommended component needs it. */
  lemma RecommendationsByField(graph: Graph)
    requires IdsDiffer(graph.components)
    ensures forall s :: s in Ranking(graph) ==> AsFieldsSay(s, NeededByRecommended(graph, s))
  {
    var components, edges := SortBy(graph.components, ComponentOrder), AllEdges(graph);
    var base, pairs := Base(components), Pairs(components, edges);
    var scored := Final(base, pairs);
    SortKeepsContents(graph.components, ComponentOrder);
    SameMembers(graph.components, components);
    forall s | s in Ranking(graph) ensures AsFieldsSay(s, NeededByRecommended(graph, s)) {
      RankedAt(graph, s);
      var i: nat :| i < |scored| && scored[i] == s;
      SortedIdsDiffer(graph.components);
      FinalResults(components, edges);
      RequiredIsNeeded(components, edges, scored, Recommended(base, pairs), i);
      NeededInRanking(graph, s);
      RaisedMeaning(components[i]);
      hide AsFieldsSay, NeededByRecommended, NeededIn, Ranking, ScoreComponent, Raised, Required, Recommended, Pairs, AllEdges, IdsDiffer;
    }
  }
}
