/** What a selection must look like, field by field, to resolve, and what its
    record then holds (crates/reforge-domain/src/selection.rs). */
module SelectionMeaning {
  import opened Wrappers
  import opened Graphs
  import opened Closure
  import opened Paths
  import opened PathMeaning
  import opened Selection
  import opened SelectionOrder
  import Repackage

  // ---------------------------------------------------------------- components

  predicate Secret(c: Component) {
    c.sensitive || c.secretKind
  }

  /** A portable binary by its kind, its restore strategy or one of its artifacts;
      or something unknown with an executable. */
  predicate UnknownBinary(c: Component) {
    || c.portableKind || c.restoresPortableBinary
    || (exists i :: 0 <= i < |c.artifacts| && c.artifacts[i].policy.PortableBinary?)
    || (c.unknownKind && c.executableKnown)
  }

  predicate ComponentPermitted(c: Component, policy: SelectionPolicy) {
    && (Secret(c) ==> policy.vaultExplicit)
    && (UnknownBinary(c) ==> policy.portableBinaries && c.hashSafe)
  }

  lemma UnknownBinaryMeaning(c: Component)
    ensures IsUnknownBinary(c) <==> UnknownBinary(c)
  {
    if exists a :: a in c.artifacts && a.policy == PortableBinary {
      var a :| a in c.artifacts && a.policy == PortableBinary;
      var i :| 0 <= i < |c.artifacts| && c.artifacts[i] == a;
    }
    if exists i :: 0 <= i < |c.artifacts| && c.artifacts[i].policy.PortableBinary? {
      var i :| 0 <= i < |c.artifacts| && c.artifacts[i].policy.PortableBinary?;
      assert c.artifacts[i] in c.artifacts;
    }
  }

  /** A component is allowed exactly under the policies its fields call for; the
      policies are looked at before the hash. */
  lemma ComponentVerdictMeaning(c: Component, policy: SelectionPolicy)
    ensures var verdict := ComponentVerdict(c, policy);
      && (verdict.Ok? <==> ComponentPermitted(c, policy))
      && (verdict == Err(SelectionIncomplete) <==>
            (Secret(c) ==> policy.vaultExplicit) && UnknownBinary(c) && policy.portableBinaries && !c.hashSafe)
      && (verdict.Err? && verdict.error != SelectionIncomplete ==> verdict.error == SecurityPolicy)
      && (verdict.Ok? ==> forall w :: w in verdict.value <==>
            || (w == SensitiveComponent(c.id) && Secret(c))
            || (w == UnknownSource(c.id) && UnknownBinary(c) && !c.sourceReported)
            || (w == Unsigned(c.id) && UnknownBinary(c) && !c.signatureReported))
  {
    UnknownBinaryMeaning(c);
    hide IsUnknownBinary, UnknownBinary;
  }

  // ---------------------------------------------------------------- artifacts

  /** More than 16 MiB, or marked as large. */
  predicate Large(a: Artifact) {
    a.policy.LargeOptIn? || a.sizeBytes > 16_777_216
  }

  predicate Named(a: Artifact, decisions: seq<Decision>) {
    exists d :: d in decisions && d.artifact == a.id
  }

  /** What is decided counts; of the rest, configuration, data and exports that
      are not large are taken. */
  predicate Wanted(a: Artifact, decisions: seq<Decision>) {
    if Named(a, decisions) then exists d :: d in decisions && d.artifact == a.id && d.wanted
    else (a.policy.Config? || a.policy.Data? || a.policy.Export?) && a.sizeBytes <= 16_777_216
  }

  predicate ArtifactPermitted(owner: Component, a: Artifact, decisions: seq<Decision>, policy: SelectionPolicy) {
    && CleanPath(a.sourcePath.relative)
    && (a.policy.SecretReference? || Secret(owner) ==> policy.vaultExplicit)
    && (Large(a) ==> policy.largeConfirmable && Named(a, decisions))
  }

  lemma DecisionsMeaning(a: Artifact, decisions: seq<Decision>)
    requires UniqueDecisions(decisions)
    ensures a.id in DecisionMap(decisions) <==> Named(a, decisions)
    ensures Included(a, DecisionMap(decisions)) <==> Wanted(a, decisions)
  {
    hide UniqueDecisions, DecisionMap;
    DecisionMapMeaning(decisions);
    if Named(a, decisions) {
      var d :| d in decisions && d.artifact == a.id;
      assert DecisionMap(decisions)[a.id] == d.wanted;
      assert forall e :: e in decisions && e.artifact == a.id ==> DecisionMap(decisions)[a.id] == e.wanted;
    }
  }

  lemma WhenMeaning(condition: bool, warning: Warning, w: Warning)
    ensures w in When(condition, warning) <==> condition && w == warning
  {
  }

  /** The warnings of one artifact that is taken. */
  predicate WarnsOf(owner: Component, a: Artifact, w: Warning) {
    || (w == SecretArtifact(a.id) && (a.policy.SecretReference? || Secret(owner)))
    || (w == LargeArtifact(a.id) && Large(a))
    || (w == ManualArtifact(a.id) && a.policy.Manual?)
  }

  lemma ArtifactWarningsMeaning(owner: Component, a: Artifact, explicit: bool, policy: SelectionPolicy, w: Warning)
    requires ArtifactVerdict(owner, a, explicit, policy).Ok?
    ensures w in ArtifactVerdict(owner, a, explicit, policy).value <==> WarnsOf(owner, a, w)
  {
    var secret := a.policy == SecretReference || IsSecret(owner);
    WhenMeaning(secret, SecretArtifact(a.id), w);
    WhenMeaning(IsLarge(a), LargeArtifact(a.id), w);
    WhenMeaning(a.policy == Manual, ManualArtifact(a.id), w);
    hide When, ValidToken;
  }

  lemma ArtifactVerdictMeaning(owner: Component, a: Artifact, decisions: seq<Decision>, policy: SelectionPolicy)
    requires UniqueDecisions(decisions)
    ensures var verdict := PickVerdict(Pick(owner, a), DecisionMap(decisions), policy);
      && (verdict.Ok? <==> ArtifactPermitted(owner, a, decisions, policy))
      && (verdict == Err(SelectionIncomplete) <==>
            && CleanPath(a.sourcePath.relative) && (a.policy.SecretReference? || Secret(owner) ==> policy.vaultExplicit)
            && Large(a) && policy.largeConfirmable && !Named(a, decisions))
      && (verdict.Err? && verdict.error != SelectionIncomplete ==> verdict.error == SecurityPolicy)
  {
    DecisionsMeaning(a, decisions);
    NormalMeaning(a.sourcePath.relative);
    hide Normal, CleanPath, Named, DecisionMap, UniqueDecisions, When, Included, Wanted;
  }

  lemma PickRaises(owner: Component, a: Artifact, decisions: seq<Decision>, policy: SelectionPolicy, w: Warning)
    requires UniqueDecisions(decisions) && ArtifactPermitted(owner, a, decisions, policy)
    ensures w in Raised(Pick(owner, a), DecisionMap(decisions), policy) <==> WarnsOf(owner, a, w)
  {
    ArtifactVerdictMeaning(owner, a, decisions, policy);
    hide ArtifactVerdict, WarnsOf, ArtifactPermitted, DecisionMap, UniqueDecisions;
    ArtifactWarningsMeaning(owner, a, a.id in DecisionMap(decisions), policy, w);
  }

  // ---------------------------------------------------------------- the policy as a whole

  /** The artifact of a selected component is taken along. */
  ghost predicate Takes(graph: Graph, input: Input, c: Component, a: Artifact) {
    c in graph.components && c.id in Selected(graph, input) && a in c.artifacts && Wanted(a, input.artifacts)
  }

  ghost predicate PolicyMet(graph: Graph, input: Input) {
    && (forall c :: c in graph.components && c.id in Selected(graph, input) ==> ComponentPermitted(c, input.policy))
    && (forall c, a :: Takes(graph, input, c, a) ==> ArtifactPermitted(c, a, input.artifacts, input.policy))
    && (forall c, a, d :: c in graph.components && a in c.artifacts && d in input.artifacts && d.artifact == a.id && d.wanted
          ==> c.id in Selected(graph, input))
  }

  lemma TakenMeaning(graph: Graph, input: Input)
    requires UniqueDecisions(input.artifacts)
    ensures forall p :: p in Taken(graph, input) <==> Takes(graph, input, p.owner, p.artifact)
  {
    hide Selected, DecisionMap, UniqueDecisions, Wanted, Picks;
    Repackage.PicksMembers(graph.components, Selected(graph, input), DecisionMap(input.artifacts));
    forall a ensures Included(a, DecisionMap(input.artifacts)) <==> Wanted(a, input.artifacts) { DecisionsMeaning(a, input.artifacts); }
    hide Included;
  }

  lemma ComponentsMeaning(graph: Graph, input: Input)
    ensures ComponentsAllowed(graph.components, Selected(graph, input), input.policy)
      <==> forall c :: c in graph.components && c.id in Selected(graph, input) ==> ComponentPermitted(c, input.policy)
  {
    hide Selected, ComponentVerdict, ComponentPermitted;
    forall c ensures ComponentVerdict(c, input.policy).Ok? <==> ComponentPermitted(c, input.policy) {
      ComponentVerdictMeaning(c, input.policy);
    }
    assert forall i :: 0 <= i < |graph.components| ==> graph.components[i] in graph.components;
  }

  lemma PicksMeaning(graph: Graph, input: Input)
    requires UniqueDecisions(input.artifacts)
    ensures PicksAllowed(Taken(graph, input), DecisionMap(input.artifacts), input.policy)
      <==> forall c, a :: Takes(graph, input, c, a) ==> ArtifactPermitted(c, a, input.artifacts, input.policy)
  {
    TakenMeaning(graph, input);
    hide Selected, Taken, Takes, DecisionMap, PickVerdict, ArtifactPermitted, UniqueDecisions;
    var picks := Taken(graph, input);
    forall c, a ensures PickVerdict(Pick(c, a), DecisionMap(input.artifacts), input.policy).Ok? <==> ArtifactPermitted(c, a, input.artifacts, input.policy) {
      ArtifactVerdictMeaning(c, a, input.artifacts, input.policy);
    }
    if PicksAllowed(picks, DecisionMap(input.artifacts), input.policy) {
      forall c, a | Takes(graph, input, c, a) ensures ArtifactPermitted(c, a, input.artifacts, input.policy) {
        assert Pick(c, a) in picks;
        var i :| 0 <= i < |picks| && picks[i] == Pick(c, a);
      }
    } else {
      var i :| 0 <= i < |picks| && PickVerdict(picks[i], DecisionMap(input.artifacts), input.policy).Err?;
      assert picks[i] in picks && picks[i] == Pick(picks[i].owner, picks[i].artifact);
      assert Takes(graph, input, picks[i].owner, picks[i].artifact);
    }
  }

  lemma PolicyByField(graph: Graph, input: Input)
    requires UniqueDecisions(input.artifacts)
    ensures WithinPolicy(graph, input) <==> PolicyMet(graph, input)
  {
    ComponentsMeaning(graph, input);
    PicksMeaning(graph, input);
    hide Selected, Taken, Takes, ComponentPermitted, ArtifactPermitted, ComponentsAllowed, PicksAllowed, DecisionMap, UniqueDecisions;
  }

  /** Components and artifacts are listed once, decisions and roots are made once
      and about what is listed, and there are at most 250,000 roots. */
  predicate NamesResolve(graph: Graph, input: Input) {
    && UniqueComponents(graph.components) && UniqueArtifacts(graph.components)
    && (forall i, j :: 0 <= i < j < |input.artifacts| ==> input.artifacts[i].artifact != input.artifacts[j].artifact)
    && (forall d :: d in input.artifacts ==> exists c, a :: c in graph.components && a in c.artifacts && a.id == d.artifact)
    && (forall i, j :: 0 <= i < j < |input.components| ==> input.components[i] != input.components[j])
    && (forall id :: id in input.components ==> exists c :: c in graph.components && c.id == id)
    && |input.components| <= 250_000
  }

  lemma NamesMeaning(graph: Graph, input: Input)
    ensures WellReferenced(graph, input) <==> NamesResolve(graph, input)
  {
    hide UniqueComponents, UniqueArtifacts;
    forall id ensures id in ListedArtifacts(graph.components) <==> exists c, a :: c in graph.components && a in c.artifacts && a.id == id {}
    assert DecisionsResolve(input.artifacts, ListedArtifacts(graph.components)) <==>
      && (forall i, j :: 0 <= i < j < |input.artifacts| ==> input.artifacts[i].artifact != input.artifacts[j].artifact)
      && (forall d :: d in input.artifacts ==> exists c, a :: c in graph.components && a in c.artifacts && a.id == d.artifact);
    hide ListedArtifacts, DecisionsResolve;
    RootsMeaning(input.components, graph.components);
    hide RootsResolve, Inventory;
  }

  lemma RootsMeaning(roots: seq<ComponentId>, components: seq<Component>)
    ensures RootsResolve(roots, Inventory(components)) <==>
      && (forall i, j :: 0 <= i < j < |roots| ==> roots[i] != roots[j])
      && (forall id :: id in roots ==> exists c :: c in components && c.id == id)
  {
    forall id ensures id in Inventory(components) <==> exists c :: c in components && c.id == id {}
    hide Inventory;
    assert AsSet(roots) <= Inventory(components) <==> forall id :: id in roots ==> id in Inventory(components) by {
      assert forall id :: id in AsSet(roots) <==> id in roots;
    }
  }

  /** No required dependency of the selected is missing, and at most 250,000
      components are selected. */
  ghost predicate DependenciesResolve(graph: Graph, input: Input) {
    !Dangling(RequiredEdges(graph), Inventory(graph.components), Roots(input)) && |Selected(graph, input)| <= 250_000
  }

  /** At most 4,096 warnings, a million artifacts, 64 bits of bytes, and what the
      policy sets. */
  ghost predicate LimitsKept(input: Input, outcome: ClosureRecord) {
    && |outcome.warnings| <= 4_096 && |outcome.artifacts| <= 1_000_000 && outcome.totalBytes <= 18_446_744_073_709_551_615
    && (input.policy.maxBytes.Some? ==> outcome.totalBytes <= input.policy.maxBytes.value)
  }

  lemma LimitsMeaning(input: Input, outcome: ClosureRecord)
    ensures WithinLimits(input, outcome) <==> LimitsKept(input, outcome)
  {
  }

  /** A selection resolves exactly when its names are unique and resolve, its
      required dependencies do within the limit, each selected component and each
      artifact taken is permitted by its fields, and the totals are within the
      limits. */
  lemma SelectableByField(graph: Graph, input: Input)
    ensures Selectable(graph, input) <==>
      && NamesResolve(graph, input) && DependenciesResolve(graph, input)
      && PolicyMet(graph, input) && LimitsKept(input, Outcome(graph, input))
  {
    LimitsMeaning(input, Outcome(graph, input));
    NamesMeaning(graph, input);
    hide NamesResolve, LimitsKept, Inventory, ListedArtifacts, Selected, Dangling, Outcome;
    hide WithinPolicy, PolicyMet, WithinLimits, UniqueComponents, UniqueArtifacts, RootsResolve, UniqueDecisions;
    if WellReferenced(graph, input) { PolicyByField(graph, input); }
  }

  // ---------------------------------------------------------------- the record

  /** What a warning in the record tells. */
  ghost predicate Called(graph: Graph, input: Input, w: Warning) {
    match w
    case AutoAdded(d) => d in Selected(graph, input) && d !in input.components
    case OptionalDependency(available, d) =>
      && d !in Selected(graph, input) && (available <==> exists c :: c in graph.components && c.id == d)
      && exists e :: e in AllEdges(graph) && !e.required && e.from in Selected(graph, input) && e.to == d
    case SensitiveComponent(id) => exists c :: ChosenAs(graph, input, c, id) && Secret(c)
    case UnknownSource(id) => exists c :: ChosenAs(graph, input, c, id) && UnknownBinary(c) && !c.sourceReported
    case Unsigned(id) => exists c :: ChosenAs(graph, input, c, id) && UnknownBinary(c) && !c.signatureReported
    case SecretArtifact(id) => exists c, a :: TakenAs(graph, input, c, a, id) && (a.policy.SecretReference? || Secret(c))
    case LargeArtifact(id) => exists c, a :: TakenAs(graph, input, c, a, id) && Large(a)
    case ManualArtifact(id) => exists c, a :: TakenAs(graph, input, c, a, id) && a.policy.Manual?
  }

  ghost predicate ChosenAs(graph: Graph, input: Input, c: Component, id: ComponentId) {
    c in graph.components && c.id == id && id in Selected(graph, input)
  }

  ghost predicate TakenAs(graph: Graph, input: Input, c: Component, a: Artifact, id: ArtifactId) {
    Takes(graph, input, c, a) && a.id == id
  }

  lemma {:induction false} SumWarnings(picks: seq<Pick>, decisions: Decisions, policy: SelectionPolicy, given: set<Warning>)
    ensures forall w :: w in Sum(picks, decisions, policy, given).warnings <==>
      w in given || exists p :: p in picks && w in Raised(p, decisions, policy)
  {
    hide PickVerdict, Raised;
    if picks != [] {
      var last := |picks| - 1;
      SumWarnings(picks[..last], decisions, policy, given);
      assert picks == picks[..last] + [picks[last]];
    }
  }

  /** Component IDs of a warning raised by a component. */
  predicate OfComponent(w: Warning) {
    w.SensitiveComponent? || w.UnknownSource? || w.Unsigned?
  }

  lemma ComponentWarningMeaning(graph: Graph, input: Input, w: Warning)
    requires PolicyMet(graph, input)
    ensures w in ComponentWarnings(graph.components, Selected(graph, input), input.policy) <==> OfComponent(w) && Called(graph, input, w)
  {
    hide Selected, Takes, ArtifactPermitted, ComponentVerdict, UnknownBinary, ComponentWarnings;
    ComponentWarningsMeaning(graph.components, Selected(graph, input), input.policy);
    forall c | c in graph.components && c.id in Selected(graph, input)
      ensures Warns(c, input.policy, w) <==>
        || (w == SensitiveComponent(c.id) && Secret(c))
        || (w == UnknownSource(c.id) && UnknownBinary(c) && !c.sourceReported)
        || (w == Unsigned(c.id) && UnknownBinary(c) && !c.signatureReported)
    {
      ComponentVerdictMeaning(c, input.policy);
    }
    hide Warns, Secret, ComponentPermitted, PolicyMet;
    if c :| c in graph.components && c.id in Selected(graph, input) && Warns(c, input.policy, w) {
      assert ChosenAs(graph, input, c, c.id);
    }
  }

  /** Warnings about dependencies. */
  predicate OfDependency(w: Warning) {
    w.AutoAdded? || w.OptionalDependency?
  }

  lemma DependencyWarningMeaning(graph: Graph, input: Input, w: Warning)
    ensures w in AutoWarnings(Selected(graph, input) - Roots(input)) + OptionalWarnings(AllEdges(graph), Inventory(graph.components), Selected(graph, input))
      <==> OfDependency(w) && Called(graph, input, w)
  {
    hide Selected, AllEdges;
  }

  lemma WarningOfTaken(graph: Graph, input: Input, w: Warning)
    ensures (exists c, a :: Takes(graph, input, c, a) && WarnsOf(c, a, w)) <==> !OfComponent(w) && !OfDependency(w) && Called(graph, input, w)
  {
    hide Takes, Secret, Large;
    if c, a :| Takes(graph, input, c, a) && WarnsOf(c, a, w) {
      assert TakenAs(graph, input, c, a, a.id);
    }
  }

  lemma PickWarningMeaning(graph: Graph, input: Input, w: Warning)
    requires UniqueDecisions(input.artifacts) && PolicyMet(graph, input)
    ensures (exists p :: p in Taken(graph, input) && w in Raised(p, DecisionMap(input.artifacts), input.policy))
      <==> !OfComponent(w) && !OfDependency(w) && Called(graph, input, w)
  {
    TakenMeaning(graph, input);
    WarningOfTaken(graph, input, w);
    hide Taken, DecisionMap, UniqueDecisions, ComponentPermitted, ArtifactPermitted, Takes, Raised, WarnsOf, Called, OfComponent, OfDependency;
    forall c, a | Takes(graph, input, c, a)
      ensures w in Raised(Pick(c, a), DecisionMap(input.artifacts), input.policy) <==> WarnsOf(c, a, w)
    {
      PickRaises(c, a, input.artifacts, input.policy, w);
    }
    if p :| p in Taken(graph, input) && w in Raised(p, DecisionMap(input.artifacts), input.policy) {
      assert p == Pick(p.owner, p.artifact) && Takes(graph, input, p.owner, p.artifact);
    }
    if c, a :| Takes(graph, input, c, a) && WarnsOf(c, a, w) {
      assert Pick(c, a) in Taken(graph, input);
    }
  }

  /** The record of a selection that meets the policy: the closure, what was
      added to the roots, the artifacts taken, and exactly the warnings that
      fields call for. */
  lemma RecordByField(graph: Graph, input: Input)
    requires UniqueDecisions(input.artifacts) && PolicyMet(graph, input)
    ensures var r := Outcome(graph, input);
      && r.components == Selected(graph, input) && r.autoAdded == r.components - Roots(input)
      && (forall id :: id in r.artifacts <==> exists c, a :: TakenAs(graph, input, c, a, id))
      && (forall w :: w in r.warnings <==> Called(graph, input, w))
  {
    var decisions := DecisionMap(input.artifacts);
    TakenMeaning(graph, input);
    Repackage.SumIds(Taken(graph, input), decisions, input.policy, EarlyWarnings(graph, input));
    SumWarnings(Taken(graph, input), decisions, input.policy, EarlyWarnings(graph, input));
    forall w ensures w in Outcome(graph, input).warnings <==> Called(graph, input, w) {
      ComponentWarningMeaning(graph, input, w);
      DependencyWarningMeaning(graph, input, w);
      PickWarningMeaning(graph, input, w);
      hide Sum, Taken, Called, PolicyMet, Selected, ComponentWarnings, AutoWarnings, OptionalWarnings, Raised, AllEdges;
    }
    hide Sum, Taken, Called, PolicyMet, Selected, Takes;
    forall id ensures id in Outcome(graph, input).artifacts <==> exists c, a :: TakenAs(graph, input, c, a, id) {
      if id in Outcome(graph, input).artifacts {
        var p :| p in Taken(graph, input) && p.artifact.id == id;
        assert TakenAs(graph, input, p.owner, p.artifact, id);
      }
      if c, a :| TakenAs(graph, input, c, a, id) {
        assert Pick(c, a) in Taken(graph, input);
      }
    }
  }
}
