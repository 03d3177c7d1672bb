/** Packaging a resolved selection and resolving it again on restore
    (crates/reforge-cli/src/main.rs, `build_package_inputs` restricts the graph,
    `build_plan_with_summary` closes the packaged selection over it). */
module Repackage {
  import opened Wrappers
  import opened Graphs
  import opened Closure
  import opened Selection

  /** Size of an artifact as stored, by ID. */
  type StoredSize = ArtifactId -> U64

  // ---------------------------------------------------------------- restriction

  predicate InsideEdge(e: Edge, s: set<ComponentId>) {
    e.from in s && e.to in s
  }

  function KeepEdges(edges: seq<Edge>, s: set<ComponentId>): (kept: seq<Edge>)
    ensures forall e :: e in kept <==> e in edges && InsideEdge(e, s)
  {
    if edges == [] then []
    else
      var last := |edges| - 1;
      assert edges == edges[..last] + [edges[last]];
      KeepEdges(edges[..last], s) + (if InsideEdge(edges[last], s) then [edges[last]] else [])
  }

  function Stored(a: Artifact, size: StoredSize): Artifact {
    a.(sizeBytes := size(a.id))
  }

  function KeepArtifacts(artifacts: seq<Artifact>, ids: set<ArtifactId>, size: StoredSize): seq<Artifact> {
    if artifacts == [] then []
    else
      var last := |artifacts| - 1;
      KeepArtifacts(artifacts[..last], ids, size) + (if artifacts[last].id in ids then [Stored(artifacts[last], size)] else [])
  }

  function KeepInside(c: Component, record: ClosureRecord, size: StoredSize): Component {
    c.(dependencies := KeepEdges(c.dependencies, record.components),
       artifacts := KeepArtifacts(c.artifacts, record.artifacts, size))
  }

  function KeepComponents(components: seq<Component>, record: ClosureRecord, size: StoredSize): seq<Component> {
    if components == [] then []
    else
      var last := |components| - 1;
      KeepComponents(components[..last], record, size)
      + (if components[last].id in record.components then [KeepInside(components[last], record, size)] else [])
  }

  function KeepDecisions(decisions: seq<Decision>, ids: set<ArtifactId>): seq<Decision> {
    if decisions == [] then []
    else
      var last := |decisions| - 1;
      KeepDecisions(decisions[..last], ids) + (if decisions[last].artifact in ids then [decisions[last]] else [])
  }

  function Packaged(graph: Graph, record: ClosureRecord, size: StoredSize): Graph {
    Graph(KeepComponents(graph.components, record, size), KeepEdges(graph.edges, record.components))
  }

  function PackagedInput(input: Input, record: ClosureRecord): Input {
    input.(artifacts := KeepDecisions(input.artifacts, record.artifacts))
  }

  // ---------------------------------------------------------------- what restriction keeps

  lemma {:induction false} KeptComponents(components: seq<Component>, record: ClosureRecord, size: StoredSize)
    ensures forall c' :: c' in KeepComponents(components, record, size) <==>
      exists c :: c in components && c.id in record.components && c' == KeepInside(c, record, size)
  {
    hide KeepInside;
    if components != [] {
      var last := |components| - 1;
      KeptComponents(components[..last], record, size);
      assert components == components[..last] + [components[last]];
    }
  }

  lemma KeptInventory(components: seq<Component>, record: ClosureRecord, size: StoredSize)
    ensures Inventory(KeepComponents(components, record, size)) == Inventory(components) * record.components
  {
    KeptComponents(components, record, size);
    forall c | c in components && c.id in record.components
      ensures c.id in Inventory(KeepComponents(components, record, size))
    {
      assert KeepInside(c, record, size) in KeepComponents(components, record, size);
    }
  }

  lemma {:induction false} KeptComponentsUnique(components: seq<Component>, record: ClosureRecord, size: StoredSize)
    requires UniqueComponents(components)
    ensures UniqueComponents(KeepComponents(components, record, size))
  {
    if components != [] {
      var last := |components| - 1;
      KeptComponentsUnique(components[..last], record, size);
      KeptComponents(components[..last], record, size);
      var kept := KeepComponents(components[..last], record, size);
      forall i | 0 <= i < |kept| ensures kept[i].id != components[last].id {
        assert kept[i] in kept;
      }
    }
  }

  lemma {:induction false} KeptArtifacts(artifacts: seq<Artifact>, ids: set<ArtifactId>, size: StoredSize)
    ensures forall a' :: a' in KeepArtifacts(artifacts, ids, size) <==> exists a :: a in artifacts && a.id in ids && a' == Stored(a, size)
  {
    if artifacts != [] {
      var last := |artifacts| - 1;
      KeptArtifacts(artifacts[..last], ids, size);
      assert artifacts == artifacts[..last] + [artifacts[last]];
    }
  }

  lemma {:induction false} KeptOwnUnique(artifacts: seq<Artifact>, ids: set<ArtifactId>, size: StoredSize)
    requires OwnArtifactsUnique(artifacts)
    ensures OwnArtifactsUnique(KeepArtifacts(artifacts, ids, size))
  {
    if artifacts != [] {
      var last := |artifacts| - 1;
      KeptOwnUnique(artifacts[..last], ids, size);
      KeptArtifacts(artifacts[..last], ids, size);
      var kept := KeepArtifacts(artifacts[..last], ids, size);
      forall i | 0 <= i < |kept| ensures kept[i].id != artifacts[last].id {
        assert kept[i] in kept;
      }
    }
  }

  lemma KeptListing(components: seq<Component>, record: ClosureRecord, size: StoredSize)
    ensures ListedArtifacts(KeepComponents(components, record, size)) <= ListedArtifacts(components)
  {
    hide KeepComponents;
    KeptComponents(components, record, size);
    forall c', a' | c' in KeepComponents(components, record, size) && a' in c'.artifacts
      ensures a'.id in ListedArtifacts(components)
    {
      var c :| c in components && c' == KeepInside(c, record, size);
      assert c'.artifacts == KeepInside(c, record, size).artifacts;
      assert c'.artifacts == KeepArtifacts(c.artifacts, record.artifacts, size);
      KeptArtifacts(c.artifacts, record.artifacts, size);
      var a :| a in c.artifacts && a' == Stored(a, size);
      assert a.id in ListedArtifacts(components);
    }
  }

  lemma {:induction false} KeptArtifactsUnique(components: seq<Component>, record: ClosureRecord, size: StoredSize)
    requires UniqueArtifacts(components)
    ensures UniqueArtifacts(KeepComponents(components, record, size))
  {
    hide ArtifactsNewAt, ListedArtifacts, KeepArtifacts;
    if components != [] {
      var last := |components| - 1;
      var shorter, c := components[..last], components[last];
      forall i | 0 <= i < last ensures ArtifactsNewAt(shorter, i) {
        SamePrefixNew(components, shorter, i);
      }
      KeptArtifactsUnique(shorter, record, size);
      if c.id in record.components {
        NewAfterKeeping(components, record, size);
        NewComponentKeepsUnique(KeepComponents(shorter, record, size), KeepInside(c, record, size));
      } else {
        assert KeepComponents(components, record, size) == KeepComponents(shorter, record, size);
      }
    }
  }

  lemma SamePrefixNew(components: seq<Component>, others: seq<Component>, i: nat)
    requires i < |components| && i < |others| && components[..i + 1] == others[..i + 1] && ArtifactsNewAt(components, i)
    ensures ArtifactsNewAt(others, i)
  {
    assert components[..i + 1][..i] == components[..i] && others[..i + 1][..i] == others[..i];
    assert components[i] == components[..i + 1][i] == others[..i + 1][i] == others[i];
  }

  lemma NewAfterKeeping(components: seq<Component>, record: ClosureRecord, size: StoredSize)
    requires components != [] && ArtifactsNewAt(components, |components| - 1)
    ensures var last := |components| - 1;
      var mine := KeepInside(components[last], record, size).artifacts;
      OwnArtifactsUnique(mine) && ListedArtifacts(KeepComponents(components[..last], record, size)) !! ArtifactIds(mine)
  {
    var last := |components| - 1;
    KeptListing(components[..last], record, size);
    KeptOwnUnique(components[last].artifacts, record.artifacts, size);
    KeptArtifacts(components[last].artifacts, record.artifacts, size);
  }

  lemma NewComponentKeepsUnique(components: seq<Component>, c: Component)
    requires UniqueArtifacts(components) && OwnArtifactsUnique(c.artifacts)
    requires ListedArtifacts(components) !! ArtifactIds(c.artifacts)
    ensures UniqueArtifacts(components + [c])
  {
    var all := components + [c];
    forall i | 0 <= i < |all| ensures ArtifactsNewAt(all, i) {
      if i < |components| {
        assert ArtifactsNewAt(components, i) && all[..i] == components[..i];
      } else {
        assert all[..i] == components;
      }
    }
  }

  lemma {:induction false} KeptDecisions(decisions: seq<Decision>, ids: set<ArtifactId>)
    ensures forall d :: d in KeepDecisions(decisions, ids) <==> d in decisions && d.artifact in ids
  {
    if decisions != [] {
      var last := |decisions| - 1;
      KeptDecisions(decisions[..last], ids);
      assert decisions == decisions[..last] + [decisions[last]];
    }
  }

  lemma {:induction false} KeptDecisionsUnique(decisions: seq<Decision>, ids: set<ArtifactId>)
    requires UniqueDecisions(decisions)
    ensures UniqueDecisions(KeepDecisions(decisions, ids))
  {
    if decisions != [] {
      var last := |decisions| - 1;
      KeptDecisionsUnique(decisions[..last], ids);
      KeptDecisions(decisions[..last], ids);
      var kept := KeepDecisions(decisions[..last], ids);
      forall i | 0 <= i < |kept| ensures kept[i].artifact != decisions[last].artifact {
        assert kept[i] in kept;
      }
    }
  }

  lemma {:induction false} KeptDecisionMap(decisions: seq<Decision>, ids: set<ArtifactId>)
    ensures KeptMap(DecisionMap(KeepDecisions(decisions, ids)), DecisionMap(decisions), ids)
  {
    hide KeptMap, DecisionMap, KeepDecisions;
    if decisions == [] {
      NothingKept(ids);
    } else {
      var last := |decisions| - 1;
      var shorter, d := decisions[..last], decisions[last];
      KeptDecisionMap(shorter, ids);
      KeptMapStep(DecisionMap(KeepDecisions(shorter, ids)), DecisionMap(shorter), ids, d);
      DecisionMapStep(shorter, d);
      KeepDecisionStep(shorter, d, ids);
      assert decisions == shorter + [d];
    }
  }

  lemma KeepDecisionStep(decisions: seq<Decision>, d: Decision, ids: set<ArtifactId>)
    ensures var m := DecisionMap(KeepDecisions(decisions, ids));
      DecisionMap(KeepDecisions(decisions + [d], ids)) == if d.artifact in ids then m[d.artifact := d.wanted] else m
  {
    hide DecisionMap;
    var kept := KeepDecisions(decisions, ids);
    assert (decisions + [d])[..|decisions|] == decisions;
    assert KeepDecisions(decisions + [d], ids) == if d.artifact in ids then kept + [d] else kept;
    DecisionMapStep(kept, d);
  }

  lemma NothingKept(ids: set<ArtifactId>)
    ensures KeptMap(DecisionMap(KeepDecisions([], ids)), DecisionMap([]), ids)
  {
  }

  lemma KeptMapStep(small: Decisions, large: Decisions, ids: set<ArtifactId>, d: Decision)
    requires KeptMap(small, large, ids)
    ensures KeptMap(if d.artifact in ids then small[d.artifact := d.wanted] else small, large[d.artifact := d.wanted], ids)
  {
  }

  /** The small map is the large one cut down to the given IDs. */
  predicate KeptMap(small: Decisions, large: Decisions, ids: set<ArtifactId>) {
    && small.Keys == large.Keys * ids
    && forall id :: id in small ==> small[id] == large[id]
  }

  // ---------------------------------------------------------------- what is kept stays in order

  /** Edges with both ends in the set are kept one by one, in their order; all
      others are left out. */
  lemma EdgeIsKept(edges: seq<Edge>, e: Edge, s: set<ComponentId>)
    ensures KeepEdges([], s) == []
    ensures KeepEdges(edges + [e], s) == if e.from in s && e.to in s then KeepEdges(edges, s) + [e] else KeepEdges(edges, s)
  {
    assert (edges + [e])[..|edges|] == edges;
    assert KeepEdges(edges, s) + [] == KeepEdges(edges, s);
  }

  /** Likewise the decisions on artifacts taken along. */
  lemma DecisionIsKept(decisions: seq<Decision>, d: Decision, ids: set<ArtifactId>)
    ensures KeepDecisions([], ids) == []
    ensures KeepDecisions(decisions + [d], ids) == if d.artifact in ids then KeepDecisions(decisions, ids) + [d] else KeepDecisions(decisions, ids)
  {
    assert (decisions + [d])[..|decisions|] == decisions;
    assert KeepDecisions(decisions, ids) + [] == KeepDecisions(decisions, ids);
  }

  // ---------------------------------------------------------------- components close again

  /** Embedded edges leave the component that holds them, as graph
      normalization guarantees. */
  predicate OwnEdges(components: seq<Component>) {
    forall c, e :: c in components && e in c.dependencies ==> e.from == c.id
  }

  lemma KeptEdges(graph: Graph, record: ClosureRecord, size: StoredSize)
    ensures RequiredEdges(Packaged(graph, record, size)) <= Inner(RequiredEdges(graph), record.components)
    ensures OwnEdges(graph.components)
      ==> RequiredEdges(Packaged(graph, record, size)) == Inner(RequiredEdges(graph), record.components)
  {
    var s, packaged := record.components, Packaged(graph, record, size);
    KeptComponents(graph.components, record, size);
    forall e | e in AllEdges(packaged) ensures e in AllEdges(graph) && InsideEdge(e, s) {
      if e !in packaged.edges {
        var c' :| c' in packaged.components && e in c'.dependencies;
        var c :| c in graph.components && c' == KeepInside(c, record, size);
      }
    }
    if OwnEdges(graph.components) {
      forall e | e in AllEdges(graph) && InsideEdge(e, s) ensures e in AllEdges(packaged) {
        if e !in graph.edges {
          var c :| c in graph.components && e in c.dependencies;
          assert KeepInside(c, record, size) in packaged.components;
        }
      }
    }
  }

  lemma PackagedInventory(graph: Graph, input: Input, record: ClosureRecord, size: StoredSize)
    requires record.components == Selected(graph, input)
    ensures Inventory(Packaged(graph, record, size).components) == record.components
  {
    KeptInventory(graph.components, record, size);
  }

  /** The packaged roots close, without loose ends, to the packaged components. */
  lemma ComponentsCloseAgain(graph: Graph, input: Input, record: ClosureRecord, size: StoredSize)
    requires OwnEdges(graph.components) && Roots(input) <= Inventory(graph.components)
    requires record.components == Selected(graph, input)
    ensures Selected(Packaged(graph, record, size), PackagedInput(input, record)) == record.components
    ensures var packaged := Packaged(graph, record, size);
      !Dangling(RequiredEdges(packaged), Inventory(packaged.components), Roots(input))
  {
    var required, inventory := RequiredEdges(graph), Inventory(graph.components);
    KeptEdges(graph, record, size);
    PackagedInventory(graph, input, record, size);
    RestrictionKeepsClosure(required, inventory, Roots(input), Inner(required, record.components));
  }

  // ---------------------------------------------------------------- artifacts are taken again

  lemma {:induction false} PicksOfMembers(c: Component, artifacts: seq<Artifact>, decisions: Decisions)
    ensures forall p :: p in PicksOf(c, artifacts, decisions) <==> p.owner == c && p.artifact in artifacts && Included(p.artifact, decisions)
  {
    if artifacts != [] {
      var last := |artifacts| - 1;
      PicksOfMembers(c, artifacts[..last], decisions);
      assert artifacts == artifacts[..last] + [artifacts[last]];
    }
  }

  lemma {:induction false} PicksMembers(components: seq<Component>, selected: set<ComponentId>, decisions: Decisions)
    ensures forall p :: p in Picks(components, selected, decisions) <==>
      p.owner in components && p.owner.id in selected && p.artifact in p.owner.artifacts && Included(p.artifact, decisions)
  {
    if components != [] {
      var last := |components| - 1;
      PicksMembers(components[..last], selected, decisions);
      PicksOfMembers(components[last], components[last].artifacts, decisions);
      assert components == components[..last] + [components[last]];
    }
  }

  lemma {:induction false} SumIds(picks: seq<Pick>, decisions: Decisions, policy: SelectionPolicy, given: set<Warning>)
    ensures Sum(picks, decisions, policy, given).ids == set p | p in picks :: p.artifact.id
  {
    hide PickVerdict;
    if picks != [] {
      var last := |picks| - 1;
      SumIds(picks[..last], decisions, policy, given);
      assert picks == picks[..last] + [picks[last]];
    }
  }

  lemma ArtifactIdNamesOne(components: seq<Component>, i: nat, j: nat, a: Artifact, b: Artifact)
    requires UniqueArtifacts(components) && i <= j < |components|
    requires a in components[i].artifacts && b in components[j].artifacts && a.id == b.id
    ensures a == b
  {
    var earlier := components[..j];
    assert i < j ==> a.id in ListedArtifacts(earlier) by {
      assert forall k :: 0 <= k < j ==> earlier[k] == components[k] && components[k] in earlier;
    }
    assert ArtifactsNewAt(components, j);
  }

  /** A listed artifact of a selected component is taken exactly when its ID is. */
  lemma TakenById(graph: Graph, input: Input, c: Component, a: Artifact)
    requires UniqueArtifacts(graph.components)
    requires c in graph.components && c.id in Selected(graph, input) && a in c.artifacts
    ensures a.id in Outcome(graph, input).artifacts <==> Included(a, DecisionMap(input.artifacts))
  {
    hide Included, DecisionMap, Selected;
    var decisions := DecisionMap(input.artifacts);
    PicksMembers(graph.components, Selected(graph, input), decisions);
    SumIds(Taken(graph, input), decisions, input.policy, EarlyWarnings(graph, input));
    hide Picks, Sum, UniqueArtifacts;
    if Included(a, decisions) {
      assert Pick(c, a) in Taken(graph, input);
    } else if a.id in Outcome(graph, input).artifacts {
      var p :| p in Taken(graph, input) && p.artifact.id == a.id;
      var i :| 0 <= i < |graph.components| && graph.components[i] == c;
      var j :| 0 <= j < |graph.components| && graph.components[j] == p.owner;
      if i <= j {
        ArtifactIdNamesOne(graph.components, i, j, a, p.artifact);
      } else {
        ArtifactIdNamesOne(graph.components, j, i, p.artifact, a);
      }
    }
  }

  /** A pick as it is packaged. */
  function Image(p: Pick, record: ClosureRecord, size: StoredSize): Pick {
    Pick(KeepInside(p.owner, record, size), Stored(p.artifact, size))
  }

  function Images(picks: seq<Pick>, record: ClosureRecord, size: StoredSize): (images: seq<Pick>)
    ensures |images| == |picks| && forall i :: 0 <= i < |picks| ==> images[i] == Image(picks[i], record, size)
  {
    seq(|picks|, i requires 0 <= i < |picks| => Image(picks[i], record, size))
  }

  lemma ImagesConcat(first: seq<Pick>, second: seq<Pick>, record: ClosureRecord, size: StoredSize)
    ensures Images(first + second, record, size) == Images(first, record, size) + Images(second, record, size)
  {
  }

  /** Among these artifacts, exactly the recorded ones are taken, before and after. */
  ghost predicate Steady(artifacts: seq<Artifact>, record: ClosureRecord, size: StoredSize, before: Decisions, after: Decisions) {
    forall a :: a in artifacts ==>
      && (a.id in record.artifacts <==> Included(a, before))
      && (a.id in record.artifacts ==> Included(Stored(a, size), after))
  }

  lemma {:induction false} PicksOfAgain(c: Component, artifacts: seq<Artifact>, record: ClosureRecord, size: StoredSize, before: Decisions, after: Decisions)
    requires Steady(artifacts, record, size, before, after)
    ensures PicksOf(KeepInside(c, record, size), KeepArtifacts(artifacts, record.artifacts, size), after)
      == Images(PicksOf(c, artifacts, before), record, size)
  {
    hide Included, Stored;
    if artifacts != [] {
      var last := |artifacts| - 1;
      var kept := KeepArtifacts(artifacts[..last], record.artifacts, size);
      PicksOfAgain(c, artifacts[..last], record, size, before, after);
      assert artifacts[last] in artifacts;
      if artifacts[last].id in record.artifacts {
        var mine, stored := KeepInside(c, record, size), Stored(artifacts[last], size);
        ImagesConcat(PicksOf(c, artifacts[..last], before), [Pick(c, artifacts[last])], record, size);
        assert Images([Pick(c, artifacts[last])], record, size) == [Pick(mine, stored)];
        assert (kept + [stored])[..|kept|] == kept;
        assert PicksOf(mine, kept + [stored], after) == PicksOf(mine, kept, after) + [Pick(mine, stored)];
      } else {
        assert KeepArtifacts(artifacts, record.artifacts, size) == kept;
        assert PicksOf(c, artifacts, before) == PicksOf(c, artifacts[..last], before);
      }
    }
  }

  lemma {:induction false} PicksAgain(components: seq<Component>, record: ClosureRecord, size: StoredSize, before: Decisions, after: Decisions)
    requires forall c :: c in components && c.id in record.components ==> Steady(c.artifacts, record, size, before, after)
    ensures Picks(KeepComponents(components, record, size), record.components, after)
      == Images(Picks(components, record.components, before), record, size)
  {
    hide Steady, PicksOf;
    if components != [] {
      var last := |components| - 1;
      var c, kept := components[last], KeepComponents(components[..last], record, size);
      PicksAgain(components[..last], record, size, before, after);
      assert c in components;
      if c.id in record.components {
        PicksOfAgain(c, c.artifacts, record, size, before, after);
        ImagesConcat(Picks(components[..last], record.components, before), PicksOf(c, c.artifacts, before), record, size);
        assert (kept + [KeepInside(c, record, size)])[..|kept|] == kept;
      } else {
        assert KeepComponents(components, record, size) == kept;
        assert Picks(components, record.components, before) == Picks(components[..last], record.components, before);
      }
    }
  }

  /** Artifacts that are stored large were asked for by name, and large data
      may be confirmed. */
  ghost predicate LargeOnesConfirmed(graph: Graph, input: Input, size: StoredSize) {
    forall p :: p in Taken(graph, input) && size(p.artifact.id) > DEFAULT_LARGE_ARTIFACT_THRESHOLD_BYTES
      ==> p.artifact.id in DecisionMap(input.artifacts) && input.policy.largeConfirmable
  }

  ghost function DecisionsAgain(graph: Graph, input: Input): Decisions {
    DecisionMap(PackagedInput(input, Outcome(graph, input)).artifacts)
  }

  /** A taken artifact stays taken once its stored size is known. */
  lemma TakenStaysTaken(graph: Graph, input: Input, size: StoredSize, p: Pick)
    requires UniqueArtifacts(graph.components) && p in Taken(graph, input)
    ensures p.artifact.id in Outcome(graph, input).artifacts
    ensures p.artifact.id in DecisionsAgain(graph, input) <==> p.artifact.id in DecisionMap(input.artifacts)
    ensures Included(Stored(p.artifact, size), DecisionsAgain(graph, input))
      <==> (p.artifact.id in DecisionMap(input.artifacts) || size(p.artifact.id) <= DEFAULT_LARGE_ARTIFACT_THRESHOLD_BYTES)
  {
    hide DecisionMap, Selected;
    PicksMembers(graph.components, Selected(graph, input), DecisionMap(input.artifacts));
    TakenById(graph, input, p.owner, p.artifact);
    KeptDecisionMap(input.artifacts, Outcome(graph, input).artifacts);
  }

  lemma TakenAgain(graph: Graph, input: Input, size: StoredSize)
    requires OwnEdges(graph.components) && WellReferenced(graph, input) && LargeOnesConfirmed(graph, input, size)
    ensures var record := Outcome(graph, input);
      Taken(Packaged(graph, record, size), PackagedInput(input, record)) == Images(Taken(graph, input), record, size)
  {
    var record, before, after := Outcome(graph, input), DecisionMap(input.artifacts), DecisionsAgain(graph, input);
    forall c | c in graph.components && c.id in record.components ensures Steady(c.artifacts, record, size, before, after) {
      forall a | a in c.artifacts
        ensures a.id in record.artifacts <==> Included(a, before)
        ensures a.id in record.artifacts ==> Included(Stored(a, size), after)
      {
        assert UniqueArtifacts(graph.components);
        hide WellReferenced, Included, Selected, DecisionMap;
        TakenById(graph, input, c, a);
        if a.id in record.artifacts {
          PicksMembers(graph.components, Selected(graph, input), before);
          assert Pick(c, a) in Taken(graph, input);
          TakenStaysTaken(graph, input, size, Pick(c, a));
        }
      }
    }
    PicksAgain(graph.components, record, size, before, after);
    ComponentsCloseAgain(graph, input, record, size);
  }

  // ---------------------------------------------------------------- the packaged selection resolves

  lemma KeptInputIsWellReferenced(graph: Graph, input: Input, size: StoredSize)
    requires WellReferenced(graph, input)
    ensures var record := Outcome(graph, input); WellReferenced(Packaged(graph, record, size), PackagedInput(input, record))
  {
    hide UniqueComponents, UniqueArtifacts, ListedArtifacts, DecisionMap, RequiredEdges;
    var record := Outcome(graph, input);
    KeptComponentsUnique(graph.components, record, size);
    KeptArtifactsUnique(graph.components, record, size);
    KeptDecisionsUnique(input.artifacts, record.artifacts);
    KeptDecisions(input.artifacts, record.artifacts);
    forall d | d in PackagedInput(input, record).artifacts
      ensures d.artifact in ListedArtifacts(Packaged(graph, record, size).components)
    {
      TakenAreListed(graph, input, size, d.artifact);
    }
    PackagedInventory(graph, input, record, size);
    ClosureIsLeast(RequiredEdges(graph), Inventory(graph.components), Roots(input));
  }

  lemma TakenAreListed(graph: Graph, input: Input, size: StoredSize, id: ArtifactId)
    requires id in Outcome(graph, input).artifacts
    ensures id in ListedArtifacts(Packaged(graph, Outcome(graph, input), size).components)
  {
    hide Selected, DecisionMap;
    var record, decisions := Outcome(graph, input), DecisionMap(input.artifacts);
    SumIds(Taken(graph, input), decisions, input.policy, EarlyWarnings(graph, input));
    PicksMembers(graph.components, Selected(graph, input), decisions);
    hide Sum, Picks;
    var p :| p in Taken(graph, input) && p.artifact.id == id;
    KeptComponents(graph.components, record, size);
    KeptArtifacts(p.owner.artifacts, record.artifacts, size);
    var c, a := KeepInside(p.owner, record, size), Stored(p.artifact, size);
    assert c in Packaged(graph, record, size).components && a in c.artifacts && a.id == id;
  }

  function StoredTotal(picks: seq<Pick>, size: StoredSize): nat {
    if picks == [] then 0
    else StoredTotal(picks[..|picks| - 1], size) + size(picks[|picks| - 1].artifact.id)
  }

  lemma {:induction false} SumOfImages(picks: seq<Pick>, record: ClosureRecord, size: StoredSize,
                                       before: Decisions, after: Decisions, policy: SelectionPolicy, given: set<Warning>, later: set<Warning>)
    ensures var sum, again := Sum(picks, before, policy, given), Sum(Images(picks, record, size), after, policy, later);
      again.ids == sum.ids && again.total == StoredTotal(picks, size)
  {
    hide PickVerdict, KeepInside;
    if picks != [] {
      var last := |picks| - 1;
      SumOfImages(picks[..last], record, size, before, after, policy, given, later);
      assert Images(picks, record, size)[..last] == Images(picks[..last], record, size);
    }
  }

  /** An allowed pick stays allowed as packaged; stored at its original size it
      raises no new warning. */
  lemma ImageIsAllowed(p: Pick, record: ClosureRecord, size: StoredSize, before: Decisions, after: Decisions, policy: SelectionPolicy)
    requires PickVerdict(p, before, policy).Ok? && (p.artifact.id in after <==> p.artifact.id in before)
    requires size(p.artifact.id) > DEFAULT_LARGE_ARTIFACT_THRESHOLD_BYTES ==> p.artifact.id in before && policy.largeConfirmable
    ensures PickVerdict(Image(p, record, size), after, policy).Ok?
    ensures size(p.artifact.id) == p.artifact.sizeBytes ==> PickVerdict(Image(p, record, size), after, policy) == PickVerdict(p, before, policy)
  {
    hide KeepArtifacts, KeepEdges;
  }

  lemma ComponentStaysAllowed(c: Component, record: ClosureRecord, size: StoredSize, policy: SelectionPolicy)
    requires ComponentVerdict(c, policy).Ok?
    ensures var again := ComponentVerdict(KeepInside(c, record, size), policy);
      again.Ok? && again.value <= ComponentVerdict(c, policy).value
  {
    hide KeepEdges;
    var mine := KeepInside(c, record, size);
    KeptArtifacts(c.artifacts, record.artifacts, size);
    hide KeepArtifacts;
    forall a' | a' in mine.artifacts && a'.policy == PortableBinary ensures exists a :: a in c.artifacts && a.policy == PortableBinary {
      assert a' in KeepArtifacts(c.artifacts, record.artifacts, size);
      var a :| a in c.artifacts && a' == Stored(a, size);
      assert a.policy == Stored(a, size).policy == a'.policy;
    }
    assert IsUnknownBinary(mine) ==> IsUnknownBinary(c);
    assert IsSecret(mine) == IsSecret(c);
  }

  lemma {:induction false} ComponentsStayAllowed(components: seq<Component>, record: ClosureRecord, size: StoredSize, policy: SelectionPolicy)
    requires ComponentsAllowed(components, record.components, policy)
    ensures var kept := KeepComponents(components, record, size);
      && ComponentsAllowed(kept, record.components, policy)
      && ComponentWarnings(kept, record.components, policy) <= ComponentWarnings(components, record.components, policy)
  {
    hide ComponentVerdict, KeepArtifacts, KeepEdges;
    if components != [] {
      var last := |components| - 1;
      var kept := KeepComponents(components[..last], record, size);
      ComponentsStayAllowed(components[..last], record, size, policy);
      if components[last].id in record.components {
        ComponentStaysAllowed(components[last], record, size, policy);
        assert (kept + [KeepInside(components[last], record, size)])[..|kept|] == kept;
      } else {
        assert KeepComponents(components, record, size) == kept;
      }
    }
  }

  /** What the packaged selection amounts to when nothing was lost on the way. */
  lemma OutcomeAgain(graph: Graph, input: Input, size: StoredSize)
    requires OwnEdges(graph.components) && WellReferenced(graph, input) && LargeOnesConfirmed(graph, input, size)
    ensures var record := Outcome(graph, input);
      var again := Outcome(Packaged(graph, record, size), PackagedInput(input, record));
      && again.components == record.components && again.autoAdded == record.autoAdded && again.artifacts == record.artifacts
      && again.totalBytes == StoredTotal(Taken(graph, input), size)
  {
    hide WellReferenced, LargeOnesConfirmed, EarlyWarnings;
    var record := Outcome(graph, input);
    var graph', input' := Packaged(graph, record, size), PackagedInput(input, record);
    assert Roots(input) <= Inventory(graph.components) by { WellReferencedRoots(graph, input); }
    TakenAgain(graph, input, size);
    ComponentsCloseAgain(graph, input, record, size);
    SumOfImages(Taken(graph, input), record, size, DecisionMap(input.artifacts), DecisionsAgain(graph, input), input.policy,
                EarlyWarnings(graph, input), EarlyWarnings(graph', input'));
  }

  lemma WellReferencedRoots(graph: Graph, input: Input)
    requires WellReferenced(graph, input)
    ensures Roots(input) <= Inventory(graph.components)
  {
  }

  /** The byte total of the stored content passes backup's own check. */
  ghost predicate StoredTotalFits(graph: Graph, input: Input, size: StoredSize) {
    TotalFits(StoredTotal(Taken(graph, input), size), input.policy)
  }

  lemma PolicyHoldsAgain(graph: Graph, input: Input, size: StoredSize)
    requires OwnEdges(graph.components) && Selectable(graph, input) && LargeOnesConfirmed(graph, input, size)
    ensures var record := Outcome(graph, input); WithinPolicy(Packaged(graph, record, size), PackagedInput(input, record))
  {
    hide PickVerdict, ComponentVerdict, WellReferenced, Sum, Picks, DecisionMap, RequiredEdges, Included;
    assert UniqueArtifacts(graph.components) && Roots(input) <= Inventory(graph.components) by { WellReferencedRoots(graph, input); UniqueNames(graph, input); }
    var record, picks := Outcome(graph, input), Taken(graph, input);
    var before, after := DecisionMap(input.artifacts), DecisionsAgain(graph, input);
    var graph', input' := Packaged(graph, record, size), PackagedInput(input, record);
    TakenAgain(graph, input, size);
    ComponentsCloseAgain(graph, input, record, size);
    ComponentsStayAllowed(graph.components, record, size, input.policy);
    forall i | 0 <= i < |picks| ensures PickVerdict(Image(picks[i], record, size), after, input.policy).Ok? {
      TakenStaysTaken(graph, input, size, picks[i]);
      ImageIsAllowed(picks[i], record, size, before, after, input.policy);
    }
    PackagedInventory(graph, input, record, size);
    assert forall c :: c in graph'.components ==> c.id in Inventory(graph'.components);
  }

  lemma UniqueNames(graph: Graph, input: Input)
    requires WellReferenced(graph, input)
    ensures UniqueArtifacts(graph.components)
  {
  }

  /** Every taken artifact is stored at the size the inventory states. */
  ghost predicate SizesUnchanged(graph: Graph, input: Input, size: StoredSize) {
    forall p :: p in Taken(graph, input) ==> size(p.artifact.id) == p.artifact.sizeBytes
  }

  predicate SameStored(p: Pick, record: ClosureRecord, size: StoredSize, before: Decisions, after: Decisions, policy: SelectionPolicy) {
    && size(p.artifact.id) == p.artifact.sizeBytes
    && PickVerdict(Image(p, record, size), after, policy) == PickVerdict(p, before, policy)
  }

  lemma LastImage(picks: seq<Pick>, record: ClosureRecord, size: StoredSize, after: Decisions, policy: SelectionPolicy, later: set<Warning>)
    requires picks != []
    ensures var last := |picks| - 1;
      Sum(Images(picks, record, size), after, policy, later)
      == Add(Sum(Images(picks[..last], record, size), after, policy, later), Image(picks[last], record, size), Raised(Image(picks[last], record, size), after, policy))
  {
    hide PickVerdict, Image;
    var last := |picks| - 1;
    assert Images(picks, record, size)[..last] == Images(picks[..last], record, size);
  }

  lemma {:induction false} UnchangedSum(picks: seq<Pick>, record: ClosureRecord, size: StoredSize,
                                        before: Decisions, after: Decisions, policy: SelectionPolicy, given: set<Warning>, later: set<Warning>)
    requires later <= given
    requires forall p :: p in picks ==> SameStored(p, record, size, before, after, policy)
    ensures var sum := Sum(picks, before, policy, given);
      StoredTotal(picks, size) == sum.total && Sum(Images(picks, record, size), after, policy, later).warnings <= sum.warnings
  {
    hide PickVerdict, KeepInside, KeepArtifacts;
    if picks != [] {
      var last := |picks| - 1;
      assert forall p :: p in picks[..last] ==> p in picks;
      UnchangedSum(picks[..last], record, size, before, after, policy, given, later);
      LastImage(picks, record, size, after, policy, later);
      assert Sum(picks, before, policy, given) == Add(Sum(picks[..last], before, policy, given), picks[last], Raised(picks[last], before, policy));
      hide Sum;
      assert picks[last] in picks;
    }
  }

  lemma EarlyWarningsShrink(graph: Graph, input: Input, size: StoredSize)
    requires OwnEdges(graph.components) && Selectable(graph, input)
    ensures var record := Outcome(graph, input);
      EarlyWarnings(Packaged(graph, record, size), PackagedInput(input, record)) <= EarlyWarnings(graph, input)
  {
    hide PickVerdict, ComponentVerdict, WellReferenced, Sum, Picks, DecisionMap, RequiredEdges, Included, ComponentWarnings;
    WellReferencedRoots(graph, input);
    var record := Outcome(graph, input);
    var graph' := Packaged(graph, record, size);
    ComponentsCloseAgain(graph, input, record, size);
    ComponentsStayAllowed(graph.components, record, size, input.policy);
    KeptComponents(graph.components, record, size);
    forall e | e in AllEdges(graph') ensures e.to in record.components {
      if e !in graph'.edges {
        var c' :| c' in graph'.components && e in c'.dependencies;
        var c :| c in graph.components && c' == KeepInside(c, record, size);
        assert c'.dependencies == KeepInside(c, record, size).dependencies;
      }
    }
  }

  lemma UnchangedSizesAreConfirmed(graph: Graph, input: Input, size: StoredSize)
    requires Selectable(graph, input) && SizesUnchanged(graph, input, size)
    ensures LargeOnesConfirmed(graph, input, size)
  {
    hide WellReferenced, Closable, WithinLimits, Picks, DecisionMap;
    var picks := Taken(graph, input);
    forall p | p in picks && size(p.artifact.id) > DEFAULT_LARGE_ARTIFACT_THRESHOLD_BYTES
      ensures p.artifact.id in DecisionMap(input.artifacts) && input.policy.largeConfirmable
    {
      var i :| 0 <= i < |picks| && picks[i] == p;
      assert PickVerdict(picks[i], DecisionMap(input.artifacts), input.policy).Ok?;
    }
  }

  /** Restore resolves the packaged selection to what backup resolved, when
      contents are stored at their stated sizes. */
  lemma RestoreReproducesSelection(graph: Graph, input: Input, size: StoredSize)
    requires OwnEdges(graph.components) && Selectable(graph, input) && SizesUnchanged(graph, input, size)
    ensures var record := Outcome(graph, input);
      var graph', input' := Packaged(graph, record, size), PackagedInput(input, record);
      var again := Outcome(graph', input');
      && Selectable(graph', input')
      && again.(warnings := {}) == record.(warnings := {})
      && again.warnings <= record.warnings
  {
    hide PickVerdict, WellReferenced, Picks, DecisionMap, EarlyWarnings, Closable, WithinPolicy, Sum;
    var record, picks := Outcome(graph, input), Taken(graph, input);
    var before, after := DecisionMap(input.artifacts), DecisionsAgain(graph, input);
    var graph', input' := Packaged(graph, record, size), PackagedInput(input, record);
    UnchangedSizesAreConfirmed(graph, input, size);
    UniqueNames(graph, input);
    forall p | p in picks ensures SameStored(p, record, size, before, after, input.policy) {
      TakenStaysTaken(graph, input, size, p);
      PicksTakenAreAllowed(graph, input, p);
      ImageIsAllowed(p, record, size, before, after, input.policy);
    }
    EarlyWarningsShrink(graph, input, size);
    UnchangedSum(picks, record, size, before, after, input.policy, EarlyWarnings(graph, input), EarlyWarnings(graph', input'));
    TakenAgain(graph, input, size);
    OutcomeAgain(graph, input, size);
    var again := Outcome(graph', input');
    SubsetCardinality(again.warnings, record.warnings);
    ResolvesAgain(graph, input, size);
  }

  lemma PicksTakenAreAllowed(graph: Graph, input: Input, p: Pick)
    requires WithinPolicy(graph, input) && p in Taken(graph, input)
    ensures PickVerdict(p, DecisionMap(input.artifacts), input.policy).Ok?
  {
    var picks := Taken(graph, input);
    var i :| 0 <= i < |picks| && picks[i] == p;
  }

  /** All but the limits. */
  lemma ResolvesAgain(graph: Graph, input: Input, size: StoredSize)
    requires OwnEdges(graph.components) && Selectable(graph, input) && LargeOnesConfirmed(graph, input, size)
    ensures var record := Outcome(graph, input);
      var graph', input' := Packaged(graph, record, size), PackagedInput(input, record);
      WellReferenced(graph', input') && Closable(graph', input') && WithinPolicy(graph', input')
  {
    hide WithinPolicy, WellReferenced;
    KeptInputIsWellReferenced(graph, input, size);
    WellReferencedRoots(graph, input);
    ComponentsCloseAgain(graph, input, Outcome(graph, input), size);
    PolicyHoldsAgain(graph, input, size);
  }

  /** When contents were resized on the way into the package, restore takes the
      same artifacts exactly when those stored large were confirmed by name. */
  lemma ResizedSelectionIsReproducedExactlyWhenConfirmed(graph: Graph, input: Input, size: StoredSize)
    requires OwnEdges(graph.components) && Selectable(graph, input) && StoredTotalFits(graph, input, size)
    ensures var record := Outcome(graph, input);
      var graph', input' := Packaged(graph, record, size), PackagedInput(input, record);
      var again := Outcome(graph', input');
      (Selectable(graph', input') && again.artifacts == record.artifacts)
      <==> (LargeOnesConfirmed(graph, input, size) && |again.warnings| <= MAX_SELECTION_WARNINGS)
  {
    hide WellReferenced, Closable, WithinPolicy, Taken, Sum;
    var record := Outcome(graph, input);
    var graph', input' := Packaged(graph, record, size), PackagedInput(input, record);
    if LargeOnesConfirmed(graph, input, size) {
      ResolvesAgain(graph, input, size);
      OutcomeAgain(graph, input, size);
    }
    if Selectable(graph', input') && Outcome(graph', input').artifacts == record.artifacts {
      forall p | p in Taken(graph, input) && size(p.artifact.id) > DEFAULT_LARGE_ARTIFACT_THRESHOLD_BYTES
        ensures p.artifact.id in DecisionMap(input.artifacts) && input.policy.largeConfirmable
      {
        ReproducedLargeOneWasConfirmed(graph, input, size, p);
      }
    }
  }

  /** Warnings about taken artifacts that are stored large. */
  ghost function StoredLarge(graph: Graph, input: Input, size: StoredSize): set<Warning> {
    set p | p in Taken(graph, input) && size(p.artifact.id) > DEFAULT_LARGE_ARTIFACT_THRESHOLD_BYTES :: LargeArtifact(p.artifact.id)
  }

  /** A pick raises no warning again but its own ones and that it became large. */
  ghost predicate RaisesNoOther(p: Pick, record: ClosureRecord, size: StoredSize, before: Decisions, after: Decisions, policy: SelectionPolicy, large: set<Warning>) {
    var first, again := PickVerdict(p, before, policy), PickVerdict(Image(p, record, size), after, policy);
    again.Ok? ==> first.Ok? && again.value <= first.value + large
  }

  lemma {:induction false} ResizedSum(picks: seq<Pick>, record: ClosureRecord, size: StoredSize, before: Decisions, after: Decisions,
                                      policy: SelectionPolicy, given: set<Warning>, later: set<Warning>, large: set<Warning>)
    requires later <= given
    requires forall p :: p in picks ==> RaisesNoOther(p, record, size, before, after, policy, large)
    ensures Sum(Images(picks, record, size), after, policy, later).warnings <= Sum(picks, before, policy, given).warnings + large
  {
    hide PickVerdict, Image;
    if picks != [] {
      var last := |picks| - 1;
      assert forall p :: p in picks[..last] ==> p in picks;
      ResizedSum(picks[..last], record, size, before, after, policy, given, later, large);
      LastImage(picks, record, size, after, policy, later);
      assert Sum(picks, before, policy, given) == Add(Sum(picks[..last], before, policy, given), picks[last], Raised(picks[last], before, policy));
      hide Sum;
      assert picks[last] in picks;
    }
  }

  lemma ImageRaisesNoOther(p: Pick, record: ClosureRecord, size: StoredSize, before: Decisions, after: Decisions, policy: SelectionPolicy, large: set<Warning>)
    requires PickVerdict(p, before, policy).Ok?
    requires size(p.artifact.id) > DEFAULT_LARGE_ARTIFACT_THRESHOLD_BYTES ==> LargeArtifact(p.artifact.id) in large
    ensures RaisesNoOther(p, record, size, before, after, policy, large)
  {
    hide KeepArtifacts, KeepEdges;
  }

  /** Restore warns of nothing new but artifacts that are stored large. */
  lemma ResizedSelectionWarnsOfLargeOnly(graph: Graph, input: Input, size: StoredSize)
    requires OwnEdges(graph.components) && Selectable(graph, input) && LargeOnesConfirmed(graph, input, size)
    ensures var record := Outcome(graph, input);
      Outcome(Packaged(graph, record, size), PackagedInput(input, record)).warnings <= record.warnings + StoredLarge(graph, input, size)
  {
    hide PickVerdict, WellReferenced, Picks, DecisionMap, EarlyWarnings, Closable, WithinPolicy, Sum;
    var record, picks, large := Outcome(graph, input), Taken(graph, input), StoredLarge(graph, input, size);
    var before, after := DecisionMap(input.artifacts), DecisionsAgain(graph, input);
    var graph', input' := Packaged(graph, record, size), PackagedInput(input, record);
    forall p | p in picks ensures RaisesNoOther(p, record, size, before, after, input.policy, large) {
      PicksTakenAreAllowed(graph, input, p);
      ImageRaisesNoOther(p, record, size, before, after, input.policy, large);
    }
    EarlyWarningsShrink(graph, input, size);
    ResizedSum(picks, record, size, before, after, input.policy, EarlyWarnings(graph, input), EarlyWarnings(graph', input'), large);
    TakenAgain(graph, input, size);
  }

  /** Away from the warning limit, confirmation alone decides. */
  lemma ConfirmationAloneDecides(graph: Graph, input: Input, size: StoredSize)
    requires OwnEdges(graph.components) && Selectable(graph, input) && StoredTotalFits(graph, input, size)
    requires |Outcome(graph, input).warnings + StoredLarge(graph, input, size)| <= MAX_SELECTION_WARNINGS
    ensures var record := Outcome(graph, input);
      var graph', input' := Packaged(graph, record, size), PackagedInput(input, record);
      (Selectable(graph', input') && Outcome(graph', input').artifacts == record.artifacts) <==> LargeOnesConfirmed(graph, input, size)
  {
    hide *;
    ResizedSelectionIsReproducedExactlyWhenConfirmed(graph, input, size);
    if LargeOnesConfirmed(graph, input, size) {
      ResizedSelectionWarnsOfLargeOnly(graph, input, size);
      var record := Outcome(graph, input);
      SubsetCardinality(Outcome(Packaged(graph, record, size), PackagedInput(input, record)).warnings, record.warnings + StoredLarge(graph, input, size));
    }
  }

  lemma ReproducedLargeOneWasConfirmed(graph: Graph, input: Input, size: StoredSize, p: Pick)
    requires OwnEdges(graph.components) && Selectable(graph, input)
    requires p in Taken(graph, input) && size(p.artifact.id) > DEFAULT_LARGE_ARTIFACT_THRESHOLD_BYTES
    requires var record := Outcome(graph, input);
      var graph', input' := Packaged(graph, record, size), PackagedInput(input, record);
      Selectable(graph', input') && Outcome(graph', input').artifacts == record.artifacts
    ensures p.artifact.id in DecisionMap(input.artifacts) && input.policy.largeConfirmable
  {
    var record, image := Outcome(graph, input), Image(p, Outcome(graph, input), size);
    var graph', input' := Packaged(graph, record, size), PackagedInput(input, record);
    WellReferencedRoots(graph, input);
    UniqueNames(graph, input);
    UniqueNames(graph', input');
    hide WellReferenced, Closable, WithinLimits, DecisionMap, Selected, Included, IsSecret, WithinPolicy;
    ComponentsCloseAgain(graph, input, record, size);
    PicksMembers(graph.components, Selected(graph, input), DecisionMap(input.artifacts));
    PicksMembers(graph'.components, Selected(graph', input'), DecisionsAgain(graph, input));
    KeptComponents(graph.components, record, size);
    KeptArtifacts(p.owner.artifacts, record.artifacts, size);
    TakenStaysTaken(graph, input, size, p);
    hide Picks, Sum;
    assert image.artifact in KeepArtifacts(p.owner.artifacts, record.artifacts, size);
    assert image.owner in graph'.components && image.artifact in image.owner.artifacts;
    TakenById(graph', input', image.owner, image.artifact);
    assert image in Taken(graph', input');
    PicksTakenAreAllowed(graph', input', image);
    assert IsLarge(image.artifact);
  }

  // ---------------------------------------------------------------- building the packaged graph

  function SizeTotal(artifacts: seq<Artifact>): nat {
    if artifacts == [] then 0
    else SizeTotal(artifacts[..|artifacts| - 1]) + artifacts[|artifacts| - 1].sizeBytes
  }

  function SizesTotal(components: seq<Component>): nat {
    if components == [] then 0
    else SizesTotal(components[..|components| - 1]) + SizeTotal(components[|components| - 1].artifacts)
  }

  lemma TotalSteps(kept: seq<Artifact>, a: Artifact, picks: seq<Pick>, p: Pick, size: StoredSize)
    ensures SizeTotal(kept + [a]) == SizeTotal(kept) + a.sizeBytes
    ensures StoredTotal(picks + [p], size) == StoredTotal(picks, size) + size(p.artifact.id)
  {
    assert (kept + [a])[..|kept|] == kept && (picks + [p])[..|picks|] == picks;
  }

  lemma {:induction false} PicksOfTotal(c: Component, artifacts: seq<Artifact>, record: ClosureRecord, size: StoredSize, decisions: Decisions)
    requires forall a :: a in artifacts ==> (a.id in record.artifacts <==> Included(a, decisions))
    ensures SizeTotal(KeepArtifacts(artifacts, record.artifacts, size)) == StoredTotal(PicksOf(c, artifacts, decisions), size)
  {
    hide Included, SizeTotal, StoredTotal;
    if artifacts == [] {
      NoTotal(size);
    } else {
      var last := |artifacts| - 1;
      var a := artifacts[last];
      assert forall x :: x in artifacts[..last] ==> x in artifacts;
      PicksOfTotal(c, artifacts[..last], record, size, decisions);
      assert a in artifacts;
      var kept, picks := KeepArtifacts(artifacts[..last], record.artifacts, size), PicksOf(c, artifacts[..last], decisions);
      assert KeepArtifacts(artifacts, record.artifacts, size) == if a.id in record.artifacts then kept + [Stored(a, size)] else kept;
      assert PicksOf(c, artifacts, decisions) == if Included(a, decisions) then picks + [Pick(c, a)] else picks;
      hide KeepArtifacts, PicksOf;
      TotalSteps(kept, Stored(a, size), picks, Pick(c, a), size);
    }
  }

  lemma NoTotal(size: StoredSize)
    ensures SizeTotal([]) == 0 == StoredTotal([], size)
  {
  }

  lemma {:induction false} StoredTotalConcat(first: seq<Pick>, second: seq<Pick>, size: StoredSize)
    ensures StoredTotal(first + second, size) == StoredTotal(first, size) + StoredTotal(second, size)
    decreases |second|
  {
    if second == [] {
      assert first + second == first;
    } else {
      var last := |second| - 1;
      StoredTotalConcat(first, second[..last], size);
      assert (first + second)[..|first + second| - 1] == first + second[..last];
    }
  }

  lemma {:induction false} PicksTotal(components: seq<Component>, record: ClosureRecord, size: StoredSize, decisions: Decisions)
    requires forall c, a :: c in components && c.id in record.components && a in c.artifacts ==> (a.id in record.artifacts <==> Included(a, decisions))
    ensures SizesTotal(KeepComponents(components, record, size)) == StoredTotal(Picks(components, record.components, decisions), size)
  {
    hide Included;
    if components != [] {
      var last := |components| - 1;
      var c, kept, picks := components[last], KeepComponents(components[..last], record, size), Picks(components[..last], record.components, decisions);
      PicksTotal(components[..last], record, size, decisions);
      assert c in components;
      if c.id in record.components {
        PicksOfTotal(c, c.artifacts, record, size, decisions);
        StoredTotalConcat(picks, PicksOf(c, c.artifacts, decisions), size);
        assert (kept + [KeepInside(c, record, size)])[..|kept|] == kept;
      } else {
        assert kept + [] == kept && picks + [] == picks;
      }
    }
  }

  /** The bytes stored for the packaged graph are those of the taken artifacts. */
  lemma PackagedTotal(graph: Graph, input: Input, size: StoredSize)
    requires UniqueArtifacts(graph.components)
    ensures SizesTotal(Packaged(graph, Outcome(graph, input), size).components) == StoredTotal(Taken(graph, input), size)
  {
    var record, decisions := Outcome(graph, input), DecisionMap(input.artifacts);
    forall c, a | c in graph.components && c.id in record.components && a in c.artifacts
      ensures a.id in record.artifacts <==> Included(a, decisions)
    {
      TakenById(graph, input, c, a);
    }
    PicksTotal(graph.components, record, size, decisions);
  }

  lemma {:induction false} SizeTotalGrows(artifacts: seq<Artifact>, n: nat)
    requires n <= |artifacts|
    ensures SizeTotal(artifacts[..n]) <= SizeTotal(artifacts)
    decreases |artifacts| - n
  {
    if n == |artifacts| {
      assert artifacts[..n] == artifacts;
    } else {
      SizeTotalGrows(artifacts, n + 1);
      assert artifacts[..n + 1][..n] == artifacts[..n];
    }
  }

  lemma {:induction false} SizesTotalGrows(components: seq<Component>, n: nat)
    requires n <= |components|
    ensures SizesTotal(components[..n]) <= SizesTotal(components)
    decreases |components| - n
  {
    if n == |components| {
      assert components[..n] == components;
    } else {
      SizesTotalGrows(components, n + 1);
      assert components[..n + 1][..n] == components[..n];
    }
  }

  /** An artifact that only an encrypted vault may hold. */
  predicate NeedsVault(c: Component, a: Artifact) {
    a.policy == SecretReference || c.secretKind
  }

  predicate NoneNeedsVault(c: Component, artifacts: seq<Artifact>) {
    forall a :: a in artifacts ==> !NeedsVault(c, a)
  }

  /** Store the artifacts of one component, adding up what they take. */
  method StoreArtifacts(owner: Component, kept: seq<Artifact>, size: StoredSize, start: nat) returns (r: Result<(seq<Artifact>, nat), ErrorCode>)
    requires start <= U64_MAX
    ensures var stored := StoredAll(kept, size);
      && (r.Ok? <==> NoneNeedsVault(owner, kept) && start + SizeTotal(stored) <= U64_MAX)
      && (r.Ok? ==> r.value == (stored, start + SizeTotal(stored)))
      && (r.Err? ==> || (r.error == VaultRequired && !NoneNeedsVault(owner, kept))
                     || (r.error == SecurityPolicy && start + SizeTotal(stored) > U64_MAX))
  {
    var stored, actual := [], start;
    for n := 0 to |kept|
      invariant stored == StoredAll(kept, size)[..n] && NoneNeedsVault(owner, kept[..n])
      invariant actual == start + SizeTotal(stored) <= U64_MAX
    {
      if kept[n].policy == SecretReference || owner.secretKind {
        assert NeedsVault(owner, kept[n]);
        return Err(VaultRequired);
      }
      ghost var all := StoredAll(kept, size);
      assert all[..n + 1] == all[..n] + [Stored(kept[n], size)] && all[..n + 1][..n] == all[..n];
      assert kept[..n + 1] == kept[..n] + [kept[n]];
      stored := stored + [Stored(kept[n], size)];
      actual := actual + size(kept[n].id);
      if actual > U64_MAX {
        SizeTotalGrows(all, n + 1);
        return Err(SecurityPolicy);
      }
    }
    assert StoredAll(kept, size)[..|kept|] == StoredAll(kept, size);
    assert kept[..|kept|] == kept;
    r := Ok((stored, actual));
  }

  function StoredAll(artifacts: seq<Artifact>, size: StoredSize): (stored: seq<Artifact>)
    ensures |stored| == |artifacts| && forall i :: 0 <= i < |artifacts| ==> stored[i] == Stored(artifacts[i], size)
  {
    seq(|artifacts|, i requires 0 <= i < |artifacts| => Stored(artifacts[i], size))
  }

  function RetainArtifacts(artifacts: seq<Artifact>, ids: set<ArtifactId>): (kept: seq<Artifact>)
    ensures forall a :: a in kept <==> a in artifacts && a.id in ids
  {
    if artifacts == [] then []
    else
      var last := |artifacts| - 1;
      assert artifacts == artifacts[..last] + [artifacts[last]];
      RetainArtifacts(artifacts[..last], ids) + (if artifacts[last].id in ids then [artifacts[last]] else [])
  }

  lemma {:induction false} RetainThenStore(artifacts: seq<Artifact>, ids: set<ArtifactId>, size: StoredSize)
    ensures StoredAll(RetainArtifacts(artifacts, ids), size) == KeepArtifacts(artifacts, ids, size)
  {
    if artifacts != [] {
      var last := |artifacts| - 1;
      RetainThenStore(artifacts[..last], ids, size);
    }
  }

  /** Of the components and artifacts taken along, none needs a vault. */
  predicate VaultFree(components: seq<Component>, record: ClosureRecord) {
    forall c, a :: c in components && c.id in record.components && a in c.artifacts && a.id in record.artifacts ==> !NeedsVault(c, a)
  }

  predicate TotalFits(total: nat, policy: SelectionPolicy) {
    total <= U64_MAX && (policy.maxBytes.Some? ==> total <= policy.maxBytes.value)
  }

  /** Restrict the graph to a resolved selection and store its artifacts; fails
      exactly when one of them needs a vault, or the stored bytes overflow or
      pass the configured limit. */
  method BuildPackageInputs(graph: Graph, input: Input, record: ClosureRecord, size: StoredSize) returns (r: Result<(Graph, Input), ErrorCode>)
    ensures var packaged := Packaged(graph, record, size);
      var fits := TotalFits(SizesTotal(packaged.components), input.policy);
      && (r.Ok? <==> VaultFree(graph.components, record) && fits)
      && (r.Ok? ==> r.value == (packaged, PackagedInput(input, record)))
      && (r.Err? ==> || (r.error == VaultRequired && !VaultFree(graph.components, record))
                     || (r.error == SecurityPolicy && !fits))
  {
    hide KeepArtifacts, KeepComponents, KeepEdges, SizeTotal, SizesTotal, StoredAll, RetainArtifacts, KeepInside, NeedsVault;
    var components: seq<Component> := [];
    var actual: nat := 0;
    NothingPackaged(record, size);
    for n := 0 to |graph.components|
      invariant components == KeepComponents(graph.components[..n], record, size) && VaultFree(graph.components[..n], record)
      invariant actual == SizesTotal(components) && actual <= U64_MAX
    {
      var c := graph.components[n];
      KeepOneMore(graph.components, n, record, size);
      VaultFreeStep(graph.components, n, record);
      if c.id in record.components {
        var stored := StoreArtifacts(c, RetainArtifacts(c.artifacts, record.artifacts), size, actual);
        if stored.Err? {
          KeptPrefix(graph.components, n + 1, record, size);
          return Err(stored.error);
        }
        var (artifacts, total) := stored.value;
        components := components + [c.(dependencies := KeepEdges(c.dependencies, record.components), artifacts := artifacts)];
        actual := total;
      }
    }
    assert graph.components[..|graph.components|] == graph.components;
    if input.policy.maxBytes.Some? && actual > input.policy.maxBytes.value { return Err(SecurityPolicy); }
    r := Ok((Graph(components, KeepEdges(graph.edges, record.components)), PackagedInput(input, record)));
  }

  lemma VaultFreeStep(components: seq<Component>, n: nat, record: ClosureRecord)
    requires n < |components|
    ensures var c := components[n];
      VaultFree(components[..n + 1], record) <==> (VaultFree(components[..n], record)
        && (c.id in record.components ==> NoneNeedsVault(c, RetainArtifacts(c.artifacts, record.artifacts))))
    ensures VaultFree(components, record) ==> VaultFree(components[..n + 1], record)
  {
    hide NeedsVault, RetainArtifacts;
    assert components[..n + 1] == components[..n] + [components[n]];
  }

  lemma NothingPackaged(record: ClosureRecord, size: StoredSize)
    ensures KeepComponents([], record, size) == [] && SizesTotal([]) == 0
  {
  }

  lemma KeepOneMore(components: seq<Component>, n: nat, record: ClosureRecord, size: StoredSize)
    requires n < |components|
    ensures var c, kept := components[n], KeepComponents(components[..n], record, size);
      var stored := StoredAll(RetainArtifacts(c.artifacts, record.artifacts), size);
      var next := c.(dependencies := KeepEdges(c.dependencies, record.components), artifacts := stored);
      KeepComponents(components[..n + 1], record, size) == (if c.id in record.components then kept + [next] else kept)
      && SizesTotal(kept + [next]) == SizesTotal(kept) + SizeTotal(stored)
  {
    var c, kept := components[n], KeepComponents(components[..n], record, size);
    RetainThenStore(c.artifacts, record.artifacts, size);
    assert components[..n + 1][..n] == components[..n];
    var next := KeepInside(c, record, size);
    assert (kept + [next])[..|kept|] == kept;
    assert kept + [] == kept;
    hide KeepArtifacts, SizeTotal;
  }

  lemma {:induction false} KeptPrefix(components: seq<Component>, n: nat, record: ClosureRecord, size: StoredSize)
    requires n <= |components|
    ensures SizesTotal(KeepComponents(components[..n], record, size)) <= SizesTotal(KeepComponents(components, record, size))
    decreases |components| - n
  {
    hide KeepInside;
    if n == |components| {
      assert components[..n] == components;
    } else {
      KeptPrefix(components, n + 1, record, size);
      assert components[..n + 1][..n] == components[..n];
      var kept := KeepComponents(components[..n], record, size);
      var more := KeepComponents(components[..n + 1], record, size);
      assert more[..|kept|] == kept;
      SizesTotalGrows(more, |kept|);
    }
  }

  // ---------------------------------------------------------------- edges held elsewhere

  /** Required dependencies stated in the edge list or by a member of the set. */
  ghost function StatedWithin(graph: Graph, s: set<ComponentId>): Edges {
    RequiredPairs(graph.edges)
    + set c, e | c in graph.components && c.id in s && e in c.dependencies && e.required :: (e.from, e.to)
  }

  lemma PackagedEdges(graph: Graph, record: ClosureRecord, size: StoredSize)
    ensures RequiredEdges(Packaged(graph, record, size)) == Inner(StatedWithin(graph, record.components), record.components)
  {
    var s, packaged := record.components, Packaged(graph, record, size);
    KeptComponents(graph.components, record, size);
    hide KeepComponents, KeepEdges, KeepArtifacts;
    forall e | e in AllEdges(packaged) && e.required ensures (e.from, e.to) in Inner(StatedWithin(graph, s), s) {
      if e !in packaged.edges {
        var c' :| c' in packaged.components && e in c'.dependencies;
        var c :| c in graph.components && c.id in s && c' == KeepInside(c, record, size);
        assert c'.dependencies == KeepEdges(c.dependencies, s);
      }
    }
    forall a, b | (a, b) in Inner(StatedWithin(graph, s), s) ensures (a, b) in RequiredEdges(packaged) {
      if (a, b) in RequiredPairs(graph.edges) {
        var e :| e in graph.edges && e.required && (e.from, e.to) == (a, b);
        assert e in packaged.edges && e in AllEdges(packaged);
      } else {
        var c, e :| c in graph.components && c.id in s && e in c.dependencies && e.required && (e.from, e.to) == (a, b);
        var c' := KeepInside(c, record, size);
        assert c' in packaged.components && e in c'.dependencies && e in AllEdges(packaged);
      }
    }
  }

  lemma InnerTwice(edges: Edges, s: set<ComponentId>)
    ensures Inner(Inner(edges, s), s) == Inner(edges, s)
  {
  }

  /** Without the guarantee on embedded edges, the components close again
      exactly when every dependency that only an outsider states leads to a
      component that dependencies stated by members lead to as well. */
  lemma ComponentsCloseAgainExactlyWhenLostEdgesAreBypassed(graph: Graph, input: Input, size: StoredSize)
    requires Roots(input) <= Inventory(graph.components)
    ensures var s, record := Selected(graph, input), Outcome(graph, input);
      Selected(Packaged(graph, record, size), PackagedInput(input, record)) == s
      <==> forall a, b :: (a, b) in Inner(RequiredEdges(graph), s) && (a, b) !in StatedWithin(graph, s)
             ==> Derived(StatedWithin(graph, s), s, Roots(input), b)
  {
    hide RequiredEdges, StatedWithin;
    var required, inventory, roots := RequiredEdges(graph), Inventory(graph.components), Roots(input);
    var record, s := Outcome(graph, input), Selected(graph, input);
    var stated, kept := StatedWithin(graph, s), RequiredEdges(Packaged(graph, record, size));
    PackagedEdges(graph, record, size);
    PackagedInventory(graph, input, record, size);
    InnerTwice(stated, s);
    var t := ClosureOf(stated, s, roots);
    assert Selected(Packaged(graph, record, size), PackagedInput(input, record)) == t;
    ClosureIsLeast(required, inventory, roots);
    ClosureIsLeast(stated, s, roots);
    if forall a, b :: (a, b) in Inner(required, s) && (a, b) !in stated ==> Derived(stated, s, roots, b) {
      forall a, b | (a, b) in Inner(required, inventory) && a in t ensures b in t {
        assert (a, b) in Inner(required, s);
        assert (a, b) in stated ==> (a, b) in Inner(stated, s);
      }
      assert Closed(Inner(required, inventory), t);
    }
  }

  function Plain(id: nat, edges: seq<Edge>): Component {
    Component(id, false, false, false, false, false, [], edges, false, false, false, false)
  }

  /** The second component holds an edge from the first to the third. */
  function ForeignEdgeGraph(): Graph {
    Graph([Plain(1, []), Plain(2, [Edge(1, 3, 0, true)]), Plain(3, [])], [])
  }

  function FirstOnly(): Input {
    Input([1], [], SelectionPolicy(false, false, false, None))
  }

  lemma ForeignEdgeIsFollowed()
    ensures Selected(ForeignEdgeGraph(), FirstOnly()) == {1, 3}
  {
    var graph := ForeignEdgeGraph();
    var a, b, c := Plain(1, []), Plain(2, [Edge(1, 3, 0, true)]), Plain(3, []);
    assert graph.components == [a, b, c];
    assert RequiredEdges(graph) == {(1, 3)} by {
      assert b in graph.components && Edge(1, 3, 0, true) in b.dependencies && Edge(1, 3, 0, true) in AllEdges(graph);
    }
    assert Inventory(graph.components) == {1, 2, 3} by {
      assert a in graph.components && b in graph.components && c in graph.components;
    }
    assert Roots(FirstOnly()) == {1} by { assert 1 in FirstOnly().components; }
    hide RequiredEdges, Roots, Inventory;
    ClosureIsLeast(RequiredEdges(graph), {1, 2, 3}, {1});
    assert Closed(Inner(RequiredEdges(graph), {1, 2, 3}), {1, 3});
    DerivedStep(RequiredEdges(graph), {1, 2, 3}, {1}, 1, 3);
  }

  /** An edge that a component not taken along holds for another is lost, and
      the dependency added at backup is not added on restore. */
  lemma ForeignEdgeIsLost(size: StoredSize)
    ensures var graph, input := ForeignEdgeGraph(), FirstOnly();
      var record := Outcome(graph, input);
      Selected(graph, input) == {1, 3} && Selected(Packaged(graph, record, size), PackagedInput(input, record)) == {1}
  {
    ForeignEdgeIsFollowed();
    var graph, input := ForeignEdgeGraph(), FirstOnly();
    var record := Outcome(graph, input);
    var graph' := Packaged(graph, record, size);
    PackagedInventory(graph, input, record, size);
    NoEdgeIsKept(record, size);
    assert Roots(input) == {1} by { assert 1 in input.components; }
    hide RequiredEdges, Roots, Outcome;
    ClosureIsLeast({}, {1, 3}, {1});
    assert Closed(Inner({}, {1, 3}), {1});
  }

  lemma NoEdgeIsKept(record: ClosureRecord, size: StoredSize)
    requires record.components == {1, 3}
    ensures RequiredEdges(Packaged(ForeignEdgeGraph(), record, size)) == {}
  {
    var graph := ForeignEdgeGraph();
    var graph' := Packaged(graph, record, size);
    KeptComponents(graph.components, record, size);
    hide KeepComponents;
    assert forall x :: x in graph.components && x.id in record.components ==> x.dependencies == [];
    forall x' | x' in graph'.components ensures x'.dependencies == [] {
      var x :| x in graph.components && x.id in record.components && x' == KeepInside(x, record, size);
      assert x'.dependencies == KeepInside(x, record, size).dependencies;
    }
  }
}
