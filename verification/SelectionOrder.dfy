/** A resolved selection does not depend on the order in which components,
    edges, roots and decisions are listed
    (crates/reforge-domain/src/selection.rs, `build_selection_closure`). */
module SelectionOrder {
  import opened Graphs
  import opened Closure
  import opened Selection
  import opened Sorting

  // ---------------------------------------------------------------- reordered lists

  /** The list without its element at position k. */
  function Without<T>(xs: seq<T>, k: nat): seq<T>
    requires k < |xs|
  {
    xs[..k] + xs[k + 1..]
  }

  lemma WithoutContents<T>(xs: seq<T>, k: nat)
    requires k < |xs|
    ensures multiset(xs) == multiset(Without(xs, k)) + multiset{xs[k]}
  {
    assert xs == xs[..k] + [xs[k]] + xs[k + 1..];
  }

  lemma WithoutInner<T>(xs: seq<T>, k: nat)
    requires k < |xs| - 1
    ensures var last := |xs| - 1;
      Without(xs, k) == Without(xs[..last], k) + [xs[last]]
  {
  }

  /** The last element of one order stands somewhere in the other. */
  lemma MatchLast<T>(xs: seq<T>, ys: seq<T>) returns (k: nat)
    requires multiset(xs) == multiset(ys) && xs != []
    ensures k < |ys| && ys[k] == xs[|xs| - 1] && multiset(xs[..|xs| - 1]) == multiset(Without(ys, k))
  {
    SameMembers(xs, ys);
    var last := |xs| - 1;
    assert xs[last] in ys;
    k :| 0 <= k < |ys| && ys[k] == xs[last];
    WithoutContents(ys, k);
    assert xs == xs[..last] + [xs[last]];
    assert multiset(xs[..last]) == multiset(xs) - multiset{xs[last]};
  }

  /** Two places of one order stand at two places of the other. */
  lemma TwoPlaces<T>(xs: seq<T>, ys: seq<T>, i: nat, j: nat) returns (k: nat, l: nat)
    requires multiset(xs) == multiset(ys) && i < j < |ys|
    ensures k < |xs| && l < |xs| && k != l && xs[k] == ys[i] && xs[l] == ys[j]
  {
    SameMembers(xs, ys);
    assert ys[i] in xs;
    k :| 0 <= k < |xs| && xs[k] == ys[i];
    SameWithout(xs, k, ys, i);
    var rest, others := Without(xs, k), Without(ys, i);
    SameMembers(others, rest);
    assert others[j - 1] == ys[j];
    assert ys[j] in others;
    var m :| 0 <= m < |rest| && rest[m] == ys[j];
    l := if m < k then m else m + 1;
  }

  lemma SameWithout<T>(xs: seq<T>, k: nat, ys: seq<T>, i: nat)
    requires multiset(xs) == multiset(ys) && k < |xs| && i < |ys| && xs[k] == ys[i]
    ensures multiset(Without(xs, k)) == multiset(Without(ys, i))
  {
    hide Without;
    WithoutContents(xs, k);
    WithoutContents(ys, i);
    assert multiset(Without(xs, k)) == multiset(xs) - multiset{xs[k]};
    assert multiset(Without(ys, i)) == multiset(ys) - multiset{ys[i]};
  }

  ghost predicate Pairwise<T(!new)>(xs: seq<T>, apart: (T, T) -> bool) {
    forall i, j :: 0 <= i < j < |xs| ==> apart(xs[i], xs[j])
  }

  lemma PairwiseForgetsOrder<T(!new)>(xs: seq<T>, ys: seq<T>, apart: (T, T) -> bool)
    requires multiset(xs) == multiset(ys) && Pairwise(xs, apart)
    requires forall x, y :: apart(x, y) ==> apart(y, x)
    ensures Pairwise(ys, apart)
  {
    forall i, j | 0 <= i < j < |ys| ensures apart(ys[i], ys[j]) {
      var k, l := TwoPlaces(xs, ys, i, j);
      assert k < l ==> apart(xs[k], xs[l]);
      assert l < k ==> apart(xs[l], xs[k]);
    }
  }

  // ---------------------------------------------------------------- picks and their sum

  function OwnPicks(c: Component, selected: set<ComponentId>, decisions: Decisions): seq<Pick> {
    if c.id in selected then PicksOf(c, c.artifacts, decisions) else []
  }

  lemma {:induction false} PicksWithout(components: seq<Component>, k: nat, selected: set<ComponentId>, decisions: Decisions)
    requires k < |components|
    ensures multiset(Picks(components, selected, decisions))
      == multiset(Picks(Without(components, k), selected, decisions)) + multiset(OwnPicks(components[k], selected, decisions))
    decreases |components|
  {
    hide Picks, OwnPicks;
    var last := |components| - 1;
    var shorter, c := components[..last], components[last];
    assert components == shorter + [c];
    PicksStep(shorter, c, selected, decisions);
    if k == last {
      assert Without(components, k) == shorter;
    } else {
      PicksWithout(shorter, k, selected, decisions);
      WithoutInner(components, k);
      PicksStep(Without(shorter, k), c, selected, decisions);
    }
  }

  lemma PicksStep(components: seq<Component>, c: Component, selected: set<ComponentId>, decisions: Decisions)
    ensures multiset(Picks(components + [c], selected, decisions))
      == multiset(Picks(components, selected, decisions)) + multiset(OwnPicks(c, selected, decisions))
  {
    hide PicksOf;
    assert (components + [c])[..|components|] == components;
    assert Picks(components + [c], selected, decisions) == Picks(components, selected, decisions) + OwnPicks(c, selected, decisions);
  }

  lemma {:induction false} PicksForgetOrder(components: seq<Component>, others: seq<Component>, selected: set<ComponentId>, decisions: Decisions)
    requires multiset(components) == multiset(others)
    ensures multiset(Picks(components, selected, decisions)) == multiset(Picks(others, selected, decisions))
    decreases |components|
  {
    SameMembers(components, others);
    if components != [] {
      var last := |components| - 1;
      var k := MatchLast(components, others);
      PicksForgetOrder(components[..last], Without(others, k), selected, decisions);
      PicksWithout(others, k, selected, decisions);
      PicksWithout(components, last, selected, decisions);
      assert Without(components, last) == components[..last];
    }
  }

  lemma {:induction false} SumWithout(picks: seq<Pick>, k: nat, decisions: Decisions, policy: SelectionPolicy, given: set<Warning>)
    requires k < |picks|
    ensures Sum(picks, decisions, policy, given) == Add(Sum(Without(picks, k), decisions, policy, given), picks[k], Raised(picks[k], decisions, policy))
    decreases |picks|
  {
    hide PickVerdict;
    var last := |picks| - 1;
    var shorter, p := picks[..last], picks[last];
    if k == last {
      assert Without(picks, k) == shorter;
    } else {
      SumWithout(shorter, k, decisions, policy, given);
      WithoutInner(picks, k);
      SumStep(Without(shorter, k), p, decisions, policy, given);
    }
  }

  lemma {:induction false} SumForgetsOrder(picks: seq<Pick>, others: seq<Pick>, decisions: Decisions, policy: SelectionPolicy, given: set<Warning>)
    requires multiset(picks) == multiset(others)
    ensures Sum(picks, decisions, policy, given) == Sum(others, decisions, policy, given)
    decreases |picks|
  {
    hide PickVerdict, Sum;
    SameMembers(picks, others);
    if picks == [] {
      assert others == [];
    } else {
      var last := |picks| - 1;
      var k := MatchLast(picks, others);
      SumForgetsOrder(picks[..last], Without(others, k), decisions, policy, given);
      SumWithout(others, k, decisions, policy, given);
      SumWithout(picks, last, decisions, policy, given);
      assert Without(picks, last) == picks[..last];
    }
  }

  // ---------------------------------------------------------------- what else an order could touch

  predicate Decides(m: Decisions, artifacts: seq<Decision>) {
    forall d :: d in artifacts ==> d.artifact in m && m[d.artifact] == d.wanted
  }

  lemma DecidesStep(m: Decisions, artifacts: seq<Decision>, d: Decision)
    requires Decides(m, artifacts) && forall e :: e in artifacts ==> e.artifact != d.artifact
    ensures Decides(m[d.artifact := d.wanted], artifacts + [d])
  {
  }

  lemma {:induction false} DecisionMapMeaning(artifacts: seq<Decision>)
    requires UniqueDecisions(artifacts)
    ensures Decides(DecisionMap(artifacts), artifacts)
  {
    hide DecisionMap, Decides;
    if artifacts == [] {
      NothingDecided();
    } else {
      var last := |artifacts| - 1;
      var shorter, d := artifacts[..last], artifacts[last];
      assert artifacts == shorter + [d];
      UniqueStep(shorter, d);
      hide UniqueDecisions;
      DecisionMapMeaning(shorter);
      DecidesStep(DecisionMap(shorter), shorter, d);
      DecisionMapStep(shorter, d);
    }
  }

  lemma NothingDecided()
    ensures Decides(DecisionMap([]), [])
  {
  }

  lemma DecisionsForgetOrder(artifacts: seq<Decision>, others: seq<Decision>)
    requires multiset(artifacts) == multiset(others) && UniqueDecisions(artifacts)
    ensures UniqueDecisions(others) && DecisionMap(artifacts) == DecisionMap(others)
  {
    SameMembers(artifacts, others);
    var apart := (d: Decision, e: Decision) => d.artifact != e.artifact;
    assert Pairwise(artifacts, apart);
    PairwiseForgetsOrder(artifacts, others, apart);
    assert UniqueDecisions(others) by { assert forall i, j :: 0 <= i < j < |others| ==> apart(others[i], others[j]); }
    hide *;
    SameDecisions(artifacts, others);
  }

  lemma SameDecisions(artifacts: seq<Decision>, others: seq<Decision>)
    requires UniqueDecisions(artifacts) && UniqueDecisions(others) && forall d :: d in artifacts <==> d in others
    ensures DecisionMap(artifacts) == DecisionMap(others)
  {
    hide UniqueDecisions, DecisionMap;
    DecisionMapMeaning(artifacts);
    DecisionMapMeaning(others);
    var m, m' := DecisionMap(artifacts), DecisionMap(others);
    forall id ensures (id in m <==> id in m') && (id in m ==> m[id] == m'[id]) {
      if id in m {
        var d :| d in artifacts && d.artifact == id;
      }
      if id in m' {
        var d :| d in others && d.artifact == id;
      }
    }
  }

  lemma {:induction false} ComponentWarningsMeaning(components: seq<Component>, selected: set<ComponentId>, policy: SelectionPolicy)
    ensures forall w :: w in ComponentWarnings(components, selected, policy) <==>
      exists c :: c in components && c.id in selected && Warns(c, policy, w)
  {
    hide ComponentVerdict;
    if components != [] {
      var last := |components| - 1;
      ComponentWarningsMeaning(components[..last], selected, policy);
      assert components == components[..last] + [components[last]];
    }
  }

  predicate Warns(c: Component, policy: SelectionPolicy, w: Warning) {
    var verdict := ComponentVerdict(c, policy);
    verdict.Ok? && w in verdict.value
  }

  lemma ComponentWarningsForgetOrder(components: seq<Component>, others: seq<Component>, selected: set<ComponentId>, policy: SelectionPolicy)
    requires multiset(components) == multiset(others)
    ensures ComponentWarnings(components, selected, policy) == ComponentWarnings(others, selected, policy)
  {
    hide *;
    SameMembers(components, others);
    ComponentWarningsMeaning(components, selected, policy);
    ComponentWarningsMeaning(others, selected, policy);
    var first, second := ComponentWarnings(components, selected, policy), ComponentWarnings(others, selected, policy);
    forall w ensures w in first <==> w in second {
      assert w in first <==> exists c :: c in components && c.id in selected && Warns(c, policy, w);
      assert w in second <==> exists c :: c in others && c.id in selected && Warns(c, policy, w);
    }
  }

  // ---------------------------------------------------------------- the whole resolution

  /** The same components, edges, roots and decisions, in any order. */
  predicate SameButOrder(graph: Graph, input: Input, graph': Graph, input': Input) {
    && multiset(graph.components) == multiset(graph'.components)
    && multiset(graph.edges) == multiset(graph'.edges)
    && multiset(input.components) == multiset(input'.components)
    && multiset(input.artifacts) == multiset(input'.artifacts)
    && input.policy == input'.policy
  }

  lemma SameGraphs(graph: Graph, input: Input, graph': Graph, input': Input)
    requires SameButOrder(graph, input, graph', input')
    ensures RequiredEdges(graph) == RequiredEdges(graph') && Inventory(graph.components) == Inventory(graph'.components)
    ensures Roots(input) == Roots(input') && Selected(graph, input) == Selected(graph', input')
    ensures forall e :: e in AllEdges(graph) <==> e in AllEdges(graph')
  {
    SameMembers(graph.components, graph'.components);
    SameMembers(graph.edges, graph'.edges);
    SameMembers(input.components, input'.components);
    forall e ensures e in AllEdges(graph) <==> e in AllEdges(graph') {
      assert e in AllEdges(graph) <==> e in graph.edges || exists c :: c in graph.components && e in c.dependencies;
      assert e in AllEdges(graph') <==> e in graph'.edges || exists c :: c in graph'.components && e in c.dependencies;
    }
    hide AllEdges;
    assert RequiredEdges(graph) == RequiredEdges(graph');
    assert Inventory(graph.components) == Inventory(graph'.components);
  }

  lemma SameEarlyWarnings(graph: Graph, input: Input, graph': Graph, input': Input)
    requires SameButOrder(graph, input, graph', input')
    ensures EarlyWarnings(graph, input) == EarlyWarnings(graph', input')
  {
    SameGraphs(graph, input, graph', input');
    ComponentWarningsForgetOrder(graph.components, graph'.components, Selected(graph, input), input.policy);
    hide AllEdges, Selected, Inventory, Roots, ComponentWarnings;
  }

  /** The record is the same for every order of its inputs. */
  lemma OutcomeForgetsOrder(graph: Graph, input: Input, graph': Graph, input': Input)
    requires SameButOrder(graph, input, graph', input') && UniqueDecisions(input.artifacts)
    ensures Outcome(graph, input) == Outcome(graph', input')
    ensures multiset(Taken(graph, input)) == multiset(Taken(graph', input'))
  {
    hide Selected, EarlyWarnings, Sum, Picks, DecisionMap, UniqueDecisions;
    SameGraphs(graph, input, graph', input');
    SameEarlyWarnings(graph, input, graph', input');
    DecisionsForgetOrder(input.artifacts, input'.artifacts);
    PicksForgetOrder(graph.components, graph'.components, Selected(graph, input), DecisionMap(input.artifacts));
    SumForgetsOrder(Taken(graph, input), Taken(graph', input'), DecisionMap(input.artifacts), input.policy, EarlyWarnings(graph, input));
  }

  predicate Foreign(c: Component, d: Component) {
    ArtifactIds(c.artifacts) !! ArtifactIds(d.artifacts)
  }

  lemma UniqueArtifactsMeaning(components: seq<Component>)
    ensures UniqueArtifacts(components) <==>
      (forall c :: c in components ==> OwnArtifactsUnique(c.artifacts)) && Pairwise(components, Foreign)
  {
    hide OwnArtifactsUnique;
    forall i | 0 <= i < |components|
      ensures ArtifactsNewAt(components, i) <==>
        OwnArtifactsUnique(components[i].artifacts) && forall k :: 0 <= k < i ==> Foreign(components[k], components[i])
    {
      NewAtMeaning(components, i);
    }
    hide ArtifactsNewAt, Foreign;
  }

  lemma NewAtMeaning(components: seq<Component>, i: nat)
    requires i < |components|
    ensures ArtifactsNewAt(components, i) <==>
      OwnArtifactsUnique(components[i].artifacts) && forall k :: 0 <= k < i ==> Foreign(components[k], components[i])
  {
    var earlier, mine := components[..i], ArtifactIds(components[i].artifacts);
    if forall k :: 0 <= k < i ==> Foreign(components[k], components[i]) {
      forall id | id in ListedArtifacts(earlier) ensures id !in mine {
        var c, a :| c in earlier && a in c.artifacts && a.id == id;
        var k :| 0 <= k < i && earlier[k] == c;
        assert Foreign(components[k], components[i]) && id in ArtifactIds(c.artifacts);
      }
    }
    forall k | 0 <= k < i && ListedArtifacts(earlier) !! mine ensures Foreign(components[k], components[i]) {
      assert earlier[k] == components[k] && components[k] in earlier;
      assert ArtifactIds(components[k].artifacts) <= ListedArtifacts(earlier);
    }
  }

  lemma NamesForgetOrder(graph: Graph, input: Input, graph': Graph, input': Input)
    requires SameButOrder(graph, input, graph', input') && WellReferenced(graph, input)
    ensures WellReferenced(graph', input')
  {
    hide UniqueArtifacts, Foreign, OwnArtifactsUnique;
    SameMembers(graph.components, graph'.components);
    SameMembers(input.components, input'.components);
    SameMembers(input.artifacts, input'.artifacts);
    var apart := (c: Component, d: Component) => c.id != d.id;
    assert Pairwise(graph.components, apart);
    PairwiseForgetsOrder(graph.components, graph'.components, apart);
    assert UniqueComponents(graph'.components) by {
      assert forall i, j :: 0 <= i < j < |graph'.components| ==> apart(graph'.components[i], graph'.components[j]);
    }
    var differ := (x: ComponentId, y: ComponentId) => x != y;
    assert Pairwise(input.components, differ);
    PairwiseForgetsOrder(input.components, input'.components, differ);
    assert forall i, j :: 0 <= i < j < |input'.components| ==> differ(input'.components[i], input'.components[j]);
    hide UniqueComponents;
    UniqueArtifactsMeaning(graph.components);
    UniqueArtifactsMeaning(graph'.components);
    ForeignIsMutual();
    PairwiseForgetsOrder(graph.components, graph'.components, Foreign);
    DecisionsForgetOrder(input.artifacts, input'.artifacts);
    hide UniqueDecisions, Pairwise;
    assert ListedArtifacts(graph.components) == ListedArtifacts(graph'.components);
    assert Inventory(graph.components) == Inventory(graph'.components);
  }

  lemma ForeignIsMutual()
    ensures forall c, d :: Foreign(c, d) ==> Foreign(d, c)
  {
  }

  lemma PolicyForgetsOrder(graph: Graph, input: Input, graph': Graph, input': Input)
    requires SameButOrder(graph, input, graph', input') && UniqueDecisions(input.artifacts) && WithinPolicy(graph, input)
    ensures WithinPolicy(graph', input')
  {
    hide PickVerdict, ComponentVerdict, Selected, Picks, UniqueDecisions, DecisionMap;
    OutcomeForgetsOrder(graph, input, graph', input');
    SameGraphs(graph, input, graph', input');
    DecisionsForgetOrder(input.artifacts, input'.artifacts);
    SameMembers(graph.components, graph'.components);
    SameMembers(input.artifacts, input'.artifacts);
    SameMembers(Taken(graph, input), Taken(graph', input'));
    hide Taken;
    forall i | 0 <= i < |graph'.components| && graph'.components[i].id in Selected(graph', input')
      ensures ComponentVerdict(graph'.components[i], input'.policy).Ok?
    {
      assert graph'.components[i] in graph.components;
    }
    forall i | 0 <= i < |Taken(graph', input')| ensures PickVerdict(Taken(graph', input')[i], DecisionMap(input'.artifacts), input'.policy).Ok? {
      assert Taken(graph', input')[i] in Taken(graph, input);
    }
  }

  /** Whether a selection resolves, and to what record, is the same for every
      order of components, edges, roots and decisions. */
  lemma SelectionForgetsOrder(graph: Graph, input: Input, graph': Graph, input': Input)
    requires SameButOrder(graph, input, graph', input')
    ensures Selectable(graph, input) <==> Selectable(graph', input')
    ensures Selectable(graph, input) ==> Outcome(graph, input) == Outcome(graph', input')
  {
    hide *;
    assert SameButOrder(graph', input', graph, input) by { SameIsMutual(graph, input, graph', input'); }
    if Selectable(graph, input) { SelectableForgetsOrder(graph, input, graph', input'); }
    if Selectable(graph', input') { SelectableForgetsOrder(graph', input', graph, input); }
  }

  lemma SameIsMutual(graph: Graph, input: Input, graph': Graph, input': Input)
    requires SameButOrder(graph, input, graph', input')
    ensures SameButOrder(graph', input', graph, input)
  {
  }

  lemma SelectableForgetsOrder(graph: Graph, input: Input, graph': Graph, input': Input)
    requires SameButOrder(graph, input, graph', input') && Selectable(graph, input)
    ensures Selectable(graph', input') && Outcome(graph, input) == Outcome(graph', input')
  {
    hide Outcome, Selected, WithinPolicy, RequiredEdges, UniqueDecisions, ClosureOf;
    assert UniqueDecisions(input.artifacts);
    NamesForgetOrder(graph, input, graph', input');
    PolicyForgetsOrder(graph, input, graph', input');
    OutcomeForgetsOrder(graph, input, graph', input');
    SameGraphs(graph, input, graph', input');
  }
}
