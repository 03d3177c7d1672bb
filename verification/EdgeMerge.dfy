/** Rewriting dependency edges onto merged components
    (crates/reforge-discovery/src/dedup.rs, `merge_edges` and the dependency
    rebuild in `deduplicate_graph`). */
module EdgeMerge {
  import opened SortedLists

  type ComponentId = nat
  type EvidenceId = nat
  type Grade = nat  // a confidence level, as computed from the evidence list

  datatype Edge = Edge(from: ComponentId, to: ComponentId, kind: nat, required: bool,
                       evidence: seq<EvidenceId>, confidence: Grade)

  datatype EdgeKey = EdgeKey(from: ComponentId, to: ComponentId, kind: nat, required: bool)

  function KeyOf(e: Edge): EdgeKey {
    EdgeKey(e.from, e.to, e.kind, e.required)
  }

  function Target(mapping: map<ComponentId, ComponentId>, id: ComponentId): ComponentId {
    if id in mapping then mapping[id] else id
  }

  function Rewritten(mapping: map<ComponentId, ComponentId>, e: Edge): Edge {
    e.(from := Target(mapping, e.from), to := Target(mapping, e.to))
  }

  /** Order of the emitted edges; required edges come before optional ones. */
  predicate Before(a: EdgeKey, b: EdgeKey) {
    a.from < b.from || (a.from == b.from
    && (a.to < b.to || (a.to == b.to
    && (a.kind < b.kind || (a.kind == b.kind && a.required && !b.required)))))
  }

  /** Edges are told apart and ordered by source, then target, then kind, then
      whether they are required: the first of these that differs decides. */
  lemma BeforeMeaning(a: EdgeKey, b: EdgeKey)
    ensures a.from != b.from ==> (Before(a, b) <==> a.from < b.from)
    ensures a.from == b.from && a.to != b.to ==> (Before(a, b) <==> a.to < b.to)
    ensures a.from == b.from && a.to == b.to && a.kind != b.kind ==> (Before(a, b) <==> a.kind < b.kind)
    ensures a.from == b.from && a.to == b.to && a.kind == b.kind ==> (Before(a, b) <==> a.required && !b.required)
  {
  }

  /** Both ends are looked up in the mapping and stand for themselves without an
      entry; nothing else of the edge changes. */
  lemma RewrittenMeaning(mapping: map<ComponentId, ComponentId>, e: Edge)
    ensures var r := Rewritten(mapping, e);
      && (e.from in mapping ==> r.from == mapping[e.from]) && (e.from !in mapping ==> r.from == e.from)
      && (e.to in mapping ==> r.to == mapping[e.to]) && (e.to !in mapping ==> r.to == e.to)
      && r.kind == e.kind && r.required == e.required && r.evidence == e.evidence
      && KeyOf(r).from == r.from && KeyOf(r).to == r.to && KeyOf(r).kind == e.kind && KeyOf(r).required == e.required
  {
  }

  predicate Ordered(edges: seq<Edge>) {
    forall i, j :: 0 <= i < j < |edges| ==> Before(KeyOf(edges[i]), KeyOf(edges[j]))
  }

  /** `x` is evidence of an input edge that is rewritten to `key`. */
  predicate Supports(input: seq<Edge>, mapping: map<ComponentId, ComponentId>, key: EdgeKey, x: EvidenceId) {
    exists e :: e in input && KeyOf(Rewritten(mapping, e)) == key && x in e.evidence
  }

  predicate HasKey(edges: seq<Edge>, key: EdgeKey) {
    exists e :: e in edges && KeyOf(e) == key
  }

  predicate MapsTo(input: seq<Edge>, mapping: map<ComponentId, ComponentId>, key: EdgeKey) {
    exists e :: e in input && KeyOf(Rewritten(mapping, e)) == key
  }

  /** The output carries each rewritten key once, in order, with exactly the
      evidence of the edges behind it. */
  ghost predicate IsMerge(input: seq<Edge>, mapping: map<ComponentId, ComponentId>, grade: seq<EvidenceId> -> Grade,
                          output: seq<Edge>) {
    && Ordered(output)
    && (forall key :: HasKey(output, key) <==> MapsTo(input, mapping, key))
    && (forall e :: e in output ==> Ascending(e.evidence) && e.confidence == grade(e.evidence))
    && (forall e, x :: e in output ==> (x in e.evidence <==> Supports(input, mapping, KeyOf(e), x)))
  }

  // ---------------------------------------------------------------- merging

  ghost predicate Collected(input: seq<Edge>, mapping: map<ComponentId, ComponentId>, merged: map<EdgeKey, Edge>) {
    && (forall key :: key in merged <==> MapsTo(input, mapping, key))
    && (forall key :: key in merged ==> KeyOf(merged[key]) == key && Ascending(merged[key].evidence))
    && (forall key, x :: key in merged ==> (x in merged[key].evidence <==> Supports(input, mapping, key, x)))
  }

  lemma MapsToStep(input: seq<Edge>, mapping: map<ComponentId, ComponentId>, e: Edge, key: EdgeKey)
    ensures MapsTo(input + [e], mapping, key) <==> MapsTo(input, mapping, key) || key == KeyOf(Rewritten(mapping, e))
  {
    assert e in input + [e];
  }

  lemma SupportsStep(input: seq<Edge>, mapping: map<ComponentId, ComponentId>, e: Edge, key: EdgeKey, x: EvidenceId)
    ensures Supports(input + [e], mapping, key, x)
      <==> Supports(input, mapping, key, x) || (key == KeyOf(Rewritten(mapping, e)) && x in e.evidence)
  {
    assert e in input + [e];
  }

  lemma SupportedKeysAreMapped(input: seq<Edge>, mapping: map<ComponentId, ComponentId>, key: EdgeKey, x: EvidenceId)
    requires Supports(input, mapping, key, x)
    ensures MapsTo(input, mapping, key)
  {
  }

  lemma CollectStep(input: seq<Edge>, mapping: map<ComponentId, ComponentId>, merged: map<EdgeKey, Edge>, e: Edge, entry: Edge)
    requires Collected(input, mapping, merged)
    requires var key := KeyOf(Rewritten(mapping, e));
      && KeyOf(entry) == key
      && entry.evidence == SortDedup((if key in merged then merged[key].evidence else []) + e.evidence)
    ensures Collected(input + [e], mapping, merged[KeyOf(entry) := entry])
  {
    hide MapsTo, Supports, SortDedup;
    var next := merged[KeyOf(entry) := entry];
    forall key ensures key in next <==> MapsTo(input + [e], mapping, key) { MapsToStep(input, mapping, e, key); }
    forall key, x | key in next
      ensures x in next[key].evidence <==> Supports(input + [e], mapping, key, x)
    {
      SupportsStep(input, mapping, e, key, x);
      if key !in merged && Supports(input, mapping, key, x) { SupportedKeysAreMapped(input, mapping, key, x); }
    }
  }

  /** Insert by key into an ordered list without that key. */
  function Place(edges: seq<Edge>, e: Edge): (r: seq<Edge>)
    requires Ordered(edges) && !HasKey(edges, KeyOf(e))
    ensures Ordered(r) && forall x :: x in r <==> x == e || x in edges
  {
    if edges == [] then [e]
    else if Before(KeyOf(e), KeyOf(edges[0])) then [e] + edges
    else
      assert forall x :: x in edges[1..] ==> x in edges;
      assert edges[0] in edges;
      var rest := Place(edges[1..], e);
      assert forall i :: 0 <= i < |rest| ==> rest[i] in rest;
      [edges[0]] + rest
  }

  method MergeEdges(input: seq<Edge>, mapping: map<ComponentId, ComponentId>, grade: seq<EvidenceId> -> Grade)
    returns (output: seq<Edge>)
    ensures IsMerge(input, mapping, grade, output)
  {
    var merged: map<EdgeKey, Edge> := map[];
    for n := 0 to |input|
      invariant Collected(input[..n], mapping, merged)
    {
      var edge := Rewritten(mapping, input[n]);
      var key := KeyOf(edge);
      ghost var before := merged;
      if key in merged {
        var existing := merged[key];
        merged := merged[key := existing.(evidence := SortDedup(existing.evidence + edge.evidence))];
      } else {
        assert [] + edge.evidence == edge.evidence;
        merged := merged[key := edge.(evidence := SortDedup(edge.evidence))];
      }
      CollectStep(input[..n], mapping, before, input[n], merged[key]);
      assert input[..n] + [input[n]] == input[..n + 1];
    }
    assert input[..|input|] == input;
    output := Emit(merged, grade);
    forall e, x | e in output
      ensures x in e.evidence <==> Supports(input, mapping, KeyOf(e), x) {}
  }

  method Emit(merged: map<EdgeKey, Edge>, grade: seq<EvidenceId> -> Grade) returns (output: seq<Edge>)
    requires forall key :: key in merged ==> KeyOf(merged[key]) == key
    ensures Ordered(output)
    ensures forall key :: HasKey(output, key) <==> key in merged
    ensures forall e :: e in output ==> KeyOf(e) in merged && e == merged[KeyOf(e)].(confidence := grade(e.evidence))
  {
    output := [];
    var pending := merged.Keys;
    while pending != {}
      invariant pending <= merged.Keys && Ordered(output)
      invariant forall key :: HasKey(output, key) <==> key in merged.Keys - pending
      invariant forall e :: e in output ==> KeyOf(e) in merged && e == merged[KeyOf(e)].(confidence := grade(e.evidence))
      decreases pending
    {
      var key :| key in pending;
      pending := pending - {key};
      var edge := merged[key].(confidence := grade(merged[key].evidence));
      ghost var before := output;
      output := Place(output, edge);
      forall k ensures HasKey(output, k) <==> HasKey(before, k) || k == key {
        if k == key { assert edge in output; }
        if HasKey(before, k) { var e :| e in before && KeyOf(e) == k; assert e in output; }
      }
    }
  }

  // ---------------------------------------------------------------- what the contract pins down

  lemma {:induction false} OrderedUnique(s: seq<Edge>, t: seq<Edge>)
    requires Ordered(s) && Ordered(t) && forall e :: e in s <==> e in t
    ensures s == t
    decreases |s|
  {
    if s == [] {
      assert forall i :: 0 <= i < |t| ==> t[i] in t;
    } else {
      assert s[0] in s && s[0] in t;
      assert t[0] in t && t[0] in s;
      assert s[0] == t[0];
      forall e ensures e in s[1..] <==> e in t[1..] {
        if e in s[1..] { assert e in s && e != s[0]; }
        if e in t[1..] { assert e in t && e != t[0]; }
      }
      OrderedUnique(s[1..], t[1..]);
      assert s == [s[0]] + s[1..] && t == [t[0]] + t[1..];
    }
  }

  /** The merge depends only on which edges are given, not on their order or
      repetition: the contract has a single solution. */
  lemma MergeIgnoresInputOrder(first: seq<Edge>, second: seq<Edge>, mapping: map<ComponentId, ComponentId>,
                               grade: seq<EvidenceId> -> Grade, s: seq<Edge>, t: seq<Edge>)
    requires forall e :: e in first <==> e in second
    requires IsMerge(first, mapping, grade, s) && IsMerge(second, mapping, grade, t)
    ensures s == t
  {
    SameMerge(first, second, mapping, grade, s, t);
    SameMerge(second, first, mapping, grade, t, s);
    OrderedUnique(s, t);
  }

  lemma SameMerge(first: seq<Edge>, second: seq<Edge>, mapping: map<ComponentId, ComponentId>,
                  grade: seq<EvidenceId> -> Grade, s: seq<Edge>, t: seq<Edge>)
    requires forall e :: e in first <==> e in second
    requires IsMerge(first, mapping, grade, s) && IsMerge(second, mapping, grade, t)
    ensures forall e :: e in s ==> e in t
  {
    forall e | e in s ensures e in t {
      assert HasKey(s, KeyOf(e)) && MapsTo(first, mapping, KeyOf(e)) && MapsTo(second, mapping, KeyOf(e));
      assert HasKey(t, KeyOf(e));
      var f :| f in t && KeyOf(f) == KeyOf(e);
      forall x ensures x in e.evidence <==> x in f.evidence {
        assert Supports(first, mapping, KeyOf(e), x) <==> Supports(second, mapping, KeyOf(e), x);
      }
      AscendingUnique(e.evidence, f.evidence);
    }
  }

  // ---------------------------------------------------------------- dependency lists

  /** The dependencies of a component: its outgoing merged edges. */
  function Outgoing(edges: seq<Edge>, id: ComponentId): seq<Edge> {
    if edges == [] then []
    else (if edges[0].from == id then [edges[0]] else []) + Outgoing(edges[1..], id)
  }

  lemma {:induction false} OutgoingMembers(edges: seq<Edge>, id: ComponentId)
    ensures forall e :: e in Outgoing(edges, id) <==> e in edges && e.from == id
    ensures Ordered(edges) ==> Ordered(Outgoing(edges, id))
  {
    if edges != [] {
      OutgoingMembers(edges[1..], id);
      var rest := Outgoing(edges[1..], id);
      assert forall i :: 0 <= i < |rest| ==> rest[i] in rest;
      assert edges == [edges[0]] + edges[1..];
      if Ordered(edges) { assert Ordered(edges[1..]); }
    }
  }

  function AllOutgoing(edges: seq<Edge>, ids: seq<ComponentId>): seq<Edge> {
    if ids == [] then [] else Outgoing(edges, ids[0]) + AllOutgoing(edges, ids[1..])
  }

  lemma {:induction false} AllOutgoingMembers(edges: seq<Edge>, ids: seq<ComponentId>)
    ensures forall e :: e in AllOutgoing(edges, ids) <==> e in edges && e.from in ids
  {
    if ids != [] {
      OutgoingMembers(edges, ids[0]);
      AllOutgoingMembers(edges, ids[1..]);
      assert ids == [ids[0]] + ids[1..];
    }
  }

  /** The mapping leaves the ends of these edges alone. */
  predicate LeavesAlone(mapping: map<ComponentId, ComponentId>, edges: seq<Edge>) {
    forall e :: e in edges ==> Rewritten(mapping, e) == e
  }

  /** A normalized graph states its edges twice, in the edge list and in the
      dependency lists. Merging it again, under any mapping that leaves its IDs
      alone, gives back the very same edges. */
  lemma MergingAgainChangesNothing(input: seq<Edge>, mapping: map<ComponentId, ComponentId>, grade: seq<EvidenceId> -> Grade,
                                   output: seq<Edge>, ids: seq<ComponentId>, still: map<ComponentId, ComponentId>, again: seq<Edge>)
    requires IsMerge(input, mapping, grade, output) && LeavesAlone(still, output)
    requires IsMerge(output + AllOutgoing(output, ids), still, grade, again)
    ensures again == output
  {
    AllOutgoingMembers(output, ids);
    forall e, x | e in output ensures x in e.evidence <==> Supports(output, still, KeyOf(e), x) {
      if Supports(output, still, KeyOf(e), x) {
        var f :| f in output && KeyOf(Rewritten(still, f)) == KeyOf(e) && x in f.evidence;
        var i :| 0 <= i < |output| && output[i] == e;
        var j :| 0 <= j < |output| && output[j] == f;
        assert i == j;
      }
    }
    forall key ensures HasKey(output, key) <==> MapsTo(output, still, key) {
      if HasKey(output, key) { var e :| e in output && KeyOf(e) == key; assert Rewritten(still, e) == e; }
    }
    assert IsMerge(output, still, grade, output);
    MergeIgnoresInputOrder(output, output + AllOutgoing(output, ids), still, grade, output, again);
  }
}
