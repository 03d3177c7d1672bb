/** Reachability in finite directed graphs. */
module Graphs {
  type Edges = set<(nat, nat)>

  ghost predicate IsPath(edges: Edges, p: seq<nat>) {
    |p| > 0 && forall i :: 0 <= i < |p| - 1 ==> (p[i], p[i + 1]) in edges
  }

  /** A path of at least one step. */
  ghost predicate Reaches(edges: Edges, a: nat, b: nat) {
    exists p :: IsPath(edges, p) && |p| >= 2 && p[0] == a && p[|p| - 1] == b
  }

  ghost predicate Cyclic(edges: Edges) {
    exists a :: Reaches(edges, a, a)
  }

  lemma StepReaches(edges: Edges, a: nat, b: nat)
    requires (a, b) in edges
    ensures Reaches(edges, a, b)
  {
    assert IsPath(edges, [a, b]) && [a, b][1] == b;
  }

  lemma ReachesTransitive(edges: Edges, a: nat, b: nat, c: nat)
    requires Reaches(edges, a, b) && Reaches(edges, b, c)
    ensures Reaches(edges, a, c)
  {
    var p :| IsPath(edges, p) && |p| >= 2 && p[0] == a && p[|p| - 1] == b;
    var q :| IsPath(edges, q) && |q| >= 2 && q[0] == b && q[|q| - 1] == c;
    var r := p + q[1..];
    forall i | 0 <= i < |r| - 1 ensures (r[i], r[i + 1]) in edges {
      if i >= |p| - 1 { assert r[i] == q[i - |p| + 1] && r[i + 1] == q[i - |p| + 2]; }
    }
    assert IsPath(edges, r);
  }

  /** The first step of a walk. */
  lemma ReachesSplitsFirst(edges: Edges, a: nat, b: nat) returns (next: nat)
    requires Reaches(edges, a, b)
    ensures (a, next) in edges && (next == b || Reaches(edges, next, b))
  {
    var p :| IsPath(edges, p) && |p| >= 2 && p[0] == a && p[|p| - 1] == b;
    next := p[1];
    if |p| > 2 {
      var q := p[1..];
      forall i | 0 <= i < |q| - 1 ensures (q[i], q[i + 1]) in edges {
        assert q[i] == p[i + 1] && q[i + 1] == p[i + 2];
      }
      assert IsPath(edges, q) && q[0] == next && q[|q| - 1] == b;
    }
  }

  ghost predicate Closed(edges: Edges, s: set<nat>) {
    forall a, b :: (a, b) in edges && a in s ==> b in s
  }

  lemma {:induction false} PathStaysInClosed(edges: Edges, s: set<nat>, p: seq<nat>, n: nat)
    requires Closed(edges, s) && IsPath(edges, p) && p[0] in s && n < |p|
    ensures p[n] in s
    decreases n
  {
    if n > 0 {
      PathStaysInClosed(edges, s, p, n - 1);
      assert (p[n - 1], p[n]) in edges;
    }
  }

  /** Nothing reachable leaves a closed set. */
  lemma ClosedHoldsReachable(edges: Edges, s: set<nat>, a: nat, b: nat)
    requires Closed(edges, s) && a in s && Reaches(edges, a, b)
    ensures b in s
  {
    var p :| IsPath(edges, p) && |p| >= 2 && p[0] == a && p[|p| - 1] == b;
    PathStaysInClosed(edges, s, p, |p| - 1);
  }
}
