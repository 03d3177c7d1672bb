/** Execution orders of operations with prerequisites, and exactly when the
    prerequisites fix the order of two operations in all of them. */
module Ordering {
  import opened Graphs

  type OperationId = nat
  type Prerequisites = map<OperationId, seq<OperationId>>

  /** Edges lead from an operation to its prerequisites. */
  ghost function PrerequisiteEdges(needs: Prerequisites): Edges {
    set id, before | id in needs && before in needs[id] :: (id, before)
  }

  /** Every prerequisite is an operation of the plan. */
  predicate Complete(needs: Prerequisites) {
    forall id, before :: id in needs && before in needs[id] ==> before in needs
  }

  /** Some operations, each once, each after all of its prerequisites. */
  predicate Linear(needs: Prerequisites, order: seq<OperationId>) {
    order == [] ||
    (var last := |order| - 1;
     && Linear(needs, order[..last])
     && order[last] in needs && order[last] !in order[..last]
     && forall before :: before in needs[order[last]] ==> before in order[..last])
  }

  /** A complete run of the plan that respects prerequisites. */
  predicate Execution(needs: Prerequisites, order: seq<OperationId>) {
    Linear(needs, order) && forall id :: id in needs ==> id in order
  }

  predicate RunsBefore(order: seq<OperationId>, a: OperationId, b: OperationId) {
    exists i, j :: 0 <= i < j < |order| && order[i] == a && order[j] == b
  }

  lemma {:induction false} LinearFacts(needs: Prerequisites, order: seq<OperationId>)
    requires Linear(needs, order)
    ensures forall i, j :: 0 <= i < j < |order| ==> order[i] != order[j]
    ensures forall i, before :: 0 <= i < |order| && order[i] in needs && before in needs[order[i]] ==> RunsBefore(order, before, order[i])
    ensures forall id :: id in order ==> id in needs
  {
    if order != [] {
      var last := |order| - 1;
      var shorter := order[..last];
      LinearFacts(needs, shorter);
      assert forall i :: 0 <= i < last ==> order[i] == shorter[i] && shorter[i] in shorter;
      forall i, before | 0 <= i < |order| && order[i] in needs && before in needs[order[i]]
        ensures RunsBefore(order, before, order[i])
      {
        if i < last {
          assert RunsBefore(shorter, before, shorter[i]);
          var x, y :| 0 <= x < y < |shorter| && shorter[x] == before && shorter[y] == shorter[i];
          assert order[x] == before && order[y] == order[i];
        } else {
          var x :| 0 <= x < |shorter| && shorter[x] == before;
          assert order[x] == before && order[last] == order[i];
        }
      }
    }
  }

  lemma RunsBeforeTransitive(needs: Prerequisites, order: seq<OperationId>, a: OperationId, b: OperationId, c: OperationId)
    requires Linear(needs, order) && RunsBefore(order, a, b) && RunsBefore(order, b, c)
    ensures RunsBefore(order, a, c)
  {
    LinearFacts(needs, order);
    var i, j :| 0 <= i < j < |order| && order[i] == a && order[j] == b;
    var k, l :| 0 <= k < l < |order| && order[k] == b && order[l] == c;
    assert j == k;
    assert order[i] == a && order[l] == c;
  }

  lemma NotBothWays(needs: Prerequisites, order: seq<OperationId>, a: OperationId, b: OperationId)
    requires Linear(needs, order) && RunsBefore(order, a, b)
    ensures !RunsBefore(order, b, a)
  {
    LinearFacts(needs, order);
    if RunsBefore(order, b, a) {
      RunsBeforeTransitive(needs, order, a, b, a);
    }
  }

  lemma {:induction false} PathRunsBefore(needs: Prerequisites, order: seq<OperationId>, p: seq<nat>, n: nat)
    requires Linear(needs, order) && IsPath(PrerequisiteEdges(needs), p) && 0 < n < |p|
    requires p[0] in order
    ensures RunsBefore(order, p[n], p[0])
    decreases n
  {
    LinearFacts(needs, order);
    assert (p[n - 1], p[n]) in PrerequisiteEdges(needs);
    if n == 1 {
      var i :| 0 <= i < |order| && order[i] == p[0];
      assert RunsBefore(order, p[1], order[i]);
    } else {
      PathRunsBefore(needs, order, p, n - 1);
      var i, j :| 0 <= i < j < |order| && order[i] == p[n - 1] && order[j] == p[0];
      assert RunsBefore(order, p[n], order[i]);
      RunsBeforeTransitive(needs, order, p[n], p[n - 1], p[0]);
    }
  }

  /** What an operation transitively needs runs before it. */
  lemma NeededRunsBefore(needs: Prerequisites, order: seq<OperationId>, a: OperationId, b: OperationId)
    requires Linear(needs, order) && a in order && Reaches(PrerequisiteEdges(needs), a, b)
    ensures RunsBefore(order, b, a)
  {
    var p :| IsPath(PrerequisiteEdges(needs), p) && |p| >= 2 && p[0] == a && p[|p| - 1] == b;
    PathRunsBefore(needs, order, p, |p| - 1);
  }

  /** A plan with an execution has no prerequisite cycle. */
  lemma ExecutionExcludesCycles(needs: Prerequisites, order: seq<OperationId>)
    requires Execution(needs, order)
    ensures !Cyclic(PrerequisiteEdges(needs))
  {
    var edges := PrerequisiteEdges(needs);
    forall a ensures !Reaches(edges, a, a) {
      if Reaches(edges, a, a) {
        var next := ReachesSplitsFirst(edges, a, a);
        assert a in order;
        NeededRunsBefore(needs, order, a, a);
        NotBothWays(needs, order, a, a);
      }
    }
  }

  // ---------------------------------------------------------------- two executions

  function Filter(order: seq<OperationId>, s: set<OperationId>, inside: bool): (r: seq<OperationId>)
    ensures forall x :: x in r <==> x in order && ((x in s) == inside)
  {
    if order == [] then []
    else
      var last := |order| - 1;
      assert order == order[..last] + [order[last]];
      Filter(order[..last], s, inside) + (if (order[last] in s) == inside then [order[last]] else [])
  }

  lemma LinearAppend(needs: Prerequisites, order: seq<OperationId>, x: OperationId)
    requires Linear(needs, order) && x in needs && x !in order
    requires forall before :: before in needs[x] ==> before in order
    ensures Linear(needs, order + [x])
  {
    assert (order + [x])[..|order|] == order;
  }

  lemma {:induction false} FilterIsLinear(needs: Prerequisites, order: seq<OperationId>, s: set<OperationId>)
    requires Linear(needs, order) && Closed(PrerequisiteEdges(needs), s)
    ensures Linear(needs, Filter(order, s, true))
  {
    if order != [] {
      var last := |order| - 1;
      FilterIsLinear(needs, order[..last], s);
      var first := Filter(order[..last], s, true);
      if order[last] in s {
        forall before | before in needs[order[last]] ensures before in first {
          assert (order[last], before) in PrerequisiteEdges(needs);
        }
        LinearAppend(needs, first, order[last]);
      } else {
        assert first + [] == first;
      }
    }
  }

  lemma {:induction false} RestIsLinear(needs: Prerequisites, order: seq<OperationId>, s: set<OperationId>, n: nat)
    requires Linear(needs, order) && Closed(PrerequisiteEdges(needs), s) && n <= |order|
    requires Linear(needs, order[..n])
    ensures Linear(needs, Filter(order, s, true) + Filter(order[..n], s, false))
    decreases n
  {
    var first := Filter(order, s, true);
    if n == 0 {
      FilterIsLinear(needs, order, s);
      assert first + [] == first;
    } else {
      var x := order[n - 1];
      assert order[..n][..n - 1] == order[..n - 1];
      RestIsLinear(needs, order, s, n - 1);
      var soFar := first + Filter(order[..n - 1], s, false);
      if x !in s {
        assert first + Filter(order[..n], s, false) == soFar + [x];
        forall before | before in needs[x] ensures before in soFar {
          assert before in order[..n - 1] && before in order;
        }
        assert x !in order[..n - 1];
        LinearAppend(needs, soFar, x);
      } else {
        assert first + Filter(order[..n], s, false) == soFar;
      }
    }
  }

  ghost function Needed(needs: Prerequisites, a: OperationId): set<OperationId> {
    set x | x in needs && (x == a || Reaches(PrerequisiteEdges(needs), a, x))
  }

  lemma NeededIsClosed(needs: Prerequisites, a: OperationId)
    requires Complete(needs) && a in needs
    ensures Closed(PrerequisiteEdges(needs), Needed(needs, a))
  {
    var edges := PrerequisiteEdges(needs);
    forall x, y | (x, y) in edges && x in Needed(needs, a) ensures y in Needed(needs, a) {
      StepReaches(edges, x, y);
      if x != a { ReachesTransitive(edges, a, x, y); }
    }
  }

  /** An operation that `a` does not need can be put off until after `a`. */
  lemma SomeExecutionRunsFirst(needs: Prerequisites, order: seq<OperationId>, a: OperationId, b: OperationId)
    returns (other: seq<OperationId>)
    requires Complete(needs) && Execution(needs, order)
    requires a in needs && b in needs && a != b && !Reaches(PrerequisiteEdges(needs), a, b)
    ensures Execution(needs, other) && RunsBefore(other, a, b)
  {
    var s := Needed(needs, a);
    NeededIsClosed(needs, a);
    assert order[..|order|] == order;
    RestIsLinear(needs, order, s, |order|);
    var first, second := Filter(order, s, true), Filter(order, s, false);
    other := first + second;
    assert a in first && b in second;
    assert Execution(needs, other);
    hide Execution, Filter, Needed;
    var i :| 0 <= i < |first| && first[i] == a;
    var j :| 0 <= j < |second| && second[j] == b;
    assert other[i] == a && other[|first| + j] == b && i < |first| + j < |other|;
  }

  /** Prerequisites fix the order of two operations exactly when one needs the
      other, directly or through others. */
  lemma PrecedenceIsExact(needs: Prerequisites, order: seq<OperationId>, a: OperationId, b: OperationId)
    requires Complete(needs) && Execution(needs, order) && a in needs && b in needs && a != b
    ensures Reaches(PrerequisiteEdges(needs), b, a)
      <==> (forall e :: Execution(needs, e) ==> RunsBefore(e, a, b))
  {
    if Reaches(PrerequisiteEdges(needs), b, a) {
      forall e | Execution(needs, e) ensures RunsBefore(e, a, b) {
        NeededRunsBefore(needs, e, b, a);
      }
    } else {
      var e := SomeExecutionRunsFirst(needs, order, b, a);
      NotBothWays(needs, e, b, a);
    }
  }

  /** Any two executions agree on the order of `a` and `b`. */
  ghost predicate OrderIsFixed(needs: Prerequisites, a: OperationId, b: OperationId) {
    forall e, f :: Execution(needs, e) && Execution(needs, f) ==> (RunsBefore(e, a, b) <==> RunsBefore(f, a, b))
  }

  lemma OneOfTheTwo(needs: Prerequisites, e: seq<OperationId>, a: OperationId, b: OperationId)
    requires Execution(needs, e) && a in needs && b in needs && a != b
    ensures RunsBefore(e, a, b) <==> !RunsBefore(e, b, a)
  {
    var i :| 0 <= i < |e| && e[i] == a;
    var j :| 0 <= j < |e| && e[j] == b;
    if i < j {
      assert RunsBefore(e, a, b);
      NotBothWays(needs, e, a, b);
    } else {
      assert RunsBefore(e, b, a);
      NotBothWays(needs, e, b, a);
    }
  }

  lemma FixedOrderIsPrecedence(needs: Prerequisites, order: seq<OperationId>, a: OperationId, b: OperationId)
    requires Complete(needs) && Execution(needs, order) && a in needs && b in needs && a != b
    ensures OrderIsFixed(needs, a, b)
      <==> Reaches(PrerequisiteEdges(needs), a, b) || Reaches(PrerequisiteEdges(needs), b, a)
  {
    PrecedenceIsExact(needs, order, a, b);
    PrecedenceIsExact(needs, order, b, a);
    if OrderIsFixed(needs, a, b) {
      OneOfTheTwo(needs, order, a, b);
      forall e | Execution(needs, e)
        ensures RunsBefore(e, a, b) <==> RunsBefore(order, a, b)
        ensures RunsBefore(e, b, a) <==> RunsBefore(order, b, a)
      {
        OneOfTheTwo(needs, e, a, b);
      }
    } else {
      var e, f :| Execution(needs, e) && Execution(needs, f) && RunsBefore(e, a, b) != RunsBefore(f, a, b);
      OneOfTheTwo(needs, e, a, b);
      OneOfTheTwo(needs, f, a, b);
    }
  }

  /** Two operations without prerequisites run in either order. */
  lemma FreePairIsUnordered(needs: Prerequisites)
    requires needs == map[0 := [], 1 := []]
    ensures !Cyclic(PrerequisiteEdges(needs)) && !OrderIsFixed(needs, 0, 1)
  {
    var e, f: seq<OperationId> := [0, 1], [1, 0];
    assert e[..1] == [0] && f[..1] == [1] && e[..1][..0] == [] && f[..1][..0] == [];
    assert Linear(needs, e[..1]) && Linear(needs, f[..1]);
    assert Execution(needs, e) && Execution(needs, f);
    ExecutionExcludesCycles(needs, e);
    assert e[0] == 0 && e[1] == 1;
    assert RunsBefore(e, 0, 1);
    assert !RunsBefore(f, 0, 1);
  }
}
