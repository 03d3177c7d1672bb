/** The least set of components that contains the roots and is closed under
    required dependencies. */
module Closure {
  import opened Graphs

  /** Edges that stay inside the inventory. */
  ghost function Inner(edges: Edges, inventory: set<nat>): Edges {
    set a, b | (a, b) in edges && a in inventory && b in inventory :: (a, b)
  }

  ghost predicate Derived(edges: Edges, inventory: set<nat>, roots: set<nat>, x: nat) {
    x in roots || exists r :: r in roots && Reaches(Inner(edges, inventory), r, x)
  }

  ghost function ClosureOf(edges: Edges, inventory: set<nat>, roots: set<nat>): set<nat> {
    set x | x in inventory && Derived(edges, inventory, roots, x)
  }

  /** A required dependency of the closure is missing from the inventory. */
  ghost predicate Dangling(edges: Edges, inventory: set<nat>, roots: set<nat>) {
    exists a, b :: (a, b) in edges && a in ClosureOf(edges, inventory, roots) && b !in inventory
  }

  lemma DerivedStep(edges: Edges, inventory: set<nat>, roots: set<nat>, x: nat, y: nat)
    requires x in ClosureOf(edges, inventory, roots) && (x, y) in edges && y in inventory
    ensures y in ClosureOf(edges, inventory, roots)
  {
    var inner := Inner(edges, inventory);
    StepReaches(inner, x, y);
    if x !in roots {
      var r :| r in roots && Reaches(inner, r, x);
      ReachesTransitive(inner, r, x, y);
    }
  }

  /** The closure contains the roots, is closed, and lies inside every closed
      set around the roots. */
  lemma ClosureIsLeast(edges: Edges, inventory: set<nat>, roots: set<nat>)
    requires roots <= inventory
    ensures roots <= ClosureOf(edges, inventory, roots)
    ensures Closed(Inner(edges, inventory), ClosureOf(edges, inventory, roots))
    ensures forall s :: roots <= s && Closed(Inner(edges, inventory), s) ==> ClosureOf(edges, inventory, roots) <= s
  {
    var inner := Inner(edges, inventory);
    forall x, y | (x, y) in inner && x in ClosureOf(edges, inventory, roots)
      ensures y in ClosureOf(edges, inventory, roots)
    {
      DerivedStep(edges, inventory, roots, x, y);
    }
    forall s, x | roots <= s && Closed(inner, s) && x in ClosureOf(edges, inventory, roots)
      ensures x in s
    {
      if x !in roots {
        var r :| r in roots && Reaches(inner, r, x);
        ClosedHoldsReachable(inner, s, r, x);
      }
    }
  }

  lemma ClosureIsMonotone(edges: Edges, inventory: set<nat>, roots: set<nat>, edges': Edges, inventory': set<nat>, roots': set<nat>)
    requires edges <= edges' && inventory <= inventory' && roots <= roots' && roots <= inventory && roots' <= inventory'
    ensures ClosureOf(edges, inventory, roots) <= ClosureOf(edges', inventory', roots')
  {
    var s := ClosureOf(edges', inventory', roots');
    ClosureIsLeast(edges, inventory, roots);
    ClosureIsLeast(edges', inventory', roots');
    assert Closed(Inner(edges, inventory), s);
  }

  lemma ClosureIsIdempotent(edges: Edges, inventory: set<nat>, roots: set<nat>)
    requires roots <= inventory
    ensures ClosureOf(edges, inventory, ClosureOf(edges, inventory, roots)) == ClosureOf(edges, inventory, roots)
  {
    var s := ClosureOf(edges, inventory, roots);
    ClosureIsLeast(edges, inventory, roots);
    ClosureIsLeast(edges, inventory, s);
  }

  /** Closing a union of root sets is closing each and uniting. */
  lemma ClosureOfUnion(edges: Edges, inventory: set<nat>, first: set<nat>, second: set<nat>)
    requires first <= inventory && second <= inventory
    ensures ClosureOf(edges, inventory, first + second) == ClosureOf(edges, inventory, first) + ClosureOf(edges, inventory, second)
  {
    var s, t := ClosureOf(edges, inventory, first), ClosureOf(edges, inventory, second);
    ClosureIsLeast(edges, inventory, first);
    ClosureIsLeast(edges, inventory, second);
    ClosureIsLeast(edges, inventory, first + second);
    assert Closed(Inner(edges, inventory), s + t);
    ClosureIsMonotone(edges, inventory, first, edges, inventory, first + second);
    ClosureIsMonotone(edges, inventory, second, edges, inventory, first + second);
  }

  /** Keeping the closure and any part of the edges that includes all of those
      inside it, the roots close to the same set. */
  lemma RestrictionKeepsClosure(edges: Edges, inventory: set<nat>, roots: set<nat>, kept: Edges)
    requires roots <= inventory
    requires var s := ClosureOf(edges, inventory, roots); Inner(edges, s) <= kept <= edges
    ensures var s := ClosureOf(edges, inventory, roots);
      ClosureOf(kept, s, roots) == s && (!Dangling(edges, inventory, roots) ==> !Dangling(Inner(kept, s), s, roots))
  {
    var s := ClosureOf(edges, inventory, roots);
    ClosureIsLeast(edges, inventory, roots);
    ClosureIsLeast(kept, s, roots);
    var t := ClosureOf(kept, s, roots);
    forall a, b | (a, b) in Inner(edges, inventory) && a in t ensures b in t {
      assert a in s && b in s;
      assert (a, b) in Inner(edges, s) && (a, b) in Inner(kept, s);
    }
  }

  lemma {:induction false} SubsetCardinality<T>(small: set<T>, large: set<T>)
    requires small <= large
    ensures |small| <= |large|
    decreases small
  {
    if small != {} {
      var x :| x in small;
      SubsetCardinality(small - {x}, large - {x});
    }
  }
}
