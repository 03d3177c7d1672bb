/** Stable sorting by a given order, as a specification. */
module Sorting {
  /** Put `x` behind everything that may stand before it. */
  function InsertBy<T>(x: T, sorted: seq<T>, before: (T, T) -> bool): seq<T> {
    if sorted == [] || !before(sorted[0], x) then [x] + sorted
    else [sorted[0]] + InsertBy(x, sorted[1..], before)
  }

  function SortBy<T>(xs: seq<T>, before: (T, T) -> bool): seq<T> {
    if xs == [] then [] else InsertBy(xs[|xs| - 1], SortBy(xs[..|xs| - 1], before), before)
  }

  ghost predicate SortedBy<T(!new)>(xs: seq<T>, before: (T, T) -> bool) {
    forall i, j :: 0 <= i < j < |xs| ==> before(xs[i], xs[j])
  }

  ghost predicate TotalOrder<T(!new)>(before: (T, T) -> bool) {
    && (forall x, y :: before(x, y) || before(y, x))
    && (forall x, y, z :: before(x, y) && before(y, z) ==> before(x, z))
  }

  lemma {:induction false} InsertKeepsContents<T>(x: T, sorted: seq<T>, before: (T, T) -> bool)
    ensures multiset(InsertBy(x, sorted, before)) == multiset(sorted) + multiset{x}
  {
    if sorted != [] && before(sorted[0], x) {
      InsertKeepsContents(x, sorted[1..], before);
      assert sorted == [sorted[0]] + sorted[1..];
    }
  }

  lemma {:induction false} SortKeepsContents<T>(xs: seq<T>, before: (T, T) -> bool)
    ensures multiset(SortBy(xs, before)) == multiset(xs)
  {
    if xs != [] {
      var last := |xs| - 1;
      SortKeepsContents(xs[..last], before);
      InsertKeepsContents(xs[last], SortBy(xs[..last], before), before);
      assert xs == xs[..last] + [xs[last]];
    }
  }

  lemma {:induction false} InsertKeepsOrder<T(!new)>(x: T, sorted: seq<T>, before: (T, T) -> bool)
    requires TotalOrder(before) && SortedBy(sorted, before)
    ensures SortedBy(InsertBy(x, sorted, before), before)
  {
    if sorted != [] {
      if before(sorted[0], x) {
        InsertKeepsOrder(x, sorted[1..], before);
        InsertKeepsContents(x, sorted[1..], before);
        var rest := InsertBy(x, sorted[1..], before);
        forall j | 0 <= j < |rest| ensures before(sorted[0], rest[j]) {
          assert rest[j] in multiset(rest);
          if rest[j] != x {
            assert rest[j] in sorted[1..];
          }
        }
      } else {
        forall j | 0 <= j < |sorted| ensures before(x, sorted[j]) {
          assert j > 0 ==> before(sorted[0], sorted[j]);
        }
      }
    }
  }

  lemma {:induction false} SortOrders<T(!new)>(xs: seq<T>, before: (T, T) -> bool)
    requires TotalOrder(before)
    ensures SortedBy(SortBy(xs, before), before)
  {
    if xs != [] {
      SortOrders(xs[..|xs| - 1], before);
      InsertKeepsOrder(xs[|xs| - 1], SortBy(xs[..|xs| - 1], before), before);
    }
  }

  /** No two of these elements tie. */
  ghost predicate NoTies<T(!new)>(xs: seq<T>, before: (T, T) -> bool) {
    forall x, y :: x in xs && y in xs && before(x, y) && before(y, x) ==> x == y
  }

  /** Without ties the sorted order of some contents is unique. */
  lemma {:induction false} SortedOrderIsUnique<T(!new)>(a: seq<T>, b: seq<T>, before: (T, T) -> bool)
    requires SortedBy(a, before) && SortedBy(b, before) && multiset(a) == multiset(b) && NoTies(a, before)
    ensures a == b
  {
    SameMembers(a, b);
    if a != [] {
      SameHeads(a, b, before);
      TailIsSorted(a, before);
      TailIsSorted(b, before);
      NoTiesInTail(a, before);
      hide SortedBy, NoTies;
      SameTails(a, b);
      SortedOrderIsUnique(a[1..], b[1..], before);
      Rejoin(a, b);
    }
  }

  lemma SameTails<T>(a: seq<T>, b: seq<T>)
    requires a != [] && b != [] && a[0] == b[0] && multiset(a) == multiset(b)
    ensures multiset(a[1..]) == multiset(b[1..])
  {
    TailContents(a);
    TailContents(b);
  }

  lemma Rejoin<T>(a: seq<T>, b: seq<T>)
    requires a != [] && b != [] && a[0] == b[0] && a[1..] == b[1..]
    ensures a == b
  {
    assert a == [a[0]] + a[1..] && b == [b[0]] + b[1..];
  }

  lemma SameMembers<T>(a: seq<T>, b: seq<T>)
    requires multiset(a) == multiset(b)
    ensures |a| == |b| && forall x :: x in a <==> x in b
  {
    assert |multiset(a)| == |a| && |multiset(b)| == |b|;
    forall x ensures x in a <==> x in b {
      assert x in multiset(a) <==> x in multiset(b);
    }
  }

  lemma SameHeads<T(!new)>(a: seq<T>, b: seq<T>, before: (T, T) -> bool)
    requires SortedBy(a, before) && SortedBy(b, before) && NoTies(a, before)
    requires a != [] && b != [] && forall x :: x in a <==> x in b
    ensures a[0] == b[0]
  {
    assert a[0] in b && b[0] in a;
    var j :| 0 <= j < |b| && b[j] == a[0];
    var i :| 0 <= i < |a| && a[i] == b[0];
    assert i > 0 ==> before(a[0], a[i]);
    assert j > 0 ==> before(b[0], b[j]);
  }

  lemma TailIsSorted<T(!new)>(a: seq<T>, before: (T, T) -> bool)
    requires a != [] && SortedBy(a, before)
    ensures SortedBy(a[1..], before)
  {
  }

  lemma NoTiesInTail<T(!new)>(a: seq<T>, before: (T, T) -> bool)
    requires a != [] && NoTies(a, before)
    ensures NoTies(a[1..], before)
  {
    assert a == [a[0]] + a[1..];
  }

  lemma TailContents<T>(a: seq<T>)
    requires a != []
    ensures multiset(a[1..]) == multiset(a) - multiset{a[0]}
  {
    assert a == [a[0]] + a[1..];
  }

  /** Without ties the input order does not matter. */
  lemma SortForgetsOrder<T(!new)>(a: seq<T>, b: seq<T>, before: (T, T) -> bool)
    requires TotalOrder(before) && multiset(a) == multiset(b) && NoTies(a, before)
    ensures SortBy(a, before) == SortBy(b, before)
  {
    SortOrders(a, before);
    SortOrders(b, before);
    SortKeepsContents(a, before);
    SortKeepsContents(b, before);
    forall x | x in SortBy(a, before) ensures x in a {
      assert x in multiset(SortBy(a, before));
    }
    SortedOrderIsUnique(SortBy(a, before), SortBy(b, before), before);
  }
}
