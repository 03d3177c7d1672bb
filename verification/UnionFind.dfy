/** The forest behind identity grouping: union by rank with path compression,
    each root carrying the identity keys of its class. */
module UnionFindForest {
  import opened IdentityKeys
  import opened Partition

  const MAX_COMPONENTS: nat := 250_000

  type Rank = r: nat | r < 256

  // ---------------------------------------------------------------- forest

  /** Ranks strictly increase along parent links. */
  predicate Forest(parent: seq<nat>, rank: seq<Rank>) {
    && |parent| == |rank|
    && (forall i :: 0 <= i < |parent| ==> parent[i] < |parent|)
    && (forall i :: 0 <= i < |parent| && parent[i] != i ==> rank[i] < rank[parent[i]])
  }

  /** The root above an element. */
  ghost function Top(parent: seq<nat>, rank: seq<Rank>, i: nat): (r: nat)
    requires Forest(parent, rank) && i < |parent|
    ensures r < |parent| && parent[r] == r
    ensures r == i || rank[i] < rank[r]
    decreases 255 - rank[i]
  {
    if parent[i] == i then i else Top(parent, rank, parent[i])
  }

  /** Pointing one element straight at its root changes no root. */
  lemma {:induction false} CompressionKeepsTops(parent: seq<nat>, rank: seq<Rank>, i: nat, j: nat)
    requires Forest(parent, rank) && i < |parent| && j < |parent|
    ensures var shorter := parent[i := Top(parent, rank, i)];
      Forest(shorter, rank) && Top(shorter, rank, j) == Top(parent, rank, j)
    decreases 255 - rank[j]
  {
    if j != i && parent[j] != j {
      CompressionKeepsTops(parent, rank, i, parent[j]);
    }
  }

  ghost predicate SameTops(before: seq<nat>, after: seq<nat>, rank: seq<Rank>) {
    && Forest(before, rank) && Forest(after, rank)
    && forall j :: 0 <= j < |before| ==> Top(after, rank, j) == Top(before, rank, j)
  }

  lemma CompressionKeepsAllTops(parent: seq<nat>, rank: seq<Rank>, i: nat)
    requires Forest(parent, rank) && i < |parent|
    ensures SameTops(parent, parent[i := Top(parent, rank, i)], rank)
  {
    forall j | 0 <= j < |parent|
      ensures Forest(parent[i := Top(parent, rank, i)], rank)
      ensures Top(parent[i := Top(parent, rank, i)], rank, j) == Top(parent, rank, j)
    {
      CompressionKeepsTops(parent, rank, i, j);
    }
    if |parent| > 0 { CompressionKeepsTops(parent, rank, i, i); }
  }

  /** Hanging root `b` under root `a` moves exactly the elements below `b`. */
  lemma {:induction false} LinkMovesOneClass(parent: seq<nat>, rank: seq<Rank>, parent': seq<nat>, rank': seq<Rank>, a: nat, b: nat, j: nat)
    requires Forest(parent, rank) && a < |parent| && b < |parent| && a != b && j < |parent|
    requires parent[a] == a && parent[b] == b && rank[b] <= rank[a]
    requires parent' == parent[b := a] && |rank'| == |rank| && rank[b] < rank'[a] && rank[a] <= rank'[a]
    requires forall k :: 0 <= k < |rank| && k != a ==> rank'[k] == rank[k]
    ensures Forest(parent', rank')
    ensures Top(parent', rank', j) == if Top(parent, rank, j) == b then a else Top(parent, rank, j)
    decreases 255 - rank[j]
  {
    if parent[j] != j {
      LinkMovesOneClass(parent, rank, parent', rank', a, b, parent[j]);
    }
  }

  // ---------------------------------------------------------------- sizes

  function Pow2(n: nat): nat {
    if n == 0 then 1 else 2 * Pow2(n - 1)
  }

  lemma {:induction false} Pow2Grows(m: nat, n: nat)
    requires m <= n
    ensures Pow2(m) <= Pow2(n)
    decreases n
  {
    if m < n { Pow2Grows(m, n - 1); }
  }

  lemma {:induction false} SubrangeCardinality(s: set<nat>, n: nat)
    requires forall x :: x in s ==> x < n
    ensures |s| <= n
    decreases n
  {
    if n == 0 {
      assert s == {};
    } else {
      SubrangeCardinality(s - {n - 1}, n - 1);
    }
  }

  /** A class of 2^rank members out of at most 250,000 has rank below 18, so
      the saturating increment of a rank never saturates. */
  lemma RankStaysSmall(rank: nat, members: nat)
    requires Pow2(rank) <= members <= MAX_COMPONENTS
    ensures rank < 18
  {
    assert Pow2(9) == 512 && Pow2(18) == 262_144;
    if rank >= 18 {
      Pow2Grows(18, rank);
    }
  }

  // ---------------------------------------------------------------- invariant

  /** Roots and classes of the partition correspond one to one. */
  ghost predicate RootPerClass(parent: seq<nat>, rank: seq<Rank>, labels: Labels) {
    && Forest(parent, rank) && |parent| == |labels| && Canonical(labels)
    && (forall i :: 0 <= i < |parent| ==> labels[Top(parent, rank, i)] == labels[i])
    && (forall a, b :: 0 <= a < |parent| && 0 <= b < |parent| && parent[a] == a && parent[b] == b && a != b
          ==> labels[a] != labels[b])
  }

  /** Each root holds all the keys of its class. */
  ghost predicate RootsHoldKeys(parent: seq<nat>, identityKeys: seq<set<IdentityKey>>, own: seq<set<IdentityKey>>, labels: Labels) {
    && |parent| == |own| == |identityKeys| == |labels|
    && forall a :: 0 <= a < |parent| && parent[a] == a ==> identityKeys[a] == ClassKeys(own, labels, labels[a])
  }

  /** The size of a class pays for the rank of its root. */
  ghost predicate RanksPaid(parent: seq<nat>, rank: seq<Rank>, labels: Labels) {
    && |parent| == |rank| == |labels|
    && forall a :: 0 <= a < |parent| && parent[a] == a ==> Pow2(rank[a]) <= |Members(labels, labels[a])|
  }

  /** The forest stands for the partition `labels`. */
  ghost predicate Represents(parent: seq<nat>, rank: seq<Rank>, identityKeys: seq<set<IdentityKey>>,
                             own: seq<set<IdentityKey>>, labels: Labels) {
    && |labels| <= MAX_COMPONENTS
    && RootPerClass(parent, rank, labels)
    && RootsHoldKeys(parent, identityKeys, own, labels)
    && RanksPaid(parent, rank, labels)
  }

  lemma SingletonsRepresented(parent: seq<nat>, rank: seq<Rank>, own: seq<set<IdentityKey>>)
    requires |own| <= MAX_COMPONENTS && parent == Singletons(|own|) && |rank| == |own|
    requires forall i :: 0 <= i < |rank| ==> rank[i] == 0
    ensures Represents(parent, rank, own, own, parent)
  {
    forall a | 0 <= a < |own|
      ensures ClassKeys(own, parent, parent[a]) == own[a] && |Members(parent, parent[a])| == 1
    {
      assert Members(parent, parent[a]) == {a};
    }
  }

  lemma CompressionRepresents(parent: seq<nat>, parent': seq<nat>, rank: seq<Rank>, identityKeys: seq<set<IdentityKey>>,
                              own: seq<set<IdentityKey>>, labels: Labels)
    requires Represents(parent, rank, identityKeys, own, labels) && SameTops(parent, parent', rank)
    ensures Represents(parent', rank, identityKeys, own, labels)
  {
    forall a | 0 <= a < |parent| && parent'[a] == a
      ensures parent[a] == a
    {
      assert Top(parent', rank, a) == a;
    }
  }

  lemma LinkedSizes(rank: seq<Rank>, labels: Labels, after: Labels, left: nat, right: nat, high: nat, low: nat)
    requires |rank| == |labels| <= MAX_COMPONENTS && left < |labels| && right < |labels| && high < |labels| && low < |labels|
    requires Canonical(labels) && after == Join(labels, left, right) && labels[high] != labels[low]
    requires (labels[high] == labels[left] && labels[low] == labels[right]) || (labels[high] == labels[right] && labels[low] == labels[left])
    requires Pow2(rank[high]) <= |Members(labels, labels[high])| && Pow2(rank[low]) <= |Members(labels, labels[low])|
    ensures rank[high] < 18
    ensures Pow2(rank[high]) + Pow2(rank[low]) <= |Members(after, after[high])|
  {
    var a, b := Members(labels, labels[high]), Members(labels, labels[low]);
    assert Members(after, after[high]) == a + b;
    assert a !! b;
    assert |a + b| == |a| + |b|;
    SubrangeCardinality(a, |labels|);
    RankStaysSmall(rank[high], |a|);
  }

  function SaturatingIncrement(r: Rank): Rank {
    if r == 255 then 255 else r + 1
  }

  function RaisedRank(rank: seq<Rank>, high: nat, low: nat): seq<Rank>
    requires high < |rank| && low < |rank|
  {
    if rank[high] == rank[low] then rank[high := SaturatingIncrement(rank[high])] else rank
  }

  lemma RaisedRankPaid(rank: seq<Rank>, high: nat, low: nat)
    requires high < |rank| && low < |rank| && rank[high] < 255
    ensures Pow2(RaisedRank(rank, high, low)[high]) <= Pow2(rank[high]) + Pow2(rank[low])
  {
    assert Pow2(rank[high] + 1) == 2 * Pow2(rank[high]);
  }

  /** `high` and `low` are the roots of the classes of `left` and `right`. */
  ghost predicate RootsOf(parent: seq<nat>, labels: Labels, left: nat, right: nat, high: nat, low: nat) {
    && |parent| == |labels|
    && left < |parent| && right < |parent| && high < |parent| && low < |parent|
    && parent[high] == high && parent[low] == low && high != low
    && ((labels[high] == labels[left] && labels[low] == labels[right])
        || (labels[high] == labels[right] && labels[low] == labels[left]))
  }

  /** What relabelling does to the classes, seen from the old roots. */
  lemma JoinedMembers(parent: seq<nat>, rank: seq<Rank>, labels: Labels, left: nat, right: nat, high: nat, low: nat, a: nat)
    requires RootPerClass(parent, rank, labels) && RootsOf(parent, labels, left, right, high, low)
    requires a < |parent| && parent[a] == a && a != high && a != low
    ensures var after := Join(labels, left, right);
      && after[high] == after[low] && after[a] == labels[a] && after[a] != after[high]
      && Members(after, after[a]) == Members(labels, labels[a])
  {
    assert labels[a] != labels[high] && labels[a] != labels[low];
  }

  lemma JoinedKeys(parent: seq<nat>, rank: seq<Rank>, own: seq<set<IdentityKey>>, labels: Labels,
                   left: nat, right: nat, high: nat, low: nat)
    requires RootPerClass(parent, rank, labels) && |own| == |labels| && RootsOf(parent, labels, left, right, high, low)
    ensures var after := Join(labels, left, right);
      && ClassKeys(own, after, after[high]) == ClassKeys(own, labels, labels[high]) + ClassKeys(own, labels, labels[low])
      && (forall a :: 0 <= a < |parent| && parent[a] == a && a != high && a != low ==>
            ClassKeys(own, after, after[a]) == ClassKeys(own, labels, labels[a]))
  {
    var after := Join(labels, left, right);
    JoinClassKeys(own, labels, left, right, after[high]);
    forall a | 0 <= a < |parent| && parent[a] == a && a != high && a != low
      ensures ClassKeys(own, after, after[a]) == ClassKeys(own, labels, labels[a])
    {
      JoinedMembers(parent, rank, labels, left, right, high, low, a);
      JoinClassKeys(own, labels, left, right, labels[a]);
    }
  }

  lemma LinkKeepsRootPerClass(parent: seq<nat>, rank: seq<Rank>, labels: Labels,
                              left: nat, right: nat, high: nat, low: nat)
    requires RootPerClass(parent, rank, labels) && RootsOf(parent, labels, left, right, high, low)
    requires rank[low] <= rank[high] < 255
    ensures RootPerClass(parent[low := high], RaisedRank(rank, high, low), Join(labels, left, right))
  {
    var parent', rank', after := parent[low := high], RaisedRank(rank, high, low), Join(labels, left, right);
    LinkMovesOneClass(parent, rank, parent', rank', high, low, low);
    JoinKeepsCanonical(labels, left, right);
    forall j | 0 <= j < |parent|
      ensures after[Top(parent', rank', j)] == after[j]
    {
      LinkMovesOneClass(parent, rank, parent', rank', high, low, j);
      assert labels[Top(parent, rank, j)] == labels[j];
    }
    forall a, b | 0 <= a < |parent| && 0 <= b < |parent| && parent'[a] == a && parent'[b] == b && a != b
      ensures after[a] != after[b]
    {
      if a != high { JoinedMembers(parent, rank, labels, left, right, high, low, a); }
      if b != high { JoinedMembers(parent, rank, labels, left, right, high, low, b); }
    }
  }

  lemma LinkKeepsKeys(parent: seq<nat>, rank: seq<Rank>, identityKeys: seq<set<IdentityKey>>,
                      own: seq<set<IdentityKey>>, labels: Labels, left: nat, right: nat, high: nat, low: nat)
    requires RootPerClass(parent, rank, labels) && RootsHoldKeys(parent, identityKeys, own, labels)
    requires RootsOf(parent, labels, left, right, high, low)
    ensures RootsHoldKeys(parent[low := high], identityKeys[high := identityKeys[high] + identityKeys[low]],
                          own, Join(labels, left, right))
  {
    JoinedKeys(parent, rank, own, labels, left, right, high, low);
  }

  lemma LinkKeepsRanksPaid(parent: seq<nat>, rank: seq<Rank>, labels: Labels, left: nat, right: nat, high: nat, low: nat)
    requires |labels| <= MAX_COMPONENTS && RootPerClass(parent, rank, labels) && RanksPaid(parent, rank, labels)
    requires RootsOf(parent, labels, left, right, high, low) && rank[low] <= rank[high]
    ensures rank[high] < 18
    ensures RanksPaid(parent[low := high], RaisedRank(rank, high, low), Join(labels, left, right))
  {
    var parent', rank', after := parent[low := high], RaisedRank(rank, high, low), Join(labels, left, right);
    LinkedSizes(rank, labels, after, left, right, high, low);
    RaisedRankPaid(rank, high, low);
    forall a | 0 <= a < |parent| && parent'[a] == a
      ensures Pow2(rank'[a]) <= |Members(after, after[a])|
    {
      if a != high {
        JoinedMembers(parent, rank, labels, left, right, high, low, a);
        assert rank'[a] == rank[a];
        assert Pow2(rank[a]) <= |Members(labels, labels[a])|;
      }
    }
  }

  /** Linking two roots represents the joined partition. */
  lemma LinkRepresents(parent: seq<nat>, rank: seq<Rank>, identityKeys: seq<set<IdentityKey>>,
                       own: seq<set<IdentityKey>>, labels: Labels, left: nat, right: nat, high: nat, low: nat)
    requires Represents(parent, rank, identityKeys, own, labels)
    requires RootsOf(parent, labels, left, right, high, low) && rank[low] <= rank[high]
    ensures Represents(parent[low := high], RaisedRank(rank, high, low),
                       identityKeys[high := identityKeys[high] + identityKeys[low]], own, Join(labels, left, right))
  {
    LinkKeepsRanksPaid(parent, rank, labels, left, right, high, low);
    LinkKeepsRootPerClass(parent, rank, labels, left, right, high, low);
    LinkKeepsKeys(parent, rank, identityKeys, own, labels, left, right, high, low);
  }

  class UnionFind {
    var parent: seq<nat>
    var rank: seq<Rank>
    var identityKeys: seq<set<IdentityKey>>
    ghost const own: seq<set<IdentityKey>>
    ghost var labels: Labels
    ghost var attempts: seq<Attempt>  // every union asked for, first to last

    /** The forest stands for what the simple form makes of the same attempts. */
    ghost predicate Valid()
      reads this
    {
      && Represents(parent, rank, identityKeys, own, labels)
      && InRange(attempts, |own|)
      && labels == Run(own, Singletons(|own|), attempts)
    }

    constructor (keys: seq<set<IdentityKey>>)
      requires |keys| <= MAX_COMPONENTS
      ensures Valid() && own == keys && attempts == []
    {
      parent := seq(|keys|, i => i);
      rank := seq(|keys|, i => 0);
      identityKeys := keys;
      own := keys;
      labels := Singletons(|keys|);
      attempts := [];
      new;
      assert parent == labels;
      SingletonsRepresented(parent, rank, own);
    }

    method Root(index: nat) returns (root: nat)
      requires Forest(parent, rank) && index < |parent|
      modifies `parent
      ensures SameTops(old(parent), parent, rank)
      ensures root == Top(old(parent), rank, index)
      decreases 255 - rank[index]
    {
      if parent[index] != index {
        var above := Root(parent[index]);
        CompressionKeepsAllTops(parent, rank, index);
        parent := parent[index := above];
      }
      root := parent[index];
    }

    /** Root lookup that keeps the represented partition. */
    method Find(index: nat) returns (root: nat)
      requires Represents(parent, rank, identityKeys, own, labels) && index < |parent|
      modifies `parent
      ensures Represents(parent, rank, identityKeys, own, labels)
      ensures root < |parent| && parent[root] == root && labels[root] == labels[index]
      ensures forall a :: 0 <= a < |parent| && old(parent)[a] == a ==> parent[a] == a
    {
      ghost var before := parent;
      root := Root(index);
      CompressionRepresents(before, parent, rank, identityKeys, own, labels);
      forall a | 0 <= a < |parent| && before[a] == a
        ensures parent[a] == a
      {
        assert Top(before, rank, a) == a == Top(parent, rank, a);
      }
      assert Top(before, rank, index) == Top(parent, rank, index);
    }

    /** Merge two classes unless a better-ranked fact separates them. */
    method UnionIfCompatible(left: nat, right: nat)
      requires Valid() && left < |own| && right < |own|
      modifies `parent, `rank, `identityKeys, `labels, `attempts
      ensures Valid()
      ensures attempts == old(attempts) + [(left, right)]
    {
      UnionClasses(left, right);
      Record(left, right);
    }

    method UnionClasses(left: nat, right: nat)
      requires Represents(parent, rank, identityKeys, own, labels) && left < |own| && right < |own|
      modifies `parent, `rank, `identityKeys, `labels
      ensures Represents(parent, rank, identityKeys, own, labels)
      ensures labels == TryUnion(own, old(labels), left, right)
    {
      var leftRoot := Find(left);
      var rightRoot := Find(right);
      if leftRoot == rightRoot {
        assert Join(labels, left, right) == labels;
        return;
      }
      assert labels[left] != labels[right];
      var conflicts := IdentityPriorityConflicts(identityKeys[leftRoot], identityKeys[rightRoot]);
      if conflicts {
        return;
      }
      var merged := identityKeys[leftRoot] + identityKeys[rightRoot];
      if rank[leftRoot] < rank[rightRoot] {
        leftRoot, rightRoot := rightRoot, leftRoot;
      }
      assert merged == identityKeys[leftRoot] + identityKeys[rightRoot];
      Link(leftRoot, rightRoot, merged, left, right);
    }

    /** Hang root `low` under root `high`, which takes over all keys. */
    method Link(high: nat, low: nat, merged: set<IdentityKey>, ghost left: nat, ghost right: nat)
      requires Represents(parent, rank, identityKeys, own, labels)
      requires RootsOf(parent, labels, left, right, high, low) && rank[low] <= rank[high]
      requires merged == identityKeys[high] + identityKeys[low]
      modifies `parent, `rank, `identityKeys, `labels
      ensures Represents(parent, rank, identityKeys, own, labels)
      ensures labels == Join(old(labels), left, right)
    {
      LinkRepresents(parent, rank, identityKeys, own, labels, left, right, high, low);
      parent := parent[low := high];
      identityKeys := identityKeys[high := merged];
      if rank[high] == rank[low] {
        rank := rank[high := SaturatingIncrement(rank[high])];
      }
      labels := Join(labels, left, right);
    }

    ghost method Record(left: nat, right: nat)
      requires Represents(parent, rank, identityKeys, own, labels)
      requires InRange(attempts, |own|) && left < |own| && right < |own|
      requires labels == TryUnion(own, Run(own, Singletons(|own|), attempts), left, right)
      modifies `attempts
      ensures Valid()
      ensures attempts == old(attempts) + [(left, right)]
    {
      assert (attempts + [(left, right)])[..|attempts|] == attempts;
      attempts := attempts + [(left, right)];
    }
  }
}
