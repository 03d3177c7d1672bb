/** The simple form of identity grouping: every element carries the smallest
    index of its class, and a union relabels one class. The union-find of
    `UnionFind` refines it, and the grouping promises are proved here. */
module Partition {
  import opened IdentityKeys

  type Labels = seq<nat>

  predicate Canonical(labels: Labels) {
    forall j :: 0 <= j < |labels| ==> labels[j] <= j && labels[labels[j]] == labels[j]
  }

  function Singletons(n: nat): Labels {
    seq(n, i => i)
  }

  function Min(a: nat, b: nat): nat {
    if a < b then a else b
  }

  function Join(labels: Labels, left: nat, right: nat): Labels
    requires left < |labels| && right < |labels|
  {
    var a, b := labels[left], labels[right];
    seq(|labels|, j requires 0 <= j < |labels| =>
      if labels[j] == a || labels[j] == b then Min(a, b) else labels[j])
  }

  /** All identity keys carried by the members of one class. */
  ghost function ClassKeys(own: seq<set<IdentityKey>>, labels: Labels, c: nat): set<IdentityKey>
    requires |own| == |labels|
  {
    set j, k | 0 <= j < |own| && labels[j] == c && k in own[j] :: k
  }

  ghost function Members(labels: Labels, c: nat): set<nat> {
    set j | 0 <= j < |labels| && labels[j] == c
  }

  /** Two elements are merged unless their classes conflict. */
  ghost function TryUnion(own: seq<set<IdentityKey>>, labels: Labels, left: nat, right: nat): Labels
    requires |own| == |labels| && left < |labels| && right < |labels|
  {
    if labels[left] != labels[right]
       && PriorityConflict(ClassKeys(own, labels, labels[left]), ClassKeys(own, labels, labels[right]))
    then labels
    else Join(labels, left, right)
  }

  type Attempt = (nat, nat)

  predicate InRange(attempts: seq<Attempt>, n: nat) {
    forall a :: a in attempts ==> a.0 < n && a.1 < n
  }

  /** A whole run of union attempts, first to last. */
  ghost function Run(own: seq<set<IdentityKey>>, labels: Labels, attempts: seq<Attempt>): (r: Labels)
    requires |own| == |labels| && InRange(attempts, |labels|)
    ensures |r| == |labels|
    decreases |attempts|
  {
    if attempts == [] then labels
    else
      var last := |attempts| - 1;
      var before := Run(own, labels, attempts[..last]);
      TryUnion(own, before, attempts[last].0, attempts[last].1)
  }

  lemma JoinKeepsCanonical(labels: Labels, left: nat, right: nat)
    requires left < |labels| && right < |labels| && Canonical(labels)
    ensures Canonical(Join(labels, left, right))
  {
  }

  lemma JoinClassKeys(own: seq<set<IdentityKey>>, labels: Labels, left: nat, right: nat, c: nat)
    requires |own| == |labels| && left < |labels| && right < |labels| && Canonical(labels)
    ensures var a, b := labels[left], labels[right];
      ClassKeys(own, Join(labels, left, right), c)
      == if c == Min(a, b) then ClassKeys(own, labels, a) + ClassKeys(own, labels, b)
         else if c == a || c == b then {} else ClassKeys(own, labels, c)
  {
  }

  // ---------------------------------------------------------------- runs

  /** The classes of `after` are unions of classes of `before`. */
  ghost predicate Coarser(before: Labels, after: Labels) {
    |before| == |after|
    && forall i, j :: 0 <= i < |before| && 0 <= j < |before| && before[i] == before[j] ==> after[i] == after[j]
  }

  lemma TryUnionCoarsens(own: seq<set<IdentityKey>>, labels: Labels, left: nat, right: nat)
    requires |own| == |labels| && left < |labels| && right < |labels|
    ensures Coarser(labels, TryUnion(own, labels, left, right))
  {
  }

  lemma {:induction false} RunSplits(own: seq<set<IdentityKey>>, labels: Labels, first: seq<Attempt>, second: seq<Attempt>)
    requires |own| == |labels| && InRange(first, |labels|) && InRange(second, |labels|)
    ensures InRange(first + second, |labels|)
    ensures Run(own, labels, first + second) == Run(own, Run(own, labels, first), second)
    decreases |second|
  {
    hide TryUnion;
    if second == [] {
      assert first + second == first;
    } else {
      var last := |second| - 1;
      var whole := first + second;
      assert whole[..|whole| - 1] == first + second[..last];
      assert whole[|whole| - 1] == second[last];
      RunSplits(own, labels, first, second[..last]);
    }
  }

  lemma {:induction false} RunCoarsens(own: seq<set<IdentityKey>>, labels: Labels, attempts: seq<Attempt>)
    requires |own| == |labels| && InRange(attempts, |labels|)
    ensures Coarser(labels, Run(own, labels, attempts))
    decreases |attempts|
  {
    if attempts != [] {
      RunCoarsens(own, labels, attempts[..|attempts| - 1]);
    }
  }

  lemma {:induction false} RunKeepsCanonical(own: seq<set<IdentityKey>>, labels: Labels, attempts: seq<Attempt>)
    requires |own| == |labels| && InRange(attempts, |labels|) && Canonical(labels)
    ensures Canonical(Run(own, labels, attempts))
    decreases |attempts|
  {
    if attempts != [] {
      RunKeepsCanonical(own, labels, attempts[..|attempts| - 1]);
    }
  }

  /** Every element starts with graded keys, one at most on a tier. */
  predicate AllGraded(own: seq<set<IdentityKey>>) {
    forall i :: 0 <= i < |own| ==>
      && (forall k :: k in own[i] ==> Tier(k) <= 4)
      && (forall k, l :: k in own[i] && l in own[i] && Tier(k) == Tier(l) ==> k == l)
  }

  ghost predicate AllSole(own: seq<set<IdentityKey>>, labels: Labels)
    requires |own| == |labels|
  {
    forall c: nat :: SoleBestKey(ClassKeys(own, labels, c))
  }

  lemma ClassKeysAreTiered(own: seq<set<IdentityKey>>, labels: Labels, c: nat)
    requires |own| == |labels| && AllGraded(own)
    ensures forall k :: k in ClassKeys(own, labels, c) ==> Tier(k) <= 4
  {
  }

  lemma NoKeysIsSole()
    ensures SoleBestKey({})
  {
  }

  lemma TryUnionKeepsSole(own: seq<set<IdentityKey>>, labels: Labels, left: nat, right: nat)
    requires |own| == |labels| && left < |labels| && right < |labels|
    requires AllGraded(own) && Canonical(labels) && AllSole(own, labels)
    ensures AllSole(own, TryUnion(own, labels, left, right))
  {
    var a, b := labels[left], labels[right];
    var mine, other := ClassKeys(own, labels, a), ClassKeys(own, labels, b);
    if a == b || !PriorityConflict(mine, other) {
      var joined := Join(labels, left, right);
      ClassKeysAreTiered(own, labels, a);
      ClassKeysAreTiered(own, labels, b);
      NoKeysIsSole();
      hide SoleBestKey, PriorityConflict, ClassKeys, AllGraded, Join, Canonical;
      assert SoleBestKey(mine) && SoleBestKey(other);
      if a == b { assert mine + other == mine; } else { CompatibleUnionKeepsSoleBestKey(mine, other); }
      forall c: nat ensures SoleBestKey(ClassKeys(own, joined, c)) {
        JoinClassKeys(own, labels, left, right, c);
      }
    }
  }

  /** Over every sequence of union attempts, each class ends with exactly one
      key on its best inhabited tier. */
  lemma {:induction false} EveryRunKeepsSoleBestKey(own: seq<set<IdentityKey>>, attempts: seq<Attempt>)
    requires AllGraded(own) && InRange(attempts, |own|)
    ensures AllSole(own, Run(own, Singletons(|own|), attempts))
    decreases |attempts|
  {
    var start := Singletons(|own|);
    if attempts == [] {
      forall c: nat ensures SoleBestKey(ClassKeys(own, start, c)) {
        if c < |own| {
          assert ClassKeys(own, start, c) == own[c];
        } else {
          assert ClassKeys(own, start, c) == {};
        }
      }
    } else {
      var last := |attempts| - 1;
      EveryRunKeepsSoleBestKey(own, attempts[..last]);
      RunKeepsCanonical(own, start, attempts[..last]);
      TryUnionKeepsSole(own, Run(own, start, attempts[..last]), attempts[last].0, attempts[last].1);
    }
  }

  /** Provider facts are hard boundaries: after any run, members of one class
      that carry provider facts carry the same one. */
  lemma ProvidersNeverBridged(own: seq<set<IdentityKey>>, attempts: seq<Attempt>, i: nat, j: nat, p: ProviderKey, q: ProviderKey)
    requires AllGraded(own) && InRange(attempts, |own|) && i < |own| && j < |own|
    requires Provider(p) in own[i] && Provider(q) in own[j]
    requires var labels := Run(own, Singletons(|own|), attempts); labels[i] == labels[j]
    ensures p == q
  {
    var labels := Run(own, Singletons(|own|), attempts);
    EveryRunKeepsSoleBestKey(own, attempts);
    var keys := ClassKeys(own, labels, labels[i]);
    assert Provider(p) in keys && Provider(q) in keys && SoleBestKey(keys);
    assert Tier(Provider(p)) == Tier(Provider(q)) == 0;
  }

  /** An attempt between two carriers of one provider fact always merges. */
  lemma SharedProviderMerges(own: seq<set<IdentityKey>>, labels: Labels, left: nat, right: nat, p: ProviderKey)
    requires |own| == |labels| && left < |labels| && right < |labels|
    requires Provider(p) in own[left] && Provider(p) in own[right]
    ensures var after := TryUnion(own, labels, left, right); after[left] == after[right]
  {
    SharedProviderNeverConflicts(ClassKeys(own, labels, labels[left]), ClassKeys(own, labels, labels[right]), p);
  }
}
