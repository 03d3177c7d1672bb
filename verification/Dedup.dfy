/** Grouping observed components by identity
    (crates/reforge-discovery/src/dedup.rs, `build_groups`). */
module Dedup {
  import opened Wrappers
  import opened IdentityKeys
  import opened Partition
  import opened UnionFindForest

  type Owner = Option<ProviderKey>

  // ---------------------------------------------------------------- schedule

  /** Indices of the components that carry `key` under one provider, ascending. */
  function Bucket(facts: seq<Facts>, key: IdentityKey, owner: Owner): seq<nat> {
    if facts == [] then []
    else
      var last := |facts| - 1;
      Bucket(facts[..last], key, owner)
      + (if key in SearchKeys(facts[last]) && facts[last].provider == owner then [last] else [])
  }

  lemma {:induction false} BucketMembership(facts: seq<Facts>, key: IdentityKey, owner: Owner)
    ensures forall m: nat :: m in Bucket(facts, key, owner) <==>
      m < |facts| && key in SearchKeys(facts[m]) && facts[m].provider == owner
  {
    if facts != [] { BucketMembership(facts[..|facts| - 1], key, owner); }
  }

  function IdBucket(facts: seq<Facts>, id: ComponentId): seq<nat> {
    if facts == [] then []
    else
      var last := |facts| - 1;
      IdBucket(facts[..last], id) + (if facts[last].id == id then [last] else [])
  }

  lemma {:induction false} IdBucketMembership(facts: seq<Facts>, id: ComponentId)
    ensures forall m: nat :: m in IdBucket(facts, id) <==> m < |facts| && facts[m].id == id
  {
    if facts != [] { IdBucketMembership(facts[..|facts| - 1], id); }
  }

  /** The first member is paired with every other one. */
  function MemberPairs(members: seq<nat>): (pairs: seq<Attempt>)
    ensures forall a :: a in pairs ==> a.0 in members && a.1 in members
  {
    if |members| == 0 then [] else RowPairs(members[0], members[1..])
  }

  function RowPairs(left: nat, right: seq<nat>): (pairs: seq<Attempt>)
    ensures forall a :: a in pairs ==> a.0 == left && a.1 in right
    ensures |pairs| == |right| && forall i :: 0 <= i < |right| ==> pairs[i] == (left, right[i])
  {
    seq(|right|, i requires 0 <= i < |right| => (left, right[i]))
  }

  function CrossPairs(left: seq<nat>, right: seq<nat>): (pairs: seq<Attempt>)
    ensures forall a :: a in pairs ==> a.0 in left && a.1 in right
  {
    if left == [] then []
    else CrossPairs(left[..|left| - 1], right) + RowPairs(left[|left| - 1], right)
  }

  /** One visit to the members of a key, its providers in some order. */
  datatype KeyPass = KeyPass(key: IdentityKey, owners: seq<Owner>)

  function BucketAttempts(facts: seq<Facts>, key: IdentityKey, owners: seq<Owner>): seq<Attempt> {
    if owners == [] then []
    else BucketAttempts(facts, key, owners[..|owners| - 1])
         + MemberPairs(Bucket(facts, key, owners[|owners| - 1]))
  }

  function Providers(owners: seq<Owner>): set<Owner> {
    set o | o in owners && o.Some?
  }

  ghost function SoleProvider(owners: seq<Owner>): (owner: Owner)
    requires |Providers(owners)| == 1
    ensures owner in owners && owner.Some?
  {
    var owner :| owner in Providers(owners);
    owner
  }

  /** Unowned members join the owned ones when a single provider claims the key. */
  ghost function BridgeAttempts(facts: seq<Facts>, key: IdentityKey, owners: seq<Owner>): seq<Attempt> {
    if |Providers(owners)| == 1 && None in owners
    then CrossPairs(Bucket(facts, key, None), Bucket(facts, key, SoleProvider(owners)))
    else []
  }

  ghost function KeyAttempts(facts: seq<Facts>, pass: KeyPass): seq<Attempt> {
    BucketAttempts(facts, pass.key, pass.owners) + BridgeAttempts(facts, pass.key, pass.owners)
  }

  ghost function PassAttempts(facts: seq<Facts>, passes: seq<KeyPass>): seq<Attempt> {
    if passes == [] then []
    else PassAttempts(facts, passes[..|passes| - 1]) + KeyAttempts(facts, passes[|passes| - 1])
  }

  function IdAttempts(facts: seq<Facts>, ids: seq<ComponentId>): seq<Attempt> {
    if ids == [] then []
    else IdAttempts(facts, ids[..|ids| - 1]) + MemberPairs(IdBucket(facts, ids[|ids| - 1]))
  }

  ghost function Attempts(facts: seq<Facts>, passes: seq<KeyPass>, ids: seq<ComponentId>): seq<Attempt> {
    PassAttempts(facts, passes) + IdAttempts(facts, ids)
  }

  ghost predicate TierOrdered(passes: seq<KeyPass>) {
    forall i, j :: 0 <= i < j < |passes| ==> passes[i].key != passes[j].key && Tier(passes[i].key) <= Tier(passes[j].key)
  }

  ghost predicate PassesOwned(facts: seq<Facts>, passes: seq<KeyPass>) {
    forall t :: 0 <= t < |passes| ==> OwnersOf(facts, passes[t].key, passes[t].owners)
  }

  function VisitedKeys(passes: seq<KeyPass>): set<IdentityKey> {
    set t | 0 <= t < |passes| :: passes[t].key
  }

  /** Every key visited once, better tiers first, each under all of its owners;
      then every ID once. */
  ghost predicate Schedule(facts: seq<Facts>, passes: seq<KeyPass>, ids: seq<ComponentId>) {
    && TierOrdered(passes) && PassesOwned(facts, passes)
    && (forall f, k :: f in facts && k in SearchKeys(f) ==> k in VisitedKeys(passes))
    && Distinct(ids)
    && (forall f :: f in facts ==> f.id in ids)
  }

  predicate Distinct<T(==)>(s: seq<T>) {
    forall i, j :: 0 <= i < j < |s| ==> s[i] != s[j]
  }

  lemma DistinctAppend<T>(s: seq<T>, x: T)
    requires Distinct(s) && x !in s
    ensures Distinct(s + [x])
  {
  }

  ghost predicate OwnersOf(facts: seq<Facts>, key: IdentityKey, owners: seq<Owner>) {
    && Distinct(owners)
    && (forall o :: o in owners <==> Bucket(facts, key, o) != [])
  }

  function AllFacts(components: seq<Component>): (facts: seq<Facts>)
    ensures AllFactsGraded(facts) && |facts| == |components|
  {
    seq(|components|, i requires 0 <= i < |components| => FactsOf(components[i]))
  }

  function OwnKeys(facts: seq<Facts>): (own: seq<set<IdentityKey>>)
    ensures |own| == |facts|
  {
    seq(|facts|, i requires 0 <= i < |facts| => facts[i].own)
  }

  /** The grouping as the simple form computes it. */
  ghost function Grouping(facts: seq<Facts>, passes: seq<KeyPass>, ids: seq<ComponentId>): (labels: Labels)
    ensures |labels| == |facts|
  {
    AttemptsAgree(facts, passes, ids);
    Run(OwnKeys(facts), Singletons(|facts|), Attempts(facts, passes, ids))
  }

  // ---------------------------------------------------------------- what an attempt rests on

  /** A supported identity key, or the very same ID, is common to both. */
  predicate Agree(facts: seq<Facts>, i: nat, j: nat) {
    i < |facts| && j < |facts|
    && (facts[i].id == facts[j].id || exists k :: k in SearchKeys(facts[i]) && k in SearchKeys(facts[j]))
  }

  predicate AllAgree(facts: seq<Facts>, attempts: seq<Attempt>) {
    forall a :: a in attempts ==> Agree(facts, a.0, a.1)
  }

  lemma {:induction false} BucketsAgree(facts: seq<Facts>, key: IdentityKey, owners: seq<Owner>)
    ensures AllAgree(facts, BucketAttempts(facts, key, owners))
  {
    if owners != [] {
      BucketsAgree(facts, key, owners[..|owners| - 1]);
      var members := Bucket(facts, key, owners[|owners| - 1]);
      BucketMembership(facts, key, owners[|owners| - 1]);
      forall a | a in MemberPairs(members) ensures Agree(facts, a.0, a.1) {
        assert a.0 in members && a.1 in members;
      }
    }
  }

  lemma BridgeAgrees(facts: seq<Facts>, key: IdentityKey, owners: seq<Owner>)
    ensures AllAgree(facts, BridgeAttempts(facts, key, owners))
  {
    if |Providers(owners)| == 1 && None in owners {
      var left, right := Bucket(facts, key, None), Bucket(facts, key, SoleProvider(owners));
      BucketMembership(facts, key, None);
      BucketMembership(facts, key, SoleProvider(owners));
      forall a | a in CrossPairs(left, right) ensures Agree(facts, a.0, a.1) {
        assert a.0 in left && a.1 in right;
      }
    }
  }

  lemma {:induction false} PassesAgree(facts: seq<Facts>, passes: seq<KeyPass>)
    ensures AllAgree(facts, PassAttempts(facts, passes))
  {
    if passes != [] {
      var pass := passes[|passes| - 1];
      PassesAgree(facts, passes[..|passes| - 1]);
      BucketsAgree(facts, pass.key, pass.owners);
      BridgeAgrees(facts, pass.key, pass.owners);
    }
  }

  lemma {:induction false} IdsAgree(facts: seq<Facts>, ids: seq<ComponentId>)
    ensures AllAgree(facts, IdAttempts(facts, ids))
  {
    if ids != [] {
      IdsAgree(facts, ids[..|ids| - 1]);
      var members := IdBucket(facts, ids[|ids| - 1]);
      IdBucketMembership(facts, ids[|ids| - 1]);
      forall a | a in MemberPairs(members) ensures Agree(facts, a.0, a.1) {
        assert a.0 in members && a.1 in members;
      }
    }
  }

  lemma AttemptsAgree(facts: seq<Facts>, passes: seq<KeyPass>, ids: seq<ComponentId>)
    ensures AllAgree(facts, Attempts(facts, passes, ids))
    ensures InRange(Attempts(facts, passes, ids), |facts|)
  {
    PassesAgree(facts, passes);
    IdsAgree(facts, ids);
  }

  // ---------------------------------------------------------------- why members share a group

  /** A walk inside one group whose neighbours each agree on a key or an ID. */
  ghost predicate Walk(facts: seq<Facts>, labels: Labels, p: seq<nat>) {
    && |labels| == |facts| && |p| > 0
    && p[0] < |labels|
    && (forall i :: 0 <= i < |p| ==> p[i] < |labels| && labels[p[i]] == labels[p[0]])
    && (forall i :: 0 <= i < |p| - 1 ==> Agree(facts, p[i], p[i + 1]))
  }

  ghost predicate Linked(facts: seq<Facts>, labels: Labels, i: nat, j: nat) {
    exists p :: Walk(facts, labels, p) && p[0] == i && p[|p| - 1] == j
  }

  lemma LinkedTransitive(facts: seq<Facts>, labels: Labels, i: nat, j: nat, k: nat)
    requires Linked(facts, labels, i, j) && Linked(facts, labels, j, k)
    ensures Linked(facts, labels, i, k)
  {
    var p :| Walk(facts, labels, p) && p[0] == i && p[|p| - 1] == j;
    var q :| Walk(facts, labels, q) && q[0] == j && q[|q| - 1] == k;
    var r := p + q[1..];
    assert Walk(facts, labels, r) && r[0] == i && r[|r| - 1] == k;
  }

  lemma LinkedSymmetric(facts: seq<Facts>, labels: Labels, i: nat, j: nat)
    requires Linked(facts, labels, i, j)
    ensures Linked(facts, labels, j, i)
  {
    var p :| Walk(facts, labels, p) && p[0] == i && p[|p| - 1] == j;
    var r := seq(|p|, x requires 0 <= x < |p| => p[|p| - 1 - x]);
    forall x | 0 <= x < |r| - 1 ensures Agree(facts, r[x], r[x + 1]) {
      assert Agree(facts, p[|p| - 2 - x], p[|p| - 1 - x]);
    }
    assert Walk(facts, labels, r) && r[0] == j && r[|r| - 1] == i;
  }

  lemma CoarserKeepsLinks(facts: seq<Facts>, before: Labels, after: Labels, i: nat, j: nat)
    requires Coarser(before, after) && Linked(facts, before, i, j)
    ensures Linked(facts, after, i, j)
  {
    var p :| Walk(facts, before, p) && p[0] == i && p[|p| - 1] == j;
    assert Walk(facts, after, p);
  }

  ghost predicate LinkedToLabels(facts: seq<Facts>, labels: Labels) {
    |labels| == |facts| && forall j :: 0 <= j < |labels| ==> Linked(facts, labels, j, labels[j])
  }

  lemma JoinKeepsLinks(facts: seq<Facts>, labels: Labels, left: nat, right: nat)
    requires LinkedToLabels(facts, labels) && Canonical(labels) && Agree(facts, left, right)
    ensures LinkedToLabels(facts, Join(labels, left, right))
  {
    var after := Join(labels, left, right);
    var a, b := labels[left], labels[right];
    assert Coarser(labels, after);
    CoarserKeepsLinks(facts, labels, after, left, a);
    CoarserKeepsLinks(facts, labels, after, right, b);
    assert Walk(facts, after, [left, right]) && [left, right][0] == left && [left, right][1] == right;
    assert Linked(facts, after, left, right);
    LinkedSymmetric(facts, after, left, a);
    LinkedTransitive(facts, after, a, left, right);
    LinkedTransitive(facts, after, a, right, b);
    LinkedSymmetric(facts, after, a, b);
    forall j | 0 <= j < |labels| ensures Linked(facts, after, j, after[j]) {
      CoarserKeepsLinks(facts, labels, after, j, labels[j]);
      if labels[j] != after[j] {
        LinkedTransitive(facts, after, j, labels[j], after[j]);
      }
    }
  }

  lemma {:induction false} RunKeepsLinks(facts: seq<Facts>, own: seq<set<IdentityKey>>, attempts: seq<Attempt>)
    requires |own| == |facts| && AllAgree(facts, attempts) && InRange(attempts, |own|)
    ensures LinkedToLabels(facts, Run(own, Singletons(|own|), attempts))
    decreases |attempts|
  {
    var start := Singletons(|own|);
    if attempts == [] {
      forall j | 0 <= j < |start| ensures Linked(facts, start, j, start[j]) {
        assert Walk(facts, start, [j]) && [j][0] == j;
      }
    } else {
      var last := |attempts| - 1;
      RunKeepsLinks(facts, own, attempts[..last]);
      RunKeepsCanonical(own, start, attempts[..last]);
      JoinKeepsLinks(facts, Run(own, start, attempts[..last]), attempts[last].0, attempts[last].1);
    }
  }

  /** Components share a group only along a chain of members of that group in
      which neighbours agree on a supported key or on their ID. */
  lemma MergesRestOnAgreement(facts: seq<Facts>, passes: seq<KeyPass>, ids: seq<ComponentId>, i: nat, j: nat)
    requires i < |facts| && j < |facts|
    requires var labels := Grouping(facts, passes, ids); labels[i] == labels[j]
    ensures Linked(facts, Grouping(facts, passes, ids), i, j)
  {
    var labels := Grouping(facts, passes, ids);
    AttemptsAgree(facts, passes, ids);
    RunKeepsLinks(facts, OwnKeys(facts), Attempts(facts, passes, ids));
    LinkedSymmetric(facts, labels, j, labels[j]);
    LinkedTransitive(facts, labels, i, labels[i], j);
  }

  // ---------------------------------------------------------------- providers

  predicate AllFactsGraded(facts: seq<Facts>) {
    forall f :: f in facts ==> Graded(f)
  }

  lemma OwnKeysGraded(facts: seq<Facts>)
    requires AllFactsGraded(facts)
    ensures AllGraded(OwnKeys(facts))
  {
    forall i | 0 <= i < |facts|
      ensures forall k :: k in OwnKeys(facts)[i] ==> Tier(k) <= 4
      ensures forall k, l :: k in OwnKeys(facts)[i] && l in OwnKeys(facts)[i] && Tier(k) == Tier(l) ==> k == l
    {
      assert facts[i] in facts;
    }
  }

  /** The first members share a label. */
  predicate Together(labels: Labels, members: seq<nat>, n: nat) {
    n < |members| && (forall i :: 0 <= i <= n ==> members[i] < |labels|) && forall i :: 0 <= i <= n ==> labels[members[i]] == labels[members[0]]
  }

  lemma OneMoreTogether(before: Labels, after: Labels, members: seq<nat>, n: nat)
    requires 0 < n < |members| && Together(before, members, n - 1) && Coarser(before, after)
    requires members[n] < |after| && after[members[0]] == after[members[n]]
    ensures Together(after, members, n)
  {
  }

  lemma {:induction false} ProviderMembersMerge(own: seq<set<IdentityKey>>, labels: Labels, members: seq<nat>, p: ProviderKey, n: nat)
    requires |own| == |labels| && n < |members|
    requires forall i :: 0 <= i < |members| ==> members[i] < |own| && Provider(p) in own[members[i]]
    ensures InRange(MemberPairs(members), |labels|)
    ensures Together(Run(own, labels, MemberPairs(members)[..n]), members, n)
    decreases n
  {
    var pairs := MemberPairs(members);
    if n > 0 {
      ProviderMembersMerge(own, labels, members, p, n - 1);
      assert pairs[..n][..n - 1] == pairs[..n - 1];
      assert pairs[n - 1] == (members[0], members[n]);
      var before, after := Run(own, labels, pairs[..n - 1]), Run(own, labels, pairs[..n]);
      assert after == TryUnion(own, before, members[0], members[n]);
      hide Run, MemberPairs, TryUnion, Together;
      SharedProviderMerges(own, before, members[0], members[n], p);
      TryUnionCoarsens(own, before, members[0], members[n]);
      OneMoreTogether(before, after, members, n);
    }
  }

  lemma ProviderBucketMembers(facts: seq<Facts>, p: ProviderKey)
    requires AllFactsGraded(facts)
    ensures var bucket := Bucket(facts, Provider(p), Some(p));
      && (forall m :: 0 <= m < |bucket| ==> bucket[m] < |facts| && Provider(p) in OwnKeys(facts)[bucket[m]])
      && (forall i :: 0 <= i < |facts| && facts[i].provider == Some(p) ==> i in bucket)
  {
    var bucket := Bucket(facts, Provider(p), Some(p));
    BucketMembership(facts, Provider(p), Some(p));
    forall i | 0 <= i < |facts| && facts[i].provider == Some(p)
      ensures Provider(p) in facts[i].own && i in bucket
    {
      assert facts[i] in facts;
    }
    forall m | 0 <= m < |bucket|
      ensures bucket[m] < |facts| && Provider(p) in OwnKeys(facts)[bucket[m]]
    {
      assert bucket[m] in bucket;
    }
  }

  /** Wherever the attempts inside one provider's bucket stand in a run, they
      leave its members together. */
  lemma ProviderBucketMerges(facts: seq<Facts>, labels: Labels, p: ProviderKey, before: seq<Attempt>, after: seq<Attempt>, i: nat, j: nat)
    requires |labels| == |facts| && i < |facts| && j < |facts| && AllFactsGraded(facts)
    requires facts[i].provider == facts[j].provider == Some(p)
    requires InRange(before + MemberPairs(Bucket(facts, Provider(p), Some(p))) + after, |labels|)
    ensures var end := Run(OwnKeys(facts), labels, before + MemberPairs(Bucket(facts, Provider(p), Some(p))) + after);
      end[i] == end[j]
  {
    var own, bucket := OwnKeys(facts), Bucket(facts, Provider(p), Some(p));
    ProviderBucketMembers(facts, p);
    MembersMergeInside(own, labels, bucket, p, before, after, i, j);
  }

  lemma MembersMergeInside(own: seq<set<IdentityKey>>, labels: Labels, members: seq<nat>, p: ProviderKey,
                           before: seq<Attempt>, after: seq<Attempt>, i: nat, j: nat)
    requires |own| == |labels| && i in members && j in members
    requires forall m :: 0 <= m < |members| ==> members[m] < |own| && Provider(p) in own[members[m]]
    requires InRange(before + MemberPairs(members) + after, |labels|)
    ensures var end := Run(own, labels, before + MemberPairs(members) + after); end[i] == end[j]
  {
    SplitRange(before, MemberPairs(members), after, |labels|);
    MembersMerge(own, Run(own, labels, before), members, p, i, j);
    LaterRunsKeepMerges(own, labels, before, MemberPairs(members), after, i, j);
  }

  lemma MembersMerge(own: seq<set<IdentityKey>>, labels: Labels, members: seq<nat>, p: ProviderKey, i: nat, j: nat)
    requires |own| == |labels| && i in members && j in members
    requires forall m :: 0 <= m < |members| ==> members[m] < |own| && Provider(p) in own[members[m]]
    ensures InRange(MemberPairs(members), |labels|)
    ensures var end := Run(own, labels, MemberPairs(members)); end[i] == end[j]
  {
    ProviderMembersMerge(own, labels, members, p, |members| - 1);
    assert MemberPairs(members)[..|members| - 1] == MemberPairs(members);
    var x :| 0 <= x < |members| && members[x] == i;
    var y :| 0 <= y < |members| && members[y] == j;
  }

  lemma LaterRunsKeepMerges(own: seq<set<IdentityKey>>, labels: Labels, before: seq<Attempt>, middle: seq<Attempt>,
                            after: seq<Attempt>, i: nat, j: nat)
    requires |own| == |labels| && i < |labels| && j < |labels|
    requires InRange(before, |labels|) && InRange(middle, |labels|) && InRange(after, |labels|)
    requires var mid := Run(own, Run(own, labels, before), middle); mid[i] == mid[j]
    ensures InRange(before + middle + after, |labels|)
    ensures var end := Run(own, labels, before + middle + after); end[i] == end[j]
  {
    RunSplits(own, labels, before, middle);
    RunSplits(own, labels, before + middle, after);
    RunCoarsens(own, Run(own, labels, before + middle), after);
  }

  lemma SplitRange(before: seq<Attempt>, middle: seq<Attempt>, after: seq<Attempt>, n: nat)
    requires InRange(before + middle + after, n)
    ensures InRange(before, n) && InRange(middle, n) && InRange(after, n) && InRange(before + middle, n)
  {
  }

  lemma BucketInside(facts: seq<Facts>, key: IdentityKey, owners: seq<Owner>, owner: Owner)
    returns (before: seq<Attempt>, after: seq<Attempt>)
    requires owner in owners
    ensures BucketAttempts(facts, key, owners) == before + MemberPairs(Bucket(facts, key, owner)) + after
    decreases |owners|
  {
    var last := |owners| - 1;
    if owners[last] == owner {
      before, after := BucketAttempts(facts, key, owners[..last]), [];
    } else {
      before, after := BucketInside(facts, key, owners[..last], owner);
      after := after + MemberPairs(Bucket(facts, key, owners[last]));
    }
  }

  lemma Associate<T>(a: seq<T>, b: seq<T>, c: seq<T>, d: seq<T>, e: seq<T>)
    ensures a + ((b + c + d) + e) == (a + b) + c + (d + e)
    ensures (b + c + d) + e == b + c + (d + e)
  {
  }

  lemma {:induction false} PassInside(facts: seq<Facts>, passes: seq<KeyPass>, t: nat, owner: Owner)
    returns (before: seq<Attempt>, after: seq<Attempt>)
    requires t < |passes| && owner in passes[t].owners
    ensures PassAttempts(facts, passes) == before + MemberPairs(Bucket(facts, passes[t].key, owner)) + after
    decreases |passes|
  {
    var last := |passes| - 1;
    var pairs := MemberPairs(Bucket(facts, passes[t].key, owner));
    var first := PassAttempts(facts, passes[..last]);
    if t == last {
      var b, a := BucketInside(facts, passes[last].key, passes[last].owners, owner);
      var bridge := BridgeAttempts(facts, passes[last].key, passes[last].owners);
      Associate(first, b, pairs, a, bridge);
      before, after := first + b, a + bridge;
    } else {
      var b, a := PassInside(facts, passes[..last], t, owner);
      var rest := KeyAttempts(facts, passes[last]);
      Associate(first, b, pairs, a, rest);
      before, after := b, a + rest;
    }
  }

  /** Two components with provider facts share a group exactly when the
      normalized facts are equal. */
  lemma ProviderFactsDecideGroups(facts: seq<Facts>, passes: seq<KeyPass>, ids: seq<ComponentId>, i: nat, j: nat)
    requires AllFactsGraded(facts) && Schedule(facts, passes, ids) && i < |facts| && j < |facts|
    requires facts[i].provider.Some? && facts[j].provider.Some?
    ensures var labels := Grouping(facts, passes, ids);
      labels[i] == labels[j] <==> facts[i].provider == facts[j].provider
  {
    var own, labels := OwnKeys(facts), Grouping(facts, passes, ids);
    var p, q := facts[i].provider.value, facts[j].provider.value;
    assert facts[i] in facts && facts[j] in facts;
    AttemptsAgree(facts, passes, ids);
    if labels[i] == labels[j] {
      OwnKeysGraded(facts);
      ProvidersNeverBridged(own, Attempts(facts, passes, ids), i, j, p, q);
    }
    if p == q {
      EqualProvidersMerge(facts, passes, ids, p, i, j);
    }
  }

  lemma EqualProvidersMerge(facts: seq<Facts>, passes: seq<KeyPass>, ids: seq<ComponentId>, p: ProviderKey, i: nat, j: nat)
    requires AllFactsGraded(facts) && Schedule(facts, passes, ids) && i < |facts| && j < |facts|
    requires facts[i].provider == facts[j].provider == Some(p)
    ensures var labels := Grouping(facts, passes, ids); labels[i] == labels[j]
  {
    var key := Provider(p);
    assert facts[i] in facts && key in SearchKeys(facts[i]);
    assert key in VisitedKeys(passes);
    var t :| 0 <= t < |passes| && passes[t].key == key;
    BucketMembership(facts, key, Some(p));
    assert i in Bucket(facts, key, Some(p));
    assert OwnersOf(facts, passes[t].key, passes[t].owners);
    var before, after := PassInside(facts, passes, t, Some(p));
    var pairs, rest := MemberPairs(Bucket(facts, key, Some(p))), IdAttempts(facts, ids);
    Associate([], before, pairs, after, rest);
    AttemptsAgree(facts, passes, ids);
    ProviderBucketMerges(facts, Singletons(|facts|), p, before, after + rest, i, j);
  }

  /** All the facts gathered in one group have a single best one. */
  lemma OneBestFactPerGroup(facts: seq<Facts>, passes: seq<KeyPass>, ids: seq<ComponentId>, i: nat)
    requires AllFactsGraded(facts) && i < |facts|
    ensures var labels := Grouping(facts, passes, ids);
      SoleBestKey(ClassKeys(OwnKeys(facts), labels, labels[i]))
  {
    AttemptsAgree(facts, passes, ids);
    OwnKeysGraded(facts);
    EveryRunKeepsSoleBestKey(OwnKeys(facts), Attempts(facts, passes, ids));
  }

  // ---------------------------------------------------------------- below the provider tier

  /** Two members of one group may disagree on a tier only when the group holds
      a fact on a better tier. */
  lemma DisagreementsSitBelowABetterFact(facts: seq<Facts>, passes: seq<KeyPass>, ids: seq<ComponentId>, i: nat, j: nat, k: IdentityKey, l: IdentityKey)
    requires AllFactsGraded(facts) && i < |facts| && j < |facts|
    requires k in facts[i].own && l in facts[j].own && k != l && Tier(k) == Tier(l)
    requires var labels := Grouping(facts, passes, ids); labels[i] == labels[j]
    ensures exists m, better ::
      (0 <= m < |facts| && better in facts[m].own && Tier(better) < Tier(k)
       && Grouping(facts, passes, ids)[m] == Grouping(facts, passes, ids)[i])
  {
    var labels := Grouping(facts, passes, ids);
    OneBestFactPerGroup(facts, passes, ids, i);
    var keys := ClassKeys(OwnKeys(facts), labels, labels[i]);
    assert k in OwnKeys(facts)[i] && l in OwnKeys(facts)[j];
    assert k in keys && l in keys;
    var better :| better in keys && Tier(better) < Tier(k);
    var m :| 0 <= m < |facts| && labels[m] == labels[i] && better in OwnKeys(facts)[m];
    assert better in facts[m].own;
  }

  // ---------------------------------------------------------------- the grouping algorithm

  type KeyIndex = map<IdentityKey, map<Owner, seq<nat>>>

  function Lookup(index: KeyIndex, key: IdentityKey, owner: Owner): seq<nat> {
    if key in index && owner in index[key] then index[key][owner] else []
  }

  function Enter(index: KeyIndex, key: IdentityKey, owner: Owner, member: nat): KeyIndex {
    var buckets := if key in index then index[key] else map[];
    var members := if owner in buckets then buckets[owner] else [];
    index[key := buckets[owner := members + [member]]]
  }

  /** Only inhabited entries exist. */
  ghost predicate Tight(index: KeyIndex) {
    forall k :: k in index ==> index[k].Keys != {} && forall o :: o in index[k] ==> index[k][o] != []
  }

  /** What the keys of member `n` already entered add to a bucket. */
  function NewEntry(facts: Facts, n: nat, pending: set<IdentityKey>, key: IdentityKey, owner: Owner): seq<nat> {
    if key in SearchKeys(facts) - pending && owner == facts.provider then [n] else []
  }

  lemma EnterStep(facts: seq<Facts>, index: KeyIndex, n: nat, pending: set<IdentityKey>, key: IdentityKey)
    requires n < |facts| && key in pending && pending <= SearchKeys(facts[n]) && Tight(index)
    requires forall k, o :: Lookup(index, k, o) == Bucket(facts[..n], k, o) + NewEntry(facts[n], n, pending, k, o)
    ensures var index' := Enter(index, key, facts[n].provider, n);
      Tight(index') && forall k, o :: Lookup(index', k, o) == Bucket(facts[..n], k, o) + NewEntry(facts[n], n, pending - {key}, k, o)
  {
    hide Bucket;
    var index' := Enter(index, key, facts[n].provider, n);
    forall k, o ensures Lookup(index', k, o) == Bucket(facts[..n], k, o) + NewEntry(facts[n], n, pending - {key}, k, o) {
      assert Lookup(index', k, o) == Lookup(index, k, o) + if k == key && o == facts[n].provider then [n] else [];
    }
  }

  method IndexByKey(facts: seq<Facts>) returns (index: KeyIndex)
    ensures Tight(index)
    ensures forall k, o :: Lookup(index, k, o) == Bucket(facts, k, o)
  {
    index := map[];
    for n := 0 to |facts|
      invariant Tight(index)
      invariant forall k, o :: Lookup(index, k, o) == Bucket(facts[..n], k, o)
    {
      var owner, pending := facts[n].provider, SearchKeys(facts[n]);
      while pending != {}
        invariant pending <= SearchKeys(facts[n]) && Tight(index)
        invariant forall k, o :: Lookup(index, k, o) == Bucket(facts[..n], k, o) + NewEntry(facts[n], n, pending, k, o)
        decreases pending
      {
        var key :| key in pending;
        hide Bucket, NewEntry, Lookup, Enter, Tight;
        EnterStep(facts, index, n, pending, key);
        index := Enter(index, key, owner, n);
        pending := pending - {key};
      }
      assert facts[..n + 1][..n] == facts[..n];
    }
    assert facts[..|facts|] == facts;
  }

  type IdIndex = map<ComponentId, seq<nat>>

  function LookupId(index: IdIndex, id: ComponentId): seq<nat> {
    if id in index then index[id] else []
  }

  method IndexById(facts: seq<Facts>) returns (index: IdIndex)
    ensures forall f :: f in facts ==> f.id in index
    ensures forall id :: LookupId(index, id) == IdBucket(facts, id)
  {
    index := map[];
    for n := 0 to |facts|
      invariant forall id :: LookupId(index, id) == IdBucket(facts[..n], id)
      invariant forall i :: 0 <= i < n ==> facts[i].id in index
    {
      assert facts[..n + 1][..n] == facts[..n];
      assert forall id :: IdBucket(facts[..n + 1], id) == IdBucket(facts[..n], id) + if facts[n].id == id then [n] else [];
      hide IdBucket;
      index := index[facts[n].id := LookupId(index, facts[n].id) + [n]];
    }
    assert facts[..|facts|] == facts;
  }

  /** `after` is `before` followed by `added`. */
  ghost predicate Extended(before: seq<Attempt>, after: seq<Attempt>, added: seq<Attempt>) {
    after == before + added
  }

  lemma ExtendedByNothing(a: seq<Attempt>)
    ensures Extended(a, a, [])
  {
  }

  lemma ExtendTwice(a: seq<Attempt>, b: seq<Attempt>, c: seq<Attempt>, first: seq<Attempt>, second: seq<Attempt>)
    requires Extended(a, b, first) && Extended(b, c, second)
    ensures Extended(a, c, first + second)
  {
  }

  method UnionMembers(forest: UnionFind, members: seq<nat>)
    requires forest.Valid() && forall m :: m in members ==> m < |forest.own|
    modifies forest
    ensures forest.Valid()
    ensures Extended(old(forest.attempts), forest.attempts, MemberPairs(members))
  {
    hide UnionFind.Valid;
    if |members| == 0 { return; }
    assert members[0] in members && forall m :: m in members[1..] ==> m in members;
    UnionRow(forest, members[0], members[1..]);
  }

  method UnionRow(forest: UnionFind, left: nat, right: seq<nat>)
    requires forest.Valid() && left < |forest.own| && forall m :: m in right ==> m < |forest.own|
    modifies forest
    ensures forest.Valid()
    ensures Extended(old(forest.attempts), forest.attempts, RowPairs(left, right))
  {
    hide UnionFind.Valid;
    for i := 0 to |right|
      invariant forest.Valid()
      invariant Extended(old(forest.attempts), forest.attempts, RowPairs(left, right[..i]))
    {
      assert right[i] in right;
      forest.UnionIfCompatible(left, right[i]);
      assert RowPairs(left, right[..i + 1]) == RowPairs(left, right[..i]) + [(left, right[i])];
    }
    assert right[..|right|] == right;
  }

  lemma CrossStep(left: seq<nat>, i: nat, right: seq<nat>)
    requires i < |left|
    ensures CrossPairs(left[..i + 1], right) == CrossPairs(left[..i], right) + RowPairs(left[i], right)
  {
    assert left[..i + 1][..i] == left[..i];
  }

  method UnionUnowned(forest: UnionFind, unowned: seq<nat>, owned: seq<nat>)
    requires forest.Valid()
    requires forall m :: m in unowned ==> m < |forest.own|
    requires forall m :: m in owned ==> m < |forest.own|
    modifies forest
    ensures forest.Valid()
    ensures Extended(old(forest.attempts), forest.attempts, CrossPairs(unowned, owned))
  {
    hide UnionFind.Valid;
    for i := 0 to |unowned|
      invariant forest.Valid()
      invariant Extended(old(forest.attempts), forest.attempts, CrossPairs(unowned[..i], owned))
    {
      hide Extended;
      assert unowned[i] in unowned;
      ghost var before := forest.attempts;
      UnionRow(forest, unowned[i], owned);
      ExtendTwice(old(forest.attempts), before, forest.attempts, CrossPairs(unowned[..i], owned), RowPairs(unowned[i], owned));
      CrossStep(unowned, i, owned);
    }
    assert unowned[..|unowned|] == unowned;
  }

  lemma BucketInRange(facts: seq<Facts>, key: IdentityKey, owner: Owner)
    ensures forall m :: m in Bucket(facts, key, owner) ==> m < |facts|
  {
    BucketMembership(facts, key, owner);
  }

  lemma BucketStep(facts: seq<Facts>, key: IdentityKey, owners: seq<Owner>, owner: Owner)
    ensures BucketAttempts(facts, key, owners + [owner])
      == BucketAttempts(facts, key, owners) + MemberPairs(Bucket(facts, key, owner))
  {
    assert (owners + [owner])[..|owners|] == owners;
  }

  lemma SingletonMember<T>(s: set<T>, x: T, y: T)
    requires |s| == 1 && x in s && y in s
    ensures x == y
  {
    assert |s - {x}| == 0;
    assert y !in s - {x};
  }

  method UnionBuckets(forest: UnionFind, ghost facts: seq<Facts>, key: IdentityKey, buckets: map<Owner, seq<nat>>)
    returns (ghost owners: seq<Owner>)
    requires forest.Valid() && |forest.own| == |facts|
    requires forall o :: o in buckets ==> buckets[o] == Bucket(facts, key, o)
    modifies forest
    ensures forest.Valid()
    ensures Distinct(owners) && forall o :: o in owners <==> o in buckets
    ensures Extended(old(forest.attempts), forest.attempts, BucketAttempts(facts, key, owners))
  {
    hide UnionFind.Valid;
    owners := [];
    var pending := buckets.Keys;
    while pending != {}
      invariant forest.Valid() && pending <= buckets.Keys
      invariant Distinct(owners) && forall o :: o in owners <==> o in buckets.Keys - pending
      invariant Extended(old(forest.attempts), forest.attempts, BucketAttempts(facts, key, owners))
      decreases pending
    {
      hide Extended;
      var owner :| owner in pending;
      pending := pending - {owner};
      BucketInRange(facts, key, owner);
      ghost var before := forest.attempts;
      UnionMembers(forest, buckets[owner]);
      ExtendTwice(old(forest.attempts), before, forest.attempts, BucketAttempts(facts, key, owners), MemberPairs(buckets[owner]));
      BucketStep(facts, key, owners, owner);
      DistinctAppend(owners, owner);
      owners := owners + [owner];
    }
  }

  method UnionKey(forest: UnionFind, ghost facts: seq<Facts>, key: IdentityKey, buckets: map<Owner, seq<nat>>)
    returns (ghost pass: KeyPass)
    requires forest.Valid() && |forest.own| == |facts|
    requires forall o :: o in buckets ==> buckets[o] == Bucket(facts, key, o)
    modifies forest
    ensures forest.Valid() && pass.key == key && Distinct(pass.owners) && forall o :: o in pass.owners <==> o in buckets
    ensures Extended(old(forest.attempts), forest.attempts, KeyAttempts(facts, pass))
  {
    hide UnionFind.Valid;
    hide UnionFind.Valid, Extended, BucketAttempts, CrossPairs, Bucket;
    ghost var owners := UnionBuckets(forest, facts, key, buckets);
    pass := KeyPass(key, owners);
    ghost var middle := forest.attempts;
    var providerBuckets := set o | o in buckets.Keys && o.Some?;
    assert providerBuckets == Providers(owners);
    if |providerBuckets| == 1 && None in buckets {
      var owner :| owner in providerBuckets;
      SingletonMember(providerBuckets, owner, SoleProvider(owners));
      BucketInRange(facts, key, None);
      BucketInRange(facts, key, owner);
      UnionUnowned(forest, buckets[None], buckets[owner]);
    } else {
      ExtendedByNothing(forest.attempts);
    }
    ExtendTwice(old(forest.attempts), middle, forest.attempts,
                BucketAttempts(facts, key, owners), BridgeAttempts(facts, key, owners));
  }

  lemma NoPasses(facts: seq<Facts>, before: seq<Attempt>)
    ensures TierOrdered([]) && PassesOwned(facts, []) && VisitedKeys([]) == {}
    ensures Extended(before, before, PassAttempts(facts, []))
  {
  }

  lemma PassStep(facts: seq<Facts>, passes: seq<KeyPass>, pass: KeyPass)
    ensures PassAttempts(facts, passes + [pass]) == PassAttempts(facts, passes) + KeyAttempts(facts, pass)
    ensures VisitedKeys(passes + [pass]) == VisitedKeys(passes) + {pass.key}
  {
    assert (passes + [pass])[..|passes|] == passes;
    assert (passes + [pass])[|passes|] == pass;
    forall t | 0 <= t < |passes| ensures passes[t].key in VisitedKeys(passes + [pass]) {
      assert (passes + [pass])[t] == passes[t];
    }
  }

  lemma PassAppend(facts: seq<Facts>, passes: seq<KeyPass>, pass: KeyPass)
    requires TierOrdered(passes) && PassesOwned(facts, passes) && OwnersOf(facts, pass.key, pass.owners)
    requires pass.key !in VisitedKeys(passes) && forall k :: k in VisitedKeys(passes) ==> Tier(k) <= Tier(pass.key)
    ensures TierOrdered(passes + [pass]) && PassesOwned(facts, passes + [pass])
  {
    forall t | 0 <= t < |passes| ensures passes[t].key in VisitedKeys(passes) {}
  }

  method UnionKeys(forest: UnionFind, ghost facts: seq<Facts>, index: KeyIndex)
    returns (ghost passes: seq<KeyPass>)
    requires forest.Valid() && |forest.own| == |facts| && Tight(index)
    requires forall k, o :: Lookup(index, k, o) == Bucket(facts, k, o)
    modifies forest
    ensures forest.Valid()
    ensures TierOrdered(passes) && PassesOwned(facts, passes) && VisitedKeys(passes) == index.Keys
    ensures Extended(old(forest.attempts), forest.attempts, PassAttempts(facts, passes))
  {
    hide UnionFind.Valid, Extended, OwnersOf, TierOrdered, PassesOwned, VisitedKeys, PassAttempts, Lookup, Bucket, Tight;
    passes := [];
    NoPasses(facts, forest.attempts);
    var pending := index.Keys;
    while pending != {}
      invariant forest.Valid() && pending <= index.Keys
      invariant TierOrdered(passes) && PassesOwned(facts, passes) && VisitedKeys(passes) == index.Keys - pending
      invariant forall k, l :: k in VisitedKeys(passes) && l in pending ==> Tier(k) <= Tier(l)
      invariant Extended(old(forest.attempts), forest.attempts, PassAttempts(facts, passes))
      decreases pending
    {
      var key := BestKey(pending);
      pending := pending - {key};
      IndexEntry(facts, index, key);
      ghost var before := forest.attempts;
      ghost var pass := UnionKey(forest, facts, key, index[key]);
      ExtendTwice(old(forest.attempts), before, forest.attempts, PassAttempts(facts, passes), KeyAttempts(facts, pass));
      EntryOwners(facts, key, index[key], pass.owners);
      PassStep(facts, passes, pass);
      PassAppend(facts, passes, pass);
      passes := passes + [pass];
    }
  }

  lemma EntryOwners(facts: seq<Facts>, key: IdentityKey, buckets: map<Owner, seq<nat>>, owners: seq<Owner>)
    requires Distinct(owners) && forall o :: o in owners <==> o in buckets
    requires forall o :: o in buckets <==> Bucket(facts, key, o) != []
    ensures OwnersOf(facts, key, owners)
  {
  }

  lemma IndexEntry(facts: seq<Facts>, index: KeyIndex, key: IdentityKey)
    requires Tight(index) && key in index
    requires forall k, o :: Lookup(index, k, o) == Bucket(facts, k, o)
    ensures forall o :: o in index[key] ==> index[key][o] == Bucket(facts, key, o)
    ensures forall o :: o in index[key] <==> Bucket(facts, key, o) != []
  {
    forall o ensures o in index[key] ==> index[key][o] == Bucket(facts, key, o)
             ensures o in index[key] <==> Bucket(facts, key, o) != []
    {
      assert Lookup(index, key, o) == Bucket(facts, key, o);
    }
  }

  /** A key on the best tier still to be visited. */
  method BestKey(pending: set<IdentityKey>) returns (key: IdentityKey)
    requires pending != {}
    ensures key in pending && forall k :: k in pending ==> Tier(key) <= Tier(k)
  {
    key :| key in pending;
    var rest := pending - {key};
    while rest != {}
      invariant rest <= pending && key in pending
      invariant forall k :: k in pending - rest ==> Tier(key) <= Tier(k)
      decreases rest
    {
      var other :| other in rest;
      rest := rest - {other};
      if Tier(other) < Tier(key) { key := other; }
    }
  }

  lemma IdStep(facts: seq<Facts>, ids: seq<ComponentId>, id: ComponentId)
    ensures IdAttempts(facts, ids + [id]) == IdAttempts(facts, ids) + MemberPairs(IdBucket(facts, id))
  {
    assert (ids + [id])[..|ids|] == ids;
  }

  method UnionIds(forest: UnionFind, ghost facts: seq<Facts>, index: IdIndex)
    returns (ghost ids: seq<ComponentId>)
    requires forest.Valid() && |forest.own| == |facts|
    requires forall id :: LookupId(index, id) == IdBucket(facts, id)
    modifies forest
    ensures forest.Valid()
    ensures Distinct(ids) && forall id :: id in ids <==> id in index
    ensures Extended(old(forest.attempts), forest.attempts, IdAttempts(facts, ids))
  {
    hide UnionFind.Valid;
    ids := [];
    var pending := index.Keys;
    while pending != {}
      invariant forest.Valid() && pending <= index.Keys
      invariant Distinct(ids) && forall id :: id in ids <==> id in index.Keys - pending
      invariant Extended(old(forest.attempts), forest.attempts, IdAttempts(facts, ids))
      decreases pending
    {
      hide Extended;
      var id :| id in pending;
      pending := pending - {id};
      ghost var before := forest.attempts;
      assert index[id] == LookupId(index, id);
      IdBucketMembership(facts, id);
      UnionMembers(forest, index[id]);
      ExtendTwice(old(forest.attempts), before, forest.attempts, IdAttempts(facts, ids), MemberPairs(index[id]));
      IdStep(facts, ids, id);
      DistinctAppend(ids, id);
      ids := ids + [id];
    }
  }

  function ClassOf(labels: Labels, c: nat): seq<nat> {
    if labels == [] then []
    else
      var last := |labels| - 1;
      ClassOf(labels[..last], c) + (if labels[last] == c then [last] else [])
  }

  lemma {:induction false} ClassMembership(labels: Labels, c: nat)
    ensures forall j: nat :: j in ClassOf(labels, c) <==> j < |labels| && labels[j] == c
    ensures forall x, y :: 0 <= x < y < |ClassOf(labels, c)| ==> ClassOf(labels, c)[x] < ClassOf(labels, c)[y]
  {
    if labels != [] {
      var last := |labels| - 1;
      var members := ClassOf(labels[..last], c);
      ClassMembership(labels[..last], c);
      assert forall x :: 0 <= x < |members| ==> members[x] in members;
      assert ClassOf(labels, c) == members + if labels[last] == c then [last] else [];
      hide ClassOf;
    }
  }

  /** The index lists of the classes, each ascending. */
  function GroupsOf(labels: Labels): set<seq<nat>> {
    set i | 0 <= i < |labels| :: ClassOf(labels, labels[i])
  }

  method CollectGroups(forest: UnionFind) returns (groups: set<seq<nat>>)
    requires forest.Valid()
    modifies forest`parent
    ensures groups == GroupsOf(forest.labels)
  {
    hide RootsCollected, Represents, Run, InRange;
    var byRoot: map<nat, seq<nat>> := map[];
    ghost var labels := forest.labels;
    RootsDiffer(forest.parent, forest.rank, forest.identityKeys, forest.own, labels);
    NoRootsYet(forest.parent, labels);
    var n := |forest.parent|;
    for index := 0 to n
      invariant forest.Valid() && |forest.parent| == n == |labels|
      invariant RootsCollected(forest.parent, labels, byRoot, index)
    {
      ghost var before := forest.parent;
      var root := forest.Find(index);
      RootsDiffer(forest.parent, forest.rank, forest.identityKeys, forest.own, labels);
      RootsStep(before, forest.parent, labels, byRoot, index, root);
      byRoot := byRoot[root := (if root in byRoot then byRoot[root] else []) + [index]];
    }
    groups := byRoot.Values;
    CollectedAll(forest.parent, labels, byRoot);
  }

  ghost predicate OneRootPerLabel(parent: seq<nat>, labels: Labels) {
    && |parent| == |labels|
    && (forall a, b :: 0 <= a < |parent| && 0 <= b < |parent| && parent[a] == a && parent[b] == b && a != b ==> labels[a] != labels[b])
  }

  lemma RootsDiffer(parent: seq<nat>, rank: seq<Rank>, identityKeys: seq<set<IdentityKey>>, own: seq<set<IdentityKey>>, labels: Labels)
    requires Represents(parent, rank, identityKeys, own, labels)
    ensures OneRootPerLabel(parent, labels)
  {
  }

  lemma NoRootsYet(parent: seq<nat>, labels: Labels)
    requires |parent| == |labels|
    ensures RootsCollected(parent, labels, map[], 0)
  {
  }

  lemma RootsStep(before: seq<nat>, parent: seq<nat>, labels: Labels, byRoot: map<nat, seq<nat>>, n: nat, root: nat)
    requires n < |labels| == |parent| == |before| && RootsCollected(before, labels, byRoot, n)
    requires forall a :: 0 <= a < |parent| && before[a] == a ==> parent[a] == a
    requires root < |parent| && parent[root] == root && labels[root] == labels[n]
    requires OneRootPerLabel(parent, labels)
    ensures RootsCollected(parent, labels, byRoot[root := (if root in byRoot then byRoot[root] else []) + [n]], n + 1)
  {
    if root !in byRoot { NewRootIsEmpty(before, parent, labels, byRoot, n, root); }
    hide ClassOf;
    var byRoot' := byRoot[root := (if root in byRoot then byRoot[root] else []) + [n]];
    forall i | 0 <= i < n + 1 ensures Rooted(labels, byRoot', labels[i]) {
      if i == n {
        assert root in byRoot';
      } else {
        assert Rooted(labels, byRoot, labels[i]);
        var r :| r in byRoot && r < |labels| && labels[r] == labels[i];
        assert r in byRoot';
      }
    }
    forall r | r in byRoot' ensures r < |parent| && parent[r] == r && byRoot'[r] == ClassOf(labels[..n + 1], labels[r]) {
      ClassOneMore(labels, n, labels[r]);
      if r != root { assert r in byRoot && labels[r] != labels[root]; }
    }
  }

  lemma ClassOneMore(labels: Labels, n: nat, c: nat)
    requires n < |labels|
    ensures ClassOf(labels[..n + 1], c) == ClassOf(labels[..n], c) + if labels[n] == c then [n] else []
  {
    assert labels[..n + 1][..n] == labels[..n];
  }

  lemma NewRootIsEmpty(before: seq<nat>, parent: seq<nat>, labels: Labels, byRoot: map<nat, seq<nat>>, n: nat, root: nat)
    requires n < |labels| == |parent| == |before| && RootsCollected(before, labels, byRoot, n)
    requires forall a :: 0 <= a < |parent| && before[a] == a ==> parent[a] == a
    requires root < |parent| && parent[root] == root && root !in byRoot && OneRootPerLabel(parent, labels)
    ensures ClassOf(labels[..n], labels[root]) == []
  {
    hide ClassOf;
    forall i | 0 <= i < n ensures labels[..n][i] != labels[root] {
      assert Rooted(labels, byRoot, labels[i]);
      var r :| r in byRoot && r < |labels| && labels[r] == labels[i];
      assert parent[r] == r;
    }
    ClassEmpty(labels[..n], labels[root]);
  }

  lemma CollectedAll(parent: seq<nat>, labels: Labels, byRoot: map<nat, seq<nat>>)
    requires |parent| == |labels| && RootsCollected(parent, labels, byRoot, |labels|)
    ensures byRoot.Values == GroupsOf(labels)
  {
    hide ClassOf;
    assert labels[..|labels|] == labels;
    forall i | 0 <= i < |labels| ensures ClassOf(labels, labels[i]) in byRoot.Values {
      assert Rooted(labels, byRoot, labels[i]);
      var r :| r in byRoot && r < |labels| && labels[r] == labels[i];
      assert byRoot[r] == ClassOf(labels, labels[i]);
    }
    forall g | g in byRoot.Values ensures g in GroupsOf(labels) {
      var r :| r in byRoot && byRoot[r] == g;
      assert 0 <= r < |labels| && g == ClassOf(labels, labels[r]);
    }
  }

  /** Every root above one of the first `n` elements lists its members so far. */
  ghost predicate RootsCollected(parent: seq<nat>, labels: Labels, byRoot: map<nat, seq<nat>>, n: nat)
    requires n <= |labels| == |parent|
  {
    && (forall r :: r in byRoot ==> r < |parent| && parent[r] == r && byRoot[r] == ClassOf(labels[..n], labels[r]))
    && (forall i :: 0 <= i < n ==> Rooted(labels, byRoot, labels[i]))
  }

  ghost predicate Rooted(labels: Labels, byRoot: map<nat, seq<nat>>, c: nat) {
    exists r :: r in byRoot && r < |labels| && labels[r] == c
  }

  lemma {:induction false} ClassEmpty(labels: Labels, c: nat)
    requires forall i :: 0 <= i < |labels| ==> labels[i] != c
    ensures ClassOf(labels, c) == []
  {
    if labels != [] { ClassEmpty(labels[..|labels| - 1], c); }
  }

  /** Group components by identity: the union-find computes the grouping of the
      simple form, for a schedule that visits better tiers first. */
  method BuildGroups(components: seq<Component>)
    returns (groups: set<seq<nat>>, ghost facts: seq<Facts>, ghost passes: seq<KeyPass>, ghost ids: seq<ComponentId>)
    requires |components| <= MAX_COMPONENTS
    ensures facts == AllFacts(components) && Schedule(facts, passes, ids)
    ensures groups == GroupsOf(Grouping(facts, passes, ids))
  {
    hide Tight, Lookup, LookupId, Bucket, IdBucket, OwnKeys, AllFacts, OwnersOf, PassAttempts, IdAttempts, GroupsOf, Graded;
    hide TierOrdered, PassesOwned, VisitedKeys, Distinct, Represents, SearchKeys;
    var observed := AllFacts(components);
    facts := observed;
    var forest := new UnionFind(OwnKeys(observed));
    var byKey := IndexByKey(observed);
    var byId := IndexById(observed);
    passes := UnionKeys(forest, facts, byKey);
    KeysAreIndexed(facts, byKey);
    ids := UnionIds(forest, facts, byId);
    assert forest.attempts == Attempts(facts, passes, ids);
    groups := CollectGroups(forest);
  }

  lemma KeysAreIndexed(facts: seq<Facts>, index: KeyIndex)
    requires forall k, o :: Lookup(index, k, o) == Bucket(facts, k, o)
    ensures forall f, k :: f in facts && k in SearchKeys(f) ==> k in index
  {
    forall f, k | f in facts && k in SearchKeys(f)
      ensures k in index
    {
      var i :| 0 <= i < |facts| && facts[i] == f;
      BucketMembership(facts, k, f.provider);
      assert i in Bucket(facts, k, f.provider) && Lookup(index, k, f.provider) != [];
    }
  }
}
