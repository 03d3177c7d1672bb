/** Which conflicts below the provider tier a group can bridge
    (crates/reforge-discovery/src/dedup.rs, the promise at `deduplicate_graph`
    and the sole-provider rule of `build_groups`). */
module Bridging {
  import opened Wrappers
  import opened Characters
  import opened IdentityKeys
  import opened Partition
  import opened Dedup

  // ---------------------------------------------------------------- no better fact in reach

  /** A walk over the input whose neighbours agree on a key or an ID. */
  ghost predicate Chain(facts: seq<Facts>, p: seq<nat>) {
    |p| > 0 && p[0] < |facts| && forall i :: 0 <= i < |p| - 1 ==> Agree(facts, p[i], p[i + 1])
  }

  ghost predicate Connected(facts: seq<Facts>, i: nat, j: nat) {
    exists p :: Chain(facts, p) && p[0] == i && p[|p| - 1] == j
  }

  /** Nothing that agreement can reach from `i` has a fact on a better tier. */
  ghost predicate BestInReach(facts: seq<Facts>, i: nat, tier: nat) {
    forall m: nat, better :: m < |facts| && Connected(facts, i, m) && better in facts[m].own ==> Tier(better) >= tier
  }

  /** Components that disagree on a tier are never grouped when no component
      connected to one of them has a fact on a better tier. */
  lemma DisagreementStandsWithoutBetterFact(facts: seq<Facts>, passes: seq<KeyPass>, ids: seq<ComponentId>, i: nat, j: nat, k: IdentityKey, l: IdentityKey)
    requires AllFactsGraded(facts) && i < |facts| && j < |facts|
    requires k in facts[i].own && l in facts[j].own && k != l && Tier(k) == Tier(l)
    requires BestInReach(facts, i, Tier(k))
    ensures var labels := Grouping(facts, passes, ids); labels[i] != labels[j]
  {
    var labels := Grouping(facts, passes, ids);
    if labels[i] == labels[j] {
      DisagreementsSitBelowABetterFact(facts, passes, ids, i, j, k, l);
      var m: nat, better :| m < |facts| && better in facts[m].own && Tier(better) < Tier(k) && labels[m] == labels[i];
      MergesRestOnAgreement(facts, passes, ids, i, m);
      LinkedIsConnected(facts, labels, i, m);
    }
  }

  lemma LinkedIsConnected(facts: seq<Facts>, labels: Labels, i: nat, j: nat)
    requires Linked(facts, labels, i, j)
    ensures Connected(facts, i, j)
  {
    var p :| Walk(facts, labels, p) && p[0] == i && p[|p| - 1] == j;
    assert Chain(facts, p);
  }

  // ---------------------------------------------------------------- what attempts are between

  /** An attempt of a key's pass: both carry the key, and they have the same
      provider or the first has none. */
  predicate Aimed(facts: seq<Facts>, key: IdentityKey, a: Attempt) {
    && a.0 < |facts| && a.1 < |facts|
    && key in SearchKeys(facts[a.0]) && key in SearchKeys(facts[a.1])
    && (facts[a.0].provider == facts[a.1].provider || facts[a.0].provider == None)
  }

  lemma {:induction false} BucketsAimed(facts: seq<Facts>, key: IdentityKey, owners: seq<Owner>)
    ensures forall a :: a in BucketAttempts(facts, key, owners) ==> Aimed(facts, key, a)
  {
    if owners != [] {
      var owner := owners[|owners| - 1];
      BucketsAimed(facts, key, owners[..|owners| - 1]);
      BucketMembership(facts, key, owner);
      forall a | a in MemberPairs(Bucket(facts, key, owner)) ensures Aimed(facts, key, a) {
        assert a.0 in Bucket(facts, key, owner) && a.1 in Bucket(facts, key, owner);
      }
    }
  }

  lemma KeyAimed(facts: seq<Facts>, pass: KeyPass)
    ensures forall a :: a in KeyAttempts(facts, pass) ==> Aimed(facts, pass.key, a)
  {
    BucketsAimed(facts, pass.key, pass.owners);
    forall a | a in BridgeAttempts(facts, pass.key, pass.owners) ensures Aimed(facts, pass.key, a) {
      var owner := SoleProvider(pass.owners);
      BucketMembership(facts, pass.key, None);
      BucketMembership(facts, pass.key, owner);
      assert a.0 in Bucket(facts, pass.key, None) && a.1 in Bucket(facts, pass.key, owner);
    }
  }

  lemma {:induction false} PassesAimed(facts: seq<Facts>, passes: seq<KeyPass>)
    ensures forall a :: a in PassAttempts(facts, passes) ==> exists s :: 0 <= s < |passes| && Aimed(facts, passes[s].key, a)
  {
    if passes != [] {
      var last := |passes| - 1;
      PassesAimed(facts, passes[..last]);
      KeyAimed(facts, passes[last]);
      hide KeyAttempts, Aimed;
      forall a | a in PassAttempts(facts, passes) ensures exists s :: 0 <= s < |passes| && Aimed(facts, passes[s].key, a) {
        if a in PassAttempts(facts, passes[..last]) {
          var s :| 0 <= s < last && Aimed(facts, passes[..last][s].key, a);
          assert Aimed(facts, passes[s].key, a);
        } else {
          assert a in KeyAttempts(facts, passes[last]);
        }
      }
    }
  }

  /** The attempts of the first passes come first. */
  lemma {:induction false} PassPrefix(facts: seq<Facts>, passes: seq<KeyPass>, n: nat) returns (rest: seq<Attempt>)
    requires n <= |passes|
    ensures PassAttempts(facts, passes) == PassAttempts(facts, passes[..n]) + rest
    decreases |passes|
  {
    hide KeyAttempts;
    if n == |passes| {
      assert passes[..n] == passes;
      rest := [];
      Associate(PassAttempts(facts, passes), [], [], [], []);
      assert PassAttempts(facts, passes) + [] == PassAttempts(facts, passes);
    } else {
      var last := |passes| - 1;
      assert passes[..last][..n] == passes[..n];
      var shorter := PassPrefix(facts, passes[..last], n);
      var more := KeyAttempts(facts, passes[last]);
      assert PassAttempts(facts, passes) == PassAttempts(facts, passes[..last]) + more;
      hide *;
      rest := shorter + more;
      assert (PassAttempts(facts, passes[..n]) + shorter) + more == PassAttempts(facts, passes[..n]) + rest;
    }
  }

  lemma {:induction false} CrossPairsHold(left: seq<nat>, right: seq<nat>, x: nat, y: nat)
    requires x in left && y in right
    ensures (x, y) in CrossPairs(left, right)
  {
    var last := |left| - 1;
    if x == left[last] {
      var k :| 0 <= k < |right| && right[k] == y;
      assert RowPairs(x, right)[k] == (x, y);
    } else {
      assert x in left[..last];
      CrossPairsHold(left[..last], right, x, y);
    }
  }

  // ---------------------------------------------------------------- who claims a family

  /** Some component of the provider carries the key. */
  predicate Claims(facts: seq<Facts>, p: ProviderKey, key: IdentityKey) {
    exists x :: 0 <= x < |facts| && facts[x].provider == Some(p) && key in facts[x].own
  }

  /** At most one provider carries the key. */
  ghost predicate OneClaimant(facts: seq<Facts>, key: IdentityKey) {
    forall p, q :: Claims(facts, p, key) && Claims(facts, q, key) ==> p == q
  }

  // ---------------------------------------------------------------- without a claim there is no bridge

  lemma ForeignFamilyConflicts(left: set<IdentityKey>, right: set<IdentityKey>, q: ProviderKey, a: IdentityKey, b: IdentityKey)
    requires Provider(q) in left && a in left && b !in left && b in right && Provider(q) !in right
    requires Tier(a) == 1 && Tier(b) == 1 && SoleBestKey(left) && SoleBestKey(right)
    ensures PriorityConflict(left, right) && PriorityConflict(right, left)
  {
    if HasTier(right, 0) {
      assert HasTier(left, 0) by { assert Tier(Provider(q)) == 0; }
      assert !SharesTier(left, right, 0) && !SharesTier(right, left, 0);
    } else {
      assert HasTier(left, 1) && HasTier(right, 1);
      assert forall k :: k in right && Tier(k) == 1 ==> k == b;
      assert !SharesTier(left, right, 0) && !SharesTier(left, right, 1);
      assert !SharesTier(right, left, 0) && !SharesTier(right, left, 1);
    }
  }

  /** All of the provider are with `i`, and nobody there carries the key. */
  ghost predicate Guarded(facts: seq<Facts>, labels: Labels, i: nat, q: ProviderKey, b: IdentityKey) {
    && |labels| == |facts| && i < |facts|
    && (forall j :: 0 <= j < |facts| && facts[j].provider == Some(q) ==> labels[j] == labels[i])
    && (forall j :: 0 <= j < |facts| && labels[j] == labels[i] ==> b !in facts[j].own)
  }

  lemma GuardJoins(facts: seq<Facts>, labels: Labels, i: nat, q: ProviderKey, b: IdentityKey, x: nat, y: nat)
    requires Guarded(facts, labels, i, q, b) && x < |facts| && y < |facts|
    requires labels[x] == labels[i] ==> forall j :: 0 <= j < |facts| && labels[j] == labels[y] ==> b !in facts[j].own
    requires labels[y] == labels[i] ==> forall j :: 0 <= j < |facts| && labels[j] == labels[x] ==> b !in facts[j].own
    ensures Guarded(facts, Join(labels, x, y), i, q, b)
  {
  }

  lemma TryUnionCases(own: seq<set<IdentityKey>>, labels: Labels, x: nat, y: nat)
    requires |own| == |labels| && x < |labels| && y < |labels|
    ensures TryUnion(own, labels, x, y)
      == if labels[x] != labels[y] && PriorityConflict(ClassKeys(own, labels, labels[x]), ClassKeys(own, labels, labels[y])) then labels
         else Join(labels, x, y)
  {
  }

  lemma SoleAt(own: seq<set<IdentityKey>>, labels: Labels, c: nat)
    requires |own| == |labels| && AllSole(own, labels)
    ensures SoleBestKey(ClassKeys(own, labels, c))
  {
  }

  /** An attempt that would bring the key to the guarded class is refused. */
  lemma IntruderIsRefused(facts: seq<Facts>, labels: Labels, i: nat, q: ProviderKey, a: IdentityKey, b: IdentityKey, c: nat, j: nat)
    requires AllFactsGraded(facts) && Guarded(facts, labels, i, q, b) && AllSole(OwnKeys(facts), labels)
    requires facts[i].provider == Some(q) && a in facts[i].own && Tier(a) == 1 && Tier(b) == 1
    requires c != labels[i] && j < |facts| && labels[j] == c && b in facts[j].own
    ensures var left, right := ClassKeys(OwnKeys(facts), labels, labels[i]), ClassKeys(OwnKeys(facts), labels, c);
      PriorityConflict(left, right) && PriorityConflict(right, left)
  {
    GuardedKeys(facts, labels, i, q, a, b, labels[i]);
    GuardedKeys(facts, labels, i, q, a, b, c);
    SoleAt(OwnKeys(facts), labels, labels[i]);
    SoleAt(OwnKeys(facts), labels, c);
    hide *;
    ForeignFamilyConflicts(ClassKeys(OwnKeys(facts), labels, labels[i]), ClassKeys(OwnKeys(facts), labels, c), q, a, b);
  }

  lemma GuardHolds(facts: seq<Facts>, labels: Labels, i: nat, q: ProviderKey, a: IdentityKey, b: IdentityKey, x: nat, y: nat)
    requires AllFactsGraded(facts) && Guarded(facts, labels, i, q, b) && AllSole(OwnKeys(facts), labels)
    requires x < |facts| && y < |facts| && facts[i].provider == Some(q) && a in facts[i].own && Tier(a) == 1 && Tier(b) == 1
    ensures Guarded(facts, TryUnion(OwnKeys(facts), labels, x, y), i, q, b)
  {
    TryUnionCases(OwnKeys(facts), labels, x, y);
    GuardedClass(facts, labels, i, q, b);
    hide *;
    if TryUnion(OwnKeys(facts), labels, x, y) != labels {
      forall j | 0 <= j < |facts| && ((labels[x] == labels[i] && labels[j] == labels[y]) || (labels[y] == labels[i] && labels[j] == labels[x]))
        ensures b !in facts[j].own
      {
        if labels[j] != labels[i] && b in facts[j].own { IntruderIsRefused(facts, labels, i, q, a, b, labels[j], j); }
      }
      GuardJoins(facts, labels, i, q, b, x, y);
    }
  }

  lemma GuardedClass(facts: seq<Facts>, labels: Labels, i: nat, q: ProviderKey, b: IdentityKey)
    requires Guarded(facts, labels, i, q, b)
    ensures forall j :: 0 <= j < |facts| && labels[j] == labels[i] ==> b !in facts[j].own
  {
  }

  /** What the keys of a class say about the guarded class and the others. */
  lemma GuardedKeys(facts: seq<Facts>, labels: Labels, i: nat, q: ProviderKey, a: IdentityKey, b: IdentityKey, c: nat)
    requires AllFactsGraded(facts) && Guarded(facts, labels, i, q, b) && facts[i].provider == Some(q) && a in facts[i].own
    ensures var keys := ClassKeys(OwnKeys(facts), labels, c);
      && (c == labels[i] ==> Provider(q) in keys && a in keys && b !in keys)
      && (c != labels[i] ==> Provider(q) !in keys)
      && (forall j :: 0 <= j < |facts| && labels[j] == c && b in facts[j].own ==> b in keys)
  {
    var own := OwnKeys(facts);
    assert facts[i] in facts && own[i] == facts[i].own;
    forall j | 0 <= j < |facts| ensures own[j] == facts[j].own && (Provider(q) in own[j] ==> facts[j].provider == Some(q)) {
      assert facts[j] in facts;
    }
  }

  lemma RunOneMore(own: seq<set<IdentityKey>>, labels: Labels, attempts: seq<Attempt>, a: Attempt)
    requires |own| == |labels| && InRange(attempts + [a], |labels|)
    ensures InRange(attempts, |labels|) && a.0 < |labels| && a.1 < |labels|
    ensures Run(own, labels, attempts + [a]) == TryUnion(own, Run(own, labels, attempts), a.0, a.1)
  {
    hide TryUnion;
    var whole := attempts + [a];
    assert whole[..|whole| - 1] == attempts && whole[|whole| - 1] == a;
    assert a in whole;
  }

  lemma {:induction false} GuardLasts(facts: seq<Facts>, first: seq<Attempt>, rest: seq<Attempt>, i: nat, q: ProviderKey, a: IdentityKey, b: IdentityKey)
    requires AllFactsGraded(facts) && i < |facts| && facts[i].provider == Some(q) && a in facts[i].own && Tier(a) == 1 && Tier(b) == 1
    requires InRange(first, |facts|) && InRange(rest, |facts|)
    requires Guarded(facts, Run(OwnKeys(facts), Singletons(|facts|), first), i, q, b)
    ensures InRange(first + rest, |facts|)
    ensures Guarded(facts, Run(OwnKeys(facts), Singletons(|facts|), first + rest), i, q, b)
    decreases |rest|
  {
    var own, start := OwnKeys(facts), Singletons(|facts|);
    hide Guarded, TryUnion, AllSole;
    if rest == [] {
      assert first + rest == first;
    } else {
      var last := |rest| - 1;
      GuardLasts(facts, first, rest[..last], i, q, a, b);
      var whole := first + rest;
      assert whole == (first + rest[..last]) + [rest[last]];
      RunOneMore(own, start, first + rest[..last], rest[last]);
      OwnKeysGraded(facts);
      EveryRunKeepsSoleBestKey(own, first + rest[..last]);
      hide Run, AllFactsGraded, OwnKeys, Singletons;
      GuardHolds(facts, Run(own, start, first + rest[..last]), i, q, a, b, rest[last].0, rest[last].1);
    }
  }

  /** Attempts inside providers keep classes inside providers. */
  lemma {:induction false} ProvidersStayApart(facts: seq<Facts>, attempts: seq<Attempt>)
    requires InRange(attempts, |facts|) && forall a :: a in attempts ==> facts[a.0].provider == facts[a.1].provider
    ensures var labels := Run(OwnKeys(facts), Singletons(|facts|), attempts);
      forall x, y :: 0 <= x < |facts| && 0 <= y < |facts| && labels[x] == labels[y] ==> facts[x].provider == facts[y].provider
    decreases |attempts|
  {
    if attempts != [] {
      var last := |attempts| - 1;
      ProvidersStayApart(facts, attempts[..last]);
      assert attempts[last] in attempts;
      hide PriorityConflict, ClassKeys;
    }
  }

  /** After the pass of its provider key a component is with all of its provider
      and with nobody else. */
  lemma ProviderPassGuards(facts: seq<Facts>, passes: seq<KeyPass>, t: nat, i: nat, q: ProviderKey, b: IdentityKey)
    requires AllFactsGraded(facts) && TierOrdered(passes) && PassesOwned(facts, passes) && t < |passes| && passes[t].key == Provider(q)
    requires i < |facts| && facts[i].provider == Some(q) && !Claims(facts, q, b)
    ensures InRange(PassAttempts(facts, passes[..t + 1]), |facts|)
    ensures Guarded(facts, Run(OwnKeys(facts), Singletons(|facts|), PassAttempts(facts, passes[..t + 1])), i, q, b)
  {
    var first := PassAttempts(facts, passes[..t + 1]);
    PassesAgree(facts, passes[..t + 1]);
    EarlyAttemptsStayInside(facts, passes, t, q);
    ProvidersStayApart(facts, first);
    hide Run, PassAttempts, TierOrdered;
    var labels := Run(OwnKeys(facts), Singletons(|facts|), first);
    forall j | 0 <= j < |facts| && facts[j].provider == Some(q) ensures labels[j] == labels[i] {
      ProviderPassMerges(facts, passes, t, i, j, q);
    }
    forall j | 0 <= j < |facts| && labels[j] == labels[i] ensures b !in facts[j].own {
      assert facts[j].provider == Some(q);
    }
  }

  lemma EarlyAttemptsStayInside(facts: seq<Facts>, passes: seq<KeyPass>, t: nat, q: ProviderKey)
    requires AllFactsGraded(facts) && TierOrdered(passes) && t < |passes| && passes[t].key == Provider(q)
    ensures forall a :: a in PassAttempts(facts, passes[..t + 1]) ==>
      a.0 < |facts| && a.1 < |facts| && facts[a.0].provider == facts[a.1].provider
  {
    PassesAimed(facts, passes[..t + 1]);
    assert forall s :: 0 <= s < t + 1 ==> passes[..t + 1][s] == passes[s] && Tier(passes[s].key) == 0;
    hide PassAttempts, TierOrdered, AllFactsGraded, SearchKeys;
    forall a | a in PassAttempts(facts, passes[..t + 1])
      ensures a.0 < |facts| && a.1 < |facts| && facts[a.0].provider == facts[a.1].provider
    {
      var s :| 0 <= s < t + 1 && Aimed(facts, passes[..t + 1][s].key, a);
      ProviderKeyDecides(facts, passes[s].key, a.0);
      ProviderKeyDecides(facts, passes[s].key, a.1);
    }
  }

  lemma ProviderKeyDecides(facts: seq<Facts>, key: IdentityKey, x: nat)
    requires AllFactsGraded(facts) && x < |facts| && key in SearchKeys(facts[x]) && Tier(key) == 0
    ensures key.Provider? && facts[x].provider == Some(key.key)
  {
    assert facts[x] in facts;
  }

  lemma ProviderPassMerges(facts: seq<Facts>, passes: seq<KeyPass>, t: nat, i: nat, j: nat, q: ProviderKey)
    requires AllFactsGraded(facts) && PassesOwned(facts, passes) && t < |passes| && passes[t].key == Provider(q)
    requires i < |facts| && j < |facts| && facts[i].provider == facts[j].provider == Some(q)
    ensures InRange(PassAttempts(facts, passes[..t + 1]), |facts|)
    ensures var labels := Run(OwnKeys(facts), Singletons(|facts|), PassAttempts(facts, passes[..t + 1])); labels[i] == labels[j]
  {
    var key := Provider(q);
    PassesAgree(facts, passes[..t + 1]);
    assert facts[i] in facts && key in SearchKeys(facts[i]);
    BucketMembership(facts, key, Some(q));
    assert i in Bucket(facts, key, Some(q));
    assert OwnersOf(facts, passes[t].key, passes[t].owners);
    var before, after := PassInside(facts, passes[..t + 1], t, Some(q));
    ProviderBucketMerges(facts, Singletons(|facts|), q, before, after, i, j);
  }

  /** A carrier of a family is grouped with a component of another family only
      when that component's provider claims the family, too. */
  lemma BridgeNeedsClaim(facts: seq<Facts>, passes: seq<KeyPass>, ids: seq<ComponentId>, u: nat, i: nat, q: ProviderKey, a: IdentityKey, b: IdentityKey)
    requires AllFactsGraded(facts) && Schedule(facts, passes, ids) && u < |facts| && i < |facts|
    requires facts[i].provider == Some(q) && a in facts[i].own && b in facts[u].own && Tier(a) == 1 && Tier(b) == 1
    requires !Claims(facts, q, b)
    ensures var labels := Grouping(facts, passes, ids); labels[u] != labels[i]
  {
    var t := ProviderPass(facts, passes, ids, i, q);
    ProviderPassGuards(facts, passes, t, i, q, b);
    var first := PassAttempts(facts, passes[..t + 1]);
    var rest := AttemptsAfter(facts, passes, ids, t + 1);
    AttemptsAgree(facts, passes, ids);
    assert Grouping(facts, passes, ids) == Run(OwnKeys(facts), Singletons(|facts|), first + rest);
    hide PassAttempts, IdAttempts, Attempts, Run, Schedule, Claims, AllFactsGraded, OwnKeys, Singletons, Grouping;
    GuardLasts(facts, first, rest, i, q, a, b);
  }

  lemma ProviderPass(facts: seq<Facts>, passes: seq<KeyPass>, ids: seq<ComponentId>, i: nat, q: ProviderKey) returns (t: nat)
    requires AllFactsGraded(facts) && Schedule(facts, passes, ids) && i < |facts| && facts[i].provider == Some(q)
    ensures t < |passes| && passes[t].key == Provider(q)
  {
    assert facts[i] in facts && Provider(q) in SearchKeys(facts[i]);
    assert Provider(q) in VisitedKeys(passes);
    t :| 0 <= t < |passes| && passes[t].key == Provider(q);
  }

  lemma Regroup(a: seq<Attempt>, b: seq<Attempt>, c: seq<Attempt>, n: nat)
    requires InRange((a + b) + c, n)
    ensures (a + b) + c == a + (b + c) && InRange(a, n) && InRange(b + c, n)
  {
    assert (a + b) + c == a + (b + c);
  }

  lemma AttemptsAfter(facts: seq<Facts>, passes: seq<KeyPass>, ids: seq<ComponentId>, n: nat) returns (rest: seq<Attempt>)
    requires n <= |passes|
    ensures Attempts(facts, passes, ids) == PassAttempts(facts, passes[..n]) + rest
    ensures InRange(PassAttempts(facts, passes[..n]), |facts|) && InRange(rest, |facts|)
  {
    AttemptsAgree(facts, passes, ids);
    hide PassAttempts, IdAttempts, InRange, AllAgree;
    var more := PassPrefix(facts, passes, n);
    rest := more + IdAttempts(facts, ids);
    Regroup(PassAttempts(facts, passes[..n]), more, IdAttempts(facts, ids), |facts|);
  }

  // ---------------------------------------------------------------- the sole claimant is joined

  /** Components without a provider that carry the key. */
  predicate Stray(facts: seq<Facts>, x: nat, b: IdentityKey) {
    x < |facts| && facts[x].provider == None && b in facts[x].own
  }

  predicate OwnedBy(facts: seq<Facts>, x: nat, p: ProviderKey) {
    x < |facts| && facts[x].provider == Some(p)
  }

  /** An attempt that touches a stray is between strays or with the provider. */
  predicate Tame(facts: seq<Facts>, p: ProviderKey, b: IdentityKey, a: Attempt) {
    && (Stray(facts, a.0, b) ==> Stray(facts, a.1, b) || OwnedBy(facts, a.1, p))
    && (Stray(facts, a.1, b) ==> Stray(facts, a.0, b) || OwnedBy(facts, a.0, p))
  }

  /** A class with a stray holds strays alone, or someone of the provider. */
  ghost predicate StraysTame(facts: seq<Facts>, labels: Labels, p: ProviderKey, b: IdentityKey) {
    |labels| == |facts| && forall v :: 0 <= v < |facts| && Stray(facts, v, b) ==> ClassTame(facts, labels, labels[v], p, b)
  }

  ghost predicate ClassTame(facts: seq<Facts>, labels: Labels, c: nat, p: ProviderKey, b: IdentityKey)
    requires |labels| == |facts|
  {
    || (forall x :: 0 <= x < |facts| && labels[x] == c ==> Stray(facts, x, b))
    || (exists o :: 0 <= o < |facts| && labels[o] == c && OwnedBy(facts, o, p))
  }

  lemma JoinKeepsTame(facts: seq<Facts>, labels: Labels, p: ProviderKey, b: IdentityKey, x: nat, y: nat)
    requires StraysTame(facts, labels, p, b) && x < |facts| && y < |facts| && Tame(facts, p, b, (x, y))
    ensures StraysTame(facts, Join(labels, x, y), p, b)
  {
    var after := Join(labels, x, y);
    forall v | 0 <= v < |facts| && Stray(facts, v, b) ensures ClassTame(facts, after, after[v], p, b) {
      assert ClassTame(facts, labels, labels[v], p, b);
      if o :| 0 <= o < |facts| && labels[o] == labels[v] && OwnedBy(facts, o, p) {
        assert after[o] == after[v];
      } else if labels[v] == labels[x] || labels[v] == labels[y] {
        JoinedStrays(facts, labels, p, b, x, y, v);
      } else {
        OtherClassStands(facts, labels, p, b, x, y, v);
      }
    }
  }

  lemma JoinedStrays(facts: seq<Facts>, labels: Labels, p: ProviderKey, b: IdentityKey, x: nat, y: nat, v: nat)
    requires StraysTame(facts, labels, p, b) && x < |facts| && y < |facts| && v < |facts| && Tame(facts, p, b, (x, y))
    requires Stray(facts, v, b) && (labels[v] == labels[x] || labels[v] == labels[y])
    requires forall z :: 0 <= z < |facts| && labels[z] == labels[v] ==> Stray(facts, z, b)
    ensures var after := Join(labels, x, y); ClassTame(facts, after, after[v], p, b)
  {
    var after := Join(labels, x, y);
    var other := if labels[v] == labels[x] then y else x;
    assert after[other] == after[v] == after[x] == after[y];
    assert Stray(facts, x, b) || Stray(facts, y, b);
    if !OwnedBy(facts, other, p) {
      assert Stray(facts, other, b);
      assert ClassTame(facts, labels, labels[other], p, b);
      if o :| 0 <= o < |facts| && labels[o] == labels[other] && OwnedBy(facts, o, p) {
        assert after[o] == after[v];
      } else {
        forall z | 0 <= z < |facts| && after[z] == after[v] ensures Stray(facts, z, b) {
          JoinedFrom(labels, x, y, z);
        }
      }
    }
  }

  /** Whatever lands in the joined class came from one of the two, unless the
      label was there before. */
  lemma JoinedFrom(labels: Labels, x: nat, y: nat, z: nat)
    requires x < |labels| && y < |labels| && z < |labels| && Join(labels, x, y)[z] == Join(labels, x, y)[x]
    ensures labels[z] == labels[x] || labels[z] == labels[y]
  {
  }

  lemma OtherClassStands(facts: seq<Facts>, labels: Labels, p: ProviderKey, b: IdentityKey, x: nat, y: nat, v: nat)
    requires StraysTame(facts, labels, p, b) && x < |facts| && y < |facts| && v < |facts| && Stray(facts, v, b)
    requires labels[v] != labels[x] && labels[v] != labels[y]
    ensures var after := Join(labels, x, y); ClassTame(facts, after, after[v], p, b)
  {
    var after := Join(labels, x, y);
    assert ClassTame(facts, labels, labels[v], p, b);
    assert forall z :: 0 <= z < |facts| ==> (after[z] == after[v] <==> labels[z] == labels[v]);
  }

  lemma {:induction false} TameRunsStayTame(facts: seq<Facts>, attempts: seq<Attempt>, p: ProviderKey, b: IdentityKey)
    requires InRange(attempts, |facts|) && forall a :: a in attempts ==> Tame(facts, p, b, a)
    ensures StraysTame(facts, Run(OwnKeys(facts), Singletons(|facts|), attempts), p, b)
    decreases |attempts|
  {
    if attempts != [] {
      var last := |attempts| - 1;
      var labels := Run(OwnKeys(facts), Singletons(|facts|), attempts[..last]);
      assert attempts[last] in attempts;
      TameRunsStayTame(facts, attempts[..last], p, b);
      TryUnionCases(OwnKeys(facts), labels, attempts[last].0, attempts[last].1);
      hide StraysTame, Tame, TryUnion, PriorityConflict;
      JoinKeepsTame(facts, labels, p, b, attempts[last].0, attempts[last].1);
    }
  }

  /** Up to the pass of a family that one provider claims, attempts are tame. */
  lemma EarlyAttemptsAreTame(facts: seq<Facts>, passes: seq<KeyPass>, t: nat, p: ProviderKey, b: IdentityKey)
    requires AllFactsGraded(facts) && TierOrdered(passes) && t < |passes| && passes[t].key == b && Tier(b) == 1
    requires Claims(facts, p, b) && OneClaimant(facts, b)
    ensures forall a :: a in PassAttempts(facts, passes[..t + 1]) ==> Tame(facts, p, b, a)
  {
    PassesAimed(facts, passes[..t + 1]);
    assert forall s :: 0 <= s < t + 1 ==> passes[..t + 1][s] == passes[s] && Tier(passes[s].key) <= 1;
    hide PassAttempts, TierOrdered;
    forall a | a in PassAttempts(facts, passes[..t + 1]) ensures Tame(facts, p, b, a) {
      var s :| 0 <= s < t + 1 && Aimed(facts, passes[..t + 1][s].key, a);
      AimedIsTame(facts, passes[s].key, a, p, b);
    }
  }

  lemma AimedIsTame(facts: seq<Facts>, key: IdentityKey, a: Attempt, p: ProviderKey, b: IdentityKey)
    requires AllFactsGraded(facts) && Aimed(facts, key, a) && Tier(key) <= 1 && Tier(b) == 1
    requires Claims(facts, p, b) && OneClaimant(facts, b)
    ensures Tame(facts, p, b, a)
  {
    assert facts[a.0] in facts && facts[a.1] in facts;
    if Stray(facts, a.0, b) || Stray(facts, a.1, b) {
      assert key == b;
      if facts[a.1].provider.Some? { assert Claims(facts, facts[a.1].provider.value, b); }
    }
  }

  /** The pass of the family tries the stray with each carrier of the provider. */
  lemma StrayIsTried(facts: seq<Facts>, passes: seq<KeyPass>, t: nat, u: nat, o: nat, p: ProviderKey, b: IdentityKey)
    requires AllFactsGraded(facts) && PassesOwned(facts, passes) && t < |passes| && passes[t].key == b
    requires Stray(facts, u, b) && OwnedBy(facts, o, p) && b in facts[o].own && OneClaimant(facts, b)
    ensures (u, o) in PassAttempts(facts, passes[..t + 1])
  {
    var owners := passes[t].owners;
    assert OwnersOf(facts, b, owners);
    BucketMembership(facts, b, None);
    BucketMembership(facts, b, Some(p));
    var left, right := Bucket(facts, b, None), Bucket(facts, b, Some(p));
    assert facts[u] in facts && facts[o] in facts && u in left && o in right;
    assert None in owners && Some(p) in owners;
    OnlyClaimantOwns(facts, owners, p, b, o);
    hide Bucket, OwnersOf, PassesOwned, AllFactsGraded, OneClaimant, SearchKeys;
    CrossPairsHold(left, right, u, o);
    BridgeIsTried(facts, b, owners, p, (u, o));
    LastPass(facts, passes, t);
    hide KeyAttempts, BridgeAttempts, PassAttempts;
    assert (u, o) in KeyAttempts(facts, passes[t]) by { BridgeOfPass(facts, passes[t], (u, o)); }
  }

  lemma BridgeIsTried(facts: seq<Facts>, b: IdentityKey, owners: seq<Owner>, p: ProviderKey, a: Attempt)
    requires None in owners && Some(p) in owners && forall owner :: owner in owners && owner.Some? ==> owner == Some(p)
    requires a in CrossPairs(Bucket(facts, b, None), Bucket(facts, b, Some(p)))
    ensures a in BridgeAttempts(facts, b, owners)
  {
    hide Bucket, CrossPairs;
    assert Providers(owners) == {Some(p)};
  }

  lemma BridgeOfPass(facts: seq<Facts>, pass: KeyPass, a: Attempt)
    requires a in BridgeAttempts(facts, pass.key, pass.owners)
    ensures a in KeyAttempts(facts, pass)
  {
    hide BridgeAttempts, BucketAttempts;
  }

  lemma LastPass(facts: seq<Facts>, passes: seq<KeyPass>, t: nat)
    requires t < |passes|
    ensures forall a :: a in KeyAttempts(facts, passes[t]) ==> a in PassAttempts(facts, passes[..t + 1])
  {
    hide KeyAttempts;
    assert passes[..t + 1][..t] == passes[..t] && passes[..t + 1][t] == passes[t];
  }

  lemma OnlyClaimantOwns(facts: seq<Facts>, owners: seq<Owner>, p: ProviderKey, b: IdentityKey, o: nat)
    requires AllFactsGraded(facts) && OwnersOf(facts, b, owners) && OwnedBy(facts, o, p) && b in facts[o].own && OneClaimant(facts, b)
    ensures forall owner :: owner in owners && owner.Some? ==> owner == Some(p)
  {
    assert Claims(facts, p, b);
    forall owner | owner in owners && owner.Some? ensures owner == Some(p) {
      BucketMembership(facts, b, owner);
      var x := Bucket(facts, b, owner)[0];
      assert x in Bucket(facts, b, owner);
      assert facts[x] in facts && facts[o] in facts;
      assert Claims(facts, owner.value, b) by { assert b in facts[x].own; }
    }
  }

  /** A tame class cannot conflict with the provider that shares its family. */
  lemma StrayIsAdmitted(facts: seq<Facts>, labels: Labels, u: nat, o: nat, p: ProviderKey, b: IdentityKey)
    requires AllFactsGraded(facts) && StraysTame(facts, labels, p, b) && AllSole(OwnKeys(facts), labels) && Tier(b) == 1
    requires Stray(facts, u, b) && OwnedBy(facts, o, p) && b in facts[o].own
    ensures var after := TryUnion(OwnKeys(facts), labels, u, o); after[u] == after[o]
  {
    var own := OwnKeys(facts);
    var left, right := ClassKeys(own, labels, labels[u]), ClassKeys(own, labels, labels[o]);
    assert facts[o] in facts && own[u] == facts[u].own && own[o] == facts[o].own;
    assert b in left && b in right && Provider(p) in right;
    TameClassKeys(facts, labels, labels[u], u, p, b);
    assert SharesTier(left, right, 1);
    assert Tier(Provider(p)) == 0;
    hide ClassKeys, AllSole, StraysTame, OwnKeys;
    assert HasTier(left, 0) ==> SharesTier(left, right, 0);
    assert !PriorityConflict(left, right);
    TryUnionCases(own, labels, u, o);
  }

  lemma TameClassKeys(facts: seq<Facts>, labels: Labels, c: nat, u: nat, p: ProviderKey, b: IdentityKey)
    requires AllFactsGraded(facts) && StraysTame(facts, labels, p, b) && Stray(facts, u, b) && labels[u] == c
    ensures var keys := ClassKeys(OwnKeys(facts), labels, c); HasTier(keys, 0) ==> Provider(p) in keys
  {
    var own := OwnKeys(facts);
    var keys := ClassKeys(own, labels, c);
    assert ClassTame(facts, labels, c, p, b);
    if o :| 0 <= o < |facts| && labels[o] == c && OwnedBy(facts, o, p) {
      assert facts[o] in facts && Provider(p) in own[o];
    } else {
      StraysHaveNoProvider(facts, labels, c, b);
    }
  }

  lemma StraysHaveNoProvider(facts: seq<Facts>, labels: Labels, c: nat, b: IdentityKey)
    requires AllFactsGraded(facts) && |labels| == |facts|
    requires forall x :: 0 <= x < |facts| && labels[x] == c ==> Stray(facts, x, b)
    ensures !HasTier(ClassKeys(OwnKeys(facts), labels, c), 0)
  {
    forall j | 0 <= j < |facts| && labels[j] == c ensures forall k :: k in OwnKeys(facts)[j] ==> Tier(k) != 0 {
      assert facts[j] in facts && Stray(facts, j, b);
    }
  }

  lemma FamilyPass(facts: seq<Facts>, passes: seq<KeyPass>, ids: seq<ComponentId>, u: nat, b: IdentityKey) returns (t: nat)
    requires Schedule(facts, passes, ids) && u < |facts| && b in facts[u].own
    ensures t < |passes| && passes[t].key == b
  {
    assert facts[u] in facts && b in SearchKeys(facts[u]) && b in VisitedKeys(passes);
    t :| 0 <= t < |passes| && passes[t].key == b;
  }

  lemma ScheduleParts(facts: seq<Facts>, passes: seq<KeyPass>, ids: seq<ComponentId>)
    requires Schedule(facts, passes, ids)
    ensures TierOrdered(passes) && PassesOwned(facts, passes)
  {
  }

  /** A stray ends with the one provider that claims its family. */
  lemma SoleClaimantIsJoined(facts: seq<Facts>, passes: seq<KeyPass>, ids: seq<ComponentId>, u: nat, o: nat, p: ProviderKey, b: IdentityKey)
    requires AllFactsGraded(facts) && Schedule(facts, passes, ids) && Tier(b) == 1
    requires Stray(facts, u, b) && OwnedBy(facts, o, p) && b in facts[o].own && OneClaimant(facts, b)
    ensures var labels := Grouping(facts, passes, ids); labels[u] == labels[o]
  {
    var t := FamilyPass(facts, passes, ids, u, b);
    assert Claims(facts, p, b);
    ScheduleParts(facts, passes, ids);
    hide Schedule, TierOrdered, PassesOwned, OneClaimant, Claims;
    var first := PassAttempts(facts, passes[..t + 1]);
    StrayIsTried(facts, passes, t, u, o, p, b);
    EarlyAttemptsAreTame(facts, passes, t, p, b);
    var rest := AttemptsAfter(facts, passes, ids, t + 1);
    AttemptsAgree(facts, passes, ids);
    assert Grouping(facts, passes, ids) == Run(OwnKeys(facts), Singletons(|facts|), first + rest);
    hide PassAttempts, Attempts, Grouping;
    var n :| 0 <= n < |first| && first[n] == (u, o);
    AttemptJoins(facts, first, n, rest, u, o, p, b);
  }

  lemma AttemptJoins(facts: seq<Facts>, first: seq<Attempt>, n: nat, rest: seq<Attempt>, u: nat, o: nat, p: ProviderKey, b: IdentityKey)
    requires AllFactsGraded(facts) && Tier(b) == 1 && Stray(facts, u, b) && OwnedBy(facts, o, p) && b in facts[o].own
    requires n < |first| && first[n] == (u, o) && forall a :: a in first ==> Tame(facts, p, b, a)
    requires InRange(first, |facts|) && InRange(rest, |facts|)
    ensures InRange(first + rest, |facts|)
    ensures var labels := Run(OwnKeys(facts), Singletons(|facts|), first + rest); labels[u] == labels[o]
  {
    var own, start := OwnKeys(facts), Singletons(|facts|);
    var before, after := first[..n], first[n + 1..] + rest;
    assert first == before + [(u, o)] + first[n + 1..];
    assert first + rest == (before + [(u, o)]) + after;
    assert forall a :: a in before ==> a in first;
    TameRunsStayTame(facts, before, p, b);
    OwnKeysGraded(facts);
    EveryRunKeepsSoleBestKey(own, before);
    hide Run, Tame, StraysTame, AllSole, OwnKeys, AllFactsGraded, AllGraded;
    StrayIsAdmitted(facts, Run(own, start, before), u, o, p, b);
    RunOneMore(own, start, before, (u, o));
    RunSplits(own, start, before + [(u, o)], after);
    RunCoarsens(own, Run(own, start, before + [(u, o)]), after);
  }

  /** Where one provider at most claims a family, a component without a
      provider bridges a family conflict with a package exactly when it is that
      package's provider that claims the family. */
  lemma FamilyConflictIsBridgedExactlyByClaim(facts: seq<Facts>, passes: seq<KeyPass>, ids: seq<ComponentId>, u: nat, i: nat,
                                              q: ProviderKey, a: IdentityKey, b: IdentityKey)
    requires AllFactsGraded(facts) && Schedule(facts, passes, ids)
    requires Stray(facts, u, b) && OwnedBy(facts, i, q) && a in facts[i].own && Tier(a) == 1 && Tier(b) == 1 && OneClaimant(facts, b)
    ensures var labels := Grouping(facts, passes, ids); labels[u] == labels[i] <==> Claims(facts, q, b)
  {
    if Claims(facts, q, b) {
      var o :| 0 <= o < |facts| && facts[o].provider == Some(q) && b in facts[o].own;
      SoleClaimantIsJoined(facts, passes, ids, u, o, q, b);
      ProviderFactsDecideGroups(facts, passes, ids, o, i);
    } else {
      BridgeNeedsClaim(facts, passes, ids, u, i, q, a, b);
    }
  }

  // ---------------------------------------------------------------- an input that bridges

  /** An observed component with a package family and its publisher. */
  function Observed(id: ComponentId, package: Option<(string, string)>, family: string): Component {
    Component(id, Identity(package, if package.Some? then Some("s") else None, Some(family), None, None, Some("p"), None, None), None)
  }

  /** Two packages of one provider in different families, and an observation of
      the second family without a provider. */
  function BridgedComponents(): seq<Component> {
    [Observed(0, Some(("w", "x")), "f"), Observed(1, Some(("w", "x")), "g"), Observed(2, None, "g")]
  }

  lemma LetterIsNormal(c: char)
    requires 'a' <= c <= 'z'
    ensures Normalized(Some([c])) == Some([c])
  {
    assert TrimStart([c]) == [c] && TrimEnd([c]) == [c];
    assert Lower([c]) == [c];
  }

  lemma ObservedFacts(id: ComponentId, packaged: bool, c: char)
    requires 'a' <= c <= 'z'
    ensures var facts := FactsOf(Observed(id, if packaged then Some(("w", "x")) else None, [c]));
      && facts.provider == (if packaged then Some(ProviderKey("w", "s", "x")) else None)
      && PackageFamily([c], "p") in facts.own
  {
    var component := Observed(id, if packaged then Some(("w", "x")) else None, [c]);
    LetterIsNormal('w');
    LetterIsNormal('s');
    LetterIsNormal('x');
    LetterIsNormal('p');
    LetterIsNormal(c);
    hide Normalized;
    assert FamilyKey(component) == Some(PackageFamily([c], "p"));
    FamilyIsCollected(component);
  }

  lemma FamilyIsCollected(component: Component)
    requires FamilyKey(component).Some?
    ensures FamilyKey(component).value in KeysWithoutFallback(component)
  {
    hide FamilyKey, SignedKey, ProductKey, ExecutableKey, ProviderTierKey;
    var keys := [ProviderTierKey(component), FamilyKey(component), SignedKey(component), ProductKey(component), ExecutableKey(component)];
    assert keys[1].value in Collect(keys);
  }

  lemma DifferentFamiliesConflict(one: Facts, other: Facts, a: IdentityKey, b: IdentityKey)
    requires Graded(one) && Graded(other) && other.provider == None && a in one.own && b in other.own
    requires Tier(a) == 1 && Tier(b) == 1 && a != b
    ensures PriorityConflict(one.own, other.own)
  {
    assert HasTier(one.own, 1) && HasTier(other.own, 1);
    assert !SharesTier(one.own, other.own, 0) && !SharesTier(one.own, other.own, 1);
  }

  lemma BridgedFacts()
    ensures var facts := AllFacts(BridgedComponents());
      var a, b := PackageFamily("f", "p"), PackageFamily("g", "p");
      && |facts| == 3 && facts[2].provider == None
      && facts[0].provider == Some(ProviderKey("w", "s", "x")) && facts[1].provider == Some(ProviderKey("w", "s", "x"))
      && a in facts[0].own && b in facts[1].own && b in facts[2].own
  {
    ObservedFacts(0, true, 'f');
    ObservedFacts(1, true, 'g');
    ObservedFacts(2, false, 'g');
    hide FactsOf;
  }

  /** Three facts of that shape: grouped, though the outer two conflict. */
  lemma BridgedShape(facts: seq<Facts>, passes: seq<KeyPass>, ids: seq<ComponentId>, q: ProviderKey, a: IdentityKey, b: IdentityKey)
    requires |facts| == 3 && AllFactsGraded(facts) && Schedule(facts, passes, ids) && Tier(a) == 1 && Tier(b) == 1
    requires facts[0].provider == Some(q) && facts[1].provider == Some(q) && facts[2].provider == None
    requires a in facts[0].own && b in facts[1].own && b in facts[2].own
    ensures var labels := Grouping(facts, passes, ids); labels[0] == labels[2]
  {
    hide Schedule, AllFactsGraded, Grouping;
    assert Claims(facts, q, b);
    assert forall p :: Claims(facts, p, b) ==> p == q;
    FamilyConflictIsBridgedExactlyByClaim(facts, passes, ids, 2, 0, q, a, b);
  }

  /** The exception is real: whatever order keys are visited in, the first and
      the last of these components share a group although their best facts
      conflict. */
  lemma FamilyConflictIsBridged()
    ensures var facts := AllFacts(BridgedComponents());
      && |facts| == 3 && PriorityConflict(facts[0].own, facts[2].own)
      && forall passes, ids :: Schedule(facts, passes, ids) ==> var labels := Grouping(facts, passes, ids); labels[0] == labels[2]
  {
    var facts := AllFacts(BridgedComponents());
    var q, a, b := ProviderKey("w", "s", "x"), PackageFamily("f", "p"), PackageFamily("g", "p");
    BridgedFacts();
    assert AllFactsGraded(facts) && facts[0] in facts && facts[2] in facts;
    assert a != b by { assert "f"[0] != "g"[0]; }
    hide AllFacts, BridgedComponents, Schedule, Grouping;
    DifferentFamiliesConflict(facts[0], facts[2], a, b);
    forall passes, ids | Schedule(facts, passes, ids)
      ensures var labels := Grouping(facts, passes, ids); labels[0] == labels[2]
    {
      BridgedShape(facts, passes, ids, q, a, b);
    }
  }
}
