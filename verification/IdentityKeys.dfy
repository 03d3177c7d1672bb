/** Identity facts of an observed component and the tiered keys derived from
    them (crates/reforge-discovery/src/dedup.rs). */
module IdentityKeys {
  import opened Wrappers
  import opened Characters

  type ComponentId = nat

  datatype Identity = Identity(
    providerPackage: Option<(string, string)>,
    providerSource: Option<string>,
    packageFamily: Option<string>,
    productName: Option<string>,
    executableName: Option<string>,
    publisher: Option<string>,
    executableHash: Option<string>,
    installRole: Option<string>)

  datatype Publisher = Publisher(name: string, certificateThumbprint: Option<string>)

  datatype Component = Component(id: ComponentId, identity: Identity, publisher: Option<Publisher>)

  datatype ProviderKey = ProviderKey(provider: string, source: string, package: string)

  datatype IdentityKey =
    | Provider(key: ProviderKey)
    | PackageFamily(family: string, publisher: string)
    | SignedProduct(product: string, certificate: string)
    | ExecutableProduct(product: string, publisher: string, installRole: string)
    | LocalExecutable(executable: string, hash: string)
    | Opaque(id: ComponentId)

  const OPAQUE_TIER: nat := 255

  function Tier(key: IdentityKey): nat {
    match key
    case Provider(_) => 0
    case PackageFamily(_, _) => 1
    case SignedProduct(_, _) => 2
    case ExecutableProduct(_, _, _) => 3
    case LocalExecutable(_, _) => 4
    case Opaque(_) => OPAQUE_TIER
  }

  // ---------------------------------------------------------------- text

  predicate IsSpace(c: char) {
    c == ' ' || '\U{09}' <= c <= '\U{0D}'
  }

  function TrimStart(s: string): string {
    if s != [] && IsSpace(s[0]) then TrimStart(s[1..]) else s
  }

  function TrimEnd(s: string): string {
    if s != [] && IsSpace(s[|s| - 1]) then TrimEnd(s[..|s| - 1]) else s
  }

  /** The normal form of an identity fact; absent, blank and control-bearing
      facts have none. */
  function Normalized(value: Option<string>): Option<string> {
    match value
    case None => None
    case Some(raw) =>
      var text := Lower(TrimEnd(TrimStart(raw)));
      if text == [] || HasControl(text) then None else Some(text)
  }

  // ---------------------------------------------------------------- keys

  function ProviderKeyOf(component: Component): Option<ProviderKey> {
    match component.identity.providerPackage
    case None => None
    case Some((provider, package)) =>
      match (Normalized(Some(provider)), Normalized(component.identity.providerSource), Normalized(Some(package)))
      case (Some(p), Some(s), Some(k)) => Some(ProviderKey(p, s, k))
      case _ => None
  }

  function PublisherName(component: Component): Option<string> {
    var signed := if component.publisher.Some? then Normalized(Some(component.publisher.value.name)) else None;
    if signed.Some? then signed else Normalized(component.identity.publisher)
  }

  function Certificate(component: Component): Option<string> {
    if component.publisher.Some? then Normalized(component.publisher.value.certificateThumbprint) else None
  }

  function FamilyKey(component: Component): (key: Option<IdentityKey>)
    ensures key.Some? ==> Tier(key.value) == 1
  {
    match (Normalized(component.identity.packageFamily), PublisherName(component))
    case (Some(family), Some(publisher)) => Some(PackageFamily(family, publisher))
    case _ => None
  }

  function SignedKey(component: Component): (key: Option<IdentityKey>)
    ensures key.Some? ==> Tier(key.value) == 2
  {
    match (Normalized(component.identity.productName), Certificate(component))
    case (Some(product), Some(certificate)) => Some(SignedProduct(product, certificate))
    case _ => None
  }

  function ProductKey(component: Component): (key: Option<IdentityKey>)
    ensures key.Some? ==> Tier(key.value) == 3
  {
    match (Normalized(component.identity.productName), PublisherName(component), Normalized(component.identity.installRole))
    case (Some(product), Some(publisher), Some(role)) => Some(ExecutableProduct(product, publisher, role))
    case _ => None
  }

  function ExecutableKey(component: Component): (key: Option<IdentityKey>)
    ensures key.Some? ==> Tier(key.value) == 4
  {
    match (Normalized(component.identity.executableName), Normalized(component.identity.executableHash))
    case (Some(executable), Some(hash)) => Some(LocalExecutable(executable, hash))
    case _ => None
  }

  function AsSet<T>(value: Option<T>): set<T> {
    if value.Some? then {value.value} else {}
  }

  function ProviderTierKey(component: Component): (key: Option<IdentityKey>)
    ensures key.Some? ==> Tier(key.value) == 0
  {
    match ProviderKeyOf(component)
    case Some(provider) => Some(Provider(provider))
    case None => None
  }

  function Collect(keys: seq<Option<IdentityKey>>): set<IdentityKey> {
    set i | 0 <= i < |keys| && keys[i].Some? :: keys[i].value
  }

  /** The keys that take part in conflict checks. */
  function KeysWithoutFallback(component: Component): set<IdentityKey> {
    Collect([ProviderTierKey(component), FamilyKey(component), SignedKey(component),
             ProductKey(component), ExecutableKey(component)])
  }

  lemma CollectedKeysAreGraded(keys: seq<Option<IdentityKey>>)
    requires forall i :: 0 <= i < |keys| && keys[i].Some? ==> Tier(keys[i].value) == i
    ensures forall k :: k in Collect(keys) ==> Tier(k) < |keys|
    ensures forall k, l :: k in Collect(keys) && l in Collect(keys) && Tier(k) == Tier(l) ==> k == l
    ensures forall k :: k in Collect(keys) && Tier(k) == 0 ==> |keys| > 0 && keys[0] == Some(k)
    ensures |keys| > 0 && keys[0].Some? ==> keys[0].value in Collect(keys)
  {
  }

  /** A component carries at most one key on each of the tiers 0 to 4, and its
      tier-0 key is its provider key. */
  lemma OneKeyPerTier(component: Component)
    ensures forall k :: k in KeysWithoutFallback(component) ==> Tier(k) <= 4
    ensures forall k, l :: k in KeysWithoutFallback(component) && l in KeysWithoutFallback(component) && Tier(k) == Tier(l) ==> k == l
    ensures forall p :: Provider(p) in KeysWithoutFallback(component) <==> ProviderKeyOf(component) == Some(p)
  {
    CollectedKeysAreGraded([ProviderTierKey(component), FamilyKey(component), SignedKey(component),
                            ProductKey(component), ExecutableKey(component)]);
    forall p ensures Provider(p) in KeysWithoutFallback(component) <==> ProviderKeyOf(component) == Some(p) {
      assert Tier(Provider(p)) == 0;
    }
  }

  /** What grouping needs to know about a component. */
  datatype Facts = Facts(id: ComponentId, provider: Option<ProviderKey>, own: set<IdentityKey>)

  /** One key at most on each of the tiers 0 to 4, the provider key on tier 0. */
  predicate Graded(facts: Facts) {
    && (forall k :: k in facts.own ==> Tier(k) <= 4)
    && (forall k, l :: k in facts.own && l in facts.own && Tier(k) == Tier(l) ==> k == l)
    && (forall k :: k in facts.own && k.Provider? ==> facts.provider == Some(k.key))
    && (facts.provider.Some? ==> Provider(facts.provider.value) in facts.own)
  }

  function FactsOf(component: Component): (facts: Facts)
    ensures Graded(facts) && facts.id == component.id && facts.provider == ProviderKeyOf(component)
  {
    OneKeyPerTier(component);
    Facts(component.id, ProviderKeyOf(component), KeysWithoutFallback(component))
  }

  /** Every key used to look for merge candidates, with the component's own ID
      standing in when no fact is usable. */
  function SearchKeys(facts: Facts): set<IdentityKey> {
    if facts.own == {} then {Opaque(facts.id)} else facts.own
  }

  // ---------------------------------------------------------------- conflicts

  /** The two key sets carry a common key on this tier. */
  ghost predicate SharesTier(left: set<IdentityKey>, right: set<IdentityKey>, tier: nat) {
    exists k :: k in left && k in right && Tier(k) == tier
  }

  ghost predicate HasTier(keys: set<IdentityKey>, tier: nat) {
    exists k :: k in keys && Tier(k) == tier
  }

  /** Some tier is inhabited on both sides by different facts, and no better
      tier agrees. */
  ghost predicate PriorityConflict(left: set<IdentityKey>, right: set<IdentityKey>) {
    exists tier :: 0 <= tier <= 4 && HasTier(left, tier) && HasTier(right, tier)
      && forall better :: 0 <= better <= tier ==> !SharesTier(left, right, better)
  }

  method IdentityPriorityConflicts(left: set<IdentityKey>, right: set<IdentityKey>) returns (conflict: bool)
    ensures conflict <==> PriorityConflict(left, right)
  {
    var sharedHigherIdentity := false;
    for tier := 0 to 5
      invariant sharedHigherIdentity <==> exists better :: 0 <= better < tier && SharesTier(left, right, better)
      invariant forall t | 0 <= t < tier && HasTier(left, t) && HasTier(right, t) ::
        (exists better :: 0 <= better <= t && SharesTier(left, right, better))
    {
      var leftKeys := set k | k in left && Tier(k) == tier;
      var rightKeys := set k | k in right && Tier(k) == tier;
      var sharedIdentity := exists k :: k in leftKeys && k in rightKeys;
      assert sharedIdentity <==> SharesTier(left, right, tier) by {
        assert forall k :: k in leftKeys && k in rightKeys <==> k in left && k in right && Tier(k) == tier;
      }
      assert leftKeys != {} <==> HasTier(left, tier) by {
        if leftKeys != {} { var k :| k in leftKeys; assert k in left && Tier(k) == tier; }
        if HasTier(left, tier) { var k :| k in left && Tier(k) == tier; assert k in leftKeys; }
      }
      assert rightKeys != {} <==> HasTier(right, tier) by {
        if rightKeys != {} { var k :| k in rightKeys; assert k in right && Tier(k) == tier; }
        if HasTier(right, tier) { var k :| k in right && Tier(k) == tier; assert k in rightKeys; }
      }
      if leftKeys != {} && rightKeys != {} && !sharedIdentity && !sharedHigherIdentity {
        return true;
      }
      sharedHigherIdentity := sharedHigherIdentity || sharedIdentity;
    }
    return false;
  }

  /** Two facts may stand side by side on one tier only below a better tier:
      the best inhabited tier of the set carries exactly one key. */
  ghost predicate SoleBestKey(keys: set<IdentityKey>) {
    forall k, l :: k in keys && l in keys && k != l && Tier(k) == Tier(l)
      ==> exists better :: better in keys && Tier(better) < Tier(k)
  }

  lemma CompatibleUnionKeepsSoleBestKey(left: set<IdentityKey>, right: set<IdentityKey>)
    requires SoleBestKey(left) && SoleBestKey(right)
    requires forall k :: k in left + right ==> Tier(k) <= 4
    requires !PriorityConflict(left, right)
    ensures SoleBestKey(left + right)
  {
    forall k, l | k in left + right && l in left + right && k != l && Tier(k) == Tier(l)
      ensures exists better :: better in left + right && Tier(better) < Tier(k)
    {
      if !((k in left && l in left) || (k in right && l in right)) {
        assert HasTier(left, Tier(k)) && HasTier(right, Tier(k));
        var tier :| 0 <= tier <= Tier(k) && SharesTier(left, right, tier);
        var shared :| shared in left && shared in right && Tier(shared) == tier;
      }
    }
  }

  /** Agreement on the provider tier silences every lower tier. */
  lemma SharedProviderNeverConflicts(left: set<IdentityKey>, right: set<IdentityKey>, provider: ProviderKey)
    requires Provider(provider) in left && Provider(provider) in right
    ensures !PriorityConflict(left, right)
  {
    assert SharesTier(left, right, 0);
  }
}
