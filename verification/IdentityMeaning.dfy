/** What identity keys say of the texts a component was observed with, and what
    groups then say (crates/reforge-discovery/src/dedup.rs). */
module IdentityMeaning {
  import opened Wrappers
  import opened Characters
  import opened TextMeaning
  import opened IdentityKeys
  import opened Partition
  import opened Dedup

  // ---------------------------------------------------------------- facts

  /** Space and the five control characters that count as space. */
  predicate Space(c: char) {
    c as int == 32 || 9 <= c as int <= 13
  }

  /** What is left of a text without the space around it. */
  ghost predicate Core(text: string, from: nat, to: nat) {
    && from < to <= |text| && !Space(text[from]) && !Space(text[to - 1])
    && (forall k :: 0 <= k < from ==> Space(text[k]))
    && (forall k :: to <= k < |text| ==> Space(text[k]))
  }

  /** A text that states a fact: something between the outer space, and no
      control character in it. */
  ghost predicate States(text: string) {
    exists from: nat, to: nat :: Core(text, from, to) && forall k :: from <= k < to ==> !ControlCode(text[k])
  }

  /** Two texts agree up to letter case and outer space. */
  ghost predicate SameFact(s: string, t: string) {
    exists i: nat, j: nat, k: nat, l: nat :: Core(s, i, j) && Core(t, k, l) && SameUpToCase(s[i..j], t[k..l])
  }

  lemma CoreIsUnique(text: string, i: nat, j: nat, k: nat, l: nat)
    requires Core(text, i, j) && Core(text, k, l)
    ensures i == k && j == l
  {
    assert Space(text[i]) || i >= k;
    assert Space(text[j - 1]) || j <= l;
  }

  lemma {:induction false} TrimStartMeaning(s: string) returns (from: nat)
    ensures from <= |s| && TrimStart(s) == s[from..] && (from < |s| ==> !Space(s[from]))
    ensures forall k :: 0 <= k < from ==> Space(s[k])
  {
    from := 0;
    if s != [] && IsSpace(s[0]) {
      var rest := TrimStartMeaning(s[1..]);
      from := rest + 1;
      assert s[1..][rest..] == s[from..];
      forall k | 0 <= k < from ensures Space(s[k]) { assert k > 0 ==> s[k] == s[1..][k - 1]; }
    }
  }

  lemma {:induction false} TrimEndMeaning(s: string) returns (to: nat)
    ensures to <= |s| && TrimEnd(s) == s[..to] && (to > 0 ==> !Space(s[to - 1]))
    ensures forall k :: to <= k < |s| ==> Space(s[k])
  {
    to := |s|;
    if s != [] && IsSpace(s[|s| - 1]) {
      to := TrimEndMeaning(s[..|s| - 1]);
      assert s[..|s| - 1][..to] == s[..to];
    }
  }

  /** Trimming leaves the core, or nothing of a blank text. */
  lemma TrimMeaning(s: string) returns (from: nat, to: nat)
    ensures from <= to <= |s| && TrimEnd(TrimStart(s)) == s[from..to]
    ensures from < to ==> Core(s, from, to)
    ensures from == to ==> forall k :: 0 <= k < |s| ==> Space(s[k])
  {
    from := TrimStartMeaning(s);
    var rest := s[from..];
    var n := TrimEndMeaning(rest);
    to := from + n;
    assert rest[..n] == s[from..to];
    forall k | to <= k < |s| ensures Space(s[k]) { assert s[k] == rest[k - from]; }
    if n > 0 { assert s[to - 1] == rest[n - 1] && !Space(s[from]); }
  }

  lemma FormOf(s: string) returns (from: nat, to: nat)
    ensures Normalized(Some(s)).Some? <==> States(s)
    ensures States(s) ==> Core(s, from, to) && Normalized(Some(s)) == Some(Lower(s[from..to]))
    ensures States(s) ==> forall k :: from <= k < to ==> !ControlCode(s[k])
  {
    from, to := TrimMeaning(s);
    var text := s[from..to];
    hide TrimStart, TrimEnd;
    LowerControls(text);
    if from < to {
      if States(s) {
        var i: nat, j: nat :| Core(s, i, j) && forall k :: i <= k < j ==> !ControlCode(s[k]);
        CoreIsUnique(s, from, to, i, j);
      }
      assert forall k :: 0 <= k < |text| ==> text[k] == s[from + k];
      assert (forall k :: from <= k < to ==> !ControlCode(s[k])) <==> forall k :: 0 <= k < |text| ==> !ControlCode(text[k]) by {
        if forall k :: 0 <= k < |text| ==> !ControlCode(text[k]) {
          forall k | from <= k < to ensures !ControlCode(s[k]) { assert text[k - from] == s[k]; }
        }
      }
    }
  }

  lemma LowerControls(s: string)
    ensures HasControl(Lower(s)) <==> exists k :: 0 <= k < |s| && ControlCode(s[k])
    ensures |Lower(s)| == |s|
  {
    forall k | 0 <= k < |s| ensures IsControl(Lower(s)[k]) <==> ControlCode(s[k]) {
      LowerCharMeaning(s[k], s[k]);
      LowerCharMeaning(LowerChar(s[k]), s[k]);
    }
  }

  /** Normal forms are the facts themselves: a text has one exactly when it
      states something, two agree exactly when the texts do up to case and outer
      space, and none holds a capital, a control or outer space. */
  lemma NormalizedMeaning(s: string, t: string)
    ensures Normalized(Some(s)).Some? <==> States(s)
    ensures States(s) && States(t) ==> (Normalized(Some(s)) == Normalized(Some(t)) <==> SameFact(s, t))
    ensures States(s) ==> var n := Normalized(Some(s)).value;
      Core(n, 0, |n|) && SameFact(s, n) && forall k :: 0 <= k < |n| ==> !UpperCase(n[k]) && !ControlCode(n[k])
  {
    var i, j := FormOf(s);
    var k, l := FormOf(t);
    hide Normalized, Lower;
    if States(s) {
      LowerMeaning(s[i..j], s[i..j]);
      NormalIsCore(s, i, j, Lower(s[i..j]));
      if States(t) {
        LowerMeaning(s[i..j], t[k..l]);
        forall i', j', k', l' | Core(s, i', j') && Core(t, k', l') ensures i' == i && j' == j && k' == k && l' == l {
          CoreIsUnique(s, i, j, i', j');
          CoreIsUnique(t, k, l, k', l');
        }
      }
    }
  }

  lemma NormalIsCore(s: string, i: nat, j: nat, n: string)
    requires Core(s, i, j) && SameUpToCase(s[i..j], n) && forall k :: i <= k < j ==> !ControlCode(s[k])
    ensures Core(n, 0, |n|) && SameFact(s, n) && forall k :: 0 <= k < |n| ==> !ControlCode(n[k])
  {
    forall k | 0 <= k < |n| ensures !ControlCode(n[k]) && (Space(n[k]) <==> Space(s[i + k])) {
      assert SameLetter(s[i..j][k], n[k]);
    }
    assert n[0..|n|] == n;
  }

  // ---------------------------------------------------------------- facts of a component

  ghost predicate Stated(value: Option<string>) {
    value.Some? && States(value.value)
  }

  ghost predicate SameStated(value: Option<string>, other: Option<string>) {
    Stated(value) && Stated(other) && SameFact(value.value, other.value)
  }

  /** The name of a verified publisher counts before the stated one. */
  ghost function PublisherText(c: Component): Option<string> {
    if c.publisher.Some? && States(c.publisher.value.name) then Some(c.publisher.value.name) else c.identity.publisher
  }

  /** The texts that together make the fact of a tier: provider package, package
      family, signed product, installed product, local executable. */
  ghost function Texts(c: Component, tier: nat): (texts: seq<Option<string>>)
    requires tier <= 4
  {
    var identity := c.identity;
    if tier == 0 then
      match identity.providerPackage
      case Some((provider, package)) => [Some(provider), identity.providerSource, Some(package)]
      case None => [None, identity.providerSource, None]
    else if tier == 1 then [identity.packageFamily, PublisherText(c)]
    else if tier == 2 then [identity.productName, if c.publisher.Some? then c.publisher.value.certificateThumbprint else None]
    else if tier == 3 then [identity.productName, PublisherText(c), identity.installRole]
    else [identity.executableName, identity.executableHash]
  }

  ghost predicate Carries(c: Component, tier: nat)
    requires tier <= 4
  {
    forall value :: value in Texts(c, tier) ==> Stated(value)
  }

  /** Both components carry the same fact of the tier. */
  ghost predicate AgreeOn(c: Component, d: Component, tier: nat)
    requires tier <= 4
  {
    |Texts(c, tier)| == |Texts(d, tier)|
    && forall i :: 0 <= i < |Texts(c, tier)| ==> SameStated(Texts(c, tier)[i], Texts(d, tier)[i])
  }

  ghost function Forms(texts: seq<Option<string>>): (forms: seq<Option<string>>)
    ensures |forms| == |texts| && forall i :: 0 <= i < |texts| ==> forms[i] == Normalized(texts[i])
  {
    seq(|texts|, i requires 0 <= i < |texts| => Normalized(texts[i]))
  }

  function KeyAt(c: Component, tier: nat): Option<IdentityKey>
    requires tier <= 4
  {
    [ProviderTierKey(c), FamilyKey(c), SignedKey(c), ProductKey(c), ExecutableKey(c)][tier]
  }

  lemma PublisherForm(c: Component)
    ensures PublisherName(c) == Normalized(PublisherText(c))
  {
    if c.publisher.Some? { NormalizedMeaning(c.publisher.value.name, ""); }
  }

  /** The key of a tier is made of the normal forms of its texts. */
  lemma KeyOfForms(c: Component, d: Component, tier: nat)
    requires tier <= 4
    ensures KeyAt(c, tier).Some? <==> None !in Forms(Texts(c, tier))
    ensures KeyAt(c, tier).Some? && KeyAt(d, tier).Some?
      ==> (KeyAt(c, tier) == KeyAt(d, tier) <==> Forms(Texts(c, tier)) == Forms(Texts(d, tier)))
  {
    PublisherForm(c);
    PublisherForm(d);
    hide Normalized, PublisherName, PublisherText;
    KeyText(c, tier);
    KeyText(d, tier);
    hide KeyAt, Texts;
  }

  /** Joins normal forms to a key, or nothing when one is missing. */
  function KeyFrom(forms: seq<Option<string>>, tier: nat): Option<IdentityKey>
    requires tier <= 4 && |forms| == (if tier in {0, 3} then 3 else 2)
  {
    if None in forms then None
    else if tier == 0 then Some(Provider(ProviderKey(forms[0].value, forms[1].value, forms[2].value)))
    else if tier == 1 then Some(PackageFamily(forms[0].value, forms[1].value))
    else if tier == 2 then Some(SignedProduct(forms[0].value, forms[1].value))
    else if tier == 3 then Some(ExecutableProduct(forms[0].value, forms[1].value, forms[2].value))
    else Some(LocalExecutable(forms[0].value, forms[1].value))
  }

  lemma KeyText(c: Component, tier: nat)
    requires tier <= 4
    ensures |Texts(c, tier)| == if tier in {0, 3} then 3 else 2
    ensures KeyAt(c, tier) == KeyFrom(Forms(Texts(c, tier)), tier)
  {
    PublisherForm(c);
    hide PublisherName, PublisherText;
    assert Normalized(None) == None;
    hide Normalized;
    var forms := Forms(Texts(c, tier));
    if tier == 0 {
      assert None in forms <==> forms[0] == None || forms[1] == None || forms[2] == None;
    } else if tier == 3 {
      assert None in forms <==> forms[0] == None || forms[1] == None || forms[2] == None;
    } else {
      assert None in forms <==> forms[0] == None || forms[1] == None;
    }
  }

  lemma KeyIsCollected(c: Component, tier: nat, k: IdentityKey)
    requires tier <= 4
    ensures k in KeysWithoutFallback(c) && Tier(k) == tier <==> KeyAt(c, tier) == Some(k)
  {
    var keys := [ProviderTierKey(c), FamilyKey(c), SignedKey(c), ProductKey(c), ExecutableKey(c)];
    hide ProviderTierKey, FamilyKey, SignedKey, ProductKey, ExecutableKey;
    assert k in Collect(keys) <==> exists i :: 0 <= i < |keys| && keys[i] == Some(k);
    assert forall i :: 0 <= i < |keys| && keys[i].Some? ==> Tier(keys[i].value) == i;
  }

  /** Keys by field: a component has a key on a tier exactly when each of its
      texts states something, and two share it exactly when all texts agree up to
      letter case and outer space. */
  lemma KeyMeaning(c: Component, d: Component, tier: nat)
    requires tier <= 4
    ensures HasTier(KeysWithoutFallback(c), tier) <==> Carries(c, tier)
    ensures SharesTier(KeysWithoutFallback(c), KeysWithoutFallback(d), tier) <==> AgreeOn(c, d, tier)
  {
    KeyOfForms(c, d, tier);
    KeyOfForms(d, c, tier);
    KeyText(c, tier);
    KeyText(d, tier);
    FormsMeaning(Texts(c, tier), Texts(d, tier));
    forall k ensures k in KeysWithoutFallback(c) && Tier(k) == tier <==> KeyAt(c, tier) == Some(k) { KeyIsCollected(c, tier, k); }
    forall k ensures k in KeysWithoutFallback(d) && Tier(k) == tier <==> KeyAt(d, tier) == Some(k) { KeyIsCollected(d, tier, k); }
    hide KeyAt, Texts, Forms, KeysWithoutFallback, Stated, SameStated, KeyFrom;
    assert HasTier(KeysWithoutFallback(c), tier) <==> KeyAt(c, tier).Some?;
    assert SharesTier(KeysWithoutFallback(c), KeysWithoutFallback(d), tier) <==> KeyAt(c, tier).Some? && KeyAt(c, tier) == KeyAt(d, tier);
  }

  lemma FormsMeaning(texts: seq<Option<string>>, others: seq<Option<string>>)
    requires |texts| == |others|
    ensures None !in Forms(texts) <==> forall value :: value in texts ==> Stated(value)
    ensures (None !in Forms(texts) && None !in Forms(others) && Forms(texts) == Forms(others))
      <==> forall i :: 0 <= i < |texts| ==> SameStated(texts[i], others[i])
  {
    assert Normalized(None) == None;
    forall i | 0 <= i < |texts|
      ensures Forms(texts)[i].Some? <==> Stated(texts[i])
      ensures Forms(others)[i].Some? <==> Stated(others[i])
      ensures (Forms(texts)[i].Some? && Forms(texts)[i] == Forms(others)[i]) <==> SameStated(texts[i], others[i])
    {
      TextMeaningOf(texts[i], others[i]);
    }
    hide Normalized, Stated;
    assert None !in Forms(texts) <==> forall i :: 0 <= i < |texts| ==> Forms(texts)[i].Some?;
    assert None !in Forms(others) <==> forall i :: 0 <= i < |texts| ==> Forms(others)[i].Some?;
  }

  lemma TextMeaningOf(value: Option<string>, other: Option<string>)
    ensures Normalized(value).Some? <==> Stated(value)
    ensures Normalized(other).Some? <==> Stated(other)
    ensures Normalized(value).Some? && Normalized(value) == Normalized(other) <==> SameStated(value, other)
  {
    hide Normalized;
    assert Normalized(None) == None by { NoneHasNoForm(); }
    if value.Some? { NormalizedMeaning(value.value, ""); }
    if other.Some? { NormalizedMeaning(other.value, ""); }
    if value.Some? && other.Some? { NormalizedMeaning(value.value, other.value); }
  }

  lemma NoneHasNoForm()
    ensures Normalized(None) == None
  {
  }

  // ---------------------------------------------------------------- conflicts and groups

  /** Components conflict when they carry different facts of a tier and agree on
      none that is better. */
  lemma ConflictMeaning(c: Component, d: Component)
    ensures PriorityConflict(KeysWithoutFallback(c), KeysWithoutFallback(d)) <==>
      exists tier: nat :: tier <= 4 && Carries(c, tier) && Carries(d, tier) && forall better: nat :: better <= tier ==> !AgreeOn(c, d, better)
  {
    forall tier: nat | tier <= 4
      ensures HasTier(KeysWithoutFallback(c), tier) <==> Carries(c, tier)
      ensures HasTier(KeysWithoutFallback(d), tier) <==> Carries(d, tier)
      ensures SharesTier(KeysWithoutFallback(c), KeysWithoutFallback(d), tier) <==> AgreeOn(c, d, tier)
    {
      KeyMeaning(c, d, tier);
      KeyMeaning(d, c, tier);
    }
    hide Carries, AgreeOn, KeysWithoutFallback, HasTier, SharesTier;
  }

  /** What groups rest on: the very same ID, or agreement on one of the five
      facts. */
  lemma AgreeMeaning(components: seq<Component>, i: nat, j: nat)
    requires i < |components| && j < |components|
    ensures Agree(AllFacts(components), i, j) <==>
      components[i].id == components[j].id || exists tier: nat :: tier <= 4 && AgreeOn(components[i], components[j], tier)
  {
    var c, d, facts := components[i], components[j], AllFacts(components);
    forall tier: nat | tier <= 4 ensures SharesTier(KeysWithoutFallback(c), KeysWithoutFallback(d), tier) <==> AgreeOn(c, d, tier) {
      KeyMeaning(c, d, tier);
    }
    FactsOfComponent(c);
    FactsOfComponent(d);
    assert facts[i] == FactsOf(c) && facts[j] == FactsOf(d);
    hide AgreeOn, KeysWithoutFallback, FactsOf, AllFacts;
    SharedKeysAreFacts(facts[i], facts[j]);
  }

  lemma FactsOfComponent(c: Component)
    ensures FactsOf(c).own == KeysWithoutFallback(c)
  {
  }

  /** Candidates are looked up by a component's facts; its own ID stands in
      exactly when it has none. */
  lemma SearchKeysMeaning(c: Component, k: IdentityKey)
    ensures k in SearchKeys(FactsOf(c)) <==>
      if k.Opaque? then k.id == c.id && (forall tier: nat :: tier <= 4 ==> !Carries(c, tier)) else k in KeysWithoutFallback(c)
  {
    FactsOfComponent(c);
    OneKeyPerTier(c);
    var own := KeysWithoutFallback(c);
    forall tier: nat | tier <= 4 ensures HasTier(own, tier) <==> Carries(c, tier) { KeyMeaning(c, c, tier); }
    hide Carries, KeysWithoutFallback, FactsOf;
    if own != {} {
      var l :| l in own;
      assert HasTier(own, Tier(l));
    }
    assert k.Opaque? ==> k !in own;
  }

  lemma SharedKeysAreFacts(f: Facts, g: Facts)
    requires Graded(f) && Graded(g)
    ensures f.id == g.id || (exists k :: k in SearchKeys(f) && k in SearchKeys(g)) <==>
      f.id == g.id || exists tier: nat :: tier <= 4 && SharesTier(f.own, g.own, tier)
  {
    if k :| k in SearchKeys(f) && k in SearchKeys(g) {
      if k !in f.own || k !in g.own {
        assert k.Opaque?;
      } else {
        assert SharesTier(f.own, g.own, Tier(k));
      }
    }
    if tier: nat :| tier <= 4 && SharesTier(f.own, g.own, tier) {
      var k :| k in f.own && k in g.own && Tier(k) == tier;
      assert k in SearchKeys(f) && k in SearchKeys(g);
    }
  }

  /** Two indices stand in one of these groups. */
  predicate Grouped(groups: set<seq<nat>>, i: nat, j: nat) {
    exists group :: group in groups && i in group && j in group
  }

  lemma GroupsMeaning(labels: Labels, i: nat, j: nat)
    requires i < |labels| && j < |labels|
    ensures Grouped(GroupsOf(labels), i, j) <==> labels[i] == labels[j]
  {
    forall c ensures (i in ClassOf(labels, c) <==> labels[i] == c) && (j in ClassOf(labels, c) <==> labels[j] == c) {
      ClassMembership(labels, c);
    }
    if labels[i] == labels[j] {
      assert ClassOf(labels, labels[i]) in GroupsOf(labels);
    }
  }

  lemma ProviderIsTierZero(c: Component)
    ensures ProviderKeyOf(c).Some? <==> Carries(c, 0)
  {
    KeyMeaning(c, c, 0);
    OneKeyPerTier(c);
    hide Carries, KeysWithoutFallback, ProviderKeyOf;
    if HasTier(KeysWithoutFallback(c), 0) {
      var k :| k in KeysWithoutFallback(c) && Tier(k) == 0;
      assert k == Provider(k.key);
    }
    if ProviderKeyOf(c).Some? { assert Provider(ProviderKeyOf(c).value) in KeysWithoutFallback(c) && Tier(Provider(ProviderKeyOf(c).value)) == 0; }
  }

  lemma SameProviderIsAgreement(c: Component, d: Component)
    requires ProviderKeyOf(c).Some? && ProviderKeyOf(d).Some?
    ensures ProviderKeyOf(c) == ProviderKeyOf(d) <==> AgreeOn(c, d, 0)
  {
    KeyMeaning(c, d, 0);
    OneKeyPerTier(c);
    OneKeyPerTier(d);
    var p, q := ProviderKeyOf(c).value, ProviderKeyOf(d).value;
    hide AgreeOn, KeysWithoutFallback, ProviderKeyOf;
    assert Tier(Provider(p)) == 0;
    if SharesTier(KeysWithoutFallback(c), KeysWithoutFallback(d), 0) {
      var k :| k in KeysWithoutFallback(c) && k in KeysWithoutFallback(d) && Tier(k) == 0;
      assert k == Provider(k.key);
    }
  }

  /** Components with provider facts share a group exactly when provider, source
      and package agree up to letter case and outer space. */
  lemma ProviderTextsDecideGroups(components: seq<Component>, passes: seq<KeyPass>, ids: seq<ComponentId>, i: nat, j: nat)
    requires Schedule(AllFacts(components), passes, ids) && i < |components| && j < |components|
    requires Carries(components[i], 0) && Carries(components[j], 0)
    ensures Grouped(GroupsOf(Grouping(AllFacts(components), passes, ids)), i, j) <==> AgreeOn(components[i], components[j], 0)
  {
    var c, d, facts := components[i], components[j], AllFacts(components);
    assert facts[i] == FactsOf(c) && facts[j] == FactsOf(d);
    ProviderIsTierZero(c);
    ProviderIsTierZero(d);
    SameProviderIsAgreement(c, d);
    hide Carries, AgreeOn, FactsOf, AllFacts, Schedule, Grouping, GroupsOf, ProviderKeyOf, Grouped;
    ProviderFactsDecideGroups(facts, passes, ids, i, j);
    GroupsMeaning(Grouping(facts, passes, ids), i, j);
  }
}
