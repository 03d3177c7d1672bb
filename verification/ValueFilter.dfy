/** Screening structured values (crates/reforge-cli/src/main.rs): collect the
    paths of unsafe fields, then leave those fields out. */
module ValueFilter {
  import opened Wrappers
  import opened CanonicalJson

  datatype Part = Key(key: string) | Index(index: nat)

  type FieldPath = seq<Part>

  /** The redaction rules: how deep values may nest, which keys are sensitive,
      and which texts redaction leaves alone. */
  datatype Policy = Policy(maxDepth: nat, sensitiveKey: string -> bool, stableText: string -> bool)

  predicate UnstableText(text: string, policy: Policy) {
    text == "<REDACTED>" || text == "<PATH>" || !policy.stableText(text)
  }

  predicate MarkerType(text: string) {
    text == "SECRET_REFERENCE" || text == "REDACTED_UNKNOWN"
  }

  /** The object stands for a secret that was taken out before. */
  predicate SecretMarker(members: seq<Member>) {
    (exists m :: m in members && m.key == "type" && m.value.Text? && MarkerType(m.value.text))
    || (|members| == 1 && members[0] == Member("redacted", Bool(true)))
  }

  // ---------------------------------------------------------------- collecting

  function Collected(v: Value, path: FieldPath, depth: nat, policy: Policy): set<FieldPath>
    decreases v
  {
    if depth > policy.maxDepth then {path}
    else
      match v
      case Object(members) => if SecretMarker(members) then {path} else CollectedMembers(members, path, depth, policy)
      case Array(items) => CollectedItems(items, path, depth, policy)
      case Text(text) => if UnstableText(text, policy) then {path} else {}
      case _ => {}
  }

  function CollectedMember(m: Member, path: FieldPath, depth: nat, policy: Policy): set<FieldPath>
    decreases m
  {
    var child := path + [Key(m.key)];
    if policy.sensitiveKey(m.key) then {child} else Collected(m.value, child, depth + 1, policy)
  }

  function CollectedMembers(members: seq<Member>, path: FieldPath, depth: nat, policy: Policy): set<FieldPath>
    decreases members
  {
    if members == [] then {}
    else
      var last := |members| - 1;
      CollectedMembers(members[..last], path, depth, policy) + CollectedMember(members[last], path, depth, policy)
  }

  function CollectedItems(items: seq<Value>, path: FieldPath, depth: nat, policy: Policy): set<FieldPath>
    decreases items
  {
    if items == [] then {}
    else
      var last := |items| - 1;
      CollectedItems(items[..last], path, depth, policy) + Collected(items[last], path + [Index(last)], depth + 1, policy)
  }

  class Findings {
    var paths: set<FieldPath>

    constructor ()
      ensures paths == {}
    {
      paths := {};
    }
  }

  method CollectUnsafeValuePaths(value: Value, path: FieldPath, depth: nat, policy: Policy, findings: Findings)
    modifies findings
    ensures findings.paths == old(findings.paths) + Collected(value, path, depth, policy)
    decreases value
  {
    if depth > policy.maxDepth {
      findings.paths := findings.paths + {path};
      return;
    }
    match value
    case Object(members) =>
      if SecretMarker(members) {
        findings.paths := findings.paths + {path};
        return;
      }
      for n := 0 to |members|
        invariant findings.paths == old(findings.paths) + CollectedMembers(members[..n], path, depth, policy)
      {
        assert members[..n + 1][..n] == members[..n];
        var child := path + [Key(members[n].key)];
        if policy.sensitiveKey(members[n].key) {
          findings.paths := findings.paths + {child};
        } else {
          CollectUnsafeValuePaths(members[n].value, child, depth + 1, policy, findings);
        }
      }
      assert members[..|members|] == members;
    case Array(items) =>
      for n := 0 to |items|
        invariant findings.paths == old(findings.paths) + CollectedItems(items[..n], path, depth, policy)
      {
        assert items[..n + 1][..n] == items[..n];
        CollectUnsafeValuePaths(items[n], path + [Index(n)], depth + 1, policy, findings);
      }
      assert items[..|items|] == items;
    case Text(text) =>
      if UnstableText(text, policy) { findings.paths := findings.paths + {path}; }
    case _ =>
  }

  method UnsafeValuePaths(value: Value, policy: Policy) returns (paths: set<FieldPath>)
    ensures paths == Collected(value, [], 0, policy)
  {
    var findings := new Findings();
    CollectUnsafeValuePaths(value, [], 0, policy, findings);
    paths := findings.paths;
  }

  // ---------------------------------------------------------------- filtering

  function Filtered(v: Value, path: FieldPath, blocked: set<FieldPath>): Option<Value>
    decreases v
  {
    if path in blocked then None
    else
      match v
      case Object(members) => Some(Object(FilteredMembers(members, path, blocked)))
      case Array(items) => Some(Array(FilteredItems(items, path, blocked)))
      case _ => Some(v)
  }

  function FilteredMembers(members: seq<Member>, path: FieldPath, blocked: set<FieldPath>): seq<Member>
    decreases members
  {
    if members == [] then []
    else
      var last := |members| - 1;
      var v := Filtered(members[last].value, path + [Key(members[last].key)], blocked);
      FilteredMembers(members[..last], path, blocked) + (if v.Some? then [Member(members[last].key, v.value)] else [])
  }

  function FilteredItems(items: seq<Value>, path: FieldPath, blocked: set<FieldPath>): seq<Value>
    decreases items
  {
    if items == [] then []
    else
      var last := |items| - 1;
      var v := Filtered(items[last], path + [Index(last)], blocked);
      FilteredItems(items[..last], path, blocked) + (if v.Some? then [v.value] else [])
  }

  // ---------------------------------------------------------------- one pass does the same

  /** Leave unsafe parts out as they are met; no paths are involved. */
  function Pruned(v: Value, depth: nat, policy: Policy): Option<Value>
    decreases v
  {
    if depth > policy.maxDepth then None
    else
      match v
      case Object(members) => if SecretMarker(members) then None else Some(Object(PrunedMembers(members, depth, policy)))
      case Array(items) => Some(Array(PrunedItems(items, depth, policy)))
      case Text(text) => if UnstableText(text, policy) then None else Some(v)
      case _ => Some(v)
  }

  function PrunedMembers(members: seq<Member>, depth: nat, policy: Policy): seq<Member>
    decreases members
  {
    if members == [] then []
    else
      var last := |members| - 1;
      var v := if policy.sensitiveKey(members[last].key) then None else Pruned(members[last].value, depth + 1, policy);
      PrunedMembers(members[..last], depth, policy) + (if v.Some? then [Member(members[last].key, v.value)] else [])
  }

  function PrunedItems(items: seq<Value>, depth: nat, policy: Policy): seq<Value>
    decreases items
  {
    if items == [] then []
    else
      var last := |items| - 1;
      var v := Pruned(items[last], depth + 1, policy);
      PrunedItems(items[..last], depth, policy) + (if v.Some? then [v.value] else [])
  }

  /** All paths at or below a path. */
  predicate Below(paths: set<FieldPath>, path: FieldPath) {
    forall q :: q in paths ==> path <= q
  }

  lemma {:induction false} CollectedBelow(v: Value, path: FieldPath, depth: nat, policy: Policy)
    ensures Below(Collected(v, path, depth, policy), path)
    decreases v
  {
    if depth <= policy.maxDepth {
      match v
      case Object(members) => if !SecretMarker(members) { MembersBelow(members, path, depth, policy); }
      case Array(items) => ItemsBelow(items, path, depth, policy);
      case _ =>
    }
  }

  /** All paths lead through one of these keys of the object at `path`. */
  ghost predicate ThroughKeys(paths: set<FieldPath>, path: FieldPath, keys: set<string>) {
    forall q: FieldPath :: q in paths ==> path <= q && |q| > |path| && q[|path|].Key? && q[|path|].key in keys
  }

  /** All paths lead through one of the first `n` items of the array at `path`. */
  ghost predicate ThroughItems(paths: set<FieldPath>, path: FieldPath, n: nat) {
    forall q: FieldPath :: q in paths ==> path <= q && |q| > |path| && q[|path|].Index? && q[|path|].index < n
  }

  lemma {:induction false} MembersBelow(members: seq<Member>, path: FieldPath, depth: nat, policy: Policy)
    ensures ThroughKeys(CollectedMembers(members, path, depth, policy), path, Keys(members))
    decreases members
  {
    if members != [] {
      var last := |members| - 1;
      MembersBelow(members[..last], path, depth, policy);
      MemberBelow(members[last], path, depth, policy);
      assert members == members[..last] + [members[last]];
      assert Keys(members) == Keys(members[..last]) + {members[last].key};
    }
  }

  lemma {:induction false} MemberBelow(m: Member, path: FieldPath, depth: nat, policy: Policy)
    ensures ThroughKeys(CollectedMember(m, path, depth, policy), path, {m.key})
    decreases m
  {
    var child := path + [Key(m.key)];
    CollectedBelow(m.value, child, depth + 1, policy);
    forall q: FieldPath | q in CollectedMember(m, path, depth, policy) ensures path <= q && |q| > |path| && q[|path|] == Key(m.key) {
      assert child <= q;
      assert q[|path|] == child[|path|];
    }
  }

  lemma {:induction false} ItemsBelow(items: seq<Value>, path: FieldPath, depth: nat, policy: Policy)
    ensures ThroughItems(CollectedItems(items, path, depth, policy), path, |items|)
    decreases items
  {
    if items != [] {
      var last := |items| - 1;
      var child := path + [Index(last)];
      ItemsBelow(items[..last], path, depth, policy);
      CollectedBelow(items[last], child, depth + 1, policy);
      forall q: FieldPath | q in Collected(items[last], child, depth + 1, policy) ensures path <= q && |q| > |path| && q[|path|] == Index(last) {
        assert child <= q;
        assert q[|path|] == child[|path|];
      }
    }
  }

  /** The blocked set agrees with what is collected at and below a path. */
  ghost predicate Agrees(blocked: set<FieldPath>, collected: set<FieldPath>, path: FieldPath) {
    forall q :: path <= q ==> (q in blocked <==> q in collected)
  }

  lemma {:induction false} MembersApart(members: seq<Member>, i: nat, path: FieldPath, depth: nat, policy: Policy)
    requires DistinctKeys(members) && i < |members|
    ensures Agrees(CollectedMembers(members, path, depth, policy), CollectedMember(members[i], path, depth, policy), path + [Key(members[i].key)])
    decreases members
  {
    var last, child := |members| - 1, path + [Key(members[i].key)];
    MembersBelow(members[..last], path, depth, policy);
    MemberBelow(members[last], path, depth, policy);
    MemberBelow(members[i], path, depth, policy);
    if i < last {
      MembersApart(members[..last], i, path, depth, policy);
    }
    assert CollectedMembers(members, path, depth, policy)
      == CollectedMembers(members[..last], path, depth, policy) + CollectedMember(members[last], path, depth, policy);
    hide CollectedMember, CollectedMembers;
    forall q: FieldPath | child <= q
      ensures q in CollectedMembers(members, path, depth, policy) <==> q in CollectedMember(members[i], path, depth, policy)
    {
      assert q[|path|] == child[|path|];
      assert child[|path|] == Key(members[i].key);
    }
  }

  lemma {:induction false} ItemsApart(items: seq<Value>, i: nat, path: FieldPath, depth: nat, policy: Policy)
    requires i < |items|
    ensures Agrees(CollectedItems(items, path, depth, policy), Collected(items[i], path + [Index(i)], depth + 1, policy), path + [Index(i)])
    decreases items
  {
    var last, child := |items| - 1, path + [Index(i)];
    ItemsBelow(items[..last], path, depth, policy);
    CollectedBelow(items[last], path + [Index(last)], depth + 1, policy);
    if i < last { ItemsApart(items[..last], i, path, depth, policy); }
    hide Collected;
    forall q: FieldPath | child <= q
      ensures q in CollectedItems(items, path, depth, policy) <==> q in Collected(items[i], child, depth + 1, policy)
    {
      assert q[|path|] == child[|path|];
      assert child[|path|] == Index(i);
      if q in Collected(items[last], path + [Index(last)], depth + 1, policy) && i < last {
        assert (path + [Index(last)])[|path|] == q[|path|];
      }
    }
  }

  lemma AgreesThrough(blocked: set<FieldPath>, middle: set<FieldPath>, collected: set<FieldPath>, path: FieldPath, child: FieldPath)
    requires Agrees(blocked, middle, path) && Agrees(middle, collected, child) && path <= child
    ensures Agrees(blocked, collected, child)
  {
  }

  /** What is unsafe to keep: too deep, a redacted or unstable text, or an object
      that stands for a secret, by its type or as a lone `redacted: true`. */
  predicate UnsafeToKeep(v: Value, depth: nat, policy: Policy) {
    || depth > policy.maxDepth
    || (v.Text? && (v.text == "<REDACTED>" || v.text == "<PATH>" || !policy.stableText(v.text)))
    || (v.Object?
        && (|| v.members == [Member("redacted", Bool(true))]
            || exists i :: 0 <= i < |v.members| && v.members[i].key == "type"
                 && (v.members[i].value == Text("SECRET_REFERENCE") || v.members[i].value == Text("REDACTED_UNKNOWN"))))
  }

  lemma MarkerMeaning(members: seq<Member>)
    ensures SecretMarker(members) <==>
      || members == [Member("redacted", Bool(true))]
      || exists i :: 0 <= i < |members| && members[i].key == "type"
           && (members[i].value == Text("SECRET_REFERENCE") || members[i].value == Text("REDACTED_UNKNOWN"))
  {
    if m :| m in members && m.key == "type" && m.value.Text? && MarkerType(m.value.text) {
      var i :| 0 <= i < |members| && members[i] == m;
    }
    if i :| 0 <= i < |members| && members[i].key == "type"
            && (members[i].value == Text("SECRET_REFERENCE") || members[i].value == Text("REDACTED_UNKNOWN")) {
      assert members[i] in members;
    }
    if |members| == 1 { assert members == [members[0]]; }
  }

  /** Leaving out in one pass leaves out exactly the values that are unsafe to
      keep, and members under sensitive keys. */
  lemma LeftOutExactly(v: Value, m: Member, members: seq<Member>, depth: nat, policy: Policy)
    ensures Pruned(v, depth, policy).None? <==> UnsafeToKeep(v, depth, policy)
    ensures PrunedMembers(members + [m], depth, policy) ==
      if policy.sensitiveKey(m.key) || UnsafeToKeep(m.value, depth + 1, policy) then PrunedMembers(members, depth, policy)
      else PrunedMembers(members, depth, policy) + [Member(m.key, Pruned(m.value, depth + 1, policy).value)]
  {
    if v.Object? { MarkerMeaning(v.members); }
    if m.value.Object? { MarkerMeaning(m.value.members); }
    assert (members + [m])[..|members|] == members;
    hide SecretMarker;
    assert PrunedMembers(members, depth, policy) + [] == PrunedMembers(members, depth, policy);
  }

  /** Filtering by the collected paths is pruning. */
  lemma {:induction false} FilteredIsPruned(v: Value, path: FieldPath, depth: nat, policy: Policy, blocked: set<FieldPath>)
    requires WellFormed(v) && Agrees(blocked, Collected(v, path, depth, policy), path)
    ensures Filtered(v, path, blocked) == Pruned(v, depth, policy)
    decreases v, 1
  {
    if depth <= policy.maxDepth {
      match v
      case Object(members) =>
        if !SecretMarker(members) {
          MembersBelow(members, path, depth, policy);
          forall i: nat | i < |members|
            ensures Agrees(blocked, CollectedMember(members[i], path, depth, policy), path + [Key(members[i].key)])
          {
            MembersApart(members, i, path, depth, policy);
            AgreesThrough(blocked, CollectedMembers(members, path, depth, policy), CollectedMember(members[i], path, depth, policy),
                          path, path + [Key(members[i].key)]);
          }
          FilteredMembersArePruned(members, path, depth, policy, blocked);
        }
      case Array(items) =>
        ItemsBelow(items, path, depth, policy);
        forall i: nat | i < |items|
          ensures Agrees(blocked, Collected(items[i], path + [Index(i)], depth + 1, policy), path + [Index(i)])
        {
          ItemsApart(items, i, path, depth, policy);
          AgreesThrough(blocked, CollectedItems(items, path, depth, policy), Collected(items[i], path + [Index(i)], depth + 1, policy),
                        path, path + [Index(i)]);
        }
        FilteredItemsArePruned(items, path, depth, policy, blocked);
      case _ =>
    }
  }

  lemma {:induction false} FilteredMembersArePruned(members: seq<Member>, path: FieldPath, depth: nat, policy: Policy, blocked: set<FieldPath>)
    requires forall m :: m in members ==> WellFormed(m.value)
    requires forall i: nat :: i < |members| ==> Agrees(blocked, CollectedMember(members[i], path, depth, policy), path + [Key(members[i].key)])
    ensures FilteredMembers(members, path, blocked) == PrunedMembers(members, depth, policy)
    decreases members, 0
  {
    if members != [] {
      var last := |members| - 1;
      var m, child := members[last], path + [Key(members[last].key)];
      assert m in members && forall i: nat :: i < last ==> members[..last][i] == members[i];
      FilteredMembersArePruned(members[..last], path, depth, policy, blocked);
      if !policy.sensitiveKey(m.key) { FilteredIsPruned(m.value, child, depth + 1, policy, blocked); }
    }
  }

  lemma {:induction false} FilteredItemsArePruned(items: seq<Value>, path: FieldPath, depth: nat, policy: Policy, blocked: set<FieldPath>)
    requires forall x :: x in items ==> WellFormed(x)
    requires forall i: nat :: i < |items| ==> Agrees(blocked, Collected(items[i], path + [Index(i)], depth + 1, policy), path + [Index(i)])
    ensures FilteredItems(items, path, blocked) == PrunedItems(items, depth, policy)
    decreases items, 0
  {
    if items != [] {
      var last := |items| - 1;
      assert items[last] in items && forall i: nat :: i < last ==> items[..last][i] == items[i];
      FilteredItemsArePruned(items[..last], path, depth, policy, blocked);
      FilteredIsPruned(items[last], path + [Index(last)], depth + 1, policy, blocked);
    }
  }

  // ---------------------------------------------------------------- what is left is safe

  /** No sensitive key, no unstable text, and nothing nested too deep. */
  predicate Clean(v: Value, depth: nat, policy: Policy)
    decreases v
  {
    && depth <= policy.maxDepth
    && match v
       case Object(members) => forall m :: m in members ==> !policy.sensitiveKey(m.key) && Clean(m.value, depth + 1, policy)
       case Array(items) => forall x :: x in items ==> Clean(x, depth + 1, policy)
       case Text(text) => !UnstableText(text, policy)
       case _ => true
  }

  lemma {:induction false} PrunedIsClean(v: Value, depth: nat, policy: Policy)
    ensures Pruned(v, depth, policy).Some? ==> Clean(Pruned(v, depth, policy).value, depth, policy)
    decreases v, 1
  {
    if Pruned(v, depth, policy).Some? {
      match v
      case Object(members) => PrunedMembersAreClean(members, depth, policy);
      case Array(items) => PrunedItemsAreClean(items, depth, policy);
      case _ =>
    }
  }

  lemma {:induction false} PrunedMembersAreClean(members: seq<Member>, depth: nat, policy: Policy)
    ensures forall m :: m in PrunedMembers(members, depth, policy) ==> !policy.sensitiveKey(m.key) && Clean(m.value, depth + 1, policy)
    decreases members, 0
  {
    if members != [] {
      var last := |members| - 1;
      PrunedMembersAreClean(members[..last], depth, policy);
      PrunedIsClean(members[last].value, depth + 1, policy);
    }
  }

  lemma {:induction false} PrunedItemsAreClean(items: seq<Value>, depth: nat, policy: Policy)
    ensures forall x :: x in PrunedItems(items, depth, policy) ==> Clean(x, depth + 1, policy)
    decreases items, 0
  {
    if items != [] {
      var last := |items| - 1;
      PrunedItemsAreClean(items[..last], depth, policy);
      PrunedIsClean(items[last], depth + 1, policy);
    }
  }

  // ---------------------------------------------------------------- a safe value is left alone

  lemma {:induction false} NothingCollectedExactlyWhenUnchanged(v: Value, path: FieldPath, depth: nat, policy: Policy)
    ensures Collected(v, path, depth, policy) == {} <==> Pruned(v, depth, policy) == Some(v)
    decreases v, 1
  {
    match v
    case Object(members) => UnchangedMembers(members, path, depth, policy);
    case Array(items) => UnchangedItems(items, path, depth, policy);
    case _ =>
  }

  lemma {:induction false} UnchangedMembers(members: seq<Member>, path: FieldPath, depth: nat, policy: Policy)
    ensures |PrunedMembers(members, depth, policy)| <= |members|
    ensures CollectedMembers(members, path, depth, policy) == {} <==> PrunedMembers(members, depth, policy) == members
    decreases members, 0
  {
    if members != [] {
      var last := |members| - 1;
      var m := members[last];
      UnchangedMembers(members[..last], path, depth, policy);
      NothingCollectedExactlyWhenUnchanged(m.value, path + [Key(m.key)], depth + 1, policy);
      assert members == members[..last] + [m];
      var rest := PrunedMembers(members[..last], depth, policy);
      if PrunedMembers(members, depth, policy) == members {
        assert PrunedMembers(members, depth, policy)[..|rest|] == rest;
        assert |rest| == last && rest == members[..last];
      }
    }
  }

  lemma {:induction false} UnchangedItems(items: seq<Value>, path: FieldPath, depth: nat, policy: Policy)
    ensures |PrunedItems(items, depth, policy)| <= |items|
    ensures CollectedItems(items, path, depth, policy) == {} <==> PrunedItems(items, depth, policy) == items
    decreases items, 0
  {
    if items != [] {
      var last := |items| - 1;
      UnchangedItems(items[..last], path, depth, policy);
      NothingCollectedExactlyWhenUnchanged(items[last], path + [Index(last)], depth + 1, policy);
      assert items == items[..last] + [items[last]];
      var rest := PrunedItems(items[..last], depth, policy);
      if PrunedItems(items, depth, policy) == items {
        assert PrunedItems(items, depth, policy)[..|rest|] == rest;
        assert |rest| == last && rest == items[..last];
      }
    }
  }

  /** Screening a value leaves only safe parts, and leaves a value alone
      exactly when nothing in it is unsafe. */
  lemma ScreeningIsSafe(v: Value, policy: Policy)
    requires WellFormed(v)
    ensures var blocked := Collected(v, [], 0, policy);
      var w := Filtered(v, [], blocked);
      && (w.Some? ==> Clean(w.value, 0, policy))
      && (blocked == {} <==> w == Some(v))
  {
    FilteredIsPruned(v, [], 0, policy, Collected(v, [], 0, policy));
    PrunedIsClean(v, 0, policy);
    NothingCollectedExactlyWhenUnchanged(v, [], 0, policy);
  }

  // ---------------------------------------------------------------- every other leaf stays, in order

  /** How a leaf is reached, without array positions. */
  datatype Step = Field(key: string) | Item

  type Trail = seq<Step>

  datatype Leaf = Leaf(path: FieldPath, trail: Trail, value: Value)

  function Leaves(v: Value, path: FieldPath, trail: Trail): seq<Leaf>
    decreases v
  {
    match v
    case Object(members) => MemberLeaves(members, path, trail)
    case Array(items) => ItemLeaves(items, path, trail)
    case _ => [Leaf(path, trail, v)]
  }

  function MemberLeaves(members: seq<Member>, path: FieldPath, trail: Trail): seq<Leaf>
    decreases members
  {
    if members == [] then []
    else
      var last := |members| - 1;
      MemberLeaves(members[..last], path, trail)
      + Leaves(members[last].value, path + [Key(members[last].key)], trail + [Field(members[last].key)])
  }

  function ItemLeaves(items: seq<Value>, path: FieldPath, trail: Trail): seq<Leaf>
    decreases items
  {
    if items == [] then []
    else
      var last := |items| - 1;
      ItemLeaves(items[..last], path, trail) + Leaves(items[last], path + [Index(last)], trail + [Item])
  }

  /** Blocked at or below the first `n` parts of the path. */
  predicate Hidden(path: FieldPath, n: nat, blocked: set<FieldPath>) {
    exists k :: n <= k <= |path| && path[..k] in blocked
  }

  /** The leaves that are not hidden, as they appear from outside. */
  function Visible(leaves: seq<Leaf>, n: nat, blocked: set<FieldPath>): seq<(Trail, Value)> {
    if leaves == [] then []
    else
      var leaf := leaves[|leaves| - 1];
      Visible(leaves[..|leaves| - 1], n, blocked) + (if Hidden(leaf.path, n, blocked) then [] else [(leaf.trail, leaf.value)])
  }

  lemma {:induction false} VisibleConcat(a: seq<Leaf>, b: seq<Leaf>, n: nat, blocked: set<FieldPath>)
    ensures Visible(a + b, n, blocked) == Visible(a, n, blocked) + Visible(b, n, blocked)
    decreases |b|
  {
    hide Hidden;
    if b == [] {
      assert a + b == a;
    } else {
      assert (a + b)[..|a + b| - 1] == a + b[..|b| - 1];
      VisibleConcat(a, b[..|b| - 1], n, blocked);
    }
  }

  predicate LeavesBelow(leaves: seq<Leaf>, path: FieldPath) {
    forall i :: 0 <= i < |leaves| ==> path <= leaves[i].path
  }

  lemma {:induction false} LeavesAreBelow(v: Value, path: FieldPath, trail: Trail)
    ensures LeavesBelow(Leaves(v, path, trail), path)
    decreases v, 1
  {
    match v
    case Object(members) => MemberLeavesAreBelow(members, path, trail);
    case Array(items) => ItemLeavesAreBelow(items, path, trail);
    case _ =>
  }

  lemma BelowChild(leaves: seq<Leaf>, path: FieldPath, part: Part)
    requires LeavesBelow(leaves, path + [part])
    ensures LeavesBelow(leaves, path)
  {
    assert path <= path + [part];
  }

  lemma {:induction false} MemberLeavesAreBelow(members: seq<Member>, path: FieldPath, trail: Trail)
    ensures LeavesBelow(MemberLeaves(members, path, trail), path)
    decreases members, 0
  {
    if members != [] {
      var last := |members| - 1;
      var part, step := Key(members[last].key), Field(members[last].key);
      MemberLeavesAreBelow(members[..last], path, trail);
      LeavesAreBelow(members[last].value, path + [part], trail + [step]);
      BelowChild(Leaves(members[last].value, path + [part], trail + [step]), path, part);
    }
  }

  lemma {:induction false} ItemLeavesAreBelow(items: seq<Value>, path: FieldPath, trail: Trail)
    ensures LeavesBelow(ItemLeaves(items, path, trail), path)
    decreases items, 0
  {
    if items != [] {
      var last := |items| - 1;
      ItemLeavesAreBelow(items[..last], path, trail);
      LeavesAreBelow(items[last], path + [Index(last)], trail + [Item]);
      BelowChild(Leaves(items[last], path + [Index(last)], trail + [Item]), path, Index(last));
    }
  }

  /** Below a blocked path nothing is visible. */
  lemma {:induction false} NothingVisible(leaves: seq<Leaf>, path: FieldPath, blocked: set<FieldPath>)
    requires LeavesBelow(leaves, path) && path in blocked
    ensures Visible(leaves, |path|, blocked) == []
  {
    if leaves != [] {
      var leaf := leaves[|leaves| - 1];
      assert leaf.path[..|path|] == path;
      NothingVisible(leaves[..|leaves| - 1], path, blocked);
    }
  }

  /** Where a path is open, only the parts below it decide. */
  lemma {:induction false} VisibleBelow(leaves: seq<Leaf>, path: FieldPath, blocked: set<FieldPath>)
    requires LeavesBelow(leaves, path) && path !in blocked
    ensures Visible(leaves, |path|, blocked) == Visible(leaves, |path| + 1, blocked)
  {
    if leaves != [] {
      var leaf := leaves[|leaves| - 1];
      assert leaf.path[..|path|] == path;
      VisibleBelow(leaves[..|leaves| - 1], path, blocked);
      if Hidden(leaf.path, |path|, blocked) {
        var k :| |path| <= k <= |leaf.path| && leaf.path[..k] in blocked;
        assert k != |path|;
      }
    }
  }

  /** All leaves of a value, as they appear from outside. */
  function Shown(v: Value, trail: Trail): seq<(Trail, Value)>
    decreases v
  {
    match v
    case Object(members) => ShownMembers(members, trail)
    case Array(items) => ShownItems(items, trail)
    case _ => [(trail, v)]
  }

  function ShownMembers(members: seq<Member>, trail: Trail): seq<(Trail, Value)>
    decreases members
  {
    if members == [] then []
    else
      var last := |members| - 1;
      ShownMembers(members[..last], trail) + Shown(members[last].value, trail + [Field(members[last].key)])
  }

  function ShownItems(items: seq<Value>, trail: Trail): seq<(Trail, Value)>
    decreases items
  {
    if items == [] then []
    else
      var last := |items| - 1;
      ShownItems(items[..last], trail) + Shown(items[last], trail + [Item])
  }

  /** Filtering keeps exactly the leaves with no blocked path on their way, in
      their order, whatever the blocked paths are. */
  lemma {:induction false} FilterKeepsOpenLeaves(v: Value, path: FieldPath, trail: Trail, blocked: set<FieldPath>)
    ensures Visible(Leaves(v, path, trail), |path|, blocked)
      == if Filtered(v, path, blocked).Some? then Shown(Filtered(v, path, blocked).value, trail) else []
    decreases v, 1
  {
    LeavesAreBelow(v, path, trail);
    if path in blocked {
      NothingVisible(Leaves(v, path, trail), path, blocked);
    } else {
      VisibleBelow(Leaves(v, path, trail), path, blocked);
      match v
      case Object(members) => FilterKeepsMemberLeaves(members, path, trail, blocked);
      case Array(items) => FilterKeepsItemLeaves(items, path, trail, blocked);
      case _ =>
        var leaf := Leaf(path, trail, v);
        assert [leaf][..0] == [] && Visible([leaf], |path| + 1, blocked) == Visible([], |path| + 1, blocked) + [(trail, v)];
    }
  }

  lemma {:induction false} FilterKeepsMemberLeaves(members: seq<Member>, path: FieldPath, trail: Trail, blocked: set<FieldPath>)
    ensures Visible(MemberLeaves(members, path, trail), |path| + 1, blocked) == ShownMembers(FilteredMembers(members, path, blocked), trail)
    decreases members, 0
  {
    if members != [] {
      var last := |members| - 1;
      var m := members[last];
      var child, below := path + [Key(m.key)], trail + [Field(m.key)];
      FilterKeepsMemberLeaves(members[..last], path, trail, blocked);
      FilterKeepsOpenLeaves(m.value, child, below, blocked);
      VisibleConcat(MemberLeaves(members[..last], path, trail), Leaves(m.value, child, below), |path| + 1, blocked);
      var rest, kept := FilteredMembers(members[..last], path, blocked), Filtered(m.value, child, blocked);
      if kept.Some? {
        assert (rest + [Member(m.key, kept.value)])[..|rest|] == rest;
      } else {
        assert FilteredMembers(members, path, blocked) == rest;
      }
    }
  }

  lemma {:induction false} FilterKeepsItemLeaves(items: seq<Value>, path: FieldPath, trail: Trail, blocked: set<FieldPath>)
    ensures Visible(ItemLeaves(items, path, trail), |path| + 1, blocked) == ShownItems(FilteredItems(items, path, blocked), trail)
    decreases items, 0
  {
    if items != [] {
      var last := |items| - 1;
      var child, below := path + [Index(last)], trail + [Item];
      FilterKeepsItemLeaves(items[..last], path, trail, blocked);
      FilterKeepsOpenLeaves(items[last], child, below, blocked);
      VisibleConcat(ItemLeaves(items[..last], path, trail), Leaves(items[last], child, below), |path| + 1, blocked);
      var rest, kept := FilteredItems(items[..last], path, blocked), Filtered(items[last], child, blocked);
      if kept.Some? {
        assert (rest + [kept.value])[..|rest|] == rest;
      } else {
        assert FilteredItems(items, path, blocked) == rest;
      }
    }
  }

  // ---------------------------------------------------------------- screening twice

  /** Some object in the value is a secret marker. */
  predicate HoldsMarker(v: Value)
    decreases v
  {
    match v
    case Object(members) => SecretMarker(members) || exists m :: m in members && HoldsMarker(m.value)
    case Array(items) => exists x :: x in items && HoldsMarker(x)
    case _ => false
  }

  lemma {:induction false} CleanCollectsMarkers(v: Value, path: FieldPath, depth: nat, policy: Policy)
    requires Clean(v, depth, policy)
    ensures Collected(v, path, depth, policy) == {} <==> !HoldsMarker(v)
    decreases v, 1
  {
    match v
    case Object(members) => CleanMembersCollectMarkers(members, path, depth, policy);
    case Array(items) => CleanItemsCollectMarkers(items, path, depth, policy);
    case _ =>
  }

  lemma {:induction false} CleanMembersCollectMarkers(members: seq<Member>, path: FieldPath, depth: nat, policy: Policy)
    requires forall m :: m in members ==> !policy.sensitiveKey(m.key) && Clean(m.value, depth + 1, policy)
    ensures CollectedMembers(members, path, depth, policy) == {} <==> forall m :: m in members ==> !HoldsMarker(m.value)
    decreases members, 0
  {
    if members != [] {
      var last := |members| - 1;
      assert members[last] in members && members == members[..last] + [members[last]];
      CleanMembersCollectMarkers(members[..last], path, depth, policy);
      CleanCollectsMarkers(members[last].value, path + [Key(members[last].key)], depth + 1, policy);
    }
  }

  lemma {:induction false} CleanItemsCollectMarkers(items: seq<Value>, path: FieldPath, depth: nat, policy: Policy)
    requires forall x :: x in items ==> Clean(x, depth + 1, policy)
    ensures CollectedItems(items, path, depth, policy) == {} <==> forall x :: x in items ==> !HoldsMarker(x)
    decreases items, 0
  {
    if items != [] {
      var last := |items| - 1;
      assert items[last] in items && items == items[..last] + [items[last]];
      assert forall x :: x in items[..last] ==> x in items;
      CleanItemsCollectMarkers(items[..last], path, depth, policy);
      CleanCollectsMarkers(items[last], path + [Index(last)], depth + 1, policy);
    }
  }

  /** Left out as soon as it is met. */
  predicate Dropped(v: Value, depth: nat, policy: Policy) {
    || depth > policy.maxDepth
    || (v.Object? && SecretMarker(v.members))
    || (v.Text? && UnstableText(v.text, policy))
  }

  predicate DroppedMember(m: Member, depth: nat, policy: Policy) {
    policy.sensitiveKey(m.key) || Dropped(m.value, depth + 1, policy)
  }

  /** Of the members only a plain `redacted: true` is not left out. */
  predicate KeepsOnlyRedacted(members: seq<Member>, depth: nat, policy: Policy) {
    exists i: nat :: i < |members| && members[i] == Member("redacted", Bool(true)) && OthersDropped(members, i, depth, policy)
  }

  predicate OthersDropped(members: seq<Member>, i: nat, depth: nat, policy: Policy) {
    forall j: nat :: j < |members| ==> (DroppedMember(members[j], depth, policy) <==> j != i)
  }

  /** Somewhere in the value an object that is no marker, and is not left out,
      is about to lose everything beside `redacted: true`. */
  predicate BecomesMarker(v: Value, depth: nat, policy: Policy)
    decreases v
  {
    && !Dropped(v, depth, policy)
    && match v
       case Object(members) =>
         KeepsOnlyRedacted(members, depth, policy)
         || exists m :: m in members && !policy.sensitiveKey(m.key) && BecomesMarker(m.value, depth + 1, policy)
       case Array(items) => exists x :: x in items && BecomesMarker(x, depth + 1, policy)
       case _ => false
  }

  /** What is left of a value that is not left out. */
  function Remainder(v: Value, depth: nat, policy: Policy): Value
    requires !Dropped(v, depth, policy)
  {
    Pruned(v, depth, policy).value
  }

  lemma {:induction false} AllDroppedMeansEmpty(members: seq<Member>, depth: nat, policy: Policy)
    ensures PrunedMembers(members, depth, policy) == [] <==> forall j: nat :: j < |members| ==> DroppedMember(members[j], depth, policy)
  {
    hide DroppedMember;
    if members != [] {
      var last := |members| - 1;
      AllDroppedMeansEmpty(members[..last], depth, policy);
      PrunedLast(members, depth, policy);
      assert forall j: nat :: j < last ==> members[..last][j] == members[j];
    }
  }

  lemma PrunedLast(members: seq<Member>, depth: nat, policy: Policy)
    requires members != []
    ensures var m, rest := members[|members| - 1], PrunedMembers(members[..|members| - 1], depth, policy);
      PrunedMembers(members, depth, policy)
      == if DroppedMember(m, depth, policy) then rest else rest + [Member(m.key, Remainder(m.value, depth + 1, policy))]
  {
  }

  /** A plain member is left out or left as it is. */
  lemma RedactedStaysItself(m: Member, depth: nat, policy: Policy)
    requires !DroppedMember(m, depth, policy)
    ensures Member(m.key, Remainder(m.value, depth + 1, policy)) == Member("redacted", Bool(true)) <==> m == Member("redacted", Bool(true))
  {
  }

  lemma {:induction false} OnlyRedactedIsLeft(members: seq<Member>, depth: nat, policy: Policy)
    ensures PrunedMembers(members, depth, policy) == [Member("redacted", Bool(true))] <==> KeepsOnlyRedacted(members, depth, policy)
  {
    if members != [] {
      var last := |members| - 1;
      var m, shorter := members[last], members[..last];
      assert forall j: nat :: j < last ==> shorter[j] == members[j];
      OnlyRedactedIsLeft(shorter, depth, policy);
      AllDroppedMeansEmpty(shorter, depth, policy);
      PrunedLast(members, depth, policy);
      if DroppedMember(m, depth, policy) {
        LastDropped(members, depth, policy);
      } else {
        var rest, left := PrunedMembers(shorter, depth, policy), Member(m.key, Remainder(m.value, depth + 1, policy));
        RedactedStaysItself(m, depth, policy);
        LastKept(members, depth, policy);
        hide PrunedMembers, Remainder, DroppedMember, KeepsOnlyRedacted;
        assert rest == [] ==> rest + [left] == [left];
        assert rest != [] ==> |rest + [left]| > 1;
        assert rest + [left] == [Member("redacted", Bool(true))] ==> (rest + [left])[|rest|] == left;
      }
    }
  }

  lemma LastDropped(members: seq<Member>, depth: nat, policy: Policy)
    requires members != [] && DroppedMember(members[|members| - 1], depth, policy)
    ensures KeepsOnlyRedacted(members, depth, policy) <==> KeepsOnlyRedacted(members[..|members| - 1], depth, policy)
  {
    hide DroppedMember;
    var last := |members| - 1;
    var shorter := members[..last];
    assert forall j: nat :: j < last ==> shorter[j] == members[j];
    if i: nat :| i < |members| && members[i] == Member("redacted", Bool(true)) && OthersDropped(members, i, depth, policy) {
      assert i < last && OthersDropped(shorter, i, depth, policy);
    }
    if i: nat :| i < last && shorter[i] == Member("redacted", Bool(true)) && OthersDropped(shorter, i, depth, policy) {
      assert OthersDropped(members, i, depth, policy);
    }
  }

  lemma LastKept(members: seq<Member>, depth: nat, policy: Policy)
    requires members != [] && !DroppedMember(members[|members| - 1], depth, policy)
    ensures KeepsOnlyRedacted(members, depth, policy)
      <==> members[|members| - 1] == Member("redacted", Bool(true))
           && forall j: nat :: j < |members| - 1 ==> DroppedMember(members[j], depth, policy)
  {
    hide DroppedMember;
    var last := |members| - 1;
    if i: nat :| i < |members| && members[i] == Member("redacted", Bool(true)) && OthersDropped(members, i, depth, policy) {
      assert i == last;
    }
    if members[last] == Member("redacted", Bool(true)) && forall j: nat :: j < last ==> DroppedMember(members[j], depth, policy) {
      assert OthersDropped(members, last, depth, policy);
    }
  }

  lemma {:induction false} PrunedMembersCome(members: seq<Member>, depth: nat, policy: Policy)
    ensures forall m' :: m' in PrunedMembers(members, depth, policy) <==>
      exists m :: m in members && !DroppedMember(m, depth, policy) && m' == Member(m.key, Remainder(m.value, depth + 1, policy))
  {
    if members != [] {
      var last := |members| - 1;
      PrunedMembersCome(members[..last], depth, policy);
      PrunedLast(members, depth, policy);
      assert members == members[..last] + [members[last]];
      hide DroppedMember, Remainder;
    }
  }

  lemma PrunedLastItem(items: seq<Value>, depth: nat, policy: Policy)
    requires items != []
    ensures var x, rest := items[|items| - 1], PrunedItems(items[..|items| - 1], depth, policy);
      PrunedItems(items, depth, policy) == if Dropped(x, depth + 1, policy) then rest else rest + [Remainder(x, depth + 1, policy)]
  {
  }

  lemma {:induction false} PrunedItemsCome(items: seq<Value>, depth: nat, policy: Policy)
    ensures forall y :: y in PrunedItems(items, depth, policy) <==>
      exists x :: x in items && !Dropped(x, depth + 1, policy) && y == Remainder(x, depth + 1, policy)
  {
    if items != [] {
      var last := |items| - 1;
      PrunedItemsCome(items[..last], depth, policy);
      PrunedLastItem(items, depth, policy);
      FrontAndLast(items);
      var before, after := PrunedItems(items[..last], depth, policy), PrunedItems(items, depth, policy);
      hide Dropped, Remainder, PrunedItems;
      forall y | y in after ensures exists x :: x in items && !Dropped(x, depth + 1, policy) && y == Remainder(x, depth + 1, policy) {
        if y in before {
          var x :| x in items[..last] && !Dropped(x, depth + 1, policy) && y == Remainder(x, depth + 1, policy);
          assert x in items;
        } else {
          assert items[last] in items;
        }
      }
      forall x | x in items && !Dropped(x, depth + 1, policy) ensures Remainder(x, depth + 1, policy) in after {
        if x in items[..last] { assert Remainder(x, depth + 1, policy) in before; }
      }
    }
  }

  lemma FrontAndLast(items: seq<Value>)
    requires items != []
    ensures forall x :: x in items <==> x in items[..|items| - 1] || x == items[|items| - 1]
  {
    var front, last := items[..|items| - 1], items[|items| - 1];
    var joined := front + [last];
    assert forall x :: x in joined <==> x in front || x == last;
    assert joined == items;
  }

  /** Pruning turns an object into a marker only by leaving `redacted: true` alone. */
  lemma MadeMarker(members: seq<Member>, depth: nat, policy: Policy)
    requires !SecretMarker(members)
    ensures SecretMarker(PrunedMembers(members, depth, policy)) <==> KeepsOnlyRedacted(members, depth, policy)
  {
    OnlyRedactedIsLeft(members, depth, policy);
    PrunedMembersCome(members, depth, policy);
    var left := PrunedMembers(members, depth, policy);
    forall m' | m' in left && m'.value.Text? ensures m' in members {
      var m :| m in members && !DroppedMember(m, depth, policy) && m' == Member(m.key, Remainder(m.value, depth + 1, policy));
      assert m' == m;
    }
    hide KeepsOnlyRedacted, PrunedMembers;
    if |left| == 1 { assert left == [left[0]]; }
  }

  /** The remainder holds a marker exactly when the value is about to make one. */
  predicate MarksAlike(v: Value, depth: nat, policy: Policy)
    requires !Dropped(v, depth, policy)
  {
    HoldsMarker(Remainder(v, depth, policy)) <==> BecomesMarker(v, depth, policy)
  }

  lemma {:induction false} PrunedHoldsMarker(v: Value, depth: nat, policy: Policy)
    requires !Dropped(v, depth, policy)
    ensures MarksAlike(v, depth, policy)
    decreases v
  {
    match v
    case Object(members) =>
      MadeMarker(members, depth, policy);
      PrunedMembersCome(members, depth, policy);
      forall m | m in members && !DroppedMember(m, depth, policy)
        ensures MarksAlike(m.value, depth + 1, policy)
      {
        PrunedHoldsMarker(m.value, depth + 1, policy);
      }
      MarkersBelowMembers(members, depth, policy);
    case Array(items) =>
      PrunedItemsCome(items, depth, policy);
      forall x | x in items && !Dropped(x, depth + 1, policy)
        ensures MarksAlike(x, depth + 1, policy)
      {
        PrunedHoldsMarker(x, depth + 1, policy);
      }
      MarkersBelowItems(items, depth, policy);
    case _ =>
  }

  lemma MarkersBelowMembers(members: seq<Member>, depth: nat, policy: Policy)
    requires forall m :: m in members && !DroppedMember(m, depth, policy) ==> MarksAlike(m.value, depth + 1, policy)
    ensures (exists m' :: m' in PrunedMembers(members, depth, policy) && HoldsMarker(m'.value))
      <==> exists m :: m in members && !policy.sensitiveKey(m.key) && BecomesMarker(m.value, depth + 1, policy)
  {
    PrunedMembersCome(members, depth, policy);
    var left := PrunedMembers(members, depth, policy);
    hide PrunedMembers, Remainder, HoldsMarker;
    if m' :| m' in left && HoldsMarker(m'.value) {
      var m :| m in members && !DroppedMember(m, depth, policy) && m' == Member(m.key, Remainder(m.value, depth + 1, policy));
      assert BecomesMarker(m.value, depth + 1, policy);
    }
    if m :| m in members && !policy.sensitiveKey(m.key) && BecomesMarker(m.value, depth + 1, policy) {
      assert !DroppedMember(m, depth, policy);
      assert Member(m.key, Remainder(m.value, depth + 1, policy)) in left;
    }
  }

  lemma NewMarkersStay(items: seq<Value>, depth: nat, policy: Policy)
    ensures forall x :: x in items && BecomesMarker(x, depth + 1, policy) ==> !Dropped(x, depth + 1, policy)
  {
  }

  lemma MarkersBelowItems(items: seq<Value>, depth: nat, policy: Policy)
    requires forall x :: x in items && !Dropped(x, depth + 1, policy) ==> MarksAlike(x, depth + 1, policy)
    ensures (exists y :: y in PrunedItems(items, depth, policy) && HoldsMarker(y))
      <==> exists x :: x in items && BecomesMarker(x, depth + 1, policy)
  {
    PrunedItemsCome(items, depth, policy);
    var left := PrunedItems(items, depth, policy);
    hide PrunedItems, Remainder, HoldsMarker, BecomesMarker;
    assert forall x :: x in items && BecomesMarker(x, depth + 1, policy) ==> !Dropped(x, depth + 1, policy) by { NewMarkersStay(items, depth, policy); }
    if y :| y in left && HoldsMarker(y) {
      var x :| x in items && !Dropped(x, depth + 1, policy) && y == Remainder(x, depth + 1, policy);
      assert BecomesMarker(x, depth + 1, policy);
    }
    if x :| x in items && BecomesMarker(x, depth + 1, policy) {
      var y := Remainder(x, depth + 1, policy);
      assert y in left;
      assert MarksAlike(x, depth + 1, policy);
      assert HoldsMarker(y);
    }
  }

  /** Screening again finds nothing exactly when the value, as it came in, holds
      no object that screening strips down to a marker. */
  lemma RescanIsEmptyExactlyWithoutNewMarkers(v: Value, policy: Policy)
    requires WellFormed(v) && !Dropped(v, 0, policy)
    ensures var w := Filtered(v, [], Collected(v, [], 0, policy));
      w.Some? && (Collected(w.value, [], 0, policy) == {} <==> !BecomesMarker(v, 0, policy))
  {
    FilteredIsPruned(v, [], 0, policy, Collected(v, [], 0, policy));
    ScreeningIsSafe(v, policy);
    CleanCollectsMarkers(Filtered(v, [], Collected(v, [], 0, policy)).value, [], 0, policy);
    PrunedHoldsMarker(v, 0, policy);
  }

  /** Which can happen: the field beside `redacted` is left out. */
  lemma RescanCanFindMore(policy: Policy)
    requires policy.sensitiveKey("password") && !policy.sensitiveKey("redacted") && policy.maxDepth >= 1
    ensures var v := Object([Member("redacted", Bool(true)), Member("password", Null)]);
      var w := Filtered(v, [], Collected(v, [], 0, policy));
      w == Some(Object([Member("redacted", Bool(true))])) && Collected(w.value, [], 0, policy) == {[]}
  {
    var a, b := Member("redacted", Bool(true)), Member("password", Null);
    NoMarkerYet();
    OnlyFirstStays(a, b, policy);
    var v := Object([a, b]);
    assert DistinctKeys([a, b]);
    hide Pruned, Filtered;
    FilteredIsPruned(v, [], 0, policy, Collected(v, [], 0, policy));
  }

  lemma NoMarkerYet()
    ensures "redacted" != "password" && !SecretMarker([Member("redacted", Bool(true)), Member("password", Null)])
  {
    assert "redacted"[0] != "password"[0] && |"redacted"| != |"type"| && |"password"| != |"type"|;
  }

  lemma OnlyFirstStays(a: Member, b: Member, policy: Policy)
    requires !policy.sensitiveKey(a.key) && policy.sensitiveKey(b.key) && a.value.Bool? && policy.maxDepth >= 1
    requires !SecretMarker([a, b])
    ensures Pruned(Object([a, b]), 0, policy) == Some(Object([a]))
  {
    assert [a, b][..1] == [a] && [a][..0] == [];
    assert PrunedMembers([], 0, policy) == [];
    assert Pruned(a.value, 1, policy) == Some(a.value);
    assert PrunedMembers([a], 0, policy) == [a];
    assert PrunedMembers([a, b], 0, policy) == [a] + [] == [a];
    var v := Object([a, b]);
    assert v.members == [a, b];
    assert Pruned(v, 0, policy) == Some(Object(PrunedMembers(v.members, 0, policy)));
  }
}
