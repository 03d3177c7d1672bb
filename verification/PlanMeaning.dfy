/** What a restore plan must look like, field by field, to be accepted
    (crates/reforge-domain/src/model.rs, `validate_restore_plan`). */
module PlanMeaning {
  import opened Wrappers
  import opened Graphs
  import opened Ordering
  import opened Paths
  import opened PathMeaning
  import opened RestorePlan

  // ---------------------------------------------------------------- what an operation names

  predicate KindNamesPath(kind: OperationKind, path: PathToken) {
    match kind
    case WriteFile(destination, _) => path == destination
    case MergeJson(destination, _) => path == destination
    case MergeToml(destination, _) => path == destination
    case AppendUserPath(entries) => path in entries
    case SetUserEnvironment(_) => false
    case ImportWsl(_) => false
    case RestoreDockerImage(_) => false
    case RestoreDockerVolume(_) => false
    case Other => false
  }

  predicate KindNamesObject(kind: OperationKind, o: ObjectId) {
    match kind
    case WriteFile(_, content) => o == content
    case MergeJson(_, content) => o == content
    case MergeToml(_, content) => o == content
    case ImportWsl(content) => o == content
    case RestoreDockerImage(content) => o == content
    case RestoreDockerVolume(content) => o == content
    case AppendUserPath(_) => false
    case SetUserEnvironment(_) => false
    case Other => false
  }

  predicate RulePathClean(rule: VerificationRule) {
    match rule
    case File(destination, _) => CleanPath(destination.relative)
    case AtPath(destination) => CleanPath(destination.relative)
    case Elsewhere => true
  }

  predicate RuleObjectKnown(rule: VerificationRule, objects: seq<ObjectId>) {
    match rule
    case File(_, Some(o)) => o in objects
    case _ => true
  }

  ghost predicate KindPathsClean(kind: OperationKind) {
    forall path :: KindNamesPath(kind, path) ==> CleanPath(path.relative)
  }

  ghost predicate KindObjectsKnown(kind: OperationKind, objects: seq<ObjectId>) {
    forall o :: KindNamesObject(kind, o) ==> o in objects
  }

  predicate RuleSound(rule: VerificationRule, objects: seq<ObjectId>) {
    RulePathClean(rule) && RuleObjectKnown(rule, objects)
  }

  predicate PreconditionKnown(precondition: Precondition, objects: seq<ObjectId>) {
    match precondition
    case ArtifactPresent(o) => o in objects
    case OtherCondition => true
  }

  /** Files are neither written nor merged under Program Files, and under
      ProgramData only with elevation. */
  predicate PlacePermitted(root: Root, elevated: bool) {
    root != ProgramFiles && root != ProgramFilesX86 && (root == ProgramData ==> elevated)
  }

  predicate DestinationPermitted(operation: Operation) {
    match operation.kind
    case WriteFile(destination, _) => PlacePermitted(destination.root, operation.requiresElevation)
    case MergeJson(destination, _) => PlacePermitted(destination.root, operation.requiresElevation)
    case MergeToml(destination, _) => PlacePermitted(destination.root, operation.requiresElevation)
    case _ => true
  }

  predicate NoSecretValue(operation: Operation) {
    operation.kind != SetUserEnvironment(SafeValueRef.SecretReference)
  }

  /** Every path an operation names is clean, every object indexed, the
      destination permitted, and no environment value a secret. */
  ghost predicate OperationSound(operation: Operation, objects: seq<ObjectId>) {
    && KindPathsClean(operation.kind) && KindObjectsKnown(operation.kind, objects)
    && (forall rule :: rule in operation.verification ==> RuleSound(rule, objects))
    && PreconditionKnown(operation.precondition, objects)
    && DestinationPermitted(operation) && NoSecretValue(operation)
  }

  /** A plain write and a JSON or TOML merge in one place. */
  predicate WriteMeetsMerge(kind: OperationKind, other: OperationKind) {
    match (kind, other)
    case (WriteFile(p, _), MergeJson(q, _)) => InOnePlace(p, q)
    case (WriteFile(p, _), MergeToml(q, _)) => InOnePlace(p, q)
    case (MergeJson(p, _), WriteFile(q, _)) => InOnePlace(p, q)
    case (MergeToml(p, _), WriteFile(q, _)) => InOnePlace(p, q)
    case _ => false
  }

  ghost predicate MeetingsOrdered(operations: seq<Operation>) {
    forall i, j :: 0 <= i < j < |operations| && WriteMeetsMerge(operations[i].kind, operations[j].kind)
      ==> Related(Needs(operations), operations[i].id, operations[j].id)
  }

  // ---------------------------------------------------------------- one operation

  lemma TokenMeaning(path: PathToken)
    ensures ValidToken(path) <==> CleanPath(path.relative)
  {
    NormalMeaning(path.relative);
  }

  lemma KindPathsMeaning(kind: OperationKind)
    ensures PathsValid(kind) <==> KindPathsClean(kind)
  {
    hide ValidToken, CleanPath;
    forall path ensures ValidToken(path) <==> CleanPath(path.relative) { TokenMeaning(path); }
    if kind.AppendUserPath? {
      assert forall i :: 0 <= i < |kind.entries| ==> KindNamesPath(kind, kind.entries[i]);
    } else if kind.WriteFile? || kind.MergeJson? || kind.MergeToml? {
      assert KindNamesPath(kind, kind.destination);
    }
  }

  lemma KindObjectsMeaning(kind: OperationKind, objects: seq<ObjectId>)
    ensures (exists o :: o in OperationObjects(kind) && o !in set x | x in objects) <==> !KindObjectsKnown(kind, objects)
  {
    forall o ensures o in OperationObjects(kind) <==> KindNamesObject(kind, o) {}
  }

  /** The first rule that is not sound. */
  predicate FirstUnsoundRule(rules: seq<VerificationRule>, objects: seq<ObjectId>, n: int) {
    0 <= n < |rules| && !RuleSound(rules[n], objects) && forall i :: 0 <= i < n ==> RuleSound(rules[i], objects)
  }

  lemma RuleMeaning(rule: VerificationRule, objects: seq<ObjectId>)
    ensures RulePathClean(rule) <==> rule.Elsewhere? || ValidToken(rule.destination)
    ensures RuleObjectKnown(rule, objects) <==> !(rule.File? && rule.content.Some? && rule.content.value !in set x | x in objects)
  {
    if !rule.Elsewhere? { TokenMeaning(rule.destination); }
  }

  lemma {:induction false} RulesMeaning(rules: seq<VerificationRule>, objects: seq<ObjectId>)
    ensures CheckRules(rules, set o | o in objects).Ok? <==> forall rule :: rule in rules ==> RuleSound(rule, objects)
    ensures forall n :: FirstUnsoundRule(rules, objects, n) ==>
      (CheckRules(rules, set o | o in objects) == Err(if RulePathClean(rules[n]) then SchemaInvalid else InvalidPath))
  {
    if rules != [] {
      RuleMeaning(rules[0], objects);
      hide RulePathClean, RuleObjectKnown, ValidToken;
      RulesMeaning(rules[1..], objects);
      assert rules == [rules[0]] + rules[1..];
      assert (forall rule :: rule in rules ==> RuleSound(rule, objects)) <==>
        RuleSound(rules[0], objects) && forall rule :: rule in rules[1..] ==> RuleSound(rule, objects);
      forall n | FirstUnsoundRule(rules, objects, n) && n > 0 ensures FirstUnsoundRule(rules[1..], objects, n - 1) {
        assert forall i :: 0 <= i < n - 1 ==> rules[1..][i] == rules[i + 1];
      }
    }
  }

  /** Which fault of an operation gives which code: paths before objects, its
      kind before its rules in turn, its precondition, then the policy. */
  ghost predicate CodeOf(operation: Operation, objects: seq<ObjectId>, code: ErrorCode) {
    if !KindPathsClean(operation.kind) then code == InvalidPath
    else if !KindObjectsKnown(operation.kind, objects) then code == SchemaInvalid
    else if exists n :: FirstUnsoundRule(operation.verification, objects, n) then
      exists n :: FirstUnsoundRule(operation.verification, objects, n)
        && code == if RulePathClean(operation.verification[n]) then SchemaInvalid else InvalidPath
    else if !PreconditionKnown(operation.precondition, objects) then code == SchemaInvalid
    else code == SecurityPolicy
  }

  lemma OperationMeaning(operation: Operation, objects: seq<ObjectId>)
    ensures var r := CheckOperation(operation, set o | o in objects);
      (r.Ok? <==> OperationSound(operation, objects)) && (r.Err? ==> CodeOf(operation, objects, r.error))
  {
    KindPathsMeaning(operation.kind);
    KindObjectsMeaning(operation.kind, objects);
    RulesMeaning(operation.verification, objects);
    hide PathsValid, CheckRules, KindPathsClean, KindObjectsKnown, OperationObjects, RuleSound, FirstUnsoundRule;
    if !forall rule :: rule in operation.verification ==> RuleSound(rule, objects) {
      var n := UnsoundRuleComesFirst(operation.verification, objects);
    } else {
      assert forall n :: FirstUnsoundRule(operation.verification, objects, n) ==> false by {
        AllRulesAreSound(operation.verification, objects);
      }
    }
  }

  lemma AllRulesAreSound(rules: seq<VerificationRule>, objects: seq<ObjectId>)
    requires forall rule :: rule in rules ==> RuleSound(rule, objects)
    ensures forall n :: !FirstUnsoundRule(rules, objects, n)
  {
  }

  lemma {:induction false} UnsoundRuleComesFirst(rules: seq<VerificationRule>, objects: seq<ObjectId>) returns (n: nat)
    requires !forall rule :: rule in rules ==> RuleSound(rule, objects)
    ensures FirstUnsoundRule(rules, objects, n)
  {
    hide RuleSound;
    assert rules != [];
    if !RuleSound(rules[0], objects) {
      n := 0;
    } else {
      assert rules == [rules[0]] + rules[1..];
      var m := UnsoundRuleComesFirst(rules[1..], objects);
      n := m + 1;
      forall i | 0 <= i < n ensures RuleSound(rules[i], objects) {
        if i > 0 { assert rules[1..][i - 1] == rules[i]; }
      }
    }
  }

  // ---------------------------------------------------------------- all operations

  predicate ObjectsDiffer(objects: seq<ObjectId>) {
    forall i, j :: 0 <= i < |objects| && 0 <= j < |objects| && i != j ==> objects[i] != objects[j]
  }

  ghost predicate AllSound(operations: seq<Operation>, objects: seq<ObjectId>) {
    forall operation :: operation in operations ==> OperationSound(operation, objects)
  }

  ghost predicate FirstUnsound(operations: seq<Operation>, objects: seq<ObjectId>, n: int) {
    && 0 <= n < |operations| && !OperationSound(operations[n], objects)
    && forall i :: 0 <= i < n ==> OperationSound(operations[i], objects)
  }

  lemma {:induction false} OperationsMeaning(operations: seq<Operation>, objects: seq<ObjectId>)
    ensures CheckOperations(operations, set o | o in objects).Ok? <==> AllSound(operations, objects)
    ensures forall n :: FirstUnsound(operations, objects, n) ==>
      var r := CheckOperations(operations, set o | o in objects); r.Err? && CodeOf(operations[n], objects, r.error)
  {
    hide OperationSound, CodeOf, CheckOperation;
    if operations != [] {
      var last := |operations| - 1;
      OperationsMeaning(operations[..last], objects);
      OperationMeaning(operations[last], objects);
      assert operations == operations[..last] + [operations[last]];
      forall n | FirstUnsound(operations, objects, n) && n < last ensures FirstUnsound(operations[..last], objects, n) {
      }
      assert FirstUnsound(operations, objects, last) ==> forall operation :: operation in operations[..last] ==> OperationSound(operation, objects);
    }
  }

  lemma ConflictMeaning(operation: Operation, other: Operation, objects: seq<ObjectId>)
    requires OperationSound(operation, objects) && OperationSound(other, objects)
    ensures Conflicting(operation, other) <==> WriteMeetsMerge(operation.kind, other.kind)
  {
    hide PathsOverlap, InOnePlace, ValidToken, CleanPath;
    if IsWrite(operation.kind) && IsWrite(other.kind) {
      var p, q := operation.kind.destination, other.kind.destination;
      assert KindNamesPath(operation.kind, p) && KindNamesPath(other.kind, q);
      TokenMeaning(p);
      TokenMeaning(q);
      OverlapMeaning(p, q);
    }
  }

  lemma ConflictsMeaning(operations: seq<Operation>, objects: seq<ObjectId>)
    requires AllSound(operations, objects)
    ensures ConflictsOrdered(operations) <==> MeetingsOrdered(operations)
  {
    hide OperationSound, Conflicting, WriteMeetsMerge, Related;
    forall i, j | 0 <= i < j < |operations|
      ensures Conflicting(operations[i], operations[j]) <==> WriteMeetsMerge(operations[i].kind, operations[j].kind)
    {
      ConflictMeaning(operations[i], operations[j], objects);
    }
    if MeetingsOrdered(operations) {
      forall i, j | 0 <= i < j < |operations| ensures PairOrdered(operations, i, j) {
      }
    }
    if ConflictsOrdered(operations) {
      forall i, j | 0 <= i < j < |operations| && WriteMeetsMerge(operations[i].kind, operations[j].kind)
        ensures Related(Needs(operations), operations[i].id, operations[j].id)
      {
        assert PairOrdered(operations, i, j);
      }
    }
  }

  /** A plan is accepted exactly when its identities and prerequisites are sound
      and acyclic, objects are indexed once, every operation is sound, and writes
      that meet merges are ordered. */
  lemma AcceptanceByField(operations: seq<Operation>, objects: seq<ObjectId>)
    ensures Verdict(operations, objects).Ok? <==>
      && IndexSound(operations) && !Cyclic(PrerequisiteEdges(Needs(operations))) && ObjectsDiffer(objects)
      && AllSound(operations, objects)
      && MeetingsOrdered(operations)
  {
    OperationsMeaning(operations, objects);
    assert UniqueObjects(objects) <==> ObjectsDiffer(objects);
    if AllSound(operations, objects) {
      ConflictsMeaning(operations, objects);
    }
    hide AllSound, IndexSound, UniqueObjects, ObjectsDiffer, CheckOperations, ConflictsOrdered, MeetingsOrdered, Cyclic, PrerequisiteEdges;
  }

  /** Which fault of a plan gives which code. */
  lemma CodesByField(operations: seq<Operation>, objects: seq<ObjectId>)
    ensures var r := Verdict(operations, objects);
      && (!IndexSound(operations) ==> r == Err(SchemaInvalid))
      && (IndexSound(operations) && Cyclic(PrerequisiteEdges(Needs(operations))) ==> r == Err(DependencyCycle))
      && (IndexSound(operations) && !Cyclic(PrerequisiteEdges(Needs(operations))) ==>
            && (!ObjectsDiffer(objects) ==> r == Err(SchemaInvalid))
            && (ObjectsDiffer(objects) ==>
                  && (forall n :: FirstUnsound(operations, objects, n) ==> r.Err? && CodeOf(operations[n], objects, r.error))
                  && (AllSound(operations, objects) && !MeetingsOrdered(operations) ==> r == Err(SecurityPolicy))))
  {
    OperationsMeaning(operations, objects);
    assert UniqueObjects(objects) <==> ObjectsDiffer(objects);
    if AllSound(operations, objects) {
      ConflictsMeaning(operations, objects);
    }
    hide AllSound, IndexSound, UniqueObjects, ObjectsDiffer, CheckOperations, ConflictsOrdered, MeetingsOrdered, Cyclic, PrerequisiteEdges, CodeOf, FirstUnsound;
  }
}
