/** Validation of a restore plan before approval and execution
    (crates/reforge-domain/src/model.rs, `validate_restore_plan`). */
module RestorePlan {
  import opened Wrappers
  import opened Graphs
  import opened Ordering
  import opened Paths

  type ObjectId = nat

  datatype ErrorCode = SchemaInvalid | DependencyCycle | SecurityPolicy | InvalidPath

  datatype SafeValueRef = LiteralNonSecret | EnvironmentReference | SecretReference | RedactedUnknown

  /** Operation kinds; `Other` stands for the kinds that name neither a path, an
      object nor a value reference. */
  datatype OperationKind =
    | WriteFile(destination: PathToken, content: ObjectId)
    | MergeJson(destination: PathToken, content: ObjectId)
    | MergeToml(destination: PathToken, content: ObjectId)
    | SetUserEnvironment(value: SafeValueRef)
    | AppendUserPath(entries: seq<PathToken>)
    | ImportWsl(content: ObjectId)
    | RestoreDockerImage(content: ObjectId)
    | RestoreDockerVolume(content: ObjectId)
    | Other

  /** Verification rules; `AtPath` stands for the rules that name a path only. */
  datatype VerificationRule = File(destination: PathToken, content: Option<ObjectId>) | AtPath(destination: PathToken) | Elsewhere

  datatype Precondition = ArtifactPresent(content: ObjectId) | OtherCondition

  datatype Operation = Operation(
    id: OperationId,
    kind: OperationKind,
    prerequisites: seq<OperationId>,
    precondition: Precondition,
    idempotencyKey: string,
    verification: seq<VerificationRule>,
    requiresElevation: bool)

  type Check = Result<(), ErrorCode>

  // ---------------------------------------------------------------- declarative verdict

  predicate UniqueIds(operations: seq<Operation>) {
    forall i, j :: 0 <= i < j < |operations| ==> operations[i].id != operations[j].id
  }

  predicate UniqueKeys(operations: seq<Operation>) {
    forall i, j :: 0 <= i < j < |operations| ==> operations[i].idempotencyKey != operations[j].idempotencyKey
  }

  /** The prerequisites of each operation; a later entry would win. */
  function Needs(operations: seq<Operation>): (needs: Prerequisites)
    ensures forall id :: id in needs <==> exists i :: 0 <= i < |operations| && operations[i].id == id
  {
    if operations == [] then map[]
    else
      var last := operations[|operations| - 1];
      var rest := Needs(operations[..|operations| - 1]);
      assert operations[|operations| - 1].id == last.id;
      rest[last.id := last.prerequisites]
  }

  lemma {:induction false} NeedsLookup(operations: seq<Operation>, i: nat)
    requires UniqueIds(operations) && i < |operations|
    ensures operations[i].id in Needs(operations) && Needs(operations)[operations[i].id] == operations[i].prerequisites
  {
    var last := |operations| - 1;
    if i < last {
      NeedsLookup(operations[..last], i);
      assert operations[i].id != operations[last].id;
    }
  }

  predicate UniqueObjects(objects: seq<ObjectId>) {
    forall i, j :: 0 <= i < j < |objects| ==> objects[i] != objects[j]
  }

  predicate IsMerge(kind: OperationKind) {
    kind.MergeJson? || kind.MergeToml?
  }

  predicate IsWrite(kind: OperationKind) {
    kind.WriteFile? || IsMerge(kind)
  }

  function OperationObjects(kind: OperationKind): seq<ObjectId> {
    match kind
    case WriteFile(_, content) => [content]
    case MergeJson(_, content) => [content]
    case MergeToml(_, content) => [content]
    case ImportWsl(content) => [content]
    case RestoreDockerImage(content) => [content]
    case RestoreDockerVolume(content) => [content]
    case _ => []
  }

  function OperationDestination(kind: OperationKind): Option<PathToken> {
    match kind
    case WriteFile(destination, _) => Some(destination)
    case MergeJson(destination, _) => Some(destination)
    case MergeToml(destination, _) => Some(destination)
    case _ => None
  }

  predicate PathsValid(kind: OperationKind) {
    && (OperationDestination(kind).Some? ==> ValidToken(OperationDestination(kind).value))
    && (kind.AppendUserPath? ==> forall i :: 0 <= i < |kind.entries| ==> ValidToken(kind.entries[i]))
  }

  function CheckRules(rules: seq<VerificationRule>, indexed: set<ObjectId>): Check {
    if rules == [] then Ok(())
    else if !rules[0].Elsewhere? && !ValidToken(rules[0].destination) then Err(InvalidPath)
    else if rules[0].File? && rules[0].content.Some? && rules[0].content.value !in indexed then Err(SchemaInvalid)
    else CheckRules(rules[1..], indexed)
  }

  function CheckDestination(operation: Operation): Check {
    if !IsWrite(operation.kind) then Ok(())
    else
      var root := operation.kind.destination.root;
      if root == ProgramFiles || root == ProgramFilesX86 then Err(SecurityPolicy)
      else if root == ProgramData && !operation.requiresElevation then Err(SecurityPolicy)
      else Ok(())
  }

  /** The checks on one operation, in the order they are made. */
  function CheckOperation(operation: Operation, indexed: set<ObjectId>): Check {
    if !PathsValid(operation.kind) then Err(InvalidPath)
    else if exists o :: o in OperationObjects(operation.kind) && o !in indexed then Err(SchemaInvalid)
    else if CheckRules(operation.verification, indexed).Err? then CheckRules(operation.verification, indexed)
    else if operation.precondition.ArtifactPresent? && operation.precondition.content !in indexed then Err(SchemaInvalid)
    else if CheckDestination(operation).Err? then CheckDestination(operation)
    else if operation.kind.SetUserEnvironment? && operation.kind.value.SecretReference? then Err(SecurityPolicy)
    else Ok(())
  }

  function CheckOperations(operations: seq<Operation>, indexed: set<ObjectId>): Check {
    if operations == [] then Ok(())
    else
      var earlier := CheckOperations(operations[..|operations| - 1], indexed);
      if earlier.Err? then earlier else CheckOperation(operations[|operations| - 1], indexed)
  }

  /** A plain write and a merge that touch the same place. */
  predicate Conflicting(a: Operation, b: Operation) {
    && IsWrite(a.kind) && IsWrite(b.kind) && IsMerge(a.kind) != IsMerge(b.kind)
    && PathsOverlap(a.kind.destination, b.kind.destination)
  }

  ghost predicate Related(needs: Prerequisites, a: OperationId, b: OperationId) {
    Reaches(PrerequisiteEdges(needs), a, b) || Reaches(PrerequisiteEdges(needs), b, a)
  }

  ghost predicate ConflictsOrdered(operations: seq<Operation>) {
    forall i, j :: 0 <= i < j < |operations| ==> PairOrdered(operations, i, j)
  }

  predicate IndexSound(operations: seq<Operation>) {
    UniqueIds(operations) && UniqueKeys(operations) && Complete(Needs(operations))
  }

  ghost function Verdict(operations: seq<Operation>, objects: seq<ObjectId>): Check {
    if !IndexSound(operations) then Err(SchemaInvalid)
    else if Cyclic(PrerequisiteEdges(Needs(operations))) then Err(DependencyCycle)
    else if !UniqueObjects(objects) then Err(SchemaInvalid)
    else if CheckOperations(operations, set o | o in objects).Err? then CheckOperations(operations, set o | o in objects)
    else if !ConflictsOrdered(operations) then Err(SecurityPolicy)
    else Ok(())
  }

  // ---------------------------------------------------------------- cycle search

  /** Everything on the search path needs what is about to be visited. */
  ghost predicate OnPath(needs: Prerequisites, visiting: set<OperationId>, id: OperationId) {
    forall v :: v in visiting ==> Reaches(PrerequisiteEdges(needs), v, id)
  }

  ghost predicate Finished(needs: Prerequisites, visited: set<OperationId>, order: seq<OperationId>) {
    Linear(needs, order) && forall x :: x in order <==> x in visited
  }

  lemma PathGrows(needs: Prerequisites, visiting: set<OperationId>, id: OperationId, before: OperationId)
    requires OnPath(needs, visiting, id) && id in needs && before in needs[id]
    ensures OnPath(needs, visiting + {id}, before)
  {
    var edges := PrerequisiteEdges(needs);
    StepReaches(edges, id, before);
    forall v | v in visiting ensures Reaches(edges, v, before) {
      ReachesTransitive(edges, v, id, before);
    }
  }

  /** Depth-first search: succeeds on a growing set of finished operations in an
      order that respects prerequisites, or finds a genuine cycle. */
  method VisitOperation(id: OperationId, needs: Prerequisites, visiting: set<OperationId>, visited: set<OperationId>,
                        ghost order: seq<OperationId>)
    returns (r: Check, visited': set<OperationId>, ghost order': seq<OperationId>)
    requires Complete(needs) && id in needs && visiting <= needs.Keys && visiting !! visited
    requires OnPath(needs, visiting, id) && Finished(needs, visited, order)
    ensures r.Ok? ==> id in visited' && visited <= visited' && visiting !! visited' && Finished(needs, visited', order')
    ensures r.Err? ==> r == Err(DependencyCycle) && Cyclic(PrerequisiteEdges(needs))
    decreases needs.Keys - visiting
  {
    visited', order' := visited, order;
    if id in visited {
      return Ok(()), visited', order';
    }
    if id in visiting {
      return Err(DependencyCycle), visited', order';
    }
    var inner := visiting + {id};
    for n := 0 to |needs[id]|
      invariant visited <= visited' && inner !! visited' && Finished(needs, visited', order')
      invariant forall k :: 0 <= k < n ==> needs[id][k] in visited'
    {
      assert needs[id][n] in needs[id];
      PathGrows(needs, visiting, id, needs[id][n]);
      r, visited', order' := VisitOperation(needs[id][n], needs, inner, visited', order');
      if r.Err? { return; }
    }
    LinearAppend(needs, order', id);
    visited', order' := visited' + {id}, order' + [id];
    r := Ok(());
  }

  method VisitAll(needs: Prerequisites) returns (r: Check, ghost order: seq<OperationId>)
    requires Complete(needs)
    ensures r.Ok? ==> Execution(needs, order)
    ensures r.Err? ==> r == Err(DependencyCycle)
    ensures r.Err? <==> Cyclic(PrerequisiteEdges(needs))
  {
    var pending, visited := needs.Keys, {};
    order := [];
    while pending != {}
      invariant pending <= needs.Keys && needs.Keys - pending <= visited && Finished(needs, visited, order)
      decreases pending
    {
      var id :| id in pending;
      pending := pending - {id};
      r, visited, order := VisitOperation(id, needs, {}, visited, order);
      if r.Err? { return; }
    }
    ExecutionExcludesCycles(needs, order);
    r := Ok(());
  }

  // ---------------------------------------------------------------- precedence search

  ghost predicate Explored(needs: Prerequisites, seen: set<OperationId>, pending: seq<OperationId>, before: OperationId) {
    forall x :: x in seen && x in needs ==> before !in needs[x] && forall y :: y in needs[x] ==> y in seen || y in pending
  }

  ghost predicate Behind(needs: Prerequisites, after: OperationId, x: OperationId) {
    x == after || Reaches(PrerequisiteEdges(needs), after, x)
  }

  lemma BehindStep(needs: Prerequisites, after: OperationId, x: OperationId, y: OperationId)
    requires Behind(needs, after, x) && x in needs && y in needs[x]
    ensures Reaches(PrerequisiteEdges(needs), after, y)
  {
    var edges := PrerequisiteEdges(needs);
    StepReaches(edges, x, y);
    if x != after { ReachesTransitive(edges, after, x, y); }
  }

  lemma ExploredMeansUnreachable(needs: Prerequisites, seen: set<OperationId>, before: OperationId, after: OperationId)
    requires Explored(needs, seen, [], before) && after in seen
    ensures !Reaches(PrerequisiteEdges(needs), after, before)
  {
    var edges := PrerequisiteEdges(needs);
    if Reaches(edges, after, before) {
      var p :| IsPath(edges, p) && |p| >= 2 && p[0] == after && p[|p| - 1] == before;
      assert (p[|p| - 2], p[|p| - 1]) in edges;
      PathStaysInClosed(edges, seen, p, |p| - 2);
    }
  }

  /** Backward search: true exactly when `after` transitively needs `before`. */
  method OperationPrecedes(before: OperationId, after: OperationId, needs: Prerequisites) returns (found: bool)
    ensures found <==> Reaches(PrerequisiteEdges(needs), after, before)
  {
    var pending := [after];
    var seen: set<OperationId> := {};
    ghost var universe := {after} + (set id, x | id in needs && x in needs[id] :: x);
    while pending != []
      invariant forall x :: x in pending ==> Behind(needs, after, x) && x in universe
      invariant seen <= universe && (after in seen || after in pending)
      invariant forall x :: x in seen ==> Behind(needs, after, x)
      invariant Explored(needs, seen, pending, before)
      decreases universe - seen, |pending|
    {
      var current := pending[|pending| - 1];
      assert current in pending;
      ghost var was := pending;
      pending := pending[..|pending| - 1];
      assert forall y :: y in was ==> y in pending || y == current;
      if current in seen { continue; }
      seen := seen + {current};
      if current !in needs { continue; }
      if before in needs[current] {
        BehindStep(needs, after, current, before);
        return true;
      }
      forall y | y in needs[current] ensures Behind(needs, after, y) && y in universe {
        BehindStep(needs, after, current, y);
      }
      pending := pending + needs[current];
    }
    ExploredMeansUnreachable(needs, seen, before, after);
    found := false;
  }

  // ---------------------------------------------------------------- validation

  function Ids(operations: seq<Operation>): set<OperationId> {
    set i | 0 <= i < |operations| :: operations[i].id
  }

  function Keys(operations: seq<Operation>): set<string> {
    set i | 0 <= i < |operations| :: operations[i].idempotencyKey
  }

  lemma IdentityStep(operations: seq<Operation>, n: nat)
    requires n < |operations|
    ensures UniqueIds(operations[..n + 1]) <==> UniqueIds(operations[..n]) && operations[n].id !in Ids(operations[..n])
    ensures UniqueKeys(operations[..n + 1]) <==> UniqueKeys(operations[..n]) && operations[n].idempotencyKey !in Keys(operations[..n])
    ensures Ids(operations[..n + 1]) == Ids(operations[..n]) + {operations[n].id}
    ensures Keys(operations[..n + 1]) == Keys(operations[..n]) + {operations[n].idempotencyKey}
    ensures Needs(operations[..n + 1]) == Needs(operations[..n])[operations[n].id := operations[n].prerequisites]
  {
    assert operations[..n + 1] == operations[..n] + [operations[n]];
    IdStep(operations[..n], operations[n]);
    KeyStep(operations[..n], operations[n]);
    NeedsStep(operations[..n], operations[n]);
    hide UniqueIds, UniqueKeys, Ids, Keys, Needs;
  }

  lemma IdStep(operations: seq<Operation>, o: Operation)
    ensures UniqueIds(operations + [o]) <==> UniqueIds(operations) && o.id !in Ids(operations)
    ensures Ids(operations + [o]) == Ids(operations) + {o.id}
  {
    var after := operations + [o];
    assert forall i :: 0 <= i < |operations| ==> after[i] == operations[i];
    assert after[|operations|] == o;
  }

  lemma KeyStep(operations: seq<Operation>, o: Operation)
    ensures UniqueKeys(operations + [o]) <==> UniqueKeys(operations) && o.idempotencyKey !in Keys(operations)
    ensures Keys(operations + [o]) == Keys(operations) + {o.idempotencyKey}
  {
    var after := operations + [o];
    assert forall i :: 0 <= i < |operations| ==> after[i] == operations[i];
    assert after[|operations|] == o;
  }

  lemma NeedsStep(operations: seq<Operation>, o: Operation)
    ensures Needs(operations + [o]) == Needs(operations)[o.id := o.prerequisites]
  {
    assert (operations + [o])[..|operations|] == operations;
  }

  lemma UniquePrefix(operations: seq<Operation>, n: nat)
    requires n <= |operations|
    ensures UniqueIds(operations) ==> UniqueIds(operations[..n])
    ensures UniqueKeys(operations) ==> UniqueKeys(operations[..n])
  {
  }

  method CheckIdentities(operations: seq<Operation>) returns (r: Check, needs: Prerequisites)
    ensures r.Ok? <==> UniqueIds(operations) && UniqueKeys(operations)
    ensures r.Err? ==> r == Err(SchemaInvalid)
    ensures r.Ok? ==> needs == Needs(operations)
  {
    hide UniqueIds, UniqueKeys, Needs, Ids, Keys;
    needs := map[];
    var operationIds: set<OperationId>, operationKeys: set<string> := {}, {};
    NothingYet();
    for n := 0 to |operations|
      invariant UniqueIds(operations[..n]) && UniqueKeys(operations[..n])
      invariant operationIds == Ids(operations[..n]) && operationKeys == Keys(operations[..n])
      invariant needs == Needs(operations[..n])
    {
      IdentityStep(operations, n);
      UniquePrefix(operations, n + 1);
      var operation := operations[n];
      if operation.id in operationIds { return Err(SchemaInvalid), needs; }
      if operation.idempotencyKey in operationKeys { return Err(SchemaInvalid), needs; }
      operationIds := operationIds + {operation.id};
      operationKeys := operationKeys + {operation.idempotencyKey};
      needs := needs[operation.id := operation.prerequisites];
    }
    assert operations[..|operations|] == operations;
    r := Ok(());
  }

  lemma NothingYet()
    ensures UniqueIds([]) && UniqueKeys([]) && Ids([]) == {} && Keys([]) == {} && Needs([]) == map[]
  {
  }

  method CheckPrerequisites(operations: seq<Operation>, needs: Prerequisites) returns (r: Check)
    requires UniqueIds(operations) && needs == Needs(operations)
    ensures r == if Complete(needs) then Ok(()) else Err(SchemaInvalid)
  {
    for n := 0 to |operations|
      invariant forall i, x :: 0 <= i < n && x in operations[i].prerequisites ==> x in needs
    {
      NeedsLookup(operations, n);
      if exists x :: x in operations[n].prerequisites && x !in needs { return Err(SchemaInvalid); }
    }
    forall id, x | id in needs && x in needs[id] ensures x in needs {
      var i :| 0 <= i < |operations| && operations[i].id == id;
      NeedsLookup(operations, i);
    }
    r := Ok(());
  }

  method CheckEach(operations: seq<Operation>, indexed: set<ObjectId>) returns (r: Check)
    ensures r == CheckOperations(operations, indexed)
  {
    for n := 0 to |operations|
      invariant CheckOperations(operations[..n], indexed).Ok?
    {
      assert operations[..n + 1][..n] == operations[..n];
      var verdict := CheckOperation(operations[n], indexed);
      if verdict.Err? {
        FirstErrorStands(operations, indexed, n + 1);
        return verdict;
      }
    }
    assert operations[..|operations|] == operations;
    r := Ok(());
  }

  lemma {:induction false} FirstErrorStands(operations: seq<Operation>, indexed: set<ObjectId>, n: nat)
    requires n <= |operations| && CheckOperations(operations[..n], indexed).Err?
    ensures CheckOperations(operations, indexed) == CheckOperations(operations[..n], indexed)
    decreases |operations|
  {
    if n < |operations| {
      var shorter := operations[..|operations| - 1];
      assert shorter[..n] == operations[..n];
      FirstErrorStands(shorter, indexed, n);
    } else {
      assert operations[..n] == operations;
    }
  }

  ghost predicate PairOrdered(operations: seq<Operation>, i: nat, j: nat)
    requires i < |operations| && j < |operations|
  {
    Conflicting(operations[i], operations[j]) ==> Related(Needs(operations), operations[i].id, operations[j].id)
  }

  method CheckConflicts(operations: seq<Operation>, needs: Prerequisites) returns (r: Check)
    requires needs == Needs(operations)
    ensures r == if ConflictsOrdered(operations) then Ok(()) else Err(SecurityPolicy)
  {
    hide PairOrdered, Needs;
    for i := 0 to |operations|
      invariant forall x, y :: 0 <= x < i && x < y < |operations| ==> PairOrdered(operations, x, y)
    {
      for j := i + 1 to |operations|
        invariant forall y :: i < y < j ==> PairOrdered(operations, i, y)
      {
        var ordered := PairIsOrdered(operations, i, j, needs);
        if !ordered {
          assert !ConflictsOrdered(operations);
          return Err(SecurityPolicy);
        }
      }
    }
    r := Ok(());
  }

  method PairIsOrdered(operations: seq<Operation>, i: nat, j: nat, needs: Prerequisites) returns (ordered: bool)
    requires i < |operations| && j < |operations| && needs == Needs(operations)
    ensures ordered <==> PairOrdered(operations, i, j)
  {
    if !Conflicting(operations[i], operations[j]) { return true; }
    ordered := OperationPrecedes(operations[i].id, operations[j].id, needs);
    if !ordered {
      ordered := OperationPrecedes(operations[j].id, operations[i].id, needs);
    }
  }

  method ValidateRestorePlan(operations: seq<Operation>, objects: seq<ObjectId>) returns (r: Check)
    ensures r == Verdict(operations, objects)
  {
    var needs;
    r, needs := CheckIdentities(operations);
    if r.Err? { return; }
    r := CheckPrerequisites(operations, needs);
    if r.Err? { return; }
    ghost var order;
    r, order := VisitAll(needs);
    if r.Err? { return; }
    if !UniqueObjects(objects) { return Err(SchemaInvalid); }
    r := CheckEach(operations, set o | o in objects);
    if r.Err? { return; }
    r := CheckConflicts(operations, needs);
  }

  // ---------------------------------------------------------------- what acceptance means

  /** A complete acyclic plan can be run, so orders of its executions are
      meaningful. */
  lemma AcyclicPlansExecute(needs: Prerequisites, pending: set<OperationId>, done: seq<OperationId>)
    returns (order: seq<OperationId>)
    requires Complete(needs) && !Cyclic(PrerequisiteEdges(needs)) && Linear(needs, done)
    requires pending <= needs.Keys && forall id :: id in needs.Keys - pending ==> id in done
    ensures Execution(needs, order)
    decreases pending
  {
    if pending == {} {
      order := done;
    } else {
      var id :| id in pending;
      var longer := Schedule(needs, {}, id, done);
      order := AcyclicPlansExecute(needs, pending - {id}, longer);
    }
  }

  lemma Schedule(needs: Prerequisites, above: set<OperationId>, id: OperationId, done: seq<OperationId>)
    returns (order: seq<OperationId>)
    requires Complete(needs) && !Cyclic(PrerequisiteEdges(needs)) && Linear(needs, done)
    requires id in needs && above <= needs.Keys && OnPath(needs, above, id)
    requires forall x :: x in above ==> x !in done
    ensures Linear(needs, order) && id in order && forall x :: x in done ==> x in order
    ensures forall x :: x in above ==> x !in order
    decreases needs.Keys - above
  {
    order := done;
    if id in done { return; }
    assert id !in above;
    var n := 0;
    while n < |needs[id]|
      invariant n <= |needs[id]| && Linear(needs, order) && forall x :: x in done ==> x in order
      invariant forall k :: 0 <= k < n ==> needs[id][k] in order
      invariant forall x :: x in above + {id} ==> x !in order
    {
      assert needs[id][n] in needs[id];
      PathGrows(needs, above, id, needs[id][n]);
      order := Schedule(needs, above + {id}, needs[id][n], order);
      n := n + 1;
    }
    LinearAppend(needs, order, id);
    order := order + [id];
  }

  /** Any two executions perform a conflicting pair in the same order. */
  ghost predicate PairFixed(operations: seq<Operation>, i: nat, j: nat)
    requires i < |operations| && j < |operations|
  {
    Conflicting(operations[i], operations[j]) ==> OrderIsFixed(Needs(operations), operations[i].id, operations[j].id)
  }

  lemma PairOrderedIsPairFixed(operations: seq<Operation>, order: seq<OperationId>, i: nat, j: nat)
    requires IndexSound(operations) && Execution(Needs(operations), order) && i < j < |operations|
    ensures PairOrdered(operations, i, j) <==> PairFixed(operations, i, j)
  {
    hide Conflicting;
    NeedsLookup(operations, i);
    NeedsLookup(operations, j);
    FixedOrderIsPrecedence(Needs(operations), order, operations[i].id, operations[j].id);
  }

  /** Ordering of conflicts is exactly what makes runs deterministic: a plan that
      passes every other check is accepted if and only if any two executions
      perform each conflicting pair in the same order. */
  lemma AcceptanceIsDeterminism(operations: seq<Operation>, objects: seq<ObjectId>)
    requires IndexSound(operations) && !Cyclic(PrerequisiteEdges(Needs(operations)))
    requires UniqueObjects(objects) && CheckOperations(operations, set o | o in objects).Ok?
    ensures Verdict(operations, objects).Ok?
      <==> (forall i, j :: 0 <= i < j < |operations| ==> PairFixed(operations, i, j))
  {
    hide PairFixed, PairOrdered;
    var order := AcyclicPlansExecute(Needs(operations), Needs(operations).Keys, []);
    forall i, j | 0 <= i < j < |operations|
      ensures PairOrdered(operations, i, j) <==> PairFixed(operations, i, j)
    {
      PairOrderedIsPairFixed(operations, order, i, j);
    }
  }

  // ---------------------------------------------------------------- what is not ordered

  /** Two writes or merges that touch the same place. */
  predicate Overlapping(a: Operation, b: Operation) {
    IsWrite(a.kind) && IsWrite(b.kind) && PathsOverlap(a.kind.destination, b.kind.destination)
  }

  ghost predicate OverlapFixed(operations: seq<Operation>, i: nat, j: nat)
    requires i < |operations| && j < |operations|
  {
    Overlapping(operations[i], operations[j]) ==> OrderIsFixed(Needs(operations), operations[i].id, operations[j].id)
  }

  /** Overlapping writes, or overlapping merges, of which one needs the other. */
  ghost predicate LikeOverlapOrdered(operations: seq<Operation>, i: nat, j: nat)
    requires i < |operations| && j < |operations|
  {
    (Overlapping(operations[i], operations[j]) && IsMerge(operations[i].kind) == IsMerge(operations[j].kind))
      ==> Related(Needs(operations), operations[i].id, operations[j].id)
  }

  lemma OverlapIsConflictOrLike(operations: seq<Operation>, order: seq<OperationId>, i: nat, j: nat)
    requires IndexSound(operations) && Execution(Needs(operations), order) && i < j < |operations|
    ensures OverlapFixed(operations, i, j) <==> PairOrdered(operations, i, j) && LikeOverlapOrdered(operations, i, j)
  {
    hide PathsOverlap, OrderIsFixed, Execution, Reaches, Needs;
    NeedsLookup(operations, i);
    NeedsLookup(operations, j);
    FixedOrderIsPrecedence(Needs(operations), order, operations[i].id, operations[j].id);
  }

  /** Acceptance does not fix the order of two overlapping writes or of two
      overlapping merges. An accepted plan performs everything that overlaps in
      one order exactly when its prerequisites relate those pairs as well. */
  lemma OverlapsAreFixedExactlyWhenLikeOnesAreOrdered(operations: seq<Operation>, objects: seq<ObjectId>)
    requires Verdict(operations, objects).Ok?
    ensures (forall i, j :: 0 <= i < j < |operations| ==> OverlapFixed(operations, i, j))
      <==> (forall i, j :: 0 <= i < j < |operations| ==> LikeOverlapOrdered(operations, i, j))
  {
    hide OverlapFixed, LikeOverlapOrdered, PairOrdered, CheckOperations, UniqueObjects;
    var order := AcyclicPlansExecute(Needs(operations), Needs(operations).Keys, []);
    forall i, j | 0 <= i < j < |operations|
      ensures OverlapFixed(operations, i, j) <==> LikeOverlapOrdered(operations, i, j)
    {
      OverlapIsConflictOrLike(operations, order, i, j);
    }
  }

  /** Only a plain write against a merge counts as a conflict: two plain writes
      of one file are accepted without any ordering between them. */
  lemma TwoPlainWritesAreAccepted(place: PathToken, o: ObjectId) returns (plan: seq<Operation>)
    requires ValidToken(place) && place.root == UserProfile
    ensures |plan| == 2 && Verdict(plan, [o]).Ok?
    ensures plan[0].kind.WriteFile? && plan[1].kind.WriteFile? && plan[0].kind.destination == plan[1].kind.destination
    ensures !OrderIsFixed(Needs(plan), plan[0].id, plan[1].id)
  {
    var kind := WriteFile(place, o);
    var first := Operation(0, kind, [], OtherCondition, "a", [], false);
    var second := Operation(1, kind, [], OtherCondition, "b", [], false);
    plan := [first, second];
    TwoFreeOperations(plan);
    assert plan[..1] == [first] && plan[..1][..0] == [];
    assert forall x :: x in OperationObjects(kind) ==> x == o;
    var indexed := set x | x in [o];
    assert CheckOperation(first, indexed).Ok? && CheckOperation(second, indexed).Ok?;
    assert CheckOperations([first], indexed).Ok? by { assert [first][..0] == []; }
    assert !Conflicting(plan[0], plan[1]);
  }

  lemma TwoFreeOperations(plan: seq<Operation>)
    requires |plan| == 2 && plan[0].prerequisites == [] && plan[1].prerequisites == []
    requires plan[0].id == 0 && plan[1].id == 1 && plan[0].idempotencyKey != plan[1].idempotencyKey
    ensures IndexSound(plan) && !Cyclic(PrerequisiteEdges(Needs(plan)))
    ensures !OrderIsFixed(Needs(plan), 0, 1)
  {
    assert plan[..1][..0] == [];
    assert Needs(plan[..1]) == map[0 := []];
    assert Needs(plan) == map[0 := [], 1 := []];
    FreePairIsUnordered(Needs(plan));
  }
}
