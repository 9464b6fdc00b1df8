/** Whole runs of the operations that change the storage entities: creates, moves, deletes, status changes,
    duplicates and find-or-create calls in any order. */
module StorageEntityRuns {
  import opened Wrappers
  import opened Forest
  import opened StorageEntityTables
  import opened StorageEntityKeys
  import opened StorageEntityRepositories
  import opened Duplication

  datatype Op =
    | Create(request: EntityRequest)
    | Move(id: Id, parentId: Id)
    | Delete(id: Id)
    | SetStatus(id: Id, status: Status)
    | Duplicate(sourceId: Id, name: string, serialNumber: Option<string>, types: seq<EntityType>)
    | FindOrCreate(key: StorageEntityKey)

  /** One operation from t to u. A duplicate may visit children in any order; find-or-create adds some lower
      end of the key's path below an entity that is there, or nothing. */
  ghost predicate Step(t: Tables, op: Op, u: Tables) {
    match op
    case Create(request) => u == CreateSpec(t, request)
    case Move(id, parentId) => u == MoveSpec(t, id, parentId)
    case Delete(id) => u == DeleteSpec(t, id)
    case SetStatus(id, status) => u == StatusSpec(t, id, status)
    case Duplicate(sourceId, name, serialNumber, types) => Duplicated(t, sourceId, name, serialNumber, types, u)
    case FindOrCreate(key) => u == t || PathAdded(t, GetKeyParts(key), u)
  }

  ghost predicate PathAdded(t: Tables, parts: seq<KeyPart>, u: Tables) {
    exists k: nat, p: Id :: k <= |parts| && p in t.rows && u == AddPath(t, parts[..k], p)
  }

  /** What find-or-create promises is such a step. */
  lemma FindOrCreateIsStep(t: Tables, key: StorageEntityKey, dc: Id, u: Tables)
    requires dc in t.rows && EndCreated(t, u, GetKeyParts(key), dc)
    ensures Step(t, FindOrCreate(key), u)
  {
    var parts := GetKeyParts(key);
    var k: nat, p: Id :| k <= |parts| && MissingEnd(t.rows, parts, dc, k, p) && u == AddPath(t, parts[..k], p);
    EndIsThere(t.rows, parts, dc, k, p);
    assert PathAdded(t, parts, u);
  }

  lemma EndIsThere(rows: Rows, parts: seq<KeyPart>, parentEntity: Id, k: nat, p: Id)
    requires parentEntity in rows && k <= |parts| && MissingEnd(rows, parts, parentEntity, k, p)
    ensures p in rows
  {
    if k < |parts| {
      var suffix := parts[k..];
      assert MatchesKey(rows, suffix, SearchUnder(rows, parentEntity), p);
    }
  }

  predicate SafeOp(t: Tables, op: Op) {
    op.Move? ==> SafeMove(t, op.id, op.parentId)
  }

  /** Every operation keeps the forest and its index, except exactly a move into its own subtree. */
  lemma StepKeepsInvIff(t: Tables, op: Op, u: Tables)
    requires Inv(t) && Step(t, op, u)
    ensures Inv(u) <==> SafeOp(t, op)
  {
    match op
    case Create(request) => CreateKeepsInv(t, request);
    case Move(id, parentId) => MoveKeepsInvIff(t, id, parentId);
    case Delete(id) => DeleteKeepsInv(t, id);
    case SetStatus(id, status) => SameLinksKeepInv(t, u.rows);
    case Duplicate(_, _, _, _) =>
      var requests :| u == CreateAll(t, requests);
      CreateAllKeepsInv(t, requests);
    case FindOrCreate(key) =>
      if u != t {
        var parts := GetKeyParts(key);
        var k: nat, p: Id :| k <= |parts| && p in t.rows && u == AddPath(t, parts[..k], p);
        AddPathKeepsInv(t, parts[..k], p);
      }
  }

  ghost predicate IsRun(states: seq<Tables>, ops: seq<Op>) {
    |states| == |ops| + 1 && forall k | 0 <= k < |ops| :: Step(states[k], ops[k], states[k + 1])
  }

  lemma {:induction false} SafeRunKeepsInv(states: seq<Tables>, ops: seq<Op>, k: nat)
    requires IsRun(states, ops) && Inv(states[0]) && k <= |ops|
    requires forall j | 0 <= j < k :: SafeOp(states[j], ops[j])
    ensures Inv(states[k])
  {
    if k > 0 {
      SafeRunKeepsInv(states, ops, k - 1);
      StepKeepsInvIff(states[k - 1], ops[k - 1], states[k]);
    }
  }

  /** Over any run, the parent links are a forest indexed exactly by the closure table after every step, if and
      only if no accepted move goes into its own subtree. */
  lemma RunKeepsInvIff(states: seq<Tables>, ops: seq<Op>)
    requires IsRun(states, ops) && Inv(states[0])
    ensures (forall k | 0 <= k <= |ops| :: Inv(states[k])) <==> (forall k | 0 <= k < |ops| :: SafeOp(states[k], ops[k]))
  {
    if forall k | 0 <= k < |ops| :: SafeOp(states[k], ops[k]) {
      forall k | 0 <= k <= |ops| ensures Inv(states[k]) {
        SafeRunKeepsInv(states, ops, k);
      }
    }
    if forall k | 0 <= k <= |ops| :: Inv(states[k]) {
      forall k | 0 <= k < |ops| ensures SafeOp(states[k], ops[k]) {
        StepKeepsInvIff(states[k], ops[k], states[k + 1]);
      }
    }
  }
}
