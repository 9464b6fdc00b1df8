/** The tables behind the storage-entity service as one value, what each service operation does to
    them, and the invariant every run keeps. */
module StorageEntityTables {
  import opened Wrappers
  import opened Forest
  import opened ClosureTable

  /** The nine tables whose rows belong to an entity (deleteData clears them one by one). */
  datatype DataTable =
    | BLOCK_SIZE_LATENCY | EXTERNALS | HOST_GROUP_METRICS | PARITY_GROUP_METRICS | CHA_METRICS
    | POOL_METRICS | PORT_METRICS | SYSTEM_METRICS | STORAGE_ENTITY_DETAILS

  datatype DataRow = DataRow(table: DataTable, key: int, owner: Id)

  datatype Tables = Tables(rows: Rows, closure: Pairs, data: set<DataRow>, lastId: Id)

  datatype EntityRequest = EntityRequest(
    name: string, typ: EntityType, parentId: Option<Id>, serialNumber: Option<string>)

  datatype ServiceError = EntityNotFound | AlreadyExists | NotFoundOrInactive | NotFound | NoDatacenter

  /** No parent link, closure pair or data row refers to a missing entity. */
  ghost predicate ReferencesHold(t: Tables) {
    && ParentsExist(t.rows)
    && (forall x | x in t.closure :: x.0 in t.rows && x.1 in t.rows)
    && (forall r | r in t.data :: r.owner in t.rows)
  }

  /** References hold and the id sequence is ahead of every id. */
  ghost predicate Grounded(t: Tables) {
    ReferencesHold(t) && forall id | id in t.rows :: id <= t.lastId
  }

  /** On top of that the parent links form a forest and the closure table is its reachability. */
  ghost predicate Inv(t: Tables) {
    && Grounded(t)
    && Acyclic(t.rows)
    && IsClosure(t.rows, t.closure)
  }

  /** Rows may have been added and changed; without a new row nothing but rows differs. */
  ghost predicate OnlyCreates(t: Tables, u: Tables) {
    t.rows.Keys <= u.rows.Keys && (u.rows.Keys == t.rows.Keys ==> u == t.(rows := u.rows))
  }

  // ---------- create ----------

  predicate NameIsGlobal(typ: EntityType) {
    typ in {DATACENTER, SYSTEM, POOL}
  }

  /** isAlreadyExists: system and pool names are compared over all entities, others among the children of the parent. */
  predicate AlreadyTaken(rows: Rows, request: EntityRequest, parentId: Id) {
    exists x | x in rows ::
      rows[x].name == request.name && rows[x].typ == request.typ &&
      (NameIsGlobal(request.typ) || rows[x].parent == Some(parentId))
  }

  function CreateError(rows: Rows, request: EntityRequest): Option<ServiceError> {
    if request.typ == DATACENTER then None
    else if request.parentId.None? || request.parentId.value !in rows then Some(EntityNotFound)
    else if AlreadyTaken(rows, request, request.parentId.value) then Some(AlreadyExists)
    else None
  }

  function NewEntity(request: EntityRequest): Entity {
    Entity(request.name, request.typ, ACTIVE, request.serialNumber,
           if request.typ == DATACENTER then None else request.parentId)
  }

  /** A new row under the next id of the sequence, with its closure rows. */
  function AddLeaf(t: Tables, e: Entity): Tables {
    var id := t.lastId + 1;
    var own := t.closure + {(id, id)};
    Tables(t.rows[id := e], own + CrossJoin(own, e.parent, id), t.data, id)
  }

  function CreateSpec(t: Tables, request: EntityRequest): Tables {
    if CreateError(t.rows, request).Some? then t else AddLeaf(t, NewEntity(request))
  }

  /** The name is free where it has to be: a system's or pool's everywhere, any other among the children of the parent. */
  ghost predicate NameFree(rows: Rows, name: string, typ: EntityType, parent: Option<Id>) {
    forall x | x in rows && rows[x].name == name && rows[x].typ == typ ::
      typ != SYSTEM && typ != POOL && rows[x].parent != parent
  }

  /** One entity more, under the next id, with the requested name, type and serial number, active, below the requested
      parent; the index gains the pairs that end in it and nothing else. */
  ghost predicate Created(before: Tables, after: Tables, request: EntityRequest) {
    var id, parent := before.lastId + 1, if request.typ == DATACENTER then None else request.parentId;
    && after.lastId == id && id !in before.rows && after.data == before.data
    && after.rows == before.rows[id := Entity(request.name, request.typ, ACTIVE, request.serialNumber, parent)]
    && forall a, d :: (a, d) in after.closure <==>
         (a, d) in before.closure || (d == id && (a == id || (parent.Some? && (a, parent.value) in before.closure)))
  }

  /** When a create is refused, and what it does when it is not. */
  lemma CreateMeans(t: Tables, request: EntityRequest)
    requires Grounded(t)
    ensures CreateError(t.rows, request) ==
            if request.typ == DATACENTER then None
            else if request.parentId.None? || request.parentId.value !in t.rows then Some(EntityNotFound)
            else if !NameFree(t.rows, request.name, request.typ, request.parentId) then Some(AlreadyExists)
            else None
    ensures CreateError(t.rows, request).Some? ==> CreateSpec(t, request) == t
    ensures CreateError(t.rows, request).None? ==> Created(t, CreateSpec(t, request), request)
  {
    if CreateError(t.rows, request).None? {
      var id, own := t.lastId + 1, t.closure + {(t.lastId + 1, t.lastId + 1)};
      var parent := NewEntity(request).parent;
      forall a, d ensures (a, d) in CrossJoin(own, parent, id) <==> d == id && parent.Some? && (a, parent.value) in t.closure {
        if d == id && parent.Some? && (a, parent.value) in t.closure {
          assert (a, parent.value) in own && (id, id) in own;
        }
      }
    }
  }

  /** Both closure inserts are accepted and references keep holding, even where the index has gone stale. */
  lemma AddLeafKeepsGrounded(t: Tables, e: Entity)
    requires Grounded(t) && (e.parent.Some? ==> e.parent.value in t.rows)
    ensures Grounded(AddLeaf(t, e))
    ensures var id := t.lastId + 1;
            var own := Insert(t.closure, {(id, id)});
            own.Some? && Insert(own.value, CrossJoin(own.value, e.parent, id)).Some?
  {
  }

  lemma AddLeafKeepsInv(t: Tables, e: Entity)
    requires Inv(t) && (e.parent.Some? ==> e.parent.value in t.rows)
    ensures Inv(AddLeaf(t, e))
  {
    var id := t.lastId + 1;
    AddKeepsForest(t.rows, id, e);
    AddLeafClosure(t.rows, t.closure, id, e);
    ClosureRefersToRows(t.rows[id := e], AddLeaf(t, e).closure);
  }

  lemma ClosureRefersToRows(rows: Rows, pairs: Pairs)
    requires IsClosure(rows, pairs)
    ensures forall x | x in pairs :: x.0 in rows && x.1 in rows
  {
    forall x | x in pairs ensures x.0 in rows && x.1 in rows {
      assert (x.0, x.1) in pairs;
      ReachesExists(rows, x.0, x.1);
    }
  }

  /** Creates one after another, refused ones included. */
  function CreateAll(t: Tables, requests: seq<EntityRequest>): Tables {
    if requests == [] then t else CreateSpec(CreateAll(t, requests[..|requests| - 1]), requests[|requests| - 1])
  }

  ghost predicate CreatesLeadTo(t: Tables, u: Tables) {
    exists requests :: u == CreateAll(t, requests)
  }

  lemma {:induction false} CreateAllAppend(t: Tables, a: seq<EntityRequest>, b: seq<EntityRequest>)
    ensures CreateAll(t, a + b) == CreateAll(CreateAll(t, a), b)
    decreases |b|
  {
    if b == [] {
      assert a + b == a;
    } else {
      CreateAllAppend(t, a, b[..|b| - 1]);
      assert (a + b)[..|a + b| - 1] == a + b[..|b| - 1];
    }
  }

  lemma CreatesNothing(t: Tables)
    ensures CreatesLeadTo(t, t)
  {
    assert CreateAll(t, []) == t;
  }

  lemma OneMoreCreate(t: Tables, u: Tables, request: EntityRequest)
    requires CreatesLeadTo(t, u)
    ensures CreatesLeadTo(t, CreateSpec(u, request))
  {
    var requests :| u == CreateAll(t, requests);
    assert (requests + [request])[..|requests|] == requests;
    assert CreateSpec(u, request) == CreateAll(t, requests + [request]);
  }

  lemma CreatesChain(t: Tables, u: Tables, v: Tables)
    requires CreatesLeadTo(t, u) && CreatesLeadTo(u, v)
    ensures CreatesLeadTo(t, v)
  {
    var a :| u == CreateAll(t, a);
    var b :| v == CreateAll(u, b);
    CreateAllAppend(t, a, b);
  }

  lemma {:induction false} CreateAllKeepsInv(t: Tables, requests: seq<EntityRequest>)
    requires Inv(t)
    ensures Inv(CreateAll(t, requests))
  {
    if requests != [] {
      var before := CreateAll(t, requests[..|requests| - 1]);
      CreateAllKeepsInv(t, requests[..|requests| - 1]);
      CreateKeepsInv(before, requests[|requests| - 1]);
    }
  }

  /** An accepted create adds exactly its own row under the next id. */
  lemma CreateAdds(t: Tables, request: EntityRequest)
    requires Grounded(t) && CreateError(t.rows, request).None?
    ensures var u := CreateSpec(t, request);
            && u.lastId == t.lastId + 1 && u.lastId !in t.rows && u.rows.Keys == t.rows.Keys + {u.lastId}
            && u.rows == t.rows[u.lastId := NewEntity(request)] && Extends(t.rows, u.rows)
  {
  }

  lemma CreateKeepsInv(t: Tables, request: EntityRequest)
    requires Inv(t)
    ensures Inv(CreateSpec(t, request))
  {
    if CreateError(t.rows, request).None? { AddLeafKeepsInv(t, NewEntity(request)); }
  }

  // ---------- move ----------

  predicate IsActive(rows: Rows, id: Id) {
    id in rows && rows[id].status != INACTIVE
  }

  predicate MoveAccepted(rows: Rows, id: Id, parentId: Id) {
    IsActive(rows, id) && IsActive(rows, parentId)
  }

  /** The two closure queries and then the save; a rejected insert leaves the table as the delete left it,
      and the parent link is written all the same. */
  function MoveSpec(t: Tables, id: Id, parentId: Id): Tables {
    if !MoveAccepted(t.rows, id, parentId) then t
    else
      var cut := CutSubtree(t.closure, id);
      var grafted := Insert(cut, CrossJoin(cut, Some(parentId), id));
      t.(rows := SetParent(t.rows, id, parentId),
         closure := if grafted.Some? then grafted.value else cut)
  }

  /** The move stays outside the subtree it moves (or is refused). */
  predicate SafeMove(t: Tables, id: Id, parentId: Id) {
    MoveAccepted(t.rows, id, parentId) ==> (id, parentId) !in t.closure
  }

  /** A move keeps the invariant exactly when the new parent is not in the moved subtree. */
  lemma MoveKeepsInvIff(t: Tables, id: Id, parentId: Id)
    requires Inv(t)
    ensures Inv(MoveSpec(t, id, parentId)) <==> SafeMove(t, id, parentId)
  {
    if MoveAccepted(t.rows, id, parentId) {
      MoveAcyclicIff(t.rows, id, parentId);
      if SafeMove(t, id, parentId) {
        MoveClosure(t.rows, t.closure, id, parentId);
        var after := MoveSpec(t, id, parentId);
        ClosureRefersToRows(after.rows, after.closure);
      }
    }
  }

  /** The entity hangs below the new parent and nothing else changed in any row, data row or id. */
  ghost predicate Moved(before: Tables, after: Tables, id: Id, parentId: Id)
    requires id in before.rows
  {
    && after.rows == before.rows[id := before.rows[id].(parent := Some(parentId))]
    && after.data == before.data && after.lastId == before.lastId
  }

  /** The index after a move: that of the re-parented forest when the new parent lies outside the moved subtree, and
      otherwise the old one without the pairs that ran from strictly above the entity into its subtree. */
  ghost predicate MovedIndex(before: Tables, after: Tables, id: Id, parentId: Id) {
    if (id, parentId) !in before.closure then IsClosure(after.rows, after.closure)
    else forall a, d :: (a, d) in after.closure <==>
           (a, d) in before.closure && !((a, id) in before.closure && a != id && (id, d) in before.closure)
  }

  lemma MoveMeans(t: Tables, id: Id, parentId: Id)
    ensures !(id in t.rows && parentId in t.rows && t.rows[id].status == ACTIVE && t.rows[parentId].status == ACTIVE) ==>
              MoveSpec(t, id, parentId) == t
    ensures id in t.rows && parentId in t.rows && t.rows[id].status == ACTIVE && t.rows[parentId].status == ACTIVE ==>
              Moved(t, MoveSpec(t, id, parentId), id, parentId)
              && (Inv(t) ==> MovedIndex(t, MoveSpec(t, id, parentId), id, parentId))
  {
    if MoveAccepted(t.rows, id, parentId) && Inv(t) {
      MoveCollidesIff(t.rows, t.closure, id, parentId);
      if (id, parentId) !in t.closure {
        MoveClosure(t.rows, t.closure, id, parentId);
      } else {
        forall a, d ensures (a, d) in CutSubtree(t.closure, id) <==>
            (a, d) in t.closure && !((a, id) in t.closure && a != id && (id, d) in t.closure)
        {
          assert d in DescendantsOf(t.closure, id) <==> (id, d) in t.closure;
          assert a in ProperAncestorsOf(t.closure, id) <==> (a, id) in t.closure && a != id;
        }
      }
    }
  }

  /** Every statement of a move leaves the table referring to present entities only. */
  lemma MoveKeepsReferences(t: Tables, id: Id, parentId: Id)
    requires ReferencesHold(t) && id in t.rows && parentId in t.rows
    ensures var cut := CutSubtree(t.closure, id);
            var grafted := cut + CrossJoin(cut, Some(parentId), id);
            && ReferencesHold(t.(closure := cut)) && ReferencesHold(t.(closure := grafted))
            && ReferencesHold(t.(rows := SetParent(t.rows, id, parentId), closure := cut))
            && ReferencesHold(t.(rows := SetParent(t.rows, id, parentId), closure := grafted))
  {
    var cut := CutSubtree(t.closure, id);
    assert forall x | x in cut :: x in t.closure;
    assert forall x | x in CrossJoin(cut, Some(parentId), id) :: x.0 in t.rows && x.1 in t.rows;
  }

  /** A move into its own subtree, the shortest one: a lone entity moved below itself is accepted, ends as its own
      parent, and the rejected insert leaves the table as it was. */
  lemma MoveBelowItself()
    ensures var t := Tables(map[1 := Entity("a", DATACENTER, ACTIVE, None, None)], {(1, 1)}, {}, 1);
            && Inv(t) && MoveAccepted(t.rows, 1, 1)
            && MoveSpec(t, 1, 1).rows[1].parent == Some(1) && MoveSpec(t, 1, 1).closure == t.closure
            && !Inv(MoveSpec(t, 1, 1))
  {
    var e := Entity("a", DATACENTER, ACTIVE, None, None);
    var empty := Tables(map[], {}, {}, 0);
    var t := Tables(map[1 := e], {(1, 1)}, {}, 1);
    assert Inv(empty) by { assert forall a, d :: !Reaches(empty.rows, a, d); }
    AddLeafKeepsInv(empty, e);
    assert AddLeaf(empty, e) == t by {
      assert empty.rows[1 := e] == t.rows;
      assert CrossJoin({(1, 1)}, None, 1) == {};
    }
    MoveKeepsInvIff(t, 1, 1);
    assert CutSubtree(t.closure, 1) == t.closure;
    assert (1, 1) in CrossJoin(t.closure, Some(1), 1);
  }

  // ---------- delete ----------

  /** The tables without the entities gone, their closure pairs and their data rows. */
  function Without(t: Tables, gone: set<Id>): Tables {
    t.(rows := t.rows - gone,
       closure := (set x | x in t.closure && x.0 !in gone && x.1 !in gone),
       data := (set r | r in t.data && r.owner !in gone))
  }

  ghost function DeleteSpec(t: Tables, id: Id): Tables {
    Without(t, Subtree(t.rows, id))
  }

  /** Exactly the entities reached from id are gone, and exactly the data rows and pairs that refer to one of them. */
  ghost predicate Deleted(before: Tables, after: Tables, id: Id) {
    && (forall x :: x in after.rows <==> x in before.rows && !Reaches(before.rows, id, x))
    && (forall x | x in after.rows :: after.rows[x] == before.rows[x])
    && (forall a, d :: (a, d) in after.closure <==>
          (a, d) in before.closure && !Reaches(before.rows, id, a) && !Reaches(before.rows, id, d))
    && (forall r :: r in after.data <==> r in before.data && !Reaches(before.rows, id, r.owner))
    && after.lastId == before.lastId
  }

  lemma DeleteMeans(t: Tables, id: Id)
    requires Inv(t)
    ensures Deleted(t, DeleteSpec(t, id), id)
  {
    forall a, d | (a, d) in t.closure ensures a in t.rows && d in t.rows {}
    forall x ensures x in Subtree(t.rows, id) <==> x in t.rows && Reaches(t.rows, id, x) {}
  }

  lemma DeleteKeepsInv(t: Tables, id: Id)
    requires Inv(t)
    ensures Inv(DeleteSpec(t, id))
    ensures DeleteSpec(t, id).closure == DropSubtree(t.closure, id)
  {
    SubtreeParents(t.rows, id);
    RemoveKeepsForest(t.rows, Subtree(t.rows, id));
    DropSubtreeClosure(t.rows, t.closure, id);
    forall x ensures x in DeleteSpec(t, id).closure <==> x in DropSubtree(t.closure, id) {
      assert x == (x.0, x.1);
    }
    ClosureRefersToRows(t.rows - Subtree(t.rows, id), DropSubtree(t.closure, id));
  }

  // ---------- status ----------

  /** The given status on every entity of the subtree of id, everything else as it was. */
  ghost function StatusSpec(t: Tables, id: Id, status: Status): Tables {
    t.(rows := map x | x in t.rows ::
         if Reaches(t.rows, id, x) then t.rows[x].(status := status) else t.rows[x])
  }

  /** The status is written on exactly the entities reached from id, and nothing else is. */
  ghost predicate StatusWritten(before: Tables, after: Tables, id: Id, status: Status) {
    && after.rows.Keys == before.rows.Keys
    && (forall x | x in before.rows ::
          after.rows[x] == if Reaches(before.rows, id, x) then before.rows[x].(status := status) else before.rows[x])
    && after.closure == before.closure && after.data == before.data && after.lastId == before.lastId
  }

  lemma StatusMeans(t: Tables, id: Id, status: Status)
    ensures StatusWritten(t, StatusSpec(t, id, status), id, status)
  {
  }

  predicate SameLinks(before: Rows, after: Rows) {
    before.Keys == after.Keys && forall x | x in before :: before[x].parent == after[x].parent
  }

  lemma {:induction false} SameLinksSamePaths(before: Rows, after: Rows, d: Id, n: nat)
    requires SameLinks(before, after)
    ensures Up(before, d, n) == Up(after, d, n)
    decreases n
  {
    if n > 0 && d in before && before[d].parent.Some? {
      SameLinksSamePaths(before, after, before[d].parent.value, n - 1);
    }
  }

  lemma SameLinksSameForest(before: Rows, after: Rows)
    requires SameLinks(before, after)
    ensures forall a, d :: Reaches(before, a, d) <==> Reaches(after, a, d)
    ensures Acyclic(before) <==> Acyclic(after)
    ensures ParentsExist(before) <==> ParentsExist(after)
  {
    forall d, n: nat ensures Up(before, d, n) == Up(after, d, n) {
      SameLinksSamePaths(before, after, d, n);
    }
    forall a, d ensures Reaches(before, a, d) <==> Reaches(after, a, d) {
      if Reaches(before, a, d) {
        var n: nat :| Up(before, d, n) == Some(a);
        assert Up(after, d, n) == Some(a);
      }
    }
    assert ParentsExist(before) ==> ParentsExist(after);
    forall d | ParentsExist(after) && d in before && before[d].parent.Some? ensures before[d].parent.value in before {
      assert d in after;
    }
  }

  lemma SameLinksKeepInv(t: Tables, after: Rows)
    requires Inv(t) && SameLinks(t.rows, after)
    ensures Inv(t.(rows := after))
  {
    SameLinksSameForest(t.rows, after);
  }
}
