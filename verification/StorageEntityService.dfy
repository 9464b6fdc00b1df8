/** The storage-entity service: create, move, delete and status changes over the repository, each proved
    against its specification on the tables. */
module StorageEntityServices {
  import opened Wrappers
  import opened Forest
  import opened ClosureTable
  import opened StorageEntityTables
  import opened StorageEntityRepositories
  import opened StorageEntityKeys
  import opened Duplication

  const DATA_TABLES: seq<DataTable> := [
    BLOCK_SIZE_LATENCY, EXTERNALS, HOST_GROUP_METRICS, PARITY_GROUP_METRICS, CHA_METRICS,
    POOL_METRICS, PORT_METRICS, SYSTEM_METRICS, STORAGE_ENTITY_DETAILS]

  /** History h extends old and refers to no missing entity in any state it adds. */
  ghost predicate ReferencesHoldSince(before: seq<Tables>, h: seq<Tables>) {
    before <= h && forall k | |before| <= k < |h| :: ReferencesHold(h[k])
  }

  class StorageEntityService {
    const repository: StorageEntityRepository

    constructor (repository: StorageEntityRepository)
      ensures this.repository == repository
    {
      this.repository := repository;
    }

    method Create(request: EntityRequest) returns (r: Result<Id, ServiceError>)
      requires Inv(repository.State())
      modifies repository
      ensures repository.State() == CreateSpec(old(repository.State()), request) && Inv(repository.State())
      ensures r == match CreateError(old(repository.rows), request)
                   case Some(error) => Failure(error)
                   case None => Success(repository.lastId)
      ensures r == Failure(EntityNotFound) <==>
                request.typ != DATACENTER && (request.parentId.None? || request.parentId.value !in old(repository.rows))
      ensures r == Failure(AlreadyExists) <==>
                request.typ != DATACENTER && request.parentId.Some? && request.parentId.value in old(repository.rows)
                && !NameFree(old(repository.rows), request.name, request.typ, request.parentId)
      ensures r.Failure? ==> r.error in {EntityNotFound, AlreadyExists} && repository.State() == old(repository.State())
      ensures r.Success? ==> Created(old(repository.State()), repository.State(), request) && r.value == repository.lastId
      ensures ReferencesHoldSince(old(repository.history), repository.history)
    {
      CreateMeans(repository.State(), request);
      var parent: Option<Id> := None;
      if request.typ != DATACENTER {
        parent := request.parentId;
        if parent.None? || parent.value !in repository.rows {
          return Failure(EntityNotFound);
        }
        if AlreadyTaken(repository.rows, request, parent.value) {
          return Failure(AlreadyExists);
        }
      }
      var id := repository.SaveNew(Entity(request.name, request.typ, ACTIVE, request.serialNumber, parent));
      r := Success(id);
    }

    /** Only existence and status guard a move: into its own subtree it goes through and breaks the invariant. */
    method Move(id: Id, parentId: Id) returns (r: Result<(), ServiceError>)
      modifies repository
      ensures repository.State() == MoveSpec(old(repository.State()), id, parentId)
      ensures r.Success? <==>
                && id in old(repository.rows) && parentId in old(repository.rows)
                && old(repository.rows)[id].status == ACTIVE && old(repository.rows)[parentId].status == ACTIVE
      ensures r.Failure? ==> r.error == NotFoundOrInactive && repository.State() == old(repository.State())
      ensures r.Success? ==> Moved(old(repository.State()), repository.State(), id, parentId)
      ensures r.Success? && old(Inv(repository.State())) ==>
                MovedIndex(old(repository.State()), repository.State(), id, parentId)
      ensures old(Inv(repository.State())) ==>
                (Inv(repository.State()) <==> SafeMove(old(repository.State()), id, parentId))
      ensures old(Grounded(repository.State())) ==> ReferencesHoldSince(old(repository.history), repository.history)
      ensures |repository.history| == |old(repository.history)| + if r.Success? then 3 else 0  // cut, insert, save
    {
      MoveMeans(repository.State(), id, parentId);
      if Inv(repository.State()) { MoveKeepsInvIff(repository.State(), id, parentId); }
      if !IsActive(repository.rows, id) || !IsActive(repository.rows, parentId) {
        return Failure(NotFoundOrInactive);
      }
      if ReferencesHold(repository.State()) { MoveKeepsReferences(repository.State(), id, parentId); }
      repository.closure := CutSubtree(repository.closure, id);
      repository.history := repository.history + [repository.State()];
      var _ := repository.InsertPairs(CrossJoin(repository.closure, Some(parentId), id));
      repository.history := repository.history + [repository.State()];
      repository.SaveParent(id, parentId);
      r := Success(());
    }

    /** Children first, each subtree in turn, then the entity's own data, closure rows and row. */
    method Delete(id: Id) returns (r: Result<(), ServiceError>)
      requires Inv(repository.State())
      modifies repository
      decreases Subtree(repository.rows, id)
      ensures Inv(repository.State())
      ensures r == if id in old(repository.rows) then Success(()) else Failure(NotFound)
      ensures repository.State() == DeleteSpec(old(repository.State()), id)
      ensures ReferencesHoldSince(old(repository.history), repository.history)
    {
      ghost var before := repository.State();
      if id !in repository.rows {
        EmptySubtree(before, id);
        return Failure(NotFound);
      }
      var children := Children(repository.rows, id);
      var pending := children;
      WithoutNothing(before);
      while pending != {}
        invariant pending <= children && Inv(repository.State())
        invariant repository.State() == Without(before, Gone(before.rows, children - pending))
        invariant ReferencesHoldSince(old(repository.history), repository.history)
      {
        SomeMember(pending);
        var child :| child in pending;
        ghost var done := children - pending;
        RemainingSubtree(before, id, done, child);
        ChildSubtree(before.rows, id, child);
        var _ := Delete(child);
        WithoutTwice(before, Gone(before.rows, done), Subtree(before.rows, child));
        pending := pending - {child};
        assert children - pending == done + {child};
        GoneGrows(before.rows, done, child);
      }
      assert children - pending == children;
      RemainingLeaf(before, id);
      DeleteLeaf(id);
      WithoutTwice(before, Gone(before.rows, children), {id});
      r := Success(());
    }

    /** The data rows, the closure query and the row of an entity whose children are gone. */
    method DeleteLeaf(id: Id)
      requires Inv(repository.State()) && id in repository.rows && Subtree(repository.rows, id) == {id}
      modifies repository
      ensures repository.State() == Without(old(repository.State()), {id}) && Inv(repository.State())
      ensures ReferencesHoldSince(old(repository.history), repository.history)
      ensures |repository.history| == |old(repository.history)| + |DATA_TABLES| + 2  // and the pairs, and the row
    {
      ghost var before := repository.State();
      DeleteKeepsInv(before, id);
      DropSubtreeClosure(before.rows, before.closure, id);
      for k := 0 to |DATA_TABLES|
        invariant repository.State() ==
                  before.(data := (set r | r in before.data && !(r.owner == id && r.table in DATA_TABLES[..k])))
        invariant ReferencesHoldSince(old(repository.history), repository.history)
        invariant |repository.history| == |old(repository.history)| + k
      {
        repository.DeleteDataOf(DATA_TABLES[k], id);
      }
      EveryTableListed();
      assert DATA_TABLES[..|DATA_TABLES|] == DATA_TABLES;
      repository.closure := DropSubtree(repository.closure, id);
      repository.history := repository.history + [repository.State()];
      repository.rows := repository.rows - {id};
      repository.history := repository.history + [repository.State()];
    }

    /** The status of the children first, each with its subtree, then the entity's own. */
    method UpdateStatus(id: Id, status: Status) returns (r: Result<(), ServiceError>)
      requires Inv(repository.State())
      modifies repository
      decreases Subtree(repository.rows, id)
      ensures Inv(repository.State())
      ensures r == if id in old(repository.rows) then Success(()) else Failure(NotFound)
      ensures repository.State() == StatusSpec(old(repository.State()), id, status)
      ensures ReferencesHoldSince(old(repository.history), repository.history)
    {
      ghost var before := repository.State();
      if id !in repository.rows {
        EmptySubtree(before, id);
        return Failure(NotFound);
      }
      var children := Children(repository.rows, id);
      var pending := children;
      while pending != {}
        invariant pending <= children && Inv(repository.State())
        invariant repository.State() == before.(rows := Marked(before.rows, Gone(before.rows, children - pending), status))
        invariant ReferencesHoldSince(old(repository.history), repository.history)
      {
        SomeMember(pending);
        var child :| child in pending;
        ghost var done := children - pending;
        MarkOneMore(before, id, done, child, status);
        var _ := UpdateStatus(child, status);
        pending := pending - {child};
        assert children - pending == done + {child};
      }
      assert children - pending == children;
      MarkLast(before, id, status);
      SameLinksKeepInv(before, repository.rows[id := repository.rows[id].(status := status)]);
      repository.SaveStatus(id, status);
      r := Success(());
    }

    /** A new root with the requested name beside the source, then copies of its children, level by level. */
    method Duplicate(sourceId: Id, name: string, serialNumber: Option<string>, types: seq<EntityType>)
      returns (r: Result<Id, ServiceError>, ghost copy: map<Id, Id>)
      requires Inv(repository.State())
      modifies repository
      ensures Inv(repository.State()) && Extends(old(repository.rows), repository.rows)
      ensures r.Success? <==> Completes(old(repository.rows), sourceId, name, types)
      ensures r.Success? ==>
                && IsCopy(old(repository.rows), repository.rows, sourceId, name, serialNumber, types, copy)
                && r.value == copy[sourceId]
      ensures Duplicated(old(repository.State()), sourceId, name, serialNumber, types, repository.State())
    {
      copy := map[];
      ghost var before := repository.State();
      CreatesNothing(before);
      if sourceId !in repository.rows {
        return Failure(NotFound), copy;
      }
      var children := Children(repository.rows, sourceId);
      RootFreeMeans(before, sourceId, name, serialNumber);
      var request := RootRequest(repository.rows, sourceId, name, serialNumber);
      var created := Create(request);
      if created.Failure? {
        return Failure(created.error), copy;
      }
      ghost var mid := repository.State();
      OneMoreCreate(before, before, request);
      RootReady(before, sourceId, NewEntity(request));
      var copied;
      copied, copy := DuplicateChildren(children, created.value, types, before.rows, sourceId);
      CreatesChain(before, mid, repository.State());
      BelowRoot(before.rows, sourceId, types);
      if copied.Failure? {
        DuplicateDone(before, sourceId, name, serialNumber, types, repository.State(), copy);
        return Failure(copied.error), copy;
      }
      CopyRoot(before.rows, mid.rows, repository.rows, sourceId, created.value, copy, types);
      copy := copy[sourceId := created.value];
      DuplicateDone(before, sourceId, name, serialNumber, types, repository.State(), copy);
      r := Success(created.value);
    }

    method DuplicateChildren(children: set<Id>, parent: Id, types: seq<EntityType>, ghost source: Rows, ghost top: Id)
      returns (r: Result<(), ServiceError>, ghost copy: map<Id, Id>)
      requires Inv(repository.State())
      requires CanCopy(source, repository.rows, top, parent) && children == Children(source, top)
      modifies repository
      decreases Subtree(source, top), 1
      ensures Inv(repository.State()) && Extends(old(repository.rows), repository.rows)
      ensures HangBelow(old(repository.rows), repository.rows, parent)
      ensures CreatesLeadTo(old(repository.State()), repository.State())
      ensures r.Success? <==> Copyable(source, KeptBelow(source, Listed(source, children, types), types))
      ensures r.Success? ==> Copying(source, old(repository.rows), repository.rows, top, parent,
                                     Listed(source, children, types), copy, types)
    {
      ghost var before := repository.State();
      var listed := Listed(repository.rows, children, types);
      var pending := listed;
      copy := map[];
      ListedUnchanged(source, repository.rows, children, types);
      CreatesNothing(before);
      while pending != {}
        invariant pending <= listed && Inv(repository.State())
        invariant CreatesLeadTo(before, repository.State())
        invariant Copying(source, before.rows, repository.rows, top, parent, listed - pending, copy, types)
        invariant Copyable(source, KeptBelow(source, listed - pending, types))
      {
        SomeMember(pending);
        var child :| child in pending;
        ghost var state := repository.State();
        var copied;
        copied, copy := DuplicateChild(child, parent, types, source, top, before.rows, listed, listed - pending, copy);
        CreatesChain(before, state, repository.State());
        if copied.Failure? {
          return Failure(copied.error), copy;
        }
        OneLess(listed, pending, child);
        pending := pending - {child};
      }
      assert listed - pending == listed;
      r := Success(());
    }

    /** One turn of the loop: the child itself, then its children as they are loaded now. */
    method DuplicateChild(child: Id, parent: Id, types: seq<EntityType>, ghost source: Rows, ghost top: Id,
                          ghost before: Rows, ghost listed: set<Id>, ghost done: set<Id>, ghost copy: map<Id, Id>)
      returns (r: Result<(), ServiceError>, ghost extended: map<Id, Id>)
      requires Inv(repository.State()) && CanCopy(source, before, top, parent)
      requires Copying(source, before, repository.rows, top, parent, done, copy, types)
      requires Copyable(source, KeptBelow(source, done, types))
      requires listed == Listed(source, Children(source, top), types) && done <= listed && child in listed - done
      modifies repository
      decreases Subtree(source, top), 0
      ensures Inv(repository.State()) && Extends(before, repository.rows) && HangBelow(before, repository.rows, parent)
      ensures CreatesLeadTo(old(repository.State()), repository.State())
      ensures r.Failure? ==> !Copyable(source, KeptBelow(source, listed, types))
      ensures r.Success? ==>
                && Copying(source, before, repository.rows, top, parent, done + {child}, extended, types)
                && Copyable(source, KeptBelow(source, done + {child}, types))
    {
      extended := copy;
      ghost var state := repository.State();
      CreatesNothing(state);
      RefusedIffTwin(source, before, state.rows, top, parent, done, copy, types, child);
      var request := CopyRequest(repository.rows, child, parent);
      var created := Create(request);
      if created.Failure? {
        RefusedRulesOut(source, top, listed, done, child, types);
        return Failure(created.error), extended;
      }
      ghost var mid := repository.State();
      CreateAdds(state, request);
      OneMoreCreate(state, state, request);
      ReadyForChild(source, before, state, mid.rows[created.value], top, parent, child);
      ghost var sub;
      r, sub := DuplicateChildren(Children(repository.rows, child), created.value, types, source, child);
      CreatesChain(state, mid, repository.State());
      HangJoin(before, state.rows, mid.rows, repository.rows, parent, created.value);
      if r.Failure? {
        RefusedRulesOut(source, top, listed, done, child, types);
        return;
      }
      CopyableJoin(source, top, done, child, types);
      CopyOneMore(source, before, state.rows, mid.rows, repository.rows, top, parent, done, copy, types,
                  child, created.value, sub);
      extended := copy + sub[child := created.value];
    }
  }

  /** Everything in the subtrees of the given entities. */
  ghost function Gone(rows: Rows, tops: set<Id>): set<Id> {
    set c, x | c in tops && x in Subtree(rows, c) :: x
  }

  ghost function Marked(rows: Rows, marked: set<Id>, status: Status): Rows {
    map x | x in rows :: if x in marked then rows[x].(status := status) else rows[x]
  }

  lemma MarkOneMore(before: Tables, id: Id, done: set<Id>, child: Id, status: Status)
    requires Inv(before) && id in before.rows && child in Children(before.rows, id)
    ensures var midway := before.(rows := Marked(before.rows, Gone(before.rows, done), status));
            Subtree(midway.rows, child) < Subtree(before.rows, id) &&
            StatusSpec(midway, child, status) ==
              before.(rows := Marked(before.rows, Gone(before.rows, done + {child}), status))
  {
    var midway := before.(rows := Marked(before.rows, Gone(before.rows, done), status));
    SameLinksSameForest(before.rows, midway.rows);
    ChildSubtree(before.rows, id, child);
    assert Subtree(midway.rows, child) == Subtree(before.rows, child);
    GoneGrows(before.rows, done, child);
  }

  lemma MarkLast(before: Tables, id: Id, status: Status)
    requires Inv(before) && id in before.rows
    ensures var marked := Marked(before.rows, Gone(before.rows, Children(before.rows, id)), status);
            before.(rows := marked[id := marked[id].(status := status)]) == StatusSpec(before, id, status)
  {
    SubtreeIsGone(before.rows, id);
    forall x | x in before.rows ensures Reaches(before.rows, id, x) <==> x in Subtree(before.rows, id) {
    }
  }

  lemma GoneGrows(rows: Rows, tops: set<Id>, c: Id)
    ensures Gone(rows, tops + {c}) == Gone(rows, tops) + Subtree(rows, c)
  {
  }

  lemma SubtreeIsGone(rows: Rows, id: Id)
    requires id in rows
    ensures Subtree(rows, id) == Gone(rows, Children(rows, id)) + {id}
  {
    forall x ensures x in Subtree(rows, id) <==> x in Gone(rows, Children(rows, id)) + {id} {
      SubtreeByChildren(rows, id, x);
    }
  }

  lemma EmptySubtree(t: Tables, id: Id)
    requires Inv(t) && id !in t.rows
    ensures forall x :: !Reaches(t.rows, id, x)
    ensures DeleteSpec(t, id) == t
  {
    forall x ensures !Reaches(t.rows, id, x) {
      if Reaches(t.rows, id, x) { ReachesExists(t.rows, id, x); }
    }
    WithoutNothing(t);
    assert Subtree(t.rows, id) == {};
  }

  lemma WithoutNothing(t: Tables)
    ensures Without(t, {}) == t && Gone(t.rows, {}) == {}
  {
    assert t.rows - {} == t.rows;
  }

  lemma WithoutTwice(t: Tables, a: set<Id>, b: set<Id>)
    ensures Without(Without(t, a), b) == Without(t, a + b)
  {
    assert t.rows - a - b == t.rows - (a + b);
  }

  /** While some children are gone, the subtree of another child is still whole. */
  lemma RemainingSubtree(t: Tables, id: Id, done: set<Id>, child: Id)
    requires Inv(t) && id in t.rows && done <= Children(t.rows, id) && child in Children(t.rows, id) - done
    requires Inv(Without(t, Gone(t.rows, done)))
    ensures Subtree(Without(t, Gone(t.rows, done)).rows, child) == Subtree(t.rows, child)
  {
    var gone := Gone(t.rows, done);
    RemoveKeepsForest(t.rows, gone);
    forall x | x in Subtree(t.rows, child) ensures x !in gone {
      forall c | c in done ensures x !in Subtree(t.rows, c) {
        SiblingSubtreesDisjoint(t.rows, id, c, child);
      }
    }
  }

  lemma RemainingLeaf(t: Tables, id: Id)
    requires Inv(t) && id in t.rows
    requires Inv(Without(t, Gone(t.rows, Children(t.rows, id))))
    ensures id !in Gone(t.rows, Children(t.rows, id))
    ensures Subtree(Without(t, Gone(t.rows, Children(t.rows, id))).rows, id) == {id}
    ensures Subtree(t.rows, id) == Gone(t.rows, Children(t.rows, id)) + {id}
  {
    var gone := Gone(t.rows, Children(t.rows, id));
    RemoveKeepsForest(t.rows, gone);
    SubtreeIsGone(t.rows, id);
    forall c | c in Children(t.rows, id) ensures id !in Subtree(t.rows, c) {
      ChildSubtree(t.rows, id, c);
    }
  }

  lemma EveryTableListed()
    ensures forall table: DataTable :: table in DATA_TABLES
  {
    forall table: DataTable ensures table in DATA_TABLES {
      match table
      case BLOCK_SIZE_LATENCY => assert DATA_TABLES[0] == table;
      case EXTERNALS => assert DATA_TABLES[1] == table;
      case HOST_GROUP_METRICS => assert DATA_TABLES[2] == table;
      case PARITY_GROUP_METRICS => assert DATA_TABLES[3] == table;
      case CHA_METRICS => assert DATA_TABLES[4] == table;
      case POOL_METRICS => assert DATA_TABLES[5] == table;
      case PORT_METRICS => assert DATA_TABLES[6] == table;
      case SYSTEM_METRICS => assert DATA_TABLES[7] == table;
      case STORAGE_ENTITY_DETAILS => assert DATA_TABLES[8] == table;
    }
  }
}
