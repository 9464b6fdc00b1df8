/** The repository: the tables as mutable state, the statements run against them, and find-or-create
    along a key path. */
module StorageEntityRepositories {
  import opened Wrappers
  import opened Forest
  import opened ClosureTable
  import opened StorageEntityTables
  import opened StorageEntityKeys

  class StorageEntityRepository {
    var rows: Rows
    var closure: Pairs
    var data: set<DataRow>
    var lastId: Id
    ghost var history: seq<Tables>  // the tables after every committed statement

    ghost function State(): Tables
      reads this
    {
      Tables(rows, closure, data, lastId)
    }

    constructor (start: Id)
      ensures State() == Tables(map[], {}, {}, start) && Inv(State()) && history == []
    {
      rows, closure, data, lastId, history := map[], {}, {}, start, [];
      new;
      assert forall a, d :: !Reaches(rows, a, d);
    }

    // ---------- statements ----------

    /** The save of a new entity: its row under the next id, then both closure inserts. */
    method SaveNew(e: Entity) returns (id: Id)
      requires Grounded(State())
      requires e.parent.Some? ==> e.parent.value in rows
      modifies this
      ensures State() == AddLeaf(old(State()), e) && Grounded(State())
      ensures old(Inv(State())) ==> Inv(State())
      ensures id == lastId
      ensures history == old(history) + [State()]
    {
      AddLeafKeepsGrounded(State(), e);
      if Inv(State()) { AddLeafKeepsInv(State(), e); }
      id := InsertRow(e);
      var _ := InsertPairs({(id, id)});
      var _ := InsertPairs(CrossJoin(closure, e.parent, id));
      history := history + [State()];
    }

    /** Inserts a row, which gets the next id of the sequence. */
    method InsertRow(e: Entity) returns (id: Id)
      modifies this`rows, this`lastId
      ensures id == lastId == old(lastId) + 1 && rows == old(rows)[id := e]
    {
      lastId := lastId + 1;
      id := lastId;
      rows := rows[id := e];
    }

    /** Inserts closure rows; a duplicate key rejects the whole statement. */
    method InsertPairs(added: Pairs) returns (accepted: bool)
      modifies this`closure
      ensures accepted <==> Insert(old(closure), added).Some?
      ensures closure == if accepted then old(closure) + added else old(closure)
    {
      var inserted := Insert(closure, added);
      accepted := inserted.Some?;
      if accepted { closure := inserted.value; }
    }

    /** Deletes the rows of the entity from one data table. */
    method DeleteDataOf(table: DataTable, id: Id)
      modifies this`data, this`history
      ensures data == set r | r in old(data) && !(r.table == table && r.owner == id)
      ensures history == old(history) + [State()]
    {
      data := set r | r in data && !(r.table == table && r.owner == id);
      history := history + [State()];
    }

    /** Writes the parent link of one row. */
    method SaveParent(id: Id, parentId: Id)
      requires id in rows
      modifies this`rows, this`history
      ensures rows == SetParent(old(rows), id, parentId)
      ensures history == old(history) + [State()]
    {
      rows := SetParent(rows, id, parentId);
      history := history + [State()];
    }

    /** Writes the status of one row. */
    method SaveStatus(id: Id, status: Status)
      requires id in rows
      modifies this`rows, this`history
      ensures rows == old(rows)[id := old(rows)[id].(status := status)]
      ensures history == old(history) + [State()]
    {
      rows := rows[id := rows[id].(status := status)];
      history := history + [State()];
    }

    // ---------- find or create ----------

    /** Any row with this name and type, below the given parent when there is one. */
    method FindOneByName(part: KeyPart, under: Option<Id>) returns (found: Option<Id>)
      ensures found.Some? ==> MatchesPart(rows, part, under, found.value)
      ensures found.None? ==> forall id :: !MatchesPart(rows, part, under, id)
    {
      var candidates := set id | id in rows && MatchesPart(rows, part, under, id);
      if candidates == {} {
        assert forall id | MatchesPart(rows, part, under, id) :: id in candidates;
        found := None;
      } else {
        var id :| id in candidates;
        found := Some(id);
      }
    }

    /** The missing entity, active and below the parent. */
    method CreatePart(part: KeyPart, parentEntity: Id) returns (entity: Id)
      requires Grounded(State()) && Distinct(rows) && parentEntity in rows
      requires Absent(rows, part, SearchUnder(rows, parentEntity))
      requires part.typ == SYSTEM ==> rows[parentEntity].typ == DATACENTER
      modifies this
      ensures State() == AddLeaf(old(State()), NewPart(part, parentEntity)) && entity == lastId
      ensures Grounded(State()) && Distinct(rows) && Extends(old(rows), rows) && (old(Inv(State())) ==> Inv(State()))
    {
      entity := SaveNew(NewPart(part, parentEntity));
      DistinctAfterCreate(old(rows), entity, rows[entity], SearchUnder(old(rows), parentEntity));
    }

    /** Walks the key from its top part down. An entity of the whole path that already exists is found and
        nothing is written; otherwise, in create mode, the missing lower end of the path is created. */
    method FindOrCreate(keyParts: seq<KeyPart>, parentEntity: Id, createIfNotExists: bool)
      returns (r: Result<Id, ServiceError>)
      requires Grounded(State()) && Distinct(rows) && parentEntity in rows
      requires KeyShape(keyParts, rows[parentEntity].typ == DATACENTER)
      modifies this
      decreases |keyParts|
      ensures Grounded(State()) && Distinct(rows) && Extends(old(rows), rows)
      ensures old(Inv(State())) ==> Inv(State())
      ensures r.Success? ==> MatchesKey(rows, keyParts, SearchUnder(old(rows), parentEntity), r.value)
      ensures r.Success? <==> createIfNotExists || KeyExists(old(rows), keyParts, parentEntity)
      ensures r.Failure? ==> r.error == NotFound
      ensures !createIfNotExists || KeyExists(old(rows), keyParts, parentEntity) ==> State() == old(State())
      ensures createIfNotExists ==> EndCreated(old(State()), State(), keyParts, parentEntity)
      ensures forall p | createIfNotExists && !KeyExists(old(rows), keyParts, parentEntity)
                         && HangsBelow(old(rows), keyParts, parentEntity, p) ::
                State() == AddLeaf(old(State()), NewPart(keyParts[0], p)) && r.value == lastId
    {
      var top, rest := keyParts[|keyParts| - 1], keyParts[..|keyParts| - 1];
      var found := FindOneByName(top, SearchUnder(rows, parentEntity));
      var entity: Id;
      if found.Some? {
        entity := found.value;
        if rest == [] {
          assert MatchesKey(rows, keyParts, SearchUnder(rows, parentEntity), entity);
          NothingMissing(State(), keyParts, parentEntity, entity);
          return Success(entity);
        }
        KeyExistsByTop(rows, keyParts, parentEntity, entity);
      } else {
        NoKeyWithoutTop(rows, keyParts, parentEntity, top);
        if !createIfNotExists {
          return Failure(NotFound);
        }
        entity := CreatePart(top, parentEntity);
        if rest == [] {
          AllMissing(old(State()), State(), keyParts, parentEntity, State());
          return Success(entity);
        }
        KeyExistsByTop(rows, keyParts, parentEntity, entity);
      }
      ghost var middle := State();
      r := FindOrCreate(rest, entity, createIfNotExists);
      if createIfNotExists {
        if found.Some? {
          EndBelowTop(middle, State(), keyParts, parentEntity, entity);
        } else {
          AllMissingBelow(old(State()), middle, keyParts, parentEntity, State());
        }
      }
      ExtendsTwice(old(rows), middle.rows, rows);
      if r.Success? {
        KeyExistsByTop(rows, keyParts, parentEntity, entity);
      }
    }

    /** fetchByStorageEntityKey (createIfNotExists false) and fetchOrCreateByStorageEntityKey (true). */
    method FetchByStorageEntityKey(key: StorageEntityKey, createIfNotExists: bool)
      returns (r: Result<Id, ServiceError>)
      requires Grounded(State()) && Distinct(rows)
      requires KeyShape(GetKeyParts(key), true) && key.datacenter.typ == DATACENTER
      modifies this
      ensures Grounded(State()) && Distinct(rows) && Extends(old(rows), rows)
      ensures old(Inv(State())) ==> Inv(State())
      ensures r == Failure(NoDatacenter) <==> forall id :: !MatchesPart(old(rows), key.datacenter, None, id)
      ensures r.Success? ==> MatchesKey(rows, GetKeyParts(key), None, r.value)
      ensures r.Success? && TopIsSystem(key) ==> forall id :: MatchesKey(rows, GetKeyParts(key), None, id) ==> id == r.value
      ensures r.Failure? || !createIfNotExists || old(KeyNamed(rows, key)) ==> State() == old(State())
      ensures r == Failure(NotFound) ==> !createIfNotExists && !old(KeyNamed(rows, key))
      ensures r.Failure? ==> r.error in {NotFound, NoDatacenter}
      ensures r.Success? && !old(KeyNamed(rows, key)) ==> createIfNotExists
      ensures r.Success? && createIfNotExists ==>
                exists dc :: MatchesPart(old(rows), key.datacenter, None, dc)
                             && EndCreated(old(State()), State(), GetKeyParts(key), dc)
      ensures forall p | r.Success? && !old(KeyNamed(rows, key)) && |GetKeyParts(key)| > 1
                         && MatchesKey(old(rows), GetKeyParts(key)[1..], None, p) ::
                State() == AddLeaf(old(State()), NewPart(key.child, p)) && r.value == lastId
    {
      var datacenter := FindOneByName(key.datacenter, None);
      if datacenter.None? {
        return Failure(NoDatacenter);
      }
      assert SearchUnder(rows, datacenter.value) == None;
      assert KeyExists(rows, GetKeyParts(key), datacenter.value) <==> KeyNamed(rows, key);
      r := FindOrCreate(GetKeyParts(key), datacenter.value, createIfNotExists);
      if r.Success? && TopIsSystem(key) {
        forall id | MatchesKey(rows, GetKeyParts(key), None, id) ensures id == r.value {
          OneKeyMatch(rows, GetKeyParts(key), None, id, r.value);
        }
      }
    }
  }

  function NewPart(part: KeyPart, parent: Id): Entity {
    Entity(part.name, part.typ, ACTIVE, None, Some(parent))
  }

  /** The parts from the top down below the given parent, each new. */
  function AddPath(t: Tables, parts: seq<KeyPart>, parent: Id): Tables
    decreases |parts|
  {
    if parts == [] then t
    else
      var u := AddLeaf(t, NewPart(parts[|parts| - 1], parent));
      AddPath(u, parts[..|parts| - 1], u.lastId)
  }

  /** The parts from k up are there and end at p; the k parts below them are the missing lower end. */
  ghost predicate MissingEnd(rows: Rows, parts: seq<KeyPart>, parentEntity: Id, k: nat, p: Id)
    requires parentEntity in rows && k <= |parts|
  {
    && (if k == |parts| then p == parentEntity else MatchesKey(rows, parts[k..], SearchUnder(rows, parentEntity), p))
    && (k > 0 ==> Unmatched(rows, parts[k - 1..], SearchUnder(rows, parentEntity)))
  }

  ghost predicate Absent(rows: Rows, part: KeyPart, under: Option<Id>) {
    forall id :: !MatchesPart(rows, part, under, id)
  }

  ghost predicate Unmatched(rows: Rows, parts: seq<KeyPart>, under: Option<Id>)
    requires parts != []
  {
    forall id :: !MatchesKey(rows, parts, under, id)
  }

  /** Exactly the missing lower end of the path was created. */
  ghost predicate EndCreated(before: Tables, after: Tables, parts: seq<KeyPart>, parentEntity: Id)
    requires parentEntity in before.rows
  {
    exists k: nat, p: Id :: k <= |parts| && MissingEnd(before.rows, parts, parentEntity, k, p)
                            && after == AddPath(before, parts[..k], p)
  }

  lemma NothingMissing(t: Tables, parts: seq<KeyPart>, parentEntity: Id, e: Id)
    requires parentEntity in t.rows && parts != [] && MatchesKey(t.rows, parts, SearchUnder(t.rows, parentEntity), e)
    ensures EndCreated(t, t, parts, parentEntity)
  {
    assert parts[0..] == parts && parts[..0] == [];
    assert MissingEnd(t.rows, parts, parentEntity, 0, e);
  }

  lemma ExtendsTwice(a: Rows, b: Rows, c: Rows)
    requires Extends(a, b) && Extends(b, c)
    ensures Extends(a, c)
  {
  }

  /** Without a match for the top part everything is missing. */
  lemma AllMissing(before: Tables, middle: Tables, parts: seq<KeyPart>, parentEntity: Id, after: Tables)
    requires parentEntity in before.rows && parts != []
    requires Absent(before.rows, parts[|parts| - 1], SearchUnder(before.rows, parentEntity))
    requires middle == AddLeaf(before, NewPart(parts[|parts| - 1], parentEntity))
    requires after == AddPath(middle, parts[..|parts| - 1], middle.lastId)
    ensures EndCreated(before, after, parts, parentEntity)
  {
    assert parts[|parts| - 1..] == [parts[|parts| - 1]] && parts[..|parts|] == parts;
    assert Unmatched(before.rows, parts[|parts| - 1..], SearchUnder(before.rows, parentEntity));
    assert MissingEnd(before.rows, parts, parentEntity, |parts|, parentEntity);
  }

  /** With the top part found, what is missing below it is what is missing of the whole key. */
  lemma EndBelowTop(t: Tables, after: Tables, parts: seq<KeyPart>, parentEntity: Id, e: Id)
    requires parentEntity in t.rows && |parts| > 1 && Distinct(t.rows) && KeyShape(parts, t.rows[parentEntity].typ == DATACENTER)
    requires MatchesPart(t.rows, parts[|parts| - 1], SearchUnder(t.rows, parentEntity), e) && t.rows[e].typ != DATACENTER
    requires EndCreated(t, after, parts[..|parts| - 1], e)
    ensures EndCreated(t, after, parts, parentEntity)
  {
    var rest, under := parts[..|parts| - 1], SearchUnder(t.rows, parentEntity);
    var k: nat, p: Id :| k <= |rest| && MissingEnd(t.rows, rest, e, k, p) && after == AddPath(t, rest[..k], p);
    assert rest[..k] == parts[..k];
    FoundSuffix(t.rows, parts, under, e, k, p);
    if k > 0 { SuffixUnmatched(t.rows, parts, under, e, k - 1); }
    assert MissingEnd(t.rows, parts, parentEntity, k, p);
  }

  lemma FoundSuffix(rows: Rows, parts: seq<KeyPart>, under: Option<Id>, e: Id, k: nat, p: Id)
    requires k < |parts| && Distinct(rows) && (parts[|parts| - 1].typ == SYSTEM || under.Some?)
    requires MatchesPart(rows, parts[|parts| - 1], under, e)
    requires if k == |parts| - 1 then p == e else MatchesKey(rows, parts[..|parts| - 1][k..], Some(e), p)
    ensures MatchesKey(rows, parts[k..], under, p)
  {
    if k == |parts| - 1 {
      assert parts[k..] == [parts[|parts| - 1]];
    } else {
      SuffixMatch(rows, parts, under, e, k, p);
    }
  }

  lemma SuffixUnmatched(rows: Rows, parts: seq<KeyPart>, under: Option<Id>, e: Id, k: nat)
    requires k + 1 < |parts| && Distinct(rows) && (parts[|parts| - 1].typ == SYSTEM || under.Some?)
    requires MatchesPart(rows, parts[|parts| - 1], under, e)
    requires Unmatched(rows, parts[..|parts| - 1][k..], Some(e))
    ensures Unmatched(rows, parts[k..], under)
  {
    var missing := parts[k..];
    forall id ensures !MatchesKey(rows, missing, under, id) {
      SuffixMatch(rows, parts, under, e, k, id);
    }
  }

  lemma SuffixMatch(rows: Rows, parts: seq<KeyPart>, under: Option<Id>, e: Id, k: nat, id: Id)
    requires k + 1 < |parts| && Distinct(rows) && (parts[|parts| - 1].typ == SYSTEM || under.Some?)
    requires MatchesPart(rows, parts[|parts| - 1], under, e)
    ensures MatchesKey(rows, parts[k..], under, id) <==> MatchesKey(rows, parts[..|parts| - 1][k..], Some(e), id)
  {
    var suffix := parts[k..];
    assert suffix[|suffix| - 1] == parts[|parts| - 1] && suffix[..|suffix| - 1] == parts[..|parts| - 1][k..];
    TopDownMatch(rows, suffix, under, e, id);
  }

  lemma NothingBelowNew(t: Tables, e: Entity)
    requires Grounded(t) && (e.parent.Some? ==> e.parent.value in t.rows)
    ensures forall x | x in AddLeaf(t, e).rows :: AddLeaf(t, e).rows[x].parent != Some(t.lastId + 1)
  {
    forall x | x in t.rows ensures t.rows[x].parent != Some(t.lastId + 1) {
      if t.rows[x].parent.Some? { assert t.rows[x].parent.value in t.rows; }
    }
  }

  lemma {:induction false} NoKeyBelow(rows: Rows, parts: seq<KeyPart>, e: Id, id: Id)
    requires parts != [] && forall x | x in rows :: rows[x].parent != Some(e)
    ensures !MatchesKey(rows, parts, Some(e), id)
    decreases |parts|
  {
    if |parts| > 1 && id in rows && rows[id].parent.Some? {
      NoKeyBelow(rows, parts[1..], e, rows[id].parent.value);
    }
  }

  /** Below a new entity the whole rest of the path is created. */
  lemma EndBelowNew(t: Tables, after: Tables, rest: seq<KeyPart>, e: Id)
    requires e in t.rows && t.rows[e].typ != DATACENTER && rest != []
    requires forall x | x in t.rows :: t.rows[x].parent != Some(e)
    requires EndCreated(t, after, rest, e)
    ensures after == AddPath(t, rest, e)
  {
    var k: nat, p: Id :| k <= |rest| && MissingEnd(t.rows, rest, e, k, p) && after == AddPath(t, rest[..k], p);
    if k < |rest| { NoKeyBelow(t.rows, rest[k..], e, p); }
    assert rest[..|rest|] == rest;
  }

  lemma AllMissingBelow(before: Tables, middle: Tables, parts: seq<KeyPart>, parentEntity: Id, after: Tables)
    requires Grounded(before) && parentEntity in before.rows && |parts| > 1 && parts[|parts| - 1].typ != DATACENTER
    requires Absent(before.rows, parts[|parts| - 1], SearchUnder(before.rows, parentEntity))
    requires middle == AddLeaf(before, NewPart(parts[|parts| - 1], parentEntity))
    requires EndCreated(middle, after, parts[..|parts| - 1], middle.lastId)
    ensures EndCreated(before, after, parts, parentEntity)
  {
    NothingBelowNew(before, NewPart(parts[|parts| - 1], parentEntity));
    EndBelowNew(middle, after, parts[..|parts| - 1], middle.lastId);
    AllMissing(before, middle, parts, parentEntity, after);
  }

  /** A created path adds one row for each part under the next ids and changes no row. */
  lemma {:induction false} AddPathRows(t: Tables, parts: seq<KeyPart>, parent: Id)
    requires forall x | x in t.rows :: x <= t.lastId
    ensures AddPath(t, parts, parent).lastId == t.lastId + |parts|
    ensures Extends(t.rows, AddPath(t, parts, parent).rows)
    ensures forall x :: x in AddPath(t, parts, parent).rows <==> x in t.rows || t.lastId < x <= t.lastId + |parts|
    decreases |parts|
  {
    if parts != [] {
      var u := AddLeaf(t, NewPart(parts[|parts| - 1], parent));
      var rest := parts[..|parts| - 1];
      AddPathRows(u, rest, u.lastId);
      var after := AddPath(u, rest, u.lastId);
      assert AddPath(t, parts, parent) == after;
      assert Extends(t.rows, u.rows);
      ExtendsTwice(t.rows, u.rows, after.rows);
      forall x ensures x in after.rows <==> x in t.rows || t.lastId < x <= t.lastId + |parts| {
        assert x in u.rows <==> x in t.rows || x == t.lastId + 1;
      }
    }
  }

  lemma {:induction false} AddPathKeepsInv(t: Tables, parts: seq<KeyPart>, parent: Id)
    requires Inv(t) && parent in t.rows
    ensures Inv(AddPath(t, parts, parent))
    decreases |parts|
  {
    if parts != [] {
      var e := NewPart(parts[|parts| - 1], parent);
      AddLeafKeepsInv(t, e);
      AddPathKeepsInv(AddLeaf(t, e), parts[..|parts| - 1], t.lastId + 1);
    }
  }
}
