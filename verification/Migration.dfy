/** The migration that builds the entity forest from the older tables, one nested cursor loop per level,
    and renumbers the metric rows in place as it goes. */
module Migrations {
  import opened Wrappers
  import opened Forest
  import opened ClosureTable
  import opened StorageEntityTables
  import opened StorageEntityRepositories
  import opened Renaming

  const SEQUENCE_START: Id := 1000  // the sequence hands out ids above this

  /** A row of an older table; owner is its foreign key (unused for datacenters). */
  datatype OldRow = OldRow(id: int, name: string, status: Status, owner: int)

  datatype OldTables = OldTables(
    datacenters: seq<OldRow>, systems: seq<OldRow>, pools: seq<OldRow>, hostGroups: seq<OldRow>,
    adapters: seq<OldRow>, ports: seq<OldRow>)

  datatype MetricKey = MetricKey(table: DataTable, key: int)

  /** One migrated row: the entity newId was made from row oldId of the table for typ. */
  datatype Entry = Entry(typ: EntityType, oldId: int, newId: Id)

  function RowsOf(source: OldTables, typ: EntityType): seq<OldRow> {
    match typ
    case DATACENTER => source.datacenters
    case SYSTEM => source.systems
    case POOL => source.pools
    case HOST_GROUP => source.hostGroups
    case ADAPTER_GROUP => source.adapters
    case PORT_GROUP => source.ports
    case _ => []
  }

  function OwnerType(typ: EntityType): EntityType {
    match typ
    case SYSTEM => DATACENTER
    case PORT_GROUP => ADAPTER_GROUP
    case _ => SYSTEM
  }

  /** The tables whose id column refers to rows of this type. */
  function MetricTables(typ: EntityType): seq<DataTable> {
    match typ
    case SYSTEM => [SYSTEM_METRICS]
    case POOL => [POOL_METRICS, BLOCK_SIZE_LATENCY]
    case HOST_GROUP => [HOST_GROUP_METRICS, EXTERNALS]
    case ADAPTER_GROUP => [CHA_METRICS]
    case PORT_GROUP => [PORT_METRICS]
    case _ => []
  }

  /** Ids are primary keys of the older tables. */
  ghost predicate WellKeyed(source: OldTables) {
    forall typ: EntityType, i, j | 0 <= i < j < |RowsOf(source, typ)| :: RowsOf(source, typ)[i].id != RowsOf(source, typ)[j].id
  }

  function RenamesOf(log: seq<Entry>, typ: EntityType): seq<Rename> {
    if log == [] then []
    else
      var last := log[|log| - 1];
      RenamesOf(log[..|log| - 1], typ) + if last.typ == typ then [Rename(last.oldId, last.newId)] else []
  }

  // ---------- the invariant of the migration ----------

  ghost predicate Visited(log: seq<Entry>, typ: EntityType, oldId: int) {
    exists e :: e in log && e.typ == typ && e.oldId == oldId
  }

  /** parent is the entity made from the row that owner refers to. */
  ghost predicate ParentKnown(log: seq<Entry>, typ: EntityType, owner: int, parent: Option<Id>) {
    if typ == DATACENTER then parent.None? else parent.Some? && Entry(OwnerType(typ), owner, parent.value) in log
  }

  function MigratedEntity(typ: EntityType, row: OldRow, parent: Option<Id>): Entity {
    Entity(row.name, typ, if typ == DATACENTER then ACTIVE else row.status, None, parent)
  }

  /** The entity of an entry carries the data of its old row and hangs below the entity of the row's owner. */
  ghost predicate Faithful(source: OldTables, rows: Rows, log: seq<Entry>, e: Entry) {
    e.newId in rows &&
    exists row :: row in RowsOf(source, e.typ) && row.id == e.oldId
                  && ParentKnown(log, e.typ, row.owner, rows[e.newId].parent)
                  && rows[e.newId] == MigratedEntity(e.typ, row, rows[e.newId].parent)
  }

  ghost predicate MetricsFollow(original: map<MetricKey, int>, metrics: map<MetricKey, int>, log: seq<Entry>) {
    && metrics.Keys == original.Keys
    && (forall typ, k | k in original && k.table in MetricTables(typ) ::
          metrics[k] == Updated(original[k], RenamesOf(log, typ)))
    && (forall k | k in original && OfNoType(k.table) :: metrics[k] == original[k])
  }

  ghost predicate OfNoType(table: DataTable) {
    forall typ: EntityType :: table !in MetricTables(typ)
  }

  ghost predicate Migrated(source: OldTables, original: map<MetricKey, int>, t: Tables,
                           metrics: map<MetricKey, int>, log: seq<Entry>) {
    && Inv(t) && t.lastId == SEQUENCE_START + |log|
    && LogMatches(source, t.rows, log)
    && MetricsFollow(original, metrics, log)
  }

  /** The log numbers its entries by the sequence, visits no row twice, and describes rows of the new table. */
  ghost predicate LogMatches(source: OldTables, rows: Rows, log: seq<Entry>) {
    && (forall i | 0 <= i < |log| :: log[i].newId == SEQUENCE_START + 1 + i)
    && (forall id | id in rows :: SEQUENCE_START < id)
    && (forall i, j | 0 <= i < j < |log| && log[i].typ == log[j].typ :: log[i].oldId != log[j].oldId)
    && (forall e | e in log :: Faithful(source, rows, log, e))
  }

  lemma {:induction false} RenamesOfMember(log: seq<Entry>, typ: EntityType, r: Rename)
    ensures r in RenamesOf(log, typ) <==> Entry(typ, r.oldId, r.newId) in log
  {
    if log != [] {
      RenamesOfMember(log[..|log| - 1], typ, r);
      assert log == log[..|log| - 1] + [log[|log| - 1]];
    }
  }

  /** Each kind of row is renumbered by a renaming drawn from the sequence. */
  lemma {:induction false} RenamesFromSequence(log: seq<Entry>, typ: EntityType)
    requires forall i | 0 <= i < |log| :: log[i].newId == SEQUENCE_START + 1 + i
    requires forall i, j | 0 <= i < j < |log| && log[i].typ == log[j].typ :: log[i].oldId != log[j].oldId
    ensures FromSequence(RenamesOf(log, typ))
    ensures forall r | r in RenamesOf(log, typ) :: SEQUENCE_START < r.newId <= SEQUENCE_START + |log|
  {
    if log != [] {
      var init, last := log[..|log| - 1], log[|log| - 1];
      RenamesFromSequence(init, typ);
      forall r | r in RenamesOf(init, typ) ensures last.typ == typ ==> r.oldId != last.oldId {
        RenamesOfMember(init, typ, r);
        var i :| 0 <= i < |init| && init[i] == Entry(typ, r.oldId, r.newId);
        assert log[i] == init[i];
      }
    }
  }

  lemma LogGrows(source: OldTables, before: Rows, rows: Rows, log: seq<Entry>, e: Entry)
    requires Extends(before, rows) && forall x | x in log :: Faithful(source, before, log, x)
    ensures forall x | x in log :: Faithful(source, rows, log + [e], x)
  {
    forall x | x in log ensures Faithful(source, rows, log + [e], x) {
      var row :| row in RowsOf(source, x.typ) && row.id == x.oldId
                 && ParentKnown(log, x.typ, row.owner, before[x.newId].parent)
                 && before[x.newId] == MigratedEntity(x.typ, row, before[x.newId].parent);
      assert rows[x.newId] == before[x.newId];
      assert ParentKnown(log + [e], x.typ, row.owner, rows[x.newId].parent);
    }
  }

  // ---------- the outcome, table by table ----------

  /** The rows of one metric table that refer to a migrated row of the type now refer to its entity, after exactly one
      rewrite; all others are as they were. */
  ghost predicate TableFollows(original: map<MetricKey, int>, metrics: map<MetricKey, int>, log: seq<Entry>,
                               table: DataTable, typ: EntityType)
    requires metrics.Keys == original.Keys
  {
    forall k | k in original && k.table == table ::
      if Visited(log, typ, original[k])
      then Entry(typ, original[k], metrics[k]) in log && Rewrites(original[k], RenamesOf(log, typ)) == 1
      else metrics[k] == original[k] && Rewrites(original[k], RenamesOf(log, typ)) == 0
  }

  ghost predicate MetricsFollowEntities(original: map<MetricKey, int>, metrics: map<MetricKey, int>, log: seq<Entry>) {
    && metrics.Keys == original.Keys
    && TableFollows(original, metrics, log, SYSTEM_METRICS, SYSTEM)
    && TableFollows(original, metrics, log, POOL_METRICS, POOL)
    && TableFollows(original, metrics, log, BLOCK_SIZE_LATENCY, POOL)
    && TableFollows(original, metrics, log, HOST_GROUP_METRICS, HOST_GROUP)
    && TableFollows(original, metrics, log, EXTERNALS, HOST_GROUP)
    && TableFollows(original, metrics, log, CHA_METRICS, ADAPTER_GROUP)
    && TableFollows(original, metrics, log, PORT_METRICS, PORT_GROUP)
    && forall k | k in original && k.table in {PARITY_GROUP_METRICS, STORAGE_ENTITY_DETAILS} :: metrics[k] == original[k]
  }

  lemma OtherTables(table: DataTable)
    requires table in {PARITY_GROUP_METRICS, STORAGE_ENTITY_DETAILS}
    ensures OfNoType(table)
  {
  }

  lemma TypeTableFollows(source: OldTables, original: map<MetricKey, int>, t: Tables, metrics: map<MetricKey, int>,
                         log: seq<Entry>, table: DataTable, typ: EntityType)
    requires Migrated(source, original, t, metrics, log) && OldIdsAtMost(source, SEQUENCE_START)
    requires table in MetricTables(typ)
    ensures TableFollows(original, metrics, log, table, typ)
  {
    forall k | k in original && k.table == table
      ensures if Visited(log, typ, original[k])
              then Entry(typ, original[k], metrics[k]) in log && Rewrites(original[k], RenamesOf(log, typ)) == 1
              else metrics[k] == original[k] && Rewrites(original[k], RenamesOf(log, typ)) == 0
    {
      EndsRenamed(source, original, t, metrics, log, typ, original[k]);
    }
  }

  lemma MetricsRenamed(source: OldTables, original: map<MetricKey, int>, t: Tables, metrics: map<MetricKey, int>, log: seq<Entry>)
    requires Migrated(source, original, t, metrics, log) && OldIdsAtMost(source, SEQUENCE_START)
    ensures MetricsFollowEntities(original, metrics, log)
  {
    TypeTableFollows(source, original, t, metrics, log, SYSTEM_METRICS, SYSTEM);
    TypeTableFollows(source, original, t, metrics, log, POOL_METRICS, POOL);
    TypeTableFollows(source, original, t, metrics, log, BLOCK_SIZE_LATENCY, POOL);
    TypeTableFollows(source, original, t, metrics, log, HOST_GROUP_METRICS, HOST_GROUP);
    TypeTableFollows(source, original, t, metrics, log, EXTERNALS, HOST_GROUP);
    TypeTableFollows(source, original, t, metrics, log, CHA_METRICS, ADAPTER_GROUP);
    TypeTableFollows(source, original, t, metrics, log, PORT_METRICS, PORT_GROUP);
    OtherTables(PARITY_GROUP_METRICS);
    OtherTables(STORAGE_ENTITY_DETAILS);
  }

  ghost predicate DatacenterIn(source: OldTables, id: int) {
    exists d :: d in source.datacenters && d.id == id
  }

  ghost predicate SystemIn(source: OldTables, id: int) {
    exists s :: s in source.systems && s.id == id && DatacenterIn(source, s.owner)
  }

  ghost predicate AdapterIn(source: OldTables, id: int) {
    exists a :: a in source.adapters && a.id == id && SystemIn(source, a.owner)
  }

  /** Below a datacenter lie its systems, their pools, host groups and adapters, and the ports of those adapters. */
  ghost predicate InScope(source: OldTables, typ: EntityType, id: int) {
    match typ
    case DATACENTER => DatacenterIn(source, id)
    case SYSTEM => SystemIn(source, id)
    case POOL => exists r :: r in source.pools && r.id == id && SystemIn(source, r.owner)
    case HOST_GROUP => exists r :: r in source.hostGroups && r.id == id && SystemIn(source, r.owner)
    case ADAPTER_GROUP => AdapterIn(source, id)
    case PORT_GROUP => exists r :: r in source.ports && r.id == id && AdapterIn(source, r.owner)
    case _ => false
  }

  lemma VisitedIs(log: seq<Entry>, typ: EntityType, id: int)
    ensures Visited(log, typ, id) <==> (typ, id) in VisitedSet(log)
  {
    if Visited(log, typ, id) {
      var e :| e in log && e.typ == typ && e.oldId == id;
      assert (e.typ, e.oldId) in VisitedSet(log);
    }
  }

  /** What lies in the scope of one system. */
  ghost predicate BelowSystemRow(source: OldTables, system: int, typ: EntityType, id: int) {
    match typ
    case POOL => exists r :: r in source.pools && r.id == id && r.owner == system
    case HOST_GROUP => exists r :: r in source.hostGroups && r.id == id && r.owner == system
    case ADAPTER_GROUP => exists r :: r in source.adapters && r.id == id && r.owner == system
    case PORT_GROUP => exists r, a :: r in source.ports && r.id == id && a in source.adapters && a.id == r.owner && a.owner == system
    case _ => false
  }

  lemma SystemScopeMeans(source: OldTables, system: int, x: (EntityType, int))
    ensures x in SystemScope(source, system) <==> BelowSystemRow(source, system, x.0, x.1)
  {
    if x in AdapterScope(source, source.adapters, system) {
      var a := AdapterOf(source, source.adapters, system, x);
    }
    if x.0 == PORT_GROUP && BelowSystemRow(source, system, x.0, x.1) {
      var r, a :| r in source.ports && r.id == x.1 && a in source.adapters && a.id == r.owner && a.owner == system;
      assert x in Owned(RowsOf(source, PORT_GROUP), PORT_GROUP, a.id);
    }
  }

  /** A row lies in the scope when it is a datacenter or system of it, or below such a system. */
  lemma ScopeBySystem(source: OldTables, x: (EntityType, int))
    ensures x in DatacenterScope(source, source.datacenters) <==>
            || (x.0 == DATACENTER && DatacenterIn(source, x.1))
            || (x.0 == SYSTEM && SystemIn(source, x.1))
            || exists s :: s in source.systems && DatacenterIn(source, s.owner) && BelowSystemRow(source, s.id, x.0, x.1)
  {
    forall s: OldRow ensures x in SystemScope(source, s.id) <==> BelowSystemRow(source, s.id, x.0, x.1) {
      SystemScopeMeans(source, s.id, x);
    }
    if d :| d in source.datacenters && x in SystemsScope(source, source.systems, d.id) {
      var s := SystemOf(source, source.systems, d.id, x);
    }
    if s :| s in source.systems && DatacenterIn(source, s.owner) && (x == (SYSTEM, s.id) || x in SystemScope(source, s.id)) {
      var d :| d in source.datacenters && d.id == s.owner;
      assert x in SystemsScope(source, source.systems, d.id);
    }
  }

  lemma ScopeMeans(source: OldTables, typ: EntityType, id: int)
    ensures (typ, id) in DatacenterScope(source, source.datacenters) <==> InScope(source, typ, id)
  {
    ScopeBySystem(source, (typ, id));
    if s :| s in source.systems && DatacenterIn(source, s.owner) && BelowSystemRow(source, s.id, typ, id) {
      assert SystemIn(source, s.id);
    }
    if InScope(source, typ, id) && typ == PORT_GROUP {
      var r :| r in source.ports && r.id == id && AdapterIn(source, r.owner);
      var a :| a in source.adapters && a.id == r.owner && SystemIn(source, a.owner);
      var s :| s in source.systems && s.id == a.owner && DatacenterIn(source, s.owner);
      assert BelowSystemRow(source, s.id, typ, id);
    }
  }

  /** The entity of the entry carries a row of the table and hangs below the entity of that row's owner. */
  ghost predicate Carries(rows: Rows, log: seq<Entry>, e: Entry, table: seq<OldRow>, ownerType: EntityType) {
    e.newId in rows &&
    exists r, p :: r in table && r.id == e.oldId && Entry(ownerType, r.owner, p) in log
                   && rows[e.newId] == Entity(r.name, e.typ, r.status, None, Some(p))
  }

  ghost predicate CarriesDatacenter(rows: Rows, e: Entry, table: seq<OldRow>) {
    e.newId in rows &&
    exists r :: r in table && r.id == e.oldId && rows[e.newId] == Entity(r.name, DATACENTER, ACTIVE, None, None)
  }

  /** Every entity was made from one row, with its name, status and owner; there are no other entities. */
  ghost predicate EntitiesCarryRows(source: OldTables, rows: Rows, log: seq<Entry>) {
    && (forall x :: x in rows <==> 1000 < x <= 1000 + |log|)
    && (forall i | 0 <= i < |log| :: log[i].newId == 1001 + i)
    && (forall e | e in log ::
          match e.typ
          case DATACENTER => CarriesDatacenter(rows, e, source.datacenters)
          case SYSTEM => Carries(rows, log, e, source.systems, DATACENTER)
          case POOL => Carries(rows, log, e, source.pools, SYSTEM)
          case HOST_GROUP => Carries(rows, log, e, source.hostGroups, SYSTEM)
          case ADAPTER_GROUP => Carries(rows, log, e, source.adapters, SYSTEM)
          case PORT_GROUP => Carries(rows, log, e, source.ports, ADAPTER_GROUP)
          case _ => false)
  }

  lemma CarriesMeans(source: OldTables, rows: Rows, log: seq<Entry>, e: Entry)
    requires Faithful(source, rows, log, e)
    ensures match e.typ
            case DATACENTER => CarriesDatacenter(rows, e, source.datacenters)
            case SYSTEM => Carries(rows, log, e, source.systems, DATACENTER)
            case POOL => Carries(rows, log, e, source.pools, SYSTEM)
            case HOST_GROUP => Carries(rows, log, e, source.hostGroups, SYSTEM)
            case ADAPTER_GROUP => Carries(rows, log, e, source.adapters, SYSTEM)
            case PORT_GROUP => Carries(rows, log, e, source.ports, ADAPTER_GROUP)
            case _ => false
  {
    var row :| row in RowsOf(source, e.typ) && row.id == e.oldId
               && ParentKnown(log, e.typ, row.owner, rows[e.newId].parent)
               && rows[e.newId] == MigratedEntity(e.typ, row, rows[e.newId].parent);
    if e.typ != DATACENTER {
      var p := rows[e.newId].parent.value;
      assert Entry(OwnerType(e.typ), row.owner, p) in log;
      assert Carries(rows, log, e, RowsOf(source, e.typ), OwnerType(e.typ));
    }
  }

  lemma AllCarried(source: OldTables, original: map<MetricKey, int>, t: Tables, metrics: map<MetricKey, int>, log: seq<Entry>)
    requires Migrated(source, original, t, metrics, log)
    ensures EntitiesCarryRows(source, t.rows, log)
  {
    forall e | e in log ensures Faithful(source, t.rows, log, e) {}
    forall e | e in log { CarriesMeans(source, t.rows, log, e); }
    forall x | 1000 < x <= 1000 + |log| ensures x in t.rows {
      assert log[x - 1001] in log && log[x - 1001].newId == x;
    }
  }

  // ---------- which rows a cursor loop visits ----------

  /** Rows of the given type that belong to owner. */
  ghost function Owned(rows: seq<OldRow>, typ: EntityType, owner: int): set<(EntityType, int)> {
    set r | r in rows && r.owner == owner :: (typ, r.id)
  }

  ghost function AdapterScope(source: OldTables, adapters: seq<OldRow>, owner: int): set<(EntityType, int)> {
    Owned(adapters, ADAPTER_GROUP, owner) +
    set a, x | a in adapters && a.owner == owner && x in Owned(RowsOf(source, PORT_GROUP), PORT_GROUP, a.id) :: x
  }

  ghost function SystemScope(source: OldTables, system: int): set<(EntityType, int)> {
    Owned(RowsOf(source, POOL), POOL, system) + Owned(RowsOf(source, HOST_GROUP), HOST_GROUP, system)
    + AdapterScope(source, source.adapters, system)
  }

  ghost function SystemsScope(source: OldTables, systems: seq<OldRow>, owner: int): set<(EntityType, int)> {
    Owned(systems, SYSTEM, owner) +
    set s, x | s in systems && s.owner == owner && x in SystemScope(source, s.id) :: x
  }

  ghost function DatacenterScope(source: OldTables, datacenters: seq<OldRow>): set<(EntityType, int)> {
    (set d | d in datacenters :: (DATACENTER, d.id)) +
    set d, x | d in datacenters && x in SystemsScope(source, source.systems, d.id) :: x
  }

  ghost function VisitedSet(log: seq<Entry>): set<(EntityType, int)> {
    set e | e in log :: (e.typ, e.oldId)
  }

  /** A row belongs to one owner only. */
  lemma OneOwner(source: OldTables, typ: EntityType, r: OldRow, s: OldRow)
    requires WellKeyed(source) && r in RowsOf(source, typ) && s in RowsOf(source, typ) && r.id == s.id
    ensures r == s
  {
    var i :| 0 <= i < |RowsOf(source, typ)| && RowsOf(source, typ)[i] == r;
    var j :| 0 <= j < |RowsOf(source, typ)| && RowsOf(source, typ)[j] == s;
    if i < j {
      assert RowsOf(source, typ)[i].id != RowsOf(source, typ)[j].id;
    } else if j < i {
      assert RowsOf(source, typ)[j].id != RowsOf(source, typ)[i].id;
    }
  }

  // ---------- loops of the cursors visit each row once ----------

  lemma OwnedOnce(source: OldTables, typ: EntityType, o: int, p: int, x: (EntityType, int))
    requires WellKeyed(source)
    requires x in Owned(RowsOf(source, typ), typ, o) && x in Owned(RowsOf(source, typ), typ, p)
    ensures o == p
  {
    var r :| r in RowsOf(source, typ) && r.owner == o && x == (typ, r.id);
    var s :| s in RowsOf(source, typ) && s.owner == p && x == (typ, s.id);
    OneOwner(source, typ, r, s);
  }

  /** A port is reached through its adapter; returns the adapter's id, or -1 when x is the adapter itself. */
  lemma AdapterOf(source: OldTables, adapters: seq<OldRow>, owner: int, x: (EntityType, int)) returns (a: OldRow)
    requires x in AdapterScope(source, adapters, owner)
    ensures a in adapters && a.owner == owner
    ensures x == (ADAPTER_GROUP, a.id) || x in Owned(RowsOf(source, PORT_GROUP), PORT_GROUP, a.id)
  {
    if x in Owned(adapters, ADAPTER_GROUP, owner) {
      a :| a in adapters && a.owner == owner && x == (ADAPTER_GROUP, a.id);
    } else {
      a :| a in adapters && a.owner == owner && x in Owned(RowsOf(source, PORT_GROUP), PORT_GROUP, a.id);
    }
  }

  lemma AdapterOnce(source: OldTables, a: OldRow, b: OldRow, x: (EntityType, int))
    requires WellKeyed(source) && a in source.adapters && b in source.adapters
    requires x == (ADAPTER_GROUP, a.id) || x in Owned(RowsOf(source, PORT_GROUP), PORT_GROUP, a.id)
    requires x == (ADAPTER_GROUP, b.id) || x in Owned(RowsOf(source, PORT_GROUP), PORT_GROUP, b.id)
    ensures a == b && x.0 in {ADAPTER_GROUP, PORT_GROUP}
  {
    if x.0 == PORT_GROUP { OwnedOnce(source, PORT_GROUP, a.id, b.id, x); }
    OneOwner(source, ADAPTER_GROUP, a, b);
  }

  lemma SystemOnce(source: OldTables, s: int, t: int, x: (EntityType, int))
    requires WellKeyed(source) && x in SystemScope(source, s) && x in SystemScope(source, t)
    ensures s == t && x.0 !in {SYSTEM, DATACENTER}
  {
    if x.0 == POOL {
      OwnedOnce(source, POOL, s, t, x);
    } else if x.0 == HOST_GROUP {
      OwnedOnce(source, HOST_GROUP, s, t, x);
    } else {
      var a := AdapterOf(source, source.adapters, s, x);
      var b := AdapterOf(source, source.adapters, t, x);
      AdapterOnce(source, a, b, x);
    }
  }

  lemma SystemOf(source: OldTables, systems: seq<OldRow>, owner: int, x: (EntityType, int)) returns (s: OldRow)
    requires x in SystemsScope(source, systems, owner)
    ensures s in systems && s.owner == owner && (x == (SYSTEM, s.id) || x in SystemScope(source, s.id))
  {
    if x in Owned(systems, SYSTEM, owner) {
      s :| s in systems && s.owner == owner && x == (SYSTEM, s.id);
    } else {
      s :| s in systems && s.owner == owner && x in SystemScope(source, s.id);
    }
  }

  lemma SystemsOnce(source: OldTables, s: OldRow, t: OldRow, x: (EntityType, int))
    requires WellKeyed(source) && s in source.systems && t in source.systems
    requires x == (SYSTEM, s.id) || x in SystemScope(source, s.id)
    requires x == (SYSTEM, t.id) || x in SystemScope(source, t.id)
    ensures s == t && x.0 != DATACENTER
  {
    if x in SystemScope(source, s.id) {
      SystemOnce(source, s.id, s.id, x);
      SystemOnce(source, s.id, t.id, x);
    } else if x in SystemScope(source, t.id) {
      SystemOnce(source, t.id, t.id, x);
    }
    OneOwner(source, SYSTEM, s, t);
  }

  lemma NotAmongEarlier(source: OldTables, typ: EntityType, i: nat)
    requires WellKeyed(source) && i < |RowsOf(source, typ)|
    ensures RowsOf(source, typ)[..i + 1] == RowsOf(source, typ)[..i] + [RowsOf(source, typ)[i]]
    ensures forall r | r in RowsOf(source, typ)[..i] :: r.id != RowsOf(source, typ)[i].id && r in RowsOf(source, typ)
  {
  }

  lemma OwnedGrows(source: OldTables, typ: EntityType, owner: int, i: nat, start: set<(EntityType, int)>)
    requires WellKeyed(source) && i < |RowsOf(source, typ)| && Owned(RowsOf(source, typ), typ, owner) !! start
    ensures var rows := RowsOf(source, typ);
            if rows[i].owner == owner
            then (typ, rows[i].id) !in start + Owned(rows[..i], typ, owner)
                 && start + Owned(rows[..i + 1], typ, owner) == start + Owned(rows[..i], typ, owner) + {(typ, rows[i].id)}
            else Owned(rows[..i + 1], typ, owner) == Owned(rows[..i], typ, owner)
  {
    NotAmongEarlier(source, typ, i);
    assert RowsOf(source, typ)[i].owner == owner ==>
        (typ, RowsOf(source, typ)[i].id) in Owned(RowsOf(source, typ), typ, owner);
  }

  lemma AdapterScopeGrows(source: OldTables, owner: int, i: nat)
    requires WellKeyed(source) && i < |source.adapters|
    ensures var a := source.adapters[i];
            AdapterScope(source, source.adapters[..i + 1], owner) ==
              AdapterScope(source, source.adapters[..i], owner) +
              (if a.owner == owner then {(ADAPTER_GROUP, a.id)} + Owned(RowsOf(source, PORT_GROUP), PORT_GROUP, a.id) else {})
    ensures var a := source.adapters[i];
            AdapterScope(source, source.adapters[..i], owner) !! {(ADAPTER_GROUP, a.id)} + Owned(RowsOf(source, PORT_GROUP), PORT_GROUP, a.id)
  {
    var a := source.adapters[i];
    NotAmongEarlier(source, ADAPTER_GROUP, i);
    forall x | x in AdapterScope(source, source.adapters[..i], owner)
      ensures x !in {(ADAPTER_GROUP, a.id)} + Owned(RowsOf(source, PORT_GROUP), PORT_GROUP, a.id)
    {
      var b := AdapterOf(source, source.adapters[..i], owner, x);
      if x in {(ADAPTER_GROUP, a.id)} + Owned(RowsOf(source, PORT_GROUP), PORT_GROUP, a.id) { AdapterOnce(source, a, b, x); }
    }
  }

  lemma SystemsScopeGrows(source: OldTables, owner: int, i: nat)
    requires WellKeyed(source) && i < |source.systems|
    ensures var s := source.systems[i];
            SystemsScope(source, source.systems[..i + 1], owner) ==
              SystemsScope(source, source.systems[..i], owner) +
              (if s.owner == owner then {(SYSTEM, s.id)} + SystemScope(source, s.id) else {})
  {
    NotAmongEarlier(source, SYSTEM, i);
  }

  lemma SystemsScopeApart(source: OldTables, owner: int, i: nat)
    requires WellKeyed(source) && i < |source.systems|
    ensures var s := source.systems[i];
            SystemsScope(source, source.systems[..i], owner) !! {(SYSTEM, s.id)} + SystemScope(source, s.id)
    ensures var s := source.systems[i]; (SYSTEM, s.id) !in SystemScope(source, s.id)
  {
    var s := source.systems[i];
    NotAmongEarlier(source, SYSTEM, i);
    forall x | x in SystemsScope(source, source.systems[..i], owner)
      ensures x !in {(SYSTEM, s.id)} + SystemScope(source, s.id)
    {
      var t := SystemOf(source, source.systems[..i], owner, x);
      if x in {(SYSTEM, s.id)} + SystemScope(source, s.id) { SystemsOnce(source, s, t, x); }
    }
    if (SYSTEM, s.id) in SystemScope(source, s.id) { SystemOnce(source, s.id, s.id, (SYSTEM, s.id)); }
  }

  lemma DatacenterScopeGrows(source: OldTables, i: nat)
    requires WellKeyed(source) && i < |source.datacenters|
    ensures var d := source.datacenters[i];
            DatacenterScope(source, source.datacenters[..i + 1]) ==
              DatacenterScope(source, source.datacenters[..i]) + ({(DATACENTER, d.id)} + SystemsScope(source, source.systems, d.id))
  {
    NotAmongEarlier(source, DATACENTER, i);
  }

  lemma DatacenterScopeApart(source: OldTables, i: nat)
    requires WellKeyed(source) && i < |source.datacenters|
    ensures var d := source.datacenters[i];
            DatacenterScope(source, source.datacenters[..i]) !! {(DATACENTER, d.id)} + SystemsScope(source, source.systems, d.id)
    ensures var d := source.datacenters[i]; (DATACENTER, d.id) !in SystemsScope(source, source.systems, d.id)
  {
    var d := source.datacenters[i];
    NotAmongEarlier(source, DATACENTER, i);
    forall x | x in SystemsScope(source, source.systems, d.id)
      ensures x.0 != DATACENTER && x !in DatacenterScope(source, source.datacenters[..i])
    {
      var s := SystemOf(source, source.systems, d.id, x);
      SystemsOnce(source, s, s, x);
      forall e | e in source.datacenters[..i] ensures x !in SystemsScope(source, source.systems, e.id) {
        if x in SystemsScope(source, source.systems, e.id) {
          var t := SystemOf(source, source.systems, e.id, x);
          SystemsOnce(source, s, t, x);
        }
      }
    }
    forall e, x | e in source.datacenters[..i] && x in SystemsScope(source, source.systems, e.id) ensures x != (DATACENTER, d.id) {
      var t := SystemOf(source, source.systems, e.id, x);
      SystemsOnce(source, t, t, x);
    }
  }

  /** The next row of a loop and what its inner loops visit are new; v is what has been visited so far. */
  lemma NextIsNew<T>(whole: set<T>, start: set<T>, earlier: set<T>, first: T, rest: set<T>, v: set<T>)
    requires whole !! start && v == start + earlier
    requires {first} + rest <= whole && earlier !! {first} + rest && first !in rest
    ensures first !in v && rest !! v + {first}
    ensures v + {first} + rest == start + (earlier + ({first} + rest))
  {
  }

  lemma SystemScopeParts(source: OldTables, s: int, v: set<(EntityType, int)>)
    requires SystemScope(source, s) !! v
    ensures var pools, groups, adapters :=
              Owned(RowsOf(source, POOL), POOL, s), Owned(RowsOf(source, HOST_GROUP), HOST_GROUP, s), AdapterScope(source, source.adapters, s);
            pools !! v && groups !! v + pools && adapters !! v + pools + groups
            && v + pools + groups + adapters == v + SystemScope(source, s)
  {
    var pools, groups, adapters :=
      Owned(RowsOf(source, POOL), POOL, s), Owned(RowsOf(source, HOST_GROUP), HOST_GROUP, s), AdapterScope(source, source.adapters, s);
    assert forall x | x in adapters :: x.0 in {ADAPTER_GROUP, PORT_GROUP};
    Apart(pools, groups, adapters, v);
  }

  lemma Apart<T>(a: set<T>, b: set<T>, c: set<T>, v: set<T>)
    requires a !! b && a !! c && b !! c && a + b + c !! v
    ensures a !! v && b !! v + a && c !! v + a + b && v + a + b + c == v + (a + b + c)
  {
  }

  // ---------- one row ----------

  lemma TablesOfOneType(typ: EntityType, other: EntityType, table: DataTable)
    requires table in MetricTables(typ) && table in MetricTables(other)
    ensures typ == other
  {
  }

  lemma BelowAdapter(log: seq<Entry>, adapter: int, child: Id)
    requires Entry(ADAPTER_GROUP, adapter, child) in log
    ensures ParentKnown(log, PORT_GROUP, adapter, Some(child))
  {
  }

  lemma BelowSystem(log: seq<Entry>, system: int, child: Id)
    requires Entry(SYSTEM, system, child) in log
    ensures ParentKnown(log, POOL, system, Some(child)) && ParentKnown(log, ADAPTER_GROUP, system, Some(child))
    ensures ParentKnown(log, HOST_GROUP, system, Some(child))
  {
  }

  lemma BelowDatacenter(log: seq<Entry>, datacenter: int, child: Id)
    requires Entry(DATACENTER, datacenter, child) in log
    ensures ParentKnown(log, SYSTEM, datacenter, Some(child))
  {
  }

  lemma KnownStays(before: seq<Entry>, log: seq<Entry>, typ: EntityType, owner: int, parent: Option<Id>)
    requires Grows(before, log) && ParentKnown(before, typ, owner, parent)
    ensures ParentKnown(log, typ, owner, parent)
  {
  }

  lemma ParentIsRow(source: OldTables, rows: Rows, log: seq<Entry>, typ: EntityType, owner: int, parent: Option<Id>)
    requires (forall e | e in log :: Faithful(source, rows, log, e)) && ParentKnown(log, typ, owner, parent)
    ensures parent.Some? ==> parent.value in rows
  {
    if parent.Some? { assert Faithful(source, rows, log, Entry(OwnerType(typ), owner, parent.value)); }
  }

  function Renumbered(metrics: map<MetricKey, int>, tables: seq<DataTable>, oldId: int, newId: int): map<MetricKey, int> {
    map k | k in metrics :: if k.table in tables && metrics[k] == oldId then newId else metrics[k]
  }

  lemma MetricsKeepFollowing(original: map<MetricKey, int>, metrics: map<MetricKey, int>, log: seq<Entry>, e: Entry)
    requires MetricsFollow(original, metrics, log)
    ensures MetricsFollow(original, Renumbered(metrics, MetricTables(e.typ), e.oldId, e.newId), log + [e])
  {
    var updated := Renumbered(metrics, MetricTables(e.typ), e.oldId, e.newId);
    assert (log + [e])[..|log|] == log;
    forall other, k | k in original && k.table in MetricTables(other)
      ensures updated[k] == Updated(original[k], RenamesOf(log + [e], other))
    {
      if other == e.typ {
        var renames := RenamesOf(log + [e], other);
        assert renames == RenamesOf(log, other) + [Rename(e.oldId, e.newId)];
        assert renames[..|renames| - 1] == RenamesOf(log, other) && renames[|renames| - 1] == Rename(e.oldId, e.newId);
        assert metrics[k] == Updated(original[k], RenamesOf(log, other));
      } else {
        if k.table in MetricTables(e.typ) { TablesOfOneType(e.typ, other, k.table); }
        assert RenamesOf(log + [e], other) == RenamesOf(log, other);
        assert updated[k] == metrics[k];
      }
    }
  }

  lemma MigrateRowKeeps(source: OldTables, original: map<MetricKey, int>, before: Tables, metrics: map<MetricKey, int>,
                        log: seq<Entry>, typ: EntityType, row: OldRow, parent: Option<Id>)
    requires Migrated(source, original, before, metrics, log)
    requires row in RowsOf(source, typ) && (typ, row.id) !in VisitedSet(log) && ParentKnown(log, typ, row.owner, parent)
    ensures var entry := Entry(typ, row.id, before.lastId + 1);
            && Migrated(source, original, AddLeaf(before, MigratedEntity(typ, row, parent)),
                        Renumbered(metrics, MetricTables(typ), row.id, entry.newId), log + [entry])
            && VisitedSet(log + [entry]) == VisitedSet(log) + {(typ, row.id)}
            && Grows(log, log + [entry])
  {
    var e := MigratedEntity(typ, row, parent);
    var entry := Entry(typ, row.id, before.lastId + 1);
    var after := AddLeaf(before, e);
    assert Inv(after) by {
      ParentIsRow(source, before.rows, log, typ, row.owner, parent);
      AddLeafKeepsInv(before, e);
    }
    assert LogMatches(source, after.rows, log + [entry]) by { LogOneMore(source, before.rows, log, entry, row, parent); }
    assert MetricsFollow(original, Renumbered(metrics, MetricTables(typ), row.id, entry.newId), log + [entry]) by {
      MetricsKeepFollowing(original, metrics, log, entry);
    }
    VisitedOneMore(log, entry);
  }

  lemma LogOneMore(source: OldTables, rows: Rows, log: seq<Entry>, e: Entry, row: OldRow, parent: Option<Id>)
    requires LogMatches(source, rows, log) && e.newId == SEQUENCE_START + 1 + |log| && e.newId !in rows
    requires row in RowsOf(source, e.typ) && row.id == e.oldId && (e.typ, row.id) !in VisitedSet(log)
    requires ParentKnown(log, e.typ, row.owner, parent)
    ensures LogMatches(source, rows[e.newId := MigratedEntity(e.typ, row, parent)], log + [e])
  {
    var after := rows[e.newId := MigratedEntity(e.typ, row, parent)];
    LogGrows(source, rows, after, log, e);
    NewIsFaithful(source, after, log, e, row, parent);
    NotYetLogged(log, e.typ, row.id);
    AllFaithful(source, after, log, e);
  }

  lemma AllFaithful(source: OldTables, rows: Rows, log: seq<Entry>, e: Entry)
    requires (forall x | x in log :: Faithful(source, rows, log + [e], x)) && Faithful(source, rows, log + [e], e)
    ensures forall x | x in log + [e] :: Faithful(source, rows, log + [e], x)
  {
    forall x | x in log + [e] ensures Faithful(source, rows, log + [e], x) {
      assert x in log || x == e;
    }
  }

  lemma NewIsFaithful(source: OldTables, rows: Rows, log: seq<Entry>, e: Entry, row: OldRow, parent: Option<Id>)
    requires row in RowsOf(source, e.typ) && row.id == e.oldId && ParentKnown(log, e.typ, row.owner, parent)
    requires e.newId in rows && rows[e.newId] == MigratedEntity(e.typ, row, parent)
    ensures Faithful(source, rows, log + [e], e)
  {
    assert ParentKnown(log + [e], e.typ, row.owner, rows[e.newId].parent);
  }

  lemma NotYetLogged(log: seq<Entry>, typ: EntityType, id: int)
    requires (typ, id) !in VisitedSet(log)
    ensures forall i | 0 <= i < |log| && log[i].typ == typ :: log[i].oldId != id
  {
    forall i | 0 <= i < |log| && log[i].typ == typ ensures log[i].oldId != id {
      assert (log[i].typ, log[i].oldId) in VisitedSet(log);
    }
  }

  lemma VisitedOneMore(log: seq<Entry>, e: Entry)
    ensures VisitedSet(log + [e]) == VisitedSet(log) + {(e.typ, e.oldId)} && Grows(log, log + [e])
  {
    assert forall x :: x in log + [e] <==> x in log || x == e;
  }

  class Migration {
    const repository: StorageEntityRepository
    const source: OldTables
    var metrics: map<MetricKey, int>
    ghost const original: map<MetricKey, int>
    ghost var log: seq<Entry>

    ghost predicate Valid()
      reads this, repository
    {
      WellKeyed(source) && Migrated(source, original, repository.State(), metrics, log)
    }

    constructor (repository: StorageEntityRepository, source: OldTables, metrics: map<MetricKey, int>)
      requires WellKeyed(source) && repository.rows == map[] && repository.closure == {} && repository.data == {}
      modifies repository
      ensures Valid() && log == [] && original == metrics && this.source == source && this.repository == repository
    {
      this.repository, this.source, this.metrics := repository, source, metrics;
      original, log := metrics, [];
      new;
      repository.lastId := SEQUENCE_START;
      assert forall a, d :: !Reaches(repository.rows, a, d);
    }

    /** add_storage_entity: the id is predicted from the sequence and used for the closure rows before the
        caller ever sees what the insert assigned; the two are proved equal. */
    method AddStorageEntity(e: Entity) returns (child: Id)
      requires Inv(repository.State()) && (e.parent.Some? ==> e.parent.value in repository.rows)
      modifies repository
      ensures repository.State() == AddLeaf(old(repository.State()), e) && Inv(repository.State())
      ensures child == repository.lastId
    {
      AddLeafKeepsInv(repository.State(), e);
      AddLeafKeepsGrounded(repository.State(), e);
      child := repository.lastId + 1;
      var inserted := repository.InsertRow(e);
      assert inserted == child;
      var _ := repository.InsertPairs({(child, child)});
      var _ := repository.InsertPairs(CrossJoin(repository.closure, e.parent, child));
    }

    /** One update statement: the rows of the table that refer to the old id now refer to the new one. */
    method UpdateOwner(table: DataTable, oldId: int, newId: Id)
      modifies this`metrics
      ensures metrics == Renumbered(old(metrics), [table], oldId, newId)
    {
      metrics := map k | k in metrics :: if k.table == table && metrics[k] == oldId then newId else metrics[k];
    }

    method UpdateOwners(tables: seq<DataTable>, oldId: int, newId: Id)
      modifies this`metrics
      ensures metrics == Renumbered(old(metrics), tables, oldId, newId)
    {
      for i := 0 to |tables|
        invariant metrics == Renumbered(old(metrics), tables[..i], oldId, newId)
      {
        UpdateOwner(tables[i], oldId, newId);
        assert tables[..i + 1] == tables[..i] + [tables[i]];
      }
      assert tables[..|tables|] == tables;
    }

    /** One fetched row: its entity, then the update of every table that refers to it. */
    method MigrateRow(typ: EntityType, row: OldRow, parent: Option<Id>) returns (child: Id)
      requires Valid() && row in RowsOf(source, typ) && (typ, row.id) !in VisitedSet(log)
      requires ParentKnown(log, typ, row.owner, parent)
      modifies this`metrics, this`log, repository
      ensures Valid() && log == old(log) + [Entry(typ, row.id, child)]
      ensures VisitedSet(log) == old(VisitedSet(log)) + {(typ, row.id)}
      ensures Grows(old(log), log) && Entry(typ, row.id, child) in log
    {
      MigrateRowKeeps(source, original, repository.State(), metrics, log, typ, row, parent);
      ParentIsRow(source, repository.rows, log, typ, row.owner, parent);
      ghost var entry := Entry(typ, row.id, repository.lastId + 1);
      child := AddStorageEntity(MigratedEntity(typ, row, parent));
      UpdateOwners(MetricTables(typ), row.id, child);
      log := log + [entry];
    }

    /** A cursor loop without inner loops: pools, host groups and ports. */
    method MigrateLeaves(typ: EntityType, owner: int, parent: Id)
      requires Valid() && typ in {POOL, HOST_GROUP, PORT_GROUP} && ParentKnown(log, typ, owner, Some(parent))
      requires Owned(RowsOf(source, typ), typ, owner) !! VisitedSet(log)
      modifies this`metrics, this`log, repository
      ensures Valid() && Grows(old(log), log)
      ensures VisitedSet(log) == old(VisitedSet(log)) + Owned(RowsOf(source, typ), typ, owner)
    {
      var rows := RowsOf(source, typ);
      for i := 0 to |rows|
        invariant Valid() && Grows(old(log), log)
        invariant VisitedSet(log) == old(VisitedSet(log)) + Owned(rows[..i], typ, owner)
      {
        OwnedGrows(source, typ, owner, i, old(VisitedSet(log)));
        if rows[i].owner == owner {
          KnownStays(old(log), log, typ, owner, Some(parent));
          var _ := MigrateRow(typ, rows[i], Some(parent));
        }
      }
      assert rows[..|rows|] == rows;
    }

    /** One adapter with the port loop below it. */
    method MigrateAdapter(adapter: OldRow, parent: Id)
      requires Valid() && adapter in source.adapters && ParentKnown(log, ADAPTER_GROUP, adapter.owner, Some(parent))
      requires (ADAPTER_GROUP, adapter.id) !in VisitedSet(log)
      requires Owned(RowsOf(source, PORT_GROUP), PORT_GROUP, adapter.id) !! VisitedSet(log) + {(ADAPTER_GROUP, adapter.id)}
      modifies this`metrics, this`log, repository
      ensures Valid() && Grows(old(log), log)
      ensures VisitedSet(log) == old(VisitedSet(log)) + {(ADAPTER_GROUP, adapter.id)}
                                 + Owned(RowsOf(source, PORT_GROUP), PORT_GROUP, adapter.id)
    {
      var child := MigrateRow(ADAPTER_GROUP, adapter, Some(parent));
      BelowAdapter(log, adapter.id, child);
      MigrateLeaves(PORT_GROUP, adapter.id, child);
    }

    /** The adapter loop. */
    method MigrateAdapters(owner: int, parent: Id)
      requires Valid() && Entry(SYSTEM, owner, parent) in log
      requires AdapterScope(source, source.adapters, owner) !! VisitedSet(log)
      modifies this`metrics, this`log, repository
      ensures Valid() && Grows(old(log), log)
      ensures VisitedSet(log) == old(VisitedSet(log)) + AdapterScope(source, source.adapters, owner)
    {
      for i := 0 to |source.adapters|
        invariant Valid() && Grows(old(log), log)
        invariant VisitedSet(log) == old(VisitedSet(log)) + AdapterScope(source, source.adapters[..i], owner)
      {
        var adapter := source.adapters[i];
        AdapterScopeGrows(source, owner, i);
        if adapter.owner == owner {
          NextIsNew(AdapterScope(source, source.adapters, owner), old(VisitedSet(log)),
                    AdapterScope(source, source.adapters[..i], owner), (ADAPTER_GROUP, adapter.id),
                    Owned(RowsOf(source, PORT_GROUP), PORT_GROUP, adapter.id), VisitedSet(log));
          BelowSystem(log, owner, parent);
          MigrateAdapter(adapter, parent);
        }
      }
      assert source.adapters[..|source.adapters|] == source.adapters;
    }

    /** One system with the pool, host-group and adapter loops below it. */
    method MigrateSystem(system: OldRow, parent: Id)
      requires Valid() && system in source.systems && ParentKnown(log, SYSTEM, system.owner, Some(parent))
      requires (SYSTEM, system.id) !in VisitedSet(log)
      requires SystemScope(source, system.id) !! VisitedSet(log) + {(SYSTEM, system.id)}
      modifies this`metrics, this`log, repository
      ensures Valid() && Grows(old(log), log)
      ensures VisitedSet(log) == old(VisitedSet(log)) + {(SYSTEM, system.id)} + SystemScope(source, system.id)
    {
      var child := MigrateRow(SYSTEM, system, Some(parent));
      SystemScopeParts(source, system.id, VisitedSet(log));
      BelowSystem(log, system.id, child);
      MigrateLeaves(POOL, system.id, child);
      BelowSystem(log, system.id, child);
      MigrateLeaves(HOST_GROUP, system.id, child);
      MigrateAdapters(system.id, child);
    }

    /** The system loop. */
    method MigrateSystems(owner: int, parent: Id)
      requires Valid() && Entry(DATACENTER, owner, parent) in log
      requires SystemsScope(source, source.systems, owner) !! VisitedSet(log)
      modifies this`metrics, this`log, repository
      ensures Valid() && Grows(old(log), log)
      ensures VisitedSet(log) == old(VisitedSet(log)) + SystemsScope(source, source.systems, owner)
    {
      for i := 0 to |source.systems|
        invariant Valid() && Grows(old(log), log)
        invariant VisitedSet(log) == old(VisitedSet(log)) + SystemsScope(source, source.systems[..i], owner)
      {
        var system := source.systems[i];
        SystemsScopeGrows(source, owner, i);
        if system.owner == owner {
          SystemsScopeApart(source, owner, i);
          NextIsNew(SystemsScope(source, source.systems, owner), old(VisitedSet(log)),
                    SystemsScope(source, source.systems[..i], owner), (SYSTEM, system.id),
                    SystemScope(source, system.id), VisitedSet(log));
          BelowDatacenter(log, owner, parent);
          MigrateSystem(system, parent);
        }
      }
      assert source.systems[..|source.systems|] == source.systems;
    }

    /** One datacenter with the system loop below it. */
    method MigrateDatacenter(datacenter: OldRow)
      requires Valid() && datacenter in source.datacenters && (DATACENTER, datacenter.id) !in VisitedSet(log)
      requires SystemsScope(source, source.systems, datacenter.id) !! VisitedSet(log) + {(DATACENTER, datacenter.id)}
      modifies this`metrics, this`log, repository
      ensures Valid()
      ensures VisitedSet(log) == old(VisitedSet(log)) + {(DATACENTER, datacenter.id)}
                                 + SystemsScope(source, source.systems, datacenter.id)
    {
      var child := MigrateRow(DATACENTER, datacenter, None);
      MigrateSystems(datacenter.id, child);
    }

    /** The outermost loop. */
    method MigrateDatacenters()
      requires Valid() && log == []
      modifies this`metrics, this`log, repository
      ensures Valid() && VisitedSet(log) == DatacenterScope(source, source.datacenters)
    {
      for i := 0 to |source.datacenters|
        invariant Valid()
        invariant VisitedSet(log) == DatacenterScope(source, source.datacenters[..i])
      {
        var datacenter := source.datacenters[i];
        DatacenterScopeGrows(source, i);
        DatacenterScopeApart(source, i);
        NextIsNew({(DATACENTER, datacenter.id)} + SystemsScope(source, source.systems, datacenter.id), {},
                  DatacenterScope(source, source.datacenters[..i]),
                  (DATACENTER, datacenter.id), SystemsScope(source, source.systems, datacenter.id), VisitedSet(log));
        MigrateDatacenter(datacenter);
      }
      assert source.datacenters[..|source.datacenters|] == source.datacenters;
    }

    /** The whole migration. Every row below a migrated datacenter becomes an entity, the closure table is
        the reachability of the forest built, and when old ids stay within the start of the sequence every
        metric row of a migrated entity ends with that entity's id, rewritten exactly once. */
    method Migrate()
      requires Valid() && log == []
      modifies this`metrics, this`log, repository
      ensures Valid() && Inv(repository.State())
      ensures forall typ, id :: Visited(log, typ, id) <==> InScope(source, typ, id)
      ensures EntitiesCarryRows(source, repository.rows, log)
      ensures metrics.Keys == original.Keys
      ensures OldIdsAtMost(source, 1000) ==> MetricsFollowEntities(original, metrics, log)
    {
      MigrateDatacenters();
      forall typ, id ensures Visited(log, typ, id) <==> InScope(source, typ, id) {
        VisitedIs(log, typ, id);
        ScopeMeans(source, typ, id);
      }
      AllCarried(source, original, repository.State(), metrics, log);
      if OldIdsAtMost(source, 1000) {
        MetricsRenamed(source, original, repository.State(), metrics, log);
      }
    }
  }

  ghost predicate Grows(before: seq<Entry>, log: seq<Entry>) {
    forall e | e in before :: e in log
  }

  ghost predicate OldIdsAtMost(source: OldTables, bound: int) {
    forall typ, r | r in RowsOf(source, typ) :: r.id <= bound
  }

  lemma EndsRenamed(source: OldTables, original: map<MetricKey, int>, t: Tables, metrics: map<MetricKey, int>,
                    log: seq<Entry>, typ: EntityType, v: int)
    requires Migrated(source, original, t, metrics, log) && OldIdsAtMost(source, SEQUENCE_START)
    ensures var renames := RenamesOf(log, typ);
            if Visited(log, typ, v) then Entry(typ, v, Updated(v, renames)) in log && Rewrites(v, renames) == 1
            else Updated(v, renames) == v && Rewrites(v, renames) == 0
  {
    var renames := RenamesOf(log, typ);
    RenamesFromSequence(log, typ);
    forall r | r in renames ensures r.oldId <= SEQUENCE_START < r.newId && Visited(log, typ, r.oldId) {
      RenamesOfMember(log, typ, r);
      assert Faithful(source, t.rows, log, Entry(typ, r.oldId, r.newId));
    }
    OldBelowNew(renames, SEQUENCE_START);
    NoOverlapRenames(v, renames);
    if HasOld(v, renames) {
      var i := HasOldAt(v, renames);
      RenamesOfMember(log, typ, renames[i]);
    } else {
      NoOldNoRename(v, renames);
    }
    if Visited(log, typ, v) {
      var e :| e in log && e.typ == typ && e.oldId == v;
      RenamesOfMember(log, typ, Rename(v, e.newId));
      var i :| 0 <= i < |renames| && renames[i] == Rename(v, e.newId);
      HasOldIff(v, renames, i);
    }
  }
}
