/** Reconciliation of a system's pools, parity groups and host groups with what its maintainer reports. */
module DeviceMap {
  import opened Wrappers
  import opened Forest
  import opened ClosureTable
  import opened StorageEntityTables
  import opened StorageEntityKeys
  import opened StorageEntityRepositories

  datatype PoolInfo = PoolInfo(id: nat, name: string, eccGroups: seq<string>)

  /** Decimal text of a number. */
  function Text(n: nat): string {
    if n < 10 then ["0123456789"[n]] else Text(n / 10) + ["0123456789"[n % 10]]
  }

  function NumberIn(digits: string): int {
    if digits == [] then 0 else 10 * NumberIn(digits[..|digits| - 1]) + (digits[|digits| - 1] as int - '0' as int)
  }

  /** The text reads back as the number, so different ids give different serial numbers. */
  lemma {:induction false} TextRoundTrip(n: nat)
    ensures NumberIn(Text(n)) == n
  {
    var last := "0123456789"[n % 10];
    assert last as int - '0' as int == n % 10;
    if n < 10 {
      assert Text(n) == [last] && [last][..0] == [];
      assert NumberIn([]) == 0;
    } else {
      TextRoundTrip(n / 10);
      assert Text(n)[..|Text(n)| - 1] == Text(n / 10);
    }
  }

  // ---------- what belongs to a system ----------

  predicate PoolOf(rows: Rows, s: Id, x: Id) {
    x in rows && rows[x].typ == POOL && rows[x].parent == Some(s)
  }

  predicate GroupOf(rows: Rows, s: Id, x: Id) {
    x in rows && rows[x].typ == HOST_GROUP && rows[x].parent == Some(s)
  }

  predicate ParityOf(rows: Rows, s: Id, x: Id) {
    x in rows && rows[x].typ == PARITY_GROUP && rows[x].parent.Some? && PoolOf(rows, s, rows[x].parent.value)
  }

  ghost predicate HasParity(rows: Rows, s: Id, name: string) {
    exists x :: ParityOf(rows, s, x) && rows[x].name == name
  }

  /** No two parity groups of the system share a name. */
  ghost predicate ParityDistinct(rows: Rows, s: Id) {
    forall x, y | ParityOf(rows, s, x) && ParityOf(rows, s, y) && rows[x].name == rows[y].name :: x == y
  }

  ghost predicate SystemIs(rows: Rows, system: string, s: Id) {
    s in rows && rows[s].name == system && rows[s].typ == SYSTEM
  }

  // ---------- what is reported ----------

  /** Pool names are distinct, every parity group is listed by one pool, and nothing is nameless. */
  ghost predicate WellReported(pools: seq<PoolInfo>) {
    && (forall k, l | 0 <= k < l < |pools| :: pools[k].name != pools[l].name)
    && (forall k | 0 <= k < |pools| :: pools[k].name != "" && "" !in pools[k].eccGroups)
    && (forall k, l, g | 0 <= k < |pools| && 0 <= l < |pools| && g in pools[k].eccGroups && g in pools[l].eccGroups :: k == l)
  }

  predicate Named(pools: seq<PoolInfo>, name: string) {
    exists k | 0 <= k < |pools| :: pools[k].name == name
  }

  /** One of the first i pools lists the parity group. */
  predicate Lists(pools: seq<PoolInfo>, i: nat, name: string)
    requires i <= |pools|
  {
    exists k | 0 <= k < i :: name in pools[k].eccGroups
  }

  // ---------- the statements ----------

  /** Active rows of the type below the parent whose name is not listed become inactive. */
  function Deactivated(rows: Rows, parent: Id, typ: EntityType, names: seq<string>): Rows {
    map x | x in rows ::
      if rows[x].parent == Some(parent) && rows[x].typ == typ && rows[x].status == ACTIVE && rows[x].name !in names
      then rows[x].(status := INACTIVE) else rows[x]
  }

  predicate HitBy(e: Entity, pool: PoolInfo) {
    e.typ == PARITY_GROUP && e.parent == Some(pool.id) && e.name !in pool.eccGroups
  }

  /** What the parity-group deactivations of the first i pools do to one row. They look for the maintainer's
      pool id among the parent ids, so a row anywhere may be hit. */
  function AfterHits(e: Entity, pools: seq<PoolInfo>, i: nat): Entity
    requires i <= |pools|
  {
    if exists j | 0 <= j < i :: HitBy(e, pools[j]) then e.(status := INACTIVE) else e
  }

  predicate IdTaken(pools: seq<PoolInfo>, from: nat, to: nat, id: Id)
    requires to <= |pools|
  {
    exists l | from <= l < to :: pools[l].id == id
  }

  /** The status a parity group listed by pool k has once the first i pools are done. */
  function PlacedStatus(pools: seq<PoolInfo>, k: nat, i: nat, pool: Id): Status
    requires i <= |pools|
  {
    if IdTaken(pools, k + 1, i, pool) then INACTIVE else ACTIVE
  }

  // ---------- the outcome, pool by pool ----------

  function Refreshed(e: Entity, pool: PoolInfo): Entity {
    e.(serialNumber := Some(Text(pool.id)), status := ACTIVE)
  }

  /** A pool row of before once the first i reported pools are done. */
  ghost predicate PoolRow(e0: Entity, e: Entity, pools: seq<PoolInfo>, i: nat) {
    && (!Named(pools, e0.name) ==> e == e0.(status := INACTIVE))
    && (forall k | 0 <= k < |pools| && pools[k].name == e0.name :: e == if k < i then Refreshed(e0, pools[k]) else e0)
  }

  ghost predicate CreatedPool(e: Entity, s: Id, pools: seq<PoolInfo>, i: nat)
    requires i <= |pools|
  {
    exists k | 0 <= k < i :: e == Refreshed(NewPart(KeyPart(pools[k].name, POOL), s), pools[k])
  }

  ghost predicate HasPool(rows: Rows, s: Id, name: string) {
    exists x :: PoolOf(rows, s, x) && rows[x].name == name
  }

  /** Pools: the first i reported ones are active under their serial number, the other reported ones are
      as before, the rest of the system's pools are inactive, and no other pool was created. */
  ghost predicate PoolsDone(before: Rows, rows: Rows, s: Id, pools: seq<PoolInfo>, i: nat)
    requires i <= |pools|
  {
    && (forall x | PoolOf(before, s, x) :: x in rows && PoolRow(before[x], rows[x], pools, i))
    && (forall x | PoolOf(rows, s, x) && x !in before :: CreatedPool(rows[x], s, pools, i))
    && (forall k | 0 <= k < i :: HasPool(rows, s, pools[k].name))
  }

  /** The parity groups listed by the first i pools: each exists and hangs below the pool that lists it. It is
      active unless one of the first hits pools, after its own, has the entity id of that pool for its id. */
  ghost predicate ParityDone(before: Rows, rows: Rows, s: Id, pools: seq<PoolInfo>, i: nat, hits: nat)
    requires i <= hits <= |pools|
  {
    && (forall k, g | 0 <= k < i && g in pools[k].eccGroups :: HasParity(rows, s, g))
    && (forall x, k | 0 <= k < i && ParityOf(rows, s, x) && rows[x].name in pools[k].eccGroups ::
          && rows[rows[x].parent.value].name == pools[k].name
          && rows[x].status == PlacedStatus(pools, k, hits, rows[x].parent.value))
    && (forall x | ParityOf(before, s, x) ::
          ParityOf(rows, s, x) && rows[x] == before[x].(parent := rows[x].parent, status := rows[x].status))
    && (forall x | ParityOf(rows, s, x) && x !in before :: Lists(pools, i, rows[x].name) && rows[x].serialNumber == None)
  }

  /** Every other row: only the parity-group deactivations may have changed it, and nothing else was created. */
  ghost predicate RestKept(before: Rows, rows: Rows, s: Id, pools: seq<PoolInfo>, i: nat, hits: nat)
    requires i <= hits <= |pools|
  {
    && (forall x | x in before && !PoolOf(before, s, x) && !(ParityOf(before, s, x) && Lists(pools, i, before[x].name)) ::
          x in rows && rows[x] == AfterHits(before[x], pools, hits))
    && (forall x | x in rows && x !in before :: PoolOf(rows, s, x) || ParityOf(rows, s, x))
  }

  ghost predicate Progress(before: Rows, rows: Rows, s: Id, pools: seq<PoolInfo>, done: nat, i: nat, hits: nat)
    requires i <= hits <= done <= |pools|
  {
    && PoolsDone(before, rows, s, pools, done)
    && ParityDone(before, rows, s, pools, i, hits)
    && RestKept(before, rows, s, pools, i, hits)
  }

  // ---------- one pool ----------

  /** The pool's row, found or created, is active under its serial number. */
  ghost predicate PoolStep(a: Rows, b: Rows, s: Id, pool: PoolInfo, e: Id) {
    if e in a then
      PoolOf(a, s, e) && a[e].name == pool.name && b == a[e := Refreshed(a[e], pool)]
    else
      b == a[e := Refreshed(NewPart(KeyPart(pool.name, POOL), s), pool)]
      && forall x | PoolOf(a, s, x) :: a[x].name != pool.name
  }

  lemma PoolStepParity(a: Rows, b: Rows, s: Id, pool: PoolInfo, e: Id)
    requires PoolStep(a, b, s, pool, e) && ParentsExist(a)
    ensures forall x | x in a && x != e :: x in b && b[x] == a[x]
    ensures forall x :: PoolOf(b, s, x) <==> PoolOf(a, s, x) || x == e
    ensures forall x :: ParityOf(b, s, x) <==> ParityOf(a, s, x)
    ensures forall x | ParityOf(b, s, x) :: b[x] == a[x] && b[b[x].parent.value].name == a[a[x].parent.value].name
  {
  }

  lemma PoolRowStep(e0: Entity, e: Entity, pools: seq<PoolInfo>, i: nat)
    requires i < |pools| && WellReported(pools) && PoolRow(e0, e, pools, i)
    ensures PoolRow(e0, if e.name == pools[i].name then Refreshed(e, pools[i]) else e, pools, i + 1)
  {
  }

  lemma PoolStepPools(before: Rows, a: Rows, b: Rows, s: Id, pools: seq<PoolInfo>, i: nat, e: Id)
    requires i < |pools| && WellReported(pools)
    requires PoolsDone(before, a, s, pools, i) && PoolStep(a, b, s, pools[i], e) && ParentsExist(a)
    requires Distinct(a) && forall x | x in before :: x in a && (PoolOf(a, s, x) ==> PoolOf(before, s, x))
    ensures PoolsDone(before, b, s, pools, i + 1)
  {
    PoolStepParity(a, b, s, pools[i], e);
    forall x | PoolOf(before, s, x) ensures x in b && PoolRow(before[x], b[x], pools, i + 1) {
      PoolRowStep(before[x], a[x], pools, i);
      assert PoolOf(a, s, x);
    }
    forall x | PoolOf(b, s, x) && x !in before ensures CreatedPool(b[x], s, pools, i + 1) {
      if x != e || e in a {
        assert CreatedPool(a[x], s, pools, i);
        var k :| 0 <= k < i && a[x] == Refreshed(NewPart(KeyPart(pools[k].name, POOL), s), pools[k]);
        assert b[x] == Refreshed(NewPart(KeyPart(pools[k].name, POOL), s), pools[k]);
      } else {
        assert b[x] == Refreshed(NewPart(KeyPart(pools[i].name, POOL), s), pools[i]);
      }
    }
    forall k | 0 <= k < i + 1 ensures HasPool(b, s, pools[k].name) {
      if k < i {
        assert HasPool(a, s, pools[k].name);
        var x :| PoolOf(a, s, x) && a[x].name == pools[k].name;
        assert PoolOf(b, s, x) && b[x].name == pools[k].name;
      } else {
        assert PoolOf(b, s, e) && b[e].name == pools[i].name;
      }
    }
  }

  /** Links of other rows never lead below the system: its pools among the rows of before are those it had. */
  lemma SamePools(before: Rows, a: Rows, s: Id, pools: seq<PoolInfo>, done: nat, i: nat, hits: nat)
    requires i <= hits <= done <= |pools| && Progress(before, a, s, pools, done, i, hits)
    ensures forall x | x in before :: x in a
    ensures forall x | x in before :: PoolOf(a, s, x) <==> PoolOf(before, s, x)
  {
    forall x | x in before ensures x in a && (PoolOf(a, s, x) <==> PoolOf(before, s, x)) {
      SamePool(before, a, s, pools, done, hits, x);
    }
  }

  lemma SamePool(before: Rows, a: Rows, s: Id, pools: seq<PoolInfo>, done: nat, hits: nat, x: Id)
    requires done <= |pools| && hits <= |pools| && x in before && x in a
    requires PoolOf(before, s, x) ==> PoolRow(before[x], a[x], pools, done)
    requires ParityOf(before, s, x) ==> ParityOf(a, s, x)
    requires !PoolOf(before, s, x) && !ParityOf(before, s, x) ==> a[x] == AfterHits(before[x], pools, hits)
    ensures PoolOf(a, s, x) <==> PoolOf(before, s, x)
  {
    if PoolOf(before, s, x) { PoolRowLinks(before[x], a[x], pools, done); }
  }

  lemma PoolRowLinks(e0: Entity, e: Entity, pools: seq<PoolInfo>, i: nat)
    requires PoolRow(e0, e, pools, i)
    ensures e.name == e0.name && e.typ == e0.typ && e.parent == e0.parent
  {
  }

  lemma PoolStepGroups(before: Rows, a: Rows, b: Rows, s: Id, pools: seq<PoolInfo>, i: nat, pool: PoolInfo, e: Id)
    requires i <= |pools| && ParityDone(before, a, s, pools, i, i) && PoolStep(a, b, s, pool, e) && ParentsExist(a)
    ensures ParityDone(before, b, s, pools, i, i)
  {
    PoolStepParity(a, b, s, pool, e);
    forall k, g | 0 <= k < i && g in pools[k].eccGroups ensures HasParity(b, s, g) {
      assert HasParity(a, s, g);
      var x :| ParityOf(a, s, x) && a[x].name == g;
      assert ParityOf(b, s, x) && b[x].name == g;
    }
  }

  lemma PoolStepRest(before: Rows, a: Rows, b: Rows, s: Id, pools: seq<PoolInfo>, i: nat, pool: PoolInfo, e: Id)
    requires i <= |pools| && RestKept(before, a, s, pools, i, i) && PoolStep(a, b, s, pool, e) && ParentsExist(a)
    requires forall x | x in before && PoolOf(a, s, x) :: PoolOf(before, s, x)
    ensures RestKept(before, b, s, pools, i, i)
  {
    PoolStepParity(a, b, s, pool, e);
  }

  lemma PoolStepProgress(before: Rows, a: Rows, b: Rows, s: Id, pools: seq<PoolInfo>, i: nat, e: Id)
    requires i < |pools| && WellReported(pools) && Progress(before, a, s, pools, i, i, i)
    requires PoolStep(a, b, s, pools[i], e) && ParentsExist(a) && ParentsExist(before) && Distinct(a)
    ensures Progress(before, b, s, pools, i + 1, i, i)
  {
    SamePools(before, a, s, pools, i, i, i);
    PoolStepPools(before, a, b, s, pools, i, e);
    PoolStepGroups(before, a, b, s, pools, i, pools[i], e);
    PoolStepRest(before, a, b, s, pools, i, pools[i], e);
  }

  // ---------- the deactivation keyed by the maintainer's id ----------

  lemma MoreHits(e: Entity, pools: seq<PoolInfo>, i: nat)
    requires i < |pools|
    ensures AfterHits(e, pools, i + 1) == if HitBy(e, pools[i]) then AfterHits(e, pools, i).(status := INACTIVE) else AfterHits(e, pools, i)
  {
  }

  lemma MoreTaken(pools: seq<PoolInfo>, k: nat, i: nat, pool: Id)
    requires k < i < |pools|
    ensures PlacedStatus(pools, k, i + 1, pool) == if pools[i].id == pool then INACTIVE else PlacedStatus(pools, k, i, pool)
  {
  }

  lemma HitLinks(a: Rows, b: Rows, s: Id, pool: PoolInfo)
    requires b == Deactivated(a, pool.id, PARITY_GROUP, pool.eccGroups)
    ensures b.Keys == a.Keys
    ensures forall x | x in a :: b[x] == if HitBy(a[x], pool) then a[x].(status := INACTIVE) else a[x]
    ensures forall x :: PoolOf(b, s, x) <==> PoolOf(a, s, x)
    ensures forall x | PoolOf(a, s, x) :: b[x] == a[x]
    ensures forall x :: ParityOf(b, s, x) <==> ParityOf(a, s, x)
  {
  }

  lemma HitListed(a: Rows, b: Rows, s: Id, pools: seq<PoolInfo>, i: nat, k: nat, x: Id)
    requires k < i < |pools| && WellReported(pools)
    requires b == Deactivated(a, pools[i].id, PARITY_GROUP, pools[i].eccGroups)
    requires ParityOf(a, s, x) && a[x].name in pools[k].eccGroups
    requires a[x].status == PlacedStatus(pools, k, i, a[x].parent.value)
    ensures b[x].status == PlacedStatus(pools, k, i + 1, a[x].parent.value)
  {
    assert a[x].name !in pools[i].eccGroups;
    MoreTaken(pools, k, i, a[x].parent.value);
  }

  lemma HitParity(before: Rows, a: Rows, b: Rows, s: Id, pools: seq<PoolInfo>, i: nat)
    requires i < |pools| && WellReported(pools) && ParityDone(before, a, s, pools, i, i)
    requires b == Deactivated(a, pools[i].id, PARITY_GROUP, pools[i].eccGroups)
    ensures ParityDone(before, b, s, pools, i, i + 1)
  {
    HitLinks(a, b, s, pools[i]);
    forall x, k | 0 <= k < i && ParityOf(b, s, x) && b[x].name in pools[k].eccGroups
      ensures b[b[x].parent.value].name == pools[k].name
      ensures b[x].status == PlacedStatus(pools, k, i + 1, b[x].parent.value)
    {
      HitListed(a, b, s, pools, i, k, x);
    }
    forall k, g | 0 <= k < i && g in pools[k].eccGroups ensures HasParity(b, s, g) {
      assert HasParity(a, s, g);
      var x :| ParityOf(a, s, x) && a[x].name == g;
      assert ParityOf(b, s, x) && b[x].name == g;
    }
  }

  lemma HitPools(before: Rows, a: Rows, b: Rows, s: Id, pools: seq<PoolInfo>, i: nat, pool: PoolInfo)
    requires i <= |pools| && PoolsDone(before, a, s, pools, i) && forall x | PoolOf(before, s, x) :: PoolOf(a, s, x)
    requires b == Deactivated(a, pool.id, PARITY_GROUP, pool.eccGroups)
    ensures PoolsDone(before, b, s, pools, i)
  {
    HitLinks(a, b, s, pool);
    forall k | 0 <= k < i ensures HasPool(b, s, pools[k].name) {
      assert HasPool(a, s, pools[k].name);
      var x :| PoolOf(a, s, x) && a[x].name == pools[k].name;
      assert PoolOf(b, s, x) && b[x].name == pools[k].name;
    }
  }

  lemma HitRest(before: Rows, a: Rows, b: Rows, s: Id, pools: seq<PoolInfo>, i: nat)
    requires i < |pools| && RestKept(before, a, s, pools, i, i)
    requires b == Deactivated(a, pools[i].id, PARITY_GROUP, pools[i].eccGroups)
    ensures RestKept(before, b, s, pools, i, i + 1)
  {
    HitLinks(a, b, s, pools[i]);
    forall x | x in before && !PoolOf(before, s, x) && !(ParityOf(before, s, x) && Lists(pools, i, before[x].name))
      ensures x in b && b[x] == AfterHits(before[x], pools, i + 1)
    {
      assert a[x] == AfterHits(before[x], pools, i);
      MoreHits(before[x], pools, i);
    }
  }

  lemma HitProgress(before: Rows, a: Rows, b: Rows, s: Id, pools: seq<PoolInfo>, i: nat)
    requires i < |pools| && WellReported(pools) && Progress(before, a, s, pools, i + 1, i, i)
    requires b == Deactivated(a, pools[i].id, PARITY_GROUP, pools[i].eccGroups)
    ensures Progress(before, b, s, pools, i + 1, i, i + 1)
  {
    SamePools(before, a, s, pools, i + 1, i, i);
    HitPools(before, a, b, s, pools, i + 1, pools[i]);
    HitParity(before, a, b, s, pools, i);
    HitRest(before, a, b, s, pools, i);
  }

  // ---------- the parity groups of one pool ----------

  /** The listed groups hang below the pool e and are active; nothing else changed. */
  ghost predicate GroupsStep(a: Rows, b: Rows, s: Id, e: Id, groups: seq<string>) {
    && (forall x | x in a && !(ParityOf(a, s, x) && a[x].name in groups) :: x in b && b[x] == a[x])
    && (forall x | ParityOf(a, s, x) && a[x].name in groups :: x in b && b[x] == a[x].(parent := Some(e), status := ACTIVE))
    && (forall x | x in b && x !in a :: b[x].name in groups && b[x] == NewPart(KeyPart(b[x].name, PARITY_GROUP), e))
    && (forall g | g in groups :: HasParity(b, s, g))
  }

  lemma GroupsLinks(a: Rows, b: Rows, s: Id, e: Id, groups: seq<string>)
    requires GroupsStep(a, b, s, e, groups) && PoolOf(a, s, e) && ParentsExist(a)
    ensures forall x | x in a :: x in b
    ensures forall x :: PoolOf(b, s, x) <==> PoolOf(a, s, x)
    ensures forall x | PoolOf(a, s, x) :: b[x] == a[x]
    ensures forall x | x in a :: ParityOf(b, s, x) <==> ParityOf(a, s, x)
    ensures forall x | x in b && x !in a :: ParityOf(b, s, x)
  {
    forall x | x in a ensures x in b && (a[x].typ != PARITY_GROUP ==> b[x] == a[x]) {
      assert ParityOf(a, s, x) ==> a[x].typ == PARITY_GROUP;
    }
  }

  lemma GroupsPools(before: Rows, a: Rows, b: Rows, s: Id, pools: seq<PoolInfo>, i: nat, e: Id, groups: seq<string>)
    requires i <= |pools| && PoolsDone(before, a, s, pools, i) && forall x | PoolOf(before, s, x) :: PoolOf(a, s, x)
    requires GroupsStep(a, b, s, e, groups) && PoolOf(a, s, e) && ParentsExist(a)
    ensures PoolsDone(before, b, s, pools, i)
  {
    GroupsLinks(a, b, s, e, groups);
    forall k | 0 <= k < i ensures HasPool(b, s, pools[k].name) {
      assert HasPool(a, s, pools[k].name);
      var x :| PoolOf(a, s, x) && a[x].name == pools[k].name;
      assert PoolOf(b, s, x) && b[x].name == pools[k].name;
    }
  }

  lemma GroupsParity(before: Rows, a: Rows, b: Rows, s: Id, pools: seq<PoolInfo>, i: nat, e: Id)
    requires i < |pools| && WellReported(pools) && ParityDone(before, a, s, pools, i, i + 1)
    requires (forall x | x in before :: x in a) && ParentsExist(a) && PoolOf(a, s, e) && a[e].name == pools[i].name
    requires GroupsStep(a, b, s, e, pools[i].eccGroups)
    ensures ParityDone(before, b, s, pools, i + 1, i + 1)
  {
    GroupsLinks(a, b, s, e, pools[i].eccGroups);
    forall x, k | 0 <= k < i + 1 && ParityOf(b, s, x) && b[x].name in pools[k].eccGroups
      ensures b[b[x].parent.value].name == pools[k].name
      ensures b[x].status == PlacedStatus(pools, k, i + 1, b[x].parent.value)
    {
      if k < i {
        assert b[x].name !in pools[i].eccGroups;
        assert x in a && ParityOf(a, s, x) && b[x] == a[x];
      }
    }
    forall k, g | 0 <= k < i + 1 && g in pools[k].eccGroups ensures HasParity(b, s, g) {
      if k < i {
        assert HasParity(a, s, g);
      var x :| ParityOf(a, s, x) && a[x].name == g;
        assert ParityOf(b, s, x) && b[x].name == g;
      }
    }
    forall x | ParityOf(b, s, x) && x !in before ensures Lists(pools, i + 1, b[x].name) && b[x].serialNumber == None {
      if x in a {
        assert ParityOf(a, s, x) && Lists(pools, i, a[x].name);
      }
    }
  }

  lemma GroupsRest(before: Rows, a: Rows, b: Rows, s: Id, pools: seq<PoolInfo>, i: nat, e: Id)
    requires i < |pools| && RestKept(before, a, s, pools, i, i + 1)
    requires (forall x | x in before :: x in a) && ParentsExist(a) && PoolOf(a, s, e)
    requires forall x | x in before :: ParityOf(a, s, x) ==> ParityOf(before, s, x)
    requires GroupsStep(a, b, s, e, pools[i].eccGroups)
    ensures RestKept(before, b, s, pools, i + 1, i + 1)
  {
    GroupsLinks(a, b, s, e, pools[i].eccGroups);
    forall x | x in before && !PoolOf(before, s, x) && !(ParityOf(before, s, x) && Lists(pools, i + 1, before[x].name))
      ensures x in b && b[x] == AfterHits(before[x], pools, i + 1)
    {
      assert a[x] == AfterHits(before[x], pools, i + 1) && a[x].name == before[x].name;
      assert ParityOf(a, s, x) ==> a[x].name !in pools[i].eccGroups;
    }
  }

  lemma GroupsProgress(before: Rows, a: Rows, b: Rows, s: Id, pools: seq<PoolInfo>, i: nat, e: Id)
    requires i < |pools| && WellReported(pools) && Progress(before, a, s, pools, i + 1, i, i + 1)
    requires ParentsExist(before) && ParentsExist(a) && PoolOf(a, s, e) && a[e].name == pools[i].name
    requires GroupsStep(a, b, s, e, pools[i].eccGroups)
    ensures Progress(before, b, s, pools, i + 1, i + 1, i + 1)
  {
    SamePools(before, a, s, pools, i + 1, i, i + 1);
    SameGroups(before, a, s, pools, i + 1, i, i + 1);
    GroupsPools(before, a, b, s, pools, i + 1, e, pools[i].eccGroups);
    GroupsParity(before, a, b, s, pools, i, e);
    GroupsRest(before, a, b, s, pools, i, e);
  }

  lemma SameGroups(before: Rows, a: Rows, s: Id, pools: seq<PoolInfo>, done: nat, i: nat, hits: nat)
    requires i <= hits <= done <= |pools| && Progress(before, a, s, pools, done, i, hits) && ParentsExist(before)
    ensures forall x | x in before :: ParityOf(a, s, x) ==> ParityOf(before, s, x)
  {
    SamePools(before, a, s, pools, done, i, hits);
    forall x | x in before && ParityOf(a, s, x) ensures ParityOf(before, s, x) {
      if !ParityOf(before, s, x) {
        assert !PoolOf(before, s, x);
        assert a[x] == AfterHits(before[x], pools, hits);
      }
    }
  }

  // ---------- one parity group ----------

  /** The group named g, wherever it is below the system, hangs below e and is active; created if there was none. */
  ghost predicate GroupStep(a: Rows, b: Rows, s: Id, e: Id, g: string, x: Id) {
    if x in a then
      ParityOf(a, s, x) && a[x].name == g && b == a[x := a[x].(parent := Some(e), status := ACTIVE)]
    else
      b == a[x := NewPart(KeyPart(g, PARITY_GROUP), e)] && forall y | ParityOf(a, s, y) :: a[y].name != g
  }

  lemma GroupStepLinks(a: Rows, b: Rows, s: Id, e: Id, g: string, x: Id)
    requires GroupStep(a, b, s, e, g, x) && PoolOf(a, s, e) && ParentsExist(a)
    ensures forall y :: PoolOf(b, s, y) <==> PoolOf(a, s, y)
    ensures forall y :: ParityOf(b, s, y) <==> ParityOf(a, s, y) || y == x
    ensures forall y | y in a && y != x :: y in b && b[y] == a[y]
    ensures ParityOf(b, s, x) && b[x].name == g
  {
  }

  lemma GroupStepDistinct(a: Rows, b: Rows, s: Id, e: Id, g: string, x: Id)
    requires GroupStep(a, b, s, e, g, x) && PoolOf(a, s, e) && ParentsExist(a)
    requires ParityDistinct(a, s) && Distinct(a)
    ensures ParityDistinct(b, s) && (x in a ==> Distinct(b))
  {
    GroupStepLinks(a, b, s, e, g, x);
    if x in a {
      forall y | y in a && y != x && a[y].name == g && a[y].typ == PARITY_GROUP ensures a[y].parent != Some(e) {
        assert a[y].parent == Some(e) ==> ParityOf(a, s, y);
      }
    }
  }

  lemma OneMoreGroup(a: Rows, b: Rows, c: Rows, s: Id, e: Id, groups: seq<string>, g: string, x: Id)
    requires GroupsStep(a, b, s, e, groups) && GroupStep(b, c, s, e, g, x)
    requires PoolOf(a, s, e) && ParentsExist(a) && ParentsExist(b) && ParityDistinct(b, s)
    ensures GroupsStep(a, c, s, e, groups + [g])
  {
    GroupsLinks(a, b, s, e, groups);
    GroupStepLinks(b, c, s, e, g, x);
    forall y | y in a && !(ParityOf(a, s, y) && a[y].name in groups + [g]) ensures y in c && c[y] == a[y] {
      assert b[y] == a[y];
    }
    forall y | ParityOf(a, s, y) && a[y].name in groups + [g]
      ensures y in c && c[y] == a[y].(parent := Some(e), status := ACTIVE)
    {
      assert ParityOf(b, s, y);
    }
    forall y | y in c && y !in a
      ensures c[y].name in groups + [g] && c[y] == NewPart(KeyPart(c[y].name, PARITY_GROUP), e)
    {
      assert y != x ==> y in b;
    }
    forall h | h in groups + [g] ensures HasParity(c, s, h) {
      if h != g {
        assert HasParity(b, s, h);
        var y :| ParityOf(b, s, y) && b[y].name == h;
        assert ParityOf(c, s, y) && c[y].name == h;
      }
    }
  }

  // ---------- host groups ----------

  ghost predicate HasGroup(rows: Rows, s: Id, name: string) {
    exists x :: GroupOf(rows, s, x) && rows[x].name == name
  }

  /** Host groups of the system: the first i reported names are active, the other reported ones are as before,
      the rest are inactive; nothing else changed and nothing else was created. */
  ghost predicate HostsDone(before: Rows, rows: Rows, s: Id, names: seq<string>, i: nat)
    requires i <= |names|
  {
    && (forall x | x in before && !GroupOf(before, s, x) :: x in rows && rows[x] == before[x])
    && (forall x | GroupOf(before, s, x) ::
          x in rows && rows[x] == if before[x].name in names[..i] then before[x].(status := ACTIVE)
                                  else if before[x].name in names then before[x]
                                  else before[x].(status := INACTIVE))
    && (forall x | x in rows && x !in before ::
          rows[x].name in names[..i] && rows[x] == NewPart(KeyPart(rows[x].name, HOST_GROUP), s))
    && (forall k | 0 <= k < i :: HasGroup(rows, s, names[k]))
  }

  ghost predicate HostStep(a: Rows, b: Rows, s: Id, name: string, x: Id) {
    if x in a then
      GroupOf(a, s, x) && a[x].name == name && b == a[x := a[x].(status := ACTIVE)]
    else
      b == a[x := NewPart(KeyPart(name, HOST_GROUP), s)] && forall y | GroupOf(a, s, y) :: a[y].name != name
  }

  lemma HostsStep(before: Rows, a: Rows, b: Rows, s: Id, names: seq<string>, i: nat, x: Id)
    requires i < |names| && HostsDone(before, a, s, names, i) && HostStep(a, b, s, names[i], x) && Distinct(a)
    ensures HostsDone(before, b, s, names, i + 1)
  {
    assert names[..i + 1] == names[..i] + [names[i]];
    forall y | GroupOf(before, s, y) ensures GroupOf(a, s, y) && a[y].name == before[y].name {
    }
    forall k | 0 <= k < i + 1 ensures HasGroup(b, s, names[k]) {
      if k < i {
        assert HasGroup(a, s, names[k]);
        var y :| GroupOf(a, s, y) && a[y].name == names[k];
        assert GroupOf(b, s, y) && b[y].name == names[k];
      } else {
        assert GroupOf(b, s, x) && b[x].name == names[k];
      }
    }
  }

  // ---------- a store the report already agrees with ----------

  ghost predicate PoolsSettled(rows: Rows, s: Id, pools: seq<PoolInfo>) {
    && (forall x | PoolOf(rows, s, x) :: PoolRow(rows[x], rows[x], pools, |pools|))
    && (forall k | 0 <= k < |pools| :: HasPool(rows, s, pools[k].name))
    && (forall k, g | 0 <= k < |pools| && g in pools[k].eccGroups :: HasParity(rows, s, g))
    && (forall x, k | 0 <= k < |pools| && ParityOf(rows, s, x) && rows[x].name in pools[k].eccGroups ::
          rows[rows[x].parent.value].name == pools[k].name && rows[x].status == ACTIVE)
    && (forall x, k | x in rows && 0 <= k < |pools| && HitBy(rows[x], pools[k]) :: rows[x].status == INACTIVE)
  }

  ghost predicate HostsSettled(rows: Rows, s: Id, names: seq<string>) {
    && (forall x | GroupOf(rows, s, x) :: rows[x].status == if rows[x].name in names then ACTIVE else INACTIVE)
    && (forall k | 0 <= k < |names| :: HasGroup(rows, s, names[k]))
  }

  /** No reported pool has the entity id of another reported pool for its own id. */
  ghost predicate NoClash(rows: Rows, s: Id, pools: seq<PoolInfo>) {
    forall x, k, l | 0 <= k < |pools| && 0 <= l < |pools| && PoolOf(rows, s, x) && rows[x].name == pools[k].name
                     && pools[l].id == x :: k == l
  }

  lemma DeactivatedSettled(rows: Rows, parent: Id, typ: EntityType, names: seq<string>)
    requires forall x | x in rows && rows[x].parent == Some(parent) && rows[x].typ == typ && rows[x].name !in names ::
               rows[x].status == INACTIVE
    ensures Deactivated(rows, parent, typ, names) == rows
  {
    var after := Deactivated(rows, parent, typ, names);
    assert after.Keys == rows.Keys;
    forall x | x in rows ensures after[x] == rows[x] {
      assert !(rows[x].parent == Some(parent) && rows[x].typ == typ && rows[x].status == ACTIVE && rows[x].name !in names);
    }
    assert after == rows;
  }

  lemma PoolStepSettled(a: Rows, b: Rows, s: Id, pools: seq<PoolInfo>, i: nat, e: Id)
    requires i < |pools| && PoolsSettled(a, s, pools) && PoolStep(a, b, s, pools[i], e)
    ensures b == a
  {
    assert HasPool(a, s, pools[i].name);
    assert PoolRow(a[e], a[e], pools, |pools|);
  }

  lemma GroupStepSettled(a: Rows, b: Rows, s: Id, pools: seq<PoolInfo>, i: nat, e: Id, g: string, x: Id)
    requires i < |pools| && PoolsSettled(a, s, pools) && g in pools[i].eccGroups && Distinct(a)
    requires PoolOf(a, s, e) && a[e].name == pools[i].name && GroupStep(a, b, s, e, g, x)
    ensures b == a
  {
    assert HasParity(a, s, g);
  }

  lemma HostStepSettled(a: Rows, b: Rows, s: Id, names: seq<string>, i: nat, x: Id)
    requires i < |names| && HostsSettled(a, s, names) && HostStep(a, b, s, names[i], x)
    ensures b == a
  {
    assert HasGroup(a, s, names[i]);
  }

  /** What the first part of a run creates carries a reported name. */
  lemma CreatedIsReported(before: Rows, middle: Rows, s: Id, pools: seq<PoolInfo>, x: Id)
    requires Progress(before, middle, s, pools, |pools|, |pools|, |pools|) && x in middle && x !in before
    ensures (PoolOf(middle, s, x) && Named(pools, middle[x].name))
            || (ParityOf(middle, s, x) && Lists(pools, |pools|, middle[x].name))
  {
    if PoolOf(middle, s, x) { assert CreatedPool(middle[x], s, pools, |pools|); }
  }

  lemma WasThere(before: Rows, middle: Rows, s: Id, pools: seq<PoolInfo>, x: Id)
    requires Progress(before, middle, s, pools, |pools|, |pools|, |pools|)
    ensures x in middle && !PoolOf(middle, s, x) && !(ParityOf(middle, s, x) && Lists(pools, |pools|, middle[x].name)) ==>
              x in before && !PoolOf(before, s, x) && !(ParityOf(before, s, x) && Lists(pools, |pools|, before[x].name))
  {
    if x in middle && x !in before { CreatedIsReported(before, middle, s, pools, x); }
    if PoolOf(before, s, x) { PoolRowLinks(before[x], middle[x], pools, |pools|); }
  }

  /** Unless pool ids and entity ids clash, a reconciled store is one the report agrees with. */
  lemma ProgressSettles(before: Rows, rows: Rows, s: Id, pools: seq<PoolInfo>)
    requires WellReported(pools) && Progress(before, rows, s, pools, |pools|, |pools|, |pools|)
    requires ParentsExist(before) && NoClash(rows, s, pools)
    ensures PoolsSettled(rows, s, pools)
  {
    var n := |pools|;
    SamePools(before, rows, s, pools, n, n, n);
    SameGroups(before, rows, s, pools, n, n, n);
    forall x | PoolOf(rows, s, x) ensures PoolRow(rows[x], rows[x], pools, n) {
      if x in before {
        assert PoolRow(before[x], rows[x], pools, n);
      } else {
        assert CreatedPool(rows[x], s, pools, n);
      }
    }
    forall x, k | x in rows && 0 <= k < n && HitBy(rows[x], pools[k]) ensures rows[x].status == INACTIVE {
      if ParityOf(rows, s, x) && Lists(pools, n, rows[x].name) {
        ListedIsNotHit(before, rows, s, pools, x, k);
      } else {
        WasThere(before, rows, s, pools, x);
        assert rows[x] == AfterHits(before[x], pools, n);
      }
    }
  }

  lemma ListedIsNotHit(before: Rows, rows: Rows, s: Id, pools: seq<PoolInfo>, x: Id, k: nat)
    requires WellReported(pools) && Progress(before, rows, s, pools, |pools|, |pools|, |pools|) && NoClash(rows, s, pools)
    requires ParityOf(rows, s, x) && Lists(pools, |pools|, rows[x].name) && k < |pools|
    ensures !HitBy(rows[x], pools[k])
  {
    var j :| 0 <= j < |pools| && rows[x].name in pools[j].eccGroups;
    assert rows[rows[x].parent.value].name == pools[j].name;
  }

  // ---------- what the outcome means ----------

  /** The outcome of one run: pools and parity groups first, then host groups. */
  ghost predicate Reconciled(before: Rows, after: Rows, s: Id, pools: seq<PoolInfo>, hostgroups: seq<string>) {
    exists middle: Rows ::
      Progress(before, middle, s, pools, |pools|, |pools|, |pools|) && HostsDone(middle, after, s, hostgroups, |hostgroups|)
  }

  lemma HostLinks(a: Rows, b: Rows, s: Id, names: seq<string>)
    requires HostsDone(a, b, s, names, |names|)
    ensures forall x | x in a :: x in b && b[x].name == a[x].name && b[x].parent == a[x].parent && b[x].typ == a[x].typ
    ensures forall x | x in a && !GroupOf(a, s, x) :: b[x] == a[x]
    ensures forall x | x in b && x !in a :: GroupOf(b, s, x)
    ensures forall x :: PoolOf(b, s, x) <==> PoolOf(a, s, x)
    ensures HostsSettled(b, s, names)
  {
    assert names[..|names|] == names;
    forall x | x in a
      ensures x in b && b[x].name == a[x].name && b[x].parent == a[x].parent && b[x].typ == a[x].typ
    {
      assert GroupOf(a, s, x) ==> x in b;
    }
  }

  /** Active pools of the system are exactly the reported ones, each under the reported id as serial number. */
  ghost predicate ActivePoolsAreReported(rows: Rows, s: Id, pools: seq<PoolInfo>) {
    && (forall x | PoolOf(rows, s, x) :: rows[x].status == ACTIVE <==> Named(pools, rows[x].name))
    && (forall x, k | PoolOf(rows, s, x) && 0 <= k < |pools| && rows[x].name == pools[k].name ::
          rows[x].serialNumber == Some(Text(pools[k].id)))
    && (forall k | 0 <= k < |pools| :: HasPool(rows, s, pools[k].name))
  }

  /** Every listed parity group exists below the pool that lists it, active unless a pool further down the
      report has the entity id of that pool for its own id. */
  ghost predicate ListedGroupsPlaced(rows: Rows, s: Id, pools: seq<PoolInfo>) {
    && (forall k, g | 0 <= k < |pools| && g in pools[k].eccGroups :: HasParity(rows, s, g))
    && (forall x, k | 0 <= k < |pools| && ParityOf(rows, s, x) && rows[x].name in pools[k].eccGroups ::
          && rows[rows[x].parent.value].name == pools[k].name
          && (rows[x].status == ACTIVE <==> !IdTaken(pools, k + 1, |pools|, rows[x].parent.value)))
  }

  /** Neither a pool or host group of the system nor a listed parity group of it. */
  ghost predicate Outside(rows: Rows, s: Id, pools: seq<PoolInfo>, x: Id) {
    x in rows && !PoolOf(rows, s, x) && !GroupOf(rows, s, x) && !(ParityOf(rows, s, x) && Lists(pools, |pools|, rows[x].name))
  }

  lemma ActivePools(before: Rows, middle: Rows, s: Id, pools: seq<PoolInfo>)
    requires WellReported(pools) && Progress(before, middle, s, pools, |pools|, |pools|, |pools|)
    ensures ActivePoolsAreReported(middle, s, pools)
  {
    var n := |pools|;
    SamePools(before, middle, s, pools, n, n, n);
    forall x | PoolOf(middle, s, x)
      ensures middle[x].status == ACTIVE <==> Named(pools, middle[x].name)
      ensures forall k | 0 <= k < n && middle[x].name == pools[k].name :: middle[x].serialNumber == Some(Text(pools[k].id))
    {
      if x in before {
        assert PoolOf(before, s, x) && PoolRow(before[x], middle[x], pools, n);
        PoolRowLinks(before[x], middle[x], pools, n);
      } else {
        assert CreatedPool(middle[x], s, pools, n);
      }
    }
  }

  /** What a run leaves: the reported inventory, active, and everything outside it as the misdirected
      deactivations left it. */
  lemma ReconciledMeans(before: Rows, after: Rows, s: Id, pools: seq<PoolInfo>, hostgroups: seq<string>)
    requires WellReported(pools) && Reconciled(before, after, s, pools, hostgroups)
    ensures ActivePoolsAreReported(after, s, pools)
    ensures HostsSettled(after, s, hostgroups)
    ensures ListedGroupsPlaced(after, s, pools)
    ensures forall x | Outside(before, s, pools, x) :: x in after && after[x] == AfterHits(before[x], pools, |pools|)
  {
    var n := |pools|;
    var middle: Rows :| Progress(before, middle, s, pools, n, n, n) && HostsDone(middle, after, s, hostgroups, |hostgroups|);
    HostLinks(middle, after, s, hostgroups);
    ActivePools(before, middle, s, pools);
    HostsKeepParity(middle, after, s, hostgroups);
    PoolsCarryOver(middle, after, s, pools);
    ListedCarryOver(before, middle, after, s, pools);
    forall x | Outside(before, s, pools, x) ensures x in after && after[x] == AfterHits(before[x], pools, n) {
      assert middle[x] == AfterHits(before[x], pools, n);
    }
  }

  /** The host-group step leaves pools and parity groups alone. */
  ghost predicate SamePoolsAndParity(a: Rows, b: Rows, s: Id) {
    && (forall x :: PoolOf(b, s, x) <==> PoolOf(a, s, x))
    && (forall x :: ParityOf(b, s, x) <==> ParityOf(a, s, x))
    && (forall x | PoolOf(a, s, x) || ParityOf(a, s, x) :: b[x] == a[x])
  }

  lemma HostsKeepParity(a: Rows, b: Rows, s: Id, names: seq<string>)
    requires HostsDone(a, b, s, names, |names|)
    ensures SamePoolsAndParity(a, b, s)
  {
    HostLinks(a, b, s, names);
    forall x ensures ParityOf(a, s, x) <==> ParityOf(b, s, x) {
      if ParityOf(b, s, x) { assert x in a && !GroupOf(a, s, x); }
    }
  }

  lemma ParityCarriesOver(a: Rows, b: Rows, s: Id, g: string)
    requires SamePoolsAndParity(a, b, s) && HasParity(a, s, g)
    ensures HasParity(b, s, g)
  {
    var x :| ParityOf(a, s, x) && a[x].name == g;
    assert ParityOf(b, s, x) && b[x].name == g;
  }

  lemma PoolCarriesOver(a: Rows, b: Rows, s: Id, name: string)
    requires SamePoolsAndParity(a, b, s) && HasPool(a, s, name)
    ensures HasPool(b, s, name)
  {
    var x :| PoolOf(a, s, x) && a[x].name == name;
    assert PoolOf(b, s, x) && b[x].name == name;
  }

  lemma PoolsCarryOver(a: Rows, b: Rows, s: Id, pools: seq<PoolInfo>)
    requires SamePoolsAndParity(a, b, s) && ActivePoolsAreReported(a, s, pools)
    ensures ActivePoolsAreReported(b, s, pools)
  {
    forall k | 0 <= k < |pools| ensures HasPool(b, s, pools[k].name) {
      PoolCarriesOver(a, b, s, pools[k].name);
    }
  }

  lemma ListedCarryOver(before: Rows, a: Rows, b: Rows, s: Id, pools: seq<PoolInfo>)
    requires ParityDone(before, a, s, pools, |pools|, |pools|) && SamePoolsAndParity(a, b, s)
    ensures ListedGroupsPlaced(b, s, pools)
  {
    forall k, g | 0 <= k < |pools| && g in pools[k].eccGroups ensures HasParity(b, s, g) {
      ParityCarriesOver(a, b, s, g);
    }
  }

  /** Entities outside the report stay exactly as they were if and only if none of them is an active parity group
      whose parent's id is the id of a reported pool that does not list it. */
  lemma OutsideUntouchedIff(before: Rows, after: Rows, s: Id, pools: seq<PoolInfo>, hostgroups: seq<string>)
    requires WellReported(pools) && Reconciled(before, after, s, pools, hostgroups)
    ensures (forall x | Outside(before, s, pools, x) :: x in after && after[x] == before[x]) <==>
            (forall x, k | Outside(before, s, pools, x) && before[x].status == ACTIVE && 0 <= k < |pools| ::
               !HitBy(before[x], pools[k]))
  {
    ReconciledMeans(before, after, s, pools, hostgroups);
    forall x | Outside(before, s, pools, x)
      ensures after[x] == before[x] <==> before[x].status == INACTIVE || forall k | 0 <= k < |pools| :: !HitBy(before[x], pools[k])
    {
      assert after[x] == AfterHits(before[x], pools, |pools|);
    }
  }

  const Clashing: seq<PoolInfo> := [PoolInfo(1, "A", ["g"]), PoolInfo(7, "B", [])]

  lemma ClashingWellReported()
    ensures WellReported(Clashing) && IdTaken(Clashing, 1, 2, 7)
  {
    assert "A"[0] != "B"[0];
    assert |Clashing| == 2 && Clashing[1].id == 7;
    assert forall g :: g !in Clashing[1].eccGroups;
    assert "" !in Clashing[0].eccGroups;
  }

  /** The datacenter, system "S" and its pool "A", which is entity 7. */
  function ClashingStart(): Rows {
    map[1 := Entity("CZ_Chodov", DATACENTER, ACTIVE, None, None),
        2 := Entity("S", SYSTEM, ACTIVE, None, Some(1)),
        7 := Entity("A", POOL, ACTIVE, None, Some(2))]
  }

  /** Pool k of the report lists g and is entity e, and the later pool l has id e. */
  ghost predicate IdClash(before: Rows, s: Id, pools: seq<PoolInfo>, e: Id, k: nat, l: nat, g: string) {
    && k < l < |pools| && g in pools[k].eccGroups && pools[l].id == e
    && PoolOf(before, s, e) && before[e].name == pools[k].name
  }

  /** The group ends below pool e and inactive. */
  ghost predicate EndsTakenDown(after: Rows, s: Id, e: Id, g: string) {
    && HasParity(after, s, g)
    && forall x | ParityOf(after, s, x) && after[x].name == g :: after[x].parent == Some(e) && after[x].status == INACTIVE
  }

  /** A group listed by a pool that is entity e ends inactive below it when a later reported pool has id e. */
  lemma TakenDown(before: Rows, after: Rows, s: Id, pools: seq<PoolInfo>, hostgroups: seq<string>,
                  e: Id, k: nat, l: nat, g: string)
    requires WellReported(pools) && Reconciled(before, after, s, pools, hostgroups) && Distinct(after)
    ensures IdClash(before, s, pools, e, k, l, g) ==> EndsTakenDown(after, s, e, g)
  {
    if IdClash(before, s, pools, e, k, l, g) {
      ReconciledMeans(before, after, s, pools, hostgroups);
      PoolStays(before, after, s, pools, hostgroups, e);
      forall x | ParityOf(after, s, x) && after[x].name == g ensures after[x].parent == Some(e) && after[x].status == INACTIVE {
        TakenDownOne(after, s, pools, e, k, l, x);
      }
    }
  }

  lemma TakenDownOne(after: Rows, s: Id, pools: seq<PoolInfo>, e: Id, k: nat, l: nat, x: Id)
    requires ListedGroupsPlaced(after, s, pools) && Distinct(after)
    requires k < l < |pools| && pools[l].id == e && PoolOf(after, s, e) && after[e].name == pools[k].name
    requires ParityOf(after, s, x) && after[x].name in pools[k].eccGroups
    ensures after[x].parent == Some(e) && after[x].status == INACTIVE
  {
    var p := after[x].parent.value;
    assert after[p].name == pools[k].name;
    assert p == e;
  }

  /** With pool "A" entity 7, a report of pool A with group "g" and then pool B under id 7 leaves the listed
      group inactive: B's deactivation statement takes it down again. */
  lemma LaterPoolTakesGroup(start: Rows, after: Rows)
    requires Reconciled(start, after, 2, Clashing, []) && Distinct(after)
    ensures PoolOf(start, 2, 7) && start[7].name == "A" ==> EndsTakenDown(after, 2, 7, "g")
  {
    ClashingWellReported();
    assert "g" in Clashing[0].eccGroups;
    TakenDown(start, after, 2, Clashing, [], 7, 0, 1, "g");
  }

  lemma PoolStays(before: Rows, after: Rows, s: Id, pools: seq<PoolInfo>, hostgroups: seq<string>, x: Id)
    requires Reconciled(before, after, s, pools, hostgroups)
    ensures PoolOf(before, s, x) ==> PoolOf(after, s, x) && after[x].name == before[x].name
  {
    var n := |pools|;
    var middle: Rows :| Progress(before, middle, s, pools, n, n, n) && HostsDone(middle, after, s, hostgroups, |hostgroups|);
    if PoolOf(before, s, x) { PoolRowLinks(before[x], middle[x], pools, n); }
    HostLinks(middle, after, s, hostgroups);
  }

  /** Pool "P" of another system is entity 7 with group "h" below it. */
  function TwoSystems(): Rows {
    map[1 := Entity("CZ_Chodov", DATACENTER, ACTIVE, None, None),
        2 := Entity("S", SYSTEM, ACTIVE, None, Some(1)),
        3 := Entity("T", SYSTEM, ACTIVE, None, Some(1)),
        7 := Entity("P", POOL, ACTIVE, None, Some(3)),
        8 := Entity("h", PARITY_GROUP, ACTIVE, None, Some(7))]
  }

  /** A report for system "S" that numbers a pool 7 deactivates the group of system "T". */
  lemma OtherSystemIsHit(after: Rows)
    requires Reconciled(TwoSystems(), after, 2, [PoolInfo(7, "A", [])], [])
    ensures 8 in after && after[8] == TwoSystems()[8].(status := INACTIVE)
  {
    var pools := [PoolInfo(7, "A", [])];
    assert "A"[0] == 'A' && WellReported(pools);
    ReconciledMeans(TwoSystems(), after, 2, pools, []);
    assert Outside(TwoSystems(), 2, pools, 8);
    assert HitBy(TwoSystems()[8], pools[0]);
  }

  /** A store left by a run that met no clash is one the same report leaves alone. */
  lemma ReconciledSettles(before: Rows, after: Rows, s: Id, pools: seq<PoolInfo>, hostgroups: seq<string>)
    requires WellReported(pools) && ParentsExist(before) && Reconciled(before, after, s, pools, hostgroups)
    requires NoClash(after, s, pools)
    ensures PoolsSettled(after, s, pools) && HostsSettled(after, s, hostgroups)
  {
    var n := |pools|;
    var middle: Rows :| Progress(before, middle, s, pools, n, n, n) && HostsDone(middle, after, s, hostgroups, |hostgroups|);
    HostLinks(middle, after, s, hostgroups);
    assert NoClash(middle, s, pools) by {
      assert forall x | PoolOf(middle, s, x) :: PoolOf(after, s, x) && after[x].name == middle[x].name;
    }
    ProgressSettles(before, middle, s, pools);
    HostsKeepParity(middle, after, s, hostgroups);
    SettledCarriesOver(middle, after, s, pools);
  }

  lemma SettledCarriesOver(a: Rows, b: Rows, s: Id, pools: seq<PoolInfo>)
    requires PoolsSettled(a, s, pools) && SamePoolsAndParity(a, b, s)
    requires forall x | x in b && b[x].typ == PARITY_GROUP :: x in a && b[x] == a[x]
    ensures PoolsSettled(b, s, pools)
  {
    forall k, g | 0 <= k < |pools| && g in pools[k].eccGroups ensures HasParity(b, s, g) {
      ParityCarriesOver(a, b, s, g);
    }
    forall k | 0 <= k < |pools| ensures HasPool(b, s, pools[k].name) {
      PoolCarriesOver(a, b, s, pools[k].name);
    }
  }

  // ---------- a second run ----------

  lemma SameRows(a: Rows, b: Rows)
    requires Extends(a, b) && forall x | x in b :: x in a
    ensures a == b
  {
    assert a.Keys == b.Keys by {
      assert forall x :: x in a.Keys <==> x in b.Keys;
    }
    forall x | x in a ensures a[x] == b[x] && a[x].name == b[x].name {}
    assert a == b;
  }

  lemma HitsOnce(e: Entity, pools: seq<PoolInfo>)
    ensures AfterHits(AfterHits(e, pools, |pools|), pools, |pools|) == AfterHits(e, pools, |pools|)
  {
    var after := AfterHits(e, pools, |pools|);
    assert forall k | 0 <= k < |pools| :: HitBy(after, pools[k]) <==> HitBy(e, pools[k]);
  }

  /** What is outside the report after a run was outside it before. */
  lemma OutsideBefore(before: Rows, after: Rows, s: Id, pools: seq<PoolInfo>, hostgroups: seq<string>, x: Id)
    requires Reconciled(before, after, s, pools, hostgroups)
    ensures Outside(after, s, pools, x) ==> Outside(before, s, pools, x)
  {
    var n := |pools|;
    var middle: Rows :| Progress(before, middle, s, pools, n, n, n) && HostsDone(middle, after, s, hostgroups, |hostgroups|);
    HostLinks(middle, after, s, hostgroups);
    HostsKeepParity(middle, after, s, hostgroups);
    WasThere(before, middle, s, pools, x);
  }

  lemma SecondPool(after: Rows, middle: Rows, s: Id, pools: seq<PoolInfo>, x: Id)
    requires WellReported(pools) && PoolsDone(after, middle, s, pools, |pools|) && ActivePoolsAreReported(after, s, pools)
    requires PoolOf(after, s, x)
    ensures x in middle && middle[x] == after[x]
  {
    assert PoolRow(after[x], middle[x], pools, |pools|);
    if Named(pools, after[x].name) {
      var k :| 0 <= k < |pools| && pools[k].name == after[x].name;
      assert after[x].serialNumber == Some(Text(pools[k].id));
    }
  }

  /** A listed group is found again below the pool that lists it, under the same status. */
  lemma SecondGroup(after: Rows, middle: Rows, s: Id, pools: seq<PoolInfo>, x: Id)
    requires ListedGroupsPlaced(after, s, pools) && ParityDone(after, middle, s, pools, |pools|, |pools|)
    requires Distinct(middle) && (forall y | PoolOf(after, s, y) :: PoolOf(middle, s, y) && middle[y].name == after[y].name)
    requires ParityOf(after, s, x) && Lists(pools, |pools|, after[x].name)
    ensures x in middle && middle[x] == after[x]
  {
    var k :| 0 <= k < |pools| && after[x].name in pools[k].eccGroups;
    assert ParityOf(middle, s, x) && middle[x].name == after[x].name;
    var p, q := after[x].parent.value, middle[x].parent.value;
    assert after[p].name == pools[k].name && middle[q].name == pools[k].name;
    assert p == q;
  }

  lemma ReportedPoolIsOld(after: Rows, middle: Rows, s: Id, pools: seq<PoolInfo>, x: Id)
    requires ActivePoolsAreReported(after, s, pools) && Distinct(middle)
    requires forall y | PoolOf(after, s, y) :: PoolOf(middle, s, y) && middle[y].name == after[y].name
    requires PoolOf(middle, s, x) && Named(pools, middle[x].name)
    ensures x in after
  {
    var k :| 0 <= k < |pools| && middle[x].name == pools[k].name;
    assert HasPool(after, s, pools[k].name);
    var y :| PoolOf(after, s, y) && after[y].name == pools[k].name;
    assert x == y;
  }

  lemma ListedGroupIsOld(after: Rows, middle: Rows, s: Id, pools: seq<PoolInfo>, x: Id)
    requires ListedGroupsPlaced(after, s, pools) && ParityDistinct(middle, s)
    requires forall y | ParityOf(after, s, y) :: ParityOf(middle, s, y) && middle[y].name == after[y].name
    requires ParityOf(middle, s, x) && Lists(pools, |pools|, middle[x].name)
    ensures x in after
  {
    assert HasParity(after, s, middle[x].name);
    var y :| ParityOf(after, s, y) && after[y].name == middle[x].name;
    assert x == y;
  }

  lemma ReportedHostIsOld(after: Rows, again: Rows, s: Id, hostgroups: seq<string>, x: Id)
    requires HostsSettled(after, s, hostgroups) && Distinct(again) && GroupOf(again, s, x) && again[x].name in hostgroups
    requires forall y | GroupOf(after, s, y) :: GroupOf(again, s, y) && again[y].name == after[y].name
    ensures x in after
  {
    var k :| 0 <= k < |hostgroups| && hostgroups[k] == again[x].name;
    assert HasGroup(after, s, hostgroups[k]);
    var y :| GroupOf(after, s, y) && after[y].name == hostgroups[k];
    assert x == y;
  }

  /** The first part of a second run leaves every row as the first run left it. */
  lemma SecondMiddle(before: Rows, after: Rows, middle: Rows, s: Id, pools: seq<PoolInfo>, hostgroups: seq<string>)
    requires WellReported(pools) && Reconciled(before, after, s, pools, hostgroups)
    requires Progress(after, middle, s, pools, |pools|, |pools|, |pools|) && Distinct(middle) && ParityDistinct(middle, s)
    ensures middle == after
  {
    forall x | x in middle ensures x in after {
      SecondCreatesNothing(before, after, middle, s, pools, hostgroups, x);
    }
    forall x | x in after ensures x in middle && middle[x] == after[x] {
      SecondRow(before, after, middle, s, pools, hostgroups, x);
    }
    SameRows(after, middle);
  }

  lemma SecondPools(before: Rows, after: Rows, middle: Rows, s: Id, pools: seq<PoolInfo>, hostgroups: seq<string>)
    requires WellReported(pools) && Reconciled(before, after, s, pools, hostgroups)
    requires Progress(after, middle, s, pools, |pools|, |pools|, |pools|)
    ensures ActivePoolsAreReported(after, s, pools) && ListedGroupsPlaced(after, s, pools)
    ensures forall x | PoolOf(after, s, x) :: PoolOf(middle, s, x) && middle[x] == after[x]
  {
    ReconciledMeans(before, after, s, pools, hostgroups);
    SamePools(after, middle, s, pools, |pools|, |pools|, |pools|);
    forall x | PoolOf(after, s, x) ensures PoolOf(middle, s, x) && middle[x] == after[x] {
      SecondPool(after, middle, s, pools, x);
    }
  }

  lemma SecondCreatesNothing(before: Rows, after: Rows, middle: Rows, s: Id, pools: seq<PoolInfo>, hostgroups: seq<string>, x: Id)
    requires WellReported(pools) && Reconciled(before, after, s, pools, hostgroups)
    requires Progress(after, middle, s, pools, |pools|, |pools|, |pools|) && Distinct(middle) && ParityDistinct(middle, s)
    ensures x in middle ==> x in after
  {
    SecondPools(before, after, middle, s, pools, hostgroups);
    if x in middle && x !in after { CreatedIsReported(after, middle, s, pools, x); }
    if PoolOf(middle, s, x) && Named(pools, middle[x].name) {
      ReportedPoolIsOld(after, middle, s, pools, x);
    }
    if ParityOf(middle, s, x) && Lists(pools, |pools|, middle[x].name) {
      ListedGroupIsOld(after, middle, s, pools, x);
    }
  }

  lemma SecondRow(before: Rows, after: Rows, middle: Rows, s: Id, pools: seq<PoolInfo>, hostgroups: seq<string>, x: Id)
    requires WellReported(pools) && Reconciled(before, after, s, pools, hostgroups)
    requires Progress(after, middle, s, pools, |pools|, |pools|, |pools|) && Distinct(middle)
    ensures x in after ==> x in middle && middle[x] == after[x]
  {
    SecondPools(before, after, middle, s, pools, hostgroups);
    if ParityOf(after, s, x) && Lists(pools, |pools|, after[x].name) {
      SecondGroup(after, middle, s, pools, x);
    } else if x in after && !PoolOf(after, s, x) {
      assert middle[x] == AfterHits(after[x], pools, |pools|);
      if !GroupOf(after, s, x) {
        OutsideIsHitOnce(before, after, s, pools, hostgroups, x);
      }
    }
  }

  lemma OutsideIsHitOnce(before: Rows, after: Rows, s: Id, pools: seq<PoolInfo>, hostgroups: seq<string>, x: Id)
    requires WellReported(pools) && Reconciled(before, after, s, pools, hostgroups)
    ensures Outside(after, s, pools, x) ==> AfterHits(after[x], pools, |pools|) == after[x]
  {
    OutsideBefore(before, after, s, pools, hostgroups, x);
    if Outside(after, s, pools, x) {
      ReconciledMeans(before, after, s, pools, hostgroups);
      HitsOnce(before[x], pools);
    }
  }

  /** A second run with the same report changes no row, clash or no clash. */
  lemma SecondRunSame(before: Rows, after: Rows, again: Rows, s: Id, pools: seq<PoolInfo>, hostgroups: seq<string>)
    requires WellReported(pools) && Distinct(again) && ParityDistinct(again, s)
    requires Reconciled(before, after, s, pools, hostgroups) && Reconciled(after, again, s, pools, hostgroups)
    ensures again == after
  {
    var n := |pools|;
    var middle: Rows :| Progress(after, middle, s, pools, n, n, n) && HostsDone(middle, again, s, hostgroups, |hostgroups|);
    HostLinks(middle, again, s, hostgroups);
    HostsKeepParity(middle, again, s, hostgroups);
    MiddleDistinct(middle, again, s);
    SecondMiddle(before, after, middle, s, pools, hostgroups);
    ReconciledMeans(before, after, s, pools, hostgroups);
    SecondHosts(after, again, s, hostgroups);
  }

  lemma SecondHosts(after: Rows, again: Rows, s: Id, hostgroups: seq<string>)
    requires HostsSettled(after, s, hostgroups) && HostsDone(after, again, s, hostgroups, |hostgroups|) && Distinct(again)
    ensures again == after
  {
    assert hostgroups[..|hostgroups|] == hostgroups;
    HostLinks(after, again, s, hostgroups);
    forall x | x in again ensures x in after {
      if GroupOf(again, s, x) && again[x].name in hostgroups {
        ReportedHostIsOld(after, again, s, hostgroups, x);
      }
    }
    forall x | x in after ensures again[x] == after[x] {
      if GroupOf(after, s, x) { assert GroupOf(again, s, x); }
    }
    SameRows(after, again);
  }

  lemma MiddleDistinct(middle: Rows, again: Rows, s: Id)
    requires Distinct(again) && ParityDistinct(again, s) && SamePoolsAndParity(middle, again, s)
    requires forall x | x in middle ::
               x in again && again[x].name == middle[x].name && again[x].parent == middle[x].parent && again[x].typ == middle[x].typ
    ensures Distinct(middle) && ParityDistinct(middle, s)
  {
  }

  /** Moving a listed parity group writes its parent link and not the closure table: the table stays the
      reachability of the forest exactly when the group already hung below that pool. */
  lemma ReparentKeepsClosureIff(t: Tables, s: Id, e: Id, x: Id)
    requires Inv(t) && PoolOf(t.rows, s, e) && ParityOf(t.rows, s, x)
    ensures Inv(t.(rows := t.rows[x := t.rows[x].(parent := Some(e), status := ACTIVE)])) <==> t.rows[x].parent == Some(e)
  {
    var after := t.rows[x := t.rows[x].(parent := Some(e), status := ACTIVE)];
    if t.rows[x].parent == Some(e) {
      SameLinksKeepInv(t, after);
    } else {
      var p := t.rows[x].parent.value;
      assert Up(t.rows, x, 1) == Some(p) by { assert Up(t.rows, p, 0) == Some(p); }
      assert (p, x) in t.closure;
      assert Up(after, x, 0) == Some(x);
      NotAbove(after, s, e, p, x);
    }
  }

  /** A group below the pool e of the system is not below another pool of it. */
  lemma NotAbove(rows: Rows, s: Id, e: Id, p: Id, x: Id)
    requires x in rows && rows[x].parent == Some(e) && PoolOf(rows, s, e) && PoolOf(rows, s, p) && p != e
    requires x != p
    ensures Acyclic(rows) ==> !Reaches(rows, p, x)
  {
    if Acyclic(rows) && Reaches(rows, p, x) {
      var n: nat :| Up(rows, x, n) == Some(p);
      assert n >= 2 && Up(rows, s, n - 2) == Some(p) by {
        assert Up(rows, x, n) == Up(rows, e, n - 1);
      }
      CycleThroughParent(rows, s, p, n - 2);
    }
  }

  lemma CycleThroughParent(rows: Rows, s: Id, p: Id, n: nat)
    requires p in rows && rows[p].parent == Some(s) && Up(rows, s, n) == Some(p)
    ensures !Acyclic(rows)
  {
    assert Up(rows, p, n + 1) == Some(p);
  }

  // ---------- the service ----------

  ghost predicate KeepsNames(a: Rows, b: Rows) {
    forall x | x in a :: x in b && b[x].name == a[x].name && b[x].typ == a[x].typ
  }

  ghost predicate HasDatacenter(rows: Rows) {
    exists id :: MatchesPart(rows, KeyPart("CZ_Chodov", DATACENTER), None, id)
  }

  lemma KeepsDatacenter(a: Rows, b: Rows)
    requires KeepsNames(a, b) && HasDatacenter(a)
    ensures HasDatacenter(b)
  {
    var id :| MatchesPart(a, KeyPart("CZ_Chodov", DATACENTER), None, id);
    assert MatchesPart(b, KeyPart("CZ_Chodov", DATACENTER), None, id);
  }

  lemma SameDatacenter(a: Rows, b: Rows)
    requires KeepsNames(a, b) && forall x | x in b && x !in a :: b[x].typ != DATACENTER
    ensures HasDatacenter(a) <==> HasDatacenter(b)
  {
    if HasDatacenter(a) { KeepsDatacenter(a, b); }
    if id :| MatchesPart(b, KeyPart("CZ_Chodov", DATACENTER), None, id) {
      assert MatchesPart(a, KeyPart("CZ_Chodov", DATACENTER), None, id);
    }
  }

  lemma DatacenterMeanwhile(a: Rows, b: Rows, s: Id, pools: seq<PoolInfo>, done: nat, i: nat, hits: nat)
    requires i <= hits <= done <= |pools| && KeepsNames(a, b) && Progress(a, b, s, pools, done, i, hits)
    ensures HasDatacenter(a) <==> HasDatacenter(b)
  {
    forall x | x in b && x !in a ensures b[x].typ != DATACENTER {
      assert PoolOf(b, s, x) || ParityOf(b, s, x);
    }
    SameDatacenter(a, b);
  }

  lemma NamesTwice(a: Rows, b: Rows, c: Rows)
    requires KeepsNames(a, b) && KeepsNames(b, c)
    ensures KeepsNames(a, c)
  {
  }

  lemma KeyOfSystemPart(rows: Rows, system: string, s: Id, name: string, typ: EntityType, x: Id)
    requires SystemIs(rows, system, s) && Distinct(rows) && name != "" && typ != SYSTEM
    ensures var key := CreateComponentKey(system, name, "", typ);
            && KeyShape(GetKeyParts(key), true)
            && GetKeyParts(key) == [KeyPart(name, typ), KeyPart(system, SYSTEM)]
            && (MatchesKey(rows, GetKeyParts(key), None, x) <==>
                x in rows && rows[x].typ == typ && rows[x].parent == Some(s) && rows[x].name == name)
            && MatchesKey(rows, GetKeyParts(key)[1..], None, s)
  {
    ComponentKeyShape(system, name, "", typ);
    var parts := [KeyPart(name, typ), KeyPart(system, SYSTEM)];
    assert GetKeyParts(CreateComponentKey(system, name, "", typ)) == parts;
    assert parts[1..] == [KeyPart(system, SYSTEM)];
  }

  lemma KeyOfParityGroup(rows: Rows, system: string, s: Id, pool: string, e: Id, g: string)
    requires SystemIs(rows, system, s) && Distinct(rows) && pool != "" && g != ""
    requires PoolOf(rows, s, e) && rows[e].name == pool
    ensures var parts := GetKeyParts(CreateComponentKey(system, pool, g, PARITY_GROUP));
            && KeyShape(parts, true)
            && |parts| == 3 && parts[0] == KeyPart(g, PARITY_GROUP)
            && (forall x | MatchesKey(rows, parts, None, x) :: ParityOf(rows, s, x) && rows[x].name == g)
            && MatchesKey(rows, parts[1..], None, e)
  {
    ComponentKeyShape(system, pool, g, PARITY_GROUP);
    var parts := [KeyPart(g, PARITY_GROUP), KeyPart(pool, POOL), KeyPart(system, SYSTEM)];
    assert GetKeyParts(CreateComponentKey(system, pool, g, PARITY_GROUP)) == parts;
    assert parts[1..] == [KeyPart(pool, POOL), KeyPart(system, SYSTEM)] && parts[1..][1..] == [KeyPart(system, SYSTEM)];
    forall x | MatchesKey(rows, parts, None, x) ensures ParityOf(rows, s, x) && rows[x].name == g {
      var p := rows[x].parent.value;
      assert MatchesKey(rows, parts[1..], None, p);
      assert MatchesKey(rows, parts[1..][1..], None, rows[p].parent.value);
      assert MatchesPart(rows, KeyPart(system, SYSTEM), None, s);
    }
  }

  /** The component is there already, or it is missing and then created. */
  ghost predicate ComponentFound(before: Tables, t: Tables, s: Id, name: string, typ: EntityType, e: Id) {
    if e in before.rows then
      t == before && t.rows[e].typ == typ && t.rows[e].parent == Some(s) && t.rows[e].name == name
    else
      && t == AddLeaf(before, NewPart(KeyPart(name, typ), s)) && e == t.lastId
      && forall x | x in before.rows && before.rows[x].typ == typ && before.rows[x].parent == Some(s) ::
           before.rows[x].name != name
  }

  lemma PoolBroughtUp(before: Tables, found: Tables, after: Tables, s: Id, pool: PoolInfo, e: Id)
    requires ComponentFound(before, found, s, pool.name, POOL, e) && Grounded(before) && s in before.rows && before.rows[s].typ == SYSTEM
    requires after == found.(rows := found.rows[e := Refreshed(found.rows[e], pool)])
    ensures PoolStep(before.rows, after.rows, s, pool, e)
    ensures KeepsNames(before.rows, after.rows) && OnlyCreates(before, after)
  {
  }

  lemma SameNamesDistinct(a: Rows, b: Rows)
    requires Distinct(a) && a.Keys == b.Keys
    requires forall x | x in a :: b[x].name == a[x].name && b[x].typ == a[x].typ && b[x].parent == a[x].parent
    ensures Distinct(b)
  {
  }

  lemma MoreGroups(before: Rows, a: Rows, b: Rows, s: Id, pools: seq<PoolInfo>, i: nat, e: Id, j: nat, x: Id)
    requires i < |pools| && j < |pools[i].eccGroups|
    requires GroupsStep(before, a, s, e, pools[i].eccGroups[..j]) && GroupStep(a, b, s, e, pools[i].eccGroups[j], x)
    requires PoolOf(before, s, e) && before[e].name == pools[i].name
    requires ParentsExist(before) && ParentsExist(a) && ParityDistinct(a, s) && Distinct(a)
    ensures GroupsStep(before, b, s, e, pools[i].eccGroups[..j + 1])
    ensures PoolsSettled(before, s, pools) && a == before ==> b == before
  {
    var groups := pools[i].eccGroups;
    OneMoreGroup(before, a, b, s, e, groups[..j], groups[j], x);
    assert groups[..j + 1] == groups[..j] + [groups[j]];
    if PoolsSettled(before, s, pools) && a == before {
      GroupStepSettled(a, b, s, pools, i, e, groups[j], x);
    }
  }

  lemma StillThere(before: Rows, a: Rows, s: Id, e: Id, groups: seq<string>, system: string)
    requires GroupsStep(before, a, s, e, groups) && PoolOf(before, s, e) && ParentsExist(before) && SystemIs(before, system, s)
    ensures PoolOf(a, s, e) && a[e] == before[e] && SystemIs(a, system, s)
  {
    GroupsLinks(before, a, s, e, groups);
  }

  /** The system found before is the only one of its name after. */
  lemma StillTheSystem(before: Rows, after: Rows, system: string, s: Id)
    requires KeepsNames(before, after) && SystemIs(before, system, s) && Distinct(after)
    ensures SystemIs(after, system, s) && forall x | SystemIs(after, system, x) :: x == s
  {
  }

  lemma CreatesTwice(t: Tables, u: Tables, v: Tables)
    requires OnlyCreates(t, u) && OnlyCreates(u, v)
    ensures OnlyCreates(t, v)
  {
    if v.rows.Keys == t.rows.Keys { assert u.rows.Keys == t.rows.Keys; }
  }

  ghost predicate NamesOf(names: seq<string>, pools: seq<PoolInfo>) {
    |names| == |pools| && forall k | 0 <= k < |pools| :: names[k] == pools[k].name
  }

  lemma NamesAreNamed(names: seq<string>, pools: seq<PoolInfo>)
    requires NamesOf(names, pools)
    ensures forall name :: name in names <==> Named(pools, name)
  {
    forall name ensures name in names <==> Named(pools, name) {
      if Named(pools, name) {
        var k :| 0 <= k < |pools| && pools[k].name == name;
        assert names[k] == name;
      }
    }
  }

  /** Before the first pool: the pools that are no longer reported are inactive, nothing else changed. */
  lemma StartPools(before: Rows, s: Id, pools: seq<PoolInfo>, names: seq<string>)
    requires WellReported(pools) && NamesOf(names, pools)
    ensures Progress(before, Deactivated(before, s, POOL, names), s, pools, 0, 0, 0)
    ensures forall x :: ParityOf(Deactivated(before, s, POOL, names), s, x) <==> ParityOf(before, s, x)
  {
    var after := Deactivated(before, s, POOL, names);
    NamesAreNamed(names, pools);
    forall x | x in before && !PoolOf(before, s, x) ensures after[x] == before[x] {}
    forall x | PoolOf(before, s, x) ensures PoolRow(before[x], after[x], pools, 0) {}
  }

  lemma StartSettled(before: Rows, s: Id, pools: seq<PoolInfo>, names: seq<string>)
    requires PoolsSettled(before, s, pools) && NamesOf(names, pools)
    ensures Deactivated(before, s, POOL, names) == before
  {
    NamesAreNamed(names, pools);
    forall x | x in before && before[x].parent == Some(s) && before[x].typ == POOL && before[x].name !in names
      ensures before[x].status == INACTIVE
    {
      assert PoolOf(before, s, x) && PoolRow(before[x], before[x], pools, |pools|);
    }
    DeactivatedSettled(before, s, POOL, names);
  }

  lemma StartHosts(before: Rows, s: Id, names: seq<string>)
    ensures HostsDone(before, Deactivated(before, s, HOST_GROUP, names), s, names, 0)
    ensures HostsSettled(before, s, names) ==> Deactivated(before, s, HOST_GROUP, names) == before
  {
    if HostsSettled(before, s, names) {
      forall x | x in before && before[x].parent == Some(s) && before[x].typ == HOST_GROUP && before[x].name !in names
        ensures before[x].status == INACTIVE
      {
        assert GroupOf(before, s, x);
      }
      DeactivatedSettled(before, s, HOST_GROUP, names);
    }
  }

  lemma QuietHit(a: Rows, s: Id, pools: seq<PoolInfo>, i: nat)
    requires i < |pools| && PoolsSettled(a, s, pools)
    ensures Deactivated(a, pools[i].id, PARITY_GROUP, pools[i].eccGroups) == a
  {
    forall x | x in a && a[x].parent == Some(pools[i].id) && a[x].typ == PARITY_GROUP && a[x].name !in pools[i].eccGroups
      ensures a[x].status == INACTIVE
    {
      assert HitBy(a[x], pools[i]);
    }
    DeactivatedSettled(a, pools[i].id, PARITY_GROUP, pools[i].eccGroups);
  }

  lemma HostStepParity(a: Rows, b: Rows, s: Id, name: string, x: Id)
    requires HostStep(a, b, s, name, x) && ParityDistinct(a, s)
    ensures ParityDistinct(b, s)
  {
    assert forall y | ParityOf(b, s, y) :: ParityOf(a, s, y) && b[y] == a[y];
  }

  lemma KeepsParityDistinct(a: Rows, b: Rows, s: Id)
    requires ParityDistinct(a, s) && forall x | ParityOf(b, s, x) :: ParityOf(a, s, x) && b[x].name == a[x].name
    ensures ParityDistinct(b, s)
  {
  }

  class DeviceMapService {
    const repository: StorageEntityRepository

    constructor (repository: StorageEntityRepository)
      ensures this.repository == repository
    {
      this.repository := repository;
    }

    method UpdateMany(parent: Id, typ: EntityType, names: seq<string>)
      requires Grounded(repository.State()) && Distinct(repository.rows)
      modifies repository
      ensures repository.State() == old(repository.State()).(rows := Deactivated(old(repository.rows), parent, typ, names))
      ensures OnlyCreates(old(repository.State()), repository.State())
      ensures Grounded(repository.State()) && Distinct(repository.rows)
      ensures KeepsNames(old(repository.rows), repository.rows)
    {
      repository.rows := Deactivated(repository.rows, parent, typ, names);
      SameNamesDistinct(old(repository.rows), repository.rows);
    }

    method UpdateOne(id: Id, e: Entity)
      requires Grounded(repository.State()) && id in repository.rows
      requires e.parent.Some? ==> e.parent.value in repository.rows
      modifies repository
      ensures repository.State() == old(repository.State()).(rows := old(repository.rows)[id := e])
      ensures Grounded(repository.State())
    {
      repository.rows := repository.rows[id := e];
    }

    /** Finds or creates a pool or host group of the system. */
    method ComponentOf(system: string, s: Id, name: string, typ: EntityType) returns (r: Result<Id, ServiceError>)
      requires Grounded(repository.State()) && Distinct(repository.rows)
      requires SystemIs(repository.rows, system, s) && name != "" && typ != SYSTEM
      modifies repository
      ensures Grounded(repository.State()) && Distinct(repository.rows)
      ensures r.Failure? <==> !HasDatacenter(old(repository.rows))
      ensures r.Failure? ==> r.error == NoDatacenter && repository.State() == old(repository.State())
      ensures r.Success? ==> ComponentFound(old(repository.State()), repository.State(), s, name, typ, r.value)
    {
      ghost var before := repository.rows;
      forall x ensures var key := CreateComponentKey(system, name, "", typ);
                       KeyShape(GetKeyParts(key), true) && MatchesKey(before, GetKeyParts(key)[1..], None, s)
                       && (MatchesKey(before, GetKeyParts(key), None, x) <==>
                           x in before && before[x].typ == typ && before[x].parent == Some(s) && before[x].name == name)
      {
        KeyOfSystemPart(before, system, s, name, typ, x);
      }
      r := repository.FetchByStorageEntityKey(CreateComponentKey(system, name, "", typ), true);
    }

    /** One reported pool: find or create, then bring serial number and status up to date where they differ. */
    method SettlePool(system: string, s: Id, pool: PoolInfo) returns (r: Result<Id, ServiceError>)
      requires Grounded(repository.State()) && Distinct(repository.rows)
      requires SystemIs(repository.rows, system, s) && pool.name != ""
      modifies repository
      ensures Grounded(repository.State()) && Distinct(repository.rows) && KeepsNames(old(repository.rows), repository.rows)
      ensures r.Failure? <==> !HasDatacenter(old(repository.rows))
      ensures r.Failure? ==> r.error == NoDatacenter && repository.State() == old(repository.State())
      ensures r.Success? ==> PoolStep(old(repository.rows), repository.rows, s, pool, r.value)
      ensures OnlyCreates(old(repository.State()), repository.State())
    {
      r := ComponentOf(system, s, pool.name, POOL);
      if r.Failure? { return; }
      var e := r.value;
      var entity := repository.rows[e];
      ghost var found := repository.State();
      if entity.serialNumber != Some(Text(pool.id)) || entity.status == INACTIVE {
        UpdateOne(e, entity.(serialNumber := Some(Text(pool.id)), status := ACTIVE));
        SameNamesDistinct(found.rows, repository.rows);
      }
      PoolBroughtUp(old(repository.State()), found, repository.State(), s, pool, e);
    }

    /** findFirst among the parity groups of all pools of the system. */
    method FindParityGroup(s: Id, g: string) returns (found: Option<Id>)
      ensures found.Some? ==> ParityOf(repository.rows, s, found.value) && repository.rows[found.value].name == g
      ensures found.None? ==> forall x | ParityOf(repository.rows, s, x) :: repository.rows[x].name != g
    {
      var rows := repository.rows;
      var candidates := set x | x in rows && ParityOf(rows, s, x) && rows[x].name == g;
      if candidates == {} {
        assert forall x | ParityOf(rows, s, x) && rows[x].name == g :: x in candidates;
        found := None;
      } else {
        var x :| x in candidates;
        found := Some(x);
      }
    }

    /** One listed parity group: created below the pool, or moved there and activated where it is not yet so. */
    method SettleGroup(system: string, s: Id, pool: string, e: Id, g: string) returns (r: Result<Id, ServiceError>)
      requires Grounded(repository.State()) && Distinct(repository.rows) && ParityDistinct(repository.rows, s)
      requires SystemIs(repository.rows, system, s) && pool != "" && g != ""
      requires PoolOf(repository.rows, s, e) && repository.rows[e].name == pool
      modifies repository
      ensures Grounded(repository.State()) && Distinct(repository.rows) && ParityDistinct(repository.rows, s)
      ensures KeepsNames(old(repository.rows), repository.rows)
      ensures HasDatacenter(old(repository.rows)) ==> r.Success?
      ensures r.Failure? ==> r.error == NoDatacenter && repository.State() == old(repository.State())
      ensures r.Success? ==> GroupStep(old(repository.rows), repository.rows, s, e, g, r.value)
      ensures OnlyCreates(old(repository.State()), repository.State())
    {
      ghost var before := repository.rows;
      var found := FindParityGroup(s, g);
      if found.None? {
        KeyOfParityGroup(before, system, s, pool, e, g);
        r := repository.FetchByStorageEntityKey(CreateComponentKey(system, pool, g, PARITY_GROUP), true);
        if r.Failure? { return; }
      } else {
        var entity := repository.rows[found.value];
        r := Success(found.value);
        if entity.parent != Some(e) || entity.status == INACTIVE {
          UpdateOne(found.value, entity.(parent := Some(e), status := ACTIVE));
        }
      }
      GroupStepDistinct(before, repository.rows, s, e, g, r.value);
    }

    /** The groups of one pool; its own lookup has already found the datacenter, so theirs do too. */
    method SettleGroups(system: string, s: Id, pools: seq<PoolInfo>, i: nat, e: Id)
      requires Grounded(repository.State()) && Distinct(repository.rows) && ParityDistinct(repository.rows, s)
      requires SystemIs(repository.rows, system, s) && HasDatacenter(repository.rows) && WellReported(pools) && i < |pools|
      requires PoolOf(repository.rows, s, e) && repository.rows[e].name == pools[i].name
      modifies repository
      ensures Grounded(repository.State()) && Distinct(repository.rows) && ParityDistinct(repository.rows, s)
      ensures KeepsNames(old(repository.rows), repository.rows)
      ensures GroupsStep(old(repository.rows), repository.rows, s, e, pools[i].eccGroups)
      ensures OnlyCreates(old(repository.State()), repository.State())
      ensures PoolsSettled(old(repository.rows), s, pools) ==> repository.State() == old(repository.State())
    {
      var groups := pools[i].eccGroups;
      ghost var before := repository.State();
      for j := 0 to |groups|
        invariant Grounded(repository.State()) && Distinct(repository.rows) && ParityDistinct(repository.rows, s)
        invariant KeepsNames(before.rows, repository.rows) && OnlyCreates(before, repository.State())
        invariant GroupsStep(before.rows, repository.rows, s, e, groups[..j])
        invariant PoolsSettled(before.rows, s, pools) ==> repository.State() == before
      {
        ghost var middle := repository.State();
        StillThere(before.rows, middle.rows, s, e, groups[..j], system);
        KeepsDatacenter(before.rows, middle.rows);
        var r := SettleGroup(system, s, pools[i].name, e, groups[j]);
        MoreGroups(before.rows, middle.rows, repository.rows, s, pools, i, e, j, r.value);
        CreatesTwice(before, middle, repository.State());
      }
      assert groups[..|groups|] == groups;
    }

    /** One iteration of the pool loop. */
    method SettleOnePool(system: string, s: Id, pools: seq<PoolInfo>, i: nat, ghost before: Rows)
      returns (error: Option<ServiceError>)
      requires Grounded(repository.State()) && Distinct(repository.rows) && ParityDistinct(repository.rows, s)
      requires SystemIs(repository.rows, system, s) && WellReported(pools) && i < |pools|
      requires ParentsExist(before) && Progress(before, repository.rows, s, pools, i, i, i)
      modifies repository
      ensures Grounded(repository.State()) && Distinct(repository.rows) && ParityDistinct(repository.rows, s)
      ensures KeepsNames(old(repository.rows), repository.rows)
      ensures error.Some? <==> !HasDatacenter(old(repository.rows))
      ensures error.Some? ==> error.value == NoDatacenter
      ensures error.None? ==> Progress(before, repository.rows, s, pools, i + 1, i + 1, i + 1)
      ensures OnlyCreates(old(repository.State()), repository.State())
      ensures PoolsSettled(old(repository.rows), s, pools) ==> repository.State() == old(repository.State())
    {
      ghost var a := repository.State();
      var r := SettlePool(system, s, pools[i]);
      if r.Failure? { return Some(r.error); }
      var e := r.value;
      ghost var b := repository.State();
      PoolStepProgress(before, a.rows, b.rows, s, pools, i, e);
      PoolStepParity(a.rows, b.rows, s, pools[i], e);
      KeepsParityDistinct(a.rows, b.rows, s);
      UpdateMany(pools[i].id, PARITY_GROUP, pools[i].eccGroups);
      ghost var c := repository.State();
      HitProgress(before, b.rows, c.rows, s, pools, i);
      HitLinks(b.rows, c.rows, s, pools[i]);
      KeepsParityDistinct(b.rows, c.rows, s);
      if PoolsSettled(a.rows, s, pools) {
        PoolStepSettled(a.rows, b.rows, s, pools, i, e);
        QuietHit(a.rows, s, pools, i);
      }
      KeepsDatacenter(a.rows, c.rows);
      SettleGroups(system, s, pools, i, e);
      CreatesTwice(a, b, c);
      CreatesTwice(a, c, repository.State());
      error := None;
      GroupsProgress(before, c.rows, repository.rows, s, pools, i, e);
    }

    method DeactivateMissingPools(s: Id, pools: seq<PoolInfo>)
      requires Grounded(repository.State()) && Distinct(repository.rows) && ParityDistinct(repository.rows, s)
      requires WellReported(pools)
      modifies repository
      ensures Grounded(repository.State()) && Distinct(repository.rows) && ParityDistinct(repository.rows, s)
      ensures KeepsNames(old(repository.rows), repository.rows)
      ensures Progress(old(repository.rows), repository.rows, s, pools, 0, 0, 0)
      ensures OnlyCreates(old(repository.State()), repository.State())
      ensures PoolsSettled(old(repository.rows), s, pools) ==> repository.State() == old(repository.State())
    {
      ghost var before := repository.rows;
      var names := seq(|pools|, k requires 0 <= k < |pools| => pools[k].name);
      StartPools(before, s, pools, names);
      if PoolsSettled(before, s, pools) { StartSettled(before, s, pools, names); }
      UpdateMany(s, POOL, names);
      KeepsParityDistinct(before, repository.rows, s);
    }

    method UpdatePools(system: string, s: Id, pools: seq<PoolInfo>) returns (error: Option<ServiceError>)
      requires Grounded(repository.State()) && Distinct(repository.rows) && ParityDistinct(repository.rows, s)
      requires SystemIs(repository.rows, system, s) && WellReported(pools)
      modifies repository
      ensures Grounded(repository.State()) && Distinct(repository.rows) && ParityDistinct(repository.rows, s)
      ensures KeepsNames(old(repository.rows), repository.rows)
      ensures error.Some? <==> pools != [] && !HasDatacenter(old(repository.rows))
      ensures error.Some? ==> error.value == NoDatacenter
      ensures error.None? ==> Progress(old(repository.rows), repository.rows, s, pools, |pools|, |pools|, |pools|)
      ensures OnlyCreates(old(repository.State()), repository.State())
      ensures PoolsSettled(old(repository.rows), s, pools) ==> repository.State() == old(repository.State())
    {
      ghost var before := repository.State();
      DeactivateMissingPools(s, pools);
      error := SettlePools(system, s, pools, before);
    }

    /** The pool loop, after the pools no longer reported went inactive. */
    method SettlePools(system: string, s: Id, pools: seq<PoolInfo>, ghost before: Tables) returns (error: Option<ServiceError>)
      requires Grounded(repository.State()) && Distinct(repository.rows) && ParityDistinct(repository.rows, s)
      requires SystemIs(repository.rows, system, s) && WellReported(pools) && ParentsExist(before.rows)
      requires KeepsNames(before.rows, repository.rows) && OnlyCreates(before, repository.State())
      requires Progress(before.rows, repository.rows, s, pools, 0, 0, 0)
      requires PoolsSettled(before.rows, s, pools) ==> repository.State() == before
      modifies repository
      ensures Grounded(repository.State()) && Distinct(repository.rows) && ParityDistinct(repository.rows, s)
      ensures KeepsNames(before.rows, repository.rows) && OnlyCreates(before, repository.State())
      ensures error.Some? <==> pools != [] && !HasDatacenter(before.rows)
      ensures error.Some? ==> error.value == NoDatacenter
      ensures error.None? ==> Progress(before.rows, repository.rows, s, pools, |pools|, |pools|, |pools|)
      ensures PoolsSettled(before.rows, s, pools) ==> repository.State() == before
    {
      error := None;
      for i := 0 to |pools|
        invariant Grounded(repository.State()) && Distinct(repository.rows) && ParityDistinct(repository.rows, s)
        invariant SystemIs(repository.rows, system, s)
        invariant KeepsNames(before.rows, repository.rows) && OnlyCreates(before, repository.State())
        invariant error.None? && (i > 0 ==> HasDatacenter(before.rows))
        invariant Progress(before.rows, repository.rows, s, pools, i, i, i)
        invariant PoolsSettled(before.rows, s, pools) ==> repository.State() == before
      {
        ghost var a := repository.State();
        DatacenterMeanwhile(before.rows, a.rows, s, pools, i, i, i);
        error := SettleOnePool(system, s, pools, i, before.rows);
        CreatesTwice(before, a, repository.State());
        NamesTwice(before.rows, a.rows, repository.rows);
        if error.Some? { return; }
      }
    }

    method SettleHostGroup(system: string, s: Id, name: string) returns (r: Result<Id, ServiceError>)
      requires Grounded(repository.State()) && Distinct(repository.rows) && ParityDistinct(repository.rows, s)
      requires SystemIs(repository.rows, system, s) && name != ""
      modifies repository
      ensures Grounded(repository.State()) && Distinct(repository.rows) && ParityDistinct(repository.rows, s)
      ensures KeepsNames(old(repository.rows), repository.rows)
      ensures r.Failure? <==> !HasDatacenter(old(repository.rows))
      ensures r.Failure? ==> r.error == NoDatacenter && repository.State() == old(repository.State())
      ensures r.Success? ==> HostStep(old(repository.rows), repository.rows, s, name, r.value)
      ensures OnlyCreates(old(repository.State()), repository.State())
    {
      r := ComponentOf(system, s, name, HOST_GROUP);
      if r.Failure? { return; }
      var entity := repository.rows[r.value];
      if entity.status == INACTIVE {
        ghost var found := repository.rows;
        UpdateOne(r.value, entity.(status := ACTIVE));
        SameNamesDistinct(found, repository.rows);
      }
      HostStepParity(old(repository.rows), repository.rows, s, name, r.value);
    }

    method UpdateHostGroups(system: string, s: Id, names: seq<string>) returns (error: Option<ServiceError>)
      requires Grounded(repository.State()) && Distinct(repository.rows) && ParityDistinct(repository.rows, s)
      requires SystemIs(repository.rows, system, s) && "" !in names
      modifies repository
      ensures Grounded(repository.State()) && Distinct(repository.rows) && ParityDistinct(repository.rows, s)
      ensures KeepsNames(old(repository.rows), repository.rows)
      ensures error.Some? <==> names != [] && !HasDatacenter(old(repository.rows))
      ensures error.Some? ==> error.value == NoDatacenter
      ensures error.None? ==> HostsDone(old(repository.rows), repository.rows, s, names, |names|)
      ensures OnlyCreates(old(repository.State()), repository.State())
      ensures HostsSettled(old(repository.rows), s, names) ==> repository.State() == old(repository.State())
    {
      ghost var before := repository.State();
      StartHosts(before.rows, s, names);
      error := None;
      UpdateMany(s, HOST_GROUP, names);
      KeepsParityDistinct(before.rows, repository.rows, s);
      for i := 0 to |names|
        invariant Grounded(repository.State()) && Distinct(repository.rows) && ParityDistinct(repository.rows, s)
        invariant KeepsNames(before.rows, repository.rows) && OnlyCreates(before, repository.State())
        invariant error.None? && (i > 0 ==> HasDatacenter(before.rows))
        invariant HostsDone(before.rows, repository.rows, s, names, i)
        invariant HostsSettled(before.rows, s, names) ==> repository.State() == before
      {
        ghost var a := repository.State();
        SameDatacenter(before.rows, a.rows);
        assert names[i] in names;
        var r := SettleHostGroup(system, s, names[i]);
        CreatesTwice(before, a, repository.State());
        if r.Failure? {
          return Some(r.error);
        }
        HostsStep(before.rows, a.rows, repository.rows, s, names, i, r.value);
        if HostsSettled(before.rows, s, names) {
          HostStepSettled(a.rows, repository.rows, s, names, i, r.value);
        }
      }
    }

    /** updateSystem up to the host groups. A maintainer that is not available, or a system the store does not
        know, leaves everything alone; without the datacenter of the key paths the first lookup fails. */
    method UpdateSystem(system: string, available: bool, pools: seq<PoolInfo>, hostgroups: seq<string>)
      returns (systemId: Option<Id>, error: Option<ServiceError>)
      requires Grounded(repository.State()) && Distinct(repository.rows)
      requires forall s | SystemIs(repository.rows, system, s) :: ParityDistinct(repository.rows, s)
      requires WellReported(pools) && "" !in hostgroups
      modifies repository
      ensures Grounded(repository.State()) && Distinct(repository.rows)
      ensures forall s | SystemIs(repository.rows, system, s) :: ParityDistinct(repository.rows, s)
      ensures KeepsNames(old(repository.rows), repository.rows) && OnlyCreates(old(repository.State()), repository.State())
      ensures systemId.None? <==> !available || forall s :: !SystemIs(old(repository.rows), system, s)
      ensures systemId.None? ==> error.None? && repository.State() == old(repository.State())
      ensures systemId.Some? ==> SystemIs(old(repository.rows), system, systemId.value)
      ensures error.Some? <==> systemId.Some? && (pools != [] || hostgroups != []) && !HasDatacenter(old(repository.rows))
      ensures error.Some? ==> error.value == NoDatacenter
      ensures systemId.Some? && error.None? ==>
                Reconciled(old(repository.rows), repository.rows, systemId.value, pools, hostgroups)
      ensures systemId.Some? ==>
                PoolsSettled(old(repository.rows), systemId.value, pools) ==>
                HostsSettled(old(repository.rows), systemId.value, hostgroups) ==> repository.State() == old(repository.State())
    {
      if !available { return None, None; }
      systemId := repository.FindOneByName(KeyPart(system, SYSTEM), None);
      error := None;
      if systemId.None? {
        assert forall s :: !SystemIs(repository.rows, system, s) by {
          assert forall s :: SystemIs(repository.rows, system, s) ==> MatchesPart(repository.rows, KeyPart(system, SYSTEM), None, s);
        }
        return;
      }
      ghost var before := repository.rows;
      assert SystemIs(before, system, systemId.value);
      error := UpdateFound(system, systemId.value, pools, hostgroups);
      StillTheSystem(before, repository.rows, system, systemId.value);
    }

    /** The run for a system that was found. */
    method UpdateFound(system: string, s: Id, pools: seq<PoolInfo>, hostgroups: seq<string>) returns (error: Option<ServiceError>)
      requires Grounded(repository.State()) && Distinct(repository.rows) && ParityDistinct(repository.rows, s)
      requires SystemIs(repository.rows, system, s) && WellReported(pools) && "" !in hostgroups
      modifies repository
      ensures Grounded(repository.State()) && Distinct(repository.rows) && ParityDistinct(repository.rows, s)
      ensures KeepsNames(old(repository.rows), repository.rows) && OnlyCreates(old(repository.State()), repository.State())
      ensures error.Some? <==> (pools != [] || hostgroups != []) && !HasDatacenter(old(repository.rows))
      ensures error.Some? ==> error.value == NoDatacenter
      ensures error.None? ==> Reconciled(old(repository.rows), repository.rows, s, pools, hostgroups)
      ensures PoolsSettled(old(repository.rows), s, pools) ==>
                HostsSettled(old(repository.rows), s, hostgroups) ==> repository.State() == old(repository.State())
    {
      ghost var before := repository.State();
      error := UpdatePools(system, s, pools);
      if error.Some? { return; }
      ghost var middle := repository.State();
      DatacenterMeanwhile(before.rows, middle.rows, s, pools, |pools|, |pools|, |pools|);
      error := UpdateHostGroups(system, s, hostgroups);
      CreatesTwice(before, middle, repository.State());
    }

    /** Two 'updated' events in a row with the same report: the second run leaves the tables as the first left them. */
    method UpdateSystemTwice(system: string, available: bool, pools: seq<PoolInfo>, hostgroups: seq<string>)
      returns (systemId: Option<Id>, error: Option<ServiceError>, ghost first: Tables)
      requires Grounded(repository.State()) && Distinct(repository.rows)
      requires forall s | SystemIs(repository.rows, system, s) :: ParityDistinct(repository.rows, s)
      requires WellReported(pools) && "" !in hostgroups
      modifies repository
      ensures systemId.None? ==> repository.State() == first == old(repository.State())
      ensures error.Some? <==> systemId.Some? && (pools != [] || hostgroups != []) && !HasDatacenter(old(repository.rows))
      ensures systemId.Some? && error.None? ==>
                Reconciled(old(repository.rows), first.rows, systemId.value, pools, hostgroups)
      ensures error.None? ==> repository.State() == first
    {
      ghost var before := repository.rows;
      systemId, error := UpdateSystem(system, available, pools, hostgroups);
      first := repository.State();
      if error.Some? { return; }
      if systemId.Some? { StillTheSystem(before, first.rows, system, systemId.value); }
      var secondId, secondError := UpdateSystem(system, available, pools, hostgroups);
      if systemId.Some? {
        assert secondId == systemId;
        if HasDatacenter(before) { KeepsDatacenter(before, first.rows); }
        SecondRunSame(before, first.rows, repository.rows, systemId.value, pools, hostgroups);
      }
    }
  }

  lemma ClashingStartReady(start: Rows)
    requires start == ClashingStart()
    ensures ParentsExist(start) && Distinct(start) && HasDatacenter(start)
    ensures forall s | SystemIs(start, "S", s) :: s == 2 && ParityDistinct(start, s)
    ensures SystemIs(start, "S", 2) && start.Keys == {1, 2, 7} && PoolOf(start, 2, 7) && start[7].name == "A"
  {
    assert MatchesPart(start, KeyPart("CZ_Chodov", DATACENTER), None, 1);
    assert forall x, y | x in start && y in start && start[x].typ == start[y].typ :: x == y;
  }

  /** That run, carried out: the group the report lists ends inactive. */
  method ClashingRun() returns (status: Status)
    ensures status == INACTIVE
  {
    var repository := new StorageEntityRepository(7);
    repository.rows := ClashingStart();
    ghost var start := repository.rows;
    ClashingStartReady(start);
    ClashingWellReported();
    var service := new DeviceMapService(repository);
    status := ClashingStatus(service);
  }

  method ClashingStatus(service: DeviceMapService) returns (status: Status)
    requires Grounded(service.repository.State()) && service.repository.rows == ClashingStart()
    modifies service.repository
    ensures status == INACTIVE
  {
    ghost var start := service.repository.rows;
    ClashingStartReady(start);
    ClashingWellReported();
    var systemId, error := service.UpdateSystem("S", true, Clashing, []);
    assert systemId == Some(2) && error == None;
    assert Reconciled(start, service.repository.rows, 2, Clashing, []);
    LaterPoolTakesGroup(start, service.repository.rows);
    var found := service.FindParityGroup(2, "g");
    status := service.repository.rows[found.value].status;
  }
}
