/** What duplicating a subtree should copy, and when the name checks let it finish. */
module Duplication {
  import opened Wrappers
  import opened Forest
  import opened StorageEntityTables

  /** The largest part of the subtree of top that hangs together through entities of the listed types:
      an entity is kept when everything between top (exclusive) and it has a listed type. */
  ghost function Kept(rows: Rows, top: Id, types: seq<EntityType>): set<Id> {
    set x | x in Subtree(rows, top) &&
            forall y | y in Subtree(rows, top) && y != top && Reaches(rows, y, x) :: rows[y].typ in types
  }

  /** filterOutByType keeps the entities of a listed type. */
  function Listed(rows: Rows, entities: set<Id>, types: seq<EntityType>): set<Id> {
    set x | x in entities && x in rows && rows[x].typ in types
  }

  ghost function KeptBelow(rows: Rows, tops: set<Id>, types: seq<EntityType>): set<Id> {
    set c, x | c in tops && x in Kept(rows, c, types) :: x
  }

  /** The copy of the source under that name would not be refused. */
  ghost predicate RootFree(rows: Rows, sourceId: Id, name: string)
    requires sourceId in rows
  {
    var source := rows[sourceId];
    source.typ == DATACENTER ||
    (source.parent.Some? && source.parent.value in rows && NameFree(rows, name, source.typ, source.parent))
  }

  lemma RootFreeMeans(t: Tables, sourceId: Id, name: string, serialNumber: Option<string>)
    requires Grounded(t) && sourceId in t.rows
    ensures RootFree(t.rows, sourceId, name) <==> CreateError(t.rows, RootRequest(t.rows, sourceId, name, serialNumber)).None?
  {
    CreateMeans(t, RootRequest(t.rows, sourceId, name, serialNumber));
  }

  function RootRequest(rows: Rows, sourceId: Id, name: string, serialNumber: Option<string>): EntityRequest
    requires sourceId in rows
  {
    EntityRequest(name, rows[sourceId].typ, rows[sourceId].parent, serialNumber)
  }

  /** The source exists, the name of the copy is free and no name conflict waits below. */
  ghost predicate Completes(rows: Rows, sourceId: Id, name: string, types: seq<EntityType>) {
    && sourceId in rows
    && RootFree(rows, sourceId, name)
    && Copyable(rows, Kept(rows, sourceId, types) - {sourceId})
  }

  /** The new rows are exactly a copy of the kept part under the requested name, beside the source. */
  ghost predicate IsCopy(before: Rows, after: Rows, sourceId: Id, name: string, serialNumber: Option<string>,
                         types: seq<EntityType>, copy: map<Id, Id>)
    requires sourceId in before
  {
    && copy.Keys == Kept(before, sourceId, types) && FreshCopies(before, after, copy) && Mirrors(before, after, copy, sourceId)
    && sourceId in copy && copy[sourceId] in after
    && after[copy[sourceId]] == Entity(name, before[sourceId].typ, ACTIVE, serialNumber,
         if before[sourceId].typ == DATACENTER then None else before[sourceId].parent)
  }

  /** A duplicate is a series of creates; when it completes they amount to a copy, and when the source is missing
      or the name taken there are none. */
  ghost predicate Duplicated(t: Tables, sourceId: Id, name: string, serialNumber: Option<string>, types: seq<EntityType>, u: Tables) {
    && CreatesLeadTo(t, u) && Extends(t.rows, u.rows)
    && (Completes(t.rows, sourceId, name, types) ==>
          exists copy :: IsCopy(t.rows, u.rows, sourceId, name, serialNumber, types, copy))
    && (sourceId !in t.rows || !RootFree(t.rows, sourceId, name) ==> u == t)
  }

  lemma KeptByChildren(rows: Rows, top: Id, types: seq<EntityType>)
    requires Acyclic(rows) && top in rows
    ensures Kept(rows, top, types) == {top} + KeptBelow(rows, Listed(rows, Children(rows, top), types), types)
  {
    var below := KeptBelow(rows, Listed(rows, Children(rows, top), types), types);
    ReachesUnfold(rows, top, top);
    forall x | x in Kept(rows, top, types) && x != top ensures x in below {
      SubtreeByChildren(rows, top, x);
      var c :| c in Children(rows, top) && x in Subtree(rows, c);
      ChildSubtree(rows, top, c);
      ReachesUnfold(rows, c, c);
      assert c in Listed(rows, Children(rows, top), types);
      assert x in Kept(rows, c, types);
    }
    forall c, x | c in Listed(rows, Children(rows, top), types) && x in Kept(rows, c, types)
      ensures x in Kept(rows, top, types)
    {
      ChildSubtree(rows, top, c);
      forall y | y in Subtree(rows, top) && y != top && Reaches(rows, y, x) ensures rows[y].typ in types {
        AncestorsFormChain(rows, y, c, x);
        if !Reaches(rows, c, y) {
          ReachesUnfold(rows, y, c);
          ReachesAntisymmetric(rows, top, y);
        }
      }
    }
    forall y | y in Subtree(rows, top) && y != top && Reaches(rows, y, top) ensures false {
      ReachesAntisymmetric(rows, top, y);
    }
    assert top in Kept(rows, top, types);
  }

  lemma TopNotBelowItself(rows: Rows, top: Id, types: seq<EntityType>)
    requires Acyclic(rows) && top in rows
    ensures top !in KeptBelow(rows, Children(rows, top), types)
    ensures KeptBelow(rows, Listed(rows, Children(rows, top), types), types) <= KeptBelow(rows, Children(rows, top), types)
  {
    forall c | c in Children(rows, top) ensures top !in Kept(rows, c, types) {
      ChildSubtree(rows, top, c);
    }
  }

  /** Names alone decide: no system or pool among the copied entities, and no two siblings alike
      (datacenters are never compared). */
  ghost predicate Copyable(rows: Rows, part: set<Id>) {
    && (forall x | x in part && x in rows :: rows[x].typ !in {SYSTEM, POOL})
    && (forall x, y | x in part && y in part && x in rows && y in rows && Twins(rows, x, y) :: rows[x].typ == DATACENTER)
  }

  predicate Twins(rows: Rows, x: Id, y: Id)
    requires x in rows && y in rows
  {
    x != y && rows[x].parent == rows[y].parent && rows[x].name == rows[y].name && rows[x].typ == rows[y].typ
  }

  /** after holds, for every x in copy below top, an entity copy[x] with the name and type of x, hanging
      below the copy of the parent of x; copies of datacenters stand alone. */
  ghost predicate Mirrors(source: Rows, after: Rows, copy: map<Id, Id>, top: Id) {
    forall x | x in copy && x != top ::
      && x in source && source[x].parent.Some? && source[x].parent.value in copy && copy[x] in after
      && after[copy[x]] == Entity(source[x].name, source[x].typ, ACTIVE, None,
           if source[x].typ == DATACENTER then None else Some(copy[source[x].parent.value]))
  }

  /** The copies are new, distinct, and everything that is new. */
  ghost predicate FreshCopies(before: Rows, after: Rows, copy: map<Id, Id>) {
    && (forall x | x in copy :: copy[x] !in before)
    && (forall x, y | x in copy && y in copy && copy[x] == copy[y] :: x == y)
    && after.Keys == before.Keys + copy.Values
  }

  /** No new row hangs below an old one other than parent. */
  ghost predicate HangBelow(before: Rows, after: Rows, parent: Id) {
    forall y | y in after && y !in before ::
      after[y].parent.None? || after[y].parent.value == parent || after[y].parent.value !in before
  }

  /** No row outside the source hangs inside the part of it that is still to be read. */
  ghost predicate NoIntruder(source: Rows, rows: Rows, top: Id) {
    forall y | y in rows && y !in source ::
      rows[y].parent.None? || rows[y].parent.value !in Subtree(source, top)
  }

  lemma ChildInChildSubtree(rows: Rows, top: Id, d: Id, x: Id)
    requires Acyclic(rows) && d in Children(rows, top) && x in Children(rows, top) && x in Subtree(rows, d)
    ensures x == d
  {
    ReachesUnfold(rows, x, x);
    if x != d { SiblingSubtreesDisjoint(rows, top, x, d); }
  }

  /** Whatever is copied below c has its parent inside the subtree of c. */
  lemma KeptInside(rows: Rows, c: Id, types: seq<EntityType>, x: Id)
    requires Acyclic(rows) && c in rows && x in KeptBelow(rows, Listed(rows, Children(rows, c), types), types)
    ensures x in Subtree(rows, c) && x != c && rows[x].parent.Some? && rows[x].parent.value in Subtree(rows, c)
  {
    var g :| g in Listed(rows, Children(rows, c), types) && x in Kept(rows, g, types);
    ChildSubtree(rows, c, g);
    ReachesUnfold(rows, c, x);
    ReachesExists(rows, c, rows[x].parent.value);
  }

  /** Whatever is copied below the other children lies outside the subtree of c, and only those children hang below top. */
  lemma KeptElsewhere(rows: Rows, top: Id, done: set<Id>, c: Id, types: seq<EntityType>, x: Id)
    requires Acyclic(rows) && top in rows && done <= Children(rows, top) && c in Children(rows, top) - done
    requires x in KeptBelow(rows, done, types)
    ensures x in rows && x !in Subtree(rows, c) && (rows[x].parent == Some(top) ==> x in done)
    ensures rows[x].parent.Some? ==> rows[x].parent.value !in Subtree(rows, c)
  {
    var d :| d in done && x in Kept(rows, d, types);
    SiblingSubtreesDisjoint(rows, top, d, c);
    if x in Children(rows, top) { ChildInChildSubtree(rows, top, d, x); }
    ReachesUnfold(rows, c, x);
  }

  /** Parts below different children share no siblings except those children themselves. */
  lemma SiblingsAcross(rows: Rows, top: Id, done: set<Id>, c: Id, types: seq<EntityType>, x: Id, y: Id)
    requires Acyclic(rows) && top in rows && done <= Children(rows, top) && c in Children(rows, top) - done
    requires x in KeptBelow(rows, done, types) && y in Kept(rows, c, types) && rows[x].parent == rows[y].parent
    ensures y == c && x in done
  {
    KeptByChildren(rows, c, types);
    KeptElsewhere(rows, top, done, c, types, x);
    if y != c { KeptInside(rows, c, types, y); }
  }

  /** Hence conflicts below different children are independent. */
  lemma CopyableJoin(rows: Rows, top: Id, done: set<Id>, c: Id, types: seq<EntityType>)
    requires Acyclic(rows) && top in rows && done <= Children(rows, top) && c in Children(rows, top) - done
    requires Copyable(rows, KeptBelow(rows, done, types))
    requires Copyable(rows, KeptBelow(rows, Listed(rows, Children(rows, c), types), types))
    requires rows[c].typ !in {SYSTEM, POOL}
    requires forall d | d in done :: rows[c].typ == DATACENTER || !Twins(rows, c, d)
    ensures Copyable(rows, KeptBelow(rows, done + {c}, types))
  {
    var part, own := KeptBelow(rows, done, types), Kept(rows, c, types);
    KeptByChildren(rows, c, types);
    assert KeptBelow(rows, done + {c}, types) == part + own;
    CopyableOne(rows, top, c, types);
    forall x, y | x in part && y in own && x in rows && y in rows && (Twins(rows, x, y) || Twins(rows, y, x))
      ensures rows[x].typ == DATACENTER && rows[y].typ == DATACENTER
    {
      SiblingsAcross(rows, top, done, c, types, x, y);
      assert Twins(rows, c, x);
    }
  }

  lemma CopyableOne(rows: Rows, top: Id, c: Id, types: seq<EntityType>)
    requires Acyclic(rows) && top in rows && c in Children(rows, top) && rows[c].typ !in {SYSTEM, POOL}
    requires Copyable(rows, KeptBelow(rows, Listed(rows, Children(rows, c), types), types))
    ensures Copyable(rows, Kept(rows, c, types))
  {
    KeptByChildren(rows, c, types);
    ChildSubtree(rows, top, c);
    forall y | y in KeptBelow(rows, Listed(rows, Children(rows, c), types), types) ensures rows[y].parent != rows[c].parent {
      KeptInside(rows, c, types, y);
    }
  }

  lemma CopyableMonotone(rows: Rows, small: set<Id>, big: set<Id>)
    requires small <= big && Copyable(rows, big)
    ensures Copyable(rows, small)
  {
  }

  /** Listing POOL for a source with a POOL child: the copy of that child always meets the name-global check. */
  lemma PoolChildNeverCopyable(rows: Rows, top: Id, pool: Id, types: seq<EntityType>)
    requires Acyclic(rows) && top in rows && pool in Children(rows, top)
    requires rows[pool].typ == POOL && POOL in types
    ensures !Copyable(rows, Kept(rows, top, types) - {top})
  {
    KeptByChildren(rows, top, types);
    KeptByChildren(rows, pool, types);
    NotOwnParent(rows, top);
    assert pool in Kept(rows, pool, types) && pool in Listed(rows, Children(rows, top), types);
  }

  // ---------- one child of the copying loop ----------

  lemma FreshHasNoChildren(t: Tables, e: Entity)
    requires Inv(t) && (e.parent.Some? ==> e.parent.value in t.rows)
    ensures Children(AddLeaf(t, e).rows, t.lastId + 1) == {}
  {
    forall x | x in t.rows ensures t.rows[x].parent != Some(t.lastId + 1) {
      if t.rows[x].parent.Some? { assert t.rows[x].parent.value in t.rows; }
    }
  }

  /** What has been added so far does not disturb the part of the source still to be read. */
  lemma StillNoIntruder(source: Rows, before: Rows, rows: Rows, top: Id, parent: Id)
    requires Extends(source, before) && NoIntruder(source, before, top) && parent !in source
    requires Extends(before, rows) && HangBelow(before, rows, parent)
    ensures NoIntruder(source, rows, top)
  {
  }

  lemma ListedUnchanged(source: Rows, rows: Rows, entities: set<Id>, types: seq<EntityType>)
    requires Extends(source, rows) && entities <= source.Keys
    ensures Listed(rows, entities, types) == Listed(source, entities, types)
  {
    assert forall x :: x in Listed(rows, entities, types) <==> x in Listed(source, entities, types);
  }

  /** Loaded children of a source entity are its children in the source. */
  lemma ChildrenUnchanged(source: Rows, rows: Rows, top: Id, c: Id)
    requires Extends(source, rows) && NoIntruder(source, rows, top) && c in Subtree(source, top)
    ensures Children(rows, c) == Children(source, c)
  {
    forall d | d in Children(rows, c) ensures d in source {
      assert rows[d].parent == Some(c);
    }
    assert forall d :: d in Children(rows, c) <==> d in Children(source, c);
  }

  /** The children of top can be copied below parent: the source is a forest still present in the rows,
      parent is new and empty, and nothing new hangs inside the subtree of top. */
  ghost predicate CanCopy(source: Rows, rows: Rows, top: Id, parent: Id) {
    && ParentsExist(source) && Acyclic(source) && Extends(source, rows) && top in source
    && parent in rows && parent !in source && Children(rows, parent) == {} && NoIntruder(source, rows, top)
  }

  /** The state of the copying loop: before are the rows when it started. */
  ghost predicate Copying(source: Rows, before: Rows, rows: Rows, top: Id, parent: Id, done: set<Id>,
                          copy: map<Id, Id>, types: seq<EntityType>) {
    && Extends(before, rows) && HangBelow(before, rows, parent)
    && copy.Keys == KeptBelow(source, done, types)
    && FreshCopies(before, rows, copy)
    && Mirrors(source, rows, copy[top := parent], top)
  }

  /** The copy of a child is refused exactly when its name is global or an earlier child is its twin. */
  lemma RefusedIffTwin(source: Rows, before: Rows, rows: Rows, top: Id, parent: Id, done: set<Id>,
                       copy: map<Id, Id>, types: seq<EntityType>, child: Id)
    requires CanCopy(source, before, top, parent)
    requires Copying(source, before, rows, top, parent, done, copy, types)
    requires done <= Listed(source, Children(source, top), types) && child in Children(source, top) - done
    ensures CreateError(rows, CopyRequest(source, child, parent)).Some? <==>
            source[child].typ in {SYSTEM, POOL} ||
            exists d :: d in done && source[child].typ != DATACENTER && Twins(source, child, d)
  {
    var request := CopyRequest(source, child, parent);
    if source[child].typ != DATACENTER && !NameIsGlobal(source[child].typ) {
      if AlreadyTaken(rows, request, parent) {
        var x :| x in rows && rows[x].name == request.name && rows[x].typ == request.typ && rows[x].parent == Some(parent);
        assert x !in before by { assert x in before ==> x in Children(before, parent); }
        assert x in copy.Values;
        var z :| z in copy && copy[z] == x;
        TopNotBelowItself(source, top, types);
        assert z in KeptBelow(source, Children(source, top), types);
        assert source[z].parent == Some(top);
        KeptElsewhere(source, top, done, child, types, z);
        assert Twins(source, child, z);
      }
      forall d | d in done && Twins(source, child, d) ensures AlreadyTaken(rows, request, parent) {
        KeptByChildren(source, d, types);
        assert d in copy && d != top by { NotOwnParent(source, top); }
        assert d in copy[top := parent] && copy[top := parent][d] == copy[d];
        assert rows[copy[d]].parent == Some(parent);
      }
    } else if NameIsGlobal(source[child].typ) {
      assert child in rows && rows[child] == source[child];
    }
  }

  /** A refused child, or a conflict below a child, rules out the whole part. */
  lemma RefusedRulesOut(source: Rows, top: Id, listed: set<Id>, done: set<Id>, child: Id, types: seq<EntityType>)
    requires Acyclic(source) && listed <= Children(source, top) && done <= listed && child in listed
    requires source[child].typ in {SYSTEM, POOL}
             || (exists d :: d in done && source[child].typ != DATACENTER && Twins(source, child, d))
             || !Copyable(source, KeptBelow(source, Listed(source, Children(source, child), types), types))
    ensures !Copyable(source, KeptBelow(source, listed, types))
  {
    forall d | d in listed ensures d in KeptBelow(source, listed, types) {
      KeptByChildren(source, d, types);
    }
    KeptByChildren(source, child, types);
    if Copyable(source, KeptBelow(source, listed, types)) {
      CopyableMonotone(source, KeptBelow(source, Listed(source, Children(source, child), types), types),
                       KeptBelow(source, listed, types));
    }
  }

  /** Once the copy of a child exists, its own children can be read and copied the same way. */
  lemma ReadyForChild(source: Rows, before: Rows, state: Tables, e: Entity, top: Id, parent: Id, child: Id)
    requires CanCopy(source, before, top, parent) && Inv(state)
    requires Extends(before, state.rows) && HangBelow(before, state.rows, parent)
    requires child in Children(source, top) && (e.parent.None? || e.parent.value == parent)
    ensures var mid := AddLeaf(state, e).rows;
            CanCopy(source, mid, child, state.lastId + 1) && Children(mid, child) == Children(source, child)
    ensures Subtree(source, child) < Subtree(source, top)
  {
    var mid := AddLeaf(state, e).rows;
    FreshHasNoChildren(state, e);
    assert state.lastId + 1 !in state.rows;
    StillNoIntruder(source, before, mid, top, parent);
    ChildSubtree(source, top, child);
    ReachesUnfold(source, child, child);
    ChildrenUnchanged(source, mid, top, child);
  }

  function CopyRequest(source: Rows, child: Id, parent: Id): EntityRequest
    requires child in source
  {
    EntityRequest(source[child].name, source[child].typ, Some(parent), None)
  }

  /** A copied child together with the copies below it extends what was copied before. */
  lemma CopyOneMore(source: Rows, before: Rows, rows: Rows, mid: Rows, after: Rows, top: Id, parent: Id, done: set<Id>,
                    copy: map<Id, Id>, types: seq<EntityType>, child: Id, childCopy: Id, sub: map<Id, Id>)
    requires CanCopy(source, before, top, parent)
    requires Copying(source, before, rows, top, parent, done, copy, types)
    requires done <= Children(source, top) && child in Children(source, top) - done
    requires childCopy !in rows && mid == rows[childCopy := NewEntity(CopyRequest(source, child, parent))]
    requires Copying(source, mid, after, child, childCopy, Listed(source, Children(source, child), types), sub, types)
    ensures Copying(source, before, after, top, parent, done + {child}, copy + sub[child := childCopy], types)
  {
    var joined := copy + sub[child := childCopy];
    KeysJoin(source, top, done, child, types, copy, sub, childCopy);
    assert Extends(before, after) && HangBelow(before, after, parent) by {
      HangJoin(before, rows, mid, after, parent, childCopy);
    }
    assert FreshCopies(before, after, joined) by {
      FreshJoin(before, rows, mid, after, copy, child, childCopy, sub);
    }
    assert Mirrors(source, after, joined[top := parent], top) by {
      MirrorsJoin(source, rows, mid, after, top, parent, copy, child, childCopy, sub);
    }
  }

  lemma OneLess(all: set<Id>, pending: set<Id>, x: Id)
    requires x in pending && pending <= all
    ensures all - (pending - {x}) == (all - pending) + {x}
  {
  }

  lemma KeysJoin(source: Rows, top: Id, done: set<Id>, child: Id, types: seq<EntityType>,
                 copy: map<Id, Id>, sub: map<Id, Id>, childCopy: Id)
    requires Acyclic(source) && top in source && done <= Children(source, top) && child in Children(source, top) - done
    requires copy.Keys == KeptBelow(source, done, types)
    requires sub.Keys == KeptBelow(source, Listed(source, Children(source, child), types), types)
    ensures (copy + sub[child := childCopy]).Keys == KeptBelow(source, done + {child}, types)
    ensures child != top && child !in copy && child !in sub && copy.Keys !! sub.Keys && top !in copy && top !in sub
  {
    NotOwnParent(source, top);
    KeptByChildren(source, child, types);
    ChildSubtree(source, top, child);
    ReachesUnfold(source, child, child);
    TopNotBelowItself(source, top, types);
    forall x | x in sub ensures x in Subtree(source, child) && x != child {
      KeptInside(source, child, types, x);
    }
    forall x | x in copy ensures x !in Subtree(source, child) && x != top {
      KeptElsewhere(source, top, done, child, types, x);
      assert x in KeptBelow(source, Children(source, top), types);
    }
  }

  lemma HangJoin(before: Rows, rows: Rows, mid: Rows, after: Rows, parent: Id, childCopy: Id)
    requires Extends(before, rows) && HangBelow(before, rows, parent) && childCopy !in rows
    requires mid.Keys == rows.Keys + {childCopy} && Extends(rows, mid)
    requires mid[childCopy].parent.None? || mid[childCopy].parent.value == parent
    requires Extends(mid, after) && HangBelow(mid, after, childCopy)
    ensures Extends(before, after) && HangBelow(before, after, parent)
  {
  }

  lemma FreshJoin(before: Rows, rows: Rows, mid: Rows, after: Rows, copy: map<Id, Id>, child: Id, childCopy: Id, sub: map<Id, Id>)
    requires Extends(before, rows) && FreshCopies(before, rows, copy)
    requires childCopy !in rows && mid.Keys == rows.Keys + {childCopy} && FreshCopies(mid, after, sub)
    requires child !in copy && child !in sub && copy.Keys !! sub.Keys
    ensures FreshCopies(before, after, copy + sub[child := childCopy])
  {
    var one := map[child := childCopy];
    FreshOne(rows, mid, child, childCopy);
    FreshConcat(before, rows, mid, copy, one);
    FreshConcat(before, mid, after, copy + one, sub);
    MapOrder(copy, child, childCopy, sub);
  }

  lemma FreshOne(rows: Rows, mid: Rows, child: Id, childCopy: Id)
    requires childCopy !in rows && mid.Keys == rows.Keys + {childCopy}
    ensures FreshCopies(rows, mid, map[child := childCopy])
  {
    var one := map[child := childCopy];
    assert one[child] == childCopy && one.Values == {childCopy};
  }

  lemma MapOrder(copy: map<Id, Id>, child: Id, childCopy: Id, sub: map<Id, Id>)
    requires child !in sub
    ensures copy + map[child := childCopy] + sub == copy + sub[child := childCopy]
  {
  }

  lemma FreshConcat(before: Rows, mid: Rows, after: Rows, a: map<Id, Id>, b: map<Id, Id>)
    requires FreshCopies(before, mid, a) && FreshCopies(mid, after, b) && a.Keys !! b.Keys
    ensures FreshCopies(before, after, a + b)
  {
    JoinValues(a, b);
    var all := a + b;
    forall x | x in all ensures all[x] == (if x in b then b[x] else a[x])
                              && (x in b ==> all[x] !in mid) && (x !in b ==> all[x] in mid && all[x] !in before) {
      if x !in b { assert a[x] in a.Values; }
    }
    forall x, y | x in all && y in all && all[x] == all[y] ensures x == y {
      if x in b { assert y in b; } else { assert y !in b; }
    }
  }

  lemma JoinValues(a: map<Id, Id>, b: map<Id, Id>)
    requires a.Keys !! b.Keys
    ensures (a + b).Values == a.Values + b.Values
  {
    forall x | x in a ensures a[x] in (a + b).Values { assert (a + b)[x] == a[x]; }
    forall x | x in b ensures b[x] in (a + b).Values { assert (a + b)[x] == b[x]; }
  }

  lemma JoinEmpty(a: map<Id, Id>)
    ensures map[] + a == a
  {
  }

  lemma MirrorsJoin(source: Rows, rows: Rows, mid: Rows, after: Rows, top: Id, parent: Id,
                    copy: map<Id, Id>, child: Id, childCopy: Id, sub: map<Id, Id>)
    requires child in Children(source, top) && child != top && child !in copy && child !in sub
    requires childCopy !in rows && mid == rows[childCopy := NewEntity(CopyRequest(source, child, parent))]
    requires Extends(mid, after) && top !in copy
    requires Mirrors(source, rows, copy[top := parent], top) && Mirrors(source, after, sub[child := childCopy], child)
    requires copy.Keys !! sub.Keys && top !in sub
    ensures Mirrors(source, after, (copy + sub[child := childCopy])[top := parent], top)
  {
    var all := (copy + sub[child := childCopy])[top := parent];
    forall x | x in all && x != top
      ensures x in source && source[x].parent.Some? && source[x].parent.value in all && all[x] in after
      ensures after[all[x]] == Entity(source[x].name, source[x].typ, ACTIVE, None,
                if source[x].typ == DATACENTER then None else Some(all[source[x].parent.value]))
    {
      if x in copy {
        assert x in copy[top := parent] && all[x] == copy[x];
      } else if x in sub {
        assert x in sub[child := childCopy] && all[x] == sub[x];
      } else {
        assert x == child && after[childCopy] == mid[childCopy];
      }
    }
  }

  /** The root copied first, together with the copies of everything kept below it. */
  lemma CopyRoot(source: Rows, mid: Rows, after: Rows, top: Id, topCopy: Id, copy: map<Id, Id>, types: seq<EntityType>)
    requires Acyclic(source) && top in source && topCopy !in source
    requires mid.Keys == source.Keys + {topCopy} && Extends(source, mid)
    requires Copying(source, mid, after, top, topCopy, Listed(source, Children(source, top), types), copy, types)
    ensures copy[top := topCopy].Keys == Kept(source, top, types)
    ensures FreshCopies(source, after, copy[top := topCopy])
    ensures Mirrors(source, after, copy[top := topCopy], top)
  {
    TopNotBelowItself(source, top, types);
    assert copy[top := topCopy].Keys == Kept(source, top, types) by { KeptByChildren(source, top, types); }
    assert FreshCopies(source, after, copy[top := topCopy]) by {
      FreshJoin(source, source, mid, after, map[], top, topCopy, copy);
      JoinEmpty(copy[top := topCopy]);
    }
  }

  /** The part below the root is what is kept below its listed children. */
  lemma BelowRoot(rows: Rows, top: Id, types: seq<EntityType>)
    requires Acyclic(rows) && top in rows
    ensures Kept(rows, top, types) - {top} == KeptBelow(rows, Listed(rows, Children(rows, top), types), types)
  {
    KeptByChildren(rows, top, types);
    TopNotBelowItself(rows, top, types);
  }

  lemma DuplicateDone(t: Tables, sourceId: Id, name: string, serialNumber: Option<string>, types: seq<EntityType>, u: Tables,
                      copy: map<Id, Id>)
    requires CreatesLeadTo(t, u) && Extends(t.rows, u.rows) && sourceId in t.rows && RootFree(t.rows, sourceId, name)
    requires Completes(t.rows, sourceId, name, types) ==> IsCopy(t.rows, u.rows, sourceId, name, serialNumber, types, copy)
    ensures Duplicated(t, sourceId, name, serialNumber, types, u)
  {
  }

  /** The parent of the source lies outside the part that is read. */
  lemma ParentNotBelow(source: Rows, top: Id, x: Id)
    requires Acyclic(source) && top in source && x in Subtree(source, top)
    ensures source[top].parent != Some(x)
  {
    NotOwnParent(source, top);
    if source[top].parent == Some(x) {
      ReachesUnfold(source, x, top);
      ReachesUnfold(source, x, x);
      ReachesAntisymmetric(source, x, top);
    }
  }

  /** The new root is empty and nothing hangs inside the part of the source still to be read. */
  lemma RootReady(t: Tables, sourceId: Id, e: Entity)
    requires Inv(t) && sourceId in t.rows && (e.parent.None? || e.parent == t.rows[sourceId].parent)
    ensures CanCopy(t.rows, AddLeaf(t, e).rows, sourceId, t.lastId + 1)
  {
    FreshHasNoChildren(t, e);
    assert t.lastId + 1 !in t.rows;
    forall x | x in Subtree(t.rows, sourceId) ensures t.rows[sourceId].parent != Some(x) {
      ParentNotBelow(t.rows, sourceId, x);
    }
  }
}
