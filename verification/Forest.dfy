/** Storage entities, the forest they form through their parent links, and reachability in it.
    Everything here is about parent links alone; the closure table comes in ClosureTable.dfy. */
module Forest {
  import opened Wrappers

  type Id = int

  datatype EntityType =
    | DATACENTER | SYSTEM | POOL | ADAPTER_GROUP | PORT_GROUP | HOST_GROUP
    | PARITY_GROUP | PORT | CHANNEL_BOARD | DKC | CONTROLLER

  datatype Status = ACTIVE | INACTIVE

  datatype Entity = Entity(
    name: string, typ: EntityType, status: Status, serialNumber: Option<string>, parent: Option<Id>)

  type Rows = map<Id, Entity>

  /** The entity n parent links above d. */
  ghost function Up(rows: Rows, d: Id, n: nat): Option<Id>
    decreases n
  {
    if d !in rows then None
    else if n == 0 then Some(d)
    else if rows[d].parent.None? then None
    else Up(rows, rows[d].parent.value, n - 1)
  }

  /** a is reached from d by zero or more parent links. */
  ghost predicate Reaches(rows: Rows, a: Id, d: Id) {
    exists n: nat :: Up(rows, d, n) == Some(a)
  }

  ghost predicate ParentsExist(rows: Rows) {
    forall d | d in rows && rows[d].parent.Some? :: rows[d].parent.value in rows
  }

  ghost predicate Acyclic(rows: Rows) {
    forall d, n: nat | n > 0 :: Up(rows, d, n) != Some(d)
  }

  /** The entity id together with everything below it. */
  ghost function Subtree(rows: Rows, id: Id): set<Id> {
    set d | d in rows && Reaches(rows, id, d)
  }

  function Children(rows: Rows, id: Id): set<Id> {
    set d | d in rows && rows[d].parent == Some(id)
  }

  /** Every row of before is still there, unchanged. */
  ghost predicate Extends(before: Rows, after: Rows) {
    forall x | x in before :: x in after && after[x] == before[x]
  }

  // ---------- paths ----------

  lemma SomeMember(s: set<Id>)
    ensures s == {} || exists x :: x in s
  {
    if forall x :: x !in s { assert s == {}; }
  }

  lemma {:induction false} UpAdd(rows: Rows, d: Id, n: nat, b: Id, m: nat)
    requires Up(rows, d, n) == Some(b)
    ensures Up(rows, d, n + m) == Up(rows, b, m)
    decreases n
  {
    if n > 0 {
      UpAdd(rows, rows[d].parent.value, n - 1, b, m);
    }
  }

  lemma {:induction false} UpExists(rows: Rows, d: Id, n: nat)
    ensures Up(rows, d, n).Some? ==> d in rows && Up(rows, d, n).value in rows
    decreases n
  {
    if n > 0 && d in rows && rows[d].parent.Some? {
      UpExists(rows, rows[d].parent.value, n - 1);
    }
  }

  /** Reachability unfolds along the parent link of the lower end. */
  lemma ReachesUnfold(rows: Rows, a: Id, d: Id)
    ensures Reaches(rows, a, d) <==>
            d in rows && (a == d || (rows[d].parent.Some? && Reaches(rows, a, rows[d].parent.value)))
  {
    if Reaches(rows, a, d) {
      var n: nat :| Up(rows, d, n) == Some(a);
      if n > 0 {
        assert Up(rows, rows[d].parent.value, n - 1) == Some(a);
      }
    }
    if d in rows && a == d {
      assert Up(rows, d, 0) == Some(a);
    }
    if d in rows && rows[d].parent.Some? && Reaches(rows, a, rows[d].parent.value) {
      var n: nat :| Up(rows, rows[d].parent.value, n) == Some(a);
      assert Up(rows, d, n + 1) == Some(a);
    }
  }

  lemma ReachesTransitive(rows: Rows, a: Id, b: Id, c: Id)
    requires Reaches(rows, a, b) && Reaches(rows, b, c)
    ensures Reaches(rows, a, c)
  {
    var n: nat :| Up(rows, c, n) == Some(b);
    var m: nat :| Up(rows, b, m) == Some(a);
    UpAdd(rows, c, n, b, m);
  }

  lemma ReachesAntisymmetric(rows: Rows, a: Id, b: Id)
    requires Acyclic(rows) && Reaches(rows, a, b) && Reaches(rows, b, a)
    ensures a == b
  {
    var n: nat :| Up(rows, b, n) == Some(a);
    var m: nat :| Up(rows, a, m) == Some(b);
    UpAdd(rows, b, n, a, m);
    assert Up(rows, b, n + m) == Some(b);
  }

  lemma NotAboveItself(rows: Rows, id: Id, n: nat)
    requires Acyclic(rows) && n > 0
    ensures Up(rows, id, n) != Some(id)
  {
  }

  lemma NotOwnParent(rows: Rows, id: Id)
    requires Acyclic(rows) && id in rows
    ensures rows[id].parent != Some(id)
  {
    assert Up(rows, id, 0) == Some(id);
    NotAboveItself(rows, id, 1);
  }

  lemma ReachesExists(rows: Rows, a: Id, d: Id)
    requires Reaches(rows, a, d)
    ensures a in rows && d in rows
  {
    var n: nat :| Up(rows, d, n) == Some(a);
    UpExists(rows, d, n);
  }

  /** The ancestors of one entity form a chain. */
  lemma AncestorsFormChain(rows: Rows, a: Id, b: Id, d: Id)
    requires Reaches(rows, a, d) && Reaches(rows, b, d)
    ensures Reaches(rows, a, b) || Reaches(rows, b, a)
  {
    var n: nat :| Up(rows, d, n) == Some(a);
    var m: nat :| Up(rows, d, m) == Some(b);
    if n <= m {
      UpAdd(rows, d, n, a, m - n);
    } else {
      UpAdd(rows, d, m, b, n - m);
    }
  }

  // ---------- subtrees ----------

  lemma ChildSubtree(rows: Rows, id: Id, c: Id)
    requires Acyclic(rows) && id in rows && c in Children(rows, id)
    ensures Subtree(rows, c) < Subtree(rows, id)
    ensures id !in Subtree(rows, c)
  {
    ReachesUnfold(rows, id, c);
    ReachesUnfold(rows, id, id);
    forall x | x in Subtree(rows, c) ensures x in Subtree(rows, id) {
      ReachesTransitive(rows, id, c, x);
    }
    if id in Subtree(rows, c) {
      NotOwnParent(rows, id);
      ReachesAntisymmetric(rows, id, c);
    }
    assert id in Subtree(rows, id);
  }

  /** Below id lie exactly id itself and the subtrees of its children. */
  lemma {:induction false} SubtreeByChildren(rows: Rows, id: Id, x: Id)
    requires id in rows
    ensures x in Subtree(rows, id) <==> x == id || exists c :: c in Children(rows, id) && x in Subtree(rows, c)
  {
    ReachesUnfold(rows, id, id);
    if x in Subtree(rows, id) && x != id {
      var n: nat :| Up(rows, x, n) == Some(id);
      UpAdd(rows, x, 0, x, 0);
      var c := StepBelow(rows, id, x, n);
      assert c in Children(rows, id);
    }
    forall c | c in Children(rows, id) && x in Subtree(rows, c) ensures x in Subtree(rows, id) {
      ReachesUnfold(rows, id, c);
      ReachesTransitive(rows, id, c, x);
    }
  }

  lemma {:induction false} StepBelow(rows: Rows, id: Id, x: Id, n: nat) returns (c: Id)
    requires Up(rows, x, n) == Some(id) && x != id
    ensures c in Children(rows, id) && Reaches(rows, c, x)
    decreases n
  {
    if rows[x].parent.value == id {
      c := x;
      ReachesUnfold(rows, x, x);
    } else {
      c := StepBelow(rows, id, rows[x].parent.value, n - 1);
      ReachesUnfold(rows, c, x);
    }
  }

  /** Subtrees of different children do not meet. */
  lemma SiblingSubtreesDisjoint(rows: Rows, id: Id, b: Id, c: Id)
    requires Acyclic(rows) && b in Children(rows, id) && c in Children(rows, id) && b != c
    ensures Subtree(rows, b) !! Subtree(rows, c)
  {
    forall x | x in Subtree(rows, b) && x in Subtree(rows, c) ensures false {
      AncestorsFormChain(rows, b, c, x);
      var hi, lo := if Reaches(rows, b, c) then b else c, if Reaches(rows, b, c) then c else b;
      ReachesUnfold(rows, hi, lo);
      assert Reaches(rows, hi, id);
      ReachesUnfold(rows, id, hi);
      ReachesUnfold(rows, id, id);
      ReachesExists(rows, hi, id);
      assert Reaches(rows, id, hi);
      NotOwnParent(rows, id);
      ReachesAntisymmetric(rows, hi, id);
    }
  }

  // ---------- the three ways the forest changes ----------

  /** A new leaf leaves every old path as it was. */
  lemma {:induction false} UpAfterAdd(rows: Rows, c: Id, e: Entity, d: Id, n: nat)
    requires ParentsExist(rows) && c !in rows && d in rows
    ensures Up(rows[c := e], d, n) == Up(rows, d, n)
    decreases n
  {
    if n > 0 && rows[d].parent.Some? {
      UpAfterAdd(rows, c, e, rows[d].parent.value, n - 1);
    }
  }

  ghost predicate LinksInto(rows: Rows, c: Id, e: Entity) {
    c !in rows && (e.parent.Some? ==> e.parent.value in rows)
  }

  lemma ReachesAfterAdd(rows: Rows, c: Id, e: Entity, a: Id, d: Id)
    requires ParentsExist(rows) && LinksInto(rows, c, e)
    ensures Reaches(rows[c := e], a, d) <==>
            (if d == c then a == c || (e.parent.Some? && Reaches(rows, a, e.parent.value))
             else Reaches(rows, a, d))
  {
    var after := rows[c := e];
    forall x, n: nat | x in rows ensures Up(after, x, n) == Up(rows, x, n) {
      UpAfterAdd(rows, c, e, x, n);
    }
    ReachesUnfold(after, a, d);
    if d in rows {
      assert Reaches(after, a, d) <==> Reaches(rows, a, d);
    } else if d == c && e.parent.Some? {
      var p := e.parent.value;
      assert Reaches(after, a, p) <==> Reaches(rows, a, p);
    } else {
      ReachesUnfold(rows, a, d);
    }
  }

  lemma AddKeepsForest(rows: Rows, c: Id, e: Entity)
    requires ParentsExist(rows) && Acyclic(rows) && LinksInto(rows, c, e)
    ensures ParentsExist(rows[c := e]) && Acyclic(rows[c := e])
  {
    var after := rows[c := e];
    forall d, n: nat | n > 0 && Up(after, d, n) == Some(d) ensures false {
      if d == c {
        var p := e.parent.value;
        UpAfterAdd(rows, c, e, p, n - 1);
        UpExists(rows, p, n - 1);
      } else {
        UpAfterAdd(rows, c, e, d, n);
      }
    }
  }

  function SetParent(rows: Rows, id: Id, p: Id): Rows
    requires id in rows
  {
    rows[id := rows[id].(parent := Some(p))]
  }

  lemma {:induction false} UpOutsideMoved(rows: Rows, id: Id, p: Id, d: Id, n: nat)
    requires id in rows && !Reaches(rows, id, d)
    ensures Up(SetParent(rows, id, p), d, n) == Up(rows, d, n)
    decreases n
  {
    ReachesUnfold(rows, id, d);
    if n > 0 && d in rows && rows[d].parent.Some? {
      UpOutsideMoved(rows, id, p, rows[d].parent.value, n - 1);
    }
  }

  /** Inside the moved subtree a path climbs to id as before and goes on above the new parent. */
  lemma {:induction false} UpInsideMoved(rows: Rows, id: Id, p: Id, d: Id, k: nat, n: nat)
    requires Acyclic(rows) && Up(rows, d, k) == Some(id) && id in rows && !Reaches(rows, id, p)
    ensures Up(SetParent(rows, id, p), d, n) == if n <= k then Up(rows, d, n) else Up(rows, p, n - k - 1)
    decreases k
  {
    if k == 0 {
      if n > 0 {
        UpOutsideMoved(rows, id, p, p, n - 1);
      }
    } else if n > 0 {
      assert d != id;
      UpInsideMoved(rows, id, p, rows[d].parent.value, k - 1, n - 1);
    }
  }

  /** Reachability after re-parenting id below p, where p lies outside the subtree of id. */
  lemma ReachesAfterMove(rows: Rows, id: Id, p: Id, a: Id, d: Id)
    requires Acyclic(rows) && id in rows && !Reaches(rows, id, p)
    ensures Reaches(SetParent(rows, id, p), a, d) <==>
            (if Reaches(rows, id, d) then (Reaches(rows, id, a) && Reaches(rows, a, d)) || Reaches(rows, a, p)
             else Reaches(rows, a, d))
  {
    var after := SetParent(rows, id, p);
    if Reaches(rows, id, d) {
      var k: nat :| Up(rows, d, k) == Some(id);
      forall n: nat ensures Up(after, d, n) == if n <= k then Up(rows, d, n) else Up(rows, p, n - k - 1) {
        UpInsideMoved(rows, id, p, d, k, n);
      }
      if Reaches(after, a, d) {
        var n: nat :| Up(after, d, n) == Some(a);
        if n <= k {
          UpAdd(rows, d, n, a, k - n);
        }
      }
      if Reaches(rows, id, a) && Reaches(rows, a, d) {
        var n: nat :| Up(rows, d, n) == Some(a);
        if n > k {
          UpAdd(rows, d, k, id, n - k);
          NotAboveItself(rows, id, n - k);
          ReachesAntisymmetric(rows, id, a);
        }
        assert Up(after, d, n) == Some(a);
      }
      if Reaches(rows, a, p) {
        var n: nat :| Up(rows, p, n) == Some(a);
        assert Up(after, d, n + k + 1) == Some(a);
      }
    } else {
      forall n: nat ensures Up(after, d, n) == Up(rows, d, n) {
        UpOutsideMoved(rows, id, p, d, n);
      }
    }
  }

  /** Re-parenting keeps the forest acyclic exactly when the new parent is outside the moved subtree. */
  lemma MoveAcyclicIff(rows: Rows, id: Id, p: Id)
    requires Acyclic(rows) && id in rows && p in rows
    ensures Acyclic(SetParent(rows, id, p)) <==> !Reaches(rows, id, p)
  {
    var after := SetParent(rows, id, p);
    if Reaches(rows, id, p) {
      var k: nat :| Up(rows, p, k) == Some(id);
      CycleAfterBadMove(rows, id, p, p, k);
      assert Up(after, id, k + 1) == Some(id);
    } else {
      forall d, n: nat | n > 0 && Up(after, d, n) == Some(d) ensures false {
        if Reaches(rows, id, d) {
          var k: nat :| Up(rows, d, k) == Some(id);
          UpInsideMoved(rows, id, p, d, k, n);
          assert Up(rows, p, n - k - 1) == Some(d);
          ReachesTransitive(rows, id, d, p);
        } else {
          UpOutsideMoved(rows, id, p, d, n);
        }
      }
    }
  }

  lemma {:induction false} CycleAfterBadMove(rows: Rows, id: Id, p: Id, d: Id, k: nat)
    requires Acyclic(rows) && id in rows && Up(rows, d, k) == Some(id)
    ensures Up(SetParent(rows, id, p), d, k) == Some(id)
    decreases k
  {
    if k > 0 {
      assert d != id;
      CycleAfterBadMove(rows, id, p, rows[d].parent.value, k - 1);
    }
  }

  /** Removing a set of entities that is closed downwards leaves every other path as it was. */
  lemma {:induction false} UpAfterRemove(rows: Rows, gone: set<Id>, d: Id, n: nat)
    requires ParentsExist(rows - gone) && d !in gone
    ensures Up(rows - gone, d, n) == Up(rows, d, n)
    decreases n
  {
    if n > 0 && d in rows && rows[d].parent.Some? {
      assert (rows - gone)[d] == rows[d];
      UpAfterRemove(rows, gone, rows[d].parent.value, n - 1);
    }
  }

  lemma RemoveKeepsForest(rows: Rows, gone: set<Id>)
    requires Acyclic(rows) && ParentsExist(rows - gone)
    ensures Acyclic(rows - gone)
    ensures forall a, d :: Reaches(rows - gone, a, d) <==> d !in gone && Reaches(rows, a, d)
  {
    forall d, n: nat ensures Up(rows - gone, d, n) == if d in gone then None else Up(rows, d, n) {
      if d !in gone {
        UpAfterRemove(rows, gone, d, n);
      }
    }
    forall a, d ensures Reaches(rows - gone, a, d) <==> d !in gone && Reaches(rows, a, d) {
      if d !in gone && Reaches(rows, a, d) {
        var n: nat :| Up(rows, d, n) == Some(a);
        assert Up(rows - gone, d, n) == Some(a);
      }
    }
  }
}
