/** The closure table storage_entities_closure and the SQL statements that maintain it, each a
    function on the set of (id_ancestor, id_descendant) pairs, proved against reachability. */
module ClosureTable {
  import opened Wrappers
  import opened Forest

  type Pairs = set<(Id, Id)>

  /** The table holds exactly the (ancestor, descendant) pairs of the forest. */
  ghost predicate IsClosure(rows: Rows, pairs: Pairs) {
    forall a, d :: (a, d) in pairs <==> Reaches(rows, a, d)
  }

  // ---------- the statements ----------

  /** The subquery that collects what lies below id, id itself included. */
  function DescendantsOf(pairs: Pairs, id: Id): set<Id> {
    set x | x in pairs && x.0 == id :: x.1
  }

  /** The subquery that collects what lies strictly above id. */
  function ProperAncestorsOf(pairs: Pairs, id: Id): set<Id> {
    set x | x in pairs && x.1 == id && x.0 != x.1 :: x.0
  }

  /** The cross join of the ancestors of parent with the descendants of child. */
  function CrossJoin(pairs: Pairs, parent: Option<Id>, child: Id): Pairs {
    set p, c | p in pairs && c in pairs && Some(p.1) == parent && c.0 == child :: (p.0, c.1)
  }

  /** INSERT under PRIMARY KEY(id_ancestor, id_descendant): one duplicate row and nothing is inserted. */
  function Insert(pairs: Pairs, added: Pairs): Option<Pairs> {
    if pairs !! added then Some(pairs + added) else None
  }

  /** First query of a move: cut the subtree of id off everything above it. */
  function CutSubtree(pairs: Pairs, id: Id): Pairs {
    var subtree, above := DescendantsOf(pairs, id), ProperAncestorsOf(pairs, id);
    set x | x in pairs && !(x.1 in subtree && x.0 in above)
  }

  /** The query of a delete: drop every pair that ends in the subtree of id. */
  function DropSubtree(pairs: Pairs, id: Id): Pairs {
    var subtree := DescendantsOf(pairs, id);
    set x | x in pairs && x.1 !in subtree
  }

  // ---------- adding a leaf ----------

  /** The two inserts of add_storage_entity, run in order, never violate the primary key and turn the
      closure of the forest into the closure of the forest with the new leaf. */
  lemma AddLeafClosure(rows: Rows, pairs: Pairs, c: Id, e: Entity)
    requires ParentsExist(rows) && LinksInto(rows, c, e) && IsClosure(rows, pairs)
    ensures var own := Insert(pairs, {(c, c)});
            own.Some? &&
            var both := Insert(own.value, CrossJoin(own.value, e.parent, c));
            both.Some? && IsClosure(rows[c := e], both.value)
  {
    forall a, d | (a, d) in pairs ensures a != c && d != c {
      ReachesExists(rows, a, d);
    }
    var own := pairs + {(c, c)};
    var joined := CrossJoin(own, e.parent, c);
    forall a, d ensures (a, d) in joined <==> d == c && e.parent.Some? && (a, e.parent.value) in pairs {
      if d == c && e.parent.Some? && (a, e.parent.value) in pairs {
        assert (a, e.parent.value) in own && (c, c) in own;
      }
    }
    forall a, d ensures (a, d) in own + joined <==> Reaches(rows[c := e], a, d) {
      ReachesAfterAdd(rows, c, e, a, d);
      if Reaches(rows, a, d) { ReachesExists(rows, a, d); }
    }
  }

  // ---------- moving a subtree ----------

  /** What is left after the first query of a move: a pair survives unless it ran from strictly above id into its subtree. */
  lemma CutSubtreePairs(rows: Rows, pairs: Pairs, id: Id, a: Id, d: Id)
    requires Acyclic(rows) && IsClosure(rows, pairs)
    ensures (a, d) in CutSubtree(pairs, id) <==>
            Reaches(rows, a, d) && (Reaches(rows, id, d) ==> Reaches(rows, id, a))
  {
    assert d in DescendantsOf(pairs, id) <==> (id, d) in pairs;
    assert a in ProperAncestorsOf(pairs, id) <==> (a, id) in pairs && a != id;
    if Reaches(rows, a, d) && Reaches(rows, id, d) {
      AncestorsFormChain(rows, a, id, d);
      if Reaches(rows, id, a) && Reaches(rows, a, id) { ReachesAntisymmetric(rows, id, a); }
      ReachesUnfold(rows, id, id);
      ReachesExists(rows, id, d);
    }
  }

  /** The rows the second query of a move selects, read on the table the first query left. */
  lemma GraftPairs(rows: Rows, pairs: Pairs, id: Id, p: Id, a: Id, d: Id)
    requires Acyclic(rows) && IsClosure(rows, pairs)
    ensures (a, d) in CrossJoin(CutSubtree(pairs, id), Some(p), id) <==>
            Reaches(rows, a, p) && Reaches(rows, id, d) && (Reaches(rows, id, p) ==> Reaches(rows, id, a))
  {
    var cut := CutSubtree(pairs, id);
    CutSubtreePairs(rows, pairs, id, a, p);
    CutSubtreePairs(rows, pairs, id, id, d);
    if Reaches(rows, id, d) {
      ReachesExists(rows, id, d);
      ReachesUnfold(rows, id, id);
    }
    assert (a, d) in CrossJoin(cut, Some(p), id) <==> (a, p) in cut && (id, d) in cut;
  }

  /** With the new parent outside the moved subtree, the two queries of a move turn the closure of the
      old forest into the closure of the re-parented one, and the insert never meets a surviving row. */
  lemma MoveClosure(rows: Rows, pairs: Pairs, id: Id, p: Id)
    requires Acyclic(rows) && IsClosure(rows, pairs)
    requires id in rows && p in rows && !Reaches(rows, id, p)
    ensures var cut := CutSubtree(pairs, id);
            var grafted := Insert(cut, CrossJoin(cut, Some(p), id));
            grafted.Some? && IsClosure(SetParent(rows, id, p), grafted.value)
  {
    var cut := CutSubtree(pairs, id);
    var graft := CrossJoin(cut, Some(p), id);
    forall a, d ensures !((a, d) in cut && (a, d) in graft)
      ensures (a, d) in cut + graft <==> Reaches(SetParent(rows, id, p), a, d)
    {
      CutSubtreePairs(rows, pairs, id, a, d);
      GraftPairs(rows, pairs, id, p, a, d);
      ReachesAfterMove(rows, id, p, a, d);
      if Reaches(rows, id, a) && Reaches(rows, a, p) { ReachesTransitive(rows, id, a, p); }
    }
  }

  /** The insert of a move violates the primary key exactly when the new parent lies inside the moved subtree. */
  lemma MoveCollidesIff(rows: Rows, pairs: Pairs, id: Id, p: Id)
    requires Acyclic(rows) && IsClosure(rows, pairs) && id in rows && p in rows
    ensures var cut := CutSubtree(pairs, id);
            Insert(cut, CrossJoin(cut, Some(p), id)).None? <==> (id, p) in pairs
  {
    if Reaches(rows, id, p) {
      CutSubtreePairs(rows, pairs, id, id, id);
      GraftPairs(rows, pairs, id, p, id, id);
      ReachesUnfold(rows, id, id);
    } else {
      MoveClosure(rows, pairs, id, p);
    }
  }

  /** A move touches no pair outside (old proper ancestors + new ancestors) x subtree. */
  lemma MoveFrame(rows: Rows, pairs: Pairs, id: Id, p: Id, a: Id, d: Id)
    requires Acyclic(rows) && IsClosure(rows, pairs)
    requires !((a in ProperAncestorsOf(pairs, id) || (a, p) in pairs) && (id, d) in pairs)
    ensures var cut := CutSubtree(pairs, id);
            (a, d) in cut + CrossJoin(cut, Some(p), id) <==> (a, d) in pairs
  {
    CutSubtreePairs(rows, pairs, id, a, d);
    GraftPairs(rows, pairs, id, p, a, d);
    if Reaches(rows, a, d) && Reaches(rows, id, d) {
      AncestorsFormChain(rows, a, id, d);
      ReachesExists(rows, id, d);
      ReachesUnfold(rows, id, id);
      assert a in ProperAncestorsOf(pairs, id) <==> (a, id) in pairs && a != id;
    }
  }

  // ---------- deleting a leaf and a subtree ----------

  lemma SubtreeParents(rows: Rows, id: Id)
    requires ParentsExist(rows)
    ensures ParentsExist(rows - Subtree(rows, id))
  {
    forall d | d in rows && d !in Subtree(rows, id) && rows[d].parent.Some?
      ensures rows[d].parent.value !in Subtree(rows, id)
    {
      ReachesUnfold(rows, id, d);
    }
  }

  /** The query of a delete removes exactly the pairs with an end in the subtree, and what is left is
      the closure of the forest without it. */
  lemma DropSubtreeClosure(rows: Rows, pairs: Pairs, id: Id)
    requires ParentsExist(rows) && Acyclic(rows) && IsClosure(rows, pairs)
    ensures DescendantsOf(pairs, id) == Subtree(rows, id)
    ensures IsClosure(rows - Subtree(rows, id), DropSubtree(pairs, id))
    ensures forall a, d :: (a, d) in DropSubtree(pairs, id) <==>
              (a, d) in pairs && a !in Subtree(rows, id) && d !in Subtree(rows, id)
  {
    forall d ensures d in DescendantsOf(pairs, id) <==> d in Subtree(rows, id) {
      assert d in DescendantsOf(pairs, id) <==> (id, d) in pairs;
      if Reaches(rows, id, d) { ReachesExists(rows, id, d); }
    }
    SubtreeParents(rows, id);
    RemoveKeepsForest(rows, Subtree(rows, id));
    forall a, d | (a, d) in pairs && a in Subtree(rows, id) ensures d in Subtree(rows, id) {
      ReachesTransitive(rows, id, a, d);
      ReachesExists(rows, a, d);
    }
  }
}
