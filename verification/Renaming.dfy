/** In-place renumbering by a series of update statements, each turning one old id into one new id, one per row of
    an old table, against the renaming all of them together are meant to be. */
module Renaming {
  datatype Rename = Rename(oldId: int, newId: int)

  /** What the statements, run in order, make of one id. */
  function Updated(v: int, renames: seq<Rename>): int {
    if renames == [] then v
    else
      var before := Updated(v, renames[..|renames| - 1]);
      var last := renames[|renames| - 1];
      if before == last.oldId then last.newId else before
  }

  /** How many of the statements rewrite it. */
  function Rewrites(v: int, renames: seq<Rename>): nat {
    if renames == [] then 0
    else
      Rewrites(v, renames[..|renames| - 1]) +
      if Updated(v, renames[..|renames| - 1]) == renames[|renames| - 1].oldId then 1 else 0
  }

  /** All renamings at once: the new id of the entity whose old id is v, or v when there is none. */
  function Renamed(v: int, renames: seq<Rename>): int {
    if renames == [] then v
    else if renames[|renames| - 1].oldId == v then renames[|renames| - 1].newId
    else Renamed(v, renames[..|renames| - 1])
  }

  /** Old ids name one row each, and the new ids come from an increasing sequence. */
  ghost predicate FromSequence(renames: seq<Rename>) {
    && (forall i, j | 0 <= i < j < |renames| :: renames[i].oldId != renames[j].oldId)
    && (forall i, j | 0 <= i < j < |renames| :: renames[i].newId < renames[j].newId)
  }

  /** No statement looks for an id that an earlier one has handed out. */
  predicate NoOverlap(renames: seq<Rename>) {
    forall i, j | 0 <= i < j < |renames| :: renames[j].oldId != renames[i].newId
  }

  lemma PrefixFromSequence(renames: seq<Rename>, k: nat)
    requires FromSequence(renames) && k <= |renames|
    ensures FromSequence(renames[..k]) && (NoOverlap(renames) ==> NoOverlap(renames[..k]))
  {
  }

  /** Some entity had the old id v. */
  predicate HasOld(v: int, renames: seq<Rename>) {
    renames != [] && (renames[|renames| - 1].oldId == v || HasOld(v, renames[..|renames| - 1]))
  }

  lemma {:induction false} HasOldAt(v: int, renames: seq<Rename>) returns (i: nat)
    requires HasOld(v, renames)
    ensures i < |renames| && renames[i] == Rename(v, Renamed(v, renames))
  {
    i := |renames| - 1;
    if renames[i].oldId != v {
      i := HasOldAt(v, renames[..|renames| - 1]);
    }
  }

  lemma {:induction false} HasOldIff(v: int, renames: seq<Rename>, i: nat)
    requires i < |renames| && renames[i].oldId == v
    ensures HasOld(v, renames)
    decreases |renames|
  {
    if i < |renames| - 1 { HasOldIff(v, renames[..|renames| - 1], i); }
  }

  lemma {:induction false} NoOldNoRename(v: int, renames: seq<Rename>)
    requires !HasOld(v, renames)
    ensures Renamed(v, renames) == v
  {
    if renames != [] { NoOldNoRename(v, renames[..|renames| - 1]); }
  }

  /** With distinct old ids it finds the one entry there is. */
  lemma {:induction false} RenamedIs(renames: seq<Rename>, i: nat)
    requires FromSequence(renames) && i < |renames|
    ensures Renamed(renames[i].oldId, renames) == renames[i].newId
    decreases |renames|
  {
    if i < |renames| - 1 {
      PrefixFromSequence(renames, |renames| - 1);
      RenamedIs(renames[..|renames| - 1], i);
    }
  }

  /** Without overlap the statements together rename every id once, and only ids that had an entity. */
  lemma {:induction false} NoOverlapRenames(v: int, renames: seq<Rename>)
    requires FromSequence(renames) && NoOverlap(renames)
    ensures Updated(v, renames) == Renamed(v, renames)
    ensures Rewrites(v, renames) == if HasOld(v, renames) then 1 else 0
  {
    if renames != [] {
      var init, last := renames[..|renames| - 1], renames[|renames| - 1];
      PrefixFromSequence(renames, |renames| - 1);
      NoOverlapRenames(v, init);
      if HasOld(v, init) {
        var i := HasOldAt(v, init);
        assert init[i] == renames[i] && renames[i].newId != last.oldId && renames[i].oldId != last.oldId;
      } else {
        NoOldNoRename(v, init);
      }
    }
  }

  /** Ids above a bound stay above it under renamings above it. */
  lemma {:induction false} StaysAbove(v: int, renames: seq<Rename>, k: nat, bound: int)
    requires k <= |renames| && Updated(v, renames[..k]) > bound
    requires forall i | k <= i < |renames| :: renames[i].newId > bound
    ensures Updated(v, renames) > bound
    decreases |renames| - k
  {
    if k < |renames| {
      assert renames[..k + 1][..k] == renames[..k];
      StaysAbove(v, renames, k + 1, bound);
    } else {
      assert renames[..k] == renames;
    }
  }

  lemma {:induction false} Untouched(renames: seq<Rename>, i: nat, k: nat)
    requires FromSequence(renames) && k <= i < |renames|
    ensures Updated(renames[i].oldId, renames[..k]) == renames[i].oldId
    decreases k
  {
    if k > 0 {
      assert renames[..k][..k - 1] == renames[..k - 1];
      Untouched(renames, i, k - 1);
    }
  }

  /** Running the statements one by one equals renaming everything at once, for every id, if and only if no
      later old id equals an earlier new id. */
  lemma SequentialIsSimultaneousIff(renames: seq<Rename>)
    requires FromSequence(renames)
    ensures (forall v :: Updated(v, renames) == Renamed(v, renames)) <==> NoOverlap(renames)
  {
    if NoOverlap(renames) {
      forall v ensures Updated(v, renames) == Renamed(v, renames) {
        NoOverlapRenames(v, renames);
      }
    } else {
      var i, j :| 0 <= i < j < |renames| && renames[j].oldId == renames[i].newId;
      HandedOn(renames, i, j);
      StaysAbove(renames[i].oldId, renames, j + 1, renames[i].newId);
      RenamedIs(renames, i);
    }
  }

  /** Entity i loses its new id to the statement that looks for it. */
  lemma HandedOn(renames: seq<Rename>, i: nat, j: nat)
    requires FromSequence(renames) && i < j < |renames| && renames[j].oldId == renames[i].newId
    ensures Updated(renames[i].oldId, renames[..j + 1]) == renames[j].newId
  {
    assert renames[..j + 1][..j] == renames[..j];
    HeldUntil(renames, i, j, j);
  }

  lemma {:induction false} HeldUntil(renames: seq<Rename>, i: nat, j: nat, k: nat)
    requires FromSequence(renames) && i < k <= j < |renames| && renames[j].oldId == renames[i].newId
    ensures Updated(renames[i].oldId, renames[..k]) == renames[i].newId
    decreases k
  {
    assert renames[..k][..k - 1] == renames[..k - 1];
    if k == i + 1 {
      Untouched(renames, i, i);
    } else {
      HeldUntil(renames, i, j, k - 1);
    }
  }

  /** The migration's situation: every old id at most 1000 and every new id above it. */
  lemma OldBelowNew(renames: seq<Rename>, bound: int)
    requires forall r | r in renames :: r.oldId <= bound < r.newId
    ensures NoOverlap(renames)
  {
  }
}
