/** The sort as it runs: entity objects whose children lists are rewritten level by level. */
module HierarchicalSort {
  import opened Wrappers
  import opened Sorting
  import opened SortKeys
  import opened TreeSort
  import opened SortMeaning

  class StorageEntity {
    const info: Label
    var children: seq<StorageEntity>
    ghost const repr: set<StorageEntity>  // this entity and everything below it
    ghost var tree: Tree                  // this entity and everything below it, as a value

    ghost predicate Valid()
      reads this, repr
      decreases repr
    {
      && this in repr && Apart(children)
      && (forall c | c in children :: c in repr && c.repr < repr && this !in c.repr && c.Valid())
      && tree == Node(info, TreesOf(children))
    }

    /** getMetricValueFromParent, down the first children. */
    function ValueUnder(orderBy: OrderBy): (v: Option<Value>)
      requires Valid()
      reads this, repr
      decreases repr
      ensures v == ValueFromParent(tree, orderBy)
    {
      if children != [] then
        assert children[0] in children;
        children[0].ValueUnder(orderBy)
      else if info.metrics != [] then GetMetricValue(info, orderBy)
      else None
    }
  }

  /** No entity occurs twice and no two share a part. */
  ghost predicate Apart(es: seq<StorageEntity>) {
    && (forall c | c in es :: multiset(es)[c] == 1)
    && (forall c, d | c in es && d in es && c != d :: c.repr !! d.repr)
  }

  lemma ApartInAnyOrder(es: seq<StorageEntity>, r: seq<StorageEntity>)
    requires Apart(es) && multiset(r) == multiset(es)
    ensures Apart(r) && forall c :: c in r <==> c in es
  {
    forall c ensures c in r <==> c in es { SameElements(r, es, c); }
  }

  lemma ApartAt(es: seq<StorageEntity>, i: nat, j: nat)
    requires Apart(es) && i < j < |es|
    ensures es[i] != es[j] && es[i].repr !! es[j].repr
  {
    if es[i] == es[j] {
      TwiceCounted(es, i, j);
    }
  }

  lemma OneAmong(es: seq<StorageEntity>, i: nat)
    requires Apart(es) && i < |es|
    ensures es[i] in es && es[i].repr <= Footprint(es)
    ensures forall j | 0 <= j < |es| && j != i :: es[i] != es[j] && es[i].repr !! es[j].repr
  {
    forall j | 0 <= j < |es| && j != i ensures es[i] != es[j] && es[i].repr !! es[j].repr {
      if i < j { ApartAt(es, i, j); } else { ApartAt(es, j, i); }
    }
  }

  ghost function Footprint(es: seq<StorageEntity>): set<StorageEntity> {
    set e, x | e in es && x in e.repr :: x
  }

  ghost function TreesOf(es: seq<StorageEntity>): (ts: seq<Tree>)
    reads es
    ensures |ts| == |es| && forall i | 0 <= i < |es| :: ts[i] == es[i].tree
  {
    if es == [] then [] else [es[0].tree] + TreesOf(es[1..])
  }

  /** compare with getMetricValueFromParent, key by key. */
  function CompareUnder(a: StorageEntity, b: StorageEntity, orderBy: seq<OrderBy>): (c: int)
    requires a.Valid() && b.Valid()
    reads a, a.repr, b, b.repr
    decreases orderBy
    ensures c == Compare(ParentValues(a.tree, orderBy), ParentValues(b.tree, orderBy), orderBy)
  {
    if orderBy == [] then 0
    else
      var first := orderBy[0];
      var aValue, bValue := a.ValueUnder(first), b.ValueUnder(first);
      var c := if first.ascending then CompareValues(aValue, bValue) else CompareValues(bValue, aValue);
      assert ParentValues(a.tree, orderBy)[1..] == ParentValues(a.tree, orderBy[1..]);
      assert ParentValues(b.tree, orderBy)[1..] == ParentValues(b.tree, orderBy[1..]);
      if c == 0 then CompareUnder(a, b, orderBy[1..]) else c
  }

  ghost function Order(byMetrics: bool, orderBy: seq<OrderBy>): (Tree, Tree) -> bool {
    if byMetrics then ByMetrics(orderBy) else ByParent(orderBy)
  }

  predicate IsNotAfter(a: StorageEntity, b: StorageEntity, byMetrics: bool, orderBy: seq<OrderBy>)
    requires a.Valid() && b.Valid()
    reads a, a.repr, b, b.repr
    ensures IsNotAfter(a, b, byMetrics, orderBy) == Order(byMetrics, orderBy)(a.tree, b.tree)
  {
    if byMetrics then NotAfter(a.info, b.info, orderBy) else CompareUnder(a, b, orderBy) <= 0
  }

  /** The entities and all below them lie in the region and are valid. */
  ghost predicate AllValid(es: seq<StorageEntity>, region: set<StorageEntity>)
    reads region
  {
    forall e | e in es :: e in region && e.repr <= region && e.Valid()
  }

  function InsertEntity(x: StorageEntity, es: seq<StorageEntity>, byMetrics: bool, orderBy: seq<OrderBy>,
                        ghost region: set<StorageEntity>): (r: seq<StorageEntity>)
    requires AllValid([x], region) && AllValid(es, region)
    reads region
    ensures multiset(r) == multiset{x} + multiset(es)
  {
    assert x in [x];
    if es == [] then [x]
    else
      MultisetOfTail(es);
      assert es[0] in es;
      if IsNotAfter(x, es[0], byMetrics, orderBy) then [x] + es
      else [es[0]] + InsertEntity(x, es[1..], byMetrics, orderBy, region)
  }

  lemma {:induction false} InsertSame(x: StorageEntity, es: seq<StorageEntity>, byMetrics: bool, orderBy: seq<OrderBy>,
                                      region: set<StorageEntity>)
    requires AllValid([x], region) && AllValid(es, region)
    ensures TreesOf(InsertEntity(x, es, byMetrics, orderBy, region)) == Insert(x.tree, TreesOf(es), Order(byMetrics, orderBy))
  {
    assert x in [x];
    if es == [] {
      TreesOfCons(x, []);
    } else {
      TreesOfTail(es);
      assert es[0] in es;
      if IsNotAfter(x, es[0], byMetrics, orderBy) {
        TreesOfCons(x, es);
      } else {
        InsertSame(x, es[1..], byMetrics, orderBy, region);
        TreesOfCons(es[0], InsertEntity(x, es[1..], byMetrics, orderBy, region));
      }
    }
  }

  lemma TreesOfCons(x: StorageEntity, es: seq<StorageEntity>)
    ensures TreesOf([x] + es) == [x.tree] + TreesOf(es)
  {
    assert ([x] + es)[1..] == es;
  }

  lemma TreesOfTail(es: seq<StorageEntity>)
    requires es != []
    ensures TreesOf(es) == [es[0].tree] + TreesOf(es[1..]) && TreesOf(es)[1..] == TreesOf(es[1..])
  {
  }

  lemma MultisetOfTail(es: seq<StorageEntity>)
    requires es != []
    ensures multiset(es) == multiset{es[0]} + multiset(es[1..])
  {
    assert es == [es[0]] + es[1..];
  }

  lemma ValidInAnyOrder(es: seq<StorageEntity>, r: seq<StorageEntity>, region: set<StorageEntity>)
    requires multiset(r) == multiset(es) && AllValid(es, region)
    ensures AllValid(r, region)
  {
    forall e | e in r ensures e in es { SameElements(r, es, e); }
  }

  /** Array.prototype.sort with one of the two comparators. */
  function SortEntities(es: seq<StorageEntity>, byMetrics: bool, orderBy: seq<OrderBy>, ghost region: set<StorageEntity>)
    : (r: seq<StorageEntity>)
    requires AllValid(es, region)
    reads region
    ensures multiset(r) == multiset(es)
  {
    if es == [] then []
    else
      var rest := SortEntities(es[1..], byMetrics, orderBy, region);
      ValidInAnyOrder(es[1..], rest, region);
      MultisetOfTail(es);
      InsertEntity(es[0], rest, byMetrics, orderBy, region)
  }

  /** It sorts the trees of the entities. */
  lemma {:induction false} SortSame(es: seq<StorageEntity>, byMetrics: bool, orderBy: seq<OrderBy>, region: set<StorageEntity>)
    requires AllValid(es, region)
    ensures TreesOf(SortEntities(es, byMetrics, orderBy, region)) == Sorted(TreesOf(es), Order(byMetrics, orderBy))
  {
    if es != [] {
      var rest := SortEntities(es[1..], byMetrics, orderBy, region);
      SortSame(es[1..], byMetrics, orderBy, region);
      ValidInAnyOrder(es[1..], rest, region);
      InsertSame(es[0], rest, byMetrics, orderBy, region);
      TreesOfTail(es);
    }
  }

  /** No entity is ahead of one it ends behind. */
  ghost predicate InfosInOrder(es: seq<StorageEntity>, orderBy: seq<OrderBy>) {
    forall i, j | 0 <= i < j < |es| :: !AheadBy(es[j].info, es[i].info, orderBy)
  }

  lemma MetricEntitiesInOrder(es: seq<StorageEntity>, orderBy: seq<OrderBy>, region: set<StorageEntity>)
    requires AllValid(es, region)
    ensures InfosInOrder(SortEntities(es, true, orderBy, region), orderBy)
  {
    var sorted := SortEntities(es, true, orderBy, region);
    SortSame(es, true, orderBy, region);
    ValidInAnyOrder(es, sorted, region);
    ByMetricsPreorder(orderBy);
    SortedIsSorted(TreesOf(es), ByMetrics(orderBy));
    forall i, j | 0 <= i < j < |sorted| ensures !AheadBy(sorted[j].info, sorted[i].info, orderBy) {
      assert sorted[i] in sorted && sorted[j] in sorted;
      assert ByMetrics(orderBy)(TreesOf(sorted)[i], TreesOf(sorted)[j]);
      NotAfterMeans(sorted[i].info, sorted[j].info, orderBy);
    }
  }

  lemma WithinFootprint(es: seq<StorageEntity>)
    requires forall e | e in es :: e.Valid()
    ensures AllValid(es, Footprint(es))
  {
  }

  /** sort: puts every list of children below in order, then the list itself. */
  method Sort(es: seq<StorageEntity>, orderBy: seq<OrderBy>) returns (sorted: seq<StorageEntity>)
    requires Apart(es) && forall e | e in es :: e.Valid()
    modifies Footprint(es)
    decreases Footprint(es), 3
    ensures (forall e | e in es :: e.Valid()) && multiset(sorted) == multiset(es)
    ensures TreesOf(es) == SortEach(old(TreesOf(es)), orderBy)
    ensures TreesOf(sorted) == SortForest(old(TreesOf(es)), orderBy)
    ensures (forall t | t in old(TreesOf(es)) :: MetricsOnLeaves(t) && Uniform(t)) ==>
              forall i, j, l | 0 <= i < j < |sorted| && LeafOf(l, sorted[j].tree) ::
                !AheadBy(l, LeftmostLeaf(sorted[i].tree), orderBy)
  {
    ghost var trees := TreesOf(es);
    if forall t | t in trees :: MetricsOnLeaves(t) && Uniform(t) { ForestInOrder(trees, orderBy); }
    SortBelowEach(es, orderBy);
    WithinFootprint(es);
    sorted := SortEntities(es, false, orderBy, Footprint(es));
    SortSame(es, false, orderBy, Footprint(es));
  }

  /** The forEach over the list: rewrites the children lists below each entity in turn. */
  method SortBelowEach(es: seq<StorageEntity>, orderBy: seq<OrderBy>)
    requires Apart(es) && forall e | e in es :: e.Valid()
    modifies Footprint(es)
    decreases Footprint(es), 2
    ensures forall e | e in es :: e.Valid()
    ensures TreesOf(es) == SortEach(old(TreesOf(es)), orderBy)
  {
    for i := 0 to |es|
      invariant forall j | 0 <= j < |es| :: es[j].Valid()
      invariant forall j | 0 <= j < |es| :: es[j].tree == if j < i then SortTree(old(es[j].tree), orderBy) else old(es[j].tree)
    {
      SortBelowAt(es, i, orderBy);
    }
  }

  /** The lists below one entity of the list; the others share no part with it. */
  method SortBelowAt(es: seq<StorageEntity>, i: nat, orderBy: seq<OrderBy>)
    requires Apart(es) && i < |es| && forall j | 0 <= j < |es| :: es[j].Valid()
    modifies Footprint(es)
    decreases Footprint(es), 1
    ensures forall j | 0 <= j < |es| :: es[j].Valid()
    ensures forall j | 0 <= j < |es| :: es[j].tree == if j == i then SortTree(old(es[j].tree), orderBy) else old(es[j].tree)
  {
    OneAmong(es, i);
    SortBelow(es[i], orderBy);
  }

  method SortBelow(e: StorageEntity, orderBy: seq<OrderBy>)
    requires e.Valid()
    modifies e.repr
    decreases e.repr, 0
    ensures e.Valid() && e.tree == SortTree(old(e.tree), orderBy)
    ensures multiset(e.children) == old(multiset(e.children))
    ensures old(exists c | c in e.children :: c.info.metrics != []) ==> InfosInOrder(e.children, orderBy)
  {
    if e.children == [] {
      return;
    }
    var children := e.children;
    ghost var trees := TreesOf(children);
    ChildInfos(children);
    var sorted;
    if exists c | c in children :: c.info.metrics != [] {
      sorted := SortEntities(children, true, orderBy, e.repr);
      SortSame(children, true, orderBy, e.repr);
      MetricEntitiesInOrder(children, orderBy, e.repr);
    } else {
      assert Footprint(children) < e.repr;
      sorted := Sort(children, orderBy);
    }
    ApartInAnyOrder(children, sorted);
    Reassign(e, sorted);
  }

  lemma ChildInfos(children: seq<StorageEntity>)
    requires forall c | c in children :: c.Valid()
    ensures SomeChildHasMetrics(TreesOf(children)) <==> exists c | c in children :: c.info.metrics != []
  {
    var ts := TreesOf(children);
    forall i | 0 <= i < |children| ensures ts[i] in ts && ts[i].info == children[i].info {
      assert children[i] in children;
    }
    if t :| t in ts && t.info.metrics != [] {
      var i :| 0 <= i < |ts| && ts[i] == t;
      assert children[i] in children;
    }
    if c :| c in children && c.info.metrics != [] {
      var i :| 0 <= i < |children| && children[i] == c;
    }
  }

  /** entity.children = sorted */
  method Reassign(e: StorageEntity, sorted: seq<StorageEntity>)
    requires e in e.repr && Apart(sorted)
    requires forall c | c in sorted :: c in e.repr && c.repr < e.repr && e !in c.repr && c.Valid()
    modifies e
    ensures e.Valid() && e.tree == Node(e.info, old(TreesOf(sorted))) && e.children == sorted
  {
    ghost var trees := TreesOf(sorted);
    assert forall c | c in sorted :: c in c.repr;
    e.children := sorted;
    e.tree := Node(e.info, trees);
    assert TreesOf(sorted) == trees;
  }
}
