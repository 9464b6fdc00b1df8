/** Sorting a tree of entities level by level: siblings that carry metrics by their own values, all others by
    the values of their leftmost leaf, and why that puts the least leaf first at every level. */
module TreeSort {
  import opened Wrappers
  import opened Sorting
  import opened SortKeys

  datatype Tree = Node(info: Label, children: seq<Tree>)

  predicate IsLeaf(t: Tree) {
    t.children == []
  }

  function LeftmostLeaf(t: Tree): Label {
    if IsLeaf(t) then t.info else LeftmostLeaf(t.children[0])
  }

  /** getMetricValueFromParent: the value of the leftmost leaf, when that leaf carries metrics. */
  function ValueFromParent(t: Tree, orderBy: OrderBy): (v: Option<Value>)
    ensures v.Some? ==> v.value.Number? == orderBy.key.METRIC?
  {
    if !IsLeaf(t) then ValueFromParent(t.children[0], orderBy)
    else if t.info.metrics != [] then GetMetricValue(t.info, orderBy)
    else None
  }

  function ParentValues(t: Tree, orderBy: seq<OrderBy>): (v: seq<Option<Value>>)
    ensures Fits(v, orderBy)
  {
    seq(|orderBy|, i requires 0 <= i < |orderBy| => ValueFromParent(t, orderBy[i]))
  }

  function ByMetrics(orderBy: seq<OrderBy>): (Tree, Tree) -> bool {
    (a: Tree, b: Tree) => NotAfter(a.info, b.info, orderBy)
  }

  function ByParent(orderBy: seq<OrderBy>): (Tree, Tree) -> bool {
    (a: Tree, b: Tree) => Compare(ParentValues(a, orderBy), ParentValues(b, orderBy), orderBy) <= 0
  }

  lemma ByMetricsPreorder(orderBy: seq<OrderBy>)
    ensures TotalPreorder(ByMetrics(orderBy))
  {
    var le := ByMetrics(orderBy);
    forall a: Tree, b: Tree ensures le(a, b) || le(b, a) {
      NotAfterOrder(a.info, b.info, b.info, orderBy);
    }
    forall a: Tree, b: Tree, c: Tree | le(a, b) && le(b, c) ensures le(a, c) {
      NotAfterOrder(a.info, b.info, c.info, orderBy);
    }
  }

  lemma ByParentPreorder(orderBy: seq<OrderBy>)
    ensures TotalPreorder(ByParent(orderBy))
  {
    var le := ByParent(orderBy);
    forall a: Tree, b: Tree ensures le(a, b) || le(b, a) {
      CompareOrder(ParentValues(a, orderBy), ParentValues(b, orderBy), ParentValues(b, orderBy), orderBy);
    }
    forall a: Tree, b: Tree, c: Tree | le(a, b) && le(b, c) ensures le(a, c) {
      CompareOrder(ParentValues(a, orderBy), ParentValues(b, orderBy), ParentValues(c, orderBy), orderBy);
    }
  }

  predicate SomeChildHasMetrics(children: seq<Tree>) {
    exists c | c in children :: c.info.metrics != []
  }

  /** One entity of the list being sorted: its children in their final order. */
  function SortTree(t: Tree, orderBy: seq<OrderBy>): Tree {
    if IsLeaf(t) then t
    else if SomeChildHasMetrics(t.children) then Node(t.info, Sorted(t.children, ByMetrics(orderBy)))
    else Node(t.info, Sorted(SortEach(t.children, orderBy), ByParent(orderBy)))
  }

  function SortEach(ts: seq<Tree>, orderBy: seq<OrderBy>): (r: seq<Tree>)
    ensures |r| == |ts|
    ensures forall i | 0 <= i < |ts| :: r[i] == SortTree(ts[i], orderBy)
  {
    if ts == [] then [] else [SortTree(ts[0], orderBy)] + SortEach(ts[1..], orderBy)
  }

  function SortForest(ts: seq<Tree>, orderBy: seq<OrderBy>): seq<Tree> {
    Sorted(SortEach(ts, orderBy), ByParent(orderBy))
  }

  // ---------- the same tree up to the order of siblings ----------

  /** b is a with the children of every node rearranged. */
  ghost predicate Shuffled(a: Tree, b: Tree) {
    a.info == b.info &&
    exists c: seq<Tree> :: multiset(c) == multiset(b.children) && ShuffledEach(a.children, c)
  }

  ghost predicate ShuffledEach(xs: seq<Tree>, ys: seq<Tree>) {
    |xs| == |ys| && forall i | 0 <= i < |xs| :: Shuffled(xs[i], ys[i])
  }

  lemma {:induction false} ShuffledSelf(t: Tree)
    ensures Shuffled(t, t)
  {
    forall i | 0 <= i < |t.children| ensures Shuffled(t.children[i], t.children[i]) {
      ShuffledSelf(t.children[i]);
    }
    assert ShuffledEach(t.children, t.children);
  }

  /** Sorting rearranges siblings and does nothing else. */
  lemma {:induction false} SortShuffles(t: Tree, orderBy: seq<OrderBy>)
    ensures Shuffled(t, SortTree(t, orderBy))
  {
    if IsLeaf(t) || SomeChildHasMetrics(t.children) {
      forall i | 0 <= i < |t.children| ensures Shuffled(t.children[i], t.children[i]) {
        ShuffledSelf(t.children[i]);
      }
      assert ShuffledEach(t.children, t.children);
    } else {
      forall i | 0 <= i < |t.children| ensures Shuffled(t.children[i], SortTree(t.children[i], orderBy)) {
        SortShuffles(t.children[i], orderBy);
      }
      assert ShuffledEach(t.children, SortEach(t.children, orderBy));
    }
  }

  // ---------- the order it establishes ----------

  /** Only leaves carry metrics and every leaf does. */
  ghost predicate MetricsOnLeaves(t: Tree) {
    (IsLeaf(t) <==> t.info.metrics != []) && forall c | c in t.children :: MetricsOnLeaves(c)
  }

  /** Siblings below the root are all leaves or all inner nodes, at every level. */
  ghost predicate Uniform(t: Tree) {
    && (forall c | c in t.children :: Uniform(c))
    && (forall c, d | c in t.children && d in t.children :: IsLeaf(c) == IsLeaf(d))
  }

  ghost predicate LeafOf(l: Label, t: Tree) {
    if IsLeaf(t) then l == t.info else exists c :: c in t.children && LeafOf(l, c)
  }

  /** At every level siblings are ordered by their leftmost leaves, and the leftmost leaf of a node is a
      least leaf below it. */
  ghost predicate Ordered(t: Tree, orderBy: seq<OrderBy>) {
    && (forall c | c in t.children :: Ordered(c, orderBy))
    && (forall i, j | 0 <= i < j < |t.children| ::
          NotAfter(LeftmostLeaf(t.children[i]), LeftmostLeaf(t.children[j]), orderBy))
    && LeafOf(LeftmostLeaf(t), t) && (forall l | LeafOf(l, t) :: NotAfter(LeftmostLeaf(t), l, orderBy))
  }

  lemma {:induction false} LeftmostIsLeaf(t: Tree)
    ensures LeafOf(LeftmostLeaf(t), t)
  {
    if !IsLeaf(t) {
      LeftmostIsLeaf(t.children[0]);
      assert t.children[0] in t.children;
    }
  }

  lemma {:induction false} ParentValuesAreLeftmost(t: Tree, orderBy: seq<OrderBy>)
    requires MetricsOnLeaves(t)
    ensures ParentValues(t, orderBy) == ValuesOf(LeftmostLeaf(t), orderBy)
  {
    if !IsLeaf(t) {
      assert t.children[0] in t.children;
      ParentValuesAreLeftmost(t.children[0], orderBy);
      forall i | 0 <= i < |orderBy|
        ensures ParentValues(t, orderBy)[i] == ParentValues(t.children[0], orderBy)[i]
      {
      }
    }
  }

  /** Children in the order of their leftmost leaves, each ordered itself, make an ordered node. */
  lemma OrderedNode(info: Label, children: seq<Tree>, orderBy: seq<OrderBy>)
    requires children != [] && forall c | c in children :: Ordered(c, orderBy)
    requires forall i, j | 0 <= i < j < |children| ::
               NotAfter(LeftmostLeaf(children[i]), LeftmostLeaf(children[j]), orderBy)
    ensures Ordered(Node(info, children), orderBy)
  {
    var t := Node(info, children);
    LeftmostIsLeaf(t);
    forall l | LeafOf(l, t) ensures NotAfter(LeftmostLeaf(t), l, orderBy) {
      var c :| c in children && LeafOf(l, c);
      var i :| 0 <= i < |children| && children[i] == c;
      NotAfterOrder(LeftmostLeaf(children[0]), LeftmostLeaf(c), l, orderBy);
      NotAfterOrder(LeftmostLeaf(c), LeftmostLeaf(c), l, orderBy);
    }
  }

  lemma OrderedLeaf(t: Tree, orderBy: seq<OrderBy>)
    requires IsLeaf(t)
    ensures Ordered(t, orderBy)
  {
    LeftmostIsLeaf(t);
    NotAfterOrder(t.info, t.info, t.info, orderBy);
  }

  lemma {:induction false} SortKeepsMetricsOnLeaves(t: Tree, orderBy: seq<OrderBy>)
    requires MetricsOnLeaves(t)
    ensures MetricsOnLeaves(SortTree(t, orderBy))
  {
    var s := SortTree(t, orderBy);
    if !IsLeaf(t) {
      if SomeChildHasMetrics(t.children) {
        forall c ensures c in s.children <==> c in t.children { SameElements(s.children, t.children, c); }
      } else {
        var each := SortEach(t.children, orderBy);
        forall c | c in s.children ensures MetricsOnLeaves(c) {
          SameElements(s.children, each, c);
          var i :| 0 <= i < |each| && each[i] == c;
          SortKeepsMetricsOnLeaves(t.children[i], orderBy);
        }
      }
    }
  }

  /** On a uniform tree with metrics exactly on its leaves the sort orders every level by least leaf. */
  lemma {:induction false} SortOrders(t: Tree, orderBy: seq<OrderBy>)
    requires MetricsOnLeaves(t) && Uniform(t)
    ensures Ordered(SortTree(t, orderBy), orderBy)
  {
    var s := SortTree(t, orderBy);
    if IsLeaf(t) {
      OrderedLeaf(t, orderBy);
    } else if SomeChildHasMetrics(t.children) {
      ByMetricsPreorder(orderBy);
      SortedIsSorted(t.children, ByMetrics(orderBy));
      forall c | c in s.children ensures IsLeaf(c) && Ordered(c, orderBy) {
        SameElements(s.children, t.children, c);
        OrderedLeaf(c, orderBy);
      }
      forall i, j | 0 <= i < j < |s.children|
        ensures NotAfter(LeftmostLeaf(s.children[i]), LeftmostLeaf(s.children[j]), orderBy)
      {
        assert ByMetrics(orderBy)(s.children[i], s.children[j]);
        assert s.children[i] in s.children && s.children[j] in s.children;
      }
      OrderedNode(t.info, s.children, orderBy);
    } else {
      var each := SortEach(t.children, orderBy);
      ByParentPreorder(orderBy);
      SortedIsSorted(each, ByParent(orderBy));
      forall c | c in s.children ensures MetricsOnLeaves(c) && Ordered(c, orderBy) {
        SameElements(s.children, each, c);
        var i :| 0 <= i < |each| && each[i] == c;
        SortKeepsMetricsOnLeaves(t.children[i], orderBy);
        SortOrders(t.children[i], orderBy);
      }
      forall i, j | 0 <= i < j < |s.children|
        ensures NotAfter(LeftmostLeaf(s.children[i]), LeftmostLeaf(s.children[j]), orderBy)
      {
        assert ByParent(orderBy)(s.children[i], s.children[j]);
        assert s.children[i] in s.children && s.children[j] in s.children;
        ParentValuesAreLeftmost(s.children[i], orderBy);
        ParentValuesAreLeftmost(s.children[j], orderBy);
      }
      OrderedNode(t.info, s.children, orderBy);
    }
  }

  // ---------- exactly the uniform trees ----------

  ghost predicate SameShape(a: Tree, b: Tree) {
    |a.children| == |b.children| && forall i | 0 <= i < |a.children| :: SameShape(a.children[i], b.children[i])
  }

  /** The tree with its leaves valued by depth, so that deeper leaves are larger. */
  function ByDepth(t: Tree, depth: int): Tree {
    Node(if IsLeaf(t) then AtDepth(depth) else Label("", None, [], []), EachByDepth(t.children, depth + 1))
  }

  function AtDepth(depth: int): Label {
    Label("", None, [], [Metric(0, depth as real)])
  }

  function EachByDepth(ts: seq<Tree>, depth: int): (r: seq<Tree>)
    ensures |r| == |ts| && forall i | 0 <= i < |ts| :: r[i] == ByDepth(ts[i], depth)
  {
    if ts == [] then [] else [ByDepth(ts[0], depth)] + EachByDepth(ts[1..], depth)
  }

  const ByMetricZero: seq<OrderBy> := [OrderBy(METRIC(0), true)]

  lemma {:induction false} ByDepthShape(t: Tree, depth: int)
    ensures SameShape(t, ByDepth(t, depth)) && MetricsOnLeaves(ByDepth(t, depth))
  {
    var u := ByDepth(t, depth);
    forall i | 0 <= i < |t.children| ensures SameShape(t.children[i], u.children[i]) && MetricsOnLeaves(u.children[i]) {
      ByDepthShape(t.children[i], depth + 1);
    }
  }

  lemma {:induction false} LeftmostByDepth(t: Tree, depth: int) returns (d: int)
    ensures d >= depth && (IsLeaf(t) <==> d == depth) && LeftmostLeaf(ByDepth(t, depth)) == AtDepth(d)
  {
    d := depth;
    if !IsLeaf(t) { d := LeftmostByDepth(t.children[0], depth + 1); }
  }

  /** A leaf among inner siblings ends up behind them although every leaf below them is larger. */
  lemma {:induction false} MixedSiblingsBreakOrder(t: Tree, depth: int)
    requires !Uniform(t)
    ensures !Ordered(SortTree(ByDepth(t, depth), ByMetricZero), ByMetricZero)
  {
    if exists c, d :: c in t.children && d in t.children && IsLeaf(c) != IsLeaf(d) {
      var i, j :| 0 <= i < |t.children| && 0 <= j < |t.children| && IsLeaf(t.children[i]) && !IsLeaf(t.children[j]);
      MixedRoot(t, depth, i, j);
    } else {
      var c :| c in t.children && !Uniform(c);
      var k :| 0 <= k < |t.children| && t.children[k] == c;
      MixedSiblingsBreakOrder(c, depth + 1);
      InnerChildren(t, depth);
      var u := ByDepth(t, depth);
      SortedChild(u, k);
    }
  }

  lemma InnerChildren(t: Tree, depth: int)
    requires forall c | c in t.children :: !IsLeaf(c)
    ensures !SomeChildHasMetrics(ByDepth(t, depth).children)
  {
    var u := ByDepth(t, depth);
    forall x | x in u.children ensures x.info.metrics == [] {
      var i :| 0 <= i < |u.children| && u.children[i] == x;
      assert t.children[i] in t.children;
    }
  }

  /** Without metrics among its children, a tree keeps the sorted form of each of them. */
  lemma SortedChild(u: Tree, k: nat)
    requires k < |u.children| && !SomeChildHasMetrics(u.children)
    ensures SortTree(u.children[k], ByMetricZero) in SortTree(u, ByMetricZero).children
  {
    var each := SortEach(u.children, ByMetricZero);
    assert each[k] in each;
    SameElements(Sorted(each, ByParent(ByMetricZero)), each, each[k]);
  }

  lemma SortByOwnMetrics(t: Tree, orderBy: seq<OrderBy>)
    requires SomeChildHasMetrics(t.children)
    ensures SortTree(t, orderBy) == Node(t.info, Sorted(t.children, ByMetrics(orderBy)))
  {
  }

  lemma MixedRoot(t: Tree, depth: int, i: nat, j: nat)
    requires i < |t.children| && j < |t.children| && IsLeaf(t.children[i]) && !IsLeaf(t.children[j])
    ensures !Ordered(SortTree(ByDepth(t, depth), ByMetricZero), ByMetricZero)
  {
    var leaf, k := MixedChildren(t, depth, i, j);
    SortByOwnMetrics(ByDepth(t, depth), ByMetricZero);
    var d := LeftmostByDepth(t.children[k], depth + 1);
    FirstGivesLeftmost(SortTree(ByDepth(t, depth), ByMetricZero), ByDepth(t.children[k], depth + 1));
    LeafBehind(SortTree(ByDepth(t, depth), ByMetricZero), leaf, d, depth + 1);
  }

  lemma FirstGivesLeftmost(s: Tree, first: Tree)
    requires s.children != [] && s.children[0] == first
    ensures LeftmostLeaf(s) == LeftmostLeaf(first)
  {
  }

  lemma MixedChildren(t: Tree, depth: int, i: nat, j: nat) returns (leaf: Tree, k: nat)
    requires i < |t.children| && j < |t.children| && IsLeaf(t.children[i]) && !IsLeaf(t.children[j])
    ensures k < |t.children| && !IsLeaf(t.children[k])
    ensures var u := ByDepth(t, depth); var s := Sorted(u.children, ByMetrics(ByMetricZero));
            s[0] == u.children[k] && leaf in s && leaf == Node(AtDepth(depth + 1), []) && SomeChildHasMetrics(u.children)
  {
    var children := ByDepth(t, depth).children;
    leaf := children[i];
    assert leaf in children;
    SameElements(Sorted(children, ByMetrics(ByMetricZero)), children, leaf);
    k := InnerComesFirst(children, children[j], depth + 1);
  }

  lemma LeafBehind(s: Tree, leaf: Tree, d: int, depth: int)
    requires leaf in s.children && leaf == Node(AtDepth(depth), []) && LeftmostLeaf(s) == AtDepth(d) && d > depth
    ensures !Ordered(s, ByMetricZero)
  {
    assert LeafOf(leaf.info, leaf);
    assert LeafOf(leaf.info, s);
    LargerAfter(AtDepth(d), AtDepth(depth), d as real, depth as real);
  }

  lemma InnerComesFirst(children: seq<Tree>, inner: Tree, depth: int) returns (k: nat)
    requires inner in children && inner.info.metrics == []
    requires forall c | c in children :: c.info.metrics == [] || c.info == AtDepth(depth)
    ensures k < |children| && Sorted(children, ByMetrics(ByMetricZero))[0] == children[k] && children[k].info.metrics == []
  {
    var s := Sorted(children, ByMetrics(ByMetricZero));
    ByMetricsPreorder(ByMetricZero);
    SortedIsSorted(children, ByMetrics(ByMetricZero));
    SameElements(s, children, inner);
    SameElements(s, children, s[0]);
    k :| 0 <= k < |children| && children[k] == s[0];
    var m :| 0 <= m < |s| && s[m] == inner;
    if m > 0 {
      assert ByMetrics(ByMetricZero)(s[0], s[m]);
      if s[0].info.metrics != [] { MissingBeforeNumber(inner.info, s[0].info, depth as real); }
    }
  }

  lemma MissingBeforeNumber(a: Label, b: Label, n: real)
    requires a.metrics == [] && b.metrics == [Metric(0, n)]
    ensures !NotAfter(b, a, ByMetricZero)
  {
  }

  lemma LargerAfter(a: Label, b: Label, m: real, n: real)
    requires a.metrics == [Metric(0, m)] && b.metrics == [Metric(0, n)] && m > n
    ensures !NotAfter(a, b, ByMetricZero)
  {
  }

  /** The sort orders a tree by least leaf whatever its metrics and the keys are, if and only if no group of
      siblings mixes leaves with inner nodes. */
  lemma SortOrdersIff(t: Tree)
    ensures (forall u: Tree, orderBy | SameShape(t, u) && MetricsOnLeaves(u) :: Ordered(SortTree(u, orderBy), orderBy))
            <==> Uniform(t)
  {
    if Uniform(t) {
      forall u: Tree, orderBy | SameShape(t, u) && MetricsOnLeaves(u) ensures Ordered(SortTree(u, orderBy), orderBy) {
        ShapeKeepsUniform(t, u);
        SortOrders(u, orderBy);
      }
    } else {
      ByDepthShape(t, 0);
      MixedSiblingsBreakOrder(t, 0);
    }
  }

  lemma {:induction false} ShapeKeepsUniform(t: Tree, u: Tree)
    requires SameShape(t, u) && Uniform(t)
    ensures Uniform(u)
  {
    forall i | 0 <= i < |u.children| ensures Uniform(u.children[i]) {
      assert t.children[i] in t.children;
      ShapeKeepsUniform(t.children[i], u.children[i]);
    }
    forall c, d | c in u.children && d in u.children ensures IsLeaf(c) == IsLeaf(d) {
      var i :| 0 <= i < |u.children| && u.children[i] == c;
      var j :| 0 <= j < |u.children| && u.children[j] == d;
      assert t.children[i] in t.children && t.children[j] in t.children;
    }
  }

  /** The same for the list handed to sort, whatever its roots are: ordered by least leaf across the list. */
  lemma SortForestOrders(ts: seq<Tree>, orderBy: seq<OrderBy>)
    requires forall t | t in ts :: MetricsOnLeaves(t) && Uniform(t)
    ensures var s := SortForest(ts, orderBy);
            && multiset(s) == multiset(SortEach(ts, orderBy))
            && (forall t | t in s :: Ordered(t, orderBy))
            && (forall i, j, l | 0 <= i < j < |s| && LeafOf(l, s[j]) :: NotAfter(LeftmostLeaf(s[i]), l, orderBy))
  {
    var each, s := SortEach(ts, orderBy), SortForest(ts, orderBy);
    ByParentPreorder(orderBy);
    SortedIsSorted(each, ByParent(orderBy));
    forall t | t in s ensures MetricsOnLeaves(t) && Ordered(t, orderBy) {
      SameElements(s, each, t);
      var i :| 0 <= i < |each| && each[i] == t;
      assert ts[i] in ts;
      SortKeepsMetricsOnLeaves(ts[i], orderBy);
      SortOrders(ts[i], orderBy);
    }
    forall i, j, l | 0 <= i < j < |s| && LeafOf(l, s[j]) ensures NotAfter(LeftmostLeaf(s[i]), l, orderBy) {
      assert ByParent(orderBy)(s[i], s[j]) && s[i] in s && s[j] in s;
      ParentValuesAreLeftmost(s[i], orderBy);
      ParentValuesAreLeftmost(s[j], orderBy);
      NotAfterOrder(LeftmostLeaf(s[i]), LeftmostLeaf(s[j]), l, orderBy);
    }
  }
}
