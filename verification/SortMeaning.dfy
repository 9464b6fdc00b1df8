/** What the sort orders by, in terms of the entities themselves: names, serial numbers, tiers and metric values
    under each key, without the values and comparison results the code computes. */
module SortMeaning {
  import opened Wrappers
  import opened Sorting
  import opened SortKeys
  import opened TreeSort

  // ---------- texts ----------

  /** a comes before b: a proper prefix of it, or smaller at the first character that differs. */
  ghost predicate TextBefore(a: string, b: string) {
    exists k: nat :: SplitsAt(a, b, k)
  }

  ghost predicate SplitsAt(a: string, b: string, k: nat) {
    k <= |a| && k < |b| && a[..k] == b[..k] && (k == |a| || a[k] < b[k])
  }

  lemma {:induction false} TextLessMeans(a: string, b: string)
    ensures TextLess(a, b) <==> TextBefore(a, b)
  {
    if a == [] || b == [] {
      if b != [] { assert SplitsAt(a, b, 0); }
    } else {
      TextLessMeans(a[1..], b[1..]);
      if a[0] == b[0] {
        if k: nat :| SplitsAt(a[1..], b[1..], k) {
          assert a[..k + 1] == [a[0]] + a[1..][..k] && b[..k + 1] == [b[0]] + b[1..][..k];
          assert SplitsAt(a, b, k + 1);
        }
        if k: nat :| SplitsAt(a, b, k) {
          assert k > 0;
          assert a[1..][..k - 1] == a[..k][1..] && b[1..][..k - 1] == b[..k][1..];
          assert SplitsAt(a[1..], b[1..], k - 1);
        }
      } else {
        if a[0] < b[0] { assert SplitsAt(a, b, 0); }
        if k: nat :| SplitsAt(a, b, k) {
          assert k > 0 ==> a[..k][0] == b[..k][0];
        }
      }
    }
  }

  // ---------- what an entity carries under a key ----------

  /** v is the value of the first metric of the type, and missing when there is none. */
  ghost predicate CarriesMetric(e: Label, typ: int, v: Option<real>) {
    if v.None? then forall i | 0 <= i < |e.metrics| :: e.metrics[i].typ != typ
    else exists k :: 0 <= k < |e.metrics| && e.metrics[k] == Metric(typ, v.value)
                     && forall i | 0 <= i < k :: e.metrics[i].typ != typ
  }

  /** v is the least tier (the greatest, when descending), and missing when there is none. */
  ghost predicate CarriesTier(e: Label, ascending: bool, v: Option<string>) {
    if v.None? then forall x | x in e.externals :: !x.isTier
    else
      && External(true, v.value) in e.externals
      && forall x | x in e.externals && x.isTier ::
           if ascending then !TextBefore(x.value, v.value) else !TextBefore(v.value, x.value)
  }

  /** A missing value comes before every other. */
  ghost predicate TextOptionBefore(a: Option<string>, b: Option<string>) {
    b.Some? && (a.None? || TextBefore(a.value, b.value))
  }

  ghost predicate NumberOptionBefore(a: Option<real>, b: Option<real>) {
    b.Some? && (a.None? || a.value < b.value)
  }

  /** What a carries under the key is smaller than what b carries. */
  ghost predicate Smaller(a: Label, b: Label, o: OrderBy) {
    match o.key
    case NAME => TextBefore(a.name, b.name)
    case REFERENCE_ID => TextOptionBefore(a.parentSerial, b.parentSerial)
    case TIER =>
      exists x, y :: CarriesTier(a, o.ascending, x) && CarriesTier(b, o.ascending, y) && TextOptionBefore(x, y)
    case METRIC(typ) =>
      exists x, y :: CarriesMetric(a, typ, x) && CarriesMetric(b, typ, y) && NumberOptionBefore(x, y)
  }

  /** Under the key alone a belongs in front of b. */
  ghost predicate Ahead(a: Label, b: Label, o: OrderBy) {
    if o.ascending then Smaller(a, b, o) else Smaller(b, a, o)
  }

  /** The first key that tells the two apart puts a in front. */
  ghost predicate AheadBy(a: Label, b: Label, orderBy: seq<OrderBy>) {
    exists k :: 0 <= k < |orderBy| && AheadAt(a, b, orderBy, k)
  }

  ghost predicate AheadAt(a: Label, b: Label, orderBy: seq<OrderBy>, k: nat)
    requires k < |orderBy|
  {
    Ahead(a, b, orderBy[k]) && forall j | 0 <= j < k :: !Ahead(a, b, orderBy[j]) && !Ahead(b, a, orderBy[j])
  }

  // ---------- the code computes just that ----------

  lemma {:induction false} FindMetricMeans(metrics: seq<Metric>, typ: int)
    ensures var v := FindMetric(metrics, typ);
            if v.None? then forall i | 0 <= i < |metrics| :: metrics[i].typ != typ
            else exists k :: 0 <= k < |metrics| && metrics[k] == Metric(typ, v.value.n) && forall i | 0 <= i < k :: metrics[i].typ != typ
  {
    if metrics != [] && metrics[0].typ != typ {
      FindMetricMeans(metrics[1..], typ);
      var v := FindMetric(metrics, typ);
      if v.Some? {
        var k :| 0 <= k < |metrics[1..]| && metrics[1..][k] == Metric(typ, v.value.n)
                 && forall i | 0 <= i < k :: metrics[1..][i].typ != typ;
        assert metrics[k + 1] == Metric(typ, v.value.n);
        forall i | 0 <= i < k + 1 ensures metrics[i].typ != typ {
          if i > 0 { assert metrics[1..][i - 1] == metrics[i]; }
        }
      } else {
        forall i | 0 <= i < |metrics| ensures metrics[i].typ != typ {
          if i > 0 { assert metrics[1..][i - 1] == metrics[i]; }
        }
      }
    } else if metrics != [] {
      assert metrics[0] == Metric(typ, metrics[0].value);
    }
  }

  function NumberOf(v: Option<Value>): Option<real>
    requires v.Some? ==> v.value.Number?
  {
    if v.Some? then Some(v.value.n) else None
  }

  function TextOf(v: Option<Value>): Option<string>
    requires v.Some? ==> v.value.Text?
  {
    if v.Some? then Some(v.value.s) else None
  }

  lemma MetricMeans(e: Label, typ: int, ascending: bool, v: Option<real>)
    ensures CarriesMetric(e, typ, v) <==> v == NumberOf(GetMetricValue(e, OrderBy(METRIC(typ), ascending)))
  {
    FindMetricMeans(e.metrics, typ);
    var found := NumberOf(GetMetricValue(e, OrderBy(METRIC(typ), ascending)));
    assert CarriesMetric(e, typ, found);
    if CarriesMetric(e, typ, v) && v.Some? && found.Some? {
      var j :| 0 <= j < |e.metrics| && e.metrics[j] == Metric(typ, v.value) && forall i | 0 <= i < j :: e.metrics[i].typ != typ;
      var k :| 0 <= k < |e.metrics| && e.metrics[k] == Metric(typ, found.value) && forall i | 0 <= i < k :: e.metrics[i].typ != typ;
      assert j == k;
    }
  }

  lemma {:induction false} TierValuesMeans(externals: seq<External>, v: string)
    ensures v in TierValues(externals) <==> External(true, v) in externals
  {
    if externals != [] {
      TierValuesMeans(externals[1..], v);
      assert externals == [externals[0]] + externals[1..];
    }
  }

  lemma TierMeans(e: Label, ascending: bool, v: Option<string>)
    ensures CarriesTier(e, ascending, v) <==> v == TextOf(GetMetricValue(e, OrderBy(TIER, ascending)))
  {
    TierIsExtreme(e, ascending);
    var found := TextOf(GetMetricValue(e, OrderBy(TIER, ascending)));
    forall x: External | x.isTier ensures x in e.externals <==> x.value in TierValues(e.externals) {
      TierValuesMeans(e.externals, x.value);
      assert x == External(true, x.value);
    }
    assert CarriesTier(e, ascending, found) by {
      if found.Some? {
        forall x | x in e.externals && x.isTier
          ensures if ascending then !TextBefore(x.value, found.value) else !TextBefore(found.value, x.value)
        {
          TextLessMeans(x.value, found.value);
          TextLessMeans(found.value, x.value);
        }
      }
    }
    if CarriesTier(e, ascending, v) && v.Some? && found.Some? {
      OneExtreme(e, ascending, v.value, found.value);
    }
  }

  lemma OneExtreme(e: Label, ascending: bool, v: string, w: string)
    requires CarriesTier(e, ascending, Some(v)) && CarriesTier(e, ascending, Some(w))
    ensures v == w
  {
    TextOrder(v, w, v);
    TextLessMeans(v, w);
    TextLessMeans(w, v);
    assert External(true, v).isTier && External(true, w).isTier;
  }

  lemma TextsCompared(x: Option<Value>, y: Option<Value>)
    requires (x.Some? ==> x.value.Text?) && (y.Some? ==> y.value.Text?)
    ensures CompareValues(x, y) < 0 <==> TextOptionBefore(TextOf(x), TextOf(y))
  {
    if x.Some? && y.Some? {
      TextLessMeans(x.value.s, y.value.s);
      TextOrder(x.value.s, y.value.s, x.value.s);
    }
  }

  lemma TiersCompared(a: Label, b: Label, ascending: bool)
    ensures var o := OrderBy(TIER, ascending);
            Smaller(a, b, o) <==> TextOptionBefore(TextOf(GetMetricValue(a, o)), TextOf(GetMetricValue(b, o)))
  {
    var o := OrderBy(TIER, ascending);
    var x, y := TextOf(GetMetricValue(a, o)), TextOf(GetMetricValue(b, o));
    forall v ensures CarriesTier(a, ascending, v) <==> v == x { TierMeans(a, ascending, v); }
    forall v ensures CarriesTier(b, ascending, v) <==> v == y { TierMeans(b, ascending, v); }
    assert CarriesTier(a, ascending, x) && CarriesTier(b, ascending, y);
  }

  lemma MetricsCompared(a: Label, b: Label, typ: int, ascending: bool)
    ensures var o := OrderBy(METRIC(typ), ascending);
            Smaller(a, b, o) <==> CompareValues(GetMetricValue(a, o), GetMetricValue(b, o)) < 0
  {
    var o := OrderBy(METRIC(typ), ascending);
    var x, y := NumberOf(GetMetricValue(a, o)), NumberOf(GetMetricValue(b, o));
    forall v ensures CarriesMetric(a, typ, v) <==> v == x { MetricMeans(a, typ, ascending, v); }
    forall v ensures CarriesMetric(b, typ, v) <==> v == y { MetricMeans(b, typ, ascending, v); }
    assert CarriesMetric(a, typ, x) && CarriesMetric(b, typ, y);
  }

  lemma SmallerMeans(a: Label, b: Label, o: OrderBy)
    ensures Smaller(a, b, o) <==> CompareValues(GetMetricValue(a, o), GetMetricValue(b, o)) < 0
  {
    match o
    case OrderBy(METRIC(typ), ascending) => MetricsCompared(a, b, typ, ascending);
    case OrderBy(TIER, ascending) =>
      TiersCompared(a, b, ascending);
      TextsCompared(GetMetricValue(a, o), GetMetricValue(b, o));
    case _ => TextsCompared(GetMetricValue(a, o), GetMetricValue(b, o));
  }

  /** Under each key the comparison puts in front exactly the entity whose own name, serial number, tier or metric belongs
      there. */
  lemma AheadMeans(a: Label, b: Label, orderBy: seq<OrderBy>)
    ensures AheadBy(a, b, orderBy) <==> CompareLabels(a, b, orderBy) < 0
  {
    var x, y := ValuesOf(a, orderBy), ValuesOf(b, orderBy);
    CompareDecides(x, y, orderBy);
    forall k | 0 <= k < |orderBy| ensures AheadAt(a, b, orderBy, k) <==> DecidedAt(x, y, orderBy, k) {
      forall j | 0 <= j <= k ensures
          (Smaller(a, b, orderBy[j]) <==> CompareValues(x[j], y[j]) < 0) && (Smaller(b, a, orderBy[j]) <==> CompareValues(x[j], y[j]) > 0)
      {
        SmallerMeans(a, b, orderBy[j]);
        SmallerMeans(b, a, orderBy[j]);
        CompareValuesOrder(x[j], y[j], x[j]);
      }
    }
  }

  lemma NotAfterMeans(a: Label, b: Label, orderBy: seq<OrderBy>)
    ensures NotAfter(a, b, orderBy) <==> !AheadBy(b, a, orderBy)
  {
    AheadMeans(b, a, orderBy);
    CompareOrder(ValuesOf(a, orderBy), ValuesOf(b, orderBy), ValuesOf(a, orderBy), orderBy);
  }

  // ---------- what the sort achieves ----------

  /** Siblings that carry metrics end in the order of what they carry under the keys. */
  lemma MetricSiblingsInOrder(t: Tree, orderBy: seq<OrderBy>)
    requires SomeChildHasMetrics(t.children)
    ensures multiset(SortTree(t, orderBy).children) == multiset(t.children)
    ensures forall i, j | 0 <= i < j < |SortTree(t, orderBy).children| ::
              !AheadBy(SortTree(t, orderBy).children[j].info, SortTree(t, orderBy).children[i].info, orderBy)
  {
    SortByOwnMetrics(t, orderBy);
    ByMetricsPreorder(orderBy);
    SortedIsSorted(t.children, ByMetrics(orderBy));
    var s := SortTree(t, orderBy).children;
    forall i, j | 0 <= i < j < |s| ensures !AheadBy(s[j].info, s[i].info, orderBy) {
      assert ByMetrics(orderBy)(s[i], s[j]);
      NotAfterMeans(s[i].info, s[j].info, orderBy);
    }
  }

  /** In a sorted tree no leaf is ahead of the leftmost one, and siblings are in the order of their leftmost leaves. */
  lemma OrderedMeans(t: Tree, orderBy: seq<OrderBy>)
    requires MetricsOnLeaves(t) && Uniform(t)
    ensures var s := SortTree(t, orderBy);
            && LeafOf(LeftmostLeaf(s), s) && (forall l | LeafOf(l, s) :: !AheadBy(l, LeftmostLeaf(s), orderBy))
            && forall i, j | 0 <= i < j < |s.children| ::
                 !AheadBy(LeftmostLeaf(s.children[j]), LeftmostLeaf(s.children[i]), orderBy)
  {
    SortOrders(t, orderBy);
    var s := SortTree(t, orderBy);
    forall l | LeafOf(l, s) ensures !AheadBy(l, LeftmostLeaf(s), orderBy) {
      NotAfterMeans(LeftmostLeaf(s), l, orderBy);
    }
    forall i, j | 0 <= i < j < |s.children| ensures !AheadBy(LeftmostLeaf(s.children[j]), LeftmostLeaf(s.children[i]), orderBy) {
      NotAfterMeans(LeftmostLeaf(s.children[i]), LeftmostLeaf(s.children[j]), orderBy);
    }
  }

  /** The list handed in ends in the order of leftmost leaves, each a least leaf of its tree. */
  lemma ForestInOrder(ts: seq<Tree>, orderBy: seq<OrderBy>)
    requires forall t | t in ts :: MetricsOnLeaves(t) && Uniform(t)
    ensures var s := SortForest(ts, orderBy);
            && |s| == |ts|
            && forall i, j, l | 0 <= i < j < |s| && LeafOf(l, s[j]) :: !AheadBy(l, LeftmostLeaf(s[i]), orderBy)
  {
    SortForestOrders(ts, orderBy);
    var s := SortForest(ts, orderBy);
    forall i, j, l | 0 <= i < j < |s| && LeafOf(l, s[j]) ensures !AheadBy(l, LeftmostLeaf(s[i]), orderBy) {
      NotAfterMeans(LeftmostLeaf(s[i]), l, orderBy);
    }
  }

  /** By name ascending "a" comes before "b", whatever their parents' serial numbers are. */
  lemma NameExample(serial: Option<string>, metrics: seq<Metric>)
    ensures AheadBy(Label("a", serial, [], metrics), Label("b", serial, [], metrics), [OrderBy(NAME, true)])
  {
    assert SplitsAt("a", "b", 0);
    assert AheadAt(Label("a", serial, [], metrics), Label("b", serial, [], metrics), [OrderBy(NAME, true)], 0);
  }
}
