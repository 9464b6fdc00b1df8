/** The values a tree of entities is sorted by, and the comparator over several keys with a direction each. */
module SortKeys {
  import opened Wrappers
  import opened Sorting

  datatype Value = Number(n: real) | Text(s: string)

  datatype External = External(isTier: bool, value: string)

  datatype Metric = Metric(typ: int, value: real)

  /** What the sort looks at in one entity; parentSerial is the serial number of its parent, if any. */
  datatype Label = Label(name: string, parentSerial: Option<string>, externals: seq<External>, metrics: seq<Metric>)

  datatype SortKey = NAME | REFERENCE_ID | TIER | METRIC(typ: int)

  datatype OrderBy = OrderBy(key: SortKey, ascending: bool)

  // ---------- single values ----------

  function TextLess(a: string, b: string): bool {
    b != [] && (a == [] || a[0] < b[0] || (a[0] == b[0] && TextLess(a[1..], b[1..])))
  }

  lemma {:induction false} TextOrder(a: string, b: string, c: string)
    ensures !TextLess(a, a)
    ensures TextLess(a, b) || TextLess(b, a) || a == b
    ensures TextLess(a, b) && TextLess(b, c) ==> TextLess(a, c)
  {
    if a != [] {
      TextOrder(a[1..], a[1..], a[1..]);
      if b != [] {
        assert a == [a[0]] + a[1..] && b == [b[0]] + b[1..];
        TextOrder(a[1..], b[1..], if c == [] then [] else c[1..]);
      }
    }
  }

  predicate SameKind(a: Option<Value>, b: Option<Value>) {
    a.Some? && b.Some? ==> a.value.Number? == b.value.Number?
  }

  function Less(a: Value, b: Value): bool
    requires SameKind(Some(a), Some(b))
  {
    match a
    case Number(n) => n < b.n
    case Text(s) => TextLess(s, b.s)
  }

  /** compareValues: missing values come first. */
  function CompareValues(a: Option<Value>, b: Option<Value>): int
    requires SameKind(a, b)
  {
    if a.None? && b.None? then 0
    else if a.None? then -1
    else if b.None? then 1
    else if Less(b.value, a.value) then 1
    else if Less(a.value, b.value) then -1
    else 0
  }

  lemma CompareValuesOrder(a: Option<Value>, b: Option<Value>, c: Option<Value>)
    requires SameKind(a, b) && SameKind(b, c) && SameKind(a, c)
    ensures CompareValues(a, b) == -CompareValues(b, a)
    ensures CompareValues(a, b) <= 0 && CompareValues(b, c) <= 0 ==>
              CompareValues(a, c) <= 0 && (CompareValues(a, c) == 0 ==> CompareValues(a, b) == 0 && CompareValues(b, c) == 0)
  {
    if a.Some? && b.Some? && a.value.Text? {
      TextOrder(a.value.s, b.value.s, a.value.s);
      TextOrder(b.value.s, a.value.s, b.value.s);
      if c.Some? {
        TextOrder(a.value.s, b.value.s, c.value.s);
        TextOrder(b.value.s, c.value.s, a.value.s);
        TextOrder(c.value.s, a.value.s, b.value.s);
        TextOrder(c.value.s, b.value.s, a.value.s);
        TextOrder(a.value.s, c.value.s, b.value.s);
        TextOrder(b.value.s, a.value.s, c.value.s);
      }
    }
  }

  // ---------- the value of an entity under a key ----------

  function TierValues(externals: seq<External>): seq<string> {
    if externals == [] then []
    else (if externals[0].isTier then [externals[0].value] else []) + TierValues(externals[1..])
  }

  function NotAfterText(ascending: bool): (string, string) -> bool {
    (a: string, b: string) => if ascending then !TextLess(b, a) else !TextLess(a, b)
  }

  function FindMetric(metrics: seq<Metric>, typ: int): (v: Option<Value>)
    ensures v.Some? ==> v.value.Number?
  {
    if metrics == [] then None
    else if metrics[0].typ == typ then Some(Number(metrics[0].value))
    else FindMetric(metrics[1..], typ)
  }

  function GetMetricValue(e: Label, orderBy: OrderBy): (v: Option<Value>)
    ensures v.Some? ==> v.value.Number? == orderBy.key.METRIC?
  {
    match orderBy.key
    case NAME => Some(Text(e.name))
    case REFERENCE_ID => if e.parentSerial.Some? then Some(Text(e.parentSerial.value)) else None
    case TIER =>
      var sorted := Sorted(TierValues(e.externals), NotAfterText(orderBy.ascending));
      if sorted == [] then None else Some(Text(sorted[0]))
    case METRIC(typ) => FindMetric(e.metrics, typ)
  }

  /** The tier an entity is sorted by is its least tier for an ascending key and its greatest for a descending one. */
  lemma TierIsExtreme(e: Label, ascending: bool)
    ensures var v := GetMetricValue(e, OrderBy(TIER, ascending));
            && (v.None? <==> TierValues(e.externals) == [])
            && (v.Some? ==> v.value.s in TierValues(e.externals)
                            && forall t | t in TierValues(e.externals) ::
                                 if ascending then !TextLess(t, v.value.s) else !TextLess(v.value.s, t))
  {
    NotAfterTextOrder(ascending);
    if TierValues(e.externals) != [] {
      SortedHeadLeast(TierValues(e.externals), NotAfterText(ascending));
    }
  }

  lemma NotAfterTextOrder(ascending: bool)
    ensures TotalPreorder(NotAfterText(ascending))
  {
    var le := NotAfterText(ascending);
    forall a: string, b: string ensures le(a, b) || le(b, a) {
      TextOrder(a, b, a);
      TextOrder(b, a, b);
    }
    forall a: string, b: string, c: string | le(a, b) && le(b, c) ensures le(a, c) {
      TextOrder(a, c, b);
      TextOrder(c, a, b);
      TextOrder(a, b, c);
      TextOrder(c, b, a);
      TextOrder(b, c, a);
      TextOrder(b, a, c);
    }
  }

  // ---------- several keys ----------

  /** The values of one entity under each key in turn. */
  predicate Fits(values: seq<Option<Value>>, orderBy: seq<OrderBy>) {
    |values| == |orderBy| &&
    forall i | 0 <= i < |values| :: values[i].Some? ==> values[i].value.Number? == orderBy[i].key.METRIC?
  }

  /** compare: the first key that tells the two apart decides, with the sides swapped for a descending key. */
  function Compare(a: seq<Option<Value>>, b: seq<Option<Value>>, orderBy: seq<OrderBy>): int
    requires Fits(a, orderBy) && Fits(b, orderBy)
  {
    if orderBy == [] then 0
    else
      var c := if orderBy[0].ascending then CompareValues(a[0], b[0]) else CompareValues(b[0], a[0]);
      if c != 0 then c else Compare(a[1..], b[1..], orderBy[1..])
  }

  /** The first key under which the two differ decides, in the direction of that key. */
  lemma {:induction false} CompareDecides(a: seq<Option<Value>>, b: seq<Option<Value>>, orderBy: seq<OrderBy>)
    requires Fits(a, orderBy) && Fits(b, orderBy)
    ensures Compare(a, b, orderBy) < 0 <==> exists k :: 0 <= k < |orderBy| && DecidedAt(a, b, orderBy, k)
  {
    if orderBy != [] {
      CompareDecides(a[1..], b[1..], orderBy[1..]);
      CompareValuesOrder(a[0], b[0], a[0]);
      if CompareValues(a[0], b[0]) == 0 {
        forall k | 0 <= k < |orderBy[1..]|
          ensures DecidedAt(a[1..], b[1..], orderBy[1..], k) <==> DecidedAt(a, b, orderBy, k + 1)
        {
          DecidedLater(a, b, orderBy, k);
        }
        assert !DecidedAt(a, b, orderBy, 0);
        if k :| 0 <= k < |orderBy| && DecidedAt(a, b, orderBy, k) {
          assert DecidedAt(a[1..], b[1..], orderBy[1..], k - 1);
        }
        if k :| 0 <= k < |orderBy[1..]| && DecidedAt(a[1..], b[1..], orderBy[1..], k) {
          assert DecidedAt(a, b, orderBy, k + 1);
        }
      } else {
        assert DecidedAt(a, b, orderBy, 0) <==> Compare(a, b, orderBy) < 0;
      }
    }
  }

  /** Key k puts a before b and all keys before it leave them level. */
  ghost predicate DecidedAt(a: seq<Option<Value>>, b: seq<Option<Value>>, orderBy: seq<OrderBy>, k: nat)
    requires Fits(a, orderBy) && Fits(b, orderBy) && k < |orderBy|
  {
    && (forall j | 0 <= j < k :: CompareValues(a[j], b[j]) == 0)
    && if orderBy[k].ascending then CompareValues(a[k], b[k]) < 0 else CompareValues(a[k], b[k]) > 0
  }

  lemma DecidedLater(a: seq<Option<Value>>, b: seq<Option<Value>>, orderBy: seq<OrderBy>, k: nat)
    requires Fits(a, orderBy) && Fits(b, orderBy) && k < |orderBy| - 1 && CompareValues(a[0], b[0]) == 0
    ensures DecidedAt(a[1..], b[1..], orderBy[1..], k) <==> DecidedAt(a, b, orderBy, k + 1)
  {
    if DecidedAt(a[1..], b[1..], orderBy[1..], k) {
      forall j | 0 <= j < k + 1 ensures CompareValues(a[j], b[j]) == 0 {
        if j > 0 { assert CompareValues(a[1..][j - 1], b[1..][j - 1]) == 0; }
      }
    }
  }

  /** compare is a total preorder for any mix of directions and missing values. */
  lemma {:induction false} CompareOrder(a: seq<Option<Value>>, b: seq<Option<Value>>, c: seq<Option<Value>>, orderBy: seq<OrderBy>)
    requires Fits(a, orderBy) && Fits(b, orderBy) && Fits(c, orderBy)
    ensures Compare(a, b, orderBy) == -Compare(b, a, orderBy)
    ensures Compare(a, b, orderBy) <= 0 && Compare(b, c, orderBy) <= 0 ==> Compare(a, c, orderBy) <= 0
  {
    if orderBy != [] {
      CompareValuesOrder(a[0], b[0], c[0]);
      CompareValuesOrder(b[0], c[0], a[0]);
      CompareValuesOrder(c[0], b[0], a[0]);
      CompareOrder(a[1..], b[1..], c[1..], orderBy[1..]);
    }
  }

  function ValuesOf(e: Label, orderBy: seq<OrderBy>): (v: seq<Option<Value>>)
    ensures Fits(v, orderBy)
  {
    seq(|orderBy|, i requires 0 <= i < |orderBy| => GetMetricValue(e, orderBy[i]))
  }

  function CompareLabels(a: Label, b: Label, orderBy: seq<OrderBy>): int {
    Compare(ValuesOf(a, orderBy), ValuesOf(b, orderBy), orderBy)
  }

  predicate NotAfter(a: Label, b: Label, orderBy: seq<OrderBy>) {
    CompareLabels(a, b, orderBy) <= 0
  }

  lemma NotAfterOrder(a: Label, b: Label, c: Label, orderBy: seq<OrderBy>)
    ensures NotAfter(a, b, orderBy) || NotAfter(b, a, orderBy)
    ensures NotAfter(a, b, orderBy) && NotAfter(b, c, orderBy) ==> NotAfter(a, c, orderBy)
  {
    CompareOrder(ValuesOf(a, orderBy), ValuesOf(b, orderBy), ValuesOf(c, orderBy), orderBy);
  }
}
