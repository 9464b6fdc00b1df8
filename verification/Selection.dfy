/** Reducing a response of the time-series service: the k columns with the largest or smallest totals, and
    the percentile of each row. */
module Selection {
  import opened Wrappers
  import opened BlobCache
  import opened Sorting

  datatype Response = Response(variants: seq<string>, data: seq<Row>)

  /** Every row has one value per variant. */
  ghost predicate Rectangular(resp: Response) {
    forall r | r in resp.data :: |r.values| == |resp.variants|
  }

  // ---------- the filter ----------

  /** The total of column i, summed row by row. */
  function ColumnTotal(data: seq<Row>, i: nat): real
    requires forall r | r in data :: i < |r.values|
  {
    if data == [] then 0.0 else ColumnTotal(data[..|data| - 1], i) + data[|data| - 1].values[i]
  }

  datatype Column = Column(index: nat, total: real)

  function Columns(resp: Response): (c: seq<Column>)
    requires Rectangular(resp)
    ensures |c| == |resp.variants|
    ensures forall i | 0 <= i < |c| :: c[i] == Column(i, ColumnTotal(resp.data, i))
  {
    seq(|resp.variants|, i requires 0 <= i < |resp.variants| => Column(i, ColumnTotal(resp.data, i)))
  }

  function NotAfter(top: bool): (Column, Column) -> bool {
    (a: Column, b: Column) => if top then a.total >= b.total else a.total <= b.total
  }

  /** top-count or bot-count; nothing to filter when there are no more columns than that. */
  function GetFilter(top: bool, count: nat, resp: Response): Option<seq<nat>>
    requires Rectangular(resp)
  {
    if |resp.variants| <= count then None
    else
      var order := Sorted(Columns(resp), NotAfter(top));
      Some(seq(count, i requires 0 <= i < count => order[i].index))
  }

  /** The total of the columns in s among the first n. */
  ghost function TotalOf(totals: seq<real>, s: set<nat>, n: nat): real
    requires n <= |totals|
  {
    if n == 0 then 0.0 else TotalOf(totals, s, n - 1) + if n - 1 in s then totals[n - 1] else 0.0
  }

  ghost function CountOf(s: set<nat>, n: nat): nat {
    if n == 0 then 0 else CountOf(s, n - 1) + if n - 1 in s then 1 else 0
  }

  lemma {:induction false} CountIsSize(s: set<nat>, n: nat)
    requires forall i | i in s :: i < n
    ensures CountOf(s, n) == |s|
  {
    if n == 0 {
      assert s == {};
    } else {
      var t := s - {n - 1};
      CountIsSize(t, n - 1);
      CountSame(s, t, n - 1);
      if n - 1 in s { assert s == t + {n - 1}; } else { assert s == t; }
    }
  }

  lemma {:induction false} CountSame(s: set<nat>, t: set<nat>, n: nat)
    requires forall i | 0 <= i < n :: i in s <==> i in t
    ensures CountOf(s, n) == CountOf(t, n)
  {
    if n > 0 { CountSame(s, t, n - 1); }
  }

  /** v taken k times. */
  ghost function Times(v: real, k: nat): real {
    if k == 0 then 0.0 else Times(v, k - 1) + v
  }

  /** How far the columns in s among the first n exceed v, together. */
  ghost function Excess(totals: seq<real>, s: set<nat>, v: real, n: nat): real
    requires n <= |totals|
  {
    if n == 0 then 0.0 else Excess(totals, s, v, n - 1) + if n - 1 in s then totals[n - 1] - v else 0.0
  }

  lemma {:induction false} TotalByExcess(totals: seq<real>, s: set<nat>, v: real, n: nat)
    requires n <= |totals|
    ensures TotalOf(totals, s, n) == Excess(totals, s, v, n) + Times(v, CountOf(s, n))
  {
    if n > 0 { TotalByExcess(totals, s, v, n - 1); }
  }

  /** When v separates the columns in s from the others, no other choice exceeds v by more. */
  lemma {:induction false} ExcessLargest(totals: seq<real>, s: set<nat>, t: set<nat>, v: real, n: nat)
    requires n <= |totals|
    requires forall i | 0 <= i < n :: if i in s then totals[i] >= v else totals[i] <= v
    ensures Excess(totals, t, v, n) <= Excess(totals, s, v, n)
  {
    if n > 0 { ExcessLargest(totals, s, t, v, n - 1); }
  }

  /** Hence among choices of the same size s has the largest total. */
  lemma SeparatedIsLargest(totals: seq<real>, s: set<nat>, t: set<nat>, v: real)
    requires forall i | 0 <= i < |totals| :: if i in s then totals[i] >= v else totals[i] <= v
    requires |s| == |t| && (forall i | i in s :: i < |totals|) && (forall i | i in t :: i < |totals|)
    ensures TotalOf(totals, t, |totals|) <= TotalOf(totals, s, |totals|)
  {
    CountIsSize(s, |totals|);
    CountIsSize(t, |totals|);
    TotalByExcess(totals, s, v, |totals|);
    TotalByExcess(totals, t, v, |totals|);
    ExcessLargest(totals, s, t, v, |totals|);
  }

  /** Every index names one of n columns. */
  predicate Within(chosen: seq<nat>, n: nat) {
    forall j | 0 <= j < |chosen| :: chosen[j] < n
  }

  ghost function Indices(chosen: seq<nat>): set<nat> {
    set i | i in chosen
  }

  /** The order behind the filter: every column once, none after one it precedes. */
  lemma ColumnOrder(top: bool, resp: Response)
    requires Rectangular(resp)
    ensures var columns, order := Columns(resp), Sorted(Columns(resp), NotAfter(top));
            && (forall c | c in order :: c.index < |columns| && columns[c.index] == c)
            && (forall j | 0 <= j < |columns| :: columns[j] in order)
            && (forall a, b | 0 <= a < b < |order| :: order[a].index != order[b].index)
            && SortedBy(order, NotAfter(top))
  {
    var columns, order := Columns(resp), Sorted(Columns(resp), NotAfter(top));
    SortedIsSorted(columns, NotAfter(top));
    forall c | c in order ensures c.index < |columns| && columns[c.index] == c {
      SameElements(order, columns, c);
    }
    forall j | 0 <= j < |columns| ensures columns[j] in order {
      SameElements(order, columns, columns[j]);
    }
    PermutationDistinct(columns, order);
  }

  /** There is something to choose exactly when there are more columns than asked for. */
  lemma FilterGivenIff(top: bool, count: nat, resp: Response)
    requires Rectangular(resp)
    ensures GetFilter(top, count, resp).Some? <==> count < |resp.variants|
  {
  }

  /** The chosen columns: as many as asked, all different, best first, and none worse than one left out. */
  lemma ChosenColumns(top: bool, count: nat, resp: Response)
    requires Rectangular(resp) && count < |resp.variants|
    ensures var chosen, columns := GetFilter(top, count, resp).value, Columns(resp);
            && |chosen| == count && |Indices(chosen)| == count && Within(chosen, |columns|)
            && (forall a, b | 0 <= a < b < count :: chosen[a] != chosen[b] && NotAfter(top)(columns[chosen[a]], columns[chosen[b]]))
            && (forall a, j | 0 <= a < count && 0 <= j < |columns| && j !in chosen ::
                  NotAfter(top)(columns[chosen[a]], columns[j]))
  {
    var columns, order := Columns(resp), Sorted(Columns(resp), NotAfter(top));
    var chosen := GetFilter(top, count, resp).value;
    ColumnOrder(top, resp);
    forall a | 0 <= a < count ensures chosen[a] == order[a].index && columns[chosen[a]] == order[a] {
      assert order[a] in order;
    }
    forall a, j | 0 <= a < count && 0 <= j < |columns| && j !in chosen
      ensures NotAfter(top)(columns[chosen[a]], columns[j])
    {
      var k :| 0 <= k < |order| && order[k] == columns[j];
    }
    DistinctSize(chosen);
  }

  lemma PermutationDistinct(columns: seq<Column>, order: seq<Column>)
    requires multiset(order) == multiset(columns)
    requires forall i | 0 <= i < |columns| :: columns[i].index == i
    ensures forall a, b | 0 <= a < b < |order| :: order[a].index != order[b].index
  {
    forall a, b | 0 <= a < b < |order| && order[a] == order[b] ensures false {
      TwiceCounted(order, a, b);
      OnceInMultiset(columns, order[a]);
    }
    forall c | c in order ensures c.index < |columns| && columns[c.index] == c {
      SameElements(order, columns, c);
    }
  }

  lemma {:induction false} OnceInMultiset(s: seq<Column>, c: Column)
    requires forall i, j | 0 <= i < j < |s| :: s[i] != s[j]
    ensures multiset(s)[c] <= 1
  {
    if s != [] {
      assert s == s[..|s| - 1] + [s[|s| - 1]];
      OnceInMultiset(s[..|s| - 1], c);
      if c == s[|s| - 1] { assert c !in s[..|s| - 1]; assert multiset(s[..|s| - 1])[c] == 0; }
    }
  }

  lemma {:induction false} DistinctSize(s: seq<nat>)
    requires forall i, j | 0 <= i < j < |s| :: s[i] != s[j]
    ensures |Indices(s)| == |s|
  {
    if s != [] {
      var init, last := s[..|s| - 1], s[|s| - 1];
      DistinctSize(init);
      assert Indices(s) == Indices(init) + {last};
    }
  }

  ghost function Totals(resp: Response): (t: seq<real>)
    requires Rectangular(resp)
    ensures |t| == |resp.variants| && forall i | 0 <= i < |t| :: t[i] == ColumnTotal(resp.data, i)
  {
    seq(|resp.variants|, i requires 0 <= i < |resp.variants| => ColumnTotal(resp.data, i))
  }

  lemma ChosenTotals(top: bool, count: nat, resp: Response, other: set<nat>)
    requires Rectangular(resp) && count < |resp.variants|
    requires |other| == count && forall i | i in other :: i < |resp.variants|
    ensures var n, totals := |resp.variants|, Totals(resp);
            var chosen := Indices(GetFilter(top, count, resp).value);
            if top then TotalOf(totals, other, n) <= TotalOf(totals, chosen, n)
            else TotalOf(totals, chosen, n) <= TotalOf(totals, other, n)
  {
    var n, totals, picked := |resp.variants|, Totals(resp), GetFilter(top, count, resp).value;
    var chosen := Indices(picked);
    ChosenColumns(top, count, resp);
    if count == 0 {
      assert other == {} && chosen == {};
    } else {
      var v := totals[picked[count - 1]];
      forall i | 0 <= i < n
        ensures if (i in chosen) == top then totals[i] >= v else totals[i] <= v
      {
        if i in chosen {
          var a :| 0 <= a < count && picked[a] == i;
          assert a < count - 1 ==> NotAfter(top)(Columns(resp)[picked[a]], Columns(resp)[picked[count - 1]]);
        } else {
          assert i !in picked;
          assert NotAfter(top)(Columns(resp)[picked[count - 1]], Columns(resp)[i]);
        }
      }
      if top {
        SeparatedIsLargest(totals, chosen, other, v);
      } else {
        NegatedTotals(totals, chosen, n);
        NegatedTotals(totals, other, n);
        SeparatedIsLargest(Negated(totals), chosen, other, -v);
      }
    }
  }

  /** Everything the columns in s hold in these rows, added up row by row. */
  ghost function GrandTotal(data: seq<Row>, s: set<nat>, n: nat): real
    requires forall r | r in data :: |r.values| == n
  {
    if data == [] then 0.0 else TotalOf(data[0].values, s, n) + GrandTotal(data[1..], s, n)
  }

  lemma {:induction false} TotalOfSum(a: seq<real>, b: seq<real>, c: seq<real>, s: set<nat>, n: nat)
    requires n <= |a| && n <= |b| && n <= |c| && forall i | 0 <= i < n :: c[i] == a[i] + b[i]
    ensures TotalOf(c, s, n) == TotalOf(a, s, n) + TotalOf(b, s, n)
  {
    if n > 0 { TotalOfSum(a, b, c, s, n - 1); }
  }

  lemma {:induction false} TotalOfZeros(a: seq<real>, s: set<nat>, n: nat)
    requires n <= |a| && forall i | 0 <= i < n :: a[i] == 0.0
    ensures TotalOf(a, s, n) == 0.0
  {
    if n > 0 { TotalOfZeros(a, s, n - 1); }
  }

  lemma {:induction false} GrandTotalAppend(data: seq<Row>, r: Row, s: set<nat>, n: nat)
    requires |r.values| == n && forall x | x in data :: |x.values| == n
    ensures forall x | x in data + [r] :: |x.values| == n
    ensures GrandTotal(data + [r], s, n) == GrandTotal(data, s, n) + TotalOf(r.values, s, n)
  {
    if data == [] {
      assert data + [r] == [r] && [r][1..] == [];
    } else {
      assert (data + [r])[1..] == data[1..] + [r];
      GrandTotalAppend(data[1..], r, s, n);
    }
  }

  /** Adding up column totals is adding up the rows. */
  lemma {:induction false} ColumnsAddUp(resp: Response, s: set<nat>)
    requires Rectangular(resp)
    ensures TotalOf(Totals(resp), s, |resp.variants|) == GrandTotal(resp.data, s, |resp.variants|)
    decreases |resp.data|
  {
    var n, data := |resp.variants|, resp.data;
    if data == [] {
      TotalOfZeros(Totals(resp), s, n);
    } else {
      var init, last := data[..|data| - 1], data[|data| - 1];
      var before := Response(resp.variants, init);
      ColumnsAddUp(before, s);
      TotalOfSum(Totals(before), last.values, Totals(resp), s, n);
      GrandTotalAppend(init, last, s, n);
      assert data == init + [last];
    }
  }

  /** No other choice of as many columns holds more in all rows together (less, for bot). */
  lemma ChosenIsExtreme(top: bool, count: nat, resp: Response, other: set<nat>)
    requires Rectangular(resp) && count < |resp.variants|
    requires |other| == count && forall i | i in other :: i < |resp.variants|
    ensures var n, chosen := |resp.variants|, Indices(GetFilter(top, count, resp).value);
            if top then GrandTotal(resp.data, other, n) <= GrandTotal(resp.data, chosen, n)
            else GrandTotal(resp.data, chosen, n) <= GrandTotal(resp.data, other, n)
  {
    ChosenTotals(top, count, resp, other);
    ColumnsAddUp(resp, other);
    ColumnsAddUp(resp, Indices(GetFilter(top, count, resp).value));
  }

  ghost function Negated(totals: seq<real>): (r: seq<real>)
    ensures |r| == |totals| && forall i | 0 <= i < |r| :: r[i] == -totals[i]
  {
    seq(|totals|, i requires 0 <= i < |totals| => -totals[i])
  }

  lemma {:induction false} NegatedTotals(totals: seq<real>, s: set<nat>, n: nat)
    requires n <= |totals|
    ensures TotalOf(Negated(totals), s, n) == -TotalOf(totals, s, n)
  {
    if n > 0 { NegatedTotals(totals, s, n - 1); }
  }

  // ---------- projection ----------

  function ProjectRow(row: Row, chosen: seq<nat>): Row
    requires Within(chosen, |row.values|)
  {
    Row(row.stamp, seq(|chosen|, j requires 0 <= j < |chosen| => row.values[chosen[j]]))
  }

  /** Row k of the response reads value under the variant called name. */
  ghost predicate Reading(resp: Response, k: nat, name: string, value: real)
    requires k < |resp.data|
  {
    exists i :: 0 <= i < |resp.variants| && i < |resp.data[k].values|
                && resp.variants[i] == name && resp.data[k].values[i] == value
  }

  ghost predicate DistinctNames(resp: Response) {
    forall i, j | 0 <= i < j < |resp.variants| :: resp.variants[i] != resp.variants[j]
  }

  /** With distinct variant names a row reads one value per name. */
  lemma ReadingUnique(resp: Response, k: nat, name: string, x: real, y: real)
    requires k < |resp.data| && DistinctNames(resp)
    requires Reading(resp, k, name, x) && Reading(resp, k, name, y)
    ensures x == y
  {
  }

  method Project(resp: Response, chosen: seq<nat>) returns (projected: Response)
    requires Rectangular(resp) && Within(chosen, |resp.variants|)
    ensures Rectangular(projected) && |projected.variants| == |chosen| && |projected.data| == |resp.data|
    ensures forall k | 0 <= k < |resp.data| :: projected.data[k].stamp == resp.data[k].stamp
    ensures forall k, j | 0 <= k < |resp.data| && 0 <= j < |chosen| ::
              Reading(resp, k, projected.variants[j], projected.data[k].values[j])
    ensures forall j | 0 <= j < |chosen| :: projected.variants[j] == resp.variants[chosen[j]]
    ensures DistinctNames(resp) ==>
              forall k, j, value | 0 <= k < |resp.data| && 0 <= j < |chosen| && Reading(resp, k, projected.variants[j], value) ::
                projected.data[k].values[j] == value
  {
    var variants := seq(|chosen|, j requires 0 <= j < |chosen| => resp.variants[chosen[j]]);
    var data: seq<Row> := [];
    for k := 0 to |resp.data|
      invariant |data| == k
      invariant forall i | 0 <= i < k :: data[i] == ProjectRow(resp.data[i], chosen)
    {
      data := data + [ProjectRow(resp.data[k], chosen)];
    }
    projected := Response(variants, data);
    forall k, j | 0 <= k < |resp.data| && 0 <= j < |chosen| ensures Reading(resp, k, variants[j], data[k].values[j]) {
      assert data[k] == ProjectRow(resp.data[k], chosen);
      assert resp.variants[chosen[j]] == variants[j] && resp.data[k].values[chosen[j]] == data[k].values[j];
    }
    forall k, j, value | DistinctNames(resp) && 0 <= k < |resp.data| && 0 <= j < |chosen| && Reading(resp, k, variants[j], value)
      ensures data[k].values[j] == value
    {
      ReadingUnique(resp, k, variants[j], value, data[k].values[j]);
    }
  }

  // ---------- percentiles ----------

  function Round(x: real): int {
    (x + 0.5).Floor
  }

  /** The index perc-p reads in a sorted row of n values. */
  function PercentileIndex(p: real, n: nat): int {
    Round(p * (n as real - 1.0))
  }

  lemma Scaled(p: real, m: real)
    requires p >= 0.0 && m >= 0.0
    ensures p * m >= 0.0 && (p <= 1.0 ==> p * m <= m)
  {
    if p <= 1.0 {
      assert (1.0 - p) * m >= 0.0;
    }
  }

  lemma RoundBelow(x: real, n: nat)
    requires x >= 0.0 && n > 0
    ensures 0 <= Round(x) < n <==> x < n as real - 0.5
  {
  }

  /** For the percentages the query syntax can write, the index lies in the row exactly below this bound. */
  lemma PercentileInBoundsIff(p: real, n: nat)
    requires p >= 0.0 && n > 0
    ensures 0 <= PercentileIndex(p, n) < n <==> p * (n as real - 1.0) < n as real - 0.5
  {
    Scaled(p, n as real - 1.0);
    RoundBelow(p * (n as real - 1.0), n);
  }

  /** i is the whole number nearest to x, the upper one when two are. */
  predicate Nearest(i: int, x: real) {
    i as real - 0.5 <= x < i as real + 0.5
  }

  /** The index is p (n - 1) rounded to the nearest whole number, and no other number is. */
  lemma PercentileIndexNearest(p: real, n: nat, i: int)
    ensures Nearest(i, p * (n as real - 1.0)) <==> i == PercentileIndex(p, n)
  {
    var x := p * (n as real - 1.0);
    assert Nearest(Round(x), x);
  }

  lemma ShareWithin(p: real, m: real, x: real)
    requires 0.0 <= p <= 1.0 && m >= 0.0 && x == p * m
    ensures 0.0 <= x <= m
  {
    Scaled(p, m);
  }

  lemma NearestWithin(i: int, x: real, n: nat)
    requires Nearest(i, x) && 0.0 <= x <= n as real - 1.0
    ensures 0 <= i < n
  {
  }

  /** The nearest whole number to a share of n - 1 is an index of n values. */
  lemma PercentageInBounds(p: real, n: nat, i: int)
    requires 0.0 <= p <= 1.0 && n > 0 && Nearest(i, p * (n as real - 1.0))
    ensures 0 <= i < n
  {
    var x := p * (n as real - 1.0);
    assert 0.0 <= x <= n as real - 1.0 by { ShareWithin(p, n as real - 1.0, x); }
    NearestWithin(i, x, n);
  }

  /** A percentage above 1, which the query syntax allows, can miss the row: perc-2 of two values has no result. */
  lemma PercentileOutOfBounds()
    ensures PercentileIndex(2.0, 2) == 2 && Percentile([1.0, 3.0], 2.0) == None
  {
    assert 2.0 * (2 as real - 1.0) == 2.0;
  }

  const Ascending: (real, real) -> bool := (a: real, b: real) => a <= b

  /** undefined when the index misses the row. */
  function Percentile(row: seq<real>, p: real): Option<real> {
    var n := PercentileIndex(p, |row|);
    if 0 <= n < |row| then Some(Sorted(row, Ascending)[n]) else None
  }

  function CountBelow(row: seq<real>, v: real): nat {
    if row == [] then 0 else CountBelow(row[1..], v) + if row[0] <= v then 1 else 0
  }

  function CountAbove(row: seq<real>, v: real): nat {
    if row == [] then 0 else CountAbove(row[1..], v) + if row[0] >= v then 1 else 0
  }

  lemma {:induction false} CountsOfInsert(x: real, s: seq<real>, v: real)
    ensures CountBelow(Insert(x, s, Ascending), v) == CountBelow(s, v) + if x <= v then 1 else 0
    ensures CountAbove(Insert(x, s, Ascending), v) == CountAbove(s, v) + if x >= v then 1 else 0
  {
    if s != [] && !(x <= s[0]) {
      CountsOfInsert(x, s[1..], v);
      assert Insert(x, s, Ascending)[1..] == Insert(x, s[1..], Ascending);
    } else {
      assert ([x] + s)[1..] == s;
    }
  }

  lemma {:induction false} CountsOfSorted(s: seq<real>, v: real)
    ensures CountBelow(Sorted(s, Ascending), v) == CountBelow(s, v)
    ensures CountAbove(Sorted(s, Ascending), v) == CountAbove(s, v)
  {
    if s != [] {
      CountsOfSorted(s[1..], v);
      CountsOfInsert(s[0], Sorted(s[1..], Ascending), v);
    }
  }

  lemma {:induction false} CountsByPosition(s: seq<real>, v: real, k: nat)
    requires k <= |s| && (forall i | 0 <= i < k :: s[i] <= v) && (forall i | k <= i < |s| :: s[i] >= v)
    ensures CountBelow(s, v) >= k && CountAbove(s, v) >= |s| - k
  {
    if s != [] { CountsByPosition(s[1..], v, if k > 0 then k - 1 else 0); }
  }

  /** The percentile of a row is its order statistic at the nearest whole number to p (n - 1): enough entries are at
      most it and enough at least it. */
  lemma PercentileIsOrderStatistic(row: seq<real>, p: real, rank: int)
    requires row != [] && 0.0 <= p <= 1.0 && Nearest(rank, p * (|row| as real - 1.0))
    ensures 0 <= rank < |row| && Percentile(row, p).Some?
    ensures var v := Percentile(row, p).value;
            v in row && CountBelow(row, v) >= rank + 1 && CountAbove(row, v) >= |row| - rank
  {
    assert rank == PercentileIndex(p, |row|) by { PercentileIndexNearest(p, |row|, rank); }
    assert 0 <= rank < |row| by { PercentageInBounds(p, |row|, rank); }
    PercentileAt(row, p, rank);
    RankIsOrderStatistic(row, rank);
  }

  lemma PercentileAt(row: seq<real>, p: real, n: nat)
    requires n < |row| && n == PercentileIndex(p, |row|)
    ensures Percentile(row, p) == Some(Sorted(row, Ascending)[n])
  {
  }

  lemma RankIsOrderStatistic(row: seq<real>, n: nat)
    requires n < |row|
    ensures var v := Sorted(row, Ascending)[n];
            v in row && CountBelow(row, v) >= n + 1 && CountAbove(row, v) >= |row| - n
  {
    var s := Sorted(row, Ascending);
    var v := s[n];
    SortedIsSorted(row, Ascending);
    forall i | 0 <= i < |s| ensures (i <= n ==> s[i] <= v) && (i >= n ==> s[i] >= v) {
      if i < n { assert Ascending(s[i], s[n]); }
      if n < i { assert Ascending(s[n], s[i]); }
    }
    CountsByPosition(s, v, n + 1);
    CountsByPosition(s, v, n);
    CountsOfSorted(row, v);
    SameElements(s, row, v);
  }

  /** The median of three values is the middle one. */
  lemma MedianOfThree()
    ensures Percentile([3.0, 1.0, 2.0], 0.5) == Some(2.0)
  {
    assert 0.5 * (3 as real - 1.0) == 1.0;
    PercentileIndexNearest(0.5, 3, 1);
    assert [3.0, 1.0, 2.0][1..] == [1.0, 2.0] && [1.0, 2.0][1..] == [2.0] && [2.0][1..] == [];
    assert Sorted([2.0], Ascending) == [2.0];
    assert Sorted([1.0, 2.0], Ascending) == [1.0, 2.0];
    assert Sorted([3.0, 1.0, 2.0], Ascending) == [1.0, 2.0, 3.0] by {
      assert Insert(3.0, [1.0, 2.0], Ascending) == [1.0] + Insert(3.0, [2.0], Ascending) by { assert [1.0, 2.0][1..] == [2.0]; }
      assert Insert(3.0, [2.0], Ascending) == [2.0] + Insert(3.0, [], Ascending) by { assert [2.0][1..] == []; }
    }
  }
}
