/** Runs of incremental refreshes against one full fetch: when appending from the cached end loses and
    repeats nothing. */
module RefreshRuns {
  import opened Wrappers
  import opened Dates
  import opened BlobCache
  import opened Thinning

  /** The rows that carry at least one value; the others are not stored. */
  function Filled(rows: seq<Row>): seq<Row> {
    if rows == [] then []
    else (if rows[0].values != [] then [rows[0]] else []) + Filled(rows[1..])
  }

  /** What one full fetch of the range would store. */
  function FullFetch(series: seq<Row>, range: Range): seq<Row> {
    Filled(Between(series, ToMins(range.0), ToMins(range.1)))
  }

  function Max(a: int, b: int): int {
    if a >= b then a else b
  }

  /** The rows of one fetch that are stored, thinned when there is a resolution. */
  function Batch(series: seq<Row>, range: Range, resolution: Option<int>): seq<Row> {
    var rows := Between(series, ToMins(range.0), ToMins(range.1));
    Filled(if resolution.Some? then Thinned(rows, 0, resolution.value) else rows)
  }

  /** The rows stored by a refresh that reuses cached rows: those still in range, then the rows after the cached end. */
  function Appended(cached: seq<Row>, cachedEnd: int, series: seq<Row>, range: Range, size: nat, resolution: Option<int>): seq<Row>
    requires size > 0
  {
    ReadChunks(Split(cached, size), Some((range.0, cachedEnd)))
    + Batch(series, (Max(range.0, cachedEnd + MINUTE), range.1), resolution)
  }

  // ---------- filters ----------

  lemma {:induction false} FilledMember(rows: seq<Row>, r: Row)
    ensures r in Filled(rows) <==> r in rows && r.values != []
  {
    if rows != [] {
      FilledMember(rows[1..], r);
      assert rows == [rows[0]] + rows[1..];
    }
  }

  /** What a full fetch stores: the rows of the range, by rounded minutes, that carry a value. */
  lemma FullFetchMember(series: seq<Row>, range: Range, r: Row)
    ensures r in FullFetch(series, range) <==> r in series && RoundedIn(range, r) && r.values != []
  {
    FilledMember(Between(series, ToMins(range.0), ToMins(range.1)), r);
    BetweenMember(series, ToMins(range.0), ToMins(range.1), r);
  }

  lemma {:induction false} FilledAppend(x: seq<Row>, y: seq<Row>)
    ensures Filled(x + y) == Filled(x) + Filled(y)
  {
    if x == [] {
      assert x + y == y;
    } else {
      assert (x + y)[1..] == x[1..] + y;
      FilledAppend(x[1..], y);
    }
  }

  lemma {:induction false} FilledBetween(rows: seq<Row>, a: int, b: int)
    ensures Between(Filled(rows), a, b) == Filled(Between(rows, a, b))
  {
    if rows != [] {
      FilledBetween(rows[1..], a, b);
      var head := if rows[0].values != [] then [rows[0]] else [];
      BetweenAppend(head, Filled(rows[1..]), a, b);
      FilledAppend(if a <= rows[0].stamp <= b then [rows[0]] else [], Between(rows[1..], a, b));
      assert head != [] ==> head[1..] == [];
      assert [rows[0]][1..] == [];
    }
  }

  lemma {:induction false} BetweenBetween(rows: seq<Row>, a: int, b: int, c: int)
    requires a <= c
    ensures Between(Between(rows, a, b), c, b) == Between(rows, c, b)
  {
    if rows != [] {
      BetweenBetween(rows[1..], a, b, c);
      var head := if a <= rows[0].stamp <= b then [rows[0]] else [];
      BetweenAppend(head, Between(rows[1..], a, b), c, b);
      assert head != [] ==> head[1..] == [];
    }
  }

  lemma {:induction false} FilledIncreasing(rows: seq<Row>)
    requires Increasing(rows)
    ensures Increasing(Filled(rows)) && forall r | r in Filled(rows) :: r in rows
  {
    if rows != [] {
      FilledIncreasing(rows[1..]);
      forall r | r in Filled(rows[1..]) ensures rows[0].stamp < r.stamp {
        var i :| 0 <= i < |rows[1..]| && rows[1..][i] == r;
        assert rows[i + 1] == r;
      }
    }
  }

  lemma OneRow(r: Row, a: int, b: int)
    ensures Between([r], a, b) == if a <= r.stamp <= b then [r] else []
    ensures Filled([r]) == if r.values != [] then [r] else []
  {
    assert [r][1..] == [];
  }

  /** An increasing series splits at a minute. */
  lemma {:induction false} BetweenSplit(rows: seq<Row>, a: int, m: int, b: int)
    requires Increasing(rows) && a <= m + 1 && m <= b
    ensures Between(rows, a, m) + Between(rows, m + 1, b) == Between(rows, a, b)
  {
    if rows != [] {
      var tail, stamp := rows[1..], rows[0].stamp;
      BetweenSplit(tail, a, m, b);
      if stamp > m {
        LaterStamps(rows);
        BetweenNone(tail, a, m);
      }
      var p, q := if a <= stamp <= m then [rows[0]] else [], if m < stamp <= b then [rows[0]] else [];
      assert p + q == if a <= stamp <= b then [rows[0]] else [];
      JoinHead(p, Between(tail, a, m), q, Between(tail, m + 1, b));
    }
  }

  lemma JoinHead(p: seq<Row>, x: seq<Row>, q: seq<Row>, y: seq<Row>)
    requires q == [] || (p == [] && x == [])
    ensures (p + x) + (q + y) == (p + q) + (x + y)
  {
  }

  lemma LaterStamps(rows: seq<Row>)
    requires Increasing(rows) && rows != []
    ensures forall r | r in rows[1..] :: rows[0].stamp < r.stamp
  {
    forall r | r in rows[1..] ensures rows[0].stamp < r.stamp {
      var i :| 0 <= i < |rows[1..]| && rows[1..][i] == r;
      assert rows[i + 1] == r;
    }
  }

  lemma FullFetchIncreasing(series: seq<Row>, range: Range)
    requires Increasing(series)
    ensures Increasing(FullFetch(series, range))
  {
    BetweenIncreasing(series, ToMins(range.0), ToMins(range.1));
    FilledIncreasing(Between(series, ToMins(range.0), ToMins(range.1)));
  }

  // ---------- one refresh ----------

  /** The refresh may reuse the cached rows: when the new start still falls in the cached minutes, it is not
      before the cached start and does not round down. */
  predicate SafeReuse(cached: Range, rangeStart: int) {
    ToMins(rangeStart) <= ToMins(cached.1) ==>
      ToMins(cached.0) <= ToMins(rangeStart) && rangeStart <= FromMins(ToMins(rangeStart))
  }

  /** What a refresh reads back of the cached rows: those of the series from the new start on. */
  lemma ReadBack(series: seq<Row>, cached: Range, rangeStart: int, size: nat)
    requires size > 0 && Increasing(series) && cached.1 % MINUTE == 0 && SafeReuse(cached, rangeStart)
    ensures ReadChunks(Split(FullFetch(series, cached), size), Some((rangeStart, cached.1)))
            == Filled(Between(series, ToMins(rangeStart), ToMins(cached.1)))
  {
    var a, e, s := ToMins(cached.0), ToMins(cached.1), ToMins(rangeStart);
    var stored := FullFetch(series, cached);
    FullFetchIncreasing(series, cached);
    ReadRounded(stored, size, (rangeStart, cached.1));
    FilledBetween(Between(series, a, e), s, e);
    if s <= e {
      BetweenBetween(series, a, e, s);
    } else {
      BetweenNone(Between(series, a, e), s, e);
      BetweenNone(series, s, e);
    }
  }

  lemma AppendIsFullFetch(series: seq<Row>, cached: Range, rangeStart: int, avail: int, size: nat)
    requires size > 0 && Increasing(series) && cached.0 <= cached.1 && cached.1 % MINUTE == 0
    requires cached.1 < FromMins(avail) && rangeStart <= FromMins(avail) && SafeReuse(cached, rangeStart)
    ensures Appended(FullFetch(series, cached), cached.1, series, (rangeStart, FromMins(avail)), size, None)
            == FullFetch(series, (rangeStart, FromMins(avail)))
  {
    var e, s := ToMins(cached.1), ToMins(rangeStart);
    ReadBack(series, cached, rangeStart, size);
    ToMinsInverse(avail);
    if s <= e {
      BetweenSplit(series, s, e, avail);
      FilledAppend(Between(series, s, e), Between(series, e + 1, avail));
    } else {
      BetweenNone(series, s, e);
    }
  }

  /** Appending equals a full fetch for every series exactly when the reuse is safe. */
  lemma AppendIsFullFetchIff(cached: Range, rangeStart: int, avail: int, size: nat)
    requires size > 0 && cached.0 <= cached.1 && cached.1 % MINUTE == 0
    requires cached.1 < FromMins(avail) && rangeStart <= FromMins(avail)
    ensures (forall series | Increasing(series) ::
               Appended(FullFetch(series, cached), cached.1, series, (rangeStart, FromMins(avail)), size, None)
               == FullFetch(series, (rangeStart, FromMins(avail))))
            <==> SafeReuse(cached, rangeStart)
  {
    if SafeReuse(cached, rangeStart) {
      forall series | Increasing(series)
        ensures Appended(FullFetch(series, cached), cached.1, series, (rangeStart, FromMins(avail)), size, None)
                == FullFetch(series, (rangeStart, FromMins(avail)))
      {
        AppendIsFullFetch(series, cached, rangeStart, avail, size);
      }
    } else {
      LostMinute(cached, rangeStart, avail, size);
      assert Increasing([Row(ToMins(rangeStart), [0.0])]);
    }
  }

  /** An unsafe reuse loses the row at the first minute of the new range. */
  lemma LostMinute(cached: Range, rangeStart: int, avail: int, size: nat)
    requires size > 0 && cached.0 <= cached.1 && cached.1 % MINUTE == 0
    requires cached.1 < FromMins(avail) && rangeStart <= FromMins(avail) && !SafeReuse(cached, rangeStart)
    ensures var series := [Row(ToMins(rangeStart), [0.0])];
            Appended(FullFetch(series, cached), cached.1, series, (rangeStart, FromMins(avail)), size, None)
            != FullFetch(series, (rangeStart, FromMins(avail)))
  {
    var r := Row(ToMins(rangeStart), [0.0]);
    var series := [r];
    ToMinsInverse(avail);
    ToMinsMonotone(rangeStart, FromMins(avail));
    OneRow(r, ToMins(cached.0), ToMins(cached.1));
    OneRow(r, ToMins(rangeStart), avail);
    OneRow(r, ToMins(Max(rangeStart, cached.1 + MINUTE)), avail);
    assert Filled([]) == [];
    var stored := FullFetch(series, cached);
    SplitJoins(stored, size);
    if stored == [r] {
      ReadSplit(stored, size, Some((rangeStart, cached.1)));
      assert stored[..First(stored, size)] == [r] && stored[First(stored, size)..] == [];
    }
  }

  // ---------- runs ----------

  datatype Cached = Cached(range: Range, rows: seq<Row>)

  datatype Request = Request(rangeStart: int, avail: Option<int>)

  /** One refresh with unchanged variants: skipped when there is nothing new in scope. */
  function Refreshed(state: Option<Cached>, request: Request, series: seq<Row>, size: nat, resolution: Option<int>): Option<Cached>
    requires size > 0
  {
    if request.avail.None? || request.rangeStart > FromMins(request.avail.value) then state
    else
      var range := (request.rangeStart, FromMins(request.avail.value));
      if state.None? then Some(Cached(range, Batch(series, range, resolution)))
      else if state.value.range.1 >= range.1 then state
      else Some(Cached(range, Appended(state.value.rows, state.value.range.1, series, range, size, resolution)))
  }

  function RunOf(requests: seq<Request>, series: seq<Row>, size: nat, resolution: Option<int>): Option<Cached>
    requires size > 0
  {
    if requests == [] then None
    else Refreshed(RunOf(requests[..|requests| - 1], series, size, resolution), requests[|requests| - 1], series, size, resolution)
  }

  /** Range starts on whole minutes that never go back (the preferred start is a start of day that only advances). */
  ghost predicate StartsAdvance(requests: seq<Request>) {
    && (forall q | q in requests :: q.rangeStart % MINUTE == 0)
    && (forall i, j | 0 <= i < j < |requests| :: requests[i].rangeStart <= requests[j].rangeStart)
  }

  /** The recorded range comes from one of the requests. */
  ghost predicate RangeOf(range: Range, requests: seq<Request>) {
    && range.0 <= range.1 && range.1 % MINUTE == 0
    && exists q :: q in requests && q.rangeStart == range.0
  }

  lemma RangeStays(range: Range, requests: seq<Request>, last: Request)
    requires RangeOf(range, requests)
    ensures RangeOf(range, requests + [last])
  {
    var q :| q in requests && q.rangeStart == range.0;
    assert q in requests + [last];
  }

  ghost predicate RangeFrom(state: Option<Cached>, requests: seq<Request>) {
    state.Some? ==> RangeOf(state.value.range, requests)
  }

  /** The request starts on a whole minute, not before the recorded range, which ends on a whole minute. */
  predicate Follows(state: Option<Cached>, last: Request) {
    && last.rangeStart % MINUTE == 0
    && (state.Some? ==> state.value.range.0 <= last.rangeStart
                        && state.value.range.0 <= state.value.range.1 && state.value.range.1 % MINUTE == 0)
  }

  lemma LaterFollows(state: Option<Cached>, requests: seq<Request>, last: Request)
    requires StartsAdvance(requests + [last]) && RangeFrom(state, requests)
    ensures Follows(state, last)
  {
    var all := requests + [last];
    assert all[|requests|] == last && last in all;
    if state.Some? {
      var q :| q in requests && q.rangeStart == state.value.range.0;
      var i :| 0 <= i < |requests| && requests[i] == q;
      assert all[i] == q;
    }
  }

  lemma StartsBefore(requests: seq<Request>, last: Request)
    requires StartsAdvance(requests + [last])
    ensures StartsAdvance(requests)
  {
    var all := requests + [last];
    assert forall i | 0 <= i < |requests| :: all[i] == requests[i];
    assert forall q | q in requests :: q in all;
  }

  lemma RefreshRange(state: Option<Cached>, requests: seq<Request>, last: Request, series: seq<Row>, size: nat, resolution: Option<int>)
    requires size > 0 && RangeFrom(state, requests)
    ensures RangeFrom(Refreshed(state, last, series, size, resolution), requests + [last])
  {
    assert last in requests + [last];
    if last.avail.Some? { FromMinsAligned(last.avail.value); }
    if state.Some? { RangeStays(state.value.range, requests, last); }
  }

  /** The recorded range of a run comes from its requests. */
  lemma {:induction false} RunRange(requests: seq<Request>, series: seq<Row>, size: nat, resolution: Option<int>)
    requires size > 0
    ensures RangeFrom(RunOf(requests, series, size, resolution), requests)
  {
    if requests != [] {
      var init, last := requests[..|requests| - 1], requests[|requests| - 1];
      assert requests == init + [last];
      RunRange(init, series, size, resolution);
      RefreshRange(RunOf(init, series, size, resolution), init, last, series, size, resolution);
    }
  }

  ghost predicate IsFullFetch(state: Option<Cached>, series: seq<Row>) {
    state.Some? ==> state.value.rows == FullFetch(series, state.value.range) && Increasing(state.value.rows)
  }

  lemma RefreshIsFullFetch(state: Option<Cached>, last: Request, series: seq<Row>, size: nat)
    requires size > 0 && Increasing(series) && Follows(state, last) && IsFullFetch(state, series)
    ensures IsFullFetch(Refreshed(state, last, series, size, None), series)
  {
    if Refreshed(state, last, series, size, None) != state {
      FullFetchIncreasing(series, (last.rangeStart, FromMins(last.avail.value)));
      if state.Some? {
        AppendedIsFull(state.value, series, last.rangeStart, last.avail.value, size);
      }
    }
  }

  lemma AppendedIsFull(cached: Cached, series: seq<Row>, rangeStart: int, avail: int, size: nat)
    requires size > 0 && Increasing(series) && cached.rows == FullFetch(series, cached.range)
    requires cached.range.0 <= cached.range.1 < FromMins(avail) && cached.range.1 % MINUTE == 0
    requires cached.range.0 <= rangeStart <= FromMins(avail) && rangeStart % MINUTE == 0
    ensures Appended(cached.rows, cached.range.1, series, (rangeStart, FromMins(avail)), size, None)
            == FullFetch(series, (rangeStart, FromMins(avail)))
  {
    AlignedReuse(cached.range, rangeStart);
    AppendIsFullFetch(series, cached.range, rangeStart, avail, size);
  }

  /** A later start on a whole minute may always reuse. */
  lemma AlignedReuse(cached: Range, rangeStart: int)
    requires cached.0 <= rangeStart && rangeStart % MINUTE == 0
    ensures SafeReuse(cached, rangeStart)
  {
    ToMinsMonotone(cached.0, rangeStart);
    ToMinsNearest(rangeStart);
  }

  /** After any such run without thinning the stored rows strictly increase and are what one full fetch of the
      recorded range would store: nothing is lost and nothing repeated. */
  lemma {:induction false} RunIsFullFetch(requests: seq<Request>, series: seq<Row>, size: nat)
    requires size > 0 && Increasing(series) && StartsAdvance(requests)
    ensures IsFullFetch(RunOf(requests, series, size, None), series)
    ensures RangeFrom(RunOf(requests, series, size, None), requests)
  {
    RunRange(requests, series, size, None);
    if requests != [] {
      var init, last := requests[..|requests| - 1], requests[|requests| - 1];
      assert requests == init + [last];
      StartsBefore(init, last);
      RunIsFullFetch(init, series, size);
      LaterFollows(RunOf(init, series, size, None), init, last);
      RefreshIsFullFetch(RunOf(init, series, size, None), last, series, size);
    }
  }

  // ---------- with thinning ----------

  lemma {:induction false} ThinnedIncreasing(rows: seq<Row>, prev: int, resolution: int)
    requires Increasing(rows)
    ensures Increasing(Thinned(rows, prev, resolution))
  {
    if rows != [] {
      var kept := rows[0].stamp - prev >= resolution;
      ThinnedIncreasing(rows[1..], if kept then rows[0].stamp else prev, resolution);
      if kept {
        ThinnedWithin(rows[1..], rows[0].stamp, resolution);
        LaterStamps(rows);
      }
    }
  }

  lemma BatchWithin(series: seq<Row>, range: Range, resolution: Option<int>, r: Row)
    requires Increasing(series)
    ensures Increasing(Batch(series, range, resolution))
    ensures r in Batch(series, range, resolution) ==> r in FullFetch(series, range)
  {
    var rows := Between(series, ToMins(range.0), ToMins(range.1));
    BetweenIncreasing(series, ToMins(range.0), ToMins(range.1));
    FilledMember(rows, r);
    if resolution.Some? {
      ThinnedIncreasing(rows, 0, resolution.value);
      ThinnedWithin(rows, 0, resolution.value);
      FilledMember(Thinned(rows, 0, resolution.value), r);
      FilledIncreasing(Thinned(rows, 0, resolution.value));
    } else {
      FilledIncreasing(rows);
    }
  }

  ghost predicate WithinFullFetch(state: Option<Cached>, series: seq<Row>) {
    state.Some? ==> Increasing(state.value.rows) && forall r | r in state.value.rows :: r in FullFetch(series, state.value.range)
  }

  /** What is read back comes before the cached end, what is fetched after it. */
  lemma AppendedWithin(cached: Cached, series: seq<Row>, range: Range, size: nat, resolution: Option<int>)
    requires size > 0 && Increasing(series) && Increasing(cached.rows) && cached.range.1 % MINUTE == 0
    requires forall r | r in cached.rows :: r in FullFetch(series, cached.range)
    requires cached.range.0 <= range.0 && cached.range.1 < range.1
    ensures var rows := Appended(cached.rows, cached.range.1, series, range, size, resolution);
            Increasing(rows) && forall r | r in rows :: r in FullFetch(series, range)
  {
    var back := ReadChunks(Split(cached.rows, size), Some((range.0, cached.range.1)));
    var next := (Max(range.0, cached.range.1 + MINUTE), range.1);
    var batch, end := Batch(series, next, resolution), ToMins(cached.range.1);
    ReadSandwich(cached.rows, size, (range.0, cached.range.1));
    ToMinsMonotone(cached.range.1, range.1);
    ToMinsMonotone(range.0, next.0);
    ToMinsMonotone(cached.range.1 + MINUTE, next.0);
    forall r | r in back ensures r in FullFetch(series, range) && r.stamp <= end {
      FullFetchMember(series, cached.range, r);
      FullFetchMember(series, range, r);
    }
    BatchWithin(series, next, resolution, Row(0, []));
    forall r | r in batch ensures r in FullFetch(series, range) && end < r.stamp {
      BatchWithin(series, next, resolution, r);
      FullFetchMember(series, next, r);
      FullFetchMember(series, range, r);
    }
    JoinAt(back, batch, end);
  }

  lemma JoinAt(x: seq<Row>, y: seq<Row>, m: int)
    requires Increasing(x) && Increasing(y) && (forall r | r in x :: r.stamp <= m) && (forall r | r in y :: m < r.stamp)
    ensures Increasing(x + y)
  {
    forall i | 0 <= i < |x| ensures x[i].stamp <= m { assert x[i] in x; }
    forall j | 0 <= j < |y| ensures m < y[j].stamp { assert y[j] in y; }
  }

  /** The rows a fetch stores: those with a value that lie at least the resolution after the last one kept before. */
  lemma BatchMember(series: seq<Row>, range: Range, resolution: Option<int>, r: Row)
    requires Increasing(series)
    ensures var rows := Between(series, ToMins(range.0), ToMins(range.1));
            r in Batch(series, range, resolution) <==>
            r.values != [] && exists k :: 0 <= k < |rows| && rows[k] == r && KeptAt(rows, k, resolution)
  {
    var rows := Between(series, ToMins(range.0), ToMins(range.1));
    BetweenIncreasing(series, ToMins(range.0), ToMins(range.1));
    FilledMember(rows, r);
    if resolution.Some? {
      FilledMember(Thinned(rows, 0, resolution.value), r);
      ThinnedWithin(rows, 0, resolution.value);
      forall k | 0 <= k < |rows| ensures rows[k] in Thinned(rows, 0, resolution.value) <==> KeptAt(rows, k, resolution) {
        KeptIff(rows, k, resolution.value);
      }
    }
  }

  ghost predicate KeptAt(rows: seq<Row>, k: nat, resolution: Option<int>)
    requires k < |rows|
  {
    resolution.Some? ==> rows[k].stamp - LastKept(rows[..k], 0, resolution.value) >= resolution.value
  }

  /** Reading back loses of the stored rows only those before the new start. */
  lemma ReadBackMember(cached: Cached, series: seq<Row>, size: nat, start: int, r: Row)
    requires size > 0 && WithinFullFetch(Some(cached), series)
    requires start % MINUTE == 0 && cached.range.1 % MINUTE == 0
    ensures r in ReadChunks(Split(cached.rows, size), Some((start, cached.range.1))) <==>
            r in cached.rows && start <= FromMins(r.stamp)
  {
    ReadAligned(cached.rows, size, (start, cached.range.1));
    if r in cached.rows {
      FullFetchMember(series, cached.range, r);
      ToMinsNearest(cached.range.1);
    }
  }

  /** What a refresh that is not skipped stores: of the rows stored before exactly those from the new start on, and
      exactly the rows of the new fetch, which begins a minute after the end recorded before. */
  lemma RefreshStores(state: Option<Cached>, last: Request, series: seq<Row>, size: nat, resolution: Option<int>, r: Row)
    requires size > 0 && Increasing(series) && Follows(state, last) && WithinFullFetch(state, series)
    requires last.avail.Some? && last.rangeStart <= FromMins(last.avail.value)
    requires state.Some? ==> state.value.range.1 < FromMins(last.avail.value)
    ensures var after, end := Refreshed(state, last, series, size, resolution), FromMins(last.avail.value);
            && after.Some? && after.value.range == (last.rangeStart, end)
            && (r in after.value.rows <==>
                if state.None? then r in Batch(series, (last.rangeStart, end), resolution)
                else (r in state.value.rows && last.rangeStart <= FromMins(r.stamp))
                     || r in Batch(series, (Max(last.rangeStart, state.value.range.1 + 60000), end), resolution))
  {
    if state.Some? {
      ReadBackMember(state.value, series, size, last.rangeStart, r);
    }
  }

  lemma RefreshStaysWithin(state: Option<Cached>, last: Request, series: seq<Row>, size: nat, resolution: Option<int>)
    requires size > 0 && Increasing(series) && Follows(state, last) && WithinFullFetch(state, series)
    ensures WithinFullFetch(Refreshed(state, last, series, size, resolution), series)
  {
    if Refreshed(state, last, series, size, resolution) != state {
      var range := (last.rangeStart, FromMins(last.avail.value));
      if state.Some? {
        AppendedWithin(state.value, series, range, size, resolution);
      } else {
        forall r ensures r in Batch(series, range, resolution) ==> r in FullFetch(series, range) {
          BatchWithin(series, range, resolution, r);
        }
        BatchWithin(series, range, resolution, Row(0, []));
      }
    }
  }

  /** With or without thinning, after any such run the stored rows strictly increase, so nothing is stored twice,
      and all of them are rows a full fetch of the recorded range would store. */
  lemma {:induction false} RunStaysWithin(requests: seq<Request>, series: seq<Row>, size: nat, resolution: Option<int>)
    requires size > 0 && Increasing(series) && StartsAdvance(requests)
    ensures WithinFullFetch(RunOf(requests, series, size, resolution), series)
  {
    if requests != [] {
      var init, last := requests[..|requests| - 1], requests[|requests| - 1];
      assert requests == init + [last];
      StartsBefore(init, last);
      RunStaysWithin(init, series, size, resolution);
      RunRange(init, series, size, resolution);
      LaterFollows(RunOf(init, series, size, resolution), init, last);
      RefreshStaysWithin(RunOf(init, series, size, resolution), last, series, size, resolution);
    }
  }

  // ---------- answering from the cache ----------

  function Min(a: int, b: int): int {
    if a <= b then a else b
  }

  lemma {:induction false} BetweenNarrowed(rows: seq<Row>, a: int, e: int, s: int, t: int)
    requires a <= s
    ensures Between(Between(rows, a, e), s, t) == Between(rows, s, Min(t, e))
  {
    if rows != [] {
      BetweenNarrowed(rows[1..], a, e, s, t);
      var head := if a <= rows[0].stamp <= e then [rows[0]] else [];
      BetweenAppend(head, Between(rows[1..], a, e), s, t);
      assert head != [] ==> head[1..] == [];
    }
  }

  /** A read of rows stored for a range that starts no later answers with the filter of the whole series,
      up to the end of what is stored. */
  lemma CacheAnswers(series: seq<Row>, cached: Range, range: Range, size: nat)
    requires size > 0 && Increasing(series) && cached.0 <= range.0 && RoundsOutward(range)
    ensures ReadChunks(Split(FullFetch(series, cached), size), Some(range))
            == Filled(Between(series, ToMins(range.0), Min(ToMins(range.1), ToMins(cached.1))))
  {
    var a, e, s, t := ToMins(cached.0), ToMins(cached.1), ToMins(range.0), ToMins(range.1);
    FullFetchIncreasing(series, cached);
    ReadRounded(FullFetch(series, cached), size, range);
    FilledBetween(Between(series, a, e), s, t);
    ToMinsMonotone(cached.0, range.0);
    BetweenNarrowed(series, a, e, s, t);
  }

  /** Between the exact and the rounded range of the whole series, up to the end of what is stored. */
  ghost predicate Sandwiched(read: seq<Row>, series: seq<Row>, range: Range, end: int) {
    && Increasing(read)
    && (forall r | r in read :: r in series && r.values != [] && RoundedIn(range, r) && r.stamp <= ToMins(end))
    && (forall r | r in series && r.values != [] && ExactlyIn(range, r) && r.stamp <= ToMins(end) :: r in read)
  }

  /** The same for any range at all: what the cache answers lies between the exact and the rounded filter. */
  lemma CacheSandwich(series: seq<Row>, cached: Range, range: Range, size: nat)
    requires size > 0 && Increasing(series) && cached.0 <= range.0
    ensures Sandwiched(ReadChunks(Split(FullFetch(series, cached), size), Some(range)), series, range, cached.1)
  {
    FullFetchIncreasing(series, cached);
    ReadSandwich(FullFetch(series, cached), size, range);
    ToMinsMonotone(cached.0, range.0);
    var read := ReadChunks(Split(FullFetch(series, cached), size), Some(range));
    forall r | r in read ensures r in series && r.values != [] && r.stamp <= ToMins(cached.1) {
      FullFetchMember(series, cached, r);
    }
    forall r | r in series && r.values != [] && ExactlyIn(range, r) && r.stamp <= ToMins(cached.1) ensures r in read {
      ExactIsRounded(range, r);
      FullFetchMember(series, cached, r);
    }
  }
}
