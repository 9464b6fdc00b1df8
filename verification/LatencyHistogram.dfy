/** The latency histogram merged from the database and the maintainers, and its split by operation. */
module LatencyHistogram {
  import opened Wrappers

  datatype Cell = Cell(operation: int, latency: real, blockSize: real)

  /** One entry of the merged result, or one contribution to it. */
  datatype Entry = Entry(cell: Cell, count: int)

  datatype Pool = Pool(id: int, name: string)

  datatype System = System(name: string, pools: seq<Pool>)

  /** A row of a maintainer's latency analysis: both exponents of two, and a count. */
  datatype Analysis = Analysis(latencyExp: int, blockSizeExp: int, count: int)

  datatype Filter = Filter(poolIds: seq<int>, operations: seq<int>, latencies: seq<real>, blockSizes: seq<real>)

  const READ: int := 1
  const WRITE: int := 2

  function PowerOfTwo(e: int): real
    decreases if e < 0 then -e else e
  {
    if e == 0 then 1.0 else if e > 0 then 2.0 * PowerOfTwo(e - 1) else PowerOfTwo(e + 1) / 2.0
  }

  predicate IsEmptyOrContains<T(==)>(data: seq<T>, item: T) {
    data == [] || item in data
  }

  // ---------- merging into one keyed map, in order of first occurrence ----------

  /** Adds a count to the entry of its cell, or appends the cell with it. */
  function Add(result: seq<Entry>, e: Entry): seq<Entry> {
    if result == [] then [e]
    else if result[0].cell == e.cell then [Entry(e.cell, result[0].count + e.count)] + result[1..]
    else [result[0]] + Add(result[1..], e)
  }

  function AddAll(result: seq<Entry>, more: seq<Entry>): seq<Entry>
    decreases |more|
  {
    if more == [] then result else AddAll(Add(result, more[0]), more[1..])
  }

  predicate Holds(entries: seq<Entry>, cell: Cell) {
    exists i | 0 <= i < |entries| :: entries[i].cell == cell
  }

  ghost predicate OncePerCell(result: seq<Entry>) {
    forall i, j | 0 <= i < j < |result| :: result[i].cell != result[j].cell
  }

  function Total(entries: seq<Entry>): int {
    if entries == [] then 0 else entries[0].count + Total(entries[1..])
  }

  /** The part of the total that falls to one cell. */
  function TotalAt(entries: seq<Entry>, cell: Cell): int {
    if entries == [] then 0 else (if entries[0].cell == cell then entries[0].count else 0) + TotalAt(entries[1..], cell)
  }

  lemma {:induction false} AddAllAppend(result: seq<Entry>, a: seq<Entry>, b: seq<Entry>)
    ensures AddAll(AddAll(result, a), b) == AddAll(result, a + b)
    decreases |a|
  {
    if a == [] {
      assert a + b == b;
    } else {
      assert (a + b)[1..] == a[1..] + b;
      AddAllAppend(Add(result, a[0]), a[1..], b);
    }
  }

  lemma {:induction false} AddTotals(result: seq<Entry>, e: Entry, cell: Cell)
    ensures Total(Add(result, e)) == Total(result) + e.count
    ensures TotalAt(Add(result, e), cell) == TotalAt(result, cell) + if cell == e.cell then e.count else 0
  {
    if result == [] {
      assert [e][1..] == [];
    } else if result[0].cell == e.cell {
      var r := [Entry(e.cell, result[0].count + e.count)] + result[1..];
      assert r[1..] == result[1..];
    } else {
      AddTotals(result[1..], e, cell);
      assert ([result[0]] + Add(result[1..], e))[1..] == Add(result[1..], e);
    }
  }

  lemma {:induction false} AddCells(result: seq<Entry>, e: Entry)
    requires OncePerCell(result)
    ensures OncePerCell(Add(result, e))
    ensures forall i | 0 <= i < |Add(result, e)| :: Holds(result, Add(result, e)[i].cell) || Add(result, e)[i].cell == e.cell
  {
    if result != [] && result[0].cell != e.cell {
      AddCells(result[1..], e);
      var rest := Add(result[1..], e);
      forall i | 0 <= i < |rest| && Holds(result[1..], rest[i].cell)
        ensures Holds(result, rest[i].cell) && rest[i].cell != result[0].cell
      {
        var k :| 0 <= k < |result[1..]| && result[1..][k].cell == rest[i].cell;
        assert result[k + 1].cell == rest[i].cell;
      }
    }
  }

  /** Merging keeps the total, overall and in every cell, and never repeats a cell. */
  lemma {:induction false} AddAllTotals(result: seq<Entry>, more: seq<Entry>, cell: Cell)
    requires OncePerCell(result)
    ensures OncePerCell(AddAll(result, more))
    ensures Total(AddAll(result, more)) == Total(result) + Total(more)
    ensures TotalAt(AddAll(result, more), cell) == TotalAt(result, cell) + TotalAt(more, cell)
    decreases |more|
  {
    if more != [] {
      AddTotals(result, more[0], cell);
      AddCells(result, more[0]);
      AddAllTotals(Add(result, more[0]), more[1..], cell);
    }
  }

  lemma HoldsHead(e: Entry, entries: seq<Entry>, cell: Cell)
    ensures Holds([e] + entries, cell) <==> e.cell == cell || Holds(entries, cell)
  {
    if i :| 0 <= i < |entries| && entries[i].cell == cell {
      assert ([e] + entries)[i + 1].cell == cell;
    }
    assert ([e] + entries)[0] == e;
  }

  lemma {:induction false} AddHolds(result: seq<Entry>, e: Entry, cell: Cell)
    ensures Holds(Add(result, e), cell) <==> Holds(result, cell) || e.cell == cell
  {
    if result == [] {
      assert [e][0].cell == e.cell;
    } else {
      HoldsHead(result[0], result[1..], cell);
      assert [result[0]] + result[1..] == result;
      if result[0].cell == e.cell {
        HoldsHead(Entry(e.cell, result[0].count + e.count), result[1..], cell);
      } else {
        AddHolds(result[1..], e, cell);
        HoldsHead(result[0], Add(result[1..], e), cell);
      }
    }
  }

  /** Exactly the cells that contributed have an entry. */
  lemma {:induction false} AddAllHolds(result: seq<Entry>, more: seq<Entry>, cell: Cell)
    ensures Holds(AddAll(result, more), cell) <==> Holds(result, cell) || Holds(more, cell)
    decreases |more|
  {
    if more != [] {
      AddHolds(result, more[0], cell);
      HoldsHead(more[0], more[1..], cell);
      assert [more[0]] + more[1..] == more;
      AddAllHolds(Add(result, more[0]), more[1..], cell);
    }
  }

  /** In a result without repeated cells the entry of a cell carries all of its count. */
  lemma {:induction false} EntryIsCellTotal(result: seq<Entry>, i: nat)
    requires OncePerCell(result) && i < |result|
    ensures TotalAt(result, result[i].cell) == result[i].count
  {
    if i > 0 {
      EntryIsCellTotal(result[1..], i - 1);
    } else {
      NoOtherCell(result[1..], result[0].cell);
    }
  }

  lemma {:induction false} NoOtherCell(entries: seq<Entry>, cell: Cell)
    requires forall i | 0 <= i < |entries| :: entries[i].cell != cell
    ensures TotalAt(entries, cell) == 0
  {
    if entries != [] { NoOtherCell(entries[1..], cell); }
  }

  // ---------- which maintainer rows count ----------

  /** One row a maintainer reports, with where it comes from. */
  datatype Reported = Reported(pool: int, operation: int, row: Analysis)

  function CellOf(r: Reported): Cell {
    Cell(r.operation, PowerOfTwo(r.row.latencyExp), PowerOfTwo(r.row.blockSizeExp))
  }

  predicate Passes(filter: Filter, r: Reported) {
    && IsEmptyOrContains(filter.poolIds, r.pool) && IsEmptyOrContains(filter.operations, r.operation)
    && IsEmptyOrContains(filter.latencies, CellOf(r).latency) && IsEmptyOrContains(filter.blockSizes, CellOf(r).blockSize)
  }

  type Source = (string, string, int) -> seq<Analysis>  // system, pool, operation

  function Tagged(pool: int, operation: int, rows: seq<Analysis>): seq<Reported> {
    if rows == [] then [] else [Reported(pool, operation, rows[0])] + Tagged(pool, operation, rows[1..])
  }

  function OwnReports(system: string, pool: Pool, source: Source): seq<Reported> {
    Tagged(pool.id, READ, source(system, pool.name, READ)) + Tagged(pool.id, WRITE, source(system, pool.name, WRITE))
  }

  function PoolReports(system: string, pools: seq<Pool>, source: Source): seq<Reported> {
    if pools == [] then [] else OwnReports(system, pools[0], source) + PoolReports(system, pools[1..], source)
  }

  /** Everything the maintainers report: every pool of every system, both operations. */
  function AllReports(systems: seq<System>, source: Source): seq<Reported> {
    if systems == [] then [] else PoolReports(systems[0].name, systems[0].pools, source) + AllReports(systems[1..], source)
  }

  /** The contributions of exactly the rows that pass every filter. */
  function Passing(filter: Filter, reports: seq<Reported>): seq<Entry> {
    if reports == [] then []
    else
      (if Passes(filter, reports[0]) then [Entry(CellOf(reports[0]), reports[0].row.count)] else [])
      + Passing(filter, reports[1..])
  }

  lemma {:induction false} PassingAppend(filter: Filter, a: seq<Reported>, b: seq<Reported>)
    ensures Passing(filter, a + b) == Passing(filter, a) + Passing(filter, b)
  {
    if a == [] {
      assert a + b == b;
    } else {
      assert (a + b)[1..] == a[1..] + b;
      PassingAppend(filter, a[1..], b);
    }
  }

  lemma {:induction false} NothingPasses(filter: Filter, pool: int, operation: int, rows: seq<Analysis>)
    requires !IsEmptyOrContains(filter.poolIds, pool) || !IsEmptyOrContains(filter.operations, operation)
    ensures Passing(filter, Tagged(pool, operation, rows)) == []
  {
    if rows != [] {
      NothingPasses(filter, pool, operation, rows[1..]);
      var tagged := Tagged(pool, operation, rows);
      assert tagged[1..] == Tagged(pool, operation, rows[1..]);
    }
  }

  // ---------- the same counts, row by row ----------

  /** The analysis row of that pool and operation (1 for reads, 2 for writes) counts at the cell: latency and block size
      are the powers of two of its exponents, and all four filters let it through. */
  predicate Counts(filter: Filter, pool: int, operation: int, row: Analysis, cell: Cell) {
    && cell.operation == operation && cell.latency == PowerOfTwo(row.latencyExp) && cell.blockSize == PowerOfTwo(row.blockSizeExp)
    && (filter.poolIds == [] || pool in filter.poolIds)
    && (filter.operations == [] || cell.operation in filter.operations)
    && (filter.latencies == [] || cell.latency in filter.latencies)
    && (filter.blockSizes == [] || cell.blockSize in filter.blockSizes)
  }

  function RowsAt(filter: Filter, pool: int, operation: int, rows: seq<Analysis>, cell: Cell): int {
    if rows == [] then 0
    else (if Counts(filter, pool, operation, rows[0], cell) then rows[0].count else 0)
         + RowsAt(filter, pool, operation, rows[1..], cell)
  }

  function PoolsAt(filter: Filter, system: string, pools: seq<Pool>, source: Source, cell: Cell): int {
    if pools == [] then 0
    else RowsAt(filter, pools[0].id, 1, source(system, pools[0].name, 1), cell)
         + RowsAt(filter, pools[0].id, 2, source(system, pools[0].name, 2), cell)
         + PoolsAt(filter, system, pools[1..], source, cell)
  }

  /** What the maintainers contribute to one cell. */
  function SystemsAt(filter: Filter, systems: seq<System>, source: Source, cell: Cell): int {
    if systems == [] then 0
    else PoolsAt(filter, systems[0].name, systems[0].pools, source, cell) + SystemsAt(filter, systems[1..], source, cell)
  }

  /** Some row of some pool of some system counts at the cell. */
  ghost predicate ReportedAt(filter: Filter, systems: seq<System>, source: Source, cell: Cell) {
    exists s, p, row ::
      s in systems && p in s.pools && cell.operation in {1, 2} && row in source(s.name, p.name, cell.operation)
      && Counts(filter, p.id, cell.operation, row, cell)
  }

  lemma TotalAtAppend(a: seq<Entry>, b: seq<Entry>, cell: Cell)
    ensures TotalAt(a + b, cell) == TotalAt(a, cell) + TotalAt(b, cell)
    decreases |a|
  {
    if a == [] {
      assert a + b == b;
    } else {
      assert (a + b)[1..] == a[1..] + b;
      TotalAtAppend(a[1..], b, cell);
    }
  }

  lemma {:induction false} RowsMean(filter: Filter, pool: int, operation: int, rows: seq<Analysis>, cell: Cell)
    ensures TotalAt(Passing(filter, Tagged(pool, operation, rows)), cell) == RowsAt(filter, pool, operation, rows, cell)
  {
    if rows != [] {
      RowsMean(filter, pool, operation, rows[1..], cell);
      var tagged := Tagged(pool, operation, rows);
      assert tagged[1..] == Tagged(pool, operation, rows[1..]);
      var rest := Passing(filter, tagged[1..]);
      var e := Entry(CellOf(tagged[0]), rows[0].count);
      assert ([e] + rest)[1..] == rest && [] + rest == rest;
    }
  }

  lemma {:induction false} PoolsMean(filter: Filter, system: string, pools: seq<Pool>, source: Source, cell: Cell)
    ensures TotalAt(Passing(filter, PoolReports(system, pools, source)), cell) == PoolsAt(filter, system, pools, source, cell)
  {
    if pools != [] {
      var readRows, writeRows := Tagged(pools[0].id, READ, source(system, pools[0].name, READ)),
                             Tagged(pools[0].id, WRITE, source(system, pools[0].name, WRITE));
      PoolsMean(filter, system, pools[1..], source, cell);
      RowsMean(filter, pools[0].id, READ, source(system, pools[0].name, READ), cell);
      RowsMean(filter, pools[0].id, WRITE, source(system, pools[0].name, WRITE), cell);
      PassingAppend(filter, readRows, writeRows);
      PassingAppend(filter, readRows + writeRows, PoolReports(system, pools[1..], source));
      TotalAtAppend(Passing(filter, readRows), Passing(filter, writeRows), cell);
      TotalAtAppend(Passing(filter, readRows + writeRows), Passing(filter, PoolReports(system, pools[1..], source)), cell);
    }
  }

  /** The passing rows are the reported ones that count, cell by cell. */
  lemma {:induction false} SystemsMean(filter: Filter, systems: seq<System>, source: Source, cell: Cell)
    ensures TotalAt(Passing(filter, AllReports(systems, source)), cell) == SystemsAt(filter, systems, source, cell)
  {
    if systems != [] {
      var first, rest := PoolReports(systems[0].name, systems[0].pools, source), AllReports(systems[1..], source);
      SystemsMean(filter, systems[1..], source, cell);
      PoolsMean(filter, systems[0].name, systems[0].pools, source, cell);
      PassingAppend(filter, first, rest);
      TotalAtAppend(Passing(filter, first), Passing(filter, rest), cell);
    }
  }

  lemma {:induction false} TaggedMember(pool: int, operation: int, rows: seq<Analysis>, r: Reported)
    ensures r in Tagged(pool, operation, rows) <==> r.pool == pool && r.operation == operation && r.row in rows
  {
    if rows != [] {
      TaggedMember(pool, operation, rows[1..], r);
      assert rows == [rows[0]] + rows[1..];
    }
  }

  lemma {:induction false} PoolsMember(system: string, pools: seq<Pool>, source: Source, r: Reported)
    ensures r in PoolReports(system, pools, source) <==>
            exists p :: p in pools && r.pool == p.id && r.operation in {1, 2} && r.row in source(system, p.name, r.operation)
  {
    if pools != [] {
      PoolsMember(system, pools[1..], source, r);
      TaggedMember(pools[0].id, READ, source(system, pools[0].name, READ), r);
      TaggedMember(pools[0].id, WRITE, source(system, pools[0].name, WRITE), r);
      assert forall p :: p in pools <==> p == pools[0] || p in pools[1..];
    }
  }

  lemma {:induction false} ReportsMember(systems: seq<System>, source: Source, r: Reported)
    ensures r in AllReports(systems, source) <==>
            exists s, p :: s in systems && p in s.pools && r.pool == p.id && r.operation in {1, 2}
                           && r.row in source(s.name, p.name, r.operation)
  {
    if systems != [] {
      ReportsMember(systems[1..], source, r);
      PoolsMember(systems[0].name, systems[0].pools, source, r);
      assert forall s :: s in systems <==> s == systems[0] || s in systems[1..];
    }
  }

  lemma {:induction false} PassingHolds(filter: Filter, reports: seq<Reported>, cell: Cell)
    ensures Holds(Passing(filter, reports), cell) <==>
            exists r :: r in reports && Counts(filter, r.pool, r.operation, r.row, cell)
  {
    if reports != [] {
      PassingHolds(filter, reports[1..], cell);
      var rest := Passing(filter, reports[1..]);
      HoldsHead(Entry(CellOf(reports[0]), reports[0].row.count), rest, cell);
      assert [] + rest == rest;
      assert forall r :: r in reports <==> r == reports[0] || r in reports[1..];
    }
  }

  /** A cell gets an entry from the maintainers exactly when some reported row counts at it. */
  lemma ReportedMeans(filter: Filter, systems: seq<System>, source: Source, cell: Cell)
    ensures Holds(Passing(filter, AllReports(systems, source)), cell) <==> ReportedAt(filter, systems, source, cell)
  {
    var reports := AllReports(systems, source);
    PassingHolds(filter, reports, cell);
    if r :| r in reports && Counts(filter, r.pool, r.operation, r.row, cell) {
      ReportsMember(systems, source, r);
    }
    if ReportedAt(filter, systems, source, cell) {
      var s, p, row :| s in systems && p in s.pools && cell.operation in {1, 2} && row in source(s.name, p.name, cell.operation)
                       && Counts(filter, p.id, cell.operation, row, cell);
      ReportsMember(systems, source, Reported(p.id, cell.operation, row));
      assert Reported(p.id, cell.operation, row) in reports;
    }
  }

  /** The row counts at some cell, which can only be its own. */
  predicate CountsSomewhere(filter: Filter, pool: int, operation: int, row: Analysis) {
    Counts(filter, pool, operation, row, Cell(operation, PowerOfTwo(row.latencyExp), PowerOfTwo(row.blockSizeExp)))
  }

  function RowsTotal(filter: Filter, pool: int, operation: int, rows: seq<Analysis>): int {
    if rows == [] then 0
    else (if CountsSomewhere(filter, pool, operation, rows[0]) then rows[0].count else 0)
         + RowsTotal(filter, pool, operation, rows[1..])
  }

  function PoolsTotal(filter: Filter, system: string, pools: seq<Pool>, source: Source): int {
    if pools == [] then 0
    else RowsTotal(filter, pools[0].id, 1, source(system, pools[0].name, 1))
         + RowsTotal(filter, pools[0].id, 2, source(system, pools[0].name, 2))
         + PoolsTotal(filter, system, pools[1..], source)
  }

  /** What the maintainers contribute in all. */
  function SystemsTotal(filter: Filter, systems: seq<System>, source: Source): int {
    if systems == [] then 0
    else PoolsTotal(filter, systems[0].name, systems[0].pools, source) + SystemsTotal(filter, systems[1..], source)
  }

  lemma TotalOfAppend(a: seq<Entry>, b: seq<Entry>)
    ensures Total(a + b) == Total(a) + Total(b)
    decreases |a|
  {
    if a == [] {
      assert a + b == b;
    } else {
      assert (a + b)[1..] == a[1..] + b;
      TotalOfAppend(a[1..], b);
    }
  }

  lemma {:induction false} RowsSum(filter: Filter, pool: int, operation: int, rows: seq<Analysis>)
    ensures Total(Passing(filter, Tagged(pool, operation, rows))) == RowsTotal(filter, pool, operation, rows)
  {
    if rows != [] {
      RowsSum(filter, pool, operation, rows[1..]);
      var tagged := Tagged(pool, operation, rows);
      assert tagged[1..] == Tagged(pool, operation, rows[1..]);
      var rest := Passing(filter, tagged[1..]);
      var e := Entry(CellOf(tagged[0]), rows[0].count);
      assert ([e] + rest)[1..] == rest && [] + rest == rest;
    }
  }

  lemma {:induction false} PoolsSum(filter: Filter, system: string, pools: seq<Pool>, source: Source)
    ensures Total(Passing(filter, PoolReports(system, pools, source))) == PoolsTotal(filter, system, pools, source)
  {
    if pools != [] {
      var readRows, writeRows := Tagged(pools[0].id, READ, source(system, pools[0].name, READ)),
                             Tagged(pools[0].id, WRITE, source(system, pools[0].name, WRITE));
      PoolsSum(filter, system, pools[1..], source);
      RowsSum(filter, pools[0].id, READ, source(system, pools[0].name, READ));
      RowsSum(filter, pools[0].id, WRITE, source(system, pools[0].name, WRITE));
      PassingAppend(filter, readRows, writeRows);
      PassingAppend(filter, readRows + writeRows, PoolReports(system, pools[1..], source));
      TotalOfAppend(Passing(filter, readRows), Passing(filter, writeRows));
      TotalOfAppend(Passing(filter, readRows + writeRows), Passing(filter, PoolReports(system, pools[1..], source)));
    }
  }

  lemma {:induction false} SystemsSum(filter: Filter, systems: seq<System>, source: Source)
    ensures Total(Passing(filter, AllReports(systems, source))) == SystemsTotal(filter, systems, source)
  {
    if systems != [] {
      var first, rest := PoolReports(systems[0].name, systems[0].pools, source), AllReports(systems[1..], source);
      SystemsSum(filter, systems[1..], source);
      PoolsSum(filter, systems[0].name, systems[0].pools, source);
      PassingAppend(filter, first, rest);
      TotalOfAppend(Passing(filter, first), Passing(filter, rest));
    }
  }

  /** Powers of two by doubling, for negative exponents as well. */
  lemma PowerOfTwoMeans(e: int)
    ensures PowerOfTwo(0) == 1.0 && PowerOfTwo(e + 1) == 2.0 * PowerOfTwo(e)
  {
  }

  // ---------- the loops ----------

  lemma OneMoreRow(filter: Filter, pool: int, operation: int, rows: seq<Analysis>)
    requires rows != [] && IsEmptyOrContains(filter.poolIds, pool) && IsEmptyOrContains(filter.operations, operation)
    ensures var row := Reported(pool, operation, rows[0]);
            var later := Passing(filter, Tagged(pool, operation, rows[1..]));
            Passing(filter, Tagged(pool, operation, rows)) ==
            if IsEmptyOrContains(filter.latencies, CellOf(row).latency) && IsEmptyOrContains(filter.blockSizes, CellOf(row).blockSize)
            then [Entry(CellOf(row), rows[0].count)] + later else later
  {
    var tagged := Tagged(pool, operation, rows);
    assert tagged[1..] == Tagged(pool, operation, rows[1..]);
  }

  /** The rows of one pool and operation: those outside the latency or block-size filter are passed over. */
  method AddRows(result: seq<Entry>, pool: int, operation: int, rows: seq<Analysis>, filter: Filter) returns (r: seq<Entry>)
    requires IsEmptyOrContains(filter.poolIds, pool) && IsEmptyOrContains(filter.operations, operation)
    ensures r == AddAll(result, Passing(filter, Tagged(pool, operation, rows)))
  {
    r := result;
    assert rows[0..] == rows;
    for i := 0 to |rows|
      invariant AddAll(r, Passing(filter, Tagged(pool, operation, rows[i..])))
             == AddAll(result, Passing(filter, Tagged(pool, operation, rows)))
    {
      var latency, blockSize := PowerOfTwo(rows[i].latencyExp), PowerOfTwo(rows[i].blockSizeExp);
      OneMoreRow(filter, pool, operation, rows[i..]);
      assert rows[i..][1..] == rows[i + 1..];
      if IsEmptyOrContains(filter.latencies, latency) && IsEmptyOrContains(filter.blockSizes, blockSize) {
        var e := Entry(Cell(operation, latency, blockSize), rows[i].count);
        assert ([e] + Passing(filter, Tagged(pool, operation, rows[i + 1..])))[1..]
            == Passing(filter, Tagged(pool, operation, rows[i + 1..]));
        r := Add(r, e);
      }
    }
  }

  /** Both operations of one pool, unless the pool or the operation is filtered out. */
  method AddPool(result: seq<Entry>, system: string, pool: Pool, source: Source, filter: Filter) returns (r: seq<Entry>)
    ensures r == AddAll(result, Passing(filter, OwnReports(system, pool, source)))
  {
    r := result;
    ghost var readRows := Tagged(pool.id, READ, source(system, pool.name, READ));
    ghost var writeRows := Tagged(pool.id, WRITE, source(system, pool.name, WRITE));
    PassingAppend(filter, readRows, writeRows);
    if !IsEmptyOrContains(filter.poolIds, pool.id) {
      NothingPasses(filter, pool.id, READ, source(system, pool.name, READ));
      NothingPasses(filter, pool.id, WRITE, source(system, pool.name, WRITE));
      return;
    }
    if IsEmptyOrContains(filter.operations, READ) {
      r := AddRows(r, pool.id, READ, source(system, pool.name, READ), filter);
    } else {
      NothingPasses(filter, pool.id, READ, source(system, pool.name, READ));
    }
    if IsEmptyOrContains(filter.operations, WRITE) {
      r := AddRows(r, pool.id, WRITE, source(system, pool.name, WRITE), filter);
    } else {
      NothingPasses(filter, pool.id, WRITE, source(system, pool.name, WRITE));
    }
    AddAllAppend(result, Passing(filter, readRows), Passing(filter, writeRows));
  }

  /** One step of either loop over reports: what is merged so far plus what is left stays the same. */
  lemma OneMore(filter: Filter, before: seq<Entry>, own: seq<Reported>, later: seq<Reported>)
    ensures AddAll(AddAll(before, Passing(filter, own)), Passing(filter, later)) == AddAll(before, Passing(filter, own + later))
  {
    PassingAppend(filter, own, later);
    AddAllAppend(before, Passing(filter, own), Passing(filter, later));
  }

  method AddSystem(result: seq<Entry>, system: System, source: Source, filter: Filter) returns (r: seq<Entry>)
    ensures r == AddAll(result, Passing(filter, PoolReports(system.name, system.pools, source)))
  {
    r := result;
    var pools := system.pools;
    assert pools[0..] == pools;
    for i := 0 to |pools|
      invariant AddAll(r, Passing(filter, PoolReports(system.name, pools[i..], source)))
             == AddAll(result, Passing(filter, PoolReports(system.name, pools, source)))
    {
      assert pools[i..][1..] == pools[i + 1..];
      OneMore(filter, r, OwnReports(system.name, pools[i], source), PoolReports(system.name, pools[i + 1..], source));
      r := AddPool(r, system.name, pools[i], source, filter);
    }
  }

  /** frequencyByLatencyBlockSize: one entry per cell; each holds the database count of the cell plus the
      counts of exactly the maintainer rows that pass every filter. */
  method FrequencyByLatencyBlockSize(database: seq<Entry>, systems: seq<System>, source: Source, filter: Filter)
    returns (result: seq<Entry>)
    ensures OncePerCell(result)
    ensures forall cell :: Holds(result, cell) <==> Holds(database, cell) || ReportedAt(filter, systems, source, cell)
    ensures forall i | 0 <= i < |result| ::
              result[i].count == TotalAt(database, result[i].cell) + SystemsAt(filter, systems, source, result[i].cell)
    ensures Total(result) == Total(database) + SystemsTotal(filter, systems, source)
  {
    result := [];
    assert database[0..] == database;
    for i := 0 to |database|
      invariant AddAll(result, database[i..]) == AddAll([], database)
    {
      assert database[i..][1..] == database[i + 1..];
      result := Add(result, database[i]);
    }
    ghost var merged := result;
    assert systems[0..] == systems;
    for i := 0 to |systems|
      invariant AddAll(result, Passing(filter, AllReports(systems[i..], source)))
             == AddAll(merged, Passing(filter, AllReports(systems, source)))
    {
      assert systems[i..][1..] == systems[i + 1..];
      OneMore(filter, result, PoolReports(systems[i].name, systems[i].pools, source), AllReports(systems[i + 1..], source));
      result := AddSystem(result, systems[i], source, filter);
    }
    TotalsOfResult(result, database, Passing(filter, AllReports(systems, source)));
    forall cell ensures TotalAt(Passing(filter, AllReports(systems, source)), cell) == SystemsAt(filter, systems, source, cell)
      ensures Holds(Passing(filter, AllReports(systems, source)), cell) <==> ReportedAt(filter, systems, source, cell)
    {
      SystemsMean(filter, systems, source, cell);
      ReportedMeans(filter, systems, source, cell);
    }
    SystemsSum(filter, systems, source);
  }

  lemma TotalsOfResult(result: seq<Entry>, database: seq<Entry>, passing: seq<Entry>)
    requires result == AddAll(AddAll([], database), passing)
    ensures OncePerCell(result)
    ensures forall cell :: Holds(result, cell) <==> Holds(database, cell) || Holds(passing, cell)
    ensures forall i | 0 <= i < |result| ::
              result[i].count == TotalAt(database, result[i].cell) + TotalAt(passing, result[i].cell)
    ensures Total(result) == Total(database) + Total(passing)
  {
    var anyCell := Cell(0, 0.0, 0.0);
    AddAllTotals([], database, anyCell);
    AddAllTotals(AddAll([], database), passing, anyCell);
    forall cell ensures Holds(result, cell) <==> Holds(database, cell) || Holds(passing, cell) {
      AddAllHolds([], database, cell);
      AddAllHolds(AddAll([], database), passing, cell);
    }
    forall i | 0 <= i < |result|
      ensures result[i].count == TotalAt(database, result[i].cell) + TotalAt(passing, result[i].cell)
    {
      EntryIsCellTotal(result, i);
      AddAllTotals([], database, result[i].cell);
      AddAllTotals(AddAll([], database), passing, result[i].cell);
    }
  }

  /** One row of reads with exponents 3 and 12 is one entry: latency 8, block size 4096. */
  method OneRowHistogram(count: int) returns (result: seq<Entry>)
    ensures result == [Entry(Cell(1, 8.0, 4096.0), count)]
  {
    var source: Source := (system, pool, operation) => if operation == 1 then [Analysis(3, 12, count)] else [];
    var pool := Pool(7, "P");
    var systems := [System("S", [pool])];
    result := FrequencyByLatencyBlockSize([], systems, source, Filter([], [], [], []));
    var cell := Cell(1, 8.0, 4096.0);
    assert PowerOfTwo(3) == 8.0 && PowerOfTwo(6) == 64.0 && PowerOfTwo(9) == 512.0 && PowerOfTwo(12) == 4096.0;
    OneRowAt(systems, source, count, pool);
    assert Holds(result, cell);
    forall j | 0 <= j < |result| ensures result[j].cell == cell {
      assert Holds(result, result[j].cell);
    }
    assert TotalAt([], cell) == 0;
  }

  lemma OneRowAt(systems: seq<System>, source: Source, count: int, pool: Pool)
    requires systems == [System("S", [pool])] && PowerOfTwo(3) == 8.0 && PowerOfTwo(12) == 4096.0
    requires source("S", pool.name, 1) == [Analysis(3, 12, count)] && source("S", pool.name, 2) == []
    ensures forall cell :: ReportedAt(Filter([], [], [], []), systems, source, cell) <==> cell == Cell(1, 8.0, 4096.0)
    ensures SystemsAt(Filter([], [], [], []), systems, source, Cell(1, 8.0, 4096.0)) == count
  {
    var filter, cell := Filter([], [], [], []), Cell(1, 8.0, 4096.0);
    assert systems[0] in systems && pool in systems[0].pools && Analysis(3, 12, count) in source("S", pool.name, 1);
    assert Counts(filter, pool.id, 1, Analysis(3, 12, count), cell);
    assert systems[1..] == [] && systems[0].pools[1..] == [];
    var rows := source("S", pool.name, 1);
    assert rows[1..] == [];
    assert RowsAt(filter, pool.id, 1, rows, cell) == count + RowsAt(filter, pool.id, 1, [], cell);
    assert PoolsAt(filter, "S", [], source, cell) == 0 && SystemsAt(filter, [], source, cell) == 0;
    assert PoolsAt(filter, "S", [pool], source, cell) == count by {
      assert [pool][1..] == [];
    }
  }

  // ---------- the split by operation ----------

  /** The entries of one operation, in order. */
  function OfOperation(entries: seq<Entry>, operation: int): seq<Entry> {
    if entries == [] then []
    else (if entries[0].cell.operation == operation then [entries[0]] else []) + OfOperation(entries[1..], operation)
  }

  lemma {:induction false} OfOperationAppend(a: seq<Entry>, b: seq<Entry>, operation: int)
    ensures OfOperation(a + b, operation) == OfOperation(a, operation) + OfOperation(b, operation)
  {
    if a == [] {
      assert a + b == b;
    } else {
      OfOperationAppend(a[1..], b, operation);
      assert (a + b)[1..] == a[1..] + b && (a + b)[0] == a[0];
      var head := if a[0].cell.operation == operation then [a[0]] else [];
      assert head + (OfOperation(a[1..], operation) + OfOperation(b, operation))
          == (head + OfOperation(a[1..], operation)) + OfOperation(b, operation);
    }
  }

  /** One more entry goes to the end of its own operation's list and leaves every other list as it is. */
  lemma OneMoreEntry(entries: seq<Entry>, i: nat, op: int)
    requires i < |entries|
    ensures OfOperation(entries[..i + 1], op) ==
            OfOperation(entries[..i], op) + if entries[i].cell.operation == op then [entries[i]] else []
  {
    assert entries[..i + 1] == entries[..i] + [entries[i]];
    OfOperationAppend(entries[..i], [entries[i]], op);
    assert [entries[i]][1..] == [];
  }

  lemma {:induction false} OfOperationNonempty(entries: seq<Entry>, op: int)
    ensures OfOperation(entries, op) != [] <==> exists i | 0 <= i < |entries| :: entries[i].cell.operation == op
  {
    if entries != [] {
      OfOperationNonempty(entries[1..], op);
      if i :| 0 <= i < |entries| && entries[i].cell.operation == op {
        assert i > 0 ==> entries[1..][i - 1] == entries[i];
      }
    }
  }

  /** groupBy: a bucket for exactly the operations that occur, holding their entries in order. */
  method GroupBy(entries: seq<Entry>) returns (groups: map<int, seq<Entry>>)
    ensures forall op :: op in groups <==> exists i | 0 <= i < |entries| :: entries[i].cell.operation == op
    ensures forall op | op in groups :: groups[op] == OfOperation(entries, op)
  {
    groups := map[];
    for i := 0 to |entries|
      invariant forall op :: OfOperation(entries[..i], op) == if op in groups then groups[op] else []
      invariant forall op | op in groups :: groups[op] != []
    {
      var op := entries[i].cell.operation;
      var bucket := if op in groups then groups[op] else [];
      forall o ensures OfOperation(entries[..i + 1], o) == if o == op then bucket + [entries[i]] else OfOperation(entries[..i], o) {
        OneMoreEntry(entries, i, o);
      }
      groups := groups[op := bucket + [entries[i]]];
    }
    assert entries[..|entries|] == entries;
    forall op ensures op in groups <==> exists i | 0 <= i < |entries| :: entries[i].cell.operation == op {
      OfOperationNonempty(entries, op);
    }
  }

  datatype Point = Point(x: real, y: real, z: int)

  datatype OperationData = OperationData(operation: int, values: seq<Point>)

  function Points(entries: seq<Entry>): (values: seq<Point>)
    ensures |values| == |entries|
    ensures forall k | 0 <= k < |entries| ::
              values[k].x == entries[k].cell.blockSize && values[k].y == entries[k].cell.latency && values[k].z == entries[k].count
  {
    if entries == [] then []
    else [Point(entries[0].cell.blockSize, entries[0].cell.latency, entries[0].count)] + Points(entries[1..])
  }

  /** The response: for each listed operation its entries in order, block size across and latency up. */
  method Respond(entries: seq<Entry>, operations: seq<int>) returns (response: seq<OperationData>)
    ensures |response| == |operations|
    ensures forall i | 0 <= i < |operations| :: ShowsOperation(response[i], entries, operations[i])
  {
    var groups := GroupBy(entries);
    response := [];
    for i := 0 to |operations|
      invariant ShowsFirst(response, entries, operations, i)
    {
      var op := operations[i];
      var group := if op in groups then groups[op] else [];
      assert group == OfOperation(entries, op) by { OfOperationNonempty(entries, op); }
      ShowsOneMore(response, entries, operations, i);
      response := response + [OperationData(op, Points(group))];
    }
  }

  ghost predicate ShowsFirst(response: seq<OperationData>, entries: seq<Entry>, operations: seq<int>, n: nat) {
    |response| == n <= |operations| && forall i | 0 <= i < n :: ShowsOperation(response[i], entries, operations[i])
  }

  lemma ShowsOneMore(response: seq<OperationData>, entries: seq<Entry>, operations: seq<int>, n: nat)
    requires ShowsFirst(response, entries, operations, n) && n < |operations|
    ensures ShowsFirst(response + [OperationData(operations[n], Points(OfOperation(entries, operations[n])))],
                       entries, operations, n + 1)
  {
  }

  ghost predicate ShowsOperation(data: OperationData, entries: seq<Entry>, operation: int) {
    var own := OfOperation(entries, operation);
    && data.operation == operation && |data.values| == |own|
    && forall k | 0 <= k < |own| ::
         data.values[k].x == own[k].cell.blockSize && data.values[k].y == own[k].cell.latency && data.values[k].z == own[k].count
  }

  /** What the response shows for the listed operations, summed. */
  function SplitTotal(entries: seq<Entry>, operations: seq<int>): int {
    if operations == [] then 0 else Total(OfOperation(entries, operations[0])) + SplitTotal(entries, operations[1..])
  }

  function Occurrences(operations: seq<int>, op: int): nat {
    if operations == [] then 0 else (if operations[0] == op then 1 else 0) + Occurrences(operations[1..], op)
  }

  lemma {:induction false} SplitTotalHead(e: Entry, entries: seq<Entry>, operations: seq<int>)
    ensures SplitTotal([e] + entries, operations) ==
            e.count * Occurrences(operations, e.cell.operation) + SplitTotal(entries, operations)
  {
    if operations != [] {
      SplitTotalHead(e, entries, operations[1..]);
      assert ([e] + entries)[1..] == entries;
      var own := OfOperation(entries, operations[0]);
      assert ([e] + own)[1..] == own && [] + own == own;
      var times := Occurrences(operations[1..], e.cell.operation);
      assert e.count * (1 + times) == e.count + e.count * times;
    }
  }

  predicate ListsOnce(operations: seq<int>, op: int) {
    Occurrences(operations, op) == 1
  }

  lemma {:induction false} SplitConserves(entries: seq<Entry>, operations: seq<int>)
    requires forall e | e in entries :: ListsOnce(operations, e.cell.operation)
    ensures SplitTotal(entries, operations) == Total(entries)
  {
    if entries == [] {
      EmptySplit(operations);
    } else {
      assert entries == [entries[0]] + entries[1..];
      SplitTotalHead(entries[0], entries[1..], operations);
      SplitConserves(entries[1..], operations);
    }
  }

  lemma {:induction false} EmptySplit(operations: seq<int>)
    ensures SplitTotal([], operations) == 0
  {
    if operations != [] { EmptySplit(operations[1..]); }
  }

  lemma {:induction false} OccursIff(operations: seq<int>, op: int)
    ensures Occurrences(operations, op) > 0 <==> op in operations
  {
    if operations != [] { OccursIff(operations[1..], op); }
  }

  /** The response shows the whole histogram, whatever entries the filter let through, if and only if the
      filter lists at least one operation and none twice. */
  lemma SplitConservesIff(operations: seq<int>)
    ensures (forall entries: seq<Entry> | (forall e | e in entries :: IsEmptyOrContains(operations, e.cell.operation)) ::
               SplitTotal(entries, operations) == Total(entries))
            <==> operations != [] && forall op | op in operations :: ListsOnce(operations, op)
  {
    if operations != [] && forall op | op in operations :: ListsOnce(operations, op) {
      forall entries: seq<Entry> | forall e | e in entries :: IsEmptyOrContains(operations, e.cell.operation)
        ensures SplitTotal(entries, operations) == Total(entries)
      {
        SplitConserves(entries, operations);
      }
    } else {
      var op := if operations == [] then READ else var o :| o in operations && !ListsOnce(operations, o); o;
      var e := Entry(Cell(op, 1.0, 1.0), 1);
      SplitTotalHead(e, [], operations);
      EmptySplit(operations);
      OccursIff(operations, op);
      assert [e] + [] == [e] && [e][1..] == [];
      assert SplitTotal([e], operations) != Total([e]);
    }
  }
}
