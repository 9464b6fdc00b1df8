/** The blob files of one cached metric: rows written in chunks with a range index, and read back by range
    with whole chunks skipped or taken. */
module BlobCache {
  import opened Wrappers
  import opened Dates

  datatype Row = Row(stamp: int, values: seq<real>)

  type Range = (int, int)  // milliseconds, both ends included

  /** One entry of blobmap.json. */
  datatype Chunk = Chunk(file: nat, from: int, to: int)

  ghost predicate Increasing(rows: seq<Row>) {
    forall i, j | 0 <= i < j < |rows| :: rows[i].stamp < rows[j].stamp
  }

  /** The rows with a stamp from a to b. */
  function Between(rows: seq<Row>, a: int, b: int): seq<Row> {
    if rows == [] then []
    else (if a <= rows[0].stamp <= b then [rows[0]] else []) + Between(rows[1..], a, b)
  }

  // ---------- chunks ----------

  function Split(data: seq<Row>, size: nat): (chunks: seq<seq<Row>>)
    requires size > 0
    ensures NoneEmpty(chunks)
    decreases |data|
  {
    if data == [] then [] else [data[..First(data, size)]] + Split(data[First(data, size)..], size)
  }

  /** Rows in the first chunk. */
  function First(data: seq<Row>, size: nat): nat {
    if |data| < size then |data| else size
  }

  function Joined(chunks: seq<seq<Row>>): seq<Row> {
    if chunks == [] then [] else chunks[0] + Joined(chunks[1..])
  }

  predicate NoneEmpty(chunks: seq<seq<Row>>) {
    forall i | 0 <= i < |chunks| :: chunks[i] != []
  }

  lemma {:induction false} SplitJoins(data: seq<Row>, size: nat)
    requires size > 0
    ensures Joined(Split(data, size)) == data
    decreases |data|
  {
    if data != [] {
      var k := First(data, size);
      SplitJoins(data[k..], size);
      assert Split(data, size)[1..] == Split(data[k..], size);
      assert data == data[..k] + data[k..];
    }
  }

  lemma OneBlockMore(i: nat, size: nat)
    ensures i * size >= 0 && (i + 1) * size == i * size + size
  {
  }

  /** Chunk i holds the rows from i times the size on, as many as the size or as are left. */
  lemma {:induction false} ChunkRows(data: seq<Row>, size: nat, i: nat)
    requires size > 0
    ensures i < |Split(data, size)| <==> i * size < |data|
    ensures i < |Split(data, size)| ==>
              Split(data, size)[i] == data[i * size..if (i + 1) * size < |data| then (i + 1) * size else |data|]
    decreases i
  {
    if data != [] && i > 0 {
      var k := First(data, size);
      ChunkRows(data[k..], size, i - 1);
      assert Split(data, size)[1..] == Split(data[k..], size);
      OneBlockMore(i - 1, size);
      OneBlockMore(i, size);
    }
  }

  // ---------- reading ----------

  /** What a read takes from one chunk: nothing, the rows between the rounded minutes, or all of it. */
  function ReadChunk(chunk: seq<Row>, range: Option<Range>): seq<Row>
    requires chunk != []
  {
    if range.None? then chunk
    else
      var (lo, hi) := range.value;
      var from, to := FromMins(chunk[0].stamp), FromMins(chunk[|chunk| - 1].stamp);
      if hi < from || lo > to then []
      else if hi < to || lo > from then Between(chunk, ToMins(lo), ToMins(hi))
      else chunk
  }

  function ReadChunks(chunks: seq<seq<Row>>, range: Option<Range>): seq<Row>
    requires NoneEmpty(chunks)
  {
    if chunks == [] then [] else ReadChunk(chunks[0], range) + ReadChunks(chunks[1..], range)
  }

  /** Reading written data goes chunk by chunk. */
  lemma ReadSplit(data: seq<Row>, size: nat, range: Option<Range>)
    requires size > 0 && data != []
    ensures var k := First(data, size);
            && data == data[..k] + data[k..] && data[..k] != []
            && ReadChunks(Split(data, size), range) == ReadChunk(data[..k], range) + ReadChunks(Split(data[k..], size), range)
  {
    var k := First(data, size);
    SplitJoins(data, size);
    SplitJoins(data[k..], size);
    assert Split(data, size)[1..] == Split(data[k..], size);
  }

  lemma Associative(p: seq<Row>, q: seq<Row>, r: seq<Row>)
    ensures p + (q + r) == (p + q) + r
  {
  }

  lemma {:induction false} BetweenAppend(x: seq<Row>, y: seq<Row>, a: int, b: int)
    ensures Between(x + y, a, b) == Between(x, a, b) + Between(y, a, b)
  {
    if x == [] {
      assert x + y == y;
    } else {
      BetweenAppend(x[1..], y, a, b);
      assert (x + y)[1..] == x[1..] + y && (x + y)[0] == x[0];
      Associative(if a <= x[0].stamp <= b then [x[0]] else [], Between(x[1..], a, b), Between(y, a, b));
    }
  }

  lemma {:induction false} BetweenMember(rows: seq<Row>, a: int, b: int, r: Row)
    ensures r in Between(rows, a, b) <==> r in rows && a <= r.stamp <= b
  {
    if rows != [] {
      BetweenMember(rows[1..], a, b, r);
      assert rows == [rows[0]] + rows[1..];
    }
  }

  lemma {:induction false} BetweenIncreasing(rows: seq<Row>, a: int, b: int)
    requires Increasing(rows)
    ensures Increasing(Between(rows, a, b))
  {
    if rows != [] {
      BetweenIncreasing(rows[1..], a, b);
      forall r | r in Between(rows[1..], a, b) ensures rows[0].stamp < r.stamp {
        BetweenMember(rows[1..], a, b, r);
      }
    }
  }

  lemma {:induction false} BetweenAll(rows: seq<Row>, a: int, b: int)
    requires forall r | r in rows :: a <= r.stamp <= b
    ensures Between(rows, a, b) == rows
  {
    if rows != [] { BetweenAll(rows[1..], a, b); }
  }

  lemma {:induction false} BetweenNone(rows: seq<Row>, a: int, b: int)
    requires forall r | r in rows :: !(a <= r.stamp <= b)
    ensures Between(rows, a, b) == []
  {
    if rows != [] { BetweenNone(rows[1..], a, b); }
  }

  /** Without a range everything written is read. */
  lemma {:induction false} ReadAll(chunks: seq<seq<Row>>)
    requires NoneEmpty(chunks)
    ensures ReadChunks(chunks, None) == Joined(chunks)
  {
    if chunks != [] { ReadAll(chunks[1..]); }
  }

  ghost predicate ExactlyIn(range: Range, r: Row) {
    range.0 <= FromMins(r.stamp) <= range.1
  }

  ghost predicate RoundedIn(range: Range, r: Row) {
    ToMins(range.0) <= r.stamp <= ToMins(range.1)
  }

  lemma ExactIsRounded(range: Range, r: Row)
    requires ExactlyIn(range, r)
    ensures RoundedIn(range, r)
  {
    ToMinsMonotone(range.0, FromMins(r.stamp));
    ToMinsMonotone(FromMins(r.stamp), range.1);
    ToMinsInverse(r.stamp);
  }

  lemma ReadChunkMember(chunk: seq<Row>, range: Range, r: Row)
    requires chunk != [] && Increasing(chunk)
    ensures r in ReadChunk(chunk, Some(range)) ==> r in chunk && RoundedIn(range, r)
    ensures r in chunk && ExactlyIn(range, r) ==> r in ReadChunk(chunk, Some(range))
    ensures Increasing(ReadChunk(chunk, Some(range)))
  {
    BetweenMember(chunk, ToMins(range.0), ToMins(range.1), r);
    BetweenIncreasing(chunk, ToMins(range.0), ToMins(range.1));
    if r in chunk {
      WithinChunk(chunk, r);
      if ExactlyIn(range, r) { ExactIsRounded(range, r); }
      InsideIsRounded(range, chunk[0], r, chunk[|chunk| - 1]);
    }
  }

  lemma WithinChunk(chunk: seq<Row>, r: Row)
    requires chunk != [] && Increasing(chunk) && r in chunk
    ensures chunk[0].stamp <= r.stamp <= chunk[|chunk| - 1].stamp
  {
    var i :| 0 <= i < |chunk| && chunk[i] == r;
  }

  /** A chunk whose ends both lie in the range lies in it with every row. */
  lemma InsideIsRounded(range: Range, first: Row, r: Row, last: Row)
    requires first.stamp <= r.stamp <= last.stamp
    ensures range.0 <= FromMins(first.stamp) && FromMins(last.stamp) <= range.1 ==> RoundedIn(range, r)
  {
    if range.0 <= FromMins(first.stamp) && FromMins(last.stamp) <= range.1 { ExactIsRounded(range, r); }
  }

  /** A ranged read lies between the exact filter and the filter by rounded minutes, in order and without duplicates. */
  lemma {:induction false} ReadSandwich(data: seq<Row>, size: nat, range: Range)
    requires size > 0 && Increasing(data)
    ensures var read := ReadChunks(Split(data, size), Some(range));
            && Increasing(read)
            && (forall r | r in read :: r in data && RoundedIn(range, r))
            && (forall r | r in data && ExactlyIn(range, r) :: r in read)
    decreases |data|
  {
    SplitJoins(data, size);
    if data != [] {
      var k := First(data, size);
      var first, rest := data[..k], data[k..];
      ReadSplit(data, size, Some(range));
      ReadSandwich(rest, size, range);
      forall r ensures r in data <==> r in first || r in rest {}
      forall r ensures r in ReadChunk(first, Some(range)) ==> r in first && RoundedIn(range, r)
        ensures r in first && ExactlyIn(range, r) ==> r in ReadChunk(first, Some(range))
      {
        ReadChunkMember(first, range, r);
      }
      ReadChunkMember(first, range, first[0]);
      JoinIncreasing(ReadChunk(first, Some(range)), ReadChunks(Split(rest, size), Some(range)), first, rest);
    }
  }

  lemma JoinIncreasing(x: seq<Row>, y: seq<Row>, first: seq<Row>, rest: seq<Row>)
    requires Increasing(x) && Increasing(y) && Increasing(first + rest)
    requires (forall r | r in x :: r in first) && (forall r | r in y :: r in rest)
    ensures Increasing(x + y)
  {
    forall r, s | r in first && s in rest ensures r.stamp < s.stamp {
      var i :| 0 <= i < |first| && first[i] == r;
      var j :| 0 <= j < |rest| && rest[j] == s;
      assert (first + rest)[i] == r && (first + rest)[|first| + j] == s;
    }
  }

  /** The range rounds outwards (or to nothing): rounding an end to its minute does not reach past it. */
  predicate RoundsOutward(range: Range) {
    ToMins(range.0) <= ToMins(range.1) ==>
      range.0 <= FromMins(ToMins(range.0)) && FromMins(ToMins(range.1)) <= range.1
  }

  lemma ReadChunkRounded(chunk: seq<Row>, range: Range)
    requires chunk != [] && Increasing(chunk) && RoundsOutward(range)
    ensures ReadChunk(chunk, Some(range)) == Between(chunk, ToMins(range.0), ToMins(range.1))
  {
    var from, to := chunk[0].stamp, chunk[|chunk| - 1].stamp;
    forall r | r in chunk ensures from <= r.stamp <= to {}
    if range.1 < FromMins(from) || range.0 > FromMins(to) {
      BetweenNone(chunk, ToMins(range.0), ToMins(range.1));
    } else if range.1 < FromMins(to) || range.0 > FromMins(from) {
    } else {
      ExactIsRounded(range, chunk[0]);
      ExactIsRounded(range, chunk[|chunk| - 1]);
      BetweenAll(chunk, ToMins(range.0), ToMins(range.1));
    }
  }

  lemma {:induction false} ReadRounded(data: seq<Row>, size: nat, range: Range)
    requires size > 0 && Increasing(data) && RoundsOutward(range)
    ensures ReadChunks(Split(data, size), Some(range)) == Between(data, ToMins(range.0), ToMins(range.1))
    decreases |data|
  {
    SplitJoins(data, size);
    if data != [] {
      var k := First(data, size);
      ReadSplit(data, size, Some(range));
      ReadRounded(data[k..], size, range);
      ReadChunkRounded(data[..k], range);
      BetweenAppend(data[..k], data[k..], ToMins(range.0), ToMins(range.1));
    }
  }

  /** Reading equals the filter by rounded minutes for every series and chunk size if and only if the range
      rounds outwards. */
  lemma ReadIsRoundedFilterIff(range: Range)
    ensures (forall data, size: nat | size > 0 && Increasing(data) ::
               ReadChunks(Split(data, size), Some(range)) == Between(data, ToMins(range.0), ToMins(range.1)))
            <==> RoundsOutward(range)
  {
    if RoundsOutward(range) {
      forall data, size: nat | size > 0 && Increasing(data)
        ensures ReadChunks(Split(data, size), Some(range)) == Between(data, ToMins(range.0), ToMins(range.1))
      {
        ReadRounded(data, size, range);
      }
    } else {
      var stamp := if range.0 > FromMins(ToMins(range.0)) then ToMins(range.0) else ToMins(range.1);
      var data := [Row(stamp, [])];
      LostRow(data[0], range);
    }
  }

  /** A lone row at a minute the rounding reaches past is dropped with its chunk. */
  lemma LostRow(r: Row, range: Range)
    requires RoundedIn(range, r) && !ExactlyIn(range, r)
    ensures Split([r], 1) == [[r]] && Increasing([r])
    ensures ReadChunks(Split([r], 1), Some(range)) != Between([r], ToMins(range.0), ToMins(range.1))
  {
    BetweenMember([r], ToMins(range.0), ToMins(range.1), r);
    assert [r][..First([r], 1)] == [r] && Split([r][First([r], 1)..], 1) == [];
    assert ReadChunk([r], Some(range)) == [];
    assert Split([r], 1)[1..] == [];
  }

  /** With both ends on whole minutes a read is the plain filter. */
  lemma ReadAligned(data: seq<Row>, size: nat, range: Range)
    requires size > 0 && Increasing(data) && range.0 % MINUTE == 0 && range.1 % MINUTE == 0
    ensures ReadChunks(Split(data, size), Some(range)) == Between(data, range.0 / MINUTE, range.1 / MINUTE)
    ensures forall r :: r in ReadChunks(Split(data, size), Some(range)) <==> r in data && ExactlyIn(range, r)
  {
    ReadRounded(data, size, range);
    forall r ensures r in ReadChunks(Split(data, size), Some(range)) <==> r in data && ExactlyIn(range, r) {
      BetweenMember(data, ToMins(range.0), ToMins(range.1), r);
    }
  }
}
