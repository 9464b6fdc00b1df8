/** The cached copy of one remote series: its blob files and summary, brought up to date by appending what
    the remote has gained since. */
module MaintainerCache {
  import opened Wrappers
  import opened Dates
  import opened BlobCache
  import opened Thinning
  import opened RefreshRuns

  const CHUNKING: nat := 60 * 24 * 5

  datatype CacheEntry = CacheEntry(range: Range, variants: seq<string>)

  datatype CacheError = MissingFile

  // ---------- the files ----------

  /** File i holds five days of minutes from the i-th block on, and its entry gives the instants of their ends. */
  ghost predicate HoldsChunks(data: seq<Row>, written: seq<Chunk>, blobs: map<nat, seq<Row>>) {
    && (forall i: nat :: i < |written| <==> i * 7200 < |data|)
    && forall i: nat | i < |written| ::
         var from, to := i * 7200, if (i + 1) * 7200 < |data| then (i + 1) * 7200 else |data|;
         && i in blobs && blobs[i] == data[from..to]
         && written[i] == Chunk(i, 60000 * data[from].stamp, 60000 * data[to - 1].stamp)
  }

  lemma ListedHolds(data: seq<Row>, written: seq<Chunk>, blobs: map<nat, seq<Row>>)
    requires Listed(written, blobs, Split(data, CHUNKING)) && |written| == |Split(data, CHUNKING)|
    ensures HoldsChunks(data, written, blobs)
  {
    forall i: nat
      ensures i < |written| <==> i * 7200 < |data|
      ensures i < |written| ==>
                var from, to := i * 7200, if (i + 1) * 7200 < |data| then (i + 1) * 7200 else |data|;
                && i in blobs && blobs[i] == data[from..to]
                && written[i] == Chunk(i, 60000 * data[from].stamp, 60000 * data[to - 1].stamp)
    {
      ChunkRows(data, CHUNKING, i);
    }
  }

  class MetricFiles {
    var blobs: map<nat, seq<Row>>           // decoded contents of <i>.blob
    var chunkMap: Option<seq<Chunk>>        // blobmap.json, entries in the order written
    var summary: Option<CacheEntry>         // meta.json
    ghost var stored: seq<Row>              // the rows last written

    /** The blobs are the stored rows split into chunks, and the map lists them in order with their ends. */
    ghost predicate Written()
      reads this
    {
      var chunks := Split(stored, CHUNKING);
      chunkMap.Some? && Listed(chunkMap.value, blobs, chunks) && |chunkMap.value| == |chunks|
    }

    ghost function State(): Option<Cached>
      reads this
    {
      if summary.Some? then Some(Cached(summary.value.range, stored)) else None
    }

    constructor ()
      ensures summary == None && chunkMap == None && blobs == map[]
    {
      blobs, chunkMap, summary, stored := map[], None, None, [];
    }

    /** Unlinks every .blob file; the map and the summary stay. */
    method RemoveBlobs()
      modifies this`blobs
      ensures blobs == map[]
    {
      blobs := map[];
    }

    method WriteToBlob(data: seq<Row>)
      modifies this`blobs, this`chunkMap, this`stored
      ensures Written() && stored == data && chunkMap.Some? && HoldsChunks(data, chunkMap.value, blobs)
    {
      var count := (|data| + CHUNKING - 1) / CHUNKING;
      var written: seq<Chunk> := [];
      ghost var chunks: seq<seq<Row>> := [];
      assert data[0..] == data;
      for i := 0 to count
        invariant |written| == |chunks| == i && Listed(written, blobs, chunks)
        invariant chunks + Split(data[At(data, i)..], CHUNKING) == Split(data, CHUNKING)
      {
        var fromIdx := i * CHUNKING;
        var toIdx := if (i + 1) * CHUNKING < |data| then (i + 1) * CHUNKING else |data|;
        Starts(data, i);
        NextChunk(data, fromIdx, toIdx, CHUNKING, chunks, written, blobs);
        written := written + [Chunk(i, FromMins(data[fromIdx].stamp), FromMins(data[toIdx - 1].stamp))];
        blobs := blobs[i := data[fromIdx..toIdx]];
        chunks := chunks + [data[fromIdx..toIdx]];
      }
      assert chunks == Split(data, CHUNKING) by {
        assert At(data, count) == |data| && Split(data[|data|..], CHUNKING) == [];
        assert chunks + [] == chunks;
      }
      chunkMap := Some(written);
      stored := data;
      ListedHolds(data, written, blobs);
    }

    /** One entry of the map: passed over, cut to the range, or taken whole. */
    method ReadEntry(i: nat, range: Option<Range>) returns (piece: seq<Row>)
      requires chunkMap.Some? && Written() && i < |chunkMap.value|
      ensures piece == ReadChunk(Split(stored, CHUNKING)[i], range)
    {
      var Chunk(file, from, to) := chunkMap.value[i];
      if range.Some? && (range.value.1 < from || range.value.0 > to) {
        return [];
      }
      var data := blobs[file];
      if range.Some? && (range.value.1 < to || range.value.0 > from) {
        piece := Between(data, ToMins(range.value.0), ToMins(range.value.1));
      } else {
        piece := data;
      }
    }

    method ReadFromBlob(range: Option<Range>) returns (r: Result<seq<Row>, CacheError>)
      requires chunkMap.Some? ==> Written()
      ensures chunkMap.None? ==> r == Failure(MissingFile)
      ensures chunkMap.Some? ==> r == Success(ReadChunks(Split(stored, CHUNKING), range))
    {
      if chunkMap.None? {
        return Failure(MissingFile);
      }
      SplitJoins(stored, CHUNKING);
      var result: seq<Row> := [];
      ghost var chunks := Split(stored, CHUNKING);
      assert chunks[0..] == chunks;
      for i := 0 to |chunkMap.value|
        invariant result + ReadChunks(chunks[i..], range) == ReadChunks(chunks, range)
      {
        ReadOneMore(result, chunks, i, range);
        var piece := ReadEntry(i, range);
        result := result + piece;
      }
      assert chunks[|chunkMap.value|..] == [] && result + [] == result;
      r := Success(result);
    }

    predicate CacheHit(range: Range)
      reads this
    {
      summary.Some? && summary.value.range.0 <= range.0
    }

    /** getData for this metric: read from the cache when it reaches back far enough, otherwise asked of the
        remote. Either way, within what the cache holds, the rows with values are those of the full series. */
    method GetData(range: Range, series: seq<Row>) returns (rows: seq<Row>)
      requires (summary.Some? ==> chunkMap.Some?) && (chunkMap.Some? ==> Written())
      ensures rows == if summary.Some? && summary.value.range.0 <= range.0
                      then ReadChunks(Split(stored, CHUNKING), Some(range))
                      else Between(series, ToMins(range.0), ToMins(range.1))
      ensures CacheHit(range) && Increasing(series) && stored == FullFetch(series, summary.value.range) ==>
                && Sandwiched(rows, series, range, summary.value.range.1)
                && (RoundsOutward(range) ==>
                      rows == Filled(Between(series, ToMins(range.0), Min(ToMins(range.1), ToMins(summary.value.range.1)))))
    {
      if CacheHit(range) {
        var read := ReadFromBlob(Some(range));
        rows := read.value;
        if Increasing(series) && stored == FullFetch(series, summary.value.range) {
          CacheSandwich(series, summary.value.range, range, CHUNKING);
          if RoundsOutward(range) { CacheAnswers(series, summary.value.range, range, CHUNKING); }
        }
      } else {
        rows := Between(series, ToMins(range.0), ToMins(range.1));
      }
    }

    /** One pass of prefetchSystem over this metric. avail is the last minute the remote offers, series what it
        would send for these variants. */
    method Refresh(rangeStart: int, avail: Option<int>, variants: seq<string>, series: seq<Row>, resolution: Option<int>)
      returns (refreshed: bool)
      requires (summary.Some? ==> chunkMap.Some?) && (chunkMap.Some? ==> Written())
      modifies this
      ensures (summary.Some? ==> chunkMap.Some?) && (chunkMap.Some? ==> Written())
      ensures refreshed <==> avail.Some? && rangeStart <= FromMins(avail.value)
                             && (old(summary).Some? ==> old(summary).value.range.1 < FromMins(avail.value))
      ensures !refreshed ==> summary == old(summary) && stored == old(stored)
      ensures refreshed ==> summary == Some(CacheEntry((rangeStart, FromMins(avail.value)), variants))
      ensures old(summary).None? || old(summary).value.variants == variants ==>
                State() == Refreshed(old(State()), Request(rangeStart, avail), series, CHUNKING, resolution)
      ensures refreshed && old(summary).Some? && old(summary).value.variants != variants ==>
                stored == Batch(series, summary.value.range, resolution)
    {
      if avail.None? {
        return false;
      }
      var availDate := FromMins(avail.value);
      if rangeStart > availDate {
        return false;
      }
      if summary.Some? && summary.value.range.1 >= availDate {
        return false;
      }
      var fetchFrom := rangeStart;
      var data: seq<Row> := [];
      if summary.Some? && summary.value.variants == variants {
        fetchFrom := Max(fetchFrom, summary.value.range.1 + MINUTE);
        var read := ReadFromBlob(Some((rangeStart, summary.value.range.1)));
        data := read.value;
      }
      var result := Between(series, ToMins(fetchFrom), ToMins(availDate));
      if resolution.Some? {
        result := Thin(result, resolution.value);
      }
      assert [] + Filled(result) == Filled(result);
      data := data + Filled(result);
      RemoveBlobs();
      WriteToBlob(data);
      summary := Some(CacheEntry((rangeStart, availDate), variants));
      refreshed := true;
    }
  }

  /** Entry i of the map names file i, which holds chunk i, and gives the instants of its first and last row. */
  ghost predicate Listed(entries: seq<Chunk>, blobs: map<nat, seq<Row>>, chunks: seq<seq<Row>>) {
    |entries| <= |chunks| &&
    forall i | 0 <= i < |entries| ::
      && entries[i].file == i && i in blobs && blobs[i] == chunks[i] && chunks[i] != []
      && entries[i].from == FromMins(chunks[i][0].stamp)
      && entries[i].to == FromMins(chunks[i][|chunks[i]| - 1].stamp)
  }

  /** Where chunk i starts, or the end of the data. */
  function At(data: seq<Row>, i: nat): (pos: nat)
    ensures pos <= |data|
  {
    if i * CHUNKING <= |data| then i * CHUNKING else |data|
  }

  /** The chunk that starts at pos comes next after the chunks already written. */
  lemma ChunkAt(data: seq<Row>, pos: nat, size: nat, written: seq<seq<Row>>)
    requires size > 0 && pos < |data|
    ensures var to := if pos + size < |data| then pos + size else |data|;
            var chunk := data[pos..to];
            && chunk != [] && chunk[0] == data[pos] && chunk[|chunk| - 1] == data[to - 1]
            && written + Split(data[pos..], size) == (written + [chunk]) + Split(data[to..], size)
  {
    var rest := data[pos..];
    var k := First(rest, size);
    assert rest[..k] == data[pos..pos + k] && rest[k..] == data[pos + k..];
  }

  lemma Starts(data: seq<Row>, i: nat)
    requires i < (|data| + CHUNKING - 1) / CHUNKING
    ensures At(data, i) == i * CHUNKING < |data|
    ensures At(data, i + 1) == if (i + 1) * CHUNKING < |data| then (i + 1) * CHUNKING else |data|
    ensures At(data, i + 1) == if At(data, i) + CHUNKING < |data| then At(data, i) + CHUNKING else |data|
  {
  }

  /** One turn of the writing loop. */
  lemma NextChunk(data: seq<Row>, from: nat, to: nat, size: nat, chunks: seq<seq<Row>>, written: seq<Chunk>, blobs: map<nat, seq<Row>>)
    requires size > 0 && from < |data| && to == if from + size < |data| then from + size else |data|
    requires |written| == |chunks| && Listed(written, blobs, chunks)
    requires chunks + Split(data[from..], size) == Split(data, size)
    ensures (chunks + [data[from..to]]) + Split(data[to..], size) == Split(data, size)
    ensures Listed(written + [Chunk(|written|, FromMins(data[from].stamp), FromMins(data[to - 1].stamp))],
                   blobs[|written| := data[from..to]], chunks + [data[from..to]])
  {
    ChunkAt(data, from, size, chunks);
    ListedOneMore(written, blobs, chunks, data[from..to]);
  }

  lemma ReadOneMore(result: seq<Row>, chunks: seq<seq<Row>>, i: nat, range: Option<Range>)
    requires i < |chunks| && NoneEmpty(chunks)
    ensures result + ReadChunks(chunks[i..], range) ==
            result + ReadChunk(chunks[i], range) + ReadChunks(chunks[i + 1..], range)
  {
    assert chunks[i..][1..] == chunks[i + 1..];
  }

  lemma ListedOneMore(entries: seq<Chunk>, blobs: map<nat, seq<Row>>, chunks: seq<seq<Row>>, chunk: seq<Row>)
    requires Listed(entries, blobs, chunks) && |entries| == |chunks| && chunk != []
    ensures var i := |entries|;
            Listed(entries + [Chunk(i, FromMins(chunk[0].stamp), FromMins(chunk[|chunk| - 1].stamp))],
                   blobs[i := chunk], chunks + [chunk])
  {
  }
}
