/** Thinning a fetched batch to a resolution. */
module Thinning {
  import opened BlobCache

  /** Rows kept when the last kept stamp (initially 0) is prev. */
  function Thinned(rows: seq<Row>, prev: int, resolution: int): seq<Row> {
    if rows == [] then []
    else if rows[0].stamp - prev >= resolution then [rows[0]] + Thinned(rows[1..], rows[0].stamp, resolution)
    else Thinned(rows[1..], prev, resolution)
  }

  method Thin(rows: seq<Row>, resolution: int) returns (kept: seq<Row>)
    ensures kept == Thinned(rows, 0, resolution)
  {
    var prev := 0;
    kept := [];
    for i := 0 to |rows|
      invariant kept + Thinned(rows[i..], prev, resolution) == Thinned(rows, 0, resolution)
    {
      assert rows[i..][1..] == rows[i + 1..];
      if rows[i].stamp - prev >= resolution {
        prev := rows[i].stamp;
        kept := kept + [rows[i]];
      }
    }
  }

  /** The stamp of the last row kept, or prev when none was. */
  function LastKept(rows: seq<Row>, prev: int, resolution: int): int {
    var kept := Thinned(rows, prev, resolution);
    if kept == [] then prev else kept[|kept| - 1].stamp
  }

  lemma {:induction false} ThinnedAppend(x: seq<Row>, y: seq<Row>, prev: int, resolution: int)
    ensures Thinned(x + y, prev, resolution) ==
            Thinned(x, prev, resolution) + Thinned(y, LastKept(x, prev, resolution), resolution)
  {
    if x == [] {
      assert x + y == y;
    } else {
      assert (x + y)[1..] == x[1..] + y;
      ThinnedAppend(x[1..], y, if x[0].stamp - prev >= resolution then x[0].stamp else prev, resolution);
    }
  }

  /** Row k is kept exactly when it lies at least the resolution after the last row kept before it. */
  lemma KeptIff(rows: seq<Row>, k: nat, resolution: int)
    requires k < |rows| && Increasing(rows)
    ensures rows[k] in Thinned(rows, 0, resolution) <==> rows[k].stamp - LastKept(rows[..k], 0, resolution) >= resolution
  {
    var x, y := rows[..k], rows[k..];
    assert rows == x + y && y[1..] == rows[k + 1..];
    ThinnedAppend(x, y, 0, resolution);
    Unrepeated(rows, k);
    ThinnedWithin(x, 0, resolution);
    ThinnedWithin(rows[k + 1..], LastKept(x, 0, resolution), resolution);
  }

  lemma Unrepeated(rows: seq<Row>, k: nat)
    requires Increasing(rows) && k < |rows|
    ensures rows[k] !in rows[..k] && rows[k] !in rows[k + 1..]
  {
    var later := rows[k + 1..];
    forall i | 0 <= i < |later| ensures later[i] != rows[k] {
      assert rows[k].stamp < rows[k + 1 + i].stamp;
    }
  }

  lemma {:induction false} ThinnedWithin(rows: seq<Row>, prev: int, resolution: int)
    ensures forall r | r in Thinned(rows, prev, resolution) :: r in rows
  {
    if rows != [] {
      ThinnedWithin(rows[1..], if rows[0].stamp - prev >= resolution then rows[0].stamp else prev, resolution);
      assert rows == [rows[0]] + rows[1..];
    }
  }

  /** Kept stamps are at least the resolution apart, starting from the initial one. */
  ghost predicate Spaced(rows: seq<Row>, prev: int, resolution: int) {
    && (rows != [] ==> rows[0].stamp - prev >= resolution)
    && (forall i | 0 < i < |rows| :: rows[i].stamp - rows[i - 1].stamp >= resolution)
  }

  lemma {:induction false} ThinnedSpaced(rows: seq<Row>, prev: int, resolution: int)
    ensures Spaced(Thinned(rows, prev, resolution), prev, resolution)
  {
    if rows != [] {
      if rows[0].stamp - prev >= resolution {
        ThinnedSpaced(rows[1..], rows[0].stamp, resolution);
      } else {
        ThinnedSpaced(rows[1..], prev, resolution);
      }
    }
  }

  /** Thinning leaves a batch as it is exactly when it is already spaced. */
  lemma {:induction false} ThinnedFixpointIff(rows: seq<Row>, prev: int, resolution: int)
    ensures Thinned(rows, prev, resolution) == rows <==> Spaced(rows, prev, resolution)
  {
    ThinnedSpaced(rows, prev, resolution);
    if Spaced(rows, prev, resolution) && rows != [] {
      assert forall i | 0 < i < |rows[1..]| :: rows[1..][i - 1] == rows[i];
      assert Spaced(rows[1..], rows[0].stamp, resolution) by {
        forall i | 0 < i < |rows[1..]| ensures rows[1..][i].stamp - rows[1..][i - 1].stamp >= resolution {
          assert rows[i + 1].stamp - rows[i + 1 - 1].stamp >= resolution;
        }
        if rows[1..] != [] { assert rows[1].stamp - rows[1 - 1].stamp >= resolution; }
      }
      ThinnedFixpointIff(rows[1..], rows[0].stamp, resolution);
    }
  }

  /** Thinning twice is thinning once. */
  lemma ThinnedTwice(rows: seq<Row>, prev: int, resolution: int)
    ensures Thinned(Thinned(rows, prev, resolution), prev, resolution) == Thinned(rows, prev, resolution)
  {
    ThinnedSpaced(rows, prev, resolution);
    ThinnedFixpointIff(Thinned(rows, prev, resolution), prev, resolution);
  }
}
