/**
 * The grid assembly of data/fetch_arthurs_seat.py: the row-major list of
 * grid points, the batches of at most 100 points sent to the elevation
 * service, the concatenation of the answers and the reshape into rows.
 * The service is a parameter `fetch` from a batch of latitudes and
 * longitudes to elevations; coordinates and elevations are exact reals.
 */
module FetchElevation {
  import opened Wrappers
  import opened GridStats

  const SOUTH: real := 55.937
  const NORTH: real := 55.952
  const WEST: real := -3.175
  const EAST: real := -3.150
  const ROWS: nat := 30
  const COLS: nat := 30
  /** The most points the service accepts per request. */
  const BATCH: nat := 100

  /** The latitude of grid row `i`. */
  function Lat(i: nat): real {
    SOUTH + i as real * ((NORTH - SOUTH) / (ROWS - 1) as real)
  }

  /** The longitude of grid column `j`. */
  function Lon(j: nat): real {
    WEST + j as real * ((EAST - WEST) / (COLS - 1) as real)
  }

  /** The grid runs from the south-west corner to the north-east corner. */
  lemma GridCorners()
    ensures Lat(0) == SOUTH && Lat(ROWS - 1) == NORTH
    ensures Lon(0) == WEST && Lon(COLS - 1) == EAST
  {
  }

  /** The point list in row-major order: entry `k` lies in row `k / COLS` and column `k % COLS`. */
  function GridLats(): seq<real> {
    seq(ROWS * COLS, k requires 0 <= k => Lat(k / COLS))
  }

  function GridLons(): seq<real> {
    seq(ROWS * COLS, k requires 0 <= k => Lon(k % COLS))
  }

  /** The nested loop that enumerates the grid points, rows outside, columns inside. */
  method GridPoints() returns (lats: seq<real>, lons: seq<real>)
    ensures |lats| == ROWS * COLS && |lons| == ROWS * COLS
    ensures lats == GridLats() && lons == GridLons()
  {
    lats := [];
    lons := [];
    for i := 0 to ROWS
      invariant |lats| == i * COLS && |lons| == i * COLS
      invariant forall k :: 0 <= k < |lats| ==> lats[k] == Lat(k / COLS) && lons[k] == Lon(k % COLS)
    {
      var lat := Lat(i);
      for j := 0 to COLS
        invariant |lats| == i * COLS + j && |lons| == i * COLS + j
        invariant forall k :: 0 <= k < |lats| ==> lats[k] == Lat(k / COLS) && lons[k] == Lon(k % COLS)
      {
        var lon := Lon(j);
        CellIndex(i, j, COLS);
        lats := lats + [lat];
        lons := lons + [lon];
      }
    }
  }

  /** Cell `(i, j)` of the grid is point `i * COLS + j` of the list. */
  lemma GridCell(i: nat, j: nat)
    requires i < ROWS && j < COLS
    ensures i * COLS + j < ROWS * COLS
    ensures GridLats()[i * COLS + j] == Lat(i) && GridLons()[i * COLS + j] == Lon(j)
  {
    CellInGrid(i, j, ROWS, COLS);
    CellIndex(i, j, COLS);
  }

  /** Python's clamping of a slice bound to the length of the list. */
  function Clamp(x: nat, n: nat): nat {
    if x < n then x else n
  }

  /** Batch `b`: `xs[b*100:(b+1)*100]`. */
  function Batch<T>(xs: seq<T>, b: nat): seq<T> {
    xs[Clamp(b * BATCH, |xs|)..Clamp(b * BATCH + BATCH, |xs|)]
  }

  /** How many batches `range(0, n, 100)` produces. */
  function BatchCount(n: nat): nat {
    (n + BATCH - 1) / BATCH
  }

  /** The first `c` batches put back together. */
  function Batches<T>(xs: seq<T>, c: nat): seq<T> {
    if c == 0 then [] else Batches(xs, c - 1) + Batch(xs, c - 1)
  }

  /** The answers to the first `c` requests, concatenated. */
  function Fetched(lats: seq<real>, lons: seq<real>, fetch: (seq<real>, seq<real>) -> seq<real>, c: nat): seq<real> {
    if c == 0 then [] else Fetched(lats, lons, fetch, c - 1) + fetch(Batch(lats, c - 1), Batch(lons, c - 1))
  }

  /** Each batch before the last holds 100 points and the last one the rest; there is no empty batch. */
  lemma BatchSizes<T>(xs: seq<T>, b: nat)
    requires b < BatchCount(|xs|)
    ensures 1 <= |Batch(xs, b)| <= BATCH
    ensures b + 1 < BatchCount(|xs|) ==> |Batch(xs, b)| == BATCH
    ensures b + 1 == BatchCount(|xs|) ==> |Batch(xs, b)| == |xs| - b * BATCH
  {
  }

  /** The first `c` batches are the first `c * 100` points, in order. */
  lemma {:induction false} BatchesPrefix<T>(xs: seq<T>, c: nat)
    ensures Batches(xs, c) == xs[..Clamp(c * BATCH, |xs|)]
  {
    if c > 0 {
      BatchesPrefix(xs, c - 1);
      var a, m := Clamp((c - 1) * BATCH, |xs|), Clamp(c * BATCH, |xs|);
      assert xs[..a] + xs[a..m] == xs[..m];
    }
  }

  /** Together the batches cover every point exactly once, in order. */
  lemma BatchesCover<T>(xs: seq<T>)
    ensures Batches(xs, BatchCount(|xs|)) == xs
  {
    BatchesPrefix(xs, BatchCount(|xs|));
    assert xs[..|xs|] == xs;
  }

  /** Point `k` is entry `k % 100` of batch `k / 100`. */
  lemma PointInBatch<T>(xs: seq<T>, k: nat)
    requires k < |xs|
    ensures k % BATCH < |Batch(xs, k / BATCH)| && Batch(xs, k / BATCH)[k % BATCH] == xs[k]
  {
  }

  /** The batching loop: one request per slice of at most 100 points, the answers appended in order. */
  method FetchAll(lats: seq<real>, lons: seq<real>, fetch: (seq<real>, seq<real>) -> seq<real>)
    returns (elevations: seq<real>, requests: nat)
    ensures requests == BatchCount(|lats|)
    ensures elevations == Fetched(lats, lons, fetch, requests)
  {
    elevations := [];
    requests := 0;
    var i := 0;
    while i < |lats|
      invariant i == requests * BATCH
      invariant requests > 0 ==> i < |lats| + BATCH
      invariant elevations == Fetched(lats, lons, fetch, requests)
    {
      var batchLats := lats[i..Clamp(i + BATCH, |lats|)];
      var batchLons := lons[Clamp(i, |lons|)..Clamp(i + BATCH, |lons|)];
      assert batchLats == Batch(lats, requests);
      elevations := elevations + fetch(batchLats, batchLons);
      requests := requests + 1;
      i := i + BATCH;
    }
  }

  /**
   * With a service that answers each batch with one elevation per point, the
   * concatenated answers line up with the points: entry `k` is the answer
   * for point `k` within its batch.
   */
  lemma {:induction false} FetchedAligned(lats: seq<real>, lons: seq<real>, fetch: (seq<real>, seq<real>) -> seq<real>, c: nat)
    requires |lats| == |lons|
    requires forall a, b :: |a| == |b| ==> |fetch(a, b)| == |a|
    ensures |Fetched(lats, lons, fetch, c)| == Clamp(c * BATCH, |lats|)
    ensures forall k :: 0 <= k < |Fetched(lats, lons, fetch, c)| ==>
      k % BATCH < |fetch(Batch(lats, k / BATCH), Batch(lons, k / BATCH))|
      && Fetched(lats, lons, fetch, c)[k] == fetch(Batch(lats, k / BATCH), Batch(lons, k / BATCH))[k % BATCH]
  {
    if c > 0 {
      FetchedAligned(lats, lons, fetch, c - 1);
      var prev := Fetched(lats, lons, fetch, c - 1);
      var last := fetch(Batch(lats, c - 1), Batch(lons, c - 1));
      assert |last| == |Batch(lats, c - 1)|;
      forall k | |prev| <= k < |prev| + |last|
        ensures k / BATCH == c - 1 && k % BATCH == k - |prev|
      {
        CellIndex(c - 1, k - (c - 1) * BATCH, BATCH);
      }
    }
  }

  /** The reshape loop: row `i` is `elevations[i*COLS:(i+1)*COLS]`. */
  method Reshape(elevations: seq<real>) returns (grid: seq<seq<real>>)
    ensures |grid| == ROWS
    ensures forall i :: 0 <= i < ROWS ==> grid[i] == elevations[Clamp(i * COLS, |elevations|)..Clamp((i + 1) * COLS, |elevations|)]
    ensures |elevations| == ROWS * COLS ==>
      forall i, j :: 0 <= i < ROWS && 0 <= j < COLS ==> |grid[i]| == COLS && grid[i][j] == elevations[i * COLS + j]
  {
    grid := [];
    for i := 0 to ROWS
      invariant |grid| == i
      invariant forall r :: 0 <= r < i ==> grid[r] == elevations[Clamp(r * COLS, |elevations|)..Clamp((r + 1) * COLS, |elevations|)]
    {
      var row := elevations[Clamp(i * COLS, |elevations|)..Clamp((i + 1) * COLS, |elevations|)];
      grid := grid + [row];
    }
  }

  /** The elevation the service reports for point `k` of the grid. */
  function ElevationOf(fetch: (seq<real>, seq<real>) -> seq<real>, k: nat): real
    requires forall a, b :: |a| == |b| ==> |fetch(a, b)| == |a|
    requires k < ROWS * COLS
  {
    PointInBatch(GridLats(), k);
    fetch(Batch(GridLats(), k / BATCH), Batch(GridLons(), k / BATCH))[k % BATCH]
  }

  /**
   * `main` without its output: the grid of elevations and the statistics.
   * With a service that answers one elevation per point, cell `(i, j)` holds
   * the answer for the point at `(Lat(i), Lon(j))`, and the statistics bound
   * every elevation.
   */
  method BuildElevationGrid(fetch: (seq<real>, seq<real>) -> seq<real>)
    returns (elevations: seq<real>, grid: seq<seq<real>>, stats: Option<Stats>)
    ensures elevations == Fetched(GridLats(), GridLons(), fetch, BatchCount(ROWS * COLS))
    ensures stats == StatsOf(elevations) && |grid| == ROWS
    ensures (forall a, b :: |a| == |b| ==> |fetch(a, b)| == |a|) ==>
      |elevations| == ROWS * COLS && stats.Some?
      && forall i, j :: 0 <= i < ROWS && 0 <= j < COLS ==>
        |grid[i]| == COLS && grid[i][j] == ElevationOf(fetch, i * COLS + j)
        && stats.value.min <= grid[i][j] <= stats.value.max
  {
    var lats, lons := GridPoints();
    var requests;
    elevations, requests := FetchAll(lats, lons, fetch);
    grid := Reshape(elevations);
    stats := StatsOf(elevations);
    if forall a, b :: |a| == |b| ==> |fetch(a, b)| == |a| {
      FetchedAligned(lats, lons, fetch, requests);
      StatsSpec(elevations);
      forall i, j | 0 <= i < ROWS && 0 <= j < COLS
        ensures grid[i][j] == ElevationOf(fetch, i * COLS + j)
        ensures stats.value.min <= grid[i][j] <= stats.value.max
      {
        CellInGrid(i, j, ROWS, COLS);
      }
    }
  }

  /** The answer for point `k` is the one for its own latitude and longitude: they sit at the same place in their batches. */
  lemma PointOfElevation(k: nat)
    requires k < ROWS * COLS
    ensures Batch(GridLats(), k / BATCH)[k % BATCH] == Lat(k / COLS)
    ensures Batch(GridLons(), k / BATCH)[k % BATCH] == Lon(k % COLS)
  {
    PointInBatch(GridLats(), k);
    PointInBatch(GridLons(), k);
  }
}
