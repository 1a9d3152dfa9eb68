/**
 * data/generate_arthurs_seat.py: a synthetic elevation surface made of a
 * base height plus Gaussian bumps, sampled on a row-major grid, and the
 * location of its highest point. Coordinates and elevations are exact
 * reals; `exp`, `cos`, `sin` and `round(·, 1)` are parameters.
 */
module GenerateElevation {
  import opened Wrappers
  import opened GridStats

  const ROWS: nat := 50
  const COLS: nat := 50
  const SOUTH: real := 55.937
  const NORTH: real := 55.952
  const WEST: real := -3.175
  const EAST: real := -3.150

  /** The floating-point functions the script calls. */
  datatype Maths = Maths(exp: real -> real, cos: real -> real, sin: real -> real, round1: real -> real)

  /** One `gaussian_2d` term: centre, height, spreads and rotation, in normalised coordinates. */
  datatype Peak = Peak(cx: real, cy: real, height: real, sigmaX: real, sigmaY: real, rotation: real)

  /** The base elevation every point starts from. */
  const BASE: real := 30.0

  /** The bumps `generate_elevation` adds, in the order it adds them. */
  const PEAKS: seq<Peak> := [
    Peak(0.37, 0.47, 220.0, 0.12, 0.10, 0.0),
    Peak(0.25, 0.60, 130.0, 0.20, 0.06, 0.5),
    Peak(0.55, 0.35, 90.0, 0.08, 0.08, 0.0),
    Peak(0.70, 0.55, 70.0, 0.10, 0.08, 0.0),
    Peak(0.60, 0.70, 50.0, 0.07, 0.07, 0.0),
    Peak(0.15, 0.25, 40.0, 0.15, 0.15, 0.0),
    Peak(0.45, 0.30, 30.0, 0.05, 0.05, 0.0),
    Peak(0.30, 0.40, 25.0, 0.04, 0.04, 0.0),
    Peak(0.50, 0.60, 35.0, 0.06, 0.05, 0.0)
  ]

  /** Every bump has a positive height and positive spreads. */
  predicate Upward(p: Peak) {
    p.height > 0.0 && p.sigmaX > 0.0 && p.sigmaY > 0.0
  }

  lemma PeaksUpward()
    ensures forall k :: 0 <= k < |PEAKS| ==> Upward(PEAKS[k])
  {
  }

  /** `gaussian_2d(x, y, cx, cy, height, sigma_x, sigma_y, rotation)` */
  function Gaussian(m: Maths, x: real, y: real, p: Peak): real
    requires p.sigmaX != 0.0 && p.sigmaY != 0.0
  {
    var c := m.cos(p.rotation);
    var s := m.sin(p.rotation);
    var dx := x - p.cx;
    var dy := y - p.cy;
    var xr := dx * c + dy * s;
    var yr := -dx * s + dy * c;
    p.height * m.exp(-(xr * xr / (2.0 * p.sigmaX * p.sigmaX) + yr * yr / (2.0 * p.sigmaY * p.sigmaY)))
  }

  /** A bump of positive height never lowers the surface when `exp` is non-negative. */
  lemma GaussianNonNegative(m: Maths, x: real, y: real, p: Peak)
    requires Upward(p)
    requires forall t :: m.exp(t) >= 0.0
    ensures Gaussian(m, x, y, p) >= 0.0
  {
  }

  /** The sum of the first `n` bumps at `(x, y)`. */
  function Bumps(m: Maths, x: real, y: real, n: nat): real
    requires n <= |PEAKS|
  {
    if n == 0 then 0.0
    else
      PeaksUpward();
      Bumps(m, x, y, n - 1) + Gaussian(m, x, y, PEAKS[n - 1])
  }

  /** `generate_elevation(lat, lon)` */
  function Elevation(m: Maths, lat: real, lon: real): real
  {
    var x := (lon - WEST) / (EAST - WEST);
    var y := (lat - SOUTH) / (NORTH - SOUTH);
    BASE + Bumps(m, x, y, |PEAKS|)
  }

  /** The bumps add up to a non-negative amount. */
  lemma {:induction false} BumpsNonNegative(m: Maths, x: real, y: real, n: nat)
    requires n <= |PEAKS|
    requires forall t :: m.exp(t) >= 0.0
    ensures Bumps(m, x, y, n) >= 0.0
  {
    if n > 0 {
      PeaksUpward();
      BumpsNonNegative(m, x, y, n - 1);
      GaussianNonNegative(m, x, y, PEAKS[n - 1]);
    }
  }

  /** No point of the surface lies below the base of 30. */
  lemma ElevationAboveBase(m: Maths, lat: real, lon: real)
    requires forall t :: m.exp(t) >= 0.0
    ensures Elevation(m, lat, lon) >= BASE
  {
    var x := (lon - WEST) / (EAST - WEST);
    var y := (lat - SOUTH) / (NORTH - SOUTH);
    BumpsNonNegative(m, x, y, |PEAKS|);
  }

  /** The latitude of grid row `i`. */
  function Lat(i: nat): real {
    SOUTH + i as real * ((NORTH - SOUTH) / (ROWS - 1) as real)
  }

  /** The longitude of grid column `j`. */
  function Lon(j: nat): real {
    WEST + j as real * ((EAST - WEST) / (COLS - 1) as real)
  }

  /** `all_elevations`: the unrounded elevations in row-major order. */
  function GridFlat(m: Maths): seq<real> {
    seq(ROWS * COLS, k requires 0 <= k => Elevation(m, Lat(k / COLS), Lon(k % COLS)))
  }

  /** Row `i` of `elevation_grid`: the rounded elevations along latitude `Lat(i)`. */
  function GridRow(m: Maths, i: nat): seq<real> {
    seq(COLS, j requires 0 <= j => m.round1(Elevation(m, Lat(i), Lon(j))))
  }

  /** The nested loop of `main`: one rounded row per latitude, and every unrounded value in the flat list. */
  method BuildGrid(m: Maths) returns (grid: seq<seq<real>>, flat: seq<real>)
    ensures |grid| == ROWS && forall i :: 0 <= i < ROWS ==> grid[i] == GridRow(m, i)
    ensures flat == GridFlat(m)
  {
    grid := [];
    flat := [];
    for i := 0 to ROWS
      invariant |grid| == i && |flat| == i * COLS
      invariant forall r :: 0 <= r < i ==> grid[r] == GridRow(m, r)
      invariant forall k :: 0 <= k < |flat| ==> flat[k] == Elevation(m, Lat(k / COLS), Lon(k % COLS))
    {
      var lat := Lat(i);
      var row := [];
      for j := 0 to COLS
        invariant |row| == j && |flat| == i * COLS + j
        invariant forall c :: 0 <= c < j ==> row[c] == m.round1(Elevation(m, lat, Lon(c)))
        invariant forall k :: 0 <= k < |flat| ==> flat[k] == Elevation(m, Lat(k / COLS), Lon(k % COLS))
      {
        var lon := Lon(j);
        var elev := Elevation(m, lat, lon);
        CellIndex(i, j, COLS);
        row := row + [m.round1(elev)];
        flat := flat + [elev];
      }
      grid := grid + [row];
    }
  }

  /** Each grid entry is the rounded value of the flat entry at the same row-major position. */
  lemma GridMatchesFlat(m: Maths, i: nat, j: nat)
    requires i < ROWS && j < COLS
    ensures i * COLS + j < |GridFlat(m)|
    ensures GridRow(m, i)[j] == m.round1(GridFlat(m)[i * COLS + j])
  {
    CellInGrid(i, j, ROWS, COLS);
    CellIndex(i, j, COLS);
  }

  /** What `main` computes before it writes the file. */
  datatype Summary = Summary(minElev: real, maxElev: real, meanElev: real, maxRow: nat, maxCol: nat, maxLat: real, maxLon: real)

  /**
   * `main`: builds the grid, takes the statistics of the unrounded values,
   * and locates the first cell holding the maximum.
   */
  method GenerateSurface(m: Maths) returns (grid: seq<seq<real>>, flat: seq<real>, summary: Summary)
    ensures |grid| == ROWS && forall i :: 0 <= i < ROWS ==> grid[i] == GridRow(m, i)
    ensures flat == GridFlat(m)
    ensures summary.maxRow < ROWS && summary.maxCol < COLS && summary.maxElev in flat
    ensures summary.maxRow * COLS + summary.maxCol == IndexOf(flat, summary.maxElev)
    ensures flat[summary.maxRow * COLS + summary.maxCol] == summary.maxElev
    ensures forall k :: 0 <= k < summary.maxRow * COLS + summary.maxCol ==> flat[k] < summary.maxElev
    ensures forall k :: 0 <= k < |flat| ==> summary.minElev <= flat[k] <= summary.maxElev
    ensures summary.minElev <= summary.meanElev <= summary.maxElev
    ensures StatsOf(flat) == Some(Stats(summary.minElev, summary.maxElev, summary.meanElev))
    ensures summary.maxLat == Lat(summary.maxRow) && summary.maxLon == Lon(summary.maxCol)
  {
    grid, flat := BuildGrid(m);
    var st := StatsOf(flat);
    StatsSpec(flat);
    var maxElev := st.value.max;
    var minElev := st.value.min;
    var mean := st.value.mean;
    var maxIdx := IndexOf(flat, maxElev);
    IndexInGrid(maxIdx, ROWS, COLS);
    var maxRow := maxIdx / COLS;
    var maxCol := maxIdx % COLS;
    summary := Summary(minElev, maxElev, mean, maxRow, maxCol, Lat(maxRow), Lon(maxCol));
  }

  /** The reported summit is the surface's value at the reported cell. */
  lemma SummitOnSurface(m: Maths, row: nat, col: nat)
    requires row < ROWS && col < COLS
    ensures GridFlat(m)[row * COLS + col] == Elevation(m, Lat(row), Lon(col))
  {
    CellInGrid(row, col, ROWS, COLS);
    CellIndex(row, col, COLS);
  }
}
