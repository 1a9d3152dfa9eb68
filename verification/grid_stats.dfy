/**
 * What the two elevation scripts share: the row-major numbering of grid
 * cells and the summary statistics (`min`, `max`, mean, `list.index`) of a
 * list of elevations. Elevations are exact reals.
 */
module GridStats {
  import opened Wrappers

  /** Cell `(i, j)` of a grid with `cols` columns is entry `i * cols + j` of the flat list, and back. */
  lemma CellIndex(i: nat, j: nat, cols: nat)
    requires j < cols
    ensures (i * cols + j) / cols == i && (i * cols + j) % cols == j
  {
    var q := (i * cols + j) / cols;
    MulOrder(q, i, cols);
    MulOrder(i, q, cols);
  }

  /** Multiplying by `c` keeps a gap of at least `c` between different naturals. */
  lemma MulOrder(a: nat, b: nat, c: nat)
    ensures a < b ==> a * c + c <= b * c
  {
    if a < b {
      var d: nat := b - a - 1;
      assert b == a + 1 + d;
      assert b * c == a * c + c + d * c;
    }
  }

  /** The flat index of a cell lies inside a `rows` by `cols` grid. */
  lemma CellInGrid(i: nat, j: nat, rows: nat, cols: nat)
    requires i < rows && j < cols
    ensures i * cols + j < rows * cols
  {
    assert i * cols + j < i * cols + cols == (i + 1) * cols <= rows * cols;
  }

  /** A flat index of a `rows` by `cols` grid names a cell inside it. */
  lemma IndexInGrid(k: nat, rows: nat, cols: nat)
    requires k < rows * cols
    ensures cols > 0 && k / cols < rows && k % cols < cols && (k / cols) * cols + k % cols == k
  {
  }

  /** Python's `max(s)`. */
  function Max(s: seq<real>): real
    requires |s| > 0
  {
    if |s| == 1 then s[0]
    else
      var m := Max(s[..|s| - 1]);
      if s[|s| - 1] > m then s[|s| - 1] else m
  }

  /** Python's `min(s)`. */
  function Min(s: seq<real>): real
    requires |s| > 0
  {
    if |s| == 1 then s[0]
    else
      var m := Min(s[..|s| - 1]);
      if s[|s| - 1] < m then s[|s| - 1] else m
  }

  /** Python's `sum(s)`. */
  function Sum(s: seq<real>): real
  {
    if |s| == 0 then 0.0 else Sum(s[..|s| - 1]) + s[|s| - 1]
  }

  /** The maximum is an element, and no element exceeds it. */
  lemma {:induction false} MaxSpec(s: seq<real>)
    requires |s| > 0
    ensures Max(s) in s
    ensures forall k :: 0 <= k < |s| ==> s[k] <= Max(s)
  {
    if |s| > 1 {
      var p := s[..|s| - 1];
      MaxSpec(p);
      assert forall k :: 0 <= k < |p| ==> s[k] == p[k];
    }
  }

  /** The minimum is an element, and no element is below it. */
  lemma {:induction false} MinSpec(s: seq<real>)
    requires |s| > 0
    ensures Min(s) in s
    ensures forall k :: 0 <= k < |s| ==> Min(s) <= s[k]
  {
    if |s| > 1 {
      var p := s[..|s| - 1];
      MinSpec(p);
      assert forall k :: 0 <= k < |p| ==> s[k] == p[k];
    }
  }

  /** A bound on every element bounds the sum by the length times the bound. */
  lemma {:induction false} SumBounds(s: seq<real>, lo: real, hi: real)
    requires forall k :: 0 <= k < |s| ==> lo <= s[k] <= hi
    ensures |s| as real * lo <= Sum(s) <= |s| as real * hi
  {
    if |s| > 0 {
      var p := s[..|s| - 1];
      assert forall k :: 0 <= k < |p| ==> p[k] == s[k];
      SumBounds(p, lo, hi);
      assert |s| as real * lo == |p| as real * lo + lo;
      assert |s| as real * hi == |p| as real * hi + hi;
    }
  }

  /** Python's `s.index(v)`: the first index holding `v` (it raises when `v` is absent). */
  function IndexOf(s: seq<real>, v: real): (r: nat)
    requires v in s
    ensures r < |s| && s[r] == v
    ensures forall j :: 0 <= j < r ==> s[j] != v
  {
    if s[0] == v then 0
    else
      assert v in s[1..];
      1 + IndexOf(s[1..], v)
  }

  /** The `stats` record: minimum, maximum and mean. */
  datatype Stats = Stats(min: real, max: real, mean: real)

  /** `min(s)`, `max(s)` and `sum(s) / len(s)`; `None` for an empty list, where Python raises. */
  function StatsOf(s: seq<real>): Option<Stats>
  {
    if |s| == 0 then None else Some(Stats(Min(s), Max(s), Sum(s) / |s| as real))
  }

  /** The statistics exist for a non-empty list; every element and the mean lie between its minimum and maximum, which are elements. */
  lemma StatsSpec(s: seq<real>)
    ensures StatsOf(s).Some? <==> |s| > 0
    ensures StatsOf(s).Some? ==>
      var st := StatsOf(s).value;
      st.min in s && st.max in s
      && (forall k :: 0 <= k < |s| ==> st.min <= s[k] <= st.max)
      && st.min <= st.mean <= st.max
  {
    if |s| > 0 {
      MinSpec(s);
      MaxSpec(s);
      SumBounds(s, Min(s), Max(s));
      DivBetween(Sum(s), |s| as real, Min(s), Max(s));
    }
  }

  /** A total between `n * lo` and `n * hi` averages to a value between `lo` and `hi`. */
  lemma DivBetween(total: real, n: real, lo: real, hi: real)
    requires n > 0.0 && n * lo <= total <= n * hi
    ensures lo <= total / n <= hi
  {
    var q := total / n;
    assert q * n == total;
    assert q < lo ==> q * n < lo * n;
    assert q > hi ==> q * n > hi * n;
  }
}
