/**
 Two-dimensional numpy arrays as the plot adapters use them: a row-major
 grid with an explicit shape, and the index manipulations applied to it
 (`img.T`, `img[:, ::-1]`, `img[::-1]`, `flatten()`).
 */
module Grids {

  /** An array of shape `(rows, cols)`; `cells[i][j]` is `arr[i, j]`. The shape
      is kept even when a dimension is zero. */
  datatype Grid<T> = Grid(rows: nat, cols: nat, cells: seq<seq<T>>)

  predicate Valid<T>(g: Grid<T>) {
    |g.cells| == g.rows && forall i :: 0 <= i < g.rows ==> |g.cells[i]| == g.cols
  }

  predicate AllValid<T>(gs: seq<Grid<T>>) {
    forall c :: 0 <= c < |gs| ==> Valid(gs[c])
  }

  /** `arr.T`. */
  function Transpose<T>(g: Grid<T>): (r: Grid<T>)
    requires Valid(g)
    ensures Valid(r) && r.rows == g.cols && r.cols == g.rows
    ensures forall j, i :: 0 <= j < r.rows && 0 <= i < r.cols ==> r.cells[j][i] == g.cells[i][j]
  {
    Grid(g.cols, g.rows,
         seq(g.cols, j requires 0 <= j < g.cols =>
           seq(g.rows, i requires 0 <= i < g.rows => g.cells[i][j])))
  }

  /** `arr[:, ::-1]`: every row reversed. */
  function FlipCols<T>(g: Grid<T>): (r: Grid<T>)
    requires Valid(g)
    ensures Valid(r) && r.rows == g.rows && r.cols == g.cols
    ensures forall i, j :: 0 <= i < r.rows && 0 <= j < r.cols ==> r.cells[i][j] == g.cells[i][g.cols - 1 - j]
  {
    Grid(g.rows, g.cols,
         seq(g.rows, i requires 0 <= i < g.rows =>
           seq(g.cols, j requires 0 <= j < g.cols => g.cells[i][g.cols - 1 - j])))
  }

  /** `arr[::-1]`: the order of the rows reversed. */
  function FlipRows<T>(g: Grid<T>): (r: Grid<T>)
    requires Valid(g)
    ensures Valid(r) && r.rows == g.rows && r.cols == g.cols
    ensures forall i :: 0 <= i < r.rows ==> r.cells[i] == g.cells[g.rows - 1 - i]
  {
    Grid(g.rows, g.cols, seq(g.rows, i requires 0 <= i < g.rows => g.cells[g.rows - 1 - i]))
  }

  /** Element-wise conversion, as `astype` does. */
  function Map<T, U>(g: Grid<T>, f: T -> U): (r: Grid<U>)
    requires Valid(g)
    ensures Valid(r) && r.rows == g.rows && r.cols == g.cols
    ensures forall i, j :: 0 <= i < r.rows && 0 <= j < r.cols ==> r.cells[i][j] == f(g.cells[i][j])
  {
    Grid(g.rows, g.cols,
         seq(g.rows, i requires 0 <= i < g.rows =>
           seq(g.cols, j requires 0 <= j < g.cols => f(g.cells[i][j]))))
  }

  function Concat<T>(rows: seq<seq<T>>): seq<T>
    decreases |rows|
  {
    if |rows| == 0 then [] else rows[0] + Concat(rows[1..])
  }

  /** `arr.flatten()`: the rows one after another. */
  function Flatten<T>(g: Grid<T>): seq<T> {
    Concat(g.cells)
  }

  lemma TransposeInvolution<T>(g: Grid<T>)
    requires Valid(g)
    ensures Transpose(Transpose(g)) == g
  {
    var r := Transpose(Transpose(g));
    forall i | 0 <= i < g.rows
      ensures r.cells[i] == g.cells[i]
    {
    }
  }

  lemma FlipColsInvolution<T>(g: Grid<T>)
    requires Valid(g)
    ensures FlipCols(FlipCols(g)) == g
  {
    var r := FlipCols(FlipCols(g));
    forall i | 0 <= i < g.rows
      ensures r.cells[i] == g.cells[i]
    {
    }
  }

  lemma FlipRowsInvolution<T>(g: Grid<T>)
    requires Valid(g)
    ensures FlipRows(FlipRows(g)) == g
  {
  }

  /** Row `i` of a grid with `m` columns starts at `i * m` of the flattening. */
  lemma {:induction false} ConcatIndex<T>(rows: seq<seq<T>>, m: nat, i: nat, j: nat)
    requires forall k :: 0 <= k < |rows| ==> |rows[k]| == m
    requires i < |rows| && j < m
    ensures |Concat(rows)| == |rows| * m
    ensures i * m + j < |Concat(rows)| && Concat(rows)[i * m + j] == rows[i][j]
    decreases |rows|
  {
    ConcatLength(rows, m);
    if i > 0 {
      ConcatIndex(rows[1..], m, i - 1, j);
      assert i * m + j == m + ((i - 1) * m + j);
    }
  }

  lemma {:induction false} ConcatLength<T>(rows: seq<seq<T>>, m: nat)
    requires forall k :: 0 <= k < |rows| ==> |rows[k]| == m
    ensures |Concat(rows)| == |rows| * m
    decreases |rows|
  {
    if |rows| > 0 {
      ConcatLength(rows[1..], m);
      assert |rows| * m == m + (|rows| - 1) * m;
    }
  }

  /** Position `k` of an `n × m` grid's flattening is row `k / m`, column
      `k % m`. */
  lemma DivBound(k: nat, n: nat, m: nat)
    requires k < n * m
    ensures m > 0 && k / m < n && k % m < m && k == (k / m) * m + k % m
  {
  }

  lemma FlattenLength<T>(g: Grid<T>)
    requires Valid(g)
    ensures |Flatten(g)| == g.rows * g.cols
  {
    ConcatLength(g.cells, g.cols);
  }

  /** Reading the flattening back at any position `k`. */
  lemma FlattenAt<T>(g: Grid<T>, k: nat)
    requires Valid(g) && k < g.rows * g.cols
    ensures k < |Flatten(g)| && g.cols > 0 && k / g.cols < g.rows
    ensures Flatten(g)[k] == g.cells[k / g.cols][k % g.cols]
  {
    DivBound(k, g.rows, g.cols);
    ConcatIndex(g.cells, g.cols, k / g.cols, k % g.cols);
  }

  /** `arr.T.flatten()` lists the grid column by column. */
  lemma FlattenTransposeAt<T>(g: Grid<T>, k: nat)
    requires Valid(g) && k < g.rows * g.cols
    ensures k < |Flatten(Transpose(g))| && g.rows > 0 && k / g.rows < g.cols
    ensures Flatten(Transpose(g))[k] == g.cells[k % g.rows][k / g.rows]
  {
    var t := Transpose(g);
    assert g.rows * g.cols == t.rows * t.cols;
    FlattenAt(t, k);
  }
}
