/**
  Two-dimensional buffers as values: a grid is the sequence of its rows. The
  label mask and the overlay are `array2`s; `Cells` gives their contents as a
  grid so that what an operation does to a buffer can be stated, and proved,
  as a function on grids.
*/
module Grids {

  /** A two-dimensional buffer, row by row. */
  type Grid<T> = seq<seq<T>>

  /** `g` has `rows` rows of `cols` cells each. */
  ghost predicate IsGrid<T>(g: Grid<T>, rows: nat, cols: nat)
  {
    |g| == rows && forall i :: 0 <= i < rows ==> |g[i]| == cols
  }

  /** The contents of a two-dimensional array, row by row. */
  function Cells<T>(a: array2<T>): (g: Grid<T>)
    reads a
    ensures IsGrid(g, a.Length0, a.Length1)
    ensures forall i, j :: 0 <= i < a.Length0 && 0 <= j < a.Length1 ==> g[i][j] == a[i, j]
  {
    seq(a.Length0, i requires 0 <= i < a.Length0 reads a =>
      seq(a.Length1, j requires 0 <= j < a.Length1 reads a => a[i, j]))
  }

  /** Two grids of one shape that agree on every cell are equal. */
  lemma GridEq<T>(a: Grid<T>, b: Grid<T>, rows: nat, cols: nat)
    requires IsGrid(a, rows, cols) && IsGrid(b, rows, cols)
    requires forall i, j :: 0 <= i < rows && 0 <= j < cols ==> a[i][j] == b[i][j]
    ensures a == b
  {
    forall i | 0 <= i < rows
      ensures a[i] == b[i]
    {
      assert forall j :: 0 <= j < cols ==> a[i][j] == b[i][j];
    }
  }

  /** The cells of a grid in row-major order, as numpy's `reshape(-1)` lists them. */
  function RowMajor<T>(g: Grid<T>): seq<T>
  {
    if g == [] then [] else g[0] + RowMajor(g[1..])
  }

  /** The cell at row `i`, column `j` of a `rows` by `cols` buffer has a
      row-major position inside the buffer. */
  lemma FlatIndexBound(rows: nat, cols: nat, i: nat, j: nat)
    requires i < rows && j < cols
    ensures i * cols + j < rows * cols
  {
    calc {
      i * cols + j;
    <  i * cols + cols;
    == (i + 1) * cols;
    <= { MulMonotonic(i + 1, rows, cols); }
       rows * cols;
    }
  }

  lemma {:induction false} MulMonotonic(a: nat, b: nat, c: nat)
    requires a <= b
    ensures a * c <= b * c
  {
    if a < b {
      MulMonotonic(a, b - 1, c);
      assert b * c == (b - 1) * c + c;
    }
  }

  /** The element at row `i`, column `j` of a `rows` by `cols` buffer whose
      cells are listed row-major in `flat`. */
  function FlatAt<T>(flat: seq<T>, rows: nat, cols: nat, i: nat, j: nat): T
    requires |flat| == rows * cols && i < rows && j < cols
  {
    FlatIndexBound(rows, cols, i, j);
    flat[i * cols + j]
  }

  /** A `rows` by `cols` grid lists `rows * cols` cells. */
  lemma {:induction false} RowMajorLength<T>(g: Grid<T>, rows: nat, cols: nat)
    requires IsGrid(g, rows, cols)
    ensures |RowMajor(g)| == rows * cols
  {
    if rows > 0 {
      RowMajorLength(g[1..], rows - 1, cols);
      assert rows * cols == (rows - 1) * cols + cols;
    }
  }

  /** The cell at row `i`, column `j` is listed at position `i * cols + j`. */
  lemma {:induction false} RowMajorAt<T>(g: Grid<T>, rows: nat, cols: nat, i: nat, j: nat)
    requires IsGrid(g, rows, cols) && i < rows && j < cols
    ensures |RowMajor(g)| == rows * cols
    ensures i * cols + j < rows * cols && RowMajor(g)[i * cols + j] == g[i][j]
  {
    RowMajorLength(g, rows, cols);
    FlatIndexBound(rows, cols, i, j);
    if i > 0 {
      RowMajorAt(g[1..], rows - 1, cols, i - 1, j);
      assert (i - 1) * cols + j + cols == i * cols + j;
    }
  }
}
