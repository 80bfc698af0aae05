/** A dense real matrix: its dimensions and its cells stored row by row. */
module Matrices {

  /** The cells of a matrix, row by row. */
  type Cells = seq<seq<real>>

  /**
   A matrix records its dimensions next to its cells, so a matrix without
   rows still has a column count (an Eigen matrix may be 0 × n).
   */
  datatype Matrix = Matrix(rows: nat, cols: nat, cells: Cells)
  {
    /** The cells have the recorded dimensions. */
    predicate Valid()
    {
      IsShape(cells, rows, cols)
    }
  }

  /** `m` has exactly `rows` rows of `cols` entries each. */
  predicate IsShape(m: Cells, rows: nat, cols: nat)
  {
    |m| == rows && forall i :: 0 <= i < rows ==> |m[i]| == cols
  }

  /** The `rows` × `cols` matrix of zeros (resize followed by `setZero`). */
  function Zero(rows: nat, cols: nat): (m: Matrix)
    ensures m.rows == rows && m.cols == cols && m.Valid()
    ensures forall i, j :: 0 <= i < rows && 0 <= j < cols ==> m.cells[i][j] == 0.0
  {
    Matrix(rows, cols, seq(rows, _ => seq(cols, _ => 0.0)))
  }

  /** Overwrites entry `(i, j)` with `v`; every other entry is kept. */
  function Set(m: Cells, i: nat, j: nat, v: real): (m': Cells)
    requires i < |m| && j < |m[i]|
    ensures |m'| == |m| && forall a :: 0 <= a < |m| ==> |m'[a]| == |m[a]|
    ensures m'[i][j] == v
    ensures forall a, b :: 0 <= a < |m| && 0 <= b < |m[a]| && (a, b) != (i, j) ==> m'[a][b] == m[a][b]
  {
    m[i := m[i][j := v]]
  }
}
