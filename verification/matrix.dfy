/** Dense integer matrices, the model of ndarray's `Array2<i32>`.

    A matrix keeps its extents explicitly, so that a `0 x n` matrix still has
    `n` columns; `Wf` says that the cells agree with the extents.  Element
    values are only copied by the pipeline, never combined, so they are
    unbounded integers here.
 */
module Matrices {

  datatype Matrix = Matrix(rows: nat, cols: nat, cells: seq<seq<int>>)

  /** The cells form a `rows x cols` rectangle. */
  predicate Wf(m: Matrix) {
    |m.cells| == m.rows && forall r :: 0 <= r < |m.cells| ==> |m.cells[r]| == m.cols
  }

  predicate IsSquare(m: Matrix) {
    m.rows == m.cols
  }

  function Max(x: int, y: int): int {
    if x < y then y else x
  }

  function Min(x: int, y: int): int {
    if x < y then x else y
  }

  /** `Array2::zeros((rows, cols))`. */
  function Zeros(rows: nat, cols: nat): (z: Matrix)
    ensures Wf(z) && z.rows == rows && z.cols == cols
    ensures forall r, c :: 0 <= r < rows && 0 <= c < cols ==> z.cells[r][c] == 0
  {
    Matrix(rows, cols, seq(rows, _ => seq(cols, _ => 0)))
  }

  /** Two well-formed matrices of the same shape that agree on every cell are equal. */
  lemma {:induction false} Extensionality(m: Matrix, n: Matrix)
    requires Wf(m) && Wf(n) && m.rows == n.rows && m.cols == n.cols
    requires forall r, c :: 0 <= r < m.rows && 0 <= c < m.cols ==> m.cells[r][c] == n.cells[r][c]
    ensures m == n
  {
    forall r | 0 <= r < m.rows
      ensures m.cells[r] == n.cells[r]
    {
      assert forall c :: 0 <= c < m.cols ==> m.cells[r][c] == n.cells[r][c];
    }
  }

  /** The `size x size` block of `m` whose top-left cell is `(row, col)`. */
  function Block(m: Matrix, row: nat, col: nat, size: nat): (b: Matrix)
    requires Wf(m) && row + size <= m.rows && col + size <= m.cols
    ensures Wf(b) && b.rows == size && b.cols == size
  {
    Matrix(size, size, seq(size, lr requires 0 <= lr < size =>
                             seq(size, lc requires 0 <= lc < size => m.cells[row + lr][col + lc])))
  }

  /** The top-left `rows x cols` part of `m`. */
  function Crop(m: Matrix, rows: nat, cols: nat): (c: Matrix)
    requires Wf(m) && rows <= m.rows && cols <= m.cols
    ensures Wf(c) && c.rows == rows && c.cols == cols
  {
    Matrix(rows, cols, seq(rows, r requires 0 <= r < rows =>
                             seq(cols, k requires 0 <= k < cols => m.cells[r][k])))
  }
}
