/** The squaring stage of `src/job.rs`: `convert_to_square_matrix` and the
    choice of the common side in `create`.
 */
module Squaring {
  import opened Results
  import opened Matrices

  /** `convert_to_square_matrix(matrix, dimension)`: zero-pad `m` into a
      `dimension x dimension` matrix, or panic when `dimension` is below one
      of its extents. */
  function ConvertToSquareMatrix(m: Matrix, dimension: nat): (r: Result<Matrix>)
    requires Wf(m)
    ensures r.Err? <==> dimension < Max(m.rows, m.cols)
    ensures r.Err? ==> r.error == DimensionTooSmall
    ensures r.Ok? ==> Wf(r.value) && r.value.rows == dimension && r.value.cols == dimension
    // the input sits unchanged in the top-left corner
    ensures r.Ok? ==> forall i, j :: 0 <= i < m.rows && 0 <= j < m.cols ==> r.value.cells[i][j] == m.cells[i][j]
    // every other cell is padding
    ensures r.Ok? ==> forall i, j ::
      0 <= i < dimension && 0 <= j < dimension && (m.rows <= i || m.cols <= j) ==> r.value.cells[i][j] == 0
  {
    if dimension < Max(m.rows, m.cols) then Err(DimensionTooSmall)
    else
      Ok(Matrix(dimension, dimension,
                seq(dimension, i requires 0 <= i < dimension =>
                      seq(dimension, j requires 0 <= j < dimension =>
                            if i < m.rows && j < m.cols then m.cells[i][j] else 0))))
  }

  /** Cropping the padded matrix back to the input's extents gives the input. */
  lemma {:induction false} CropUndoesSquaring(m: Matrix, dimension: nat)
    requires Wf(m) && Max(m.rows, m.cols) <= dimension
    ensures ConvertToSquareMatrix(m, dimension).Ok?
    ensures Crop(ConvertToSquareMatrix(m, dimension).value, m.rows, m.cols) == m
  {
    var sq := ConvertToSquareMatrix(m, dimension).value;
    Extensionality(Crop(sq, m.rows, m.cols), m);
  }

  /** Squaring a matrix that is already square with the requested side changes nothing. */
  lemma {:induction false} SquaringSquareIsIdentity(m: Matrix)
    requires Wf(m) && IsSquare(m)
    ensures ConvertToSquareMatrix(m, m.rows) == Ok(m)
  {
    Extensionality(ConvertToSquareMatrix(m, m.rows).value, m);
  }

  /** The common side chosen by `create`: the largest of the four extents. */
  function JobDimension(a: Matrix, b: Matrix): (d: nat)
    ensures a.rows <= d && a.cols <= d && b.rows <= d && b.cols <= d
    ensures d == a.rows || d == a.cols || d == b.rows || d == b.cols
  {
    Max(Max(a.rows, a.cols), Max(b.rows, b.cols))
  }

  /** Both inputs of `create` square successfully to the same side, and no
      smaller side would do. */
  lemma JobSquaringSucceeds(a: Matrix, b: Matrix)
    requires Wf(a) && Wf(b)
    ensures ConvertToSquareMatrix(a, JobDimension(a, b)).Ok?
    ensures ConvertToSquareMatrix(b, JobDimension(a, b)).Ok?
    ensures forall d: nat :: d < JobDimension(a, b) ==>
              ConvertToSquareMatrix(a, d).Err? || ConvertToSquareMatrix(b, d).Err?
  {
  }
}
