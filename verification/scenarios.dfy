/** The unit tests of `src/job.rs`, restated as facts about the model. */
module Scenarios {
  import opened Results
  import opened Matrices
  import opened Squaring
  import opened Tiling
  import opened Payload
  import opened Reassembly
  import opened Job

  /** `[[1, 2, 3, 4], ..., [13, 14, 15, 16]]`, the first test operand. */
  function Counting(): (m: Matrix)
    ensures Wf(m) && m.rows == 4 && m.cols == 4
  {
    Matrix(4, 4, [[1, 2, 3, 4], [5, 6, 7, 8], [9, 10, 11, 12], [13, 14, 15, 16]])
  }

  /** `[[17, 18, 19, 20], ..., [29, 30, 31, 32]]`, the second test operand. */
  function CountingOn(): (m: Matrix)
    ensures Wf(m) && m.rows == 4 && m.cols == 4
  {
    Matrix(4, 4, [[17, 18, 19, 20], [21, 22, 23, 24], [25, 26, 27, 28], [29, 30, 31, 32]])
  }

  /** A `2 x 3` matrix squares to side 3 with a zero bottom row, and cannot be
      squared to side 2. */
  lemma SquaringExample()
    ensures ConvertToSquareMatrix(Matrix(2, 3, [[1, 2, 3], [4, 5, 6]]), 3)
            == Ok(Matrix(3, 3, [[1, 2, 3], [4, 5, 6], [0, 0, 0]]))
    ensures ConvertToSquareMatrix(Matrix(2, 3, [[1, 2, 3], [4, 5, 6]]), 2) == Err(DimensionTooSmall)
  {
    var m := Matrix(2, 3, [[1, 2, 3], [4, 5, 6]]);
    var expected := Matrix(3, 3, [[1, 2, 3], [4, 5, 6], [0, 0, 0]]);
    Extensionality(ConvertToSquareMatrix(m, 3).value, expected);
  }

  /** Four tiles of the `4 x 4` test operands: the quadrants, in row-major
      order, cut from both operands. */
  lemma ParallelizeExample()
    ensures Parallelize(Counting(), CountingOn(), 4).Ok?
    ensures var tasks := Parallelize(Counting(), CountingOn(), 4).value;
      && |tasks| == 4
      && tasks[0].placement == Placement(0, 0) && tasks[1].placement == Placement(0, 2)
      && tasks[2].placement == Placement(2, 0) && tasks[3].placement == Placement(2, 2)
      && tasks[0].first == Matrix(2, 2, [[1, 2], [5, 6]])
      && tasks[1].first == Matrix(2, 2, [[3, 4], [7, 8]])
      && tasks[2].first == Matrix(2, 2, [[9, 10], [13, 14]])
      && tasks[3].first == Matrix(2, 2, [[11, 12], [15, 16]])
      && tasks[0].second == Matrix(2, 2, [[17, 18], [21, 22]])
      && tasks[1].second == Matrix(2, 2, [[19, 20], [23, 24]])
      && tasks[2].second == Matrix(2, 2, [[25, 26], [29, 30]])
      && tasks[3].second == Matrix(2, 2, [[27, 28], [31, 32]])
  {
    var a, b := Counting(), CountingOn();
    var tasks := Parallelize(a, b, 4).value;
    ParallelizeTiles(a, b, 4);
    ParallelizePlacements(a, b, 4);
    assert a.cols / (4 / 2) == 2;
    var ps := seq(4, i requires 0 <= i < 4 => tasks[i].placement);
    assert ps == [Placement(0, 0), Placement(0, 2), Placement(2, 0), Placement(2, 2)];
    assert tasks[0].placement == ps[0] && tasks[1].placement == ps[1];
    assert tasks[2].placement == ps[2] && tasks[3].placement == ps[3];
    assert tasks[0].first == Block(a, 0, 0, 2) && tasks[0].second == Block(b, 0, 0, 2);
    assert tasks[1].first == Block(a, 0, 2, 2) && tasks[1].second == Block(b, 0, 2, 2);
    assert tasks[2].first == Block(a, 2, 0, 2) && tasks[2].second == Block(b, 2, 0, 2);
    assert tasks[3].first == Block(a, 2, 2, 2) && tasks[3].second == Block(b, 2, 2, 2);
    QuadrantBlocks();
    QuadrantBlocksOn();
  }

  /** The quadrants of the first operand the test checks, cut directly. */
  lemma QuadrantBlocks()
    ensures Block(Counting(), 0, 0, 2) == Matrix(2, 2, [[1, 2], [5, 6]])
    ensures Block(Counting(), 0, 2, 2) == Matrix(2, 2, [[3, 4], [7, 8]])
    ensures Block(Counting(), 2, 0, 2) == Matrix(2, 2, [[9, 10], [13, 14]])
    ensures Block(Counting(), 2, 2, 2) == Matrix(2, 2, [[11, 12], [15, 16]])
  {
    var a := Counting();
    assert Block(a, 0, 0, 2).cells[0] == [1, 2] && Block(a, 0, 0, 2).cells[1] == [5, 6];
    assert Block(a, 0, 2, 2).cells[0] == [3, 4] && Block(a, 0, 2, 2).cells[1] == [7, 8];
    assert Block(a, 2, 0, 2).cells[0] == [9, 10] && Block(a, 2, 0, 2).cells[1] == [13, 14];
    assert Block(a, 2, 2, 2).cells[0] == [11, 12] && Block(a, 2, 2, 2).cells[1] == [15, 16];
  }

  /** The quadrants of the second operand the test checks, cut directly. */
  lemma QuadrantBlocksOn()
    ensures Block(CountingOn(), 0, 0, 2) == Matrix(2, 2, [[17, 18], [21, 22]])
    ensures Block(CountingOn(), 0, 2, 2) == Matrix(2, 2, [[19, 20], [23, 24]])
    ensures Block(CountingOn(), 2, 0, 2) == Matrix(2, 2, [[25, 26], [29, 30]])
    ensures Block(CountingOn(), 2, 2, 2) == Matrix(2, 2, [[27, 28], [31, 32]])
  {
    var b := CountingOn();
    assert Block(b, 0, 0, 2).cells[0] == [17, 18] && Block(b, 0, 0, 2).cells[1] == [21, 22];
    assert Block(b, 0, 2, 2).cells[0] == [19, 20] && Block(b, 0, 2, 2).cells[1] == [23, 24];
    assert Block(b, 2, 0, 2).cells[0] == [25, 26] && Block(b, 2, 0, 2).cells[1] == [29, 30];
    assert Block(b, 2, 2, 2).cells[0] == [27, 28] && Block(b, 2, 2, 2).cells[1] == [31, 32];
  }

  /** The rejected tilings of the tests: a `2 x 4` second operand, two
      `2 x 4` operands, and ten tiles of a `4 x 4` matrix. */
  lemma ParallelizeRejections()
    ensures Parallelize(Counting(), Matrix(2, 4, [[17, 18, 19, 20], [21, 22, 23, 24]]), 4)
            == Err(NonSquareOrMismatched)
    ensures Parallelize(Matrix(2, 4, [[1, 2, 3, 4], [5, 6, 7, 8]]),
                        Matrix(2, 4, [[17, 18, 19, 20], [21, 22, 23, 24]]), 4)
            == Err(NonSquareOrMismatched)
    ensures Parallelize(Counting(), CountingOn(), 10) == Err(IndivisibleDimension)
  {
  }

  /** The combine test: the stand-in kernel's results of the four-tile job
      reassemble into the first operand. */
  lemma CombineExample()
    ensures Parallelize(Counting(), CountingOn(), 4).Ok?
    ensures CombineResults(IdentityKernel(ConvertToDataSlices(Parallelize(Counting(), CountingOn(), 4).value)), 4, 4)
            == Ok(Counting())
  {
    IdentityRoundTrip(Counting(), CountingOn());
  }
}
