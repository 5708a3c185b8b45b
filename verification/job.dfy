/** `Job::create` of `src/job.rs`: square both inputs to a common side, tile
    them, wrap the tiles as payloads, dispatch every payload, and reassemble
    the results into a `rows(A) x cols(B)` matrix.

    The replies of the nodes are a parameter.  With the local stand-in
    kernel (each result is the tile's first operand) the pipeline gives back
    the first two block-rows of the squared first input: all of it for four
    tiles, and only part of it for more.
 */
module Job {
  import opened Results
  import opened Matrices
  import opened Squaring
  import opened Tiling
  import opened Payload
  import opened Reassembly
  import opened Dispatch

  /** The two inputs, zero-padded to the common side chosen by `create`. */
  function SquaredInputs(a: Matrix, b: Matrix): (sq: (Matrix, Matrix))
    requires Wf(a) && Wf(b)
    ensures Wf(sq.0) && Wf(sq.1)
    ensures sq.0.rows == sq.0.cols == sq.1.rows == sq.1.cols == JobDimension(a, b)
    ensures ConvertToSquareMatrix(a, JobDimension(a, b)) == Ok(sq.0)
    ensures ConvertToSquareMatrix(b, JobDimension(a, b)) == Ok(sq.1)
  {
    var d := JobDimension(a, b);
    (ConvertToSquareMatrix(a, d).value, ConvertToSquareMatrix(b, d).value)
  }

  /** The task list `create` builds from its inputs. */
  function JobTasks(a: Matrix, b: Matrix, t: nat): Result<seq<Task>>
    requires Wf(a) && Wf(b)
  {
    Parallelize(SquaredInputs(a, b).0, SquaredInputs(a, b).1, t)
  }

  /** The payloads carried by replies that all arrived, in tile order. */
  function Replied(replies: seq<Option<Data>>): (data: seq<Data>)
    requires forall i :: 0 <= i < |replies| ==> replies[i].Some?
    ensures |data| == |replies|
    ensures forall i :: 0 <= i < |replies| ==> replies[i] == Some(data[i])
  {
    seq(|replies|, i requires 0 <= i < |replies| => replies[i].value)
  }

  /** `Job::create(matrix_a, matrix_b, num_of_tasks, kernel)`, with `nodes`
      connected nodes and `replies[i]` the outcome of waiting for tile `i`'s
      fetch response. */
  function Create<K>(a: Matrix, b: Matrix, t: nat, nodes: nat, kernel: K, replies: seq<Option<Data>>)
    : (r: Result<Matrix>)
    requires Wf(a) && Wf(b) && |replies| == t
    requires forall i :: 0 <= i < t ==>
      replies[i].Some? && Wf(replies[i].value.resolution) && IndexFitsI32(replies[i].value)
    // the padded inputs always pass the squareness check of the tiler
    ensures r.Err? ==> r.error != NonSquareOrMismatched && r.error != DimensionTooSmall
    ensures t % 2 == 1 ==> r == Err(OddTileCount)
    ensures t == 0 ==> r == Err(ZeroTileCount)
    ensures t == 2 && JobDimension(a, b) > 0 ==> r == Err(IndexOutOfBounds)
    ensures TilerAccepts(SquaredInputs(a, b).0, SquaredInputs(a, b).1, t) && t >= 4 && nodes == 0 ==> r == Err(NoNodes)
    ensures r.Ok? ==> nodes > 0 && t >= 2 && JobDimension(a, b) % (t / 2) == 0
    ensures r.Ok? ==> JobTasks(a, b, t).Ok?
    // once the tiles are cut and a node is connected, the output is the
    // reassembly of the replies, in tile order
    ensures JobTasks(a, b, t).Ok? && nodes > 0 ==> r == CombineResults(Replied(replies), a.rows, b.cols)
    ensures r.Ok? ==> Wf(r.value) && r.value.rows == a.rows && r.value.cols == b.cols
  {
    match JobTasks(a, b, t)
    case Err(e) => Err(e)
    case Ok(tasks) =>
      match DispatchAll(ConvertToDataSlices(tasks), t, nodes, kernel, replies)
      case Err(e) => Err(e)
      case Ok(runs) =>
        assert Collected(runs) == Replied(replies);
        CombineResults(Collected(runs), a.rows, b.cols)
  }

  /** The replies of nodes running the stand-in kernel on every payload. */
  function EchoReplies(tasks: seq<Task>): (replies: seq<Option<Data>>)
    ensures |replies| == |tasks|
    ensures forall i :: 0 <= i < |tasks| ==> replies[i] == Some(IdentityKernel(ConvertToDataSlices(tasks))[i])
  {
    var done := IdentityKernel(ConvertToDataSlices(tasks));
    seq(|tasks|, i requires 0 <= i < |tasks| => Some(done[i]))
  }

  /** `a` with every row from `height` on replaced by zeros. */
  function KeepTopRows(a: Matrix, height: nat): (m: Matrix)
    requires Wf(a)
    ensures Wf(m) && m.rows == a.rows && m.cols == a.cols
    ensures forall r, c :: 0 <= r < a.rows && 0 <= c < a.cols ==> m.cells[r][c] == if r < height then a.cells[r][c] else 0
  {
    Matrix(a.rows, a.cols, seq(a.rows, r requires 0 <= r < a.rows =>
                                 seq(a.cols, c requires 0 <= c < a.cols => if r < height then a.cells[r][c] else 0)))
  }

  /** The payloads of a tiling after the stand-in kernel ran: well-formed
      `S x S` results, each the block of `a` at the payload's placement. */
  lemma EchoedBlocks(a: Matrix, b: Matrix, t: nat)
    requires Wf(a) && Wf(b) && Parallelize(a, b, t).Ok?
    ensures var data, size := IdentityKernel(ConvertToDataSlices(Parallelize(a, b, t).value)), a.cols / (t / 2);
      && |data| == t
      && forall i :: 0 <= i < t ==>
           && Wf(data[i].resolution)
           && data[i].resolution.rows == size && data[i].resolution.cols == size
           && data[i].index == PlacementOf(i, t / 2, size)
           && data[i].index.row + size <= a.rows && data[i].index.col + size <= a.cols
           && data[i].resolution == Block(a, data[i].index.row, data[i].index.col, size)
  {
    ParallelizeTiles(a, b, t);
  }

  /** The same payloads, whose placements also fit the `i32` cast when the
      side does. */
  lemma EchoedPayloads(a: Matrix, b: Matrix, t: nat)
    requires Wf(a) && Wf(b) && Parallelize(a, b, t).Ok? && a.cols < I32Limit
    ensures var data, size := IdentityKernel(ConvertToDataSlices(Parallelize(a, b, t).value)), a.cols / (t / 2);
      && |data| == t
      && forall i :: 0 <= i < t ==>
           && Wf(data[i].resolution) && IndexFitsI32(data[i])
           && data[i].resolution.rows == size && data[i].resolution.cols == size
           && data[i].index == PlacementOf(i, t / 2, size)
           && data[i].index.row + size <= a.rows && data[i].index.col + size <= a.cols
           && data[i].resolution == Block(a, data[i].index.row, data[i].index.col, size)
  {
    EchoedBlocks(a, b, t);
  }

  /** The block of side `size` holding `x`: it starts at `size * q`, and
      `q < n` when `x < n * size`. */
  lemma BlockOf(x: nat, size: nat, n: nat) returns (q: nat)
    requires size > 0 && x < n * size
    ensures size * q <= x < size * q + size
    ensures q < n
  {
    q := x / size;
    assert x == q * size + x % size;
    if q >= n {
      MulMono(n, q, size);
    }
  }

  /** The tile of a `2k`-tile grid whose window holds cell `(rr, cc)` of the
      first two block-rows. */
  lemma TileOfCell(rr: nat, cc: nat, k: nat, size: nat) returns (j: nat)
    requires k > 0 && size > 0 && rr < 2 * size && cc < k * size
    ensures j < 2 * k
    ensures PlacementOf(j, k, size).row <= rr < PlacementOf(j, k, size).row + size
    ensures PlacementOf(j, k, size).col <= cc < PlacementOf(j, k, size).col + size
  {
    var qr := BlockOf(rr, size, 2);
    var qc := BlockOf(cc, size, k);
    j := qr * k + qc;
    DivModUnique(j, k, qr, qc);
    assert PlacementOf(j, k, size) == Placement(size * qr, size * qc);
    MulMono(qr, 1, k);
  }

  /** With `T = 2k >= 4` tiles of side `S`, cell `(r, c)` of the `D x D` grid
      is covered by a tile exactly when `r < 2S`. */
  lemma CoveredIffTopRows(a: Matrix, b: Matrix, t: nat, rr: nat, cc: nat)
    requires Wf(a) && Wf(b) && Parallelize(a, b, t).Ok? && t >= 4
    requires rr < a.rows && cc < a.cols
    ensures var data, size := IdentityKernel(ConvertToDataSlices(Parallelize(a, b, t).value)), a.cols / (t / 2);
      (exists j :: 0 <= j < |data| && Covers(data[j], rr, cc)) <==> rr < 2 * size
  {
    var data := IdentityKernel(ConvertToDataSlices(Parallelize(a, b, t).value));
    var k := t / 2;
    var size := a.cols / k;
    EchoedBlocks(a, b, t);
    assert a.cols == k * size;
    if rr < 2 * size {
      var j := TileOfCell(rr, cc, k, size);
      assert Covers(data[j], rr, cc);
    }
    if j :| 0 <= j < |data| && Covers(data[j], rr, cc) {
      PlacementGrid(j, k, size);
    }
  }

  /** Reassembling the stand-in kernel's results of a `T = 2k >= 4` tiling of
      a `D x D` matrix yields its first two block-rows and zeros below them. */
  lemma PartialCoverage(a: Matrix, b: Matrix, t: nat)
    requires Wf(a) && Wf(b) && Parallelize(a, b, t).Ok? && a.cols < I32Limit && t >= 4
    ensures CombineResults(IdentityKernel(ConvertToDataSlices(Parallelize(a, b, t).value)), a.rows, a.cols)
            == Ok(KeepTopRows(a, 2 * (a.cols / (t / 2))))
  {
    var data := IdentityKernel(ConvertToDataSlices(Parallelize(a, b, t).value));
    var size := a.cols / (t / 2);
    EchoedPayloads(a, b, t);
    assert data[0].resolution.rows == size;
    CombineNeedsWholeWindows(data, a.rows, a.cols, size);
    CombineOfBlocks(data, a, a.rows, a.cols, size);
    var m := CombineResults(data, a.rows, a.cols).value;
    forall rr, cc | 0 <= rr < a.rows && 0 <= cc < a.cols
      ensures m.cells[rr][cc] == KeepTopRows(a, 2 * size).cells[rr][cc]
    {
      CoveredIffTopRows(a, b, t, rr, cc);
    }
    Extensionality(m, KeepTopRows(a, 2 * size));
  }

  /** The round trip of the unit test: four tiles of an even-sided square
      matrix, echoed by the stand-in kernel and reassembled, give the matrix
      back. */
  lemma IdentityRoundTrip(a: Matrix, b: Matrix)
    requires Wf(a) && Wf(b) && IsSquare(a) && IsSquare(b) && a.cols == b.cols
    requires a.cols % 2 == 0 && a.cols < I32Limit
    ensures Parallelize(a, b, 4).Ok?
    ensures CombineResults(IdentityKernel(ConvertToDataSlices(Parallelize(a, b, 4).value)), a.rows, a.cols) == Ok(a)
  {
    if a.cols == 0 {
      var data := IdentityKernel(ConvertToDataSlices(Parallelize(a, b, 4).value));
      EchoedPayloads(a, b, 4);
      CombineNeedsWholeWindows(data, 0, 0, 0);
      Extensionality(CombineResults(data, 0, 0).value, a);
    } else {
      PartialCoverage(a, b, 4);
      Extensionality(KeepTopRows(a, 2 * (a.cols / 2)), a);
    }
  }

  /** End to end: when every node runs the stand-in kernel, `create` on two
      `D x D` inputs with even `D` and four tiles returns the first input. */
  lemma CreateRoundTrip<K>(a: Matrix, b: Matrix, nodes: nat, kernel: K)
    requires Wf(a) && Wf(b) && IsSquare(a) && IsSquare(b) && a.cols == b.cols
    requires a.cols % 2 == 0 && a.cols < I32Limit && nodes > 0
    ensures JobTasks(a, b, 4).Ok?
    ensures var replies := EchoReplies(JobTasks(a, b, 4).value);
      (forall i :: 0 <= i < 4 ==> replies[i].Some? && Wf(replies[i].value.resolution) && IndexFitsI32(replies[i].value))
      && Create(a, b, 4, nodes, kernel, replies) == Ok(a)
  {
    SquaringSquareIsIdentity(a);
    SquaringSquareIsIdentity(b);
    assert SquaredInputs(a, b) == (a, b);
    IdentityRoundTrip(a, b);
    var tasks := JobTasks(a, b, 4).value;
    var replies := EchoReplies(tasks);
    var slices := ConvertToDataSlices(tasks);
    EchoedPayloads(a, b, 4);
    var runs := DispatchAll(slices, 4, nodes, kernel, replies).value;
    assert Collected(runs) == IdentityKernel(slices);
  }

  /** No cropping: with four tiles of a non-empty grid and the stand-in
      kernel, `create` fails unless the first input has `D` rows and the
      second `D` columns, where `D` is the common padded side. */
  lemma CreateDoesNotCrop<K>(a: Matrix, b: Matrix, nodes: nat, kernel: K)
    requires Wf(a) && Wf(b) && nodes > 0 && JobDimension(a, b) < I32Limit
    requires JobTasks(a, b, 4).Ok? && JobDimension(a, b) > 0
    requires a.rows < JobDimension(a, b) || b.cols < JobDimension(a, b)
    ensures var replies := EchoReplies(JobTasks(a, b, 4).value);
      (forall i :: 0 <= i < 4 ==> replies[i].Some? && Wf(replies[i].value.resolution) && IndexFitsI32(replies[i].value))
      && Create(a, b, 4, nodes, kernel, replies) == Err(ShapeMismatch)
  {
    var (sa, sb) := SquaredInputs(a, b);
    var tasks := JobTasks(a, b, 4).value;
    var replies := EchoReplies(tasks);
    var slices := ConvertToDataSlices(tasks);
    var data := IdentityKernel(slices);
    var size := sa.cols / 2;
    EchoedPayloads(sa, sb, 4);
    var runs := DispatchAll(slices, 4, nodes, kernel, replies).value;
    assert Collected(runs) == data;
    CombineNeedsWholeWindows(data, a.rows, b.cols, size);
    assert data[3].index == Placement(size, size);
    assert !(data[3].index.row + size <= a.rows && data[3].index.col + size <= b.cols);
  }
}
