/** The tiler of `src/job.rs`: `parallelize`.

    Placements are produced by the wrap-around counter of the source
    (`CounterAt`), and `CounterClosedForm` shows that tile `i` lands at
    `(S * (i / k), S * (i % k))` with `k = T / 2`.  Because `T = 2k` tiles are
    laid out on a grid that is `k` blocks wide, only the first two block-rows
    are ever visited; for `T = 2` the second tile starts at row `D`, past the
    end of the matrix.
 */
module Tiling {
  import opened Results
  import opened Matrices

  datatype Placement = Placement(row: nat, col: nat)

  /** One entry of the task list: the two sub-matrices and where the result goes. */
  datatype Task = Task(first: Matrix, second: Matrix, placement: Placement)

  /** One step of the counter: move one block right, or wrap to the start of
      the next block-row after the column `dimension - size`. */
  function Advance(p: Placement, dimension: nat, size: nat): Placement {
    if p.col == dimension - size then Placement(p.row + size, 0)
    else Placement(p.row, p.col + size)
  }

  /** The counter after `n` steps from `(0, 0)`: the placement of task `n`. */
  function CounterAt(n: nat, dimension: nat, size: nat): Placement {
    if n == 0 then Placement(0, 0)
    else Advance(CounterAt(n - 1, dimension, size), dimension, size)
  }

  /** Row-major position of tile `i` on a grid `k` blocks wide. */
  function PlacementOf(i: nat, k: nat, size: nat): Placement
    requires k > 0
  {
    Placement(size * (i / k), size * (i % k))
  }

  lemma MulMono(a: nat, b: nat, k: nat)
    requires a <= b
    ensures a * k <= b * k
  {
    var d := b - a;
    assert b * k == a * k + d * k;
  }

  lemma DivModUnique(n: nat, k: nat, q: nat, m: nat)
    requires 0 <= m < k && n == q * k + m
    ensures n / k == q && n % k == m
  {
    var q', m' := n / k, n % k;
    assert q' * k + m' == q * k + m;
    if q' < q {
      MulMono(q' + 1, q, k);
    } else if q < q' {
      MulMono(q + 1, q', k);
    }
  }

  lemma {:induction false} DivModNext(j: nat, k: nat)
    requires k > 0
    ensures j % k == k - 1 ==> (j + 1) / k == j / k + 1 && (j + 1) % k == 0
    ensures j % k != k - 1 ==> (j + 1) / k == j / k && (j + 1) % k == j % k + 1
  {
    var q, m := j / k, j % k;
    assert j == q * k + m;
    if m == k - 1 {
      assert j + 1 == (q + 1) * k + 0;
      DivModUnique(j + 1, k, q + 1, 0);
    } else {
      DivModUnique(j + 1, k, q, m + 1);
    }
  }

  lemma MulCancel(s: nat, x: nat, y: nat)
    requires s > 0 && s * x == s * y
    ensures x == y
  {
  }

  /** The counter computes the closed-form row-major placement. */
  lemma {:induction false} CounterClosedForm(n: nat, k: nat, size: nat)
    requires k > 0
    ensures CounterAt(n, k * size, size) == PlacementOf(n, k, size)
  {
    if n > 0 {
      CounterClosedForm(n - 1, k, size);
      CounterStep(n - 1, k, size);
    }
  }

  /** One counter step from the closed form of `j` gives the closed form of `j + 1`. */
  lemma CounterStep(j: nat, k: nat, size: nat)
    requires k > 0
    ensures Advance(PlacementOf(j, k, size), k * size, size) == PlacementOf(j + 1, k, size)
  {
    var d := k * size;
    var q, m := j / k, j % k;
    var q1, m1 := (j + 1) / k, (j + 1) % k;
    DivModNext(j, k);
    if size == 0 {
      assert PlacementOf(j, k, size) == Placement(0, 0) == PlacementOf(j + 1, k, size);
    } else {
      WrapColumn(k, size, m);
      if m == k - 1 {
        assert q1 == q + 1 && m1 == 0;
        assert size * q + size == size * q1;
      } else {
        assert q1 == q && m1 == m + 1;
        assert size * m + size == size * m1;
      }
    }
  }

  /** The counter wraps exactly at the last block column. */
  lemma WrapColumn(k: nat, size: nat, m: nat)
    requires k > 0 && size > 0 && m < k
    ensures size * m == k * size - size <==> m == k - 1
  {
    assert k * size - size == size * (k - 1);
    if size * m == size * (k - 1) {
      MulCancel(size, m, k - 1);
    }
  }

  /** The tile window at `p` lies inside a `dimension x dimension` matrix. */
  predicate InBounds(p: Placement, size: nat, dimension: nat) {
    p.row + size <= dimension && p.col + size <= dimension
  }

  /** Every tile window of `parallelize` lies inside the squared matrix, so
      that no cell access panics. */
  predicate AllWindowsFit(dimension: nat, t: nat)
    requires t / 2 > 0
  {
    forall i :: 0 <= i < t ==> InBounds(CounterAt(i, dimension, dimension / (t / 2)), dimension / (t / 2), dimension)
  }

  /** The three assertions at the head of `parallelize`, plus the division by
      zero that `T = 0` causes in the third one. */
  predicate TilerAccepts(a: Matrix, b: Matrix, t: nat) {
    IsSquare(a) && IsSquare(b) && a.cols == b.cols && t % 2 == 0 && t > 0 && a.cols % (t / 2) == 0
  }

  /** `parallelize(matrix_a, matrix_b, num_of_tasks)`. */
  function Parallelize(a: Matrix, b: Matrix, t: nat): (r: Result<seq<Task>>)
    requires Wf(a) && Wf(b)
    ensures !(IsSquare(a) && IsSquare(b) && a.cols == b.cols) ==> r == Err(NonSquareOrMismatched)
    ensures IsSquare(a) && IsSquare(b) && a.cols == b.cols && t % 2 == 1 ==> r == Err(OddTileCount)
    ensures IsSquare(a) && IsSquare(b) && a.cols == b.cols && t == 0 ==> r == Err(ZeroTileCount)
    ensures IsSquare(a) && IsSquare(b) && a.cols == b.cols && t % 2 == 0 && t > 0 && a.cols % (t / 2) != 0
            ==> r == Err(IndivisibleDimension)
    // with two tiles the second one starts at row D: out of bounds unless D = 0
    ensures TilerAccepts(a, b, t) && t == 2 && a.cols > 0 ==> r == Err(IndexOutOfBounds)
    ensures r.Ok? <==> TilerAccepts(a, b, t) && (t >= 4 || a.cols == 0)
    ensures r.Ok? ==> |r.value| == t
  {
    if !(IsSquare(a) && IsSquare(b) && a.cols == b.cols) then Err(NonSquareOrMismatched)
    else if t % 2 != 0 then Err(OddTileCount)
    else if t / 2 == 0 then Err(ZeroTileCount)
    else if a.cols % (t / 2) != 0 then Err(IndivisibleDimension)
    else
      var dimension := a.cols;
      var size := dimension / (t / 2);
      var placements := seq(t, i requires 0 <= i < t => CounterAt(i, dimension, size));
      TileWindowsFit(dimension, t);
      if !AllWindowsFit(dimension, t) then Err(IndexOutOfBounds)
      else
        Ok(seq(t, i requires 0 <= i < t =>
                 Task(Block(a, placements[i].row, placements[i].col, size),
                      Block(b, placements[i].row, placements[i].col, size),
                      placements[i])))
  }

  /** Which counter positions stay inside the matrix: all of them once the
      grid is at least two blocks wide; only the first when it is one block wide. */
  lemma WindowsInBounds(k: nat, size: nat)
    requires k > 0
    ensures k >= 2 || size == 0 ==> forall i :: 0 <= i < 2 * k ==> InBounds(CounterAt(i, k * size, size), size, k * size)
    ensures k == 1 && size > 0 ==> !InBounds(CounterAt(1, k * size, size), size, k * size)
  {
    forall i | 0 <= i < 2 * k
      ensures CounterAt(i, k * size, size) == PlacementOf(i, k, size)
    {
      CounterClosedForm(i, k, size);
    }
    if k >= 2 {
      forall i | 0 <= i < 2 * k
        ensures InBounds(PlacementOf(i, k, size), size, k * size)
      {
        PlacementGrid(i, k, size);
        MulMono(2, k, size);
      }
    }
  }

  /** Every counter position of `parallelize` fits inside the matrix exactly
      when there are at least four tiles or the matrix is empty. */
  lemma TileWindowsFit(dimension: nat, t: nat)
    requires t % 2 == 0 && t > 0 && dimension % (t / 2) == 0
    ensures AllWindowsFit(dimension, t) <==> t >= 4 || dimension == 0
  {
    var k := t / 2;
    var size := dimension / k;
    assert dimension == k * size;
    assert t == 2 * k;
    WindowsInBounds(k, size);
    if k == 1 && size > 0 {
      assert !InBounds(CounterAt(1, dimension, size), size, dimension);
    }
  }

  /** What `parallelize` returns: tile `i` sits at the closed-form placement
      and carries the `S x S` blocks of both inputs cut at that placement. */
  lemma ParallelizeTiles(a: Matrix, b: Matrix, t: nat)
    requires Wf(a) && Wf(b) && Parallelize(a, b, t).Ok?
    ensures t >= 2 && a.cols % (t / 2) == 0
    ensures forall i :: 0 <= i < t ==>
      var task, size := Parallelize(a, b, t).value[i], a.cols / (t / 2);
      && task.placement == PlacementOf(i, t / 2, size)
      && InBounds(task.placement, size, a.cols)
      && task.first == Block(a, task.placement.row, task.placement.col, size)
      && task.second == Block(b, task.placement.row, task.placement.col, size)
      && Wf(task.first) && task.first.rows == size && task.first.cols == size
      && Wf(task.second) && task.second.rows == size && task.second.cols == size
    ensures forall i, lr, lc :: 0 <= i < t && 0 <= lr < a.cols / (t / 2) && 0 <= lc < a.cols / (t / 2) ==>
      var task := Parallelize(a, b, t).value[i];
      && task.placement.row + lr < a.rows && task.placement.col + lc < a.cols
      && task.first.cells[lr][lc] == a.cells[task.placement.row + lr][task.placement.col + lc]
      && task.second.cells[lr][lc] == b.cells[task.placement.row + lr][task.placement.col + lc]
  {
    var k := t / 2;
    var size := a.cols / k;
    assert a.cols == k * size;
    forall i | 0 <= i < t
      ensures CounterAt(i, a.cols, size) == PlacementOf(i, k, size)
    {
      CounterClosedForm(i, k, size);
    }
  }

  /** Facts about a single closed-form placement of a `2k`-tile job. */
  lemma PlacementGrid(i: nat, k: nat, size: nat)
    requires k > 0 && i < 2 * k
    ensures PlacementOf(i, k, size).col + size <= k * size
    ensures PlacementOf(i, k, size).row == 0 || PlacementOf(i, k, size).row == size
    ensures size > 0 ==> PlacementOf(i, k, size).row % size == 0 && PlacementOf(i, k, size).col % size == 0
  {
    var q, m := i / k, i % k;
    assert q <= 1;
    MulMono(m, k - 1, size);
    assert size * (k - 1) + size == k * size;
    if size > 0 {
      DivModUnique(size * m, size, m, 0);
      DivModUnique(size * q, size, q, 0);
    }
  }

  /** Distinct tiles of a non-empty matrix get distinct placements. */
  lemma PlacementsDistinct(i: nat, j: nat, k: nat, size: nat)
    requires k > 0 && size > 0 && PlacementOf(i, k, size) == PlacementOf(j, k, size)
    ensures i == j
  {
    MulCancel(size, i / k, j / k);
    MulCancel(size, i % k, j % k);
    assert i == (i / k) * k + i % k && j == (j / k) * k + j % k;
  }

  /** With four tiles the placements are the four quadrants, row-major. */
  lemma FourTilePlacements(size: nat)
    ensures seq(4, i requires 0 <= i < 4 => PlacementOf(i, 2, size))
            == [Placement(0, 0), Placement(0, size), Placement(size, 0), Placement(size, size)]
  {
  }

  /** The placements of a successful `parallelize`: multiples of the tile
      side, never past the last block column, only in the first two
      block-rows, pairwise distinct on a non-empty matrix, and for `T = 4`
      exactly the four quadrants. */
  lemma ParallelizePlacements(a: Matrix, b: Matrix, t: nat)
    requires Wf(a) && Wf(b) && Parallelize(a, b, t).Ok?
    ensures var tasks, size := Parallelize(a, b, t).value, a.cols / (t / 2);
      forall i :: 0 <= i < t ==>
        && tasks[i].placement.col + size <= a.cols
        && (tasks[i].placement.row == 0 || tasks[i].placement.row == size)
        && (size > 0 ==> tasks[i].placement.row % size == 0 && tasks[i].placement.col % size == 0)
    ensures var tasks := Parallelize(a, b, t).value;
      a.cols > 0 ==> forall i, j :: 0 <= i < t && 0 <= j < t && i != j ==> tasks[i].placement != tasks[j].placement
    ensures var tasks, size := Parallelize(a, b, t).value, a.cols / (t / 2);
      t == 4 ==> seq(4, i requires 0 <= i < 4 => tasks[i].placement)
                 == [Placement(0, 0), Placement(0, size), Placement(size, 0), Placement(size, size)]
  {
    var tasks := Parallelize(a, b, t).value;
    var k := t / 2;
    var size := a.cols / k;
    ParallelizeTiles(a, b, t);
    assert a.cols == k * size;
    forall i | 0 <= i < t
      ensures tasks[i].placement.col + size <= a.cols
      ensures tasks[i].placement.row == 0 || tasks[i].placement.row == size
      ensures size > 0 ==> tasks[i].placement.row % size == 0 && tasks[i].placement.col % size == 0
    {
      PlacementGrid(i, k, size);
    }
    if a.cols > 0 {
      forall i, j | 0 <= i < t && 0 <= j < t && i != j
        ensures tasks[i].placement != tasks[j].placement
      {
        if tasks[i].placement == tasks[j].placement {
          PlacementsDistinct(i, j, k, size);
        }
      }
    }
    if t == 4 {
      FourTilePlacements(size);
      assert seq(4, i requires 0 <= i < 4 => tasks[i].placement) == seq(4, i requires 0 <= i < 4 => PlacementOf(i, 2, size));
    }
  }
}
