/** The reassembler of `src/job.rs`: `combine_results`.

    Payloads are written, in list order, into a zero matrix at their
    placements; a later payload overwrites an earlier one where their windows
    overlap.  The window of a payload is clipped at the output's extents, but
    the element-wise copy demands that the clipped window have exactly the
    shape of the payload's result, so a tile that would need cropping makes
    the job fail instead of being cropped.
 */
module Reassembly {
  import opened Results
  import opened Matrices
  import opened Tiling
  import opened Payload

  /** `i32::MAX + 1`: placements below it survive the `as i32` cast unchanged. */
  const I32Limit: nat := 0x8000_0000

  predicate IndexFitsI32(d: Data) {
    d.index.row < I32Limit && d.index.col < I32Limit
  }

  /** The clipped window `row0 .. min(row0 + size, rows)` x
      `col0 .. min(col0 + size, cols)` is a valid slice whose shape is the
      shape of the payload's result; otherwise slicing or the zip panics. */
  predicate WindowMatches(d: Data, size: nat, rows: nat, cols: nat) {
    && d.index.row <= rows && d.index.col <= cols
    && Min(d.index.row + size, rows) - d.index.row == d.resolution.rows
    && Min(d.index.col + size, cols) - d.index.col == d.resolution.cols
  }

  /** Cell `(r, c)` lies in the window the payload writes. */
  predicate Covers(d: Data, r: int, c: int) {
    d.index.row <= r < d.index.row + d.resolution.rows && d.index.col <= c < d.index.col + d.resolution.cols
  }

  /** The payload's window lies inside a `rows x cols` matrix. */
  predicate Inside(d: Data, rows: nat, cols: nat) {
    Wf(d.resolution) && d.index.row + d.resolution.rows <= rows && d.index.col + d.resolution.cols <= cols
  }

  /** Payload `j`, a well-formed one, is the last in the list that writes cell `(r, c)`. */
  predicate LastWriter(data: seq<Data>, j: int, r: int, c: int) {
    && 0 <= j < |data| && Wf(data[j].resolution) && Covers(data[j], r, c)
    && forall k :: j < k < |data| ==> !Covers(data[k], r, c)
  }

  /** Copy one payload's result into its window of `acc`. */
  function Paste(acc: Matrix, d: Data): (m: Matrix)
    requires Wf(acc) && Inside(d, acc.rows, acc.cols)
    ensures Wf(m) && m.rows == acc.rows && m.cols == acc.cols
  {
    Matrix(acc.rows, acc.cols,
           seq(acc.rows, r requires 0 <= r < acc.rows =>
                 seq(acc.cols, c requires 0 <= c < acc.cols =>
                       if Covers(d, r, c) then d.resolution.cells[r - d.index.row][c - d.index.col]
                       else acc.cells[r][c])))
  }

  /** Paste the payloads one after the other, in list order. */
  function Overlay(acc: Matrix, data: seq<Data>): (m: Matrix)
    requires Wf(acc) && forall i :: 0 <= i < |data| ==> Inside(data[i], acc.rows, acc.cols)
    ensures Wf(m) && m.rows == acc.rows && m.cols == acc.cols
    decreases |data|
  {
    if |data| == 0 then acc
    else Paste(Overlay(acc, data[..|data| - 1]), data[|data| - 1])
  }

  /** Every cell of an overlay holds the value written by the last payload
      that covers it, or the underlying value when no payload covers it. */
  lemma {:induction false} OverlayCell(acc: Matrix, data: seq<Data>, r: int, c: int)
    requires Wf(acc) && forall i :: 0 <= i < |data| ==> Inside(data[i], acc.rows, acc.cols)
    requires 0 <= r < acc.rows && 0 <= c < acc.cols
    ensures (forall j :: 0 <= j < |data| ==> !Covers(data[j], r, c)) ==> Overlay(acc, data).cells[r][c] == acc.cells[r][c]
    ensures forall j :: LastWriter(data, j, r, c) ==>
      Overlay(acc, data).cells[r][c] == data[j].resolution.cells[r - data[j].index.row][c - data[j].index.col]
    decreases |data|
  {
    if |data| > 0 {
      var n := |data| - 1;
      var prefix, last := data[..n], data[n];
      assert forall i :: 0 <= i < n ==> prefix[i] == data[i];
      OverlayCell(acc, prefix, r, c);
      var below := Overlay(acc, prefix);
      assert Overlay(acc, data) == Paste(below, last);
      PasteCell(below, last, r, c);
      if Covers(last, r, c) {
        forall j | LastWriter(data, j, r, c)
          ensures j == n
        {
        }
      } else {
        forall j | LastWriter(data, j, r, c)
          ensures LastWriter(prefix, j, r, c)
        {
        }
      }
    }
  }

  /** The cell `(r, c)` after pasting one payload. */
  lemma PasteCell(acc: Matrix, d: Data, r: int, c: int)
    requires Wf(acc) && Inside(d, acc.rows, acc.cols)
    requires 0 <= r < acc.rows && 0 <= c < acc.cols
    ensures Paste(acc, d).cells[r][c] ==
      if Covers(d, r, c) then d.resolution.cells[r - d.index.row][c - d.index.col] else acc.cells[r][c]
  {
  }

  /** A cell covered by some payload has a last writer. */
  lemma {:induction false} LastWriterExists(data: seq<Data>, j: int, r: int, c: int)
    requires forall i :: 0 <= i < |data| ==> Wf(data[i].resolution)
    requires 0 <= j < |data| && Covers(data[j], r, c)
    ensures exists w :: LastWriter(data, w, r, c)
    decreases |data|
  {
    var n := |data| - 1;
    if Covers(data[n], r, c) {
      assert LastWriter(data, n, r, c);
    } else {
      LastWriterExists(data[..n], j, r, c);
      var w :| LastWriter(data[..n], w, r, c);
      assert LastWriter(data, w, r, c);
    }
  }

  /** `combine_results(data, rows, cols)`. */
  function CombineResults(data: seq<Data>, rows: nat, cols: nat): (r: Result<Matrix>)
    requires forall i :: 0 <= i < |data| ==> Wf(data[i].resolution) && IndexFitsI32(data[i])
    ensures |data| == 0 ==> r == Err(EmptyResults)
    // the tile side is read from the first result; every window must match it
    ensures |data| > 0 ==>
      (r.Ok? <==> forall i :: 0 <= i < |data| ==> WindowMatches(data[i], data[0].resolution.rows, rows, cols))
    ensures |data| > 0 && r.Err? ==> r.error == ShapeMismatch
    ensures r.Ok? ==> Wf(r.value) && r.value.rows == rows && r.value.cols == cols
    // cells that no window covers keep their initial zero
    ensures r.Ok? ==> forall rr, cc ::
      0 <= rr < rows && 0 <= cc < cols && (forall j :: 0 <= j < |data| ==> !Covers(data[j], rr, cc))
      ==> r.value.cells[rr][cc] == 0
    // every other cell holds the last covering payload's value, at the offset of its window
    ensures r.Ok? ==> forall j, rr, cc ::
      0 <= rr < rows && 0 <= cc < cols && LastWriter(data, j, rr, cc)
      ==> r.value.cells[rr][cc] == data[j].resolution.cells[rr - data[j].index.row][cc - data[j].index.col]
  {
    if |data| == 0 then Err(EmptyResults)
    else
      var size := data[0].resolution.rows;
      if !forall i :: 0 <= i < |data| ==> WindowMatches(data[i], size, rows, cols) then Err(ShapeMismatch)
      else
        OverlayAllCells(Zeros(rows, cols), data);
        Ok(Overlay(Zeros(rows, cols), data))
  }

  /** `OverlayCell` for every cell at once. */
  lemma OverlayAllCells(acc: Matrix, data: seq<Data>)
    requires Wf(acc) && forall i :: 0 <= i < |data| ==> Inside(data[i], acc.rows, acc.cols)
    ensures forall rr, cc ::
      0 <= rr < acc.rows && 0 <= cc < acc.cols && (forall j :: 0 <= j < |data| ==> !Covers(data[j], rr, cc))
      ==> Overlay(acc, data).cells[rr][cc] == acc.cells[rr][cc]
    ensures forall j, rr, cc ::
      0 <= rr < acc.rows && 0 <= cc < acc.cols && LastWriter(data, j, rr, cc)
      ==> Overlay(acc, data).cells[rr][cc] == data[j].resolution.cells[rr - data[j].index.row][cc - data[j].index.col]
  {
    forall rr, cc | 0 <= rr < acc.rows && 0 <= cc < acc.cols {
      OverlayCell(acc, data, rr, cc);
    }
  }

  /** No cropping: with square `size x size` results, reassembly succeeds
      exactly when every window lies wholly inside the output. */
  lemma CombineNeedsWholeWindows(data: seq<Data>, rows: nat, cols: nat, size: nat)
    requires |data| > 0
    requires forall i :: 0 <= i < |data| ==>
      Wf(data[i].resolution) && IndexFitsI32(data[i]) && data[i].resolution.rows == size && data[i].resolution.cols == size
    ensures CombineResults(data, rows, cols).Ok? <==>
      forall i :: 0 <= i < |data| ==> data[i].index.row + size <= rows && data[i].index.col + size <= cols
  {
    if !CombineResults(data, rows, cols).Ok? {
      var i :| 0 <= i < |data| && !WindowMatches(data[i], size, rows, cols);
      assert !(data[i].index.row + size <= rows && data[i].index.col + size <= cols);
    }
  }

  /** When every result is the `size x size` block of one matrix `a` at its
      own placement, reassembly copies `a` on every covered cell and leaves
      the rest zero. */
  lemma CombineOfBlocks(data: seq<Data>, a: Matrix, rows: nat, cols: nat, size: nat)
    requires Wf(a) && rows <= a.rows && cols <= a.cols
    requires forall i :: 0 <= i < |data| ==>
      && Wf(data[i].resolution) && IndexFitsI32(data[i])
      && data[i].index.row + size <= a.rows && data[i].index.col + size <= a.cols
      && data[i].resolution == Block(a, data[i].index.row, data[i].index.col, size)
    requires CombineResults(data, rows, cols).Ok?
    ensures forall rr, cc :: 0 <= rr < rows && 0 <= cc < cols ==>
      CombineResults(data, rows, cols).value.cells[rr][cc] ==
        if exists j :: 0 <= j < |data| && Covers(data[j], rr, cc) then a.cells[rr][cc] else 0
  {
    forall rr, cc | 0 <= rr < rows && 0 <= cc < cols
      ensures CombineResults(data, rows, cols).value.cells[rr][cc] ==
        if exists j :: 0 <= j < |data| && Covers(data[j], rr, cc) then a.cells[rr][cc] else 0
    {
      if j :| 0 <= j < |data| && Covers(data[j], rr, cc) {
        CombineCellOfBlocks(data, a, rows, cols, size, j, rr, cc);
      }
    }
  }

  lemma CombineCellOfBlocks(data: seq<Data>, a: Matrix, rows: nat, cols: nat, size: nat, j: int, rr: int, cc: int)
    requires Wf(a) && rows <= a.rows && cols <= a.cols
    requires forall i :: 0 <= i < |data| ==>
      && Wf(data[i].resolution) && IndexFitsI32(data[i])
      && data[i].index.row + size <= a.rows && data[i].index.col + size <= a.cols
      && data[i].resolution == Block(a, data[i].index.row, data[i].index.col, size)
    requires CombineResults(data, rows, cols).Ok?
    requires 0 <= rr < rows && 0 <= cc < cols && 0 <= j < |data| && Covers(data[j], rr, cc)
    ensures CombineResults(data, rows, cols).value.cells[rr][cc] == a.cells[rr][cc]
  {
    LastWriterExists(data, j, rr, cc);
    var w :| LastWriter(data, w, rr, cc);
    var d := data[w];
    var lr, lc := rr - d.index.row, cc - d.index.col;
    assert d.resolution.cells[lr][lc] == a.cells[d.index.row + lr][d.index.col + lc];
  }
}
