# Tiling pipeline of the PACO application layer, in Dafny

This project models the job driver of the PACO application layer (`src/job.rs`).
The driver takes two integer matrices, pads both to a common square side `D`, and cuts them into `T` square tiles of side `S = D / (T / 2)`.
It sends each tile to a compute node with three correlated frames (upload, execute, fetch) and collects one result payload per tile.
It then writes each result into a `rows(A) x cols(B)` output at the tile's placement.

Every step is a pure function over immutable values:

- matrices are a record `{rows, cols, cells: seq<seq<int>>}` with a well-formedness predicate;
- tiles are a `Task` datatype and payloads a `Data` datatype (`index`, `first`, `second`, `resolution`);
- each panic of the Rust code, on every input the contracts admit, is an error value in a `Result` (`Results.JobError`) rather than a precondition; the few preconditions that exclude a panicking or unmodelled case are listed under "Left out".

Modules follow the stages of the pipeline:

| file | module | models |
|---|---|---|
| results.dfy | `Results` | the panics, as error kinds |
| matrix.dfy | `Matrices` | `Array2<i32>`, zero matrices, blocks |
| squaring.dfy | `Squaring` | `convert_to_square_matrix`, the choice of `D` in `create` |
| tiling.dfy | `Tiling` | `parallelize`: checks, the placement counter, block extraction |
| payload.dfy | `Payload` | `Data`, `convert_to_data_slices`, `test_matrix_multiplication` |
| reassembly.dfy | `Reassembly` | `combine_results` |
| dispatch.dfy | `Dispatch` | node choice, correlation ids, the failure placeholder |
| job.dfy | `Job` | `create`, and the end-to-end round trips |
| scenarios.dfy | `Scenarios` | the unit tests of `src/job.rs` as lemmas |

The model follows the code rather than the intended design where the two differ:

- **Partial coverage.** `T = 2k` tiles are laid out on a grid `k` blocks wide, so only the first two block-rows are visited.
  The whole grid is covered only for `T = 4` (`Job.PartialCoverage`).
- **`T = 2` fails.** With `T = 2` the second tile starts at row `D`, and cutting it indexes out of bounds, so the whole of `parallelize` panics.
  `Parallelize` returns `IndexOutOfBounds` unless `D = 0`.
- **No cropping.** The result windows are clipped at the output's extents, but the element-wise copy then demands the clipped window have the result's shape.
  A tile that would need cropping makes reassembly fail (`Reassembly.CombineNeedsWholeWindows`, `Job.CreateDoesNotCrop`).
- **Failed tiles are not dropped.** The placeholder of a failed fetch sits at `(u32::MAX, u32::MAX)`, which the `as i32` cast turns into `-1`.
  The model does not claim reassembly skips it; reassembly requires placements below `2^31` instead.

## Model

| member | source | states |
|---|---|---|
| Squaring.ConvertToSquareMatrix | src/job.rs:192-203 | fails with DimensionTooSmall exactly when the side is below an input extent; otherwise the result is side x side, holds the input in its top-left corner, and is zero everywhere else |
| Squaring.CropUndoesSquaring | src/job.rs:192-203 | cropping the padded matrix back to the input's extents returns the input (padding loses nothing) |
| Squaring.SquaringSquareIsIdentity | src/job.rs:192-203 | padding a square matrix to its own side leaves it unchanged |
| Squaring.JobDimension | src/job.rs:24-26 | the common side is at least every extent of both inputs and equal to one of them, i.e. their maximum |
| Squaring.JobSquaringSucceeds | src/job.rs:24-28 | both inputs of create pad successfully to the common side, and no smaller side would work for both |
| Tiling.CounterClosedForm | src/job.rs:118-128 | the wrap-around row/column counter puts task n at (S * (n div k), S * (n mod k)) |
| Tiling.Parallelize | src/job.rs:103-152 | each failed assertion gives its own error (non-square or mismatched inputs, odd T, T = 0 dividing by zero, D not divisible by T/2); T = 2 on a non-empty matrix indexes out of bounds; success exactly when the checks pass and T >= 4 or D = 0, with exactly T tasks |
| Tiling.TileWindowsFit | src/job.rs:131-148 | every tile window lies inside the D x D matrix exactly when T >= 4 or D = 0 |
| Tiling.ParallelizeTiles | src/job.rs:108-151 | task i sits at the closed-form placement, and both of its sub-matrices are S x S, with sub[lr][lc] equal to the input cell at (row0 + lr, col0 + lc) |
| Tiling.ParallelizePlacements | src/job.rs:116-128 | placements are multiples of S, never past column D - S, only in block-rows 0 and S, pairwise distinct when D > 0, and for T = 4 exactly (0,0), (0,S), (S,0), (S,S) in that order |
| Tiling.PlacementsDistinct | src/job.rs:118-128 | two tiles of a non-empty matrix with the same closed-form placement are the same tile |
| Payload.ConvertToDataSlices | src/job.rs:70-74 | one payload per task, same length and order, index = placement, first and second = the task's sub-matrices |
| Payload.ConvertRoundTrip | src/job.rs:70-74 | the task list is recovered from the payloads, so wrapping loses nothing |
| Payload.IdentityKernel | src/job.rs:205-210 | every payload's result becomes its first operand; index and operands are kept; length and order are kept |
| Reassembly.CombineResults | src/job.rs:161-182 | no payload gives EmptyResults; otherwise success exactly when every clipped window has the shape of its result, with the tile side read from the first result, else ShapeMismatch; the output is rows x cols; cells no window covers stay 0; every other cell holds the value of the last payload in list order that covers it, at the matching offset of its result |
| Reassembly.OverlayCell | src/job.rs:166-180 | after pasting payloads in order, a cell holds its last writer's value, or its initial value when no payload covers it |
| Reassembly.LastWriterExists | src/job.rs:166-180 | every cell covered by some payload has a last writer |
| Reassembly.CombineNeedsWholeWindows | src/job.rs:170-179 | with S x S results, reassembly succeeds exactly when every window row0 + S <= rows and col0 + S <= cols, so no tile is cropped |
| Reassembly.CombineOfBlocks | src/job.rs:161-182 | when each result is the block of one matrix at its own placement, the output equals that matrix on covered cells and is 0 elsewhere |
| Dispatch.NodeIndex | src/job.rs:39 | the chosen node index is below the node count |
| Dispatch.RoundRobin | src/job.rs:39 | two tiles share a node exactly when their indices are congruent modulo the node count; the first N tiles go to nodes 0..N-1 in order; the choice repeats every N tiles |
| Dispatch.CorrelationId | src/job.rs:44-51 | the upload, execute and fetch ids of tile i < T lie in [0, T), [T, 2T) and [2T, 3T) |
| Dispatch.DecodeCorrelationId | src/job.rs:44-51 | the tile and the phase can be read back from any frame id |
| Dispatch.CorrelationIdOfDecode | src/job.rs:44-51 | an id decodes exactly when it is below 3T, and then it is the id of the frame it decodes to |
| Dispatch.CorrelationIdsDistinct | src/job.rs:44-51 | no two frames of one job, across tiles and phases, share an id |
| Dispatch.Placeholder | src/job.rs:48 | the failure placeholder has placement (u32::MAX, u32::MAX) and 1 x 1 zero operands and result |
| Dispatch.RunTile | src/job.rs:37-61 | tile i talks to node i mod N; it sends upload, execute and fetch frames, in that order, with ids i, i + T and i + 2T, carrying the payload, the kernel and the payload again; it awaits the fetch id; its result is the reply, or the placeholder when the fetch failed |
| Dispatch.DispatchAll | src/job.rs:33-61 | with no node and at least one tile, the job fails (NoNodes); otherwise one run per payload, in payload order |
| Dispatch.DispatchFrames | src/job.rs:37-61 | across a whole job no two frames share an id, and the runs of two tiles use the same node exactly when the tile indices are congruent modulo N |
| Job.SquaredInputs | src/job.rs:24-28 | both padded inputs are D x D with D the common side, and are the results of padding each input |
| Job.Create | src/job.rs:22-64 | never fails on padding or squareness; odd T, T = 0 and T = 2 on a non-empty input fail with their own errors; no node fails the job; success needs the tiling to succeed and a node; once both hold, the output is the reassembly of the replies in tile order (so, by CombineResults, each cell holds the last covering reply's value or 0), a rows(A) x cols(B) matrix |
| Job.CoveredIffTopRows | src/job.rs:118-128 | with T = 2k >= 4, a cell of the D x D grid is covered by some tile exactly when its row is below 2S |
| Job.PartialCoverage | src/job.rs:118-128 | with T = 2k >= 4 and the stand-in kernel, reassembling a D x D job gives the input's first 2S rows and zeros below them |
| Job.IdentityRoundTrip | src/job.rs:218-249 | for T = 4 on a square matrix of even side, tiling, the stand-in kernel and reassembly return the matrix |
| Job.CreateRoundTrip | src/job.rs:22-64 | create with four tiles on two D x D inputs of even D, and nodes echoing the first operand, returns the first input |
| Job.CreateDoesNotCrop | src/job.rs:161-182 | with four tiles of a non-empty grid and nodes echoing the first operand, create fails with ShapeMismatch whenever rows(A) or cols(B) is below the padded side |
| Scenarios.SquaringExample | src/job.rs:253-285 | [[1,2,3],[4,5,6]] pads to [[1,2,3],[4,5,6],[0,0,0]] at side 3 and fails at side 2 |
| Scenarios.ParallelizeExample | src/job.rs:288-352 | four tiles of the 4 x 4 test operands sit at (0,0), (0,2), (2,0), (2,2), and all eight quadrant blocks of both operands are the ones the test lists |
| Scenarios.ParallelizeRejections | src/job.rs:354-412 | a 2 x 4 second operand and two 2 x 4 operands are rejected as non-square, and ten tiles of a 4 x 4 matrix as indivisible |
| Scenarios.CombineExample | src/job.rs:217-250 | the four-tile job on the 4 x 4 test operand, with the stand-in kernel, reassembles into that operand |

## Left out

- Node registry (`get_network_information`, src/job.rs:77-95): it opens sockets to a fixed address and port range, which is I/O. The model takes the number of connected nodes as a parameter.
- Network calls (`set_data`, `set_execute`, `get_data`, `wait_for_response` with its 10 second timeout): they are I/O in an external crate. The outcome of waiting for each tile's fetch response is a parameter (`None` for a timeout or an error). Only the frames sent and the ids are modelled.
- Parallelism: the `par_iter` maps and `Zip::par_for_each` copies are order-preserving maps and per-cell copies, so they are modelled as sequential comprehensions and folds.
- `Data::new` and the kernel functions come from crates that are not part of this model. A new payload's result is taken to be a zero matrix of the first operand's shape. The kernel is an opaque value passed through; only the stand-in kernel of `test_matrix_multiplication` is given meaning.
- Logging (`println!`, `eprintln!`) has no effect on results and is left out.
- `src/main.rs` is a demo driver with hard-coded inputs and no logic of its own.
- Machine integer widths are not modelled: `usize`, `u32` and `u64` are unbounded `nat`. Placement counters cannot wrap and ids cannot overflow. Matrix elements are only copied, never combined, so `i32` overflow cannot arise.
- Reassembly.CombineResults: requires every placement to be below `2^31`. Larger placements, including the failure placeholder at `(u32::MAX, u32::MAX)`, become negative under the `as i32` cast, and ndarray's negative-index slicing of them is not modelled. The `i32` arithmetic `row0 + S` is taken not to overflow.
- Job.Create: requires every fetch to have succeeded with a reply whose placement is below `2^31`. A failed tile's placeholder would reach reassembly with a negative placement, which is not modelled (see above). The placeholder itself is modelled in `Dispatch.RunTile`.
