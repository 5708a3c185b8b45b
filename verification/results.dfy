/** Failure-carrying values for the job pipeline.

    Every way the Rust code in `src/job.rs` can panic before producing a
    matrix is represented here as an explicit error kind, so that each
    operation is total and its error path can be stated in its contract.
 */
module Results {

  /** The panics of the job pipeline, named after their cause. */
  datatype JobError =
    | DimensionTooSmall       // padding target below an input extent
    | NonSquareOrMismatched   // tiler inputs not square or of different sides
    | OddTileCount            // tile count not even
    | ZeroTileCount           // tile count zero: `dimension % (0 / 2)` divides by zero
    | IndivisibleDimension    // side not divisible by half the tile count
    | IndexOutOfBounds        // a tile window reaches past the squared matrix
    | NoNodes                 // `index % 0` with no connected node
    | EmptyResults            // no result payload to read the tile side from
    | ShapeMismatch           // a result window is an out-of-range slice or does not match its result's shape

  datatype Result<T> = Ok(value: T) | Err(error: JobError)

  datatype Option<T> = None | Some(value: T)
}
