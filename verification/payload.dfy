/** Payload records exchanged with the compute nodes (`execution_unit::data::Data`)
    and the conversion of the task list into payloads.
 */
module Payload {
  import opened Matrices
  import opened Tiling

  /** A payload: where the result belongs, the two operands, and the result. */
  datatype Data = Data(index: Placement, first: Matrix, second: Matrix, resolution: Matrix)

  /** `Data::new(index, first, second)`.  The result starts as a zero matrix
      of the first operand's shape. */
  function NewData(index: Placement, first: Matrix, second: Matrix): (d: Data)
    ensures d.index == index && d.first == first && d.second == second
    ensures Wf(d.resolution) && d.resolution.rows == first.rows && d.resolution.cols == first.cols
    ensures forall r, c :: 0 <= r < first.rows && 0 <= c < first.cols ==> d.resolution.cells[r][c] == 0
  {
    Data(index, first, second, Zeros(first.rows, first.cols))
  }

  /** `convert_to_data_slices(tasks)`: one payload per task, in task order. */
  function ConvertToDataSlices(tasks: seq<Task>): (slices: seq<Data>)
    ensures |slices| == |tasks|
    ensures forall i :: 0 <= i < |tasks| ==>
      slices[i].index == tasks[i].placement && slices[i].first == tasks[i].first && slices[i].second == tasks[i].second
  {
    seq(|tasks|, i requires 0 <= i < |tasks| => NewData(tasks[i].placement, tasks[i].first, tasks[i].second))
  }

  /** Forget the results of payloads, recovering the task list. */
  function ToTasks(slices: seq<Data>): (tasks: seq<Task>)
    ensures |tasks| == |slices|
  {
    seq(|slices|, i requires 0 <= i < |slices| => Task(slices[i].first, slices[i].second, slices[i].index))
  }

  /** Wrapping loses nothing: the task list is recovered from the payloads. */
  lemma ConvertRoundTrip(tasks: seq<Task>)
    ensures ToTasks(ConvertToDataSlices(tasks)) == tasks
  {
  }

  /** `test_matrix_multiplication`: the local stand-in for a kernel, which
      sets each payload's result to its first operand. */
  function IdentityKernel(slices: seq<Data>): (done: seq<Data>)
    ensures |done| == |slices|
    ensures forall i :: 0 <= i < |slices| ==>
      done[i].resolution == slices[i].first
      && done[i].index == slices[i].index && done[i].first == slices[i].first && done[i].second == slices[i].second
  {
    seq(|slices|, i requires 0 <= i < |slices| => slices[i].(resolution := slices[i].first))
  }
}
