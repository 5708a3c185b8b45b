/** The per-tile dispatch inside `create` (`src/job.rs`): round-robin node
    choice, the three correlated frames of the upload/execute/fetch protocol,
    and the placeholder that replaces a tile whose fetch failed.

    The network itself is not modelled: the outcome of waiting for the fetch
    response of each tile is a parameter (`None` for a timeout or an error).
    The kernel is an opaque value of type `K`, passed through untouched.
 */
module Dispatch {
  import opened Results
  import opened Matrices
  import opened Tiling
  import opened Payload

  /** `u32::MAX`, the placement coordinate of the failure placeholder. */
  const U32Max: nat := 0xFFFF_FFFF

  /** The three protocol phases of one tile, in the order they are issued. */
  datatype Phase = Upload | Execute | Fetch

  /** A request frame sent to a node. */
  datatype Frame<K> =
    | SetData(id: nat, data: Data)
    | ExecuteFn(id: nat, kernel: K)
    | GetData(id: nat, data: Data)

  /** Everything one tile's task does: the node it talks to, the frames it
      sends in order, the id of the response it waits for, and its result. */
  datatype TileRun<K> = TileRun(node: nat, sent: seq<Frame<K>>, awaited: nat, result: Data)

  /** Round-robin choice of node `index % num_nodes`. */
  function NodeIndex(i: nat, nodes: nat): (n: nat)
    requires nodes > 0
    ensures n < nodes
  {
    i % nodes
  }

  /** A multiple of `nodes` whose absolute value is below `nodes` is zero. */
  lemma SmallMultiple(q: int, nodes: nat)
    requires nodes > 0 && -(nodes as int) < q * nodes < nodes
    ensures q == 0
  {
    if q >= 1 {
      MulMono(1, q, nodes);
    }
  }

  /** Two tiles go to the same node exactly when their indices are congruent
      modulo the node count; the first `nodes` tiles go to distinct nodes in
      order, and the assignment repeats every `nodes` tiles. */
  lemma RoundRobin(i: nat, j: nat, nodes: nat)
    requires nodes > 0
    ensures NodeIndex(i, nodes) == NodeIndex(j, nodes) <==> (i - j) % nodes == 0
    ensures i < nodes ==> NodeIndex(i, nodes) == i
    ensures NodeIndex(i + nodes, nodes) == NodeIndex(i, nodes)
  {
    var qi, qj := i / nodes, j / nodes;
    var ri, rj := i % nodes, j % nodes;
    var x := i - j;
    assert x == (qi - qj) * nodes + (ri - rj);
    var qx, rx := x / nodes, x % nodes;
    assert x == qx * nodes + rx;
    assert (qi - qj - qx) * nodes == rx - (ri - rj);
    if ri == rj {
      assert (qi - qj - qx) * nodes == rx;
      SmallMultiple(qi - qj - qx, nodes);
    }
    if rx == 0 {
      assert (qi - qj - qx) * nodes == rj - ri;
      SmallMultiple(qi - qj - qx, nodes);
    }
    DivModUnique(i + nodes, nodes, qi + 1, ri);
    if i < nodes {
      DivModUnique(i, nodes, 0, i);
    }
  }

  /** Correlation id of a tile's frame: `i`, `i + T` or `i + 2T`. */
  function CorrelationId(i: nat, phase: Phase, t: nat): (id: nat)
    requires i < t
    ensures phase == Upload ==> id < t
    ensures phase == Execute ==> t <= id < 2 * t
    ensures phase == Fetch ==> 2 * t <= id < 3 * t
  {
    match phase
    case Upload => i
    case Execute => i + t
    case Fetch => i + 2 * t
  }

  /** Which tile and phase an id belongs to, if any. */
  function DecodeId(id: nat, t: nat): Option<(nat, Phase)>
    requires t > 0
  {
    if id < t then Some((id, Upload))
    else if id < 2 * t then Some((id - t, Execute))
    else if id < 3 * t then Some((id - 2 * t, Fetch))
    else None
  }

  /** Decoding inverts the id scheme. */
  lemma DecodeCorrelationId(i: nat, phase: Phase, t: nat)
    requires i < t
    ensures DecodeId(CorrelationId(i, phase, t), t) == Some((i, phase))
  {
  }

  /** The ids of a job are exactly `[0, 3T)`: every id below `3T` is the id of
      the frame it decodes to, and no other id decodes. */
  lemma CorrelationIdOfDecode(id: nat, t: nat)
    requires t > 0
    ensures DecodeId(id, t).None? <==> id >= 3 * t
    ensures DecodeId(id, t).Some? ==>
      DecodeId(id, t).value.0 < t && CorrelationId(DecodeId(id, t).value.0, DecodeId(id, t).value.1, t) == id
  {
  }

  /** No two frames of a job share an id. */
  lemma CorrelationIdsDistinct(i: nat, p: Phase, j: nat, q: Phase, t: nat)
    requires i < t && j < t && CorrelationId(i, p, t) == CorrelationId(j, q, t)
    ensures i == j && p == q
  {
    DecodeCorrelationId(i, p, t);
    DecodeCorrelationId(j, q, t);
  }

  /** The placeholder result of a failed tile: placement `(u32::MAX, u32::MAX)`
      and `1 x 1` zero matrices. */
  function Placeholder(): (d: Data)
    ensures d.index == Placement(U32Max, U32Max)
    ensures Wf(d.first) && d.first.rows == 1 && d.first.cols == 1 && d.first.cells[0][0] == 0
    ensures Wf(d.second) && d.second.rows == 1 && d.second.cols == 1 && d.second.cells[0][0] == 0
    ensures Wf(d.resolution) && d.resolution.rows == 1 && d.resolution.cols == 1 && d.resolution.cells[0][0] == 0
  {
    NewData(Placement(U32Max, U32Max), Zeros(1, 1), Zeros(1, 1))
  }

  /** The body of the parallel map in `create` for tile `i`. */
  function RunTile<K>(i: nat, slice: Data, t: nat, nodes: nat, kernel: K, reply: Option<Data>): (run: TileRun<K>)
    requires i < t && nodes > 0
    ensures run.node == NodeIndex(i, nodes)
    ensures |run.sent| == 3
    ensures run.sent[0] == SetData(CorrelationId(i, Upload, t), slice)
    ensures run.sent[1] == ExecuteFn(CorrelationId(i, Execute, t), kernel)
    ensures run.sent[2] == GetData(CorrelationId(i, Fetch, t), slice)
    ensures DecodeId(run.sent[0].id, t) == Some((i, Upload))
    ensures DecodeId(run.sent[1].id, t) == Some((i, Execute))
    ensures DecodeId(run.sent[2].id, t) == Some((i, Fetch))
    // the response awaited is the one answering the fetch frame
    ensures run.awaited == run.sent[2].id
    ensures reply.Some? ==> run.result == reply.value
    ensures reply.None? ==> run.result == Placeholder() && run.result.index == Placement(U32Max, U32Max)
  {
    var fetchId := CorrelationId(i, Fetch, t);
    DecodeCorrelationId(i, Upload, t);
    DecodeCorrelationId(i, Execute, t);
    DecodeCorrelationId(i, Fetch, t);
    TileRun(NodeIndex(i, nodes),
            [SetData(CorrelationId(i, Upload, t), slice),
             ExecuteFn(CorrelationId(i, Execute, t), kernel),
             GetData(fetchId, slice)],
            fetchId,
            match reply
            case Some(d) => d
            case None => Placeholder())
  }

  /** The parallel map over all payloads: one run per payload, in payload
      order.  With no node at all, `index % 0` panics. */
  function DispatchAll<K>(slices: seq<Data>, t: nat, nodes: nat, kernel: K, replies: seq<Option<Data>>)
    : (r: Result<seq<TileRun<K>>>)
    requires |slices| == t && |replies| == t
    ensures r.Err? <==> nodes == 0 && t > 0
    ensures r.Err? ==> r.error == NoNodes
    ensures r.Ok? ==> |r.value| == t
    ensures r.Ok? ==> forall i :: 0 <= i < t ==> r.value[i] == RunTile(i, slices[i], t, nodes, kernel, replies[i])
  {
    if nodes == 0 && t > 0 then Err(NoNodes)
    else Ok(seq(t, i requires 0 <= i < t => RunTile(i, slices[i], t, nodes, kernel, replies[i])))
  }

  /** The results collected from the runs, in tile order. */
  function Collected<K>(runs: seq<TileRun<K>>): (results: seq<Data>)
    ensures |results| == |runs|
    ensures forall i :: 0 <= i < |runs| ==> results[i] == runs[i].result
  {
    seq(|runs|, i requires 0 <= i < |runs| => runs[i].result)
  }

  /** Across a whole job the frames of different tiles or phases never share
      an id, and each node serves exactly the tiles congruent to it. */
  lemma DispatchFrames<K>(slices: seq<Data>, t: nat, nodes: nat, kernel: K, replies: seq<Option<Data>>)
    requires |slices| == t && |replies| == t && nodes > 0
    ensures DispatchAll(slices, t, nodes, kernel, replies).Ok?
    ensures var runs := DispatchAll(slices, t, nodes, kernel, replies).value;
      forall i, j, a, b :: 0 <= i < t && 0 <= j < t && 0 <= a < 3 && 0 <= b < 3 && (i, a) != (j, b)
        ==> runs[i].sent[a].id != runs[j].sent[b].id
    ensures var runs := DispatchAll(slices, t, nodes, kernel, replies).value;
      forall i, j :: 0 <= i < t && 0 <= j < t ==> (runs[i].node == runs[j].node <==> (i - j) % nodes == 0)
  {
    var runs := DispatchAll(slices, t, nodes, kernel, replies).value;
    forall i, j, a, b | 0 <= i < t && 0 <= j < t && 0 <= a < 3 && 0 <= b < 3 && (i, a) != (j, b)
      ensures runs[i].sent[a].id != runs[j].sent[b].id
    {
      var pa := [Upload, Execute, Fetch][a];
      var pb := [Upload, Execute, Fetch][b];
      assert runs[i].sent[a].id == CorrelationId(i, pa, t);
      assert runs[j].sent[b].id == CorrelationId(j, pb, t);
      if runs[i].sent[a].id == runs[j].sent[b].id {
        CorrelationIdsDistinct(i, pa, j, pb, t);
      }
    }
    forall i, j | 0 <= i < t && 0 <= j < t
      ensures runs[i].node == runs[j].node <==> (i - j) % nodes == 0
    {
      RoundRobin(i, j, nodes);
    }
  }
}
