/** A group node's `*_internal_*` API: the stage-keyed operations applied to
    the group's own graph, and an id allocator that keeps a counter per
    stage so that consecutive requests, with no insertion in between, get
    consecutive ids.
 */
module Groups {
  import opened ShaderEnums
  import opened SortedIds
  import opened Nodes
  import Stages

  /** A freshly constructed group: no internal node in any stage, no id
      handed out yet. */
  function NewGroup(): GroupNode {
    GroupNode(NoStages, map[])
  }

  /** The next id the allocator of stage `s` would hand out if no node
      stood in the way; it starts where the shader's allocator starts. */
  function Counter(gr: GroupNode, s: int): int {
    if s in gr.nextIds then gr.nextIds[s] else FIRST_FREE_ID
  }

  datatype Allocation = Allocation(id: int, group: GroupNode)

  /** get_valid_internal_node_id(type): the least id that is at least the
      counter and beyond every internal id of the stage; the counter then
      moves past it. An invalid stage yields `NODE_ID_INVALID`. */
  function GetValidInternalNodeId(gr: GroupNode, s: int): (a: Allocation)
    ensures !ValidStage(s) ==> a == Allocation(NODE_ID_INVALID, gr)
    ensures ValidStage(s) ==> a.id >= FIRST_FREE_ID && a.id >= Counter(gr, s)
    ensures ValidStage(s) ==> forall k :: k in Stages.GraphOf(gr.graphs, s).nodes ==> k < a.id
    ensures ValidStage(s) ==> a.id == Counter(gr, s) || a.id == Stages.GetValidNodeId(gr.graphs, s)
    ensures ValidStage(s) ==> Counter(a.group, s) == a.id + 1
    ensures a.group.graphs == gr.graphs
    ensures ValidStage(s) ==> a.group.nextIds == gr.nextIds[s := a.id + 1]
    ensures forall t :: t != s ==> Counter(a.group, t) == Counter(gr, t)
  {
    if !ValidStage(s) then Allocation(NODE_ID_INVALID, gr)
    else
      var past := Stages.GetValidNodeId(gr.graphs, s);
      var id := if Counter(gr, s) < past then past else Counter(gr, s);
      Allocation(id, gr.(nextIds := gr.nextIds[s := id + 1]))
  }

  // The internal node API, one-to-one with the shader's.

  function AddInternalNode(gr: GroupNode, s: int, node: Node, pos: Vector2, id: int): GroupNode {
    gr.(graphs := Stages.AddNode(gr.graphs, s, node, pos, id))
  }

  function RemoveInternalNode(gr: GroupNode, s: int, id: int): GroupNode {
    gr.(graphs := Stages.RemoveNode(gr.graphs, s, id))
  }

  function SetInternalNodePosition(gr: GroupNode, s: int, id: int, pos: Vector2): GroupNode {
    gr.(graphs := Stages.SetNodePosition(gr.graphs, s, id, pos))
  }

  function ConnectInternalNodes(gr: GroupNode, s: int, c: Connection): GroupNode {
    gr.(graphs := Stages.ConnectNodes(gr.graphs, s, c))
  }

  function GetInternalNode(gr: GroupNode, s: int, id: int): Option<Node> {
    Stages.GetNode(gr.graphs, s, id)
  }

  function GetInternalNodeList(gr: GroupNode, s: int): seq<int> {
    Stages.GetNodeList(gr.graphs, s)
  }

  function GetInternalNodePosition(gr: GroupNode, s: int, id: int): Vector2 {
    Stages.GetNodePosition(gr.graphs, s, id)
  }

  predicate CanConnectInternalNodes(gr: GroupNode, s: int, c: Connection) {
    Stages.CanConnectNodes(gr.graphs, s, c)
  }

  function GetInternalNodeConnections(gr: GroupNode, s: int): seq<Connection> {
    Stages.GetNodeConnections(gr.graphs, s)
  }

  /** Three requests in a row, with no insertion in between, return three
      consecutive non-negative ids. */
  lemma ConsecutiveAllocations(gr: GroupNode, s: int)
    requires ValidStage(s)
    ensures
      var a1 := GetValidInternalNodeId(gr, s);
      var a2 := GetValidInternalNodeId(a1.group, s);
      var a3 := GetValidInternalNodeId(a2.group, s);
      && a1.id >= 0
      && a2.id == a1.id + 1
      && a3.id == a2.id + 1
  {
  }

  /** One call the tests make on a group. */
  datatype GroupOp =
    | Allocate(stage: int)
    | AddInternal(stage: int, node: Node, pos: Vector2, id: int)
    | RemoveInternal(stage: int, id: int)
    | MoveInternal(stage: int, id: int, pos: Vector2)
    | ConnectInternal(stage: int, c: Connection)

  /** Applies one call; only an allocation returns a meaningful id. */
  function Step(gr: GroupNode, op: GroupOp): Allocation {
    match op
    case Allocate(s) => GetValidInternalNodeId(gr, s)
    case AddInternal(s, n, p, id) => Allocation(NODE_ID_INVALID, AddInternalNode(gr, s, n, p, id))
    case RemoveInternal(s, id) => Allocation(NODE_ID_INVALID, RemoveInternalNode(gr, s, id))
    case MoveInternal(s, id, p) => Allocation(NODE_ID_INVALID, SetInternalNodePosition(gr, s, id, p))
    case ConnectInternal(s, c) => Allocation(NODE_ID_INVALID, ConnectInternalNodes(gr, s, c))
  }

  /** The group after a run of calls. */
  function Final(gr: GroupNode, ops: seq<GroupOp>): GroupNode
    decreases |ops|
  {
    if ops == [] then gr else Final(Step(gr, ops[0]).group, ops[1..])
  }

  /** The ids the allocator of stage `s` returned during a run, in order. */
  function Issued(gr: GroupNode, ops: seq<GroupOp>, s: int): seq<int>
    decreases |ops|
  {
    if ops == [] then []
    else
      var a := Step(gr, ops[0]);
      (if ops[0] == Allocate(s) then [a.id] else []) + Issued(a.group, ops[1..], s)
  }

  /** No call moves a counter back, and an allocation in stage `s` returns
      an id at or above the counter and leaves the counter just past it. */
  lemma StepCounter(gr: GroupNode, op: GroupOp, s: int)
    requires ValidStage(s)
    ensures Counter(Step(gr, op).group, s) >= Counter(gr, s)
    ensures op == Allocate(s) ==>
      Counter(gr, s) <= Step(gr, op).id && Counter(Step(gr, op).group, s) == Step(gr, op).id + 1
  {
  }

  /** Putting an id below a strictly increasing run in front of it keeps
      the run strictly increasing. */
  lemma PrependBelow(x: int, tail: seq<int>, lo: int, mid: int, hi: int)
    requires lo <= x < mid
    requires StrictlyIncreasing(tail)
    requires forall i :: 0 <= i < |tail| ==> mid <= tail[i] < hi
    requires x < hi
    ensures StrictlyIncreasing([x] + tail)
    ensures forall i :: 0 <= i < |[x] + tail| ==> lo <= ([x] + tail)[i] < hi
  {
    var all := [x] + tail;
    forall i | 0 < i < |all|
      ensures all[i] == tail[i - 1]
    {
    }
  }

  /** One step of a run, unfolded. */
  lemma IssuedCons(gr: GroupNode, ops: seq<GroupOp>, s: int)
    requires ops != []
    ensures Final(gr, ops) == Final(Step(gr, ops[0]).group, ops[1..])
    ensures ops[0] == Allocate(s) ==>
      Issued(gr, ops, s) == [Step(gr, ops[0]).id] + Issued(Step(gr, ops[0]).group, ops[1..], s)
    ensures ops[0] != Allocate(s) ==>
      Issued(gr, ops, s) == Issued(Step(gr, ops[0]).group, ops[1..], s)
  {
  }

  /** No run of calls moves the counter of a stage back. */
  lemma {:induction false} CounterMonotone(gr: GroupNode, ops: seq<GroupOp>, s: int)
    requires ValidStage(s)
    ensures Counter(gr, s) <= Counter(Final(gr, ops), s)
    decreases |ops|
  {
    if ops != [] {
      StepCounter(gr, ops[0], s);
      CounterMonotone(Step(gr, ops[0]).group, ops[1..], s);
    }
  }

  /** Whatever the interleaving of insertions, removals, moves, connections
      and allocations, the ids the allocator of one stage hands out keep
      strictly increasing, so it never returns an id it returned before. */
  lemma {:induction false} AllocatorNeverRepeats(gr: GroupNode, ops: seq<GroupOp>, s: int)
    requires ValidStage(s)
    ensures StrictlyIncreasing(Issued(gr, ops, s))
    ensures forall i :: 0 <= i < |Issued(gr, ops, s)| ==>
      Counter(gr, s) <= Issued(gr, ops, s)[i] < Counter(Final(gr, ops), s)
    decreases |ops|
  {
    if ops != [] {
      var a := Step(gr, ops[0]);
      StepCounter(gr, ops[0], s);
      AllocatorNeverRepeats(a.group, ops[1..], s);
      CounterMonotone(a.group, ops[1..], s);
      IssuedCons(gr, ops, s);
      IssuedStep(a.id, Issued(a.group, ops[1..], s), Issued(gr, ops, s), ops[0] == Allocate(s),
                 Counter(gr, s), Counter(a.group, s), Counter(Final(a.group, ops[1..]), s));
    }
  }

  /** One step of `AllocatorNeverRepeats` on plain sequences: the run so far
      is the rest of the run, preceded by the id just allocated when the
      step was an allocation. */
  lemma IssuedStep(x: int, tail: seq<int>, issued: seq<int>, isAllocation: bool, lo: int, mid: int, hi: int)
    requires isAllocation ==> issued == [x] + tail && lo <= x && mid == x + 1
    requires !isAllocation ==> issued == tail && lo <= mid
    requires StrictlyIncreasing(tail)
    requires forall i :: 0 <= i < |tail| ==> mid <= tail[i] < hi
    requires mid <= hi
    ensures StrictlyIncreasing(issued)
    ensures forall i :: 0 <= i < |issued| ==> lo <= issued[i] < hi
  {
    if isAllocation {
      PrependBelow(x, tail, lo, mid, hi);
    }
  }

}
