/** The stage-keyed graph: one sub-graph per valid stage. The shader's own
    node API and a group node's `*_internal_*` API are both this module,
    applied to two different `StageGraphs` values, so the two id spaces
    never meet.

    Every operation first checks the stage; a stage at or beyond
    `TYPE_MAX` makes a query return its empty answer and a mutation change
    nothing.
 */
module Stages {
  import opened ShaderEnums
  import opened SortedIds
  import opened Nodes
  import SubGraphs

  /** The sub-graph of stage `s`; empty if nothing was ever written to it. */
  function GraphOf(sg: StageGraphs, s: int): SubGraph {
    if s in sg.graphs then sg.graphs[s] else EmptyGraph
  }

  /** Replaces the sub-graph of one stage, leaving every other stage alone. */
  function Update(sg: StageGraphs, s: int, g: SubGraph): (r: StageGraphs)
    ensures GraphOf(r, s) == g
    ensures forall t :: t != s ==> GraphOf(r, t) == GraphOf(sg, t)
  {
    StageGraphs(sg.graphs[s := g])
  }

  predicate CanAddNode(sg: StageGraphs, s: int, id: int) {
    ValidStage(s) && id !in GraphOf(sg, s).nodes
  }

  /** add_node(type, node, position, id). */
  function AddNode(sg: StageGraphs, s: int, node: Node, pos: Vector2, id: int): (r: StageGraphs)
    ensures !CanAddNode(sg, s, id) ==> r == sg
    ensures CanAddNode(sg, s, id) ==>
      && GraphOf(r, s).nodes == GraphOf(sg, s).nodes[id := Entry(node, pos)]
      && GraphOf(r, s).connections == GraphOf(sg, s).connections
    ensures forall t :: t != s ==> GraphOf(r, t) == GraphOf(sg, t)
  {
    if CanAddNode(sg, s, id) then Update(sg, s, SubGraphs.Insert(GraphOf(sg, s), node, pos, id))
    else sg
  }

  /** get_node(type, id): the stored node, or nothing. */
  function GetNode(sg: StageGraphs, s: int, id: int): (r: Option<Node>)
    ensures r.Some? <==> ValidStage(s) && id in GraphOf(sg, s).nodes
    ensures r.Some? ==> r.value == GraphOf(sg, s).nodes[id].node
  {
    if ValidStage(s) && id in GraphOf(sg, s).nodes then Some(GraphOf(sg, s).nodes[id].node) else None
  }

  /** remove_node(type, id): also drops every connection touching `id`. */
  function RemoveNode(sg: StageGraphs, s: int, id: int): (r: StageGraphs)
    ensures !ValidStage(s) || id !in GraphOf(sg, s).nodes ==> r == sg
    ensures ValidStage(s) ==> GraphOf(r, s).nodes.Keys == GraphOf(sg, s).nodes.Keys - {id}
    ensures forall k :: k in GraphOf(r, s).nodes ==> GraphOf(r, s).nodes[k] == GraphOf(sg, s).nodes[k]
    ensures ValidStage(s) && id in GraphOf(sg, s).nodes ==>
      forall c :: c in GraphOf(r, s).connections <==> c in GraphOf(sg, s).connections && !SubGraphs.Touches(c, id)
    ensures forall t :: t != s ==> GraphOf(r, t) == GraphOf(sg, t)
  {
    if ValidStage(s) && id in GraphOf(sg, s).nodes then Update(sg, s, SubGraphs.Remove(GraphOf(sg, s), id))
    else sg
  }

  /** get_node_list(type): the ids of the stage in ascending order. */
  function GetNodeList(sg: StageGraphs, s: int): (r: seq<int>)
    ensures ValidStage(s) ==> |r| == |GraphOf(sg, s).nodes|
    ensures forall k :: k in r <==> ValidStage(s) && k in GraphOf(sg, s).nodes
    ensures StrictlyIncreasing(r)
  {
    if ValidStage(s) then SubGraphs.NodeList(GraphOf(sg, s)) else []
  }

  /** get_node_position(type, id); the zero vector when there is no such
      node. */
  function GetNodePosition(sg: StageGraphs, s: int, id: int): (r: Vector2)
    ensures ValidStage(s) && id in GraphOf(sg, s).nodes ==> r == GraphOf(sg, s).nodes[id].position
    ensures !(ValidStage(s) && id in GraphOf(sg, s).nodes) ==> r == Vector2(0.0, 0.0)
  {
    if ValidStage(s) && id in GraphOf(sg, s).nodes then GraphOf(sg, s).nodes[id].position else Vector2(0.0, 0.0)
  }

  /** set_node_position(type, id, position). */
  function SetNodePosition(sg: StageGraphs, s: int, id: int, pos: Vector2): (r: StageGraphs)
    ensures !ValidStage(s) || id !in GraphOf(sg, s).nodes ==> r == sg
    ensures GraphOf(r, s).nodes.Keys == GraphOf(sg, s).nodes.Keys
    ensures forall k :: k in GraphOf(sg, s).nodes ==> GraphOf(r, s).nodes[k].node == GraphOf(sg, s).nodes[k].node
    ensures ValidStage(s) && id in GraphOf(sg, s).nodes ==>
      GraphOf(r, s).nodes[id] == Entry(GraphOf(sg, s).nodes[id].node, pos)
    ensures forall k :: k in GraphOf(sg, s).nodes && k != id ==> GraphOf(r, s).nodes[k] == GraphOf(sg, s).nodes[k]
    ensures GraphOf(r, s).connections == GraphOf(sg, s).connections
    ensures forall t :: t != s ==> GraphOf(r, t) == GraphOf(sg, t)
  {
    if ValidStage(s) && id in GraphOf(sg, s).nodes then Update(sg, s, SubGraphs.Move(GraphOf(sg, s), id, pos))
    else sg
  }

  /** get_valid_node_id(type): one past the greatest id of the stage (at
      least 2), or `NODE_ID_INVALID` for an invalid stage. */
  function GetValidNodeId(sg: StageGraphs, s: int): (r: int)
    ensures !ValidStage(s) ==> r == NODE_ID_INVALID
    ensures ValidStage(s) ==> r >= FIRST_FREE_ID && r !in GraphOf(sg, s).nodes
    ensures ValidStage(s) ==> forall k :: k in GraphOf(sg, s).nodes ==> k < r
    ensures ValidStage(s) ==> r == FIRST_FREE_ID || r - 1 in GraphOf(sg, s).nodes
  {
    if ValidStage(s) then SubGraphs.ValidNodeId(GraphOf(sg, s)) else NODE_ID_INVALID
  }

  /** Once the greatest id of a stage is known, the allocator answers the
      id after it. */
  lemma ValidIdFollowsGreatest(sg: StageGraphs, s: int, m: int)
    requires ValidStage(s) && m >= FIRST_FREE_ID - 1
    requires m in GraphOf(sg, s).nodes
    requires forall k :: k in GraphOf(sg, s).nodes ==> k <= m
    ensures GetValidNodeId(sg, s) == m + 1
  {
    var r := GetValidNodeId(sg, s);
    assert r == FIRST_FREE_ID || r - 1 in GraphOf(sg, s).nodes;
  }

  /** When every id of a stage is below some bound of at least 2, the
      allocator's answer does not exceed that bound. */
  lemma ValidIdAtMost(sg: StageGraphs, s: int, bound: int)
    requires ValidStage(s) && bound >= FIRST_FREE_ID
    requires forall k :: k in GraphOf(sg, s).nodes ==> k < bound
    ensures GetValidNodeId(sg, s) <= bound
  {
    var r := GetValidNodeId(sg, s);
    assert r == FIRST_FREE_ID || r - 1 in GraphOf(sg, s).nodes;
  }

  /** The node list depends only on the stage's ids. */
  lemma SameKeysSameList(sg1: StageGraphs, sg2: StageGraphs, s: int)
    requires GraphOf(sg1, s).nodes.Keys == GraphOf(sg2, s).nodes.Keys
    ensures GetNodeList(sg1, s) == GetNodeList(sg2, s)
  {
  }

  /** can_connect_nodes(type, from_node, from_port, to_node, to_port). */
  predicate CanConnectNodes(sg: StageGraphs, s: int, c: Connection): (r: bool)
    ensures !ValidStage(s) ==> !r
    ensures r ==>
      && GetNode(sg, s, c.fromNode).Some? && GetNode(sg, s, c.toNode).Some?
      && c.fromNode != c.toNode
      && c !in GetNodeConnections(sg, s)
  {
    ValidStage(s) && SubGraphs.CanConnect(GraphOf(sg, s), c)
  }

  /** connect_nodes(type, from_node, from_port, to_node, to_port). */
  function ConnectNodes(sg: StageGraphs, s: int, c: Connection): (r: StageGraphs)
    ensures !CanConnectNodes(sg, s, c) ==> r == sg
    ensures CanConnectNodes(sg, s, c) ==>
      && GraphOf(r, s).connections == GraphOf(sg, s).connections + [c]
      && GraphOf(r, s).nodes == GraphOf(sg, s).nodes
    ensures forall t :: t != s ==> GraphOf(r, t) == GraphOf(sg, t)
  {
    if CanConnectNodes(sg, s, c) then Update(sg, s, SubGraphs.Connect(GraphOf(sg, s), c))
    else sg
  }

  /** get_node_connections(type). */
  function GetNodeConnections(sg: StageGraphs, s: int): (r: seq<Connection>)
    ensures ValidStage(s) ==> r == GraphOf(sg, s).connections
    ensures !ValidStage(s) ==> r == []
  {
    if ValidStage(s) then GraphOf(sg, s).connections else []
  }

  /** Every stage's sub-graph keeps the sub-graph invariant. */
  predicate WellFormed(sg: StageGraphs) {
    forall s :: s in sg.graphs ==> SubGraphs.WellFormed(sg.graphs[s])
  }

  lemma WellFormedGraphOf(sg: StageGraphs, s: int)
    requires WellFormed(sg)
    ensures SubGraphs.WellFormed(GraphOf(sg, s))
  {
  }

  /** Every mutation keeps every stage well formed. */
  lemma {:induction false} MutationsPreserveWellFormed(sg: StageGraphs, s: int, node: Node, pos: Vector2, id: int, c: Connection)
    requires WellFormed(sg)
    ensures WellFormed(AddNode(sg, s, node, pos, id))
    ensures WellFormed(RemoveNode(sg, s, id))
    ensures WellFormed(SetNodePosition(sg, s, id, pos))
    ensures WellFormed(ConnectNodes(sg, s, c))
  {
    var g := GraphOf(sg, s);
    assert WellFormed(AddNode(sg, s, node, pos, id)) by {
      SubGraphs.InsertPreservesWellFormed(g, node, pos, id);
    }
    assert WellFormed(RemoveNode(sg, s, id)) by {
      SubGraphs.RemovePreservesWellFormed(g, id);
    }
    assert WellFormed(SetNodePosition(sg, s, id, pos)) by {
      SubGraphs.MovePreservesWellFormed(g, id, pos);
    }
    assert WellFormed(ConnectNodes(sg, s, c)) by {
      SubGraphs.ConnectPreservesWellFormed(g, c);
    }
  }

  /** The position given to add_node is what get_node_position reports,
      and set_node_position overwrites it for that node only. */
  lemma PositionRoundTrip(sg: StageGraphs, s: int, node: Node, pos: Vector2, id: int, pos2: Vector2, other: int)
    requires CanAddNode(sg, s, id)
    requires other != id
    ensures GetNodePosition(AddNode(sg, s, node, pos, id), s, id) == pos
    ensures GetNodePosition(SetNodePosition(AddNode(sg, s, node, pos, id), s, id, pos2), s, id) == pos2
    ensures GetNodePosition(SetNodePosition(AddNode(sg, s, node, pos, id), s, id, pos2), s, other)
         == GetNodePosition(sg, s, other)
  {
  }

  /** add_node then get_node returns the very node that was added. */
  lemma AddThenGet(sg: StageGraphs, s: int, node: Node, pos: Vector2, id: int)
    requires CanAddNode(sg, s, id)
    ensures GetNode(AddNode(sg, s, node, pos, id), s, id) == Some(node)
    ensures |GetNodeList(AddNode(sg, s, node, pos, id), s)| == |GetNodeList(sg, s)| + 1
    ensures id in GetNodeList(AddNode(sg, s, node, pos, id), s)
  {
    var r := AddNode(sg, s, node, pos, id);
    assert GraphOf(r, s).nodes.Keys == GraphOf(sg, s).nodes.Keys + {id};
  }

  /** A second add_node at a taken id is refused: the first node stays and
      the list is unchanged. */
  lemma DuplicateIdRejected(sg: StageGraphs, s: int, node: Node, pos: Vector2, id: int, node2: Node, pos2: Vector2)
    requires CanAddNode(sg, s, id)
    ensures var once := AddNode(sg, s, node, pos, id);
            && AddNode(once, s, node2, pos2, id) == once
            && GetNode(AddNode(once, s, node2, pos2, id), s, id) == Some(node)
  {
  }

  /** remove_node then get_node finds nothing at that id. */
  lemma RemoveThenGet(sg: StageGraphs, s: int, id: int)
    ensures GetNode(RemoveNode(sg, s, id), s, id) == None
  {
  }

  /** A connection that can be made is listed after it is made, at the end
      of the stage's list, and cannot be made a second time. */
  lemma ConnectThenListed(sg: StageGraphs, s: int, c: Connection)
    requires CanConnectNodes(sg, s, c)
    ensures GetNodeConnections(ConnectNodes(sg, s, c), s) == GetNodeConnections(sg, s) + [c]
    ensures !CanConnectNodes(ConnectNodes(sg, s, c), s, c)
  {
    SubGraphs.SecondEdgeRefused(GraphOf(sg, s), c, c);
  }
}
