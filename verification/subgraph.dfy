/** Operations on the sub-graph of one stage. The shader and every group
    node apply exactly these, after checking the stage (see `Stages`).

    A call the engine rejects (it logs an error and returns) is modelled as
    returning the sub-graph unchanged.
 */
module SubGraphs {
  import opened ShaderEnums
  import opened SortedIds
  import opened Nodes

  /** add_node: stores `node` at `id` with its position, unless `id` is
      already taken, in which case nothing changes. */
  function Insert(g: SubGraph, node: Node, pos: Vector2, id: int): (r: SubGraph)
    ensures id in g.nodes ==> r == g
    ensures id in r.nodes && r.nodes.Keys == g.nodes.Keys + {id}
    ensures id !in g.nodes ==> r.nodes[id] == Entry(node, pos)
    ensures forall k :: k in g.nodes ==> k in r.nodes && r.nodes[k] == g.nodes[k]
    ensures r.connections == g.connections
  {
    if id in g.nodes then g
    else g.(nodes := g.nodes[id := Entry(node, pos)])
  }

  predicate Touches(c: Connection, id: int) {
    c.fromNode == id || c.toNode == id
  }

  /** No two connections end at the same input port. */
  predicate UniqueTargets(cs: seq<Connection>) {
    forall i, j :: 0 <= i < j < |cs| ==>
      !(cs[i].toNode == cs[j].toNode && cs[i].toPort == cs[j].toPort)
  }

  /** The connections of `cs` that do not touch node `id`, in their order. */
  function DropConnectionsOf(cs: seq<Connection>, id: int): (r: seq<Connection>)
    ensures forall c :: c in r <==> c in cs && !Touches(c, id)
    ensures |r| <= |cs|
    ensures (forall c :: c in cs ==> !Touches(c, id)) ==> r == cs
    ensures UniqueTargets(cs) ==> UniqueTargets(r)
  {
    if cs == [] then []
    else
      var rest := DropConnectionsOf(cs[1..], id);
      assert UniqueTargets(cs) ==> UniqueTargets(cs[1..]) by {
        if UniqueTargets(cs) {
          forall i, j | 0 <= i < j < |cs[1..]|
            ensures !(cs[1..][i].toNode == cs[1..][j].toNode && cs[1..][i].toPort == cs[1..][j].toPort)
          {
            assert cs[1..][i] == cs[i + 1] && cs[1..][j] == cs[j + 1];
          }
        }
      }
      if Touches(cs[0], id) then rest
      else
        var r := [cs[0]] + rest;
        assert UniqueTargets(cs) ==> UniqueTargets(r) by {
          if UniqueTargets(cs) {
            forall i, j | 0 <= i < j < |r|
              ensures !(r[i].toNode == r[j].toNode && r[i].toPort == r[j].toPort)
            {
              if i == 0 {
                assert r[j] in rest;
                assert r[j] in cs[1..];
                var k :| 0 <= k < |cs[1..]| && cs[1..][k] == r[j];
                assert cs[k + 1] == r[j];
              }
            }
          }
        }
        r
  }

  /** remove_node: drops the node, its position and every connection that
      starts or ends at it; an absent id changes nothing. */
  function Remove(g: SubGraph, id: int): (r: SubGraph)
    ensures id !in g.nodes ==> r == g
    ensures r.nodes.Keys == g.nodes.Keys - {id}
    ensures forall k :: k in r.nodes ==> r.nodes[k] == g.nodes[k]
    ensures id in g.nodes ==> forall c :: c in r.connections <==> c in g.connections && !Touches(c, id)
    ensures id in g.nodes ==> r.connections == DropConnectionsOf(g.connections, id)
    ensures UniqueTargets(g.connections) ==> UniqueTargets(r.connections)
  {
    if id !in g.nodes then g
    else SubGraph(g.nodes - {id}, DropConnectionsOf(g.connections, id))
  }

  /** set_node_position: replaces the position of a present node only. */
  function Move(g: SubGraph, id: int, pos: Vector2): (r: SubGraph)
    ensures r.nodes.Keys == g.nodes.Keys && r.connections == g.connections
    ensures id in g.nodes ==> r.nodes[id] == Entry(g.nodes[id].node, pos)
    ensures forall k :: k in g.nodes && k != id ==> r.nodes[k] == g.nodes[k]
    ensures id !in g.nodes ==> r == g
  {
    if id in g.nodes then g.(nodes := g.nodes[id := g.nodes[id].(position := pos)])
    else g
  }

  /** get_node_list: every id once, in ascending order. */
  function NodeList(g: SubGraph): (r: seq<int>)
    ensures |r| == |g.nodes|
    ensures forall k :: k in r <==> k in g.nodes
    ensures StrictlyIncreasing(r)
  {
    Ascending(g.nodes.Keys)
  }

  /** get_valid_node_id: one past the greatest id, never below 2. */
  function ValidNodeId(g: SubGraph): (r: int)
    ensures r >= FIRST_FREE_ID
    ensures forall k :: k in g.nodes ==> k < r
    ensures r == FIRST_FREE_ID || r - 1 in g.nodes
  {
    if g.nodes.Keys == {} then FIRST_FREE_ID
    else
      var m := Max(g.nodes.Keys);
      if m + 1 < FIRST_FREE_ID then FIRST_FREE_ID else m + 1
  }

  /** Both ends exist, are distinct, and the ports are within the declared
      counts of the two nodes. */
  predicate ValidConnection(g: SubGraph, c: Connection) {
    && c.fromNode in g.nodes
    && c.toNode in g.nodes
    && c.fromNode != c.toNode
    && 0 <= c.fromPort < OutputPortCount(g.nodes[c.fromNode].node)
    && 0 <= c.toPort < InputPortCount(g.nodes[c.toNode].node)
  }

  predicate PortTaken(cs: seq<Connection>, node: int, port: int) {
    exists i :: 0 <= i < |cs| && cs[i].toNode == node && cs[i].toPort == port
  }

  /** can_connect_nodes. An input port takes at most one incoming edge: a
      second edge into a taken port is refused rather than replacing it. */
  predicate CanConnect(g: SubGraph, c: Connection): (r: bool)
    ensures r <==>
      && c.fromNode in g.nodes && c.toNode in g.nodes && c.fromNode != c.toNode
      && 0 <= c.fromPort < OutputPortCount(g.nodes[c.fromNode].node)
      && 0 <= c.toPort < InputPortCount(g.nodes[c.toNode].node)
      && forall e :: e in g.connections ==> !(e.toNode == c.toNode && e.toPort == c.toPort)
  {
    ValidConnection(g, c) && !PortTaken(g.connections, c.toNode, c.toPort)
  }

  /** connect_nodes: appends the edge when `CanConnect` holds, otherwise
      changes nothing. */
  function Connect(g: SubGraph, c: Connection): (r: SubGraph)
    ensures r.nodes == g.nodes
    ensures CanConnect(g, c) ==> r.connections == g.connections + [c]
    ensures !CanConnect(g, c) ==> r == g
  {
    if CanConnect(g, c) then g.(connections := g.connections + [c]) else g
  }

  /** The invariant every reachable sub-graph keeps: no connection refers
      to a missing node or port, and every input port has at most one
      incoming edge. */
  predicate WellFormed(g: SubGraph) {
    && (forall i :: 0 <= i < |g.connections| ==> ValidConnection(g, g.connections[i]))
    && UniqueTargets(g.connections)
  }

  lemma InsertPreservesWellFormed(g: SubGraph, node: Node, pos: Vector2, id: int)
    requires WellFormed(g)
    ensures WellFormed(Insert(g, node, pos, id))
  {
  }

  lemma RemovePreservesWellFormed(g: SubGraph, id: int)
    requires WellFormed(g)
    ensures WellFormed(Remove(g, id))
  {
    var r := Remove(g, id);
    if id in g.nodes {
      forall i | 0 <= i < |r.connections|
        ensures ValidConnection(r, r.connections[i])
      {
        var c := r.connections[i];
        assert c in g.connections && !Touches(c, id);
        var j :| 0 <= j < |g.connections| && g.connections[j] == c;
        assert ValidConnection(g, g.connections[j]);
      }
    }
  }

  lemma MovePreservesWellFormed(g: SubGraph, id: int, pos: Vector2)
    requires WellFormed(g)
    ensures WellFormed(Move(g, id, pos))
  {
  }

  lemma ConnectPreservesWellFormed(g: SubGraph, c: Connection)
    requires WellFormed(g)
    ensures WellFormed(Connect(g, c))
  {
    if CanConnect(g, c) {
      var cs := g.connections + [c];
      forall i, j | 0 <= i < j < |cs|
        ensures !(cs[i].toNode == cs[j].toNode && cs[i].toPort == cs[j].toPort)
      {
        if j == |cs| - 1 {
          assert cs[i] == g.connections[i];
        }
      }
    }
  }

  /** A successful connect adds exactly one copy of the quadruple. */
  lemma ConnectAddsExactlyOnce(g: SubGraph, c: Connection)
    requires CanConnect(g, c)
    ensures c !in g.connections
    ensures c in Connect(g, c).connections
    ensures multiset(Connect(g, c).connections)[c] == 1
    ensures |Connect(g, c).connections| == |g.connections| + 1
  {
    assert multiset(g.connections)[c] == 0;
  }

  /** Once an edge into a port is made, every further edge into that port,
      the same one included, is refused. */
  lemma SecondEdgeRefused(g: SubGraph, c: Connection, d: Connection)
    requires CanConnect(g, c)
    requires d.toNode == c.toNode && d.toPort == c.toPort
    ensures !CanConnect(Connect(g, c), d)
  {
    assert Connect(g, c).connections[|g.connections|] == c;
  }

  /** A single edge survives the drop exactly when it does not touch the
      node. */
  lemma DropSingle(c: Connection, id: int)
    ensures DropConnectionsOf([c], id) == if Touches(c, id) then [] else [c]
  {
    assert [c][1..] == [];
  }

  /** Together with `DropSingle`: dropping the connections of a node is an
      order-preserving filter, since it distributes over concatenation. */
  lemma {:induction false} DropDistributes(a: seq<Connection>, b: seq<Connection>, id: int)
    ensures DropConnectionsOf(a + b, id) == DropConnectionsOf(a, id) + DropConnectionsOf(b, id)
  {
    if a == [] {
      assert a + b == b;
    } else {
      assert (a + b)[1..] == a[1..] + b;
      DropDistributes(a[1..], b, id);
    }
  }

  /** After removing a node no connection refers to it, and the nodes it
      was connected to are still present. */
  lemma RemoveLeavesNoDanglingEdge(g: SubGraph, id: int, other: int)
    requires WellFormed(g)
    requires other in g.nodes && other != id
    ensures forall c :: c in Remove(g, id).connections ==> !Touches(c, id)
    ensures other in Remove(g, id).nodes
    ensures WellFormed(Remove(g, id))
  {
    RemovePreservesWellFormed(g, id);
    if id !in g.nodes {
      forall c | c in g.connections
        ensures !Touches(c, id)
      {
        var i :| 0 <= i < |g.connections| && g.connections[i] == c;
        assert ValidConnection(g, g.connections[i]);
      }
    }
  }
}
