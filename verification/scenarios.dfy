/** The test cases' own sequences of calls, replayed on the model: every
    test builds a group by asking the group's allocator for an id and
    adding a node under it, so that step is proved once for all groups and
    the scenarios are chains of it.
 */
module Scenarios {
  import opened ShaderEnums
  import opened SortedIds
  import opened Nodes
  import SubGraphs
  import Stages
  import Groups
  import Shader
  import Editor

  /** An Output node whose mode and stage were both set offers input
      ports, and one created without them offers none. */
  lemma ConfiguredOutputHasInputs()
    ensures InputPortCount(Editor.ConfiguredOutput) > 0
    ensures InputPortCount(Output(None, None)) == 0
  {
  }

  /** get_valid_internal_node_id followed by add_internal_node under the id
      it returned. */
  function AllocateAndAdd(gr: GroupNode, s: int, n: Node, pos: Vector2): Groups.Allocation {
    var a := Groups.GetValidInternalNodeId(gr, s);
    Groups.Allocation(a.id, Groups.AddInternalNode(a.group, s, n, pos, a.id))
  }

  /** A fresh group's allocator starts at 2 in every stage. */
  lemma FreshGroupAllocatesTwo(s: int)
    requires ValidStage(s)
    ensures Groups.GetValidInternalNodeId(Groups.NewGroup(), s).id == FIRST_FREE_ID
  {
    assert Stages.GraphOf(Groups.NewGroup().graphs, s).nodes == map[];
  }

  /** Allocating and adding always succeeds: the node is stored under a
      fresh id at the given position, the list grows by exactly that id,
      nothing else in the stage changes, and the next allocation returns
      the following id. */
  lemma AllocateAndAddStep(gr: GroupNode, s: int, n: Node, pos: Vector2)
    requires ValidStage(s)
    ensures
      var r := AllocateAndAdd(gr, s, n, pos);
      var before := Stages.GraphOf(gr.graphs, s);
      var after := Stages.GraphOf(r.group.graphs, s);
      && r.id !in before.nodes
      && after.nodes == before.nodes[r.id := Entry(n, pos)]
      && after.connections == before.connections
      && Groups.GetInternalNode(r.group, s, r.id) == Some(n)
      && Groups.GetInternalNodePosition(r.group, s, r.id) == pos
      && |Groups.GetInternalNodeList(r.group, s)| == |Groups.GetInternalNodeList(gr, s)| + 1
      && r.id in Groups.GetInternalNodeList(r.group, s)
      && Groups.GetValidInternalNodeId(r.group, s).id == r.id + 1
  {
    AllocateAndAddStores(gr, s, n, pos);
    AllocateAndAddAdvances(gr, s, n, pos);
  }

  /** The node lands under a fresh id, at its position, and is listed. */
  lemma AllocateAndAddStores(gr: GroupNode, s: int, n: Node, pos: Vector2)
    requires ValidStage(s)
    ensures
      var r := AllocateAndAdd(gr, s, n, pos);
      var before := Stages.GraphOf(gr.graphs, s);
      var after := Stages.GraphOf(r.group.graphs, s);
      && r.id !in before.nodes
      && after.nodes == before.nodes[r.id := Entry(n, pos)]
      && after.connections == before.connections
      && Groups.GetInternalNode(r.group, s, r.id) == Some(n)
      && Groups.GetInternalNodePosition(r.group, s, r.id) == pos
      && |Groups.GetInternalNodeList(r.group, s)| == |Groups.GetInternalNodeList(gr, s)| + 1
      && r.id in Groups.GetInternalNodeList(r.group, s)
  {
    var a := Groups.GetValidInternalNodeId(gr, s);
    Stages.AddThenGet(gr.graphs, s, n, pos, a.id);
  }

  /** After the node is added, the allocator hands out the next id. */
  lemma AllocateAndAddAdvances(gr: GroupNode, s: int, n: Node, pos: Vector2)
    requires ValidStage(s)
    ensures
      var r := AllocateAndAdd(gr, s, n, pos);
      Groups.GetValidInternalNodeId(r.group, s).id == r.id + 1
  {
    var a := Groups.GetValidInternalNodeId(gr, s);
    var sg := Stages.AddNode(gr.graphs, s, n, pos, a.id);
    assert Stages.GraphOf(sg, s).nodes.Keys == Stages.GraphOf(gr.graphs, s).nodes.Keys + {a.id};
    Stages.ValidIdAtMost(sg, s, a.id + 1);
  }

  /** The shape of every group the tests build: one stage holding `nodes`
      and no connection, and that stage's allocator at `next`. */
  function Built(s: int, nodes: map<int, Entry>, next: int): GroupNode {
    GroupNode(StageGraphs(map[s := SubGraph(nodes, [])]), map[s := next])
  }

  /** The built stage holds exactly `nodes`, with no connection. */
  lemma BuiltView(s: int, nodes: map<int, Entry>, next: int)
    ensures Stages.GraphOf(Built(s, nodes, next).graphs, s) == SubGraph(nodes, [])
  {
  }

  /** On a fresh group, allocating and adding stores the node under 2. */
  lemma FirstStep(s: int, n: Node, pos: Vector2)
    requires ValidStage(s)
    ensures AllocateAndAdd(Groups.NewGroup(), s, n, pos) == Groups.Allocation(2, Built(s, map[2 := Entry(n, pos)], 3))
  {
    FreshGroupAllocatesTwo(s);
  }

  /** Every id of `nodes` is below `next`. */
  predicate Below(nodes: map<int, Entry>, next: int) {
    forall k :: k in nodes ==> k < next
  }

  /** When every id of the stage is below the counter, the allocator
      returns the counter and moves it on by one. */
  lemma AllocateOnBuilt(s: int, nodes: map<int, Entry>, next: int)
    requires ValidStage(s) && next >= FIRST_FREE_ID
    requires forall k :: k in nodes ==> k < next
    ensures Groups.GetValidInternalNodeId(Built(s, nodes, next), s) == Groups.Allocation(next, Built(s, nodes, next + 1))
  {
    var gr := Built(s, nodes, next);
    BuiltView(s, nodes, next);
    Stages.ValidIdAtMost(gr.graphs, s, next);
    var a := Groups.GetValidInternalNodeId(gr, s);
    assert Groups.Counter(gr, s) == next;
    assert a.id == next;
    assert a.group.nextIds == map[s := next + 1];
  }

  /** Adding under a fresh id extends the stage's node map by it. */
  lemma AddOnBuilt(s: int, nodes: map<int, Entry>, next: int, n: Node, pos: Vector2, id: int)
    requires ValidStage(s) && id !in nodes
    ensures Groups.AddInternalNode(Built(s, nodes, next), s, n, pos, id) == Built(s, nodes[id := Entry(n, pos)], next)
  {
    var gr := Built(s, nodes, next);
    assert Stages.GraphOf(gr.graphs, s) == SubGraph(nodes, []);
    assert gr.graphs.graphs[s := SubGraph(nodes[id := Entry(n, pos)], [])] == map[s := SubGraph(nodes[id := Entry(n, pos)], [])];
  }

  /** When every id of the stage is below the counter, allocating and
      adding stores the node under the counter and moves it on by one. */
  lemma NextStep(s: int, nodes: map<int, Entry>, next: int, n: Node, pos: Vector2)
    requires ValidStage(s) && next >= FIRST_FREE_ID
    requires Below(nodes, next)
    ensures AllocateAndAdd(Built(s, nodes, next), s, n, pos)
         == Groups.Allocation(next, Built(s, nodes[next := Entry(n, pos)], next + 1))
    ensures Below(nodes[next := Entry(n, pos)], next + 1)
  {
    AllocateOnBuilt(s, nodes, next);
    AddOnBuilt(s, nodes, next + 1, n, pos, next);
  }

  /** Input, then configured Output, in a fresh group's fragment stage. */
  function InterfaceGroup(inputName: string, inputPos: Vector2, outputPos: Vector2): GroupNode {
    var a := AllocateAndAdd(Groups.NewGroup(), TYPE_FRAGMENT, Input(inputName), inputPos);
    AllocateAndAdd(a.group, TYPE_FRAGMENT, Editor.ConfiguredOutput, outputPos).group
  }

  /** The interface group in closed form. */
  lemma InterfaceGroupBuilt(inputName: string, inputPos: Vector2, outputPos: Vector2)
    ensures InterfaceGroup(inputName, inputPos, outputPos)
         == Built(TYPE_FRAGMENT, map[2 := Entry(Input(inputName), inputPos), 3 := Entry(Editor.ConfiguredOutput, outputPos)], 4)
    ensures Below(map[2 := Entry(Input(inputName), inputPos), 3 := Entry(Editor.ConfiguredOutput, outputPos)], 4)
  {
    FirstStep(TYPE_FRAGMENT, Input(inputName), inputPos);
    NextStep(TYPE_FRAGMENT, map[2 := Entry(Input(inputName), inputPos)], 3, Editor.ConfiguredOutput, outputPos);
  }

  /** The interface nodes land at ids 2 and 3, both are listed and both come
      back as the kinds that were added, at their positions. */
  lemma InterfaceNodesScenario(inputName: string, inputPos: Vector2, outputPos: Vector2)
    ensures
      var g := InterfaceGroup(inputName, inputPos, outputPos);
      && Groups.GetInternalNodeList(g, TYPE_FRAGMENT) == [2, 3]
      && Groups.GetInternalNode(g, TYPE_FRAGMENT, 2) == Some(Input(inputName))
      && Groups.GetInternalNode(g, TYPE_FRAGMENT, 3) == Some(Editor.ConfiguredOutput)
      && IsInterfaceNode(Input(inputName)) && IsInterfaceNode(Editor.ConfiguredOutput)
      && InputPortCount(Editor.ConfiguredOutput) > 0
      && Groups.GetInternalNodePosition(g, TYPE_FRAGMENT, 2) == inputPos
      && Groups.GetInternalNodePosition(g, TYPE_FRAGMENT, 3) == outputPos
  {
    var nodes := map[2 := Entry(Input(inputName), inputPos), 3 := Entry(Editor.ConfiguredOutput, outputPos)];
    var g := InterfaceGroup(inputName, inputPos, outputPos);
    assert Stages.GraphOf(g.graphs, TYPE_FRAGMENT) == SubGraph(nodes, []) by {
      InterfaceGroupBuilt(inputName, inputPos, outputPos);
      BuiltView(TYPE_FRAGMENT, nodes, 4);
    }
    assert nodes.Keys == {2, 3};
    TwoElementList(Groups.GetInternalNodeList(g, TYPE_FRAGMENT), 2, 3);
    ConfiguredOutputHasInputs();
  }

  /** A strictly increasing two-element list of `x < y` is `[x, y]`. */
  lemma TwoElementList(r: seq<int>, x: int, y: int)
    requires x < y && |r| == 2 && x in r && y in r
    requires StrictlyIncreasing(r)
    ensures r == [x, y]
  {
  }

  const InputEntry: Entry := Entry(Input(Editor.DEFAULT_INPUT_NAME), Vector2(-200.0, 0.0))
  const OutputEntry: Entry := Entry(Editor.ConfiguredOutput, Vector2(200.0, 0.0))

  /** Input, Output, a colour constant and a vector operation, added in
      that order with allocated ids: four distinct ids are listed. */
  lemma FourNodesScenario(c: Color)
    ensures
      var g0 := InterfaceGroup(Editor.DEFAULT_INPUT_NAME, Vector2(-200.0, 0.0), Vector2(200.0, 0.0));
      var a := AllocateAndAdd(g0, TYPE_FRAGMENT, ColorConstant(c), Vector2(0.0, 0.0));
      var b := AllocateAndAdd(a.group, TYPE_FRAGMENT, VectorOp(VECTOR_OP_ADD, VECTOR_OP_TYPE_VECTOR_3D), Vector2(100.0, 50.0));
      var ids := Groups.GetInternalNodeList(b.group, TYPE_FRAGMENT);
      && a.id == 4 && b.id == 5
      && |ids| == 4
      && (forall i, j :: 0 <= i < |ids| && 0 <= j < |ids| && ids[i] == ids[j] ==> i == j)
  {
    FourNodesBuilt(c);
    FourNodesCount(c);
    BuiltListDistinct(TYPE_FRAGMENT, map[2 := InputEntry, 3 := OutputEntry][4 := ColorEntry(c)][5 := AddAtEntry], 6);
  }

  /** The four-node map has four entries: its ids are distinct. */
  lemma FourNodesCount(c: Color)
    ensures |map[2 := InputEntry, 3 := OutputEntry][4 := ColorEntry(c)][5 := AddAtEntry]| == 4
  {
    assert map[2 := InputEntry, 3 := OutputEntry] == map[2 := InputEntry][3 := OutputEntry];
  }

  /** A built stage lists one distinct id per node. */
  lemma BuiltListDistinct(s: int, nodes: map<int, Entry>, next: int)
    requires ValidStage(s)
    ensures
      var ids := Groups.GetInternalNodeList(Built(s, nodes, next), s);
      && |ids| == |nodes|
      && (forall i, j :: 0 <= i < |ids| && 0 <= j < |ids| && ids[i] == ids[j] ==> i == j)
  {
    BuiltView(s, nodes, next);
    StrictlyIncreasingHasNoDuplicates(Groups.GetInternalNodeList(Built(s, nodes, next), s));
  }

  /** A colour constant at the origin, as the connection test places it. */
  function ColorEntry(c: Color): Entry {
    Entry(ColorConstant(c), Vector2(0.0, 0.0))
  }

  const AddAtEntry: Entry := Entry(VectorOp(VECTOR_OP_ADD, VECTOR_OP_TYPE_VECTOR_3D), Vector2(100.0, 50.0))

  /** The four-node group in closed form. */
  lemma FourNodesBuilt(c: Color)
    ensures
      var g0 := InterfaceGroup(Editor.DEFAULT_INPUT_NAME, Vector2(-200.0, 0.0), Vector2(200.0, 0.0));
      var a := AllocateAndAdd(g0, TYPE_FRAGMENT, ColorConstant(c), Vector2(0.0, 0.0));
      var b := AllocateAndAdd(a.group, TYPE_FRAGMENT, VectorOp(VECTOR_OP_ADD, VECTOR_OP_TYPE_VECTOR_3D), Vector2(100.0, 50.0));
      && a.id == 4
      && b == Groups.Allocation(5, Built(TYPE_FRAGMENT, map[2 := InputEntry, 3 := OutputEntry][4 := ColorEntry(c)][5 := AddAtEntry], 6))
  {
    var m2 := map[2 := InputEntry, 3 := OutputEntry];
    InterfaceGroupBuilt(Editor.DEFAULT_INPUT_NAME, Vector2(-200.0, 0.0), Vector2(200.0, 0.0));
    NextStep(TYPE_FRAGMENT, m2, 4, ColorConstant(c), Vector2(0.0, 0.0));
    NextStep(TYPE_FRAGMENT, m2[4 := ColorEntry(c)], 5, AddAtEntry.node, AddAtEntry.position);
  }

  /** With Input (2), Output (3) and a colour constant (4) in the group, the
      colour's output 0 may feed the Output's input 0, and connecting them
      leaves exactly that one connection. */
  lemma InternalConnectScenario(c: Color)
    ensures
      var g0 := InterfaceGroup(Editor.DEFAULT_INPUT_NAME, Vector2(-200.0, 0.0), Vector2(200.0, 0.0));
      var a := AllocateAndAdd(g0, TYPE_FRAGMENT, ColorConstant(c), Vector2(0.0, 0.0));
      var edge := Connection(a.id, 0, 3, 0);
      && a.id == 4
      && Groups.CanConnectInternalNodes(a.group, TYPE_FRAGMENT, edge)
      && Groups.GetInternalNodeConnections(Groups.ConnectInternalNodes(a.group, TYPE_FRAGMENT, edge), TYPE_FRAGMENT)
         == [Connection(4, 0, 3, 0)]
  {
    var g0 := InterfaceGroup(Editor.DEFAULT_INPUT_NAME, Vector2(-200.0, 0.0), Vector2(200.0, 0.0));
    var m2 := map[2 := InputEntry, 3 := OutputEntry];
    InterfaceGroupBuilt(Editor.DEFAULT_INPUT_NAME, Vector2(-200.0, 0.0), Vector2(200.0, 0.0));
    assert g0 == Built(TYPE_FRAGMENT, m2, 4);
    var e3 := Entry(ColorConstant(c), Vector2(0.0, 0.0));
    NextStep(TYPE_FRAGMENT, m2, 4, e3.node, e3.position);
    var a := AllocateAndAdd(g0, TYPE_FRAGMENT, e3.node, e3.position);
    assert a == Groups.Allocation(4, Built(TYPE_FRAGMENT, m2[4 := e3], 5));
    var edge := Connection(4, 0, 3, 0);
    var sub := Stages.GraphOf(a.group.graphs, TYPE_FRAGMENT);
    assert sub == SubGraph(m2[4 := e3], []);
    ColorFeedsOutput(sub, 4, 3, c);
  }

  /** In a sub-graph with no connection yet, a colour constant's output 0
      may feed a configured Output's input 0, and connecting them leaves
      exactly that edge. */
  lemma ColorFeedsOutput(sub: SubGraph, cid: int, oid: int, c: Color)
    requires sub.connections == []
    requires cid in sub.nodes && oid in sub.nodes && cid != oid
    requires sub.nodes[cid].node == ColorConstant(c) && sub.nodes[oid].node == Editor.ConfiguredOutput
    ensures SubGraphs.CanConnect(sub, Connection(cid, 0, oid, 0))
    ensures SubGraphs.Connect(sub, Connection(cid, 0, oid, 0)).connections == [Connection(cid, 0, oid, 0)]
  {
    ConfiguredOutputHasInputs();
  }

  /** A second add_internal_node at the taken id 5 is refused: the list is
      still `[5]` and id 5 still holds the first node. */
  lemma DuplicateInternalIdScenario(c1: Color, c2: Color)
    ensures
      var g1 := Groups.AddInternalNode(Groups.NewGroup(), TYPE_FRAGMENT, ColorConstant(c1), Vector2(0.0, 0.0), 5);
      var g2 := Groups.AddInternalNode(g1, TYPE_FRAGMENT, ColorConstant(c2), Vector2(100.0, 0.0), 5);
      && Groups.GetInternalNodeList(g2, TYPE_FRAGMENT) == [5]
      && Groups.GetInternalNode(g2, TYPE_FRAGMENT, 5) == Some(ColorConstant(c1))
  {
    var g1 := Groups.AddInternalNode(Groups.NewGroup(), TYPE_FRAGMENT, ColorConstant(c1), Vector2(0.0, 0.0), 5);
    assert Stages.GraphOf(g1.graphs, TYPE_FRAGMENT).nodes.Keys == {5};
    Shader.SingletonList(Groups.GetInternalNodeList(g1, TYPE_FRAGMENT), 5);
  }

  /** A fresh shader set to canvas-item mode lists only the built-in Output
      in its fragment stage; a group added there under the allocated id 2
      is listed next to it and is returned by get_node as the very group
      that was added. */
  lemma GroupInShaderScenario(gr: GroupNode)
    ensures
      var vs := Shader.SetMode(Shader.New(), MODE_CANVAS_ITEM);
      var gid := Stages.GetValidNodeId(vs.graph, TYPE_FRAGMENT);
      var vs2 := Shader.AddNode(vs, TYPE_FRAGMENT, Group(gr), Vector2(100.0, 100.0), gid);
      && Shader.GetMode(vs) == MODE_CANVAS_ITEM
      && Stages.GetNodeList(vs.graph, TYPE_FRAGMENT) == [NODE_ID_OUTPUT]
      && gid == 2
      && |Stages.GetNodeList(vs2.graph, TYPE_FRAGMENT)| == 2
      && gid in Stages.GetNodeList(vs2.graph, TYPE_FRAGMENT)
      && Stages.GetNode(vs2.graph, TYPE_FRAGMENT, gid) == Some(Group(gr))
  {
    var vs := Shader.SetMode(Shader.New(), MODE_CANVAS_ITEM);
    Shader.FreshShaderNodeLists(TYPE_FRAGMENT);
    var gid := Stages.GetValidNodeId(vs.graph, TYPE_FRAGMENT);
    assert Stages.GraphOf(vs.graph, TYPE_FRAGMENT).nodes.Keys == {NODE_ID_OUTPUT};
    Stages.AddThenGet(vs.graph, TYPE_FRAGMENT, Group(gr), Vector2(100.0, 100.0), gid);
  }

  /** A canvas-item shader holding a group under id 2 of its fragment
      stage, next to the built-in Output; its allocator then answers 3. */
  lemma ShaderWithGroup(gr: GroupNode)
    ensures
      var vs := Shader.SetMode(Shader.New(), MODE_CANVAS_ITEM);
      var vs2 := Shader.AddNode(vs, TYPE_FRAGMENT, Group(gr), Vector2(100.0, 100.0), 2);
      && Stages.GraphOf(vs2.graph, TYPE_FRAGMENT).nodes
         == Shader.BuiltInGraph(TYPE_FRAGMENT).nodes[2 := Entry(Group(gr), Vector2(100.0, 100.0))]
      && Stages.GetValidNodeId(vs2.graph, TYPE_FRAGMENT) == 3
  {
    var vs := Shader.SetMode(Shader.New(), MODE_CANVAS_ITEM);
    CanvasFragment();
    GroupBesideOutput(vs.graph, gr);
  }

  /** The fragment stage of a fresh shader set to canvas-item mode holds
      the built-in Output only. */
  lemma CanvasFragment()
    ensures Stages.GraphOf(Shader.SetMode(Shader.New(), MODE_CANVAS_ITEM).graph, TYPE_FRAGMENT)
         == Shader.BuiltInGraph(TYPE_FRAGMENT)
  {
    assert Shader.SetMode(Shader.New(), MODE_CANVAS_ITEM).graph == Shader.New().graph;
  }

  /** Adding a group under 2 beside the built-in Output leaves ids 0 and 2,
      so the allocator answers 3. */
  lemma GroupBesideOutput(sg: StageGraphs, gr: GroupNode)
    requires Stages.GraphOf(sg, TYPE_FRAGMENT) == Shader.BuiltInGraph(TYPE_FRAGMENT)
    ensures
      var sg2 := Stages.AddNode(sg, TYPE_FRAGMENT, Group(gr), Vector2(100.0, 100.0), 2);
      && Stages.GraphOf(sg2, TYPE_FRAGMENT).nodes
         == Shader.BuiltInGraph(TYPE_FRAGMENT).nodes[2 := Entry(Group(gr), Vector2(100.0, 100.0))]
      && Stages.GetValidNodeId(sg2, TYPE_FRAGMENT) == 3
  {
    var sg2 := Stages.AddNode(sg, TYPE_FRAGMENT, Group(gr), Vector2(100.0, 100.0), 2);
    var nodes := Stages.GraphOf(sg2, TYPE_FRAGMENT).nodes;
    assert nodes.Keys == {NODE_ID_OUTPUT, 2};
    Stages.ValidIdFollowsGreatest(sg2, TYPE_FRAGMENT, 2);
  }

  /** The router with a float constant 1.0 under id 3 of the shader and a
      float constant 2.0 under id 2 of the group: main mode reads 1.0 (and
      the group node itself under 2), group mode reads 2.0. */
  lemma RouterScenario(gr: GroupNode)
    ensures
      var vs := Shader.SetMode(Shader.New(), MODE_CANVAS_ITEM);
      var vs2 := Shader.AddNode(vs, TYPE_FRAGMENT, Group(gr), Vector2(100.0, 100.0), 2);
      var mainId := Stages.GetValidNodeId(vs2.graph, TYPE_FRAGMENT);
      var vs3 := Shader.AddNode(vs2, TYPE_FRAGMENT, FloatConstant(1.0), Vector2(0.0, 0.0), mainId);
      var inner := AllocateAndAdd(Groups.NewGroup(), TYPE_FRAGMENT, FloatConstant(2.0), Vector2(0.0, 0.0));
      && mainId == 3 && inner.id == 2
      && Editor.GetNodeForEditing(vs3, TYPE_FRAGMENT, mainId, false, None, TYPE_MAX) == Some(FloatConstant(1.0))
      && Editor.GetNodeForEditing(vs3, TYPE_FRAGMENT, inner.id, true, Some(inner.group), TYPE_FRAGMENT) == Some(FloatConstant(2.0))
      && Editor.GetNodeForEditing(vs3, TYPE_FRAGMENT, inner.id, false, None, TYPE_MAX) == Some(Group(gr))
  {
    var vs := Shader.SetMode(Shader.New(), MODE_CANVAS_ITEM);
    var vs2 := Shader.AddNode(vs, TYPE_FRAGMENT, Group(gr), Vector2(100.0, 100.0), 2);
    ShaderWithGroup(gr);
    var nodes2 := Stages.GraphOf(vs2.graph, TYPE_FRAGMENT).nodes;
    assert 3 !in nodes2 && 2 in nodes2 && nodes2[2].node == Group(gr);
    var vs3 := Shader.AddNode(vs2, TYPE_FRAGMENT, FloatConstant(1.0), Vector2(0.0, 0.0), 3);
    var nodes3 := Stages.GraphOf(vs3.graph, TYPE_FRAGMENT).nodes;
    assert nodes3 == nodes2[3 := Entry(FloatConstant(1.0), Vector2(0.0, 0.0))];
    assert Stages.GetNode(vs3.graph, TYPE_FRAGMENT, 3) == Some(FloatConstant(1.0));
    assert Stages.GetNode(vs3.graph, TYPE_FRAGMENT, 2) == Some(Group(gr));
    FirstStep(TYPE_FRAGMENT, FloatConstant(2.0), Vector2(0.0, 0.0));
    var inner := Built(TYPE_FRAGMENT, map[2 := Entry(FloatConstant(2.0), Vector2(0.0, 0.0))], 3);
    assert Groups.GetInternalNode(inner, TYPE_FRAGMENT, 2) == Some(FloatConstant(2.0)) by {
      assert Stages.GraphOf(inner.graphs, TYPE_FRAGMENT).nodes == map[2 := Entry(FloatConstant(2.0), Vector2(0.0, 0.0))];
    }
  }

  const RedEntry: Entry := Entry(ColorConstant(Color(1.0, 0.0, 0.0, 1.0)), Vector2(-100.0, 0.0))
  const AddEntry: Entry := Entry(VectorOp(VECTOR_OP_ADD, VECTOR_OP_TYPE_VECTOR_3D), Vector2(0.0, 50.0))

  /** The group the reload test saves: Input, configured Output, a red
      colour constant and an addition, at ids 2 to 5. */
  function SavedGroup(): GroupNode {
    var g0 := InterfaceGroup(Editor.DEFAULT_INPUT_NAME, Vector2(-200.0, 0.0), Vector2(200.0, 0.0));
    var a := AllocateAndAdd(g0, TYPE_FRAGMENT, RedEntry.node, RedEntry.position);
    AllocateAndAdd(a.group, TYPE_FRAGMENT, AddEntry.node, AddEntry.position).group
  }

  /** The saved group's fragment nodes by id. */
  const SavedNodes: map<int, Entry> := map[2 := InputEntry, 3 := OutputEntry, 4 := RedEntry, 5 := AddEntry]

  /** The saved group in closed form. */
  lemma SavedGroupBuilt()
    ensures Stages.GraphOf(SavedGroup().graphs, TYPE_FRAGMENT) == SubGraph(SavedNodes, [])
  {
    var g0 := InterfaceGroup(Editor.DEFAULT_INPUT_NAME, Vector2(-200.0, 0.0), Vector2(200.0, 0.0));
    var m2 := map[2 := InputEntry, 3 := OutputEntry];
    InterfaceGroupBuilt(Editor.DEFAULT_INPUT_NAME, Vector2(-200.0, 0.0), Vector2(200.0, 0.0));
    assert g0 == Built(TYPE_FRAGMENT, m2, 4);
    NextStep(TYPE_FRAGMENT, m2, 4, RedEntry.node, RedEntry.position);
    var a := AllocateAndAdd(g0, TYPE_FRAGMENT, RedEntry.node, RedEntry.position);
    assert a == Groups.Allocation(4, Built(TYPE_FRAGMENT, m2[4 := RedEntry], 5));
    NextStep(TYPE_FRAGMENT, m2[4 := RedEntry], 5, AddEntry.node, AddEntry.position);
    assert m2[4 := RedEntry][5 := AddEntry] == SavedNodes;
    assert SavedGroup() == Built(TYPE_FRAGMENT, SavedNodes, 6);
  }

  /** Replaying the saved group (see `SavedGroupBuilt`) with the copy as
      written keeps the four ids, the red colour, the addition operator and
      a ported Output: the reload test's checks hold for this group even
      though the copy loses information in general. */
  lemma ReloadScenario()
    ensures
      var m := Editor.Replayed(SubGraph(SavedNodes, []), Editor.CopyNodeAsWritten, SavedNodes.Keys);
      && m.Keys == {2, 3, 4, 5}
      && |m| == 4
      && m[2].node.Input?
      && m[3].node.Output? && InputPortCount(m[3].node) > 0
      && m[4].node == RedEntry.node
      && m[5].node == AddEntry.node
  {
    var g := SubGraph(SavedNodes, []);
    SavedNodesShape();
    Editor.AsWrittenKeepsTestedKinds(g);
    var m := Editor.Replayed(g, Editor.CopyNodeAsWritten, g.nodes.Keys);
    assert |m| == |g.nodes| by {
      assert m.Keys == g.nodes.Keys;
    }
    assert m[3].node == Editor.ConfiguredOutput;
    ConfiguredOutputHasInputs();
  }

  /** The saved group's ids, their number, and that the copy as written
      accepts each of its nodes. */
  lemma SavedNodesShape()
    ensures SavedNodes.Keys == {2, 3, 4, 5}
    ensures |SavedNodes| == 4
    ensures forall k :: k in SavedNodes ==> Editor.CopyNodeAsWritten(SavedNodes[k].node).Some?
  {
    assert SavedNodes == map[2 := InputEntry][3 := OutputEntry][4 := RedEntry][5 := AddEntry];
  }
}
