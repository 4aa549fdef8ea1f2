/** The top-level visual shader: its mode, its stage-keyed graph and its
    registry of varyings. The node operations are those of `Stages`,
    applied to the shader's own graph.
 */
module Shader {
  import opened ShaderEnums
  import opened SortedIds
  import opened Nodes
  import Stages

  datatype Varying = Varying(mode: int, varyingType: int)

  datatype VisualShader = VisualShader(mode: int, graph: StageGraphs, varyings: map<string, Varying>)

  /** Where a fresh shader places its built-in Output nodes; the engine's
      constructor that chooses it is not part of this model and no property
      depends on the value. */
  const OUTPUT_DEFAULT_POSITION: Vector2 := Vector2(400.0, 150.0)

  /** The sub-graph a fresh shader starts with in stage `s`: the built-in
      Output node at id 0, configured for the default mode and for `s`. */
  function BuiltInGraph(s: int): SubGraph {
    SubGraph(map[NODE_ID_OUTPUT := Entry(Output(Some(MODE_SPATIAL), Some(s)), OUTPUT_DEFAULT_POSITION)], [])
  }

  /** A freshly constructed shader: spatial mode, no varyings, and in every
      stage exactly the built-in Output node at id 0. */
  function New(): (vs: VisualShader)
    ensures vs.mode == MODE_SPATIAL
    ensures vs.varyings == map[]
    ensures forall s :: ValidStage(s) ==> Stages.GraphOf(vs.graph, s).nodes.Keys == {NODE_ID_OUTPUT}
    ensures forall s :: ValidStage(s) ==> Stages.GraphOf(vs.graph, s).connections == []
    ensures forall s :: ValidStage(s) ==>
      Stages.GetNode(vs.graph, s, NODE_ID_OUTPUT) == Some(Output(Some(MODE_SPATIAL), Some(s)))
    ensures Stages.WellFormed(vs.graph)
  {
    VisualShader(MODE_SPATIAL, StageGraphs(map s | 0 <= s < TYPE_MAX :: BuiltInGraph(s)), map[])
  }

  function GetMode(vs: VisualShader): int {
    vs.mode
  }

  /** set_mode: a value outside the Mode enumeration is refused. */
  function SetMode(vs: VisualShader, m: int): (r: VisualShader)
    ensures ValidMode(m) ==> r.mode == m
    ensures !ValidMode(m) ==> r == vs
    ensures r.graph == vs.graph && r.varyings == vs.varyings
  {
    if ValidMode(m) then vs.(mode := m) else vs
  }

  predicate HasVarying(vs: VisualShader, name: string) {
    name in vs.varyings
  }

  /** add_varying: refused when the mode or the type is outside its
      enumeration, or the name is already registered. */
  function AddVarying(vs: VisualShader, name: string, mode: int, varyingType: int): (r: VisualShader)
    ensures HasVarying(r, name) <==>
      HasVarying(vs, name) || (0 <= mode < VARYING_MODE_MAX && 0 <= varyingType < VARYING_TYPE_MAX)
    ensures forall n :: n != name ==> (HasVarying(r, n) <==> HasVarying(vs, n))
    ensures forall n :: n != name && HasVarying(vs, n) ==> n in r.varyings && r.varyings[n] == vs.varyings[n]
    ensures !HasVarying(vs, name) && HasVarying(r, name) ==> r.varyings[name] == Varying(mode, varyingType)
    ensures HasVarying(vs, name) ==> r == vs
    ensures r.mode == vs.mode && r.graph == vs.graph
  {
    if 0 <= mode < VARYING_MODE_MAX && 0 <= varyingType < VARYING_TYPE_MAX && name !in vs.varyings then
      vs.(varyings := vs.varyings[name := Varying(mode, varyingType)])
    else vs
  }

  // The shader's mutating node API: the stage-keyed operations on its graph.

  function AddNode(vs: VisualShader, s: int, node: Node, pos: Vector2, id: int): VisualShader {
    vs.(graph := Stages.AddNode(vs.graph, s, node, pos, id))
  }

  function RemoveNode(vs: VisualShader, s: int, id: int): VisualShader {
    vs.(graph := Stages.RemoveNode(vs.graph, s, id))
  }

  function SetNodePosition(vs: VisualShader, s: int, id: int, pos: Vector2): VisualShader {
    vs.(graph := Stages.SetNodePosition(vs.graph, s, id, pos))
  }

  function ConnectNodes(vs: VisualShader, s: int, c: Connection): VisualShader {
    vs.(graph := Stages.ConnectNodes(vs.graph, s, c))
  }

  /** A one-element strictly increasing list holding `x` is `[x]`. */
  lemma SingletonList(r: seq<int>, x: int)
    requires |r| == 1 && x in r
    ensures r == [x]
  {
  }

  /** Every stage of a fresh shader lists exactly the built-in Output id. */
  lemma FreshShaderNodeLists(s: int)
    requires ValidStage(s)
    ensures Stages.GetNodeList(New().graph, s) == [NODE_ID_OUTPUT]
  {
    var g := Stages.GraphOf(New().graph, s);
    assert g.nodes.Keys == {NODE_ID_OUTPUT};
    assert |g.nodes| == |g.nodes.Keys| == 1;
    SingletonList(Stages.GetNodeList(New().graph, s), NODE_ID_OUTPUT);
  }

  /** The default mode is spatial, and every value of the Mode enumeration
      set is read back; any other value leaves the mode as it was. */
  lemma ModeRoundTrip(vs: VisualShader, m: int)
    ensures GetMode(New()) == MODE_SPATIAL
    ensures ValidMode(m) ==> GetMode(SetMode(vs, m)) == m
    ensures !ValidMode(m) ==> GetMode(SetMode(vs, m)) == GetMode(vs)
  {
  }

  /** In every stage of a fresh shader, a node added at id `i + 2` is what
      get_node returns there. */
  lemma AddNodePerStage(i: int, node: Node, pos: Vector2)
    requires ValidStage(i)
    ensures Stages.GetNode(AddNode(New(), i, node, pos, i + 2).graph, i, i + 2) == Some(node)
  {
    Stages.AddThenGet(New().graph, i, node, pos, i + 2);
  }

  /** add_node into stage TYPE_MAX (or beyond) changes no stage at all. */
  lemma InvalidStageAddChangesNothing(vs: VisualShader, node: Node, pos: Vector2, id: int, s: int)
    requires s >= TYPE_MAX
    ensures AddNode(vs, s, node, pos, id) == vs
    ensures Stages.GetNode(AddNode(vs, s, node, pos, id).graph, TYPE_SKY, 7) == Stages.GetNode(vs.graph, TYPE_SKY, 7)
  {
  }

  /** In a fresh shader, id 0 of every stage is the built-in Output's, so
      add_node there is refused and get_node still returns that Output. */
  lemma BuiltInIdTaken(s: int, node: Node, pos: Vector2)
    requires ValidStage(s)
    ensures AddNode(New(), s, node, pos, NODE_ID_OUTPUT) == New()
    ensures Stages.GetNode(AddNode(New(), s, node, pos, NODE_ID_OUTPUT).graph, s, NODE_ID_OUTPUT)
         == Some(Output(Some(MODE_SPATIAL), Some(s)))
  {
    assert NODE_ID_OUTPUT in Stages.GraphOf(New().graph, s).nodes;
  }

  /** After adding id `i + 2` to stage `i` of a fresh shader, the allocator
      of that stage answers `i + 3`: one past the greatest id. */
  lemma ValidIdAfterAdd(i: int, node: Node, pos: Vector2)
    requires ValidStage(i)
    ensures Stages.GetValidNodeId(AddNode(New(), i, node, pos, i + 2).graph, i) == i + 3
  {
    assert Stages.GraphOf(New().graph, i) == BuiltInGraph(i);
    ValidIdBesideBuiltIn(New().graph, i, node, pos);
  }

  /** The step of `ValidIdAfterAdd` on any stage holding just the built-in
      Output. */
  lemma ValidIdBesideBuiltIn(sg: StageGraphs, i: int, node: Node, pos: Vector2)
    requires ValidStage(i)
    requires Stages.GraphOf(sg, i) == BuiltInGraph(i)
    ensures Stages.GetValidNodeId(Stages.AddNode(sg, i, node, pos, i + 2), i) == i + 3
  {
    var sg2 := Stages.AddNode(sg, i, node, pos, i + 2);
    assert Stages.GraphOf(sg2, i).nodes.Keys == {NODE_ID_OUTPUT, i + 2};
    Stages.ValidIdFollowsGreatest(sg2, i, i + 2);
  }

  /** remove_node makes get_node return nothing at the removed id. */
  lemma RemoveAfterAdd(i: int, node: Node, pos: Vector2)
    requires ValidStage(i)
    ensures Stages.GetNode(AddNode(New(), i, node, pos, i + 2).graph, i, i + 2) == Some(node)
    ensures Stages.GetNode(RemoveNode(AddNode(New(), i, node, pos, i + 2), i, i + 2).graph, i, i + 2) == None
  {
    Stages.AddThenGet(New().graph, i, node, pos, i + 2);
  }

  /** Positions round-trip per stage, and a stage's positions are not
      affected by edits to another stage (COLLIDE id 3, then FOG id 4). */
  lemma PositionsPerStage(n1: Node, n2: Node)
    ensures
      var a := AddNode(New(), TYPE_COLLIDE, n1, Vector2(0.0, 0.0), 3);
      var b := SetNodePosition(a, TYPE_COLLIDE, 3, Vector2(1.0, 1.0));
      var c := AddNode(b, TYPE_FOG, n2, Vector2(1.0, 2.0), 4);
      var d := SetNodePosition(c, TYPE_FOG, 4, Vector2(2.0, 2.0));
      && Stages.GetNodePosition(a.graph, TYPE_COLLIDE, 3) == Vector2(0.0, 0.0)
      && Stages.GetNodePosition(b.graph, TYPE_COLLIDE, 3) == Vector2(1.0, 1.0)
      && Stages.GetNodePosition(c.graph, TYPE_FOG, 4) == Vector2(1.0, 2.0)
      && Stages.GetNodePosition(d.graph, TYPE_FOG, 4) == Vector2(2.0, 2.0)
      && Stages.GetNodePosition(d.graph, TYPE_COLLIDE, 3) == Vector2(1.0, 1.0)
  {
    var vs := New();
    assert 3 !in Stages.GraphOf(vs.graph, TYPE_COLLIDE).nodes;
    assert 4 !in Stages.GraphOf(vs.graph, TYPE_FOG).nodes;
    PositionsInTwoStages(vs.graph, n1, n2);
  }

  /** The position steps of `PositionsPerStage` on any stage-keyed graph
      where ids 3 (collide) and 4 (fog) are free. */
  lemma PositionsInTwoStages(sg: StageGraphs, n1: Node, n2: Node)
    requires 3 !in Stages.GraphOf(sg, TYPE_COLLIDE).nodes && 4 !in Stages.GraphOf(sg, TYPE_FOG).nodes
    ensures
      var a := Stages.AddNode(sg, TYPE_COLLIDE, n1, Vector2(0.0, 0.0), 3);
      var b := Stages.SetNodePosition(a, TYPE_COLLIDE, 3, Vector2(1.0, 1.0));
      var c := Stages.AddNode(b, TYPE_FOG, n2, Vector2(1.0, 2.0), 4);
      var d := Stages.SetNodePosition(c, TYPE_FOG, 4, Vector2(2.0, 2.0));
      && Stages.GetNodePosition(a, TYPE_COLLIDE, 3) == Vector2(0.0, 0.0)
      && Stages.GetNodePosition(b, TYPE_COLLIDE, 3) == Vector2(1.0, 1.0)
      && Stages.GetNodePosition(c, TYPE_FOG, 4) == Vector2(1.0, 2.0)
      && Stages.GetNodePosition(d, TYPE_FOG, 4) == Vector2(2.0, 2.0)
      && Stages.GetNodePosition(d, TYPE_COLLIDE, 3) == Vector2(1.0, 1.0)
  {
    Stages.PositionRoundTrip(sg, TYPE_COLLIDE, n1, Vector2(0.0, 0.0), 3, Vector2(1.0, 1.0), 0);
    var b := Stages.SetNodePosition(Stages.AddNode(sg, TYPE_COLLIDE, n1, Vector2(0.0, 0.0), 3), TYPE_COLLIDE, 3, Vector2(1.0, 1.0));
    assert Stages.GraphOf(b, TYPE_FOG) == Stages.GraphOf(sg, TYPE_FOG);
    Stages.PositionRoundTrip(b, TYPE_FOG, n2, Vector2(1.0, 2.0), 4, Vector2(2.0, 2.0), 0);
    var d := Stages.SetNodePosition(Stages.AddNode(b, TYPE_FOG, n2, Vector2(1.0, 2.0), 4), TYPE_FOG, 4, Vector2(2.0, 2.0));
    assert Stages.GraphOf(d, TYPE_COLLIDE) == Stages.GraphOf(b, TYPE_COLLIDE);
  }

  /** The varying registry: valid entries are registered, an unknown name
      is absent, and a mode or type equal to its MAX sentinel is refused. */
  lemma VaryingsScenario()
    ensures
      var v1 := AddVarying(New(), "Test1", VARYING_MODE_FRAG_TO_LIGHT, VARYING_TYPE_TRANSFORM);
      var v2 := AddVarying(v1, "Test2", VARYING_MODE_VERTEX_TO_FRAG_LIGHT, VARYING_TYPE_VECTOR_2D);
      var v3 := AddVarying(v2, "Test3", VARYING_MODE_MAX, VARYING_TYPE_INT);
      var v4 := AddVarying(v3, "Test4", VARYING_MODE_FRAG_TO_LIGHT, VARYING_TYPE_MAX);
      && HasVarying(v1, "Test1")
      && HasVarying(v2, "Test2")
      && !HasVarying(v2, "Does_not_exits")
      && !HasVarying(v3, "Test3")
      && !HasVarying(v4, "Test4")
  {
  }
}
