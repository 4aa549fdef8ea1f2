/** The data model shared by a visual shader and by every group node inside
    it: node variants, the per-stage sub-graph, connections.

    A group node owns a complete stage-keyed graph of its own, so the node
    type and the graph type are mutually recursive and live together here.
 */
module Nodes {
  import opened ShaderEnums

  datatype Option<+T> = None | Some(value: T)

  /** Canvas position of a node; compared exactly (the tests' approximate
      float comparison becomes equality on reals). */
  datatype Vector2 = Vector2(x: real, y: real)

  datatype Color = Color(r: real, g: real, b: real, a: real)

  /** The node variants the tests create. An Output node gets its port
      layout from a shader mode and a stage that are set after construction;
      until both are set it has no input ports. */
  datatype Node =
    | Input(inputName: string)
    | Output(shaderMode: Option<int>, shaderType: Option<int>)
    | ColorConstant(color: Color)
    | FloatConstant(constant: real)
    | VectorOp(op: int, opType: int)
    | Group(group: GroupNode)

  /** A group node: its own internal graph, keyed by stage exactly like the
      shader's, plus the per-stage counter its id allocator keeps. */
  datatype GroupNode = GroupNode(graphs: StageGraphs, nextIds: map<int, int>)

  /** One sub-graph per stage; a stage that was never written to is empty. */
  datatype StageGraphs = StageGraphs(graphs: map<int, SubGraph>)

  /** The nodes of one stage by id, each with its position, and the
      connection list in insertion order. */
  datatype SubGraph = SubGraph(nodes: map<int, Entry>, connections: seq<Connection>)

  datatype Entry = Entry(node: Node, position: Vector2)

  /** A directed edge from an output port of one node to an input port of
      another, inside one sub-graph. */
  datatype Connection = Connection(fromNode: int, fromPort: int, toNode: int, toPort: int)

  const EmptyGraph: SubGraph := SubGraph(map[], [])

  const NoStages: StageGraphs := StageGraphs(map[])

  /** Input ports a configured Output node offers. The real count depends on
      the mode and stage through a table of the engine's that is not part of
      this model; the tests only rely on it being positive. */
  const CONFIGURED_OUTPUT_PORTS: nat := 1

  /** Number of input ports of a node. Only an Output node whose mode and
      stage have both been set, and a vector operation, accept inputs. */
  function InputPortCount(n: Node): (r: nat)
    ensures n.Output? ==> (r > 0 <==> n.shaderMode.Some? && n.shaderType.Some?)
    ensures n.VectorOp? ==> r == 2
    ensures n.Input? || n.ColorConstant? || n.FloatConstant? || n.Group? ==> r == 0
  {
    match n
    case Output(m, t) => if m.Some? && t.Some? then CONFIGURED_OUTPUT_PORTS else 0
    case VectorOp(_, _) => 2
    case _ => 0
  }

  /** Number of output ports of a node: one for every value producer, none
      for an Output node. The ports of a group come from an interface that
      is not part of this model, so a group exposes none. */
  function OutputPortCount(n: Node): (r: nat)
    ensures r > 0 <==> !(n.Output? || n.Group?)
  {
    match n
    case Output(_, _) => 0
    case Group(_) => 0
    case _ => 1
  }

  /** The variant tag a test recovers by casting a retrieved node. */
  datatype Kind = InputKind | OutputKind | ColorConstantKind | FloatConstantKind | VectorOpKind | GroupKind

  function KindOf(n: Node): Kind {
    match n
    case Input(_) => InputKind
    case Output(_, _) => OutputKind
    case ColorConstant(_) => ColorConstantKind
    case FloatConstant(_) => FloatConstantKind
    case VectorOp(_, _) => VectorOpKind
    case Group(_) => GroupKind
  }

  /** A group's interface nodes are recognised by variant, not by id. */
  predicate IsInterfaceNode(n: Node) {
    n.Input? || n.Output?
  }
}
