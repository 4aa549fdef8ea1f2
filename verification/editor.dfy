/** The small pieces of editor logic the group-editing tests write out
    themselves: the group-aware lookup used while a group is open, the
    record of which group is open, and the save/reload replay that rebuilds
    a group by re-adding its internal nodes one by one.
 */
module Editor {
  import opened ShaderEnums
  import opened SortedIds
  import opened Nodes
  import Stages
  import Groups
  import Shader

  // ---------------------------------------------------------------------
  // Group-aware lookup

  /** The lookup reads the open group's internal graph exactly when group
      editing is on, a group is held, and the requested stage is the
      group's stage. */
  predicate RoutesToGroup(editing: bool, current: Option<GroupNode>, currentType: int, s: int) {
    editing && current.Some? && s == currentType
  }

  /** get_node_for_editing(type, id): the node under `id` in whichever id
      space the lookup is routed to. */
  function GetNodeForEditing(vs: Shader.VisualShader, s: int, id: int,
                             editing: bool, current: Option<GroupNode>, currentType: int): (r: Option<Node>)
    ensures RoutesToGroup(editing, current, currentType, s) ==>
      (r.Some? <==> ValidStage(s) && id in Stages.GraphOf(current.value.graphs, s).nodes)
    ensures !RoutesToGroup(editing, current, currentType, s) ==>
      (r.Some? <==> ValidStage(s) && id in Stages.GraphOf(vs.graph, s).nodes)
    ensures RoutesToGroup(editing, current, currentType, s) && r.Some? ==>
      r.value == Stages.GraphOf(current.value.graphs, s).nodes[id].node
    ensures !RoutesToGroup(editing, current, currentType, s) && r.Some? ==>
      r.value == Stages.GraphOf(vs.graph, s).nodes[id].node
  {
    if RoutesToGroup(editing, current, currentType, s) then Groups.GetInternalNode(current.value, s, id)
    else Stages.GetNode(vs.graph, s, id)
  }

  /** While routed to the group, the answer does not depend on the shader;
      otherwise it does not depend on the group. */
  lemma RouterIgnoresOtherSpace(vs1: Shader.VisualShader, vs2: Shader.VisualShader, s: int, id: int,
                                editing: bool, g1: GroupNode, g2: GroupNode, currentType: int)
    ensures RoutesToGroup(editing, Some(g1), currentType, s) ==>
      GetNodeForEditing(vs1, s, id, editing, Some(g1), currentType)
      == GetNodeForEditing(vs2, s, id, editing, Some(g1), currentType)
    ensures !RoutesToGroup(editing, Some(g1), currentType, s) ==>
      GetNodeForEditing(vs1, s, id, editing, Some(g1), currentType)
      == GetNodeForEditing(vs1, s, id, editing, Some(g2), currentType)
  {
  }

  /** The same id names two different nodes in the two spaces: the lookup
      returns the shader's node in main mode and the group's in group
      mode. */
  lemma SameIdStaysSeparate(vs: Shader.VisualShader, g: GroupNode, s: int, id: int, inMain: Node, inGroup: Node)
    requires Stages.GetNode(vs.graph, s, id) == Some(inMain)
    requires Groups.GetInternalNode(g, s, id) == Some(inGroup)
    ensures GetNodeForEditing(vs, s, id, false, None, TYPE_MAX) == Some(inMain)
    ensures GetNodeForEditing(vs, s, id, true, Some(g), s) == Some(inGroup)
    ensures forall t :: t != s ==> GetNodeForEditing(vs, s, id, true, Some(g), t) == Some(inMain)
  {
  }

  // ---------------------------------------------------------------------
  // Which group is open

  /** editing_group, current_group_node_id, current_group_type and
      current_group_node. */
  datatype GroupEditState = GroupEditState(
    editingGroup: bool,
    currentGroupNodeId: int,
    currentGroupType: int,
    currentGroupNode: Option<GroupNode>)

  /** The editor with no group open: the id and the stage are reset to -1
      and no group is held. */
  const Closed: GroupEditState := GroupEditState(false, -1, -1, None)

  /** Opening the group that sits under `id` in stage `s`. */
  function OpenGroup(id: int, s: int, g: GroupNode): (st: GroupEditState)
    ensures st.editingGroup && st.currentGroupNode.Some?
    ensures st.currentGroupNodeId == id && st.currentGroupType == s && st.currentGroupNode.value == g
  {
    GroupEditState(true, id, s, Some(g))
  }

  /** Closing whatever group is open. */
  function CloseGroup(st: GroupEditState): (r: GroupEditState)
    ensures !r.editingGroup && r.currentGroupNode.None?
    ensures r.currentGroupNodeId == -1 && r.currentGroupType == -1
  {
    Closed
  }

  /** The lookup as the editor performs it from its state. */
  function Lookup(vs: Shader.VisualShader, st: GroupEditState, s: int, id: int): Option<Node> {
    GetNodeForEditing(vs, s, id, st.editingGroup, st.currentGroupNode, st.currentGroupType)
  }

  /** With a group open, its stage reads the group and every other stage
      reads the shader; once closed, every stage reads the shader again. */
  lemma OpenCloseRouting(vs: Shader.VisualShader, g: GroupNode, gid: int, s: int, t: int, id: int)
    requires t != s
    ensures Lookup(vs, OpenGroup(gid, s, g), s, id) == Groups.GetInternalNode(g, s, id)
    ensures Lookup(vs, OpenGroup(gid, s, g), t, id) == Stages.GetNode(vs.graph, t, id)
    ensures Lookup(vs, CloseGroup(OpenGroup(gid, s, g)), s, id) == Stages.GetNode(vs.graph, s, id)
    ensures Lookup(vs, Closed, s, id) == Stages.GetNode(vs.graph, s, id)
  {
  }

  /** Closing forgets everything opening recorded, whatever was open. */
  lemma CloseForgetsGroup(st: GroupEditState, gid: int, s: int, g: GroupNode)
    ensures CloseGroup(OpenGroup(gid, s, g)) == CloseGroup(st) == Closed
  {
  }

  // ---------------------------------------------------------------------
  // Save and reload by replay

  /** The name a freshly constructed Input node carries. */
  const DEFAULT_INPUT_NAME: string := "[None]"

  /** The Output node the group tests configure and the reload re-creates:
      canvas-item mode, fragment stage, so it offers input ports. */
  const ConfiguredOutput: Node := Output(Some(MODE_CANVAS_ITEM), Some(TYPE_FRAGMENT))

  /** The copy the reload simulation makes of one node, as written: an
      Input comes back with its default name, an Output is reconfigured for
      the canvas-item fragment stage, a colour keeps its colour, a vector
      operation keeps its operand type but gets the default operator, and
      any other kind is not copied at all. */
  function CopyNodeAsWritten(n: Node): (r: Option<Node>)
    ensures r.Some? <==> n.Input? || n.Output? || n.ColorConstant? || n.VectorOp?
    ensures r.Some? ==> KindOf(r.value) == KindOf(n)
    ensures n.ColorConstant? ==> r == Some(n)
    ensures n.Output? ==> InputPortCount(r.value) > 0
    ensures n.VectorOp? ==> r.value.opType == n.opType
  {
    match n
    case Input(_) => Some(Input(DEFAULT_INPUT_NAME))
    case Output(_, _) => Some(ConfiguredOutput)
    case ColorConstant(c) => Some(ColorConstant(c))
    case VectorOp(_, t) => Some(VectorOp(VECTOR_OP_ADD, t))
    case _ => None
  }

  /** The copy a faithful save and reload makes: the node itself. */
  function CopyNode(n: Node): (r: Option<Node>)
    ensures r.Some? && KindOf(r.value) == KindOf(n)
  {
    Some(n)
  }

  /** The entries the replay re-adds: every node `copy` accepts, under its
      old id and at its old position. */
  function Replayed(g: SubGraph, copy: Node -> Option<Node>, ids: set<int>): (m: map<int, Entry>)
    ensures forall k :: k in m <==> k in g.nodes && k in ids && copy(g.nodes[k].node).Some?
    ensures forall k :: k in m ==> m[k] == Entry(copy(g.nodes[k].node).value, g.nodes[k].position)
  {
    map k | k in g.nodes && k in ids && copy(g.nodes[k].node).Some? :: Entry(copy(g.nodes[k].node).value, g.nodes[k].position)
  }

  /** One more id of the node list, accepted or not, extends the replayed
      map by at most that id. */
  lemma ReplayedStep(g: SubGraph, copy: Node -> Option<Node>, ids: set<int>, k: int)
    requires k in g.nodes && k !in ids
    ensures copy(g.nodes[k].node).Some? ==>
      Replayed(g, copy, ids + {k}) == Replayed(g, copy, ids)[k := Entry(copy(g.nodes[k].node).value, g.nodes[k].position)]
    ensures copy(g.nodes[k].node).None? ==> Replayed(g, copy, ids + {k}) == Replayed(g, copy, ids)
  {
  }

  /** One iteration of the replay: adding the copy of the node under `id`
      (or nothing, when `copy` refuses it) extends the rebuilt stage by
      exactly that id and touches no other stage. */
  lemma ReplayAdd(gr: GroupNode, s: int, g: SubGraph, copy: Node -> Option<Node>, seen: set<int>,
                  id: int, n: Node, pos: Vector2)
    requires ValidStage(s)
    requires Stages.GraphOf(gr.graphs, s) == SubGraph(Replayed(g, copy, seen), [])
    requires forall t :: t != s ==> Stages.GraphOf(gr.graphs, t) == EmptyGraph
    requires id in g.nodes && id !in seen
    requires n == g.nodes[id].node && pos == g.nodes[id].position
    ensures
      var next := if copy(n).Some? then Groups.AddInternalNode(gr, s, copy(n).value, pos, id) else gr;
      && Stages.GraphOf(next.graphs, s) == SubGraph(Replayed(g, copy, seen + {id}), [])
      && (forall t :: t != s ==> Stages.GraphOf(next.graphs, t) == EmptyGraph)
      && next.nextIds == gr.nextIds
  {
    ReplayedStep(g, copy, seen, id);
  }

  /** The group the replay has rebuilt after visiting the ids of `ids`, in
      order: each visit adds the copy of the source's node under the same
      id and position, or nothing when `copy` refuses the node. */
  ghost function ReplayPrefix(source: GroupNode, s: int, copy: Node -> Option<Node>, ids: seq<int>): GroupNode
    decreases |ids|
  {
    if ids == [] then Groups.NewGroup()
    else
      var before := ReplayPrefix(source, s, copy, ids[..|ids| - 1]);
      var id := ids[|ids| - 1];
      var original := Groups.GetInternalNode(source, s, id);
      if original.Some? && copy(original.value).Some? then
        Groups.AddInternalNode(before, s, copy(original.value).value, Groups.GetInternalNodePosition(source, s, id), id)
      else before
  }

  /** Visiting a strictly increasing list of the source's ids rebuilds
      exactly the replayed entries of those ids, in stage `s` only. */
  lemma {:induction false} ReplayPrefixGraph(source: GroupNode, s: int, copy: Node -> Option<Node>, ids: seq<int>)
    requires ValidStage(s)
    requires StrictlyIncreasing(ids)
    requires forall i :: 0 <= i < |ids| ==> ids[i] in Stages.GraphOf(source.graphs, s).nodes
    ensures Stages.GraphOf(ReplayPrefix(source, s, copy, ids).graphs, s)
         == SubGraph(Replayed(Stages.GraphOf(source.graphs, s), copy, set i | 0 <= i < |ids| :: ids[i]), [])
    ensures forall t :: t != s ==> Stages.GraphOf(ReplayPrefix(source, s, copy, ids).graphs, t) == EmptyGraph
    ensures ReplayPrefix(source, s, copy, ids).nextIds == map[]
    decreases |ids|
  {
    var g := Stages.GraphOf(source.graphs, s);
    if ids == [] {
      assert Replayed(g, copy, {}) == map[];
    } else {
      var pre := ids[..|ids| - 1];
      var id := ids[|ids| - 1];
      assert StrictlyIncreasing(pre);
      ReplayPrefixGraph(source, s, copy, pre);
      var seen := set i | 0 <= i < |pre| :: pre[i];
      ElementsOfSnoc(ids);
      ReplayAdd(ReplayPrefix(source, s, copy, pre), s, g, copy, seen, id, g.nodes[id].node, g.nodes[id].position);
    }
  }

  /** The ids of a strictly increasing list are those before its last one,
      plus the last one, which is not among them. */
  lemma ElementsOfSnoc(ids: seq<int>)
    requires ids != [] && StrictlyIncreasing(ids)
    ensures var pre := ids[..|ids| - 1];
      && ids[|ids| - 1] !in (set i | 0 <= i < |pre| :: pre[i])
      && (set i | 0 <= i < |ids| :: ids[i]) == (set i | 0 <= i < |pre| :: pre[i]) + {ids[|ids| - 1]}
  {
    var pre := ids[..|ids| - 1];
    var seen := set i | 0 <= i < |pre| :: pre[i];
    forall x | x in seen
      ensures x in (set i | 0 <= i < |ids| :: ids[i]) && x < ids[|ids| - 1]
    {
      var i :| 0 <= i < |pre| && pre[i] == x;
      assert ids[i] == x;
    }
  }

  /** Rebuilds stage `s` of a group in a fresh group: for every id of the
      source's node list, in order, the copy of the node is added under the
      same id at the same position. Connections are not replayed. */
  method Replay(source: GroupNode, s: int, copy: Node -> Option<Node>) returns (reloaded: GroupNode)
    ensures ValidStage(s) ==>
      Stages.GraphOf(reloaded.graphs, s)
      == SubGraph(Replayed(Stages.GraphOf(source.graphs, s), copy, Stages.GraphOf(source.graphs, s).nodes.Keys), [])
    ensures forall t :: t != s || !ValidStage(s) ==> Stages.GraphOf(reloaded.graphs, t) == EmptyGraph
    ensures reloaded.nextIds == map[]
  {
    reloaded := Groups.NewGroup();
    var ids := Groups.GetInternalNodeList(source, s);
    var i := 0;
    while i < |ids|
      invariant 0 <= i <= |ids|
      invariant reloaded == ReplayPrefix(source, s, copy, ids[..i])
    {
      reloaded := ReplayVisit(source, s, copy, ids, i, reloaded);
      i := i + 1;
    }
    assert ids[..i] == ids;
    ReplayComplete(source, s, copy);
  }

  /** One visit of the replay loop: the copy of the node listed at `i` is
      added under the same id at the same position, or nothing when the
      copy refuses the node. */
  method ReplayVisit(source: GroupNode, s: int, copy: Node -> Option<Node>, ids: seq<int>, i: int,
                     before: GroupNode) returns (after: GroupNode)
    requires ids == Groups.GetInternalNodeList(source, s)
    requires 0 <= i < |ids|
    requires before == ReplayPrefix(source, s, copy, ids[..i])
    ensures after == ReplayPrefix(source, s, copy, ids[..i + 1])
  {
    var id := ids[i];
    ListedIdHasNode(source, s, ids, i);
    ReplayPrefixSnoc(source, s, copy, ids, i);
    var original := Groups.GetInternalNode(source, s, id);
    var position := Groups.GetInternalNodePosition(source, s, id);
    var copied := copy(original.value);
    after := before;
    if copied.Some? {
      after := Groups.AddInternalNode(before, s, copied.value, position, id);
    }
  }

  /** Every id of the source's node list has a node behind it. */
  lemma ListedIdHasNode(source: GroupNode, s: int, ids: seq<int>, i: int)
    requires ids == Groups.GetInternalNodeList(source, s)
    requires 0 <= i < |ids|
    ensures Groups.GetInternalNode(source, s, ids[i]).Some?
  {
    assert ids[i] in ids;
  }

  /** One more visit of the replay adds the copy of the node under the
      next id, or nothing when the copy refuses it. */
  lemma ReplayPrefixSnoc(source: GroupNode, s: int, copy: Node -> Option<Node>, ids: seq<int>, i: int)
    requires 0 <= i < |ids|
    requires Groups.GetInternalNode(source, s, ids[i]).Some?
    ensures
      var before := ReplayPrefix(source, s, copy, ids[..i]);
      var original := Groups.GetInternalNode(source, s, ids[i]).value;
      ReplayPrefix(source, s, copy, ids[..i + 1])
      == if copy(original).Some? then
           Groups.AddInternalNode(before, s, copy(original).value, Groups.GetInternalNodePosition(source, s, ids[i]), ids[i])
         else before
  {
    assert ids[..i + 1] == ids[..i] + [ids[i]];
    ReplayPrefixAppend(source, s, copy, ids[..i], ids[i]);
  }

  /** The fold one visit further: the copy of the node under `id`, if the
      source has one and the copy accepts it, is added to what was rebuilt. */
  lemma ReplayPrefixAppend(source: GroupNode, s: int, copy: Node -> Option<Node>, pre: seq<int>, id: int)
    ensures
      var before := ReplayPrefix(source, s, copy, pre);
      var original := Groups.GetInternalNode(source, s, id);
      ReplayPrefix(source, s, copy, pre + [id])
      == if original.Some? && copy(original.value).Some? then
           Groups.AddInternalNode(before, s, copy(original.value).value, Groups.GetInternalNodePosition(source, s, id), id)
         else before
  {
    assert (pre + [id])[..|pre|] == pre;
  }

  /** Visiting the whole node list of stage `s` rebuilds every replayed
      entry of that stage and nothing else. */
  lemma ReplayComplete(source: GroupNode, s: int, copy: Node -> Option<Node>)
    ensures
      var reloaded := ReplayPrefix(source, s, copy, Groups.GetInternalNodeList(source, s));
      && (ValidStage(s) ==>
            Stages.GraphOf(reloaded.graphs, s)
            == SubGraph(Replayed(Stages.GraphOf(source.graphs, s), copy, Stages.GraphOf(source.graphs, s).nodes.Keys), []))
      && (forall t :: t != s || !ValidStage(s) ==> Stages.GraphOf(reloaded.graphs, t) == EmptyGraph)
      && reloaded.nextIds == map[]
  {
    var ids := Groups.GetInternalNodeList(source, s);
    if ValidStage(s) {
      ReplayPrefixGraph(source, s, copy, ids);
      ListedIdsAreKeys(ids, Stages.GraphOf(source.graphs, s).nodes.Keys);
    } else {
      assert ids == [];
    }
  }

  /** A list holding exactly the members of `keys` has `keys` as its set of
      elements. */
  lemma ListedIdsAreKeys(ids: seq<int>, keys: set<int>)
    requires forall k :: k in ids <==> k in keys
    ensures (set i | 0 <= i < |ids| :: ids[i]) == keys
  {
    var elems := set i | 0 <= i < |ids| :: ids[i];
    forall k | k in keys
      ensures k in elems
    {
      var j :| 0 <= j < |ids| && ids[j] == k;
    }
    assert forall k :: k in elems <==> k in keys;
  }

  /** With a copy that keeps every node and its kind, the replay lists the
      same ids and the same kinds at the same positions as the source. */
  lemma ReplayKeepsIdsAndKinds(g: SubGraph, copy: Node -> Option<Node>)
    requires forall n :: copy(n).Some? && KindOf(copy(n).value) == KindOf(n)
    ensures Replayed(g, copy, g.nodes.Keys).Keys == g.nodes.Keys
    ensures forall k :: k in g.nodes ==>
      && KindOf(Replayed(g, copy, g.nodes.Keys)[k].node) == KindOf(g.nodes[k].node)
      && Replayed(g, copy, g.nodes.Keys)[k].position == g.nodes[k].position
  {
  }

  /** The faithful copy makes the replay reproduce the source's nodes and
      positions exactly. */
  lemma CorrectedReplayRoundTrip(g: SubGraph)
    ensures Replayed(g, CopyNode, g.nodes.Keys) == g.nodes
  {
    var m := Replayed(g, CopyNode, g.nodes.Keys);
    assert m.Keys == g.nodes.Keys;
    forall k | k in g.nodes
      ensures m[k] == g.nodes[k]
    {
    }
  }

  /** Save and reload with the faithful copy: every internal node of stage
      `s` comes back under its id, at its position, unchanged. */
  method SaveAndReload(source: GroupNode, s: int) returns (reloaded: GroupNode)
    ensures ValidStage(s) ==> Stages.GraphOf(reloaded.graphs, s).nodes == Stages.GraphOf(source.graphs, s).nodes
    ensures ValidStage(s) ==> Groups.GetInternalNodeList(reloaded, s) == Groups.GetInternalNodeList(source, s)
    ensures forall t :: t != s ==> Stages.GraphOf(reloaded.graphs, t) == EmptyGraph
  {
    reloaded := Replay(source, s, CopyNode);
    if ValidStage(s) {
      CorrectedReplayRoundTrip(Stages.GraphOf(source.graphs, s));
      Stages.SameKeysSameList(reloaded.graphs, source.graphs, s);
    }
  }

  /** As written, a group that holds only the four kinds the reload check
      looks for keeps its id list and its kinds. */
  lemma AsWrittenKeepsTestedKinds(g: SubGraph)
    requires forall k :: k in g.nodes ==> CopyNodeAsWritten(g.nodes[k].node).Some?
    ensures Replayed(g, CopyNodeAsWritten, g.nodes.Keys).Keys == g.nodes.Keys
    ensures forall k :: k in g.nodes ==>
      KindOf(Replayed(g, CopyNodeAsWritten, g.nodes.Keys)[k].node) == KindOf(g.nodes[k].node)
  {
    var m := Replayed(g, CopyNodeAsWritten, g.nodes.Keys);
    forall k | k in g.nodes
      ensures k in m
    {
      assert CopyNodeAsWritten(g.nodes[k].node).Some?;
    }
  }

  /** As written, the reload changes a subtraction into an addition: the
      vector operation's operator is not carried over. */
  lemma AsWrittenLosesOperator(t: int)
    ensures CopyNodeAsWritten(VectorOp(VECTOR_OP_SUB, t)) == Some(VectorOp(VECTOR_OP_ADD, t))
    ensures CopyNodeAsWritten(VectorOp(VECTOR_OP_SUB, t)) != CopyNode(VectorOp(VECTOR_OP_SUB, t))
  {
  }

  /** As written, the reload renames every Input node back to the default
      name. */
  lemma AsWrittenLosesInputName()
    ensures CopyNodeAsWritten(Input("GroupInput")) == Some(Input(DEFAULT_INPUT_NAME))
    ensures CopyNodeAsWritten(Input("GroupInput")) != CopyNode(Input("GroupInput"))
  {
  }

  /** As written, a float constant inside the group is silently dropped:
      the reloaded group has one node fewer. */
  lemma AsWrittenDropsFloatConstant(c: real, pos: Vector2)
    ensures
      var g := SubGraph(map[2 := Entry(FloatConstant(c), pos)], []);
      && Replayed(g, CopyNodeAsWritten, g.nodes.Keys) == map[]
      && Replayed(g, CopyNode, g.nodes.Keys) == g.nodes
  {
    var g := SubGraph(map[2 := Entry(FloatConstant(c), pos)], []);
    CorrectedReplayRoundTrip(g);
    assert 2 !in Replayed(g, CopyNodeAsWritten, g.nodes.Keys);
  }
}
