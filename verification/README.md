# Visual shader graphs with group nodes

A Dafny model of the visual shader graph container and of its group node,
as three test suites of a Godot fork exercise them. The model covers:

- a `VisualShader` holding a mode, a registry of varyings and one node
  graph per shader stage (vertex, fragment, …, fog);
- a group node (`VisualShaderNodeGroup`) that owns a complete graph of its
  own and offers the same operations under `*_internal_*` names, with a
  separate id space and its own id allocator;
- the small pieces of editor logic that the group-editing tests write out
  themselves: the group-aware node lookup, the record of which group is
  open, and the save-and-reload simulation that rebuilds a group by
  re-adding its internal nodes one by one.

The engine's implementation files are not part of this model. Every
operation is therefore a reference definition of what the tests demand of
it, and every test case is replayed as a lemma about that definition.

Layout, one module per file:

| file | module | what it holds |
|---|---|---|
| `enums.dfy` | `ShaderEnums` | stage, mode and varying enumerations; the reserved ids 0 (Output) and -1 (invalid) and the first free id 2 |
| `sorted_ids.dfy` | `SortedIds` | strictly increasing id lists; least and greatest element of a finite set |
| `nodes.dfy` | `Nodes` | the node kinds, their port counts, sub-graphs and connections |
| `subgraph.dfy` | `SubGraphs` | the operations on the graph of one stage, and the invariant they keep |
| `stages.dfy` | `Stages` | the stage-keyed graph shared by the shader and every group, with the stage check |
| `groups.dfy` | `Groups` | the group node: internal API and the per-stage id counter |
| `visual_shader.dfy` | `Shader` | the shader: built-in Output nodes, mode, varyings |
| `editor.dfy` | `Editor` | group-aware lookup, open/close state, save and reload |
| `scenarios.dfy` | `Scenarios` | the test cases' call sequences as lemmas |

Design decisions:

- A call the engine rejects is modelled as returning its state unchanged.
  Rejections include an invalid stage, a taken id, a missing node and an
  invalid connection. The engine logs an error and returns in these cases.
- The shader's `add_node` and the group's `add_internal_node` are the
  same function (`Stages.AddNode`) applied to two different values. The
  two id spaces therefore cannot interfere.
- `get_valid_node_id` answers one past the greatest id of the stage, and
  never less than 2. It keeps no state.
- `get_valid_internal_node_id` keeps a counter per stage. Three calls in a
  row, with no insertion in between, must return three consecutive ids.
  So the group's allocator returns the larger of its counter and the
  shader-style answer, and moves the counter past it.
- An input port accepts at most one incoming edge. A second edge into a
  taken port is refused rather than replacing the first.
- A node list is the stage's ids in ascending order.

## Model

| member | source | states |
|---|---|---|
| SortedIds.Ascending | tests/scene/test_visual_shader_group_editing.h:29-31 | the listing of a finite id set holds each id exactly once, in strictly increasing order, and nothing else |
| SortedIds.StrictlyIncreasingHasNoDuplicates | tests/scene/test_visual_shader_group_editing.h:138-143 | a strictly increasing list never holds the same id at two positions |
| Nodes.InputPortCount | tests/scene/test_visual_shader_group_editing_complete.h:128-133 | an Output node offers input ports exactly when both its shader mode and its stage have been set; a vector operation takes two operands; inputs, colours, float constants and groups take none |
| Nodes.OutputPortCount | tests/scene/test_visual_shader_group_editing.h:177-184 | a node can feed another exactly when it is a value producer, not an Output and not a group |
| SubGraphs.Insert | tests/scene/test_visual_shader.h:57-62 | a free id gains the node at the given position and every other entry and every connection is kept; a taken id leaves the graph as it was |
| SubGraphs.DropConnectionsOf | tests/scene/test_visual_shader.h:117-124 | the connections that remain are exactly those not touching the node, and no input port gains a second edge; a list with no touching edge is kept as it is |
| SubGraphs.Remove | tests/scene/test_visual_shader.h:117-124 | the id disappears, every other entry is unchanged, exactly the connections touching it are dropped and the rest keep their order (the filter of `DropDistributes`); an absent id changes nothing |
| SubGraphs.Move | tests/scene/test_visual_shader.h:84-96 | only the position of the named node changes; ids, nodes and connections are kept; an absent id changes nothing |
| SubGraphs.NodeList | tests/scene/test_visual_shader_group_editing.h:29-31 | the list holds each id of the graph once, in ascending order, and its length is the node count |
| SubGraphs.ValidNodeId | tests/scene/test_visual_shader.h:103-108 | the answer is at least 2, exceeds every id in the graph, and is either 2 or one past an id that is present |
| SubGraphs.Connect | tests/scene/test_visual_shader_group_editing.h:187-203 | an accepted edge is appended after the existing ones and the nodes stay as they were; a refused edge changes nothing |
| SubGraphs.CanConnect | tests/scene/test_visual_shader_group_editing.h:177-185 | an edge is accepted exactly when both ends are present and distinct, the source port is below the source node's output count, the target port is below the target node's input count, and no existing edge enters the target port |
| SubGraphs.InsertPreservesWellFormed | tests/scene/test_visual_shader_group_editing.h:109-144 | inserting a node keeps every connection valid and every input port with at most one edge |
| SubGraphs.RemovePreservesWellFormed | tests/scene/test_visual_shader.h:117-124 | removal leaves no connection to a missing node and no doubly fed input port |
| SubGraphs.MovePreservesWellFormed | tests/scene/test_visual_shader.h:84-96 | moving a node keeps the sub-graph invariant |
| SubGraphs.ConnectPreservesWellFormed | tests/scene/test_visual_shader_group_editing.h:177-203 | connecting keeps every edge between existing nodes and in-range ports, and every input port with at most one edge |
| SubGraphs.ConnectAddsExactlyOnce | tests/scene/test_visual_shader_group_editing.h:194-203 | an accepted edge was absent before, appears exactly once afterwards, and the edge count grows by one |
| SubGraphs.RemoveLeavesNoDanglingEdge | tests/scene/test_visual_shader.h:117-124 | after removal no connection mentions the removed id, its former neighbours are still present, and the invariant holds |
| SubGraphs.SecondEdgeRefused | tests/scene/test_visual_shader_group_editing.h:177-203 | once an edge into an input port is made, every further edge into that port, the same one included, is refused |
| SubGraphs.DropSingle | tests/scene/test_visual_shader.h:117-124 | a single connection survives the removal of a node exactly when it does not touch it |
| SubGraphs.DropDistributes | tests/scene/test_visual_shader.h:117-124 | dropping a node's connections distributes over concatenation, so with `DropSingle` the surviving connections keep their order |
| Stages.Update | tests/scene/test_visual_shader.h:84-96 | writing one stage's graph leaves every other stage's graph unchanged |
| Stages.AddNode | tests/scene/test_visual_shader.h:57-75 | in a valid stage at a free id the node is stored at its position; an invalid stage or a taken id changes nothing; other stages never change |
| Stages.GetNode | tests/scene/test_visual_shader_group_editing_complete.h:77-82 | a node is returned exactly when the stage is valid and the id is present, and it is the very node stored there |
| Stages.RemoveNode | tests/scene/test_visual_shader.h:117-124 | the stage loses the id and exactly the connections touching it, and every remaining node keeps its node and position; an invalid stage or absent id changes nothing; other stages are untouched |
| Stages.GetNodeList | tests/scene/test_visual_shader_group_editing.h:29-31 | the list of a valid stage holds exactly its ids, each once, ascending; an invalid stage lists nothing |
| Stages.GetNodePosition | tests/scene/test_visual_shader.h:84-96 | a present node reports its stored position; anything else reports the zero vector |
| Stages.SetNodePosition | tests/scene/test_visual_shader.h:84-96 | the moved node keeps its kind and now sits at the new position; every other node keeps its node and position; ids and connections of the stage are kept; other stages are untouched; an invalid stage or absent id changes nothing |
| Stages.GetValidNodeId | tests/scene/test_visual_shader.h:103-108 | a valid stage gets a free id of at least 2 above every id present, either 2 or one past a present id; an invalid stage gets -1 |
| Stages.ValidIdFollowsGreatest | tests/scene/test_visual_shader.h:103-108 | once the greatest id of a stage is known, the allocator answers the next integer |
| Stages.ValidIdAtMost | tests/scene/test_visual_shader.h:182-199 | when every id is below a bound of at least 2, the allocator does not go past the bound |
| Stages.SameKeysSameList | tests/scene/test_visual_shader_group_editing_complete.h:338-339 | two stages with the same ids list the same ids |
| Stages.ConnectNodes | tests/scene/test_visual_shader_group_editing.h:177-203 | an edge `can_connect` accepts is appended and the nodes are kept; otherwise nothing changes; other stages are untouched |
| Stages.CanConnectNodes | tests/scene/test_visual_shader_group_editing.h:177-185 | an invalid stage refuses every edge; an accepted edge joins two distinct nodes that get_node returns and is not yet listed |
| Stages.GetNodeConnections | tests/scene/test_visual_shader_group_editing.h:194-203 | a valid stage lists its connections in the order they were made; an invalid stage lists none |
| Stages.MutationsPreserveWellFormed | tests/scene/test_visual_shader_group_editing.h:147-204 | add, remove, move and connect each keep every stage free of dangling and doubly fed edges |
| Stages.PositionRoundTrip | tests/scene/test_visual_shader.h:84-96 | the position given to add_node is read back, set_node_position overwrites it, and another node's position is unaffected |
| Stages.AddThenGet | tests/scene/test_visual_shader.h:57-62 | after a successful add the node is returned under its id, listed, and the list grows by one |
| Stages.DuplicateIdRejected | tests/scene/test_visual_shader.h:287-296 | a second add at a taken id leaves the graph unchanged and the first node in place |
| Stages.RemoveThenGet | tests/scene/test_visual_shader.h:122-123 | after remove_node nothing is returned under the removed id, in any stage |
| Stages.ConnectThenListed | tests/scene/test_visual_shader_group_editing.h:187-203 | an edge that can be made is, once made, the last entry of the stage's connection list, after the ones already there, and the same edge is then refused |
| Groups.GetValidInternalNodeId | tests/scene/test_visual_shader.h:182-199 | a valid stage gets an id of at least 2 and at least the counter, above every internal id, and the counter moves just past it; other counters and the graphs are untouched; an invalid stage gets -1 |
| Groups.ConsecutiveAllocations | tests/scene/test_visual_shader.h:182-199 | three requests in a row give three consecutive non-negative ids |
| Groups.StepCounter | tests/scene/test_visual_shader_group_editing.h:64-73 | no group call moves a counter back, and an allocation returns at least the counter and leaves it one past the id |
| Groups.CounterMonotone | tests/scene/test_visual_shader_group_editing.h:64-73 | over any run of group calls the counter of a stage never decreases |
| Groups.IssuedStep | tests/scene/test_visual_shader_group_editing.h:64-73 | an allocation in front of a strictly increasing run of later, larger ids keeps the run strictly increasing and within the counter bounds |
| Groups.AllocatorNeverRepeats | tests/scene/test_visual_shader_group_editing.h:64-73 | over any interleaving of allocations, insertions, removals, moves and connections, the ids one stage's allocator hands out strictly increase, so none is handed out twice |
| Shader.New | tests/scene/test_visual_shader_group_editing.h:24-31 | a fresh shader is spatial, has no varyings, and every stage holds exactly the built-in Output at id 0, configured for that stage, with no connection |
| Shader.SetMode | tests/scene/test_visual_shader.h:44-49 | a value of the Mode enumeration becomes the mode; any other value is refused; graphs and varyings are untouched |
| Shader.AddVarying | tests/scene/test_visual_shader.h:133-145 | a name becomes registered exactly when it already was or its mode and type are both below their MAX sentinels; an existing name is never overwritten; every other name stays registered or unregistered as before and keeps its mode and type |
| Shader.FreshShaderNodeLists | tests/scene/test_visual_shader_group_editing.h:29-31 | each stage of a fresh shader lists exactly `[0]` |
| Shader.ModeRoundTrip | tests/scene/test_visual_shader.h:44-49 | the default mode is spatial, a valid mode is read back after set_mode, an invalid one leaves the mode as it was |
| Shader.AddNodePerStage | tests/scene/test_visual_shader.h:57-62 | in every stage of a fresh shader, the node added at `i + 2` is what get_node returns there |
| Shader.InvalidStageAddChangesNothing | tests/scene/test_visual_shader.h:74-75 | add_node into TYPE_MAX or beyond leaves the shader unchanged, so nothing appears in the sky stage |
| Shader.BuiltInIdTaken | tests/scene/test_visual_shader.h:72-73 | the model's account of the add at id 0 of the sky stage, which the test follows only by checking that the other node is not returned: id 0 of every fresh stage is taken by the built-in Output, so the add is refused and the Output is still returned |
| Shader.ValidIdAfterAdd | tests/scene/test_visual_shader.h:103-108 | after adding `i + 2` to stage `i`, the allocator answers one past it |
| Shader.ValidIdBesideBuiltIn | tests/scene/test_visual_shader.h:103-108 | beside the built-in Output alone, adding `i + 2` makes the allocator answer `i + 3` |
| Shader.RemoveAfterAdd | tests/scene/test_visual_shader.h:117-124 | the added node is returned until it is removed, and nothing afterwards |
| Shader.PositionsPerStage | tests/scene/test_visual_shader.h:84-96 | positions set in the collide and fog stages read back as set, and editing the fog stage does not move the collide node |
| Shader.PositionsInTwoStages | tests/scene/test_visual_shader.h:84-96 | the same position steps hold on any graph where those two ids are free |
| Shader.VaryingsScenario | tests/scene/test_visual_shader.h:133-145 | two valid varyings are registered, an unknown name is absent, and a mode or type equal to its MAX sentinel is refused |
| Editor.GetNodeForEditing | tests/scene/test_visual_shader_group_editing.h:676-682 | while a group is open and its stage is asked for, the answer comes from the group's id space; otherwise from the shader's; in both cases a node is returned exactly when the id is present there, and it is the node stored under that id |
| Editor.RouterIgnoresOtherSpace | tests/scene/test_visual_shader_group_editing.h:676-682 | a lookup routed to the group does not depend on the shader, and one routed to the shader does not depend on the group |
| Editor.SameIdStaysSeparate | tests/scene/test_visual_shader_group_editing.h:684-697 | one id names two different nodes in the two spaces; main mode and other stages read the shader's node, group mode reads the group's |
| Editor.OpenGroup | tests/scene/test_visual_shader_group_editing.h:635-644 | opening records editing on, the group's id, its stage and the group itself |
| Editor.CloseGroup | tests/scene/test_visual_shader_group_editing.h:646-656 | closing turns editing off, resets id and stage to -1 and drops the group |
| Editor.OpenCloseRouting | tests/scene/test_visual_shader_group_editing.h:635-656 | with a group open its stage reads the group and other stages the shader; once closed every stage reads the shader |
| Editor.CloseForgetsGroup | tests/scene/test_visual_shader_group_editing.h:646-656 | closing yields the same state whatever was open |
| Editor.CopyNodeAsWritten | tests/scene/test_visual_shader_group_editing_complete.h:308-327 | inputs, outputs, colours and vector operations are copied with their kind kept, a colour unchanged, an Output with input ports and a vector operation with its operand type; every other kind is dropped |
| Editor.CopyNode | tests/scene/test_visual_shader_group_editing_complete.h:336-339 | the faithful copy keeps every node and its kind |
| Editor.Replayed | tests/scene/test_visual_shader_group_editing_complete.h:304-332 | the rebuilt entries are exactly the source's ids whose node the copy accepts, each under its old id at its old position |
| Editor.ReplayedStep | tests/scene/test_visual_shader_group_editing_complete.h:329-331 | one more listed id extends the rebuilt entries by that id alone, or not at all when the copy refuses it |
| Editor.ReplayAdd | tests/scene/test_visual_shader_group_editing_complete.h:329-331 | one iteration adds exactly the copied node to the stage and touches no other stage and no counter |
| Editor.ReplayPrefixGraph | tests/scene/test_visual_shader_group_editing_complete.h:304-332 | after visiting any ascending run of the source's ids, the rebuilt stage is exactly the copies of those ids, with no connection, and all other stages are empty |
| Editor.Replay | tests/scene/test_visual_shader_group_editing_complete.h:300-332 | the loop rebuilds every node the copy accepts under its id and position, replays no connection, leaves every other stage empty and allocates nothing |
| Editor.ReplayVisit | tests/scene/test_visual_shader_group_editing_complete.h:304-331 | one pass of the loop body leaves exactly the group the reference fold gives for the ids visited so far plus the next one |
| Editor.ReplayPrefixSnoc | tests/scene/test_visual_shader_group_editing_complete.h:304-331 | one more iteration of the loop adds the copy of the next listed node, or nothing when the copy refuses it |
| Editor.ReplayPrefixAppend | tests/scene/test_visual_shader_group_editing_complete.h:304-331 | visiting one more id adds the copy of its node at its position when the source has one and the copy accepts it, and nothing otherwise |
| Editor.ListedIdHasNode | tests/scene/test_visual_shader_group_editing_complete.h:304-305 | every id of the node list the loop walks names a node of the source |
| Editor.ReplayComplete | tests/scene/test_visual_shader_group_editing_complete.h:304-332 | visiting the whole node list rebuilds exactly the copies of all the stage's nodes |
| Editor.ReplayKeepsIdsAndKinds | tests/scene/test_visual_shader_group_editing_complete.h:338-370 | with a copy that keeps every node and its kind, the reload has the same ids, kinds and positions as the source |
| Editor.CorrectedReplayRoundTrip | tests/scene/test_visual_shader_group_editing_complete.h:336-339 | with the faithful copy the reload reproduces the source's nodes and positions exactly |
| Editor.SaveAndReload | tests/scene/test_visual_shader_group_editing_complete.h:300-339 | save and reload returns every internal node of the stage under its id, at its position, unchanged, with the same node list |
| Editor.AsWrittenKeepsTestedKinds | tests/scene/test_visual_shader_group_editing_complete.h:338-370 | a group holding only the four copied kinds keeps its ids and kinds through the copy as written |
| Editor.AsWrittenLosesOperator | tests/scene/test_visual_shader_group_editing_complete.h:322-326 | the copy as written turns a subtraction into an addition, unlike the faithful copy |
| Editor.AsWrittenLosesInputName | tests/scene/test_visual_shader_group_editing_complete.h:310-311 | the copy as written renames an Input to the default name, unlike the faithful copy |
| Editor.AsWrittenDropsFloatConstant | tests/scene/test_visual_shader_group_editing_complete.h:308-329 | a float constant is lost by the copy as written and kept by the faithful copy |
| Scenarios.ConfiguredOutputHasInputs | tests/scene/test_visual_shader_group_editing_complete.h:128-133 | an Output configured for canvas-item fragment offers input ports, and one never configured offers none |
| Scenarios.FreshGroupAllocatesTwo | tests/scene/test_visual_shader.h:213-221 | a fresh group's first id in any stage is 2 |
| Scenarios.AllocateAndAddStep | tests/scene/test_visual_shader_group_editing_complete.h:166-190 | allocating then adding always stores the node under a fresh id at its position, lists it, grows the list by one, keeps the rest of the stage, and the next allocation returns the following id |
| Scenarios.AllocateAndAddStores | tests/scene/test_visual_shader_group_editing_complete.h:175-185 | the allocated id was free, the node is stored there at its position, the rest of the stage is kept and the list grows by that id |
| Scenarios.AllocateAndAddAdvances | tests/scene/test_visual_shader.h:182-199 | after the add, the allocator hands out the id just after the one it gave |
| Scenarios.BuiltView | tests/scene/test_visual_shader_group_editing.h:75-107 | a group built by allocate-and-add shows exactly its entries, with no connection |
| Scenarios.FirstStep | tests/scene/test_visual_shader.h:213-226 | the first allocate-and-add into a fresh group lands at id 2 and moves the counter to 3 |
| Scenarios.AllocateOnBuilt | tests/scene/test_visual_shader.h:182-199 | on a built group whose ids are all below the counter, the allocator returns the counter and advances it by one |
| Scenarios.AddOnBuilt | tests/scene/test_visual_shader_group_editing.h:109-131 | adding at a free id extends the built group's entries by that id and keeps the counter |
| Scenarios.NextStep | tests/scene/test_visual_shader_group_editing.h:109-131 | each further allocate-and-add lands at the counter, and the ids stay below the new counter |
| Scenarios.InterfaceGroupBuilt | tests/scene/test_visual_shader_group_editing.h:75-107 | the Input and the configured Output are stored at ids 2 and 3 and the counter stands at 4 |
| Scenarios.InterfaceNodesScenario | tests/scene/test_visual_shader_group_editing.h:75-107 | the interface nodes land at ids 2 and 3, are listed as `[2, 3]`, come back as the kinds added and at their positions, and the Output offers inputs |
| Scenarios.FourNodesScenario | tests/scene/test_visual_shader_group_editing.h:109-144 | Input, Output, colour and vector operation get ids 2 to 5 and the group lists four distinct ids |
| Scenarios.FourNodesCount | tests/scene/test_visual_shader_group_editing.h:133-136 | the four-node group has four entries |
| Scenarios.BuiltListDistinct | tests/scene/test_visual_shader_group_editing.h:138-143 | a built group lists one distinct id per node |
| Scenarios.FourNodesBuilt | tests/scene/test_visual_shader_group_editing.h:109-131 | the four-node group is the colour at 4 and the addition at 5 after the interface nodes, with the counter at 6 |
| Scenarios.InternalConnectScenario | tests/scene/test_visual_shader_group_editing.h:147-204 | the colour's output 0 may feed the Output's input 0, and afterwards the group holds exactly that connection |
| Scenarios.ColorFeedsOutput | tests/scene/test_visual_shader.h:373-400 | in a graph without edges a colour may feed a configured Output, and connecting leaves exactly that edge |
| Scenarios.DuplicateInternalIdScenario | tests/scene/test_visual_shader_group_editing.h:238-254 | a second add at id 5 is refused: the list is still `[5]` and id 5 holds the first node |
| Scenarios.GroupInShaderScenario | tests/scene/test_visual_shader_group_editing_complete.h:41-63 | a canvas-item shader lists only its Output, the group gets id 2, is listed beside it and is returned as the very group added |
| Scenarios.ShaderWithGroup | tests/scene/test_visual_shader_group_editing.h:55-62 | the group sits at 2 beside the Output at 0, and the shader's allocator then answers 3 |
| Scenarios.CanvasFragment | tests/scene/test_visual_shader_group_editing.h:20-31 | changing the mode leaves the fragment stage with just its built-in Output |
| Scenarios.GroupBesideOutput | tests/scene/test_visual_shader_group_editing.h:34-52 | adding the group at 2 beside the Output leaves ids 0 and 2 and the allocator answers 3 |
| Scenarios.RouterScenario | tests/scene/test_visual_shader_group_editing.h:661-697 | the shader's float at 3 and the group's float at 2 are both reached through the router, each in its own mode, and main mode sees the group node itself under 2 |
| Scenarios.SavedGroupBuilt | tests/scene/test_visual_shader_group_editing_complete.h:256-284 | the saved group holds Input, Output, red colour and addition at ids 2 to 5, with no connection |
| Scenarios.ReloadScenario | tests/scene/test_visual_shader_group_editing_complete.h:338-370 | reloading the saved group with the copy as written keeps four ids, the red colour, the addition and an Output with inputs |
| Scenarios.SavedNodesShape | tests/scene/test_visual_shader_group_editing_complete.h:256-286 | the saved group has ids 2 to 5, four nodes, all of kinds the copy as written accepts |

## Left out

- Shader code generation (`get_code`, called at tests/scene/test_visual_shader_group_editing_complete.h:292) is not modelled. The code generator is not part of this model.
- The editor plugin, the graph editor widgets and the node styling (tests/scene/test_visual_shader_group_editing.h:437-537 and 754-788) are not modelled. They are user-interface code outside the graph container.
- Port data types and their compatibility are not modelled. So are an Output node's exact port count per mode and stage: a configured Output offers `CONFIGURED_OUTPUT_PORTS` (one) input port, because the tests only check that the count is positive.
- Cycle rejection in `can_connect_nodes` is modelled only for self-loops: an edge from a node to itself is refused, and longer cycles are not. The tests only connect a colour to an Output, which cannot form a cycle.
- Stages.GetValidNodeId: the shader's allocator keeps no memory. After the greatest id is removed it can hand that id out again. The tests call it only right after additions. The group's allocator does keep a counter, and `Groups.AllocatorNeverRepeats` proves it never repeats.
- Floats, colours and positions are exact `real` values compared with `==`. The engine compares them approximately (`is_equal_approx`).
- Nodes are values, not shared reference-counted objects. "The same node" (`get_node(...) == vsn`) is modelled as equal values, and the identity of a group held by both the test and the shader is not modelled.
- The numeric values of the stage, mode and varying enumerations come from the engine's headers, which are not part of this model. The order and the `MAX` sentinels are what matter.
- Connections are not replayed by the save-and-reload simulation, because the code it models copies nodes only.
- Editor.CopyNodeAsWritten: a fresh Input node's name is modelled as `[None]` and a fresh vector operation's operator as ADD. These are engine defaults the tests rely on but do not show.
- Shader.New: the built-in Output's position (`OUTPUT_DEFAULT_POSITION`) is a placeholder; no test reads it.
- Shader.SetMode: the built-in Output nodes keep the spatial configuration they were created with when the shader's mode changes; whether the engine reconfigures them is not visible in the tests, and no test reads them.
- Stages.AddNode: ids below 2 are not refused by `AddNode` or `RemoveNode`, so a negative id, the reserved id 1, or removal of the built-in Output at id 0 is accepted; the design reserves 0 and 1 for built-ins, but no test reaches these cases and no visible code refuses them.
- Nodes.OutputPortCount: a group exposes no ports, and `Nodes.InputPortCount` gives it none; in the program a group's ports come from its interface nodes, which this model does not derive.
- Error logging (`ERR_PRINT_OFF`/`ERR_PRINT_ON` and the messages of refused calls) is not modelled. A refused call simply returns its state unchanged.

## Findings

| source | as written | input that shows it | evidently intended | confidence | as-written member | corrected member |
|---|---|---|---|---|---|---|
| tests/scene/test_visual_shader_group_editing_complete.h:322-326 | the reload copies a vector operation's operand type but not its operator | a group holding a VectorOp with operator SUB comes back with ADD | the comment at line 337 says everything is preserved, so the operator should be copied too | not executed | Editor.AsWrittenLosesOperator | Editor.CorrectedReplayRoundTrip |
| tests/scene/test_visual_shader_group_editing_complete.h:310-311 | an Input is re-created with a fresh node, dropping its input name | an Input named `GroupInput` comes back named `[None]` | the reloaded Input keeps its name | not executed | Editor.AsWrittenLosesInputName | Editor.SaveAndReload |
| tests/scene/test_visual_shader_group_editing_complete.h:308-329 | any node kind other than Input, Output, ColorConstant and VectorOp is silently not copied | a group holding a FloatConstant at id 2 reloads with no node | every internal node is reloaded | not executed | Editor.AsWrittenDropsFloatConstant | Editor.CorrectedReplayRoundTrip |

The reload test's own checks pass for its group (`Scenarios.ReloadScenario`),
because that group uses only the four copied kinds, the default Input name
and the default operator. The rest of the model uses the faithful copy
`Editor.CopyNode`.
