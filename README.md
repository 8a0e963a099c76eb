# Room node graph editor — a Dafny model

The dungeon generator lets a designer sketch a dungeon as a graph of room
nodes. Each node is a `RoomNodeSO` with an id, a room node type (entrance,
corridor, boss room, plain rooms, or the "none" placeholder), a list of
parent ids and a list of child ids. A `RoomNodeGraphSO` holds the node list
and a dictionary from id to node. It also remembers the node a connecting
line is being dragged from. The editor window (`RoomNodeGraphEditor`) runs the
commands:

- connect two nodes when the right button is released over the target;
- select or deselect every node;
- delete the selected nodes;
- delete the links between selected nodes;
- create a node.

`RoomNodeSO.IsChildRoomValid` is the rule that decides which connections are
allowed. The type popup drawn on each node can change the node's type and
cut its child links.

The model has two layers:

- **Values** (`GraphModel`, `EdgeRule`, `EdgeRemoval`, `NodeDeletion`,
  `NodeCreation`). A graph is a `seq<NodeValue>`. Every command is a pure
  function on that sequence. Lemmas prove the command's effect on the edge
  relation. They also prove that the command keeps the graph `WellFormed`:
  - `Structural`: ids are unique, id lists have no duplicates, lists name
    only existing nodes, and the child and parent lists agree;
  - `Shaped`: each node has at most one parent, every edge joins a corridor
    and a non-corridor, entrance and "none" nodes have no parent, at most one
    boss room is connected, and the fan-out limits hold.
- **Objects** (`NodeGraph.RoomNode`, `NodeGraph.RoomNodeGraph`,
  `GraphEditor.RoomNodeGraphEditor`). Classes have the source's fields and
  their methods update them in place, loop by loop as the source does. Each
  method is proved against the value layer through `RoomNodeGraph.View()`.
  `Valid()` is the object invariant: ids are unique, every node belongs to
  this graph, and the dictionary is the one `LoadRoomNodeDictionary` builds.

`HelperUtilities` models the two inspector validators. `RoomNodeTypes` models
the room node type records and the `List.Find` lookups on the type catalog.

Two details of the code that the model keeps as written:

- **Type change.** The type popup cuts a node's child links when the node
  switches between corridor and room, or when it *becomes* a boss room
  (`Assets/Scripts/NodeGraph/RoomNodeSO.cs:52-54`). A node that stops being
  a boss room keeps its children.
- **Fan-out limit.** When the candidate child is a corridor, the rule
  compares the parent's *total* child count with the corridor limit
  (`Assets/Scripts/NodeGraph/RoomNodeSO.cs:225-227`). It does not count
  corridor children only.

## Model

| member | source | states |
|---|---|---|
| RoomNodeTypes.FindRoomNodeType | Assets/Scripts/NodeGraph/Editor/RoomNodeGraphEditor.cs:356-364 | `List.Find`: the first catalog entry with the entrance (or "none") flag, and `None` exactly when no entry has it |
| RoomNodeTypes.DisplayName | Assets/Scripts/NodeGraph/RoomNodeSO.cs:84-90 | a type is offered in the popup, under its name, exactly when it is flagged for display |
| HelperUtilities.ValidateCheckEmptyString | Assets/Scripts/Utilities/HelperUtilities.cs:7-10 | reports an error exactly for a null or empty string |
| HelperUtilities.CountPresent | Assets/Scripts/Utilities/HelperUtilities.cs:16-29 | the count of non-null items is zero exactly when every item is null, and never exceeds the length |
| HelperUtilities.CountPresentSnoc | Assets/Scripts/Utilities/HelperUtilities.cs:18-29 | one more loop step adds one to the count exactly when the item is non-null |
| HelperUtilities.ValidateCheckEnumerableValues | Assets/Scripts/Utilities/HelperUtilities.cs:12-35 | reports an error exactly when some item is null or no item is present; equivalently, succeeds exactly on a non-empty collection without nulls |
| NodeGraph.RoomNode.Initialize | Assets/Scripts/NodeGraph/RoomNodeSO.cs:22-32 | a new node has the given id, graph, type and catalog, is unselected and has no parent or child ids |
| NodeGraph.RoomNode.GetRoomNodeTypesToDisplay | Assets/Scripts/NodeGraph/RoomNodeSO.cs:81-93 | one slot per catalog entry, holding the entry's name exactly when the entry is displayed |
| NodeGraph.RoomNode.SelectRoomNodeType | Assets/Scripts/NodeGraph/RoomNodeSO.cs:40-71 | a node with a parent, or an entrance, is left as it is; otherwise the graph becomes `EdgeRemoval.ChangeRoomNodeType` of the old graph at the node's position; a well-formed graph stays well formed |
| NodeGraph.RoomNode.ChangeRoomNodeType | Assets/Scripts/NodeGraph/RoomNodeSO.cs:46-69 | the unlocked branch: the node takes the chosen type and the backward loop cuts its children when the change severs them; the new graph is `EdgeRemoval.ChangeRoomNodeType` of the old one |
| NodeGraph.RoomNode.AssignRoomNodeType | Assets/Scripts/NodeGraph/RoomNodeSO.cs:49 | only this node's type changes in the graph |
| NodeGraph.RoomNode.AddChild | Assets/Scripts/NodeGraph/RoomNodeSO.cs:178-187 | appends the child id exactly when the rule accepts it, answers whether it did, and otherwise changes nothing |
| NodeGraph.RoomNode.AddParent | Assets/Scripts/NodeGraph/RoomNodeSO.cs:239-243 | always appends the parent id and answers true |
| NodeGraph.RoomNode.RemoveChildRoomNodeIDFromRoomNode | Assets/Scripts/NodeGraph/RoomNodeSO.cs:245-253 | removes the first occurrence of the id and answers whether there was one |
| NodeGraph.RoomNode.RemoveParentRoomNodeIDFromRoomNode | Assets/Scripts/NodeGraph/RoomNodeSO.cs:255-264 | removes the first occurrence of the id and answers whether there was one |
| NodeGraph.ValuesOf | Assets/Scripts/NodeGraph/RoomNodeGraphSO.cs:11 | the value of the node list, position by position |
| NodeGraph.DictionaryOf | Assets/Scripts/NodeGraph/RoomNodeGraphSO.cs:19-27 | the dictionary the loader builds: its keys are exactly the listed ids, each maps to a listed node with that id, and to the last one carrying it |
| NodeGraph.RoomNodeGraph.constructor | Assets/Scripts/NodeGraph/RoomNodeGraphSO.cs:10-12 | an empty graph with no pending connection; it satisfies the invariant |
| NodeGraph.RoomNodeGraph.View | Assets/Scripts/NodeGraph/RoomNodeGraphSO.cs:11 | the graph's value has one entry per listed node, equal to that node's value |
| NodeGraph.RoomNodeGraph.LoadRoomNodeDictionary | Assets/Scripts/NodeGraph/RoomNodeGraphSO.cs:19-27 | clears the dictionary and rebuilds it from the list; with unique ids that restores the invariant |
| NodeGraph.RoomNodeGraph.Awake | Assets/Scripts/NodeGraph/RoomNodeGraphSO.cs:14-17 | rebuilds the dictionary from the list |
| NodeGraph.RoomNodeGraph.OnValidate | Assets/Scripts/NodeGraph/RoomNodeGraphSO.cs:47-50 | rebuilds the dictionary from the list |
| NodeGraph.RoomNodeGraph.GetRoomNodeById | Assets/Scripts/NodeGraph/RoomNodeGraphSO.cs:29-37 | under the invariant, answers non-null exactly when a listed node has the id, and then answers that node |
| NodeGraph.RoomNodeGraph.ConnectRoomNode | Assets/Scripts/NodeGraph/RoomNodeGraphSO.cs:52-56 | records the pending connection's source node and line position, and nothing else |
| NodeGraph.RoomNodeGraph.LookupAgrees | Assets/Scripts/NodeGraph/RoomNodeGraphSO.cs:19-37 | under the invariant, the dictionary resolves an id exactly when the value layer's `LastIndexOf` does, and to the node at that position |
| NodeGraph.RoomNodeGraph.PositionOf | Assets/Scripts/NodeGraph/RoomNodeGraphSO.cs:29-37 | every listed node sits where its id resolves |
| NodeGraph.RoomNodeGraph.CutChildLinks | Assets/Scripts/NodeGraph/RoomNodeSO.cs:56-69 | the backward loop over a node's child list; the graph becomes `EdgeRemoval.CutChildrenFrom` of the old graph from the last index down |
| NodeGraph.RoomNodeGraph.CutChildLinkAt | Assets/Scripts/NodeGraph/RoomNodeSO.cs:58-67 | one iteration of that loop: the graph becomes `EdgeRemoval.CutChildAt` of the old graph |
| NodeGraph.RoomNodeGraph.CutEdge | Assets/Scripts/NodeGraph/RoomNodeSO.cs:62-64 | removes the child id from the parent, then the parent id from the child; the graph becomes `EdgeRemoval.CutEdgeAt` |
| NodeGraph.RoomNodeGraph.RemoveChildAt | Assets/Scripts/NodeGraph/RoomNodeSO.cs:245-253 | on a listed node, only that node's child list changes in the graph |
| NodeGraph.RoomNodeGraph.RemoveParentAt | Assets/Scripts/NodeGraph/RoomNodeSO.cs:255-264 | on a listed node, only that node's parent list changes in the graph |
| GraphModel.LastIndexOf | Assets/Scripts/NodeGraph/RoomNodeGraphSO.cs:19-37 | the position a dictionary lookup resolves to: the last node with the id, or -1 exactly when no node has it |
| GraphModel.LookupUnique | Assets/Scripts/NodeGraph/RoomNodeGraphSO.cs:29-37 | with unique ids, every node's id resolves to that node's own position |
| GraphModel.RemoveParentId | Assets/Scripts/NodeGraph/RoomNodeSO.cs:255-264 | a lookup followed by a parent-id removal: only the resolved node's parent list loses the first occurrence of the id |
| GraphModel.RemoveChildId | Assets/Scripts/NodeGraph/RoomNodeSO.cs:245-253 | a lookup followed by a child-id removal: only the resolved node's child list loses the first occurrence of the id |
| GraphModel.WithSelection | Assets/Scripts/NodeGraph/Editor/RoomNodeGraphEditor.cs:256-267 | every node's selection flag is set to the given value and nothing else changes |
| GraphModel.WithSelectionKeepsWellFormed | Assets/Scripts/NodeGraph/Editor/RoomNodeGraphEditor.cs:346-354 | selecting or deselecting every node keeps the graph well formed |
| GraphModel.ShrunkKeepsShape | Assets/Scripts/NodeGraph/RoomNodeSO.cs:189-237 | removing ids from lists without changing types keeps every shape rule the connection rule established |
| EdgeRule.ConnectedBossNodeExists | Assets/Scripts/NodeGraph/RoomNodeSO.cs:191-199 | true exactly when some boss room already has a parent |
| EdgeRule.ChildRoomValid | Assets/Scripts/NodeGraph/RoomNodeSO.cs:189-237 | both directions: the rule accepts exactly when no second boss room gets connected, the child is neither "none" nor the entrance, there is no duplicate edge, self-loop or 2-cycle, the child has no parent, exactly one end is a corridor, and the fan-out limit on the parent's total child count holds |
| EdgeRule.Connect | Assets/Scripts/NodeGraph/Editor/RoomNodeGraphEditor.cs:203-208 | keeps ids, types and selection of every node |
| EdgeRule.ConnectBothHalvesOrNeither | Assets/Scripts/NodeGraph/Editor/RoomNodeGraphEditor.cs:203-208 | on a structurally sound graph, an accepted connection adds exactly the one edge, with both the child id and the parent id recorded; a rejected one changes nothing; no other edge changes |
| EdgeRule.ConnectKeepsWellFormed | Assets/Scripts/NodeGraph/RoomNodeSO.cs:189-237 | connecting through the rule keeps a well-formed graph well formed |
| EdgeRule.ConnectKeepsShape | Assets/Scripts/NodeGraph/RoomNodeSO.cs:201-234 | each fact the rule checks is enough to keep every shape rule after the new edge |
| EdgeRemoval.ChangeRoomNodeType | Assets/Scripts/NodeGraph/RoomNodeSO.cs:40-71 | the popup's effect on the graph value keeps every node's id and selection flag; only the chosen node's type changes, and only when it has no parent and is not the entrance |
| EdgeRemoval.ChangeRoomNodeTypeUnlocked | Assets/Scripts/NodeGraph/RoomNodeSO.cs:46-69 | an unlocked change assigns the type, then runs the backward child loop exactly when the change severs and the node has children |
| EdgeRemoval.ChangeRoomNodeTypeEffect | Assets/Scripts/NodeGraph/RoomNodeSO.cs:40-71 | a locked node is untouched; otherwise the node takes the chosen type and loses all its child edges exactly when the change severs; no other edge, type, id or selection changes |
| EdgeRemoval.ChangeRoomNodeTypeKeepsWellFormed | Assets/Scripts/NodeGraph/RoomNodeSO.cs:40-71 | a type change keeps a well-formed graph well formed |
| EdgeRemoval.CutChildrenFromEdges | Assets/Scripts/NodeGraph/RoomNodeSO.cs:56-69 | the backward loop removes exactly the edges to the children it visits that qualify |
| EdgeRemoval.CutChildrenFromKeeps | Assets/Scripts/NodeGraph/RoomNodeSO.cs:56-69 | the backward loop keeps the graph structurally sound and only shrinks id lists |
| EdgeRemoval.CutOneEdge | Assets/Scripts/NodeGraph/RoomNodeSO.cs:62-64 | removing both halves of one edge removes exactly that edge and keeps the graph structurally sound |
| EdgeRemoval.CutSelectedLinksFromKeeps | Assets/Scripts/NodeGraph/Editor/RoomNodeGraphEditor.cs:326-341 | the loop over selected nodes keeps the graph structurally sound and only shrinks id lists |
| EdgeRemoval.CutSelectedLinksFromEdges | Assets/Scripts/NodeGraph/Editor/RoomNodeGraphEditor.cs:326-341 | the loop over selected nodes removes exactly the edges between two selected nodes |
| EdgeRemoval.DeleteSelectedRoomNodeLinks | Assets/Scripts/NodeGraph/Editor/RoomNodeGraphEditor.cs:324-344 | the command keeps every node's id and type and leaves every node unselected |
| EdgeRemoval.DeleteSelectedRoomNodeLinksEffect | Assets/Scripts/NodeGraph/Editor/RoomNodeGraphEditor.cs:324-344 | removes exactly the edges whose two ends are both selected, leaves no node selected, keeps ids and types, and keeps the graph well formed |
| NodeDeletion.Survivors | Assets/Scripts/NodeGraph/Editor/RoomNodeGraphEditor.cs:312-321 | the nodes left are exactly those not selected or the entrance, taken from the input |
| NodeDeletion.Pruned | Assets/Scripts/NodeGraph/Editor/RoomNodeGraphEditor.cs:286-310 | every node's id lists lose exactly the deleted ids |
| NodeDeletion.DetachChildrenEffect | Assets/Scripts/NodeGraph/Editor/RoomNodeGraphEditor.cs:292-299 | the child loop removes the deleted node's id from the parent list of each of its children |
| NodeDeletion.DetachParentsEffect | Assets/Scripts/NodeGraph/Editor/RoomNodeGraphEditor.cs:301-308 | the parent loop removes the deleted node's id from the child list of each of its parents |
| NodeDeletion.DetachFromEffect | Assets/Scripts/NodeGraph/Editor/RoomNodeGraphEditor.cs:286-310 | finishing phase one from any point: every node that is not deleted has lost exactly the ids of the deleted nodes from both its lists |
| NodeDeletion.DeleteSelectedRoomNodesIsPruned | Assets/Scripts/NodeGraph/Editor/RoomNodeGraphEditor.cs:282-322 | the two-phase command equals keeping the survivors of the graph with the deleted ids pruned |
| NodeDeletion.SurvivorsUniqueIds | Assets/Scripts/NodeGraph/Editor/RoomNodeGraphEditor.cs:312-321 | removing nodes keeps ids unique |
| NodeDeletion.SurvivorIds | Assets/Scripts/NodeGraph/Editor/RoomNodeGraphEditor.cs:282-322 | the ids left are exactly the old ids minus the deleted ones |
| NodeDeletion.DeleteSelectedRoomNodesEffect | Assets/Scripts/NodeGraph/Editor/RoomNodeGraphEditor.cs:282-322 | the result is well formed, no id it keeps or mentions was deleted, the entrance survives, and every survivor is unselected or the entrance |
| NodeCreation.CreateRoomNodeWithType | Assets/Scripts/NodeGraph/Editor/RoomNodeGraphEditor.cs:366-380 | appends exactly one node, with the given id and type, no links and no selection, and keeps the existing ones |
| NodeCreation.CreateRoomNodeWithTypeKeepsWellFormed | Assets/Scripts/NodeGraph/Editor/RoomNodeGraphEditor.cs:366-380 | with a fresh id, the new node has no edge, the old nodes are unchanged, the ids gain exactly the new one, and the graph stays well formed |
| NodeCreation.CreateFirstRoomNodes | Assets/Scripts/NodeGraph/Editor/RoomNodeGraphEditor.cs:358-363 | on an empty graph, creation yields an entrance then a "none" node, with no edges, and the graph is well formed |
| NodeCreation.CreateRoomNodeEffect | Assets/Scripts/NodeGraph/Editor/RoomNodeGraphEditor.cs:356-364 | when both catalog lookups succeed: creation on an empty graph adds the entrance first; every creation ends with a fresh "none" node, keeps the old nodes, and keeps the graph well formed |
| NodeCreation.CreateRoomNodeFails | Assets/Scripts/NodeGraph/Editor/RoomNodeGraphEditor.cs:356-364 | creation yields no graph exactly when the graph is empty and the catalog has no entrance type, or the catalog has no "none" type |
| NodeCreation.CreateOnEmpty | Assets/Scripts/NodeGraph/Editor/RoomNodeGraphEditor.cs:358-363 | on an empty graph with both types in the catalog: an entrance then a fresh "none" node, well formed |
| NodeCreation.CreateOnNonEmpty | Assets/Scripts/NodeGraph/Editor/RoomNodeGraphEditor.cs:363 | on a non-empty graph with a "none" type in the catalog: one fresh "none" node at the end, the old nodes kept, well formed |
| GraphEditor.RoomNodeGraphEditor.constructor | Assets/Scripts/NodeGraph/Editor/RoomNodeGraphEditor.cs:10-11 | the editor works on the given graph and type catalog |
| GraphEditor.RoomNodeGraphEditor.ClearLineDrag | Assets/Scripts/NodeGraph/Editor/RoomNodeGraphEditor.cs:215-220 | clears the pending connection and the line position, and leaves the graph as it was |
| GraphEditor.CreatedWellFormed | Assets/Scripts/NodeGraph/Editor/RoomNodeGraphEditor.cs:356-364 | with fresh ids, a successful "Create Room Node" keeps a well-formed graph well formed |
| GraphEditor.SelectionWellFormed | Assets/Scripts/NodeGraph/Editor/RoomNodeGraphEditor.cs:256-267 | setting every selection flag to one value keeps a well-formed graph well formed |
| GraphEditor.ConnectionWellFormed | Assets/Scripts/NodeGraph/Editor/RoomNodeGraphEditor.cs:205-208 | a connection between two listed nodes, through the rule, keeps a well-formed graph well formed |
| GraphEditor.LinkDeletionWellFormed | Assets/Scripts/NodeGraph/Editor/RoomNodeGraphEditor.cs:324-344 | "Delete Selected Room Node Links" keeps a well-formed graph well formed |
| GraphEditor.NodeDeletionWellFormed | Assets/Scripts/NodeGraph/Editor/RoomNodeGraphEditor.cs:282-322 | "Delete Selected Room Nodes" keeps a well-formed graph well formed |
| NodeGraph.TypeChangeWellFormed | Assets/Scripts/NodeGraph/RoomNodeSO.cs:40-71 | the type popup's effect keeps a well-formed graph well formed |
| GraphEditor.RoomNodeGraphEditor.ProcessMouseUpEvent | Assets/Scripts/NodeGraph/Editor/RoomNodeGraphEditor.cs:199-213 | a right-button release while dragging a line connects the source to the node under the mouse through the rule, if there is one, then clears the line; any other event changes nothing; the invariant is kept, and a well-formed graph stays well formed |
| GraphEditor.RoomNodeGraphEditor.ConnectFromPending | Assets/Scripts/NodeGraph/Editor/RoomNodeGraphEditor.cs:205-208 | `AddChild` then, only if it succeeded, `AddParent`; the graph becomes `EdgeRule.Connect` of the old graph, which stays well formed if it was |
| GraphEditor.RoomNodeGraphEditor.AddChildLink | Assets/Scripts/NodeGraph/Editor/RoomNodeGraphEditor.cs:205 | answers the rule's verdict on the old graph, and appends the child id exactly when it is true |
| GraphEditor.RoomNodeGraphEditor.AddParentLink | Assets/Scripts/NodeGraph/Editor/RoomNodeGraphEditor.cs:207 | only the target's parent list changes, by appending the source id |
| GraphEditor.RoomNodeGraphEditor.ClearAllSelectedRoomNodes | Assets/Scripts/NodeGraph/Editor/RoomNodeGraphEditor.cs:256-267 | every node ends up unselected and nothing else changes; a well-formed graph stays well formed |
| GraphEditor.RoomNodeGraphEditor.SelectAllRoomNodes | Assets/Scripts/NodeGraph/Editor/RoomNodeGraphEditor.cs:346-354 | every node ends up selected and nothing else changes; a well-formed graph stays well formed |
| GraphEditor.RoomNodeGraphEditor.DeletedSelctedRoomNodeLinks | Assets/Scripts/NodeGraph/Editor/RoomNodeGraphEditor.cs:324-344 | the graph becomes `EdgeRemoval.DeleteSelectedRoomNodeLinks` of the old graph; a well-formed graph stays well formed |
| GraphEditor.RoomNodeGraphEditor.CutSelectedRoomNodeLinks | Assets/Scripts/NodeGraph/Editor/RoomNodeGraphEditor.cs:326-341 | the loop over all nodes; the graph becomes `EdgeRemoval.CutSelectedLinksFrom` of the old graph |
| GraphEditor.RoomNodeGraphEditor.CutSelectedChildLinks | Assets/Scripts/NodeGraph/Editor/RoomNodeGraphEditor.cs:328-340 | for one node: a selected node with children loses the links to its selected children, and any other node is left alone |
| GraphEditor.RoomNodeGraphEditor.CreateRoomNode | Assets/Scripts/NodeGraph/Editor/RoomNodeGraphEditor.cs:356-364 | keeps the invariant; answers false and leaves the graph alone exactly when `NodeCreation.CreateRoomNode` yields nothing, and otherwise the graph becomes its result; a well-formed graph stays well formed |
| GraphEditor.RoomNodeGraphEditor.CreateRoomNodeWithType | Assets/Scripts/NodeGraph/Editor/RoomNodeGraphEditor.cs:366-380 | keeps the invariant, makes the new id resolvable, and the graph becomes `NodeCreation.CreateRoomNodeWithType` of the old graph |
| GraphEditor.RoomNodeGraphEditor.AddRoomNode | Assets/Scripts/NodeGraph/Editor/RoomNodeGraphEditor.cs:371-379 | adds the node to the list and reloads the dictionary: the invariant holds again, the id resolves, and the graph gains exactly that node at the end |
| GraphEditor.RoomNodeGraphEditor.DeletedSelctedRoomNodes | Assets/Scripts/NodeGraph/Editor/RoomNodeGraphEditor.cs:282-322 | keeps the invariant, and the graph becomes `NodeDeletion.DeleteSelectedRoomNodes` of the old graph; a well-formed graph stays well formed |
| GraphEditor.RoomNodeGraphEditor.DetachSelectedRoomNodes | Assets/Scripts/NodeGraph/Editor/RoomNodeGraphEditor.cs:286-310 | phase one: keeps the list, detaches every deletable node from its neighbours, and queues exactly the deletable nodes in list order |
| GraphEditor.RoomNodeGraphEditor.DetachRoomNode | Assets/Scripts/NodeGraph/Editor/RoomNodeGraphEditor.cs:288-309 | one iteration: a deletable node is queued and detached from its children and parents; any other node is left alone |
| GraphEditor.RoomNodeGraphEditor.DetachFromChildren | Assets/Scripts/NodeGraph/Editor/RoomNodeGraphEditor.cs:292-299 | each child found by lookup forgets the node as a parent |
| GraphEditor.RoomNodeGraphEditor.DetachFromParents | Assets/Scripts/NodeGraph/Editor/RoomNodeGraphEditor.cs:301-308 | each parent found by lookup forgets the node as a child |
| GraphEditor.RoomNodeGraphEditor.ForgetParent | Assets/Scripts/NodeGraph/Editor/RoomNodeGraphEditor.cs:294-298 | a lookup then a parent-id removal: the graph becomes `GraphModel.RemoveParentId` of the old graph |
| GraphEditor.RoomNodeGraphEditor.ForgetChild | Assets/Scripts/NodeGraph/Editor/RoomNodeGraphEditor.cs:303-307 | a lookup then a child-id removal: the graph becomes `GraphModel.RemoveChildId` of the old graph |
| GraphEditor.RoomNodeGraphEditor.RemoveQueuedRoomNodes | Assets/Scripts/NodeGraph/Editor/RoomNodeGraphEditor.cs:312-321 | phase two: the list loses exactly the queued nodes, keeping the others in order, and the invariant holds again |
| GraphEditor.RoomNodeGraphEditor.RemoveRoomNode | Assets/Scripts/NodeGraph/Editor/RoomNodeGraphEditor.cs:314-317 | one dequeue: the dictionary entry and the first list occurrence of the node are removed, and the dictionary still indexes the list |
| GraphEditor.DeletableNodes | Assets/Scripts/NodeGraph/Editor/RoomNodeGraphEditor.cs:284-290 | the queue after a prefix of phase one (the nodes of that prefix that are selected and not the entrance, in order) holds only listed nodes |
| GraphEditor.DeletionPlan | Assets/Scripts/NodeGraph/Editor/RoomNodeGraphEditor.cs:282-322 | the nodes phase two keeps are exactly the survivors of the detached graph, so the two phases together compute `NodeDeletion.DeleteSelectedRoomNodes` |
| GraphEditor.RemoveFromDictionary | Assets/Scripts/NodeGraph/Editor/RoomNodeGraphEditor.cs:315-317 | removing a listed node from the list keeps ids unique, and the dictionary the loader builds from the shorter list is the old one without that id |
| GraphEditor.DetachThroughAll | Assets/Scripts/NodeGraph/Editor/RoomNodeGraphEditor.cs:286-310 | running phase one over the whole list gives the value-level detachment |
| GraphEditor.CutSelectedThroughAll | Assets/Scripts/NodeGraph/Editor/RoomNodeGraphEditor.cs:326-341 | running the link loop over the whole list gives `EdgeRemoval.CutSelectedLinksFrom` |
| GraphEditor.SelectionUpToEnds | Assets/Scripts/NodeGraph/Editor/RoomNodeGraphEditor.cs:256-267 | the selection loop over the whole list gives `GraphModel.WithSelection` |
| IdLists.RemoveFirst | Assets/Scripts/NodeGraph/RoomNodeSO.cs:245-264 | `List.Remove`: the identity when the item is absent, one element shorter when it is present |
| IdLists.RemoveFirstSplit | Assets/Scripts/NodeGraph/RoomNodeSO.cs:245-264 | `List.Remove` cuts out exactly the first occurrence: the result is the list before it followed by the list after it |
| IdLists.RemoveFirstIsExcept | Assets/Scripts/NodeGraph/RoomNodeSO.cs:245-264 | on a list without duplicates, removing one more id from the filtered list is the same as filtering that id out too |

## Left out

- Drawing is left out. That covers the IMGUI node boxes, labels and popup
  rendering, the connection lines and arrows, and the dragged line
  (`DrawRoomConnections`, `DrawConnectionLine`, `DrawDraggedLine`,
  `DrawRoomNodes`, `RoomNodeSO.Draw` apart from its type popup). None of it
  changes the graph.
- Mouse geometry is left out. `TryGetRoomNodeMouseIsOver` hit-tests
  floating-point rectangles, so `ProcessMouseUpEvent` receives the node under
  the mouse, or null, as a parameter.
- Node dragging, line dragging, the context menu and Unity's event dispatch
  are left out: `ProcessEvents`, the mouse-down and mouse-drag handlers,
  `DragNode`, `DragConnectingLine` and `ShowContextMenu`. They only move
  rectangles or route events to the commands that are modelled.
- Clicking a node to toggle its selection (`ProcessLeftClickDownEvent`) is
  not modelled on its own. Setting a flag on one node is the step inside
  `SelectAllRoomNodes` and `ClearAllSelectedRoomNodes`.
- Asset persistence is left out: `AddObjectToAsset`, `SaveAssets`,
  `DestroyImmediate` and `SetDirty`. A removed node simply leaves the list
  and the dictionary.
- `Guid.NewGuid` is replaced by ids passed in by the caller, with
  preconditions that they are fresh.
- `GameResources` and the asset catalog are replaced by a type-list
  parameter.
- `Settings.MaxChildCorridors` is replaced by the graph constant
  `maxChildCorridors`.
- `Debug.Log` output is left out. The validators return their verdict only.
- The validators' `thisObject` and `fieldName` arguments are left out,
  because they are used only in log messages.
- NodeCreation.CreateRoomNode and GraphEditor.RoomNodeGraphEditor.CreateRoomNode
  do not model the null-typed node. When `List.Find` finds no entrance type
  (on an empty graph) or no "none" type, the source goes on and adds a node
  whose type is null. A node without a type has no value here, so the
  function yields `None`, the method answers false, and the graph is left
  unchanged.
- HelperUtilities.ValidateCheckEnumerableValues does not model a null
  collection. The source's `foreach` would throw on one
  (`Assets/Scripts/Utilities/HelperUtilities.cs:18`); the model takes a
  sequence, which always exists.
- NodeGraph.RoomNode.GetRoomNodeTypesToDisplay returns `Option` slots. The
  source leaves a null string in the slot of a hidden type.
- NodeGraph.RoomNode.SelectRoomNodeType takes the popup's chosen index as a
  parameter. The popup widget itself is not modelled.
- NodeGraph.RoomNode.SelectRoomNodeType requires the current type to be in
  the catalog and the chosen index to be in range. The source would throw on
  an out-of-range index; that exception path is not modelled.
- NodeGraph.RoomNode.AddChild requires the child id to be in the
  dictionary. The source dereferences the lookup without a null check.
  Every caller passes an id of a listed node.
- The editor's `OnEnable`, `OnDisable`, `SelectionChanged`,
  `OnDoubleClickAsset` and `OnGUI` are not modelled. They manage the window
  and choose which graph asset is open. The model starts from a given graph.
