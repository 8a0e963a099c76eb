/**
 * The two ScriptableObjects of the graph, as objects updated in place:
 * RoomNode (RoomNodeSO) with its id lists, and RoomNodeGraph
 * (RoomNodeGraphSO) with the node list, the id dictionary and the pending
 * connection. `View()` is the graph's value as a `seq<NodeValue>`; the
 * commands are specified by functions on that value.
 */
module NodeGraph {
  import opened Wrappers
  import opened IdLists
  import opened RoomNodeTypes
  import opened GraphModel
  import EdgeRule
  import EdgeRemoval

  /** An editor-space position; the model never computes with it. */
  datatype Vector2 = Vector2(x: real, y: real)

  const Zero: Vector2 := Vector2(0.0, 0.0)

  class RoomNode {
    const id: string
    const roomNodeGraph: RoomNodeGraph
    const roomNodeTypeList: seq<RoomNodeType>
    var roomNodeType: RoomNodeType
    var parentRoomNodeIDList: seq<string>
    var childRoomNodeIDList: seq<string>
    var isSelected: bool

    /** `CreateInstance` followed by `Initialize`: a fresh node with no edges. */
    constructor Initialize(roomNodeId: string, nodeGraph: RoomNodeGraph, nodeType: RoomNodeType,
                           typeList: seq<RoomNodeType>)
      ensures id == roomNodeId && roomNodeGraph == nodeGraph && roomNodeTypeList == typeList
      ensures roomNodeType == nodeType && !isSelected
      ensures parentRoomNodeIDList == [] && childRoomNodeIDList == []
    {
      id := roomNodeId;
      roomNodeGraph := nodeGraph;
      roomNodeTypeList := typeList;
      roomNodeType := nodeType;
      parentRoomNodeIDList := [];
      childRoomNodeIDList := [];
      isSelected := false;
    }

    function Value(): NodeValue
      reads this
    {
      NodeValue(id, roomNodeType, parentRoomNodeIDList, childRoomNodeIDList, isSelected)
    }

    /**
     * The names the type popup offers, by catalog position; a hidden type
     * leaves its slot empty.
     */
    method GetRoomNodeTypesToDisplay() returns (roomArray: array<Option<string>>)
      ensures roomArray.Length == |roomNodeTypeList|
      ensures forall i :: 0 <= i < roomArray.Length ==>
        (roomArray[i].Some? <==> roomNodeTypeList[i].displayNodeGraphEditor) &&
        (roomArray[i].Some? ==> roomArray[i].value == roomNodeTypeList[i].roomNodeTypeName)
    {
      roomArray := new Option<string>[|roomNodeTypeList|](_ => None);
      var i := 0;
      while i < |roomNodeTypeList|
        invariant 0 <= i <= |roomNodeTypeList|
        invariant forall j :: 0 <= j < i ==> roomArray[j] == DisplayName(roomNodeTypeList[j])
        invariant forall j :: i <= j < roomArray.Length ==> roomArray[j] == None
      {
        if roomNodeTypeList[i].displayNodeGraphEditor {
          roomArray[i] := Some(roomNodeTypeList[i].roomNodeTypeName);
        }
        i := i + 1;
      }
    }

    /** `IsChildRoomValid`: the rule, with the child found through the graph's dictionary. */
    function IsChildRoomValid(childId: string): bool
      reads this, roomNodeGraph, roomNodeGraph.roomNodeList, roomNodeGraph.roomNodeDictionary.Values
      requires childId in roomNodeGraph.roomNodeDictionary
    {
      EdgeRule.ChildRoomValid(EdgeRule.ConnectedBossNodeExists(roomNodeGraph.View()), Value(), childId,
                              roomNodeGraph.roomNodeDictionary[childId].Value(), roomNodeGraph.maxChildCorridors)
    }

    /**
     * The type popup drawn on the node: a node with a parent, or the
     * entrance, only shows its type. Otherwise the type at `selection` in
     * the catalog replaces the current one, and when that switches between
     * corridor and room, or turns the node into a boss room, every child
     * edge is cut.
     */
    method SelectRoomNodeType(selection: int)
      requires roomNodeGraph.Valid() && this in roomNodeGraph.roomNodeList
      requires |parentRoomNodeIDList| == 0 && !roomNodeType.isEntrance ==>
        roomNodeType in roomNodeTypeList && 0 <= selection < |roomNodeTypeList|
      modifies set n | n in roomNodeGraph.roomNodeList
      ensures var v := old(roomNodeGraph.View());
              var k := LastIndexOf(v, id);
              && 0 <= k
              && (old(|parentRoomNodeIDList| > 0 || roomNodeType.isEntrance) ==> roomNodeGraph.View() == v)
              && (old(|parentRoomNodeIDList| == 0 && !roomNodeType.isEntrance) ==>
                    roomNodeGraph.View() == EdgeRemoval.ChangeRoomNodeType(v, k, roomNodeTypeList[selection]))
      ensures WellFormed(old(roomNodeGraph.View()), roomNodeGraph.maxChildCorridors) ==>
              WellFormed(roomNodeGraph.View(), roomNodeGraph.maxChildCorridors)
    {
      ghost var v := roomNodeGraph.View();
      roomNodeGraph.PositionOf(this);
      ghost var k := LastIndexOf(v, id);
      if |parentRoomNodeIDList| > 0 || roomNodeType.isEntrance {
        return;
      }
      TypeChangeWellFormed(v, k, roomNodeTypeList[selection], roomNodeGraph.maxChildCorridors);
      var selected := FirstIndexOf(roomNodeTypeList, roomNodeType);
      var selectedRoomNodeType := roomNodeTypeList[selected];
      ChangeRoomNodeType(selectedRoomNodeType, roomNodeTypeList[selection], k);
    }

    /** The unlocked branch of the popup: assign the chosen type, then cut the children if that severs them. */
    method ChangeRoomNodeType(selectedRoomNodeType: RoomNodeType, chosen: RoomNodeType, ghost k: nat)
      requires roomNodeGraph.Valid() && k < |roomNodeGraph.roomNodeList| && roomNodeGraph.roomNodeList[k] == this
      requires selectedRoomNodeType == roomNodeType && |parentRoomNodeIDList| == 0 && !roomNodeType.isEntrance
      modifies set n | n in roomNodeGraph.roomNodeList
      ensures roomNodeGraph.View() == EdgeRemoval.ChangeRoomNodeType(old(roomNodeGraph.View()), k, chosen)
    {
      ghost var v := roomNodeGraph.View();
      EdgeRemoval.ChangeRoomNodeTypeUnlocked(v, k, chosen);
      AssignRoomNodeType(chosen, k);
      if (selectedRoomNodeType.isCorridor && !roomNodeType.isCorridor) ||
         (!selectedRoomNodeType.isCorridor && roomNodeType.isCorridor) ||
         (!selectedRoomNodeType.isBossRoom && roomNodeType.isBossRoom)
      {
        if |childRoomNodeIDList| > 0 {
          roomNodeGraph.CutChildLinks(this, k, false);
        }
      }
    }

    /** The assignment alone: only this node's type changes. */
    method AssignRoomNodeType(chosen: RoomNodeType, ghost k: nat)
      requires roomNodeGraph.Valid() && k < |roomNodeGraph.roomNodeList| && roomNodeGraph.roomNodeList[k] == this
      modifies this`roomNodeType
      ensures roomNodeType == chosen
      ensures var v := old(roomNodeGraph.View()); roomNodeGraph.View() == v[k := v[k].(roomNodeType := chosen)]
    {
      label before:
      roomNodeType := chosen;
      assert roomNodeGraph.View() == old@before(roomNodeGraph.View())[k := Value()] by {
        roomNodeGraph.ViewUpdatedAt@before(k);
      }
    }

    /** Appends `childID` exactly when the rule accepts it; otherwise changes nothing. */
    method AddChild(childID: string) returns (added: bool)
      requires childID in roomNodeGraph.roomNodeDictionary
      modifies this`childRoomNodeIDList
      ensures added == old(IsChildRoomValid(childID))
      ensures childRoomNodeIDList == if added then old(childRoomNodeIDList) + [childID] else old(childRoomNodeIDList)
    {
      if IsChildRoomValid(childID) {
        childRoomNodeIDList := childRoomNodeIDList + [childID];
        return true;
      }
      return false;
    }

    /** Always appends the parent id and answers true. */
    method AddParent(parentID: string) returns (added: bool)
      modifies this`parentRoomNodeIDList
      ensures added
      ensures parentRoomNodeIDList == old(parentRoomNodeIDList) + [parentID]
    {
      parentRoomNodeIDList := parentRoomNodeIDList + [parentID];
      return true;
    }

    /** Removes the first occurrence of `childID`; answers whether there was one. */
    method RemoveChildRoomNodeIDFromRoomNode(childID: string) returns (removed: bool)
      modifies this`childRoomNodeIDList
      ensures removed <==> childID in old(childRoomNodeIDList)
      ensures childRoomNodeIDList == RemoveFirst(old(childRoomNodeIDList), childID)
    {
      if childID in childRoomNodeIDList {
        childRoomNodeIDList := RemoveFirst(childRoomNodeIDList, childID);
        return true;
      }
      return false;
    }

    /** Removes the first occurrence of `parentID`; answers whether there was one. */
    method RemoveParentRoomNodeIDFromRoomNode(parentID: string) returns (removed: bool)
      modifies this`parentRoomNodeIDList
      ensures removed <==> parentID in old(parentRoomNodeIDList)
      ensures parentRoomNodeIDList == RemoveFirst(old(parentRoomNodeIDList), parentID)
    {
      if parentID in parentRoomNodeIDList {
        parentRoomNodeIDList := RemoveFirst(parentRoomNodeIDList, parentID);
        return true;
      }
      return false;
    }
  }

  /** A type change keeps a well-formed graph well-formed. */
  lemma TypeChangeWellFormed(v: seq<NodeValue>, k: nat, chosen: RoomNodeType, maxChildCorridors: nat)
    requires k < |v|
    ensures WellFormed(v, maxChildCorridors) ==>
            WellFormed(EdgeRemoval.ChangeRoomNodeType(v, k, chosen), maxChildCorridors)
  {
    if WellFormed(v, maxChildCorridors) {
      EdgeRemoval.ChangeRoomNodeTypeKeepsWellFormed(v, k, chosen, maxChildCorridors);
    }
  }

  /** The node values of `nodes`, in order. */
  function ValuesOf(nodes: seq<RoomNode>): (v: seq<NodeValue>)
    reads set n | n in nodes
    ensures |v| == |nodes|
    ensures forall i :: 0 <= i < |nodes| ==> v[i] == nodes[i].Value()
  {
    if |nodes| == 0 then [] else [nodes[0].Value()] + ValuesOf(nodes[1..])
  }

  /** The dictionary `LoadRoomNodeDictionary` builds from `nodes`: every id, mapped to the last node carrying it. */
  function DictionaryOf(nodes: seq<RoomNode>): (d: map<string, RoomNode>)
    ensures d.Keys == set n | n in nodes :: n.id
    ensures forall i :: 0 <= i < |nodes| && (forall j :: i < j < |nodes| ==> nodes[j].id != nodes[i].id) ==>
      d[nodes[i].id] == nodes[i]
    ensures forall k :: k in d ==> d[k] in nodes && d[k].id == k
  {
    if |nodes| == 0 then map[]
    else
      var last := nodes[|nodes| - 1];
      var front := nodes[..|nodes| - 1];
      var d := DictionaryOf(front)[last.id := last];
      assert nodes == front + [last];
      assert forall i :: 0 <= i < |nodes| - 1 ==> nodes[i] == front[i];
      d
  }

  /** Distinct positions hold nodes with distinct ids. */
  ghost predicate UniqueNodeIds(nodes: seq<RoomNode>) {
    forall i, j :: 0 <= i < |nodes| && 0 <= j < |nodes| && nodes[i].id == nodes[j].id ==> i == j
  }

  class RoomNodeGraph {
    const roomNodeTypeList: seq<RoomNodeType>
    const maxChildCorridors: nat
    var roomNodeList: seq<RoomNode>
    var roomNodeDictionary: map<string, RoomNode>
    var roomNodeFrom: RoomNode?
    var linePosition: Vector2

    /**
     * The graph invariant every editor command keeps: ids are unique, every
     * node belongs to this graph, and the dictionary indexes the list.
     */
    ghost predicate Valid()
      reads this
    {
      && UniqueNodeIds(roomNodeList)
      && (forall n :: n in roomNodeList ==> n.roomNodeGraph == this)
      && roomNodeDictionary == DictionaryOf(roomNodeList)
    }

    constructor (typeList: seq<RoomNodeType>, maxChildren: nat)
      ensures roomNodeTypeList == typeList && maxChildCorridors == maxChildren
      ensures roomNodeList == [] && roomNodeFrom == null && linePosition == Zero
      ensures Valid()
    {
      roomNodeTypeList := typeList;
      maxChildCorridors := maxChildren;
      roomNodeList := [];
      roomNodeDictionary := map[];
      roomNodeFrom := null;
      linePosition := Zero;
    }

    function View(): (v: seq<NodeValue>)
      reads this, set n | n in roomNodeList
      ensures |v| == |roomNodeList|
      ensures forall i :: 0 <= i < |roomNodeList| ==> v[i] == roomNodeList[i].Value()
    {
      ValuesOf(roomNodeList)
    }

    /** Clears the dictionary and maps every listed node's id to it, later nodes overwriting earlier ones. */
    method LoadRoomNodeDictionary()
      modifies this`roomNodeDictionary
      ensures roomNodeDictionary == DictionaryOf(roomNodeList)
      ensures UniqueNodeIds(roomNodeList) && (forall n :: n in roomNodeList ==> n.roomNodeGraph == this) ==> Valid()
    {
      roomNodeDictionary := map[];
      var i := 0;
      while i < |roomNodeList|
        invariant 0 <= i <= |roomNodeList|
        invariant roomNodeDictionary == DictionaryOf(roomNodeList[..i])
      {
        var node := roomNodeList[i];
        assert roomNodeList[..i + 1][..i] == roomNodeList[..i];
        roomNodeDictionary := roomNodeDictionary[node.id := node];
        i := i + 1;
      }
      assert roomNodeList[..i] == roomNodeList;
    }

    method Awake()
      modifies this`roomNodeDictionary
      ensures roomNodeDictionary == DictionaryOf(roomNodeList)
      ensures UniqueNodeIds(roomNodeList) && (forall n :: n in roomNodeList ==> n.roomNodeGraph == this) ==> Valid()
    {
      LoadRoomNodeDictionary();
    }

    method OnValidate()
      modifies this`roomNodeDictionary
      ensures roomNodeDictionary == DictionaryOf(roomNodeList)
      ensures UniqueNodeIds(roomNodeList) && (forall n :: n in roomNodeList ==> n.roomNodeGraph == this) ==> Valid()
    {
      LoadRoomNodeDictionary();
    }

    /** The dictionary lookup: the node with that id, or null. */
    function GetRoomNodeById(roomNodeId: string): (roomNode: RoomNode?)
      reads this
      ensures Valid() ==> (roomNode != null <==> exists n :: n in roomNodeList && n.id == roomNodeId)
      ensures Valid() && roomNode != null ==> roomNode in roomNodeList && roomNode.id == roomNodeId
    {
      if roomNodeId in roomNodeDictionary then roomNodeDictionary[roomNodeId] else null
    }

    /** Starts a pending connection from `roomNode` at `position`; the graph itself is untouched. */
    method ConnectRoomNode(roomNode: RoomNode, position: Vector2)
      modifies this`roomNodeFrom, this`linePosition
      ensures roomNodeFrom == roomNode && linePosition == position
    {
      roomNodeFrom := roomNode;
      linePosition := position;
    }

    /** Under the invariant, the dictionary and the view resolve every id to the same node. */
    lemma LookupAgrees(roomNodeId: string)
      requires Valid()
      ensures roomNodeId in roomNodeDictionary <==> LastIndexOf(View(), roomNodeId) >= 0
      ensures roomNodeId in roomNodeDictionary ==>
        roomNodeDictionary[roomNodeId] == roomNodeList[LastIndexOf(View(), roomNodeId)]
    {
      var v := View();
      var k := LastIndexOf(v, roomNodeId);
      if roomNodeId in roomNodeDictionary {
        var n := roomNodeDictionary[roomNodeId];
        var i :| 0 <= i < |roomNodeList| && roomNodeList[i] == n;
        assert v[i].id == roomNodeId;
        InIds(v, i);
      }
    }

    /** A listed node sits where the dictionary resolves its id. */
    lemma PositionOf(n: RoomNode)
      requires Valid() && n in roomNodeList
      ensures 0 <= LastIndexOf(View(), n.id) && roomNodeList[LastIndexOf(View(), n.id)] == n
    {
      var v := View();
      var i :| 0 <= i < |roomNodeList| && roomNodeList[i] == n;
      InIds(v, i);
      var k := LastIndexOf(v, n.id);
      assert roomNodeList[k].id == roomNodeList[i].id;
    }

    lemma ViewUniqueIds()
      requires Valid()
      ensures UniqueIds(View())
    {
    }

    /** When only the node at `k` changed, the view changed at `k` only. */
    twostate lemma ViewUpdatedAt(k: nat)
      requires old(roomNodeList) == roomNodeList && UniqueNodeIds(roomNodeList) && k < |roomNodeList|
      requires forall n :: n in roomNodeList && n != roomNodeList[k] ==> unchanged(n)
      ensures View() == old(View())[k := roomNodeList[k].Value()]
    {
      forall m | 0 <= m < |roomNodeList| && m != k ensures unchanged(roomNodeList[m]) {
        assert roomNodeList[m] in roomNodeList && roomNodeList[m].id != roomNodeList[k].id;
      }
    }

    /**
     * The backward loop over the child list of `node` (at position `k`)
     * shared by the type popup and "Delete Selected Room Node Links": each
     * child found through the dictionary (and, if `selectedOnly`, selected)
     * is cut, first from `node`'s child list, then from its own parent list.
     */
    method CutChildLinks(node: RoomNode, ghost k: nat, selectedOnly: bool)
      requires Valid() && k < |roomNodeList| && roomNodeList[k] == node
      modifies set n | n in roomNodeList
      ensures View() == EdgeRemoval.CutChildrenFrom(old(View()), k, |old(node.childRoomNodeIDList)| - 1, selectedOnly)
    {
      ghost var v0 := View();
      ghost var start := |node.childRoomNodeIDList| - 1;
      var i := |node.childRoomNodeIDList| - 1;
      while i >= 0
        invariant -1 <= i < |node.childRoomNodeIDList|
        invariant View()[k] == node.Value() && |View()| == |v0|
        invariant EdgeRemoval.CutChildrenFrom(View(), k, i, selectedOnly)
                  == EdgeRemoval.CutChildrenFrom(v0, k, start, selectedOnly)
        decreases i + 1
      {
        ghost var v := View();
        EdgeRemoval.CutChildrenFromUnfold(v, k, i, selectedOnly);
        CutChildLinkAt(node, k, i, selectedOnly);
        i := i - 1;
      }
      EdgeRemoval.CutChildrenFromDone(View(), k, selectedOnly);
    }

    /** One iteration of that loop, at position `i`. */
    method CutChildLinkAt(node: RoomNode, ghost k: nat, i: nat, selectedOnly: bool)
      requires Valid() && k < |roomNodeList| && roomNodeList[k] == node && i < |node.childRoomNodeIDList|
      modifies set n | n in roomNodeList
      ensures View() == EdgeRemoval.CutChildAt(old(View()), k, i, selectedOnly)
    {
      ghost var v := View();
      var childId := node.childRoomNodeIDList[i];
      var childRoomNode := GetRoomNodeById(childId);
      LookupAgrees(childId);
      if childRoomNode != null && (!selectedOnly || childRoomNode.isSelected) {
        ghost var j := LastIndexOf(v, childId);
        assert childRoomNode == roomNodeList[j] && v[j].id == childId;
        CutEdge(node, k, childRoomNode, j);
      } else {
        assert EdgeRemoval.CutChildAt(v, k, i, selectedOnly) == v;
      }
    }

    /** Removes the edge from the node at `k` to the node at `j`, child half first. */
    method CutEdge(node: RoomNode, ghost k: nat, childRoomNode: RoomNode, ghost j: nat)
      requires Valid() && k < |roomNodeList| && roomNodeList[k] == node
      requires j < |roomNodeList| && roomNodeList[j] == childRoomNode
      modifies node`childRoomNodeIDList, childRoomNode`parentRoomNodeIDList
      ensures View() == EdgeRemoval.CutEdgeAt(old(View()), k, j)
    {
      RemoveChildAt(node, k, childRoomNode.id);
      RemoveParentAt(childRoomNode, j, node.id);
    }

    /** `RemoveChildRoomNodeIDFromRoomNode` on the node at `k`: only its child list changes. */
    method RemoveChildAt(roomNode: RoomNode, ghost k: nat, childId: string)
      requires Valid() && k < |roomNodeList| && roomNodeList[k] == roomNode
      modifies roomNode`childRoomNodeIDList
      ensures var v := old(View()); View() == v[k := v[k].(childIds := RemoveFirst(v[k].childIds, childId))]
    {
      label before:
      var removed := roomNode.RemoveChildRoomNodeIDFromRoomNode(childId);
      assert View() == old@before(View())[k := roomNode.Value()] by {
        ViewUpdatedAt@before(k);
      }
    }

    /** `RemoveParentRoomNodeIDFromRoomNode` on the node at `j`: only its parent list changes. */
    method RemoveParentAt(roomNode: RoomNode, ghost j: nat, parentId: string)
      requires Valid() && j < |roomNodeList| && roomNodeList[j] == roomNode
      modifies roomNode`parentRoomNodeIDList
      ensures var v := old(View()); View() == v[j := v[j].(parentIds := RemoveFirst(v[j].parentIds, parentId))]
    {
      label before:
      var removed := roomNode.RemoveParentRoomNodeIDFromRoomNode(parentId);
      assert View() == old@before(View())[j := roomNode.Value()] by {
        ViewUpdatedAt@before(j);
      }
    }
  }
}
