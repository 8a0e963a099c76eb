/**
 * The editor's "Create Room Node" command: a new node with no edges is
 * appended to the list; on an empty graph an entrance node is appended
 * first. New ids are fresh (the source draws a new GUID for each node).
 */
module NodeCreation {
  import opened Wrappers
  import opened IdLists
  import opened RoomNodeTypes
  import opened GraphModel

  function NewNode(roomNodeId: string, roomNodeType: RoomNodeType): NodeValue {
    NodeValue(roomNodeId, roomNodeType, [], [], false)
  }

  /** Appends one node of the given type. */
  function CreateRoomNodeWithType(g: seq<NodeValue>, roomNodeId: string, roomNodeType: RoomNodeType): (h: seq<NodeValue>)
    ensures |h| == |g| + 1 && h[..|g|] == g
    ensures h[|g|].id == roomNodeId && h[|g|].roomNodeType == roomNodeType
            && h[|g|].parentIds == [] && h[|g|].childIds == [] && !h[|g|].isSelected
  {
    g + [NewNode(roomNodeId, roomNodeType)]
  }

  /**
   * The catalog lookups of the menu command succeed: the entrance type is
   * looked up only on an empty graph, the unassigned type always.
   */
  predicate TypesFound(g: seq<NodeValue>, types: seq<RoomNodeType>) {
    (|g| == 0 ==> FindRoomNodeType(types, Entrance).Some?) && FindRoomNodeType(types, Unassigned).Some?
  }

  /**
   * The menu command: an entrance first when the graph is empty, then an
   * unassigned node. When a lookup finds no type, the source goes on with a
   * node whose type is null; that node has no value here, so the command
   * answers `None`.
   */
  function CreateRoomNode(g: seq<NodeValue>, types: seq<RoomNodeType>, entranceId: string,
                          roomNodeId: string): (r: Option<seq<NodeValue>>)
  {
    if !TypesFound(g, types) then None
    else
      var g1 := if |g| == 0 then CreateRoomNodeWithType(g, entranceId, FindRoomNodeType(types, Entrance).value) else g;
      Some(CreateRoomNodeWithType(g1, roomNodeId, FindRoomNodeType(types, Unassigned).value))
  }

  /** A node with a fresh id and no edges keeps the graph well-formed and adds no edge. */
  lemma CreateRoomNodeWithTypeKeepsWellFormed(g: seq<NodeValue>, roomNodeId: string, roomNodeType: RoomNodeType,
                                              maxChildCorridors: nat)
    requires WellFormed(g, maxChildCorridors) && roomNodeId !in Ids(g)
    ensures var h := CreateRoomNodeWithType(g, roomNodeId, roomNodeType);
            && WellFormed(h, maxChildCorridors)
            && Ids(h) == Ids(g) + {roomNodeId}
            && (forall i :: 0 <= i < |g| ==> h[i] == g[i])
            && (forall i :: 0 <= i < |h| ==> !Edge(h, i, |g|) && !Edge(h, |g|, i))
  {
    var h := CreateRoomNodeWithType(g, roomNodeId, roomNodeType);
    AppendIds(g, NewNode(roomNodeId, roomNodeType));
    NewNodeIsolated(g, roomNodeId, roomNodeType);
    NewNodeStructural(g, roomNodeId, roomNodeType);
    NewNodeShaped(g, roomNodeId, roomNodeType, maxChildCorridors);
  }

  /** No edge leads to or from the new node: no existing list names its fresh id. */
  lemma NewNodeIsolated(g: seq<NodeValue>, roomNodeId: string, roomNodeType: RoomNodeType)
    requires EdgesIndexed(g) && roomNodeId !in Ids(g)
    ensures var h := CreateRoomNodeWithType(g, roomNodeId, roomNodeType);
            forall i :: 0 <= i < |h| ==> !Edge(h, i, |g|) && !Edge(h, |g|, i) && roomNodeId !in h[i].parentIds
  {
    var h := CreateRoomNodeWithType(g, roomNodeId, roomNodeType);
    forall i | 0 <= i < |h| ensures !Edge(h, i, |g|) && !Edge(h, |g|, i) && roomNodeId !in h[i].parentIds {
      if i < |g| {
        assert roomNodeId !in g[i].childIds && roomNodeId !in g[i].parentIds;
      }
    }
  }

  lemma NewNodeStructural(g: seq<NodeValue>, roomNodeId: string, roomNodeType: RoomNodeType)
    requires Structural(g) && roomNodeId !in Ids(g)
    ensures Structural(CreateRoomNodeWithType(g, roomNodeId, roomNodeType))
  {
    var h := CreateRoomNodeWithType(g, roomNodeId, roomNodeType);
    AppendIds(g, NewNode(roomNodeId, roomNodeType));
    NewNodeIsolated(g, roomNodeId, roomNodeType);
    assert UniqueIds(h) by {
      forall i | 0 <= i < |g| ensures h[i].id != roomNodeId {
        InIds(g, i);
      }
    }
    assert EdgesIndexed(h) by {
      forall i, x | 0 <= i < |h| && (x in h[i].parentIds || x in h[i].childIds) ensures x in Ids(h) {
        assert x in Ids(g);
      }
    }
    assert Symmetric(h) by {
      forall a, b | 0 <= a < |h| && 0 <= b < |h| ensures Edge(h, a, b) <==> h[a].id in h[b].parentIds {
        if a < |g| && b < |g| {
          assert Edge(g, a, b) <==> g[a].id in g[b].parentIds;
        }
      }
    }
  }

  lemma NewNodeShaped(g: seq<NodeValue>, roomNodeId: string, roomNodeType: RoomNodeType, maxChildCorridors: nat)
    requires Shaped(g, maxChildCorridors) && EdgesIndexed(g) && roomNodeId !in Ids(g)
    ensures Shaped(CreateRoomNodeWithType(g, roomNodeId, roomNodeType), maxChildCorridors)
  {
    var h := CreateRoomNodeWithType(g, roomNodeId, roomNodeType);
    NewNodeIsolated(g, roomNodeId, roomNodeType);
    assert Alternating(h) by {
      forall a, b | 0 <= a < |h| && 0 <= b < |h| && Edge(h, a, b)
        ensures h[a].roomNodeType.isCorridor != h[b].roomNodeType.isCorridor
      {
        assert Edge(g, a, b);
      }
    }
  }

  lemma AppendIds(g: seq<NodeValue>, n: NodeValue)
    ensures Ids(g + [n]) == Ids(g) + {n.id}
  {
    var h := g + [n];
    forall x | x in Ids(h) ensures x in Ids(g) + {n.id} {
      var m :| m in h && m.id == x;
      var i :| 0 <= i < |h| && h[i] == m;
      if i < |g| {
        InIds(g, i);
      }
    }
    forall x | x in Ids(g) ensures x in Ids(h) {
      var m :| m in g && m.id == x;
      var i :| 0 <= i < |g| && g[i] == m;
      InIds(h, i);
    }
    InIds(h, |g|);
  }

  /**
   * "Create Room Node" fails exactly when the catalog lacks a type it looks
   * up: the entrance type on an empty graph, or the unassigned type.
   */
  lemma CreateRoomNodeFails(g: seq<NodeValue>, types: seq<RoomNodeType>, entranceId: string, roomNodeId: string)
    ensures CreateRoomNode(g, types, entranceId, roomNodeId).None? <==>
            (|g| == 0 && forall i :: 0 <= i < |types| ==> !types[i].isEntrance)
            || (forall i :: 0 <= i < |types| ==> !types[i].isNone)
  {
    var e, u := FindRoomNodeType(types, Entrance), FindRoomNodeType(types, Unassigned);
    assert e.None? <==> forall i :: 0 <= i < |types| ==> !types[i].isEntrance by {
      assert forall i :: 0 <= i < |types| ==> (HasRole(types[i], Entrance) <==> types[i].isEntrance);
    }
    assert u.None? <==> forall i :: 0 <= i < |types| ==> !types[i].isNone by {
      assert forall i :: 0 <= i < |types| ==> (HasRole(types[i], Unassigned) <==> types[i].isNone);
    }
  }

  /**
   * When it succeeds, "Create Room Node" keeps the graph well-formed: an
   * empty graph gets an entrance followed by an unassigned node; any other
   * graph gets one unassigned node at the end. Existing nodes are untouched.
   */
  lemma CreateRoomNodeEffect(g: seq<NodeValue>, types: seq<RoomNodeType>, entranceId: string, roomNodeId: string,
                             maxChildCorridors: nat)
    requires WellFormed(g, maxChildCorridors) && roomNodeId !in Ids(g) && (|g| == 0 ==> entranceId != roomNodeId)
    ensures var r := CreateRoomNode(g, types, entranceId, roomNodeId);
            r.Some? ==>
            var h := r.value;
            && WellFormed(h, maxChildCorridors)
            && h[..|g|] == g
            && |h| == |g| + (if |g| == 0 then 2 else 1)
            && (|g| == 0 ==> h[0].id == entranceId && h[0].roomNodeType.isEntrance)
            && h[|h| - 1].id == roomNodeId && h[|h| - 1].roomNodeType.isNone
            && Ids(h) == Ids(g) + (if |g| == 0 then {entranceId, roomNodeId} else {roomNodeId})
  {
    if TypesFound(g, types) {
      if |g| == 0 {
        CreateOnEmpty(g, types, entranceId, roomNodeId, maxChildCorridors);
      } else {
        CreateOnNonEmpty(g, types, entranceId, roomNodeId, maxChildCorridors);
      }
    }
  }

  /** The successful command on an empty graph: an entrance, then an unassigned node. */
  lemma CreateOnEmpty(g: seq<NodeValue>, types: seq<RoomNodeType>, entranceId: string, roomNodeId: string,
                      maxChildCorridors: nat)
    requires |g| == 0 && TypesFound(g, types) && entranceId != roomNodeId
    ensures var h := CreateRoomNode(g, types, entranceId, roomNodeId).value;
            && WellFormed(h, maxChildCorridors)
            && h[..|g|] == g
            && |h| == |g| + 2
            && h[0].id == entranceId && h[0].roomNodeType.isEntrance
            && h[|h| - 1].id == roomNodeId && h[|h| - 1].roomNodeType.isNone
            && Ids(h) == Ids(g) + {entranceId, roomNodeId}
  {
    var e, u := FindRoomNodeType(types, Entrance).value, FindRoomNodeType(types, Unassigned).value;
    assert g == [];
    assert CreateRoomNode(g, types, entranceId, roomNodeId).value
           == CreateRoomNodeWithType(CreateRoomNodeWithType([], entranceId, e), roomNodeId, u);
    CreateFirstRoomNodes(e, u, entranceId, roomNodeId, maxChildCorridors);
  }

  /** The successful command on a graph with nodes: one unassigned node at the end. */
  lemma CreateOnNonEmpty(g: seq<NodeValue>, types: seq<RoomNodeType>, entranceId: string, roomNodeId: string,
                         maxChildCorridors: nat)
    requires |g| > 0 && TypesFound(g, types) && WellFormed(g, maxChildCorridors) && roomNodeId !in Ids(g)
    ensures var h := CreateRoomNode(g, types, entranceId, roomNodeId).value;
            && WellFormed(h, maxChildCorridors)
            && h[..|g|] == g
            && |h| == |g| + 1
            && h[|h| - 1].id == roomNodeId && h[|h| - 1].roomNodeType.isNone
            && Ids(h) == Ids(g) + {roomNodeId}
  {
    var u := FindRoomNodeType(types, Unassigned).value;
    assert CreateRoomNode(g, types, entranceId, roomNodeId).value == CreateRoomNodeWithType(g, roomNodeId, u);
    CreateRoomNodeWithTypeKeepsWellFormed(g, roomNodeId, u, maxChildCorridors);
  }

  /** On an empty graph: an entrance, then a second node, both fresh and without edges. */
  lemma CreateFirstRoomNodes(e: RoomNodeType, u: RoomNodeType, entranceId: string, roomNodeId: string,
                             maxChildCorridors: nat)
    requires entranceId != roomNodeId
    ensures var h := CreateRoomNodeWithType(CreateRoomNodeWithType([], entranceId, e), roomNodeId, u);
            && WellFormed(h, maxChildCorridors)
            && h == [NewNode(entranceId, e), NewNode(roomNodeId, u)]
            && Ids(h) == {entranceId, roomNodeId}
  {
    var g1 := CreateRoomNodeWithType([], entranceId, e);
    CreateRoomNodeWithTypeKeepsWellFormed([], entranceId, e, maxChildCorridors);
    CreateRoomNodeWithTypeKeepsWellFormed(g1, roomNodeId, u, maxChildCorridors);
  }
}
