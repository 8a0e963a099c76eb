/**
 * Value view of a room node graph: the list `roomNodeList` of RoomNodeGraphSO
 * seen as a sequence of node records. Edges are stored twice, as the child's
 * id in the parent's `childIds` and as the parent's id in the child's
 * `parentIds`; every lookup goes by id, and when two nodes share an id the
 * later one is found (that is what rebuilding the dictionary produces).
 */
module GraphModel {
  import opened IdLists
  import opened RoomNodeTypes

  datatype NodeValue = NodeValue(
    id: string,
    roomNodeType: RoomNodeType,
    parentIds: seq<string>,
    childIds: seq<string>,
    isSelected: bool)

  function Ids(g: seq<NodeValue>): set<string> {
    set n | n in g :: n.id
  }

  /** The position the id dictionary resolves `nodeId` to: the last node carrying it, or -1. */
  function LastIndexOf(g: seq<NodeValue>, nodeId: string): (k: int)
    ensures -1 <= k < |g|
    ensures k >= 0 ==> g[k].id == nodeId && forall j :: k < j < |g| ==> g[j].id != nodeId
    ensures k < 0 <==> nodeId !in Ids(g)
  {
    if |g| == 0 then -1
    else if g[|g| - 1].id == nodeId then |g| - 1
    else
      var k := LastIndexOf(g[..|g| - 1], nodeId);
      assert nodeId in Ids(g) ==> nodeId in Ids(g[..|g| - 1]) by {
        if nodeId in Ids(g) {
          var n :| n in g && n.id == nodeId;
          var i :| 0 <= i < |g| && g[i] == n;
          assert g[..|g| - 1][i] == n;
        }
      }
      k
  }

  /** There is an edge from the node at `i` to the node at `j`. */
  predicate Edge(g: seq<NodeValue>, i: nat, j: nat)
    requires i < |g| && j < |g|
  {
    g[j].id in g[i].childIds
  }

  // ---------------------------------------------------------------------------
  // Structural invariants: ids identify nodes and the two halves of every edge agree.

  ghost predicate UniqueIds(g: seq<NodeValue>) {
    forall i, j :: 0 <= i < |g| && 0 <= j < |g| && g[i].id == g[j].id ==> i == j
  }

  ghost predicate ListsNoDup(g: seq<NodeValue>) {
    forall i :: 0 <= i < |g| ==> NoDup(g[i].parentIds) && NoDup(g[i].childIds)
  }

  /** No id list names a node that is not in the graph. */
  ghost predicate EdgesIndexed(g: seq<NodeValue>) {
    forall i, x :: 0 <= i < |g| && (x in g[i].parentIds || x in g[i].childIds) ==> x in Ids(g)
  }

  /** The child list of `i` names `j` exactly when the parent list of `j` names `i`. */
  ghost predicate Symmetric(g: seq<NodeValue>) {
    forall i, j :: 0 <= i < |g| && 0 <= j < |g| ==> (Edge(g, i, j) <==> g[i].id in g[j].parentIds)
  }

  ghost predicate Structural(g: seq<NodeValue>) {
    UniqueIds(g) && ListsNoDup(g) && EdgesIndexed(g) && Symmetric(g)
  }

  // ---------------------------------------------------------------------------
  // Shape invariants: what the connection rule guarantees about every graph it builds.

  predicate IsConnectedBoss(n: NodeValue) {
    n.roomNodeType.isBossRoom && |n.parentIds| > 0
  }

  /** How many children a node of type `t` can acquire through the connection rule. */
  function ChildLimit(t: RoomNodeType, maxChildCorridors: nat): nat {
    if t.isCorridor then 1 else maxChildCorridors
  }

  ghost predicate SingleParent(g: seq<NodeValue>) {
    forall i :: 0 <= i < |g| ==> |g[i].parentIds| <= 1
  }

  /** Every edge joins a corridor and a non-corridor. */
  ghost predicate Alternating(g: seq<NodeValue>) {
    forall i, j :: 0 <= i < |g| && 0 <= j < |g| && Edge(g, i, j) ==>
      g[i].roomNodeType.isCorridor != g[j].roomNodeType.isCorridor
  }

  /** Entrances and unassigned nodes never have a parent. */
  ghost predicate RootsUnparented(g: seq<NodeValue>) {
    forall i :: 0 <= i < |g| && (g[i].roomNodeType.isEntrance || g[i].roomNodeType.isNone) ==> g[i].parentIds == []
  }

  /** At most one boss room has a parent. */
  ghost predicate BossOnce(g: seq<NodeValue>) {
    forall i, j :: 0 <= i < |g| && 0 <= j < |g| && IsConnectedBoss(g[i]) && IsConnectedBoss(g[j]) ==> i == j
  }

  ghost predicate FanOut(g: seq<NodeValue>, maxChildCorridors: nat) {
    forall i :: 0 <= i < |g| ==> |g[i].childIds| <= ChildLimit(g[i].roomNodeType, maxChildCorridors)
  }

  ghost predicate Shaped(g: seq<NodeValue>, maxChildCorridors: nat) {
    SingleParent(g) && Alternating(g) && RootsUnparented(g) && BossOnce(g) && FanOut(g, maxChildCorridors)
  }

  ghost predicate WellFormed(g: seq<NodeValue>, maxChildCorridors: nat) {
    Structural(g) && Shaped(g, maxChildCorridors)
  }

  // ---------------------------------------------------------------------------
  // Relations between two states of the same graph.

  /** Same nodes in the same order with the same ids, types and selection; only id lists may differ. */
  ghost predicate SameNodes(g: seq<NodeValue>, h: seq<NodeValue>) {
    |g| == |h| &&
    forall i :: 0 <= i < |g| ==>
      h[i].id == g[i].id && h[i].roomNodeType == g[i].roomNodeType && h[i].isSelected == g[i].isSelected
  }

  /** Every id list of `h` is a shorter-or-equal sublist (as a set) of the one in `g`. */
  ghost predicate Shrunk(g: seq<NodeValue>, h: seq<NodeValue>) {
    |g| == |h| &&
    (forall i :: 0 <= i < |g| ==> h[i].id == g[i].id && h[i].roomNodeType == g[i].roomNodeType) &&
    (forall i :: 0 <= i < |g| ==> |h[i].parentIds| <= |g[i].parentIds| && |h[i].childIds| <= |g[i].childIds|) &&
    (forall i, x :: 0 <= i < |g| && x in h[i].parentIds ==> x in g[i].parentIds) &&
    (forall i, x :: 0 <= i < |g| && x in h[i].childIds ==> x in g[i].childIds)
  }

  lemma SameNodesLookup(g: seq<NodeValue>, h: seq<NodeValue>, nodeId: string)
    requires |g| == |h| && forall i :: 0 <= i < |g| ==> h[i].id == g[i].id
    ensures LastIndexOf(h, nodeId) == LastIndexOf(g, nodeId)
    ensures Ids(h) == Ids(g)
  {
    assert forall x :: x in Ids(g) ==> x in Ids(h) by {
      forall x | x in Ids(g) ensures x in Ids(h) {
        var n :| n in g && n.id == x;
        var i :| 0 <= i < |g| && g[i] == n;
        assert h[i] in h;
      }
    }
    assert forall x :: x in Ids(h) ==> x in Ids(g) by {
      forall x | x in Ids(h) ensures x in Ids(g) {
        var n :| n in h && n.id == x;
        var i :| 0 <= i < |h| && h[i] == n;
        assert g[i] in g;
      }
    }
  }

  lemma LookupUnique(g: seq<NodeValue>, i: nat)
    requires UniqueIds(g) && i < |g|
    ensures LastIndexOf(g, g[i].id) == i
  {
  }

  lemma InIds(g: seq<NodeValue>, i: nat)
    requires i < |g|
    ensures g[i].id in Ids(g)
  {
    assert g[i] in g;
  }

  /** Shrinking the id lists keeps every shape invariant. */
  lemma ShrunkKeepsShape(g: seq<NodeValue>, h: seq<NodeValue>, maxChildCorridors: nat)
    requires Shaped(g, maxChildCorridors) && Shrunk(g, h)
    ensures Shaped(h, maxChildCorridors)
  {
    forall i, j | 0 <= i < |h| && 0 <= j < |h| && Edge(h, i, j)
      ensures h[i].roomNodeType.isCorridor != h[j].roomNodeType.isCorridor
    {
      assert Edge(g, i, j);
    }
    forall i, j | 0 <= i < |h| && 0 <= j < |h| && IsConnectedBoss(h[i]) && IsConnectedBoss(h[j])
      ensures i == j
    {
      assert IsConnectedBoss(g[i]) && IsConnectedBoss(g[j]);
    }
  }

  lemma ShrunkTransitive(g: seq<NodeValue>, h: seq<NodeValue>, k: seq<NodeValue>)
    requires Shrunk(g, h) && Shrunk(h, k)
    ensures Shrunk(g, k)
  {
  }

  lemma SameNodesIsShrunk(g: seq<NodeValue>, h: seq<NodeValue>)
    requires SameNodes(g, h)
    requires forall i :: 0 <= i < |g| ==> h[i].parentIds == g[i].parentIds && h[i].childIds == g[i].childIds
    ensures Shrunk(g, h) && Shrunk(h, g)
  {
  }

  // ---------------------------------------------------------------------------
  // The two single-node edits the graph commands are made of.

  /** `GetRoomNodeById(nodeId)?.RemoveParentRoomNodeIDFromRoomNode(parentId)`. */
  function RemoveParentId(g: seq<NodeValue>, nodeId: string, parentId: string): (h: seq<NodeValue>)
    ensures SameNodes(g, h)
    ensures forall i :: 0 <= i < |g| ==> h[i].childIds == g[i].childIds
    ensures forall i :: 0 <= i < |g| && i != LastIndexOf(g, nodeId) ==> h[i].parentIds == g[i].parentIds
    ensures LastIndexOf(g, nodeId) >= 0 ==>
      var k := LastIndexOf(g, nodeId); h[k].parentIds == RemoveFirst(g[k].parentIds, parentId)
  {
    var k := LastIndexOf(g, nodeId);
    if k < 0 then g else g[k := g[k].(parentIds := RemoveFirst(g[k].parentIds, parentId))]
  }

  /** `GetRoomNodeById(nodeId)?.RemoveChildRoomNodeIDFromRoomNode(childId)`. */
  function RemoveChildId(g: seq<NodeValue>, nodeId: string, childId: string): (h: seq<NodeValue>)
    ensures SameNodes(g, h)
    ensures forall i :: 0 <= i < |g| ==> h[i].parentIds == g[i].parentIds
    ensures forall i :: 0 <= i < |g| && i != LastIndexOf(g, nodeId) ==> h[i].childIds == g[i].childIds
    ensures LastIndexOf(g, nodeId) >= 0 ==>
      var k := LastIndexOf(g, nodeId); h[k].childIds == RemoveFirst(g[k].childIds, childId)
  {
    var k := LastIndexOf(g, nodeId);
    if k < 0 then g else g[k := g[k].(childIds := RemoveFirst(g[k].childIds, childId))]
  }

  /** The selection flags set to `selected`, as select-all and clear-selection leave them. */
  function WithSelection(g: seq<NodeValue>, selected: bool): (h: seq<NodeValue>)
    ensures |h| == |g|
    ensures forall i :: 0 <= i < |g| ==> h[i] == g[i].(isSelected := selected)
  {
    seq(|g|, i requires 0 <= i < |g| => g[i].(isSelected := selected))
  }

  /** Two states with the same ids and the same id lists agree on every structural invariant. */
  lemma SameListsKeepStructural(g: seq<NodeValue>, h: seq<NodeValue>)
    requires |g| == |h|
    requires forall i :: 0 <= i < |g| ==>
      h[i].id == g[i].id && h[i].parentIds == g[i].parentIds && h[i].childIds == g[i].childIds
    requires Structural(g)
    ensures Structural(h)
  {
    SameNodesLookup(g, h, "");
    assert UniqueIds(h);
    assert ListsNoDup(h);
    assert EdgesIndexed(h);
    forall i, j | 0 <= i < |h| && 0 <= j < |h| ensures Edge(h, i, j) <==> h[i].id in h[j].parentIds {
      assert Edge(h, i, j) == Edge(g, i, j);
    }
  }

  /** Changing selection changes no edge. */
  lemma SelectionKeepsEdges(g: seq<NodeValue>, selected: bool)
    ensures forall i, j :: 0 <= i < |g| && 0 <= j < |g| ==> (Edge(WithSelection(g, selected), i, j) <==> Edge(g, i, j))
  {
  }

  /** Changing selection keeps every invariant. */
  lemma {:induction false} WithSelectionKeepsWellFormed(g: seq<NodeValue>, selected: bool, maxChildCorridors: nat)
    requires WellFormed(g, maxChildCorridors)
    ensures WellFormed(WithSelection(g, selected), maxChildCorridors)
  {
    var h := WithSelection(g, selected);
    SameListsKeepStructural(g, h);
    assert Shrunk(g, h);
    ShrunkKeepsShape(g, h, maxChildCorridors);
  }
}
