/**
 * The child-validity rule of RoomNodeSO (`IsChildRoomValid`) and the
 * connection it guards: the editor's mouse-up step `AddChild` on the source,
 * then `AddParent` on the target when that succeeded.
 */
module EdgeRule {
  import opened IdLists
  import opened RoomNodeTypes
  import opened GraphModel

  /** The flag loop at the top of `IsChildRoomValid`: some boss room already has a parent. */
  function ConnectedBossNodeExists(g: seq<NodeValue>): (found: bool)
    ensures found <==> exists i :: 0 <= i < |g| && IsConnectedBoss(g[i])
  {
    if |g| == 0 then false
    else if IsConnectedBoss(g[0]) then true
    else
      var rest := ConnectedBossNodeExists(g[1..]);
      assert forall i :: 1 <= i < |g| ==> g[i] == g[1..][i - 1];
      rest
  }

  /**
   * The rejection cascade of `IsChildRoomValid`, in the source's order, for
   * `self` gaining the child `childId`, whose node (found through the
   * dictionary) is `child`.
   */
  function ChildRoomValid(connectedBossAlready: bool, self: NodeValue, childId: string, child: NodeValue,
                          maxChildCorridors: nat): (valid: bool)
    // boss rooms: only one of them may ever be connected
    ensures valid ==> !(child.roomNodeType.isBossRoom && connectedBossAlready)
    // unassigned and entrance nodes never become children
    ensures valid ==> !child.roomNodeType.isNone && !child.roomNodeType.isEntrance
    // no duplicate edge, no self-loop, no 2-cycle
    ensures valid ==> childId !in self.childIds && childId != self.id && childId !in self.parentIds
    // a node has at most one parent
    ensures valid ==> child.parentIds == []
    // exactly one end of an edge is a corridor
    ensures valid ==> child.roomNodeType.isCorridor != self.roomNodeType.isCorridor
    // fan-out limits, on the source's total child count
    ensures valid && child.roomNodeType.isCorridor ==> |self.childIds| < maxChildCorridors
    ensures valid && !child.roomNodeType.isCorridor ==> self.childIds == []
    // and nothing else is checked
    ensures !(child.roomNodeType.isBossRoom && connectedBossAlready)
            && !child.roomNodeType.isNone && !child.roomNodeType.isEntrance
            && childId !in self.childIds && childId != self.id && childId !in self.parentIds
            && child.parentIds == []
            && child.roomNodeType.isCorridor != self.roomNodeType.isCorridor
            && (child.roomNodeType.isCorridor ==> |self.childIds| < maxChildCorridors)
            && (!child.roomNodeType.isCorridor ==> self.childIds == [])
            ==> valid
  {
    if child.roomNodeType.isBossRoom && connectedBossAlready then false
    else if child.roomNodeType.isNone then false
    else if childId in self.childIds then false
    else if self.id == childId then false
    else if childId in self.parentIds then false
    else if |child.parentIds| > 0 then false
    else if child.roomNodeType.isCorridor && self.roomNodeType.isCorridor then false
    else if !child.roomNodeType.isCorridor && !self.roomNodeType.isCorridor then false
    else if child.roomNodeType.isCorridor && |self.childIds| >= maxChildCorridors then false
    else if child.roomNodeType.isEntrance then false
    else if !child.roomNodeType.isCorridor && |self.childIds| > 0 then false
    else true
  }

  /** The rule evaluated in graph `g`: the child is looked up by id. */
  function IsChildRoomValid(g: seq<NodeValue>, self: NodeValue, childId: string, maxChildCorridors: nat): bool
    requires childId in Ids(g)
  {
    ChildRoomValid(ConnectedBossNodeExists(g), self, childId, g[LastIndexOf(g, childId)], maxChildCorridors)
  }

  /**
   * Mouse-up on `childId` while dragging a line from `fromId`:
   * `RoomNodeFrom.AddChild(childId)` and, when it answered true,
   * `target.AddParent(fromId)`.
   */
  function Connect(g: seq<NodeValue>, fromId: string, childId: string, maxChildCorridors: nat): (h: seq<NodeValue>)
    requires fromId in Ids(g) && childId in Ids(g)
    ensures SameNodes(g, h)
  {
    var f := LastIndexOf(g, fromId);
    // the child's position: adding a child id to `f` changes no id, so looking
    // it up after that step finds the same node
    var t := LastIndexOf(g, childId);
    if IsChildRoomValid(g, g[f], childId, maxChildCorridors) then AttachAt(g, f, t) else g
  }

  /** Records the edge from `f` to `t` on both ends: `t` joins the child list of `f`, then `f` the parent list of `t`. */
  function AttachAt(g: seq<NodeValue>, f: nat, t: nat): (h: seq<NodeValue>)
    requires f < |g| && t < |g|
    ensures SameNodes(g, h)
  {
    var g1 := g[f := g[f].(childIds := g[f].childIds + [g[t].id])];
    g1[t := g1[t].(parentIds := g1[t].parentIds + [g[f].id])]
  }

  /**
   * Connecting records both halves of the new edge or neither, adds no other
   * edge, and keeps ids, lists and edge halves consistent.
   */
  lemma ConnectBothHalvesOrNeither(g: seq<NodeValue>, fromId: string, childId: string, maxChildCorridors: nat)
    requires Structural(g) && fromId in Ids(g) && childId in Ids(g)
    ensures var h := Connect(g, fromId, childId, maxChildCorridors);
            var f, t := LastIndexOf(g, fromId), LastIndexOf(g, childId);
            var valid := IsChildRoomValid(g, g[f], childId, maxChildCorridors);
            && Structural(h)
            && (valid ==> f != t && Edge(h, f, t) && !Edge(g, f, t)
                          && h[f] == g[f].(childIds := g[f].childIds + [childId])
                          && h[t] == g[t].(parentIds := g[t].parentIds + [fromId])
                          && forall i :: 0 <= i < |g| && i != f && i != t ==> h[i] == g[i])
            && (!valid ==> h == g)
            && forall i, j :: 0 <= i < |g| && 0 <= j < |g| && (i != f || j != t) ==>
                 (Edge(h, i, j) <==> Edge(g, i, j))
  {
    var h := Connect(g, fromId, childId, maxChildCorridors);
    var f, t := LastIndexOf(g, fromId), LastIndexOf(g, childId);
    if IsChildRoomValid(g, g[f], childId, maxChildCorridors) {
      assert g[f].id == fromId && g[t].id == childId && f != t && g[t].parentIds == [];
      AttachAtEffect(g, f, t);
      ConnectKeepsStructural(g, h, f, t);
    }
  }

  lemma AttachAtEffect(g: seq<NodeValue>, f: nat, t: nat)
    requires f < |g| && t < |g| && f != t
    ensures var h := AttachAt(g, f, t);
            && h[f] == g[f].(childIds := g[f].childIds + [g[t].id])
            && h[t] == g[t].(parentIds := g[t].parentIds + [g[f].id])
            && forall i :: 0 <= i < |g| && i != f && i != t ==> h[i] == g[i]
  {
  }

  /** `h` is `g` with the edge from `f` to the parentless `t` recorded on both ends. */
  ghost predicate Attached(g: seq<NodeValue>, h: seq<NodeValue>, f: nat, t: nat) {
    && f < |g| && t < |g| && f != t && |h| == |g|
    && g[t].parentIds == []
    && (forall i :: 0 <= i < |g| ==> h[i].id == g[i].id)
    && h[f] == g[f].(childIds := g[f].childIds + [g[t].id])
    && h[t] == g[t].(parentIds := [g[f].id])
    && (forall i :: 0 <= i < |g| && i != f && i != t ==> h[i] == g[i])
  }

  lemma ConnectKeepsStructural(g: seq<NodeValue>, h: seq<NodeValue>, f: nat, t: nat)
    requires Structural(g) && Attached(g, h, f, t) && g[t].id !in g[f].childIds
    ensures Structural(h)
    ensures forall i, j :: 0 <= i < |g| && 0 <= j < |g| && (i != f || j != t) ==> (Edge(h, i, j) <==> Edge(g, i, j))
  {
    SameNodesLookup(g, h, "");
    ConnectListsNoDup(g, h, f, t);
    ConnectEdgesIndexed(g, h, f, t);
    ConnectOtherEdges(g, h, f, t);
    ConnectSymmetric(g, h, f, t);
  }

  lemma ConnectListsNoDup(g: seq<NodeValue>, h: seq<NodeValue>, f: nat, t: nat)
    requires ListsNoDup(g) && Attached(g, h, f, t) && g[t].id !in g[f].childIds
    ensures ListsNoDup(h)
  {
    assert NoDup(h[f].childIds);
  }

  lemma ConnectEdgesIndexed(g: seq<NodeValue>, h: seq<NodeValue>, f: nat, t: nat)
    requires EdgesIndexed(g) && Attached(g, h, f, t)
    ensures EdgesIndexed(h)
  {
    SameNodesLookup(g, h, "");
    InIds(g, t);
    InIds(g, f);
  }

  lemma ConnectOtherEdges(g: seq<NodeValue>, h: seq<NodeValue>, f: nat, t: nat)
    requires UniqueIds(g) && Attached(g, h, f, t)
    ensures forall i, j :: 0 <= i < |g| && 0 <= j < |g| && (i != f || j != t) ==> (Edge(h, i, j) <==> Edge(g, i, j))
  {
    forall i, j | 0 <= i < |h| && 0 <= j < |h| && (i != f || j != t)
      ensures Edge(h, i, j) <==> Edge(g, i, j)
    {
      if i == f {
        assert h[j].id != g[t].id;
      }
    }
  }

  lemma ConnectSymmetric(g: seq<NodeValue>, h: seq<NodeValue>, f: nat, t: nat)
    requires UniqueIds(g) && Symmetric(g) && Attached(g, h, f, t)
    ensures Symmetric(h)
  {
    ConnectOtherEdges(g, h, f, t);
    forall i, j | 0 <= i < |h| && 0 <= j < |h| ensures Edge(h, i, j) <==> h[i].id in h[j].parentIds {
      if j == t {
        assert g[i].id !in g[t].parentIds;
      }
    }
  }

  /** Connecting keeps every invariant of a well-formed graph: the rule is exactly strong enough. */
  lemma ConnectKeepsWellFormed(g: seq<NodeValue>, fromId: string, childId: string, maxChildCorridors: nat)
    requires WellFormed(g, maxChildCorridors) && fromId in Ids(g) && childId in Ids(g)
    ensures WellFormed(Connect(g, fromId, childId, maxChildCorridors), maxChildCorridors)
  {
    ConnectBothHalvesOrNeither(g, fromId, childId, maxChildCorridors);
    var h := Connect(g, fromId, childId, maxChildCorridors);
    var f, t := LastIndexOf(g, fromId), LastIndexOf(g, childId);
    if IsChildRoomValid(g, g[f], childId, maxChildCorridors) {
      assert g[t].id == childId && g[f].id == fromId;
      assert h[f].childIds == g[f].childIds + [g[t].id] && h[f].parentIds == g[f].parentIds;
      assert h[t].parentIds == [g[f].id] && h[t].childIds == g[t].childIds;
      assert g[t].parentIds == [] && !g[t].roomNodeType.isNone && !g[t].roomNodeType.isEntrance;
      assert g[f].roomNodeType.isCorridor != g[t].roomNodeType.isCorridor;
      assert g[t].roomNodeType.isCorridor ==> |g[f].childIds| < maxChildCorridors;
      assert !g[t].roomNodeType.isCorridor ==> g[f].childIds == [];
      assert g[t].roomNodeType.isBossRoom ==> forall i :: 0 <= i < |g| ==> !IsConnectedBoss(g[i]);
      ConnectKeepsShape(g, h, f, t, maxChildCorridors);
    }
  }

  lemma ConnectKeepsShape(g: seq<NodeValue>, h: seq<NodeValue>, f: nat, t: nat, maxChildCorridors: nat)
    requires Shaped(g, maxChildCorridors) && f < |g| && t < |g| && f != t
    requires |h| == |g| && SameNodes(g, h)
    requires h[f].childIds == g[f].childIds + [g[t].id] && h[f].parentIds == g[f].parentIds
    requires h[t].parentIds == [g[f].id] && h[t].childIds == g[t].childIds
    requires forall i :: 0 <= i < |g| && i != f && i != t ==> h[i] == g[i]
    requires forall i, j :: 0 <= i < |g| && 0 <= j < |g| && (i != f || j != t) ==> (Edge(h, i, j) <==> Edge(g, i, j))
    // what the rule established about the new edge
    requires g[t].parentIds == [] && !g[t].roomNodeType.isNone && !g[t].roomNodeType.isEntrance
    requires g[f].roomNodeType.isCorridor != g[t].roomNodeType.isCorridor
    requires g[t].roomNodeType.isCorridor ==> |g[f].childIds| < maxChildCorridors
    requires !g[t].roomNodeType.isCorridor ==> g[f].childIds == []
    requires g[t].roomNodeType.isBossRoom ==> forall i :: 0 <= i < |g| ==> !IsConnectedBoss(g[i])
    ensures Shaped(h, maxChildCorridors)
  {
    assert SingleParent(h);
    assert RootsUnparented(h);
    assert FanOut(h, maxChildCorridors);
    forall i, j | 0 <= i < |h| && 0 <= j < |h| && Edge(h, i, j)
      ensures h[i].roomNodeType.isCorridor != h[j].roomNodeType.isCorridor
    {
      if i != f || j != t {
        assert Edge(g, i, j);
      }
    }
    forall i, j | 0 <= i < |h| && 0 <= j < |h| && IsConnectedBoss(h[i]) && IsConnectedBoss(h[j])
      ensures i == j
    {
      if i != t {
        assert IsConnectedBoss(g[i]);
      }
      if j != t {
        assert IsConnectedBoss(g[j]);
      }
    }
  }
}
