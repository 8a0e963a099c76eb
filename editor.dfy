/**
 * The commands of RoomNodeGraphEditor that change the graph: finishing a
 * connection on mouse-up, clearing and selecting all nodes, deleting the
 * links between selected nodes, deleting selected nodes and creating
 * nodes. Each is proved against the value-level function of the same name.
 * The node under the mouse and fresh GUIDs are parameters.
 */
module GraphEditor {
  import opened Wrappers
  import opened IdLists
  import opened RoomNodeTypes
  import opened GraphModel
  import opened NodeGraph
  import EdgeRule
  import EdgeRemoval
  import NodeDeletion
  import NodeCreation

  /** The selection flags of the first `p` nodes set to `selected`, the rest as in `v0`. */
  function SelectionUpTo(v0: seq<NodeValue>, p: nat, selected: bool): (v: seq<NodeValue>)
    requires p <= |v0|
    ensures |v| == |v0|
  {
    WithSelection(v0[..p], selected) + v0[p..]
  }

  /** Setting one more flag extends the prefix; the whole prefix is `WithSelection`. */
  lemma SelectionUpToStep(v0: seq<NodeValue>, p: nat, selected: bool)
    requires p < |v0|
    ensures var u := SelectionUpTo(v0, p, selected);
            u[p := u[p].(isSelected := selected)] == SelectionUpTo(v0, p + 1, selected)
  {
    var u := SelectionUpTo(v0, p, selected);
    var w := SelectionUpTo(v0, p + 1, selected);
    assert u[p] == v0[p];
    forall m | 0 <= m < |v0| ensures u[p := u[p].(isSelected := selected)][m] == w[m] {
      if m < p {
        assert u[m] == WithSelection(v0[..p], selected)[m];
        assert w[m] == WithSelection(v0[..p + 1], selected)[m];
      } else if m > p {
        assert u[m] == v0[p..][m - p] && w[m] == v0[p + 1..][m - p - 1];
      }
    }
  }

  lemma SelectionUpToEnds(v0: seq<NodeValue>, selected: bool)
    ensures SelectionUpTo(v0, 0, selected) == v0
    ensures SelectionUpTo(v0, |v0|, selected) == WithSelection(v0, selected)
  {
    assert v0[..|v0|] == v0 && v0[0..] == v0;
  }

  /** `Connect` spelled out at the positions of the two ids. */
  lemma ConnectAt(v: seq<NodeValue>, fromId: string, childId: string, maxChildCorridors: nat, f: nat, t: nat)
    requires f < |v| && t < |v| && f == LastIndexOf(v, fromId) && t == LastIndexOf(v, childId)
    ensures fromId in Ids(v) && childId in Ids(v)
    ensures var g1 := v[f := v[f].(childIds := v[f].childIds + [childId])];
            EdgeRule.Connect(v, fromId, childId, maxChildCorridors)
            == if EdgeRule.IsChildRoomValid(v, v[f], childId, maxChildCorridors)
               then g1[t := g1[t].(parentIds := g1[t].parentIds + [fromId])]
               else v
  {
    InIds(v, f);
    InIds(v, t);
    var g1 := v[f := v[f].(childIds := v[f].childIds + [childId])];
    SameNodesLookup(v, g1, childId);
  }

  /** The values of nodes that did not change did not change. */
  twostate lemma ValuesUnchanged(nodes: seq<RoomNode>)
    requires forall n :: n in nodes ==> unchanged(n)
    ensures ValuesOf(nodes) == old(ValuesOf(nodes))
  {
  }

  lemma AppendKeepsUnique(nodes: seq<RoomNode>, roomNode: RoomNode)
    requires UniqueNodeIds(nodes) && roomNode.id !in DictionaryOf(nodes)
    ensures UniqueNodeIds(nodes + [roomNode])
  {
    forall m | 0 <= m < |nodes| ensures nodes[m].id != roomNode.id {
      assert nodes[m] in nodes;
    }
  }

  lemma ValuesOfAppend(nodes: seq<RoomNode>, roomNode: RoomNode)
    ensures ValuesOf(nodes + [roomNode]) == ValuesOf(nodes) + [roomNode.Value()]
  {
  }

  /** The first `p` nodes whose value at the same position is deletable, in list order: the deletion queue. */
  function DeletableNodes(nodes: seq<RoomNode>, v: seq<NodeValue>, p: nat): (q: seq<RoomNode>)
    requires p <= |nodes| == |v|
    ensures forall x :: x in q ==> x in nodes
  {
    if p == 0 then []
    else DeletableNodes(nodes, v, p - 1) + (if NodeDeletion.Deletable(v[p - 1]) then [nodes[p - 1]] else [])
  }

  /** The queue only depends on which positions are deletable. */
  lemma {:induction false} DeletableNodesAgree(nodes: seq<RoomNode>, v: seq<NodeValue>, w: seq<NodeValue>, p: nat)
    requires p <= |nodes| == |v| == |w|
    requires forall i :: 0 <= i < p ==> NodeDeletion.Deletable(v[i]) == NodeDeletion.Deletable(w[i])
    ensures DeletableNodes(nodes, v, p) == DeletableNodes(nodes, w, p)
  {
    if p > 0 {
      DeletableNodesAgree(nodes, v, w, p - 1);
    }
  }

  /** One more step of the walk: the queue grows by the node at `p` exactly when it is deletable. */
  lemma DeletableNodesNext(nodes: seq<RoomNode>, v: seq<NodeValue>, w: seq<NodeValue>, p: nat)
    requires p < |nodes| == |v| == |w| && SameNodes(v, w)
    ensures DeletableNodes(nodes, w, p + 1)
            == DeletableNodes(nodes, v, p) + (if NodeDeletion.Deletable(v[p]) then [nodes[p]] else [])
  {
    DeletableNodesAgree(nodes, v, w, p);
  }

  function Elements<T>(s: seq<T>): set<T> {
    set x | x in s
  }

  /** Distinct ids make distinct nodes. */
  lemma UniqueNodesNoDup(nodes: seq<RoomNode>)
    requires UniqueNodeIds(nodes)
    ensures NoDup(nodes)
  {
  }

  lemma {:induction false} DeletableNodesNoDup(nodes: seq<RoomNode>, v: seq<NodeValue>, p: nat)
    requires p <= |nodes| == |v| && NoDup(nodes)
    ensures NoDup(DeletableNodes(nodes, v, p))
  {
    if p > 0 {
      DeletableNodesNoDup(nodes, v, p - 1);
      DeletableNodesMember(nodes, v, p - 1, p - 1);
      NoDupSnoc(DeletableNodes(nodes, v, p - 1), nodes[p - 1]);
    }
  }

  lemma NoDupSnoc<T>(s: seq<T>, x: T)
    requires NoDup(s) && x !in s
    ensures NoDup(s + [x])
  {
  }

  /** A node is queued exactly when it is among the first `p` and its value is deletable. */
  lemma {:induction false} DeletableNodesMember(nodes: seq<RoomNode>, v: seq<NodeValue>, p: nat, i: nat)
    requires p <= |nodes| == |v| && NoDup(nodes) && i < |nodes|
    ensures nodes[i] in DeletableNodes(nodes, v, p) <==> i < p && NodeDeletion.Deletable(v[i])
  {
    if p > 0 {
      DeletableNodesMember(nodes, v, p - 1, i);
      assert nodes[i] == nodes[p - 1] <==> i == p - 1;
    }
  }

  /**
   * Dequeuing the `k`-th queued node: it is still in the list left so far,
   * and removing it leaves the list without the first `k + 1` queued nodes.
   */
  lemma DequeueStep(nodes: seq<RoomNode>, queue: seq<RoomNode>, k: nat)
    requires UniqueNodeIds(nodes) && NoDup(queue) && k < |queue| && forall x :: x in queue ==> x in nodes
    ensures queue[k] in Except(nodes, Elements(queue[..k]))
    ensures RemoveFirst(Except(nodes, Elements(queue[..k])), queue[k]) == Except(nodes, Elements(queue[..k + 1]))
  {
    var done := Elements(queue[..k]);
    var n := queue[k];
    assert Elements(queue[..k + 1]) == done + {n} by {
      assert queue[..k + 1] == queue[..k] + [n];
    }
    assert n !in done by {
      forall j | 0 <= j < k ensures queue[j] != n { }
    }
    UniqueNodesNoDup(nodes);
    RemoveFirstIsExcept(nodes, done, n);
    ExceptMember(nodes, done, n);
  }

  /** Dropping nodes keeps ids unique. */
  lemma ExceptUnique(nodes: seq<RoomNode>, gone: set<RoomNode>)
    requires UniqueNodeIds(nodes)
    ensures UniqueNodeIds(Except(nodes, gone))
  {
    UniqueNodesNoDup(nodes);
    ExceptNoDup(nodes, gone);
    SublistUnique(nodes, Except(nodes, gone));
  }

  /** A list without repetitions drawn from a list with unique ids has unique ids. */
  lemma SublistUnique(nodes: seq<RoomNode>, r: seq<RoomNode>)
    requires UniqueNodeIds(nodes) && NoDup(r) && forall x :: x in r ==> x in nodes
    ensures UniqueNodeIds(r)
  {
    forall a, b | 0 <= a < |r| && 0 <= b < |r| && r[a].id == r[b].id ensures a == b {
      SameIdSameNode(nodes, r[a], r[b]);
    }
  }

  /** `List.Remove` of a listed node and `Dictionary.Remove` of its id keep the dictionary indexing the list. */
  lemma RemoveFromDictionary(nodes: seq<RoomNode>, n: RoomNode)
    requires UniqueNodeIds(nodes) && n in nodes
    ensures UniqueNodeIds(RemoveFirst(nodes, n))
    ensures DictionaryOf(RemoveFirst(nodes, n)) == DictionaryOf(nodes) - {n.id}
  {
    var r := RemoveFirst(nodes, n);
    assert NoDup(r) && forall y :: y in r <==> y in nodes && y != n by {
      UniqueNodesNoDup(nodes);
      RemoveFirstNoDup(nodes, n);
    }
    assert UniqueNodeIds(r) by {
      SublistUnique(nodes, r);
    }
    var e := DictionaryOf(nodes) - {n.id};
    assert e.Keys == (set m | m in r :: m.id) && forall y :: y in e ==> e[y] in r && e[y].id == y by {
      RemovedKeys(nodes, n, r);
    }
    DictionaryOfUnique(r, e);
  }

  lemma RemovedKeys(nodes: seq<RoomNode>, n: RoomNode, r: seq<RoomNode>)
    requires UniqueNodeIds(nodes) && n in nodes
    requires forall y :: y in r <==> y in nodes && y != n
    ensures var e := DictionaryOf(nodes) - {n.id};
            && e.Keys == (set m | m in r :: m.id)
            && forall y :: y in e ==> e[y] in r && e[y].id == y
  {
    var e := DictionaryOf(nodes) - {n.id};
    forall y | y in e ensures e[y] in r && e[y].id == y {
      assert e[y] != n;
    }
    var ids := set m | m in r :: m.id;
    forall m | m in r ensures m.id in e {
      KeyKept(nodes, n, m);
    }
    forall y | y in e ensures y in ids {
      assert e[y] in r;
    }
  }

  lemma KeyKept(nodes: seq<RoomNode>, n: RoomNode, m: RoomNode)
    requires UniqueNodeIds(nodes) && n in nodes && m in nodes && m != n
    ensures m.id in DictionaryOf(nodes) - {n.id}
  {
    SameIdSameNode(nodes, m, n);
  }

  /** With unique ids the dictionary is determined: it maps each id to the node carrying it. */
  lemma DictionaryOfUnique(nodes: seq<RoomNode>, d: map<string, RoomNode>)
    requires UniqueNodeIds(nodes)
    requires d.Keys == set m | m in nodes :: m.id
    requires forall y :: y in d ==> d[y] in nodes && d[y].id == y
    ensures d == DictionaryOf(nodes)
  {
    var e := DictionaryOf(nodes);
    forall y | y in d ensures d[y] == e[y] {
      SameIdSameNode(nodes, d[y], e[y]);
    }
  }

  lemma SameIdSameNode(nodes: seq<RoomNode>, x: RoomNode, y: RoomNode)
    requires UniqueNodeIds(nodes) && x in nodes && y in nodes
    ensures x.id == y.id ==> x == y
  {
  }

  /** The values of the list without the queued nodes are the surviving values. */
  lemma {:induction false} SurvivorsOfExcept(nodes: seq<RoomNode>, gone: set<RoomNode>)
    requires forall i :: 0 <= i < |nodes| ==> (nodes[i] in gone <==> NodeDeletion.Deletable(nodes[i].Value()))
    ensures ValuesOf(Except(nodes, gone)) == NodeDeletion.Survivors(ValuesOf(nodes))
    decreases |nodes|
  {
    if |nodes| > 0 {
      var v := ValuesOf(nodes);
      SurvivorsOfExcept(nodes[1..], gone);
      assert ValuesOf(nodes[1..]) == v[1..];
      var head := if nodes[0] in gone then [] else [nodes[0]];
      assert Except(nodes, gone) == head + Except(nodes[1..], gone);
      ValuesOfConcat(head, Except(nodes[1..], gone));
    }
  }

  lemma ValuesOfConcat(a: seq<RoomNode>, b: seq<RoomNode>)
    ensures ValuesOf(a + b) == ValuesOf(a) + ValuesOf(b)
  {
  }

  /** Selecting or deselecting every node keeps a well-formed graph well-formed. */
  lemma SelectionWellFormed(v: seq<NodeValue>, selected: bool, maxChildCorridors: nat)
    ensures WellFormed(v, maxChildCorridors) ==> WellFormed(WithSelection(v, selected), maxChildCorridors)
  {
    if WellFormed(v, maxChildCorridors) {
      WithSelectionKeepsWellFormed(v, selected, maxChildCorridors);
    }
  }

  /** A connection through the rule keeps a well-formed graph well-formed. */
  lemma ConnectionWellFormed(v: seq<NodeValue>, fromId: string, childId: string, maxChildCorridors: nat)
    requires fromId in Ids(v) && childId in Ids(v)
    ensures WellFormed(v, maxChildCorridors) ==>
            WellFormed(EdgeRule.Connect(v, fromId, childId, maxChildCorridors), maxChildCorridors)
  {
    if WellFormed(v, maxChildCorridors) {
      EdgeRule.ConnectKeepsWellFormed(v, fromId, childId, maxChildCorridors);
    }
  }

  /** "Delete Selected Room Node Links" keeps a well-formed graph well-formed. */
  lemma LinkDeletionWellFormed(v: seq<NodeValue>, maxChildCorridors: nat)
    ensures WellFormed(v, maxChildCorridors) ==>
            WellFormed(EdgeRemoval.DeleteSelectedRoomNodeLinks(v), maxChildCorridors)
  {
    if WellFormed(v, maxChildCorridors) {
      EdgeRemoval.DeleteLinksKeepsWellFormed(v, maxChildCorridors);
    }
  }

  /** "Delete Selected Room Nodes" keeps a well-formed graph well-formed. */
  lemma NodeDeletionWellFormed(v: seq<NodeValue>, maxChildCorridors: nat)
    ensures WellFormed(v, maxChildCorridors) ==>
            WellFormed(NodeDeletion.DeleteSelectedRoomNodes(v), maxChildCorridors)
  {
    if WellFormed(v, maxChildCorridors) {
      NodeDeletion.DeleteSelectedRoomNodesEffect(v, maxChildCorridors);
    }
  }

  /** A successful "Create Room Node" keeps a well-formed graph well-formed. */
  lemma CreatedWellFormed(v: seq<NodeValue>, types: seq<RoomNodeType>, entranceId: string, roomNodeId: string,
                          maxChildCorridors: nat)
    requires LastIndexOf(v, roomNodeId) < 0 && (|v| == 0 ==> entranceId != roomNodeId)
    ensures var r := NodeCreation.CreateRoomNode(v, types, entranceId, roomNodeId);
            r.Some? && WellFormed(v, maxChildCorridors) ==> WellFormed(r.value, maxChildCorridors)
  {
    if WellFormed(v, maxChildCorridors) {
      NodeCreation.CreateRoomNodeEffect(v, types, entranceId, roomNodeId, maxChildCorridors);
    }
  }

  /** The walk's progress: the nodes before position `p` have been visited, in order. */
  function DetachThrough(g: seq<NodeValue>, p: nat): (h: seq<NodeValue>)
    requires p <= |g|
    ensures SameNodes(g, h)
  {
    if p == 0 then g else NodeDeletion.DetachNode(DetachThrough(g, p - 1), p - 1)
  }

  /** Visiting the first `p` nodes and then the rest is the whole walk. */
  lemma {:induction false} DetachThroughRest(g: seq<NodeValue>, p: nat)
    requires p <= |g|
    ensures NodeDeletion.DetachFrom(DetachThrough(g, p), p) == NodeDeletion.DetachFrom(g, 0)
  {
    if p > 0 {
      DetachThroughRest(g, p - 1);
      DetachThroughStep(g, p);
    }
  }

  lemma DetachThroughStep(g: seq<NodeValue>, p: nat)
    requires 0 < p <= |g|
    ensures NodeDeletion.DetachFrom(DetachThrough(g, p), p) == NodeDeletion.DetachFrom(DetachThrough(g, p - 1), p - 1)
  {
    var h := DetachThrough(g, p - 1);
    assert NodeDeletion.DetachFrom(h, p - 1) == NodeDeletion.DetachFrom(NodeDeletion.DetachNode(h, p - 1), p);
  }

  /** So visiting every node is the whole walk. */
  lemma DetachThroughAll(g: seq<NodeValue>)
    ensures DetachThrough(g, |g|) == NodeDeletion.DetachFrom(g, 0)
  {
    DetachThroughRest(g, |g|);
    var h := DetachThrough(g, |g|);
    assert NodeDeletion.DetachFrom(h, |g|) == h;
  }

  /** The link-cutting loop after the nodes before position `p`, in order. */
  function CutSelectedThrough(g: seq<NodeValue>, p: nat): (h: seq<NodeValue>)
    requires p <= |g|
    ensures SameNodes(g, h)
  {
    if p == 0 then g else EdgeRemoval.CutSelectedChildren(CutSelectedThrough(g, p - 1), p - 1)
  }

  /** Visiting the first `p` nodes and then the rest is the whole loop. */
  lemma {:induction false} CutSelectedThroughRest(g: seq<NodeValue>, p: nat)
    requires p <= |g|
    ensures EdgeRemoval.CutSelectedLinksFrom(CutSelectedThrough(g, p), p) == EdgeRemoval.CutSelectedLinksFrom(g, 0)
  {
    if p > 0 {
      CutSelectedThroughRest(g, p - 1);
      CutSelectedThroughStep(g, p);
    }
  }

  lemma CutSelectedThroughStep(g: seq<NodeValue>, p: nat)
    requires 0 < p <= |g|
    ensures EdgeRemoval.CutSelectedLinksFrom(CutSelectedThrough(g, p), p)
            == EdgeRemoval.CutSelectedLinksFrom(CutSelectedThrough(g, p - 1), p - 1)
  {
    var h := CutSelectedThrough(g, p - 1);
    assert EdgeRemoval.CutSelectedLinksFrom(h, p - 1)
           == EdgeRemoval.CutSelectedLinksFrom(EdgeRemoval.CutSelectedChildren(h, p - 1), p);
  }

  /** So visiting every node is the whole loop. */
  lemma CutSelectedThroughAll(g: seq<NodeValue>)
    ensures CutSelectedThrough(g, |g|) == EdgeRemoval.CutSelectedLinksFrom(g, 0)
  {
    CutSelectedThroughRest(g, |g|);
    var h := CutSelectedThrough(g, |g|);
    assert EdgeRemoval.CutSelectedLinksFrom(h, |g|) == h;
  }

  /** Removing the queue from the list leaves exactly the surviving values. */
  lemma QueueSurvivors(nodes: seq<RoomNode>, queue: seq<RoomNode>)
    requires UniqueNodeIds(nodes) && queue == DeletableNodes(nodes, ValuesOf(nodes), |nodes|)
    ensures NoDup(queue)
    ensures ValuesOf(Except(nodes, Elements(queue))) == NodeDeletion.Survivors(ValuesOf(nodes))
  {
    var v := ValuesOf(nodes);
    UniqueNodesNoDup(nodes);
    DeletableNodesNoDup(nodes, v, |nodes|);
    forall i | 0 <= i < |nodes|
      ensures nodes[i] in Elements(queue) <==> NodeDeletion.Deletable(nodes[i].Value())
    {
      DeletableNodesMember(nodes, v, |nodes|, i);
    }
    SurvivorsOfExcept(nodes, Elements(queue));
  }

  /** After the walk, removing the queued nodes leaves exactly what the reference deletion leaves. */
  lemma DeletionPlan(v: seq<NodeValue>, nodes: seq<RoomNode>, queue: seq<RoomNode>)
    requires UniqueNodeIds(nodes) && |nodes| == |v|
    requires ValuesOf(nodes) == DetachThrough(v, |v|)
    requires queue == DeletableNodes(nodes, ValuesOf(nodes), |nodes|)
    ensures NoDup(queue)
    ensures ValuesOf(Except(nodes, Elements(queue))) == NodeDeletion.DeleteSelectedRoomNodes(v)
  {
    DetachThroughAll(v);
    QueueSurvivors(nodes, queue);
  }

  class RoomNodeGraphEditor {
    const currentRoomNodeGraph: RoomNodeGraph
    const roomNodeTypeList: seq<RoomNodeType>

    constructor (graph: RoomNodeGraph, typeList: seq<RoomNodeType>)
      ensures currentRoomNodeGraph == graph && roomNodeTypeList == typeList
    {
      currentRoomNodeGraph := graph;
      roomNodeTypeList := typeList;
    }

    /** Drops the pending connection and puts the line end back at the origin. */
    method ClearLineDrag()
      modifies currentRoomNodeGraph`roomNodeFrom, currentRoomNodeGraph`linePosition
      ensures currentRoomNodeGraph.roomNodeFrom == null && currentRoomNodeGraph.linePosition == Zero
      ensures currentRoomNodeGraph.roomNodeList == old(currentRoomNodeGraph.roomNodeList)
      ensures currentRoomNodeGraph.View() == old(currentRoomNodeGraph.View())
      ensures currentRoomNodeGraph.Valid() == old(currentRoomNodeGraph.Valid())
    {
      currentRoomNodeGraph.roomNodeFrom := null;
      currentRoomNodeGraph.linePosition := Zero;
    }

    /**
     * Mouse-up: with the right button while a connection is pending, the
     * node under the mouse (`roomNode`, null when there is none) becomes a
     * child of the pending node if the rule allows it, and the pending
     * connection is dropped either way. Any other mouse-up changes nothing.
     */
    method ProcessMouseUpEvent(button: int, roomNode: RoomNode?)
      requires currentRoomNodeGraph.Valid()
      requires currentRoomNodeGraph.roomNodeFrom == null || currentRoomNodeGraph.roomNodeFrom in currentRoomNodeGraph.roomNodeList
      requires roomNode == null || roomNode in currentRoomNodeGraph.roomNodeList
      modifies currentRoomNodeGraph`roomNodeFrom, currentRoomNodeGraph`linePosition
      modifies set n | n in currentRoomNodeGraph.roomNodeList
      ensures currentRoomNodeGraph.Valid()
      ensures var dragging := button == 1 && old(currentRoomNodeGraph.roomNodeFrom) != null;
              && (dragging && roomNode != null ==>
                    currentRoomNodeGraph.View()
                    == EdgeRule.Connect(old(currentRoomNodeGraph.View()), old(currentRoomNodeGraph.roomNodeFrom).id,
                                        roomNode.id, currentRoomNodeGraph.maxChildCorridors))
              && (!(dragging && roomNode != null) ==> currentRoomNodeGraph.View() == old(currentRoomNodeGraph.View()))
              && (dragging ==> currentRoomNodeGraph.roomNodeFrom == null && currentRoomNodeGraph.linePosition == Zero)
              && (!dragging ==> currentRoomNodeGraph.roomNodeFrom == old(currentRoomNodeGraph.roomNodeFrom)
                                && currentRoomNodeGraph.linePosition == old(currentRoomNodeGraph.linePosition))
      ensures WellFormed(old(currentRoomNodeGraph.View()), currentRoomNodeGraph.maxChildCorridors) ==>
              WellFormed(currentRoomNodeGraph.View(), currentRoomNodeGraph.maxChildCorridors)
    {
      var graph := currentRoomNodeGraph;
      if button == 1 && graph.roomNodeFrom != null {
        if roomNode != null {
          ConnectFromPending(graph.roomNodeFrom, roomNode);
        }
        ClearLineDrag();
      }
    }

    /** `RoomNodeFrom.AddChild(roomNode.id)` and, when that answered true, `roomNode.AddParent(RoomNodeFrom.id)`. */
    method ConnectFromPending(from: RoomNode, roomNode: RoomNode)
      requires currentRoomNodeGraph.Valid()
      requires from in currentRoomNodeGraph.roomNodeList && roomNode in currentRoomNodeGraph.roomNodeList
      modifies from`childRoomNodeIDList, roomNode`parentRoomNodeIDList
      ensures currentRoomNodeGraph.View()
              == EdgeRule.Connect(old(currentRoomNodeGraph.View()), from.id, roomNode.id, currentRoomNodeGraph.maxChildCorridors)
    ensures WellFormed(old(currentRoomNodeGraph.View()), currentRoomNodeGraph.maxChildCorridors) ==>
            WellFormed(currentRoomNodeGraph.View(), currentRoomNodeGraph.maxChildCorridors)
    {
      var graph := currentRoomNodeGraph;
      ghost var v := graph.View();
      ghost var max := graph.maxChildCorridors;
      graph.LookupAgrees(from.id);
      graph.LookupAgrees(roomNode.id);
      ghost var f := LastIndexOf(v, from.id);
      ghost var t := LastIndexOf(v, roomNode.id);
      ConnectAt(v, from.id, roomNode.id, max, f, t);
      ConnectionWellFormed(v, from.id, roomNode.id, max);
      var added := AddChildLink(from, f, roomNode, t);
      if added {
        AddParentLink(roomNode, t, from.id);
      }
    }

    /** `RoomNodeFrom.AddChild(roomNode.id)`, with the pending node at `f` and the target at `t`. */
    method AddChildLink(from: RoomNode, ghost f: nat, roomNode: RoomNode, ghost t: nat) returns (added: bool)
      requires currentRoomNodeGraph.Valid()
      requires f < |currentRoomNodeGraph.roomNodeList| && currentRoomNodeGraph.roomNodeList[f] == from
      requires t == LastIndexOf(currentRoomNodeGraph.View(), roomNode.id) && 0 <= t
      requires currentRoomNodeGraph.roomNodeList[t] == roomNode
      modifies from`childRoomNodeIDList
      ensures var v := old(currentRoomNodeGraph.View());
              added == EdgeRule.IsChildRoomValid(v, v[f], roomNode.id, currentRoomNodeGraph.maxChildCorridors)
      ensures var v := old(currentRoomNodeGraph.View());
              currentRoomNodeGraph.View() == if added then v[f := v[f].(childIds := v[f].childIds + [roomNode.id])] else v
    {
      var graph := currentRoomNodeGraph;
      ghost var v := graph.View();
      graph.LookupAgrees(roomNode.id);
      assert from.IsChildRoomValid(roomNode.id) == EdgeRule.IsChildRoomValid(v, v[f], roomNode.id, graph.maxChildCorridors);
      added := AddChildAt(from, f, roomNode.id);
    }

    /** The call itself: only the child list of `from`, at `f`, can change. */
    method AddChildAt(from: RoomNode, ghost f: nat, childId: string) returns (added: bool)
      requires currentRoomNodeGraph.Valid() && childId in currentRoomNodeGraph.roomNodeDictionary
      requires f < |currentRoomNodeGraph.roomNodeList| && currentRoomNodeGraph.roomNodeList[f] == from
      requires from.roomNodeGraph == currentRoomNodeGraph
      modifies from`childRoomNodeIDList
      ensures added == old(from.IsChildRoomValid(childId))
      ensures var v := old(currentRoomNodeGraph.View());
              currentRoomNodeGraph.View() == if added then v[f := v[f].(childIds := v[f].childIds + [childId])] else v
    {
      ghost var v := currentRoomNodeGraph.View();
      label before:
      added := from.AddChild(childId);
      assert currentRoomNodeGraph.View() == v[f := from.Value()] by {
        currentRoomNodeGraph.ViewUpdatedAt@before(f);
      }
    }

    /** `roomNode.AddParent(RoomNodeFrom.id)`, with the target at `t`. */
    method AddParentLink(roomNode: RoomNode, ghost t: nat, fromId: string)
      requires currentRoomNodeGraph.Valid()
      requires t < |currentRoomNodeGraph.roomNodeList| && currentRoomNodeGraph.roomNodeList[t] == roomNode
      modifies roomNode`parentRoomNodeIDList
      ensures var v := old(currentRoomNodeGraph.View());
              currentRoomNodeGraph.View() == v[t := v[t].(parentIds := v[t].parentIds + [fromId])]
    {
      label before:
      var added := roomNode.AddParent(fromId);
      assert currentRoomNodeGraph.View() == old@before(currentRoomNodeGraph.View())[t := roomNode.Value()] by {
        currentRoomNodeGraph.ViewUpdatedAt@before(t);
      }
    }

    /** Every node ends up unselected; nothing else changes. */
    method ClearAllSelectedRoomNodes()
      requires currentRoomNodeGraph.Valid()
      modifies set n | n in currentRoomNodeGraph.roomNodeList
      ensures currentRoomNodeGraph.View() == WithSelection(old(currentRoomNodeGraph.View()), false)
      ensures WellFormed(old(currentRoomNodeGraph.View()), currentRoomNodeGraph.maxChildCorridors) ==>
              WellFormed(currentRoomNodeGraph.View(), currentRoomNodeGraph.maxChildCorridors)
    {
      var graph := currentRoomNodeGraph;
      ghost var v0 := graph.View();
      SelectionUpToEnds(v0, false);
      SelectionWellFormed(v0, false, graph.maxChildCorridors);
      for p := 0 to |graph.roomNodeList|
        invariant |graph.roomNodeList| == |v0|
        invariant graph.View() == SelectionUpTo(v0, p, false)
      {
        SelectionUpToStep(v0, p, false);
        Deselect(graph.roomNodeList[p], p);
      }
    }

    /** One iteration of that loop: a selected node at `p` is unselected. */
    method Deselect(roomNode: RoomNode, ghost p: nat)
      requires currentRoomNodeGraph.Valid()
      requires p < |currentRoomNodeGraph.roomNodeList| && currentRoomNodeGraph.roomNodeList[p] == roomNode
      modifies roomNode`isSelected
      ensures var v := old(currentRoomNodeGraph.View()); currentRoomNodeGraph.View() == v[p := v[p].(isSelected := false)]
    {
      if roomNode.isSelected {
        label before:
        roomNode.isSelected := false;
        assert currentRoomNodeGraph.View() == old@before(currentRoomNodeGraph.View())[p := roomNode.Value()] by {
          currentRoomNodeGraph.ViewUpdatedAt@before(p);
        }
      }
    }

    /** Every node ends up selected; nothing else changes. */
    method SelectAllRoomNodes()
      requires currentRoomNodeGraph.Valid()
      modifies set n | n in currentRoomNodeGraph.roomNodeList
      ensures currentRoomNodeGraph.View() == WithSelection(old(currentRoomNodeGraph.View()), true)
      ensures WellFormed(old(currentRoomNodeGraph.View()), currentRoomNodeGraph.maxChildCorridors) ==>
              WellFormed(currentRoomNodeGraph.View(), currentRoomNodeGraph.maxChildCorridors)
    {
      var graph := currentRoomNodeGraph;
      ghost var v0 := graph.View();
      SelectionUpToEnds(v0, true);
      SelectionWellFormed(v0, true, graph.maxChildCorridors);
      for p := 0 to |graph.roomNodeList|
        invariant |graph.roomNodeList| == |v0|
        invariant graph.View() == SelectionUpTo(v0, p, true)
      {
        SelectionUpToStep(v0, p, true);
        Select(graph.roomNodeList[p], p);
      }
    }

    /** One iteration of that loop: the node at `p` is selected. */
    method Select(roomNode: RoomNode, ghost p: nat)
      requires currentRoomNodeGraph.Valid()
      requires p < |currentRoomNodeGraph.roomNodeList| && currentRoomNodeGraph.roomNodeList[p] == roomNode
      modifies roomNode`isSelected
      ensures var v := old(currentRoomNodeGraph.View()); currentRoomNodeGraph.View() == v[p := v[p].(isSelected := true)]
    {
      label before:
      roomNode.isSelected := true;
      assert currentRoomNodeGraph.View() == old@before(currentRoomNodeGraph.View())[p := roomNode.Value()] by {
        currentRoomNodeGraph.ViewUpdatedAt@before(p);
      }
    }

    /** "Delete Selected Room Node Links": cut every edge between two selected nodes, then clear the selection. */
    method DeletedSelctedRoomNodeLinks()
      requires currentRoomNodeGraph.Valid()
      modifies set n | n in currentRoomNodeGraph.roomNodeList
      ensures currentRoomNodeGraph.View() == EdgeRemoval.DeleteSelectedRoomNodeLinks(old(currentRoomNodeGraph.View()))
      ensures WellFormed(old(currentRoomNodeGraph.View()), currentRoomNodeGraph.maxChildCorridors) ==>
              WellFormed(currentRoomNodeGraph.View(), currentRoomNodeGraph.maxChildCorridors)
    {
      LinkDeletionWellFormed(currentRoomNodeGraph.View(), currentRoomNodeGraph.maxChildCorridors);
      CutSelectedRoomNodeLinks();
      ClearAllSelectedRoomNodes();
    }

    /** The loop of that command: each selected node in turn loses its links to selected children. */
    method CutSelectedRoomNodeLinks()
      requires currentRoomNodeGraph.Valid()
      modifies set n | n in currentRoomNodeGraph.roomNodeList
      ensures currentRoomNodeGraph.View() == EdgeRemoval.CutSelectedLinksFrom(old(currentRoomNodeGraph.View()), 0)
    {
      var graph := currentRoomNodeGraph;
      ghost var v0 := graph.View();
      ghost var nodes := graph.roomNodeList;
      for p := 0 to |graph.roomNodeList|
        invariant graph.roomNodeList == nodes && |nodes| == |v0|
        invariant graph.View() == CutSelectedThrough(v0, p)
      {
        CutSelectedChildLinks(graph.roomNodeList[p], p);
      }
      CutSelectedThroughAll(v0);
    }

    /** One iteration of that loop: a selected node at `p` loses its links to selected children. */
    method CutSelectedChildLinks(roomNode: RoomNode, ghost p: nat)
      requires currentRoomNodeGraph.Valid()
      requires p < |currentRoomNodeGraph.roomNodeList| && currentRoomNodeGraph.roomNodeList[p] == roomNode
      modifies set n | n in currentRoomNodeGraph.roomNodeList
      ensures currentRoomNodeGraph.roomNodeList == old(currentRoomNodeGraph.roomNodeList)
      ensures currentRoomNodeGraph.View() == EdgeRemoval.CutSelectedChildren(old(currentRoomNodeGraph.View()), p)
    {
      ghost var v := currentRoomNodeGraph.View();
      assert v[p] == roomNode.Value();
      if roomNode.isSelected && |roomNode.childRoomNodeIDList| > 0 {
        currentRoomNodeGraph.CutChildLinks(roomNode, p, true);
        assert currentRoomNodeGraph.View() == EdgeRemoval.CutChildrenFrom(v, p, |v[p].childIds| - 1, true);
      }
    }

    /**
     * "Create Room Node": on an empty graph an entrance node first, then an
     * unassigned node. The GUIDs the source draws are `entranceId` and
     * `roomNodeId`, fresh for the graph. When the catalog lacks a type the
     * command looks up, it answers false and leaves the graph alone.
     */
    method CreateRoomNode(entranceId: string, roomNodeId: string) returns (created: bool)
      requires currentRoomNodeGraph.Valid()
      requires roomNodeId !in currentRoomNodeGraph.roomNodeDictionary
      requires |currentRoomNodeGraph.roomNodeList| == 0 ==> entranceId != roomNodeId
      modifies currentRoomNodeGraph`roomNodeList, currentRoomNodeGraph`roomNodeDictionary
      ensures currentRoomNodeGraph.Valid()
      ensures var r := NodeCreation.CreateRoomNode(old(currentRoomNodeGraph.View()), roomNodeTypeList, entranceId, roomNodeId);
              && (created <==> r.Some?)
              && currentRoomNodeGraph.View() == if created then r.value else old(currentRoomNodeGraph.View())
      ensures WellFormed(old(currentRoomNodeGraph.View()), currentRoomNodeGraph.maxChildCorridors) ==>
              WellFormed(currentRoomNodeGraph.View(), currentRoomNodeGraph.maxChildCorridors)
    {
      ghost var v := currentRoomNodeGraph.View();
      currentRoomNodeGraph.LookupAgrees(roomNodeId);
      var entranceType := FindRoomNodeType(roomNodeTypeList, Entrance);
      var noneType := FindRoomNodeType(roomNodeTypeList, Unassigned);
      if (|currentRoomNodeGraph.roomNodeList| == 0 && entranceType.None?) || noneType.None? {
        return false;
      }
      if |currentRoomNodeGraph.roomNodeList| == 0 {
        CreateRoomNodeWithType(entranceId, entranceType.value);
      }
      CreateRoomNodeWithType(roomNodeId, noneType.value);
      CreatedWellFormed(v, roomNodeTypeList, entranceId, roomNodeId, currentRoomNodeGraph.maxChildCorridors);
      return true;
    }

    /** Appends a fresh node of the given type to the list and rebuilds the dictionary. */
    method CreateRoomNodeWithType(roomNodeId: string, roomNodeType: RoomNodeType)
      requires currentRoomNodeGraph.Valid() && roomNodeId !in currentRoomNodeGraph.roomNodeDictionary
      modifies currentRoomNodeGraph`roomNodeList, currentRoomNodeGraph`roomNodeDictionary
      ensures currentRoomNodeGraph.Valid() && roomNodeId in currentRoomNodeGraph.roomNodeDictionary
      ensures currentRoomNodeGraph.View()
              == NodeCreation.CreateRoomNodeWithType(old(currentRoomNodeGraph.View()), roomNodeId, roomNodeType)
    {
      var graph := currentRoomNodeGraph;
      var roomNode := new RoomNode.Initialize(roomNodeId, graph, roomNodeType, roomNodeTypeList);
      assert roomNode.Value() == NodeCreation.NewNode(roomNodeId, roomNodeType);
      AddRoomNode(roomNode);
    }

    /** Adds a node of this graph with an id the graph does not hold yet, then rebuilds the dictionary. */
    method AddRoomNode(roomNode: RoomNode)
      requires currentRoomNodeGraph.Valid() && roomNode.id !in currentRoomNodeGraph.roomNodeDictionary
      requires roomNode.roomNodeGraph == currentRoomNodeGraph
      modifies currentRoomNodeGraph`roomNodeList, currentRoomNodeGraph`roomNodeDictionary
      ensures currentRoomNodeGraph.Valid() && roomNode.id in currentRoomNodeGraph.roomNodeDictionary
      ensures currentRoomNodeGraph.View() == old(currentRoomNodeGraph.View()) + [roomNode.Value()]
    {
      var graph := currentRoomNodeGraph;
      AppendRoomNode(roomNode);
      label appended:
      graph.OnValidate();
      ValuesUnchanged@appended(graph.roomNodeList);
      assert roomNode.id in graph.roomNodeDictionary by {
        assert graph.roomNodeList[|graph.roomNodeList| - 1] == roomNode;
      }
    }

    /** `roomNodeList.Add(roomNode)` for a node of this graph with an id the graph does not hold yet. */
    method AppendRoomNode(roomNode: RoomNode)
      requires currentRoomNodeGraph.Valid() && roomNode.id !in currentRoomNodeGraph.roomNodeDictionary
      requires roomNode.roomNodeGraph == currentRoomNodeGraph
      modifies currentRoomNodeGraph`roomNodeList
      ensures currentRoomNodeGraph.roomNodeList == old(currentRoomNodeGraph.roomNodeList) + [roomNode]
      ensures UniqueNodeIds(currentRoomNodeGraph.roomNodeList)
      ensures forall n :: n in currentRoomNodeGraph.roomNodeList ==> n.roomNodeGraph == currentRoomNodeGraph
      ensures ValuesOf(currentRoomNodeGraph.roomNodeList) == old(currentRoomNodeGraph.View()) + [roomNode.Value()]
    {
      var graph := currentRoomNodeGraph;
      ghost var nodes := graph.roomNodeList;
      ghost var v := graph.View();
      AppendKeepsUnique(nodes, roomNode);
      ValuesOfAppend(nodes, roomNode);
      graph.roomNodeList := graph.roomNodeList + [roomNode];
    }

    /**
     * "Delete Selected Room Nodes". Phase one detaches every selected
     * non-entrance node from its children and parents and queues it; phase
     * two removes the queued nodes from the dictionary and the list.
     */
    method DeletedSelctedRoomNodes()
      requires currentRoomNodeGraph.Valid()
      modifies currentRoomNodeGraph`roomNodeList, currentRoomNodeGraph`roomNodeDictionary
      modifies set n | n in currentRoomNodeGraph.roomNodeList
      ensures currentRoomNodeGraph.Valid()
      ensures currentRoomNodeGraph.View() == NodeDeletion.DeleteSelectedRoomNodes(old(currentRoomNodeGraph.View()))
      ensures WellFormed(old(currentRoomNodeGraph.View()), currentRoomNodeGraph.maxChildCorridors) ==>
              WellFormed(currentRoomNodeGraph.View(), currentRoomNodeGraph.maxChildCorridors)
    {
      ghost var v := currentRoomNodeGraph.View();
      NodeDeletionWellFormed(v, currentRoomNodeGraph.maxChildCorridors);
      var roomNodeToDelete := DetachSelectedRoomNodes();
      ghost var nodes := currentRoomNodeGraph.roomNodeList;
      DeletionPlan(v, nodes, roomNodeToDelete);
      RemoveQueuedRoomNodes(roomNodeToDelete);
    }

    /** Phase one: the walk over the list; answers the queue of nodes to delete, in list order. */
    method DetachSelectedRoomNodes() returns (roomNodeToDelete: seq<RoomNode>)
      requires currentRoomNodeGraph.Valid()
      modifies set n | n in currentRoomNodeGraph.roomNodeList
      ensures currentRoomNodeGraph.Valid() && currentRoomNodeGraph.roomNodeList == old(currentRoomNodeGraph.roomNodeList)
      ensures currentRoomNodeGraph.View() == DetachThrough(old(currentRoomNodeGraph.View()), |currentRoomNodeGraph.roomNodeList|)
      ensures roomNodeToDelete
              == DeletableNodes(currentRoomNodeGraph.roomNodeList, currentRoomNodeGraph.View(), |currentRoomNodeGraph.roomNodeList|)
    {
      var graph := currentRoomNodeGraph;
      ghost var v0 := graph.View();
      ghost var nodes := graph.roomNodeList;
      roomNodeToDelete := [];
      for p := 0 to |graph.roomNodeList|
        invariant graph.roomNodeList == nodes && |nodes| == |v0|
        invariant graph.View() == DetachThrough(v0, p)
        invariant roomNodeToDelete == DeletableNodes(nodes, DetachThrough(v0, p), p)
      {
        roomNodeToDelete := DetachAndQueue(p, roomNodeToDelete);
      }
    }

    /** One step of that walk: the node at `p` is detached if deletable and then queued. */
    method DetachAndQueue(p: nat, queue: seq<RoomNode>) returns (queue': seq<RoomNode>)
      requires currentRoomNodeGraph.Valid() && p < |currentRoomNodeGraph.roomNodeList|
      requires queue == DeletableNodes(currentRoomNodeGraph.roomNodeList, currentRoomNodeGraph.View(), p)
      modifies set n | n in currentRoomNodeGraph.roomNodeList
      ensures currentRoomNodeGraph.roomNodeList == old(currentRoomNodeGraph.roomNodeList) && currentRoomNodeGraph.Valid()
      ensures currentRoomNodeGraph.View() == NodeDeletion.DetachNode(old(currentRoomNodeGraph.View()), p)
      ensures queue' == DeletableNodes(currentRoomNodeGraph.roomNodeList, currentRoomNodeGraph.View(), p + 1)
    {
      var graph := currentRoomNodeGraph;
      ghost var cur := graph.View();
      var roomNode := graph.roomNodeList[p];
      var queued := DetachRoomNode(roomNode, p);
      DeletableNodesNext(graph.roomNodeList, cur, graph.View(), p);
      queue' := queue + if queued then [roomNode] else [];
    }

    /** The body of that walk for the node at `p`: answers whether it was queued. */
    method DetachRoomNode(roomNode: RoomNode, ghost p: nat) returns (queued: bool)
      requires currentRoomNodeGraph.Valid()
      requires p < |currentRoomNodeGraph.roomNodeList| && currentRoomNodeGraph.roomNodeList[p] == roomNode
      modifies set n | n in currentRoomNodeGraph.roomNodeList
      ensures queued == NodeDeletion.Deletable(old(currentRoomNodeGraph.View())[p])
      ensures currentRoomNodeGraph.View() == NodeDeletion.DetachNode(old(currentRoomNodeGraph.View()), p)
    {
      queued := roomNode.isSelected && !roomNode.roomNodeType.isEntrance;
      if queued {
        ghost var v := currentRoomNodeGraph.View();
        DetachFromChildren(roomNode, p);
        ghost var v1 := currentRoomNodeGraph.View();
        DetachFromParents(roomNode, p);
        assert currentRoomNodeGraph.View()
               == NodeDeletion.DetachParents(v1, v[p].id, v1[p].parentIds);
      }
    }

    /**
     * The loop over the node's child ids: each child found in the dictionary
     * forgets this node as a parent. Only parent lists change, so the child
     * list being walked stays as it was.
     */
    method DetachFromChildren(roomNode: RoomNode, ghost p: nat)
      requires currentRoomNodeGraph.Valid()
      requires p < |currentRoomNodeGraph.roomNodeList| && currentRoomNodeGraph.roomNodeList[p] == roomNode
      modifies set n | n in currentRoomNodeGraph.roomNodeList
      ensures currentRoomNodeGraph.View()
              == NodeDeletion.DetachChildren(old(currentRoomNodeGraph.View()), roomNode.id, old(roomNode.childRoomNodeIDList))
    {
      var graph := currentRoomNodeGraph;
      ghost var v0 := graph.View();
      var childRoomNodeIDs := roomNode.childRoomNodeIDList;
      var i := 0;
      while i < |childRoomNodeIDs|
        invariant 0 <= i <= |childRoomNodeIDs|
        invariant NodeDeletion.DetachChildren(graph.View(), roomNode.id, childRoomNodeIDs[i..])
                  == NodeDeletion.DetachChildren(v0, roomNode.id, childRoomNodeIDs)
      {
        ghost var v := graph.View();
        assert childRoomNodeIDs[i..][1..] == childRoomNodeIDs[i + 1..];
        ForgetParent(childRoomNodeIDs[i], roomNode.id);
        i := i + 1;
      }
    }

    /** The loop over the node's parent ids: each parent found in the dictionary forgets this node as a child. */
    method DetachFromParents(roomNode: RoomNode, ghost p: nat)
      requires currentRoomNodeGraph.Valid()
      requires p < |currentRoomNodeGraph.roomNodeList| && currentRoomNodeGraph.roomNodeList[p] == roomNode
      modifies set n | n in currentRoomNodeGraph.roomNodeList
      ensures currentRoomNodeGraph.View()
              == NodeDeletion.DetachParents(old(currentRoomNodeGraph.View()), roomNode.id, old(roomNode.parentRoomNodeIDList))
    {
      var graph := currentRoomNodeGraph;
      ghost var v0 := graph.View();
      var parentRoomIDs := roomNode.parentRoomNodeIDList;
      var i := 0;
      while i < |parentRoomIDs|
        invariant 0 <= i <= |parentRoomIDs|
        invariant NodeDeletion.DetachParents(graph.View(), roomNode.id, parentRoomIDs[i..])
                  == NodeDeletion.DetachParents(v0, roomNode.id, parentRoomIDs)
      {
        assert parentRoomIDs[i..][1..] == parentRoomIDs[i + 1..];
        ForgetChild(parentRoomIDs[i], roomNode.id);
        i := i + 1;
      }
    }

    /** The child with id `childId`, if the dictionary has one, drops `nodeId` from its parent list. */
    method ForgetParent(childId: string, nodeId: string)
      requires currentRoomNodeGraph.Valid()
      modifies set n | n in currentRoomNodeGraph.roomNodeList
      ensures currentRoomNodeGraph.View() == RemoveParentId(old(currentRoomNodeGraph.View()), childId, nodeId)
    {
      var graph := currentRoomNodeGraph;
      ghost var v := graph.View();
      var childRoomNode := graph.GetRoomNodeById(childId);
      graph.LookupAgrees(childId);
      ghost var j := LastIndexOf(v, childId);
      if childRoomNode != null {
        graph.RemoveParentAt(childRoomNode, j, nodeId);
        assert RemoveParentId(v, childId, nodeId) == v[j := v[j].(parentIds := RemoveFirst(v[j].parentIds, nodeId))];
      } else {
        assert RemoveParentId(v, childId, nodeId) == v;
      }
    }

    /** The parent with id `parentId`, if the dictionary has one, drops `nodeId` from its child list. */
    method ForgetChild(parentId: string, nodeId: string)
      requires currentRoomNodeGraph.Valid()
      modifies set n | n in currentRoomNodeGraph.roomNodeList
      ensures currentRoomNodeGraph.View() == RemoveChildId(old(currentRoomNodeGraph.View()), parentId, nodeId)
    {
      var graph := currentRoomNodeGraph;
      ghost var v := graph.View();
      var parentRoomNode := graph.GetRoomNodeById(parentId);
      graph.LookupAgrees(parentId);
      ghost var j := LastIndexOf(v, parentId);
      if parentRoomNode != null {
        graph.RemoveChildAt(parentRoomNode, j, nodeId);
        assert RemoveChildId(v, parentId, nodeId) == v[j := v[j].(childIds := RemoveFirst(v[j].childIds, nodeId))];
      } else {
        assert RemoveChildId(v, parentId, nodeId) == v;
      }
    }

    /** Phase two: the queued nodes are dequeued and removed one by one. */
    method RemoveQueuedRoomNodes(roomNodeToDelete: seq<RoomNode>)
      requires currentRoomNodeGraph.Valid()
      requires NoDup(roomNodeToDelete) && forall x :: x in roomNodeToDelete ==> x in currentRoomNodeGraph.roomNodeList
      modifies currentRoomNodeGraph`roomNodeList, currentRoomNodeGraph`roomNodeDictionary
      ensures currentRoomNodeGraph.Valid()
      ensures currentRoomNodeGraph.roomNodeList == Except(old(currentRoomNodeGraph.roomNodeList), Elements(roomNodeToDelete))
      ensures currentRoomNodeGraph.View() == old(ValuesOf(Except(currentRoomNodeGraph.roomNodeList, Elements(roomNodeToDelete))))
    {
      var graph := currentRoomNodeGraph;
      ghost var nodes := graph.roomNodeList;
      ExceptNothing(nodes);
      assert Elements(roomNodeToDelete[..0]) == {};
      var queue := roomNodeToDelete;
      ghost var k := 0;
      while |queue| > 0
        invariant 0 <= k <= |roomNodeToDelete| && queue == roomNodeToDelete[k..]
        invariant graph.roomNodeList == Except(nodes, Elements(roomNodeToDelete[..k]))
        invariant graph.roomNodeDictionary == DictionaryOf(graph.roomNodeList) && UniqueNodeIds(graph.roomNodeList)
      {
        var roomNode := queue[0];
        assert roomNode == roomNodeToDelete[k];
        queue := queue[1..];
        DequeueStep(nodes, roomNodeToDelete, k);
        RemoveRoomNode(roomNode);
        k := k + 1;
      }
      assert roomNodeToDelete[..k] == roomNodeToDelete;
      ValuesUnchanged(graph.roomNodeList);
    }

    /** The loop body: the node's id leaves the dictionary and the node leaves the list. */
    method RemoveRoomNode(roomNode: RoomNode)
      requires currentRoomNodeGraph.roomNodeDictionary == DictionaryOf(currentRoomNodeGraph.roomNodeList)
      requires UniqueNodeIds(currentRoomNodeGraph.roomNodeList) && roomNode in currentRoomNodeGraph.roomNodeList
      modifies currentRoomNodeGraph`roomNodeList, currentRoomNodeGraph`roomNodeDictionary
      ensures currentRoomNodeGraph.roomNodeList == RemoveFirst(old(currentRoomNodeGraph.roomNodeList), roomNode)
      ensures currentRoomNodeGraph.roomNodeDictionary == DictionaryOf(currentRoomNodeGraph.roomNodeList)
      ensures UniqueNodeIds(currentRoomNodeGraph.roomNodeList)
    {
      var graph := currentRoomNodeGraph;
      RemoveFromDictionary(graph.roomNodeList, roomNode);
      graph.roomNodeDictionary := graph.roomNodeDictionary - {roomNode.id};
      graph.roomNodeList := RemoveFirst(graph.roomNodeList, roomNode);
    }
  }
}
