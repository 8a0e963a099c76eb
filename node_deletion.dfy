/**
 * The editor's "Delete Selected Room Nodes" command. Phase one walks the
 * node list; every selected node that is not the entrance is queued, its
 * id is removed from the parent list of each of its children and then from
 * the child list of each of its parents. Phase two removes the queued nodes
 * from the dictionary and from the list.
 */
module NodeDeletion {
  import opened IdLists
  import opened RoomNodeTypes
  import opened GraphModel

  /** The nodes the command deletes: selected ones, except the entrance. */
  predicate Deletable(n: NodeValue) {
    n.isSelected && !n.roomNodeType.isEntrance
  }

  /** The loop over a deleted node's children: each child (looked up by id) forgets the parent `nodeId`. */
  function DetachChildren(g: seq<NodeValue>, nodeId: string, kids: seq<string>): (h: seq<NodeValue>)
    ensures SameNodes(g, h)
    ensures forall i :: 0 <= i < |g| ==> h[i].childIds == g[i].childIds
    decreases |kids|
  {
    if |kids| == 0 then g else DetachChildren(RemoveParentId(g, kids[0], nodeId), nodeId, kids[1..])
  }

  /** The loop over a deleted node's parents: each parent (looked up by id) forgets the child `nodeId`. */
  function DetachParents(g: seq<NodeValue>, nodeId: string, parents: seq<string>): (h: seq<NodeValue>)
    ensures SameNodes(g, h)
    ensures forall i :: 0 <= i < |g| ==> h[i].parentIds == g[i].parentIds
    decreases |parents|
  {
    if |parents| == 0 then g else DetachParents(RemoveChildId(g, parents[0], nodeId), nodeId, parents[1..])
  }

  /** Phase one's body for the node at position `p`; the parent loop reads the list as the child loop left it. */
  function DetachNode(g: seq<NodeValue>, p: nat): (h: seq<NodeValue>)
    requires p < |g|
    ensures SameNodes(g, h)
  {
    if Deletable(g[p]) then
      var g1 := DetachChildren(g, g[p].id, g[p].childIds);
      DetachParents(g1, g[p].id, g1[p].parentIds)
    else g
  }

  /** Phase one from position `p` on. */
  function DetachFrom(g: seq<NodeValue>, p: nat): (h: seq<NodeValue>)
    requires p <= |g|
    ensures SameNodes(g, h)
    decreases |g| - p
  {
    if p == |g| then g else DetachFrom(DetachNode(g, p), p + 1)
  }

  /** Phase two: the list without the queued nodes, in the original order. */
  function Survivors(g: seq<NodeValue>): (s: seq<NodeValue>)
    ensures |s| <= |g|
    ensures forall i :: 0 <= i < |s| ==> s[i] in g && !Deletable(s[i])
    ensures forall j :: 0 <= j < |g| && !Deletable(g[j]) ==> g[j] in s
  {
    if |g| == 0 then []
    else (if Deletable(g[0]) then [] else [g[0]]) + Survivors(g[1..])
  }

  function DeleteSelectedRoomNodes(g: seq<NodeValue>): seq<NodeValue> {
    Survivors(DetachFrom(g, 0))
  }

  // ---------------------------------------------------------------------------
  // The reference result: the surviving nodes, each with every deleted id
  // filtered out of its two lists.

  /** Ids of the deletable nodes among the first `p`. */
  ghost function DeletedIds(g: seq<NodeValue>, p: nat): set<string> {
    set i | 0 <= i < p && i < |g| && Deletable(g[i]) :: g[i].id
  }

  function Pruned(g: seq<NodeValue>, gone: set<string>): (h: seq<NodeValue>)
    ensures |h| == |g|
    ensures forall i :: 0 <= i < |g| ==>
      h[i] == g[i].(parentIds := Except(g[i].parentIds, gone), childIds := Except(g[i].childIds, gone))
  {
    seq(|g|, i requires 0 <= i < |g| =>
      g[i].(parentIds := Except(g[i].parentIds, gone), childIds := Except(g[i].childIds, gone)))
  }

  // ---------------------------------------------------------------------------
  // Phase one, one loop at a time.

  lemma {:induction false} DetachChildrenEffect(g: seq<NodeValue>, nodeId: string, kids: seq<string>)
    requires UniqueIds(g) && NoDup(kids)
    ensures var h := DetachChildren(g, nodeId, kids);
            forall i :: 0 <= i < |g| ==>
              h[i].parentIds == if g[i].id in kids then RemoveFirst(g[i].parentIds, nodeId) else g[i].parentIds
    decreases |kids|
  {
    if |kids| > 0 {
      var x := kids[0];
      var g1 := RemoveParentId(g, x, nodeId);
      NoDupTail(kids);
      RemoveParentIdStep(g, x, nodeId);
      DetachChildrenEffect(g1, nodeId, kids[1..]);
      var h := DetachChildren(g, nodeId, kids);
      assert h == DetachChildren(g1, nodeId, kids[1..]);
      forall i | 0 <= i < |g|
        ensures h[i].parentIds == if g[i].id in kids then RemoveFirst(g[i].parentIds, nodeId) else g[i].parentIds
      {
        assert g[i].id in kids <==> g[i].id == x || g[i].id in kids[1..] by {
          assert kids == [x] + kids[1..];
        }
      }
    }
  }

  /** One turn of the child loop: only the child named `x` loses the parent `nodeId`. */
  lemma RemoveParentIdStep(g: seq<NodeValue>, x: string, nodeId: string)
    requires UniqueIds(g)
    ensures var g1 := RemoveParentId(g, x, nodeId);
            UniqueIds(g1) &&
            forall i :: 0 <= i < |g| ==>
              g1[i].parentIds == if g[i].id == x then RemoveFirst(g[i].parentIds, nodeId) else g[i].parentIds
  {
    var g1 := RemoveParentId(g, x, nodeId);
    forall i | 0 <= i < |g|
      ensures g1[i].parentIds == if g[i].id == x then RemoveFirst(g[i].parentIds, nodeId) else g[i].parentIds
    {
      if g[i].id == x {
        LookupUnique(g, i);
      }
    }
  }

  lemma {:induction false} DetachParentsEffect(g: seq<NodeValue>, nodeId: string, parents: seq<string>)
    requires UniqueIds(g) && NoDup(parents)
    ensures var h := DetachParents(g, nodeId, parents);
            forall i :: 0 <= i < |g| ==>
              h[i].childIds == if g[i].id in parents then RemoveFirst(g[i].childIds, nodeId) else g[i].childIds
    decreases |parents|
  {
    if |parents| > 0 {
      var x := parents[0];
      var g1 := RemoveChildId(g, x, nodeId);
      NoDupTail(parents);
      RemoveChildIdStep(g, x, nodeId);
      DetachParentsEffect(g1, nodeId, parents[1..]);
      var h := DetachParents(g, nodeId, parents);
      assert h == DetachParents(g1, nodeId, parents[1..]);
      forall i | 0 <= i < |g|
        ensures h[i].childIds == if g[i].id in parents then RemoveFirst(g[i].childIds, nodeId) else g[i].childIds
      {
        assert g[i].id in parents <==> g[i].id == x || g[i].id in parents[1..] by {
          assert parents == [x] + parents[1..];
        }
      }
    }
  }

  /** One turn of the parent loop: only the parent named `x` loses the child `nodeId`. */
  lemma RemoveChildIdStep(g: seq<NodeValue>, x: string, nodeId: string)
    requires UniqueIds(g)
    ensures var g1 := RemoveChildId(g, x, nodeId);
            UniqueIds(g1) &&
            forall i :: 0 <= i < |g| ==>
              g1[i].childIds == if g[i].id == x then RemoveFirst(g[i].childIds, nodeId) else g[i].childIds
  {
    var g1 := RemoveChildId(g, x, nodeId);
    forall i | 0 <= i < |g|
      ensures g1[i].childIds == if g[i].id == x then RemoveFirst(g[i].childIds, nodeId) else g[i].childIds
    {
      if g[i].id == x {
        LookupUnique(g, i);
      }
    }
  }

  // ---------------------------------------------------------------------------
  // Phase one, node by node: after the first `p` nodes, every node not yet
  // detached has lost exactly the ids of the nodes detached so far.

  ghost predicate DetachedUpTo(g0: seq<NodeValue>, h: seq<NodeValue>, p: nat) {
    SameNodes(g0, h) &&
    forall i :: 0 <= i < |g0| && !(i < p && Deletable(g0[i])) ==>
      h[i].parentIds == Except(g0[i].parentIds, DeletedIds(g0, p)) &&
      h[i].childIds == Except(g0[i].childIds, DeletedIds(g0, p))
  }

  lemma DeletedIdsMember(g: seq<NodeValue>, p: nat, i: nat)
    requires UniqueIds(g) && i < |g|
    ensures g[i].id in DeletedIds(g, p) <==> i < p && Deletable(g[i])
  {
  }

  lemma DeletedIdsNext(g: seq<NodeValue>, p: nat)
    requires p < |g|
    ensures DeletedIds(g, p + 1) == DeletedIds(g, p) + (if Deletable(g[p]) then {g[p].id} else {})
  {
  }

  /** The child loop of the node at `p`: every node not yet detached loses the parent `p`. */
  lemma ChildLoopStep(g0: seq<NodeValue>, h: seq<NodeValue>, p: nat)
    requires Structural(g0) && p < |g0| && Deletable(g0[p]) && DetachedUpTo(g0, h, p)
    requires forall i :: 0 <= i < |g0| ==> !Edge(g0, i, i)
    ensures var g1 := DetachChildren(h, h[p].id, h[p].childIds);
            var d := DeletedIds(g0, p);
            && (forall i :: 0 <= i < |g0| && !(i < p && Deletable(g0[i])) ==> g1[i].childIds == h[i].childIds)
            && (forall i :: 0 <= i < |g0| && !(i <= p && Deletable(g0[i])) ==>
                  g1[i].parentIds == Except(g0[i].parentIds, d + {g0[p].id}))
            && g1[p].parentIds == h[p].parentIds
  {
    var d := DeletedIds(g0, p);
    var pid := g0[p].id;
    var kids := h[p].childIds;
    assert kids == Except(g0[p].childIds, d);
    ExceptNoDup(g0[p].childIds, d);
    assert UniqueIds(h);
    DetachChildrenEffect(h, pid, kids);
    ExceptMember(g0[p].childIds, d, pid);
    assert pid !in kids by {
      assert !Edge(g0, p, p);
    }
    forall i | 0 <= i < |g0| && !(i <= p && Deletable(g0[i]))
      ensures DetachChildren(h, pid, kids)[i].parentIds == Except(g0[i].parentIds, d + {pid})
    {
      DeletedIdsMember(g0, p, i);
      ExceptMember(g0[p].childIds, d, g0[i].id);
      if g0[i].id in kids {
        RemoveFirstIsExcept(g0[i].parentIds, d, pid);
      } else {
        assert !Edge(g0, p, i);
        ExceptAbsent(g0[i].parentIds, d, pid);
      }
    }
  }

  /** The parent loop of the node at `p`: every node not yet detached loses the child `p`. */
  lemma ParentLoopStep(g0: seq<NodeValue>, g1: seq<NodeValue>, p: nat)
    requires Structural(g0) && p < |g0| && Deletable(g0[p]) && SameNodes(g0, g1)
    requires forall i :: 0 <= i < |g0| ==> !Edge(g0, i, i)
    requires forall i :: 0 <= i < |g0| && !(i < p && Deletable(g0[i])) ==>
      g1[i].childIds == Except(g0[i].childIds, DeletedIds(g0, p))
    requires g1[p].parentIds == Except(g0[p].parentIds, DeletedIds(g0, p))
    ensures var h := DetachParents(g1, g1[p].id, g1[p].parentIds);
            forall i :: 0 <= i < |g0| && !(i <= p && Deletable(g0[i])) ==>
              h[i].childIds == Except(g0[i].childIds, DeletedIds(g0, p) + {g0[p].id})
  {
    var d := DeletedIds(g0, p);
    var pid := g0[p].id;
    var parents := g1[p].parentIds;
    ExceptNoDup(g0[p].parentIds, d);
    assert UniqueIds(g1);
    DetachParentsEffect(g1, pid, parents);
    forall i | 0 <= i < |g0| && !(i <= p && Deletable(g0[i]))
      ensures DetachParents(g1, pid, parents)[i].childIds == Except(g0[i].childIds, d + {pid})
    {
      DeletedIdsMember(g0, p, i);
      ExceptMember(g0[p].parentIds, d, g0[i].id);
      if g0[i].id in parents {
        RemoveFirstIsExcept(g0[i].childIds, d, pid);
      } else {
        assert !Edge(g0, i, p);
        ExceptAbsent(g0[i].childIds, d, pid);
      }
    }
  }

  lemma DetachNodeStep(g0: seq<NodeValue>, h: seq<NodeValue>, p: nat)
    requires Structural(g0) && p < |g0| && DetachedUpTo(g0, h, p)
    requires forall i :: 0 <= i < |g0| ==> !Edge(g0, i, i)
    ensures DetachedUpTo(g0, DetachNode(h, p), p + 1)
  {
    DeletedIdsNext(g0, p);
    if Deletable(g0[p]) {
      var d := DeletedIds(g0, p);
      var g1 := DetachChildren(h, h[p].id, h[p].childIds);
      ChildLoopStep(g0, h, p);
      ParentLoopStep(g0, g1, p);
      var h2 := DetachParents(g1, g1[p].id, g1[p].parentIds);
      assert DetachNode(h, p) == h2;
      assert DeletedIds(g0, p + 1) == d + {g0[p].id};
      forall i | 0 <= i < |g0| && !(i < p + 1 && Deletable(g0[i]))
        ensures h2[i].parentIds == Except(g0[i].parentIds, d + {g0[p].id})
        ensures h2[i].childIds == Except(g0[i].childIds, d + {g0[p].id})
      {
      }
      assert SameNodes(g0, h2);
      assert DetachedUpTo(g0, h2, p + 1);
    } else {
      assert DetachNode(h, p) == h;
      assert DeletedIds(g0, p + 1) == DeletedIds(g0, p);
      assert DetachedUpTo(g0, h, p + 1);
    }
  }

  lemma {:induction false} DetachFromEffect(g0: seq<NodeValue>, h: seq<NodeValue>, p: nat)
    requires Structural(g0) && p <= |g0| && DetachedUpTo(g0, h, p)
    requires forall i :: 0 <= i < |g0| ==> !Edge(g0, i, i)
    ensures DetachedUpTo(g0, DetachFrom(h, p), |g0|)
    decreases |g0| - p, 1
  {
    if p < |g0| {
      DetachFromStep(g0, h, p);
    } else {
      assert DetachFrom(h, p) == h;
    }
  }

  /** The inductive step of `DetachFromEffect`. */
  lemma {:induction false} DetachFromStep(g0: seq<NodeValue>, h: seq<NodeValue>, p: nat)
    requires Structural(g0) && p < |g0| && DetachedUpTo(g0, h, p)
    requires forall i :: 0 <= i < |g0| ==> !Edge(g0, i, i)
    ensures DetachedUpTo(g0, DetachFrom(h, p), |g0|)
    decreases |g0| - p, 0
  {
    DetachNodeStep(g0, h, p);
    assert DetachFrom(h, p) == DetachFrom(DetachNode(h, p), p + 1);
    DetachFromEffect(g0, DetachNode(h, p), p + 1);
  }

  // ---------------------------------------------------------------------------
  // Phase two and the whole command.

  lemma {:induction false} SurvivorsAgree(h: seq<NodeValue>, q: seq<NodeValue>)
    requires |h| == |q|
    requires forall i :: 0 <= i < |h| ==> Deletable(h[i]) == Deletable(q[i])
    requires forall i :: 0 <= i < |h| && !Deletable(h[i]) ==> h[i] == q[i]
    ensures Survivors(h) == Survivors(q)
  {
    if |h| > 0 {
      SurvivorsAgree(h[1..], q[1..]);
    }
  }

  lemma {:induction false} SurvivorsUniqueIds(g: seq<NodeValue>)
    requires UniqueIds(g)
    ensures UniqueIds(Survivors(g))
  {
    if |g| > 0 {
      var rest := Survivors(g[1..]);
      assert UniqueIds(g[1..]) by {
        assert forall i :: 0 <= i < |g[1..]| ==> g[1..][i] == g[i + 1];
      }
      SurvivorsUniqueIds(g[1..]);
      forall a | 0 <= a < |rest| ensures rest[a].id != g[0].id {
        var x :| 0 <= x < |g[1..]| && g[1..][x] == rest[a];
        assert g[x + 1] == rest[a];
      }
      if !Deletable(g[0]) {
        var s := [g[0]] + rest;
        assert Survivors(g) == s;
        forall a, b | 0 <= a < |s| && 0 <= b < |s| && s[a].id == s[b].id ensures a == b {
          if a > 0 && b > 0 {
            assert s[a] == rest[a - 1] && s[b] == rest[b - 1];
          }
        }
      }
    }
  }

  /** Phase one leaves every surviving node with the deleted ids filtered out of both lists. */
  lemma DeleteSelectedRoomNodesIsPruned(g: seq<NodeValue>)
    requires Structural(g) && forall i :: 0 <= i < |g| ==> !Edge(g, i, i)
    ensures DeleteSelectedRoomNodes(g) == Survivors(Pruned(g, DeletedIds(g, |g|)))
  {
    forall i | 0 <= i < |g| ensures Except(g[i].parentIds, {}) == g[i].parentIds && Except(g[i].childIds, {}) == g[i].childIds {
      ExceptNothing(g[i].parentIds);
      ExceptNothing(g[i].childIds);
    }
    assert DeletedIds(g, 0) == {};
    assert DetachedUpTo(g, g, 0);
    DetachFromEffect(g, g, 0);
    SurvivorsAgree(DetachFrom(g, 0), Pruned(g, DeletedIds(g, |g|)));
  }

  /** Where a surviving node comes from. */
  lemma Origin(g: seq<NodeValue>, d: set<string>, a: nat) returns (x: nat)
    requires a < |Survivors(Pruned(g, d))|
    ensures x < |g| && !Deletable(g[x])
    ensures Survivors(Pruned(g, d))[a] == g[x].(parentIds := Except(g[x].parentIds, d), childIds := Except(g[x].childIds, d))
  {
    var p := Pruned(g, d);
    x :| 0 <= x < |p| && p[x] == Survivors(p)[a];
  }

  lemma PrunedSurvivorsStructural(g: seq<NodeValue>)
    requires Structural(g)
    ensures Structural(Survivors(Pruned(g, DeletedIds(g, |g|))))
  {
    var d := DeletedIds(g, |g|);
    var p := Pruned(g, d);
    assert UniqueIds(p);
    SurvivorsUniqueIds(p);
    SurvivorsListsNoDup(g);
    SurvivorsEdgesIndexed(g);
    SurvivorsSymmetric(g);
  }

  lemma SurvivorsListsNoDup(g: seq<NodeValue>)
    requires Structural(g)
    ensures ListsNoDup(Survivors(Pruned(g, DeletedIds(g, |g|))))
  {
    var d := DeletedIds(g, |g|);
    var s := Survivors(Pruned(g, d));
    forall a | 0 <= a < |s| ensures NoDup(s[a].parentIds) && NoDup(s[a].childIds) {
      var x := Origin(g, d, a);
      ExceptNoDup(g[x].parentIds, d);
      ExceptNoDup(g[x].childIds, d);
    }
  }

  lemma SurvivorsEdgesIndexed(g: seq<NodeValue>)
    requires Structural(g)
    ensures EdgesIndexed(Survivors(Pruned(g, DeletedIds(g, |g|))))
  {
    var d := DeletedIds(g, |g|);
    var p := Pruned(g, d);
    var s := Survivors(p);
    forall a, y | 0 <= a < |s| && (y in s[a].parentIds || y in s[a].childIds) ensures y in Ids(s) {
      var x := Origin(g, d, a);
      ExceptMember(g[x].parentIds, d, y);
      ExceptMember(g[x].childIds, d, y);
      var z := LastIndexOf(g, y);
      DeletedIdsMember(g, |g|, z);
      assert p[z] in s;
      var c :| 0 <= c < |s| && s[c] == p[z];
      InIds(s, c);
    }
  }

  lemma SurvivorsSymmetric(g: seq<NodeValue>)
    requires Structural(g)
    ensures Symmetric(Survivors(Pruned(g, DeletedIds(g, |g|))))
  {
    var d := DeletedIds(g, |g|);
    var s := Survivors(Pruned(g, d));
    forall a, b | 0 <= a < |s| && 0 <= b < |s| ensures Edge(s, a, b) <==> s[a].id in s[b].parentIds {
      var x := Origin(g, d, a);
      var y := Origin(g, d, b);
      DeletedIdsMember(g, |g|, x);
      DeletedIdsMember(g, |g|, y);
      ExceptMember(g[x].childIds, d, g[y].id);
      ExceptMember(g[y].parentIds, d, g[x].id);
      assert Edge(g, x, y) <==> g[x].id in g[y].parentIds;
    }
  }

  lemma SurvivorsShaped(g: seq<NodeValue>, maxChildCorridors: nat)
    requires WellFormed(g, maxChildCorridors)
    ensures Shaped(Survivors(Pruned(g, DeletedIds(g, |g|))), maxChildCorridors)
  {
    var d := DeletedIds(g, |g|);
    var p := Pruned(g, d);
    assert UniqueIds(p);
    SurvivorsUniqueIds(p);
    SurvivorsLimits(g, d, maxChildCorridors);
    SurvivorsAlternate(g, d, maxChildCorridors);
    SurvivorsOneBoss(g, d, maxChildCorridors);
  }

  lemma SurvivorsLimits(g: seq<NodeValue>, d: set<string>, maxChildCorridors: nat)
    requires WellFormed(g, maxChildCorridors)
    ensures var s := Survivors(Pruned(g, d));
            SingleParent(s) && RootsUnparented(s) && FanOut(s, maxChildCorridors)
  {
    var s := Survivors(Pruned(g, d));
    forall a | 0 <= a < |s|
      ensures |s[a].parentIds| <= 1
      ensures s[a].roomNodeType.isEntrance || s[a].roomNodeType.isNone ==> s[a].parentIds == []
      ensures |s[a].childIds| <= ChildLimit(s[a].roomNodeType, maxChildCorridors)
    {
      var x := Origin(g, d, a);
    }
  }

  lemma SurvivorsAlternate(g: seq<NodeValue>, d: set<string>, maxChildCorridors: nat)
    requires WellFormed(g, maxChildCorridors)
    ensures Alternating(Survivors(Pruned(g, d)))
  {
    var s := Survivors(Pruned(g, d));
    forall a, b | 0 <= a < |s| && 0 <= b < |s| && Edge(s, a, b)
      ensures s[a].roomNodeType.isCorridor != s[b].roomNodeType.isCorridor
    {
      var x := Origin(g, d, a);
      var y := Origin(g, d, b);
      ExceptMember(g[x].childIds, d, g[y].id);
      assert Edge(g, x, y);
    }
  }

  lemma SurvivorsOneBoss(g: seq<NodeValue>, d: set<string>, maxChildCorridors: nat)
    requires WellFormed(g, maxChildCorridors)
    ensures BossOnce(Survivors(Pruned(g, d)))
  {
    var p := Pruned(g, d);
    assert UniqueIds(p);
    SurvivorsUniqueIds(p);
    var s := Survivors(p);
    forall a, b | 0 <= a < |s| && 0 <= b < |s| && IsConnectedBoss(s[a]) && IsConnectedBoss(s[b])
      ensures a == b
    {
      var x := Origin(g, d, a);
      var y := Origin(g, d, b);
      assert IsConnectedBoss(g[x]) && IsConnectedBoss(g[y]);
    }
  }

  /**
   * "Delete Selected Room Nodes" on a well-formed graph: the result is the
   * list of nodes that are not selected, or are the entrance, in their
   * original order, each with the deleted ids filtered out of both its
   * lists; it is well-formed again, and no id it mentions is gone.
   */
  lemma DeleteSelectedRoomNodesEffect(g: seq<NodeValue>, maxChildCorridors: nat)
    requires WellFormed(g, maxChildCorridors)
    ensures var h := DeleteSelectedRoomNodes(g);
            var gone := DeletedIds(g, |g|);
            && h == Survivors(Pruned(g, gone))
            && WellFormed(h, maxChildCorridors)
            && Ids(h) == Ids(g) - gone
            && (forall i :: 0 <= i < |g| && g[i].roomNodeType.isEntrance ==> g[i].id in Ids(h))
            && (forall i :: 0 <= i < |h| ==> !h[i].isSelected || h[i].roomNodeType.isEntrance)
  {
    DeleteSelectedRoomNodesIsPruned(g);
    PrunedSurvivorsStructural(g);
    SurvivorsShaped(g, maxChildCorridors);
    SurvivorIds(g);
  }

  /** The ids left after deletion are exactly the ids that were not deleted. */
  lemma SurvivorIds(g: seq<NodeValue>)
    requires UniqueIds(g)
    ensures Ids(Survivors(Pruned(g, DeletedIds(g, |g|)))) == Ids(g) - DeletedIds(g, |g|)
  {
    var gone := DeletedIds(g, |g|);
    var p := Pruned(g, gone);
    var h := Survivors(p);
    forall y | y in Ids(h) ensures y in Ids(g) - gone {
      var n :| n in h && n.id == y;
      var a :| 0 <= a < |h| && h[a] == n;
      var x := Origin(g, gone, a);
      DeletedIdsMember(g, |g|, x);
      InIds(g, x);
    }
    forall y | y in Ids(g) - gone ensures y in Ids(h) {
      var x := LastIndexOf(g, y);
      DeletedIdsMember(g, |g|, x);
      assert p[x] in h;
    }
  }
}
