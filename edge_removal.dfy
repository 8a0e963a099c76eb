/**
 * The two backward loops that cut a node's child edges: the one that runs
 * when a node's room type changes in a way that invalidates its children
 * (RoomNodeSO's type popup), and the one behind the editor's "Delete Selected
 * Room Node Links" command, which cuts only edges whose child is selected.
 */
module EdgeRemoval {
  import opened IdLists
  import opened RoomNodeTypes
  import opened GraphModel

  /**
   * One iteration of the backward loop over node `k`'s child list at
   * position `i`: the child is looked up by id; when it is found (and, if
   * `selectedOnly`, selected) node `k` drops the child's id and then the
   * child drops `k`'s id.
   */
  function CutChildAt(g: seq<NodeValue>, k: nat, i: nat, selectedOnly: bool): (h: seq<NodeValue>)
    requires k < |g| && i < |g[k].childIds|
    ensures SameNodes(g, h)
    ensures |h[k].childIds| + 1 >= |g[k].childIds|
  {
    var j := LastIndexOf(g, g[k].childIds[i]);
    if j < 0 || (selectedOnly && !g[j].isSelected) then g
    else CutEdgeAt(g, k, j)
  }

  /**
   * Both halves of the edge from the node at `k` to the node at `j` removed:
   * first the child id from `k`'s list, then the parent id from `j`'s list.
   */
  function CutEdgeAt(g: seq<NodeValue>, k: nat, j: nat): (h: seq<NodeValue>)
    requires k < |g| && j < |g|
    ensures SameNodes(g, h)
    ensures |h[k].childIds| + 1 >= |g[k].childIds|
  {
    var g1 := g[k := g[k].(childIds := RemoveFirst(g[k].childIds, g[j].id))];
    g1[j := g1[j].(parentIds := RemoveFirst(g1[j].parentIds, g[k].id))]
  }

  /** The loop from position `i` down to 0. */
  function CutChildrenFrom(g: seq<NodeValue>, k: nat, i: int, selectedOnly: bool): (h: seq<NodeValue>)
    requires k < |g| && -1 <= i < |g[k].childIds|
    ensures SameNodes(g, h)
    decreases i + 1
  {
    if i < 0 then g
    else
      var g1 := CutChildAt(g, k, i, selectedOnly);
      var h := CutChildrenFrom(g1, k, i - 1, selectedOnly);
      h
  }

  /** The loop has nothing left to do below position 0. */
  lemma CutChildrenFromDone(g: seq<NodeValue>, k: nat, selectedOnly: bool)
    requires k < |g|
    ensures CutChildrenFrom(g, k, -1, selectedOnly) == g
  {
  }

  /** One step of the loop from position `i`, then the rest of the loop. */
  lemma CutChildrenFromUnfold(g: seq<NodeValue>, k: nat, i: nat, selectedOnly: bool)
    requires k < |g| && i < |g[k].childIds|
    ensures var g1 := CutChildAt(g, k, i, selectedOnly);
            && i - 1 < |g1[k].childIds|
            && CutChildrenFrom(g, k, i, selectedOnly) == CutChildrenFrom(g1, k, i - 1, selectedOnly)
  {
  }

  /** Cutting one edge removes exactly that edge, keeps both halves in agreement and only shrinks lists. */
  lemma CutOneEdge(g: seq<NodeValue>, k: nat, j: nat, h: seq<NodeValue>)
    requires Structural(g) && k < |g| && j < |g| && Edge(g, k, j)
    requires h == CutEdgeAt(g, k, j)
    ensures Structural(h) && Shrunk(g, h) && SameNodes(g, h)
    ensures forall a, b :: 0 <= a < |g| && 0 <= b < |g| ==> (Edge(h, a, b) <==> Edge(g, a, b) && !(a == k && b == j))
  {
    assert g[k].id in g[j].parentIds;
    RemoveFirstNoDup(g[k].childIds, g[j].id);
    RemoveFirstNoDup(g[j].parentIds, g[k].id);
    forall i | 0 <= i < |g|
      ensures h[i].id == g[i].id && h[i].roomNodeType == g[i].roomNodeType && h[i].isSelected == g[i].isSelected
      ensures NoDup(h[i].childIds) && NoDup(h[i].parentIds)
      ensures |h[i].childIds| <= |g[i].childIds| && |h[i].parentIds| <= |g[i].parentIds|
      ensures forall x :: x in h[i].childIds <==> x in g[i].childIds && !(i == k && x == g[j].id)
      ensures forall x :: x in h[i].parentIds <==> x in g[i].parentIds && !(i == j && x == g[k].id)
    {
    }
    DropOneEdge(g, h, k, j);
  }

  /** The list facts of a single cut, restated so that the structural invariants follow one at a time. */
  lemma DropOneEdge(g: seq<NodeValue>, h: seq<NodeValue>, k: nat, j: nat)
    requires Structural(g) && k < |g| && j < |g| && |h| == |g|
    requires forall i :: 0 <= i < |g| ==>
      && h[i].id == g[i].id && h[i].roomNodeType == g[i].roomNodeType && h[i].isSelected == g[i].isSelected
      && NoDup(h[i].childIds) && NoDup(h[i].parentIds)
      && |h[i].childIds| <= |g[i].childIds| && |h[i].parentIds| <= |g[i].parentIds|
      && (forall x :: x in h[i].childIds <==> x in g[i].childIds && !(i == k && x == g[j].id))
      && (forall x :: x in h[i].parentIds <==> x in g[i].parentIds && !(i == j && x == g[k].id))
    ensures Structural(h) && Shrunk(g, h) && SameNodes(g, h)
    ensures forall a, b :: 0 <= a < |g| && 0 <= b < |g| ==> (Edge(h, a, b) <==> Edge(g, a, b) && !(a == k && b == j))
  {
    SameNodesLookup(g, h, "");
    assert UniqueIds(h);
    assert ListsNoDup(h);
    assert EdgesIndexed(h) by {
      forall i, x | 0 <= i < |h| && (x in h[i].parentIds || x in h[i].childIds) ensures x in Ids(h) {
        assert x in g[i].parentIds || x in g[i].childIds;
      }
    }
    forall a, b | 0 <= a < |g| && 0 <= b < |g|
      ensures Edge(h, a, b) <==> Edge(g, a, b) && !(a == k && b == j)
      ensures Edge(h, a, b) <==> h[a].id in h[b].parentIds
    {
      assert g[b].id == g[j].id <==> b == j;
      assert g[a].id == g[k].id <==> a == k;
      assert Edge(g, a, b) <==> g[a].id in g[b].parentIds;
    }
  }

  /** One iteration keeps the graph's structure and only shrinks id lists. */
  lemma CutChildAtKeeps(g: seq<NodeValue>, k: nat, i: nat, selectedOnly: bool)
    requires Structural(g) && k < |g| && i < |g[k].childIds|
    ensures var g1 := CutChildAt(g, k, i, selectedOnly); Structural(g1) && Shrunk(g, g1)
  {
    var g1 := CutChildAt(g, k, i, selectedOnly);
    var j := LastIndexOf(g, g[k].childIds[i]);
    assert j >= 0 by {
      assert g[k].childIds[i] in Ids(g);
    }
    if selectedOnly && !g[j].isSelected {
      SameNodesIsShrunk(g, g1);
    } else {
      CutOneEdge(g, k, j, g1);
    }
  }

  /**
   * `h` has the edges of `g` except those from `k` to a node whose id is in
   * `cut` (and, if `selectedOnly`, which is selected).
   */
  ghost predicate EdgesCut(g: seq<NodeValue>, h: seq<NodeValue>, k: nat, cut: seq<string>, selectedOnly: bool)
    requires |h| == |g|
  {
    forall a, b :: 0 <= a < |g| && 0 <= b < |g| ==>
      (Edge(h, a, b) <==> Edge(g, a, b) && !(a == k && g[b].id in cut && (!selectedOnly || g[b].isSelected)))
  }

  /** One iteration cuts the edge to the child at position `i` when the child qualifies, and nothing else. */
  lemma CutChildAtEdges(g: seq<NodeValue>, k: nat, i: nat, selectedOnly: bool)
    requires Structural(g) && k < |g| && i < |g[k].childIds|
    ensures var g1 := CutChildAt(g, k, i, selectedOnly);
            var c := g[k].childIds;
            && i <= |g1[k].childIds| && g1[k].childIds[..i] == c[..i]
            && EdgesCut(g, g1, k, [c[i]], selectedOnly)
  {
    var g1 := CutChildAt(g, k, i, selectedOnly);
    var c := g[k].childIds;
    var j := LastIndexOf(g, c[i]);
    assert j >= 0 by {
      assert c[i] in Ids(g);
    }
    if selectedOnly && !g[j].isSelected {
      assert g1 == g;
      forall b | 0 <= b < |g| && g[b].id == c[i] ensures b == j {
      }
    } else {
      CutOneEdge(g, k, j, g1);
      RemoveFirstAt(c, i);
      assert g1[k].childIds == c[..i] + c[i + 1..];
      forall b | 0 <= b < |g| ensures g[b].id == c[i] <==> b == j {
      }
    }
  }

  /** Running the loop from position `i` down keeps the graph's structure and only shrinks id lists. */
  lemma CutChildrenFromKeeps(g: seq<NodeValue>, k: nat, i: int, selectedOnly: bool)
    requires Structural(g) && k < |g| && -1 <= i < |g[k].childIds|
    ensures var h := CutChildrenFrom(g, k, i, selectedOnly); Structural(h) && Shrunk(g, h)
  {
    CutChildrenFromStructural(g, k, i, selectedOnly);
    CutChildrenFromShrunk(g, k, i, selectedOnly);
  }

  lemma {:induction false} CutChildrenFromStructural(g: seq<NodeValue>, k: nat, i: int, selectedOnly: bool)
    requires Structural(g) && k < |g| && -1 <= i < |g[k].childIds|
    ensures Structural(CutChildrenFrom(g, k, i, selectedOnly))
    decreases i + 1
  {
    if i >= 0 {
      var g1 := CutChildAt(g, k, i, selectedOnly);
      CutChildAtStructural(g, k, i, selectedOnly);
      CutChildrenFromStructural(g1, k, i - 1, selectedOnly);
    }
  }

  lemma {:induction false} CutChildrenFromShrunk(g: seq<NodeValue>, k: nat, i: int, selectedOnly: bool)
    requires Structural(g) && k < |g| && -1 <= i < |g[k].childIds|
    ensures Shrunk(g, CutChildrenFrom(g, k, i, selectedOnly))
    decreases i + 1
  {
    var h := CutChildrenFrom(g, k, i, selectedOnly);
    if i < 0 {
      SameNodesIsShrunk(g, h);
    } else {
      var g1 := CutChildAt(g, k, i, selectedOnly);
      CutChildAtStructural(g, k, i, selectedOnly);
      CutChildAtShrunk(g, k, i, selectedOnly);
      CutChildrenFromShrunk(g1, k, i - 1, selectedOnly);
      ShrunkTransitive(g, g1, h);
    }
  }

  lemma CutChildAtStructural(g: seq<NodeValue>, k: nat, i: nat, selectedOnly: bool)
    requires Structural(g) && k < |g| && i < |g[k].childIds|
    ensures Structural(CutChildAt(g, k, i, selectedOnly))
  {
    CutChildAtKeeps(g, k, i, selectedOnly);
  }

  lemma CutChildAtShrunk(g: seq<NodeValue>, k: nat, i: nat, selectedOnly: bool)
    requires Structural(g) && k < |g| && i < |g[k].childIds|
    ensures Shrunk(g, CutChildAt(g, k, i, selectedOnly))
  {
    CutChildAtKeeps(g, k, i, selectedOnly);
  }

  /**
   * Running the loop from position `i` down cuts exactly the edges from `k`
   * to the qualifying children named in positions `0..i`.
   */
  lemma {:induction false} CutChildrenFromEdges(g: seq<NodeValue>, k: nat, i: int, selectedOnly: bool)
    requires Structural(g) && k < |g| && -1 <= i < |g[k].childIds|
    ensures EdgesCut(g, CutChildrenFrom(g, k, i, selectedOnly), k, g[k].childIds[..i + 1], selectedOnly)
    decreases i + 1, 1
  {
    if i >= 0 {
      CutChildrenFromEdgesStep(g, k, i, selectedOnly);
    } else {
      assert CutChildrenFrom(g, k, i, selectedOnly) == g;
    }
  }

  /** The inductive step of `CutChildrenFromEdges`. */
  lemma {:induction false} CutChildrenFromEdgesStep(g: seq<NodeValue>, k: nat, i: nat, selectedOnly: bool)
    requires Structural(g) && k < |g| && i < |g[k].childIds|
    ensures EdgesCut(g, CutChildrenFrom(g, k, i, selectedOnly), k, g[k].childIds[..i + 1], selectedOnly)
    decreases i + 1, 0
  {
    var g1 := CutChildAt(g, k, i, selectedOnly);
    var h := CutChildrenFrom(g1, k, i - 1, selectedOnly);
    assert CutChildrenFrom(g, k, i, selectedOnly) == h;
    CutChildAtEdges(g, k, i, selectedOnly);
    CutChildAtStructural(g, k, i, selectedOnly);
    CutChildrenFromEdges(g1, k, i - 1, selectedOnly);
    ComposeCuts(g, g1, h, k, i, selectedOnly);
  }

  /** Combines the cut at position `i` with the cuts at positions below it. */
  lemma ComposeCuts(g: seq<NodeValue>, g1: seq<NodeValue>, h: seq<NodeValue>, k: nat, i: nat, selectedOnly: bool)
    requires k < |g| && i < |g[k].childIds| && NoDup(g[k].childIds)
    requires |g1| == |g| && |h| == |g| && i <= |g1[k].childIds| && g1[k].childIds[..i] == g[k].childIds[..i]
    requires forall b :: 0 <= b < |g| ==> g1[b].id == g[b].id && g1[b].isSelected == g[b].isSelected
    requires EdgesCut(g, g1, k, [g[k].childIds[i]], selectedOnly)
    requires EdgesCut(g1, h, k, g1[k].childIds[..i - 1 + 1], selectedOnly)
    ensures EdgesCut(g, h, k, g[k].childIds[..i + 1], selectedOnly)
  {
    var c := g[k].childIds;
    assert c[..i + 1] == c[..i] + [c[i]];
    assert c[i] !in c[..i];
  }

  // ---------------------------------------------------------------------------
  // Changing a node's room type.

  /**
   * The type change drops every child edge when the node changes between
   * corridor and room, or when it becomes a boss room.
   */
  predicate SeversChildren(previous: RoomNodeType, chosen: RoomNodeType) {
    (previous.isCorridor && !chosen.isCorridor) ||
    (!previous.isCorridor && chosen.isCorridor) ||
    (!previous.isBossRoom && chosen.isBossRoom)
  }

  /**
   * The type popup of node `k` picking `chosen`. A node that has a parent, or
   * is the entrance, shows its type as a label and cannot change it.
   */
  function ChangeRoomNodeType(g: seq<NodeValue>, k: nat, chosen: RoomNodeType): (h: seq<NodeValue>)
    requires k < |g|
    ensures |h| == |g|
    ensures forall i :: 0 <= i < |g| ==>
              h[i].id == g[i].id && h[i].isSelected == g[i].isSelected
              && h[i].roomNodeType == (if i == k && |g[k].parentIds| == 0 && !g[k].roomNodeType.isEntrance
                                       then chosen else g[i].roomNodeType)
  {
    if |g[k].parentIds| > 0 || g[k].roomNodeType.isEntrance then g
    else
      var g1 := g[k := g[k].(roomNodeType := chosen)];
      if SeversChildren(g[k].roomNodeType, chosen) && |g1[k].childIds| > 0 then
        CutChildrenFrom(g1, k, |g1[k].childIds| - 1, false)
      else g1
  }

  /** The unlocked case of `ChangeRoomNodeType`, unfolded. */
  lemma ChangeRoomNodeTypeUnlocked(g: seq<NodeValue>, k: nat, chosen: RoomNodeType)
    requires k < |g| && |g[k].parentIds| == 0 && !g[k].roomNodeType.isEntrance
    ensures var g1 := g[k := g[k].(roomNodeType := chosen)];
            ChangeRoomNodeType(g, k, chosen)
            == if SeversChildren(g[k].roomNodeType, chosen) && |g1[k].childIds| > 0
               then CutChildrenFrom(g1, k, |g1[k].childIds| - 1, false) else g1
  {
  }

  /**
   * What a type change does: a locked node is untouched; otherwise the
   * node takes the new type, loses all its child edges exactly when the
   * change severs them, and no other edge or node changes.
   */
  lemma ChangeRoomNodeTypeEffect(g: seq<NodeValue>, k: nat, chosen: RoomNodeType)
    requires Structural(g) && k < |g|
    ensures var h := ChangeRoomNodeType(g, k, chosen);
            var locked := |g[k].parentIds| > 0 || g[k].roomNodeType.isEntrance;
            && Structural(h)
            && (locked ==> h == g)
            && (!locked ==> h[k].roomNodeType == chosen)
            && (forall i :: 0 <= i < |g| && i != k ==> h[i].roomNodeType == g[i].roomNodeType)
            && (forall i :: 0 <= i < |g| ==> h[i].id == g[i].id && h[i].isSelected == g[i].isSelected)
            && (forall i :: 0 <= i < |g| ==> |h[i].parentIds| <= |g[i].parentIds| && |h[i].childIds| <= |g[i].childIds|)
            && forall a, b :: 0 <= a < |g| && 0 <= b < |g| ==>
                 (Edge(h, a, b) <==> Edge(g, a, b) && !(!locked && a == k && SeversChildren(g[k].roomNodeType, chosen)))
  {
    if !(|g[k].parentIds| > 0 || g[k].roomNodeType.isEntrance) {
      UnlockedEffect(g, k, chosen);
    }
  }

  lemma UnlockedEffect(g: seq<NodeValue>, k: nat, chosen: RoomNodeType)
    requires Structural(g) && k < |g| && |g[k].parentIds| == 0 && !g[k].roomNodeType.isEntrance
    ensures var h := ChangeRoomNodeType(g, k, chosen);
            && Structural(h)
            && h[k].roomNodeType == chosen
            && (forall i :: 0 <= i < |g| && i != k ==> h[i].roomNodeType == g[i].roomNodeType)
            && (forall i :: 0 <= i < |g| ==> h[i].id == g[i].id && h[i].isSelected == g[i].isSelected)
            && (forall i :: 0 <= i < |g| ==> |h[i].parentIds| <= |g[i].parentIds| && |h[i].childIds| <= |g[i].childIds|)
            && forall a, b :: 0 <= a < |g| && 0 <= b < |g| ==>
                 (Edge(h, a, b) <==> Edge(g, a, b) && !(a == k && SeversChildren(g[k].roomNodeType, chosen)))
  {
    var g1 := g[k := g[k].(roomNodeType := chosen)];
    SameListsKeepStructural(g, g1);
    if SeversChildren(g[k].roomNodeType, chosen) {
      UnlockedSevers(g, g1, k, chosen);
    } else {
      UnlockedKeeps(g, g1, k, chosen);
    }
  }

  lemma UnlockedSevers(g: seq<NodeValue>, g1: seq<NodeValue>, k: nat, chosen: RoomNodeType)
    requires k < |g| && |g[k].parentIds| == 0 && !g[k].roomNodeType.isEntrance
    requires g1 == g[k := g[k].(roomNodeType := chosen)] && Structural(g1)
    requires SeversChildren(g[k].roomNodeType, chosen)
    ensures var h := ChangeRoomNodeType(g, k, chosen);
            && Structural(h)
            && h[k].roomNodeType == chosen
            && (forall i :: 0 <= i < |g| && i != k ==> h[i].roomNodeType == g[i].roomNodeType)
            && (forall i :: 0 <= i < |g| ==> h[i].id == g[i].id && h[i].isSelected == g[i].isSelected)
            && (forall i :: 0 <= i < |g| ==> |h[i].parentIds| <= |g[i].parentIds| && |h[i].childIds| <= |g[i].childIds|)
            && forall a, b :: 0 <= a < |g| && 0 <= b < |g| ==> (Edge(h, a, b) <==> Edge(g, a, b) && a != k)
  {
    if |g[k].childIds| > 0 {
      SeversNonEmpty(g, g1, k, chosen);
    } else {
      assert ChangeRoomNodeType(g, k, chosen) == g1;
      NoChildEdges(g1, k);
      RetypedEffect(g, g1, g1, k, true);
    }
  }

  lemma SeversNonEmpty(g: seq<NodeValue>, g1: seq<NodeValue>, k: nat, chosen: RoomNodeType)
    requires k < |g| && |g[k].parentIds| == 0 && !g[k].roomNodeType.isEntrance
    requires g1 == g[k := g[k].(roomNodeType := chosen)] && Structural(g1)
    requires SeversChildren(g[k].roomNodeType, chosen) && |g[k].childIds| > 0
    ensures var h := ChangeRoomNodeType(g, k, chosen);
            && Structural(h)
            && h[k].roomNodeType == chosen
            && (forall i :: 0 <= i < |g| && i != k ==> h[i].roomNodeType == g[i].roomNodeType)
            && (forall i :: 0 <= i < |g| ==> h[i].id == g[i].id && h[i].isSelected == g[i].isSelected)
            && (forall i :: 0 <= i < |g| ==> |h[i].parentIds| <= |g[i].parentIds| && |h[i].childIds| <= |g[i].childIds|)
            && forall a, b :: 0 <= a < |g| && 0 <= b < |g| ==> (Edge(h, a, b) <==> Edge(g, a, b) && a != k)
  {
    var i := |g1[k].childIds| - 1;
    SeversUnfold(g, g1, k, chosen);
    SeverStructural(g1, k, i);
    SeverShrunk(g1, k, i);
    SeversFields(g, g1, CutChildrenFrom(g1, k, i, false), k, chosen);
    SeversEdges(g, g1, k, chosen);
  }

  /** Field facts about a shrunk copy `h` of the retyped graph `g1`, restated against `g`. */
  lemma SeversFields(g: seq<NodeValue>, g1: seq<NodeValue>, h: seq<NodeValue>, k: nat, chosen: RoomNodeType)
    requires k < |g| && g1 == g[k := g[k].(roomNodeType := chosen)]
    requires Shrunk(g1, h) && SameNodes(g1, h)
    ensures h[k].roomNodeType == chosen
    ensures forall i :: 0 <= i < |g| && i != k ==> h[i].roomNodeType == g[i].roomNodeType
    ensures forall i :: 0 <= i < |g| ==> h[i].id == g[i].id && h[i].isSelected == g[i].isSelected
    ensures forall i :: 0 <= i < |g| ==> |h[i].parentIds| <= |g[i].parentIds| && |h[i].childIds| <= |g[i].childIds|
  {
  }

  lemma SeversEdges(g: seq<NodeValue>, g1: seq<NodeValue>, k: nat, chosen: RoomNodeType)
    requires k < |g| && |g[k].childIds| > 0
    requires g1 == g[k := g[k].(roomNodeType := chosen)] && Structural(g1)
    ensures var h := CutChildrenFrom(g1, k, |g1[k].childIds| - 1, false);
            forall a, b :: 0 <= a < |g| && 0 <= b < |g| ==> (Edge(h, a, b) <==> Edge(g, a, b) && a != k)
  {
    SeverEdges(g1, k, |g1[k].childIds| - 1);
    assert forall a, b :: 0 <= a < |g| && 0 <= b < |g| ==> (Edge(g1, a, b) <==> Edge(g, a, b));
  }

  lemma SeversUnfold(g: seq<NodeValue>, g1: seq<NodeValue>, k: nat, chosen: RoomNodeType)
    requires k < |g| && |g[k].parentIds| == 0 && !g[k].roomNodeType.isEntrance
    requires g1 == g[k := g[k].(roomNodeType := chosen)]
    requires SeversChildren(g[k].roomNodeType, chosen) && |g[k].childIds| > 0
    ensures ChangeRoomNodeType(g, k, chosen) == CutChildrenFrom(g1, k, |g1[k].childIds| - 1, false)
  {
  }

  lemma UnlockedKeeps(g: seq<NodeValue>, g1: seq<NodeValue>, k: nat, chosen: RoomNodeType)
    requires k < |g| && |g[k].parentIds| == 0 && !g[k].roomNodeType.isEntrance
    requires g1 == g[k := g[k].(roomNodeType := chosen)] && Structural(g1)
    requires !SeversChildren(g[k].roomNodeType, chosen)
    ensures var h := ChangeRoomNodeType(g, k, chosen);
            && Structural(h)
            && h[k].roomNodeType == chosen
            && (forall i :: 0 <= i < |g| && i != k ==> h[i].roomNodeType == g[i].roomNodeType)
            && (forall i :: 0 <= i < |g| ==> h[i].id == g[i].id && h[i].isSelected == g[i].isSelected)
            && (forall i :: 0 <= i < |g| ==> |h[i].parentIds| <= |g[i].parentIds| && |h[i].childIds| <= |g[i].childIds|)
            && forall a, b :: 0 <= a < |g| && 0 <= b < |g| ==> (Edge(h, a, b) <==> Edge(g, a, b))
  {
    assert ChangeRoomNodeType(g, k, chosen) == g1;
    forall a, b | 0 <= a < |g| && 0 <= b < |g| ensures Edge(g1, a, b) <==> Edge(g, a, b) {
    }
  }

  /** Transfers what the loop did to the retyped graph `g1` back to the original `g`. */
  lemma RetypedEffect(g: seq<NodeValue>, g1: seq<NodeValue>, h: seq<NodeValue>, k: nat, severs: bool)
    requires k < |g| && |g1| == |g|
    requires forall i :: 0 <= i < |g| ==>
      g1[i].id == g[i].id && g1[i].isSelected == g[i].isSelected &&
      g1[i].parentIds == g[i].parentIds && g1[i].childIds == g[i].childIds
    requires forall i :: 0 <= i < |g| && i != k ==> g1[i].roomNodeType == g[i].roomNodeType
    requires Shrunk(g1, h) && SameNodes(g1, h)
    requires forall a, b :: 0 <= a < |g| && 0 <= b < |g| ==> (Edge(h, a, b) <==> Edge(g1, a, b) && !(severs && a == k))
    ensures forall i :: 0 <= i < |g| && i != k ==> h[i].roomNodeType == g[i].roomNodeType
    ensures forall i :: 0 <= i < |g| ==> h[i].id == g[i].id && h[i].isSelected == g[i].isSelected
    ensures forall i :: 0 <= i < |g| ==> |h[i].parentIds| <= |g[i].parentIds| && |h[i].childIds| <= |g[i].childIds|
    ensures forall a, b :: 0 <= a < |g| && 0 <= b < |g| ==> (Edge(h, a, b) <==> Edge(g, a, b) && !(severs && a == k))
  {
    forall a, b | 0 <= a < |g| && 0 <= b < |g| ensures Edge(g1, a, b) <==> Edge(g, a, b) {
    }
  }

  /** With no child listed, there is no child edge of `k` to remove. */
  lemma NoChildEdges(g: seq<NodeValue>, k: nat)
    requires k < |g| && g[k].childIds == []
    ensures Shrunk(g, g)
    ensures forall a, b :: 0 <= a < |g| && 0 <= b < |g| ==> (Edge(g, a, b) <==> Edge(g, a, b) && a != k)
  {
    SameNodesIsShrunk(g, g);
  }

  lemma SeverStructural(g: seq<NodeValue>, k: nat, i: int)
    requires Structural(g) && k < |g| && i == |g[k].childIds| - 1 && i >= 0
    ensures Structural(CutChildrenFrom(g, k, i, false))
  {
    CutChildrenFromStructural(g, k, i, false);
  }

  lemma SeverShrunk(g: seq<NodeValue>, k: nat, i: int)
    requires Structural(g) && k < |g| && i == |g[k].childIds| - 1 && i >= 0
    ensures Shrunk(g, CutChildrenFrom(g, k, i, false))
  {
    CutChildrenFromShrunk(g, k, i, false);
  }

  lemma SeverEdges(g: seq<NodeValue>, k: nat, i: int)
    requires Structural(g) && k < |g| && i == |g[k].childIds| - 1 && i >= 0
    ensures var h := CutChildrenFrom(g, k, i, false);
            forall a, b :: 0 <= a < |g| && 0 <= b < |g| ==> (Edge(h, a, b) <==> Edge(g, a, b) && a != k)
  {
    CutChildrenFromEdges(g, k, i, false);
    CutAllEdges(g, CutChildrenFrom(g, k, i, false), k);
  }

  /** Cutting the edges to every listed child leaves `k` with no child edge. */
  lemma CutAllEdges(g: seq<NodeValue>, h: seq<NodeValue>, k: nat)
    requires k < |g| && |h| == |g| && EdgesCut(g, h, k, g[k].childIds[..|g[k].childIds| - 1 + 1], false)
    ensures forall a, b :: 0 <= a < |g| && 0 <= b < |g| ==> (Edge(h, a, b) <==> Edge(g, a, b) && a != k)
  {
    assert g[k].childIds[..|g[k].childIds| - 1 + 1] == g[k].childIds;
    forall a, b | 0 <= a < |g| && 0 <= b < |g| ensures Edge(h, a, b) <==> Edge(g, a, b) && a != k {
      assert Edge(h, a, b) <==> Edge(g, a, b) && !(a == k && g[b].id in g[k].childIds);
    }
  }

  /** A type change keeps every invariant of a well-formed graph. */
  lemma ChangeRoomNodeTypeKeepsWellFormed(g: seq<NodeValue>, k: nat, chosen: RoomNodeType, maxChildCorridors: nat)
    requires WellFormed(g, maxChildCorridors) && k < |g|
    ensures WellFormed(ChangeRoomNodeType(g, k, chosen), maxChildCorridors)
  {
    ChangeRoomNodeTypeEffect(g, k, chosen);
    var h := ChangeRoomNodeType(g, k, chosen);
    if !(|g[k].parentIds| > 0 || g[k].roomNodeType.isEntrance) {
      var severs := SeversChildren(g[k].roomNodeType, chosen);
      assert severs ==> h[k].childIds == [] by {
        if severs && |h[k].childIds| > 0 {
          var b := LastIndexOf(h, h[k].childIds[0]);
          assert Edge(h, k, b);
        }
      }
      ChangedTypeShape(g, h, k, maxChildCorridors);
    }
  }

  lemma ChangedTypeShape(g: seq<NodeValue>, h: seq<NodeValue>, k: nat, maxChildCorridors: nat)
    requires Shaped(g, maxChildCorridors) && Structural(h) && k < |g| && |h| == |g|
    requires forall i :: 0 <= i < |g| && i != k ==> h[i].roomNodeType == g[i].roomNodeType
    requires forall i :: 0 <= i < |g| ==> h[i].id == g[i].id
    requires forall a, b :: 0 <= a < |g| && 0 <= b < |g| && Edge(h, a, b) ==> Edge(g, a, b)
    requires forall i :: 0 <= i < |g| ==> |h[i].parentIds| <= |g[i].parentIds| && |h[i].childIds| <= |g[i].childIds|
    requires h[k].parentIds == []
    requires h[k].roomNodeType.isCorridor != g[k].roomNodeType.isCorridor ==> h[k].childIds == []
    ensures Shaped(h, maxChildCorridors)
  {
    forall i | 0 <= i < |h| ensures |h[i].childIds| <= ChildLimit(h[i].roomNodeType, maxChildCorridors) {
      if i == k && h[k].roomNodeType.isCorridor == g[k].roomNodeType.isCorridor {
        assert ChildLimit(h[k].roomNodeType, maxChildCorridors) == ChildLimit(g[k].roomNodeType, maxChildCorridors);
      }
    }
    forall a, b | 0 <= a < |h| && 0 <= b < |h| && Edge(h, a, b)
      ensures h[a].roomNodeType.isCorridor != h[b].roomNodeType.isCorridor
    {
      assert Edge(g, a, b);
      assert b != k by {
        assert h[a].id in h[b].parentIds;
      }
      if a == k {
        assert h[k].childIds != [];
      }
    }
    forall a, b | 0 <= a < |h| && 0 <= b < |h| && IsConnectedBoss(h[a]) && IsConnectedBoss(h[b])
      ensures a == b
    {
      assert a != k && b != k;
      assert IsConnectedBoss(g[a]) && IsConnectedBoss(g[b]);
    }
  }

  // ---------------------------------------------------------------------------
  // "Delete Selected Room Node Links".

  /** The loop body for the node at position `p`: a selected node with children drops its selected children. */
  function CutSelectedChildren(g: seq<NodeValue>, p: nat): (h: seq<NodeValue>)
    requires p < |g|
    ensures SameNodes(g, h)
  {
    if g[p].isSelected && |g[p].childIds| > 0 then CutChildrenFrom(g, p, |g[p].childIds| - 1, true) else g
  }

  /** The loop over the node list from position `p` on. */
  function CutSelectedLinksFrom(g: seq<NodeValue>, p: nat): (h: seq<NodeValue>)
    requires p <= |g|
    ensures SameNodes(g, h)
    decreases |g| - p
  {
    if p == |g| then g else CutSelectedLinksFrom(CutSelectedChildren(g, p), p + 1)
  }

  /** The whole command: cut every edge between two selected nodes, then clear the selection. */
  function DeleteSelectedRoomNodeLinks(g: seq<NodeValue>): (h: seq<NodeValue>)
    ensures |h| == |g|
    ensures forall i :: 0 <= i < |g| ==> h[i].id == g[i].id && h[i].roomNodeType == g[i].roomNodeType && !h[i].isSelected
  {
    WithSelection(CutSelectedLinksFrom(g, 0), false)
  }

  lemma CutSelectedChildrenKeeps(g: seq<NodeValue>, p: nat)
    requires Structural(g) && p < |g|
    ensures Structural(CutSelectedChildren(g, p)) && Shrunk(g, CutSelectedChildren(g, p))
  {
    if g[p].isSelected && |g[p].childIds| > 0 {
      CutChildrenFromKeeps(g, p, |g[p].childIds| - 1, true);
    } else {
      SameNodesIsShrunk(g, g);
    }
  }

  lemma CutSelectedChildrenEdges(g: seq<NodeValue>, p: nat)
    requires Structural(g) && p < |g|
    ensures var h := CutSelectedChildren(g, p);
            forall a, b :: 0 <= a < |g| && 0 <= b < |g| ==>
              (Edge(h, a, b) <==> Edge(g, a, b) && !(a == p && g[a].isSelected && g[b].isSelected))
  {
    var c := g[p].childIds;
    if g[p].isSelected && |c| > 0 {
      CutChildrenFromEdges(g, p, |c| - 1, true);
      SelectedCutAll(g, CutSelectedChildren(g, p), p);
    }
  }

  /** Cutting the edges to every selected listed child leaves `p` with no edge to a selected node. */
  lemma SelectedCutAll(g: seq<NodeValue>, h: seq<NodeValue>, p: nat)
    requires p < |g| && |h| == |g| && g[p].isSelected
    requires EdgesCut(g, h, p, g[p].childIds[..|g[p].childIds| - 1 + 1], true)
    ensures forall a, b :: 0 <= a < |g| && 0 <= b < |g| ==>
              (Edge(h, a, b) <==> Edge(g, a, b) && !(a == p && g[a].isSelected && g[b].isSelected))
  {
    assert g[p].childIds[..|g[p].childIds| - 1 + 1] == g[p].childIds;
    forall a, b | 0 <= a < |g| && 0 <= b < |g|
      ensures Edge(h, a, b) <==> Edge(g, a, b) && !(a == p && g[a].isSelected && g[b].isSelected)
    {
      assert Edge(h, a, b) <==> Edge(g, a, b) && !(a == p && g[b].id in g[p].childIds && g[b].isSelected);
    }
  }

  /** The loop from position `p` on keeps the graph's structure and only shrinks id lists. */
  lemma {:induction false} CutSelectedLinksFromKeeps(g: seq<NodeValue>, p: nat)
    requires Structural(g) && p <= |g|
    ensures Structural(CutSelectedLinksFrom(g, p)) && Shrunk(g, CutSelectedLinksFrom(g, p))
    decreases |g| - p
  {
    if p == |g| {
      SameNodesIsShrunk(g, g);
    } else {
      var g1 := CutSelectedChildren(g, p);
      CutSelectedChildrenKeeps(g, p);
      CutSelectedLinksFromKeeps(g1, p + 1);
      ShrunkTransitive(g, g1, CutSelectedLinksFrom(g1, p + 1));
    }
  }

  /** The loop from position `p` on cuts exactly the edges from a selected node at or after `p` to a selected node. */
  lemma {:induction false} CutSelectedLinksFromEdges(g: seq<NodeValue>, p: nat)
    requires Structural(g) && p <= |g|
    ensures var h := CutSelectedLinksFrom(g, p);
            forall a, b :: 0 <= a < |g| && 0 <= b < |g| ==>
              (Edge(h, a, b) <==> Edge(g, a, b) && !(a >= p && g[a].isSelected && g[b].isSelected))
    decreases |g| - p, 1
  {
    if p < |g| {
      CutSelectedLinksStep(g, p);
    }
  }

  /** The inductive step of `CutSelectedLinksFromEdges`. */
  lemma {:induction false} CutSelectedLinksStep(g: seq<NodeValue>, p: nat)
    requires Structural(g) && p < |g|
    ensures var h := CutSelectedLinksFrom(g, p);
            forall a, b :: 0 <= a < |g| && 0 <= b < |g| ==>
              (Edge(h, a, b) <==> Edge(g, a, b) && !(a >= p && g[a].isSelected && g[b].isSelected))
    decreases |g| - p, 0
  {
    var g1 := CutSelectedChildren(g, p);
    CutSelectedChildrenEdges(g, p);
    CutSelectedChildrenKeeps(g, p);
    CutSelectedLinksFromEdges(g1, p + 1);
    ComposeSelectedCuts(g, g1, CutSelectedLinksFrom(g1, p + 1), p);
  }

  /** The cut at node `p` followed by the cuts from `p + 1` on are the cuts from `p` on. */
  lemma ComposeSelectedCuts(g: seq<NodeValue>, g1: seq<NodeValue>, h: seq<NodeValue>, p: nat)
    requires p < |g| && |g1| == |g| && |h| == |g|
    requires forall i :: 0 <= i < |g| ==> g1[i].isSelected == g[i].isSelected
    requires forall a, b :: 0 <= a < |g| && 0 <= b < |g| ==>
               (Edge(g1, a, b) <==> Edge(g, a, b) && !(a == p && g[a].isSelected && g[b].isSelected))
    requires forall a, b :: 0 <= a < |g| && 0 <= b < |g| ==>
               (Edge(h, a, b) <==> Edge(g1, a, b) && !(a >= p + 1 && g1[a].isSelected && g1[b].isSelected))
    ensures forall a, b :: 0 <= a < |g| && 0 <= b < |g| ==>
              (Edge(h, a, b) <==> Edge(g, a, b) && !(a >= p && g[a].isSelected && g[b].isSelected))
  {
    forall a, b | 0 <= a < |g| && 0 <= b < |g|
      ensures Edge(h, a, b) <==> Edge(g, a, b) && !(a >= p && g[a].isSelected && g[b].isSelected)
    {
      assert Edge(h, a, b) <==> Edge(g1, a, b) && !(a >= p + 1 && g1[a].isSelected && g1[b].isSelected);
      assert Edge(g1, a, b) <==> Edge(g, a, b) && !(a == p && g[a].isSelected && g[b].isSelected);
    }
  }

  /**
   * "Delete Selected Room Node Links" removes exactly the edges whose two
   * ends are both selected, leaves no node selected, changes nothing else
   * and keeps every invariant of a well-formed graph.
   */
  lemma DeleteSelectedRoomNodeLinksEffect(g: seq<NodeValue>, maxChildCorridors: nat)
    requires WellFormed(g, maxChildCorridors)
    ensures var h := DeleteSelectedRoomNodeLinks(g);
            && WellFormed(h, maxChildCorridors)
            && (forall i :: 0 <= i < |g| ==> h[i].id == g[i].id && h[i].roomNodeType == g[i].roomNodeType && !h[i].isSelected)
            && forall a, b :: 0 <= a < |g| && 0 <= b < |g| ==>
                 (Edge(h, a, b) <==> Edge(g, a, b) && !(g[a].isSelected && g[b].isSelected))
  {
    DeleteLinksKeepsWellFormed(g, maxChildCorridors);
    DeleteLinksEdges(g);
  }

  lemma DeleteLinksKeepsWellFormed(g: seq<NodeValue>, maxChildCorridors: nat)
    requires WellFormed(g, maxChildCorridors)
    ensures WellFormed(DeleteSelectedRoomNodeLinks(g), maxChildCorridors)
  {
    var h1 := CutSelectedLinksFrom(g, 0);
    CutSelectedLinksFromKeeps(g, 0);
    ShrunkKeepsShape(g, h1, maxChildCorridors);
    WithSelectionKeepsWellFormed(h1, false, maxChildCorridors);
  }

  lemma DeleteLinksEdges(g: seq<NodeValue>)
    requires Structural(g)
    ensures var h := DeleteSelectedRoomNodeLinks(g);
            forall a, b :: 0 <= a < |g| && 0 <= b < |g| ==>
              (Edge(h, a, b) <==> Edge(g, a, b) && !(g[a].isSelected && g[b].isSelected))
  {
    var h1 := CutSelectedLinksFrom(g, 0);
    CutSelectedLinksFromEdges(g, 0);
    SelectionKeepsEdges(h1, false);
  }
}
