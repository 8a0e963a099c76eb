/**
 * Room node types (RoomNodeTypeSO) and the catalog of them (RoomNodeTypeListSO).
 * A type is a read-only record of role flags; the catalog is an ordered list
 * handed to the editor and to every node when it is created.
 */
module RoomNodeTypes {
  import opened Wrappers

  datatype RoomNodeType = RoomNodeType(
    roomNodeTypeName: string,
    displayNodeGraphEditor: bool,
    isCorridor: bool,
    isCorridorNS: bool,
    isCorridorEW: bool,
    isEntrance: bool,
    isBossRoom: bool,
    isNone: bool)

  /** The two roles the editor searches the catalog for when it creates nodes. */
  datatype Role = Entrance | Unassigned

  predicate HasRole(t: RoomNodeType, role: Role) {
    match role
    case Entrance => t.isEntrance
    case Unassigned => t.isNone
  }

  /** `List.Find(x => x.IsEntrance)` / `List.Find(x => x.IsNone)`: the first type with the role, if any. */
  function FindRoomNodeType(types: seq<RoomNodeType>, role: Role): (found: Option<RoomNodeType>)
    ensures found.Some? ==> found.value in types && HasRole(found.value, role)
    ensures found.None? <==> forall i :: 0 <= i < |types| ==> !HasRole(types[i], role)
    ensures found.Some? ==> exists i :: 0 <= i < |types| && types[i] == found.value
                                        && forall j :: 0 <= j < i ==> !HasRole(types[j], role)
  {
    if |types| == 0 then None
    else if HasRole(types[0], role) then Some(types[0])
    else
      var rest := FindRoomNodeType(types[1..], role);
      assert forall i :: 1 <= i < |types| ==> types[i] == types[1..][i - 1];
      rest
  }

  /** The entry that the type popup shows for a type: its name, or nothing when it is hidden from the editor. */
  function DisplayName(t: RoomNodeType): (shown: Option<string>)
    ensures shown.Some? <==> t.displayNodeGraphEditor
    ensures shown.Some? ==> shown.value == t.roomNodeTypeName
  {
    if t.displayNodeGraphEditor then Some(t.roomNodeTypeName) else None
  }
}
