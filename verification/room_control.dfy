/**
 * The rules of RoomControl: choosing a vacant room of a type, finding a room
 * by its id, and the guarded status change behind the maintenance menu.
 * Every prompt becomes a parameter (the room type or id typed, the answer to
 * a confirmation); what the controller prints is left out.
 */
module RoomControl {
  import opened Options
  import opened Config
  import opened Enums
  import opened Entities
  import opened Fields
  import opened EntityStore
  import opened Rules
  import opened Saving
  import opened Lifecycle

  // ---------------------------------------------------------------------------
  // RoomControl: selecting a room
  // ---------------------------------------------------------------------------

  /** A vacant room of the type. */
  predicate Free(rec: Record, rt: RoomType) {
    rec.entity.RoomE? && rec.entity.room.roomType == rt && rec.entity.room.status == Vacant
  }

  /** The position of the first vacant room of the type, or the list's length. */
  function FirstFree(rooms: seq<Record>, rt: RoomType): (j: nat)
    ensures j <= |rooms|
    ensures j < |rooms| ==> Free(rooms[j], rt)
    decreases |rooms|
  {
    if |rooms| == 0 then 0
    else if Free(rooms[0], rt) then 0
    else 1 + FirstFree(rooms[1..], rt)
  }

  /** No room before that position is a vacant room of the type. */
  lemma {:induction false} FirstFreeEarliest(rooms: seq<Record>, rt: RoomType)
    ensures forall i :: 0 <= i < FirstFree(rooms, rt) ==> !Free(rooms[i], rt)
    decreases |rooms|
  {
    if |rooms| > 0 && !Free(rooms[0], rt) {
      FirstFreeEarliest(rooms[1..], rt);
      assert forall i :: 1 <= i < |rooms| ==> rooms[i] == rooms[1..][i - 1];
    }
  }

  /** A vacant room of the type with none before it is at that position. */
  lemma {:induction false} FirstFreeAt(rooms: seq<Record>, rt: RoomType, j: nat)
    requires j < |rooms| && Free(rooms[j], rt)
    requires forall i :: 0 <= i < j ==> !Free(rooms[i], rt)
    ensures FirstFree(rooms, rt) == j
    decreases |rooms|
  {
    if j > 0 {
      assert forall i :: 0 <= i < j - 1 ==> rooms[1..][i] == rooms[i + 1];
      FirstFreeAt(rooms[1..], rt, j - 1);
    }
  }

  /** `selectRoom` once the user picked a type: the first room the query finds, or none. */
  function SelectRoom(s: Store, rt: RoomType, now: int): Result<Option<Record>, Fault>
    requires Complete(s)
  {
    match FindAll(s, RoomKind, true, -1, ["roomType", rt.Name(), "status", Vacant.Name()], now)
    case Err(e) => Err(QueryFault(e))
    case Ok(found) => Ok(if |found| == 0 then None else Some(found[0]))
  }

  lemma RoomFreeMatches(rec: Record, rt: RoomType, now: int)
    requires rec.entity.RoomE?
    ensures FieldValue(rec.entity, "roomType", now).Some? && FieldValue(rec.entity, "status", now).Some?
    ensures MatchesBoth(rec, "roomType", rt.Name(), "status", Vacant.Name(), now) <==> Free(rec, rt)
  {
    RoomQueriedFields(rec.entity.room, now);
    NamesCaseless();
  }

  /**
   * On a valid store `selectRoom` never fails: it gives the first cached
   * room, in cache order, that has the type and is vacant, and nothing when
   * there is no such room.
   */
  lemma SelectRoomSpec(s: Store, rt: RoomType, now: int)
    requires Valid(s)
    ensures var rooms := s.tables[RoomKind];
      var j := FirstFree(rooms, rt);
      && SelectRoom(s, rt, now) == Ok(if j < |rooms| then Some(rooms[j]) else None)
      && (j == |rooms| <==> forall i :: 0 <= i < |rooms| ==> !Free(rooms[i], rt))
  {
    var rooms := s.tables[RoomKind];
    var vacant := Vacant.Name();
    assert TableOk(RoomKind, rooms, s.nextHandle);
    forall i | 0 <= i < |rooms|
      ensures FieldValue(rooms[i].entity, "roomType", now).Some? && FieldValue(rooms[i].entity, "status", now).Some?
      ensures MatchesBoth(rooms[i], "roomType", rt.Name(), "status", vacant, now) <==> Free(rooms[i], rt)
    {
      RoomFreeMatches(rooms[i], rt, now);
    }
    FindAllBoth(s, RoomKind, "roomType", rt.Name(), "status", vacant, now);
    SelectedBothNone(rooms, "roomType", rt.Name(), "status", vacant, now);
    FirstFreeEarliest(rooms, rt);
    var found := SelectedBoth(rooms, "roomType", rt.Name(), "status", vacant, now);
    if |found| > 0 {
      SelectedBothHead(rooms, "roomType", rt.Name(), "status", vacant, now);
      var j :| 0 <= j < |rooms| && rooms[j] == found[0] && MatchesBoth(rooms[j], "roomType", rt.Name(), "status", vacant, now)
        && forall i :: 0 <= i < j ==> !MatchesBoth(rooms[i], "roomType", rt.Name(), "status", vacant, now);
      FirstFreeAt(rooms, rt, j);
    }
  }

  // ---------------------------------------------------------------------------
  // RoomControl: finding a room and setting its status
  // ---------------------------------------------------------------------------

  /** `search`: the room whose id the user typed, the same query a reservation uses for its room. */
  function SearchRoom(s: Store, roomId: string, now: int): Option<Record>
    requires Complete(s)
  {
    RoomOf(s, roomId, now)
  }

  /**
   * On a valid store `search` finds a room exactly when a cached room's id
   * equals the text ignoring case, and then the first such room.
   */
  lemma SearchRoomSpec(s: Store, roomId: string, now: int)
    requires Valid(s)
    ensures var rooms := s.tables[RoomKind];
      var r := SearchRoom(s, roomId, now);
      && (r.None? <==> forall i :: 0 <= i < |rooms| ==> !HasRoomId(rooms[i], roomId))
      && (r.Some? ==> exists j :: (0 <= j < |rooms| && rooms[j] == r.value && HasRoomId(rooms[j], roomId)
            && forall i :: 0 <= i < j ==> !HasRoomId(rooms[i], roomId)))
  {
    var rooms := s.tables[RoomKind];
    RoomOfFirst(s, roomId, now);
    RoomAtFirst(rooms, roomId);
  }

  /**
   * `setRoomStatus(target, prev)` for the room id typed and the answer to
   * the confirmation: nothing happens for an unknown id, a room whose status
   * is not `prev`, or a declined confirmation; otherwise the room takes the
   * target status and is saved.  The second part is the save's outcome, or
   * nothing when no save was attempted.
   */
  function SetRoomStatus(s: Store, roomId: string, target: RoomStatus, prev: RoomStatus, confirm: bool, now: int)
    : (r: (Store, Option<Result<bool, Fault>>))
    requires Complete(s)
    ensures r.1.None? ==> r.0 == s
  {
    match RoomOf(s, roomId, now)
    case None => (s, None)
    case Some(room) =>
      if !room.entity.RoomE? || room.entity.room.status != prev || !confirm then (s, None)
      else
        var (after, _, res) := BaseSave(s, WithStatus(room, target), now);
        (after, Some(res))
  }

  /** A room's new status in memory keeps every reservation and room saved and held in one state. */
  lemma StatusSettles(s: Store, t: Store, j: nat, target: RoomStatus)
    requires Complete(s) && Settles(s) && j < |s.tables[RoomKind]| && Complete(t)
    requires t.tables == s.tables[RoomKind := Replace(s.tables[RoomKind], WithStatus(s.tables[RoomKind][j], target))]
    ensures Settles(t)
  {
  }

  /**
   * On a valid store whose rooms are saved: a save is attempted exactly when
   * the id finds a room, its status is `prev` and the user confirms.  Then
   * the room, wherever it is listed, has the target status, nothing else
   * changes, and the save succeeds exactly when the room passes its rules
   * and the rooms file can be written; otherwise the store is unchanged.
   */
  lemma SetRoomStatusSpec(s: Store, roomId: string, target: RoomStatus, prev: RoomStatus, confirm: bool, now: int)
    requires Valid(s) && Settles(s)
    ensures var rooms := s.tables[RoomKind];
      var j := RoomAt(rooms, roomId);
      var (after, res) := SetRoomStatus(s, roomId, target, prev, confirm, now);
      && (res.Some? <==> j < |rooms| && rooms[j].entity.room.status == prev && confirm)
      && (res.None? ==> after == s)
      && (res.Some? ==>
            var room := rooms[j].entity.room;
            && Valid(after) && Settles(after)
            && after.tables == s.tables[RoomKind := Replace(rooms, WithStatus(rooms[j], target))]
            && res.value == Ok(ValidPlace(room.floor, room.number) && RoomIdFree(rooms, rooms[j]) && RoomKind in s.writable))
  {
    var rooms := s.tables[RoomKind];
    var j := RoomAt(rooms, roomId);
    RoomOfFirst(s, roomId, now);
    if j < |rooms| && rooms[j].entity.room.status == prev && confirm {
      var placed := WithStatus(rooms[j], target);
      var (after, _, res) := BaseSave(s, placed, now);
      assert SetRoomStatus(s, roomId, target, prev, confirm, now) == (after, Some(res));
      StatusSaved(s, j, target, now);
    }
  }

  /** The save of a listed room with its new status, on a valid store whose rooms are saved. */
  lemma StatusSaved(s: Store, j: nat, target: RoomStatus, now: int)
    requires Valid(s) && Settles(s) && j < |s.tables[RoomKind]| && s.tables[RoomKind][j].entity.RoomE?
    ensures var rooms := s.tables[RoomKind];
      var room := rooms[j].entity.room;
      var placed := WithStatus(rooms[j], target);
      var (after, _, res) := BaseSave(s, placed, now);
      && Valid(after) && Settles(after)
      && after.tables == s.tables[RoomKind := Replace(rooms, placed)]
      && res == Ok(ValidPlace(room.floor, room.number) && RoomIdFree(rooms, rooms[j]) && RoomKind in s.writable)
  {
    var rooms := s.tables[RoomKind];
    var placed := WithStatus(rooms[j], target);
    assert rooms[j] in rooms;
    InHandles(rooms, rooms[j]);
    SavePlaced(s, placed, now);
    var after := BaseSave(s, placed, now).0;
    assert after.tables == Sync(s, placed).tables;
    StatusSettles(s, after, j, target);
  }

  /**
   * The maintenance toggle undone: once a status change was saved, setting
   * the previous status back (confirmed) leaves every list as it was.
   */
  lemma SetRoomStatusBack(s: Store, roomId: string, target: RoomStatus, prev: RoomStatus, now: int)
    requires Valid(s) && Settles(s)
    requires SetRoomStatus(s, roomId, target, prev, true, now).1.Some?
    ensures var t := SetRoomStatus(s, roomId, target, prev, true, now).0;
      var (back, res) := SetRoomStatus(t, roomId, prev, target, true, now);
      res.Some? && back.tables == s.tables
  {
    var rooms := s.tables[RoomKind];
    var j := RoomAt(rooms, roomId);
    SetRoomStatusSpec(s, roomId, target, prev, true, now);
    var t := SetRoomStatus(s, roomId, target, prev, true, now).0;
    StatusBackSaved(s, t, roomId, j, target, prev, now);
  }

  /** The second half of the toggle, from the store the first half left. */
  lemma StatusBackSaved(s: Store, t: Store, roomId: string, j: nat, target: RoomStatus, prev: RoomStatus, now: int)
    requires Valid(s) && Settles(s) && Valid(t) && Settles(t)
    requires j == RoomAt(s.tables[RoomKind], roomId) && j < |s.tables[RoomKind]|
    requires s.tables[RoomKind][j].entity.RoomE? && s.tables[RoomKind][j].entity.room.status == prev
    requires t.tables == s.tables[RoomKind := Replace(s.tables[RoomKind], WithStatus(s.tables[RoomKind][j], target))]
    ensures var (back, res) := SetRoomStatus(t, roomId, prev, target, true, now);
      res.Some? && back.tables == s.tables
  {
    var rooms := s.tables[RoomKind];
    StatusKeepsIds(rooms, j, target);
    RoomAtSameIds(rooms, t.tables[RoomKind], roomId);
    StatusBack(rooms, j, target, prev);
    var placed := WithStatus(rooms[j], target);
    var turned := t.tables[RoomKind];
    assert RoomAt(turned, roomId) == j;
    assert Replace(turned, WithStatus(turned[j], prev)) == rooms;
    PutBack(s.tables, RoomKind, turned);
    SetRoomStatusSpec(t, roomId, prev, target, true, now);
  }

  /** A room's status changed and then set back: the list is as it was. */
  lemma StatusBack(rooms: seq<Record>, j: nat, target: RoomStatus, prev: RoomStatus)
    requires j < |rooms| && Coherent(rooms) && rooms[j].entity.RoomE? && rooms[j].entity.room.status == prev
    ensures var placed := WithStatus(rooms[j], target);
      && Replace(rooms, placed)[j] == placed
      && WithStatus(placed, prev) == rooms[j]
      && Replace(Replace(rooms, placed), rooms[j]) == rooms
  {
  }

  /** A table put back after a change: the tables are as they were. */
  lemma PutBack(tables: map<Kind, seq<Record>>, k: Kind, changed: seq<Record>)
    requires k in tables
    ensures tables[k := changed][k := tables[k]] == tables
  {
  }
}
