/**
 * The reservation and room state machines of Reservation.java: the expiry
 * sweep (CONFIRMED to EXPIRED, room to VACANT), check-in (CHECKED_IN, room
 * OCCUPIED) and check-out (CHECKED_OUT, room VACANT).  Each changes the
 * objects in memory first and then saves them; a missing room is the
 * exception the source would raise.
 */
module Lifecycle {
  import opened Options
  import opened Config
  import opened Dates
  import opened Enums
  import opened Entities
  import opened Fields
  import opened EntityStore
  import opened Rules
  import opened Saving

  /** The reservation with its status changed; other objects are left alone. */
  function WithState(rec: Record, status: ReservationStatus): (r: Record)
    ensures r.handle == rec.handle && r.isNew == rec.isNew && KindOf(r.entity) == KindOf(rec.entity)
    ensures Settled(rec.entity) ==> Settled(r.entity)
    ensures rec.entity.ReservationE? ==> r.entity == ReservationE(rec.entity.rsv.(status := status))
    ensures !rec.entity.ReservationE? ==> r == rec
  {
    match rec.entity
    case ReservationE(rsv) => rec.(entity := ReservationE(rsv.(status := status)))
    case _ => rec
  }

  /** The object as the program holds it now: its first occurrence in its list, or itself when it is not listed. */
  function Current(s: Store, rec: Record): Record
    requires Complete(s)
  {
    var list := s.tables[KindOf(rec.entity)];
    var i := FirstIndex(list, rec.handle);
    if i < |list| then list[i] else rec
  }

  lemma CurrentSynced(s: Store, rec: Record)
    requires Complete(s) && rec.handle in Handles(s.tables[KindOf(rec.entity)])
    ensures Current(Sync(s, rec), rec) == rec
  {
    var list := Sync(s, rec).tables[KindOf(rec.entity)];
    assert rec.handle in Handles(list);
  }

  /** Every occurrence of an object in a list is the same state. */
  predicate Coherent(list: seq<Record>) {
    forall i, j :: 0 <= i < |list| && 0 <= j < |list| && list[i].handle == list[j].handle ==> list[i] == list[j]
  }

  /** The reservations and rooms have all been saved, and each is held in one state. */
  predicate Settles(s: Store)
    requires Complete(s)
  {
    && (forall i :: 0 <= i < |s.tables[ReservationKind]| ==> !s.tables[ReservationKind][i].isNew)
    && (forall i :: 0 <= i < |s.tables[RoomKind]| ==> !s.tables[RoomKind][i].isNew)
    && Coherent(s.tables[ReservationKind]) && Coherent(s.tables[RoomKind])
  }

  /** Two room lists with the same objects and room ids in the same places, whatever their statuses. */
  predicate SameRoomIds(a: seq<Record>, b: seq<Record>) {
    |a| == |b| &&
    forall i :: 0 <= i < |a| ==>
      a[i].handle == b[i].handle && a[i].entity.RoomE? == b[i].entity.RoomE? &&
      (a[i].entity.RoomE? ==> RoomId(a[i].entity.room) == RoomId(b[i].entity.room))
  }

  lemma {:induction false} RoomAtSameIds(a: seq<Record>, b: seq<Record>, roomId: string)
    requires SameRoomIds(a, b)
    ensures RoomAt(a, roomId) == RoomAt(b, roomId)
    decreases |a|
  {
    if |a| > 0 {
      assert HasRoomId(a[0], roomId) == HasRoomId(b[0], roomId);
      assert SameRoomIds(a[1..], b[1..]) by {
        forall i | 0 <= i < |a| - 1 ensures a[1..][i] == a[i + 1] && b[1..][i] == b[i + 1] { }
      }
      RoomAtSameIds(a[1..], b[1..], roomId);
    }
  }

  /** Changing a listed room's status keeps every room id in place. */
  lemma StatusKeepsIds(rooms: seq<Record>, j: nat, status: RoomStatus)
    requires j < |rooms| && Coherent(rooms)
    ensures SameRoomIds(rooms, Replace(rooms, WithStatus(rooms[j], status)))
  {
  }

  /**
   * The room of a reservation once a room's status changed: still the first
   * room with its id, now in its new state.
   */
  lemma RoomOfAfterStatus(s: Store, t: Store, roomId: string, now: int)
    requires Valid(s) && Valid(t) && SameRoomIds(s.tables[RoomKind], t.tables[RoomKind])
    ensures var j := RoomAt(s.tables[RoomKind], roomId);
      RoomOf(t, roomId, now) == if j < |s.tables[RoomKind]| then Some(t.tables[RoomKind][j]) else None
  {
    RoomAtSameIds(s.tables[RoomKind], t.tables[RoomKind], roomId);
    RoomOfFirst(t, roomId, now);
  }

  // ---------------------------------------------------------------------------
  // Check-out
  // ---------------------------------------------------------------------------

  /**
   * `checkOut`: only a checked-in reservation is checked out; its room becomes
   * vacant, both are saved, and the answer is yes whatever the saves gave.
   */
  function CheckOut(s: Store, rec: Record, now: int): (r: (Store, Record, Result<bool, Fault>))
    requires Complete(s) && rec.entity.ReservationE?
  {
    if rec.entity.rsv.status != CheckedIn then (s, rec, Ok(false))
    else
      var out := WithState(rec, CheckedOut);
      var s1 := Sync(s, out);
      match RoomOf(s1, rec.entity.rsv.roomId, now)
      case None => (s1, out, Err(NoRoom))
      case Some(room) =>
        var vacant := WithStatus(room, Vacant);
        SavePair(Sync(s1, vacant), out, vacant, now)
  }

  /** The saves of `checkOut` and of the expiry sweep: the reservation, then its room; only an exception changes the answer. */
  function SavePair(t: Store, out: Record, vacant: Record, now: int): (r: (Store, Record, Result<bool, Fault>))
    requires Complete(t) && out.entity.ReservationE?
    ensures Complete(r.0) && r.0.writable == t.writable
  {
    var (t2, saved, res) := SaveReservation(t, out, now);
    if res.Err? then (t2, saved, Err(res.error))
    else
      var (t3, _, res2) := BaseSave(t2, Current(t2, vacant), now);
      if res2.Err? then (t3, saved, Err(res2.error)) else (t3, saved, Ok(true))
  }

  lemma SavePairSaved(s: Store, rsv: Record, room: Record, st: ReservationStatus, now: int)
    requires Valid(s) && Settles(s) && rsv in s.tables[ReservationKind] && room in s.tables[RoomKind]
    requires RoomAt(s.tables[RoomKind], rsv.entity.rsv.roomId) < |s.tables[RoomKind]|
    ensures var out := WithState(rsv, st);
      var vacant := WithStatus(room, Vacant);
      var (after, saved, res) := SavePair(Sync(Sync(s, out), vacant), out, vacant, now);
      saved == out && Valid(after) && after.tables == Moved(s, out, vacant) && res == Ok(true)
  {
    SaveBoth(s, rsv, room, st, Vacant, now);
  }

  /**
   * Check-out of a cached reservation: anything but a checked-in
   * reservation is refused with nothing changed; otherwise the reservation
   * is checked out and its room is vacant in memory, the answer is yes, and
   * the only exception is a room id that no cached room has.
   */
  lemma CheckOutSpec(s: Store, rec: Record, now: int)
    requires Valid(s) && Settles(s) && rec in s.tables[ReservationKind] && rec.entity.ReservationE?
    ensures var (after, saved, res) := CheckOut(s, rec, now);
      var rooms := s.tables[RoomKind];
      var j := RoomAt(rooms, rec.entity.rsv.roomId);
      && (rec.entity.rsv.status != CheckedIn ==> after == s && saved == rec && res == Ok(false))
      && (rec.entity.rsv.status == CheckedIn ==> (res == Ok(true) <==> j < |rooms|) && (res.Err? <==> j == |rooms|))
      && (rec.entity.rsv.status == CheckedIn && j < |rooms| ==>
            && saved == WithState(rec, CheckedOut) && Valid(after)
            && after.tables == Moved(s, WithState(rec, CheckedOut), WithStatus(rooms[j], Vacant)))
  {
    if rec.entity.rsv.status == CheckedIn {
      var rooms := s.tables[RoomKind];
      var j := RoomAt(rooms, rec.entity.rsv.roomId);
      RoomOfUnmoved(s, rec, CheckedOut, now);
      if j < |rooms| {
        var out := WithState(rec, CheckedOut);
        var vacant := WithStatus(rooms[j], Vacant);
        assert CheckOut(s, rec, now) == SavePair(Sync(Sync(s, out), vacant), out, vacant, now);
        SavePairSaved(s, rec, rooms[j], CheckedOut, now);
      }
    }
  }

  /** A reservation's new state in memory does not change which room it finds. */
  lemma RoomOfUnmoved(s: Store, rec: Record, st: ReservationStatus, now: int)
    requires Valid(s) && Settled(rec.entity) && rec.entity.ReservationE?
    ensures var rooms := s.tables[RoomKind];
      var j := RoomAt(rooms, rec.entity.rsv.roomId);
      RoomOf(Sync(s, WithState(rec, st)), rec.entity.rsv.roomId, now) == if j < |rooms| then Some(rooms[j]) else None
  {
    SyncValid(s, WithState(rec, st));
    RoomOfFirst(Sync(s, WithState(rec, st)), rec.entity.rsv.roomId, now);
  }

  // ---------------------------------------------------------------------------
  // Check-in
  // ---------------------------------------------------------------------------

  /**
   * `checkIn`: refused, with nothing changed, until the check-in time has
   * passed; otherwise the reservation is checked in and its room occupied in
   * memory, and the answer is whether the reservation saved and then the room
   * saved (the room is not saved when the reservation was not).
   */
  function CheckIn(s: Store, rec: Record, now: int): (r: (Store, Record, Result<bool, Fault>))
    requires Complete(s) && rec.entity.ReservationE?
  {
    if !(rec.entity.rsv.checkIn < now) then (s, rec, Ok(false))
    else
      var inn := WithState(rec, CheckedIn);
      var s1 := Sync(s, inn);
      match RoomOf(s1, rec.entity.rsv.roomId, now)
      case None => (s1, inn, Err(NoRoom))
      case Some(room) =>
        var occupied := WithStatus(room, Occupied);
        SaveCheckIn(Sync(s1, occupied), inn, occupied, now)
  }

  /** The saves of `checkIn`: the reservation, then, only when it was saved, its room. */
  function SaveCheckIn(t: Store, inn: Record, occupied: Record, now: int): (r: (Store, Record, Result<bool, Fault>))
    requires Complete(t) && inn.entity.ReservationE?
    ensures Complete(r.0) && r.0.writable == t.writable
  {
    var (t2, saved, res) := SaveReservation(t, inn, now);
    if res != Ok(true) then (t2, saved, res)
    else
      var (t3, _, res2) := BaseSave(t2, Current(t2, occupied), now);
      (t3, saved, res2)
  }

  lemma CheckInSaved(s: Store, rsv: Record, room: Record, now: int)
    requires Valid(s) && Settles(s) && rsv in s.tables[ReservationKind] && room in s.tables[RoomKind]
    requires RoomAt(s.tables[RoomKind], rsv.entity.rsv.roomId) < |s.tables[RoomKind]|
    ensures var inn := WithState(rsv, CheckedIn);
      var occupied := WithStatus(room, Occupied);
      var (after, saved, res) := SaveCheckIn(Sync(Sync(s, inn), occupied), inn, occupied, now);
      var r := rsv.entity.rsv;
      && room.entity.RoomE?
      && saved == inn && Valid(after) && after.tables == Moved(s, inn, occupied)
      && res == Ok(TotalDays(r.checkIn, r.checkOut) >= 1 && ValidPlace(room.entity.room.floor, room.entity.room.number)
                   && RoomIdFree(s.tables[RoomKind], room) && ReservationKind in s.writable && RoomKind in s.writable)
  {
    SaveBoth(s, rsv, room, CheckedIn, Occupied, now);
  }

  /**
   * Check-in of a cached reservation: before its check-in time nothing
   * changes; after it the reservation is checked in and its room occupied in
   * memory, the only exception is a room id no cached room has, and the
   * answer is yes exactly when the stay is at least a day, the room's place
   * is valid and its id is its own, and both files can be written.
   */
  lemma CheckInSpec(s: Store, rec: Record, now: int)
    requires Valid(s) && Settles(s) && rec in s.tables[ReservationKind] && rec.entity.ReservationE?
    ensures var (after, saved, res) := CheckIn(s, rec, now);
      var r := rec.entity.rsv;
      var rooms := s.tables[RoomKind];
      var j := RoomAt(rooms, r.roomId);
      && (!(r.checkIn < now) ==> after == s && saved == rec && res == Ok(false))
      && (r.checkIn < now ==> (res.Err? <==> j == |rooms|))
      && (r.checkIn < now && j < |rooms| ==>
            var room := rooms[j].entity.room;
            && saved == WithState(rec, CheckedIn) && Valid(after)
            && after.tables == Moved(s, WithState(rec, CheckedIn), WithStatus(rooms[j], Occupied))
            && res == Ok(TotalDays(r.checkIn, r.checkOut) >= 1 && ValidPlace(room.floor, room.number)
                         && RoomIdFree(rooms, rooms[j]) && ReservationKind in s.writable && RoomKind in s.writable))
  {
    if rec.entity.rsv.checkIn < now {
      var rooms := s.tables[RoomKind];
      var j := RoomAt(rooms, rec.entity.rsv.roomId);
      RoomOfUnmoved(s, rec, CheckedIn, now);
      CheckInGiven(s, rec, now, if j < |rooms| then Some(rooms[j]) else None);
      if j < |rooms| {
        CheckInSaved(s, rec, rooms[j], now);
      }
    }
  }

  /** Check-in after the check-in time, given the room the query finds. */
  lemma CheckInGiven(s: Store, rec: Record, now: int, found: Option<Record>)
    requires Complete(s) && rec.entity.ReservationE? && rec.entity.rsv.checkIn < now
    requires RoomOf(Sync(s, WithState(rec, CheckedIn)), rec.entity.rsv.roomId, now) == found
    ensures found.None? ==> CheckIn(s, rec, now) == (Sync(s, WithState(rec, CheckedIn)), WithState(rec, CheckedIn), Err(NoRoom))
    ensures found.Some? ==>
      var inn := WithState(rec, CheckedIn);
      var occupied := WithStatus(found.value, Occupied);
      CheckIn(s, rec, now) == SaveCheckIn(Sync(Sync(s, inn), occupied), inn, occupied, now)
  {
  }

  /** The lists once a reservation and its room have new states in memory. */
  function Moved(s: Store, rsv: Record, room: Record): map<Kind, seq<Record>>
    requires Complete(s)
  {
    s.tables[ReservationKind := Replace(s.tables[ReservationKind], rsv)][RoomKind := Replace(s.tables[RoomKind], room)]
  }

  /**
   * The two saves of a reservation operation, once the reservation and its
   * room have their new states in memory: the lists stay as memory has them,
   * neither save raises, and each answers whether its object passed its
   * rules and its file could be written.
   */
  lemma SaveBoth(s: Store, rsv: Record, room: Record, st: ReservationStatus, rs: RoomStatus, now: int)
    requires Valid(s) && Settles(s) && rsv in s.tables[ReservationKind] && room in s.tables[RoomKind]
    requires RoomAt(s.tables[RoomKind], rsv.entity.rsv.roomId) < |s.tables[RoomKind]|
    ensures var moved := WithState(rsv, st);
      var placed := WithStatus(room, rs);
      var t := Sync(Sync(s, moved), placed);
      var (t2, saved, res) := SaveReservation(t, moved, now);
      var (t3, _, res2) := BaseSave(t2, placed, now);
      && res == Ok(TotalDays(rsv.entity.rsv.checkIn, rsv.entity.rsv.checkOut) >= 1 && ReservationKind in s.writable)
      && saved == moved && t2.tables == Moved(s, moved, placed) && Valid(t2)
      && Current(t2, placed) == placed
      && room.entity.RoomE?
      && res2 == Ok(ValidPlace(room.entity.room.floor, room.entity.room.number)
                    && RoomIdFree(s.tables[RoomKind], room) && RoomKind in s.writable)
      && t3.tables == Moved(s, moved, placed) && Valid(t3)
  {
    var moved := WithState(rsv, st);
    var placed := WithStatus(room, rs);
    PlaceBoth(s, rsv, room, st, rs, now);
    var t := Sync(Sync(s, moved), placed);
    SaveMoved(t, moved, now);
    MovedStable(s, t, moved, placed);
    var t2 := SaveReservation(t, moved, now).0;
    SavePlaced(t2, placed, now);
    MovedStable(s, t2, moved, placed);
    var rooms := s.tables[RoomKind];
    var i :| 0 <= i < |rooms| && rooms[i] == room;
    StatusKeepsIds(rooms, i, rs);
    RoomIdFreeKept(rooms, t2.tables[RoomKind], room, placed);
  }

  /** Whether a room's id is free depends only on the ids and identities of the rooms. */
  lemma RoomIdFreeKept(a: seq<Record>, b: seq<Record>, x: Record, y: Record)
    requires SameRoomIds(a, b) && x.entity.RoomE? && y.entity.RoomE?
    requires x.handle == y.handle && RoomId(x.entity.room) == RoomId(y.entity.room)
    ensures RoomIdFree(a, x) == RoomIdFree(b, y)
  {
  }

  /** Both new states in memory: the store stays valid, both objects stay listed, and the room is still found. */
  lemma PlaceBoth(s: Store, rsv: Record, room: Record, st: ReservationStatus, rs: RoomStatus, now: int)
    requires Valid(s) && Settles(s) && rsv in s.tables[ReservationKind] && room in s.tables[RoomKind]
    requires RoomAt(s.tables[RoomKind], rsv.entity.rsv.roomId) < |s.tables[RoomKind]|
    ensures var moved := WithState(rsv, st);
      var placed := WithStatus(room, rs);
      var t := Sync(Sync(s, moved), placed);
      && Valid(t) && t.tables == Moved(s, moved, placed)
      && moved.entity.ReservationE? && !moved.isNew && Settled(moved.entity) && moved.handle in Handles(t.tables[ReservationKind])
      && placed.entity.RoomE? && !placed.isNew && Settled(placed.entity) && placed.handle in Handles(t.tables[RoomKind])
      && Current(t, placed) == placed
      && RoomOf(t, moved.entity.rsv.roomId, now).Some?
  {
    PlaceSync(s, rsv, room, st, rs);
    var rooms := s.tables[RoomKind];
    var t := Sync(Sync(s, WithState(rsv, st)), WithStatus(room, rs));
    var i :| 0 <= i < |rooms| && rooms[i] == room;
    StatusKeepsIds(rooms, i, rs);
    RoomOfAfterStatus(s, t, rsv.entity.rsv.roomId, now);
  }

  lemma PlaceSync(s: Store, rsv: Record, room: Record, st: ReservationStatus, rs: RoomStatus)
    requires Valid(s) && Settles(s) && rsv in s.tables[ReservationKind] && room in s.tables[RoomKind]
    ensures var moved := WithState(rsv, st);
      var placed := WithStatus(room, rs);
      var t := Sync(Sync(s, moved), placed);
      && Valid(t) && t.tables == Moved(s, moved, placed)
      && moved.entity.ReservationE? && !moved.isNew && Settled(moved.entity) && moved.handle in Handles(t.tables[ReservationKind])
      && placed.entity.RoomE? && !placed.isNew && Settled(placed.entity) && placed.handle in Handles(t.tables[RoomKind])
      && Current(t, placed) == placed
  {
    var rsvs := s.tables[ReservationKind];
    var rooms := s.tables[RoomKind];
    var moved := WithState(rsv, st);
    var placed := WithStatus(room, rs);
    InHandles(rsvs, rsv);
    InHandles(rooms, room);
    SyncValid(s, moved);
    var t1 := Sync(s, moved);
    SyncValid(t1, placed);
    CurrentSynced(t1, placed);
  }

  /** Once both objects have their new states in memory, syncing either again changes nothing. */
  lemma MovedStable(s: Store, t: Store, moved: Record, placed: Record)
    requires Complete(s) && Complete(t) && t.tables == Moved(s, moved, placed)
    requires moved.entity.ReservationE? && placed.entity.RoomE?
    ensures Sync(t, moved).tables == t.tables && Sync(t, placed).tables == t.tables
  {
    ReplaceTwice(s.tables[ReservationKind], moved);
    ReplaceTwice(s.tables[RoomKind], placed);
  }

  /** The save of a saved reservation whose room is cached raises nothing and keeps the object as it is in memory. */
  lemma SaveMoved(t: Store, moved: Record, now: int)
    requires Valid(t) && moved.entity.ReservationE? && !moved.isNew && Settled(moved.entity)
    requires moved.handle in Handles(t.tables[ReservationKind])
    requires RoomOf(t, moved.entity.rsv.roomId, now).Some?
    ensures var (t2, saved, res) := SaveReservation(t, moved, now);
      var r := moved.entity.rsv;
      res == Ok(TotalDays(r.checkIn, r.checkOut) >= 1 && ReservationKind in t.writable) && saved == moved && t2.tables == Sync(t, moved).tables && Valid(t2)
  {
    assert SaveReservation(t, moved, now) == BaseSave(t, moved, now);
    SaveSyncs(t, moved, now);
  }

  /** The save of a saved room raises nothing and keeps the object as it is in memory. */
  lemma SavePlaced(t: Store, placed: Record, now: int)
    requires Valid(t) && placed.entity.RoomE? && !placed.isNew && placed.handle in Handles(t.tables[RoomKind])
    ensures var (t2, saved, res) := BaseSave(t, placed, now);
      var r := placed.entity.room;
      res == Ok(ValidPlace(r.floor, r.number) && RoomIdFree(t.tables[RoomKind], placed) && RoomKind in t.writable)
      && saved == placed && t2.tables == Sync(t, placed).tables && Valid(t2)
  {
    RoomRules(t, placed, now);
    SaveSyncs(t, placed, now);
  }

  // ---------------------------------------------------------------------------
  // Expiry sweep
  // ---------------------------------------------------------------------------

  /** A reservation whose check-in time, plus the grace period, is not after now. */
  predicate Due(rec: Record, now: int) {
    rec.entity.ReservationE? && rec.entity.rsv.checkIn + ExpireHours * HourMs <= now
  }

  /** A confirmed reservation that is due: the sweep expires it. */
  predicate Expiring(rec: Record, now: int) {
    Due(rec, now) && rec.entity.rsv.status == ReservationStatus.Confirmed
  }

  /** The reservations with the listed identities expired. */
  function Marked(list: seq<Record>, hs: set<nat>): (r: seq<Record>)
    ensures |r| == |list|
    ensures forall i :: 0 <= i < |list| ==> r[i] == if list[i].handle in hs then WithState(list[i], Expired) else list[i]
  {
    seq(|list|, i requires 0 <= i < |list| => if list[i].handle in hs then WithState(list[i], Expired) else list[i])
  }

  /** The rooms with the listed identities vacant. */
  function Freed(list: seq<Record>, hs: set<nat>): (r: seq<Record>)
    ensures |r| == |list|
    ensures forall i :: 0 <= i < |list| ==> r[i] == if list[i].handle in hs then WithStatus(list[i], Vacant) else list[i]
  {
    seq(|list|, i requires 0 <= i < |list| => if list[i].handle in hs then WithStatus(list[i], Vacant) else list[i])
  }

  /** The lists with some reservations expired and some rooms vacant, all else as it was. */
  function Swept(s: Store, expired: set<nat>, freed: set<nat>): map<Kind, seq<Record>>
    requires Complete(s)
  {
    s.tables[ReservationKind := Marked(s.tables[ReservationKind], expired)][RoomKind := Freed(s.tables[RoomKind], freed)]
  }

  /** The identities of the due reservations of a list. */
  function DueHandles(found: seq<Record>, now: int): set<nat> {
    set i | 0 <= i < |found| && Due(found[i], now) :: found[i].handle
  }

  /** The position of the room a reservation finds, or the list's length. */
  function Booked(rooms: seq<Record>, rec: Record): (j: nat)
    ensures j <= |rooms|
  {
    if rec.entity.ReservationE? then RoomAt(rooms, rec.entity.rsv.roomId) else |rooms|
  }

  /** The identities of the rooms the due reservations of a list find. */
  function FreedHandles(rooms: seq<Record>, found: seq<Record>, now: int): set<nat> {
    set i | 0 <= i < |found| && Due(found[i], now) && Booked(rooms, found[i]) < |rooms| :: rooms[Booked(rooms, found[i])].handle
  }

  /** Every due reservation of a list finds a room. */
  predicate Roomed(rooms: seq<Record>, found: seq<Record>, now: int) {
    forall i :: 0 <= i < |found| && Due(found[i], now) ==> Booked(rooms, found[i]) < |rooms|
  }

  /**
   * One step of `checkExpiredReservations`: a due reservation (as the
   * program holds it now) is expired and its room made vacant in memory, and
   * both are saved; a missing room is the exception that ends the sweep.
   */
  function ExpireOne(s: Store, p: Record, now: int): (r: (Store, Option<Fault>))
    requires Complete(s)
    ensures Complete(r.0)
  {
    var cur := Current(s, p);
    if !Due(cur, now) then (s, None) else ExpireHeld(s, cur, now)
  }

  /** The step for a due reservation: expired, its room vacant, both saved. */
  function ExpireHeld(s: Store, cur: Record, now: int): (r: (Store, Option<Fault>))
    requires Complete(s) && cur.entity.ReservationE?
    ensures Complete(r.0)
  {
    var out := WithState(cur, Expired);
    var s1 := Sync(s, out);
    match RoomOf(s1, cur.entity.rsv.roomId, now)
    case None => (s1, Some(NoRoom))
    case Some(room) =>
      var vacant := WithStatus(room, Vacant);
      var (s2, _, res) := SavePair(Sync(s1, vacant), out, vacant, now);
      (s2, if res.Err? then Some(res.error) else None)
  }

  /** The loop of `checkExpiredReservations` over the reservations found, stopped by the first exception. */
  function Sweep(s: Store, found: seq<Record>, now: int): (r: (Store, Option<Fault>))
    requires Complete(s)
    ensures Complete(r.0)
    decreases |found|
  {
    if |found| == 0 then (s, None)
    else
      var (s1, fault) := ExpireOne(s, found[0], now);
      if fault.Some? then (s1, fault) else Sweep(s1, found[1..], now)
  }

  /** `checkExpiredReservations`: the confirmed reservations, then the sweep over them. */
  function CheckExpired(s: Store, now: int): (r: (Store, Option<Fault>))
    requires Complete(s)
    ensures Complete(r.0)
  {
    match FindAll(s, ReservationKind, true, -1, ["reservationStatus", ReservationStatus.Confirmed.Name()], now)
    case Err(e) => (s, Some(QueryFault(e)))
    case Ok(found) => Sweep(s, found, now)
  }

  /** Expiring reservations and freeing rooms keeps every reservation and room saved and held in one state. */
  lemma SweptSettles(s0: Store, s: Store, expired: set<nat>, freed: set<nat>)
    requires Complete(s0) && Settles(s0) && Complete(s) && s.tables == Swept(s0, expired, freed)
    ensures Settles(s)
  {
    var rsvs := s0.tables[ReservationKind];
    var rooms := s0.tables[RoomKind];
    assert s.tables[ReservationKind] == Marked(rsvs, expired);
    assert s.tables[RoomKind] == Freed(rooms, freed);
  }

  /** The program's current state of a reservation during the sweep: as cached, or already expired. */
  lemma CurrentMarked(s0: Store, s: Store, expired: set<nat>, freed: set<nat>, p: Record)
    requires Valid(s0) && Settles(s0) && Complete(s) && s.tables == Swept(s0, expired, freed)
    requires p in s0.tables[ReservationKind]
    ensures Current(s, p) in s.tables[ReservationKind]
    ensures Current(s, p) == p || Current(s, p) == WithState(p, Expired)
  {
    var rsvs := s0.tables[ReservationKind];
    var k :| 0 <= k < |rsvs| && rsvs[k] == p;
    assert TableOk(ReservationKind, rsvs, s0.nextHandle);
    assert KindOf(p.entity) == ReservationKind;
    var list := s.tables[ReservationKind];
    assert list == Marked(rsvs, expired);
    var i := FirstIndex(list, p.handle);
    assert list[k].handle == p.handle;
    assert i < |list|;
    assert rsvs[i] == p;
  }

  /** Expiring one more cached reservation, wherever the program holds it. */
  lemma MarkMore(list: seq<Record>, expired: set<nat>, p: Record)
    requires Coherent(list) && p in list
    ensures Replace(Marked(list, expired), WithState(p, Expired)) == Marked(list, expired + {p.handle})
  {
    var a := Replace(Marked(list, expired), WithState(p, Expired));
    var b := Marked(list, expired + {p.handle});
    forall i | 0 <= i < |list| ensures a[i] == b[i] {
      if list[i].handle == p.handle {
        assert list[i] == p;
      }
    }
  }

  /** Freeing one more room, found in the list as the sweep has left it. */
  lemma FreeMore(list: seq<Record>, freed: set<nat>, j: nat)
    requires Coherent(list) && j < |list|
    ensures Replace(Freed(list, freed), WithStatus(Freed(list, freed)[j], Vacant)) == Freed(list, freed + {list[j].handle})
  {
    var a := Replace(Freed(list, freed), WithStatus(Freed(list, freed)[j], Vacant));
    var b := Freed(list, freed + {list[j].handle});
    forall i | 0 <= i < |list| ensures a[i] == b[i] {
      if list[i].handle == list[j].handle {
        assert list[i] == list[j];
      }
    }
  }

  /** Freeing rooms keeps every room id in place. */
  lemma FreedIds(rooms: seq<Record>, freed: set<nat>)
    ensures SameRoomIds(rooms, Freed(rooms, freed))
  {
  }

  /**
   * One step of the sweep, relative to the cache before it: a reservation
   * that is not due changes nothing; a due one is expired and the room it
   * finds made vacant, and the step raises exactly when it finds no room.
   */
  lemma ExpireStep(s0: Store, s: Store, expired: set<nat>, freed: set<nat>, p: Record, now: int)
    requires Valid(s0) && Settles(s0) && p in s0.tables[ReservationKind] && p.entity.ReservationE?
    requires Valid(s) && s.tables == Swept(s0, expired, freed)
    ensures var (s1, fault) := ExpireOne(s, p, now);
      var rooms := s0.tables[RoomKind];
      var j := RoomAt(rooms, p.entity.rsv.roomId);
      && (fault == None <==> (Due(p, now) ==> j < |rooms|))
      && (fault == None ==>
            && Valid(s1)
            && s1.tables == Swept(s0, expired + (if Due(p, now) then {p.handle} else {}),
                                  freed + (if Due(p, now) && j < |rooms| then {rooms[j].handle} else {})))
  {
    if Due(p, now) {
      if RoomAt(s0.tables[RoomKind], p.entity.rsv.roomId) < |s0.tables[RoomKind]| {
        ExpireFound(s0, s, expired, freed, p, now);
      } else {
        ExpireNoRoom(s0, s, expired, freed, p, now);
      }
    } else {
      ExpireNotDue(s0, s, expired, freed, p, now);
      assert expired + {} == expired && freed + {} == freed;
    }
  }

  lemma ExpireNotDue(s0: Store, s: Store, expired: set<nat>, freed: set<nat>, p: Record, now: int)
    requires Valid(s0) && Settles(s0) && p in s0.tables[ReservationKind] && p.entity.ReservationE? && !Due(p, now)
    requires Valid(s) && s.tables == Swept(s0, expired, freed)
    ensures ExpireOne(s, p, now) == (s, None)
  {
    CurrentMarked(s0, s, expired, freed, p);
  }

  lemma ExpireNoRoom(s0: Store, s: Store, expired: set<nat>, freed: set<nat>, p: Record, now: int)
    requires Valid(s0) && Settles(s0) && p in s0.tables[ReservationKind] && p.entity.ReservationE? && Due(p, now)
    requires Valid(s) && s.tables == Swept(s0, expired, freed)
    requires RoomAt(s0.tables[RoomKind], p.entity.rsv.roomId) == |s0.tables[RoomKind]|
    ensures ExpireOne(s, p, now).1 == Some(NoRoom)
  {
    ExpireParts(s0, s, expired, freed, p, now);
    assert ExpireOne(s, p, now) == ExpireHeld(s, Current(s, p), now);
  }

  /** What a due step works with: the reservation as held now, and the room it finds. */
  lemma ExpireParts(s0: Store, s: Store, expired: set<nat>, freed: set<nat>, p: Record, now: int)
    requires Valid(s0) && Settles(s0) && p in s0.tables[ReservationKind] && p.entity.ReservationE?
    requires Valid(s) && s.tables == Swept(s0, expired, freed)
    ensures var cur := Current(s, p);
      var rooms0 := s0.tables[RoomKind];
      var j := RoomAt(rooms0, p.entity.rsv.roomId);
      && Settles(s) && cur in s.tables[ReservationKind] && cur.entity.ReservationE? && Settled(cur.entity)
      && WithState(cur, Expired) == WithState(p, Expired) && Due(cur, now) == Due(p, now)
      && cur.entity.rsv.roomId == p.entity.rsv.roomId
      && RoomAt(s.tables[RoomKind], p.entity.rsv.roomId) == j
      && RoomOf(Sync(s, WithState(cur, Expired)), p.entity.rsv.roomId, now)
         == if j < |rooms0| then Some(s.tables[RoomKind][j]) else None
  {
    var rooms0 := s0.tables[RoomKind];
    var cur := Current(s, p);
    CurrentMarked(s0, s, expired, freed, p);
    SweptSettles(s0, s, expired, freed);
    FreedIds(rooms0, freed);
    RoomAtSameIds(rooms0, s.tables[RoomKind], p.entity.rsv.roomId);
    var k :| 0 <= k < |s.tables[ReservationKind]| && s.tables[ReservationKind][k] == cur;
    assert TableOk(ReservationKind, s.tables[ReservationKind], s.nextHandle);
    RoomOfUnmoved(s, cur, Expired, now);
  }

  /** A due step that finds its room: both saves go through and the lists are swept one reservation further. */
  lemma ExpireFound(s0: Store, s: Store, expired: set<nat>, freed: set<nat>, p: Record, now: int)
    requires Valid(s0) && Settles(s0) && p in s0.tables[ReservationKind] && p.entity.ReservationE? && Due(p, now)
    requires Valid(s) && s.tables == Swept(s0, expired, freed)
    requires RoomAt(s0.tables[RoomKind], p.entity.rsv.roomId) < |s0.tables[RoomKind]|
    ensures var (s1, fault) := ExpireOne(s, p, now);
      var rooms := s0.tables[RoomKind];
      var j := RoomAt(rooms, p.entity.rsv.roomId);
      fault == None && Valid(s1) && s1.tables == Swept(s0, expired + {p.handle}, freed + {rooms[j].handle})
  {
    ExpireParts(s0, s, expired, freed, p, now);
    var cur := Current(s, p);
    var j := RoomAt(s0.tables[RoomKind], p.entity.rsv.roomId);
    assert ExpireOne(s, p, now) == ExpireHeld(s, cur, now);
    ExpireHeldSaved(s, cur, j, now);
    SweptMoved(s0, s, expired, freed, p, j);
  }

  /** A due step whose room is cached: no exception, and both new states are in the lists. */
  lemma ExpireHeldSaved(s: Store, cur: Record, j: nat, now: int)
    requires Valid(s) && Settles(s) && cur in s.tables[ReservationKind] && cur.entity.ReservationE?
    requires j == RoomAt(s.tables[RoomKind], cur.entity.rsv.roomId) && j < |s.tables[RoomKind]|
    requires RoomOf(Sync(s, WithState(cur, Expired)), cur.entity.rsv.roomId, now) == Some(s.tables[RoomKind][j])
    ensures var (s1, fault) := ExpireHeld(s, cur, now);
      fault == None && Valid(s1) && s1.tables == Moved(s, WithState(cur, Expired), WithStatus(s.tables[RoomKind][j], Vacant))
  {
    SavePairSaved(s, cur, s.tables[RoomKind][j], Expired, now);
  }

  lemma SweptMoved(s0: Store, s: Store, expired: set<nat>, freed: set<nat>, p: Record, j: nat)
    requires Complete(s0) && Settles(s0) && p in s0.tables[ReservationKind] && j < |s0.tables[RoomKind]|
    requires Complete(s) && s.tables == Swept(s0, expired, freed)
    ensures Moved(s, WithState(p, Expired), WithStatus(s.tables[RoomKind][j], Vacant))
      == Swept(s0, expired + {p.handle}, freed + {s0.tables[RoomKind][j].handle})
  {
    MarkMore(s0.tables[ReservationKind], expired, p);
    FreeMore(s0.tables[RoomKind], freed, j);
  }

  lemma DueSplit(found: seq<Record>, now: int)
    requires |found| > 0
    ensures DueHandles(found, now) == (if Due(found[0], now) then {found[0].handle} else {}) + DueHandles(found[1..], now)
  {
    var rest := found[1..];
    forall h | h in DueHandles(found, now)
      ensures h in (if Due(found[0], now) then {found[0].handle} else {}) + DueHandles(rest, now)
    {
      var i :| 0 <= i < |found| && Due(found[i], now) && found[i].handle == h;
      if i > 0 {
        assert rest[i - 1] == found[i];
      }
    }
    forall h | h in DueHandles(rest, now) ensures h in DueHandles(found, now) {
      var i :| 0 <= i < |rest| && Due(rest[i], now) && rest[i].handle == h;
      assert found[i + 1] == rest[i];
    }
  }

  lemma FreedSplit(rooms: seq<Record>, found: seq<Record>, now: int)
    requires |found| > 0
    ensures var j := Booked(rooms, found[0]);
      FreedHandles(rooms, found, now)
        == (if Due(found[0], now) && j < |rooms| then {rooms[j].handle} else {}) + FreedHandles(rooms, found[1..], now)
  {
    FreedFromFound(rooms, found, now);
    FreedFromRest(rooms, found, now);
    var j := Booked(rooms, found[0]);
    if Due(found[0], now) && j < |rooms| {
      assert rooms[j].handle in FreedHandles(rooms, found, now) by {
        assert 0 < |found| && Due(found[0], now) && Booked(rooms, found[0]) < |rooms|;
      }
    }
  }

  /** A room the list frees is the head's or one the rest frees. */
  lemma FreedFromFound(rooms: seq<Record>, found: seq<Record>, now: int)
    requires |found| > 0
    ensures var j := Booked(rooms, found[0]);
      FreedHandles(rooms, found, now)
        <= (if Due(found[0], now) && j < |rooms| then {rooms[j].handle} else {}) + FreedHandles(rooms, found[1..], now)
  {
    var rest := found[1..];
    forall h | h in FreedHandles(rooms, found, now)
      ensures h in FreedHandles(rooms, found, now) - FreedHandles(rooms, rest, now) ==> Due(found[0], now) && Booked(rooms, found[0]) < |rooms| && h == rooms[Booked(rooms, found[0])].handle
    {
      var i :| 0 <= i < |found| && Due(found[i], now) && Booked(rooms, found[i]) < |rooms|
        && rooms[Booked(rooms, found[i])].handle == h;
      if i > 0 {
        assert rest[i - 1] == found[i];
        assert 0 <= i - 1 < |rest| && Due(rest[i - 1], now) && Booked(rooms, rest[i - 1]) < |rooms|;
      }
    }
  }

  /** A room the rest of the list frees, the whole list frees. */
  lemma FreedFromRest(rooms: seq<Record>, found: seq<Record>, now: int)
    requires |found| > 0
    ensures FreedHandles(rooms, found[1..], now) <= FreedHandles(rooms, found, now)
  {
    var rest := found[1..];
    forall h | h in FreedHandles(rooms, rest, now) ensures h in FreedHandles(rooms, found, now) {
      var i :| 0 <= i < |rest| && Due(rest[i], now) && Booked(rooms, rest[i]) < |rooms|
        && rooms[Booked(rooms, rest[i])].handle == h;
      assert found[i + 1] == rest[i];
      assert 0 <= i + 1 < |found| && Due(found[i + 1], now) && Booked(rooms, found[i + 1]) < |rooms|;
    }
  }

  lemma RoomedSplit(rooms: seq<Record>, found: seq<Record>, now: int)
    requires |found| > 0
    ensures Roomed(rooms, found, now) <==>
      (Due(found[0], now) ==> Booked(rooms, found[0]) < |rooms|) && Roomed(rooms, found[1..], now)
  {
    var rest := found[1..];
    if (Due(found[0], now) ==> Booked(rooms, found[0]) < |rooms|) && Roomed(rooms, rest, now) {
      forall i | 0 <= i < |found| && Due(found[i], now) ensures Booked(rooms, found[i]) < |rooms| {
        if i > 0 { assert found[i] == rest[i - 1]; }
      }
    }
    if Roomed(rooms, found, now) {
      forall i | 0 <= i < |rest| && Due(rest[i], now) ensures Booked(rooms, rest[i]) < |rooms| {
        assert found[i + 1] == rest[i];
      }
    }
  }

  /** The sets the sweep has reached after one more step. */
  lemma SweepSets(rooms: seq<Record>, found: seq<Record>, expired: set<nat>, freed: set<nat>, now: int)
    requires |found| > 0
    ensures var p := found[0];
      var j := Booked(rooms, p);
      var e1 := expired + (if Due(p, now) then {p.handle} else {});
      var f1 := freed + (if Due(p, now) && j < |rooms| then {rooms[j].handle} else {});
      && e1 + DueHandles(found[1..], now) == expired + DueHandles(found, now)
      && f1 + FreedHandles(rooms, found[1..], now) == freed + FreedHandles(rooms, found, now)
  {
    DueSplit(found, now);
    FreedSplit(rooms, found, now);
  }

  /**
   * The sweep over reservations of the cache, from any point of it: it
   * raises exactly when a due reservation finds no room, and otherwise every
   * due reservation is expired and every room they find is vacant.
   */
  lemma {:induction false} SweepFrom(s0: Store, s: Store, expired: set<nat>, freed: set<nat>, found: seq<Record>, now: int)
    requires Valid(s0) && Settles(s0)
    requires forall i :: 0 <= i < |found| ==> found[i] in s0.tables[ReservationKind] && found[i].entity.ReservationE?
    requires Valid(s) && s.tables == Swept(s0, expired, freed)
    ensures var (s1, fault) := Sweep(s, found, now);
      var rooms := s0.tables[RoomKind];
      && (fault == None <==> Roomed(rooms, found, now))
      && (fault == None ==>
            Valid(s1) && s1.tables == Swept(s0, expired + DueHandles(found, now), freed + FreedHandles(rooms, found, now)))
    decreases |found|
  {
    var rooms := s0.tables[RoomKind];
    if |found| == 0 {
      assert DueHandles(found, now) == {} && FreedHandles(rooms, found, now) == {};
      assert expired + {} == expired && freed + {} == freed;
    } else {
      var p := found[0];
      var rest := found[1..];
      var j := Booked(rooms, p);
      ExpireStep(s0, s, expired, freed, p, now);
      RoomedSplit(rooms, found, now);
      var (s1, fault) := ExpireOne(s, p, now);
      if fault == None {
        var e1 := expired + (if Due(p, now) then {p.handle} else {});
        var f1 := freed + (if Due(p, now) && j < |rooms| then {rooms[j].handle} else {});
        assert forall i :: 0 <= i < |rest| ==> rest[i] == found[i + 1];
        SweepFrom(s0, s1, e1, f1, rest, now);
        SweepSets(rooms, found, expired, freed, now);
      }
    }
  }

  /** The identities of the reservations of a list that the sweep expires. */
  function ExpiringHandles(rsvs: seq<Record>, now: int): set<nat> {
    set i | 0 <= i < |rsvs| && Expiring(rsvs[i], now) :: rsvs[i].handle
  }

  /** The identities of the rooms those reservations find. */
  function FreedBy(rooms: seq<Record>, rsvs: seq<Record>, now: int): set<nat> {
    set i | 0 <= i < |rsvs| && Expiring(rsvs[i], now) && Booked(rooms, rsvs[i]) < |rooms| :: rooms[Booked(rooms, rsvs[i])].handle
  }

  /** Every reservation the sweep expires finds a room. */
  predicate ExpiringRoomed(rooms: seq<Record>, rsvs: seq<Record>, now: int) {
    forall i :: 0 <= i < |rsvs| && Expiring(rsvs[i], now) ==> Booked(rooms, rsvs[i]) < |rooms|
  }

  /** The query of the sweep finds exactly the confirmed reservations of the cache. */
  lemma ConfirmedFound(s: Store, now: int)
    requires Valid(s)
    ensures FindAll(s, ReservationKind, true, -1, ["reservationStatus", ReservationStatus.Confirmed.Name()], now).Ok?
    ensures forall rec ::
      rec in FindAll(s, ReservationKind, true, -1, ["reservationStatus", ReservationStatus.Confirmed.Name()], now).value
      <==> (rec in s.tables[ReservationKind] && rec.entity.ReservationE? && rec.entity.rsv.status == ReservationStatus.Confirmed)
  {
    var rsvs := s.tables[ReservationKind];
    var text := ReservationStatus.Confirmed.Name();
    assert TableOk(ReservationKind, rsvs, s.nextHandle);
    forall i | 0 <= i < |rsvs| ensures FieldValue(rsvs[i].entity, "reservationStatus", now) == Some(rsvs[i].entity.rsv.status.Name()) {
      ReservationQueriedFields(rsvs[i].entity.rsv, now);
    }
    FindAllMatches(s, ReservationKind, "reservationStatus", text, now);
    forall rec | rec in rsvs
      ensures Matches(rec, "reservationStatus", text, now) <==> rec.entity.rsv.status == ReservationStatus.Confirmed
    {
      NamesCaseless();
    }
  }

  /** Over a list holding exactly the confirmed reservations, the sweep's sets are those of the cache. */
  lemma FoundSets(rooms: seq<Record>, rsvs: seq<Record>, found: seq<Record>, now: int)
    requires forall rec :: rec in found <==> rec in rsvs && rec.entity.ReservationE? && rec.entity.rsv.status == ReservationStatus.Confirmed
    ensures DueHandles(found, now) == ExpiringHandles(rsvs, now)
    ensures FreedHandles(rooms, found, now) == FreedBy(rooms, rsvs, now)
    ensures Roomed(rooms, found, now) <==> ExpiringRoomed(rooms, rsvs, now)
  {
    forall h | h in DueHandles(found, now) ensures h in ExpiringHandles(rsvs, now) {
      var i :| 0 <= i < |found| && Due(found[i], now) && found[i].handle == h;
      assert found[i] in found;
      var k :| 0 <= k < |rsvs| && rsvs[k] == found[i];
    }
    forall h | h in ExpiringHandles(rsvs, now) ensures h in DueHandles(found, now) {
      var k :| 0 <= k < |rsvs| && Expiring(rsvs[k], now) && rsvs[k].handle == h;
      assert rsvs[k] in rsvs;
      var i :| 0 <= i < |found| && found[i] == rsvs[k];
    }
    forall h | h in FreedHandles(rooms, found, now) ensures h in FreedBy(rooms, rsvs, now) {
      var i :| 0 <= i < |found| && Due(found[i], now) && Booked(rooms, found[i]) < |rooms| && rooms[Booked(rooms, found[i])].handle == h;
      assert found[i] in found;
      var k :| 0 <= k < |rsvs| && rsvs[k] == found[i];
    }
    forall h | h in FreedBy(rooms, rsvs, now) ensures h in FreedHandles(rooms, found, now) {
      var k :| 0 <= k < |rsvs| && Expiring(rsvs[k], now) && Booked(rooms, rsvs[k]) < |rooms| && rooms[Booked(rooms, rsvs[k])].handle == h;
      assert rsvs[k] in rsvs;
      var i :| 0 <= i < |found| && found[i] == rsvs[k];
    }
    if Roomed(rooms, found, now) {
      forall k | 0 <= k < |rsvs| && Expiring(rsvs[k], now) ensures Booked(rooms, rsvs[k]) < |rooms| {
        assert rsvs[k] in rsvs;
        var i :| 0 <= i < |found| && found[i] == rsvs[k];
      }
    }
    if ExpiringRoomed(rooms, rsvs, now) {
      forall i | 0 <= i < |found| && Due(found[i], now) ensures Booked(rooms, found[i]) < |rooms| {
        assert found[i] in found;
        var k :| 0 <= k < |rsvs| && rsvs[k] == found[i];
      }
    }
  }

  /**
   * `checkExpiredReservations` on a cache whose reservations and rooms are
   * saved: it raises exactly when a confirmed reservation whose check-in time
   * is an hour or more past finds no room; otherwise exactly those
   * reservations become EXPIRED and exactly the rooms they find become
   * VACANT, and nothing else in the cache changes.
   */
  lemma CheckExpiredSpec(s: Store, now: int)
    requires Valid(s) && Settles(s)
    ensures var (after, fault) := CheckExpired(s, now);
      var rsvs := s.tables[ReservationKind];
      var rooms := s.tables[RoomKind];
      && (fault == None <==> ExpiringRoomed(rooms, rsvs, now))
      && (fault == None ==> Valid(after) && after.tables == Swept(s, ExpiringHandles(rsvs, now), FreedBy(rooms, rsvs, now)))
  {
    var rsvs := s.tables[ReservationKind];
    var rooms := s.tables[RoomKind];
    ConfirmedFound(s, now);
    var found := FindAll(s, ReservationKind, true, -1, ["reservationStatus", ReservationStatus.Confirmed.Name()], now).value;
    FoundListed(rsvs, found);
    SweptNothing(s);
    SweepFrom(s, s, {}, {}, found, now);
    FoundSets(rooms, rsvs, found, now);
    NoneAdded(ExpiringHandles(rsvs, now), FreedBy(rooms, rsvs, now));
  }

  lemma FoundListed(rsvs: seq<Record>, found: seq<Record>)
    requires forall rec :: rec in found <==> rec in rsvs && rec.entity.ReservationE? && rec.entity.rsv.status == ReservationStatus.Confirmed
    ensures forall i :: 0 <= i < |found| ==> found[i] in rsvs && found[i].entity.ReservationE?
  {
    forall i | 0 <= i < |found| ensures found[i] in rsvs && found[i].entity.ReservationE? {
      assert found[i] in found;
    }
  }

  lemma SweptNothing(s: Store)
    requires Complete(s)
    ensures Swept(s, {}, {}) == s.tables
  {
    assert Marked(s.tables[ReservationKind], {}) == s.tables[ReservationKind];
    assert Freed(s.tables[RoomKind], {}) == s.tables[RoomKind];
  }

  lemma NoneAdded(a: set<nat>, b: set<nat>)
    ensures {} + a == a && {} + b == b
  {
  }
}
