/**
 * `save` as each entity runs it: the base one (Entity.java), which
 * validates and then appends or rewrites; the reservation's, which reserves
 * the room of a new reservation; and the room-service order's, which
 * confirms a new order and then saves its lines.
 */
module Saving {
  import opened Options
  import opened Config
  import opened Enums
  import opened Entities
  import opened EntityStore
  import opened Rules

  /**
   * An object as the program can hold it: a saved object is in its list,
   * and an object in its list has its first-use values.
   */
  predicate Held(s: Store, rec: Record)
    requires Complete(s)
  {
    var hs := Handles(s.tables[KindOf(rec.entity)]);
    (!rec.isNew ==> rec.handle in hs) && (rec.handle in hs ==> Settled(rec.entity))
  }

  /**
   * The base `save`: validation (whose changes to the object are kept),
   * then, when there are no problems, the object is written with its list.
   * The result is whether it was saved, or the fault the validation raised.
   */
  function BaseSave(s: Store, rec: Record, now: int): (r: (Store, Record, Result<bool, Fault>))
    requires Complete(s)
    ensures Complete(r.0) && r.0.writable == s.writable
    ensures r.1.handle == rec.handle && KindOf(r.1.entity) == KindOf(rec.entity)
    ensures forall j: Kind :: j != KindOf(rec.entity) ==> r.0.tables[j] == s.tables[j] && r.0.files[j] == s.files[j]
  {
    var (checked, res) := Validate(s, rec, now);
    Finish(s, checked, res, now)
  }

  /** The part of the base `save` after validation. */
  function Finish(s: Store, checked: Record, res: Result<seq<Problem>, Fault>, now: int): (r: (Store, Record, Result<bool, Fault>))
    requires Complete(s)
    ensures Complete(r.0) && r.0.writable == s.writable
    ensures r.1.handle == checked.handle && KindOf(r.1.entity) == KindOf(checked.entity)
    ensures Settled(checked.entity) ==> r.1.entity == checked.entity
    ensures forall j: Kind :: j != KindOf(checked.entity) ==> r.0.tables[j] == s.tables[j] && r.0.files[j] == s.files[j]
    ensures res.Err? ==> r.2 == Err(res.error)
    ensures res.Ok? ==> r.2 == Ok(res.value == [] && KindOf(checked.entity) in s.writable)
  {
    var s1 := Sync(s, checked);
    match res
    case Err(f) => (s1, checked, Err(f))
    case Ok(ps) =>
      if ps != [] then (s1, checked, Ok(false))
      else
        var (s2, saved, ok) := Commit(s1, checked, now);
        (s2, saved, Ok(ok))
  }

  /** Validation keeps an object holdable: a guest's revert and an order's stamp both give settled values. */
  lemma ValidateHeld(s: Store, rec: Record, now: int)
    requires Valid(s) && Held(s, rec)
    ensures Held(s, Validate(s, rec, now).0)
  {
    if rec.entity.RoomServiceE? {
      MenuItemsLoaded(s, rec, now);
    }
  }

  /** Keeping the validated object's state in memory keeps the store valid and every list's identities. */
  lemma SyncHeld(s: Store, rec: Record)
    requires Valid(s) && Held(s, rec)
    ensures Valid(Sync(s, rec)) && Held(Sync(s, rec), rec)
    ensures forall k: Kind :: Handles(Sync(s, rec).tables[k]) == Handles(s.tables[k])
  {
    if rec.handle in Handles(s.tables[KindOf(rec.entity)]) {
      SyncValid(s, rec);
    } else {
      SyncAbsent(s, rec);
    }
  }

  /**
   * After validation, on a valid store: an object with problems or a fault
   * is not written (the files stay as they were, the answer is no or the
   * fault); an object without problems is saved exactly when its file can
   * be written, and a new one joins the end of its list even when the write
   * fails.  The store stays valid.
   */
  lemma FinishSpec(s: Store, checked: Record, res: Result<seq<Problem>, Fault>, now: int)
    requires Valid(s) && Held(s, checked)
    ensures var (after, saved, out) := Finish(s, checked, res, now);
      var k := KindOf(checked.entity);
      && Valid(after)
      && (res.Err? ==> out == Err(res.error) && after.files == s.files)
      && (res.Ok? && res.value != [] ==> out == Ok(false) && after.files == s.files)
      && (res == Ok([]) ==> out == Ok(k in s.writable))
      && (res == Ok([]) && checked.isNew ==> Handles(after.tables[k]) == Handles(s.tables[k]) + [checked.handle])
      && (res == Ok([]) && checked.isNew && out == Ok(true) ==> !saved.isNew)
      && (res == Ok([]) ==> saved.entity == Settle(checked.entity, now))
      && (res != Ok([]) || !checked.isNew ==> Handles(after.tables[k]) == Handles(s.tables[k]))
  {
    SyncHeld(s, checked);
    if res == Ok([]) {
      if checked.isNew {
        CommitNew(Sync(s, checked), checked, now);
      } else {
        CommitExisting(Sync(s, checked), checked, now);
      }
    }
  }

  /** The base `save` on a valid store keeps it valid; the outcome is as `FinishSpec` describes for the validated object. */
  lemma BaseSaveSpec(s: Store, rec: Record, now: int)
    requires Valid(s) && Held(s, rec)
    ensures var (checked, res) := Validate(s, rec, now);
      && checked.isNew == rec.isNew && checked.handle == rec.handle && Held(s, checked)
      && BaseSave(s, rec, now) == Finish(s, checked, res, now)
  {
    ValidateHeld(s, rec, now);
  }

  /** Without a fault, the base `save` answers yes exactly when the object has no problem and its file can be written. */
  lemma BaseSaveAnswer(s: Store, rec: Record, now: int)
    requires Valid(s) && Held(s, rec) && Validate(s, rec, now).1.Ok?
    ensures BaseSave(s, rec, now).2 == Ok(Validate(s, rec, now).1.value == [] && KindOf(rec.entity) in s.writable)
  {
    var (checked, res) := Validate(s, rec, now);
    BaseSaveSpec(s, rec, now);
    FinishSpec(s, checked, res, now);
  }

  lemma BaseSaveValid(s: Store, rec: Record, now: int)
    requires Valid(s) && Held(s, rec)
    ensures Valid(BaseSave(s, rec, now).0)
  {
    BaseSaveSpec(s, rec, now);
    var (checked, out) := Validate(s, rec, now);
    FinishSpec(s, checked, out, now);
  }

  /** Replacing an object's occurrences twice is replacing them once. */
  lemma ReplaceTwice(list: seq<Record>, rec: Record)
    ensures Replace(Replace(list, rec), rec) == Replace(list, rec)
  {
  }

  /**
   * Saving an object that was saved before and is in its list leaves every
   * list exactly as keeping its new state in memory does, whatever the
   * validation found and whether the write succeeded.
   */
  lemma FinishSyncs(s: Store, rec: Record, res: Result<seq<Problem>, Fault>, now: int)
    requires Valid(s) && !rec.isNew && Settled(rec.entity) && rec.handle in Handles(s.tables[KindOf(rec.entity)])
    ensures var (after, saved, _) := Finish(s, rec, res, now);
      after.tables == Sync(s, rec).tables && saved == rec && Valid(after)
  {
    var k := KindOf(rec.entity);
    var s1 := Sync(s, rec);
    SyncValid(s, rec);
    if res == Ok([]) {
      ReplaceTwice(s.tables[k], rec);
      assert Sync(s1, rec) == s1;
      SettledList(k, s1.tables[k], s1.nextHandle, now);
      WriteValid(s1, k, now);
    }
  }

  /** The same for the base save of a saved room or reservation, whose validation does not change the object. */
  lemma SaveSyncs(s: Store, rec: Record, now: int)
    requires Valid(s) && !rec.isNew && Settled(rec.entity) && rec.handle in Handles(s.tables[KindOf(rec.entity)])
    requires rec.entity.RoomE? || rec.entity.ReservationE?
    ensures var (after, saved, _) := BaseSave(s, rec, now);
      after.tables == Sync(s, rec).tables && saved == rec && Valid(after)
  {
    var (checked, res) := Validate(s, rec, now);
    assert checked == rec;
    FinishSyncs(s, rec, res, now);
  }

  /** The room with its status changed; other objects are left alone. */
  function WithStatus(rec: Record, status: RoomStatus): (r: Record)
    ensures r.handle == rec.handle && r.isNew == rec.isNew && KindOf(r.entity) == KindOf(rec.entity)
    ensures rec.entity.RoomE? ==> r.entity == RoomE(rec.entity.room.(status := status))
    ensures !rec.entity.RoomE? ==> r == rec
  {
    match rec.entity
    case RoomE(room) => rec.(entity := RoomE(room.(status := status)))
    case _ => rec
  }

  /**
   * `Reservation.save`: the base save; when a new reservation was saved, its
   * room becomes reserved and is saved too (whether that succeeds does not
   * change the answer).
   */
  function SaveReservation(s: Store, rec: Record, now: int): (r: (Store, Record, Result<bool, Fault>))
    requires Complete(s) && rec.entity.ReservationE?
    ensures Complete(r.0) && r.0.writable == s.writable
    ensures r.1.handle == rec.handle && r.1.entity.ReservationE?
  {
    var (s1, saved, res) := BaseSave(s, rec, now);
    if res == Ok(true) && rec.isNew then
      match RoomOf(s1, rec.entity.rsv.roomId, now)
      case None => (s1, saved, Err(NoRoom))
      case Some(room) =>
        var reserved := WithStatus(room, Reserved);
        var (s2, _, _) := BaseSave(Sync(s1, reserved), reserved, now);
        (s2, saved, res)
    else (s1, saved, res)
  }

  /** After validation, the object the save leaves is the validated one, its first-use values perhaps produced. */
  lemma FinishEntity(s: Store, checked: Record, res: Result<seq<Problem>, Fault>, now: int)
    requires Complete(s)
    ensures var e := Finish(s, checked, res, now).1.entity;
      e == checked.entity || e == Settle(checked.entity, now)
  {
    CommitEntity(Sync(s, checked), checked, now);
  }

  /** A saved reservation keeps every field it was saved with; only its code may be produced on the way. */
  lemma SavedFields(s: Store, rec: Record, now: int)
    requires Complete(s) && rec.entity.ReservationE?
    ensures SaveReservation(s, rec, now).1.entity.rsv.(code := rec.entity.rsv.code) == rec.entity.rsv
  {
    assert SaveReservation(s, rec, now).1 == BaseSave(s, rec, now).1;
    assert BaseSave(s, rec, now) == Finish(s, rec, ReservationProblems(s, rec, now), now);
    FinishEntity(s, rec, ReservationProblems(s, rec, now), now);
  }

  /**
   * When the reservation's room is cached, the answer of its save is that of
   * its own base save: reserving the room never changes it.
   */
  lemma SaveReservationAnswer(s: Store, rec: Record, now: int)
    requires Valid(s) && Held(s, rec) && rec.entity.ReservationE?
    requires RoomAt(s.tables[RoomKind], rec.entity.rsv.roomId) < |s.tables[RoomKind]|
    ensures SaveReservation(s, rec, now).2 == BaseSave(s, rec, now).2
  {
    RoomOfFirst(s, rec.entity.rsv.roomId, now);
    SaveAnswerFound(s, rec, now);
  }

  /** A reservation whose room is cached is saved exactly when it has no problem and its file can be written. */
  lemma SaveAnswerOfProblems(s: Store, rec: Record, now: int)
    requires Valid(s) && rec.entity.ReservationE? && Held(s, rec)
    requires RoomAt(s.tables[RoomKind], rec.entity.rsv.roomId) < |s.tables[RoomKind]|
    requires ReservationProblems(s, rec, now).Ok?
    ensures SaveReservation(s, rec, now).2 == Ok(ReservationProblems(s, rec, now).value == [] && ReservationKind in s.writable)
  {
    assert Validate(s, rec, now) == (rec, ReservationProblems(s, rec, now));
    assert KindOf(rec.entity) == ReservationKind;
    BaseSaveAnswer(s, rec, now);
    SaveReservationAnswer(s, rec, now);
  }

  /** Once the room is found before the save, it is found after it, so reserving it never changes the answer. */
  lemma SaveAnswerFound(s: Store, rec: Record, now: int)
    requires Complete(s) && rec.entity.ReservationE? && RoomOf(s, rec.entity.rsv.roomId, now).Some?
    ensures SaveReservation(s, rec, now).2 == BaseSave(s, rec, now).2
  {
    var (s1, saved, res) := BaseSave(s, rec, now);
    assert RoomOf(s1, rec.entity.rsv.roomId, now).Some? by {
      assert s1.tables[RoomKind] == s.tables[RoomKind];
    }
  }

  /** Saving a room keeps its in-memory state at every place it is listed, whatever the outcome. */
  lemma RoomSaveKeepsState(s: Store, rec: Record, now: int)
    requires Valid(s) && rec.entity.RoomE? && rec.handle in Handles(s.tables[RoomKind])
    ensures var after := BaseSave(s, rec, now).0;
      && Valid(after)
      && forall i :: 0 <= i < |after.tables[RoomKind]| && after.tables[RoomKind][i].handle == rec.handle ==>
           after.tables[RoomKind][i].entity == rec.entity
  {
    var res := RoomProblems(s, rec, now);
    assert Validate(s, rec, now) == (rec, res);
    FinishKeepsState(s, rec, res, now);
  }

  /** After validation a listed, settled object keeps its state at every place it is listed. */
  lemma FinishKeepsState(s: Store, rec: Record, res: Result<seq<Problem>, Fault>, now: int)
    requires Valid(s) && Settled(rec.entity) && rec.handle in Handles(s.tables[KindOf(rec.entity)])
    ensures var after := Finish(s, rec, res, now).0;
      var k := KindOf(rec.entity);
      && Valid(after)
      && forall i :: 0 <= i < |after.tables[k]| && after.tables[k][i].handle == rec.handle ==> after.tables[k][i].entity == rec.entity
  {
    SyncValid(s, rec);
    if res == Ok([]) {
      if rec.isNew {
        CommitNew(Sync(s, rec), rec, now);
      } else {
        CommitExisting(Sync(s, rec), rec, now);
      }
    }
  }

  /**
   * A new reservation that is saved leaves its room (the first cached room
   * with its room id) reserved at every place the room is listed; a
   * reservation that is not new, or not saved, leaves the rooms alone.
   */
  lemma SaveReservationReserves(s: Store, rec: Record, now: int)
    requires Valid(s) && Held(s, rec) && rec.entity.ReservationE?
    ensures var (after, _, res) := SaveReservation(s, rec, now);
      && Valid(after)
      && (res == Ok(true) && rec.isNew ==>
            var room := RoomOf(s, rec.entity.rsv.roomId, now).value;
            && RoomOf(s, rec.entity.rsv.roomId, now).Some?
            && room.entity.RoomE?
            && forall i :: 0 <= i < |after.tables[RoomKind]| && after.tables[RoomKind][i].handle == room.handle ==>
                 after.tables[RoomKind][i].entity == RoomE(room.entity.room.(status := Reserved)))
      && (!(res == Ok(true) && rec.isNew) ==> after.tables[RoomKind] == s.tables[RoomKind])
  {
    BaseSaveValid(s, rec, now);
    var (s1, saved, res) := BaseSave(s, rec, now);
    assert RoomOf(s1, rec.entity.rsv.roomId, now) == RoomOf(s, rec.entity.rsv.roomId, now);
    if res == Ok(true) && rec.isNew {
      ReservationRules(s, rec, now);
      RoomOfFirst(s, rec.entity.rsv.roomId, now);
      RoomOfListed(s, rec.entity.rsv.roomId, now);
      ReserveRoom(s1, RoomOf(s, rec.entity.rsv.roomId, now).value, now);
    }
  }

  /** Marking a listed room reserved and saving it leaves it reserved wherever it is listed. */
  lemma ReserveRoom(s: Store, room: Record, now: int)
    requires Valid(s) && room.entity.RoomE? && room.handle in Handles(s.tables[RoomKind])
    ensures var reserved := WithStatus(room, Reserved);
      var after := BaseSave(Sync(s, reserved), reserved, now).0;
      && Valid(after)
      && forall i :: 0 <= i < |after.tables[RoomKind]| && after.tables[RoomKind][i].handle == room.handle ==>
           after.tables[RoomKind][i].entity == RoomE(room.entity.room.(status := Reserved))
  {
    var reserved := WithStatus(room, Reserved);
    SyncValid(s, reserved);
    RoomSaveKeepsState(Sync(s, reserved), reserved, now);
  }

  /** The room a reservation refers to is one of the listed rooms. */
  lemma RoomOfListed(s: Store, roomId: string, now: int)
    requires Valid(s)
    ensures RoomOf(s, roomId, now).Some? ==> RoomOf(s, roomId, now).value.handle in Handles(s.tables[RoomKind])
  {
    RoomsHaveIds(s, now);
    FindFirstMatch(s, RoomKind, "roomId", roomId, now);
    FirstMatchListed(s.tables[RoomKind], "roomId", roomId, now);
  }

  lemma {:induction false} FirstMatchListed(list: seq<Record>, key: string, text: string, now: int)
    ensures FirstMatch(list, key, text, now).Some? ==> FirstMatch(list, key, text, now).value in list
    decreases |list|
  {
    if |list| > 0 {
      FirstMatchListed(list[1..], key, text, now);
    }
  }

  // ---------------------------------------------------------------------------
  // Room-service orders
  // ---------------------------------------------------------------------------

  /** `addMenuItem`: the line joins the order's lines in memory. */
  function AddMenuItem(rs: RoomService, line: Record): (r: RoomService)
    ensures |r.items| == |rs.items| + 1 && r.items[..|rs.items|] == rs.items && r.items[|rs.items|] == line
    ensures r.(items := rs.items) == rs
  {
    rs.(items := rs.items + [line])
  }

  /** A line tied to the order with the given id (its `toHashMap` writes the order's id). */
  function Linked(line: Record, id: string): (r: Record)
    ensures r.handle == line.handle && r.isNew == line.isNew && KindOf(r.entity) == KindOf(line.entity)
    ensures line.entity.OrderItemE? ==> r.entity == OrderItemE(line.entity.orderItem.(rsId := id))
  {
    match line.entity
    case OrderItemE(o) => line.(entity := OrderItemE(o.(rsId := id)))
    case _ => line
  }

  /** Each line of an order saved in turn with the base save; a line that fails does not stop the rest. */
  function SaveLines(s: Store, lines: seq<Record>, id: string, now: int): (r: (Store, seq<Record>))
    requires Complete(s)
    ensures Complete(r.0) && r.0.writable == s.writable && |r.1| == |lines|
    ensures forall i :: 0 <= i < |lines| ==> r.1[i].handle == lines[i].handle && KindOf(r.1[i].entity) == KindOf(lines[i].entity)
    decreases |lines|
  {
    if |lines| == 0 then (s, [])
    else
      var (s1, saved, _) := BaseSave(s, Linked(lines[0], id), now);
      var (s2, rest) := SaveLines(s1, lines[1..], id, now);
      (s2, [saved] + rest)
  }

  /** Lines the program can hold: order lines, each new or listed. */
  predicate LinesHeld(s: Store, lines: seq<Record>)
    requires Complete(s)
  {
    forall i :: 0 <= i < |lines| ==>
      lines[i].entity.OrderItemE? && (!lines[i].isNew ==> lines[i].handle in Handles(s.tables[OrderItemKind]))
  }

  /**
   * Saving an order's lines keeps a valid store valid, changes no list but
   * the lines', and no identity leaves the lines' list.
   */
  lemma {:induction false} SaveLinesValid(s: Store, lines: seq<Record>, id: string, now: int)
    requires Valid(s) && LinesHeld(s, lines)
    ensures var after := SaveLines(s, lines, id, now).0;
      && Valid(after)
      && (forall j: Kind :: j != OrderItemKind ==> after.tables[j] == s.tables[j])
      && (forall h :: h in Handles(s.tables[OrderItemKind]) ==> h in Handles(after.tables[OrderItemKind]))
    decreases |lines|
  {
    if |lines| > 0 {
      SaveLine(s, lines[0], id, now);
      var s1 := BaseSave(s, Linked(lines[0], id), now).0;
      StillHeld(s, s1, lines);
      SaveLinesValid(s1, lines[1..], id, now);
    }
  }

  /** Every line of an order, saved or not, comes back tied to the order's id. */
  lemma {:induction false} SaveLinesLinked(s: Store, lines: seq<Record>, id: string, now: int)
    requires Complete(s)
    requires forall i :: 0 <= i < |lines| ==> lines[i].entity.OrderItemE?
    ensures var saved := SaveLines(s, lines, id, now).1;
      forall i :: 0 <= i < |saved| ==> saved[i].entity == OrderItemE(lines[i].entity.orderItem.(rsId := id))
    decreases |lines|
  {
    if |lines| > 0 {
      var linked := Linked(lines[0], id);
      assert Validate(s, linked, now).0 == linked;
      var s1 := BaseSave(s, linked, now).0;
      SaveLinesLinked(s1, lines[1..], id, now);
    }
  }

  lemma StillHeld(s: Store, s1: Store, lines: seq<Record>)
    requires Complete(s) && Complete(s1) && LinesHeld(s, lines) && |lines| > 0
    requires forall h :: h in Handles(s.tables[OrderItemKind]) ==> h in Handles(s1.tables[OrderItemKind])
    ensures LinesHeld(s1, lines[1..])
  {
    forall i | 0 <= i < |lines[1..]| && !lines[1..][i].isNew
      ensures lines[1..][i].handle in Handles(s1.tables[OrderItemKind])
    {
      assert lines[i + 1].handle in Handles(s.tables[OrderItemKind]);
    }
  }

  /** One line's save: the store stays valid, only the lines' list changes and grows, and the line keeps the order id. */
  lemma SaveLine(s: Store, line: Record, id: string, now: int)
    requires Valid(s) && line.entity.OrderItemE? && (!line.isNew ==> line.handle in Handles(s.tables[OrderItemKind]))
    ensures var (after, saved, _) := BaseSave(s, Linked(line, id), now);
      && Valid(after)
      && (forall j: Kind :: j != OrderItemKind ==> after.tables[j] == s.tables[j])
      && (forall h :: h in Handles(s.tables[OrderItemKind]) ==> h in Handles(after.tables[OrderItemKind]))
      && saved.entity.OrderItemE? && saved.entity.orderItem.rsId == id
  {
    var linked := Linked(line, id);
    var res := Ok(OrderItemProblems(linked.entity.orderItem));
    assert Validate(s, linked, now) == (linked, res);
    FinishSpec(s, linked, res, now);
  }

  /** The order confirmed when new, as `RoomService.save` does first. */
  function Confirmed(rec: Record): (r: Record)
    requires rec.entity.RoomServiceE?
    ensures r.handle == rec.handle && r.isNew == rec.isNew && r.entity.RoomServiceE?
    ensures rec.isNew ==> r.entity.service.status == OrderConfirmed
    ensures r.entity.service.(status := rec.entity.service.status) == rec.entity.service
  {
    if rec.isNew then rec.(entity := RoomServiceE(rec.entity.service.(status := OrderConfirmed))) else rec
  }

  /**
   * `RoomService.save`: a new order is confirmed, then saved with the base
   * save; only when that succeeds are its lines saved, each tied to the
   * order's id, and the answer is then yes whatever happened to the lines.
   */
  function SaveService(s: Store, rec: Record, now: int): (r: (Store, Record, Result<bool, Fault>))
    requires Complete(s) && rec.entity.RoomServiceE?
    ensures Complete(r.0) && r.0.writable == s.writable
  {
    var (s1, saved, res) := BaseSave(s, Confirmed(rec), now);
    if res != Ok(true) || !saved.entity.RoomServiceE? then (s1, saved, res)
    else
      var (s2, done) := SaveItems(s1, saved, now);
      (s2, done, Ok(true))
  }

  /** The lines of a saved order saved in turn, the order keeping their new state. */
  function SaveItems(s: Store, order: Record, now: int): (r: (Store, Record))
    requires Complete(s) && order.entity.RoomServiceE?
    ensures Complete(r.0) && r.0.writable == s.writable
    ensures r.1.entity.RoomServiceE?
    ensures r.1 == order.(entity := RoomServiceE(order.entity.service.(items := r.1.entity.service.items)))
    ensures |r.1.entity.service.items| == |order.entity.service.items|
  {
    var rs := order.entity.service;
    var (s2, lines) := SaveLines(s, rs.items, ServiceId(rs, now), now);
    var done := order.(entity := RoomServiceE(rs.(items := lines)));
    (Sync(s2, done), done)
  }

  /** Saving a settled order's lines keeps a valid store valid. */
  lemma SaveItemsValid(s: Store, order: Record, now: int)
    requires Valid(s) && order.entity.RoomServiceE? && Settled(order.entity) && LinesHeld(s, order.entity.service.items)
    ensures Valid(SaveItems(s, order, now).0)
  {
    var rs := order.entity.service;
    SaveLinesValid(s, rs.items, ServiceId(rs, now), now);
    var (s2, lines) := SaveLines(s, rs.items, ServiceId(rs, now), now);
    SyncValid(s2, order.(entity := RoomServiceE(rs.(items := lines))));
  }

  /** After its lines are saved, each line of the order is tied to the order's id, which has not changed. */
  lemma SaveItemsLinked(s: Store, order: Record, now: int)
    requires Complete(s) && order.entity.RoomServiceE?
    requires forall i :: 0 <= i < |order.entity.service.items| ==> order.entity.service.items[i].entity.OrderItemE?
    ensures var done := SaveItems(s, order, now).1.entity.service;
      && ServiceId(done, now) == ServiceId(order.entity.service, now)
      && forall i :: 0 <= i < |done.items| ==>
           done.items[i].entity == OrderItemE(order.entity.service.items[i].entity.orderItem.(rsId := ServiceId(done, now)))
  {
    var rs := order.entity.service;
    SaveLinesLinked(s, rs.items, ServiceId(rs, now), now);
  }

  /** An order's validation leaves its lines holdable and its status alone. */
  lemma ServiceValidated(s: Store, rec: Record, now: int)
    requires Valid(s) && rec.entity.RoomServiceE? && LinesHeld(s, rec.entity.service.items)
    ensures var checked := MenuItems(s, rec, now).0;
      && LinesHeld(s, checked.entity.service.items)
      && checked.entity.service.status == rec.entity.service.status
  {
    if |rec.entity.service.items| == 0 {
      MenuItemsLoaded(s, rec, now);
      var items := MenuItems(s, rec, now).1.value;
      forall i | 0 <= i < |items| ensures items[i].entity.OrderItemE? && items[i].handle in Handles(s.tables[OrderItemKind]) {
        assert LineOf(items[i], s.tables[OrderItemKind], ServiceId(rec.entity.service, now));
        InHandles(s.tables[OrderItemKind], items[i]);
      }
    }
  }

  lemma InHandles(list: seq<Record>, rec: Record)
    requires rec in list
    ensures rec.handle in Handles(list)
  {
    var i :| 0 <= i < |list| && list[i] == rec;
    assert Handles(list)[i] == rec.handle;
  }

  /**
   * Saving an order on a valid store keeps it valid and confirms a new
   * order, leaving an existing order's status as set.  When the order is
   * saved, it has lines and each of them is tied
   * to the order's id; when it is not, no line is written.
   */
  lemma SaveServiceSpec(s: Store, rec: Record, now: int)
    requires Valid(s) && Held(s, rec) && rec.entity.RoomServiceE? && LinesHeld(s, rec.entity.service.items)
    ensures var (after, saved, res) := SaveService(s, rec, now);
      && Valid(after)
      && saved.entity.RoomServiceE?
      && saved.handle == rec.handle
      && (rec.isNew ==> saved.entity.service.status == OrderConfirmed)
      && (!rec.isNew ==> saved.entity.service.status == rec.entity.service.status)
      && (res == Ok(true) ==>
            && |saved.entity.service.items| > 0
            && forall i :: 0 <= i < |saved.entity.service.items| ==>
                 saved.entity.service.items[i].entity.OrderItemE? &&
                 saved.entity.service.items[i].entity.orderItem.rsId == ServiceId(saved.entity.service, now))
      && (res != Ok(true) ==> after.tables[OrderItemKind] == s.tables[OrderItemKind])
  {
    ServiceBaseSaved(s, rec, now);
    var (s1, saved, res) := BaseSave(s, Confirmed(rec), now);
    if res == Ok(true) {
      SaveItemsSpec(s1, saved, now);
    }
  }

  /** The second half of an order's save, once the order itself was written. */
  lemma SaveItemsSpec(s: Store, order: Record, now: int)
    requires Valid(s) && order.entity.RoomServiceE? && Settled(order.entity) && LinesHeld(s, order.entity.service.items)
    requires |order.entity.service.items| > 0
    ensures var (after, done) := SaveItems(s, order, now);
      && Valid(after)
      && done.entity.RoomServiceE?
      && done.entity.service.status == order.entity.service.status
      && |done.entity.service.items| > 0
      && forall i :: 0 <= i < |done.entity.service.items| ==>
           done.entity.service.items[i].entity.OrderItemE? &&
           done.entity.service.items[i].entity.orderItem.rsId == ServiceId(done.entity.service, now)
  {
    SaveItemsValid(s, order, now);
    SaveItemsLinked(s, order, now);
  }

  /** The first half of an order's save: the order itself, confirmed when new. */
  lemma ServiceBaseSaved(s: Store, rec: Record, now: int)
    requires Valid(s) && Held(s, rec) && rec.entity.RoomServiceE? && LinesHeld(s, rec.entity.service.items)
    ensures var (s1, saved, res) := BaseSave(s, Confirmed(rec), now);
      && Valid(s1)
      && s1.tables[OrderItemKind] == s.tables[OrderItemKind]
      && saved.entity.RoomServiceE?
      && (rec.isNew ==> saved.entity.service.status == OrderConfirmed)
      && (!rec.isNew ==> saved.entity.service.status == rec.entity.service.status)
      && (res == Ok(true) ==>
            Settled(saved.entity) && LinesHeld(s1, saved.entity.service.items) && |saved.entity.service.items| > 0)
  {
    var confirmed := Confirmed(rec);
    BaseSaveValid(s, confirmed, now);
    ServiceChecked(s, confirmed, now);
  }

  /** What the validation and the base save do to the order itself. */
  lemma ServiceChecked(s: Store, confirmed: Record, now: int)
    requires Valid(s) && Held(s, confirmed) && confirmed.entity.RoomServiceE? && LinesHeld(s, confirmed.entity.service.items)
    ensures var (s1, saved, res) := BaseSave(s, confirmed, now);
      && saved.entity.RoomServiceE?
      && saved.entity.service.status == confirmed.entity.service.status
      && (res == Ok(true) ==>
            Settled(saved.entity) && LinesHeld(s, saved.entity.service.items) && |saved.entity.service.items| > 0)
  {
    ServiceValidated(s, confirmed, now);
    var (checked, out) := ServiceCheck(s, confirmed, now);
    assert Held(s, checked) by {
      ValidateHeld(s, confirmed, now);
    }
    FinishOk(s, checked, out, now);
  }

  /** A save that answers yes had no problems, and the object comes back settled. */
  lemma FinishOk(s: Store, checked: Record, out: Result<seq<Problem>, Fault>, now: int)
    requires Valid(s) && Held(s, checked)
    ensures var (s1, saved, res) := Finish(s, checked, out, now);
      && Valid(s1)
      && (res == Ok(true) ==> out == Ok([]) && saved.entity == Settle(checked.entity, now))
  {
    FinishSpec(s, checked, out, now);
  }

  /** `save` on any object. */
  function Save(s: Store, rec: Record, now: int): (r: (Store, Record, Result<bool, Fault>))
    requires Complete(s)
    ensures Complete(r.0) && r.0.writable == s.writable
  {
    match rec.entity
    case ReservationE(_) => SaveReservation(s, rec, now)
    case RoomServiceE(_) => SaveService(s, rec, now)
    case _ => BaseSave(s, rec, now)
  }
}
