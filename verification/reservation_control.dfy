/**
 * The rules of ReservationControl: listing the confirmed reservations,
 * creating a reservation (walk-in or not), the searches that pick the
 * reservation to check in or out, and the check-out after payment.  Every
 * prompt becomes a parameter (the guest chosen, the room type, the form
 * filled in, the answers to confirmations); what the controller prints is
 * left out.
 */
module ReservationControl {
  import opened Options
  import opened Text
  import opened Config
  import opened Enums
  import opened Dates
  import opened Entities
  import opened Fields
  import opened EntityStore
  import opened Rules
  import opened Saving
  import opened Lifecycle
  import opened Payment
  import opened RoomControl
  import Report
  import Query

  // ---------------------------------------------------------------------------
  // printAllReservation
  // ---------------------------------------------------------------------------

  /**
   * `printAllReservation`, up to the menu: the expiry sweep, then the
   * confirmed reservations.  A fault of the sweep ends the operation.
   */
  function ListReservations(s: Store, now: int): (r: (Store, Result<seq<Record>, Fault>))
    requires Complete(s)
  {
    var (t, fault) := CheckExpired(s, now);
    if fault.Some? then (t, Err(fault.value))
    else
      match FindAll(t, ReservationKind, true, -1, ["reservationStatus", ReservationStatus.Confirmed.Name()], now)
      case Err(e) => (t, Err(QueryFault(e)))
      case Ok(found) => (t, Ok(found))
  }

  /** After the sweep no confirmed reservation is due. */
  lemma SweptNotDue(rsvs: seq<Record>, now: int)
    ensures var marked := Marked(rsvs, ExpiringHandles(rsvs, now));
      forall i :: 0 <= i < |marked| && marked[i].entity.ReservationE? && marked[i].entity.rsv.status == ReservationStatus.Confirmed ==>
        !Due(marked[i], now)
  {
    var hs := ExpiringHandles(rsvs, now);
    forall i | 0 <= i < |rsvs| && rsvs[i].handle !in hs
      ensures !Expiring(rsvs[i], now)
    {
    }
  }

  /**
   * Listing the reservations on a cache whose reservations and rooms are
   * saved: it fails exactly when the sweep raises; otherwise the sweep has
   * run as `checkExpiredReservations` promises, the list holds exactly the
   * confirmed reservations of the swept cache, and none of them is due.
   */
  lemma ListReservationsSpec(s: Store, now: int)
    requires Valid(s) && Settles(s)
    ensures var (after, listed) := ListReservations(s, now);
      var rsvs := s.tables[ReservationKind];
      var rooms := s.tables[RoomKind];
      && (listed.Ok? <==> ExpiringRoomed(rooms, rsvs, now))
      && (listed.Ok? ==>
            && after.tables == Swept(s, ExpiringHandles(rsvs, now), FreedBy(rooms, rsvs, now))
            && (forall rec :: rec in listed.value <==>
                  rec in after.tables[ReservationKind] && rec.entity.ReservationE? && rec.entity.rsv.status == ReservationStatus.Confirmed)
            && (forall rec :: rec in listed.value ==> !Due(rec, now)))
  {
    var rsvs := s.tables[ReservationKind];
    CheckExpiredSpec(s, now);
    var (t, fault) := CheckExpired(s, now);
    if fault.None? {
      ConfirmedFound(t, now);
      SweptNotDue(rsvs, now);
      var found := FindAll(t, ReservationKind, true, -1, ["reservationStatus", ReservationStatus.Confirmed.Name()], now).value;
      assert ListReservations(s, now) == (t, Ok(found));
      forall rec | rec in found ensures !Due(rec, now) {
        var marked := t.tables[ReservationKind];
        var i :| 0 <= i < |marked| && marked[i] == rec;
      }
    }
  }

  // ---------------------------------------------------------------------------
  // createReservation
  // ---------------------------------------------------------------------------

  /** The fields `processModel` lets the user fill in for a reservation. */
  datatype Form = Form(children: int, adults: int, checkIn: int, checkOut: int)

  /**
   * The reservation `createReservation` builds: linked to the guest and the
   * room, confirmed, with the form's values, except that a walk-in starts
   * now (as the form's date text keeps it, to the minute) and is flagged.
   */
  function Draft(guestId: string, room: Room, form: Form, walkIn: bool, now: int): Reservation {
    Reservation(None, ReservationStatus.Confirmed, form.children, form.adults,
      if walkIn then MinuteFloor(now) else form.checkIn, form.checkOut, guestId, RoomId(room), walkIn)
  }

  /** How `createReservation` ends. */
  datatype Booking =
    | Aborted(fault: Fault)          // an exception of the sweep or of a query
    | RoomsFull                      // no room is vacant
    | NoRoomOfType                   // no vacant room of the type chosen (the source asks again)
    | Declined                       // the user did not confirm the record
    | Booked(saved: Record, result: Result<bool, Fault>, checkIn: Option<Result<bool, Fault>>)

  /**
   * `createReservation(isWalkIn)` and then `createReservation(guest,
   * isWalkIn)`, for one choice of room type, one form and one answer to the
   * confirmation: the expiry sweep first, whose fault ends the operation.
   */
  function CreateReservation(s: Store, guestId: string, walkIn: bool, rt: RoomType, form: Form, confirm: bool, now: int)
    : (r: (Store, Booking))
    requires Complete(s)
  {
    var (t, fault) := CheckExpired(s, now);
    if fault.Some? then (t, Aborted(fault.value))
    else Reserve(t, guestId, walkIn, rt, form, confirm, now)
  }

  /**
   * `createReservation(guest, isWalkIn)`: stop when no room is vacant,
   * otherwise book the room `selectRoom` gives for the type chosen.
   */
  function Reserve(t: Store, guestId: string, walkIn: bool, rt: RoomType, form: Form, confirm: bool, now: int)
    : (r: (Store, Booking))
    requires Complete(t)
  {
    match FindAll(t, RoomKind, true, -1, ["status", Vacant.Name()], now)
    case Err(e) => (t, Aborted(QueryFault(e)))
    case Ok(vacant) =>
      if |vacant| == 0 then (t, RoomsFull)
      else
        match SelectRoom(t, rt, now)
        case Err(f) => (t, Aborted(f))
        case Ok(None) => (t, NoRoomOfType)
        case Ok(Some(room)) =>
          if !room.entity.RoomE? then (t, NoRoomOfType)
          else Book(t, guestId, room, form, walkIn, confirm, now)
  }

  /**
   * The reservation made for the room, then, when confirmed, saved; a
   * walk-in that saves is checked in at once.
   */
  function Book(t: Store, guestId: string, room: Record, form: Form, walkIn: bool, confirm: bool, now: int)
    : (r: (Store, Booking))
    requires Complete(t) && room.entity.RoomE?
  {
    var (t1, rec) := NewRecord(t, ReservationE(Draft(guestId, room.entity.room, form, walkIn, now)));
    if !confirm then (t1, Declined)
    else
      var (t2, saved, res) := SaveReservation(t1, rec, now);
      if res == Ok(true) && walkIn then
        var (t3, _, res2) := CheckIn(t2, saved, now);
        (t3, Booked(saved, res, Some(res2)))
      else (t2, Booked(saved, res, None))
  }

  /**
   * `createReservation` on a cache whose reservations and rooms are saved:
   * it is aborted exactly when the sweep raises, and otherwise goes on, on
   * the swept cache, as `Reserve` does.
   */
  lemma CreateReservationSpec(s: Store, guestId: string, walkIn: bool, rt: RoomType, form: Form, confirm: bool, now: int)
    requires Valid(s) && Settles(s)
    ensures var rsvs := s.tables[ReservationKind];
      var rooms := s.tables[RoomKind];
      var t := CheckExpired(s, now).0;
      var (after, b) := CreateReservation(s, guestId, walkIn, rt, form, confirm, now);
      && (b.Aborted? <==> !ExpiringRoomed(rooms, rsvs, now))
      && (ExpiringRoomed(rooms, rsvs, now) ==>
            && Valid(t) && Settles(t)
            && t.tables == Swept(s, ExpiringHandles(rsvs, now), FreedBy(rooms, rsvs, now))
            && (after, b) == Reserve(t, guestId, walkIn, rt, form, confirm, now))
  {
    var rsvs := s.tables[ReservationKind];
    var rooms := s.tables[RoomKind];
    CheckExpiredSpec(s, now);
    var (t, fault) := CheckExpired(s, now);
    if fault.None? {
      SweptSettles(s, t, ExpiringHandles(rsvs, now), FreedBy(rooms, rsvs, now));
      ReserveSpec(t, guestId, walkIn, rt, form, confirm, now);
    }
  }

  /**
   * `createReservation(guest, isWalkIn)` on a valid cache never raises: it
   * stops with nothing changed when no room is vacant, or when no vacant
   * room has the type chosen; otherwise it books the first vacant room of
   * that type, in cache order.
   */
  lemma ReserveSpec(t: Store, guestId: string, walkIn: bool, rt: RoomType, form: Form, confirm: bool, now: int)
    requires Valid(t)
    ensures var rooms := t.tables[RoomKind];
      var j := FirstFree(rooms, rt);
      var (after, b) := Reserve(t, guestId, walkIn, rt, form, confirm, now);
      && !b.Aborted?
      && (b.RoomsFull? <==> !AnyVacant(rooms))
      && (b.NoRoomOfType? <==> AnyVacant(rooms) && j == |rooms|)
      && (b.RoomsFull? || b.NoRoomOfType? ==> after == t)
      && (!b.RoomsFull? && !b.NoRoomOfType? ==> j < |rooms| && (after, b) == Book(t, guestId, rooms[j], form, walkIn, confirm, now))
  {
    var rooms := t.tables[RoomKind];
    var j := FirstFree(rooms, rt);
    var r := Reserve(t, guestId, walkIn, rt, form, confirm, now);
    Report.RoomsWithStatus(t, Vacant, now);
    VacantNone(rooms);
    if !AnyVacant(rooms) {
      assert r == (t, RoomsFull);
    } else {
      SelectRoomSpec(t, rt, now);
      if j < |rooms| {
        assert r == Book(t, guestId, rooms[j], form, walkIn, confirm, now);
        BookNeverAborts(t, guestId, rooms[j], form, walkIn, confirm, now);
      } else {
        assert r == (t, NoRoomOfType);
      }
    }
  }

  /** Some room of the list is vacant. */
  predicate AnyVacant(rooms: seq<Record>) {
    exists i :: 0 <= i < |rooms| && Report.HasStatus(rooms[i], Vacant)
  }

  /** No room of the list is vacant exactly when the vacant ones form an empty list. */
  lemma VacantNone(rooms: seq<Record>)
    ensures |Report.StatusIs(rooms, Vacant)| == 0 <==> !AnyVacant(rooms)
  {
    var vacant := Report.StatusIs(rooms, Vacant);
    if |vacant| > 0 {
      assert vacant[0] in vacant;
    }
    if AnyVacant(rooms) {
      var i :| 0 <= i < |rooms| && Report.HasStatus(rooms[i], Vacant);
      assert rooms[i] in rooms;
    }
  }

  /** Booking never raises. */
  lemma BookNeverAborts(t: Store, guestId: string, room: Record, form: Form, walkIn: bool, confirm: bool, now: int)
    requires Complete(t) && room.entity.RoomE?
    ensures var b := Book(t, guestId, room, form, walkIn, confirm, now).1;
      b.Declined? || b.Booked?
  {
  }

  /**
   * Saving a new reservation on a valid store: it is saved exactly when it
   * starts after now (or is a walk-in), lasts at least a calendar day, the
   * first room with its room id is vacant, and the reservations file can be
   * written.
   */
  lemma NewReservationSaves(s: Store, rec: Record, now: int)
    requires Valid(s) && rec.isNew && rec.entity.ReservationE? && Held(s, rec)
    requires RoomAt(s.tables[RoomKind], rec.entity.rsv.roomId) < |s.tables[RoomKind]|
    ensures var r := rec.entity.rsv;
      var room := s.tables[RoomKind][RoomAt(s.tables[RoomKind], r.roomId)].entity.room;
      SaveReservation(s, rec, now).2 ==
        Ok((r.walkIn || r.checkIn > now) && Day(r.checkOut) - Day(r.checkIn) >= 1 && room.status == Vacant
           && ReservationKind in s.writable)
  {
    NoProblems(s, rec, now);
    SaveAnswerOfProblems(s, rec, now);
  }

  /** A new reservation whose room is cached has no problem exactly when it breaks none of the three rules. */
  lemma NoProblems(s: Store, rec: Record, now: int)
    requires Valid(s) && rec.isNew && rec.entity.ReservationE?
    requires RoomAt(s.tables[RoomKind], rec.entity.rsv.roomId) < |s.tables[RoomKind]|
    ensures var r := rec.entity.rsv;
      var room := s.tables[RoomKind][RoomAt(s.tables[RoomKind], r.roomId)].entity.room;
      && ReservationProblems(s, rec, now).Ok?
      && (ReservationProblems(s, rec, now).value == [] <==>
            (r.walkIn || r.checkIn > now) && Day(r.checkOut) - Day(r.checkIn) >= 1 && room.status == Vacant)
  {
    ReservationRules(s, rec, now);
    var ps := ReservationProblems(s, rec, now).value;
    assert ps == [] <==> CheckInPassed !in ps && TooShort !in ps && RoomUnavailable !in ps;
  }

  /** The chosen room is found again by its own id. */
  lemma RoomAtOwnId(rooms: seq<Record>, k: nat)
    requires k < |rooms| && rooms[k].entity.RoomE?
    ensures RoomAt(rooms, RoomId(rooms[k].entity.room)) <= k
  {
    RoomAtFirst(rooms, RoomId(rooms[k].entity.room));
  }

  /**
   * Booking a listed room on a cache whose reservations and rooms are saved:
   * declining changes no list; confirming saves a new reservation linked to
   * the guest and the room, confirmed, with the form's values (a walk-in
   * starting now); it is saved exactly when it passes its rules and the file
   * can be written; only then, and only for a walk-in, is the check-in tried;
   * and a reservation that is saved and not a walk-in leaves its room
   * reserved wherever that room is listed.
   */
  lemma BookSpec(t: Store, guestId: string, k: nat, form: Form, walkIn: bool, confirm: bool, now: int)
    requires Valid(t) && Settles(t) && k < |t.tables[RoomKind]| && t.tables[RoomKind][k].entity.RoomE?
    ensures var rooms := t.tables[RoomKind];
      var draft := Draft(guestId, rooms[k].entity.room, form, walkIn, now);
      var jr := RoomAt(rooms, draft.roomId);
      var (after, b) := Book(t, guestId, rooms[k], form, walkIn, confirm, now);
      && jr <= k
      && (b.Declined? <==> !confirm)
      && (!confirm ==> after.tables == t.tables)
      && (confirm ==>
            b.Booked? && b.saved.handle == t.nextHandle && b.saved.entity.ReservationE?
            && b.saved.entity.rsv.(code := None) == draft)
      && (b.Booked? ==>
            && b.result == Ok((walkIn || draft.checkIn > now) && Day(draft.checkOut) - Day(draft.checkIn) >= 1
                              && rooms[jr].entity.room.status == Vacant && ReservationKind in t.writable)
            && (b.checkIn.Some? <==> walkIn && b.result == Ok(true)))
      && (b.Booked? && b.result == Ok(true) && !walkIn ==>
            forall i :: 0 <= i < |after.tables[RoomKind]| && after.tables[RoomKind][i].handle == rooms[jr].handle ==>
              after.tables[RoomKind][i].entity == RoomE(rooms[jr].entity.room.(status := Reserved)))
  {
    var rooms := t.tables[RoomKind];
    RoomAtOwnId(rooms, k);
    var draft := Draft(guestId, rooms[k].entity.room, form, walkIn, now);
    var (t1, rec) := NewRecord(t, ReservationE(draft));
    if confirm {
      assert Held(t1, rec);
      SavedFields(t1, rec, now);
      NewReservationSaves(t1, rec, now);
      SaveReservationReserves(t1, rec, now);
      RoomOfFirst(t1, draft.roomId, now);
    }
  }

  // ---------------------------------------------------------------------------
  // Check-in and check-out searches
  // ---------------------------------------------------------------------------

  /** The two operations that start from a search for a reservation. */
  datatype Step = CheckInStep | CheckOutStep

  /** The status a reservation must have to be offered: confirmed to check in, checked in to check out. */
  function From(step: Step): ReservationStatus {
    match step
    case CheckInStep => ReservationStatus.Confirmed
    case CheckOutStep => CheckedIn
  }

  /** A reservation in the state the step starts from. */
  predicate Offered(rec: Record, step: Step) {
    rec.entity.ReservationE? && rec.entity.rsv.status == From(step)
  }

  /** `checkInGuestSearch` / `checkOutGuestSearch` once the guest is chosen: the guest's reservations in the step's state. */
  function GuestCandidates(s: Store, step: Step, guestId: string, now: int): Result<seq<Record>, Fault>
    requires Complete(s)
  {
    match FindAll(s, ReservationKind, true, -1, ["guestId", guestId, "reservationStatus", From(step).Name()], now)
    case Err(e) => Err(QueryFault(e))
    case Ok(found) => Ok(found)
  }

  /**
   * `checkInRoomSearch` / `checkOutRoomSearch`: the room found by the id
   * typed, then the first reservation of that room in the step's state.
   */
  function RoomCandidate(s: Store, step: Step, roomId: string, now: int): Option<Record>
    requires Complete(s)
  {
    match SearchRoom(s, roomId, now)
    case None => None
    case Some(room) =>
      if !room.entity.RoomE? then None
      else Find(s, ReservationKind, true, ["roomId", RoomId(room.entity.room), "reservationStatus", From(step).Name()], now)
  }

  /**
   * `search(rStatus)` behind `checkInReservationCode` / `checkOutRsvSearch`:
   * a partial match, so the code typed need only occur in the reservation's
   * code (and the status name in its status).
   */
  function CodeCandidates(s: Store, step: Step, code: string, now: int): Result<seq<Record>, Fault>
    requires Complete(s)
  {
    match FindAll(s, ReservationKind, false, -1, ["reservationCode", code, "reservationStatus", From(step).Name()], now)
    case Err(e) => Err(QueryFault(e))
    case Ok(found) => Ok(found)
  }

  /** The reservation's field under a key equals the text, ignoring case, and it is in the step's state. */
  lemma OfferedMatches(rec: Record, step: Step, key: string, text: string, value: string, now: int)
    requires rec.entity.ReservationE? && FieldValue(rec.entity, key, now) == Some(value)
    ensures FieldValue(rec.entity, key, now).Some? && FieldValue(rec.entity, "reservationStatus", now).Some?
    ensures MatchesBoth(rec, key, text, "reservationStatus", From(step).Name(), now) <==> SameText(value, text) && Offered(rec, step)
  {
    ReservationQueriedFields(rec.entity.rsv, now);
    NamesCaseless();
  }

  /**
   * On a valid store the guest search never fails and offers exactly the
   * cached reservations whose guest id equals the guest's, ignoring case, and
   * that are in the step's state, in cache order.
   */
  lemma GuestCandidatesSpec(s: Store, step: Step, guestId: string, now: int)
    requires Valid(s)
    ensures GuestCandidates(s, step, guestId, now).Ok?
    ensures forall rec :: rec in GuestCandidates(s, step, guestId, now).value <==>
      rec in s.tables[ReservationKind] && Offered(rec, step) && SameText(rec.entity.rsv.guestId, guestId)
  {
    var rsvs := s.tables[ReservationKind];
    var st := From(step).Name();
    assert TableOk(ReservationKind, rsvs, s.nextHandle);
    forall i | 0 <= i < |rsvs|
      ensures FieldValue(rsvs[i].entity, "guestId", now).Some? && FieldValue(rsvs[i].entity, "reservationStatus", now).Some?
      ensures MatchesBoth(rsvs[i], "guestId", guestId, "reservationStatus", st, now) <==>
        SameText(rsvs[i].entity.rsv.guestId, guestId) && Offered(rsvs[i], step)
    {
      ReservationQueriedFields(rsvs[i].entity.rsv, now);
      OfferedMatches(rsvs[i], step, "guestId", guestId, rsvs[i].entity.rsv.guestId, now);
    }
    FindAllBoth(s, ReservationKind, "guestId", guestId, "reservationStatus", st, now);
    SelectedBothIn(rsvs, "guestId", guestId, "reservationStatus", st, now);
  }

  /** The records of the two-pair filter are those of the list that pass both pairs. */
  lemma {:induction false} SelectedBothIn(list: seq<Record>, k1: string, t1: string, k2: string, t2: string, now: int)
    ensures forall rec :: rec in SelectedBoth(list, k1, t1, k2, t2, now) <==> rec in list && MatchesBoth(rec, k1, t1, k2, t2, now)
    decreases |list|
  {
    if |list| > 0 {
      SelectedBothIn(list[1..], k1, t1, k2, t2, now);
      assert list == [list[0]] + list[1..];
    }
  }

  /**
   * On a valid store the room search offers nothing when no cached room has
   * the id typed; otherwise, for the first such room, it offers the first
   * cached reservation whose room id equals that room's, ignoring case, and
   * that is in the step's state, and nothing when there is none.
   */
  lemma RoomCandidateSpec(s: Store, step: Step, roomId: string, now: int)
    requires Valid(s)
    ensures var rooms := s.tables[RoomKind];
      var rsvs := s.tables[ReservationKind];
      var j := RoomAt(rooms, roomId);
      var r := RoomCandidate(s, step, roomId, now);
      && (j == |rooms| ==> r.None?)
      && (j < |rooms| ==>
            var id := RoomId(rooms[j].entity.room);
            && (r.None? <==> forall i :: 0 <= i < |rsvs| ==> !(Offered(rsvs[i], step) && SameText(rsvs[i].entity.rsv.roomId, id)))
            && (r.Some? ==> exists k :: (0 <= k < |rsvs| && rsvs[k] == r.value && Offered(rsvs[k], step)
                  && SameText(rsvs[k].entity.rsv.roomId, id)
                  && forall i :: 0 <= i < k ==> !(Offered(rsvs[i], step) && SameText(rsvs[i].entity.rsv.roomId, id)))))
  {
    var rooms := s.tables[RoomKind];
    var j := RoomAt(rooms, roomId);
    RoomOfFirst(s, roomId, now);
    if j < |rooms| {
      var id := RoomId(rooms[j].entity.room);
      assert SearchRoom(s, roomId, now) == Some(rooms[j]);
      assert RoomCandidate(s, step, roomId, now) ==
        Find(s, ReservationKind, true, ["roomId", id, "reservationStatus", From(step).Name()], now);
      RoomFirstOffered(s, step, id, now);
    }
  }

  /** The first reservation of a room in the step's state, as `find` gives it. */
  lemma RoomFirstOffered(s: Store, step: Step, id: string, now: int)
    requires Valid(s)
    ensures var rsvs := s.tables[ReservationKind];
      var r := Find(s, ReservationKind, true, ["roomId", id, "reservationStatus", From(step).Name()], now);
      && (r.None? <==> forall i :: 0 <= i < |rsvs| ==> !(Offered(rsvs[i], step) && SameText(rsvs[i].entity.rsv.roomId, id)))
      && (r.Some? ==> exists k :: (0 <= k < |rsvs| && rsvs[k] == r.value && Offered(rsvs[k], step)
            && SameText(rsvs[k].entity.rsv.roomId, id)
            && forall i :: 0 <= i < k ==> !(Offered(rsvs[i], step) && SameText(rsvs[i].entity.rsv.roomId, id))))
  {
    var rsvs := s.tables[ReservationKind];
    var st := From(step).Name();
    assert TableOk(ReservationKind, rsvs, s.nextHandle);
    forall i | 0 <= i < |rsvs|
      ensures FieldValue(rsvs[i].entity, "roomId", now).Some? && FieldValue(rsvs[i].entity, "reservationStatus", now).Some?
      ensures MatchesBoth(rsvs[i], "roomId", id, "reservationStatus", st, now) <==>
        Offered(rsvs[i], step) && SameText(rsvs[i].entity.rsv.roomId, id)
    {
      ReservationQueriedFields(rsvs[i].entity.rsv, now);
      OfferedMatches(rsvs[i], step, "roomId", id, rsvs[i].entity.rsv.roomId, now);
    }
    FindBoth(s, ReservationKind, "roomId", id, "reservationStatus", st, now);
    SelectedBothNone(rsvs, "roomId", id, "reservationStatus", st, now);
    var both := SelectedBoth(rsvs, "roomId", id, "reservationStatus", st, now);
    if |both| > 0 {
      SelectedBothHead(rsvs, "roomId", id, "reservationStatus", st, now);
    }
  }

  /** Under a partial match a reservation's status passes for exactly its own name. */
  lemma StatusPartial(a: ReservationStatus, b: ReservationStatus)
    ensures Query.FieldMatches(a.Name(), b.Name(), false) <==> a == b
  {
    ReservationStatusNamesContain(a, b);
    NamesCaseless();
  }

  /** Under a partial match a value passes exactly when it contains the text, ignoring case. */
  lemma PartialContains(value: string, text: string)
    ensures Query.FieldMatches(value, text, false) <==> Contains(Lower(value), Lower(text))
  {
    if Lower(value) == Lower(text) {
      ContainsSelf(Lower(value));
    }
  }

  /** The row of a reservation passes both pairs of the code search exactly when its code contains the text and it is in the step's state. */
  lemma CodeRowSelects(rec: Record, step: Step, code: string, now: int)
    requires rec.entity.ReservationE?
    ensures var row := Query.Row(rec, ToFields(rec.entity, now));
      var args := ["reservationCode", code, "reservationStatus", From(step).Name()];
      && Query.HasAll(row, args)
      && (Query.SelectsAll(row, args, false) <==>
            Offered(rec, step) && Contains(Lower(ReservationCode(rec.entity.rsv, now)), Lower(code)))
  {
    Query.TwoPairs(Query.Row(rec, ToFields(rec.entity, now)), "reservationCode", code, "reservationStatus", From(step).Name(), false);
    ReservationQueriedFields(rec.entity.rsv, now);
    StatusPartial(rec.entity.rsv.status, From(step));
    PartialContains(ReservationCode(rec.entity.rsv, now), code);
  }

  /**
   * On a valid store the code search never fails and offers exactly the
   * cached reservations in the step's state whose code contains the text
   * typed, ignoring case (an empty text offers them all).
   */
  lemma CodeCandidatesSpec(s: Store, step: Step, code: string, now: int)
    requires Valid(s)
    ensures CodeCandidates(s, step, code, now).Ok?
    ensures forall rec :: rec in CodeCandidates(s, step, code, now).value <==>
      rec in s.tables[ReservationKind] && Offered(rec, step) && Contains(Lower(ReservationCode(rec.entity.rsv, now)), Lower(code))
  {
    var rsvs := s.tables[ReservationKind];
    var args := ["reservationCode", code, "reservationStatus", From(step).Name()];
    assert TableOk(ReservationKind, rsvs, s.nextHandle);
    forall i | 0 <= i < |rsvs| ensures Query.HasAll(Query.Row(rsvs[i], ToFields(rsvs[i].entity, now)), args) {
      CodeRowSelects(rsvs[i], step, code, now);
    }
    FindAllPassing(s, ReservationKind, false, args, now);
    forall rec | rec in rsvs
      ensures Query.SelectsAll(Query.Row(rec, ToFields(rec.entity, now)), args, false) <==>
        Offered(rec, step) && Contains(Lower(ReservationCode(rec.entity.rsv, now)), Lower(code))
    {
      CodeRowSelects(rec, step, code, now);
    }
  }

  // ---------------------------------------------------------------------------
  // processCheckOut
  // ---------------------------------------------------------------------------

  /**
   * `processCheckOut`: the payment is shown, and the check-out is tried only
   * when the user confirms it is paid.  The parts are the store, the bill
   * (or the exception computing it raised) and the check-out's outcome, or
   * nothing when it was not tried.
   */
  function ProcessCheckOut(s: Store, rec: Record, paid: bool, now: int): (r: (Store, Result<Bill, Fault>, Option<Result<bool, Fault>>))
    requires Complete(s) && rec.entity.ReservationE?
    ensures r.2.None? ==> r.0 == s
  {
    match PaymentOf(s, rec.entity.rsv, now)
    case Err(f) => (s, Err(f), None)
    case Ok(bill) =>
      if !paid then (s, Ok(bill), None)
      else
        var (t, _, res) := CheckOut(s, rec, now);
        (t, Ok(bill), Some(res))
  }

  /**
   * `processCheckOut` for a cached reservation on a cache whose reservations
   * and rooms are saved: the bill exists exactly when a cached room has the
   * reservation's room id, and charges that room night by night; the
   * check-out is tried exactly when the bill exists and is paid, and nothing
   * changes otherwise; a checked-in reservation is then checked out with its
   * room vacant, and any other is refused with nothing changed.
   */
  lemma ProcessCheckOutSpec(s: Store, rec: Record, paid: bool, now: int)
    requires Valid(s) && Settles(s) && rec in s.tables[ReservationKind] && rec.entity.ReservationE?
    ensures var rooms := s.tables[RoomKind];
      var r := rec.entity.rsv;
      var j := RoomAt(rooms, r.roomId);
      var (after, bill, res) := ProcessCheckOut(s, rec, paid, now);
      && (bill.Ok? <==> j < |rooms|)
      && (bill.Ok? ==> bill.value.roomTotal == RoomTotal(rooms[j].entity.room, r.checkIn, r.checkOut))
      && (res.Some? <==> paid && j < |rooms|)
      && (res.None? ==> after == s)
      && (res.Some? && r.status == CheckedIn ==>
            res.value == Ok(true) && Valid(after)
            && after.tables == Moved(s, WithState(rec, CheckedOut), WithStatus(rooms[j], Vacant)))
      && (res.Some? && r.status != CheckedIn ==> res.value == Ok(false) && after == s)
  {
    PaymentOfSpec(s, rec.entity.rsv, now);
    CheckOutSpec(s, rec, now);
  }
}
