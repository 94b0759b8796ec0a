/**
 * The `validate` method of each entity (Guest.java, Room.java, MenuItem.java,
 * OrderMenuItem.java, Reservation.java, RoomService.java).  Each check that
 * fails adds one problem, in the order the source checks them.  A
 * validation that throws (a query on a key the type lacks, a reservation
 * whose room is not cached) is a fault.
 */
module Rules {
  import opened Options
  import opened Text
  import opened Config
  import opened Enums
  import opened Dates
  import opened Entities
  import opened Fields
  import opened EntityStore
  import Query

  datatype Problem =
    | IdTaken | BadGender | BadContact | BadCard
    | BadFloor | BadNumber | RoomIdTaken
    | NameTaken | BadPrice
    | BadQuantity
    | CheckInPassed | TooShort | RoomUnavailable
    | NoItems

  /**
   * An exception an operation raises: a query on a missing key, or a null
   * room or reservation dereferenced.
   */
  datatype Fault = QueryFault(error: Query.QueryError) | NoRoom | NoReservation

  /** The problem, when the condition does not hold. */
  function Check(ok: bool, p: Problem): (r: seq<Problem>)
    ensures p in r <==> !ok
    ensures |r| <= 1
  {
    if ok then [] else [p]
  }

  /** Two texts equal ignoring case, as the queries compare them. */
  predicate SameText(a: string, b: string) {
    Lower(a) == Lower(b)
  }

  // ---------------------------------------------------------------------------
  // Guest
  // ---------------------------------------------------------------------------

  function GuestProblems(s: Store, rec: Record, now: int): Result<seq<Problem>, Fault>
    requires Complete(s) && rec.entity.GuestE?
  {
    var g := rec.entity.guest;
    match CheckIdUnique(s, rec, "id", g.id, now)
    case Err(e) => Err(QueryFault(e))
    case Ok(unique) => Ok(GuestChecks(unique, g))
  }

  /** The guest's problems once it is known whether its id is its own. */
  function GuestChecks(unique: bool, g: Guest): (ps: seq<Problem>)
    ensures IdTaken in ps <==> !unique
    ensures BadGender in ps <==> !(g.gender == "M" || g.gender == "F")
    ensures BadContact in ps <==> Utf16Length(g.contact) != 8
    ensures BadCard in ps <==> Utf16Length(g.creditCard) != 16
    ensures ps == [] <==>
      unique && (g.gender == "M" || g.gender == "F") && Utf16Length(g.contact) == 8 && Utf16Length(g.creditCard) == 16
  {
    Check(unique, IdTaken) + Check(g.gender == "M" || g.gender == "F", BadGender)
      + Check(Utf16Length(g.contact) == 8, BadContact) + Check(Utf16Length(g.creditCard) == 16, BadCard)
  }

  /**
   * The contact length is counted in UTF-16 code units: eight characters the
   * last of which lies beyond U+FFFF are nine units, and the contact is refused.
   */
  lemma SupplementaryContactRefused(g: Guest)
    requires g.contact == "1234567\U{1F600}"
    ensures |g.contact| == 8
    ensures BadContact in GuestChecks(true, g)
  {
    assert g.contact[7] as int >= 0x1_0000;
    Utf16LengthBmp(g.contact);
    assert Utf16Length(g.contact) != 8;
  }

  /** No other cached object of the type has the text under the key. */
  predicate Unique(list: seq<Record>, rec: Record, key: string, text: string, now: int) {
    forall i :: 0 <= i < |list| && Matches(list[i], key, text, now) ==> list[i].handle == rec.handle
  }

  /** No other cached guest has the guest's id, ignoring case. */
  predicate GuestIdFree(guests: seq<Record>, rec: Record)
    requires rec.entity.GuestE?
  {
    forall i :: 0 <= i < |guests| && guests[i].entity.GuestE? && SameText(guests[i].entity.guest.id, rec.entity.guest.id)
      ==> guests[i].handle == rec.handle
  }

  lemma GuestsHaveIds(s: Store, now: int)
    requires Valid(s)
    ensures forall i :: 0 <= i < |s.tables[GuestKind]| ==>
      s.tables[GuestKind][i].entity.GuestE? &&
      FieldValue(s.tables[GuestKind][i].entity, "id", now) == Some(s.tables[GuestKind][i].entity.guest.id)
  {
    assert TableOk(GuestKind, s.tables[GuestKind], s.nextHandle);
    forall i | 0 <= i < |s.tables[GuestKind]|
      ensures FieldValue(s.tables[GuestKind][i].entity, "id", now) == Some(s.tables[GuestKind][i].entity.guest.id)
    {
      GuestQueriedFields(s.tables[GuestKind][i].entity.guest, now);
    }
  }

  /**
   * On a valid store a guest's validation always finishes, and each problem
   * is reported exactly when its rule is broken: the id is used by another
   * cached guest (ignoring case), the gender is not "M" or "F", the contact
   * number is not 8 UTF-16 code units long, the card number is not 16.
   */
  lemma GuestRules(s: Store, rec: Record, now: int)
    requires Valid(s) && rec.entity.GuestE?
    ensures GuestProblems(s, rec, now).Ok?
    ensures var ps := GuestProblems(s, rec, now).value;
      var g := rec.entity.guest;
      && (IdTaken in ps <==> !GuestIdFree(s.tables[GuestKind], rec))
      && (BadGender in ps <==> !(g.gender == "M" || g.gender == "F"))
      && (BadContact in ps <==> Utf16Length(g.contact) != 8)
      && (BadCard in ps <==> Utf16Length(g.creditCard) != 16)
      && (ps == [] <==> GuestIdFree(s.tables[GuestKind], rec) && (g.gender == "M" || g.gender == "F")
                         && Utf16Length(g.contact) == 8 && Utf16Length(g.creditCard) == 16)
  {
    GuestIdUnique(s, rec, now);
  }

  lemma GuestIdUnique(s: Store, rec: Record, now: int)
    requires Valid(s) && rec.entity.GuestE?
    ensures CheckIdUnique(s, rec, "id", rec.entity.guest.id, now) == Ok(GuestIdFree(s.tables[GuestKind], rec))
  {
    var guests := s.tables[GuestKind];
    GuestsHaveIds(s, now);
    CheckIdUniqueIff(s, rec, "id", rec.entity.guest.id, now);
    assert Unique(guests, rec, "id", rec.entity.guest.id, now) <==> GuestIdFree(guests, rec);
  }

  // ---------------------------------------------------------------------------
  // Room
  // ---------------------------------------------------------------------------

  function RoomProblems(s: Store, rec: Record, now: int): Result<seq<Problem>, Fault>
    requires Complete(s) && rec.entity.RoomE?
  {
    var r := rec.entity.room;
    var place := Check(2 <= r.floor <= 99, BadFloor) + Check(1 <= r.number <= 99, BadNumber);
    match CheckIdUnique(s, rec, "roomId", RoomId(r), now)
    case Err(e) => Err(QueryFault(e))
    case Ok(unique) => Ok(place + Check(unique, RoomIdTaken))
  }

  /** No other cached room has the room's id (floor and number), ignoring case. */
  predicate RoomIdFree(rooms: seq<Record>, rec: Record)
    requires rec.entity.RoomE?
  {
    forall i :: 0 <= i < |rooms| && rooms[i].entity.RoomE? && SameText(RoomId(rooms[i].entity.room), RoomId(rec.entity.room))
      ==> rooms[i].handle == rec.handle
  }

  lemma RoomsHaveIds(s: Store, now: int)
    requires Valid(s)
    ensures forall i :: 0 <= i < |s.tables[RoomKind]| ==>
      s.tables[RoomKind][i].entity.RoomE? &&
      FieldValue(s.tables[RoomKind][i].entity, "roomId", now) == Some(RoomId(s.tables[RoomKind][i].entity.room))
  {
    assert TableOk(RoomKind, s.tables[RoomKind], s.nextHandle);
    forall i | 0 <= i < |s.tables[RoomKind]|
      ensures FieldValue(s.tables[RoomKind][i].entity, "roomId", now) == Some(RoomId(s.tables[RoomKind][i].entity.room))
    {
      RoomQueriedFields(s.tables[RoomKind][i].entity.room, now);
    }
  }

  /**
   * On a valid store a room's validation always finishes; it reports the
   * floor outside 2..99, the number outside 1..99 and an id another cached
   * room has, each exactly when it happens.  A room that passes has a
   * four-character id that no other cached room shares.
   */
  lemma RoomRules(s: Store, rec: Record, now: int)
    requires Valid(s) && rec.entity.RoomE?
    ensures RoomProblems(s, rec, now).Ok?
    ensures var ps := RoomProblems(s, rec, now).value;
      var r := rec.entity.room;
      && (BadFloor in ps <==> !(2 <= r.floor <= 99))
      && (BadNumber in ps <==> !(1 <= r.number <= 99))
      && (RoomIdTaken in ps <==> !RoomIdFree(s.tables[RoomKind], rec))
      && (ps == [] <==> ValidPlace(r.floor, r.number) && RoomIdFree(s.tables[RoomKind], rec))
      && (ps == [] ==> |RoomId(r)| == 4)
  {
    var r := rec.entity.room;
    RoomIdUnique(s, rec, now);
    RoomProblemsGiven(s, rec, now, RoomIdFree(s.tables[RoomKind], rec));
    if ValidPlace(r.floor, r.number) {
      RoomIdInjective(r, r);
    }
  }

  /** What a room's validation reports, given the answer of its id query. */
  lemma RoomProblemsGiven(s: Store, rec: Record, now: int, free: bool)
    requires Complete(s) && rec.entity.RoomE? && CheckIdUnique(s, rec, "roomId", RoomId(rec.entity.room), now) == Ok(free)
    ensures RoomProblems(s, rec, now).Ok?
    ensures var ps := RoomProblems(s, rec, now).value;
      var r := rec.entity.room;
      && (BadFloor in ps <==> !(2 <= r.floor <= 99))
      && (BadNumber in ps <==> !(1 <= r.number <= 99))
      && (RoomIdTaken in ps <==> !free)
      && (ps == [] <==> ValidPlace(r.floor, r.number) && free)
  {
  }

  lemma RoomIdUnique(s: Store, rec: Record, now: int)
    requires Valid(s) && rec.entity.RoomE?
    ensures CheckIdUnique(s, rec, "roomId", RoomId(rec.entity.room), now) == Ok(RoomIdFree(s.tables[RoomKind], rec))
  {
    var rooms := s.tables[RoomKind];
    RoomsHaveIds(s, now);
    CheckIdUniqueIff(s, rec, "roomId", RoomId(rec.entity.room), now);
    assert Unique(rooms, rec, "roomId", RoomId(rec.entity.room), now) <==> RoomIdFree(rooms, rec);
  }

  // ---------------------------------------------------------------------------
  // Menu items and order lines
  // ---------------------------------------------------------------------------

  function MenuItemProblems(s: Store, rec: Record, now: int): Result<seq<Problem>, Fault>
    requires Complete(s) && rec.entity.MenuItemE?
  {
    var m := rec.entity.menuItem;
    match CheckIdUnique(s, rec, "name", m.name, now)
    case Err(e) => Err(QueryFault(e))
    case Ok(unique) => Ok(Check(unique, NameTaken) + Check(m.price > 0, BadPrice))
  }

  /** No other cached menu item has the item's name, ignoring case. */
  predicate NameFree(items: seq<Record>, rec: Record)
    requires rec.entity.MenuItemE?
  {
    forall i :: 0 <= i < |items| && items[i].entity.MenuItemE? && SameText(items[i].entity.menuItem.name, rec.entity.menuItem.name)
      ==> items[i].handle == rec.handle
  }

  /** On a valid store a menu item passes exactly when its name is its own (ignoring case) and its price is positive. */
  lemma MenuItemRules(s: Store, rec: Record, now: int)
    requires Valid(s) && rec.entity.MenuItemE?
    ensures MenuItemProblems(s, rec, now).Ok?
    ensures var ps := MenuItemProblems(s, rec, now).value;
      && (NameTaken in ps <==> !NameFree(s.tables[MenuItemKind], rec))
      && (BadPrice in ps <==> rec.entity.menuItem.price <= 0)
      && (ps == [] <==> NameFree(s.tables[MenuItemKind], rec) && rec.entity.menuItem.price > 0)
  {
    NameUnique(s, rec, now);
  }

  lemma NameUnique(s: Store, rec: Record, now: int)
    requires Valid(s) && rec.entity.MenuItemE?
    ensures CheckIdUnique(s, rec, "name", rec.entity.menuItem.name, now) == Ok(NameFree(s.tables[MenuItemKind], rec))
  {
    var items := s.tables[MenuItemKind];
    assert TableOk(MenuItemKind, items, s.nextHandle);
    forall i | 0 <= i < |items| ensures FieldValue(items[i].entity, "name", now) == Some(items[i].entity.menuItem.name) {
      MenuItemQueriedFields(items[i].entity.menuItem, now);
    }
    CheckIdUniqueIff(s, rec, "name", rec.entity.menuItem.name, now);
    assert Unique(items, rec, "name", rec.entity.menuItem.name, now) <==> NameFree(items, rec);
  }

  /** An order line passes exactly when its quantity is positive. */
  function OrderItemProblems(o: OrderItem): (ps: seq<Problem>)
    ensures ps == [] <==> o.qty > 0
    ensures ps != [] ==> ps == [BadQuantity]
  {
    Check(o.qty > 0, BadQuantity)
  }

  // ---------------------------------------------------------------------------
  // Reservation
  // ---------------------------------------------------------------------------

  /** `Reservation.getRoom`: the first cached room with the reservation's room id. */
  function RoomOf(s: Store, roomId: string, now: int): Option<Record>
    requires Complete(s)
  {
    Find(s, RoomKind, true, ["roomId", roomId], now)
  }

  /** `isCheckInDateValid`: a new reservation must start strictly after now; a saved one always may. */
  predicate CheckInDateValid(rec: Record, now: int)
    requires rec.entity.ReservationE?
  {
    rec.isNew ==> rec.entity.rsv.checkIn > now
  }

  function ReservationProblems(s: Store, rec: Record, now: int): Result<seq<Problem>, Fault>
    requires Complete(s) && rec.entity.ReservationE?
  {
    var r := rec.entity.rsv;
    var early := Check(CheckInDateValid(rec, now) || r.walkIn, CheckInPassed)
      + Check(TotalDays(r.checkIn, r.checkOut) >= 1, TooShort);
    match RoomOf(s, r.roomId, now)
    case None => Err(NoRoom)
    case Some(room) =>
      var taken := room.entity.RoomE? && room.entity.room.status != Vacant && rec.isNew;
      Ok(early + Check(!taken, RoomUnavailable))
  }

  /** The position of the first cached room whose id equals the text, ignoring case, or the list's length. */
  function RoomAt(rooms: seq<Record>, roomId: string): (j: nat)
    ensures j <= |rooms|
    ensures j < |rooms| ==> HasRoomId(rooms[j], roomId)
    decreases |rooms|
  {
    if |rooms| == 0 then 0
    else if HasRoomId(rooms[0], roomId) then 0
    else 1 + RoomAt(rooms[1..], roomId)
  }

  /** A room whose id equals the text, ignoring case. */
  predicate HasRoomId(rec: Record, roomId: string) {
    rec.entity.RoomE? && SameText(RoomId(rec.entity.room), roomId)
  }

  /** No room before the first one with the id has it. */
  lemma {:induction false} RoomAtFirst(rooms: seq<Record>, roomId: string)
    ensures forall i :: 0 <= i < RoomAt(rooms, roomId) ==> !HasRoomId(rooms[i], roomId)
    decreases |rooms|
  {
    if |rooms| > 0 && !HasRoomId(rooms[0], roomId) {
      RoomAtFirst(rooms[1..], roomId);
      forall i | 1 <= i < RoomAt(rooms, roomId) ensures !HasRoomId(rooms[i], roomId) {
        assert rooms[i] == rooms[1..][i - 1];
      }
    }
  }

  lemma {:induction false} FirstMatchRoom(rooms: seq<Record>, roomId: string, now: int)
    requires forall i :: 0 <= i < |rooms| ==>
      rooms[i].entity.RoomE? && FieldValue(rooms[i].entity, "roomId", now) == Some(RoomId(rooms[i].entity.room))
    ensures FirstMatch(rooms, "roomId", roomId, now) ==
      if RoomAt(rooms, roomId) < |rooms| then Some(rooms[RoomAt(rooms, roomId)]) else None
    decreases |rooms|
  {
    if |rooms| > 0 {
      FirstMatchRoom(rooms[1..], roomId, now);
    }
  }

  /** On a valid store the room a reservation refers to is the first cached room with its id. */
  lemma RoomOfFirst(s: Store, roomId: string, now: int)
    requires Valid(s)
    ensures var rooms := s.tables[RoomKind];
      RoomOf(s, roomId, now) == if RoomAt(rooms, roomId) < |rooms| then Some(rooms[RoomAt(rooms, roomId)]) else None
  {
    RoomsHaveIds(s, now);
    FindFirstMatch(s, RoomKind, "roomId", roomId, now);
    FirstMatchRoom(s.tables[RoomKind], roomId, now);
  }

  /**
   * On a valid store a reservation's validation fails only when its room is
   * not cached; otherwise it reports a new reservation starting no later
   * than now (unless a walk-in), a stay of less than one calendar day, and a
   * new reservation for a room that is not vacant, each exactly when it
   * happens.
   */
  lemma ReservationRules(s: Store, rec: Record, now: int)
    requires Valid(s) && rec.entity.ReservationE?
    ensures var r := rec.entity.rsv;
      ReservationProblems(s, rec, now).Ok? <==> RoomAt(s.tables[RoomKind], r.roomId) < |s.tables[RoomKind]|
    ensures var r := rec.entity.rsv;
      ReservationProblems(s, rec, now).Ok? ==>
      var ps := ReservationProblems(s, rec, now).value;
      var room := s.tables[RoomKind][RoomAt(s.tables[RoomKind], r.roomId)].entity.room;
      && (CheckInPassed in ps <==> rec.isNew && r.checkIn <= now && !r.walkIn)
      && (TooShort in ps <==> Day(r.checkOut) - Day(r.checkIn) < 1)
      && (RoomUnavailable in ps <==> rec.isNew && room.status != Vacant)
  {
    var rooms := s.tables[RoomKind];
    var j := RoomAt(rooms, rec.entity.rsv.roomId);
    RoomOfFirst(s, rec.entity.rsv.roomId, now);
    ProblemsGivenRoom(s, rec, now, if j < |rooms| then Some(rooms[j]) else None);
  }

  /** What a reservation's validation reports, given the room its query finds. */
  lemma ProblemsGivenRoom(s: Store, rec: Record, now: int, found: Option<Record>)
    requires Complete(s) && rec.entity.ReservationE? && RoomOf(s, rec.entity.rsv.roomId, now) == found
    requires found.Some? ==> found.value.entity.RoomE?
    ensures ReservationProblems(s, rec, now).Ok? <==> found.Some?
    ensures found.Some? ==>
      var r := rec.entity.rsv;
      var ps := ReservationProblems(s, rec, now).value;
      && (CheckInPassed in ps <==> rec.isNew && r.checkIn <= now && !r.walkIn)
      && (TooShort in ps <==> Day(r.checkOut) - Day(r.checkIn) < 1)
      && (RoomUnavailable in ps <==> rec.isNew && found.value.entity.room.status != Vacant)
  {
  }

  // ---------------------------------------------------------------------------
  // Room service
  // ---------------------------------------------------------------------------

  /**
   * `getMenuItems`: the order's lines in memory or, when there are none, the
   * cached lines whose order id equals this order's id (asking for the id
   * stamps the order's creation time); those lines are then kept in memory.
   */
  function MenuItems(s: Store, rec: Record, now: int): (r: (Record, Result<seq<Record>, Fault>))
    requires Complete(s) && rec.entity.RoomServiceE?
    ensures r.0.handle == rec.handle && r.0.isNew == rec.isNew && r.0.snapshot == rec.snapshot
    ensures r.0.entity.RoomServiceE?
  {
    var rs := rec.entity.service;
    if |rs.items| > 0 then (rec, Ok(rs.items))
    else
      var stamped := rs.(created := Some(Created(rs, now)));
      match FindAll(s, OrderItemKind, true, -1, ["rsId", ServiceId(rs, now)], now)
      case Ok(found) => (rec.(entity := RoomServiceE(stamped.(items := found))), Ok(found))
      case Err(e) => (rec.(entity := RoomServiceE(stamped)), Err(QueryFault(e)))
  }

  /** The cached order lines whose order id is the text, ignoring case. */
  predicate LineOf(o: Record, lines: seq<Record>, id: string) {
    o in lines && o.entity.OrderItemE? && SameText(o.entity.orderItem.rsId, id)
  }

  lemma LinesHaveOrderIds(s: Store, id: string, now: int)
    requires Valid(s)
    ensures FindAll(s, OrderItemKind, true, -1, ["rsId", id], now).Ok?
    ensures forall o :: o in FindAll(s, OrderItemKind, true, -1, ["rsId", id], now).value <==>
      LineOf(o, s.tables[OrderItemKind], id)
  {
    var lines := s.tables[OrderItemKind];
    assert TableOk(OrderItemKind, lines, s.nextHandle);
    forall i | 0 <= i < |lines| ensures FieldValue(lines[i].entity, "rsId", now) == Some(lines[i].entity.orderItem.rsId) {
      OrderItemQueriedFields(lines[i].entity.orderItem, now);
    }
    FindAllMatches(s, OrderItemKind, "rsId", id, now);
  }

  /**
   * An order without lines in memory takes, on a valid store, exactly the
   * cached lines whose order id is its id, ignoring case, and keeps them;
   * asking for the id fixes its creation time but not the id itself.  An
   * order with lines in memory is left as it is.
   */
  lemma MenuItemsLoaded(s: Store, rec: Record, now: int)
    requires Valid(s) && rec.entity.RoomServiceE?
    ensures MenuItems(s, rec, now).1.Ok?
    ensures var (after, items) := MenuItems(s, rec, now);
      && after.entity.service.items == items.value
      && ServiceId(after.entity.service, now) == ServiceId(rec.entity.service, now)
      && (|rec.entity.service.items| > 0 ==> after == rec)
      && (|rec.entity.service.items| == 0 ==>
            after.entity.service.created.Some? &&
            forall o :: o in items.value <==> LineOf(o, s.tables[OrderItemKind], ServiceId(rec.entity.service, now)))
  {
    if |rec.entity.service.items| == 0 {
      LinesHaveOrderIds(s, ServiceId(rec.entity.service, now), now);
    }
  }

  /** An order's validation: its lines as `getMenuItems` gives them, and no lines is a problem. */
  function ServiceCheck(s: Store, rec: Record, now: int): (r: (Record, Result<seq<Problem>, Fault>))
    requires Complete(s) && rec.entity.RoomServiceE?
    ensures r.0 == MenuItems(s, rec, now).0 && r.0.entity.RoomServiceE?
    ensures r.1 == Ok([]) ==> |r.0.entity.service.items| > 0
  {
    var (after, items) := MenuItems(s, rec, now);
    match items
    case Ok(lines) => (after, Ok(Check(|lines| > 0, NoItems)))
    case Err(f) => (after, Err(f))
  }

  /**
   * Any validation: the object afterwards (a guest with problems is
   * reverted to its snapshot, an order takes its lines) and its problems.
   */
  function Validate(s: Store, rec: Record, now: int): (r: (Record, Result<seq<Problem>, Fault>))
    requires Complete(s)
    ensures r.0.handle == rec.handle && r.0.isNew == rec.isNew && KindOf(r.0.entity) == KindOf(rec.entity)
    ensures rec.entity.RoomServiceE? ==> r == ServiceCheck(s, rec, now)
    ensures rec.entity.ReservationE? ==> r == (rec, ReservationProblems(s, rec, now))
  {
    match rec.entity
    case GuestE(_) =>
      (match GuestProblems(s, rec, now)
       case Ok(ps) => (if |ps| > 0 then Revert(rec) else rec, Ok(ps))
       case Err(f) => (rec, Err(f)))
    case RoomE(_) => (rec, RoomProblems(s, rec, now))
    case MenuItemE(_) => (rec, MenuItemProblems(s, rec, now))
    case OrderItemE(o) => (rec, Ok(OrderItemProblems(o)))
    case ReservationE(_) => (rec, ReservationProblems(s, rec, now))
    case RoomServiceE(_) => ServiceCheck(s, rec, now)
  }

  /**
   * A guest that breaks a rule goes back to its snapshot when it was saved
   * before (the only `validate` that calls the base one, which reverts).
   */
  lemma GuestRevertsOnProblems(s: Store, rec: Record, g: Guest, now: int)
    requires Valid(s) && rec.entity.GuestE? && !rec.isNew
    requires rec.snapshot == Some(ToFields(GuestE(g), now))
    ensures var (after, res) := Validate(s, rec, now);
      res.Ok? && after.entity == if res.value == [] then rec.entity else GuestE(g)
  {
    GuestRules(s, rec, now);
    RevertGuest(rec, g, now);
  }
}
