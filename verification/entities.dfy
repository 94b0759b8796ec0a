/**
 * The entities of the hotel system and the bookkeeping every cached object
 * carries (Entity.java): whether it is still a new record and the field map it
 * had when it was last loaded or saved.  Object identity, which the source
 * relies on for `delete` and `checkIdUnique`, is a handle.
 */
module Entities {
  import opened Options
  import opened Config
  import opened Enums
  import opened Codec
  import opened Dates
  import opened FlatFile

  datatype Guest = Guest(
    id: string, idType: IdType, name: string, address: string, country: string,
    gender: string, nationality: string, contact: string, creditCard: string)

  /** Rates are held in cents. */
  datatype Room = Room(
    roomType: RoomType, rate: int, weekendRate: int, floor: int, number: int,
    wifi: bool, smoking: bool, bed: BedType, facing: Facing, status: RoomStatus)

  /**
   * The reservation code is generated on first use (`None` until then).  The
   * guest and room are held by their ids; `walkIn` lives only in memory.
   */
  datatype Reservation = Reservation(
    code: Option<string>, status: ReservationStatus, children: int, adults: int,
    checkIn: int, checkOut: int, guestId: string, roomId: string, walkIn: bool)

  /** The price is held in cents. */
  datatype MenuItem = MenuItem(name: string, description: string, prepSteps: string, price: int)

  /** One line of an order: a copy of a menu item's name and price, the owning order's id and a quantity. */
  datatype OrderItem = OrderItem(name: string, price: int, rsId: string, qty: int)

  /**
   * A room-service order.  `created` is stamped on first use; `roomId` is the
   * room of the order's reservation, which the order's id ends with; `items`
   * is the in-memory list of order lines (empty for an order just loaded).
   */
  datatype RoomService = RoomService(
    remarks: string, status: OrderStatus, created: Option<int>,
    reservationId: string, roomId: string, items: seq<Record>)

  datatype Entity =
    | GuestE(guest: Guest)
    | RoomE(room: Room)
    | ReservationE(rsv: Reservation)
    | MenuItemE(menuItem: MenuItem)
    | OrderItemE(orderItem: OrderItem)
    | RoomServiceE(service: RoomService)

  /**
   * A live object: its identity, its state, whether it is still a new record,
   * and the field map saved by the last `setNewRecord(false)`.
   */
  datatype Record = Record(handle: nat, entity: Entity, isNew: bool, snapshot: Option<FieldMap>)

  function KindOf(e: Entity): Kind {
    match e
    case GuestE(_) => GuestKind
    case RoomE(_) => RoomKind
    case ReservationE(_) => ReservationKind
    case MenuItemE(_) => MenuItemKind
    case OrderItemE(_) => OrderItemKind
    case RoomServiceE(_) => RoomServiceKind
  }

  /** `getRoomId`: the floor and the room number, each zero-padded to two digits. */
  function RoomId(r: Room): string {
    Pad2(r.floor) + Pad2(r.number)
  }

  /** The floors and numbers the room validation accepts. */
  predicate ValidPlace(floor: int, number: int) {
    2 <= floor <= 99 && 1 <= number <= 99
  }

  /** Valid rooms have four-character ids, and two valid rooms share an id only when they share floor and number. */
  lemma RoomIdInjective(a: Room, b: Room)
    requires ValidPlace(a.floor, a.number) && ValidPlace(b.floor, b.number)
    ensures |RoomId(a)| == 4
    ensures RoomId(a) == RoomId(b) <==> a.floor == b.floor && a.number == b.number
  {
    if RoomId(a) == RoomId(b) {
      assert RoomId(a)[0] == RoomId(b)[0] && RoomId(a)[1] == RoomId(b)[1];
      assert RoomId(a)[2] == RoomId(b)[2] && RoomId(a)[3] == RoomId(b)[3];
    }
  }

  /** `getReservationCode`: the stored code, or one made now from the time and the guest's id. */
  function ReservationCode(r: Reservation, now: int): string {
    match r.code
    case Some(c) => c
    case None => DateText(now) + "-" + r.guestId
  }

  /**
   * The code `generateReservationCode` writes with the pattern "yyyyMMdd-Hm":
   * the date, then the hour and the minute without padding, then the guest's
   * id.  The calendar date is the day number here.
   */
  function CodeAsWritten(guestId: string, now: int): string {
    IntText(Day(now)) + "-" + NatText(TimeOfDay(now) / HourMs) + NatText(TimeOfDay(now) / MinuteMs % 60)
      + "-" + guestId
  }

  /**
   * The unpadded hour and minute run together: 01:10 and 11:00 of the same
   * day give one guest the same code, although the two instants lie in
   * different minutes.
   */
  lemma CodeAsWrittenCollides(guestId: string)
    ensures CodeAsWritten(guestId, 70 * MinuteMs) == CodeAsWritten(guestId, 660 * MinuteMs)
    ensures MinuteFloor(70 * MinuteMs) != MinuteFloor(660 * MinuteMs)
  {
    var early, late := 70 * MinuteMs, 660 * MinuteMs;
    assert Day(early) == 0 && TimeOfDay(early) / HourMs == 1 && TimeOfDay(early) / MinuteMs % 60 == 10;
    assert Day(late) == 0 && TimeOfDay(late) / HourMs == 11 && TimeOfDay(late) / MinuteMs % 60 == 0;
    assert NatText(1) + NatText(10) == "110" == NatText(11) + NatText(0);
  }

  /**
   * The model's code tells minutes apart: two codes made for the same guest
   * are equal exactly when they were made in the same minute.
   */
  lemma CodeIdentifiesMinute(a: Reservation, b: Reservation, t1: int, t2: int)
    requires a.code.None? && b.code.None? && a.guestId == b.guestId
    ensures ReservationCode(a, t1) == ReservationCode(b, t2) <==> MinuteFloor(t1) == MinuteFloor(t2)
  {
    var x, y := DateText(t1), DateText(t2);
    if ReservationCode(a, t1) == ReservationCode(b, t2) {
      assert |x| == |y|;
      assert x == (x + "-" + a.guestId)[..|x|] == (y + "-" + b.guestId)[..|y|] == y;
      DateRoundTrip(t1);
      DateRoundTrip(t2);
    }
    if MinuteFloor(t1) == MinuteFloor(t2) {
      assert t1 / MinuteMs == t2 / MinuteMs;
    }
  }

  /** `getCreated`: the stored stamp, or now. */
  function Created(rs: RoomService, now: int): int {
    rs.created.GetOr(now)
  }

  /** `RoomService.getId`: the creation stamp and the room of the order's reservation. */
  function ServiceId(rs: RoomService, now: int): string {
    DateText(Created(rs, now)) + "-" + rs.roomId
  }

  /** Every value that is produced on first use has been produced. */
  predicate Settled(e: Entity) {
    match e
    case ReservationE(r) => r.code.Some?
    case RoomServiceE(rs) => rs.created.Some?
    case _ => true
  }

  /** Produce the values made on first use, as `toHashMap` does by asking for them. */
  function Settle(e: Entity, now: int): (r: Entity)
    ensures Settled(r) && KindOf(r) == KindOf(e)
    ensures Settled(e) ==> r == e
    ensures e.ReservationE? ==> r.rsv.code == Some(ReservationCode(e.rsv, now))
    ensures e.RoomServiceE? ==> r.service.created == Some(Created(e.service, now))
    ensures e.RoomServiceE? ==> r.service.(created := e.service.created) == e.service
  {
    match e
    case ReservationE(rsv) => ReservationE(rsv.(code := Some(ReservationCode(rsv, now))))
    case RoomServiceE(rs) => RoomServiceE(rs.(created := Some(Created(rs, now))))
    case _ => e
  }

  /** Settling keeps the code and the order id that reading them would give now. */
  lemma SettleKeepsIds(e: Entity, now: int, later: int)
    ensures e.ReservationE? ==> ReservationCode(Settle(e, now).rsv, later) == ReservationCode(e.rsv, now)
    ensures e.RoomServiceE? ==> ServiceId(Settle(e, now).service, later) == ServiceId(e.service, now)
  {
  }

  /**
   * The part of an entity its data file keeps: instants cut to the minute and
   * the in-memory parts (walk-in flag, order lines, resolved room) cleared.
   */
  function Stored(e: Entity): Entity {
    match e
    case ReservationE(r) =>
      ReservationE(r.(checkIn := MinuteFloor(r.checkIn), checkOut := MinuteFloor(r.checkOut), walkIn := false))
    case RoomServiceE(rs) =>
      var c := match rs.created case Some(t) => Some(MinuteFloor(t)) case None => None;
      RoomServiceE(rs.(created := c, roomId := "", items := []))
    case _ => e
  }

  /** A cached record is of the table's type and settled. */
  predicate CachedAs(k: Kind, rec: Record) {
    KindOf(rec.entity) == k && Settled(rec.entity)
  }
}
