/**
 * The bill of a stay (Payment.java): the room charged at its weekday rate
 * for weekday nights and its weekend rate for the others, the totals of the
 * room-service orders of the reservation, and a 7% service charge on both.
 * Amounts are cents; the charge, a fraction of a cent in general, is a real.
 */
module Payment {
  import opened Options
  import opened Config
  import opened Dates
  import opened Entities
  import opened Fields
  import opened EntityStore
  import opened Rules
  import opened Orders

  /** `serviceChargePercent`. */
  const ServiceChargePercent: int := 7

  // ---------------------------------------------------------------------------
  // The room
  // ---------------------------------------------------------------------------

  /**
   * `getRoomTotal` as written: the weekdays `getTotalWeekdays` counts at the
   * weekday rate, and the rest of the days `getTotalDays` counts at the
   * weekend rate.
   */
  function RoomTotalAsWritten(room: Room, checkIn: int, checkOut: int): int {
    var days := TotalDays(checkIn, checkOut);
    var weekdays := WeekdaysAsWritten(checkIn, checkOut);
    weekdays * room.rate + (days - weekdays) * room.weekendRate
  }

  /** The room charge with the weekdays counted as the nights of the stay that start on a weekday. */
  function RoomTotal(room: Room, checkIn: int, checkOut: int): int {
    var days := TotalDays(checkIn, checkOut);
    var weekdays := WeekdayNights(checkIn, checkOut);
    weekdays * room.rate + (days - weekdays) * room.weekendRate
  }

  /** The rate of the night starting on day `d`. */
  function NightRate(room: Room, d: int): int {
    if IsWeekdayNumber(d) then room.rate else room.weekendRate
  }

  /** The nights from day `lo` to day `hi`, each at its own rate. */
  function NightsCharge(room: Room, lo: int, hi: int): int
    decreases hi - lo
  {
    if lo >= hi then 0 else NightRate(room, lo) + NightsCharge(room, lo + 1, hi)
  }

  lemma {:induction false} NightsChargeSplit(room: Room, lo: int, hi: int)
    requires lo <= hi
    ensures NightsCharge(room, lo, hi) ==
      WeekdayDays(lo, hi) * room.rate + (hi - lo - WeekdayDays(lo, hi)) * room.weekendRate
    decreases hi - lo
  {
    if lo < hi {
      NightsChargeSplit(room, lo + 1, hi);
      var w := WeekdayDays(lo + 1, hi);
      var n := hi - lo - 1;
      if IsWeekdayNumber(lo) {
        assert WeekdayDays(lo, hi) == w + 1;
        assert (w + 1) * room.rate == w * room.rate + room.rate;
        assert hi - lo - (w + 1) == n - w;
      } else {
        assert WeekdayDays(lo, hi) == w;
        assert (n + 1 - w) * room.weekendRate == (n - w) * room.weekendRate + room.weekendRate;
      }
    }
  }

  /**
   * For a stay that does not end before it starts, the room charge is the
   * sum, night by night, of the rate of each night.
   */
  lemma RoomTotalByNights(room: Room, checkIn: int, checkOut: int)
    requires TotalDays(checkIn, checkOut) >= 0
    ensures RoomTotal(room, checkIn, checkOut) == NightsCharge(room, Day(checkIn), Day(checkOut))
  {
    NightsChargeSplit(room, Day(checkIn), Day(checkOut));
  }

  /** The charge lies between the nights at the lower rate and the nights at the higher rate. */
  lemma RoomTotalBounds(room: Room, checkIn: int, checkOut: int)
    requires TotalDays(checkIn, checkOut) >= 0
    ensures var days := TotalDays(checkIn, checkOut);
      var lo := if room.rate <= room.weekendRate then room.rate else room.weekendRate;
      var hi := if room.rate <= room.weekendRate then room.weekendRate else room.rate;
      lo * days <= RoomTotal(room, checkIn, checkOut) <= hi * days
  {
    WeekdayNightsBound(checkIn, checkOut);
    var lo := if room.rate <= room.weekendRate then room.rate else room.weekendRate;
    var hi := if room.rate <= room.weekendRate then room.weekendRate else room.rate;
    MixBetween(WeekdayNights(checkIn, checkOut), TotalDays(checkIn, checkOut), room.rate, room.weekendRate, lo, hi);
  }

  /** `w` parts at one rate and `d - w` at another lie between `d` parts at the lower and at the higher bound. */
  lemma MixBetween(w: int, d: int, a: int, b: int, lo: int, hi: int)
    requires 0 <= w <= d && lo <= a <= hi && lo <= b <= hi
    ensures lo * d <= w * a + (d - w) * b <= hi * d
  {
    NonNegProduct(w, a - lo);
    NonNegProduct(d - w, b - lo);
    NonNegProduct(w, hi - a);
    NonNegProduct(d - w, hi - b);
    assert w * a + (d - w) * b - lo * d == w * (a - lo) + (d - w) * (b - lo);
    assert hi * d - (w * a + (d - w) * b) == w * (hi - a) + (d - w) * (hi - b);
  }

  lemma NonNegProduct(x: int, y: int)
    requires x >= 0 && y >= 0
    ensures x * y >= 0
  {
  }

  /** When check-out is not later in the day than check-in, the charge as written is the corrected one. */
  lemma RoomTotalAgrees(room: Room, checkIn: int, checkOut: int)
    requires checkIn < checkOut && TimeOfDay(checkOut) <= TimeOfDay(checkIn)
    ensures RoomTotalAsWritten(room, checkIn, checkOut) == RoomTotal(room, checkIn, checkOut)
  {
    AsWrittenCountsNights(checkIn, checkOut);
  }

  /**
   * Checking in on a Monday at 14:00 and out on the Tuesday at 15:00 is one
   * weekday night, but the charge as written bills two weekdays and minus
   * one weekend day.
   */
  lemma WeekendChargedNegative(room: Room)
    ensures var checkIn := 4 * DayMs + 14 * HourMs;
      var checkOut := 5 * DayMs + 15 * HourMs;
      && RoomTotalAsWritten(room, checkIn, checkOut) == 2 * room.rate - room.weekendRate
      && RoomTotal(room, checkIn, checkOut) == room.rate
  {
    WeekdaysExceedNights();
  }

  // ---------------------------------------------------------------------------
  // Room service
  // ---------------------------------------------------------------------------

  /** The totals of a run of orders, added up in order; the first fault ends the sum. */
  function OrdersTotal(s: Store, orders: seq<Record>, now: int): (r: Result<int, Fault>)
    requires Complete(s)
    decreases |orders|
  {
    if |orders| == 0 then Ok(0)
    else if !orders[0].entity.RoomServiceE? then OrdersTotal(s, orders[1..], now)
    else
      match ServiceTotal(s, orders[0], now)
      case Err(f) => Err(f)
      case Ok(t) =>
        match OrdersTotal(s, orders[1..], now)
        case Err(f) => Err(f)
        case Ok(rest) => Ok(t + rest)
  }

  /** The lines behind an order's total: those in memory, or else those fetched for it. */
  function OrderLines(s: Store, order: Record, now: int): seq<Record>
    requires Complete(s)
  {
    if !order.entity.RoomServiceE? then []
    else match MenuItems(s, order, now).1
      case Ok(items) => items
      case Err(_) => []
  }

  /** The lines behind the totals of a run of orders, one order after the other. */
  function AllLines(s: Store, orders: seq<Record>, now: int): seq<Record>
    requires Complete(s)
    decreases |orders|
  {
    if |orders| == 0 then [] else OrderLines(s, orders[0], now) + AllLines(s, orders[1..], now)
  }

  /** On a valid store the orders' total is the total of all their lines taken together. */
  lemma {:induction false} OrdersTotalIsLines(s: Store, orders: seq<Record>, now: int)
    requires Valid(s)
    ensures OrdersTotal(s, orders, now) == Ok(LinesTotal(AllLines(s, orders, now)))
    decreases |orders|
  {
    if |orders| > 0 {
      OrdersTotalIsLines(s, orders[1..], now);
      LinesTotalAppend(OrderLines(s, orders[0], now), AllLines(s, orders[1..], now));
      if orders[0].entity.RoomServiceE? {
        MenuItemsLoaded(s, orders[0], now);
      }
    }
  }

  /** `getRoomServiceTotal`: the totals of the orders whose reservation id is the reservation's code. */
  function RoomServiceTotal(s: Store, rsv: Reservation, now: int): Result<int, Fault>
    requires Complete(s)
  {
    match FindAll(s, RoomServiceKind, true, -1, ["reservationId", ReservationCode(rsv, now)], now)
    case Err(e) => Err(QueryFault(e))
    case Ok(found) => OrdersTotal(s, found, now)
  }

  /** The cached orders billed to a reservation: those whose reservation id is its code, ignoring case. */
  function BilledOrders(s: Store, rsv: Reservation, now: int): seq<Record>
    requires Complete(s)
  {
    match FindAll(s, RoomServiceKind, true, -1, ["reservationId", ReservationCode(rsv, now)], now)
    case Ok(found) => found
    case Err(_) => []
  }

  /**
   * On a valid store the room-service total of a reservation is the total of
   * the lines of the orders billed to it, and those orders are exactly the
   * cached orders whose reservation id is its code.
   */
  lemma RoomServiceTotalSpec(s: Store, rsv: Reservation, now: int)
    requires Valid(s)
    ensures RoomServiceTotal(s, rsv, now) == Ok(LinesTotal(AllLines(s, BilledOrders(s, rsv, now), now)))
    ensures forall rec :: rec in BilledOrders(s, rsv, now) <==>
      rec in s.tables[RoomServiceKind] && rec.entity.RoomServiceE? &&
      SameText(rec.entity.service.reservationId, ReservationCode(rsv, now))
  {
    var list := s.tables[RoomServiceKind];
    assert TableOk(RoomServiceKind, list, s.nextHandle);
    forall i | 0 <= i < |list|
      ensures FieldValue(list[i].entity, "reservationId", now) == Some(list[i].entity.service.reservationId)
    {
      RoomServiceQueriedFields(list[i].entity.service, now);
    }
    FindAllMatches(s, RoomServiceKind, "reservationId", ReservationCode(rsv, now), now);
    forall rec | rec in list
      ensures FieldValue(rec.entity, "reservationId", now) == Some(rec.entity.service.reservationId)
    {
      RoomServiceQueriedFields(rec.entity.service, now);
    }
    OrdersTotalIsLines(s, BilledOrders(s, rsv, now), now);
  }

  // ---------------------------------------------------------------------------
  // The bill
  // ---------------------------------------------------------------------------

  /** `getServiceChargeTotal`: the percentage of the room and room-service totals. */
  function ServiceCharge(roomTotal: int, serviceTotal: int): real {
    (serviceTotal + roomTotal) as real * (ServiceChargePercent as real / 100.0)
  }

  datatype Bill = Bill(roomTotal: int, serviceTotal: int, charge: real, total: real)

  /**
   * The payment of a reservation with a chosen room charge: its room charge
   * (its room looked up by id, a missing room being the exception the source
   * would raise), its room-service total, the service charge and `getTotal`,
   * their sum.  `asWritten` picks `getRoomTotal` as the program computes it;
   * otherwise each night is charged once at its own rate.
   */
  function PaymentWith(s: Store, rsv: Reservation, now: int, asWritten: bool): (r: Result<Bill, Fault>)
    requires Complete(s)
    ensures r.Ok? ==> r.value.total == (r.value.roomTotal + r.value.serviceTotal) as real * 1.07
    ensures r.Ok? ==> r.value.charge * 100.0 == (r.value.roomTotal + r.value.serviceTotal) as real * 7.0
  {
    match RoomOf(s, rsv.roomId, now)
    case None => Err(NoRoom)
    case Some(rec) =>
      if !rec.entity.RoomE? then Err(NoRoom)
      else BillFor(s, rsv, now, RoomCharge(rec.entity.room, rsv, asWritten))
  }

  /** The room charge of a stay, as written or night by night. */
  function RoomCharge(room: Room, rsv: Reservation, asWritten: bool): int {
    if asWritten then RoomTotalAsWritten(room, rsv.checkIn, rsv.checkOut) else RoomTotal(room, rsv.checkIn, rsv.checkOut)
  }

  /** The bill for a room charge: the room-service total, the service charge and their sum. */
  function BillFor(s: Store, rsv: Reservation, now: int, room: int): (r: Result<Bill, Fault>)
    requires Complete(s)
    ensures r.Ok? ==> r.value.roomTotal == room
    ensures r.Ok? ==> r.value.total == (r.value.roomTotal + r.value.serviceTotal) as real * 1.07
    ensures r.Ok? ==> r.value.charge * 100.0 == (r.value.roomTotal + r.value.serviceTotal) as real * 7.0
  {
    match RoomServiceTotal(s, rsv, now)
    case Err(f) => Err(f)
    case Ok(service) =>
      var charge := ServiceCharge(room, service);
      Ok(Bill(room, service, charge, room as real + service as real + charge))
  }

  /** The payment of a reservation, its room charged night by night. */
  function PaymentOf(s: Store, rsv: Reservation, now: int): (r: Result<Bill, Fault>)
    requires Complete(s)
    ensures r.Ok? ==> r.value.total == (r.value.roomTotal + r.value.serviceTotal) as real * 1.07
    ensures r.Ok? ==> r.value.charge * 100.0 == (r.value.roomTotal + r.value.serviceTotal) as real * 7.0
  {
    PaymentWith(s, rsv, now, false)
  }

  /** The payment of a reservation as `Payment.java` computes it, with `getRoomTotal` as written. */
  function PaymentAsWritten(s: Store, rsv: Reservation, now: int): (r: Result<Bill, Fault>)
    requires Complete(s)
    ensures r.Ok? ==> r.value.total == (r.value.roomTotal + r.value.serviceTotal) as real * 1.07
  {
    PaymentWith(s, rsv, now, true)
  }

  /**
   * On a valid store a reservation is billed exactly when a cached room has
   * its room id; the room charged is the first such room, night by night,
   * and the room-service part is the total of its orders' lines.
   */
  lemma PaymentOfSpec(s: Store, rsv: Reservation, now: int)
    requires Valid(s)
    ensures var rooms := s.tables[RoomKind];
      var j := RoomAt(rooms, rsv.roomId);
      && (PaymentOf(s, rsv, now).Ok? <==> j < |rooms|)
      && (j < |rooms| ==>
            && PaymentOf(s, rsv, now).value.roomTotal == RoomTotal(rooms[j].entity.room, rsv.checkIn, rsv.checkOut)
            && PaymentOf(s, rsv, now).value.serviceTotal == LinesTotal(AllLines(s, BilledOrders(s, rsv, now), now)))
  {
    RoomOfFirst(s, rsv.roomId, now);
    RoomServiceTotalSpec(s, rsv, now);
  }

  /**
   * The bill the program prints and the night-by-night bill exist together
   * and differ only in the room charge: the program's is `getRoomTotal` as
   * written, and the two agree whenever check-out is not later in the day
   * than check-in.
   */
  lemma PaymentAsWrittenSpec(s: Store, rsv: Reservation, now: int)
    requires Valid(s)
    ensures var rooms := s.tables[RoomKind];
      var j := RoomAt(rooms, rsv.roomId);
      var program := PaymentAsWritten(s, rsv, now);
      var fixed := PaymentOf(s, rsv, now);
      && (program.Ok? <==> fixed.Ok?)
      && (program.Ok? ==>
            && j < |rooms|
            && program.value.roomTotal == RoomTotalAsWritten(rooms[j].entity.room, rsv.checkIn, rsv.checkOut)
            && program.value.serviceTotal == fixed.value.serviceTotal)
      && (rsv.checkIn < rsv.checkOut && TimeOfDay(rsv.checkOut) <= TimeOfDay(rsv.checkIn) ==> program == fixed)
  {
    RoomOfFirst(s, rsv.roomId, now);
    AsWrittenBesideFixed(s, rsv, now);
  }

  /** The two payments side by side, on any cache: the room found decides both. */
  lemma AsWrittenBesideFixed(s: Store, rsv: Reservation, now: int)
    requires Complete(s)
    ensures var program := PaymentAsWritten(s, rsv, now);
      var fixed := PaymentOf(s, rsv, now);
      var found := RoomOf(s, rsv.roomId, now);
      && (program.Ok? <==> fixed.Ok?)
      && (program.Ok? ==>
            && found.Some? && found.value.entity.RoomE?
            && program.value.roomTotal == RoomTotalAsWritten(found.value.entity.room, rsv.checkIn, rsv.checkOut)
            && program.value.serviceTotal == fixed.value.serviceTotal)
      && (rsv.checkIn < rsv.checkOut && TimeOfDay(rsv.checkOut) <= TimeOfDay(rsv.checkIn) ==> program == fixed)
  {
    PaymentWithParts(s, rsv, now, true);
    PaymentWithParts(s, rsv, now, false);
    if rsv.checkIn < rsv.checkOut && TimeOfDay(rsv.checkOut) <= TimeOfDay(rsv.checkIn) {
      PaymentWithSame(s, rsv, now);
    }
  }

  /** The parts of a payment: it exists when the room is found and the orders are read, and charges them. */
  lemma PaymentWithParts(s: Store, rsv: Reservation, now: int, asWritten: bool)
    requires Complete(s)
    ensures var r := PaymentWith(s, rsv, now, asWritten);
      var found := RoomOf(s, rsv.roomId, now);
      && (r.Ok? <==> found.Some? && found.value.entity.RoomE? && RoomServiceTotal(s, rsv, now).Ok?)
      && (r.Ok? ==>
            && r.value.serviceTotal == RoomServiceTotal(s, rsv, now).value
            && r.value.roomTotal ==
                 if asWritten then RoomTotalAsWritten(found.value.entity.room, rsv.checkIn, rsv.checkOut)
                 else RoomTotal(found.value.entity.room, rsv.checkIn, rsv.checkOut))
  {
    var found := RoomOf(s, rsv.roomId, now);
    if found.Some? && found.value.entity.RoomE? {
      BillParts(s, rsv, now, RoomCharge(found.value.entity.room, rsv, asWritten));
    }
  }

  lemma BillParts(s: Store, rsv: Reservation, now: int, room: int)
    requires Complete(s)
    ensures BillFor(s, rsv, now, room).Ok? <==> RoomServiceTotal(s, rsv, now).Ok?
    ensures BillFor(s, rsv, now, room).Ok? ==> BillFor(s, rsv, now, room).value.serviceTotal == RoomServiceTotal(s, rsv, now).value
  {
  }

  /** When the two room charges agree, so do the two payments. */
  lemma PaymentWithSame(s: Store, rsv: Reservation, now: int)
    requires Complete(s)
    requires rsv.checkIn < rsv.checkOut && TimeOfDay(rsv.checkOut) <= TimeOfDay(rsv.checkIn)
    ensures PaymentWith(s, rsv, now, true) == PaymentWith(s, rsv, now, false)
  {
    var found := RoomOf(s, rsv.roomId, now);
    if found.Some? && found.value.entity.RoomE? {
      RoomTotalAgrees(found.value.entity.room, rsv.checkIn, rsv.checkOut);
      assert RoomCharge(found.value.entity.room, rsv, true) == RoomCharge(found.value.entity.room, rsv, false);
    }
  }
}
