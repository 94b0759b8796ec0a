/**
 * Room-service orders as RoomServiceControl.java drives them: building an
 * order line by line, editing the n-th line, the totals of OrderMenuItem and
 * RoomService, the guard on ordering for a guest, and the kitchen's moves
 * of an order from CONFIRMED to PREPARING to DELIVERED.  Amounts are cents.
 */
module Orders {
  import opened Options
  import opened Config
  import opened Enums
  import opened Entities
  import opened Fields
  import opened EntityStore
  import opened Rules
  import opened Saving
  import Query

  // ---------------------------------------------------------------------------
  // Lines and totals
  // ---------------------------------------------------------------------------

  /** `setMenuItem`: the line takes the item's name and price and keeps everything else. */
  function SetMenuItem(o: OrderItem, m: MenuItem): (r: OrderItem)
    ensures r.name == m.name && r.price == m.price
    ensures r.(name := o.name, price := o.price) == o
  {
    o.(name := m.name, price := m.price)
  }

  /** `getTotalPrice`: the quantity times the unit price. */
  function LineTotal(o: OrderItem): int {
    o.qty * o.price
  }

  /** What one object adds to an order's total: its line total, or nothing when it is not a line. */
  function LineValue(rec: Record): int {
    match rec.entity
    case OrderItemE(o) => LineTotal(o)
    case _ => 0
  }

  /** `getTotal`: the line totals of an order's lines added up in order. */
  function LinesTotal(lines: seq<Record>): int
    decreases |lines|
  {
    if |lines| == 0 then 0 else LineValue(lines[0]) + LinesTotal(lines[1..])
  }

  /** The total of two runs of lines one after the other is the sum of their totals. */
  lemma {:induction false} LinesTotalAppend(a: seq<Record>, b: seq<Record>)
    ensures LinesTotal(a + b) == LinesTotal(a) + LinesTotal(b)
    decreases |a|
  {
    if |a| == 0 {
      assert a + b == b;
    } else {
      assert (a + b)[1..] == a[1..] + b;
      LinesTotalAppend(a[1..], b);
    }
  }

  /** Lines that are worth the same, place by place, add up to the same total. */
  lemma {:induction false} LinesTotalPointwise(a: seq<Record>, b: seq<Record>)
    requires |a| == |b|
    requires forall i :: 0 <= i < |a| ==> LineValue(a[i]) == LineValue(b[i])
    ensures LinesTotal(a) == LinesTotal(b)
    decreases |a|
  {
    if |a| > 0 {
      LinesTotalPointwise(a[1..], b[1..]);
    }
  }

  /** Lines of positive quantity and positive price add up to a positive total. */
  lemma {:induction false} LinesTotalPositive(lines: seq<Record>)
    requires |lines| > 0
    requires forall i :: 0 <= i < |lines| ==>
      lines[i].entity.OrderItemE? && lines[i].entity.orderItem.qty > 0 && lines[i].entity.orderItem.price > 0
    ensures LinesTotal(lines) > 0
    decreases |lines|
  {
    var o := lines[0].entity.orderItem;
    assert LineTotal(o) > 0 by {
      assert o.qty * o.price >= o.price;
    }
    if |lines| > 1 {
      LinesTotalPositive(lines[1..]);
    }
  }

  /** Adding a line to an order adds its line total to the order's total. */
  lemma AddMenuItemTotal(rs: RoomService, line: Record)
    ensures LinesTotal(AddMenuItem(rs, line).items) == LinesTotal(rs.items) + LineValue(line)
  {
    LinesTotalAppend(rs.items, [line]);
    assert LinesTotal([line]) == LineValue(line) by {
      assert [line][1..] == [];
    }
  }

  /** Saving an order's lines ties them to the order but leaves its total as it was. */
  lemma SaveItemsKeepsTotal(s: Store, order: Record, now: int)
    requires Complete(s) && order.entity.RoomServiceE?
    requires forall i :: 0 <= i < |order.entity.service.items| ==> order.entity.service.items[i].entity.OrderItemE?
    ensures LinesTotal(SaveItems(s, order, now).1.entity.service.items) == LinesTotal(order.entity.service.items)
  {
    SaveItemsLinked(s, order, now);
    var before := order.entity.service.items;
    var after := SaveItems(s, order, now).1.entity.service.items;
    forall i | 0 <= i < |after| ensures LineValue(after[i]) == LineValue(before[i]) {
    }
    LinesTotalPointwise(after, before);
  }

  /**
   * `getTotal` of an order: the lines it holds, or, when it holds none, the
   * lines `getMenuItems` fetches for it.
   */
  function ServiceTotal(s: Store, rec: Record, now: int): (r: Result<int, Fault>)
    requires Complete(s) && rec.entity.RoomServiceE?
    ensures |rec.entity.service.items| > 0 ==> r == Ok(LinesTotal(rec.entity.service.items))
  {
    match MenuItems(s, rec, now).1
    case Ok(items) => Ok(LinesTotal(items))
    case Err(f) => Err(f)
  }

  /**
   * On a valid store the total of an order without lines in memory is the
   * total of lines fetched for it, and those are exactly the cached lines
   * carrying its id.
   */
  lemma ServiceTotalLoaded(s: Store, rec: Record, now: int)
    requires Valid(s) && rec.entity.RoomServiceE? && |rec.entity.service.items| == 0
    ensures ServiceTotal(s, rec, now).Ok?
    ensures var items := MenuItems(s, rec, now).1.value;
      && ServiceTotal(s, rec, now).value == LinesTotal(items)
      && forall o :: o in items <==> LineOf(o, s.tables[OrderItemKind], ServiceId(rec.entity.service, now))
  {
    MenuItemsLoaded(s, rec, now);
  }

  // ---------------------------------------------------------------------------
  // Building and editing an order
  // ---------------------------------------------------------------------------

  /**
   * `chooseMenuItem`: when an item is picked from the menu, a new line with
   * its name and price and the quantity entered joins the order; when none
   * is picked the order is left alone.
   */
  function ChooseMenuItem(s: Store, rs: RoomService, pick: Option<MenuItem>, qty: int): (r: (Store, RoomService))
    requires Complete(s)
    ensures pick.None? ==> r == (s, rs)
    ensures pick.Some? ==>
      && r.0 == s.(nextHandle := s.nextHandle + 1)
      && r.1.(items := rs.items) == rs
      && |r.1.items| == |rs.items| + 1 && r.1.items[..|rs.items|] == rs.items
      && var line := r.1.items[|rs.items|];
         && line.isNew && line.handle == s.nextHandle && line.entity.OrderItemE?
         && line.entity.orderItem.name == pick.value.name
         && line.entity.orderItem.price == pick.value.price
         && line.entity.orderItem.qty == qty
  {
    match pick
    case None => (s, rs)
    case Some(m) =>
      var (s1, line) := NewRecord(s, OrderItemE(SetMenuItem(OrderItem("", 0, "", qty), m)));
      (s1, AddMenuItem(rs, line))
  }

  /** A picked item adds its price times the quantity entered to the order's total. */
  lemma ChooseMenuItemTotal(s: Store, rs: RoomService, pick: Option<MenuItem>, qty: int)
    requires Complete(s)
    ensures pick.Some? ==>
      LinesTotal(ChooseMenuItem(s, rs, pick, qty).1.items) == LinesTotal(rs.items) + qty * pick.value.price
    ensures pick.None? ==> LinesTotal(ChooseMenuItem(s, rs, pick, qty).1.items) == LinesTotal(rs.items)
  {
    if pick.Some? {
      var (s1, line) := NewRecord(s, OrderItemE(SetMenuItem(OrderItem("", 0, "", qty), pick.value)));
      AddMenuItemTotal(rs, line);
    }
  }

  /** The check on the number typed to edit a line: one of the lines shown, numbered from 1. */
  predicate EditIndexOk(ipt: int, count: int) {
    ipt > 0 && ipt <= count
  }

  /**
   * Editing the line numbered `ipt` of the order's confirmation screen: it
   * takes the name and price of the item picked and the quantity entered.
   * A number outside the lines shown, or no item picked, changes nothing.
   */
  function EditLine(rs: RoomService, ipt: int, pick: Option<MenuItem>, qty: int): (r: RoomService)
    ensures !EditIndexOk(ipt, |rs.items|) || pick.None? ==> r == rs
    ensures r.(items := rs.items) == rs && |r.items| == |rs.items|
    ensures forall j :: 0 <= j < |rs.items| && j != ipt - 1 ==> r.items[j] == rs.items[j]
    ensures EditIndexOk(ipt, |rs.items|) && pick.Some? && rs.items[ipt - 1].entity.OrderItemE? ==>
      var was := rs.items[ipt - 1];
      var line := r.items[ipt - 1];
      && line.handle == was.handle && line.isNew == was.isNew
      && line.entity == OrderItemE(was.entity.orderItem.(name := pick.value.name, price := pick.value.price, qty := qty))
  {
    if !EditIndexOk(ipt, |rs.items|) || pick.None? then rs
    else
      var line := rs.items[ipt - 1];
      match line.entity
      case OrderItemE(o) =>
        rs.(items := rs.items[ipt - 1 := line.(entity := OrderItemE(SetMenuItem(o, pick.value).(qty := qty)))])
      case _ => rs
  }

  /** Editing a line changes the order's total by the difference between the new and the old line totals. */
  lemma EditLineTotal(rs: RoomService, ipt: int, m: MenuItem, qty: int)
    requires EditIndexOk(ipt, |rs.items|) && rs.items[ipt - 1].entity.OrderItemE?
    ensures LinesTotal(EditLine(rs, ipt, Some(m), qty).items) ==
      LinesTotal(rs.items) - LineValue(rs.items[ipt - 1]) + qty * m.price
  {
    var k := ipt - 1;
    var after := EditLine(rs, ipt, Some(m), qty).items;
    assert rs.items == rs.items[..k] + [rs.items[k]] + rs.items[k + 1..];
    assert after == rs.items[..k] + [after[k]] + rs.items[k + 1..];
    LinesTotalAppend(rs.items[..k] + [rs.items[k]], rs.items[k + 1..]);
    LinesTotalAppend(rs.items[..k], [rs.items[k]]);
    LinesTotalAppend(rs.items[..k] + [after[k]], rs.items[k + 1..]);
    LinesTotalAppend(rs.items[..k], [after[k]]);
    assert [rs.items[k]][1..] == [] && [after[k]][1..] == [];
  }

  // ---------------------------------------------------------------------------
  // Ordering for a guest
  // ---------------------------------------------------------------------------

  /** `Guest.getReservation`: the first cached reservation whose guest id equals the guest's, ignoring case. */
  function GuestReservation(s: Store, guestId: string, now: int): Option<Record>
    requires Complete(s)
  {
    Find(s, ReservationKind, true, ["guestId", guestId], now)
  }

  /** Some cached reservation names the guest. */
  predicate GuestHasReservation(s: Store, guestId: string, now: int)
    requires Complete(s)
  {
    exists i :: 0 <= i < |s.tables[ReservationKind]| && Matches(s.tables[ReservationKind][i], "guestId", guestId, now)
  }

  predicate CheckedInRecord(rec: Record) {
    rec.entity.ReservationE? && rec.entity.rsv.status == CheckedIn
  }

  /** The guard of `selectGuest` as written: only a reservation that is not checked in stops the order. */
  predicate OrderGuardAsWritten(rsv: Option<Record>) {
    !(rsv.Some? && !CheckedInRecord(rsv.value))
  }

  /** The guard its message describes: the guest must have a reservation, and it must be checked in. */
  predicate OrderGuard(rsv: Option<Record>) {
    rsv.Some? && CheckedInRecord(rsv.value)
  }

  lemma {:induction false} FirstMatchFacts(list: seq<Record>, key: string, text: string, now: int)
    ensures FirstMatch(list, key, text, now).None? <==> forall i :: 0 <= i < |list| ==> !Matches(list[i], key, text, now)
    ensures FirstMatch(list, key, text, now).Some? ==>
      FirstMatch(list, key, text, now).value in list && Matches(FirstMatch(list, key, text, now).value, key, text, now)
    decreases |list|
  {
    if |list| > 0 {
      FirstMatchFacts(list[1..], key, text, now);
      if !Matches(list[0], key, text, now) {
        forall i | 1 <= i < |list| ensures Matches(list[i], key, text, now) <==> Matches(list[1..][i - 1], key, text, now) {
        }
      }
    }
  }

  /**
   * On a valid store the guest's reservation is found exactly when some
   * reservation names the guest, and it is one of the cached reservations
   * that do.
   */
  lemma GuestReservationFound(s: Store, guestId: string, now: int)
    requires Valid(s)
    ensures GuestReservation(s, guestId, now).Some? <==> GuestHasReservation(s, guestId, now)
    ensures GuestReservation(s, guestId, now).Some? ==>
      var rec := GuestReservation(s, guestId, now).value;
      rec in s.tables[ReservationKind] && rec.entity.ReservationE? && SameText(rec.entity.rsv.guestId, guestId)
  {
    var rsvs := s.tables[ReservationKind];
    assert TableOk(ReservationKind, rsvs, s.nextHandle);
    forall i | 0 <= i < |rsvs| ensures FieldValue(rsvs[i].entity, "guestId", now) == Some(rsvs[i].entity.rsv.guestId) {
      ReservationQueriedFields(rsvs[i].entity.rsv, now);
    }
    FindFirstMatch(s, ReservationKind, "guestId", guestId, now);
    FirstMatchFacts(rsvs, "guestId", guestId, now);
    var found := GuestReservation(s, guestId, now);
    if found.Some? {
      var j :| 0 <= j < |rsvs| && rsvs[j] == found.value;
      assert FieldValue(rsvs[j].entity, "guestId", now) == Some(rsvs[j].entity.rsv.guestId);
    }
  }

  /** `Room.getReservation`: the first cached reservation whose room id is the room's. */
  function RoomReservation(s: Store, room: Room, now: int): Option<Record>
    requires Complete(s)
  {
    Find(s, ReservationKind, true, ["roomId", RoomId(room)], now)
  }

  /** A cached reservation of the room, its room id compared ignoring case. */
  predicate ReservesRoom(rec: Record, room: Room) {
    rec.entity.ReservationE? && SameText(rec.entity.rsv.roomId, RoomId(room))
  }

  /**
   * On a valid store a room's reservation is missing exactly when no cached
   * reservation names the room, and otherwise it is the first cached
   * reservation that does.
   */
  lemma RoomReservationSpec(s: Store, room: Room, now: int)
    requires Valid(s)
    ensures var rsvs := s.tables[ReservationKind];
      RoomReservation(s, room, now).None? <==> forall i :: 0 <= i < |rsvs| ==> !ReservesRoom(rsvs[i], room)
    ensures var rsvs := s.tables[ReservationKind];
      RoomReservation(s, room, now).Some? ==>
        exists j :: 0 <= j < |rsvs| && rsvs[j] == RoomReservation(s, room, now).value && ReservesRoom(rsvs[j], room)
          && forall i :: 0 <= i < j ==> !ReservesRoom(rsvs[i], room)
  {
    var rsvs := s.tables[ReservationKind];
    var id := RoomId(room);
    assert TableOk(ReservationKind, rsvs, s.nextHandle);
    forall i | 0 <= i < |rsvs|
      ensures FieldValue(rsvs[i].entity, "roomId", now) == Some(rsvs[i].entity.rsv.roomId)
      ensures Matches(rsvs[i], "roomId", id, now) <==> ReservesRoom(rsvs[i], room)
    {
      ReservationQueriedFields(rsvs[i].entity.rsv, now);
    }
    FindFirstMatch(s, ReservationKind, "roomId", id, now);
    FirstMatchFacts(rsvs, "roomId", id, now);
    FirstMatchFirst(rsvs, "roomId", id, now);
  }

  /**
   * `Guest.getRoom`: the room of the guest's reservation while it is checked
   * in, and none otherwise; a guest without a reservation makes the program
   * dereference a missing reservation.
   */
  function GuestRoom(s: Store, guestId: string, now: int): Result<Option<Record>, Fault>
    requires Complete(s)
  {
    match GuestReservation(s, guestId, now)
    case None => Err(NoReservation)
    case Some(rec) =>
      if CheckedInRecord(rec) then Ok(RoomOf(s, rec.entity.rsv.roomId, now)) else Ok(None)
  }

  /**
   * On a valid store `getRoom` fails exactly for a guest no reservation
   * names, and yields a room exactly when the guest's reservation is checked
   * in and its room is cached: then it is the first cached room with that id.
   */
  lemma GuestRoomSpec(s: Store, guestId: string, now: int)
    requires Valid(s)
    ensures GuestRoom(s, guestId, now).Err? <==> !GuestHasReservation(s, guestId, now)
    ensures GuestRoom(s, guestId, now).Err? ==> GuestRoom(s, guestId, now).error == NoReservation
    ensures var rooms := s.tables[RoomKind]; var found := GuestReservation(s, guestId, now);
      GuestRoom(s, guestId, now).Ok? ==>
        && found.Some?
        && (GuestRoom(s, guestId, now).value.Some? <==>
              CheckedInRecord(found.value) && RoomAt(rooms, found.value.entity.rsv.roomId) < |rooms|)
        && (GuestRoom(s, guestId, now).value.Some? ==>
              var j := RoomAt(rooms, found.value.entity.rsv.roomId);
              j < |rooms| && GuestRoom(s, guestId, now).value.value == rooms[j])
  {
    GuestReservationFound(s, guestId, now);
    var found := GuestReservation(s, guestId, now);
    if found.Some? {
      RoomOfFirst(s, found.value.entity.rsv.roomId, now);
    }
  }

  /**
   * A guest no reservation names passes the guard as written, although the
   * guard its message describes refuses it.  The program then starts an
   * order with no reservation behind it, and fails on the first chosen item,
   * when it builds the order's id from the missing reservation's room
   * (RoomServiceControl.java:185, RoomService.java:104); nothing is saved.
   */
  lemma UnreservedGuestPasses(s: Store, guestId: string, now: int)
    requires Valid(s) && !GuestHasReservation(s, guestId, now)
    ensures OrderGuardAsWritten(GuestReservation(s, guestId, now))
    ensures !OrderGuard(GuestReservation(s, guestId, now))
  {
    GuestReservationFound(s, guestId, now);
  }

  /**
   * The corrected guard admits exactly the guests the written one admits
   * that have a reservation, and an admitted guest's reservation is a
   * checked-in reservation naming the guest.
   */
  lemma OrderGuardSpec(s: Store, guestId: string, now: int)
    requires Valid(s)
    ensures var rsv := GuestReservation(s, guestId, now);
      OrderGuard(rsv) <==> OrderGuardAsWritten(rsv) && GuestHasReservation(s, guestId, now)
    ensures var rsv := GuestReservation(s, guestId, now);
      OrderGuard(rsv) ==>
        rsv.value in s.tables[ReservationKind] && SameText(rsv.value.entity.rsv.guestId, guestId) &&
        rsv.value.entity.rsv.status == CheckedIn
  {
    GuestReservationFound(s, guestId, now);
  }

  // ---------------------------------------------------------------------------
  // Moving orders along
  // ---------------------------------------------------------------------------

  /** The status an order must have to be marked with the target status. */
  function Source(target: OrderStatus): OrderStatus {
    if target == Preparing then OrderConfirmed else Preparing
  }

  /** The kitchen's forward steps. */
  predicate Step(a: OrderStatus, b: OrderStatus) {
    (a == OrderConfirmed && b == Preparing) || (a == Preparing && b == Delivered)
  }

  /** The orders offered for marking: those whose status is named as the source status, ignoring case. */
  function Candidates(s: Store, target: OrderStatus, now: int): Result<seq<Record>, Query.QueryError>
    requires Complete(s)
  {
    FindAll(s, RoomServiceKind, true, -1, ["status", Source(target).Name()], now)
  }

  /** The lines of every cached order are lines the store can save. */
  predicate OrdersHeld(s: Store)
    requires Complete(s)
  {
    forall i :: 0 <= i < |s.tables[RoomServiceKind]| && s.tables[RoomServiceKind][i].entity.RoomServiceE? ==>
      LinesHeld(s, s.tables[RoomServiceKind][i].entity.service.items)
  }

  /**
   * `markOrder`: the orders with the source status are listed; the one
   * picked (numbered from 1, 0 going back) is, once confirmed, given the
   * target status and saved.  The result is the store, the order as it
   * ends up when one was picked, and the outcome of its save.
   */
  function MarkOrder(s: Store, target: OrderStatus, choice: nat, confirm: bool, now: int)
    : (r: (Store, Option<Record>, Result<bool, Fault>))
    requires Complete(s)
    ensures Complete(r.0) && r.0.writable == s.writable
    ensures r.1.None? ==> r.0 == s
  {
    match Candidates(s, target, now)
    case Err(e) => (s, None, Err(QueryFault(e)))
    case Ok(found) =>
      if choice == 0 || choice > |found| || !confirm then (s, None, Ok(false))
      else
        var chosen := found[choice - 1];
        if !chosen.entity.RoomServiceE? then (s, None, Ok(false))
        else
          var (after, saved, res) := SaveService(s, chosen.(entity := RoomServiceE(chosen.entity.service.(status := target))), now);
          (after, Some(saved), res)
  }

  /** On a valid store the candidates are exactly the cached orders with the source status. */
  lemma CandidatesSpec(s: Store, target: OrderStatus, now: int)
    requires Valid(s)
    ensures Candidates(s, target, now).Ok?
    ensures forall rec :: rec in Candidates(s, target, now).value <==>
      rec in s.tables[RoomServiceKind] && rec.entity.RoomServiceE? && rec.entity.service.status == Source(target)
  {
    var list := s.tables[RoomServiceKind];
    var text := Source(target).Name();
    assert TableOk(RoomServiceKind, list, s.nextHandle);
    forall i | 0 <= i < |list| ensures FieldValue(list[i].entity, "status", now) == Some(list[i].entity.service.status.Name()) {
      RoomServiceQueriedFields(list[i].entity.service, now);
    }
    FindAllMatches(s, RoomServiceKind, "status", text, now);
    forall rec | rec in list
      ensures Matches(rec, "status", text, now) <==> rec.entity.service.status == Source(target)
    {
      NamesCaseless();
    }
  }

  /**
   * Marking an order on a valid store: nothing changes unless a listed
   * order is picked and the change confirmed; the order picked had the
   * source status, is given the target status whatever its save answers
   * (an order never written to its file is confirmed again by its save),
   * and for the two moves the menu offers that is a forward step.
   */
  lemma MarkOrderSpec(s: Store, target: OrderStatus, choice: nat, confirm: bool, now: int)
    requires Valid(s) && OrdersHeld(s)
    ensures Candidates(s, target, now).Ok?
    ensures var found := Candidates(s, target, now).value;
      var (after, saved, res) := MarkOrder(s, target, choice, confirm, now);
      && Valid(after)
      && (saved.Some? <==> confirm && 0 < choice <= |found|)
      && (saved.None? ==> after == s && res == Ok(false))
      && (saved.Some? ==>
            var chosen := found[choice - 1];
            && chosen in s.tables[RoomServiceKind]
            && chosen.entity.RoomServiceE? && chosen.entity.service.status == Source(target)
            && saved.value.handle == chosen.handle
            && saved.value.entity.RoomServiceE?
            && (!chosen.isNew ==> saved.value.entity.service.status == target)
            && (chosen.isNew ==> saved.value.entity.service.status == OrderConfirmed)
            && (target != OrderConfirmed ==> Step(chosen.entity.service.status, target)))
  {
    CandidatesSpec(s, target, now);
    var found := Candidates(s, target, now).value;
    if confirm && 0 < choice <= |found| {
      var chosen := found[choice - 1];
      assert chosen in found;
      MarkChosen(s, chosen, target, now);
      var marked := chosen.(entity := RoomServiceE(chosen.entity.service.(status := target)));
      var (after, saved, res) := SaveService(s, marked, now);
      assert MarkOrder(s, target, choice, confirm, now) == (after, Some(saved), res);
    }
  }

  /** The save of a listed order given a new status. */
  lemma MarkChosen(s: Store, chosen: Record, target: OrderStatus, now: int)
    requires Valid(s) && OrdersHeld(s) && chosen in s.tables[RoomServiceKind] && chosen.entity.RoomServiceE?
    ensures var marked := chosen.(entity := RoomServiceE(chosen.entity.service.(status := target)));
      var (after, saved, res) := SaveService(s, marked, now);
      && Valid(after)
      && saved.handle == chosen.handle
      && saved.entity.RoomServiceE?
      && saved.entity.service.status == (if chosen.isNew then OrderConfirmed else target)
  {
    var list := s.tables[RoomServiceKind];
    var i :| 0 <= i < |list| && list[i] == chosen;
    var marked := chosen.(entity := RoomServiceE(chosen.entity.service.(status := target)));
    assert Held(s, marked) by {
      InHandles(list, chosen);
      assert TableOk(RoomServiceKind, list, s.nextHandle);
    }
    SaveServiceSpec(s, marked, now);
  }
}
