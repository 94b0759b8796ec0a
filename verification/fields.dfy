/**
 * The field maps of the entities: `toHashMap` (`ToFields`), which puts the
 * fields in a fixed order, and `loadHashMap` (`FromFields`), which reads them
 * back by name.  `FileManager.load`/`write` apply them to a whole data file.
 */
module Fields {
  import opened Options
  import opened Text
  import opened Config
  import opened Enums
  import opened Codec
  import opened Dates
  import opened FlatFile
  import opened Entities

  /** The keys each `toHashMap` puts, in its order. */
  const GuestKeys: seq<string> :=
    ["id", "idType", "name", "address", "country", "gender", "nationality", "contact", "creditCard"]
  const RoomKeys: seq<string> :=
    ["roomId", "roomType", "roomRate", "roomWeekendRate", "roomFloor", "roomNumber",
     "wifiEnabled", "smokingAllowed", "bedType", "facing", "status"]
  const ReservationKeys: seq<string> :=
    ["reservationCode", "reservationStatus", "numberOfChildren", "numberOfAdult",
     "checkInDate", "checkOutDate", "guestId", "roomId"]
  const MenuItemKeys: seq<string> := ["name", "description", "prepSteps", "price"]
  const OrderItemKeys: seq<string> := ["name", "price", "rsId", "qty"]
  const RoomServiceKeys: seq<string> := ["id", "remarks", "status", "created", "reservationId"]

  function KeysOf(k: Kind): seq<string> {
    match k
    case GuestKind => GuestKeys
    case RoomKind => RoomKeys
    case ReservationKind => ReservationKeys
    case MenuItemKind => MenuItemKeys
    case OrderItemKind => OrderItemKeys
    case RoomServiceKind => RoomServiceKeys
  }

  /** The values each `toHashMap` puts under those keys. */
  function GuestValues(g: Guest): (vs: seq<string>)
    ensures |vs| == |GuestKeys|
  {
    [g.id, g.idType.Name(), g.name, g.address, g.country, g.gender, g.nationality, g.contact, g.creditCard]
  }

  function RoomValues(r: Room): (vs: seq<string>)
    ensures |vs| == |RoomKeys|
  {
    [RoomId(r), r.roomType.Name(), MoneyText(r.rate), MoneyText(r.weekendRate), IntText(r.floor),
     IntText(r.number), BoolText(r.wifi), BoolText(r.smoking), r.bed.Name(), r.facing.Name(), r.status.Name()]
  }

  /** First-use values are produced at `now`. */
  function ReservationValues(r: Reservation, now: int): (vs: seq<string>)
    ensures |vs| == |ReservationKeys|
  {
    [ReservationCode(r, now), r.status.Name(), IntText(r.children), IntText(r.adults),
     DateText(r.checkIn), DateText(r.checkOut), r.guestId, r.roomId]
  }

  function MenuItemValues(m: MenuItem): (vs: seq<string>)
    ensures |vs| == |MenuItemKeys|
  {
    [m.name, m.description, m.prepSteps, MoneyText(m.price)]
  }

  function OrderItemValues(o: OrderItem): (vs: seq<string>)
    ensures |vs| == |OrderItemKeys|
  {
    [o.name, MoneyText(o.price), o.rsId, IntText(o.qty)]
  }

  function RoomServiceValues(rs: RoomService, now: int): (vs: seq<string>)
    ensures |vs| == |RoomServiceKeys|
  {
    [ServiceId(rs, now), rs.remarks, rs.status.Name(), DateText(Created(rs, now)), rs.reservationId]
  }

  /** The values of an entity, in the order of its type's keys. */
  function Values(e: Entity, now: int): (vs: seq<string>)
    ensures |vs| == |KeysOf(KindOf(e))|
  {
    match e
    case GuestE(g) => GuestValues(g)
    case RoomE(r) => RoomValues(r)
    case ReservationE(r) => ReservationValues(r, now)
    case MenuItemE(m) => MenuItemValues(m)
    case OrderItemE(o) => OrderItemValues(o)
    case RoomServiceE(rs) => RoomServiceValues(rs, now)
  }

  /** `toHashMap`, with first-use values produced at `now`. */
  function ToFields(e: Entity, now: int): (m: FieldMap)
    ensures |m| == |KeysOf(KindOf(e))|
  {
    match e
    case GuestE(g) => Zip(GuestKeys, GuestValues(g))
    case RoomE(r) => Zip(RoomKeys, RoomValues(r))
    case ReservationE(r) => Zip(ReservationKeys, ReservationValues(r, now))
    case MenuItemE(m) => Zip(MenuItemKeys, MenuItemValues(m))
    case OrderItemE(o) => Zip(OrderItemKeys, OrderItemValues(o))
    case RoomServiceE(rs) => Zip(RoomServiceKeys, RoomServiceValues(rs, now))
  }

  /** The map pairs the type's keys with the entity's values. */
  lemma ToFieldsZip(e: Entity, now: int)
    ensures ToFields(e, now) == Zip(KeysOf(KindOf(e)), Values(e, now))
  {
  }

  /** The value `toHashMap().get(key)` reads. */
  function FieldValue(e: Entity, key: string, now: int): Option<string> {
    Get(ToFields(e, now), key)
  }

  /**
   * Each `…Lookups` lemma finds every key of a type in the map `toHashMap`
   * builds; each `…QueriedFields` lemma names the values the queries of the
   * system read there.
   */
  lemma GuestLookups(vs: seq<string>)
    requires |vs| == 9
    ensures Get(Zip(GuestKeys, vs), "id") == Some(vs[0])
    ensures Get(Zip(GuestKeys, vs), "idType") == Some(vs[1])
    ensures Get(Zip(GuestKeys, vs), "name") == Some(vs[2])
    ensures Get(Zip(GuestKeys, vs), "address") == Some(vs[3])
    ensures Get(Zip(GuestKeys, vs), "country") == Some(vs[4])
    ensures Get(Zip(GuestKeys, vs), "gender") == Some(vs[5])
    ensures Get(Zip(GuestKeys, vs), "nationality") == Some(vs[6])
    ensures Get(Zip(GuestKeys, vs), "contact") == Some(vs[7])
    ensures Get(Zip(GuestKeys, vs), "creditCard") == Some(vs[8])
  {
    ZipLookups(GuestKeys, vs);
    assert GuestKeys[0] == "id";
    assert GuestKeys[1] == "idType";
    assert GuestKeys[2] == "name";
    assert GuestKeys[3] == "address";
    assert GuestKeys[4] == "country";
    assert GuestKeys[5] == "gender";
    assert GuestKeys[6] == "nationality";
    assert GuestKeys[7] == "contact";
    assert GuestKeys[8] == "creditCard";
  }

  lemma GuestQueriedFields(g: Guest, now: int)
    ensures FieldValue(GuestE(g), "id", now) == Some(g.id)
  {
    var vs := GuestValues(g);
    assert ToFields(GuestE(g), now) == Zip(GuestKeys, vs);
    GuestLookups(vs);
  }

  lemma RoomLookups(vs: seq<string>)
    requires |vs| == 11
    ensures Get(Zip(RoomKeys, vs), "roomId") == Some(vs[0])
    ensures Get(Zip(RoomKeys, vs), "roomType") == Some(vs[1])
    ensures Get(Zip(RoomKeys, vs), "roomRate") == Some(vs[2])
    ensures Get(Zip(RoomKeys, vs), "roomWeekendRate") == Some(vs[3])
    ensures Get(Zip(RoomKeys, vs), "roomFloor") == Some(vs[4])
    ensures Get(Zip(RoomKeys, vs), "roomNumber") == Some(vs[5])
    ensures Get(Zip(RoomKeys, vs), "wifiEnabled") == Some(vs[6])
    ensures Get(Zip(RoomKeys, vs), "smokingAllowed") == Some(vs[7])
    ensures Get(Zip(RoomKeys, vs), "bedType") == Some(vs[8])
    ensures Get(Zip(RoomKeys, vs), "facing") == Some(vs[9])
    ensures Get(Zip(RoomKeys, vs), "status") == Some(vs[10])
  {
    ZipLookups(RoomKeys, vs);
    assert RoomKeys[0] == "roomId";
    assert RoomKeys[1] == "roomType";
    assert RoomKeys[2] == "roomRate";
    assert RoomKeys[3] == "roomWeekendRate";
    assert RoomKeys[4] == "roomFloor";
    assert RoomKeys[5] == "roomNumber";
    assert RoomKeys[6] == "wifiEnabled";
    assert RoomKeys[7] == "smokingAllowed";
    assert RoomKeys[8] == "bedType";
    assert RoomKeys[9] == "facing";
    assert RoomKeys[10] == "status";
  }

  lemma RoomQueriedFields(r: Room, now: int)
    ensures FieldValue(RoomE(r), "roomId", now) == Some(RoomId(r))
    ensures FieldValue(RoomE(r), "roomType", now) == Some(r.roomType.Name())
    ensures FieldValue(RoomE(r), "status", now) == Some(r.status.Name())
  {
    var vs := RoomValues(r);
    assert ToFields(RoomE(r), now) == Zip(RoomKeys, vs);
    RoomLookups(vs);
  }

  lemma ReservationLookups(vs: seq<string>)
    requires |vs| == 8
    ensures Get(Zip(ReservationKeys, vs), "reservationCode") == Some(vs[0])
    ensures Get(Zip(ReservationKeys, vs), "reservationStatus") == Some(vs[1])
    ensures Get(Zip(ReservationKeys, vs), "numberOfChildren") == Some(vs[2])
    ensures Get(Zip(ReservationKeys, vs), "numberOfAdult") == Some(vs[3])
    ensures Get(Zip(ReservationKeys, vs), "checkInDate") == Some(vs[4])
    ensures Get(Zip(ReservationKeys, vs), "checkOutDate") == Some(vs[5])
    ensures Get(Zip(ReservationKeys, vs), "guestId") == Some(vs[6])
    ensures Get(Zip(ReservationKeys, vs), "roomId") == Some(vs[7])
  {
    ZipLookups(ReservationKeys, vs);
    assert ReservationKeys[0] == "reservationCode";
    assert ReservationKeys[1] == "reservationStatus";
    assert ReservationKeys[2] == "numberOfChildren";
    assert ReservationKeys[3] == "numberOfAdult";
    assert ReservationKeys[4] == "checkInDate";
    assert ReservationKeys[5] == "checkOutDate";
    assert ReservationKeys[6] == "guestId";
    assert ReservationKeys[7] == "roomId";
  }

  lemma ReservationQueriedFields(r: Reservation, now: int)
    ensures FieldValue(ReservationE(r), "reservationCode", now) == Some(ReservationCode(r, now))
    ensures FieldValue(ReservationE(r), "reservationStatus", now) == Some(r.status.Name())
    ensures FieldValue(ReservationE(r), "guestId", now) == Some(r.guestId)
    ensures FieldValue(ReservationE(r), "roomId", now) == Some(r.roomId)
  {
    var vs := ReservationValues(r, now);
    assert ToFields(ReservationE(r), now) == Zip(ReservationKeys, vs);
    ReservationLookups(vs);
  }

  lemma MenuItemLookups(vs: seq<string>)
    requires |vs| == 4
    ensures Get(Zip(MenuItemKeys, vs), "name") == Some(vs[0])
    ensures Get(Zip(MenuItemKeys, vs), "description") == Some(vs[1])
    ensures Get(Zip(MenuItemKeys, vs), "prepSteps") == Some(vs[2])
    ensures Get(Zip(MenuItemKeys, vs), "price") == Some(vs[3])
  {
    ZipLookups(MenuItemKeys, vs);
    assert MenuItemKeys[0] == "name";
    assert MenuItemKeys[1] == "description";
    assert MenuItemKeys[2] == "prepSteps";
    assert MenuItemKeys[3] == "price";
  }

  lemma MenuItemQueriedFields(m: MenuItem, now: int)
    ensures FieldValue(MenuItemE(m), "name", now) == Some(m.name)
  {
    var vs := MenuItemValues(m);
    assert ToFields(MenuItemE(m), now) == Zip(MenuItemKeys, vs);
    MenuItemLookups(vs);
  }

  lemma OrderItemLookups(vs: seq<string>)
    requires |vs| == 4
    ensures Get(Zip(OrderItemKeys, vs), "name") == Some(vs[0])
    ensures Get(Zip(OrderItemKeys, vs), "price") == Some(vs[1])
    ensures Get(Zip(OrderItemKeys, vs), "rsId") == Some(vs[2])
    ensures Get(Zip(OrderItemKeys, vs), "qty") == Some(vs[3])
  {
    ZipLookups(OrderItemKeys, vs);
    assert OrderItemKeys[0] == "name";
    assert OrderItemKeys[1] == "price";
    assert OrderItemKeys[2] == "rsId";
    assert OrderItemKeys[3] == "qty";
  }

  lemma OrderItemQueriedFields(o: OrderItem, now: int)
    ensures FieldValue(OrderItemE(o), "rsId", now) == Some(o.rsId)
  {
    var vs := OrderItemValues(o);
    assert ToFields(OrderItemE(o), now) == Zip(OrderItemKeys, vs);
    OrderItemLookups(vs);
  }

  lemma RoomServiceLookups(vs: seq<string>)
    requires |vs| == 5
    ensures Get(Zip(RoomServiceKeys, vs), "id") == Some(vs[0])
    ensures Get(Zip(RoomServiceKeys, vs), "remarks") == Some(vs[1])
    ensures Get(Zip(RoomServiceKeys, vs), "status") == Some(vs[2])
    ensures Get(Zip(RoomServiceKeys, vs), "created") == Some(vs[3])
    ensures Get(Zip(RoomServiceKeys, vs), "reservationId") == Some(vs[4])
  {
    ZipLookups(RoomServiceKeys, vs);
    assert RoomServiceKeys[0] == "id";
    assert RoomServiceKeys[1] == "remarks";
    assert RoomServiceKeys[2] == "status";
    assert RoomServiceKeys[3] == "created";
    assert RoomServiceKeys[4] == "reservationId";
  }

  lemma RoomServiceQueriedFields(rs: RoomService, now: int)
    ensures FieldValue(RoomServiceE(rs), "id", now) == Some(ServiceId(rs, now))
    ensures FieldValue(RoomServiceE(rs), "status", now) == Some(rs.status.Name())
    ensures FieldValue(RoomServiceE(rs), "reservationId", now) == Some(rs.reservationId)
  {
    var vs := RoomServiceValues(rs, now);
    assert ToFields(RoomServiceE(rs), now) == Zip(RoomServiceKeys, vs);
    RoomServiceLookups(vs);
  }

  // ---------------------------------------------------------------------------
  // loadHashMap
  // ---------------------------------------------------------------------------

  /** Every key the loader of a type reads must be present. */
  function Need(m: FieldMap, key: string): Option<string> {
    Get(m, key)
  }

  function LoadGuest(m: FieldMap): Option<Guest> {
    var id := Need(m, "id");
    var idType := Need(m, "idType");
    var name := Need(m, "name");
    var address := Need(m, "address");
    var country := Need(m, "country");
    var gender := Need(m, "gender");
    var nationality := Need(m, "nationality");
    var contact := Need(m, "contact");
    var card := Need(m, "creditCard");
    if id.None? || idType.None? || name.None? || address.None? || country.None? || gender.None?
      || nationality.None? || contact.None? || card.None? then None
    else
      match IdTypeNamed(idType.value)
      case None => None
      case Some(t) =>
        Some(Guest(id.value, t, name.value, address.value, country.value, gender.value,
                   nationality.value, contact.value, card.value))
  }

  /** `Room.loadHashMap` reads every field but the derived `roomId`. */
  function LoadRoom(m: FieldMap): Option<Room> {
    var roomType := Need(m, "roomType").Then(RoomTypeNamed);
    var rate := Need(m, "roomRate").Then(ParseMoney);
    var weekendRate := Need(m, "roomWeekendRate").Then(ParseMoney);
    var floor := Need(m, "roomFloor").Then(ParseInt);
    var number := Need(m, "roomNumber").Then(ParseInt);
    var wifi := Need(m, "wifiEnabled");
    var smoking := Need(m, "smokingAllowed");
    var bed := Need(m, "bedType").Then(BedTypeNamed);
    var facing := Need(m, "facing").Then(FacingNamed);
    var status := Need(m, "status").Then(RoomStatusNamed);
    if roomType.None? || rate.None? || weekendRate.None? || floor.None? || number.None? || wifi.None?
      || smoking.None? || bed.None? || facing.None? || status.None? then None
    else
      Some(Room(roomType.value, rate.value, weekendRate.value, floor.value, number.value,
                ParseBool(wifi.value), ParseBool(smoking.value), bed.value, facing.value, status.value))
  }

  function LoadReservation(m: FieldMap): (r: Option<Reservation>)
    ensures r.Some? ==> r.value.code.Some?
  {
    var code := Need(m, "reservationCode");
    var status := Need(m, "reservationStatus").Then(ReservationStatusNamed);
    var children := Need(m, "numberOfChildren").Then(ParseInt);
    var adults := Need(m, "numberOfAdult").Then(ParseInt);
    var checkIn := Need(m, "checkInDate").Then(ParseDate);
    var checkOut := Need(m, "checkOutDate").Then(ParseDate);
    var guestId := Need(m, "guestId");
    var roomId := Need(m, "roomId");
    if code.None? || status.None? || children.None? || adults.None? || checkIn.None? || checkOut.None?
      || guestId.None? || roomId.None? then None
    else
      Some(Reservation(code, status.value, children.value, adults.value, checkIn.value, checkOut.value,
                       guestId.value, roomId.value, false))
  }

  function LoadMenuItem(m: FieldMap): Option<MenuItem> {
    var name := Need(m, "name");
    var description := Need(m, "description");
    var prepSteps := Need(m, "prepSteps");
    var price := Need(m, "price").Then(ParseMoney);
    if name.None? || description.None? || prepSteps.None? || price.None? then None
    else Some(MenuItem(name.value, description.value, prepSteps.value, price.value))
  }

  function LoadOrderItem(m: FieldMap): Option<OrderItem> {
    var name := Need(m, "name");
    var price := Need(m, "price").Then(ParseMoney);
    var rsId := Need(m, "rsId");
    var qty := Need(m, "qty").Then(ParseInt);
    if name.None? || price.None? || rsId.None? || qty.None? then None
    else Some(OrderItem(name.value, price.value, rsId.value, qty.value))
  }

  /** `RoomService.loadHashMap` ignores the derived `id`; the room is resolved after loading. */
  function LoadRoomService(m: FieldMap): (r: Option<RoomService>)
    ensures r.Some? ==> r.value.created.Some?
  {
    var remarks := Need(m, "remarks");
    var status := Need(m, "status").Then(OrderStatusNamed);
    var created := Need(m, "created").Then(ParseDate);
    var reservationId := Need(m, "reservationId");
    if remarks.None? || status.None? || created.None? || reservationId.None? then None
    else Some(RoomService(remarks.value, status.value, created, reservationId.value, "", []))
  }

  /** `loadHashMap` of the given type on a fresh object. */
  function FromFields(k: Kind, m: FieldMap): (r: Option<Entity>)
  {
    match k
    case GuestKind => (match LoadGuest(m) case Some(g) => Some(GuestE(g)) case None => None)
    case RoomKind => (match LoadRoom(m) case Some(r) => Some(RoomE(r)) case None => None)
    case ReservationKind => (match LoadReservation(m) case Some(r) => Some(ReservationE(r)) case None => None)
    case MenuItemKind => (match LoadMenuItem(m) case Some(i) => Some(MenuItemE(i)) case None => None)
    case OrderItemKind => (match LoadOrderItem(m) case Some(o) => Some(OrderItemE(o)) case None => None)
    case RoomServiceKind => (match LoadRoomService(m) case Some(s) => Some(RoomServiceE(s)) case None => None)
  }

  /** A loaded entity has the requested type and no value left to produce. */
  lemma FromFieldsKind(k: Kind, m: FieldMap)
    ensures FromFields(k, m).Some? ==> KindOf(FromFields(k, m).value) == k && Settled(FromFields(k, m).value)
  {
  }

  // ---------------------------------------------------------------------------
  // Entity -> map -> entity
  // ---------------------------------------------------------------------------

  lemma GuestRoundTrip(g: Guest)
    ensures LoadGuest(Zip(GuestKeys, GuestValues(g))) == Some(g)
  {
    GuestLookups(GuestValues(g));
    NamesRoundTrip();
  }

  /** A map holding the texts of a room's fields loads as that room. */
  lemma LoadRoomOf(m: FieldMap, r: Room)
    requires Need(m, "roomType") == Some(r.roomType.Name())
    requires Need(m, "roomRate") == Some(MoneyText(r.rate))
    requires Need(m, "roomWeekendRate") == Some(MoneyText(r.weekendRate))
    requires Need(m, "roomFloor") == Some(IntText(r.floor))
    requires Need(m, "roomNumber") == Some(IntText(r.number))
    requires Need(m, "wifiEnabled") == Some(BoolText(r.wifi))
    requires Need(m, "smokingAllowed") == Some(BoolText(r.smoking))
    requires Need(m, "bedType") == Some(r.bed.Name())
    requires Need(m, "facing") == Some(r.facing.Name())
    requires Need(m, "status") == Some(r.status.Name())
    ensures LoadRoom(m) == Some(r)
  {
    NamesRoundTrip();
    MoneyRoundTrip(r.rate);
    MoneyRoundTrip(r.weekendRate);
    IntRoundTrip(r.floor);
    IntRoundTrip(r.number);
    BoolRoundTrip(r.wifi);
    BoolRoundTrip(r.smoking);
  }

  lemma RoomRoundTrip(r: Room)
    ensures LoadRoom(Zip(RoomKeys, RoomValues(r))) == Some(r)
  {
    RoomLookups(RoomValues(r));
    LoadRoomOf(Zip(RoomKeys, RoomValues(r)), r);
  }

  /** The reservation read back has its code, its instants cut to the minute and no walk-in flag. */
  lemma ReservationRoundTrip(r: Reservation, now: int)
    ensures LoadReservation(Zip(ReservationKeys, ReservationValues(r, now))) ==
      Some(r.(code := Some(ReservationCode(r, now)), checkIn := MinuteFloor(r.checkIn),
              checkOut := MinuteFloor(r.checkOut), walkIn := false))
  {
    ReservationLookups(ReservationValues(r, now));
    NamesRoundTrip();
    IntRoundTrip(r.children);
    IntRoundTrip(r.adults);
    DateRoundTrip(r.checkIn);
    DateRoundTrip(r.checkOut);
  }

  lemma MenuItemRoundTrip(i: MenuItem)
    ensures LoadMenuItem(Zip(MenuItemKeys, MenuItemValues(i))) == Some(i)
  {
    MenuItemLookups(MenuItemValues(i));
    MoneyRoundTrip(i.price);
  }

  lemma OrderItemRoundTrip(o: OrderItem)
    ensures LoadOrderItem(Zip(OrderItemKeys, OrderItemValues(o))) == Some(o)
  {
    OrderItemLookups(OrderItemValues(o));
    MoneyRoundTrip(o.price);
    IntRoundTrip(o.qty);
  }

  /** The order read back has its creation stamp cut to the minute and no lines or resolved room yet. */
  lemma RoomServiceRoundTrip(rs: RoomService, now: int)
    ensures LoadRoomService(Zip(RoomServiceKeys, RoomServiceValues(rs, now))) ==
      Some(rs.(created := Some(MinuteFloor(Created(rs, now))), roomId := "", items := []))
  {
    RoomServiceLookups(RoomServiceValues(rs, now));
    NamesRoundTrip();
    DateRoundTrip(Created(rs, now));
  }

  /**
   * `loadHashMap(toHashMap())`: reading back the fields of an entity gives
   * the part of it that its data file keeps.
   */
  lemma FieldsRoundTrip(e: Entity, now: int)
    ensures FromFields(KindOf(e), ToFields(e, now)) == Some(Stored(Settle(e, now)))
  {
    match e
    case GuestE(g) =>
      assert ToFields(e, now) == Zip(GuestKeys, GuestValues(g));
      GuestRoundTrip(g);
    case RoomE(r) =>
      assert ToFields(e, now) == Zip(RoomKeys, RoomValues(r));
      RoomRoundTrip(r);
    case ReservationE(r) =>
      assert ToFields(e, now) == Zip(ReservationKeys, ReservationValues(r, now));
      ReservationRoundTrip(r, now);
    case MenuItemE(i) =>
      assert ToFields(e, now) == Zip(MenuItemKeys, MenuItemValues(i));
      MenuItemRoundTrip(i);
    case OrderItemE(o) =>
      assert ToFields(e, now) == Zip(OrderItemKeys, OrderItemValues(o));
      OrderItemRoundTrip(o);
    case RoomServiceE(rs) =>
      assert ToFields(e, now) == Zip(RoomServiceKeys, RoomServiceValues(rs, now));
      RoomServiceRoundTrip(rs, now);
  }

  // ---------------------------------------------------------------------------
  // Map -> guest -> map
  // ---------------------------------------------------------------------------

  /**
   * `toHashMap(loadHashMap(m))` for a guest: the nine fields are read from `m`
   * and written back unchanged, whatever order `m` held them in.
   */
  lemma GuestMapRoundTrip(m: FieldMap, now: int)
    requires LoadGuest(m).Some?
    ensures forall i :: 0 <= i < |GuestKeys| ==>
      FieldValue(GuestE(LoadGuest(m).value), GuestKeys[i], now) == Get(m, GuestKeys[i])
  {
    var g := LoadGuest(m).value;
    var vs := GuestValues(g);
    forall i | 0 <= i < |GuestKeys|
      ensures Get(Zip(GuestKeys, vs), GuestKeys[i]) == Get(m, GuestKeys[i])
    {
      GetZipAt(GuestKeys, vs, GuestKeys[i], i);
    }
  }
}
