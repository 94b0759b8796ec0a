/**
 * The enumerations of the entities (Room.java, Guest.java, Reservation.java,
 * RoomService.java).  `Name` is Java's `toString` of a constant and the
 * `…Named` functions are `valueOf`: an exact, case-sensitive match of the
 * constant's name.
 */
module Enums {
  import opened Options
  import opened Text

  datatype RoomStatus = Vacant | Occupied | Reserved | UnderMaintenance {
    function Name(): string {
      match this
      case Vacant => "VACANT"
      case Occupied => "OCCUPIED"
      case Reserved => "RESERVED"
      case UnderMaintenance => "UNDER_MAINTENANCE"
    }
  }

  datatype RoomType = Single | Standard | Deluxe | Vip {
    function Name(): string {
      match this
      case Single => "SINGLE"
      case Standard => "STANDARD"
      case Deluxe => "DELUXE"
      case Vip => "VIP"
    }
  }

  datatype BedType = SingleBed | DoubleBed | MasterBed {
    function Name(): string {
      match this
      case SingleBed => "SINGLE_BED"
      case DoubleBed => "DOUBLE_BED"
      case MasterBed => "MASTER_BED"
    }
  }

  datatype Facing = SeaView | CityView | MountainView | NoView {
    function Name(): string {
      match this
      case SeaView => "SEA_VIEW"
      case CityView => "CITY_VIEW"
      case MountainView => "MOUNTAIN_VIEW"
      case NoView => "NO_VIEW"
    }
  }

  datatype IdType = Passport | DrivingLicense {
    function Name(): string {
      match this
      case Passport => "PASSPORT"
      case DrivingLicense => "DRIVING_LICENSE"
    }
  }

  datatype ReservationStatus = Confirmed | Waitlist | CheckedIn | CheckedOut | Expired {
    function Name(): string {
      match this
      case Confirmed => "CONFIRMED"
      case Waitlist => "WAITLIST"
      case CheckedIn => "CHECKED_IN"
      case CheckedOut => "CHECKED_OUT"
      case Expired => "EXPIRED"
    }
  }

  datatype OrderStatus = OrderConfirmed | Preparing | Delivered {
    function Name(): string {
      match this
      case OrderConfirmed => "CONFIRMED"
      case Preparing => "PREPARING"
      case Delivered => "DELIVERED"
    }
  }

  /** `values()` of the two enumerations the reports walk, in declaration order. */
  const AllRoomStatuses: seq<RoomStatus> := [Vacant, Occupied, Reserved, UnderMaintenance]
  const AllRoomTypes: seq<RoomType> := [Single, Standard, Deluxe, Vip]

  function RoomStatusNamed(s: string): (r: Option<RoomStatus>)
    ensures r.Some? ==> r.value.Name() == s
  {
    if s == "VACANT" then Some(Vacant)
    else if s == "OCCUPIED" then Some(Occupied)
    else if s == "RESERVED" then Some(Reserved)
    else if s == "UNDER_MAINTENANCE" then Some(UnderMaintenance)
    else None
  }

  function RoomTypeNamed(s: string): (r: Option<RoomType>)
    ensures r.Some? ==> r.value.Name() == s
  {
    if s == "SINGLE" then Some(Single)
    else if s == "STANDARD" then Some(Standard)
    else if s == "DELUXE" then Some(Deluxe)
    else if s == "VIP" then Some(Vip)
    else None
  }

  function BedTypeNamed(s: string): (r: Option<BedType>)
    ensures r.Some? ==> r.value.Name() == s
  {
    if s == "SINGLE_BED" then Some(SingleBed)
    else if s == "DOUBLE_BED" then Some(DoubleBed)
    else if s == "MASTER_BED" then Some(MasterBed)
    else None
  }

  function FacingNamed(s: string): (r: Option<Facing>)
    ensures r.Some? ==> r.value.Name() == s
  {
    if s == "SEA_VIEW" then Some(SeaView)
    else if s == "CITY_VIEW" then Some(CityView)
    else if s == "MOUNTAIN_VIEW" then Some(MountainView)
    else if s == "NO_VIEW" then Some(NoView)
    else None
  }

  function IdTypeNamed(s: string): (r: Option<IdType>)
    ensures r.Some? ==> r.value.Name() == s
  {
    if s == "PASSPORT" then Some(Passport)
    else if s == "DRIVING_LICENSE" then Some(DrivingLicense)
    else None
  }

  function ReservationStatusNamed(s: string): (r: Option<ReservationStatus>)
    ensures r.Some? ==> r.value.Name() == s
  {
    if s == "CONFIRMED" then Some(Confirmed)
    else if s == "WAITLIST" then Some(Waitlist)
    else if s == "CHECKED_IN" then Some(CheckedIn)
    else if s == "CHECKED_OUT" then Some(CheckedOut)
    else if s == "EXPIRED" then Some(Expired)
    else None
  }

  function OrderStatusNamed(s: string): (r: Option<OrderStatus>)
    ensures r.Some? ==> r.value.Name() == s
  {
    if s == "CONFIRMED" then Some(OrderConfirmed)
    else if s == "PREPARING" then Some(Preparing)
    else if s == "DELIVERED" then Some(Delivered)
    else None
  }

  /** Every constant is found again by its name. */
  lemma NamesRoundTrip()
    ensures forall x: RoomStatus :: RoomStatusNamed(x.Name()) == Some(x)
    ensures forall x: RoomType :: RoomTypeNamed(x.Name()) == Some(x)
    ensures forall x: BedType :: BedTypeNamed(x.Name()) == Some(x)
    ensures forall x: Facing :: FacingNamed(x.Name()) == Some(x)
    ensures forall x: IdType :: IdTypeNamed(x.Name()) == Some(x)
    ensures forall x: ReservationStatus :: ReservationStatusNamed(x.Name()) == Some(x)
    ensures forall x: OrderStatus :: OrderStatusNamed(x.Name()) == Some(x)
  {
  }

  /** The names of the constants the query engine compares are written in capitals. */
  lemma NamesInCapitals()
    ensures forall x: RoomStatus :: NoLowercase(x.Name())
    ensures forall x: RoomType :: NoLowercase(x.Name())
    ensures forall x: ReservationStatus :: NoLowercase(x.Name())
    ensures forall x: OrderStatus :: NoLowercase(x.Name())
  {
  }

  /**
   * Because the names are in capitals, the case-insensitive comparison of
   * the query engine tells two constants apart exactly when they differ.
   */
  lemma NamesCaseless()
    ensures forall a: RoomStatus, b: RoomStatus :: Lower(a.Name()) == Lower(b.Name()) <==> a == b
    ensures forall a: RoomType, b: RoomType :: Lower(a.Name()) == Lower(b.Name()) <==> a == b
    ensures forall a: ReservationStatus, b: ReservationStatus :: Lower(a.Name()) == Lower(b.Name()) <==> a == b
    ensures forall a: OrderStatus, b: OrderStatus :: Lower(a.Name()) == Lower(b.Name()) <==> a == b
  {
    NamesInCapitals();
    forall a: RoomStatus, b: RoomStatus | Lower(a.Name()) == Lower(b.Name()) ensures a == b {
      LowerInjective(a.Name(), b.Name());
    }
    forall a: RoomType, b: RoomType | Lower(a.Name()) == Lower(b.Name()) ensures a == b {
      LowerInjective(a.Name(), b.Name());
    }
    forall a: ReservationStatus, b: ReservationStatus | Lower(a.Name()) == Lower(b.Name()) ensures a == b {
      LowerInjective(a.Name(), b.Name());
    }
    forall a: OrderStatus, b: OrderStatus | Lower(a.Name()) == Lower(b.Name()) ensures a == b {
      LowerInjective(a.Name(), b.Name());
    }
  }

  lemma ReservationStatusLowerNames(a: ReservationStatus)
    ensures Lower(a.Name()) == match a
      case Confirmed => "confirmed"
      case Waitlist => "waitlist"
      case CheckedIn => "checked_in"
      case CheckedOut => "checked_out"
      case Expired => "expired"
  {
  }

  /** A letter of a status's lower-cased name that no other name at least as long has. */
  function OwnLetter(b: ReservationStatus): char {
    match b
    case Confirmed => 'f'
    case Waitlist => 'w'
    case CheckedIn => 'i'
    case CheckedOut => 'u'
    case Expired => 'x'
  }

  lemma OwnLetterOnlyIn(a: ReservationStatus, b: ReservationStatus)
    ensures OwnLetter(b) in Lower(b.Name())
    ensures OwnLetter(b) in Lower(a.Name()) && |b.Name()| <= |a.Name()| ==> a == b
  {
    ReservationStatusLowerNames(a);
    ReservationStatusLowerNames(b);
    match b
    case Confirmed =>
    case Waitlist =>
    case CheckedIn =>
    case CheckedOut =>
    case Expired =>
  }

  /**
   * No reservation status's name contains another's, ignoring case, so the
   * partial match of the query engine also tells the statuses apart.
   */
  lemma ReservationStatusNamesContain(a: ReservationStatus, b: ReservationStatus)
    ensures Contains(Lower(a.Name()), Lower(b.Name())) <==> a == b
  {
    if Contains(Lower(a.Name()), Lower(b.Name())) {
      ContainedChars(Lower(a.Name()), Lower(b.Name()));
      OwnLetterOnlyIn(a, b);
    } else {
      ContainsSelf(Lower(a.Name()));
    }
  }

  /** The names are written in visible characters only. */
  lemma RoomStatusNamePrintable(x: RoomStatus)
    ensures Printable(x.Name())
  {
  }

  lemma RoomTypeNamePrintable(x: RoomType)
    ensures Printable(x.Name())
  {
  }

  lemma BedTypeNamePrintable(x: BedType)
    ensures Printable(x.Name())
  {
  }

  lemma FacingNamePrintable(x: Facing)
    ensures Printable(x.Name())
  {
  }
}
