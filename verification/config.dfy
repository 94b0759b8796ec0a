/**
 * The shared constants of the hotel system (Config.java): one data file per
 * entity type, and the grace period after which an unclaimed reservation
 * expires.  Time is counted in milliseconds since the epoch, as `Date` does.
 */
module Config {

  /** The entity types that have a data file. */
  datatype Kind = GuestKind | RoomKind | ReservationKind | MenuItemKind | OrderItemKind | RoomServiceKind

  const AllKinds: seq<Kind> := [GuestKind, RoomKind, ReservationKind, MenuItemKind, OrderItemKind, RoomServiceKind]

  /** The data file of each type. */
  function FileName(k: Kind): string {
    match k
    case GuestKind => "guest.txt"
    case RoomKind => "room.txt"
    case ReservationKind => "reservation.txt"
    case MenuItemKind => "menuitem.txt"
    case OrderItemKind => "omenuitem.txt"
    case RoomServiceKind => "roomservice.txt"
  }

  /** Every type is configured, and no two types share a data file. */
  lemma FilesConfigured()
    ensures forall k: Kind :: k in AllKinds
    ensures forall a: Kind, b: Kind :: FileName(a) == FileName(b) ==> a == b
  {
    forall k: Kind ensures k in AllKinds {
      match k
      case GuestKind => assert AllKinds[0] == k;
      case RoomKind => assert AllKinds[1] == k;
      case ReservationKind => assert AllKinds[2] == k;
      case MenuItemKind => assert AllKinds[3] == k;
      case OrderItemKind => assert AllKinds[4] == k;
      case RoomServiceKind => assert AllKinds[5] == k;
    }
  }

  /** Hours a CONFIRMED reservation is held past its check-in time. */
  const ExpireHours: int := 1

  const MinuteMs: int := 60_000
  const HourMs: int := 3_600_000
  const DayMs: int := 86_400_000
}
