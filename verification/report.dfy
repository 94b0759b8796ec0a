/**
 * The reports of Report.java: the rooms listed under each room status, and,
 * for each room type, the rooms of that type split into those with a given
 * status and the others.  Both read the cached rooms through `findAll`.
 */
module Report {
  import opened Options
  import opened Config
  import opened Enums
  import opened Entities
  import opened Fields
  import opened EntityStore
  import opened Rules
  import Seqs

  /** `RoomStatus.values()` and `RoomType.values()`, in declaration order. */
  const RoomStatuses: seq<RoomStatus> := [Vacant, Occupied, Reserved, UnderMaintenance]
  const RoomTypes: seq<RoomType> := [Single, Standard, Deluxe, Vip]

  lemma EveryConstantListed()
    ensures forall st: RoomStatus :: st in RoomStatuses
    ensures forall rt: RoomType :: rt in RoomTypes
  {
    forall st: RoomStatus ensures st in RoomStatuses {
      match st
      case Vacant => assert RoomStatuses[0] == st;
      case Occupied => assert RoomStatuses[1] == st;
      case Reserved => assert RoomStatuses[2] == st;
      case UnderMaintenance => assert RoomStatuses[3] == st;
    }
    forall rt: RoomType ensures rt in RoomTypes {
      match rt
      case Single => assert RoomTypes[0] == rt;
      case Standard => assert RoomTypes[1] == rt;
      case Deluxe => assert RoomTypes[2] == rt;
      case Vip => assert RoomTypes[3] == rt;
    }
  }

  predicate HasStatus(rec: Record, st: RoomStatus) {
    rec.entity.RoomE? && rec.entity.room.status == st
  }

  predicate HasType(rec: Record, rt: RoomType) {
    rec.entity.RoomE? && rec.entity.room.roomType == rt
  }

  /** The rooms of a list with the status, in list order. */
  function StatusIs(list: seq<Record>, st: RoomStatus): (r: seq<Record>)
    ensures forall rec :: rec in r <==> rec in list && HasStatus(rec, st)
    decreases |list|
  {
    if |list| == 0 then [] else (if HasStatus(list[0], st) then [list[0]] else []) + StatusIs(list[1..], st)
  }

  /** The objects of a list without the status, in list order. */
  function StatusIsNot(list: seq<Record>, st: RoomStatus): (r: seq<Record>)
    ensures forall rec :: rec in r <==> rec in list && !HasStatus(rec, st)
    decreases |list|
  {
    if |list| == 0 then [] else (if HasStatus(list[0], st) then [] else [list[0]]) + StatusIsNot(list[1..], st)
  }

  /** The rooms of a list of the type, in list order. */
  function TypeIs(list: seq<Record>, rt: RoomType): (r: seq<Record>)
    ensures forall rec :: rec in r <==> rec in list && HasType(rec, rt)
    decreases |list|
  {
    if |list| == 0 then [] else (if HasType(list[0], rt) then [list[0]] else []) + TypeIs(list[1..], rt)
  }

  // ---------------------------------------------------------------------------
  // Queries behind the reports
  // ---------------------------------------------------------------------------

  lemma {:induction false} SelectedStatus(list: seq<Record>, st: RoomStatus, now: int)
    requires forall i :: 0 <= i < |list| ==> list[i].entity.RoomE?
    ensures Selected(list, "status", st.Name(), now) == StatusIs(list, st)
    decreases |list|
  {
    if |list| > 0 {
      SelectedStatus(list[1..], st, now);
      RoomQueriedFields(list[0].entity.room, now);
      NamesCaseless();
    }
  }

  lemma {:induction false} SelectedType(list: seq<Record>, rt: RoomType, now: int)
    requires forall i :: 0 <= i < |list| ==> list[i].entity.RoomE?
    ensures Selected(list, "roomType", rt.Name(), now) == TypeIs(list, rt)
    decreases |list|
  {
    if |list| > 0 {
      SelectedType(list[1..], rt, now);
      RoomQueriedFields(list[0].entity.room, now);
      NamesCaseless();
    }
  }

  /** On a valid store, `findAll("status", …)` lists the rooms with the status, in cache order. */
  lemma RoomsWithStatus(s: Store, st: RoomStatus, now: int)
    requires Valid(s)
    ensures FindAll(s, RoomKind, true, -1, ["status", st.Name()], now) == Ok(StatusIs(s.tables[RoomKind], st))
  {
    var rooms := s.tables[RoomKind];
    assert TableOk(RoomKind, rooms, s.nextHandle);
    forall i | 0 <= i < |rooms| ensures FieldValue(rooms[i].entity, "status", now).Some? {
      RoomQueriedFields(rooms[i].entity.room, now);
    }
    FindAllSelected(s, RoomKind, "status", st.Name(), now);
    SelectedStatus(rooms, st, now);
  }

  /** On a valid store, `findAll("roomType", …)` lists the rooms of the type, in cache order. */
  lemma RoomsOfType(s: Store, rt: RoomType, now: int)
    requires Valid(s)
    ensures FindAll(s, RoomKind, true, -1, ["roomType", rt.Name()], now) == Ok(TypeIs(s.tables[RoomKind], rt))
  {
    var rooms := s.tables[RoomKind];
    assert TableOk(RoomKind, rooms, s.nextHandle);
    forall i | 0 <= i < |rooms| ensures FieldValue(rooms[i].entity, "roomType", now).Some? {
      RoomQueriedFields(rooms[i].entity.room, now);
    }
    FindAllSelected(s, RoomKind, "roomType", rt.Name(), now);
    SelectedType(rooms, rt, now);
  }

  // ---------------------------------------------------------------------------
  // genRoomStatus
  // ---------------------------------------------------------------------------

  /** One entry per status of the list: its name and the rooms `findAll` returns for it. */
  function StatusEntries(s: Store, sts: seq<RoomStatus>, now: int): Result<seq<(string, seq<Record>)>, Fault>
    requires Complete(s)
    decreases |sts|
  {
    if |sts| == 0 then Ok([])
    else
      match FindAll(s, RoomKind, true, -1, ["status", sts[0].Name()], now)
      case Err(e) => Err(QueryFault(e))
      case Ok(rooms) =>
        match StatusEntries(s, sts[1..], now)
        case Err(f) => Err(f)
        case Ok(rest) => Ok([(sts[0].Name(), rooms)] + rest)
  }

  /** `genRoomStatus`: the rooms under each room status, in the order of the constants. */
  function GenRoomStatus(s: Store, now: int): Result<seq<(string, seq<Record>)>, Fault>
    requires Complete(s)
  {
    StatusEntries(s, RoomStatuses, now)
  }

  lemma {:induction false} StatusEntriesSpec(s: Store, sts: seq<RoomStatus>, now: int)
    requires Valid(s)
    ensures StatusEntries(s, sts, now).Ok?
    ensures |StatusEntries(s, sts, now).value| == |sts|
    ensures forall i :: 0 <= i < |sts| ==>
      StatusEntries(s, sts, now).value[i] == (sts[i].Name(), StatusIs(s.tables[RoomKind], sts[i]))
    decreases |sts|
  {
    if |sts| > 0 {
      RoomsWithStatus(s, sts[0], now);
      StatusEntriesSpec(s, sts[1..], now);
    }
  }

  /**
   * On a valid store the report has one entry per room status, in the
   * order of the constants, named by the status and listing exactly the
   * cached rooms with that status, in cache order.
   */
  lemma GenRoomStatusSpec(s: Store, now: int)
    requires Valid(s)
    ensures GenRoomStatus(s, now).Ok?
    ensures |GenRoomStatus(s, now).value| == |RoomStatuses|
    ensures forall i :: 0 <= i < |RoomStatuses| ==>
      GenRoomStatus(s, now).value[i] == (RoomStatuses[i].Name(), StatusIs(s.tables[RoomKind], RoomStatuses[i]))
  {
    StatusEntriesSpec(s, RoomStatuses, now);
  }

  /**
   * Each room of a list is under exactly one status, and the lists of the
   * four statuses are together exactly as long as the list.
   */
  lemma {:induction false} StatusesPartition(list: seq<Record>)
    requires forall i :: 0 <= i < |list| ==> list[i].entity.RoomE?
    ensures |StatusIs(list, Vacant)| + |StatusIs(list, Occupied)| +
      |StatusIs(list, Reserved)| + |StatusIs(list, UnderMaintenance)| == |list|
    decreases |list|
  {
    if |list| > 0 {
      StatusesPartition(list[1..]);
      StatusIsHead(list, Vacant);
      StatusIsHead(list, Occupied);
      StatusIsHead(list, Reserved);
      StatusIsHead(list, UnderMaintenance);
    }
  }

  /**
   * Each room of a list is of exactly one type, and the lists of the four
   * types are together exactly as long as the list.
   */
  lemma {:induction false} TypesPartition(list: seq<Record>)
    requires forall i :: 0 <= i < |list| ==> list[i].entity.RoomE?
    ensures |TypeIs(list, Single)| + |TypeIs(list, Standard)| + |TypeIs(list, Deluxe)| + |TypeIs(list, Vip)| == |list|
    decreases |list|
  {
    if |list| > 0 {
      TypesPartition(list[1..]);
      TypeIsHead(list, Single);
      TypeIsHead(list, Standard);
      TypeIsHead(list, Deluxe);
      TypeIsHead(list, Vip);
    }
  }

  lemma StatusIsHead(list: seq<Record>, st: RoomStatus)
    requires |list| > 0
    ensures |StatusIs(list, st)| == (if HasStatus(list[0], st) then 1 else 0) + |StatusIs(list[1..], st)|
  {
  }

  lemma TypeIsHead(list: seq<Record>, rt: RoomType)
    requires |list| > 0
    ensures |TypeIs(list, rt)| == (if HasType(list[0], rt) then 1 else 0) + |TypeIs(list[1..], rt)|
  {
  }

  // ---------------------------------------------------------------------------
  // genRoomTypeOccupancy
  // ---------------------------------------------------------------------------

  /** The inner loop of `genRoomTypeOccupancy`: each room goes to `matched` when it has the status, else to `unmatched`. */
  function Split(found: seq<Record>, st: RoomStatus): (r: (seq<Record>, seq<Record>))
    decreases |found|
  {
    if |found| == 0 then ([], [])
    else
      var (matched, unmatched) := Split(found[1..], st);
      if found[0].entity.RoomE? && found[0].entity.room.status == st then ([found[0]] + matched, unmatched)
      else (matched, [found[0]] + unmatched)
  }

  /** The split puts the rooms with the status on the left and the others on the right, each side in list order. */
  lemma {:induction false} SplitSides(found: seq<Record>, st: RoomStatus)
    ensures Split(found, st) == (StatusIs(found, st), StatusIsNot(found, st))
    decreases |found|
  {
    if |found| > 0 {
      SplitSides(found[1..], st);
      if HasStatus(found[0], st) {
        assert StatusIs(found, st) == [found[0]] + StatusIs(found[1..], st);
        assert StatusIsNot(found, st) == StatusIsNot(found[1..], st);
      } else {
        assert StatusIs(found, st) == StatusIs(found[1..], st);
        assert StatusIsNot(found, st) == [found[0]] + StatusIsNot(found[1..], st);
      }
    }
  }

  /** The rooms with the status and the others make up the list, counting repeats. */
  lemma {:induction false} PartsMultiset(found: seq<Record>, st: RoomStatus)
    ensures multiset(StatusIs(found, st)) + multiset(StatusIsNot(found, st)) == multiset(found)
    decreases |found|
  {
    if |found| > 0 {
      PartsMultiset(found[1..], st);
      var a := StatusIs(found[1..], st);
      var b := StatusIsNot(found[1..], st);
      assert multiset(found) == multiset{found[0]} + multiset(found[1..]) by {
        Seqs.HeadTail(found);
        Seqs.ConsMultiset(found[0], found[1..]);
      }
      if HasStatus(found[0], st) {
        assert StatusIs(found, st) == [found[0]] + a;
        assert StatusIsNot(found, st) == b;
        Seqs.ConsMultiset(found[0], a);
      } else {
        assert StatusIs(found, st) == a;
        assert StatusIsNot(found, st) == [found[0]] + b;
        Seqs.ConsMultiset(found[0], b);
      }
    }
  }

  /** The split keeps the order of the list on both sides and loses and adds nothing. */
  lemma SplitPartition(found: seq<Record>, st: RoomStatus)
    ensures Split(found, st).0 == StatusIs(found, st)
    ensures Split(found, st).1 == StatusIsNot(found, st)
    ensures multiset(Split(found, st).0) + multiset(Split(found, st).1) == multiset(found)
  {
    SplitSides(found, st);
    PartsMultiset(found, st);
  }

  /** One entry per room type of the list: its name and the split of its rooms. */
  function TypeEntries(s: Store, rts: seq<RoomType>, st: RoomStatus, now: int)
    : Result<seq<(string, seq<Record>, seq<Record>)>, Fault>
    requires Complete(s)
    decreases |rts|
  {
    if |rts| == 0 then Ok([])
    else
      match FindAll(s, RoomKind, true, -1, ["roomType", rts[0].Name()], now)
      case Err(e) => Err(QueryFault(e))
      case Ok(rooms) =>
        var (matched, unmatched) := Split(rooms, st);
        match TypeEntries(s, rts[1..], st, now)
        case Err(f) => Err(f)
        case Ok(rest) => Ok([(rts[0].Name(), matched, unmatched)] + rest)
  }

  /** `genRoomTypeOccupancy`: for each room type, its rooms with the status and the others. */
  function GenRoomTypeOccupancy(s: Store, st: RoomStatus, now: int): Result<seq<(string, seq<Record>, seq<Record>)>, Fault>
    requires Complete(s)
  {
    TypeEntries(s, RoomTypes, st, now)
  }

  lemma {:induction false} TypeEntriesSpec(s: Store, rts: seq<RoomType>, st: RoomStatus, now: int)
    requires Valid(s)
    ensures TypeEntries(s, rts, st, now).Ok?
    ensures |TypeEntries(s, rts, st, now).value| == |rts|
    ensures forall i :: 0 <= i < |rts| ==>
      var ofType := TypeIs(s.tables[RoomKind], rts[i]);
      TypeEntries(s, rts, st, now).value[i] == (rts[i].Name(), StatusIs(ofType, st), StatusIsNot(ofType, st))
    decreases |rts|
  {
    if |rts| > 0 {
      RoomsOfType(s, rts[0], now);
      SplitPartition(TypeIs(s.tables[RoomKind], rts[0]), st);
      TypeEntriesSpec(s, rts[1..], st, now);
    }
  }

  /**
   * On a valid store the report has one entry per room type, in the order
   * of the constants; under each, `matched` lists exactly the cached rooms
   * of the type with the status and `unmatched` exactly the others of the
   * type, so that together they are the rooms of the type.
   */
  lemma GenRoomTypeOccupancySpec(s: Store, st: RoomStatus, now: int)
    requires Valid(s)
    ensures GenRoomTypeOccupancy(s, st, now).Ok?
    ensures |GenRoomTypeOccupancy(s, st, now).value| == |RoomTypes|
    ensures forall i :: 0 <= i < |RoomTypes| ==>
      var (name, matched, unmatched) := GenRoomTypeOccupancy(s, st, now).value[i];
      var ofType := TypeIs(s.tables[RoomKind], RoomTypes[i]);
      && name == RoomTypes[i].Name()
      && (forall rec :: rec in matched <==> rec in s.tables[RoomKind] && HasType(rec, RoomTypes[i]) && HasStatus(rec, st))
      && (forall rec :: rec in unmatched <==> rec in s.tables[RoomKind] && HasType(rec, RoomTypes[i]) && !HasStatus(rec, st))
      && multiset(matched) + multiset(unmatched) == multiset(ofType)
  {
    TypeEntriesSpec(s, RoomTypes, st, now);
    forall i | 0 <= i < |RoomTypes|
      ensures var ofType := TypeIs(s.tables[RoomKind], RoomTypes[i]);
        multiset(StatusIs(ofType, st)) + multiset(StatusIsNot(ofType, st)) == multiset(ofType)
    {
      SplitPartition(TypeIs(s.tables[RoomKind], RoomTypes[i]), st);
    }
  }
}
