/**
 * A whole data file as the store reads and writes it (FileManager.java
 * `load` and `write`): every entity of a type turned into its field map, in
 * list order, and serialised; and back, each record converted to an entity of
 * the type, the whole load failing when one record cannot be converted.
 */
module Tables {
  import opened Options
  import opened Text
  import opened Config
  import opened Enums
  import opened Codec
  import opened Dates
  import opened FlatFile
  import opened Entities
  import opened Fields

  // ---------------------------------------------------------------------------
  // Which entities survive their file
  // ---------------------------------------------------------------------------

  /** A value that survives the file: no line separator and no trailing blank. */
  predicate SafeValue(v: string) {
    NoBreaks(v) && (|v| > 0 ==> !IsSpace(v[|v| - 1]))
  }

  lemma PrintableSafe(v: string)
    requires Printable(v)
    ensures SafeValue(v)
  {
    forall i | 0 <= i < |v| ensures !IsBreak(v[i]) {
      assert '!' <= v[i] <= '~';
    }
  }

  /** A generated prefix, a dash and a safe value make a safe value. */
  lemma DashedSafe(a: string, b: string)
    requires Printable(a) && SafeValue(b)
    ensures SafeValue(a + "-" + b)
  {
    PrintableConcat(a, "-");
    PrintableSafe(a + "-");
    var s := a + "-" + b;
    forall i | 0 <= i < |s| ensures !IsBreak(s[i]) {
      if i < |a| + 1 {
        assert s[i] == (a + "-")[i];
      } else {
        assert s[i] == b[i - |a| - 1];
      }
    }
  }

  /** The user-entered texts of an entity are values that survive the file. */
  predicate Clean(e: Entity) {
    match e
    case GuestE(g) =>
      && SafeValue(g.id) && SafeValue(g.name) && SafeValue(g.address) && SafeValue(g.country)
      && SafeValue(g.gender) && SafeValue(g.nationality) && SafeValue(g.contact) && SafeValue(g.creditCard)
    case RoomE(_) => true
    case ReservationE(r) =>
      (r.code.Some? ==> SafeValue(r.code.value)) && SafeValue(r.guestId) && SafeValue(r.roomId)
    case MenuItemE(i) => SafeValue(i.name) && SafeValue(i.description) && SafeValue(i.prepSteps)
    case OrderItemE(o) => SafeValue(o.name) && SafeValue(o.rsId)
    case RoomServiceE(rs) => SafeValue(rs.remarks) && SafeValue(rs.reservationId) && SafeValue(rs.roomId)
  }

  /** A key of the schema: visible characters only. */
  predicate PlainKey(key: string) {
    |key| > 0 && Printable(key)
  }

  /** Every type's keys are plain and pairwise distinct. */
  lemma GuestKeysPlain()
    ensures forall i :: 0 <= i < |GuestKeys| ==> PlainKey(GuestKeys[i])
    ensures forall i, j :: 0 <= i < j < |GuestKeys| ==> GuestKeys[i] != GuestKeys[j]
  {
  }

  lemma RoomKeysPlain()
    ensures forall i :: 0 <= i < |RoomKeys| ==> PlainKey(RoomKeys[i])
    ensures forall i, j :: 0 <= i < j < |RoomKeys| ==> RoomKeys[i] != RoomKeys[j]
  {
  }

  lemma ReservationKeysPlain()
    ensures forall i :: 0 <= i < |ReservationKeys| ==> PlainKey(ReservationKeys[i])
    ensures forall i, j :: 0 <= i < j < |ReservationKeys| ==> ReservationKeys[i] != ReservationKeys[j]
  {
  }

  lemma MenuItemKeysPlain()
    ensures forall i :: 0 <= i < |MenuItemKeys| ==> PlainKey(MenuItemKeys[i])
    ensures forall i, j :: 0 <= i < j < |MenuItemKeys| ==> MenuItemKeys[i] != MenuItemKeys[j]
  {
  }

  lemma OrderItemKeysPlain()
    ensures forall i :: 0 <= i < |OrderItemKeys| ==> PlainKey(OrderItemKeys[i])
    ensures forall i, j :: 0 <= i < j < |OrderItemKeys| ==> OrderItemKeys[i] != OrderItemKeys[j]
  {
  }

  lemma RoomServiceKeysPlain()
    ensures forall i :: 0 <= i < |RoomServiceKeys| ==> PlainKey(RoomServiceKeys[i])
    ensures forall i, j :: 0 <= i < j < |RoomServiceKeys| ==> RoomServiceKeys[i] != RoomServiceKeys[j]
  {
  }

  lemma SchemaKeys(k: Kind)
    ensures |KeysOf(k)| > 0
    ensures forall i :: 0 <= i < |KeysOf(k)| ==> PlainKey(KeysOf(k)[i])
    ensures forall i, j :: 0 <= i < j < |KeysOf(k)| ==> KeysOf(k)[i] != KeysOf(k)[j]
  {
    match k
    case GuestKind => GuestKeysPlain();
    case RoomKind => RoomKeysPlain();
    case ReservationKind => ReservationKeysPlain();
    case MenuItemKind => MenuItemKeysPlain();
    case OrderItemKind => OrderItemKeysPlain();
    case RoomServiceKind => RoomServiceKeysPlain();
  }

  /** Zipping plain distinct keys with safe values gives a record that survives the file. */
  lemma ZipSafe(keys: seq<string>, vs: seq<string>)
    requires |keys| == |vs| && |keys| > 0
    requires forall i :: 0 <= i < |keys| ==> PlainKey(keys[i])
    requires forall i, j :: 0 <= i < j < |keys| ==> keys[i] != keys[j]
    requires forall i :: 0 <= i < |vs| ==> SafeValue(vs[i])
    ensures SafeRecord(Zip(keys, vs))
  {
    ZipUnique(keys, vs);
    var m := Zip(keys, vs);
    forall i | 0 <= i < |m| ensures SafeEntry(m[i]) {
      var key := keys[i];
      PrintableSafe(key);
      assert !IsSpace(key[0]) by {
        assert '!' <= key[0] <= '~';
      }
      assert !IsSpace(key[|key| - 1]) by {
        assert '!' <= key[|key| - 1] <= '~';
      }
      assert NoTabs(key) by {
        forall j | 0 <= j < |key| ensures key[j] != '\t' {
          assert '!' <= key[j] <= '~';
        }
      }
    }
  }

  /** The values `toHashMap` writes for a clean entity all survive the file. */
  lemma GuestValuesSafe(g: Guest)
    requires Clean(GuestE(g))
    ensures forall i :: 0 <= i < |GuestValues(g)| ==> SafeValue(GuestValues(g)[i])
  {
    PrintableSafe(g.idType.Name());
  }

  /** Visible-only values all survive the file. */
  lemma AllPrintableSafe(vs: seq<string>)
    requires forall i :: 0 <= i < |vs| ==> Printable(vs[i])
    ensures forall i :: 0 <= i < |vs| ==> SafeValue(vs[i])
  {
    forall i | 0 <= i < |vs| ensures SafeValue(vs[i]) {
      PrintableSafe(vs[i]);
    }
  }

  lemma RoomValuesSafe(r: Room)
    requires Clean(RoomE(r))
    ensures forall i :: 0 <= i < |RoomValues(r)| ==> SafeValue(RoomValues(r)[i])
  {
    Pad2Printable(r.floor);
    Pad2Printable(r.number);
    PrintableConcat(Pad2(r.floor), Pad2(r.number));
    RoomTypeNamePrintable(r.roomType);
    MoneyTextPrintable(r.rate);
    MoneyTextPrintable(r.weekendRate);
    IntTextPrintable(r.floor);
    IntTextPrintable(r.number);
    BoolTextPrintable(r.wifi);
    BoolTextPrintable(r.smoking);
    BedTypeNamePrintable(r.bed);
    FacingNamePrintable(r.facing);
    RoomStatusNamePrintable(r.status);
    AllPrintableSafe(RoomValues(r));
  }

  lemma ReservationValuesSafe(r: Reservation, now: int)
    requires Clean(ReservationE(r))
    ensures forall i :: 0 <= i < |ReservationValues(r, now)| ==> SafeValue(ReservationValues(r, now)[i])
  {
    var vs := ReservationValues(r, now);
    forall i | 0 <= i < |vs| ensures SafeValue(vs[i]) {
      if i == 0 {
        if r.code.None? {
          IntTextPrintable(now / MinuteMs);
          DashedSafe(DateText(now), r.guestId);
        }
      } else if i == 1 {
        PrintableSafe(r.status.Name());
      } else if i == 2 || i == 3 {
        IntTextPrintable(if i == 2 then r.children else r.adults);
        PrintableSafe(vs[i]);
      } else if i == 4 || i == 5 {
        IntTextPrintable((if i == 4 then r.checkIn else r.checkOut) / MinuteMs);
        PrintableSafe(vs[i]);
      }
    }
  }

  lemma MenuItemValuesSafe(item: MenuItem)
    requires Clean(MenuItemE(item))
    ensures forall i :: 0 <= i < |MenuItemValues(item)| ==> SafeValue(MenuItemValues(item)[i])
  {
    MoneyTextPrintable(item.price);
    PrintableSafe(MoneyText(item.price));
  }

  lemma OrderItemValuesSafe(o: OrderItem)
    requires Clean(OrderItemE(o))
    ensures forall i :: 0 <= i < |OrderItemValues(o)| ==> SafeValue(OrderItemValues(o)[i])
  {
    MoneyTextPrintable(o.price);
    PrintableSafe(MoneyText(o.price));
    IntTextPrintable(o.qty);
    PrintableSafe(IntText(o.qty));
  }

  lemma RoomServiceValuesSafe(rs: RoomService, now: int)
    requires Clean(RoomServiceE(rs))
    ensures forall i :: 0 <= i < |RoomServiceValues(rs, now)| ==> SafeValue(RoomServiceValues(rs, now)[i])
  {
    IntTextPrintable(Created(rs, now) / MinuteMs);
    DashedSafe(DateText(Created(rs, now)), rs.roomId);
    PrintableSafe(DateText(Created(rs, now)));
    PrintableSafe(rs.status.Name());
  }

  lemma ValuesSafe(e: Entity, now: int)
    requires Clean(e)
    ensures var vs := Values(e, now); forall i :: 0 <= i < |vs| ==> SafeValue(vs[i])
  {
    match e
    case GuestE(g) => GuestValuesSafe(g);
    case RoomE(r) => RoomValuesSafe(r);
    case ReservationE(r) => ReservationValuesSafe(r, now);
    case MenuItemE(i) => MenuItemValuesSafe(i);
    case OrderItemE(o) => OrderItemValuesSafe(o);
    case RoomServiceE(rs) => RoomServiceValuesSafe(rs, now);
  }

  /** The field map of a clean entity survives the file. */
  lemma FieldsSafe(e: Entity, now: int)
    requires Clean(e)
    ensures SafeRecord(ToFields(e, now))
  {
    SchemaKeys(KindOf(e));
    ValuesSafe(e, now);
    ToFieldsZip(e, now);
    ZipSafe(KeysOf(KindOf(e)), Values(e, now));
  }

  // ---------------------------------------------------------------------------
  // write and load
  // ---------------------------------------------------------------------------

  /** `write`: the field maps of the records, in list order. */
  function FieldMaps(recs: seq<Record>, now: int): (ms: seq<FieldMap>)
    ensures |ms| == |recs|
    ensures forall i :: 0 <= i < |recs| ==> ms[i] == ToFields(recs[i].entity, now)
  {
    seq(|recs|, i requires 0 <= i < |recs| => ToFields(recs[i].entity, now))
  }

  /** The text `write` puts in the type's data file. */
  function TableText(recs: seq<Record>, now: int): string {
    Serialise(FieldMaps(recs, now))
  }

  /** `load`: each record converted to an entity of the type; nothing when one cannot be. */
  function LoadEntities(k: Kind, ms: seq<FieldMap>): (r: Option<seq<Entity>>)
    ensures r.Some? ==> |r.value| == |ms|
    decreases |ms|
  {
    if |ms| == 0 then Some([])
    else
      match FromFields(k, ms[0])
      case None => None
      case Some(e) =>
        match LoadEntities(k, ms[1..])
        case None => None
        case Some(rest) => Some([e] + rest)
  }

  /** `load` on a data file: nothing when the file cannot be read or a record cannot be converted. */
  function LoadTable(k: Kind, file: FileState): (r: (Option<seq<Entity>>, FileState))
    ensures file.Missing? ==> r == (Some([]), Present(""))
    ensures file.Unreadable? ==> r.0 == None
  {
    var (data, after) := LoadFile(file);
    match data
    case None => (None, after)
    case Some(ms) => (LoadEntities(k, ms), after)
  }

  /** Every loaded entity is the conversion of its record, of the requested type and settled. */
  lemma {:induction false} LoadEntitiesEach(k: Kind, ms: seq<FieldMap>)
    requires LoadEntities(k, ms).Some?
    ensures forall i :: 0 <= i < |ms| ==>
      FromFields(k, ms[i]) == Some(LoadEntities(k, ms).value[i])
    ensures forall i :: 0 <= i < |ms| ==>
      KindOf(LoadEntities(k, ms).value[i]) == k && Settled(LoadEntities(k, ms).value[i])
    decreases |ms|
  {
    if |ms| > 0 {
      var es := LoadEntities(k, ms).value;
      var rest := LoadEntities(k, ms[1..]).value;
      assert es == [es[0]] + rest;
      LoadEntitiesEach(k, ms[1..]);
      forall i | 0 <= i < |ms| ensures FromFields(k, ms[i]) == Some(es[i]) {
        if i > 0 {
          assert ms[i] == ms[1..][i - 1];
          assert es[i] == rest[i - 1];
        }
      }
      forall i | 0 <= i < |ms| ensures KindOf(es[i]) == k && Settled(es[i]) {
        FromFieldsKind(k, ms[i]);
      }
    }
  }

  /** The part of each entity its file keeps, once its first-use values are produced. */
  function StoredEntities(recs: seq<Record>, now: int): (es: seq<Entity>)
    ensures |es| == |recs|
    ensures forall i :: 0 <= i < |recs| ==> es[i] == Stored(Settle(recs[i].entity, now))
  {
    seq(|recs|, i requires 0 <= i < |recs| => Stored(Settle(recs[i].entity, now)))
  }

  /** Records of one type convert back to the stored part of each entity. */
  lemma LoadEntitiesCons(k: Kind, ms: seq<FieldMap>, first: Entity, rest: seq<Entity>)
    requires |ms| > 0
    requires FromFields(k, ms[0]) == Some(first) && LoadEntities(k, ms[1..]) == Some(rest)
    ensures LoadEntities(k, ms) == Some([first] + rest)
  {
  }

  lemma FieldMapsTail(recs: seq<Record>, now: int)
    requires |recs| > 0
    ensures FieldMaps(recs, now)[1..] == FieldMaps(recs[1..], now)
  {
  }

  lemma StoredEntitiesCons(recs: seq<Record>, now: int)
    requires |recs| > 0
    ensures StoredEntities(recs, now) == [Stored(Settle(recs[0].entity, now))] + StoredEntities(recs[1..], now)
  {
  }

  lemma {:induction false} LoadFieldMaps(k: Kind, recs: seq<Record>, now: int)
    requires forall i :: 0 <= i < |recs| ==> KindOf(recs[i].entity) == k
    ensures LoadEntities(k, FieldMaps(recs, now)) == Some(StoredEntities(recs, now))
    decreases |recs|
  {
    if |recs| > 0 {
      var ms := FieldMaps(recs, now);
      FieldMapsTail(recs, now);
      StoredEntitiesCons(recs, now);
      LoadFieldMaps(k, recs[1..], now);
      var first := Stored(Settle(recs[0].entity, now));
      assert FromFields(k, ms[0]) == Some(first) by {
        FieldsRoundTrip(recs[0].entity, now);
      }
      LoadEntitiesCons(k, ms, first, StoredEntities(recs[1..], now));
    }
  }

  /**
   * Writing a type's records and loading the file again gives back, in order,
   * the part of every entity the file keeps.
   */
  lemma TableRoundTrip(k: Kind, recs: seq<Record>, now: int)
    requires forall i :: 0 <= i < |recs| ==> KindOf(recs[i].entity) == k && Clean(recs[i].entity)
    ensures LoadTable(k, Present(TableText(recs, now))).0 == Some(StoredEntities(recs, now))
  {
    var ms := FieldMaps(recs, now);
    forall i | 0 <= i < |ms| ensures SafeRecord(ms[i]) {
      FieldsSafe(recs[i].entity, now);
    }
    RoundTrip(ms);
    LoadFieldMaps(k, recs, now);
  }
}
