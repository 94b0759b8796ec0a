/**
 * The object cache of Entity.java: one list per entity type, loaded from the
 * data files the first time an entity is constructed and written back whole
 * on every save and delete.  Java objects are shared references, so a change
 * made to a cached object is seen by its list at once; here that is `Sync`.
 * Which files the environment lets be written is a parameter of the store.
 */
module EntityStore {
  import opened Options
  import opened Text
  import opened Config
  import opened Dates
  import opened FlatFile
  import opened Entities
  import opened Fields
  import opened Tables
  import Query
  import Seqs

  /** The cached lists, the data files, the files that can be written, and the next object identity. */
  datatype Store = Store(
    tables: map<Kind, seq<Record>>, files: map<Kind, FileState>, writable: set<Kind>, nextHandle: nat)

  /** Every type has a list and a file. */
  predicate Complete(s: Store) {
    forall k: Kind :: k in s.tables && k in s.files
  }

  /** Every record of a list is of the list's type, settled, and has an identity already given out. */
  predicate TableOk(k: Kind, list: seq<Record>, next: nat) {
    forall i :: 0 <= i < |list| ==> CachedAs(k, list[i]) && list[i].handle < next
  }

  predicate Valid(s: Store) {
    Complete(s) && forall k: Kind :: TableOk(k, s.tables[k], s.nextHandle)
  }

  /** The identities of a list, in order. */
  function Handles(list: seq<Record>): (hs: seq<nat>)
    ensures |hs| == |list|
    ensures forall i :: 0 <= i < |list| ==> hs[i] == list[i].handle
  {
    seq(|list|, i requires 0 <= i < |list| => list[i].handle)
  }

  /** A new object of the program: the next identity, not yet saved. */
  function NewRecord(s: Store, e: Entity): (r: (Store, Record))
    requires Complete(s)
    ensures r.1.isNew && r.1.entity == e && r.1.snapshot == None
    ensures Valid(s) ==> Valid(r.0) && forall k: Kind :: r.1.handle !in Handles(r.0.tables[k])
    ensures r.0 == s.(nextHandle := s.nextHandle + 1)
  {
    (s.(nextHandle := s.nextHandle + 1), Record(s.nextHandle, e, true, None))
  }

  // ---------------------------------------------------------------------------
  // Changes in memory
  // ---------------------------------------------------------------------------

  /** The list with every occurrence of the object replaced by its current state. */
  function Replace(list: seq<Record>, rec: Record): (r: seq<Record>)
    ensures |r| == |list|
    ensures forall i :: 0 <= i < |list| ==> r[i] == if list[i].handle == rec.handle then rec else list[i]
  {
    seq(|list|, i requires 0 <= i < |list| => if list[i].handle == rec.handle then rec else list[i])
  }

  /** A change made to an object: its type's list sees the new state wherever the object occurs. */
  function Sync(s: Store, rec: Record): (r: Store)
    requires Complete(s)
    ensures Complete(r) && r.files == s.files && r.writable == s.writable && r.nextHandle == s.nextHandle
  {
    s.(tables := s.tables[KindOf(rec.entity) := Replace(s.tables[KindOf(rec.entity)], rec)])
  }

  /** Syncing a settled object keeps the store valid and changes no identity. */
  lemma SyncValid(s: Store, rec: Record)
    requires Valid(s) && Settled(rec.entity)
    ensures Valid(Sync(s, rec))
    ensures forall k: Kind :: Handles(Sync(s, rec).tables[k]) == Handles(s.tables[k])
  {
    var k := KindOf(rec.entity);
    assert TableOk(k, Sync(s, rec).tables[k], s.nextHandle);
  }

  /** The list with every object's first-use values produced. */
  function SettleAll(list: seq<Record>, now: int): (r: seq<Record>)
    ensures |r| == |list|
    ensures forall i :: 0 <= i < |list| ==> r[i] == list[i].(entity := Settle(list[i].entity, now))
  {
    seq(|list|, i requires 0 <= i < |list| => list[i].(entity := Settle(list[i].entity, now)))
  }

  /** A cached list is already settled. */
  lemma SettledList(k: Kind, list: seq<Record>, next: nat, now: int)
    requires TableOk(k, list, next)
    ensures SettleAll(list, now) == list
  {
  }

  // ---------------------------------------------------------------------------
  // write, save, delete
  // ---------------------------------------------------------------------------

  /**
   * `FileManager.write` on a type's list: every object's `toHashMap` is
   * taken first, which produces its first-use values, and the file is
   * replaced only when the environment lets it be written.
   */
  function Write(s: Store, k: Kind, now: int): (r: (Store, bool))
    requires Complete(s)
    ensures Complete(r.0) && r.0.writable == s.writable && r.0.nextHandle == s.nextHandle
    ensures r.1 <==> k in s.writable
    ensures forall j: Kind :: j != k ==> r.0.tables[j] == s.tables[j] && r.0.files[j] == s.files[j]
    ensures r.0.tables[k] == SettleAll(s.tables[k], now)
    ensures r.1 ==> r.0.files[k] == Present(TableText(r.0.tables[k], now))
    ensures !r.1 ==> r.0.files[k] == s.files[k]
  {
    var table := SettleAll(s.tables[k], now);
    var settled := s.(tables := s.tables[k := table]);
    if k in s.writable then (settled.(files := s.files[k := Present(TableText(table, now))]), true)
    else (settled, false)
  }

  /** Entities the data file can hold (see `Tables.Clean`). */
  predicate AllClean(list: seq<Record>) {
    forall i :: 0 <= i < |list| ==> Clean(list[i].entity)
  }

  /** A successful write of clean entities reads back as the part of each entity the file keeps, in list order. */
  lemma WriteReadsBack(s: Store, k: Kind, now: int)
    requires Valid(s) && AllClean(s.tables[k]) && k in s.writable
    ensures LoadTable(k, Write(s, k, now).0.files[k]).0 == Some(StoredEntities(s.tables[k], now))
  {
    SettledList(k, s.tables[k], s.nextHandle, now);
    TableRoundTrip(k, s.tables[k], now);
  }

  /** Writing a valid store keeps it valid and changes no list. */
  lemma WriteValid(s: Store, k: Kind, now: int)
    requires Valid(s)
    ensures Valid(Write(s, k, now).0) && Write(s, k, now).0.tables == s.tables
  {
    SettledList(k, s.tables[k], s.nextHandle, now);
  }

  /** `writeToFileManager` on a new object: the object joins the end of its list. */
  function Append(s: Store, rec: Record): (r: Store)
    requires Complete(s)
    ensures Complete(r) && r.files == s.files && r.writable == s.writable
  {
    var k := KindOf(rec.entity);
    s.(tables := s.tables[k := s.tables[k] + [rec]],
       nextHandle := if rec.handle < s.nextHandle then s.nextHandle else rec.handle + 1)
  }

  /** Appending a settled object keeps the store valid and adds its identity at the end. */
  lemma AppendValid(s: Store, rec: Record)
    requires Valid(s) && Settled(rec.entity)
    ensures Valid(Append(s, rec))
    ensures Handles(Append(s, rec).tables[KindOf(rec.entity)]) == Handles(s.tables[KindOf(rec.entity)]) + [rec.handle]
  {
    var k := KindOf(rec.entity);
    var r := Append(s, rec);
    forall j: Kind ensures TableOk(j, r.tables[j], r.nextHandle) {
      assert TableOk(j, s.tables[j], s.nextHandle);
    }
  }

  /** Syncing an object that is not in its list changes nothing. */
  lemma SyncAbsent(s: Store, rec: Record)
    requires Complete(s) && rec.handle !in Handles(s.tables[KindOf(rec.entity)])
    ensures Sync(s, rec) == s
  {
    var k := KindOf(rec.entity);
    assert Replace(s.tables[k], rec) == s.tables[k];
  }

  /**
   * The part of `Entity.save` after validation.  A new object is appended to
   * its list (again, if an earlier write failed) and the list written; on
   * success it stops being new and its field map becomes the snapshot.  An
   * existing object is written with its list and keeps its old snapshot.
   * Writing produces the first-use values of every object in the list.
   */
  function Commit(s: Store, rec: Record, now: int): (r: (Store, Record, bool))
    requires Complete(s)
    ensures Complete(r.0) && r.0.writable == s.writable
    ensures r.2 <==> KindOf(rec.entity) in s.writable
    ensures r.1.handle == rec.handle && KindOf(r.1.entity) == KindOf(rec.entity)
    ensures forall j: Kind :: j != KindOf(rec.entity) ==> r.0.tables[j] == s.tables[j] && r.0.files[j] == s.files[j]
  {
    var k := KindOf(rec.entity);
    var listed := rec.isNew || rec.handle in Handles(s.tables[k]);
    var current := if listed then rec.(entity := Settle(rec.entity, now)) else rec;
    var placed := if rec.isNew then Append(Sync(s, current), current) else Sync(s, current);
    var (written, ok) := Write(placed, k, now);
    if rec.isNew && ok then
      var saved := current.(isNew := false, snapshot := Some(ToFields(current.entity, now)));
      (Sync(written, saved), saved, true)
    else
      (written, current, ok)
  }

  /**
   * Saving a new object: it is appended once to its list, and it is saved
   * exactly when the file can be written; a saved object is no longer new
   * and its snapshot is its field map, while after a failed write it stays
   * new but remains in the list.
   */
  lemma CommitNew(s: Store, rec: Record, now: int)
    requires Valid(s) && rec.isNew
    ensures var (after, saved, ok) := Commit(s, rec, now);
      var k := KindOf(rec.entity);
      && Valid(after)
      && Handles(after.tables[k]) == Handles(s.tables[k]) + [rec.handle]
      && after.tables[k][|s.tables[k]|] == saved
      && (forall i :: 0 <= i < |after.tables[k]| && after.tables[k][i].handle == rec.handle ==> after.tables[k][i] == saved)
      && saved.entity == Settle(rec.entity, now)
      && (ok ==> !saved.isNew && saved.snapshot == Some(ToFields(saved.entity, now)))
      && (!ok ==> saved.isNew && after.files == s.files)
  {
    var k := KindOf(rec.entity);
    var current := rec.(entity := Settle(rec.entity, now));
    SyncValid(s, current);
    var synced := Sync(s, current);
    AppendValid(synced, current);
    var placed := Append(synced, current);
    WriteValid(placed, k, now);
    var written := Write(placed, k, now).0;
    assert written.tables[k][|s.tables[k]|] == current;
    if k in s.writable {
      var saved := current.(isNew := false, snapshot := Some(ToFields(current.entity, now)));
      SyncValid(written, saved);
    }
  }

  /**
   * Saving an object that is already in its list: no identity joins or
   * leaves the list, every occurrence takes the object's state, and the old
   * snapshot is kept (`updateRecord` does not refresh it).
   */
  lemma CommitExisting(s: Store, rec: Record, now: int)
    requires Valid(s) && !rec.isNew && rec.handle in Handles(s.tables[KindOf(rec.entity)])
    ensures var (after, saved, ok) := Commit(s, rec, now);
      var k := KindOf(rec.entity);
      && Valid(after)
      && Handles(after.tables[k]) == Handles(s.tables[k])
      && saved == rec.(entity := Settle(rec.entity, now))
      && (forall i :: 0 <= i < |after.tables[k]| && after.tables[k][i].handle == rec.handle ==> after.tables[k][i] == saved)
      && (!ok ==> after.files == s.files)
  {
    var k := KindOf(rec.entity);
    var current := rec.(entity := Settle(rec.entity, now));
    SyncValid(s, current);
    WriteValid(Sync(s, current), k, now);
  }

  /** Whatever the outcome, the object `save` leaves is the one given, its first-use values perhaps produced. */
  lemma CommitEntity(s: Store, rec: Record, now: int)
    requires Complete(s)
    ensures var e := Commit(s, rec, now).1.entity;
      e == rec.entity || e == Settle(rec.entity, now)
  {
  }

  /** The first position of an identity in a list, or the list's length. */
  function FirstIndex(list: seq<Record>, h: nat): (i: nat)
    ensures i <= |list|
    ensures i < |list| ==> list[i].handle == h
    ensures forall j :: 0 <= j < i ==> list[j].handle != h
    decreases |list|
  {
    if |list| == 0 then 0
    else if list[0].handle == h then 0
    else 1 + FirstIndex(list[1..], h)
  }

  /** `ArrayList.remove(Object)`: the first occurrence goes, the rest keep their order. */
  function RemoveFirst(list: seq<Record>, h: nat): (r: seq<Record>)
    decreases |list|
  {
    if |list| == 0 then []
    else if list[0].handle == h then list[1..]
    else [list[0]] + RemoveFirst(list[1..], h)
  }

  /** Removing cuts out exactly the first occurrence, and leaves a list without the object unchanged. */
  lemma {:induction false} RemoveFirstCuts(list: seq<Record>, h: nat)
    ensures var i := FirstIndex(list, h);
      RemoveFirst(list, h) == if i < |list| then list[..i] + list[i + 1..] else list
    decreases |list|
  {
    if |list| > 0 && list[0].handle != h {
      RemoveFirstCuts(list[1..], h);
      var i := FirstIndex(list[1..], h);
      if i < |list[1..]| {
        Seqs.ConsCut(list, i);
      } else {
        Seqs.HeadTail(list);
      }
    }
  }

  /** Removing an object from a cached list leaves a cached list. */
  lemma RemoveKeepsOk(k: Kind, list: seq<Record>, h: nat, next: nat)
    requires TableOk(k, list, next)
    ensures TableOk(k, RemoveFirst(list, h), next)
  {
    RemoveFirstCuts(list, h);
    var i := FirstIndex(list, h);
    if i < |list| {
      var removed := RemoveFirst(list, h);
      forall j | 0 <= j < |removed| ensures CachedAs(k, removed[j]) && removed[j].handle < next {
        if j < i { assert removed[j] == list[j]; } else { assert removed[j] == list[j + 1]; }
      }
    }
  }

  /** `delete`: the object's first occurrence leaves its list and the list is written. */
  function Delete(s: Store, rec: Record, now: int): (r: (Store, bool))
    requires Complete(s)
    ensures Complete(r.0)
    ensures r.1 <==> KindOf(rec.entity) in s.writable
  {
    var k := KindOf(rec.entity);
    Write(s.(tables := s.tables[k := RemoveFirst(s.tables[k], rec.handle)]), k, now)
  }

  /**
   * After a delete, the list is the old one without the object's first
   * occurrence, the store stays valid, and no other type is touched.
   */
  lemma DeleteRemoves(s: Store, rec: Record, now: int)
    requires Valid(s)
    ensures var k := KindOf(rec.entity);
      var list := s.tables[k];
      var i := FirstIndex(list, rec.handle);
      && Valid(Delete(s, rec, now).0)
      && Delete(s, rec, now).0.tables[k] == (if i < |list| then list[..i] + list[i + 1..] else list)
      && forall j: Kind :: j != k ==> Delete(s, rec, now).0.tables[j] == s.tables[j]
  {
    var k := KindOf(rec.entity);
    RemoveFirstCuts(s.tables[k], rec.handle);
    RemoveKeepsOk(k, s.tables[k], rec.handle, s.nextHandle);
    var removed := s.(tables := s.tables[k := RemoveFirst(s.tables[k], rec.handle)]);
    assert Valid(removed) by {
      forall j: Kind ensures TableOk(j, removed.tables[j], removed.nextHandle) {
        assert TableOk(j, s.tables[j], s.nextHandle);
      }
    }
    WriteValid(removed, k, now);
  }

  // ---------------------------------------------------------------------------
  // Reverting to the snapshot
  // ---------------------------------------------------------------------------

  /**
   * `loadHashMap` on a live object: the fields the map holds replace the
   * object's own; what lives only in memory (the walk-in flag, an order's
   * room and lines) stays.
   */
  function Reload(e: Entity, m: FieldMap): (r: Entity)
    ensures KindOf(r) == KindOf(e)
    ensures Settled(e) ==> Settled(r)
  {
    FromFieldsKind(KindOf(e), m);
    match FromFields(KindOf(e), m)
    case None => e
    case Some(f) =>
      match (e, f)
      case (ReservationE(live), ReservationE(r)) => ReservationE(r.(walkIn := live.walkIn))
      case (RoomServiceE(live), RoomServiceE(rs)) => RoomServiceE(rs.(roomId := live.roomId, items := live.items))
      case _ => f
  }

  /** `revertOldData`: an object that is not new takes back the state of its snapshot. */
  function Revert(rec: Record): (r: Record)
    ensures r.handle == rec.handle && r.isNew == rec.isNew && r.snapshot == rec.snapshot
    ensures KindOf(r.entity) == KindOf(rec.entity)
    ensures Settled(rec.entity) ==> Settled(r.entity)
  {
    if !rec.isNew && rec.snapshot.Some? then rec.(entity := Reload(rec.entity, rec.snapshot.value)) else rec
  }

  /** A guest reverted after an edit is the guest of its snapshot again, and a new guest is left alone. */
  lemma RevertGuest(rec: Record, g: Guest, now: int)
    requires rec.entity.GuestE? && rec.snapshot == Some(ToFields(GuestE(g), now))
    ensures Revert(rec).entity == if rec.isNew then rec.entity else GuestE(g)
    ensures Revert(rec).handle == rec.handle && Revert(rec).isNew == rec.isNew
  {
    FieldsRoundTrip(GuestE(g), now);
  }

  // ---------------------------------------------------------------------------
  // Loading the cache
  // ---------------------------------------------------------------------------

  /** The cache before the first entity is constructed, after a failed load, and after a good one. */
  datatype Cache = Unloaded | Broken | Loaded(store: Store)

  /** The position of each type among the configured files. */
  function KindIndex(k: Kind): (i: nat)
    ensures i < 6
  {
    match k
    case GuestKind => 0
    case RoomKind => 1
    case ReservationKind => 2
    case MenuItemKind => 3
    case OrderItemKind => 4
    case RoomServiceKind => 5
  }

  /** Loaded entities as fresh objects, still marked new; the n-th of a type is numbered 6n plus the type's position. */
  function Number(es: seq<Entity>, k: Kind): (recs: seq<Record>)
    ensures |recs| == |es|
    ensures forall i :: 0 <= i < |es| ==> recs[i] == Record(6 * i + KindIndex(k), es[i], true, None)
  {
    seq(|es|, i requires 0 <= i < |es| => Record(6 * i + KindIndex(k), es[i], true, None))
  }

  /** The room of the first reservation whose code matches the text, ignoring case ("" when none does). */
  function ReservationRoom(rsvs: seq<Record>, code: string, now: int): string {
    match Query.Find(Rows(rsvs, now), true, ["reservationCode", code])
    case Some(row) => if row.rec.entity.ReservationE? then row.rec.entity.rsv.roomId else ""
    case None => ""
  }

  /**
   * The second loop of `loadEntities`: `setNewRecord(false)` on every loaded
   * object, which takes its field map as the snapshot.  An order's field map
   * needs its id, so its reservation's room is looked up.
   */
  function MarkLoaded(rec: Record, rsvs: seq<Record>, now: int): (r: Record)
    ensures !r.isNew && r.snapshot == Some(ToFields(r.entity, now)) && r.handle == rec.handle
    ensures !rec.entity.RoomServiceE? ==> r.entity == rec.entity
    ensures rec.entity.RoomServiceE? ==>
      r.entity.RoomServiceE? && r.entity.service == rec.entity.service.(roomId := r.entity.service.roomId)
  {
    var e := match rec.entity
      case RoomServiceE(rs) => RoomServiceE(rs.(roomId := ReservationRoom(rsvs, rs.reservationId, now)))
      case other => other;
    Record(rec.handle, e, false, Some(ToFields(e, now)))
  }

  function MarkAll(list: seq<Record>, rsvs: seq<Record>, now: int): (r: seq<Record>)
    ensures |r| == |list|
    ensures forall i :: 0 <= i < |list| ==> r[i] == MarkLoaded(list[i], rsvs, now)
  {
    seq(|list|, i requires 0 <= i < |list| => MarkLoaded(list[i], rsvs, now))
  }

  /** Every type's loaded entities, when every file loads. */
  function LoadAll(files: map<Kind, FileState>): (r: Option<map<Kind, seq<Entity>>>)
    requires forall k: Kind :: k in files
    ensures r.Some? <==> forall k: Kind :: LoadTable(k, files[k]).0.Some?
    ensures r.Some? ==> forall k: Kind :: k in r.value && LoadTable(k, files[k]).0 == Some(r.value[k])
  {
    if forall k: Kind | k in files :: LoadTable(k, files[k]).0.Some? then
      Some(map k: Kind | k in files :: LoadTable(k, files[k]).0.value)
    else
      None
  }

  /** Loaded entities are of the file's type and settled. */
  lemma LoadedCached(k: Kind, file: FileState)
    requires LoadTable(k, file).0.Some?
    ensures forall i :: 0 <= i < |LoadTable(k, file).0.value| ==>
      KindOf(LoadTable(k, file).0.value[i]) == k && Settled(LoadTable(k, file).0.value[i])
  {
    LoadEntitiesEach(k, LoadFile(file).0.value);
  }

  lemma CountsBelowTotal(loaded: map<Kind, seq<Entity>>)
    requires forall k: Kind :: k in loaded
    ensures forall k: Kind :: |loaded[k]| <= TotalCount(loaded)
  {
    forall k: Kind ensures |loaded[k]| <= TotalCount(loaded) {
      match k
      case GuestKind =>
      case RoomKind =>
      case ReservationKind =>
      case MenuItemKind =>
      case OrderItemKind =>
      case RoomServiceKind =>
    }
  }

  /** How many objects all files give. */
  function TotalCount(loaded: map<Kind, seq<Entity>>): nat
    requires forall k: Kind :: k in loaded
  {
    |loaded[GuestKind]| + |loaded[RoomKind]| + |loaded[ReservationKind]|
      + |loaded[MenuItemKind]| + |loaded[OrderItemKind]| + |loaded[RoomServiceKind]|
  }

  /**
   * `loadEntities`: every type's file loaded (missing files are created),
   * then every object marked as saved.  A type whose list cannot be loaded
   * makes the marking loop fail on a null list, and the cache stays broken.
   */
  function Boot(files: map<Kind, FileState>, writable: set<Kind>, now: int): (r: (Cache, map<Kind, FileState>))
    requires forall k: Kind :: k in files
    ensures forall k: Kind :: k in r.1 && r.1[k] == LoadTable(k, files[k]).1
  {
    var after := map k: Kind | k in files :: LoadTable(k, files[k]).1;
    match LoadAll(files)
    case None => (Broken, after)
    case Some(loaded) =>
      var rsvs := Number(loaded[ReservationKind], ReservationKind);
      var tables := map k: Kind | k in loaded :: MarkAll(Number(loaded[k], k), rsvs, now);
      (Loaded(Store(tables, after, writable, 6 * TotalCount(loaded))), after)
  }

  /** Constructing an entity loads the cache only the first time; a broken cache is never reloaded. */
  function Construct(cache: Cache, files: map<Kind, FileState>, writable: set<Kind>, now: int)
    : (r: (Cache, map<Kind, FileState>))
    requires forall k: Kind :: k in files
    ensures !cache.Unloaded? ==> r == (cache, files)
    ensures cache.Unloaded? ==> r == Boot(files, writable, now)
  {
    if cache.Unloaded? then Boot(files, writable, now) else (cache, files)
  }

  /** The cache loads exactly when every data file loads, and a loaded cache is valid. */
  lemma BootLoads(files: map<Kind, FileState>, writable: set<Kind>, now: int)
    requires forall k: Kind :: k in files
    ensures Boot(files, writable, now).0.Loaded? <==> forall k: Kind :: LoadTable(k, files[k]).0.Some?
    ensures Boot(files, writable, now).0.Loaded? ==>
      var s := Boot(files, writable, now).0.store;
      Valid(s) && s.writable == writable && s.files == Boot(files, writable, now).1
  {
    if LoadAll(files).Some? {
      var s := Boot(files, writable, now).0.store;
      forall k: Kind ensures k in s.tables && TableOk(k, s.tables[k], s.nextHandle) {
        BootTable(files, writable, now, k);
      }
    }
  }

  /**
   * A loaded cache holds each file's entities in file order (an order's
   * room aside), each marked as saved with its field map as the snapshot.
   */
  lemma BootTable(files: map<Kind, FileState>, writable: set<Kind>, now: int, k: Kind)
    requires forall k: Kind :: k in files
    requires forall k: Kind :: LoadTable(k, files[k]).0.Some?
    ensures Boot(files, writable, now).0.Loaded?
    ensures var s := Boot(files, writable, now).0.store;
      var es := LoadTable(k, files[k]).0.value;
      && k in s.tables && |s.tables[k]| == |es|
      && TableOk(k, s.tables[k], s.nextHandle)
      && forall n :: 0 <= n < |es| ==>
        && s.tables[k][n].handle == 6 * n + KindIndex(k)
        && !s.tables[k][n].isNew && s.tables[k][n].snapshot == Some(ToFields(s.tables[k][n].entity, now))
        && (k != RoomServiceKind ==> s.tables[k][n].entity == es[n])
  {
    var s := Boot(files, writable, now).0.store;
    var es := LoadAll(files).value[k];
    CountsBelowTotal(LoadAll(files).value);
    LoadedCached(k, files[k]);
    forall n | 0 <= n < |es| ensures CachedAs(k, s.tables[k][n]) && s.tables[k][n].handle < s.nextHandle {
      assert KindOf(es[n]) == k && Settled(es[n]);
    }
  }

  /** Objects numbered 6n plus their type's position are distinct objects. */
  lemma SpreadDistinct(tables: map<Kind, seq<Record>>)
    requires forall k: Kind, n :: k in tables && 0 <= n < |tables[k]| ==> tables[k][n].handle == 6 * n + KindIndex(k)
    ensures forall a: Kind, b: Kind, i, j ::
      (a in tables && b in tables && 0 <= i < |tables[a]| && 0 <= j < |tables[b]| &&
       tables[a][i].handle == tables[b][j].handle) ==> a == b && i == j
  {
    forall a: Kind, b: Kind, i, j | a in tables && b in tables && 0 <= i < |tables[a]| && 0 <= j < |tables[b]| &&
      tables[a][i].handle == tables[b][j].handle
      ensures a == b && i == j
    {
      assert KindIndex(a) == KindIndex(b);
    }
  }

  /** Every object a loaded cache holds is a distinct object. */
  lemma BootDistinct(files: map<Kind, FileState>, writable: set<Kind>, now: int)
    requires forall k: Kind :: k in files
    requires Boot(files, writable, now).0.Loaded?
    ensures var s := Boot(files, writable, now).0.store;
      forall a: Kind, b: Kind, i, j ::
        (a in s.tables && b in s.tables && 0 <= i < |s.tables[a]| && 0 <= j < |s.tables[b]| &&
         s.tables[a][i].handle == s.tables[b][j].handle) ==> a == b && i == j
  {
    var s := Boot(files, writable, now).0.store;
    BootLoads(files, writable, now);
    forall k: Kind, n | k in s.tables && 0 <= n < |s.tables[k]| ensures s.tables[k][n].handle == 6 * n + KindIndex(k) {
      BootTable(files, writable, now, k);
    }
    SpreadDistinct(s.tables);
  }

  // ---------------------------------------------------------------------------
  // Queries on the cache
  // ---------------------------------------------------------------------------

  /** The list paired with the field maps `findAll` reads. */
  function Rows(list: seq<Record>, now: int): (rows: seq<Query.Row>)
    ensures |rows| == |list|
    ensures forall i :: 0 <= i < |list| ==> rows[i] == Query.Row(list[i], ToFields(list[i].entity, now))
  {
    seq(|list|, i requires 0 <= i < |list| => Query.Row(list[i], ToFields(list[i].entity, now)))
  }

  function Recs(rows: seq<Query.Row>): (recs: seq<Record>)
    ensures |recs| == |rows|
    ensures forall i :: 0 <= i < |rows| ==> recs[i] == rows[i].rec
  {
    seq(|rows|, i requires 0 <= i < |rows| => rows[i].rec)
  }

  /** `findAll` on a type's cached list. */
  function FindAll(s: Store, k: Kind, matchAll: bool, limit: int, args: seq<string>, now: int)
    : Result<seq<Record>, Query.QueryError>
    requires Complete(s)
  {
    match Query.FindAll(Rows(s.tables[k], now), matchAll, limit, args)
    case Ok(rows) => Ok(Recs(rows))
    case Err(e) => Err(e)
  }

  /** `find` on a type's cached list. */
  function Find(s: Store, k: Kind, matchAll: bool, args: seq<string>, now: int): Option<Record>
    requires Complete(s)
  {
    match Query.Find(Rows(s.tables[k], now), matchAll, args)
    case Some(row) => Some(row.rec)
    case None => None
  }

  /** `checkIdUnique` for an object, against its own type's list. */
  function CheckIdUnique(s: Store, rec: Record, key: string, text: string, now: int): Result<bool, Query.QueryError>
    requires Complete(s)
  {
    Query.CheckIdUnique(Rows(s.tables[KindOf(rec.entity)], now), rec.handle, key, text)
  }

  /** The record's field under the key equals the text, ignoring case. */
  predicate Matches(rec: Record, key: string, text: string, now: int) {
    FieldValue(rec.entity, key, now).Some? && Lower(FieldValue(rec.entity, key, now).value) == Lower(text)
  }

  lemma RowSelects(rec: Record, key: string, text: string, now: int)
    ensures Query.Selects(Query.Row(rec, ToFields(rec.entity, now)), key, text, true) <==> Matches(rec, key, text, now)
    ensures Query.HasField(Query.Row(rec, ToFields(rec.entity, now)), key) <==> FieldValue(rec.entity, key, now).Some?
  {
  }

  /**
   * When every cached object of the type has the key, `checkIdUnique` holds
   * exactly when each object whose field equals the text, ignoring case, is
   * this object.
   */
  lemma CheckIdUniqueIff(s: Store, rec: Record, key: string, text: string, now: int)
    requires Complete(s)
    requires forall i :: 0 <= i < |s.tables[KindOf(rec.entity)]| ==>
      FieldValue(s.tables[KindOf(rec.entity)][i].entity, key, now).Some?
    ensures CheckIdUnique(s, rec, key, text, now).Ok?
    ensures var list := s.tables[KindOf(rec.entity)];
      CheckIdUnique(s, rec, key, text, now).value <==>
      forall i :: 0 <= i < |list| && Matches(list[i], key, text, now) ==> list[i].handle == rec.handle
  {
    var list := s.tables[KindOf(rec.entity)];
    var rows := Rows(list, now);
    forall i | 0 <= i < |list| ensures Query.HasField(rows[i], key) {
      RowSelects(list[i], key, text, now);
    }
    Query.CheckIdUniqueIff(rows, rec.handle, key, text);
    forall i | 0 <= i < |list| ensures Query.Selects(rows[i], key, text, true) <==> Matches(list[i], key, text, now) {
      RowSelects(list[i], key, text, now);
    }
  }

  /** The first cached object whose field equals the text, ignoring case. */
  function FirstMatch(list: seq<Record>, key: string, text: string, now: int): Option<Record>
    decreases |list|
  {
    if |list| == 0 then None
    else if Matches(list[0], key, text, now) then Some(list[0])
    else FirstMatch(list[1..], key, text, now)
  }

  /** The first match comes before every other object of the list that matches. */
  lemma {:induction false} FirstMatchFirst(list: seq<Record>, key: string, text: string, now: int)
    ensures FirstMatch(list, key, text, now).Some? ==>
      exists j :: 0 <= j < |list| && list[j] == FirstMatch(list, key, text, now).value
        && Matches(list[j], key, text, now) && forall i :: 0 <= i < j ==> !Matches(list[i], key, text, now)
    decreases |list|
  {
    if |list| > 0 && !Matches(list[0], key, text, now) {
      FirstMatchFirst(list[1..], key, text, now);
      if FirstMatch(list, key, text, now).Some? {
        var j :| 0 <= j < |list[1..]| && list[1..][j] == FirstMatch(list, key, text, now).value
          && Matches(list[1..][j], key, text, now) && forall i :: 0 <= i < j ==> !Matches(list[1..][i], key, text, now);
        forall i | 0 <= i < j + 1 ensures !Matches(list[i], key, text, now) {
          if i > 0 {
            assert list[i] == list[1..][i - 1];
          }
        }
        assert list[j + 1] == list[1..][j];
      }
    } else if |list| > 0 {
      assert list[0] == FirstMatch(list, key, text, now).value;
    }
  }

  lemma {:induction false} FirstSelectedRows(list: seq<Record>, key: string, text: string, now: int)
    ensures match Query.FirstSelected(Rows(list, now), key, text, true)
      case Some(row) => FirstMatch(list, key, text, now) == Some(row.rec)
      case None => FirstMatch(list, key, text, now) == None
    decreases |list|
  {
    if |list| > 0 {
      RowSelects(list[0], key, text, now);
      assert Rows(list, now)[1..] == Rows(list[1..], now);
      FirstSelectedRows(list[1..], key, text, now);
    }
  }

  /** `find(key, text)` on a type whose objects all have the key is the first object whose field equals the text. */
  lemma FindFirstMatch(s: Store, k: Kind, key: string, text: string, now: int)
    requires Complete(s)
    requires forall i :: 0 <= i < |s.tables[k]| ==> FieldValue(s.tables[k][i].entity, key, now).Some?
    ensures Find(s, k, true, [key, text], now) == FirstMatch(s.tables[k], key, text, now)
  {
    var rows := Rows(s.tables[k], now);
    forall i | 0 <= i < |rows| ensures Query.HasField(rows[i], key) {
      RowSelects(s.tables[k][i], key, text, now);
    }
    Query.FindFirst(rows, key, text);
    FirstSelectedRows(s.tables[k], key, text, now);
  }

  /** The objects of rows selected from a list's rows are the list's matching objects. */
  lemma RecsOfSelected(list: seq<Record>, found: seq<Query.Row>, key: string, text: string, now: int, rec: Record)
    requires forall row :: row in found <==> row in Rows(list, now) && Query.Selects(row, key, text, true)
    ensures rec in Recs(found) <==> rec in list && Matches(rec, key, text, now)
  {
    var rows := Rows(list, now);
    RowSelects(rec, key, text, now);
    if rec in Recs(found) {
      var i :| 0 <= i < |found| && Recs(found)[i] == rec;
      assert found[i] in found;
      var j :| 0 <= j < |rows| && rows[j] == found[i];
    }
    if rec in list && Matches(rec, key, text, now) {
      var j :| 0 <= j < |list| && list[j] == rec;
      assert rows[j] in rows;
      var i :| 0 <= i < |found| && found[i] == rows[j];
      assert Recs(found)[i] == rec;
    }
  }

  /**
   * `findAll(key, text)` with no limit on a type whose objects all have the
   * key: exactly the objects whose field equals the text, ignoring case.
   */
  lemma FindAllMatches(s: Store, k: Kind, key: string, text: string, now: int)
    requires Complete(s)
    requires forall i :: 0 <= i < |s.tables[k]| ==> FieldValue(s.tables[k][i].entity, key, now).Some?
    ensures FindAll(s, k, true, -1, [key, text], now).Ok?
    ensures forall rec :: rec in FindAll(s, k, true, -1, [key, text], now).value <==>
      rec in s.tables[k] && Matches(rec, key, text, now)
  {
    var list := s.tables[k];
    var rows := Rows(list, now);
    forall i | 0 <= i < |rows| ensures Query.HasField(rows[i], key) {
      RowSelects(list[i], key, text, now);
    }
    Query.FilterKeeps(rows, key, text, true);
    assert [key, text][2..] == [];
    var found := Query.Filter(rows, key, text, true).value;
    assert Query.Passes(found, [key, text][2..], true, -1) == Ok(found);
    assert Query.FindAll(rows, true, -1, [key, text]) == Ok(found);
    forall rec ensures rec in Recs(found) <==> rec in list && Matches(rec, key, text, now) {
      RecsOfSelected(list, found, key, text, now, rec);
    }
  }

  /** The objects of a list whose field equals the text, ignoring case, in list order. */
  function Selected(list: seq<Record>, key: string, text: string, now: int): seq<Record>
    decreases |list|
  {
    if |list| == 0 then []
    else (if Matches(list[0], key, text, now) then [list[0]] else []) + Selected(list[1..], key, text, now)
  }

  /** Exactly the list's objects whose field equals the text are selected. */
  lemma {:induction false} SelectedIn(list: seq<Record>, key: string, text: string, now: int)
    ensures forall rec :: rec in Selected(list, key, text, now) <==> rec in list && Matches(rec, key, text, now)
    decreases |list|
  {
    if |list| > 0 {
      SelectedIn(list[1..], key, text, now);
      assert forall rec :: rec in list <==> rec == list[0] || rec in list[1..];
    }
  }

  lemma RowsCons(rec: Record, rest: seq<Record>, now: int)
    ensures Rows([rec] + rest, now) == [Query.Row(rec, ToFields(rec.entity, now))] + Rows(rest, now)
  {
    var list := [rec] + rest;
    var a := Rows(list, now);
    var b := [Query.Row(rec, ToFields(rec.entity, now))] + Rows(rest, now);
    forall i | 0 <= i < |a| ensures a[i] == b[i] {
      if i > 0 {
        assert list[i] == rest[i - 1];
      }
    }
  }

  lemma RecsRows(list: seq<Record>, now: int)
    ensures Recs(Rows(list, now)) == list
  {
  }

  /** The inner loop over a type's rows keeps the rows of the selected objects. */
  lemma {:induction false} FilterSelected(list: seq<Record>, key: string, text: string, now: int)
    requires forall i :: 0 <= i < |list| ==> FieldValue(list[i].entity, key, now).Some?
    ensures Query.Filter(Rows(list, now), key, text, true) == Ok(Rows(Selected(list, key, text, now), now))
    decreases |list|
  {
    if |list| > 0 {
      var row := Query.Row(list[0], ToFields(list[0].entity, now));
      var rest := Selected(list[1..], key, text, now);
      var pass := Matches(list[0], key, text, now);
      assert Rows(list, now) == [row] + Rows(list[1..], now) by {
        assert list == [list[0]] + list[1..];
        RowsCons(list[0], list[1..], now);
      }
      FilterSelected(list[1..], key, text, now);
      assert Query.Test(row, key, text, true) == Ok(pass) by {
        RowSelects(list[0], key, text, now);
      }
      Query.FilterCons(row, Rows(list[1..], now), key, text, true);
      if pass {
        assert Selected(list, key, text, now) == [list[0]] + rest;
        RowsCons(list[0], rest, now);
        assert Query.Filter(Rows(list, now), key, text, true) == Ok([row] + Rows(rest, now));
      } else {
        assert Selected(list, key, text, now) == rest;
        assert Query.Filter(Rows(list, now), key, text, true) == Ok(Rows(rest, now));
      }
    }
  }

  /**
   * `findAll(key, text)` with no limit on a type whose objects all have the
   * key is the list's objects whose field equals the text, in list order.
   */
  lemma FindAllSelected(s: Store, k: Kind, key: string, text: string, now: int)
    requires Complete(s)
    requires forall i :: 0 <= i < |s.tables[k]| ==> FieldValue(s.tables[k][i].entity, key, now).Some?
    ensures FindAll(s, k, true, -1, [key, text], now) == Ok(Selected(s.tables[k], key, text, now))
  {
    var rows := Rows(s.tables[k], now);
    FilterSelected(s.tables[k], key, text, now);
    assert [key, text][2..] == [];
    var found := Rows(Selected(s.tables[k], key, text, now), now);
    assert Query.Passes(found, [key, text][2..], true, -1) == Ok(found);
    assert Query.FindAll(rows, true, -1, [key, text]) == Ok(found);
    RecsRows(Selected(s.tables[k], key, text, now), now);
  }

  /** The fields under both keys equal both texts, ignoring case. */
  predicate MatchesBoth(rec: Record, k1: string, t1: string, k2: string, t2: string, now: int) {
    Matches(rec, k1, t1, now) && Matches(rec, k2, t2, now)
  }

  /** The objects of a list that match both pairs, in list order. */
  function SelectedBoth(list: seq<Record>, k1: string, t1: string, k2: string, t2: string, now: int): seq<Record>
    decreases |list|
  {
    if |list| == 0 then []
    else (if MatchesBoth(list[0], k1, t1, k2, t2, now) then [list[0]] else []) + SelectedBoth(list[1..], k1, t1, k2, t2, now)
  }

  /** Selecting by one pair and then by another is selecting by both. */
  lemma {:induction false} SelectedTwice(list: seq<Record>, k1: string, t1: string, k2: string, t2: string, now: int)
    ensures Selected(Selected(list, k1, t1, now), k2, t2, now) == SelectedBoth(list, k1, t1, k2, t2, now)
    decreases |list|
  {
    if |list| > 0 {
      SelectedTwice(list[1..], k1, t1, k2, t2, now);
      var rest := Selected(list[1..], k1, t1, now);
      if Matches(list[0], k1, t1, now) {
        var once := [list[0]] + rest;
        assert Selected(list, k1, t1, now) == once;
        assert once[0] == list[0] && once[1..] == rest;
        assert Selected(once, k2, t2, now)
          == (if Matches(list[0], k2, t2, now) then [list[0]] else []) + Selected(rest, k2, t2, now);
      } else {
        assert Selected(list, k1, t1, now) == rest;
      }
    }
  }

  /** No object matches both pairs exactly when none is selected. */
  lemma {:induction false} SelectedBothNone(list: seq<Record>, k1: string, t1: string, k2: string, t2: string, now: int)
    ensures |SelectedBoth(list, k1, t1, k2, t2, now)| == 0 <==>
      forall i :: 0 <= i < |list| ==> !MatchesBoth(list[i], k1, t1, k2, t2, now)
    decreases |list|
  {
    if |list| > 0 && !MatchesBoth(list[0], k1, t1, k2, t2, now) {
      SelectedBothNone(list[1..], k1, t1, k2, t2, now);
      assert forall i :: 1 <= i < |list| ==> list[i] == list[1..][i - 1];
    }
  }

  /** The first object selected by both pairs is the earliest object of the list matching both. */
  lemma {:induction false} SelectedBothHead(list: seq<Record>, k1: string, t1: string, k2: string, t2: string, now: int)
    requires |SelectedBoth(list, k1, t1, k2, t2, now)| > 0
    ensures exists j :: (0 <= j < |list| && list[j] == SelectedBoth(list, k1, t1, k2, t2, now)[0]
      && MatchesBoth(list[j], k1, t1, k2, t2, now)
      && forall i :: 0 <= i < j ==> !MatchesBoth(list[i], k1, t1, k2, t2, now))
    decreases |list|
  {
    if !MatchesBoth(list[0], k1, t1, k2, t2, now) {
      var tail := list[1..];
      assert SelectedBoth(list, k1, t1, k2, t2, now) == SelectedBoth(tail, k1, t1, k2, t2, now);
      SelectedBothHead(tail, k1, t1, k2, t2, now);
      var j :| 0 <= j < |tail| && tail[j] == SelectedBoth(tail, k1, t1, k2, t2, now)[0]
        && MatchesBoth(tail[j], k1, t1, k2, t2, now)
        && forall i :: 0 <= i < j ==> !MatchesBoth(tail[i], k1, t1, k2, t2, now);
      assert list[j + 1] == tail[j];
      assert forall i :: 1 <= i < j + 1 ==> list[i] == tail[i - 1];
    } else {
      assert list[0] == SelectedBoth(list, k1, t1, k2, t2, now)[0];
    }
  }

  /**
   * `findAll(k1, t1, k2, t2)` with no limit on a type whose objects all have
   * both keys: the objects matching both pairs, in list order.
   */
  lemma FindAllBoth(s: Store, k: Kind, k1: string, t1: string, k2: string, t2: string, now: int)
    requires Complete(s)
    requires forall i :: 0 <= i < |s.tables[k]| ==>
      FieldValue(s.tables[k][i].entity, k1, now).Some? && FieldValue(s.tables[k][i].entity, k2, now).Some?
    ensures FindAll(s, k, true, -1, [k1, t1, k2, t2], now) == Ok(SelectedBoth(s.tables[k], k1, t1, k2, t2, now))
  {
    var both := SelectedBoth(s.tables[k], k1, t1, k2, t2, now);
    PassesBoth(s.tables[k], k1, t1, k2, t2, now);
    RecsRows(both, now);
  }

  /** `find(k1, t1, k2, t2)` on such a type is the first object matching both pairs. */
  lemma FindBoth(s: Store, k: Kind, k1: string, t1: string, k2: string, t2: string, now: int)
    requires Complete(s)
    requires forall i :: 0 <= i < |s.tables[k]| ==>
      FieldValue(s.tables[k][i].entity, k1, now).Some? && FieldValue(s.tables[k][i].entity, k2, now).Some?
    ensures var both := SelectedBoth(s.tables[k], k1, t1, k2, t2, now);
      Find(s, k, true, [k1, t1, k2, t2], now) == if |both| > 0 then Some(both[0]) else None
  {
    PassesBoth(s.tables[k], k1, t1, k2, t2, now);
  }

  /** Both forms of the query over a type's rows keep the rows of the objects matching both pairs. */
  lemma PassesBoth(list: seq<Record>, k1: string, t1: string, k2: string, t2: string, now: int)
    requires forall i :: 0 <= i < |list| ==>
      FieldValue(list[i].entity, k1, now).Some? && FieldValue(list[i].entity, k2, now).Some?
    ensures var found := Ok(Rows(SelectedBoth(list, k1, t1, k2, t2, now), now));
      && Query.FindAll(Rows(list, now), true, -1, [k1, t1, k2, t2]) == found
      && Query.FindAll(Rows(list, now), true, 1, [k1, t1, k2, t2]) == found
  {
    var once := Selected(list, k1, t1, now);
    FilterSelected(list, k1, t1, now);
    SelectedIn(list, k1, t1, now);
    forall i | 0 <= i < |once| ensures FieldValue(once[i].entity, k2, now).Some? {
      assert once[i] in once;
      var j :| 0 <= j < |list| && list[j] == once[i];
    }
    FilterSelected(once, k2, t2, now);
    SelectedTwice(list, k1, t1, k2, t2, now);
    PassesPairs(Rows(list, now), Rows(once, now), Rows(Selected(once, k2, t2, now), now), k1, t1, k2, t2);
  }

  /** Two passes of the outer loop, each a full inner loop. */
  lemma PassesPairs(rows: seq<Query.Row>, once: seq<Query.Row>, twice: seq<Query.Row>, k1: string, t1: string, k2: string, t2: string)
    requires Query.Filter(rows, k1, t1, true) == Ok(once)
    requires Query.Filter(once, k2, t2, true) == Ok(twice)
    ensures Query.FindAll(rows, true, -1, [k1, t1, k2, t2]) == Ok(twice)
    ensures Query.FindAll(rows, true, 1, [k1, t1, k2, t2]) == Ok(twice)
  {
    Query.LimitOneUnlimited(rows, [k1, t1, k2, t2], true);
    var args := [k1, t1, k2, t2];
    assert args[2..] == [k2, t2];
    assert [k2, t2][2..] == [];
    assert Query.Passes(twice, [], true, -1) == Ok(twice);
    assert Query.Passes(once, [k2, t2], true, -1) == Ok(twice);
  }

  /**
   * `findAll` with no limit on a type whose objects all have every key of
   * the pairs: exactly the objects that pass every pair, under either
   * comparison.
   */
  lemma FindAllPassing(s: Store, k: Kind, matchAll: bool, args: seq<string>, now: int)
    requires Complete(s) && |args| % 2 == 0
    requires forall i :: 0 <= i < |s.tables[k]| ==> Query.HasAll(Query.Row(s.tables[k][i], ToFields(s.tables[k][i].entity, now)), args)
    ensures FindAll(s, k, matchAll, -1, args, now).Ok?
    ensures forall rec :: rec in FindAll(s, k, matchAll, -1, args, now).value <==>
      rec in s.tables[k] && Query.SelectsAll(Query.Row(rec, ToFields(rec.entity, now)), args, matchAll)
  {
    var list := s.tables[k];
    var rows := Rows(list, now);
    Query.FindAllConjunction(rows, args, matchAll);
    var found := Query.FindAll(rows, matchAll, -1, args).value;
    forall rec ensures rec in Recs(found) <==> rec in list && Query.SelectsAll(Query.Row(rec, ToFields(rec.entity, now)), args, matchAll) {
      if rec in Recs(found) {
        var i :| 0 <= i < |found| && Recs(found)[i] == rec;
        assert found[i] in found;
        var j :| 0 <= j < |rows| && rows[j] == found[i];
      }
      if rec in list && Query.SelectsAll(Query.Row(rec, ToFields(rec.entity, now)), args, matchAll) {
        var j :| 0 <= j < |list| && list[j] == rec;
        assert rows[j] in rows;
        var i :| 0 <= i < |found| && found[i] == rows[j];
        assert Recs(found)[i] == rec;
      }
    }
  }
}
