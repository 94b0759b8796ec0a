# Hotel reservation core, modelled in Dafny

This project models the core of a console hotel reservation system written in Java. The model covers:

- the flat-file store: one text file per entity type, records separated by a blank line, one `key<TAB>value` line per field;
- the `Entity` base class that caches every type's records in memory and answers `find`/`findAll` queries over them;
- the per-entity validation rules and the `save` paths: create, update, and the saves of orders and their lines;
- the reservation life cycle (create, check in, check out, expiry sweep) and the room states it drives;
- the room-service order flow: choosing and editing lines, and marking orders;
- the bill (`Payment`) and the two room reports (`Report`);
- the control-layer operations that tie these together (`ReservationControl`, `RoomControl`, `RoomServiceControl`).

Everything is pure functions over immutable values:

- A `Store` maps each entity type to the ordered list of cached objects and holds each data file's state.
- Each cached object is a `Record`: an identity (`handle`), the entity's current state, the `isNew` flag, and the field-map snapshot taken when it was loaded or first written.
- Java shares object references between the cache and the caller. The model writes a changed object back at every list position that holds the same identity (`EntityStore.Sync`).
- Time is a parameter `now`, an integer count of milliseconds. Money is an integer count of cents. The data files are parameters, and so is whether writing each file succeeds.

Modules follow the program's structure:

- `Codec`, `Dates`, `Enums`: text forms of numbers, booleans, dates and enum constants, as `toHashMap` writes them and `loadHashMap` reads them.
- `FlatFile`: `FileManager.loadFile`/`writeFile`, with `Get`/`Put` modelling `HashMap`.
- `Fields`, `Tables`: every type's `toHashMap`/`loadHashMap`, and `FileManager.load`/`write`.
- `Query`, `EntityStore`: the cache, bootstrap, `createNewRecord`, `updateRecord`, `delete`, `find`, `findAll`, `checkIdUnique`, `revertOldData`.
- `Rules`, `Saving`: each type's `validate` and `save`.
- `Lifecycle`: `checkIn`, `checkOut`, `checkExpiredReservations`.
- `Orders`: `RoomService` lines and totals, and the `RoomServiceControl` steps.
- `Payment`, `Report`.
- `RoomControl`, `ReservationControl`: the control operations, with each user prompt turned into a parameter.

## Model

| member | source | states |
|---|---|---|
| Codec.NatRoundTrip | src/com/hotel/entities/Room.java:122-139 | A natural number written with `Integer.toString` reads back with `Integer.parseInt` as the same number |
| Codec.IntRoundTrip | src/com/hotel/entities/Reservation.java:229-246 | Every integer, negative ones included, reads back from its decimal text |
| Codec.BoolRoundTrip | src/com/hotel/entities/Room.java:124-141 | `Boolean.parseBoolean(Boolean.toString(b))` is `b` |
| Codec.MoneyRoundTrip | src/com/hotel/entities/Room.java:120-137 | Every amount written the way `Double.toString` writes it reads back as the same amount of cents |
| Codec.UnsignedMoneyRoundTrip | src/com/hotel/entities/Room.java:120-137 | The same for non-negative amounts, whose cents part is printed with one digit when the second is zero |
| Codec.Pad2 | src/com/hotel/entities/Room.java:101 | `%02d` gives exactly two digits for 0..99: the tens digit, then the units digit |
| Codec.NatTextValue | src/com/hotel/entities/Room.java:122-123 | The digits written for a number have that number as their value |
| Dates.MinuteFloor | src/com/hotel/entities/Reservation.java:18 | The "yyyy-MM-dd HHmm" format keeps an instant only to its minute: the result is the start of that minute, at most the instant and less than one minute before it |
| Dates.DateRoundTrip | src/com/hotel/entities/Reservation.java:231-248 | A date written with the format reads back as the instant cut to its minute |
| Dates.TotalDaysNearDifference | src/com/hotel/core/DateManager.java:21-29 | `getTotalDays` times one day lies within one day of the exact difference; it is zero exactly on the same day and negative exactly when the end day is earlier |
| Dates.ExaminedCount | src/com/hotel/core/DateManager.java:52-56 | The do-while loop looks at one instant per started day of the interval, and at least one |
| Dates.WeekdaysAtMostExamined | src/com/hotel/core/DateManager.java:52-56 | The loop never counts more weekdays than the instants it looks at |
| Dates.TotalWeekdays | src/com/hotel/core/DateManager.java:43-59 | The loop returns the weekday count of the walk; with the end not after the start it counts only the start's day; it never exceeds the instants examined |
| Dates.WeekdayDaysBound | src/com/hotel/core/DateManager.java:52-56 | A run of days holds no more weekdays than days |
| Dates.WeekdayNightsBound | src/com/hotel/entities/Payment.java:40-44 | A stay has no more weekday nights than nights |
| Dates.AsWrittenCountsNights | src/com/hotel/core/DateManager.java:52-56 | When check-out is not later in the day than check-in, the loop counts exactly the weekday nights |
| Dates.WeekdaysExceedNights | src/com/hotel/core/DateManager.java:52-56 | A one-night stay from 14:00 to 15:00 the next weekday counts two weekdays |
| Entities.RoomIdInjective | src/com/hotel/entities/Room.java:100-102 | A valid room's id has four characters, and two valid rooms share an id exactly when they share floor and number |
| Entities.Settle | src/com/hotel/entities/Reservation.java:76-80 | Asking for the values made on first use fixes them: the reservation code is generated from the clock, the order's creation time is stamped, and nothing else changes |
| Entities.CodeAsWrittenCollides | src/com/hotel/entities/Reservation.java:54-60 | With the pattern as written, 01:10 and 11:00 of the same day give one guest the same code, though they lie in different minutes |
| Entities.CodeIdentifiesMinute | src/com/hotel/entities/Reservation.java:54-60 | Two codes made for the same guest are equal exactly when they were made in the same minute, as a unique code needs |
| Entities.SettleKeepsIds | src/com/hotel/entities/RoomService.java:56-60 | Once produced, the reservation code and the order id stay the same whenever they are read later |
| Enums.NamesRoundTrip | src/com/hotel/entities/Room.java:126-144 | `valueOf(x.toString())` is `x` for every constant of every enum |
| Enums.NamesCaseless | src/com/hotel/core/Entity.java:321-323 | Two room statuses, room types, reservation statuses or order statuses have the same lower-cased name only when they are the same constant |
| Enums.ReservationStatusNamesContain | src/com/hotel/core/Entity.java:323 | One reservation status's lower-cased name contains another's only when they are the same status |
| FlatFile.GetFinds | src/com/hotel/core/FileManager.java:58 | A key is found exactly when the map holds it, with the value of its entry |
| FlatFile.PutFresh | src/com/hotel/core/FileManager.java:58 | Putting a missing key adds its entry at the end |
| FlatFile.PutExisting | src/com/hotel/core/FileManager.java:58 | Putting a present key overwrites its entry in place and keeps every other entry |
| FlatFile.PutGet | src/com/hotel/core/FileManager.java:58 | After a put, the key reads back as the value put |
| FlatFile.Zip | src/com/hotel/entities/Room.java:116-131 | The map a `toHashMap` builds has one entry per key, in order, with its value |
| FlatFile.ZipUnique | src/com/hotel/entities/Room.java:116-131 | Distinct keys give a map without repeated keys |
| FlatFile.ZipLookups | src/com/hotel/entities/Room.java:116-145 | In a map built from distinct keys, every key finds its own value |
| FlatFile.LoadFile | src/com/hotel/core/FileManager.java:30-71 | A missing file is created empty and reads as no records; an unreadable one gives nothing and stays as it is; a present one is parsed |
| FlatFile.ParseLoop | src/com/hotel/core/FileManager.java:46-61 | The reading loop: a blank line closes a record, any other line is trimmed and split at its first tab, and a last record without a blank line after it is kept |
| FlatFile.WriteLoop | src/com/hotel/core/FileManager.java:83-95 | The writing loop: a blank line before every record but the first; no records write an empty file |
| FlatFile.SerialiseSnoc | src/com/hotel/core/FileManager.java:83-94 | One more record adds a blank line and the record's lines at the end |
| FlatFile.ReadEntryLine | src/com/hotel/core/FileManager.java:57-58 | A field line whose key and value are safe reads back as the same key and value |
| FlatFile.TrimEndEntryLine | src/com/hotel/core/FileManager.java:57 | Trimming a safe field line's end keeps exactly the text the reading loop needs |
| FlatFile.SplitSerialised | src/com/hotel/core/FileManager.java:46-48 | The written text breaks into exactly the lines written, and does not end in a line break |
| FlatFile.CollectFileLines | src/com/hotel/core/FileManager.java:46-61 | Reading the written lines collects exactly the records written |
| FlatFile.RoundTrip | src/com/hotel/core/FileManager.java:46-94 | Records of safe entries without repeated keys written by `writeFile` are read back by `loadFile` unchanged and in order |
| Tables.SchemaKeys | src/com/hotel/core/FileManager.java:140-150 | Every type has at least one key, and its keys are plain and distinct |
| Tables.ZipSafe | src/com/hotel/core/FileManager.java:140-150 | Plain distinct keys with safe values make a record that survives the file |
| Tables.FieldsSafe | src/com/hotel/core/FileManager.java:140-150 | The field map of an entity whose user texts are safe survives the file |
| Tables.FieldMaps | src/com/hotel/core/FileManager.java:140-150 | `write` converts every cached entity, in list order, with its own `toHashMap` |
| Tables.LoadTable | src/com/hotel/core/FileManager.java:113-131 | A missing file loads as no entities and is created; an unreadable file gives nothing |
| Tables.LoadEntitiesEach | src/com/hotel/core/FileManager.java:119-123 | Every loaded entity is the conversion of its record, of the requested type, with no first-use value left to produce |
| Tables.StoredEntities | src/com/hotel/core/FileManager.java:140-150 | What the file keeps of each cached entity, once its first-use values are produced |
| Tables.LoadFieldMaps | src/com/hotel/core/FileManager.java:113-150 | Converting the written maps back gives the stored part of every entity, in order |
| Tables.TableRoundTrip | src/com/hotel/core/FileManager.java:113-150 | A type's list written to its file loads back as the stored part of each entity, in list order |
| Fields.ToFieldsZip | src/com/hotel/entities/Guest.java:237-250 | Every `toHashMap` pairs its type's keys, in order, with the entity's values |
| Fields.GuestLookups | src/com/hotel/entities/Guest.java:237-250 | Each guest key finds the value written for it |
| Fields.RoomLookups | src/com/hotel/entities/Room.java:116-131 | Each room key finds the value written for it |
| Fields.ReservationLookups | src/com/hotel/entities/Reservation.java:223-237 | Each reservation key finds the value written for it |
| Fields.MenuItemLookups | src/com/hotel/entities/MenuItem.java:60-68 | Each menu-item key finds the value written for it |
| Fields.OrderItemLookups | src/com/hotel/entities/OrderMenuItem.java:75-82 | Each order-line key finds the value written for it |
| Fields.RoomServiceLookups | src/com/hotel/entities/RoomService.java:123-133 | Each order key finds the value written for it |
| Fields.RoomQueriedFields | src/com/hotel/entities/Room.java:118-128 | The fields the queries read are the room's id, its type's name and its status's name |
| Fields.ReservationQueriedFields | src/com/hotel/entities/Reservation.java:227-234 | The fields the queries read are the reservation's code, status name, guest id and room id |
| Fields.RoomServiceQueriedFields | src/com/hotel/entities/RoomService.java:123-133 | The fields the queries read are the order's id, status name and reservation id |
| Fields.FromFieldsKind | src/com/hotel/core/FileManager.java:119-122 | A record converts only to an entity of the requested type, with no first-use value left to produce |
| Fields.GuestRoundTrip | src/com/hotel/entities/Guest.java:237-263 | `loadHashMap(toHashMap())` gives the guest back |
| Fields.LoadRoomOf | src/com/hotel/entities/Room.java:134-145 | A map holding the texts of a room's fields loads as that room; the id is not read |
| Fields.RoomRoundTrip | src/com/hotel/entities/Room.java:116-145 | `loadHashMap(toHashMap())` gives the room back |
| Fields.ReservationRoundTrip | src/com/hotel/entities/Reservation.java:223-260 | The reservation comes back with its generated code and both dates cut to the minute; the walk-in flag is not stored |
| Fields.MenuItemRoundTrip | src/com/hotel/entities/MenuItem.java:60-76 | `loadHashMap(toHashMap())` gives the menu item back |
| Fields.OrderItemRoundTrip | src/com/hotel/entities/OrderMenuItem.java:75-90 | `loadHashMap(toHashMap())` gives the order line back |
| Fields.RoomServiceRoundTrip | src/com/hotel/entities/RoomService.java:123-147 | The order comes back with its creation stamp cut to the minute; its lines and its room are not stored and are looked up later |
| Fields.FieldsRoundTrip | src/com/hotel/core/FileManager.java:119-146 | For every type, converting an entity's map back gives the stored part of the entity |
| Fields.GuestMapRoundTrip | src/com/hotel/entities/Guest.java:237-263 | A loaded guest writes back every field with the value it was loaded from |
| EntityStore.NewRecord | src/com/hotel/core/Entity.java:32-38 | A new object has a fresh identity, is new, and has no snapshot |
| EntityStore.SyncValid | src/com/hotel/core/Entity.java:208-210 | Changing an object in memory keeps the cache well formed and changes no identity |
| EntityStore.Write | src/com/hotel/core/Entity.java:151-163 | Writing a type produces every first-use value of its list; the file gets the list's text exactly when it is writable, and other types are untouched |
| EntityStore.WriteReadsBack | src/com/hotel/core/FileManager.java:140-150 | A successful write reads back as the stored part of each cached object, in list order |
| EntityStore.WriteValid | src/com/hotel/core/FileManager.java:140-150 | Writing keeps the cache well formed and changes no list |
| EntityStore.AppendValid | src/com/hotel/core/Entity.java:154-160 | A new object joins the end of its type's list |
| EntityStore.Commit | src/com/hotel/core/Entity.java:127-163 | A save answers true exactly when the type's file is writable, and touches no other type |
| EntityStore.CommitNew | src/com/hotel/core/Entity.java:138-163 | `createNewRecord`: the object is appended whatever the write's outcome; it stops being new and takes its snapshot only when the write succeeds |
| EntityStore.CommitExisting | src/com/hotel/core/Entity.java:208-210 | `updateRecord`: no identity is added, the object's new state is seen wherever it is listed, and its snapshot is not refreshed |
| EntityStore.CommitEntity | src/com/hotel/core/Entity.java:151-162 | A save changes the object only by producing its first-use values |
| EntityStore.RemoveFirstCuts | src/com/hotel/core/Entity.java:220 | `remove` cuts out only the first occurrence of the object, and leaves a list without it as it was |
| EntityStore.DeleteRemoves | src/com/hotel/core/Entity.java:216-228 | `delete` removes the object's first occurrence from its list only, and the cache stays well formed |
| EntityStore.Revert | src/com/hotel/core/Entity.java:365-368 | `revertOldData` keeps the identity, the flag and the snapshot, and the object keeps its type |
| EntityStore.RevertGuest | src/com/hotel/core/Entity.java:105-109 | A saved guest reverts to the guest its snapshot holds; a new guest is left as it is |
| EntityStore.MarkLoaded | src/com/hotel/core/Entity.java:189-193 | A loaded object is marked as not new and takes a snapshot of its own fields |
| EntityStore.LoadAll | src/com/hotel/core/Entity.java:174-187 | The cache loads only when every type's file loads, and each type gets the entities of its own file |
| EntityStore.Construct | src/com/hotel/core/Entity.java:32-38 | The first construction loads the cache; a loaded or broken cache is never loaded again |
| EntityStore.BootLoads | src/com/hotel/core/Entity.java:169-196 | Bootstrap succeeds exactly when every data file loads, and then the cache is well formed |
| EntityStore.BootTable | src/com/hotel/core/Entity.java:180-193 | Each type's list holds its file's entities in file order, as saved objects with snapshots |
| EntityStore.BootDistinct | src/com/hotel/core/Entity.java:174-193 | Every cached object is a distinct object |
| EntityStore.CheckIdUniqueIff | src/com/hotel/core/Entity.java:353-360 | `checkIdUnique` is true exactly when every cached object whose field equals the text, ignoring case, is the object itself |
| EntityStore.FindFirstMatch | src/com/hotel/core/Entity.java:240-246 | `find(key, text)` is the first cached object whose field equals the text, ignoring case |
| EntityStore.FindAllMatches | src/com/hotel/core/Entity.java:293-295 | `findAll(key, text)` holds exactly the cached objects whose field equals the text, ignoring case |
| EntityStore.FindAllSelected | src/com/hotel/core/Entity.java:304-344 | The result is in cache order |
| EntityStore.SelectedIn | src/com/hotel/core/Entity.java:319-324 | The selection keeps exactly the objects whose field matches |
| EntityStore.SelectedTwice | src/com/hotel/core/Entity.java:315-334 | Filtering by one pair and then by another is filtering by both |
| EntityStore.FindAllBoth | src/com/hotel/core/Entity.java:304-344 | A two-pair query keeps the objects matching both pairs, in cache order |
| EntityStore.FindBoth | src/com/hotel/core/Entity.java:240-246 | A two-pair `find` is the first object matching both pairs |
| EntityStore.FindAllPassing | src/com/hotel/core/Entity.java:304-344 | For any pairs and either match mode, the result holds exactly the objects passing every pair |
| Query.Test | src/com/hotel/core/Entity.java:321-323 | A record without the key raises; otherwise it passes exactly when its value equals the text ignoring case, or, for a partial match, contains it |
| Query.FilterKeeps | src/com/hotel/core/Entity.java:319-324 | The inner loop fails exactly when some record lacks the key, and otherwise keeps exactly the records that pass |
| Query.FilterFirst | src/com/hotel/core/Entity.java:319-324 | The first record kept is the first record of the list that passes |
| Query.Pass | src/com/hotel/core/Entity.java:327-328 | The limit compares the size of the list being filtered, not the number found: a list exactly that long is cut after its first record |
| Query.Passes | src/com/hotel/core/Entity.java:315-334 | Only a missing key can make the pairs' passes fail |
| Query.FindAll | src/com/hotel/core/Entity.java:304-308 | An odd number of arguments gives nothing, and only that gives this answer |
| Query.EmptyPartialKeepsAll | src/com/hotel/core/Entity.java:323 | An empty text under partial match keeps every record |
| Query.LimitOnePass | src/com/hotel/core/Entity.java:327-328 | A limit of one never cuts a pass short |
| Query.LimitOneUnlimited | src/com/hotel/core/Entity.java:240-246 | So `find`, which asks for one result, sees the same matches as an unlimited `findAll` |
| Query.LimitSkipsLater | src/com/hotel/core/Entity.java:327-328 | With a limit equal to the list's size, a match after a first non-matching record is lost |
| Query.TwoPairs | src/com/hotel/core/Entity.java:315-334 | A record passes two pairs exactly when it passes each |
| Query.FindAllConjunction | src/com/hotel/core/Entity.java:315-334 | The result holds exactly the records passing every pair |
| Query.FindAllNoPairs | src/com/hotel/core/Entity.java:311-344 | With no pairs `findAll` returns the whole cached list, whatever the limit |
| Query.FindFirst | src/com/hotel/core/Entity.java:240-246 | `find(key, text)` is the first record whose field equals the text, ignoring case |
| Query.CheckIdUniqueIff | src/com/hotel/core/Entity.java:353-360 | `checkIdUnique` holds exactly when every matching record is the object itself |
| Rules.GuestChecks | src/com/hotel/entities/Guest.java:307-316 | Each of the four guest problems is reported exactly when its rule fails, and none exactly when all hold |
| Rules.GuestRules | src/com/hotel/entities/Guest.java:304-318 | A guest has no problem exactly when its id is its own, its gender is M or F, its contact is 8 UTF-16 code units long and its card 16, as `String.length` counts |
| Rules.SupplementaryContactRefused | src/com/hotel/entities/Guest.java:312-313 | A contact of eight characters whose last lies beyond U+FFFF is nine UTF-16 code units long and is refused |
| Rules.GuestIdUnique | src/com/hotel/entities/Guest.java:307-308 | The guest's id check asks whether no other cached guest has the same id, ignoring case |
| Rules.RoomRules | src/com/hotel/entities/Room.java:148-158 | A room has no problem exactly when its floor is 2..99, its number 1..99 and its id its own; its id then has four characters |
| Rules.RoomIdUnique | src/com/hotel/entities/Room.java:155-156 | The room's id check asks whether no other cached room has the same id |
| Rules.MenuItemRules | src/com/hotel/entities/MenuItem.java:79-90 | A menu item has no problem exactly when its name is its own, ignoring case, and its price is positive |
| Rules.NameUnique | src/com/hotel/entities/MenuItem.java:82-83 | The name check asks whether no other cached item has the same name, ignoring case |
| Rules.OrderItemProblems | src/com/hotel/entities/OrderMenuItem.java:93-100 | An order line has no problem exactly when its quantity is positive |
| Rules.RoomAtFirst | src/com/hotel/entities/Reservation.java:197-202 | No room before the first one with the id has it |
| Rules.RoomOfFirst | src/com/hotel/entities/Reservation.java:197-202 | The room a reservation refers to is the first cached room with its id |
| Rules.ReservationRules | src/com/hotel/entities/Reservation.java:263-284 | Validation raises exactly when the room is missing; otherwise a new non-walk-in reservation must check in later than now, the stay must span a calendar day, and a new reservation's room must be vacant |
| Rules.LinesHaveOrderIds | src/com/hotel/entities/RoomService.java:69 | The lines found for an order are exactly the cached lines carrying its id |
| Rules.MenuItemsLoaded | src/com/hotel/entities/RoomService.java:67-77 | An order without lines loads the lines carrying its id and keeps them; one with lines keeps its own |
| Rules.ServiceCheck | src/com/hotel/entities/RoomService.java:150-157 | An order passes only when it has at least one line |
| Rules.Validate | src/com/hotel/core/Entity.java:57-62 | An order's validation first loads its lines; a reservation's leaves it unchanged; no object changes identity, flag or type |
| Rules.GuestRevertsOnProblems | src/com/hotel/core/Entity.java:57-62 | A saved guest with problems is reverted to its snapshot; one without keeps its edits |
| Saving.Finish | src/com/hotel/core/Entity.java:123-131 | A save raises when validation raised, answers false with problems, and otherwise answers whether the file was written |
| Saving.FinishSpec | src/com/hotel/core/Entity.java:123-163 | A failed validation writes nothing; a new object with no problems is appended and stops being new only when written; a saved object keeps its place |
| Saving.BaseSaveSpec | src/com/hotel/core/Entity.java:123-131 | `save` validates first, then finishes with the validated object |
| Saving.BaseSaveValid | src/com/hotel/core/Entity.java:123-131 | Saving keeps the cache well formed |
| Saving.FinishSyncs | src/com/hotel/core/Entity.java:208-210 | After validation, a saved object's save only makes its state seen wherever it is listed |
| Saving.SaveSyncs | src/com/hotel/core/Entity.java:208-210 | The same for a saved room or reservation, whose validation changes nothing |
| Saving.SavedFields | src/com/hotel/entities/Reservation.java:324-339 | Saving a reservation changes none of its fields except, perhaps, producing its code |
| Saving.SaveReservationAnswer | src/com/hotel/entities/Reservation.java:338 | When the room is cached, the reservation's save answers what the base save answers |
| Saving.SaveReservationReserves | src/com/hotel/entities/Reservation.java:328-336 | A new reservation saved successfully leaves its room reserved wherever it is listed; otherwise the rooms are untouched |
| Saving.ReserveRoom | src/com/hotel/entities/Reservation.java:330-332 | A listed room marked reserved and saved is reserved wherever it is listed |
| Saving.RoomOfListed | src/com/hotel/entities/Reservation.java:197-202 | The room a reservation finds is a cached room |
| Saving.RoomSaveKeepsState | src/com/hotel/core/Entity.java:151-163 | Saving a room keeps its in-memory state wherever it is listed, whatever the outcome |
| Saving.AddMenuItem | src/com/hotel/entities/RoomService.java:83-86 | `addMenuItem` appends the line and changes nothing else |
| Saving.Linked | src/com/hotel/entities/OrderMenuItem.java:79 | A line written for an order carries the order's id |
| Saving.SaveLinesValid | src/com/hotel/entities/RoomService.java:168-172 | Saving an order's lines keeps the cache well formed, changes only the lines' list, and loses no line |
| Saving.SaveLinesLinked | src/com/hotel/entities/RoomService.java:168-172 | Every line, saved or not, comes back carrying the order's id |
| Saving.Confirmed | src/com/hotel/entities/RoomService.java:161-162 | A new order is set to confirmed; nothing else changes |
| Saving.SaveServiceSpec | src/com/hotel/entities/RoomService.java:160-173 | A new order is saved confirmed; a saved order keeps its status; a successful save leaves a non-empty order whose lines all carry its id; a failed one saves no line |
| Saving.SaveItemsSpec | src/com/hotel/entities/RoomService.java:168-172 | Saving the lines of a written order ties each line to its id and keeps the order's status |
| Saving.SaveItemsLinked | src/com/hotel/entities/RoomService.java:168-172 | The order's id does not change while its lines are saved |
| Saving.ServiceBaseSaved | src/com/hotel/entities/RoomService.java:160-166 | The order's own save comes first and leaves the lines' list untouched |
| Saving.FinishOk | src/com/hotel/core/Entity.java:123-131 | A save that answers true had no problem |
| Lifecycle.CheckOutSpec | src/com/hotel/entities/Reservation.java:389-401 | Only a checked-in reservation checks out; then the reservation becomes checked out and its room vacant, both saved, and the answer is true; a missing room raises |
| Lifecycle.CheckInSpec | src/com/hotel/entities/Reservation.java:362-387 | Check-in happens only after the check-in time; the reservation becomes checked in and its room occupied, and the answer says whether both saves passed; a missing room raises |
| Lifecycle.CheckInSaved | src/com/hotel/entities/Reservation.java:377-378 | The room is saved only after the reservation's save succeeded |
| Lifecycle.SaveBoth | src/com/hotel/entities/Reservation.java:355-357 | Saving a reservation with a new state and then its room with a new status writes both states |
| Lifecycle.ExpireStep | src/com/hotel/entities/Reservation.java:345-358 | One step expires a due reservation and frees its room, raises when that room is missing, and leaves a reservation not yet due alone |
| Lifecycle.ExpireNotDue | src/com/hotel/entities/Reservation.java:350 | A reservation within the grace period is untouched |
| Lifecycle.ExpireNoRoom | src/com/hotel/entities/Reservation.java:352-353 | A due reservation whose room is gone raises |
| Lifecycle.SweepFrom | src/com/hotel/entities/Reservation.java:344-359 | The loop expires every due reservation found and frees its room, unless a missing room raises first |
| Lifecycle.ConfirmedFound | src/com/hotel/entities/Reservation.java:343 | The sweep's query finds exactly the cached confirmed reservations |
| Lifecycle.CheckExpiredSpec | src/com/hotel/entities/Reservation.java:341-360 | The sweep expires exactly the confirmed reservations past check-in plus the grace period, frees exactly their rooms, and raises only when one of their rooms is missing |
| Orders.SetMenuItem | src/com/hotel/entities/OrderMenuItem.java:42-45 | The line takes the item's name and price and keeps its quantity and order id |
| Orders.LinesTotalAppend | src/com/hotel/entities/RoomService.java:115-120 | The total of two runs of lines is the sum of their totals |
| Orders.LinesTotalPositive | src/com/hotel/entities/OrderMenuItem.java:58-60 | Lines with positive quantity and price add up to a positive total |
| Orders.AddMenuItemTotal | src/com/hotel/entities/RoomService.java:83-86 | Adding a line adds its price times quantity to the order's total |
| Orders.SaveItemsKeepsTotal | src/com/hotel/entities/RoomService.java:168-172 | Saving the lines does not change the order's total |
| Orders.ServiceTotal | src/com/hotel/entities/RoomService.java:115-120 | An order with lines totals its lines' price times quantity |
| Orders.ServiceTotalLoaded | src/com/hotel/entities/RoomService.java:67-77 | An order without lines in memory totals the cached lines carrying its id |
| Orders.ChooseMenuItem | src/com/hotel/controls/RoomServiceControl.java:170-187 | Choosing no item changes nothing; choosing one appends a new line with the item's name and price and the quantity entered |
| Orders.ChooseMenuItemTotal | src/com/hotel/controls/RoomServiceControl.java:170-174 | A chosen item adds its price times the quantity to the order's total |
| Orders.EditLine | src/com/hotel/controls/RoomServiceControl.java:160-165 | Editing changes only the line at the 1-based index entered, and only when that index is in range and an item was picked |
| Orders.EditLineTotal | src/com/hotel/controls/RoomServiceControl.java:162-163 | Editing a line changes the total by the new line's value minus the old one's |
| Orders.GuestReservationFound | src/com/hotel/entities/Guest.java:188-193 | A guest's reservation is found exactly when one is cached with the guest's id |
| Orders.RoomReservationSpec | src/com/hotel/entities/Room.java:104-109 | A room's reservation is missing exactly when no cached reservation has the room's id, ignoring case; otherwise it is the first cached one that has it |
| Orders.GuestRoomSpec | src/com/hotel/entities/Guest.java:174-181 | A guest without a reservation makes `getRoom` fail; otherwise it gives a room exactly when the guest's reservation is checked in and its room is cached, and then the first cached room with that id |
| Orders.UnreservedGuestPasses | src/com/hotel/controls/RoomServiceControl.java:111-115 | A guest without any reservation passes the guard as written |
| Orders.OrderGuardSpec | src/com/hotel/controls/RoomServiceControl.java:111-115 | The corrected guard lets a guest through exactly when the guest has a reservation and it is checked in |
| Orders.MarkOrder | src/com/hotel/controls/RoomServiceControl.java:201-245 | Without a chosen order nothing changes |
| Orders.CandidatesSpec | src/com/hotel/controls/RoomServiceControl.java:204-207 | The orders offered are exactly the cached ones in the status before the target |
| Orders.MarkOrderSpec | src/com/hotel/controls/RoomServiceControl.java:201-245 | An order is saved only when the choice is in range and confirmed; it then takes the target status, moving one step forward |
| Orders.MarkChosen | src/com/hotel/controls/RoomServiceControl.java:238-239 | The chosen order is saved with the target status, or confirmed again when it was never written |
| Payment.RoomTotalByNights | src/com/hotel/entities/Payment.java:35-47 | The corrected room charge is the sum over the nights of the stay, each at the weekday or the weekend rate |
| Payment.RoomTotalBounds | src/com/hotel/entities/Payment.java:43-46 | The corrected charge lies between the nights at the lower rate and the nights at the higher rate |
| Payment.RoomTotalAgrees | src/com/hotel/entities/Payment.java:40-46 | When check-out is not later in the day than check-in, the charge as written equals the corrected charge |
| Payment.WeekendChargedNegative | src/com/hotel/entities/Payment.java:40-46 | For a one-night weekday stay from 14:00 to 15:00, the code charges two weekday rates minus one weekend rate |
| Payment.OrdersTotalIsLines | src/com/hotel/entities/Payment.java:28-30 | The orders' total is the total of all their lines |
| Payment.RoomServiceTotalSpec | src/com/hotel/entities/Payment.java:25-33 | The room-service total covers exactly the cached orders with the reservation's code, ignoring case |
| Payment.PaymentOf | src/com/hotel/entities/Payment.java:49-59 | The service charge is 7 percent of room plus service, and the total is that sum times 1.07 |
| Payment.PaymentOfSpec | src/com/hotel/entities/Payment.java:25-59 | A bill exists exactly when the room is cached, with the room's corrected charge for the stay and the service total |
| Payment.PaymentAsWritten | src/com/hotel/entities/Payment.java:49-59 | The bill the program computes, with `getRoomTotal` as written: the service charge is 7 percent of room plus service, and the total is that sum times 1.07 |
| Payment.PaymentAsWrittenSpec | src/com/hotel/entities/Payment.java:25-59 | The program's bill exists exactly when the corrected one does; its room total is the charge as written and its service total the same; when check-out is not later in the day than check-in the two bills are equal |
| Report.EveryConstantListed | src/com/hotel/entities/Report.java:47 | The reports go over every status and every room type |
| Report.StatusIs | src/com/hotel/entities/Report.java:48 | Exactly the rooms with the status |
| Report.TypeIs | src/com/hotel/entities/Report.java:29 | Exactly the rooms of the type |
| Report.RoomsWithStatus | src/com/hotel/entities/Report.java:48 | The status query lists the rooms with the status, in cache order |
| Report.RoomsOfType | src/com/hotel/entities/Report.java:29 | The type query lists the rooms of the type, in cache order |
| Report.StatusEntriesSpec | src/com/hotel/entities/Report.java:47-50 | One entry per status, in order, each holding that status's rooms |
| Report.GenRoomStatusSpec | src/com/hotel/entities/Report.java:43-52 | The status report has one entry per status, each holding exactly the rooms with it |
| Report.StatusesPartition | src/com/hotel/entities/Report.java:47-50 | Every room is counted under exactly one status |
| Report.TypesPartition | src/com/hotel/entities/Report.java:24-29 | Every room is counted under exactly one type |
| Report.SplitPartition | src/com/hotel/entities/Report.java:29-34 | The split of a type's rooms keeps list order on both sides and loses and adds nothing |
| Report.TypeEntriesSpec | src/com/hotel/entities/Report.java:24-39 | One entry per type, with its rooms in the status and those not in it |
| Report.GenRoomTypeOccupancySpec | src/com/hotel/entities/Report.java:20-41 | For each type, the rooms in the status and the others together are exactly the rooms of the type |
| RoomControl.FirstFreeEarliest | src/com/hotel/controls/RoomControl.java:28-29 | No room before the one chosen is a vacant room of the type |
| RoomControl.RoomFreeMatches | src/com/hotel/controls/RoomControl.java:28 | A room matches the two-pair query exactly when it is a vacant room of the type |
| RoomControl.SelectRoomSpec | src/com/hotel/controls/RoomControl.java:24-35 | The room chosen is the first vacant room of the type in cache order, and none is chosen exactly when there is none |
| RoomControl.SearchRoomSpec | src/com/hotel/controls/RoomControl.java:37-43 | The search gives the first cached room with the id, and nothing exactly when no room has it |
| RoomControl.SetRoomStatus | src/com/hotel/controls/RoomControl.java:45-72 | Without a save nothing changes |
| RoomControl.SetRoomStatusSpec | src/com/hotel/controls/RoomControl.java:45-72 | The room is saved only when it exists, is in the expected status and the change is confirmed; it then takes the new status and the answer says whether its rules passed and the file was written |
| RoomControl.StatusSaved | src/com/hotel/controls/RoomControl.java:65-67 | Saving the room with its new status changes only that room's state |
| RoomControl.SetRoomStatusBack | src/com/hotel/controls/MaintenanceControl.java:57-60 | Putting a room under maintenance and taking it back leaves every list as it was |
| RoomControl.StatusBack | src/com/hotel/controls/MaintenanceControl.java:57-60 | A room's status changed and set back gives the list it came from |
| ReservationControl.SweptNotDue | src/com/hotel/entities/Reservation.java:344-359 | After the sweep no confirmed reservation is due |
| ReservationControl.ListReservationsSpec | src/com/hotel/controls/ReservationControl.java:86-89 | Listing sweeps first, then lists exactly the confirmed reservations left, none of them due |
| ReservationControl.CreateReservationSpec | src/com/hotel/controls/ReservationControl.java:115-131 | Creation sweeps first, and stops only when the sweep raises |
| ReservationControl.ReserveSpec | src/com/hotel/controls/ReservationControl.java:161-179 | No vacant room at all and no vacant room of the type are reported apart and change nothing; otherwise the first vacant room of the type is booked |
| ReservationControl.VacantNone | src/com/hotel/controls/ReservationControl.java:164 | No vacant room exactly when the vacant list is empty |
| ReservationControl.BookSpec | src/com/hotel/controls/ReservationControl.java:177-210 | A declined booking writes nothing; a confirmed one builds the reservation from the form and saves it, a walk-in is checked in right after a successful save, and a reserved room follows a successful save |
| ReservationControl.NewReservationSaves | src/com/hotel/controls/ReservationControl.java:194-199 | A new reservation's save succeeds exactly when it is a walk-in or checks in later, spans a calendar day, its room is vacant, and the file is written |
| ReservationControl.NoProblems | src/com/hotel/entities/Reservation.java:274-283 | A new reservation has no problem exactly when it breaks none of the three rules |
| ReservationControl.GuestCandidatesSpec | src/com/hotel/controls/ReservationControl.java:314-323 | The reservations offered for a guest are exactly those with the guest's id, ignoring case, in the state the step starts from |
| ReservationControl.RoomCandidateSpec | src/com/hotel/controls/ReservationControl.java:262-273 | The reservation offered for a room is the first one on that room's id in the step's state; a missing room offers none |
| ReservationControl.StatusPartial | src/com/hotel/controls/ReservationControl.java:249 | Under a partial match a reservation's status passes for its own name only |
| ReservationControl.PartialContains | src/com/hotel/core/Entity.java:323 | A partial match holds exactly when the value contains the text, ignoring case |
| ReservationControl.CodeCandidatesSpec | src/com/hotel/controls/ReservationControl.java:247-257 | The code search offers exactly the reservations in the step's state whose code contains the text, ignoring case |
| ReservationControl.ProcessCheckOut | src/com/hotel/controls/ReservationControl.java:398-406 | Without payment nothing changes |
| ReservationControl.ProcessCheckOutSpec | src/com/hotel/controls/ReservationControl.java:398-406 | A bill is produced exactly when the room is cached; the check-out runs only after payment and succeeds only for a checked-in reservation |

## Left out

- Console prompts and output. Every prompt answer (confirmations, menu picks, typed values) is a parameter of the operation. Messages are not modelled.
- The clock. `now` is a parameter, in milliseconds. A minute clock would make a walk-in's check-in always fail: its check-in time is "now" cut to the minute, and `checkIn` requires that time to be before the current instant.
- Calendar rules. A day is a fixed length of milliseconds with no time zone or daylight saving. The weekday of day 0 is a model constant. `SimpleDateFormat` patterns are modelled only as far as the minute truncation they cause.
- Floating point. Room rates and prices are whole cents, and the text of an amount follows `Double.toString` for amounts below ten million. The service charge and the total are exact reals, not IEEE doubles.
- Shared object references. `EntityStore.Sync` writes a changed object back at every list position holding the same identity; the program gets this for free by sharing one object.
- The control operations assume a well-formed cache in which every reservation and room has been written once (the `Valid` and `Settles` preconditions). A reservation or room still marked new after a failed first write is outside these contracts.
- An exception raised during the expiry sweep ends the calling operation (`Aborted`). The program would stop at that point too.
- `RoomControl.selectRoom` asks again after an invalid room type, and `ReservationControl` lets the user re-edit after a failed save. Each is modelled as one attempt.
- A walk-in's save and its check-in use the same `now`.
- Creating or searching for the guest before a reservation is made is not modelled; the guest's id is a parameter.
- `processCheckIn`'s confirmation prompt and its output are not modelled. The check-in it performs is `Lifecycle.CheckIn`.
- `processModel` edits only the four fields the reservation form asks for; the form is those four values.
- `Reservation.loadHashMap` swallows an exception while reading the code, status, guest and room. The model instead fails the conversion of a record with a missing or invalid value, for every type.
- A string key missing from a record loads as `null` in the program; here the record does not convert.
- A type whose file cannot be loaded leaves the program with a null list. Here bootstrap gives a `Broken` cache that is never reloaded.
- Malformed storage: a file or record that cannot be read makes `FileManager.load` return null, not an empty list. The model follows the code in this.
- `Codec.ParseMoney`, `Fields.LoadRoom`, `Fields.LoadMenuItem`, `Fields.LoadOrderItem`: an amount is read only as digits with at most two decimals, an optional minus sign and one decimal point. `Double.parseDouble` in the `loadHashMap`s also accepts text such as "80.125", ".5", "5.", "+5", "1e3" and "NaN"; the program loads such a record and the model refuses it. Amounts are whole cents here, so these texts have no value in the model.
- Validation: only `Guest.validate` calls the base `validate` that reverts the object to its snapshot; the other types keep their edited state when validation fails. The model follows the code.
- `Codec.NatRoundTrip`, `Codec.IntRoundTrip`: integers are unbounded. Java's 32-bit `int` wrap-around is not modelled, because no value in the core comes near it.
- `ReservationControl.BookSpec`, `ReservationControl.NewReservationSaves`, `Saving.SaveReservationReserves`: a reservation holds its room by id, and its validation, save and walk-in check-in look the room up again as the first cached room with that id. The program binds the room object `selectRoom` chose (`setRoom`, src/com/hotel/controls/ReservationControl.java:178). The two differ only when two cached rooms share an id. The program never saves such a pair, because a room's id must be unique, but a data file may hold one.
- `Entities.Settle`: the reservation code is made from the minute of its creation, which tells minutes apart; the program's "yyyyMMdd-Hm" pattern does not (see "## Findings").

### References between records

The program stores a reservation's guest and room, and an order's reservation, as objects. `Reservation.toHashMap` (src/com/hotel/entities/Reservation.java:232-233) writes `getGuest().getId()` and `getRoom().getRoomId()`, and `RoomService.getId` and `toHashMap` (src/com/hotel/entities/RoomService.java:104, 131) go through `getReservation().getRoom()`. These getters are lazy `find`s that give null when nothing matches. `findAll` (src/com/hotel/core/Entity.java:321) and `FileManager.write` (src/com/hotel/core/FileManager.java:145-146) turn every cached record of the type into text. Bootstrap does the same: it marks every loaded object as saved with `setNewRecord(false)` (src/com/hotel/core/Entity.java:189-193), which takes the object's `toHashMap` as its snapshot (src/com/hotel/core/Entity.java:105-108). An order line's `toHashMap` goes through its order's `getId`. So a single reservation whose guest or room is not cached makes start-up throw, and so does an order or order line whose order, reservation or room is missing. It also makes every query and every save of reservations throw, and every `find` of a reservation give null; orders fail in the same way. The program also writes the id of the record it found, with that record's case, not the stored text.

The model keeps the stored `guestId`, `roomId` and `reservationId` text and never looks the referenced record up. Its queries and saves therefore never fail on a dangling reference, and the contracts below describe a cache in which every reference resolves to a record whose id is the stored text. Each of these contracts promises less than the program does on a cache with a dangling reference:

- `Fields.ReservationQueriedFields`: the guest and room fields are the stored ids; the program dereferences the guest and the room and throws when either is missing.
- `Fields.RoomServiceQueriedFields`: the order's id and reservation field are read from the stored text; the program goes through the reservation and its room and throws when either is missing.
- `EntityStore.Commit`: the write answers by writability alone; the program's write throws on a dangling reservation or order.
- `Saving.SaveServiceSpec`: saving an order and its lines cannot fail on a dangling reservation or room here.
- `Lifecycle.CheckInSpec`, `Lifecycle.CheckOutSpec`: the reservation save does not throw on another cached reservation's missing guest or room.
- `Lifecycle.ExpireStep`, `Lifecycle.SweepFrom`, `Lifecycle.CheckExpiredSpec`: only a missing room of an expiring reservation raises here; the program's query and save also throw on any dangling reservation.
- `Lifecycle.ConfirmedFound`: the confirmed reservations are always found; the program's `findAll` throws on a dangling reservation.
- `Orders.GuestReservationFound`, `Orders.RoomReservationSpec`, `Orders.GuestRoomSpec`: a reservation is found whenever one names the guest or room; the program's `find` gives null when any cached reservation dangles.
- `Orders.CandidatesSpec`: the orders are always listed; the program's `findAll` over orders throws on a dangling order.
- `Payment.RoomServiceTotalSpec`: the orders of a reservation are always found; the program throws on a dangling order.
- `ReservationControl.ListReservationsSpec`, `ReservationControl.CreateReservationSpec`: the expiry sweep and the confirmed query stop the step only on a missing room of an expiring reservation.
- `ReservationControl.BookSpec`, `ReservationControl.NewReservationSaves`: the guest id is not looked up, so a guest id naming no cached guest still saves; the program's write throws.
- `ReservationControl.GuestCandidatesSpec`, `ReservationControl.RoomCandidateSpec`, `ReservationControl.CodeCandidatesSpec`: the searches always answer; the program's queries throw or give null on a dangling reservation.
- `ReservationControl.ProcessCheckOut`, `ReservationControl.ProcessCheckOutSpec`: the bill's order query and the check-out's save do not throw on a dangling reservation or order.
- `EntityStore.MarkLoaded`: a loaded object's snapshot is its field map; the program's `toHashMap` of a reservation, order or order line throws on a missing referenced record.
- `EntityStore.LoadAll`, `EntityStore.BootLoads`, `EntityStore.BootTable`: bootstrap succeeds whenever every data file loads; the program's start-up also throws when a loaded reservation, order or order line refers to a record that is not cached.
- `Rules.LinesHaveOrderIds`, `Rules.MenuItemsLoaded`, `Orders.ServiceTotalLoaded`: an order's lines are always found; the program's `getMenuItems` query turns every cached line into text and throws on a line whose order is missing.
- `Saving.SaveLinesValid`, `Saving.SaveLinesLinked`, `Saving.SaveItemsSpec`: each line's write cannot fail on another cached line whose order is missing; the program's write of the lines throws then.

### Case folding

`Text.Lower` folds only the letters 'A' to 'Z'. Java's `toLowerCase` (src/com/hotel/core/Entity.java:317, 321) folds every Unicode letter, so "CRÈME BRÛLÉE" and "crème brûlée" are the same menu item name to the program and different ones here. Each comparison "ignoring case" below is exact for ASCII text only:

- `Query.Test`, `Query.FindFirst`, `Query.CheckIdUniqueIff`: the query engine's comparisons ignore the case of ASCII letters only.
- `EntityStore.FindFirstMatch`, `EntityStore.FindAllMatches`, `EntityStore.CheckIdUniqueIff`: the same for the cache's queries.
- `Rules.GuestIdUnique`, `Rules.NameUnique`, `Rules.MenuItemRules`: two ids or names that differ only in the case of a non-ASCII letter count as different here.
- `ReservationControl.PartialContains`: the partial match ignores the case of ASCII letters only.
- `Orders.GuestReservationFound`, `Payment.RoomServiceTotalSpec`, `ReservationControl.GuestCandidatesSpec`, `ReservationControl.CodeCandidatesSpec`: these inherit the same restriction.

### The bill

The charge the program computes for a stay is modelled as `Payment.RoomTotalAsWritten`, and the bill built on it as `Payment.PaymentAsWritten`; `Payment.PaymentAsWrittenSpec` relates that bill to the corrected one (see "## Findings"). The check-out bills the corrected charge:

- `Payment.PaymentOf`, `Payment.PaymentOfSpec`: the room total is the corrected night-by-night charge `Payment.RoomTotal`, not the program's `getRoomTotal`; the two differ only when check-out is later in the day than check-in.
- `ReservationControl.ProcessCheckOut`, `ReservationControl.ProcessCheckOutSpec`: the bill shown before payment is the corrected one, for the same reason.

## Findings

| source | as written | input that shows it | evidently intended | confidence | as-written member | corrected member |
|---|---|---|---|---|---|---|
| src/com/hotel/core/DateManager.java:52-56 with src/com/hotel/entities/Payment.java:40-46 | `getTotalWeekdays` counts the days of the instants start, start+1d, ... while before the end; `getRoomTotal` charges `weekdays × rate + (totalDays − weekdays) × weekendRate` | check-in on a weekday at 14:00, check-out the next weekday at 15:00: one night, two weekdays counted, charge `2 × rate − weekendRate` | each night charged once, at the weekday or the weekend rate of its day | not executed | Payment.WeekendChargedNegative | Payment.RoomTotalBounds |
| src/com/hotel/controls/RoomServiceControl.java:111-115 | the guard `reservation != null && status != CHECKED_IN` lets a guest with no reservation through | a guest with no cached reservation | only a guest with a checked-in reservation may order room service, as the guard's own message says | not executed | Orders.UnreservedGuestPasses | Orders.OrderGuardSpec |
| src/com/hotel/entities/Reservation.java:54-60 | "Creates a unique reservation code" with the pattern `yyyyMMdd-Hm`, whose hour and minute are not padded | one guest reserving at 01:10 and again at 11:00 of the same day: both codes end in "-110-" and the guest's id, and `getRoomServiceTotal` (src/com/hotel/entities/Payment.java:26) then bills the orders of both reservations on each | one code per guest and minute, for instance with the pattern `yyyyMMdd-HHmm` | not executed | Entities.CodeAsWrittenCollides | Entities.CodeIdentifiesMinute |
