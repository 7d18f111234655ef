# Persistent form: the storage layer, modelled in Dafny

This project models the persistence layer of a small desktop form
application. The application keeps hotel bookings and inventory items. The
layer lives in `models.py` and has three parts:

- **Records.** `Booking` (room, guests, name, email) and `Inventory` (item,
  quantity) are plain objects. Each has an id `rid`, and 0 means "not saved
  yet". Here each one is a class whose `rid` a save assigns in place. The
  values a store keeps and hands back are `BookingData` and `InventoryData`.
  Their fields follow the order of the Python constructor's parameters.
- **ShelveStorage.** Bookings are pickled into a shelve file under the key
  `"record" + str(rid)`. The shelf is a `map<string, BookingData>`. A record
  with id 0 gets `get_new_id`: 1 on an empty shelf, otherwise the largest
  stored id plus one. Getting or deleting a missing key raises `KeyError`,
  modelled as `Err(KeyError(key))`.
- **SQLStorage.** The two sqlite tables `booking` and `items` are
  `map<nat, Columns>`. An insert takes the row id sqlite chooses
  (`lastrowid`), and that id is written back onto the caller's record. An
  `UPDATE` or `DELETE` that matches no row changes nothing. Rows are written
  by column name and decoded by column position.

The key result is about that decode. The `items` table stores its columns in
the order `(item_id, quantity, item)` (`init_db.py:25-29`). The decode
`Inventory(row[1], row[2], row[0])` takes the second column as the item. So
every inventory record comes back with item and quantity exchanged. The model
keeps the decode as written and proves the exchange:

- `SqlStore.InventorySaveThenGetSwaps` proves it for every record.
- `SqlStore.TowelsComeBackSwapped` shows it on one concrete record.
- `SqlStore.InventoryResaveSwapsRow` shows that opening a row and saving it
  unedited rewrites the row with the two fields exchanged.

For bookings the decode matches the schema, and `SqlStore.BookingSaveThenGet`
proves the round trip.

Where the code behaves differently from what a caller might expect, the model
follows the code:

- A SQL `DELETE` of an absent id succeeds silently. It does not report
  "not found".
- `get_record_*` on an absent id fails because `fetchone()` returns `None`
  and the decode subscripts it. This is modelled as `Err(NoneRow)`.
- The tables use `INTEGER PRIMARY KEY`, not `AUTOINCREMENT`, so sqlite may
  reuse ids. The model takes `lastrowid` to be any nonzero id not in the
  table.
- The shelve store reuses ids. An id freed by deleting the newest record is
  handed out again (`ShelveStore.DeletedNewestIdIsReused`), and an emptied
  shelf starts again at 1.
- A caller would expect an inventory round trip to give back equal fields.
  The code does not (see above).

Files: `results.dfy` (outcome types), `records.dfy`, `collections.dfy`
(Python's `sorted` and unordered iteration), `decimal.dfy` (`str` on ids),
`shelve_storage.dfy`, `sql_storage.dfy`, and `scenarios.dfy` (two example
sessions: a booking session on the shelve store, and an inventory
create-then-edit session on the SQL store, in the order the create and edit
pages issue it, project.py:431-437 then 317-329; the application itself only
builds the SQL store, project.py:15).

## Model

| member | source | states |
|---|---|---|
| Records.Booking.constructor | models.py:171-176 | every field takes its argument; rid defaults to 0, meaning unsaved |
| Records.Inventory.constructor | models.py:182-185 | every field takes its argument; rid defaults to 0, meaning unsaved |
| Records.NewRecordsAreUnsaved | models.py:171-185 | records built with the default arguments have rid 0 and empty fields, so their first save inserts |
| Collections.ScanKeys | models.py:32-34 | iterating a table or shelf yields every key exactly once, in an order left open |
| Collections.SortByKey | models.py:151 | `sorted(..., key=rid)` returns a permutation of its input, ordered by key |
| Collections.SortDistinctIsStrict | models.py:150-151 | with unique ids, the sorted list is strictly ascending |
| Collections.StrictlySortedUnique | models.py:50-51 | two strictly sorted lists with the same elements are equal, so a sorted listing does not depend on scan order |
| Collections.LastIsLargest | models.py:161 | the last element of a sorted list has the largest id |
| Decimal.NatToString | models.py:130 | `str(rid)` is a non-empty string of decimal digits, one digit exactly when rid < 10, with no leading zero; 0 is spelled "0" |
| Decimal.NatToStringInjective | models.py:130 | different ids have different decimal spellings |
| Decimal.NatToStringValue | models.py:130 | the digits of `str(rid)`, read back as a decimal number, give rid |
| ShelveStore.RecordKeyInjective | models.py:145 | `"record" + str(rid)` is injective in rid |
| ShelveStore.RecordKey | models.py:145 | the key of a record starts with "record" and has at least one character after it |
| ShelveStore.RecordKeySpellsId | models.py:130 | everything after "record" in the key is decimal digits whose value is the rid |
| ShelveStore.NextId | models.py:156-161 | the next id is nonzero; 1 on an empty shelf; above every stored id; otherwise exactly one more than some stored id |
| ShelveStore.Lookup | models.py:127-131 | get succeeds exactly when the key is present and returns the stored record; otherwise KeyError for that key |
| ShelveStore.LookupFindsOwnId | models.py:127-131 | a successful get returns the record with the requested id |
| ShelveStore.Save | models.py:138-148 | id 0 gets NextId and a nonzero id is kept; the record is stored under its key with that id; every other entry is unchanged; the shelf grows by one exactly when the key was new |
| ShelveStore.SavePreservesWellKeyed | models.py:141-148 | every record stays under its own id's key with a nonzero id; a first save adds a key that was absent and grows the shelf by exactly one |
| ShelveStore.SaveExistingKeepsKeys | models.py:145-148 | saving a stored nonzero id overwrites that entry and keeps the key set, so the size stays the same |
| ShelveStore.SaveIdempotent | models.py:138-148 | saving the same record with a nonzero id twice equals saving it once |
| ShelveStore.Remove | models.py:153-154 | delete succeeds exactly when the key is present; it removes only that key, shrinks the shelf by one and leaves other entries unchanged; otherwise KeyError |
| ShelveStore.RemoveThenLookupFails | models.py:153-154 | after a delete, getting or deleting the same id raises KeyError |
| ShelveStore.RemovePreservesWellKeyed | models.py:153-154 | deleting keeps every record under its own id's key |
| ShelveStore.DeletedNewestIdIsReused | models.py:156-162 | inserting a record and deleting it restores the shelf, and the next new record gets the same id again |
| ShelveStore.DeleteLargestAllowsReuse | models.py:156-162 | after deleting the record with the largest id, the next id is at most that id |
| ShelveStore.ShelveStorage.constructor | models.py:121-125 | opening the shelf gives a store holding the file's contents |
| ShelveStore.ShelveStorage.GetRecord | models.py:127-131 | returns Lookup of the current shelf; when found, the record has the requested, nonzero id, so saving it back overwrites its entry |
| ShelveStore.ShelveStorage.GetAllRecords | models.py:133-136 | returns each stored record exactly once: same count, same elements, unique nonzero ids |
| ShelveStore.ShelveStorage.SaveRecord | models.py:138-148 | the new shelf and the record's id are those of Save; the record's other fields are unchanged; the invariant holds |
| ShelveStore.ShelveStorage.GetAllSortedRecords | models.py:150-151 | returns every stored record once, in strictly ascending order of nonzero ids |
| ShelveStore.ShelveStorage.DeleteRecord | models.py:153-154 | removes the key as Remove does, or reports KeyError and leaves the shelf unchanged |
| ShelveStore.ShelveStorage.GetNewId | models.py:156-161 | the last id of the sorted listing plus one, or 1, equals NextId |
| SqlStore.InsertRow | models.py:42-43 | an insert adds exactly one row under a new key and leaves the other rows as they were |
| SqlStore.DecodeBooking | models.py:24 | decoding by position inverts the booking row layout: the row rebuilt from the decoded record is the row read |
| SqlStore.DecodeInventory | models.py:84 | decoding by position takes column 1 (quantity) as the item and column 2 (item) as the quantity; rebuilding the row with the two fields exchanged gives the row read |
| SqlStore.BookingColumnsOf | models.py:42-43 | binding a booking's fields by column name and decoding the resulting row gives the booking back |
| SqlStore.ItemColumnsOf | models.py:102-103 | binding by column name puts item in the item column and quantity in the quantity column; decoding that row gives the record with the two fields exchanged |
| SqlStore.UpdateRow | models.py:46-47 | an update rewrites only the matching row, keeps the keys and row count, and changes nothing when no row matches |
| SqlStore.DeleteRow | models.py:56-57 | a delete removes the matching row if one exists; other rows are unchanged; the count drops by one exactly when the row existed |
| SqlStore.SelectBooking | models.py:21-24 | found exactly when the id is present, with room, guests, name and email equal to the stored columns and rid equal to the id; otherwise the None-row failure |
| SqlStore.SelectInventory | models.py:81-84 | found exactly when the id is present; the item returned is the stored quantity and the quantity returned is the stored item; otherwise the None-row failure |
| SqlStore.SaveBooking | models.py:37-48 | id 0 inserts under lastrowid and adds one row; a nonzero id rewrites the matching row to the record's fields, or changes nothing when absent; other rows are unchanged and the resulting id is nonzero |
| SqlStore.SaveInventory | models.py:97-108 | the same insert-or-update contract over the items table, binding item and quantity by column name |
| SqlStore.BookingSaveThenGet | models.py:21-47 | after a save, getting the record's id returns the record's fields with its assigned id |
| SqlStore.InventorySaveThenGetSwaps | models.py:81-107 | after a save, getting the record's id returns item and quantity exchanged; the round trip holds exactly when they are equal |
| SqlStore.TowelsComeBackSwapped | models.py:84 | saving item "Towel" with quantity "50" reads back item "50" with quantity "Towel" |
| SqlStore.BookingResaveIsNoOp | models.py:46-47 | reading a stored booking and saving it unedited leaves the table unchanged |
| SqlStore.InventoryResaveSwapsRow | models.py:106-107 | reading a stored item and saving it unedited exchanges the item and quantity columns of its row |
| SqlStore.BookingUpdateIdempotent | models.py:46-47 | repeating an update with the same values changes nothing further |
| SqlStore.InventoryUpdateIdempotent | models.py:106-107 | repeating an update with the same values changes nothing further |
| SqlStore.DeleteThenSelectFails | models.py:53-65 | after a delete, getting that id fails in both tables |
| SqlStore.SQLStorage.constructor | models.py:10-14 | connecting gives a store holding the tables' rows, none with id 0 |
| SqlStore.SQLStorage.GetRecordBooking | models.py:17-25 | returns SelectBooking of the current booking table; a found record has a nonzero id, so saving it back takes the UPDATE branch |
| SqlStore.SQLStorage.GetAllRecordsBooking | models.py:27-35 | returns one decoded record per row: same count, exactly the records a get by their id would return, unique nonzero ids, so each one saved back is an UPDATE |
| SqlStore.SQLStorage.GetAllSortedRecordsBooking | models.py:50-51 | the same records, in strictly ascending order of nonzero ids |
| SqlStore.SQLStorage.SaveRecordBooking | models.py:37-48 | the new booking table and the record's id are those of SaveBooking; items and the record's other fields are unchanged |
| SqlStore.SQLStorage.DeleteRecordBooking | models.py:53-58 | the booking table becomes DeleteRow of the old one; items are unchanged |
| SqlStore.SQLStorage.GetRecordInventory | models.py:77-85 | returns SelectInventory of the current items table; a found record has a nonzero id, so saving it back takes the UPDATE branch |
| SqlStore.SQLStorage.GetAllRecordsInventory | models.py:87-95 | returns one decoded record per row: same count, exactly the records a get by their id would return, unique nonzero ids, so each one saved back is an UPDATE |
| SqlStore.SQLStorage.GetAllSortedRecordsInventory | models.py:110-111 | the same records, in strictly ascending order of nonzero ids |
| SqlStore.SQLStorage.SaveRecordInventory | models.py:97-108 | the new items table and the record's id are those of SaveInventory; bookings and the record's other fields are unchanged |
| SqlStore.SQLStorage.DeleteRecordInventory | models.py:60-65 | the items table becomes DeleteRow of the old one; bookings are unchanged |
| Scenarios.ShelveSessionSteps | models.py:138-162 | on an empty shelf two new bookings get ids 1 and 2, and deleting id 1 leaves only the second |
| Scenarios.ShelveBookingSession | models.py:127-161 | after saving Alice and Bob and deleting id 1, the sorted listing is Bob's booking #2 alone and getting id 1 raises KeyError |
| Scenarios.SqlInventorySession | models.py:97-111 | inserting 50 towels as row 1 and then saving quantity 45 under id 1 lists one row with id 1, read back as item "45" and quantity "Towel" |

Some members are plain definitions and carry no contract of their own. `Records.BookingRid` and
`Records.InventoryRid` are the sort key `lambda x: x.rid` (models.py:51, 111, 151).
`SqlStore.BookingRow` and `SqlStore.ItemsRow` are the column orders `SELECT *` yields
(init_db.py:15-21, 25-29). What they mean is stated by `DecodeBooking`, `DecodeInventory`,
`SelectBooking`, `SelectInventory` and the sorted listings.

## Left out

- Durability is not modelled: `commit`, `cleanup`, closing the cursor or shelf, and shelve's `writeback` cache. Each operation is taken to apply at once.
- The shelf stores a value copy of the record. With `writeback=True`, Python's in-memory cache holds the caller's own object, so later edits to that object can show through until the shelf syncs. That aliasing is not modelled.
- ShelveStorage is modelled over booking records only. Its code reads nothing but `rid`, so an inventory shelf behaves the same way.
- ShelveStore.ShelveStorage.constructor: requires that the opened file holds only entries this class wrote, each under its own id's key. A shelf file written by other code is not modelled.
- The row id sqlite picks for an insert is a parameter (`lastRowId`). The only requirement is that it is nonzero and not already in the table. sqlite's own choice of rowid and its 64-bit limit are not modelled.
- Python's `sorted` (Timsort) is modelled as an insertion sort. Both are stable, and with unique ids the result is the same.
- The `int(rid)` and `str(rid)` conversions of treeview strings are not modelled. Ids are `nat` throughout.
- `__str__` on Booking and Inventory is not modelled. It only formats text.
- `project.py` is not part of this model. It holds the tkinter frames, treeviews and buttons.
- `init_db.py` is not part of this model apart from the column orders of its two tables.
- Concurrent or multi-process access is not modelled. The code neither supports nor guards against it.
