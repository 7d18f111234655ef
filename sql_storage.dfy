/** SQLStorage of models.py: the two sqlite tables created by init_db.py,
    each modelled as a map from the integer primary key to the row's other
    columns.  Rows are written by column name and read back by position. */
module SqlStore {
  import opened Results
  import opened Records
  import opened Collections

  /** The non-key columns of a `booking` row (init_db.py:15-21). */
  datatype BookingColumns = BookingColumns(room: string, guests: string, name: string, email: string)

  /** The non-key columns of an `items` row, in the table's column order:
      quantity before item (init_db.py:25-29). */
  datatype ItemColumns = ItemColumns(quantity: string, item: string)

  type BookingRowTuple = (nat, string, string, string, string)
  type ItemsRowTuple = (nat, string, string)

  /** The tuple `SELECT *` yields for a booking row: booking_id, room,
      guests, name, email. */
  function BookingRow(id: nat, c: BookingColumns): BookingRowTuple
  {
    (id, c.room, c.guests, c.name, c.email)
  }

  /** The tuple `SELECT *` yields for an items row: item_id, quantity, item. */
  function ItemsRow(id: nat, c: ItemColumns): ItemsRowTuple
  {
    (id, c.quantity, c.item)
  }

  /** `Booking(row[1], row[2], row[3], row[4], row[0])`. */
  function DecodeBooking(row: BookingRowTuple): (b: BookingData)
    ensures BookingRow(b.rid, BookingColumns(b.room, b.guests, b.name, b.email)) == row
  {
    BookingData(row.1, row.2, row.3, row.4, row.0)
  }

  /** `Inventory(row[1], row[2], row[0])`: the second column is passed as
      the item and the third as the quantity. */
  function DecodeInventory(row: ItemsRowTuple): (i: InventoryData)
    ensures ItemsRow(i.rid, ItemColumns(quantity := i.item, item := i.quantity)) == row
  {
    InventoryData(row.1, row.2, row.0)
  }

  /** The values an INSERT or UPDATE binds to the booking columns. */
  function BookingColumnsOf(b: BookingData): (c: BookingColumns)
    ensures DecodeBooking(BookingRow(b.rid, c)) == b
  {
    BookingColumns(room := b.room, guests := b.guests, name := b.name, email := b.email)
  }

  /** The values an INSERT or UPDATE binds to the items columns, by name:
      `item` gets the record's item and `quantity` its quantity. */
  function ItemColumnsOf(i: InventoryData): (c: ItemColumns)
    ensures c.item == i.item && c.quantity == i.quantity
    ensures DecodeInventory(ItemsRow(i.rid, c)) == InventoryData(item := i.quantity, quantity := i.item, rid := i.rid)
  {
    ItemColumns(quantity := i.quantity, item := i.item)
  }

  /** `INSERT` of a row under a key the table does not hold yet. */
  function InsertRow<C>(t: map<nat, C>, id: nat, c: C): (r: map<nat, C>)
    requires id !in t
    ensures r.Keys == t.Keys + {id}
    ensures |r| == |t| + 1
    ensures r[id] == c
    ensures forall k :: k in t ==> r[k] == t[k]
  {
    t[id := c]
  }

  /** `UPDATE ... WHERE key = id`: rewrites the matching row; matching no row
      is not an error and changes nothing. */
  function UpdateRow<C>(t: map<nat, C>, id: nat, c: C): (r: map<nat, C>)
    ensures r.Keys == t.Keys
    ensures |r| == |t|
    ensures id in t ==> r[id] == c
    ensures id !in t ==> r == t
    ensures forall k :: k in t && k != id ==> r[k] == t[k]
  {
    if id in t then t[id := c] else t
  }

  /** `DELETE ... WHERE key = id`: removes the matching row, if there is one. */
  function DeleteRow<C>(t: map<nat, C>, id: nat): (r: map<nat, C>)
    ensures r.Keys == t.Keys - {id}
    ensures |r| == if id in t then |t| - 1 else |t|
    ensures forall k :: k in r ==> r[k] == t[k]
  {
    t - {id}
  }

  /** `SELECT * ... WHERE booking_id = rid` and the decode of its row.  With
      no row `fetchone()` gives None and the decode fails on subscripting it. */
  function SelectBooking(t: map<nat, BookingColumns>, rid: nat): (r: Result<BookingData>)
    ensures r.Ok? <==> rid in t
    ensures r.Err? ==> r.error == NoneRow
    ensures r.Ok? ==> r.value == BookingData(t[rid].room, t[rid].guests, t[rid].name, t[rid].email, rid)
  {
    if rid in t then Ok(DecodeBooking(BookingRow(rid, t[rid]))) else Err(NoneRow)
  }

  /** `SELECT * ... WHERE item_id = rid` and the decode of its row.  The
      decode hands back the stored quantity as the item and the stored item
      as the quantity. */
  function SelectInventory(t: map<nat, ItemColumns>, rid: nat): (r: Result<InventoryData>)
    ensures r.Ok? <==> rid in t
    ensures r.Err? ==> r.error == NoneRow
    ensures r.Ok? ==> r.value == InventoryData(item := t[rid].quantity, quantity := t[rid].item, rid := rid)
  {
    if rid in t then Ok(DecodeInventory(ItemsRow(rid, t[rid]))) else Err(NoneRow)
  }

  /** The id sqlite hands out for an insert (`lastrowid`) is nonzero and not
      the key of any row in the table. */
  ghost predicate FreshRowId<C>(t: map<nat, C>, id: nat) {
    id != 0 && id !in t
  }

  /** `save_record_booking`: insert when the record's id is 0, giving it the
      row id sqlite chose; otherwise update the row with the record's id.
      Gives the new table and the record's id afterwards. */
  function SaveBooking(t: map<nat, BookingColumns>, rec: BookingData, lastRowId: nat): (r: (map<nat, BookingColumns>, nat))
    requires rec.rid == 0 ==> FreshRowId(t, lastRowId)
    ensures rec.rid == 0 ==> r.1 == lastRowId
    ensures rec.rid != 0 ==> r.1 == rec.rid
    ensures r.1 != 0
    ensures |r.0| == if rec.rid == 0 then |t| + 1 else |t|
    ensures forall k :: k != r.1 ==> (k in r.0 <==> k in t) && (k in t ==> r.0[k] == t[k])
    ensures rec.rid == 0 || rec.rid in t ==> r.1 in r.0 && r.0[r.1] == BookingColumnsOf(rec)
    ensures rec.rid != 0 && rec.rid !in t ==> r.0 == t
  {
    if rec.rid == 0 then (InsertRow(t, lastRowId, BookingColumnsOf(rec)), lastRowId)
    else (UpdateRow(t, rec.rid, BookingColumnsOf(rec)), rec.rid)
  }

  /** `save_record_inventory`, the same choice between insert and update
      over the items table. */
  function SaveInventory(t: map<nat, ItemColumns>, rec: InventoryData, lastRowId: nat): (r: (map<nat, ItemColumns>, nat))
    requires rec.rid == 0 ==> FreshRowId(t, lastRowId)
    ensures rec.rid == 0 ==> r.1 == lastRowId
    ensures rec.rid != 0 ==> r.1 == rec.rid
    ensures r.1 != 0
    ensures |r.0| == if rec.rid == 0 then |t| + 1 else |t|
    ensures forall k :: k != r.1 ==> (k in r.0 <==> k in t) && (k in t ==> r.0[k] == t[k])
    ensures rec.rid == 0 || rec.rid in t ==> r.1 in r.0 && r.0[r.1] == ItemColumnsOf(rec)
    ensures rec.rid != 0 && rec.rid !in t ==> r.0 == t
  {
    if rec.rid == 0 then (InsertRow(t, lastRowId, ItemColumnsOf(rec)), lastRowId)
    else (UpdateRow(t, rec.rid, ItemColumnsOf(rec)), rec.rid)
  }

  /** A booking written by a save is read back unchanged: the decode follows
      the booking table's column order. */
  lemma BookingSaveThenGet(t: map<nat, BookingColumns>, rec: BookingData, lastRowId: nat)
    requires rec.rid == 0 ==> FreshRowId(t, lastRowId)
    requires rec.rid != 0 ==> rec.rid in t
    ensures var (t1, id) := SaveBooking(t, rec, lastRowId);
            SelectBooking(t1, id) == Ok(rec.(rid := id))
  {
  }

  /** An inventory item written by a save is read back with item and
      quantity exchanged, since the items table stores quantity before item;
      the round trip holds exactly when the two fields are equal. */
  lemma InventorySaveThenGetSwaps(t: map<nat, ItemColumns>, rec: InventoryData, lastRowId: nat)
    requires rec.rid == 0 ==> FreshRowId(t, lastRowId)
    requires rec.rid != 0 ==> rec.rid in t
    ensures var (t1, id) := SaveInventory(t, rec, lastRowId);
            SelectInventory(t1, id) == Ok(InventoryData(item := rec.quantity, quantity := rec.item, rid := id))
    ensures var (t1, id) := SaveInventory(t, rec, lastRowId);
            SelectInventory(t1, id) == Ok(rec.(rid := id)) <==> rec.item == rec.quantity
  {
  }

  /** Saving 50 towels into an empty items table and reading the row back
      gives an item called "50" with quantity "Towel". */
  lemma TowelsComeBackSwapped()
    ensures var (t1, id) := SaveInventory(map[], InventoryData("Towel", "50", 0), 1);
            id == 1 && SelectInventory(t1, id) == Ok(InventoryData("50", "Towel", 1))
  {
  }

  /** Opening a stored booking and saving it again without edits leaves the
      table as it was. */
  lemma BookingResaveIsNoOp(t: map<nat, BookingColumns>, id: nat, lastRowId: nat)
    requires id != 0 && id in t
    ensures SaveBooking(t, SelectBooking(t, id).value, lastRowId).0 == t
  {
  }

  /** Opening a stored item and saving it again without edits exchanges the
      item and quantity columns of its row. */
  lemma InventoryResaveSwapsRow(t: map<nat, ItemColumns>, id: nat, lastRowId: nat)
    requires id != 0 && id in t
    ensures var t1 := SaveInventory(t, SelectInventory(t, id).value, lastRowId).0;
            t1.Keys == t.Keys && t1[id] == ItemColumns(quantity := t[id].item, item := t[id].quantity)
  {
  }

  /** An update repeated with the same values changes nothing further. */
  lemma BookingUpdateIdempotent(t: map<nat, BookingColumns>, rec: BookingData, x: nat, y: nat)
    requires rec.rid != 0
    ensures SaveBooking(SaveBooking(t, rec, x).0, rec, y) == SaveBooking(t, rec, x)
  {
    var t1 := SaveBooking(t, rec, x).0;
    if rec.rid in t {
      assert t1[rec.rid := BookingColumnsOf(rec)] == t1;
    }
  }

  lemma InventoryUpdateIdempotent(t: map<nat, ItemColumns>, rec: InventoryData, x: nat, y: nat)
    requires rec.rid != 0
    ensures SaveInventory(SaveInventory(t, rec, x).0, rec, y) == SaveInventory(t, rec, x)
  {
    var t1 := SaveInventory(t, rec, x).0;
    if rec.rid in t {
      assert t1[rec.rid := ItemColumnsOf(rec)] == t1;
    }
  }

  /** After a delete the row is not found any more. */
  lemma DeleteThenSelectFails(b: map<nat, BookingColumns>, i: map<nat, ItemColumns>, id: nat)
    ensures SelectBooking(DeleteRow(b, id), id) == Err(NoneRow)
    ensures SelectInventory(DeleteRow(i, id), id) == Err(NoneRow)
  {
  }

  /** The sqlite connection of models.py, with its two tables. */
  class SQLStorage {
    var booking: map<nat, BookingColumns>
    var items: map<nat, ItemColumns>

    /** No row has key 0, the id that marks an unsaved record. */
    ghost predicate Valid()
      reads this
    {
      0 !in booking && 0 !in items
    }

    /** Connecting to the database file, whose tables hold these rows. */
    constructor (bookingRows: map<nat, BookingColumns>, itemRows: map<nat, ItemColumns>)
      requires 0 !in bookingRows && 0 !in itemRows
      ensures Valid() && booking == bookingRows && items == itemRows
    {
      booking := bookingRows;
      items := itemRows;
    }

    method GetRecordBooking(rid: nat) returns (r: Result<BookingData>)
      requires Valid()
      ensures r == SelectBooking(booking, rid)
      ensures r.Ok? ==> r.value.rid != 0
    {
      if rid in booking {
        r := Ok(DecodeBooking(BookingRow(rid, booking[rid])));
      } else {
        r := Err(NoneRow);
      }
    }

    /** `SELECT * from booking`, decoding each row the cursor yields. */
    method GetAllRecordsBooking() returns (rs: seq<BookingData>)
      requires Valid()
      ensures |rs| == |booking|
      ensures forall b :: b in rs <==> SelectBooking(booking, b.rid) == Ok(b)
      ensures forall b :: b in rs ==> b.rid != 0
      ensures DistinctKeys(rs, BookingRid)
    {
      var t := booking;
      var keys := ScanKeys(t);
      rs := [];
      for i := 0 to |keys|
        invariant |rs| == i
        invariant forall j :: 0 <= j < i ==> rs[j] == DecodeBooking(BookingRow(keys[j], t[keys[j]]))
      {
        rs := rs + [DecodeBooking(BookingRow(keys[i], t[keys[i]]))];
      }
      forall b: BookingData | SelectBooking(t, b.rid) == Ok(b) ensures b in rs {
        var j :| 0 <= j < |keys| && keys[j] == b.rid;
        assert rs[j] == b;
      }
    }

    method GetAllSortedRecordsBooking() returns (rs: seq<BookingData>)
      requires Valid()
      ensures |rs| == |booking|
      ensures forall b :: b in rs <==> SelectBooking(booking, b.rid) == Ok(b)
      ensures forall b :: b in rs ==> b.rid != 0
      ensures StrictlySortedBy(rs, BookingRid)
    {
      var all := GetAllRecordsBooking();
      rs := SortByKey(all, BookingRid);
      SortDistinctIsStrict(all, BookingRid);
      assert forall b :: b in rs <==> b in multiset(all);
    }

    method SaveRecordBooking(record: Booking, lastRowId: nat)
      requires Valid()
      requires record.rid == 0 ==> FreshRowId(booking, lastRowId)
      modifies this, record
      ensures Valid()
      ensures (booking, record.rid) == SaveBooking(old(booking), old(record.Data()), lastRowId)
      ensures items == old(items)
      ensures record.Data() == old(record.Data()).(rid := record.rid)
    {
      if record.rid == 0 {
        booking := booking[lastRowId := BookingColumnsOf(record.Data())];
        record.rid := lastRowId;
      } else {
        if record.rid in booking {
          booking := booking[record.rid := BookingColumnsOf(record.Data())];
        }
      }
    }

    method DeleteRecordBooking(rid: nat)
      requires Valid()
      modifies this
      ensures Valid()
      ensures booking == DeleteRow(old(booking), rid)
      ensures items == old(items)
    {
      booking := booking - {rid};
    }

    method GetRecordInventory(rid: nat) returns (r: Result<InventoryData>)
      requires Valid()
      ensures r == SelectInventory(items, rid)
      ensures r.Ok? ==> r.value.rid != 0
    {
      if rid in items {
        r := Ok(DecodeInventory(ItemsRow(rid, items[rid])));
      } else {
        r := Err(NoneRow);
      }
    }

    /** `SELECT * from items`, decoding each row the cursor yields. */
    method GetAllRecordsInventory() returns (rs: seq<InventoryData>)
      requires Valid()
      ensures |rs| == |items|
      ensures forall v :: v in rs <==> SelectInventory(items, v.rid) == Ok(v)
      ensures forall v :: v in rs ==> v.rid != 0
      ensures DistinctKeys(rs, InventoryRid)
    {
      var t := items;
      var keys := ScanKeys(t);
      rs := [];
      for i := 0 to |keys|
        invariant |rs| == i
        invariant forall j :: 0 <= j < i ==> rs[j] == DecodeInventory(ItemsRow(keys[j], t[keys[j]]))
      {
        rs := rs + [DecodeInventory(ItemsRow(keys[i], t[keys[i]]))];
      }
      forall v: InventoryData | SelectInventory(t, v.rid) == Ok(v) ensures v in rs {
        var j :| 0 <= j < |keys| && keys[j] == v.rid;
        assert rs[j] == v;
      }
    }

    method GetAllSortedRecordsInventory() returns (rs: seq<InventoryData>)
      requires Valid()
      ensures |rs| == |items|
      ensures forall v :: v in rs <==> SelectInventory(items, v.rid) == Ok(v)
      ensures forall v :: v in rs ==> v.rid != 0
      ensures StrictlySortedBy(rs, InventoryRid)
    {
      var all := GetAllRecordsInventory();
      rs := SortByKey(all, InventoryRid);
      SortDistinctIsStrict(all, InventoryRid);
      assert forall v :: v in rs <==> v in multiset(all);
    }

    method SaveRecordInventory(record: Inventory, lastRowId: nat)
      requires Valid()
      requires record.rid == 0 ==> FreshRowId(items, lastRowId)
      modifies this, record
      ensures Valid()
      ensures (items, record.rid) == SaveInventory(old(items), old(record.Data()), lastRowId)
      ensures booking == old(booking)
      ensures record.Data() == old(record.Data()).(rid := record.rid)
    {
      if record.rid == 0 {
        items := items[lastRowId := ItemColumnsOf(record.Data())];
        record.rid := lastRowId;
      } else {
        if record.rid in items {
          items := items[record.rid := ItemColumnsOf(record.Data())];
        }
      }
    }

    method DeleteRecordInventory(rid: nat)
      requires Valid()
      modifies this
      ensures Valid()
      ensures items == DeleteRow(old(items), rid)
      ensures booking == old(booking)
    {
      items := items - {rid};
    }
  }
}
