/** Two example sessions: a booking session on the shelve store (create two
    records, delete one, list what is left), and an inventory create-then-edit
    session on the SQL store, in the order the create and edit pages issue it
    (project.py:431-437, then 317-329). The form application itself only
    builds the SQL store. */
module Scenarios {
  import opened Results
  import opened Records
  import opened Collections
  import opened Decimal
  import opened ShelveStore
  import opened SqlStore

  lemma SmallRecordKeys()
    ensures RecordKey(1) == "record1" && RecordKey(2) == "record2"
  {
  }

  /** The shelf after each step of the booking session. */
  lemma ShelveSessionSteps(alice: BookingData, bob: BookingData)
    requires alice.rid == 0 && bob.rid == 0
    ensures var d1 := map["record1" := alice.(rid := 1)];
            var d2 := d1["record2" := bob.(rid := 2)];
            Save(map[], alice) == (d1, 1) && Save(d1, bob) == (d2, 2) &&
            Remove(d2, 1) == Ok(map["record2" := bob.(rid := 2)])
  {
    SmallRecordKeys();
    var d1 := map["record1" := alice.(rid := 1)];
    assert NextId(d1) == 2 by {
      var k :| k in d1 && d1[k].rid + 1 == NextId(d1);
    }
    var d2 := d1["record2" := bob.(rid := 2)];
    assert d2 - {"record1"} == map["record2" := bob.(rid := 2)];
  }

  /** On an empty shelf, Alice's booking gets id 1 and Bob's id 2; after
      deleting id 1 the sorted listing is Bob's booking alone and getting id 1
      raises KeyError. */
  method ShelveBookingSession() returns (listing: seq<BookingData>, lookup: Result<BookingData>)
    ensures listing == [BookingData("102", "1", "Bob", "b@x.com", 2)]
    ensures lookup == Err(KeyError("record1"))
  {
    var store := new ShelveStorage(map[]);
    var alice := new Booking(room := "101", guests := "2", name := "Alice", email := "a@x.com");
    var bob := new Booking(room := "102", guests := "1", name := "Bob", email := "b@x.com");
    ShelveSessionSteps(alice.Data(), bob.Data());
    SmallRecordKeys();
    store.SaveRecord(alice);
    store.SaveRecord(bob);
    var deleted := store.DeleteRecord(1);
    var bobData := BookingData("102", "1", "Bob", "b@x.com", 2);
    assert store.data == map["record2" := bobData];
    listing := store.GetAllSortedRecords();
    assert |listing| == 1 && listing[0] in store.data.Values;
    lookup := store.GetRecord(1);
  }

  /** 50 towels are inserted as row 1 and then edited to 45: the listing has
      the one row, with its id kept, but item and quantity come back
      exchanged. */
  method SqlInventorySession() returns (listing: seq<InventoryData>)
    ensures listing == [InventoryData("45", "Towel", 1)]
  {
    var store := new SQLStorage(map[], map[]);
    var towels := new Inventory(item := "Towel", quantity := "50");
    store.SaveRecordInventory(towels, 1);
    var edited := new Inventory(item := "Towel", quantity := "45", rid := 1);
    // The row id argument is read only by an insert; rid 1 takes the update.
    store.SaveRecordInventory(edited, 1);
    assert store.items == map[1 := ItemColumns(quantity := "45", item := "Towel")];
    listing := store.GetAllSortedRecordsInventory();
    assert |listing| == 1 && SelectInventory(store.items, listing[0].rid) == Ok(listing[0]);
  }
}
