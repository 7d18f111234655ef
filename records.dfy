/** The two record types of models.py.  A record object lives in the caller's
    memory and has its identity assigned in place by the first save; what a
    store keeps and hands back is a value copy of the record's fields. */
module Records {

  /** The fields of a Booking, in the order of the Python constructor's
      parameters: room, guests, name, email, rid. */
  datatype BookingData = BookingData(room: string, guests: string, name: string, email: string, rid: nat)

  /** The fields of an Inventory item, in the order of the Python constructor's
      parameters: item, quantity, rid. */
  datatype InventoryData = InventoryData(item: string, quantity: string, rid: nat)

  /** A booking object; rid 0 means "not yet saved". */
  class Booking {
    var rid: nat
    var room: string
    var guests: string
    var name: string
    var email: string

    constructor (room: string := "", guests: string := "", name: string := "", email: string := "", rid: nat := 0)
      ensures Data() == BookingData(room, guests, name, email, rid)
    {
      this.rid := rid;
      this.room := room;
      this.guests := guests;
      this.name := name;
      this.email := email;
    }

    /** The current field values of this object. */
    function Data(): BookingData
      reads this
    {
      BookingData(room, guests, name, email, rid)
    }
  }

  /** An inventory object; rid 0 means "not yet saved". */
  class Inventory {
    var rid: nat
    var item: string
    var quantity: string

    constructor (item: string := "", quantity: string := "", rid: nat := 0)
      ensures Data() == InventoryData(item, quantity, rid)
    {
      this.rid := rid;
      this.item := item;
      this.quantity := quantity;
    }

    /** The current field values of this object. */
    function Data(): InventoryData
      reads this
    {
      InventoryData(item, quantity, rid)
    }
  }

  /** A record built with the default arguments is unsaved, so its first
      save takes the insert branch. */
  method NewRecordsAreUnsaved() returns (b: Booking, i: Inventory)
    ensures b.rid == 0 && i.rid == 0
    ensures b.Data() == BookingData("", "", "", "", 0)
    ensures i.Data() == InventoryData("", "", 0)
  {
    b := new Booking();
    i := new Inventory();
  }

  /** The sort key of `sorted(..., key=lambda x: x.rid)` for each record type. */
  function BookingRid(b: BookingData): nat
  {
    b.rid
  }

  function InventoryRid(i: InventoryData): nat
  {
    i.rid
  }
}
