/** ShelveStorage of models.py: records pickled into a dbm file through the
    shelve module, under the string key "record" + str(rid).  The shelf is
    modelled as a map from key to the stored booking value. */
module ShelveStore {
  import opened Results
  import opened Records
  import opened Decimal
  import opened Collections

  type Shelf = map<string, BookingData>

  /** The shelf key of the record with id `rid`: "record" followed by the
      decimal spelling of the id. */
  function RecordKey(rid: nat): (k: string)
    ensures |k| > 6 && k[..6] == "record"
  {
    "record" + NatToString(rid)
  }

  /** After the prefix, a key is the decimal spelling of its id. */
  lemma RecordKeySpellsId(rid: nat)
    ensures forall i :: 6 <= i < |RecordKey(rid)| ==> '0' <= RecordKey(rid)[i] <= '9'
    ensures DigitsValue(RecordKey(rid)[6..]) == rid
  {
    assert RecordKey(rid)[6..] == NatToString(rid);
    NatToStringValue(rid);
  }

  /** Distinct ids give distinct keys. */
  lemma RecordKeyInjective(a: nat, b: nat)
    requires RecordKey(a) == RecordKey(b)
    ensures a == b
  {
    var p := "record";
    assert NatToString(a) == RecordKey(a)[|p|..];
    assert NatToString(b) == RecordKey(b)[|p|..];
    NatToStringInjective(a, b);
  }

  /** What every shelf written by this class satisfies: each record sits under
      its own id's key, and no stored id is the "unsaved" id 0. */
  ghost predicate WellKeyed(d: Shelf) {
    forall k :: k in d ==> k == RecordKey(d[k].rid) && d[k].rid != 0
  }

  ghost function Rids(d: Shelf): set<nat> {
    set k | k in d :: d[k].rid
  }

  ghost function MaxOf(s: set<nat>): (m: nat)
    requires s != {}
    ensures m in s
    ensures forall x :: x in s ==> x <= m
  {
    var x :| x in s;
    assert forall y :: y in s ==> y == x || y in s - {x};
    if s - {x} == {} then x
    else
      var rest := MaxOf(s - {x});
      if x < rest then rest else x
  }

  /** `get_new_id`: 1 on an empty shelf, otherwise one more than the largest
      stored id. */
  ghost function NextId(d: Shelf): (r: nat)
    ensures r != 0
    ensures d == map[] ==> r == 1
    ensures forall k :: k in d ==> d[k].rid < r
    ensures d != map[] ==> exists k :: k in d && d[k].rid + 1 == r
  {
    if d == map[] then 1
    else
      assert forall k :: k in d ==> d[k].rid in Rids(d);
      var k0 :| k0 in d;
      var m := MaxOf(Rids(d));
      var k :| k in d && d[k].rid == m;
      m + 1
  }

  /** `get_record`: indexing the shelf, which raises KeyError for a missing id. */
  function Lookup(d: Shelf, rid: nat): (r: Result<BookingData>)
    ensures r.Ok? <==> RecordKey(rid) in d
    ensures r.Ok? ==> r.value == d[RecordKey(rid)]
    ensures r.Err? ==> r.error == KeyError(RecordKey(rid))
  {
    if RecordKey(rid) in d then Ok(d[RecordKey(rid)]) else Err(KeyError(RecordKey(rid)))
  }

  /** On a well-keyed shelf a successful lookup returns the record with the
      id that was asked for. */
  lemma LookupFindsOwnId(d: Shelf, rid: nat)
    requires WellKeyed(d)
    requires Lookup(d, rid).Ok?
    ensures Lookup(d, rid).value.rid == rid
  {
    RecordKeyInjective(d[RecordKey(rid)].rid, rid);
  }

  /** `save_record`: a record with id 0 gets NextId first; the record is then
      stored under its id's key.  Gives the new shelf and the record's id. */
  ghost function Save(d: Shelf, rec: BookingData): (r: (Shelf, nat))
    ensures rec.rid == 0 ==> r.1 == NextId(d)
    ensures rec.rid != 0 ==> r.1 == rec.rid
    ensures Lookup(r.0, r.1) == Ok(rec.(rid := r.1))
    ensures forall k :: k != RecordKey(r.1) ==> (k in r.0 <==> k in d) && (k in d ==> r.0[k] == d[k])
    ensures |r.0| == if RecordKey(r.1) in d then |d| else |d| + 1
  {
    var id := if rec.rid == 0 then NextId(d) else rec.rid;
    (d[RecordKey(id) := rec.(rid := id)], id)
  }

  /** Saving keeps the shelf well keyed, and a first save (id 0) adds exactly
      one record under a key that was not there. */
  lemma SavePreservesWellKeyed(d: Shelf, rec: BookingData)
    requires WellKeyed(d)
    ensures WellKeyed(Save(d, rec).0)
    ensures rec.rid == 0 ==> RecordKey(Save(d, rec).1) !in d && |Save(d, rec).0| == |d| + 1
  {
    var id := Save(d, rec).1;
    if rec.rid == 0 && RecordKey(id) in d {
      RecordKeyInjective(d[RecordKey(id)].rid, id);
    }
  }

  /** Saving a record with a nonzero id that is already stored overwrites that
      one entry: the set of keys, and so the size, stays the same. */
  lemma SaveExistingKeepsKeys(d: Shelf, rec: BookingData)
    requires rec.rid != 0 && RecordKey(rec.rid) in d
    ensures Save(d, rec).0.Keys == d.Keys
    ensures Save(d, rec).0[RecordKey(rec.rid)] == rec
  {
  }

  /** Saving the same record twice is the same as saving it once. */
  lemma SaveIdempotent(d: Shelf, rec: BookingData)
    requires rec.rid != 0
    ensures Save(Save(d, rec).0, rec) == Save(d, rec)
  {
    var d1 := Save(d, rec).0;
    assert rec.(rid := rec.rid) == rec;
    assert d1[RecordKey(rec.rid) := rec] == d1;
  }

  /** `delete_record`: `del` on the shelf, which raises KeyError for a
      missing id. */
  function Remove(d: Shelf, rid: nat): (r: Result<Shelf>)
    ensures r.Ok? <==> RecordKey(rid) in d
    ensures r.Err? ==> r.error == KeyError(RecordKey(rid))
    ensures r.Ok? ==> r.value.Keys == d.Keys - {RecordKey(rid)}
    ensures r.Ok? ==> |r.value| == |d| - 1
    ensures r.Ok? ==> forall k :: k in r.value ==> r.value[k] == d[k]
  {
    if RecordKey(rid) in d then Ok(d - {RecordKey(rid)}) else Err(KeyError(RecordKey(rid)))
  }

  /** After a delete the record is gone: getting or deleting it again fails. */
  lemma RemoveThenLookupFails(d: Shelf, rid: nat)
    requires Remove(d, rid).Ok?
    ensures Lookup(Remove(d, rid).value, rid) == Err(KeyError(RecordKey(rid)))
    ensures Remove(Remove(d, rid).value, rid) == Err(KeyError(RecordKey(rid)))
  {
  }

  lemma RemovePreservesWellKeyed(d: Shelf, rid: nat)
    requires WellKeyed(d) && Remove(d, rid).Ok?
    ensures WellKeyed(Remove(d, rid).value)
  {
  }

  /** Ids are recycled: insert a new record and delete it again, and the next
      new record is handed the very same id. */
  lemma {:induction false} DeletedNewestIdIsReused(d: Shelf, rec: BookingData)
    requires WellKeyed(d) && rec.rid == 0
    ensures var (d1, id) := Save(d, rec);
            Remove(d1, id).Ok? && Remove(d1, id).value == d && NextId(Remove(d1, id).value) == id
  {
    var (d1, id) := Save(d, rec);
    SavePreservesWellKeyed(d, rec);
    assert Remove(d1, id).value == d;
  }

  /** Deleting the record with the largest id never raises the next id above
      that id: the largest id becomes free for reuse. */
  lemma {:induction false} DeleteLargestAllowsReuse(d: Shelf, rid: nat)
    requires WellKeyed(d)
    requires RecordKey(rid) in d
    requires forall k :: k in d ==> d[k].rid <= rid
    ensures NextId(Remove(d, rid).value) <= rid
  {
    var d1 := Remove(d, rid).value;
    if d1 != map[] {
      var k :| k in d1 && d1[k].rid + 1 == NextId(d1);
      assert k != RecordKey(rid) && k == RecordKey(d[k].rid);
      assert d[k].rid != rid;
    }
  }

  /** The shelf of models.py, with `data_access` as its map. */
  class ShelveStorage {
    var data: Shelf

    ghost predicate Valid()
      reads this
    {
      WellKeyed(data)
    }

    /** Opening the shelf file, which holds what earlier runs saved. */
    constructor (contents: Shelf)
      requires WellKeyed(contents)
      ensures Valid() && data == contents
    {
      data := contents;
    }

    method GetRecord(rid: nat) returns (r: Result<BookingData>)
      requires Valid()
      ensures r == Lookup(data, rid)
      ensures r.Ok? ==> r.value.rid == rid && rid != 0
    {
      var key := RecordKey(rid);
      if key in data {
        r := Ok(data[key]);
        LookupFindsOwnId(data, rid);
      } else {
        r := Err(KeyError(key));
      }
    }

    /** `list(self.data_access.values())`: every stored record once, in the
        shelf's own order. */
    method GetAllRecords() returns (rs: seq<BookingData>)
      requires Valid()
      ensures |rs| == |data|
      ensures forall v :: v in rs <==> v in data.Values
      ensures forall v :: v in rs ==> v.rid != 0
      ensures DistinctKeys(rs, BookingRid)
    {
      var d := data;
      var keys := ScanKeys(d);
      rs := seq(|keys|, i requires 0 <= i < |keys| => d[keys[i]]);
      forall v | v in d.Values ensures v in rs {
        var k :| k in d && d[k] == v;
        var i :| 0 <= i < |keys| && keys[i] == k;
        assert rs[i] == v;
      }
      forall i, j | 0 <= i < j < |rs| ensures BookingRid(rs[i]) != BookingRid(rs[j]) {
        assert keys[i] == RecordKey(rs[i].rid) && keys[j] == RecordKey(rs[j].rid);
      }
    }

    method SaveRecord(record: Booking)
      requires Valid()
      modifies this, record
      ensures Valid()
      ensures (data, record.rid) == Save(old(data), old(record.Data()))
      ensures record.Data() == old(record.Data()).(rid := record.rid)
    {
      if record.rid == 0 {
        var id := GetNewId();
        record.rid := id;
      }
      var key := RecordKey(record.rid);
      SavePreservesWellKeyed(data, old(record.Data()));
      data := data[key := record.Data()];
    }

    /** `sorted(self.get_all_records(), key=lambda x: x.rid)`. */
    method GetAllSortedRecords() returns (rs: seq<BookingData>)
      requires Valid()
      ensures |rs| == |data|
      ensures forall v :: v in rs <==> v in data.Values
      ensures forall v :: v in rs ==> v.rid != 0
      ensures StrictlySortedBy(rs, BookingRid)
    {
      var all := GetAllRecords();
      rs := SortByKey(all, BookingRid);
      SortDistinctIsStrict(all, BookingRid);
      assert forall v :: v in rs <==> v in multiset(all);
    }

    method DeleteRecord(rid: nat) returns (r: Result<()>)
      requires Valid()
      modifies this
      ensures Valid()
      ensures r.Ok? <==> Remove(old(data), rid).Ok?
      ensures r.Ok? ==> data == Remove(old(data), rid).value
      ensures r.Err? ==> r.error == KeyError(RecordKey(rid)) && data == old(data)
    {
      var key := RecordKey(rid);
      if key in data {
        data := data - {key};
        r := Ok(());
      } else {
        r := Err(KeyError(key));
      }
    }

    /** The last id of the sorted records plus one, or 1 on an empty shelf. */
    method GetNewId() returns (id: nat)
      requires Valid()
      ensures id == NextId(data)
    {
      var sorted := GetAllSortedRecords();
      if |sorted| == 0 {
        id := 1;
      } else {
        var last := sorted[|sorted| - 1];
        assert last in data.Values;
        forall k | k in data ensures data[k].rid <= last.rid {
          assert data[k] in sorted;
          LastIsLargest(sorted, BookingRid, data[k]);
        }
        ghost var k :| k in data && data[k].rid + 1 == NextId(data);
        id := last.rid + 1;
      }
    }
  }
}
