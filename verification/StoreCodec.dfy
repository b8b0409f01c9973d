/** The `deviceInfo` value of the persistent store: a bare JSON array with one
    record per cached device, written whole and read back whole. */
module StoreCodec {
  import opened Prelude
  import opened Json
  import opened Devices

  function Record(id: string, info: Info): Value {
    Obj(map[
          DeviceID := Str(id),
          DeviceType := Str(info.deviceType),
          Autoconnect := Num(info.autoConnect),
          LastConnectTimeUtc := Str(info.lastConnectTimeUtc),
          LastVolumeSetting := Num(info.lastVolumeSetting)])
  }

  function Records(cache: Cache, order: seq<string>): (records: seq<Value>)
    requires forall id :: id in order ==> id in cache
    ensures |records| == |order|
  {
    if order == [] then []
    else
      var last := |order| - 1;
      Records(cache, order[..last]) + [Record(order[last], cache[order[last]])]
  }

  /** The text is the serialization of `cache` in some iteration order. */
  ghost predicate Serializes(text: Text, stored: string, cache: Cache) {
    exists order :: Enumerates(order, cache.Keys) && stored == text.encode(Arr(Records(cache, order)))
  }

  // ---------- reading ----------

  function LoadInfo(text: Text, fields: Fields): Info {
    DEFAULT_INFO.(
      deviceType := text.String(Get(fields, DeviceType)),
      autoConnect := if Autoconnect in fields then text.Number(fields[Autoconnect]) else UNSET,
      lastConnectTimeUtc :=
        if LastConnectTimeUtc in fields then text.String(fields[LastConnectTimeUtc]) else "",
      lastVolumeSetting :=
        if LastVolumeSetting in fields then text.Number(fields[LastVolumeSetting]) else 0)
  }

  /** The cache filled from the records in order; a repeated id is overwritten. */
  function LoadRecords(text: Text, records: seq<Value>): Cache {
    if records == [] then map[]
    else
      var last := |records| - 1;
      var fields := text.Object(records[last]);
      LoadRecords(text, records[..last])[text.String(Get(fields, DeviceID)) := LoadInfo(text, fields)]
  }

  /** A stored text that is not an array reads as an empty array. */
  function StoredRecords(text: Text, stored: string): seq<Value> {
    match text.decode(stored)
    case Some(Arr(items)) => Visible(items)
    case _ => []
  }

  function Load(text: Text, stored: string): Cache {
    LoadRecords(text, StoredRecords(text, stored))
  }

  // ---------- laws ----------

  function WithoutIdentity(info: Info): Info {
    info.(deviceAddr := "", friendlyName := "")
  }

  /** Reading one record more adds its persisted fields under its id. */
  lemma LoadAnotherRecord(text: Text, records: seq<Value>, id: string, info: Info)
    ensures LoadRecords(text, records + [Record(id, info)]) == LoadRecords(text, records)[id := WithoutIdentity(info)]
  {
    assert (records + [Record(id, info)])[..|records|] == records;
    assert LoadInfo(text, text.Object(Record(id, info))) == WithoutIdentity(info);
  }

  /** The persisted form of some of the entries. */
  function PersistedIn(cache: Cache, ids: set<string>): Cache
    requires ids <= cache.Keys
  {
    map id | id in ids :: WithoutIdentity(cache[id])
  }

  lemma PersistedInExtended(cache: Cache, ids: set<string>, id: string)
    requires ids + {id} <= cache.Keys
    ensures PersistedIn(cache, ids + {id}) == PersistedIn(cache, ids)[id := WithoutIdentity(cache[id])]
  {
  }

  lemma RecordsAppended(cache: Cache, front: seq<string>, id: string)
    requires Elements(front + [id]) <= cache.Keys
    ensures Elements(front) <= cache.Keys && id in cache
    ensures Records(cache, front + [id]) == Records(cache, front) + [Record(id, cache[id])]
  {
    ElementsExtended(front, id);
    assert (front + [id])[..|front|] == front;
  }

  lemma {:induction false} LoadRecordsOfCache(text: Text, cache: Cache, order: seq<string>)
    requires Elements(order) <= cache.Keys
    ensures LoadRecords(text, Records(cache, order)) == PersistedIn(cache, Elements(order))
  {
    if order != [] {
      var front, id := order[..|order| - 1], order[|order| - 1];
      assert order == front + [id];
      RecordsAppended(cache, front, id);
      LoadRecordsOfCache(text, cache, front);
      LoadAnotherRecord(text, Records(cache, front), id, cache[id]);
      ElementsExtended(front, id);
      PersistedInExtended(cache, Elements(front), id);
    }
  }

  lemma StoredRecordsOf(text: Text, records: seq<Value>)
    requires text.Inverse() && |records| < ARRAY_LENGTH_LIMIT
    ensures StoredRecords(text, text.encode(Arr(records))) == records
  {
    assert text.decode(text.encode(Arr(records))) == Some(Arr(records));
    AllVisible(records);
  }

  lemma LoadOfRecords(text: Text, cache: Cache, order: seq<string>)
    requires text.Inverse() && Enumerates(order, cache.Keys) && |cache| < ARRAY_LENGTH_LIMIT
    ensures Load(text, text.encode(Arr(Records(cache, order)))) == Persisted(cache)
  {
    EnumerationLength(order, cache.Keys);
    assert |cache.Keys| == |cache|;
    StoredRecordsOf(text, Records(cache, order));
    LoadRecordsOfCache(text, cache, order);
    assert Elements(order) == cache.Keys;
    assert Persisted(cache) == PersistedIn(cache, cache.Keys);
  }

  /** What is saved is what a restart reads, up to address and name, whatever
      order the records were written in. */
  lemma LoadOfSaved(text: Text, stored: string, cache: Cache)
    requires text.Inverse() && Serializes(text, stored, cache) && |cache| < ARRAY_LENGTH_LIMIT
    ensures Load(text, stored) == Persisted(cache)
  {
    var order :| Enumerates(order, cache.Keys) && stored == text.encode(Arr(Records(cache, order)));
    LoadOfRecords(text, cache, order);
  }

  lemma {:induction false} RecordsPrefix(cache: Cache, order: seq<string>, n: nat)
    requires n <= |order| && forall id :: id in order ==> id in cache
    ensures Records(cache, order)[..n] == Records(cache, order[..n])
  {
    if n < |order| {
      var last := |order| - 1;
      RecordsPrefix(cache, order[..last], n);
      assert order[..last][..n] == order[..n];
    } else {
      assert order[..n] == order;
    }
  }

  /** Of any number of records a start loads the first ones, up to the length the
      16-bit counter sees. */
  lemma LoadedPrefix(text: Text, stored: string, cache: Cache) returns (order: seq<string>)
    requires text.Inverse() && Serializes(text, stored, cache)
    ensures Enumerates(order, cache.Keys) && |order| == |cache|
    ensures Load(text, stored) == PersistedIn(cache, Elements(order[..|cache| % ARRAY_LENGTH_LIMIT]))
  {
    var some :| Enumerates(some, cache.Keys) && stored == text.encode(Arr(Records(cache, some)));
    order := some;
    var records := Records(cache, order);
    EnumerationLength(order, cache.Keys);
    assert |cache.Keys| == |cache|;
    var n := |records| % ARRAY_LENGTH_LIMIT;
    assert text.decode(stored) == Some(Arr(records));
    RecordsPrefix(cache, order, n);
    LoadRecordsOfCache(text, cache, order[..n]);
  }

  lemma LoadedIds(text: Text, stored: string, cache: Cache)
    requires text.Inverse() && Serializes(text, stored, cache)
    ensures Load(text, stored).Keys <= cache.Keys
  {
    var order := LoadedPrefix(text, stored, cache);
  }

  /** The 16-bit counter is the one limit: what was saved is what a restart reads
      exactly when there are fewer than 65536 devices. */
  lemma LoadOfSavedIff(text: Text, stored: string, cache: Cache)
    requires text.Inverse() && Serializes(text, stored, cache)
    ensures Load(text, stored) == Persisted(cache) <==> |cache| < ARRAY_LENGTH_LIMIT
  {
    if |cache| < ARRAY_LENGTH_LIMIT {
      LoadOfSaved(text, stored, cache);
    } else {
      var order := LoadedPrefix(text, stored, cache);
      var seen := order[..|cache| % ARRAY_LENGTH_LIMIT];
      ElementsBounded(seen);
      assert |Elements(seen)| < |cache.Keys|;
      assert Load(text, stored).Keys == Elements(seen);
      assert Persisted(cache).Keys == cache.Keys;
    }
  }

  // ---------- the format, field by field ----------

  lemma {:induction false} RecordsHave(cache: Cache, order: seq<string>, id: string) returns (k: nat)
    requires (forall i :: i in order ==> i in cache) && id in order
    ensures k < |Records(cache, order)| && Records(cache, order)[k] == Record(id, cache[id])
  {
    var front, last := order[..|order| - 1], order[|order| - 1];
    assert order == front + [last];
    if last == id {
      k := |front|;
    } else {
      k := RecordsHave(cache, front, id);
    }
  }

  /** What is stored is an array with one object for each device, of five members. */
  lemma StoredFormat(text: Text, stored: string, cache: Cache) returns (items: seq<Value>)
    requires text.Inverse() && Serializes(text, stored, cache)
    ensures text.decode(stored) == Some(Arr(items)) && |items| == |cache|
    ensures forall id :: id in cache ==>
      var members := map[
        DeviceID := Str(id),
        DeviceType := Str(cache[id].deviceType),
        Autoconnect := Num(cache[id].autoConnect),
        LastConnectTimeUtc := Str(cache[id].lastConnectTimeUtc),
        LastVolumeSetting := Num(cache[id].lastVolumeSetting)];
      exists k :: 0 <= k < |items| && items[k] == Obj(members)
  {
    var order :| Enumerates(order, cache.Keys) && stored == text.encode(Arr(Records(cache, order)));
    items := Records(cache, order);
    assert text.decode(stored) == Some(Arr(items));
    EnumerationLength(order, cache.Keys);
    assert |cache.Keys| == |cache|;
    forall id | id in cache ensures exists k :: 0 <= k < |items| && items[k] == Record(id, cache[id]) {
      var k := RecordsHave(cache, order, id);
    }
  }

  /** Record `k` is the last one with this id. */
  predicate LastWithId(text: Text, items: seq<Value>, id: string, k: int) {
    && 0 <= k < |items| && text.String(Get(text.Object(items[k]), DeviceID)) == id
    && forall j :: k < j < |items| ==> text.String(Get(text.Object(items[j]), DeviceID)) != id
  }

  /** The settings a record gives, with defaults for those it lacks; no address and
      no name. */
  predicate LoadedFrom(text: Text, e: Fields, info: Info) {
    && info.deviceAddr == info.friendlyName == ""
    && info.deviceType == text.String(Get(e, DeviceType))
    && info.autoConnect == (if Autoconnect in e then text.Number(e[Autoconnect]) else UNSET)
    && info.lastConnectTimeUtc == (if LastConnectTimeUtc in e then text.String(e[LastConnectTimeUtc]) else "")
    && info.lastVolumeSetting == (if LastVolumeSetting in e then text.Number(e[LastVolumeSetting]) else 0)
  }

  lemma LastWithIdStep(text: Text, front: seq<Value>, item: Value, id: string)
    ensures forall k :: LastWithId(text, front + [item], id, k) <==>
      if text.String(Get(text.Object(item), DeviceID)) == id then k == |front| else LastWithId(text, front, id, k)
  {
    var all := front + [item];
    assert all[|front|] == item && forall j :: 0 <= j < |front| ==> all[j] == front[j];
    forall k ensures LastWithId(text, all, id, k) <==>
      if text.String(Get(text.Object(item), DeviceID)) == id then k == |front| else LastWithId(text, front, id, k)
    {
      if k < |front| && LastWithId(text, all, id, k) {
        assert text.String(Get(text.Object(all[|front|]), DeviceID)) != id;
      }
    }
  }

  /** What a start makes of any stored array: for each id its last record. */
  lemma {:induction false} LoadedRecord(text: Text, items: seq<Value>, id: string)
    ensures id in LoadRecords(text, items) <==> exists k :: LastWithId(text, items, id, k)
    ensures forall k :: LastWithId(text, items, id, k) ==>
      id in LoadRecords(text, items) && LoadedFrom(text, text.Object(items[k]), LoadRecords(text, items)[id])
  {
    if items != [] {
      var front, item := items[..|items| - 1], items[|items| - 1];
      assert items == front + [item];
      LoadedRecord(text, front, id);
      LastWithIdStep(text, front, item, id);
      if text.String(Get(text.Object(item), DeviceID)) == id {
        assert LastWithId(text, items, id, |front|);
      } else if k :| LastWithId(text, front, id, k) {
        assert LastWithId(text, items, id, k);
      }
    }
  }
}
