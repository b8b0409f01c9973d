/** The device manager and the services it calls, one call at a time. Every
    external call may fail, unless its service is `reliable`; a failed store
    write or delete changes nothing. */
module DeviceManagement {
  import opened Prelude
  import opened Json
  import opened Devices
  import opened StoreCodec
  import opened PersistenceAdapter
  import opened Reconcile
  import opened ManagerSpec
  import Decimal

  /** The persistent store's two keys of the Bluetooth namespace. */
  class PersistentStore {
    var values: StoreValues
    var reliable: bool

    constructor (values: StoreValues, reliable: bool)
      ensures this.values == values && this.reliable == reliable
    {
      this.values, this.reliable := values, reliable;
    }

    method GetValue(key: Key) returns (r: Hresult, value: string)
      ensures r == ErrorNone ==> key in values && value == values[key]
      ensures MissingFromPersistentStore(r) ==> key !in values
      ensures reliable ==> r == ErrorNone || MissingFromPersistentStore(r)
    {
      value := "";
      var fails: bool := *;
      if fails && !reliable {
        r := General;
      } else if key in values {
        r, value := ErrorNone, values[key];
      } else {
        r := NotExist;
        if * {
          r := UnknownKey;
        }
      }
    }

    method SetValue(key: Key, value: string) returns (r: Hresult)
      modifies this`values
      ensures values == if r == ErrorNone then old(values)[key := value] else old(values)
      ensures reliable ==> r == ErrorNone
    {
      var fails: bool := *;
      if fails && !reliable {
        r := General;
      } else {
        values := values[key := value];
        r := ErrorNone;
      }
    }

    method DeleteKey(key: Key) returns (r: Hresult)
      modifies this`values
      ensures r == ErrorNone || MissingFromPersistentStore(r) ==> values == old(values) - {key}
      ensures r != ErrorNone && !MissingFromPersistentStore(r) ==> values == old(values)
      ensures reliable ==> r == ErrorNone || MissingFromPersistentStore(r)
    {
      var fails: bool := *;
      if fails && !reliable {
        r := General;
      } else {
        r := if key in values then ErrorNone else NotExist;
        values := values - {key};
      }
    }
  }

  /** The platform's Bluetooth manager: its paired list and the devices it knows. */
  class Platform {
    var paired: seq<Paired>
    var known: map<Int64, Paired>
    var reliable: bool

    constructor (paired: seq<Paired>, known: map<Int64, Paired>, reliable: bool)
      ensures this.paired == paired && this.known == known && this.reliable == reliable
    {
      this.paired, this.known, this.reliable := paired, known, reliable;
    }

    method GetPairedDevices() returns (ok: bool, list: seq<Paired>)
      ensures ok ==> list == paired
      ensures reliable ==> ok
    {
      ok := *;
      ok := ok || reliable;
      list := if ok then paired else [];
    }

    method GetDeviceProperties(handle: Int64) returns (device: Option<Paired>)
      ensures device.Some? ==> handle in known && device.value == known[handle]
      ensures reliable && handle in known ==> device.Some?
    {
      var fails: bool := *;
      device := if handle in known && !(fails && !reliable) then Some(known[handle]) else None;
    }
  }

  class DeviceManager {
    const text: Text
    const store: PersistentStore
    const fs: FileSystem
    const platform: Platform
    var service: bool // false before `init` and after a failed one
    var cache: Cache
    var isMigrated: bool

    /** Only this plugin writes the store, so a raised flag has its marker. */
    ghost predicate Valid()
      reads this, store
    {
      isMigrated ==> Marked(store.values)
    }

    ghost function State(): View
      reads this, store, fs
    {
      View(cache, isMigrated, store.values, fs.file)
    }

    /** Started, and none of the services fails. */
    ghost predicate Reliable()
      reads this, store, fs, platform
    {
      service && store.reliable && fs.reliable && platform.reliable
    }

    constructor (text: Text, store: PersistentStore, fs: FileSystem, platform: Platform)
      ensures Valid() && this.store == store && this.fs == fs && this.platform == platform && this.text == text
      ensures State() == View(map[], false, store.values, fs.file) && !service
    {
      this.text, this.store, this.fs, this.platform := text, store, fs, platform;
      service, cache, isMigrated := false, map[], false;
    }

    // ---------- store and cache ----------

    method UpdateCacheFromStorage() returns (r: Hresult)
      modifies this`cache
      ensures r == ErrorNone ==> DeviceInfo in store.values && cache == Load(text, store.values[DeviceInfo])
      ensures r != ErrorNone ==> cache == old(cache)
      ensures MissingFromPersistentStore(r) ==> DeviceInfo !in store.values
      ensures service && store.reliable ==> r == ErrorNone || MissingFromPersistentStore(r)
    {
      if !service {
        return General;
      }
      var stored;
      r, stored := store.GetValue(DeviceInfo);
      if r == ErrorNone {
        var records := StoredRecords(text, stored);
        cache := map[];
        var i := 0;
        while i < |records|
          invariant 0 <= i <= |records|
          invariant cache == LoadRecords(text, records[..i])
        {
          var fields := text.Object(records[i]);
          var id := text.String(Get(fields, DeviceID));
          var info := ReadRecord(fields);
          cache := cache[id := info];
          assert records[..i + 1][..i] == records[..i];
          i := i + 1;
        }
        assert records[..i] == records;
      }
    }

    method ReadRecord(fields: Fields) returns (info: Info)
      ensures info == LoadInfo(text, fields)
    {
      info := DEFAULT_INFO.(deviceType := text.String(Get(fields, DeviceType)));
      if Autoconnect in fields {
        info := info.(autoConnect := text.Number(fields[Autoconnect]));
      }
      if LastConnectTimeUtc in fields {
        info := info.(lastConnectTimeUtc := text.String(fields[LastConnectTimeUtc]));
      }
      if LastVolumeSetting in fields {
        info := info.(lastVolumeSetting := text.Number(fields[LastVolumeSetting]));
      }
    }

    /** Serializes the whole cache, in the order the map happens to iterate in. */
    method SerializeCache() returns (stored: string)
      ensures Serializes(text, stored, cache)
    {
      var records: seq<Value> := [];
      var left := cache.Keys;
      ghost var order: seq<string> := [];
      while left != {}
        invariant left <= cache.Keys && Enumerates(order, cache.Keys - left)
        invariant records == Records(cache, order)
      {
        var id :| id in left;
        assert Enumerates(order + [id], cache.Keys - (left - {id})) by {
          EnumerationExtended(order, cache.Keys - left, id);
          assert cache.Keys - left + {id} == cache.Keys - (left - {id});
        }
        assert (order + [id])[..|order|] == order;
        records := records + [Record(id, cache[id])];
        order := order + [id];
        left := left - {id};
      }
      assert cache.Keys - left == cache.Keys;
      stored := text.encode(Arr(records));
    }

    method WriteStorageFromCache() returns (r: Hresult)
      requires Valid()
      modifies store`values, fs`file, fs`temp, fs`stalls, fs`seen
      ensures Valid()
      ensures StorageWritten(text, old(State()), State(), r == ErrorNone)
      ensures service && store.reliable ==> r == ErrorNone
      ensures r == ErrorNone && isMigrated && fs.reliable ==> MirroredOver(text, old(fs.file), cache, fs.file)
    {
      if !service {
        return General;
      }
      var stored := SerializeCache();
      r := store.SetValue(DeviceInfo, stored);
      if r == ErrorNone && isMigrated {
        WriteFilesystemPersistenceFromCache();
      }
    }

    // ---------- the AS file ----------

    method WriteFilesystemPersistenceFromCache()
      modifies fs`file, fs`temp, fs`stalls, fs`seen
      ensures Mirrored(text, old(fs.file), cache, fs.file)
      ensures fs.reliable ==> MirroredOver(text, old(fs.file), cache, fs.file)
    {
      var snapshot := cache;
      var left := snapshot.Keys;
      while left != {}
        invariant left <= cache.Keys
        invariant forall id :: id in snapshot <==>
          id in cache && (id in left || cache[id].deviceType != HUMAN_INTERFACE_DEVICE)
        invariant forall id :: id in snapshot ==> snapshot[id] == cache[id]
        invariant fs.file == old(fs.file)
      {
        var id :| id in left;
        if snapshot[id].deviceType == HUMAN_INTERFACE_DEVICE {
          snapshot := snapshot - {id};
        }
        left := left - {id};
      }
      assert snapshot == WithoutHid(cache);
      var ok, order, previous := Write(fs, text, snapshot);
    }

    static method IndexPaired(paired: seq<Paired>) returns (index: map<string, string>)
      ensures index == AddressIndex(paired)
    {
      index := map[];
      var i := 0;
      while i < |paired|
        invariant 0 <= i <= |paired|
        invariant index == AddressIndex(paired[..i])
      {
        if paired[i].address != "" {
          index := index[paired[i].address := paired[i].Id()];
        }
        assert paired[..i + 1][..i] == paired[..i];
        i := i + 1;
      }
      assert paired[..i] == paired;
    }

    static method MatchRecords(devices: seq<Info>, index: map<string, string>) returns (imported: Cache)
      ensures imported == ImportRecords(devices, index)
    {
      imported := map[];
      var i := 0;
      while i < |devices|
        invariant 0 <= i <= |devices|
        invariant imported == ImportRecords(devices[..i], index)
      {
        if devices[i].deviceAddr in index {
          imported := imported[index[devices[i].deviceAddr] := devices[i]];
        }
        assert devices[..i + 1][..i] == devices[..i];
        i := i + 1;
      }
      assert devices[..i] == devices;
    }

    method WriteCacheFromFilesystemPersistence(rawContent: string) returns (r: Hresult)
      modifies this`cache
      ensures r == ErrorNone ==>
        rawContent == "" || Parsed(text, rawContent).Some?
      ensures cache == if r == ErrorNone then RawImport(text, Some(rawContent), platform.paired) else old(cache)
      ensures rawContent == "" || (platform.reliable && Parsed(text, rawContent).Some?) ==> r == ErrorNone
    {
      if rawContent == "" {
        cache := map[];
        return ErrorNone;
      }
      var parsed, devices := Parse(text, rawContent);
      if !parsed {
        return General;
      }
      var ok, paired := platform.GetPairedDevices();
      if !ok {
        return General;
      }
      var index := IndexPaired(paired);
      var imported := MatchRecords(devices, index);
      cache := imported;
      r := ErrorNone;
    }

    // ---------- the platform ----------

    static method Backfill(info: Info, p: Paired) returns (existing: Info)
      ensures existing == Fill(info, p)
    {
      existing := info;
      if existing.friendlyName == "" {
        existing := existing.(friendlyName := p.NameOrId());
      }
      if existing.deviceAddr == "" {
        existing := existing.(deviceAddr := p.address);
      }
      if existing.deviceType == "" || existing.deviceType == UNKNOWN {
        existing := existing.(deviceType := p.deviceType);
      }
    }

    method UpdateCacheFromDevice(backfillOnly: bool) returns (r: Hresult)
      modifies this`cache
      ensures cache == if r == ErrorNone then Reconciled(old(cache), platform.paired, backfillOnly) else old(cache)
      ensures platform.reliable ==> r == ErrorNone
    {
      var ok, paired := platform.GetPairedDevices();
      if !ok {
        return General;
      }
      var i := 0;
      while i < |paired|
        invariant 0 <= i <= |paired|
        invariant cache == ReconcileAll(old(cache), paired[..i], backfillOnly)
      {
        var p := paired[i];
        var id := p.Id();
        if id in cache {
          var existing := Backfill(cache[id], p);
          cache := cache[id := existing];
        } else if !backfillOnly {
          cache := cache[id := DEFAULT_INFO.(
            deviceAddr := p.address, deviceType := p.deviceType, friendlyName := p.NameOrId())];
        }
        assert paired[..i + 1][..i] == paired[..i];
        i := i + 1;
      }
      assert paired[..i] == paired;
      if !backfillOnly {
        ScrubUnpaired(paired);
      }
      r := ErrorNone;
    }

    /** Removes the entries of devices the platform no longer pairs. */
    method ScrubUnpaired(paired: seq<Paired>)
      modifies this`cache
      ensures cache == map id | id in old(cache) && id in PairedIds(paired) :: old(cache)[id]
    {
      var pairedIds: set<string> := {};
      var i := 0;
      while i < |paired|
        invariant 0 <= i <= |paired|
        invariant pairedIds == PairedIds(paired[..i])
        invariant cache == old(cache)
      {
        PairedIdsAppended(paired[..i], paired[i]);
        assert paired[..i + 1] == paired[..i] + [paired[i]];
        pairedIds := pairedIds + {paired[i].Id()};
        i := i + 1;
      }
      assert paired[..i] == paired;
      var toRemove: set<string> := {};
      var left := cache.Keys;
      while left != {}
        invariant left <= cache.Keys && cache == old(cache)
        invariant toRemove == set id | id in cache.Keys - left && id !in pairedIds
      {
        var id :| id in left;
        if id !in pairedIds {
          toRemove := toRemove + {id};
        }
        left := left - {id};
      }
      ghost var doomed := toRemove;
      while toRemove != {}
        invariant toRemove <= doomed
        invariant cache == old(cache) - (doomed - toRemove)
      {
        var id :| id in toRemove;
        cache := cache - {id};
        toRemove := toRemove - {id};
      }
    }

    // ---------- life cycle ----------

    /** `init` with migration built in; `markerRead` tells whether the marker could be read. */
    method Init(available: bool) returns (r: Hresult, ghost markerRead: bool)
      modifies this
      ensures available ==> Valid() && Initialised(text, old(State()), State(), markerRead, r)
      ensures available ==> (service <==> r == ErrorNone)
      ensures available && store.reliable ==> r == ErrorNone && markerRead
      ensures available && isMigrated ==> MigrationVersion in store.values && store.values[MigrationVersion] == "1"
      ensures !available ==> r == General && State() == old(State())
    {
      markerRead := false;
      if !available {
        return General, false;
      }
      service := true;
      var versionResult, version := store.GetValue(MigrationVersion);
      markerRead := versionResult == ErrorNone || MissingFromPersistentStore(versionResult);
      isMigrated := versionResult == ErrorNone && version == MIGRATION_VERSION;
      if isMigrated {
        var storageResult := UpdateCacheFromStorage();
        if storageResult != ErrorNone && !MissingFromPersistentStore(storageResult) {
          service := false;
          return storageResult, markerRead;
        }
      }
      r := ErrorNone;
    }

    /** `init` built without migration. */
    method InitWithoutMigration(available: bool) returns (r: Hresult)
      requires !isMigrated
      modifies this, store, fs
      ensures available ==> (service <==> r == ErrorNone)
      ensures available && old(store.reliable && platform.reliable) ==> r == ErrorNone
      ensures available ==> InitialisedWithoutMigration(text, platform.paired, old(State()), State(), r)
      ensures !available ==> r == General && State() == old(State())
    {
      if !available {
        return General;
      }
      service := true;
      r := UpdateCacheFromStorage();
      if r != ErrorNone && !MissingFromPersistentStore(r) {
        service := false;
        return;
      }
      r := UpdateCacheFromDevice(false);
      if r != ErrorNone {
        service := false;
        return;
      }
      r := WriteStorageFromCache();
      if r != ErrorNone {
        service := false;
      }
    }

    // ---------- migration ----------

    /** The first half of a migration: the AS file into the cache, enriched by the
        platform unless there is nothing to enrich. */
    method ImportIntoCache() returns (r: Hresult)
      modifies this`cache
      ensures r == ErrorNone ==> Imported(text, fs.file, platform.paired) == Some(cache)
      ensures r != ErrorNone ==> cache == old(cache) || cache == RawImport(text, fs.file, platform.paired)
      ensures fs.reliable && platform.reliable ==>
        (r == ErrorNone <==> Imported(text, fs.file, platform.paired).Some?)
    {
      var raw := ReadRaw(fs);
      if raw.Unreadable? {
        return General;
      }
      var rawContent := if raw.Content? then raw.content else "";
      r := WriteCacheFromFilesystemPersistence(rawContent);
      if r != ErrorNone {
        return;
      }
      assert cache == RawImport(text, fs.file, platform.paired);
      if cache != map[] {
        r := UpdateCacheFromDevice(true);
      } else {
        ReconciledDomain(cache, platform.paired, true);
        assert Reconciled(cache, platform.paired, true) == map[];
      }
    }

    method PerformMigration() returns (r: Hresult)
      requires Valid()
      modifies this, store, fs
      ensures Valid()
      ensures Performed(text, platform.paired, old(State()), State(), r)
      ensures r == ErrorNone ==>
        isMigrated && MigrationVersion in store.values && store.values[MigrationVersion] == "1"
      ensures old(Reliable()) ==>
        Reliable() && (r == ErrorNone <==> old(Marked(store.values)) || Imported(text, old(fs.file), platform.paired).Some?)
    {
      if !service {
        return General;
      }
      var version;
      r, version := store.GetValue(MigrationVersion);
      if !MissingFromPersistentStore(r) && r != ErrorNone {
        return;
      }
      if r == ErrorNone && version == MIGRATION_VERSION {
        isMigrated := true;
        return;
      }
      r := ImportIntoCache();
      if r != ErrorNone {
        return;
      }
      r := WriteStorageFromCache();
      if r != ErrorNone {
        return;
      }
      r := store.SetValue(MigrationVersion, MIGRATION_VERSION);
      if r != ErrorNone {
        return;
      }
      isMigrated := true;
    }

    method ClearMigration() returns (r: Hresult)
      requires Valid()
      modifies this, store
      ensures Valid()
      ensures Cleared(old(State()), State(), r)
      ensures old(Reliable()) ==> Reliable() && r == ErrorNone
    {
      if !service {
        return General;
      }
      r := store.DeleteKey(DeviceInfo);
      if r != ErrorNone && !MissingFromPersistentStore(r) {
        return;
      }
      r := store.DeleteKey(MigrationVersion);
      if r != ErrorNone && !MissingFromPersistentStore(r) {
        return;
      }
      cache := map[];
      isMigrated := false;
      r := ErrorNone;
    }

    // ---------- mutators and getters ----------

    method SetAutoConnect(id: string, enable: bool) returns (r: Hresult)
      requires Valid()
      modifies this, store, fs
      ensures Valid() && Mutated(text, Mutation.SetAutoConnect(id, enable), old(State()), State(), r)
      ensures old(Reliable()) ==> Reliable() && Delivered(text, Mutation.SetAutoConnect(id, enable), old(State()), State(), r)
      ensures old(isMigrated) && id in old(cache) ==>
        id in cache && cache == old(cache)[id := cache[id]]
        && cache[id] == old(cache)[id].(autoConnect := if enable then 1 else 0)
      ensures !old(isMigrated) ==> r == General && State() == old(State())
      ensures old(isMigrated) && id !in old(cache) ==> r == NotExist && State() == old(State())
    {
      if !isMigrated {
        return General;
      }
      if id !in cache {
        return NotExist;
      }
      cache := cache[id := cache[id].(autoConnect := if enable then ENABLED else DISABLED)];
      r := WriteStorageFromCache();
    }

    /** An unset status reads as disabled, and so does every status before migration. */
    method GetAutoConnect(id: string) returns (r: Hresult, status: Int64)
      ensures !isMigrated ==> r == ErrorNone && status == DISABLED
      ensures isMigrated ==> r == if id in cache then ErrorNone else NotExist
      ensures isMigrated && id in cache ==>
        status == if cache[id].autoConnect == UNSET then DISABLED else cache[id].autoConnect
    {
      status := DISABLED;
      if !isMigrated {
        return ErrorNone, DISABLED;
      }
      if id !in cache {
        return NotExist, DISABLED;
      }
      r := ErrorNone;
      status := if cache[id].autoConnect == UNSET then DISABLED else cache[id].autoConnect;
    }

    method SetLastVolumeSetting(id: string, volume: Int64) returns (r: Hresult)
      requires Valid()
      modifies this, store, fs
      ensures Valid() && Mutated(text, SetLastVolume(id, volume), old(State()), State(), r)
      ensures old(Reliable()) ==> Reliable() && Delivered(text, SetLastVolume(id, volume), old(State()), State(), r)
      ensures id in old(cache) ==>
        id in cache && cache == old(cache)[id := cache[id]] && cache[id] == old(cache)[id].(lastVolumeSetting := volume)
      ensures id !in old(cache) ==> r == NotExist && State() == old(State())
    {
      if id !in cache {
        return NotExist;
      }
      cache := cache[id := cache[id].(lastVolumeSetting := volume)];
      if !isMigrated {
        return ErrorNone;
      }
      r := WriteStorageFromCache();
    }

    /** `now` is the clock's reading; callers ignore the outcome `r`. */
    method SetLastConnectTimeUtc(id: string, now: Int64) returns (r: Hresult)
      requires Valid()
      modifies this, store, fs
      ensures Valid() && Mutated(text, Touch(id, Decimal.Print(now)), old(State()), State(), r)
      ensures old(Reliable()) ==> Reliable() && Delivered(text, Touch(id, Decimal.Print(now)), old(State()), State(), r)
      ensures id in old(cache) ==>
        id in cache && cache == old(cache)[id := cache[id]]
        && cache[id] == old(cache)[id].(lastConnectTimeUtc := Decimal.Print(now))
      ensures id !in old(cache) ==> r == NotExist && State() == old(State())
    {
      if id !in cache {
        return NotExist;
      }
      cache := cache[id := cache[id].(lastConnectTimeUtc := Decimal.Print(now))];
      if !isMigrated {
        return ErrorNone;
      }
      r := WriteStorageFromCache();
    }

    method AddDevice(id: string) returns (r: Hresult, ghost device: Option<Paired>)
      requires Valid()
      modifies this, store, fs
      ensures device.Some? ==> var handle := Decimal.Stoll(id);
        handle.Some? && handle.value in platform.known && device.value == platform.known[handle.value]
      ensures device.None? && old(Reliable()) && Decimal.Stoll(id).Some? ==> Decimal.Stoll(id).value !in platform.known
      ensures Valid() && Mutated(text, Add(id, device), old(State()), State(), r)
      ensures old(Reliable()) ==> Reliable() && Delivered(text, Add(id, device), old(State()), State(), r)
      ensures device.Some? ==>
        var known := platform.known[Decimal.Stoll(id).value];
        && id in cache && cache == old(cache)[id := cache[id]]
        && cache[id].deviceType == known.deviceType && cache[id].deviceAddr == known.address
        && cache[id].friendlyName == (if known.name != "" then known.name else id)
        && cache[id].autoConnect == 2 && cache[id].lastVolumeSetting == 0 && cache[id].lastConnectTimeUtc == ""
      ensures device.None? ==>
        State() == old(State()) && r == if Decimal.Stoll(id).None? then InvalidParameter else NotExist
    {
      device := None;
      var handle := Decimal.Stoll(id);
      if handle.None? {
        return InvalidParameter, None;
      }
      var property := platform.GetDeviceProperties(handle.value);
      device := property;
      if property.None? {
        return NotExist, None;
      }
      var info := DEFAULT_INFO.(
        deviceAddr := property.value.address,
        deviceType := property.value.deviceType,
        friendlyName := if property.value.name != "" then property.value.name else id);
      cache := cache[id := info];
      if !isMigrated {
        return ErrorNone, device;
      }
      r := WriteStorageFromCache();
    }

    method RemoveDevice(id: string) returns (r: Hresult)
      requires Valid()
      modifies this, store, fs
      ensures Valid() && Mutated(text, Remove(id), old(State()), State(), r)
      ensures old(Reliable()) ==> Reliable() && Delivered(text, Remove(id), old(State()), State(), r)
      ensures cache == old(cache) - {id}
      ensures id !in old(cache) ==> r == NotExist && State() == old(State())
    {
      if id !in cache {
        return NotExist;
      }
      cache := cache - {id};
      if !isMigrated {
        return ErrorNone;
      }
      r := WriteStorageFromCache();
    }
  }
}
