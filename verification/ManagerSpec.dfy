/** What each device-manager operation does when it runs alone, as relations
    between the state before and after, and the laws of whole runs of them. */
module ManagerSpec {
  import opened Prelude
  import opened Json
  import opened Devices
  import opened StoreCodec
  import opened PersistenceAdapter
  import opened Reconcile
  import Decimal

  // ---------- state ----------

  datatype Key = DeviceInfo | MigrationVersion

  const MIGRATION_VERSION := "1"

  type StoreValues = map<Key, string>

  datatype Hresult = ErrorNone | NotExist | UnknownKey | InvalidParameter | General

  predicate MissingFromPersistentStore(r: Hresult) {
    r == NotExist || r == UnknownKey
  }

  predicate Marked(store: StoreValues) {
    MigrationVersion in store && store[MigrationVersion] == MIGRATION_VERSION
  }

  datatype View = View(cache: Cache, isMigrated: bool, store: StoreValues, file: Option<string>)
  {
    /** The flag is only up while the marker is stored. */
    predicate FlagJustified() {
      isMigrated ==> Marked(store)
    }
  }

  // ---------- mutations of the cache ----------

  /** The cache operations; `device` is the platform's answer for the id, which must
      read as a number, and `time` the clock's, as text. */
  datatype Mutation =
    | Add(id: string, device: Option<Paired>)
    | Remove(id: string)
    | SetAutoConnect(id: string, enable: bool)
    | SetLastVolume(id: string, volume: Int64)
    | Touch(id: string, time: string)

  function AddedInfo(id: string, device: Paired): Info {
    DEFAULT_INFO.(
      deviceAddr := device.address,
      deviceType := device.deviceType,
      friendlyName := if device.name != "" then device.name else id)
  }

  /** The error a mutation ends with before touching the cache. */
  function MutationError(cache: Cache, m: Mutation): Hresult {
    match m
    case Add(id, device) =>
      if Decimal.Stoll(id).None? then InvalidParameter
      else if device.None? then NotExist
      else ErrorNone
    case _ => if m.id in cache then ErrorNone else NotExist
  }

  function Mutate(cache: Cache, m: Mutation): Cache
    requires MutationError(cache, m) == ErrorNone
  {
    match m
    case Add(id, device) => cache[id := AddedInfo(id, device.value)]
    case Remove(id) => cache - {id}
    case SetAutoConnect(id, enable) => cache[id := cache[id].(autoConnect := if enable then ENABLED else DISABLED)]
    case SetLastVolume(id, volume) => cache[id := cache[id].(lastVolumeSetting := volume)]
    case Touch(id, time) => cache[id := cache[id].(lastConnectTimeUtc := time)]
  }

  // ---------- operations ----------

  /** The AS file after `writeFilesystemPersistenceFromCache`, whose failures are
      only logged: as before, or the mirror of the cache over what could be read. */
  ghost predicate Mirrored(text: Text, before: Option<string>, cache: Cache, after: Option<string>) {
    || after == before
    || exists order, previous | Enumerates(order, WithoutHid(cache).Keys) && (previous == None || previous == before) ::
        after == Some(MirrorText(text, previous, WithoutHid(cache), order))
  }

  /** The same when no file call fails: the mirror of the cache over the old file. */
  ghost predicate MirroredOver(text: Text, before: Option<string>, cache: Cache, after: Option<string>) {
    exists order | Enumerates(order, WithoutHid(cache).Keys) ::
      after == Some(MirrorText(text, before, WithoutHid(cache), order))
  }

  /** `writeStorageFromCache`. */
  ghost predicate StorageWritten(text: Text, v: View, w: View, ok: bool) {
    && w.cache == v.cache && w.isMigrated == v.isMigrated
    && (!ok ==> w == v)
    && (ok ==> DeviceInfo in w.store && Serializes(text, w.store[DeviceInfo], v.cache)
               && w.store == v.store[DeviceInfo := w.store[DeviceInfo]]
               && if v.isMigrated then Mirrored(text, v.file, v.cache, w.file) else w.file == v.file)
  }

  ghost predicate Mutated(text: Text, m: Mutation, v: View, w: View, r: Hresult) {
    if m.SetAutoConnect? && !v.isMigrated then w == v && r == General
    else if MutationError(v.cache, m) != ErrorNone then w == v && r == MutationError(v.cache, m)
    else
      var changed := v.(cache := Mutate(v.cache, m));
      if !v.isMigrated then w == changed && r == ErrorNone
      else StorageWritten(text, changed, w, r == ErrorNone)
  }

  /** When no call fails, a mutation succeeds exactly when it applies, and once
      migrated it is in the store and in the mirror. */
  ghost predicate Delivered(text: Text, m: Mutation, v: View, w: View, r: Hresult) {
    && r == (if m.SetAutoConnect? && !v.isMigrated then General else MutationError(v.cache, m))
    && (r == ErrorNone && v.isMigrated ==>
          && DeviceInfo in w.store && Serializes(text, w.store[DeviceInfo], Mutate(v.cache, m))
          && MirroredOver(text, v.file, Mutate(v.cache, m), w.file))
  }

  /** The records of the file matched to the platform's ids, before enrichment. */
  function RawImport(text: Text, file: Option<string>, paired: seq<Paired>): Cache {
    if file.None? || file.value == "" || Parsed(text, file.value).None? then map[]
    else ImportRecords(Parsed(text, file.value).value, AddressIndex(paired))
  }

  /** `performMigration`. A success either finds the marker, or imports and then
      stores the whole cache and the marker; a failure leaves marker, flag and
      file alone, and stores at most what a success would have stored. */
  ghost predicate Performed(text: Text, paired: seq<Paired>, v: View, w: View, r: Hresult) {
    && w.file == v.file
    && (Marked(v.store) ==> w == if r == ErrorNone then v.(isMigrated := true) else v)
    && (!Marked(v.store) && r == ErrorNone ==>
          && Imported(text, v.file, paired) == Some(w.cache)
          && w.isMigrated
          && DeviceInfo in w.store && Serializes(text, w.store[DeviceInfo], w.cache)
          && w.store == v.store[DeviceInfo := w.store[DeviceInfo]][MigrationVersion := MIGRATION_VERSION])
    && (!Marked(v.store) && r != ErrorNone ==>
          && w.isMigrated == v.isMigrated
          && (w.cache == v.cache || w.cache == RawImport(text, v.file, paired)
              || Imported(text, v.file, paired) == Some(w.cache))
          && (w.store == v.store
              || (DeviceInfo in w.store && w.store == v.store[DeviceInfo := w.store[DeviceInfo]]
                  && Imported(text, v.file, paired) == Some(w.cache)
                  && Serializes(text, w.store[DeviceInfo], w.cache))))
  }

  /** `clearMigration`: both keys, or nothing, or `deviceInfo` alone. */
  ghost predicate Cleared(v: View, w: View, r: Hresult) {
    && w.file == v.file
    && (r == ErrorNone ==> w.cache == map[] && !w.isMigrated && w.store == v.store - {DeviceInfo, MigrationVersion})
    && (r != ErrorNone ==> w.cache == v.cache && w.isMigrated == v.isMigrated
                           && (w.store == v.store || w.store == v.store - {DeviceInfo}))
  }

  /** `updateCacheFromStorage` where the store can be read: an absent value leaves the cache. */
  function LoadedOver(text: Text, store: StoreValues, cache: Cache): Cache {
    if DeviceInfo in store then Load(text, store[DeviceInfo]) else cache
  }

  function LoadedOrEmpty(text: Text, store: StoreValues): Cache {
    LoadedOver(text, store, map[])
  }

  /** `init`; `markerRead` is false when reading the marker
      failed for another reason than its absence. */
  ghost predicate Initialised(text: Text, v: View, w: View, markerRead: bool, r: Hresult) {
    && w.store == v.store && w.file == v.file
    && w.isMigrated == (markerRead && Marked(v.store))
    && w.cache == if r == ErrorNone && w.isMigrated then LoadedOver(text, v.store, v.cache) else v.cache
  }

  /** `init` in a build without migration. */
  ghost predicate InitialisedWithoutMigration(text: Text, paired: seq<Paired>, v: View, w: View, r: Hresult) {
    && w.file == v.file && w.isMigrated == v.isMigrated
    && (r != ErrorNone ==> w.store == v.store)
    && (r == ErrorNone ==>
          && w.cache == Reconciled(LoadedOver(text, v.store, v.cache), paired, false)
          && DeviceInfo in w.store && Serializes(text, w.store[DeviceInfo], w.cache)
          && w.store == v.store[DeviceInfo := w.store[DeviceInfo]])
  }

  // ---------- runs ----------

  datatype Op = Perform(paired: seq<Paired>) | Clear | Change(m: Mutation)

  ghost predicate Stepped(text: Text, op: Op, v: View, w: View, r: Hresult) {
    match op
    case Perform(paired) => Performed(text, paired, v, w, r)
    case Clear => Cleared(v, w, r)
    case Change(m) => Mutated(text, m, v, w, r)
  }

  /** `views[k]` is the state before operation `k`, `results[k]` its outcome. */
  ghost predicate IsRun(text: Text, ops: seq<Op>, views: seq<View>, results: seq<Hresult>) {
    && |views| == |ops| + 1 && |results| == |ops|
    && forall k :: 0 <= k < |ops| ==> Stepped(text, ops[k], views[k], views[k + 1], results[k])
  }

  lemma RunPrefix(text: Text, ops: seq<Op>, views: seq<View>, results: seq<Hresult>, n: nat)
    requires IsRun(text, ops, views, results) && n <= |ops|
    ensures IsRun(text, ops[..n], views[..n + 1], results[..n])
  {
    forall k | 0 <= k < n ensures Stepped(text, ops[..n][k], views[..n + 1][k], views[..n + 1][k + 1], results[..n][k]) {
      assert Stepped(text, ops[k], views[k], views[k + 1], results[k]);
    }
  }

  /** The flag says exactly whether the marker is stored. */
  predicate FlagExact(v: View) {
    v.isMigrated <==> Marked(v.store)
  }

  lemma StepKeepsFlag(text: Text, op: Op, v: View, w: View, r: Hresult)
    requires Stepped(text, op, v, w, r)
    ensures v.FlagJustified() ==> w.FlagJustified()
    ensures FlagExact(v) ==> FlagExact(w)
  {
  }

  /** Whatever fails along the way, flag and marker stay in step. */
  lemma {:induction false} RunKeepsFlag(text: Text, ops: seq<Op>, views: seq<View>, results: seq<Hresult>)
    requires IsRun(text, ops, views, results) && FlagExact(views[0])
    ensures FlagExact(views[|ops|])
  {
    if ops != [] {
      var n := |ops| - 1;
      RunPrefix(text, ops, views, results, n);
      RunKeepsFlag(text, ops[..n], views[..n + 1], results[..n]);
      StepKeepsFlag(text, ops[n], views[n], views[n + 1], results[n]);
    }
  }

  /** An operation that does not complete a migration. */
  predicate NotMigrating(op: Op, r: Hresult) {
    op.Perform? ==> r != ErrorNone
  }

  /** While not migrated, nothing but a successful migration raises the flag,
      stores the marker or writes the AS file, and mutations leave the store alone. */
  lemma {:induction false} UnmigratedRun(text: Text, ops: seq<Op>, views: seq<View>, results: seq<Hresult>)
    requires IsRun(text, ops, views, results)
    requires !views[0].isMigrated && !Marked(views[0].store)
    requires forall k :: 0 <= k < |ops| ==> NotMigrating(ops[k], results[k])
    ensures var last := views[|ops|];
      && !last.isMigrated && !Marked(last.store) && last.file == views[0].file
      && ((forall k :: 0 <= k < |ops| ==> ops[k].Change?) ==> last.store == views[0].store)
  {
    if ops != [] {
      var n := |ops| - 1;
      RunPrefix(text, ops, views, results, n);
      UnmigratedRun(text, ops[..n], views[..n + 1], results[..n]);
      assert Stepped(text, ops[n], views[n], views[n + 1], results[n]);
      assert NotMigrating(ops[n], results[n]);
      assert (forall k :: 0 <= k < |ops| ==> ops[k].Change?) ==> (forall k :: 0 <= k < n ==> ops[..n][k].Change?);
    }
  }

  /** The migrated state depends on the AS file and the paired list alone: any
      number of failed attempts, clears and unmigrated mutations before it make no
      difference, neither to what is held nor to what a restart would load. */
  lemma RetrySafety(text: Text, ops: seq<Op>, views: seq<View>, results: seq<Hresult>,
                    paired: seq<Paired>, migrated: View, clean: View)
    requires text.Inverse() && IsRun(text, ops, views, results)
    requires !views[0].isMigrated && !Marked(views[0].store)
    requires forall k :: 0 <= k < |ops| ==> NotMigrating(ops[k], results[k])
    requires Performed(text, paired, views[|ops|], migrated, ErrorNone) // after all of that
    requires Performed(text, paired, views[0], clean, ErrorNone) // straight away
    ensures migrated.cache == clean.cache && migrated.isMigrated && clean.isMigrated && migrated.file == clean.file
    ensures Marked(migrated.store) && Marked(clean.store)
    ensures |clean.cache| < ARRAY_LENGTH_LIMIT ==>
      LoadedOrEmpty(text, migrated.store) == LoadedOrEmpty(text, clean.store) == Persisted(clean.cache)
  {
    UnmigratedRun(text, ops, views, results);
    if |clean.cache| < ARRAY_LENGTH_LIMIT {
      LoadOfSaved(text, migrated.store[DeviceInfo], migrated.cache);
      LoadOfSaved(text, clean.store[DeviceInfo], clean.cache);
    }
  }

  /** Once migrated, one successful mutation brings the store level with the whole
      cache, whatever earlier writes failed: a restart then loses only addresses
      and names. */
  lemma SuccessfulMutationResyncs(text: Text, m: Mutation, v: View, w: View, reloaded: View)
    requires text.Inverse() && v.isMigrated && FlagExact(v) && |w.cache| < ARRAY_LENGTH_LIMIT
    requires Mutated(text, m, v, w, ErrorNone)
    requires Initialised(text, View(map[], false, w.store, w.file), reloaded, true, ErrorNone)
    ensures reloaded.isMigrated && reloaded.cache == Persisted(w.cache)
  {
    LoadOfSaved(text, w.store[DeviceInfo], w.cache);
  }

  /** A restart forgets every address: a mirror of the cache as it was loaded has
      no entries. Module `Addresses` adds what later operations change. */
  lemma {:induction false} MirrorAfterRestartIsEmpty(existing: map<string, Fields>, cache: Cache, order: seq<string>)
    requires forall id :: id in order ==> id in cache
    ensures MirrorEntries(existing, Persisted(cache), order) == []
  {
    if order != [] {
      MirrorAfterRestartIsEmpty(existing, cache, order[..|order| - 1]);
    }
  }

  // ---------- the build without migration ----------

  lemma {:induction false} FillAllFieldwise(a: Info, b: Info, id: string, paired: seq<Paired>)
    requires a.deviceAddr == b.deviceAddr && a.friendlyName == b.friendlyName
    ensures FillAll(a, id, paired).deviceAddr == FillAll(b, id, paired).deviceAddr
    ensures FillAll(a, id, paired).friendlyName == FillAll(b, id, paired).friendlyName
    ensures a.deviceType == b.deviceType ==> FillAll(a, id, paired).deviceType == FillAll(b, id, paired).deviceType
  {
    if paired != [] {
      FillAllFieldwise(a, b, id, paired[..|paired| - 1]);
    }
  }

  /** Filling what was persisted of a filled entry gives that entry again. */
  lemma RefillPersisted(info: Info, id: string, paired: seq<Paired>)
    requires info.deviceAddr == info.friendlyName == "" && id in PairedIds(paired)
    ensures var once := FillAll(info, id, paired);
      FillAll(once.(deviceAddr := "", friendlyName := ""), id, paired) == once
  {
    var once := FillAll(info, id, paired);
    var stored := once.(deviceAddr := "", friendlyName := "");
    FillAllFieldwise(info, stored, id, paired);
    FillAllKeeps(info, id, paired);
    FillAllKeeps(stored, id, paired);
    if BlankType(once.deviceType) {
      UnfilledType(info, stored, id, paired);
    }
  }

  predicate NoAddressesOrNames(cache: Cache) {
    forall id :: id in cache ==> cache[id].deviceAddr == cache[id].friendlyName == ""
  }

  lemma {:induction false} LoadedHasNoAddresses(text: Text, records: seq<Value>)
    ensures NoAddressesOrNames(LoadRecords(text, records))
  {
    if records != [] {
      LoadedHasNoAddresses(text, records[..|records| - 1]);
    }
  }

  lemma ReconcileOfPersisted(loaded: Cache, paired: seq<Paired>)
    requires NoAddressesOrNames(loaded)
    ensures Reconciled(Persisted(Reconciled(loaded, paired, false)), paired, false) == Reconciled(loaded, paired, false)
  {
    var first := Reconciled(loaded, paired, false);
    var stored := Persisted(first);
    var second := Reconciled(stored, paired, false);
    ReconciledDomain(loaded, paired, false);
    ReconciledDomain(stored, paired, false);
    ReconcileAllAt(loaded, paired, false);
    ReconcileAllAt(stored, paired, false);
    forall id | id in first ensures second[id] == first[id] {
      RefillPersisted(if id in loaded then loaded[id] else DEFAULT_INFO, id, paired);
    }
  }

  /** Without migration, a successful start caches exactly the paired devices and
      stores that cache, and starting again with the same list changes nothing. */
  lemma RestartFixpoint(text: Text, paired: seq<Paired>, v: View, first: View, second: View)
    requires text.Inverse() && |PairedIds(paired)| < ARRAY_LENGTH_LIMIT && v.cache == map[]
    requires InitialisedWithoutMigration(text, paired, v, first, ErrorNone)
    requires InitialisedWithoutMigration(text, paired, View(map[], false, first.store, first.file), second, ErrorNone)
    ensures first.cache.Keys == PairedIds(paired)
    ensures LoadedOrEmpty(text, first.store) == Persisted(first.cache)
    ensures second.cache == first.cache
    ensures LoadedOrEmpty(text, second.store) == LoadedOrEmpty(text, first.store)
  {
    var loaded := LoadedOrEmpty(text, v.store);
    if DeviceInfo in v.store {
      LoadedHasNoAddresses(text, StoredRecords(text, v.store[DeviceInfo]));
    }
    ReconciledDomain(loaded, paired, false);
    ReconcileOfPersisted(loaded, paired);
    assert |first.cache| == |first.cache.Keys|;
    LoadOfSaved(text, first.store[DeviceInfo], first.cache);
    LoadOfSaved(text, second.store[DeviceInfo], second.cache);
  }
}
