/** Joining the cache with the platform's paired list: backfill and scrub
    (`updateCacheFromDevice`), and the import of AS-file records by address. */
module Reconcile {
  import opened Prelude
  import opened Json
  import opened Devices
  import opened PersistenceAdapter
  import Decimal

  // ---------- reconciliation with the paired list ----------

  predicate BlankType(deviceType: string) {
    deviceType == "" || deviceType == UNKNOWN
  }

  /** Missing fields of a cached entry, taken from the platform. */
  function Fill(info: Info, p: Paired): Info {
    info.(
      friendlyName := if info.friendlyName == "" then p.NameOrId() else info.friendlyName,
      deviceAddr := if info.deviceAddr == "" then p.address else info.deviceAddr,
      deviceType := if BlankType(info.deviceType) then p.deviceType else info.deviceType)
  }

  function ReconcileOne(cache: Cache, p: Paired, backfillOnly: bool): Cache {
    if p.Id() in cache then cache[p.Id() := Fill(cache[p.Id()], p)]
    else if !backfillOnly then cache[p.Id() := DEFAULT_INFO.(
        deviceAddr := p.address, deviceType := p.deviceType, friendlyName := p.NameOrId())]
    else cache
  }

  function ReconcileAll(cache: Cache, paired: seq<Paired>, backfillOnly: bool): Cache {
    if paired == [] then cache
    else
      var last := |paired| - 1;
      ReconcileOne(ReconcileAll(cache, paired[..last], backfillOnly), paired[last], backfillOnly)
  }

  function PairedIds(paired: seq<Paired>): set<string> {
    set p | p in paired :: p.Id()
  }

  function Reconciled(cache: Cache, paired: seq<Paired>, backfillOnly: bool): Cache {
    var all := ReconcileAll(cache, paired, backfillOnly);
    if backfillOnly then all
    else map id | id in all && id in PairedIds(paired) :: all[id]
  }

  /** What the paired list makes of one entry, looking at its own id only. */
  function FillAll(info: Info, id: string, paired: seq<Paired>): Info {
    if paired == [] then info
    else
      var last := |paired| - 1;
      var filled := FillAll(info, id, paired[..last]);
      if paired[last].Id() == id then Fill(filled, paired[last]) else filled
  }

  lemma PairedIdsAppended(paired: seq<Paired>, p: Paired)
    ensures PairedIds(paired + [p]) == PairedIds(paired) + {p.Id()}
  {
    assert forall q :: q in paired ==> q in paired + [p];
    assert p in paired + [p];
  }

  /** Where an entry starts from: itself, or a default one. */
  function Origin(cache: Cache, id: string): Info {
    if id in cache then cache[id] else DEFAULT_INFO
  }

  lemma FillAllAppended(info: Info, id: string, front: seq<Paired>, p: Paired)
    ensures FillAll(info, id, front + [p])
         == if p.Id() == id then Fill(FillAll(info, id, front), p) else FillAll(info, id, front)
  {
    assert (front + [p])[..|front|] == front;
  }

  lemma ReconcileAllAppended(cache: Cache, front: seq<Paired>, p: Paired, backfillOnly: bool)
    ensures ReconcileAll(cache, front + [p], backfillOnly)
         == ReconcileOne(ReconcileAll(cache, front, backfillOnly), p, backfillOnly)
  {
    assert (front + [p])[..|front|] == front;
  }

  /** The loop acts on each id separately; a new entry is a filled default one. */
  lemma {:induction false} ReconcileAllAt(cache: Cache, paired: seq<Paired>, backfillOnly: bool)
    ensures ReconcileAll(cache, paired, backfillOnly).Keys
         == if backfillOnly then cache.Keys else cache.Keys + PairedIds(paired)
    ensures forall id :: id in ReconcileAll(cache, paired, backfillOnly) ==>
      ReconcileAll(cache, paired, backfillOnly)[id] == FillAll(Origin(cache, id), id, paired)
  {
    if paired != [] {
      var front, p := paired[..|paired| - 1], paired[|paired| - 1];
      assert paired == front + [p];
      ReconcileAllAt(cache, front, backfillOnly);
      PairedIdsAppended(front, p);
      ReconcileAllAppended(cache, front, p, backfillOnly);
      var before, now := ReconcileAll(cache, front, backfillOnly), ReconcileAll(cache, paired, backfillOnly);
      forall id | id in now ensures now[id] == FillAll(Origin(cache, id), id, paired) {
        FillAllAppended(Origin(cache, id), id, front, p);
        if id == p.Id() && id !in before {
          NotPairedUnfilled(DEFAULT_INFO, id, front);
        }
      }
    }
  }

  lemma {:induction false} NotPairedUnfilled(info: Info, id: string, paired: seq<Paired>)
    requires id !in PairedIds(paired)
    ensures FillAll(info, id, paired) == info
  {
    if paired != [] {
      var last := |paired| - 1;
      assert paired == paired[..last] + [paired[last]];
      PairedIdsAppended(paired[..last], paired[last]);
      NotPairedUnfilled(info, id, paired[..last]);
    }
  }

  /** Reconciliation decides exactly which devices are cached: all and only the
      paired ones, or, when only backfilling, the ones that were. */
  lemma ReconciledDomain(cache: Cache, paired: seq<Paired>, backfillOnly: bool)
    ensures Reconciled(cache, paired, backfillOnly).Keys == if backfillOnly then cache.Keys else PairedIds(paired)
  {
    ReconcileAllAt(cache, paired, backfillOnly);
  }

  /** `now` is `before` with at most its blank fields filled in. */
  predicate OnlyBlanksFilled(before: Info, now: Info) {
    && now.autoConnect == before.autoConnect
    && now.lastVolumeSetting == before.lastVolumeSetting
    && now.lastConnectTimeUtc == before.lastConnectTimeUtc
    && (before.friendlyName != "" ==> now.friendlyName == before.friendlyName)
    && (before.deviceAddr != "" ==> now.deviceAddr == before.deviceAddr)
    && (!BlankType(before.deviceType) ==> now.deviceType == before.deviceType)
  }

  lemma {:induction false} FillAllKeeps(info: Info, id: string, paired: seq<Paired>)
    ensures OnlyBlanksFilled(info, FillAll(info, id, paired))
  {
    if paired != [] {
      FillAllKeeps(info, id, paired[..|paired| - 1]);
    }
  }

  /** Surviving entries keep their settings and every field that was known; added
      entries are default ones but for what the platform told. */
  lemma ReconciledKeeps(cache: Cache, paired: seq<Paired>, backfillOnly: bool, id: string)
    requires id in Reconciled(cache, paired, backfillOnly)
    ensures OnlyBlanksFilled(Origin(cache, id), Reconciled(cache, paired, backfillOnly)[id])
  {
    ReconcileAllAt(cache, paired, backfillOnly);
    FillAllKeeps(Origin(cache, id), id, paired);
  }

  /** Every occurrence of device `p` in the list says the same as `p`. */
  predicate OnlyAs(paired: seq<Paired>, p: Paired) {
    forall q :: q in paired && q.handle == p.handle ==> q == p
  }

  /** A record with its blank fields taken from the platform's entry, and its name
      from the handle where the platform has none. */
  function Completed(info: Info, p: Paired): Info {
    Info(
      if info.deviceAddr == "" then p.address else info.deviceAddr,
      if info.deviceType == "" || info.deviceType == "UNKNOWN" then p.deviceType else info.deviceType,
      if info.friendlyName != "" then info.friendlyName else if p.name != "" then p.name else Decimal.Print(p.handle),
      info.lastVolumeSetting, info.autoConnect, info.lastConnectTimeUtc)
  }

  lemma {:induction false} FilledFrom(info: Info, paired: seq<Paired>, p: Paired)
    requires OnlyAs(paired, p)
    ensures FillAll(info, Decimal.Print(p.handle), paired) == if p in paired then Completed(info, p) else info
  {
    if paired != [] {
      var front, q := paired[..|paired| - 1], paired[|paired| - 1];
      assert paired == front + [q];
      FilledFrom(info, front, p);
      if q.Id() == Decimal.Print(p.handle) {
        Decimal.PrintInjective(q.handle, p.handle);
        assert q in paired && q == p;
      }
    }
  }

  lemma IdPaired(paired: seq<Paired>, p: Paired)
    requires p in paired
    ensures Decimal.Print(p.handle) in PairedIds(paired)
  {
    assert p.Id() in PairedIds(paired);
  }

  /** What reconciliation makes of each paired device: a cached one gets its blank
      name, address and type from the platform and keeps the rest; one that is not
      cached is added with what the platform says and default settings, unless only
      backfilling. */
  lemma ReconciledEntry(cache: Cache, paired: seq<Paired>, backfillOnly: bool, p: Paired)
    requires p in paired && OnlyAs(paired, p)
    ensures var id, all := Decimal.Print(p.handle), Reconciled(cache, paired, backfillOnly);
      var name := if p.name != "" then p.name else id;
      && (id in all <==> id in cache || !backfillOnly)
      && (id in cache ==>
            && all[id].friendlyName == (if cache[id].friendlyName == "" then name else cache[id].friendlyName)
            && all[id].deviceAddr == (if cache[id].deviceAddr == "" then p.address else cache[id].deviceAddr)
            && all[id].deviceType
               == (if cache[id].deviceType == "" || cache[id].deviceType == "UNKNOWN" then p.deviceType else cache[id].deviceType)
            && all[id].lastVolumeSetting == cache[id].lastVolumeSetting
            && all[id].autoConnect == cache[id].autoConnect
            && all[id].lastConnectTimeUtc == cache[id].lastConnectTimeUtc)
      && (id !in cache && !backfillOnly ==> all[id] == Info(p.address, p.deviceType, name, 0, UNSET, ""))
  {
    var id := Decimal.Print(p.handle);
    IdPaired(paired, p);
    ReconcileAllAt(cache, paired, backfillOnly);
    FilledFrom(Origin(cache, id), paired, p);
  }

  // Idempotence, field by field: a field still blank after the pass is one the
  // list has nothing for.

  lemma {:induction false} FilledName(info: Info, id: string, paired: seq<Paired>)
    requires id in PairedIds(paired)
    ensures FillAll(info, id, paired).friendlyName != ""
  {
    var last := |paired| - 1;
    assert paired == paired[..last] + [paired[last]];
    PairedIdsAppended(paired[..last], paired[last]);
    if paired[last].Id() != id {
      FilledName(info, id, paired[..last]);
    }
  }

  lemma {:induction false} UnfilledAddress(info: Info, other: Info, id: string, paired: seq<Paired>)
    requires FillAll(info, id, paired).deviceAddr == ""
    ensures other.deviceAddr == "" ==> FillAll(other, id, paired).deviceAddr == ""
  {
    if paired != [] {
      UnfilledAddress(info, other, id, paired[..|paired| - 1]);
    }
  }

  /** If the type stays blank, every blank start ends in the same blank type. */
  lemma {:induction false} UnfilledType(info: Info, other: Info, id: string, paired: seq<Paired>)
    requires BlankType(FillAll(info, id, paired).deviceType) && BlankType(other.deviceType)
    ensures BlankType(FillAll(other, id, paired).deviceType)
    ensures id in PairedIds(paired) ==>
      FillAll(other, id, paired).deviceType == FillAll(info, id, paired).deviceType
  {
    if paired != [] {
      var last := |paired| - 1;
      assert paired == paired[..last] + [paired[last]];
      PairedIdsAppended(paired[..last], paired[last]);
      UnfilledType(info, other, id, paired[..last]);
    }
  }

  lemma FillAllTwice(info: Info, id: string, paired: seq<Paired>)
    ensures FillAll(FillAll(info, id, paired), id, paired) == FillAll(info, id, paired)
  {
    var once := FillAll(info, id, paired);
    FillAllKeeps(once, id, paired);
    if id !in PairedIds(paired) {
      NotPairedUnfilled(once, id, paired);
    } else {
      FilledName(info, id, paired);
      if once.deviceAddr == "" {
        UnfilledAddress(info, once, id, paired);
      }
      if BlankType(once.deviceType) {
        UnfilledType(info, once, id, paired);
      }
    }
  }

  /** Reconciling again with the same list, duplicates and blanks included, changes nothing. */
  lemma ReconciledTwice(cache: Cache, paired: seq<Paired>, backfillOnly: bool)
    ensures Reconciled(Reconciled(cache, paired, backfillOnly), paired, backfillOnly)
         == Reconciled(cache, paired, backfillOnly)
  {
    var once := Reconciled(cache, paired, backfillOnly);
    var twice := Reconciled(once, paired, backfillOnly);
    ReconciledDomain(cache, paired, backfillOnly);
    ReconciledDomain(once, paired, backfillOnly);
    ReconcileAllAt(cache, paired, backfillOnly);
    ReconcileAllAt(once, paired, backfillOnly);
    forall id | id in once ensures twice[id] == once[id] {
      FillAllTwice(Origin(cache, id), id, paired);
    }
  }

  // ---------- import by address ----------

  /** Address to id; a later occurrence of an address wins. */
  function AddressIndex(paired: seq<Paired>): map<string, string> {
    if paired == [] then map[]
    else
      var last := |paired| - 1;
      var index := AddressIndex(paired[..last]);
      if paired[last].address != "" then index[paired[last].address := paired[last].Id()] else index
  }

  /** The cache filled from the file's records in order; a later record of an id wins. */
  function ImportRecords(devices: seq<Info>, index: map<string, string>): Cache {
    if devices == [] then map[]
    else
      var last := |devices| - 1;
      var cache := ImportRecords(devices[..last], index);
      var info := devices[last];
      if info.deviceAddr in index then cache[index[info.deviceAddr] := info] else cache
  }

  /** The last occurrence of `address` in the paired list is device `id`. */
  ghost predicate MapsTo(paired: seq<Paired>, address: string, id: string) {
    && address != ""
    && exists i :: 0 <= i < |paired| && paired[i].address == address && paired[i].Id() == id
                   && forall j :: i < j < |paired| ==> paired[j].address != address
  }

  lemma MapsToAppended(paired: seq<Paired>, p: Paired, address: string, id: string)
    ensures MapsTo(paired + [p], address, id)
       <==> if p.address == address then address != "" && p.Id() == id else MapsTo(paired, address, id)
  {
    var all, n := paired + [p], |paired|;
    assert all[n] == p;
    if p.address != address {
      if MapsTo(paired, address, id) {
        var i :| 0 <= i < n && paired[i].address == address && paired[i].Id() == id
                 && forall j :: i < j < n ==> paired[j].address != address;
        assert all[i] == paired[i];
        assert forall j :: i < j < n ==> all[j] == paired[j];
      }
      if MapsTo(all, address, id) {
        var i :| 0 <= i < |all| && all[i].address == address && all[i].Id() == id
                 && forall j :: i < j < |all| ==> all[j].address != address;
        assert paired[i] == all[i];
        assert forall j :: i < j < n ==> paired[j] == all[j];
      }
    }
  }

  /** The index loop maps each address by its last occurrence in the list. */
  lemma {:induction false} AddressIndexIsLast(paired: seq<Paired>, address: string, id: string)
    ensures (address in AddressIndex(paired) && AddressIndex(paired)[address] == id) <==> MapsTo(paired, address, id)
  {
    if paired != [] {
      var last := |paired| - 1;
      AddressIndexIsLast(paired[..last], address, id);
      MapsToAppended(paired[..last], paired[last], address, id);
      assert paired == paired[..last] + [paired[last]];
    }
  }

  /** Record `k` is the last one whose address belongs to device `id`. */
  ghost predicate LastRecordOf(devices: seq<Info>, paired: seq<Paired>, id: string, k: int) {
    && 0 <= k < |devices| && MapsTo(paired, devices[k].deviceAddr, id)
    && forall j :: k < j < |devices| ==> !MapsTo(paired, devices[j].deviceAddr, id)
  }

  /** `cache` holds, for each id, the last file record whose address is that id's. */
  ghost predicate LastMatchWins(devices: seq<Info>, paired: seq<Paired>, cache: Cache) {
    && (forall id :: id in cache ==> exists k :: LastRecordOf(devices, paired, id, k) && cache[id] == devices[k])
    && (forall id, k :: LastRecordOf(devices, paired, id, k) ==> id in cache)
  }

  lemma LastMatchAppended(devices: seq<Info>, info: Info, paired: seq<Paired>, cache: Cache)
    requires LastMatchWins(devices, paired, cache)
    ensures LastMatchWins(devices + [info], paired,
              if info.deviceAddr in AddressIndex(paired) then cache[AddressIndex(paired)[info.deviceAddr] := info] else cache)
  {
    var all, n, index := devices + [info], |devices|, AddressIndex(paired);
    var after := if info.deviceAddr in index then cache[index[info.deviceAddr] := info] else cache;
    forall id ensures MapsTo(paired, info.deviceAddr, id) <==> info.deviceAddr in index && index[info.deviceAddr] == id {
      AddressIndexIsLast(paired, info.deviceAddr, id);
    }
    forall id | id in after ensures exists k :: LastRecordOf(all, paired, id, k) && after[id] == all[k] {
      if MapsTo(paired, info.deviceAddr, id) {
        assert LastRecordOf(all, paired, id, n);
      } else {
        var k :| LastRecordOf(devices, paired, id, k) && cache[id] == devices[k];
        assert LastRecordOf(all, paired, id, k);
      }
    }
    forall id, k | LastRecordOf(all, paired, id, k) ensures id in after {
      if !MapsTo(paired, info.deviceAddr, id) {
        assert all[n] == info && k < n;
        assert forall j :: k < j < n ==> all[j] == devices[j];
        assert LastRecordOf(devices, paired, id, k);
      }
    }
  }

  /** The two import loops compute "last match wins". */
  lemma {:induction false} ImportIsLastMatch(devices: seq<Info>, paired: seq<Paired>)
    ensures LastMatchWins(devices, paired, ImportRecords(devices, AddressIndex(paired)))
  {
    if devices != [] {
      var last := |devices| - 1;
      ImportIsLastMatch(devices[..last], paired);
      LastMatchAppended(devices[..last], devices[last], paired, ImportRecords(devices[..last], AddressIndex(paired)));
      assert devices == devices[..last] + [devices[last]];
    }
  }

  /** "Last match wins" leaves no freedom: it determines the cache. */
  lemma LastMatchUnique(devices: seq<Info>, paired: seq<Paired>, a: Cache, b: Cache)
    requires LastMatchWins(devices, paired, a) && LastMatchWins(devices, paired, b)
    ensures a == b
  {
    forall id ensures (id in a <==> id in b) && (id in a && id in b ==> a[id] == b[id]) {
      if id in a {
        var k :| LastRecordOf(devices, paired, id, k) && a[id] == devices[k];
        assert id in b;
        var l :| LastRecordOf(devices, paired, id, l) && b[id] == devices[l];
        assert k == l;
      }
    }
    assert a.Keys == b.Keys;
  }

  predicate AddressesKnownAndDistinct(cache: Cache) {
    && (forall id :: id in cache ==> cache[id].deviceAddr != "")
    && (forall i, j :: i in cache && j in cache && i != j ==> cache[i].deviceAddr != cache[j].deviceAddr)
  }

  /** Every entry's address is, in the paired list, that of its own device. */
  ghost predicate AtOwnIds(cache: Cache, paired: seq<Paired>) {
    forall id :: id in cache ==> MapsTo(paired, cache[id].deviceAddr, id)
  }

  lemma {:induction false} ImportedAtOwnId(devices: seq<Info>, paired: seq<Paired>)
    ensures AtOwnIds(ImportRecords(devices, AddressIndex(paired)), paired)
  {
    if devices != [] {
      var last := |devices| - 1;
      var index, info := AddressIndex(paired), devices[last];
      ImportedAtOwnId(devices[..last], paired);
      var before := ImportRecords(devices[..last], index);
      if info.deviceAddr in index {
        AddressIndexIsLast(paired, info.deviceAddr, index[info.deviceAddr]);
        var after := before[index[info.deviceAddr] := info];
        forall id | id in after ensures MapsTo(paired, after[id].deviceAddr, id) {
          if id == index[info.deviceAddr] {
            assert after[id] == info;
          } else {
            assert after[id] == before[id];
          }
        }
        assert ImportRecords(devices, index) == after;
      } else {
        assert ImportRecords(devices, index) == before;
      }
    }
  }

  /** The cache of a completed import: empty without content, else the parsed
      records matched by address and enriched; None when it must fail. */
  function Imported(text: Text, file: Option<string>, paired: seq<Paired>): Option<Cache> {
    if file.None? || file.value == "" then Some(map[])
    else if |file.value| > MAX_PAYLOAD_BYTES then None
    else
      match Parsed(text, file.value)
      case None => None
      case Some(devices) => Some(Reconciled(ImportRecords(devices, AddressIndex(paired)), paired, true))
  }

  /** Whatever the file and the list contain, imported entries have known,
      pairwise distinct addresses, each that of its own device. */
  lemma ImportedAddresses(text: Text, file: Option<string>, paired: seq<Paired>)
    requires Imported(text, file, paired).Some?
    ensures AddressesKnownAndDistinct(Imported(text, file, paired).value)
    ensures AtOwnIds(Imported(text, file, paired).value, paired)
  {
    var result := Imported(text, file, paired).value;
    if file.Some? && file.value != "" {
      var devices := Parsed(text, file.value).value;
      var cache := ImportRecords(devices, AddressIndex(paired));
      ImportedAtOwnId(devices, paired);
      ReconciledDomain(cache, paired, true);
      forall id | id in result
        ensures MapsTo(paired, result[id].deviceAddr, id)
      {
        ReconciledKeeps(cache, paired, true, id);
        assert id in cache && MapsTo(paired, cache[id].deviceAddr, id);
      }
      forall i, j | i in result && j in result && result[i].deviceAddr == result[j].deviceAddr ensures i == j {
        AddressIndexIsLast(paired, result[i].deviceAddr, i);
        AddressIndexIsLast(paired, result[j].deviceAddr, j);
      }
    }
  }
}
