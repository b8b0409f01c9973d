/** Addresses after a restart. A migrated start knows none; from then on exactly
    the devices added since have one, and only those reach the AS file. */
module Addresses {
  import opened Prelude
  import opened Json
  import opened Devices
  import opened StoreCodec
  import opened PersistenceAdapter
  import opened MirrorLaws
  import opened Reconcile
  import opened ManagerSpec
  import opened Rollback
  import Decimal

  /** The operation caches the platform's answer under `id`. */
  predicate Adds(op: Op, id: string) {
    op.Change? && op.m.Add? && op.m.id == id && Decimal.Stoll(id).Some? && op.m.device.Some?
  }

  predicate Drops(op: Op, id: string) {
    op == Change(Remove(id))
  }

  /** Operation `k` is the last one up to `n` to add `id`, and none removed it since. */
  predicate LastAdd(ops: seq<Op>, id: string, k: int, n: nat)
    requires n <= |ops|
  {
    && 0 <= k < n && Adds(ops[k], id)
    && forall j :: k < j < n ==> !Adds(ops[j], id) && !Drops(ops[j], id)
  }

  /** ... and the platform had this address for it. */
  predicate AddedWith(ops: seq<Op>, id: string, k: int, n: nat, address: string)
    requires n <= |ops|
  {
    LastAdd(ops, id, k, n) && ops[k].m.device.value.address == address
  }

  predicate HasAddress(cache: Cache, id: string, address: string) {
    address != "" && id in cache && cache[id].deviceAddr == address
  }

  /** Since a migrated start: neither a clear nor anything unmigrated. */
  ghost predicate SinceStart(text: Text, ops: seq<Op>, views: seq<View>, results: seq<Hresult>) {
    && IsRun(text, ops, views, results)
    && views[0].isMigrated && Marked(views[0].store) && NoAddressesOrNames(views[0].cache)
    && forall k :: 0 <= k < |ops| ==> !ops[k].Clear?
  }

  lemma AddressStep(text: Text, op: Op, v: View, w: View, r: Hresult, id: string, address: string)
    requires Stepped(text, op, v, w, r) && !op.Clear? && v.isMigrated && Marked(v.store)
    ensures w.isMigrated && Marked(w.store)
    ensures HasAddress(w.cache, id, address)
       <==> if Adds(op, id) then address != "" && op.m.device.value.address == address
            else !Drops(op, id) && HasAddress(v.cache, id, address)
  {
    if op.Change? && MutationError(v.cache, op.m) == ErrorNone {
      assert w.cache == Mutate(v.cache, op.m);
    }
  }

  lemma LastAddStep(ops: seq<Op>, id: string, m: nat, n: nat, address: string)
    requires n == m + 1 <= |ops|
    ensures (exists k :: AddedWith(ops, id, k, n, address))
       <==> if Adds(ops[m], id) then ops[m].m.device.value.address == address
            else !Drops(ops[m], id) && exists k :: AddedWith(ops, id, k, m, address)
  {
    if Adds(ops[m], id) {
      assert LastAdd(ops, id, m, n);
      assert ops[m].m.device.value.address == address ==> AddedWith(ops, id, m, n, address);
      assert forall k :: LastAdd(ops, id, k, n) ==> k == m;
    } else if k :| AddedWith(ops, id, k, n, address) {
      assert AddedWith(ops, id, k, m, address);
    } else if k :| AddedWith(ops, id, k, m, address) {
      assert !Drops(ops[m], id) ==> AddedWith(ops, id, k, n, address);
    }
  }

  /** After a migrated start, a cached device has an address exactly when it was
      added since, with that address, and not removed again. */
  lemma {:induction false} AddressKnownIff(text: Text, ops: seq<Op>, views: seq<View>, results: seq<Hresult>,
                                           id: string, address: string, n: nat)
    requires SinceStart(text, ops, views, results) && n <= |ops|
    ensures views[n].isMigrated && Marked(views[n].store)
    ensures HasAddress(views[n].cache, id, address)
       <==> address != "" && exists k :: AddedWith(ops, id, k, n, address)
  {
    if n > 0 {
      AddressKnownIff(text, ops, views, results, id, address, n - 1);
      assert Stepped(text, ops[n - 1], views[n - 1], views[n - 1 + 1], results[n - 1]);
      AddressStep(text, ops[n - 1], views[n - 1], views[n], results[n - 1], id, address);
      LastAddStep(ops, id, n - 1, n, address);
    }
  }

  /** The cached device is mirrored and was added since the start with `address`. */
  predicate AddedAndMirrored(cache: Cache, ops: seq<Op>, id: string, k: int, address: string) {
    && id in cache && cache[id].deviceType != HUMAN_INTERFACE_DEVICE
    && AddedWith(ops, id, k, |ops|, address)
  }

  lemma MirroredAddresses(text: Text, before: Option<string>, cache: Cache, after: Option<string>) returns (entries: seq<Value>)
    requires text.Inverse() && MirroredOver(text, before, cache, after) && |WithoutHid(cache)| < ARRAY_LENGTH_LIMIT
    ensures after.Some? && PairedEntries(text, after.value) == Some(entries)
    ensures forall address :: AddressesOf(text, entries)[address]
                              == if address == "" then 0 else |At(WithoutHid(cache), address)|
  {
    var kept := WithoutHid(cache);
    var order :| Enumerates(order, kept.Keys) && after == Some(MirrorText(text, before, kept, order));
    var existing := ExistingEntries(text, before);
    entries := MirrorEntries(existing, kept, order);
    MirrorLength(existing, kept, order);
    EnumerationLength(order, kept.Keys);
    assert |kept.Keys| == |kept|;
    EntriesOfDocument(text, entries);
    forall address ensures AddressesOf(text, entries)[address] == if address == "" then 0 else |At(kept, address)| {
      MirrorAddresses(text, existing, kept, order, address);
    }
  }

  /** After a migrated start, a mutation whose calls all work leaves in the AS file
      exactly the addresses of the devices added since and not removed, remote
      controls apart; every other device is gone from it. */
  lemma MirrorHoldsOnlyAdded(text: Text, ops: seq<Op>, views: seq<View>, results: seq<Hresult>) returns (entries: seq<Value>)
    requires text.Inverse() && SinceStart(text, ops, views, results)
    requires var n := |ops|;
      && n > 0 && ops[n - 1].Change? && results[n - 1] == ErrorNone
      && Delivered(text, ops[n - 1].m, views[n - 1], views[n], ErrorNone)
      && |WithoutHid(views[n].cache)| < ARRAY_LENGTH_LIMIT
    ensures views[|ops|].file.Some? && PairedEntries(text, views[|ops|].file.value) == Some(entries)
    ensures forall address :: address in AddressesOf(text, entries) <==>
      address != "" && exists id, k :: AddedAndMirrored(views[|ops|].cache, ops, id, k, address)
  {
    var n := |ops|;
    var cache := views[n].cache;
    LastIsMirrored(text, ops, views, results);
    entries := MirroredAddresses(text, views[n - 1].file, cache, views[n].file);
    forall address | address != ""
      ensures At(WithoutHid(cache), address) != {} <==> exists id, k :: AddedAndMirrored(cache, ops, id, k, address)
    {
      AddedAtAddress(text, ops, views, results, address);
    }
  }

  lemma AddedAtAddress(text: Text, ops: seq<Op>, views: seq<View>, results: seq<Hresult>, address: string)
    requires SinceStart(text, ops, views, results) && address != ""
    ensures At(WithoutHid(views[|ops|].cache), address) != {}
       <==> exists id, k :: AddedAndMirrored(views[|ops|].cache, ops, id, k, address)
  {
    var cache := views[|ops|].cache;
    if id :| id in At(WithoutHid(cache), address) {
      AddressKnownIff(text, ops, views, results, id, address, |ops|);
      assert HasAddress(cache, id, address);
      var k :| AddedWith(ops, id, k, |ops|, address);
      assert AddedAndMirrored(cache, ops, id, k, address);
    }
    if id, k :| AddedAndMirrored(cache, ops, id, k, address) {
      AddressKnownIff(text, ops, views, results, id, address, |ops|);
      assert id in At(WithoutHid(cache), address);
    }
  }

  /** ... and a clear and a new migration from there bring back those devices only. */
  lemma OnlyAddedComeBack(text: Text, ops: seq<Op>, views: seq<View>, results: seq<Hresult>,
                          paired: seq<Paired>, cleared: View, migrated: View)
    requires text.Inverse() && SinceStart(text, ops, views, results)
    requires var n := |ops|;
      && n > 0 && ops[n - 1].Change? && results[n - 1] == ErrorNone
      && Delivered(text, ops[n - 1].m, views[n - 1], views[n], ErrorNone)
      && |WithoutHid(views[n].cache)| < ARRAY_LENGTH_LIMIT && SamePairing(WithoutHid(views[n].cache), paired)
      && views[n].file.Some? && |views[n].file.value| <= MAX_PAYLOAD_BYTES
    requires Cleared(views[|ops|], cleared, ErrorNone)
    requires Performed(text, paired, cleared, migrated, ErrorNone)
    ensures forall id :: id in migrated.cache <==>
      exists k, address :: address != "" && AddedAndMirrored(views[|ops|].cache, ops, id, k, address)
  {
    var n := |ops|;
    LastIsMirrored(text, ops, views, results);
    MirroredComeBack(text, paired, views[n - 1].file, views[n], cleared, migrated);
    forall id ensures id in migrated.cache <==>
      exists k, address :: address != "" && AddedAndMirrored(views[n].cache, ops, id, k, address)
    {
      AddedHasAddress(text, ops, views, results, id);
    }
  }

  lemma LastIsMirrored(text: Text, ops: seq<Op>, views: seq<View>, results: seq<Hresult>)
    requires SinceStart(text, ops, views, results)
    requires var n := |ops|;
      n > 0 && ops[n - 1].Change? && results[n - 1] == ErrorNone
      && Delivered(text, ops[n - 1].m, views[n - 1], views[n], ErrorNone)
    ensures MirroredOver(text, views[|ops| - 1].file, views[|ops|].cache, views[|ops|].file)
  {
    var n := |ops|;
    AddressKnownIff(text, ops, views, results, "", "", n - 1);
    assert Stepped(text, ops[n - 1], views[n - 1], views[n - 1 + 1], results[n - 1]);
    assert views[n].cache == Mutate(views[n - 1].cache, ops[n - 1].m);
  }

  lemma AddedHasAddress(text: Text, ops: seq<Op>, views: seq<View>, results: seq<Hresult>, id: string)
    requires SinceStart(text, ops, views, results)
    ensures var cache := views[|ops|].cache;
      (id in cache && cache[id].deviceType != HUMAN_INTERFACE_DEVICE && cache[id].deviceAddr != "")
      <==> exists k, address :: address != "" && AddedAndMirrored(cache, ops, id, k, address)
  {
    var cache := views[|ops|].cache;
    if id in cache && cache[id].deviceAddr != "" {
      var address := cache[id].deviceAddr;
      AddressKnownIff(text, ops, views, results, id, address, |ops|);
      var k :| AddedWith(ops, id, k, |ops|, address);
      assert cache[id].deviceType != HUMAN_INTERFACE_DEVICE ==> AddedAndMirrored(cache, ops, id, k, address);
    }
    if k, address :| address != "" && AddedAndMirrored(cache, ops, id, k, address) {
      AddressKnownIff(text, ops, views, results, id, address, |ops|);
    }
  }

  /** What a migrated start loads has neither addresses nor names. */
  lemma StartKnowsNoAddress(text: Text, store: StoreValues, file: Option<string>, w: View, markerRead: bool, r: Hresult)
    requires Initialised(text, View(map[], false, store, file), w, markerRead, r)
    ensures NoAddressesOrNames(w.cache)
  {
    if DeviceInfo in store {
      LoadedHasNoAddresses(text, StoredRecords(text, store[DeviceInfo]));
    }
  }
}
