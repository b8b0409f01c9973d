/** The rollback path end to end: a cache mirrored to the AS file and imported
    again comes back, up to a stated normalisation. */
module Rollback {
  import opened Prelude
  import opened Json
  import opened Devices
  import opened PersistenceAdapter
  import opened MirrorLaws
  import opened Reconcile
  import opened ManagerSpec

  /** The platform still pairs every mirrored address with the id it has in the cache. */
  ghost predicate SamePairing(cache: Cache, paired: seq<Paired>) {
    forall id :: id in cache && cache[id].deviceAddr != "" ==> MapsTo(paired, cache[id].deviceAddr, id)
  }

  /** What the mirrored entry of `info` reads back as. */
  function Echo(existing: map<string, Fields>, info: Info): Info {
    Normalised(PreviousEntry(existing, info.deviceAddr), info)
  }

  /** What a mirror of `cache` over `existing` reads back as: the entries with a
      known address, normalised. */
  function ReadBack(existing: map<string, Fields>, cache: Cache): Cache {
    map id | id in cache && cache[id].deviceAddr != "" :: Echo(existing, cache[id])
  }

  /** ... and, after enrichment, with types the file did not know. */
  function Recovered(existing: map<string, Fields>, cache: Cache, paired: seq<Paired>): Cache {
    map id | id in cache && cache[id].deviceAddr != "" ::
      FillAll(Echo(existing, cache[id]), id, paired)
  }

  function ReadBackIn(existing: map<string, Fields>, cache: Cache, ids: set<string>): Cache
    requires ids <= cache.Keys
  {
    map id | id in ids && cache[id].deviceAddr != "" :: Echo(existing, cache[id])
  }

  lemma ReadBackExtended(existing: map<string, Fields>, cache: Cache, ids: set<string>, id: string)
    requires ids + {id} <= cache.Keys
    ensures ReadBackIn(existing, cache, ids + {id})
         == if cache[id].deviceAddr == "" then ReadBackIn(existing, cache, ids)
            else ReadBackIn(existing, cache, ids)[id := Echo(existing, cache[id])]
  {
  }

  lemma {:induction false} ImportOfMirror(text: Text, existing: map<string, Fields>, cache: Cache, order: seq<string>,
                                          paired: seq<Paired>)
    requires Covers(cache, order) && SamePairing(cache, paired)
    ensures ImportRecords(ParseEntries(text, MirrorEntries(existing, cache, order)), AddressIndex(paired))
         == ReadBackIn(existing, cache, Elements(order))
  {
    if order != [] {
      var n := |order| - 1;
      var id, front := order[n], order[..n];
      assert order == front + [id];
      ElementsExtended(front, id);
      ReadBackExtended(existing, cache, Elements(front), id);
      ImportOfMirror(text, existing, cache, front, paired);
      if cache[id].deviceAddr != "" {
        ImportOfMergedEntry(text, PreviousEntry(existing, cache[id].deviceAddr), cache[id],
                            MirrorEntries(existing, cache, front), id, paired);
      }
    }
  }

  lemma ImportOfMergedEntry(text: Text, previous: Fields, info: Info, entries: seq<Value>, id: string,
                            paired: seq<Paired>)
    requires MapsTo(paired, info.deviceAddr, id)
    ensures ImportRecords(ParseEntries(text, entries + [Obj(MergeEntry(previous, info))]), AddressIndex(paired))
         == ImportRecords(ParseEntries(text, entries), AddressIndex(paired))[id := Normalised(previous, info)]
  {
    ParseAppended(text, entries, MergeEntry(previous, info));
    EntryRoundTrip(text, previous, info);
    AddressIndexIsLast(paired, info.deviceAddr, id);
    ImportAppended(ParseEntries(text, entries), Normalised(previous, info), AddressIndex(paired));
  }

  lemma ParseAppended(text: Text, entries: seq<Value>, entry: Fields)
    ensures ParseEntries(text, entries + [Obj(entry)]) == ParseEntries(text, entries) + [ParseEntry(text, entry)]
  {
    assert (entries + [Obj(entry)])[..|entries|] == entries;
  }

  lemma ImportAppended(devices: seq<Info>, info: Info, index: map<string, string>)
    requires info.deviceAddr in index
    ensures ImportRecords(devices + [info], index) == ImportRecords(devices, index)[index[info.deviceAddr] := info]
  {
    assert (devices + [info])[..|devices|] == devices;
  }

  lemma EnrichedReadBack(existing: map<string, Fields>, cache: Cache, paired: seq<Paired>)
    ensures Reconciled(ReadBack(existing, cache), paired, true) == Recovered(existing, cache, paired)
  {
    ReconcileAllAt(ReadBack(existing, cache), paired, true);
  }

  /** Import after mirroring yields exactly the mirrored entries with a known
      address, each normalised and enriched. */
  lemma RollbackRoundTrip(text: Text, previous: Option<string>, cache: Cache, order: seq<string>, paired: seq<Paired>)
    requires text.Inverse() && Enumerates(order, cache.Keys) && |cache| < ARRAY_LENGTH_LIMIT
    requires |MirrorText(text, previous, cache, order)| <= MAX_PAYLOAD_BYTES
    requires SamePairing(cache, paired)
    ensures Imported(text, Some(MirrorText(text, previous, cache, order)), paired)
         == Some(Recovered(ExistingEntries(text, previous), cache, paired))
  {
    var existing := ExistingEntries(text, previous);
    var file := MirrorText(text, previous, cache, order);
    MappingOfMirror(text, previous, cache, order);
    ImportOfMirror(text, existing, cache, order, paired);
    assert Elements(order) == cache.Keys;
    assert ReadBack(existing, cache) == ReadBackIn(existing, cache, cache.Keys);
    EnrichedReadBack(existing, cache, paired);
    assert file != "";
  }

  /** What survives the round trip for one device: everything but a blank type,
      which the platform supplies, a blank name, which becomes the address, an
      UNSET status, which becomes the file's boolean or DISABLED, and the spelling
      of the timestamp, which becomes canonical or the file's or 0. */
  lemma RecoveredEntry(existing: map<string, Fields>, cache: Cache, paired: seq<Paired>, id: string)
    requires id in cache && cache[id].deviceAddr != ""
    ensures var was, now := cache[id], Recovered(existing, cache, paired)[id];
      && now.deviceAddr == was.deviceAddr
      && now.lastVolumeSetting == was.lastVolumeSetting
      && now.friendlyName == (if was.friendlyName != "" then was.friendlyName else was.deviceAddr)
      && (!BlankType(was.deviceType) ==> now.deviceType == was.deviceType)
      && (was.autoConnect in {ENABLED, DISABLED} ==> now.autoConnect == was.autoConnect)
      && (was.autoConnect == UNSET ==>
            var kept := BooleanAt(PreviousEntry(existing, was.deviceAddr), AutoConnectStatus) == Some(true);
            now.autoConnect == if kept then ENABLED else DISABLED)
      && (was.autoConnect !in {ENABLED, DISABLED, UNSET} ==> now.autoConnect == DISABLED)
      && Decimal.Canonical(now.lastConnectTimeUtc)
      && Decimal.TryParseInt64(now.lastConnectTimeUtc)
         == (if TimeOf(was).Some? then TimeOf(was)
             else Some(NumericAt(PreviousEntry(existing, was.deviceAddr), LastConnectionTimeUTC).GetOr(0)))
  {
    var previous := PreviousEntry(existing, cache[id].deviceAddr);
    FillAllKeeps(Normalised(previous, cache[id]), id, paired);
    var time := MergedTime(previous, cache[id]);
    Decimal.ParsePrint(time);
    Decimal.ReprintIsCanonical(Decimal.Print(time), time);
  }

  lemma {:induction false} TypeFilledFrom(info: Info, id: string, paired: seq<Paired>, deviceType: string)
    requires BlankType(info.deviceType)
    requires forall p :: p in paired && p.Id() == id ==> p.deviceType == deviceType
    ensures FillAll(info, id, paired).deviceType == if id in PairedIds(paired) then deviceType else info.deviceType
  {
    if paired != [] {
      var last := |paired| - 1;
      assert paired == paired[..last] + [paired[last]];
      PairedIdsAppended(paired[..last], paired[last]);
      TypeFilledFrom(info, id, paired[..last], deviceType);
    }
  }

  /** A type the file did not know comes back as the platform's. */
  lemma RecoveredType(existing: map<string, Fields>, cache: Cache, paired: seq<Paired>, id: string, deviceType: string)
    requires id in cache && cache[id].deviceAddr != "" && BlankType(cache[id].deviceType)
    requires id in PairedIds(paired) && forall p :: p in paired && p.Id() == id ==> p.deviceType == deviceType
    ensures Recovered(existing, cache, paired)[id].deviceType == deviceType
  {
    TypeFilledFrom(Normalised(PreviousEntry(existing, cache[id].deviceAddr), cache[id]), id, paired, deviceType);
  }

  /** The rollback scenario of the real operations: a storage write that mirrored
      the cache, a clear, and a fresh migration. */
  lemma RollbackRun(text: Text, paired: seq<Paired>, order: seq<string>, previous: Option<string>,
                    mirrored: View, cleared: View, migrated: View)
    requires text.Inverse()
    requires var kept := WithoutHid(mirrored.cache);
      && Enumerates(order, kept.Keys) && |kept| < ARRAY_LENGTH_LIMIT && SamePairing(kept, paired)
      && mirrored.file == Some(MirrorText(text, previous, kept, order))
      && |mirrored.file.value| <= MAX_PAYLOAD_BYTES
    requires Cleared(mirrored, cleared, ErrorNone)
    requires Performed(text, paired, cleared, migrated, ErrorNone)
    ensures migrated.isMigrated && migrated.file == mirrored.file
    ensures migrated.cache == Recovered(ExistingEntries(text, previous), WithoutHid(mirrored.cache), paired)
    ensures migrated.cache.Keys == set id | id in mirrored.cache
                                            && mirrored.cache[id].deviceType != HUMAN_INTERFACE_DEVICE
                                            && mirrored.cache[id].deviceAddr != ""
  {
    RollbackRoundTrip(text, previous, WithoutHid(mirrored.cache), order, paired);
    assert !Marked(cleared.store);
  }

  /** ... whatever the order of the mirror write and the file it found. */
  lemma MirroredComeBack(text: Text, paired: seq<Paired>, before: Option<string>, mirrored: View, cleared: View, migrated: View)
    requires text.Inverse() && MirroredOver(text, before, mirrored.cache, mirrored.file)
    requires var kept := WithoutHid(mirrored.cache);
      |kept| < ARRAY_LENGTH_LIMIT && SamePairing(kept, paired)
    requires mirrored.file.Some? && |mirrored.file.value| <= MAX_PAYLOAD_BYTES
    requires Cleared(mirrored, cleared, ErrorNone)
    requires Performed(text, paired, cleared, migrated, ErrorNone)
    ensures forall id :: id in migrated.cache <==>
      && id in mirrored.cache && mirrored.cache[id].deviceType != HUMAN_INTERFACE_DEVICE
      && mirrored.cache[id].deviceAddr != ""
  {
    var kept := WithoutHid(mirrored.cache);
    var order :| Enumerates(order, kept.Keys) && mirrored.file == Some(MirrorText(text, before, kept, order));
    RollbackRun(text, paired, order, before, mirrored, cleared, migrated);
  }
}
