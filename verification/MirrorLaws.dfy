/** What the AS file holds after a mirror write: schema, addresses, idempotence,
    and what an import reads back. */
module MirrorLaws {
  import opened Prelude
  import opened Json
  import opened Devices
  import opened Decimal
  import opened PersistenceAdapter

  // ---------- one entry ----------

  const SCHEMA_LABELS: set<Label> :=
    {DeviceAddr, FriendlyName, DeviceType, LastVolumeSetting, AutoConnectStatus, LastConnectionTimeUTC}

  /** The required fields with the types of `paired_bluetooth_devices.schema.json`. */
  predicate WellTyped(entry: Fields) {
    && SCHEMA_LABELS <= entry.Keys
    && entry[DeviceAddr].Str? && entry[FriendlyName].Str? && entry[DeviceType].Str?
    && entry[LastVolumeSetting].Num? && entry[AutoConnectStatus].Bool? && entry[LastConnectionTimeUTC].Num?
  }

  predicate KeepsUnknownFields(entry: Fields, previous: Fields) {
    && entry.Keys == previous.Keys + SCHEMA_LABELS
    && forall l :: l in previous && l !in SCHEMA_LABELS ==> entry[l] == previous[l]
  }

  lemma EntryValid(previous: Fields, info: Info)
    ensures WellTyped(MergeEntry(previous, info))
    ensures KeepsUnknownFields(MergeEntry(previous, info), previous)
    ensures MergeEntry(previous, info)[DeviceAddr] == Str(info.deviceAddr)
  {
  }

  /** The record an import reads where the cache held `info` and the file
      previously held `previous` for that address. */
  function Normalised(previous: Fields, info: Info): Info {
    Info(
      info.deviceAddr,
      if info.deviceType != "" then info.deviceType else UNKNOWN,
      if info.friendlyName != "" then info.friendlyName else info.deviceAddr,
      info.lastVolumeSetting,
      if MergedStatus(previous, info) then ENABLED else DISABLED,
      Print(MergedTime(previous, info)))
  }

  lemma EntryRoundTrip(text: Text, previous: Fields, info: Info)
    ensures ParseEntry(text, MergeEntry(previous, info)) == Normalised(previous, info)
  {
    var entry := MergeEntry(previous, info);
    assert NumericAt(entry, LastConnectionTimeUTC) == Some(MergedTime(previous, info));
    assert NumericAt(entry, LastVolumeSetting) == Some(info.lastVolumeSetting);
    assert BooleanAt(entry, AutoConnectStatus) == Some(MergedStatus(previous, info));
  }

  /** An UNSET status and an unparsable timestamp take over what is in the file,
      so merging the same record again changes nothing. */
  lemma EntryIdempotent(previous: Fields, info: Info)
    ensures MergeEntry(MergeEntry(previous, info), info) == MergeEntry(previous, info)
  {
    var entry := MergeEntry(previous, info);
    assert NumericAt(entry, LastConnectionTimeUTC) == Some(MergedTime(previous, info));
    assert BooleanAt(entry, AutoConnectStatus) == Some(MergedStatus(previous, info));
    assert MergedTime(entry, info) == MergedTime(previous, info);
    assert MergedStatus(entry, info) == MergedStatus(previous, info);
  }

  // ---------- the whole file ----------

  predicate Covers(cache: Cache, order: seq<string>) {
    forall id :: id in order ==> id in cache
  }

  /** Every emitted entry is a well-typed object that belongs to a cache entry of
      its address and keeps the unknown fields the file had for that address. */
  lemma {:induction false} MirrorIsValid(existing: map<string, Fields>, cache: Cache, order: seq<string>)
    requires Covers(cache, order)
    ensures forall k :: 0 <= k < |MirrorEntries(existing, cache, order)| ==>
      var entry := MirrorEntries(existing, cache, order)[k];
      && entry.Obj? && WellTyped(entry.fields)
      && entry.fields[DeviceAddr].s != ""
      && KeepsUnknownFields(entry.fields, PreviousEntry(existing, entry.fields[DeviceAddr].s))
  {
    if order != [] {
      var last := |order| - 1;
      var info := cache[order[last]];
      MirrorIsValid(existing, cache, order[..last]);
      EntryValid(PreviousEntry(existing, info.deviceAddr), info);
    }
  }

  lemma {:induction false} MirrorLength(existing: map<string, Fields>, cache: Cache, order: seq<string>)
    requires Covers(cache, order)
    ensures |MirrorEntries(existing, cache, order)| <= |order|
  {
    if order != [] {
      MirrorLength(existing, cache, order[..|order| - 1]);
    }
  }

  function AddressesOf(text: Text, entries: seq<Value>): multiset<string> {
    if entries == [] then multiset{}
    else
      var last := |entries| - 1;
      AddressesOf(text, entries[..last])
      + multiset{text.String(Get(text.Object(entries[last]), DeviceAddr))}
  }

  /** The ids of the entries with a given address. */
  function At(cache: Cache, address: string): set<string> {
    set id | id in cache && cache[id].deviceAddr == address
  }

  lemma AddressesOfAppended(text: Text, entries: seq<Value>, previous: Fields, info: Info)
    ensures AddressesOf(text, entries + [Obj(MergeEntry(previous, info))])
         == AddressesOf(text, entries) + multiset{info.deviceAddr}
  {
    var entry := Obj(MergeEntry(previous, info));
    EntryValid(previous, info);
    assert (entries + [entry])[..|entries|] == entries;
    assert text.String(Get(text.Object(entry), DeviceAddr)) == info.deviceAddr;
  }

  function AtIn(cache: Cache, order: seq<string>, address: string): set<string>
    requires Covers(cache, order)
  {
    set id | id in order && cache[id].deviceAddr == address
  }

  lemma AtInExtended(cache: Cache, front: seq<string>, id: string, address: string)
    requires Covers(cache, front + [id]) && id !in front
    ensures Covers(cache, front) && id in cache
    ensures |AtIn(cache, front + [id], address)|
         == |AtIn(cache, front, address)| + if cache[id].deviceAddr == address then 1 else 0
  {
    assert id in front + [id];
    assert forall i :: i in front ==> i in front + [id];
    assert AtIn(cache, front + [id], address)
        == if cache[id].deviceAddr == address then AtIn(cache, front, address) + {id} else AtIn(cache, front, address);
  }

  lemma {:induction false} MirrorAddressesOf(text: Text, existing: map<string, Fields>, cache: Cache,
                                             order: seq<string>, address: string)
    requires Covers(cache, order) && Distinct(order)
    ensures AddressesOf(text, MirrorEntries(existing, cache, order))[address]
         == if address == "" then 0 else |AtIn(cache, order, address)|
  {
    if order != [] {
      var last := |order| - 1;
      var id, front := order[last], order[..last];
      assert order == front + [id];
      MirrorAddressesOf(text, existing, cache, front, address);
      AtInExtended(cache, front, id, address);
      AddressesOfAppended(text, MirrorEntries(existing, cache, front),
                          PreviousEntry(existing, cache[id].deviceAddr), cache[id]);
    }
  }

  /** The addresses in the new file are, with multiplicity, exactly the known
      addresses of the mirrored cache entries. */
  lemma MirrorAddresses(text: Text, existing: map<string, Fields>, cache: Cache, order: seq<string>, address: string)
    requires Enumerates(order, cache.Keys)
    ensures AddressesOf(text, MirrorEntries(existing, cache, order))[address]
         == if address == "" then 0 else |At(cache, address)|
  {
    MirrorAddressesOf(text, existing, cache, order, address);
    assert AtIn(cache, order, address) == At(cache, address);
  }

  // ---------- the address-to-entry mapping ----------

  /** The last id in `order` whose entry has this (known) address. */
  function LastAt(cache: Cache, order: seq<string>, address: string): (last: Option<string>)
    requires Covers(cache, order)
    ensures last.Some? ==> last.value in order && cache[last.value].deviceAddr == address != ""
    ensures last.None? ==> address == "" || forall id :: id in order ==> cache[id].deviceAddr != address
  {
    if order == [] then None
    else
      var n := |order| - 1;
      assert order == order[..n] + [order[n]];
      if address != "" && cache[order[n]].deviceAddr == address then Some(order[n])
      else LastAt(cache, order[..n], address)
  }

  /** The mapping after a mirror write, given the mapping before it. */
  function Remirror(text: Text, existing: map<string, Fields>, cache: Cache, order: seq<string>): map<string, Fields>
    requires Covers(cache, order)
  {
    IndexByAddress(text, MirrorEntries(existing, cache, order))
  }

  lemma IndexAppended(text: Text, entries: seq<Value>, entry: Fields, address: string)
    requires DeviceAddr in entry && entry[DeviceAddr] == Str(address) && address != ""
    ensures IndexByAddress(text, entries + [Obj(entry)]) == IndexByAddress(text, entries)[address := entry]
  {
    assert (entries + [Obj(entry)])[..|entries|] == entries;
  }

  lemma RemirrorAppended(text: Text, existing: map<string, Fields>, cache: Cache, front: seq<string>, id: string)
    requires Covers(cache, front + [id])
    ensures Covers(cache, front) && id in cache
    ensures var address := cache[id].deviceAddr;
      Remirror(text, existing, cache, front + [id])
      == if address == "" then Remirror(text, existing, cache, front)
         else Remirror(text, existing, cache, front)[address := MergeEntry(PreviousEntry(existing, address), cache[id])]
  {
    var order, address := front + [id], cache[id].deviceAddr;
    assert order[..|front|] == front && order[|front|] == id;
    assert id in order && forall i :: i in front ==> i in order;
    if address != "" {
      var entry := MergeEntry(PreviousEntry(existing, address), cache[id]);
      EntryValid(PreviousEntry(existing, address), cache[id]);
      IndexAppended(text, MirrorEntries(existing, cache, front), entry, address);
    }
  }

  /** Each known address maps to the merge of its last cache entry over the
      file's previous entry of that address. */
  lemma {:induction false} RemirrorAt(text: Text, existing: map<string, Fields>, cache: Cache, order: seq<string>,
                                      address: string)
    requires Covers(cache, order)
    ensures address in Remirror(text, existing, cache, order) <==> LastAt(cache, order, address).Some?
    ensures address in Remirror(text, existing, cache, order) ==>
      Remirror(text, existing, cache, order)[address]
      == MergeEntry(PreviousEntry(existing, address), cache[LastAt(cache, order, address).value])
  {
    if order != [] {
      var front, id := order[..|order| - 1], order[|order| - 1];
      assert order == front + [id];
      RemirrorAppended(text, existing, cache, front, id);
      RemirrorAt(text, existing, cache, front, address);
    }
  }

  lemma EntriesOfDocument(text: Text, entries: seq<Value>)
    requires text.Inverse() && |entries| < ARRAY_LENGTH_LIMIT
    ensures PairedEntries(text, text.encode(Document(entries))) == Some(entries)
  {
    assert text.decode(text.encode(Document(entries))) == Some(Document(entries));
    AllVisible(entries);
  }

  /** The mapping read from a mirror file of at most 1 MiB is the mapping written. */
  lemma MappingOfMirror(text: Text, previous: Option<string>, cache: Cache, order: seq<string>)
    requires text.Inverse() && Enumerates(order, cache.Keys) && |cache| < ARRAY_LENGTH_LIMIT
    requires |MirrorText(text, previous, cache, order)| <= MAX_PAYLOAD_BYTES
    ensures PairedEntries(text, MirrorText(text, previous, cache, order))
         == Some(MirrorEntries(ExistingEntries(text, previous), cache, order))
    ensures ExistingEntries(text, Some(MirrorText(text, previous, cache, order)))
         == Remirror(text, ExistingEntries(text, previous), cache, order)
  {
    var entries := MirrorEntries(ExistingEntries(text, previous), cache, order);
    MirrorLength(ExistingEntries(text, previous), cache, order);
    EnumerationLength(order, cache.Keys);
    assert |entries| <= |cache.Keys| == |cache|;
    EntriesOfDocument(text, entries);
  }

  // ---------- idempotence ----------

  /** The status a record writes: None leaves the file's. */
  function StatusOf(info: Info): Option<bool> {
    if info.autoConnect == UNSET then None else Some(info.autoConnect == ENABLED)
  }

  function TimeOf(info: Info): Option<Int64> {
    if info.lastConnectTimeUtc == "" then None else TryParseInt64(info.lastConnectTimeUtc)
  }

  /** Two records of one address that write the same entry over any file. */
  predicate SameRendering(a: Info, b: Info) {
    && (if a.friendlyName != "" then a.friendlyName else a.deviceAddr)
       == (if b.friendlyName != "" then b.friendlyName else b.deviceAddr)
    && (if a.deviceType != "" then a.deviceType else UNKNOWN) == (if b.deviceType != "" then b.deviceType else UNKNOWN)
    && a.lastVolumeSetting == b.lastVolumeSetting
    && StatusOf(a) == StatusOf(b)
    && TimeOf(a) == TimeOf(b)
  }

  /** Records that share a known address agree on what they write. */
  predicate AddressesAgree(cache: Cache) {
    forall i, j :: i in cache && j in cache && cache[i].deviceAddr == cache[j].deviceAddr != ""
      ==> SameRendering(cache[i], cache[j])
  }

  predicate KnownAddressesDistinct(cache: Cache) {
    forall i, j :: i in cache && j in cache && i != j && cache[i].deviceAddr != ""
      ==> cache[i].deviceAddr != cache[j].deviceAddr
  }

  lemma SameRenderingMerges(previous: Fields, a: Info, b: Info)
    requires SameRendering(a, b) && a.deviceAddr == b.deviceAddr
    ensures MergeEntry(previous, a) == MergeEntry(previous, b)
  {
    assert MergedStatus(previous, a) == MergedStatus(previous, b);
    assert MergedTime(previous, a) == MergedTime(previous, b);
  }

  /** Mirroring the same cache again, iterated in any order and over the entries of
      any file, leaves the mapping as it is. */
  ghost predicate MirrorIdempotent(text: Text, cache: Cache) {
    forall entries: seq<Value>, first, second ::
      Enumerates(first, cache.Keys) && Enumerates(second, cache.Keys) ==>
        var once := Remirror(text, IndexByAddress(text, entries), cache, first);
        Remirror(text, once, cache, second) == once
  }

  lemma AgreeingMirrorsTwice(text: Text, existing: map<string, Fields>, cache: Cache,
                             first: seq<string>, second: seq<string>)
    requires AddressesAgree(cache) && Enumerates(first, cache.Keys) && Enumerates(second, cache.Keys)
    ensures Remirror(text, Remirror(text, existing, cache, first), cache, second)
         == Remirror(text, existing, cache, first)
  {
    var once := Remirror(text, existing, cache, first);
    var twice := Remirror(text, once, cache, second);
    forall address
      ensures address in twice <==> address in once
      ensures address in once ==> twice[address] == once[address]
    {
      RemirrorAt(text, existing, cache, first, address);
      RemirrorAt(text, once, cache, second, address);
      var i, j := LastAt(cache, first, address), LastAt(cache, second, address);
      assert i.Some? ==> i.value in cache.Keys && i.value in second;
      assert j.Some? ==> j.value in cache.Keys && j.value in first;
      if i.Some? {
        SameRenderingMerges(once[address], cache[j.value], cache[i.value]);
        EntryIdempotent(PreviousEntry(existing, address), cache[i.value]);
      }
    }
    assert twice.Keys == once.Keys;
  }

  /** A file content over which writing `a` and then `b` differs from writing `a`
      alone, or the same with the two exchanged. */
  lemma DisagreementShows(a: Info, b: Info) returns (previous: Fields, swap: bool)
    requires !SameRendering(a, b) && a.deviceAddr == b.deviceAddr
    ensures var x, y := if swap then b else a, if swap then a else b;
      MergeEntry(MergeEntry(previous, x), y) != MergeEntry(previous, x)
  {
    previous, swap := map[], false;
    if StatusOf(a) != StatusOf(b) {
      swap := StatusOf(b).None?;
      var x, y := if swap then b else a, if swap then a else b;
      previous := map[AutoConnectStatus := Bool(!StatusOf(y).value)];
      var entry := MergeEntry(previous, x);
      assert BooleanAt(previous, AutoConnectStatus) == Some(!StatusOf(y).value);
      assert MergeEntry(entry, y)[AutoConnectStatus] == Bool(StatusOf(y).value);
      assert entry[AutoConnectStatus] != Bool(StatusOf(y).value);
    } else if TimeOf(a) != TimeOf(b) {
      swap := TimeOf(b).None?;
      var x, y := if swap then b else a, if swap then a else b;
      var other: Int64 := if TimeOf(y).value == 0 then 1 else 0;
      previous := map[LastConnectionTimeUTC := Num(other)];
      var entry := MergeEntry(previous, x);
      assert NumericAt(previous, LastConnectionTimeUTC) == Some(other);
      assert MergeEntry(entry, y)[LastConnectionTimeUTC] == Num(TimeOf(y).value);
      assert entry[LastConnectionTimeUTC] != Num(TimeOf(y).value);
    } else {
      var entry := MergeEntry(previous, a);
      var again := MergeEntry(entry, b);
      assert again[FriendlyName] != entry[FriendlyName] || again[DeviceType] != entry[DeviceType]
        || again[LastVolumeSetting] != entry[LastVolumeSetting];
    }
  }

  lemma MergeSetsAddress(previous: Fields, info: Info)
    ensures MergeEntry(previous[DeviceAddr := Str(info.deviceAddr)], info) == MergeEntry(previous, info)
  {
    var addressed := previous[DeviceAddr := Str(info.deviceAddr)];
    MergeReadsOneLabel(addressed, previous, info);
  }

  /** A file with a single entry. */
  lemma SingleEntry(text: Text, entry: Fields, address: string)
    requires DeviceAddr in entry && entry[DeviceAddr] == Str(address) && address != ""
    ensures IndexByAddress(text, [Obj(entry)]) == map[address := entry]
  {
    assert [Obj(entry)][..0] == [];
  }

  lemma OrderEndingWith(cache: Cache, id: string) returns (order: seq<string>)
    requires id in cache
    ensures Enumerates(order, cache.Keys)
    ensures cache[id].deviceAddr != "" ==> LastAt(cache, order, cache[id].deviceAddr) == Some(id)
  {
    var rest := EnumerationExists(cache.Keys - {id});
    EnumerationExtended(rest, cache.Keys - {id}, id);
    assert cache.Keys - {id} + {id} == cache.Keys;
    order := rest + [id];
  }

  lemma DisagreeingMirrorsTwice(text: Text, cache: Cache, i: string, j: string)
    requires i in cache && j in cache && cache[i].deviceAddr == cache[j].deviceAddr != ""
    requires !SameRendering(cache[i], cache[j])
    ensures !MirrorIdempotent(text, cache)
  {
    var address := cache[i].deviceAddr;
    var previous, swap := DisagreementShows(cache[i], cache[j]);
    var x, y := if swap then j else i, if swap then i else j;
    var first := OrderEndingWith(cache, x);
    var second := OrderEndingWith(cache, y);
    var entry := previous[DeviceAddr := Str(address)];
    SingleEntry(text, entry, address);
    MergeSetsAddress(previous, cache[x]);
    var existing := IndexByAddress(text, [Obj(entry)]);
    var once := Remirror(text, existing, cache, first);
    RemirrorAt(text, existing, cache, first, address);
    RemirrorAt(text, once, cache, second, address);
    assert Remirror(text, once, cache, second)[address] != once[address];
  }

  /** Mirror writing is idempotent exactly for the caches whose entries agree
      wherever they share a known address. */
  lemma MirrorIdempotentIff(text: Text, cache: Cache)
    ensures MirrorIdempotent(text, cache) <==> AddressesAgree(cache)
  {
    if AddressesAgree(cache) {
      forall entries: seq<Value>, first, second | Enumerates(first, cache.Keys) && Enumerates(second, cache.Keys)
        ensures var once := Remirror(text, IndexByAddress(text, entries), cache, first);
          Remirror(text, once, cache, second) == once
      {
        AgreeingMirrorsTwice(text, IndexByAddress(text, entries), cache, first, second);
      }
    } else {
      var i, j :| i in cache && j in cache && cache[i].deviceAddr == cache[j].deviceAddr != ""
                  && !SameRendering(cache[i], cache[j]);
      DisagreeingMirrorsTwice(text, cache, i, j);
    }
  }

  lemma DistinctTextSettles(text: Text, previous: Option<string>, cache: Cache, order: seq<string>)
    requires text.Inverse() && KnownAddressesDistinct(cache)
    requires Enumerates(order, cache.Keys) && |cache| < ARRAY_LENGTH_LIMIT
    requires |MirrorText(text, previous, cache, order)| <= MAX_PAYLOAD_BYTES
    ensures MirrorText(text, Some(MirrorText(text, previous, cache, order)), cache, order)
         == MirrorText(text, previous, cache, order)
  {
    MappingOfMirror(text, previous, cache, order);
    var existing := ExistingEntries(text, previous);
    forall id | id in order && cache[id].deviceAddr != ""
      ensures var once := Remirror(text, existing, cache, order);
        MergeEntry(PreviousEntry(once, cache[id].deviceAddr), cache[id])
        == MergeEntry(PreviousEntry(existing, cache[id].deviceAddr), cache[id])
    {
      RemirrorAt(text, existing, cache, order, cache[id].deviceAddr);
      EntryIdempotent(PreviousEntry(existing, cache[id].deviceAddr), cache[id]);
    }
    SameEntries(existing, Remirror(text, existing, cache, order), cache, order);
  }

  /** Distinct known addresses are enough, and then the file itself settles: a
      second write in the same order produces the same text. */
  lemma DistinctMirrorSettles(text: Text, previous: Option<string>, cache: Cache, order: seq<string>)
    requires text.Inverse() && KnownAddressesDistinct(cache)
    requires Enumerates(order, cache.Keys) && |cache| < ARRAY_LENGTH_LIMIT
    requires |MirrorText(text, previous, cache, order)| <= MAX_PAYLOAD_BYTES
    ensures MirrorIdempotent(text, cache)
    ensures MirrorText(text, Some(MirrorText(text, previous, cache, order)), cache, order)
         == MirrorText(text, previous, cache, order)
  {
    DistinctTextSettles(text, previous, cache, order);
    assert AddressesAgree(cache);
    MirrorIdempotentIff(text, cache);
  }

  lemma {:induction false} SameEntries(a: map<string, Fields>, b: map<string, Fields>, cache: Cache, order: seq<string>)
    requires Covers(cache, order)
    requires forall id :: id in order && cache[id].deviceAddr != "" ==>
      MergeEntry(PreviousEntry(b, cache[id].deviceAddr), cache[id])
      == MergeEntry(PreviousEntry(a, cache[id].deviceAddr), cache[id])
    ensures MirrorEntries(a, cache, order) == MirrorEntries(b, cache, order)
  {
    if order != [] {
      var n := |order| - 1;
      assert order[n] in order;
      SameEntries(a, b, cache, order[..n]);
    }
  }
}
