/** The AS file field by field: what an import takes from each entry, and what a
    mirror write puts into each. */
module FileFormat {
  import opened Prelude
  import opened Json
  import opened Devices
  import opened PersistenceAdapter
  import opened MirrorLaws
  import opened Reconcile
  import Decimal

  // ---------- vocabulary ----------

  /** The file can be read, and these are the entries a 16-bit loop sees. */
  ghost predicate FileHolds(text: Text, file: Option<string>, items: seq<Value>) {
    && file.Some? && |file.value| <= 1024 * 1024
    && exists root, all ::
         text.decode(file.value) == Some(Obj(root)) && PairedDevices in root && root[PairedDevices] == Arr(all)
         && items == all[..|all| % 0x1_0000]
  }

  /** An entry's address; "" if it has none. */
  function AddressOf(text: Text, item: Value): string {
    var e := text.Object(item);
    if DeviceAddr in e then text.String(e[DeviceAddr]) else ""
  }

  function TextIn(text: Text, e: Fields, name: Label): string {
    if name in e then text.String(e[name]) else ""
  }

  /** The entry gives this boolean, in any spelling. */
  predicate GivesBool(e: Fields, name: Label, b: bool) {
    && name in e
    && match e[name]
       case Bool(value) => value == b
       case Num(n) => (n != 0) == b
       case Str(s) => if b then s == "1" || IsWord(s, "true", "TRUE") else s == "0" || IsWord(s, "false", "FALSE")
       case _ => false
  }

  /** The entry gives this number, or a text that spells it. */
  predicate GivesNumber(e: Fields, name: Label, n: Int64) {
    name in e && (e[name] == Num(n) || (e[name].Str? && Decimal.TryParseInt64(e[name].s) == Some(n)))
  }

  predicate GivesNoNumber(e: Fields, name: Label) {
    name in e ==> !e[name].Num? && (e[name].Str? ==> Decimal.TryParseInt64(e[name].s).None?)
  }

  // ---------- which files are imported ----------

  lemma PairedEntriesIff(text: Text, file: string, items: seq<Value>)
    requires |file| <= 1024 * 1024
    ensures FileHolds(text, Some(file), items) <==> PairedEntries(text, file) == Some(items)
  {
  }

  /** No content imports as no devices; content is refused exactly when it is over
      1 MiB or not an object with an array of paired devices. */
  lemma ImportRefusedIff(text: Text, file: Option<string>, paired: seq<Paired>)
    ensures file == None || file == Some("") ==> Imported(text, file, paired) == Some(map[])
    ensures file != None && file != Some("") ==>
      (Imported(text, file, paired).None? <==> !exists items :: FileHolds(text, file, items))
  {
    if file.Some? && |file.value| <= 1024 * 1024 {
      forall items ensures FileHolds(text, file, items) <==> PairedEntries(text, file.value) == Some(items) {
        PairedEntriesIff(text, file.value, items);
      }
      if PairedEntries(text, file.value).Some? {
        assert FileHolds(text, file, PairedEntries(text, file.value).value);
      }
    }
  }

  // ---------- what an import takes from an entry ----------

  /** Entry `k` is the last one whose address belongs to device `id`. */
  ghost predicate LastEntryOf(text: Text, items: seq<Value>, paired: seq<Paired>, id: string, k: int) {
    && 0 <= k < |items| && MapsTo(paired, AddressOf(text, items[k]), id)
    && forall j :: k < j < |items| ==> !MapsTo(paired, AddressOf(text, items[j]), id)
  }

  /** What the parser makes of one entry, field by field. */
  predicate RecordOf(text: Text, e: Fields, info: Info) {
    && info.deviceAddr == TextIn(text, e, DeviceAddr)
    && info.deviceType == (if DeviceType in e then text.String(e[DeviceType]) else "UNKNOWN")
    && info.friendlyName == (if FriendlyName in e && e[FriendlyName].Str? then e[FriendlyName].s else "")
    && SettingsOf(e, info)
  }

  /** Volume, status and time: as given, whatever the spelling; else 0, UNSET, "". */
  predicate SettingsOf(e: Fields, info: Info) {
    && (GivesNoNumber(e, LastVolumeSetting) ==> info.lastVolumeSetting == 0)
    && (!GivesNoNumber(e, LastVolumeSetting) ==> GivesNumber(e, LastVolumeSetting, info.lastVolumeSetting))
    && info.autoConnect == (if GivesBool(e, AutoConnectStatus, true) then ENABLED
                            else if GivesBool(e, AutoConnectStatus, false) then DISABLED
                            else UNSET)
    && (GivesNoNumber(e, LastConnectionTimeUTC) ==> info.lastConnectTimeUtc == "")
    && (!GivesNoNumber(e, LastConnectionTimeUTC) ==>
          Decimal.TryParseInt64(info.lastConnectTimeUtc).Some?
          && GivesNumber(e, LastConnectionTimeUTC, Decimal.TryParseInt64(info.lastConnectTimeUtc).value)
          && Decimal.Canonical(info.lastConnectTimeUtc))
  }

  lemma ParsedRecord(text: Text, e: Fields)
    ensures RecordOf(text, e, ParseEntry(text, e))
  {
    BooleanSpellings(e, AutoConnectStatus, true);
    BooleanSpellings(e, AutoConnectStatus, false);
    var time := NumericAt(e, LastConnectionTimeUTC);
    if time.Some? {
      Decimal.ParsePrint(time.value);
      Decimal.ReprintIsCanonical(Decimal.Print(time.value), time.value);
    }
  }

  /** The records matched by address, before enrichment. */
  function Matched(text: Text, items: seq<Value>, paired: seq<Paired>): Cache {
    ImportRecords(ParseEntries(text, items), AddressIndex(paired))
  }

  lemma LastEntryIff(text: Text, items: seq<Value>, paired: seq<Paired>, id: string, k: int)
    ensures LastEntryOf(text, items, paired, id, k) <==> LastRecordOf(ParseEntries(text, items), paired, id, k)
  {
    var devices := ParseEntries(text, items);
    assert forall j :: 0 <= j < |items| ==> devices[j].deviceAddr == AddressOf(text, items[j]);
  }

  lemma MatchedRecord(text: Text, items: seq<Value>, paired: seq<Paired>, id: string, k: int)
    requires LastEntryOf(text, items, paired, id, k)
    ensures id in Matched(text, items, paired)
    ensures RecordOf(text, text.Object(items[k]), Matched(text, items, paired)[id])
  {
    var devices := ParseEntries(text, items);
    LastEntryIff(text, items, paired, id, k);
    ImportIsLastMatch(devices, paired);
    var l :| LastRecordOf(devices, paired, id, l) && Matched(text, items, paired)[id] == devices[l];
    assert l == k;
    ParsedRecord(text, text.Object(items[k]));
  }

  lemma MatchedDevices(text: Text, items: seq<Value>, paired: seq<Paired>, id: string)
    ensures id in Matched(text, items, paired) <==> exists k :: LastEntryOf(text, items, paired, id, k)
  {
    if k :| LastEntryOf(text, items, paired, id, k) {
      MatchedRecord(text, items, paired, id, k);
    }
    if id in Matched(text, items, paired) {
      var devices := ParseEntries(text, items);
      ImportIsLastMatch(devices, paired);
      var k :| LastRecordOf(devices, paired, id, k) && Matched(text, items, paired)[id] == devices[k];
      LastEntryIff(text, items, paired, id, k);
    }
  }

  lemma ImportedIsMatched(text: Text, file: Option<string>, items: seq<Value>, paired: seq<Paired>)
    requires FileHolds(text, file, items) && file != Some("")
    ensures Imported(text, file, paired) == Some(Reconciled(Matched(text, items, paired), paired, true))
  {
    PairedEntriesIff(text, file.value, items);
  }

  /** The imported devices are exactly those some entry's address belongs to. */
  lemma ImportedDevices(text: Text, file: Option<string>, items: seq<Value>, paired: seq<Paired>, id: string)
    requires FileHolds(text, file, items) && file != Some("")
    ensures Imported(text, file, paired).Some?
    ensures id in Imported(text, file, paired).value <==> exists k :: LastEntryOf(text, items, paired, id, k)
  {
    ImportedIsMatched(text, file, items, paired);
    MatchedDevices(text, items, paired, id);
    ReconciledDomain(Matched(text, items, paired), paired, true);
  }

  /** A missing or unknown type and a missing name are the platform's; all else is
      as the entry gives it. */
  predicate EnrichedRecordOf(text: Text, e: Fields, p: Paired, info: Info) {
    var givenType := TextIn(text, e, DeviceType);
    var givenName := if FriendlyName in e && e[FriendlyName].Str? then e[FriendlyName].s else "";
    && info.deviceAddr == TextIn(text, e, DeviceAddr)
    && info.deviceType == (if givenType == "" || givenType == "UNKNOWN" then p.deviceType else givenType)
    && info.friendlyName == (if givenName != "" then givenName else if p.name != "" then p.name else Decimal.Print(p.handle))
    && SettingsOf(e, info)
  }

  lemma EnrichedRecord(text: Text, cache: Cache, e: Fields, paired: seq<Paired>, p: Paired)
    requires p in paired && OnlyAs(paired, p) && Decimal.Print(p.handle) in cache
    requires RecordOf(text, e, cache[Decimal.Print(p.handle)]) && cache[Decimal.Print(p.handle)].deviceAddr != ""
    ensures Decimal.Print(p.handle) in Reconciled(cache, paired, true)
    ensures EnrichedRecordOf(text, e, p, Reconciled(cache, paired, true)[Decimal.Print(p.handle)])
  {
    ReconciledEntry(cache, paired, true, p);
  }

  /** What each imported device is: its last entry in the file, completed by the
      platform. */
  lemma ImportedRecord(text: Text, file: Option<string>, items: seq<Value>, paired: seq<Paired>, k: int, p: Paired)
    requires FileHolds(text, file, items) && file != Some("")
    requires p in paired && OnlyAs(paired, p) && LastEntryOf(text, items, paired, Decimal.Print(p.handle), k)
    ensures Imported(text, file, paired).Some? && Decimal.Print(p.handle) in Imported(text, file, paired).value
    ensures EnrichedRecordOf(text, text.Object(items[k]), p, Imported(text, file, paired).value[Decimal.Print(p.handle)])
  {
    ImportedIsMatched(text, file, items, paired);
    MatchedRecord(text, items, paired, Decimal.Print(p.handle), k);
    EnrichedRecord(text, Matched(text, items, paired), text.Object(items[k]), paired, p);
  }

  // ---------- what a mirror write puts into an entry ----------

  /** Entry `k` is the last one with this address. */
  predicate LastWith(text: Text, items: seq<Value>, address: string, k: int) {
    && 0 <= k < |items| && AddressOf(text, items[k]) == address
    && forall j :: k < j < |items| ==> AddressOf(text, items[j]) != address
  }

  lemma {:induction false} IndexIsLast(text: Text, items: seq<Value>, address: string)
    requires address != ""
    ensures address in IndexByAddress(text, items) <==> exists k :: LastWith(text, items, address, k)
    ensures forall k :: LastWith(text, items, address, k) ==>
      address in IndexByAddress(text, items) && IndexByAddress(text, items)[address] == text.Object(items[k])
  {
    if items != [] {
      var n := |items| - 1;
      IndexIsLast(text, items[..n], address);
      if AddressOf(text, items[n]) == address {
        assert LastWith(text, items, address, n);
        assert forall k :: LastWith(text, items, address, k) ==> k == n;
      } else {
        assert forall k :: LastWith(text, items, address, k) <==> LastWith(text, items[..n], address, k);
      }
    }
  }

  /** What a write merges with: the last entry of that address in the file it could
      open, and nothing if the file is absent, over 1 MiB or not of the right shape. */
  lemma MergedWith(text: Text, previous: Option<string>, address: string)
    requires address != ""
    ensures forall items, k :: FileHolds(text, previous, items) && LastWith(text, items, address, k) ==>
      PreviousEntry(ExistingEntries(text, previous), address) == text.Object(items[k])
    ensures (!exists items, k :: FileHolds(text, previous, items) && LastWith(text, items, address, k)) ==>
      PreviousEntry(ExistingEntries(text, previous), address) == map[]
  {
    if previous.Some? && |previous.value| <= 1024 * 1024 {
      forall items ensures FileHolds(text, previous, items) <==> PairedEntries(text, previous.value) == Some(items) {
        PairedEntriesIff(text, previous.value, items);
      }
      if PairedEntries(text, previous.value).Some? {
        var items := PairedEntries(text, previous.value).value;
        assert FileHolds(text, previous, items);
        IndexIsLast(text, items, address);
      }
    }
  }

  /** The entry written for `info` where the file had `was` for its address. */
  predicate WrittenEntry(e: Fields, was: Fields, info: Info) {
    && SCHEMA_LABELS <= e.Keys
    && e[DeviceAddr] == Str(info.deviceAddr)
    && e[FriendlyName] == Str(if info.friendlyName != "" then info.friendlyName else info.deviceAddr)
    && e[DeviceType] == Str(if info.deviceType != "" then info.deviceType else "UNKNOWN")
    && e[LastVolumeSetting] == Num(info.lastVolumeSetting)
    && e[AutoConnectStatus]
       == Bool(if info.autoConnect == UNSET then GivesBool(was, AutoConnectStatus, true) else info.autoConnect == ENABLED)
    && e[LastConnectionTimeUTC].Num?
    && WrittenTime(e[LastConnectionTimeUTC].n, was, info)
    && KeepsUnknownFields(e, was)
  }

  /** The record's time where it spells a number, else the file's, else 0. */
  predicate WrittenTime(n: Int64, was: Fields, info: Info) {
    match Decimal.TryParseInt64(info.lastConnectTimeUtc)
    case Some(time) => n == time
    case None => if GivesNoNumber(was, LastConnectionTimeUTC) then n == 0 else GivesNumber(was, LastConnectionTimeUTC, n)
  }

  lemma MergedIsWritten(was: Fields, info: Info)
    ensures WrittenEntry(MergeEntry(was, info), was, info)
  {
    BooleanSpellings(was, AutoConnectStatus, true);
    EntryValid(was, info);
  }

  lemma {:induction false} MirrorHas(existing: map<string, Fields>, cache: Cache, order: seq<string>, id: string)
    returns (k: nat)
    requires Covers(cache, order) && id in order && cache[id].deviceAddr != ""
    ensures k < |MirrorEntries(existing, cache, order)|
    ensures MirrorEntries(existing, cache, order)[k]
         == Obj(MergeEntry(PreviousEntry(existing, cache[id].deviceAddr), cache[id]))
  {
    var front, last := order[..|order| - 1], order[|order| - 1];
    assert order == front + [last];
    if last == id {
      k := |MirrorEntries(existing, cache, front)|;
    } else {
      k := MirrorHas(existing, cache, front, id);
    }
  }

  /** The new file is an object with one array, in which every device with a known
      address has its entry. */
  lemma MirrorSpelledOut(text: Text, previous: Option<string>, cache: Cache, order: seq<string>, id: string)
    returns (items: seq<Value>, k: nat)
    requires text.Inverse() && Enumerates(order, cache.Keys) && id in cache && cache[id].deviceAddr != ""
    ensures text.decode(MirrorText(text, previous, cache, order)) == Some(Obj(map[PairedDevices := Arr(items)]))
    ensures k < |items| && items[k].Obj?
    ensures WrittenEntry(items[k].fields, PreviousEntry(ExistingEntries(text, previous), cache[id].deviceAddr), cache[id])
  {
    var existing := ExistingEntries(text, previous);
    items := MirrorEntries(existing, cache, order);
    assert text.decode(text.encode(Document(items))) == Some(Document(items));
    k := MirrorHas(existing, cache, order, id);
    MergedIsWritten(PreviousEntry(existing, cache[id].deviceAddr), cache[id]);
  }
}
