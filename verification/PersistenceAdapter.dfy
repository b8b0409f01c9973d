/** The AS file (`paired_bluetooth_devices.json`): tolerant reading, merging
    writing, and the replacement of the file through a temporary one. */
module PersistenceAdapter {
  import opened Prelude
  import opened Json
  import opened Devices
  import opened Decimal

  const MAX_PAYLOAD_BYTES: nat := 1024 * 1024

  // ---------- tolerant field access ----------

  /** `tryGetNumericAsInt64`: a number, or a string that spells one. */
  function NumericAt(fields: Fields, name: Label): Option<Int64> {
    if name !in fields then None
    else
      match fields[name]
      case Num(n) => Some(n)
      case Str(s) => TryParseInt64(s)
      case _ => None
  }

  function ToLower(c: char): char {
    if 'A' <= c <= 'Z' then (c as int + 32) as char else c
  }

  function Lowered(s: string): (r: string)
    ensures |r| == |s|
  {
    if s == "" then "" else Lowered(s[..|s| - 1]) + [ToLower(s[|s| - 1])]
  }

  function BooleanWord(lowered: string): Option<bool> {
    if lowered == "true" || lowered == "1" then Some(true)
    else if lowered == "false" || lowered == "0" then Some(false)
    else None
  }

  /** What `tryGetBoolean` reads: a boolean, a number (non-zero is true), or one
      of the words true, 1, false, 0 in any case. */
  function BooleanAt(fields: Fields, name: Label): Option<bool> {
    if name !in fields then None
    else
      match fields[name]
      case Bool(b) => Some(b)
      case Num(n) => Some(n != 0)
      case Str(s) => BooleanWord(Lowered(s))
      case _ => None
  }

  /** `s` is the word, each letter in either case. */
  predicate IsWord(s: string, lower: string, upper: string) {
    |s| == |lower| == |upper| && forall i :: 0 <= i < |s| ==> s[i] == lower[i] || s[i] == upper[i]
  }

  lemma {:induction false} LoweredAt(s: string, i: nat)
    requires i < |s|
    ensures Lowered(s)[i] == if 'A' <= s[i] <= 'Z' then (s[i] as int + 32) as char else s[i]
  {
    if i < |s| - 1 {
      LoweredAt(s[..|s| - 1], i);
    }
  }

  lemma LoweredIsWord(s: string, lower: string, upper: string)
    requires |lower| == |upper|
    requires forall i :: 0 <= i < |lower| ==>
      'a' <= lower[i] <= 'z' && lower[i] as int == upper[i] as int + 32
    ensures Lowered(s) == lower <==> IsWord(s, lower, upper)
  {
    forall i | 0 <= i < |s| && |s| == |lower| ensures Lowered(s)[i] == lower[i] <==> s[i] == lower[i] || s[i] == upper[i] {
      LoweredAt(s, i);
    }
  }

  lemma LoweredIsDigit(s: string, c: char)
    requires c == '0' || c == '1'
    ensures Lowered(s) == [c] <==> s == [c]
  {
    if |s| == 1 {
      LoweredAt(s, 0);
    }
  }

  /** Which texts are booleans: 1, or true in any case; 0, or false in any case. */
  lemma BooleanWords(s: string, b: bool)
    ensures BooleanWord(Lowered(s)) == Some(b) <==>
      if b then s == "1" || IsWord(s, "true", "TRUE") else s == "0" || IsWord(s, "false", "FALSE")
  {
    LoweredIsWord(s, "true", "TRUE");
    LoweredIsWord(s, "false", "FALSE");
    LoweredIsDigit(s, '1');
    LoweredIsDigit(s, '0');
  }

  /** Spellings of one boolean read alike: itself, a number that is zero or not, and
      the words; nothing else is one. */
  lemma BooleanSpellings(fields: Fields, name: Label, b: bool)
    ensures BooleanAt(fields, name) == Some(b) <==>
      && name in fields
      && match fields[name]
         case Bool(value) => value == b
         case Num(n) => (n != 0) == b
         case Str(s) => if b then s == "1" || IsWord(s, "true", "TRUE") else s == "0" || IsWord(s, "false", "FALSE")
         case _ => false
  {
    if name in fields && fields[name].Str? {
      BooleanWords(fields[name].s, b);
    }
  }

  /** A text that spells a number reads as that number; nothing else does. */
  lemma NumberSpellings(fields: Fields, name: Label, n: Int64)
    ensures NumericAt(fields, name) == Some(n) <==>
      && name in fields
      && (fields[name] == Num(n) || (fields[name].Str? && exists i, j :: Spells(CString(fields[name].s), i, j, n)))
  {
    if name in fields && fields[name].Str? {
      ParseAcceptsExactlySpellings(fields[name].s, n);
    }
  }

  method LowerCase(s: string) returns (lowered: string)
    ensures lowered == Lowered(s)
  {
    lowered := s;
    var i := 0;
    while i < |s|
      invariant 0 <= i <= |s| == |lowered|
      invariant lowered[..i] == Lowered(s[..i])
      invariant lowered[i..] == s[i..]
    {
      lowered := lowered[i := ToLower(lowered[i])];
      assert s[..i + 1][..i] == s[..i];
      i := i + 1;
    }
    assert lowered[..i] == lowered && s[..i] == s;
  }

  method TryGetBoolean(fields: Fields, name: Label) returns (ok: bool, output: bool)
    ensures (if ok then Some(output) else None) == BooleanAt(fields, name)
    ensures name !in fields ==> !ok
    ensures name in fields ==>
      match fields[name]
      case Bool(b) => ok && output == b
      case Num(n) => ok && output == (n != 0)
      case Str(s) =>
        && (ok && output <==> s == "1" || IsWord(s, "true", "TRUE"))
        && (ok && !output <==> s == "0" || IsWord(s, "false", "FALSE"))
      case _ => !ok
  {
    BooleanSpellings(fields, name, true);
    BooleanSpellings(fields, name, false);
    ok, output := false, false;
    if name !in fields {
      return;
    }
    match fields[name] {
      case Bool(b) => return true, b;
      case Num(n) => return true, n != 0;
      case Str(s) =>
        var lowered := LowerCase(s);
        if lowered == "true" || lowered == "1" {
          return true, true;
        }
        if lowered == "false" || lowered == "0" {
          return true, false;
        }
      case _ =>
    }
  }

  // ---------- Parse ----------

  /** The record one file entry stands for; absent or unreadable fields keep the
      defaults. */
  function ParseEntry(text: Text, entry: Fields): Info {
    var auto := BooleanAt(entry, AutoConnectStatus);
    var last := NumericAt(entry, LastConnectionTimeUTC);
    Info(
      if DeviceAddr in entry then text.String(entry[DeviceAddr]) else "",
      if DeviceType in entry then text.String(entry[DeviceType]) else UNKNOWN,
      if FriendlyName in entry && entry[FriendlyName].Str? then entry[FriendlyName].s else "",
      NumericAt(entry, LastVolumeSetting).GetOr(0),
      if auto.None? then UNSET else if auto.value then ENABLED else DISABLED,
      if last.Some? then Print(last.value) else "")
  }

  function ParseEntries(text: Text, entries: seq<Value>): (devices: seq<Info>)
    ensures |devices| == |entries|
    ensures forall i :: 0 <= i < |entries| ==> devices[i] == ParseEntry(text, text.Object(entries[i]))
  {
    if entries == [] then []
    else
      var last := |entries| - 1;
      ParseEntries(text, entries[..last]) + [ParseEntry(text, text.Object(entries[last]))]
  }

  /** The entries of a payload, or None when it is not an object with a
      `pairedDevices` array. */
  function PairedEntries(text: Text, payload: string): Option<seq<Value>> {
    match text.decode(payload)
    case Some(Obj(root)) =>
      if PairedDevices in root && root[PairedDevices].Arr?
      then Some(Visible(root[PairedDevices].items)) else None
    case _ => None
  }

  function Parsed(text: Text, payload: string): Option<seq<Info>> {
    match PairedEntries(text, payload)
    case None => None
    case Some(entries) => Some(ParseEntries(text, entries))
  }

  method ParseOne(text: Text, entry: Fields) returns (info: Info)
    ensures info == ParseEntry(text, entry)
  {
    info := DEFAULT_INFO;
    if DeviceAddr in entry {
      info := info.(deviceAddr := text.String(entry[DeviceAddr]));
    }
    if DeviceType in entry {
      info := info.(deviceType := text.String(entry[DeviceType]));
    }
    if FriendlyName in entry && entry[FriendlyName].Str? {
      info := info.(friendlyName := entry[FriendlyName].s);
    }
    var volume := NumericAt(entry, LastVolumeSetting);
    if volume.Some? {
      info := info.(lastVolumeSetting := volume.value);
    }
    var readable, enabled := TryGetBoolean(entry, AutoConnectStatus);
    if readable {
      info := info.(autoConnect := if enabled then ENABLED else DISABLED);
    }
    var last := NumericAt(entry, LastConnectionTimeUTC);
    if last.Some? {
      info := info.(lastConnectTimeUtc := Print(last.value));
    }
  }

  method ParseEach(text: Text, entries: seq<Value>) returns (devices: seq<Info>)
    ensures devices == ParseEntries(text, entries)
  {
    devices := [];
    var i := 0;
    while i < |entries|
      invariant 0 <= i <= |entries|
      invariant devices == ParseEntries(text, entries[..i])
    {
      var entry := text.Object(entries[i]);
      var info := ParseOne(text, entry);
      devices := devices + [info];
      assert entries[..i + 1][..i] == entries[..i];
      i := i + 1;
    }
    assert entries[..i] == entries;
  }

  method Parse(text: Text, payload: string) returns (ok: bool, devices: seq<Info>)
    ensures (if ok then Some(devices) else None) == Parsed(text, payload)
  {
    ok, devices := false, [];
    var paired := PairedEntries(text, payload);
    if paired.None? {
      return;
    }
    devices := ParseEach(text, paired.value);
    ok := true;
  }

  // ---------- the merge ----------

  /** The entries of the previous file by address; a later duplicate wins. */
  function IndexByAddress(text: Text, entries: seq<Value>): map<string, Fields> {
    if entries == [] then map[]
    else
      var last := |entries| - 1;
      var index := IndexByAddress(text, entries[..last]);
      var entry := text.Object(entries[last]);
      if DeviceAddr in entry && text.String(entry[DeviceAddr]) != ""
      then index[text.String(entry[DeviceAddr]) := entry] else index
  }

  /** The previous entries a write merges with: none when the file is absent,
      oversized or not of the expected shape. */
  function ExistingEntries(text: Text, previous: Option<string>): map<string, Fields> {
    if previous.None? || |previous.value| > MAX_PAYLOAD_BYTES then map[]
    else IndexByAddress(text, PairedEntries(text, previous.value).GetOr([]))
  }

  /** An UNSET status keeps the boolean already in the file. */
  function MergedStatus(previous: Fields, info: Info): bool {
    if info.autoConnect == UNSET then BooleanAt(previous, AutoConnectStatus).GetOr(false)
    else info.autoConnect == ENABLED
  }

  /** The record's timestamp where it parses, else the file's, else 0. */
  function MergedTime(previous: Fields, info: Info): Int64 {
    var parsed := if info.lastConnectTimeUtc == "" then None else TryParseInt64(info.lastConnectTimeUtc);
    if parsed.Some? then parsed.value else NumericAt(previous, LastConnectionTimeUTC).GetOr(0)
  }

  /** One cache entry merged over the previous entry of the same address. */
  function MergeEntry(previous: Fields, info: Info): Fields {
    var named := previous
        [DeviceAddr := Str(info.deviceAddr)]
        [FriendlyName := Str(if info.friendlyName != "" then info.friendlyName else info.deviceAddr)]
        [DeviceType := Str(if info.deviceType != "" then info.deviceType else UNKNOWN)]
        [LastVolumeSetting := Num(info.lastVolumeSetting)];
    named
        [AutoConnectStatus := Bool(MergedStatus(previous, info))]
        [LastConnectionTimeUTC := Num(MergedTime(previous, info))]
  }

  function PreviousEntry(existing: map<string, Fields>, address: string): Fields {
    if address in existing then existing[address] else map[]
  }

  /** The new array for a cache iterated in `order`; entries without an address are skipped. */
  function MirrorEntries(existing: map<string, Fields>, cache: Cache, order: seq<string>): seq<Value>
    requires forall id :: id in order ==> id in cache
  {
    if order == [] then []
    else
      var last := |order| - 1;
      var entries := MirrorEntries(existing, cache, order[..last]);
      var info := cache[order[last]];
      if info.deviceAddr == "" then entries
      else entries + [Obj(MergeEntry(PreviousEntry(existing, info.deviceAddr), info))]
  }

  function Document(entries: seq<Value>): Value {
    Obj(map[PairedDevices := Arr(entries)])
  }

  /** The whole new file content. */
  function MirrorText(text: Text, previous: Option<string>, cache: Cache, order: seq<string>): string
    requires forall id :: id in order ==> id in cache
  {
    text.encode(Document(MirrorEntries(ExistingEntries(text, previous), cache, order)))
  }

  method IndexEntries(text: Text, entries: seq<Value>) returns (existing: map<string, Fields>)
    ensures existing == IndexByAddress(text, entries)
  {
    existing := map[];
    var i := 0;
    while i < |entries|
      invariant 0 <= i <= |entries|
      invariant existing == IndexByAddress(text, entries[..i])
    {
      var entry := text.Object(entries[i]);
      if DeviceAddr in entry {
        var address := text.String(entry[DeviceAddr]);
        if address != "" {
          existing := existing[address := entry];
        }
      }
      assert entries[..i + 1][..i] == entries[..i];
      i := i + 1;
    }
    assert entries[..i] == entries;
  }

  method MergeStatus(previous: Fields, info: Info) returns (device: Fields)
    ensures device == previous[AutoConnectStatus := Bool(MergedStatus(previous, info))]
  {
    if info.autoConnect == UNSET {
      var readable, status := TryGetBoolean(previous, AutoConnectStatus);
      if !readable {
        status := false;
      }
      device := previous[AutoConnectStatus := Bool(status)];
    } else {
      device := previous[AutoConnectStatus := Bool(info.autoConnect == ENABLED)];
    }
  }

  method MergeTime(previous: Fields, info: Info) returns (device: Fields)
    ensures device == previous[LastConnectionTimeUTC := Num(MergedTime(previous, info))]
  {
    var parsed := if info.lastConnectTimeUtc == "" then None else TryParseInt64(info.lastConnectTimeUtc);
    if parsed.Some? {
      device := previous[LastConnectionTimeUTC := Num(parsed.value)];
    } else {
      var existing := NumericAt(previous, LastConnectionTimeUTC);
      if existing.Some? {
        device := previous[LastConnectionTimeUTC := Num(existing.value)];
      } else {
        device := previous[LastConnectionTimeUTC := Num(0)];
      }
    }
  }

  predicate SameAt(a: Fields, b: Fields, name: Label) {
    (name in a <==> name in b) && (name in a && name in b ==> a[name] == b[name])
  }

  lemma MergeReadsOneLabel(a: Fields, b: Fields, info: Info)
    ensures SameAt(a, b, AutoConnectStatus) ==> MergedStatus(a, info) == MergedStatus(b, info)
    ensures SameAt(a, b, LastConnectionTimeUTC) ==> MergedTime(a, info) == MergedTime(b, info)
  {
    assert SameAt(a, b, AutoConnectStatus) ==> BooleanAt(a, AutoConnectStatus) == BooleanAt(b, AutoConnectStatus);
    assert SameAt(a, b, LastConnectionTimeUTC) ==>
      NumericAt(a, LastConnectionTimeUTC) == NumericAt(b, LastConnectionTimeUTC);
  }

  method MergeOne(previous: Fields, info: Info) returns (device: Fields)
    ensures device == MergeEntry(previous, info)
  {
    device := previous;
    device := device[DeviceAddr := Str(info.deviceAddr)];
    device := device[FriendlyName := Str(if info.friendlyName != "" then info.friendlyName else info.deviceAddr)];
    device := device[DeviceType := Str(if info.deviceType != "" then info.deviceType else UNKNOWN)];
    device := device[LastVolumeSetting := Num(info.lastVolumeSetting)];
    MergeReadsOneLabel(previous, device, info);
    device := MergeStatus(device, info);
    MergeReadsOneLabel(previous, device, info);
    device := MergeTime(device, info);
  }

  method BuildEntries(existing: map<string, Fields>, cache: Cache)
    returns (entries: seq<Value>, ghost order: seq<string>)
    ensures Enumerates(order, cache.Keys) && entries == MirrorEntries(existing, cache, order)
  {
    entries := [];
    var left := cache.Keys;
    order := [];
    while left != {}
      invariant left <= cache.Keys && Enumerates(order, cache.Keys - left)
      invariant entries == MirrorEntries(existing, cache, order)
    {
      var id :| id in left;
      var info := cache[id];
      assert Enumerates(order + [id], cache.Keys - (left - {id})) by {
        EnumerationExtended(order, cache.Keys - left, id);
        assert cache.Keys - left + {id} == cache.Keys - (left - {id});
      }
      assert (order + [id])[..|order|] == order;
      order := order + [id];
      left := left - {id};
      if info.deviceAddr == "" {
        continue;
      }
      var device := MergeOne(PreviousEntry(existing, info.deviceAddr), info);
      entries := entries + [Obj(device)];
    }
    assert cache.Keys - left == cache.Keys;
  }

  // ---------- the file system ----------

  datatype WriteResult = Written(count: nat) | Interrupted | Failed

  datatype ReadResult = Content(content: string) | Absent | Unreadable

  /** The AS file and its temporary file. Any call may fail, unless `reliable`.
      `stalls` bounds the interrupted or zero-length writes still to come, and
      `seen` records the destination as a crash right after each call would leave it. */
  class FileSystem {
    var file: Option<string>
    var temp: Option<string>
    var reliable: bool
    var stalls: nat
    ghost var seen: seq<Option<string>>

    constructor (file: Option<string>, reliable: bool, stalls: nat)
      ensures this.file == file && temp == None && this.reliable == reliable && seen == []
    {
      this.file, this.temp, this.reliable, this.stalls, this.seen := file, None, reliable, stalls, [];
    }

    /** Opens and reads the whole file, or finds it absent or unreadable. */
    method Read() returns (r: ReadResult)
      ensures r.Content? ==> file == Some(r.content)
      ensures r.Absent? ==> file == None
      ensures reliable ==> !r.Unreadable?
    {
      var fails: bool := *;
      if fails && !reliable {
        r := Unreadable;
      } else if file.Some? {
        r := Content(file.value);
      } else {
        r := Absent;
      }
    }

    method OpenTemp() returns (ok: bool)
      modifies this`temp, this`seen
      ensures file == old(file) && seen == old(seen) + [file]
      ensures ok ==> temp == Some("")
      ensures reliable ==> ok
    {
      ok := *;
      ok := ok || reliable;
      temp := if ok then Some("") else temp;
      seen := seen + [file];
    }

    /** `write(fd, data, |data|)`: may be short, interrupted, or fail. */
    method WriteSome(data: string) returns (r: WriteResult)
      requires temp.Some? && data != ""
      modifies this`temp, this`seen, this`stalls
      ensures file == old(file) && seen == old(seen) + [file]
      ensures r.Written? ==> r.count <= |data| && temp == Some(old(temp).value + data[..r.count])
      ensures !r.Written? ==> temp == old(temp)
      ensures r == Interrupted || r == Written(0) ==> stalls < old(stalls)
      ensures stalls <= old(stalls)
      ensures reliable ==> !r.Failed?
    {
      seen := seen + [file];
      var fails: bool, stall: bool := *, *;
      if fails && !reliable {
        r := Failed;
      } else if stall && stalls > 0 {
        stalls := stalls - 1;
        if * {
          r := Interrupted;
        } else {
          assert data[..0] == "";
          assert temp.value + data[..0] == temp.value;
          r := Written(0);
        }
      } else {
        var count: nat :| 0 < count <= |data|;
        temp := Some(temp.value + data[..count]);
        r := Written(count);
      }
    }

    method RemoveTemp()
      modifies this`temp, this`seen
      ensures file == old(file) && seen == old(seen) + [file]
    {
      if * {
        temp := None;
      }
      seen := seen + [file];
    }

    /** `rename(temp, file)`: atomic. */
    method RenameTemp() returns (ok: bool)
      requires temp.Some?
      modifies this`file, this`temp, this`seen
      ensures file == if ok then old(temp) else old(file)
      ensures seen == old(seen) + [file]
      ensures reliable ==> ok
    {
      ok := *;
      ok := ok || reliable;
      if ok {
        file, temp := temp, None;
      }
      seen := seen + [file];
    }

    /** Every state of the destination since `from` is `before`, or `after`. */
    ghost predicate OnlySaw(from: nat, before: Option<string>, after: Option<string>)
      reads this
    {
      forall k :: from <= k < |seen| ==> seen[k] == before || seen[k] == after
    }

    /** Replaces the destination by `payload`: success means it is in place, an
        error leaves the old file, and a crash at any point leaves one or the other. */
    method ReplaceWith(payload: string) returns (ok: bool)
      modifies this`file, this`temp, this`stalls, this`seen
      ensures file == if ok then Some(payload) else old(file)
      ensures |old(seen)| <= |seen|
      ensures OnlySaw(|old(seen)|, old(file), Some(payload))
      ensures !ok ==> OnlySaw(|old(seen)|, old(file), old(file))
      ensures reliable ==> ok
    {
      ok := OpenTemp();
      if !ok {
        return;
      }
      var data := payload;
      var remaining := |payload|;
      var writeError := false;
      assert payload[..0] == "";
      while remaining > 0
        invariant remaining == |data| <= |payload|
        invariant data == payload[|payload| - remaining..]
        invariant temp == Some(payload[..|payload| - remaining])
        invariant file == old(file)
        invariant |old(seen)| <= |seen| && OnlySaw(|old(seen)|, old(file), old(file))
        invariant reliable ==> !writeError
        decreases remaining, stalls
      {
        var written := WriteSome(data);
        if written == Interrupted {
          continue;
        }
        if written == Failed {
          writeError := true;
          break;
        }
        assert payload[..|payload| - remaining] + data[..written.count]
            == payload[..|payload| - (remaining - written.count)];
        data := data[written.count..];
        remaining := remaining - written.count;
      }
      if writeError {
        RemoveTemp();
        return false;
      }
      assert payload[..|payload|] == payload;
      ok := RenameTemp();
      if !ok {
        RemoveTemp();
      }
    }
  }

  /** `ReadRaw`: an absent file is reported apart from an unreadable or oversized one. */
  method ReadRaw(fs: FileSystem) returns (r: ReadResult)
    ensures r.Content? ==> fs.file == Some(r.content) && |r.content| <= MAX_PAYLOAD_BYTES
    ensures r.Absent? ==> fs.file == None
    ensures fs.reliable ==>
      (r.Unreadable? <==> fs.file.Some? && |fs.file.value| > MAX_PAYLOAD_BYTES) && (fs.file.None? <==> r.Absent?)
  {
    r := fs.Read();
    if r.Content? && |r.content| > MAX_PAYLOAD_BYTES {
      r := Unreadable;
    }
  }

  /** `Write`: mirrors the cache over the entries of the file it could open.
      `order` is the order the cache was iterated in, `previous` what was opened. */
  method Write(fs: FileSystem, text: Text, cache: Cache)
    returns (ok: bool, ghost order: seq<string>, ghost previous: Option<string>)
    modifies fs`file, fs`temp, fs`stalls, fs`seen
    ensures Enumerates(order, cache.Keys)
    ensures previous == None || previous == old(fs.file)
    ensures fs.file == if ok then Some(MirrorText(text, previous, cache, order)) else old(fs.file)
    ensures |old(fs.seen)| <= |fs.seen|
    ensures fs.OnlySaw(|old(fs.seen)|, old(fs.file), Some(MirrorText(text, previous, cache, order)))
    ensures !ok ==> fs.OnlySaw(|old(fs.seen)|, old(fs.file), old(fs.file))
    ensures fs.reliable ==> ok && previous == old(fs.file)
  {
    var existing: map<string, Fields> := map[];
    var input := fs.Read();
    previous := if input.Content? then Some(input.content) else None;
    if input.Content? && |input.content| <= MAX_PAYLOAD_BYTES {
      var entries := PairedEntries(text, input.content).GetOr([]);
      existing := IndexEntries(text, entries);
    }
    assert existing == ExistingEntries(text, previous);

    var entries;
    entries, order := BuildEntries(existing, cache);
    ok := fs.ReplaceWith(text.encode(Document(entries)));
  }
}
