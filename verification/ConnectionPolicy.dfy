/** What the plugin does with connections on the strength of the cache: answers
    to external requests, power transitions, and the cleanup at start. */
module ConnectionPolicy {
  import opened Prelude
  import opened Json
  import opened Devices
  import opened Reconcile
  import opened StoreCodec
  import opened ManagerSpec
  import opened DeviceManagement
  import Decimal

  // ---------- external connection requests ----------

  datatype Answer = Accept | Reject | NotifyClient

  /** Answered internally when migrated and the device is known, else left to clients. */
  function AnswerTo(v: View, id: string): Answer {
    if !v.isMigrated || id !in v.cache then NotifyClient
    else if v.cache[id].autoConnect == ENABLED then Accept
    else Reject
  }

  /** The external-connect branch of the event handler: the responses sent to the
      platform, the notifications sent to clients, and whether a connection is
      started; `connects` tells whether the platform then makes it. */
  method OnExternalConnectRequest(manager: DeviceManager, handle: nat, now: Int64, connects: bool)
    returns (responses: seq<bool>, notifications: seq<string>, connecting: bool)
    requires manager.Valid()
    modifies manager, manager.store, manager.fs
    ensures manager.Valid()
    ensures |responses| + |notifications| == 1
    ensures responses == [true] <==>
      && old(manager.isMigrated) && Decimal.Print(handle) in old(manager.cache)
      && old(manager.cache)[Decimal.Print(handle)].autoConnect == ENABLED
    ensures notifications == [Decimal.Print(handle)] <==>
      !old(manager.isMigrated) || Decimal.Print(handle) !in old(manager.cache)
    ensures var answer := AnswerTo(old(manager.State()), Decimal.Print(handle));
      && (answer == Accept <==> responses == [true] && connecting)
      && (answer == Reject <==> responses == [false] && !connecting)
      && (answer == NotifyClient <==> notifications == [Decimal.Print(handle)] && !connecting)
    ensures if connecting && connects
      then exists r :: Mutated(manager.text, Touch(Decimal.Print(handle), Decimal.Print(now)),
                               old(manager.State()), manager.State(), r)
      else manager.State() == old(manager.State())
  {
    responses, notifications, connecting := [], [], false;
    var id := Decimal.Print(handle);
    if manager.isMigrated {
      var result, status := manager.GetAutoConnect(id);
      if result == ErrorNone {
        connecting := status == ENABLED;
        responses := [connecting];
        if connecting && connects {
          var r := manager.SetLastConnectTimeUtc(id, now);
        }
        return;
      }
    }
    notifications := [id];
  }

  // ---------- the answer over a whole session ----------

  /** The operation settles what is answered for `id`: a completed import or clear,
      or, once migrated, a pairing, unpairing or `setAutoConnect` that applies. Its
      outcome may still be a failed store. */
  predicate Settles(op: Op, v: View, r: Hresult, id: string) {
    match op
    case Perform(_) => !v.isMigrated && r == ErrorNone
    case Clear => r == ErrorNone
    case Change(m) =>
      && v.isMigrated && m.id == id && MutationError(v.cache, m) == ErrorNone
      && (m.Add? || m.Remove? || m.SetAutoConnect?)
  }

  function AnswerIn(cache: Cache, id: string): Answer {
    if id !in cache then NotifyClient else if cache[id].autoConnect == ENABLED then Accept else Reject
  }

  /** The answer it leaves: an import the status in the file, a clear none, a
      pairing an unset status, an unpairing none, `setAutoConnect` its argument. */
  function Settled(text: Text, op: Op, v: View, id: string): Answer {
    match op
    case Perform(paired) => AnswerIn(Imported(text, v.file, paired).GetOr(map[]), id)
    case Clear => NotifyClient
    case Change(m) =>
      if m.SetAutoConnect? then (if m.enable then Accept else Reject)
      else if m.Add? then Reject
      else NotifyClient
  }

  lemma AnswerStep(text: Text, op: Op, v: View, w: View, r: Hresult, id: string)
    requires Stepped(text, op, v, w, r) && FlagExact(v)
    ensures AnswerTo(w, id) == if Settles(op, v, r, id) then Settled(text, op, v, id) else AnswerTo(v, id)
  {
    if op.Change? && v.isMigrated && MutationError(v.cache, op.m) == ErrorNone {
      assert w.cache == Mutate(v.cache, op.m);
    }
  }

  /** Operation `k` settles the answer for `id`, and none up to `n` does so after it. */
  predicate LastSettles(ops: seq<Op>, views: seq<View>, results: seq<Hresult>, id: string, k: int, n: nat)
    requires n <= |ops| == |results| < |views|
  {
    && 0 <= k < n && Settles(ops[k], views[k], results[k], id)
    && forall j :: k < j < n ==> !Settles(ops[j], views[j], results[j], id)
  }

  predicate NoneSettles(ops: seq<Op>, views: seq<View>, results: seq<Hresult>, id: string, n: nat)
    requires n <= |ops| == |results| < |views|
  {
    forall j :: 0 <= j < n ==> !Settles(ops[j], views[j], results[j], id)
  }

  lemma LastSettlesStep(ops: seq<Op>, views: seq<View>, results: seq<Hresult>, id: string, m: nat, n: nat)
    requires n == m + 1 <= |ops| == |results| < |views|
    ensures var settles := Settles(ops[m], views[m], results[m], id);
      && (NoneSettles(ops, views, results, id, n) <==> !settles && NoneSettles(ops, views, results, id, m))
      && forall k :: LastSettles(ops, views, results, id, k, n)
                     <==> if settles then k == m else LastSettles(ops, views, results, id, k, m)
  {
    forall k
      ensures LastSettles(ops, views, results, id, k, n)
         <==> if Settles(ops[m], views[m], results[m], id) then k == m else LastSettles(ops, views, results, id, k, m)
    {
      if k < m && LastSettles(ops, views, results, id, k, n) {
        assert !Settles(ops[m], views[m], results[m], id);
      }
    }
  }

  /** Over whole sessions, whatever else happened and failed: the answer is the one
      the last operation that settled it left, or, if none did, that of the start. */
  lemma {:induction false} AnswerFollowsLastOperation(text: Text, ops: seq<Op>, views: seq<View>, results: seq<Hresult>,
                                                      id: string, n: nat)
    requires IsRun(text, ops, views, results) && FlagExact(views[0]) && n <= |ops|
    ensures FlagExact(views[n])
    ensures NoneSettles(ops, views, results, id, n) ==> AnswerTo(views[n], id) == AnswerTo(views[0], id)
    ensures forall k :: LastSettles(ops, views, results, id, k, n) ==>
      AnswerTo(views[n], id) == Settled(text, ops[k], views[k], id)
    ensures NoneSettles(ops, views, results, id, n) || exists k :: LastSettles(ops, views, results, id, k, n)
  {
    if n > 0 {
      var m := n - 1;
      AnswerFollowsLastOperation(text, ops, views, results, id, m);
      assert Stepped(text, ops[m], views[m], views[m + 1], results[m]);
      StepKeepsFlag(text, ops[m], views[m], views[n], results[m]);
      AnswerStep(text, ops[m], views[m], views[n], results[m], id);
      LastSettlesStep(ops, views, results, id, m, n);
      if Settles(ops[m], views[m], results[m], id) {
        assert LastSettles(ops, views, results, id, m, n);
      } else if k :| LastSettles(ops, views, results, id, k, m) {
        assert LastSettles(ops, views, results, id, k, n);
      }
    }
  }

  /** The operation leaves the device enabled. */
  predicate Enables(text: Text, op: Op, v: View, id: string) {
    || op == Change(SetAutoConnect(id, true))
    || (op.Perform? && var imported := Imported(text, v.file, op.paired);
        imported.Some? && id in imported.value && imported.value[id].autoConnect == ENABLED)
  }

  /** A request is accepted exactly when the last operation that settled the answer
      enabled the device, or it was accepted at the start and none settled it. */
  lemma AcceptedIff(text: Text, ops: seq<Op>, views: seq<View>, results: seq<Hresult>, id: string)
    requires IsRun(text, ops, views, results) && FlagExact(views[0])
    ensures AnswerTo(views[|ops|], id) == Accept
       <==> || (exists k :: LastSettles(ops, views, results, id, k, |ops|) && Enables(text, ops[k], views[k], id))
            || (NoneSettles(ops, views, results, id, |ops|) && AnswerTo(views[0], id) == Accept)
  {
    AnswerFollowsLastOperation(text, ops, views, results, id, |ops|);
    if k :| LastSettles(ops, views, results, id, k, |ops|) {
      assert Settled(text, ops[k], views[k], id) == Accept <==> Enables(text, ops[k], views[k], id);
      forall j | LastSettles(ops, views, results, id, j, |ops|) ensures j == k {
        assert !(j < k) && !(k < j);
      }
    }
  }

  // ---------- power transitions ----------

  datatype PowerState = PowerUnknown | Off | Standby | On | LightSleep | DeepSleep

  datatype Command = Disconnect(id: string, handle: Int64, deviceType: string) | EnableAdapter

  predicate EntersStandby(current: PowerState, next: PowerState) {
    (current.On? || current.PowerUnknown?) && (next.Off? || next.Standby? || next.LightSleep?)
  }

  /** Remote controls always stay connected; entering standby spares every device
      not explicitly disabled; an id that is not a number is skipped. */
  predicate Disconnects(cache: Cache, id: string, onlyDisabled: bool)
    requires id in cache
  {
    && cache[id].deviceType != HUMAN_INTERFACE_DEVICE
    && (onlyDisabled ==> cache[id].autoConnect == DISABLED)
    && Decimal.Stoll(id).Some?
  }

  function DisconnectFor(cache: Cache, id: string): Command
    requires id in cache && Decimal.Stoll(id).Some?
  {
    Disconnect(id, Decimal.Stoll(id).value, cache[id].deviceType)
  }

  function DisconnectsOf(cache: Cache, onlyDisabled: bool): set<Command> {
    set id | id in cache && Disconnects(cache, id, onlyDisabled) :: DisconnectFor(cache, id)
  }

  function OtherThanHid(cache: Cache, ids: set<string>): set<string>
    requires ids <= cache.Keys
  {
    set id | id in ids && cache[id].deviceType != HUMAN_INTERFACE_DEVICE
  }

  /** The devices that matter on power on are counted in 16 bits. */
  const COUNTER_LIMIT: nat := 0x1_0000

  function PowerCommands(v: View, current: PowerState, next: PowerState): set<Command> {
    if !v.isMigrated || next == current then {}
    else if EntersStandby(current, next) then DisconnectsOf(v.cache, true)
    else if next.On? then
      (if |OtherThanHid(v.cache, v.cache.Keys)| % COUNTER_LIMIT > 0 then {EnableAdapter} else {})
    else if next.DeepSleep? then DisconnectsOf(v.cache, false)
    else {}
  }

  method IssueDisconnects(cache: Cache, onlyDisabled: bool) returns (commands: seq<Command>)
    ensures Enumerates(commands, DisconnectsOf(cache, onlyDisabled))
  {
    commands := [];
    var left := cache.Keys;
    while left != {}
      invariant left <= cache.Keys
      invariant Distinct(commands)
      invariant forall c :: c in commands <==>
        exists id :: id in cache.Keys - left && Disconnects(cache, id, onlyDisabled) && c == DisconnectFor(cache, id)
    {
      var id :| id in left;
      left := left - {id};
      if cache[id].deviceType == HUMAN_INTERFACE_DEVICE {
        continue;
      }
      if onlyDisabled && cache[id].autoConnect != DISABLED {
        continue;
      }
      var handle := Decimal.Stoll(id);
      if handle.Some? {
        assert DisconnectFor(cache, id) !in commands;
        commands := commands + [DisconnectFor(cache, id)];
      }
    }
  }

  method CountOtherThanHid(cache: Cache) returns (count: nat)
    ensures count == |OtherThanHid(cache, cache.Keys)| % COUNTER_LIMIT
  {
    count := 0;
    var left := cache.Keys;
    while left != {}
      invariant left <= cache.Keys
      invariant count == |OtherThanHid(cache, cache.Keys - left)| % COUNTER_LIMIT
    {
      var id :| id in left;
      ghost var before := OtherThanHid(cache, cache.Keys - left);
      left := left - {id};
      if cache[id].deviceType != HUMAN_INTERFACE_DEVICE {
        assert OtherThanHid(cache, cache.Keys - left) == before + {id};
        count := (count + 1) % COUNTER_LIMIT;
      } else {
        assert OtherThanHid(cache, cache.Keys - left) == before;
      }
    }
    assert cache.Keys - left == cache.Keys;
  }

  /** Each command is issued once. */
  method OnPowerModeChanged(manager: DeviceManager, current: PowerState, next: PowerState)
    returns (commands: seq<Command>)
    ensures Enumerates(commands, PowerCommands(manager.State(), current, next))
  {
    commands := [];
    if !manager.isMigrated || next == current {
      return;
    }
    var infos := manager.cache;
    if EntersStandby(current, next) {
      commands := IssueDisconnects(infos, true);
    } else if next.On? {
      var count := CountOtherThanHid(infos);
      if count > 0 {
        commands := [EnableAdapter];
      }
    } else if next.DeepSleep? {
      commands := IssueDisconnects(infos, false);
    }
  }

  // ---------- laws of the policy ----------

  /** Ids are platform handles in decimal, as every operation makes them. */
  ghost predicate CanonicalIds(cache: Cache) {
    forall id :: id in cache ==> exists handle: nat :: id == Decimal.Print(handle)
  }

  lemma {:induction false} AddressIndexIsCanonical(paired: seq<Paired>)
    ensures forall a :: a in AddressIndex(paired) ==>
      exists handle: nat :: AddressIndex(paired)[a] == Decimal.Print(handle)
  {
    if paired != [] {
      AddressIndexIsCanonical(paired[..|paired| - 1]);
      assert paired[|paired| - 1].Id() == Decimal.Print(paired[|paired| - 1].handle);
    }
  }

  lemma {:induction false} ImportIsCanonical(devices: seq<Info>, paired: seq<Paired>)
    ensures CanonicalIds(ImportRecords(devices, AddressIndex(paired)))
  {
    AddressIndexIsCanonical(paired);
    if devices != [] {
      ImportIsCanonical(devices[..|devices| - 1], paired);
    }
  }

  lemma RawImportIsCanonical(text: Text, file: Option<string>, paired: seq<Paired>)
    ensures CanonicalIds(RawImport(text, file, paired))
    ensures Imported(text, file, paired).Some? ==> CanonicalIds(Imported(text, file, paired).value)
  {
    if RawImport(text, file, paired) != map[] {
      ImportIsCanonical(PersistenceAdapter.Parsed(text, file.value).value, paired);
    }
    if Imported(text, file, paired).Some? && file.Some? && file.value != "" {
      ImportIsCanonical(PersistenceAdapter.Parsed(text, file.value).value, paired);
      ReconciledDomain(RawImport(text, file, paired), paired, true);
    }
  }

  /** Devices are paired by their handle. */
  ghost predicate PairsByHandle(op: Op) {
    op.Change? && op.m.Add? ==> exists handle: nat :: op.m.id == Decimal.Print(handle)
  }

  /** What is stored, if anything, is a cache with such ids. */
  ghost predicate CanonicalStore(text: Text, store: StoreValues) {
    DeviceInfo in store ==> exists cache :: Serializes(text, store[DeviceInfo], cache) && CanonicalIds(cache)
  }

  ghost predicate CanonicalView(text: Text, v: View) {
    CanonicalIds(v.cache) && CanonicalStore(text, v.store)
  }

  lemma StepKeepsCanonicalIds(text: Text, op: Op, v: View, w: View, r: Hresult)
    requires Stepped(text, op, v, w, r) && CanonicalView(text, v) && PairsByHandle(op)
    ensures CanonicalView(text, w)
  {
    match op
    case Perform(paired) => RawImportIsCanonical(text, v.file, paired);
    case Clear =>
    case Change(m) => assert w.cache.Keys <= v.cache.Keys + (if m.Add? then {m.id} else {});
  }

  /** In every run the ids cached and stored stay platform handles in decimal. */
  lemma {:induction false} RunKeepsCanonicalIds(text: Text, ops: seq<Op>, views: seq<View>, results: seq<Hresult>, n: nat)
    requires IsRun(text, ops, views, results) && CanonicalView(text, views[0]) && n <= |ops|
    requires forall k :: 0 <= k < |ops| ==> PairsByHandle(ops[k])
    ensures CanonicalView(text, views[n])
  {
    if n > 0 {
      RunKeepsCanonicalIds(text, ops, views, results, n - 1);
      assert PairsByHandle(ops[n - 1]);
      StepKeepsCanonicalIds(text, ops[n - 1], views[n - 1], views[n], results[n - 1]);
    }
  }

  /** ... and a start keeps them so, whatever the size of what is stored. */
  lemma StartKeepsCanonicalIds(text: Text, v: View, w: View, markerRead: bool, r: Hresult)
    requires text.Inverse() && CanonicalView(text, v) && Initialised(text, v, w, markerRead, r)
    ensures CanonicalView(text, w)
  {
    if DeviceInfo in v.store {
      var cache :| Serializes(text, v.store[DeviceInfo], cache) && CanonicalIds(cache);
      LoadedIds(text, v.store[DeviceInfo], cache);
    }
  }

  lemma DisconnectsOfIff(cache: Cache, onlyDisabled: bool, c: Command)
    ensures c in DisconnectsOf(cache, onlyDisabled) <==>
      && c.Disconnect? && c.id in cache && cache[c.id].deviceType == c.deviceType != "HUMAN INTERFACE DEVICE"
      && Decimal.Stoll(c.id) == Some(c.handle) && (onlyDisabled ==> cache[c.id].autoConnect == DISABLED)
  {
    if c.Disconnect? && c.id in cache && Disconnects(cache, c.id, onlyDisabled) {
      assert DisconnectFor(cache, c.id) in DisconnectsOf(cache, onlyDisabled);
    }
  }

  /** The whole table of power transitions: which commands are issued, and no other. */
  lemma PowerTable(v: View, current: PowerState, next: PowerState, c: Command)
    ensures c in PowerCommands(v, current, next) <==>
      && v.isMigrated && next != current
      && match c
         case EnableAdapter =>
           next == On && |OtherThanHid(v.cache, v.cache.Keys)| % 0x1_0000 > 0
         case Disconnect(id, handle, deviceType) =>
           && id in v.cache && v.cache[id].deviceType == deviceType != "HUMAN INTERFACE DEVICE"
           && Decimal.Stoll(id) == Some(handle)
           && (next == DeepSleep
               || (current in {On, PowerUnknown} && next in {Off, Standby, LightSleep} && v.cache[id].autoConnect == DISABLED))
  {
    DisconnectsOfIff(v.cache, true, c);
    DisconnectsOfIff(v.cache, false, c);
  }

  /** Entering standby from on, or from an unknown state, disconnects a device
      exactly when it is no remote control, was explicitly disabled and has a handle
      that fits `long long`. */
  lemma StandbyReach(v: View, current: PowerState, next: PowerState, handle: nat)
    requires v.isMigrated && Decimal.Print(handle) in v.cache
    requires current in {On, PowerUnknown} && next in {Off, Standby, LightSleep}
    ensures (exists c :: c in PowerCommands(v, current, next) && c.Disconnect? && c.id == Decimal.Print(handle))
      <==> v.cache[Decimal.Print(handle)].deviceType != "HUMAN INTERFACE DEVICE"
           && v.cache[Decimal.Print(handle)].autoConnect == DISABLED && handle <= 0x7FFF_FFFF_FFFF_FFFF
  {
    var id := Decimal.Print(handle);
    if handle > INT64_MAX {
      LargeHandleIsNoNumber(handle);
    } else {
      Decimal.ParsePrint(handle);
      PowerTable(v, current, next, Disconnect(id, handle, v.cache[id].deviceType));
    }
    forall c: Command | c.Disconnect? && c.id == id && c in PowerCommands(v, current, next)
      ensures v.cache[id].deviceType != "HUMAN INTERFACE DEVICE" && v.cache[id].autoConnect == DISABLED
    {
      PowerTable(v, current, next, c);
    }
  }

  /** Transitions under no rule issue nothing: before migration, without a change,
      into standby from anywhere but on or unknown, and into unknown. */
  lemma NoRuleNoCommand(v: View, current: PowerState, next: PowerState)
    requires || !v.isMigrated || next == current || next == PowerUnknown
             || (next in {Off, Standby, LightSleep} && current !in {On, PowerUnknown})
    ensures PowerCommands(v, current, next) == {}
  {
  }

  /** A device the platform calls a remote control, once added, is neither mirrored
      nor disconnected by any power transition. */
  lemma AddedRemoteControl(text: Text, v: View, w: View, r: Hresult, id: string, device: Paired)
    requires Mutated(text, Add(id, Some(device)), v, w, r) && Decimal.Stoll(id).Some?
    requires device.deviceType == "HUMAN INTERFACE DEVICE"
    ensures id in w.cache && id !in WithoutHid(w.cache)
    ensures forall current, next, c :: c in PowerCommands(w, current, next) && c.Disconnect? ==> c.id != id
  {
    assert w.cache[id] == AddedInfo(id, device);
    forall current, next, c: Command | c in PowerCommands(w, current, next) && c.Disconnect? ensures c.id != id {
      PowerTable(w, current, next, c);
    }
  }

  /** No power transition disconnects a remote control, standby disconnects no
      more than deep sleep, and a device whose request would be accepted is never
      disconnected by entering standby. */
  lemma PowerPolicy(v: View, current: PowerState, next: PowerState, c: Command)
    requires c in PowerCommands(v, current, next) && c.Disconnect?
    ensures v.isMigrated && c.id in v.cache && v.cache[c.id].deviceType != HUMAN_INTERFACE_DEVICE
    ensures !current.DeepSleep? ==> c in PowerCommands(v, current, DeepSleep)
    ensures EntersStandby(current, next) && CanonicalIds(v.cache) ==>
      forall handle: nat :: handle as int == c.handle ==> AnswerTo(v, Decimal.Print(handle)) == Reject
  {
    if EntersStandby(current, next) && CanonicalIds(v.cache) {
      var handle: nat :| c.id == Decimal.Print(handle);
      assert c.handle == Decimal.Stoll(c.id).value;
      if handle <= INT64_MAX {
        Decimal.ParsePrint(handle);
      } else {
        LargeHandleIsNoNumber(handle);
      }
    }
  }

  /** Powering on enables the adapter exactly when a device other than a remote
      control is cached, as long as there are fewer than 65536 of them. */
  lemma PowerOnEnables(v: View, current: PowerState)
    requires v.isMigrated && !current.On? && |v.cache| < COUNTER_LIMIT
    ensures EnableAdapter in PowerCommands(v, current, On)
      <==> exists id :: id in v.cache && v.cache[id].deviceType != HUMAN_INTERFACE_DEVICE
  {
    var counted := OtherThanHid(v.cache, v.cache.Keys);
    SubsetSize(counted, v.cache.Keys);
    assert |v.cache.Keys| == |v.cache|;
    if id :| id in v.cache && v.cache[id].deviceType != HUMAN_INTERFACE_DEVICE {
      assert id in counted;
    }
    if |counted| > 0 {
      var id :| id in counted;
    }
  }

  lemma {:induction false} SubsetSize(a: set<string>, b: set<string>)
    requires a <= b
    ensures |a| <= |b|
  {
    if a != {} {
      var x :| x in a;
      SubsetSize(a - {x}, b - {x});
    }
  }

  lemma LargeHandleIsNoNumber(handle: nat)
    requires handle > INT64_MAX
    ensures Decimal.Stoll(Decimal.Print(handle)).None?
  {
    Decimal.PrintHasNoNul(handle);
    Decimal.PrintSpells(handle);
    Decimal.StrtollOfPrefix(Decimal.Print(handle), 0, 0, |Decimal.Print(handle)|, handle);
  }

  /** A device whose handle does not fit `long long` is in the cache but out of
      the reach of every power transition; below that bound deep sleep reaches
      every device but the remote controls. */
  lemma DeepSleepReach(v: View, current: PowerState, handle: nat)
    requires v.isMigrated && !current.DeepSleep? && Decimal.Print(handle) in v.cache
    ensures (exists c :: c in PowerCommands(v, current, DeepSleep) && c.Disconnect? && c.id == Decimal.Print(handle))
      <==> v.cache[Decimal.Print(handle)].deviceType != HUMAN_INTERFACE_DEVICE && handle <= 0x7FFF_FFFF_FFFF_FFFF
  {
    var id := Decimal.Print(handle);
    if handle > INT64_MAX {
      LargeHandleIsNoNumber(handle);
    } else {
      Decimal.ParsePrint(handle);
      if v.cache[id].deviceType != HUMAN_INTERFACE_DEVICE {
        assert DisconnectFor(v.cache, id) in DisconnectsOf(v.cache, false);
      }
    }
  }

  // ---------- pairing ----------

  /** A client's id as the platform's unsigned handle. */
  function HandleOf(deviceID: Int64): (handle: nat)
    ensures handle == if deviceID >= 0 then deviceID else deviceID + 0x1_0000_0000_0000_0000
  {
    deviceID % HANDLE_LIMIT
  }

  /** What the platform can answer about a handle. */
  predicate KnownDevice(known: map<Int64, Paired>, handle: Option<Int64>, device: Option<Paired>) {
    device.Some? ==> handle.Some? && handle.value in known && device.value == known[handle.value]
  }

  /** `setDevicePairing`: `works` tells whether the platform pairs or unpairs. A
      negative id is a handle beyond `long long`, so pairing one succeeds and yet
      never reaches the cache. */
  method SetDevicePairing(manager: DeviceManager, deviceID: Int64, pair: bool, works: bool) returns (ok: bool)
    requires manager.Valid()
    modifies manager, manager.store, manager.fs
    ensures manager.Valid() && ok == works
    ensures !works || (pair && deviceID < 0) ==> manager.State() == old(manager.State())
    ensures works && pair ==>
      var id := Decimal.Print(if deviceID >= 0 then deviceID else deviceID + 0x1_0000_0000_0000_0000);
      exists device, r :: KnownDevice(manager.platform.known, Decimal.Stoll(id), device)
                          && Mutated(manager.text, Add(id, device), old(manager.State()), manager.State(), r)
    ensures works && !pair ==>
      var id := Decimal.Print(if deviceID >= 0 then deviceID else deviceID + 0x1_0000_0000_0000_0000);
      exists r :: Mutated(manager.text, Remove(id), old(manager.State()), manager.State(), r)
  {
    if !works {
      return false;
    }
    var id := Decimal.Print(HandleOf(deviceID));
    if deviceID < 0 {
      LargeHandleIsNoNumber(HandleOf(deviceID));
    }
    if pair {
      var r, device := manager.AddDevice(id);
    } else {
      var r := manager.RemoveDevice(id);
    }
    ok := true;
  }

  // ---------- start ----------

  /** A connected device as the platform lists it. */
  datatype Connected = Connected(handle: nat, deviceType: string)

  /** `getAutoConnect` as the connected list shows it: None when it failed. */
  function ShownAutoConnect(v: View, id: string): Option<bool> {
    if !v.isMigrated then Some(false)
    else if id !in v.cache then None
    else Some(v.cache[id].autoConnect == ENABLED)
  }

  /** The startup rule: not a remote control, shown as not enabled, and with an
      id the conversion accepts. Before migration everything is shown so. */
  predicate DroppedAtStart(v: View, d: Connected) {
    && d.deviceType != HUMAN_INTERFACE_DEVICE
    && ShownAutoConnect(v, Decimal.Print(d.handle)) == Some(false)
    && Decimal.Stoll(Decimal.Print(d.handle)).Some?
  }

  /** The devices dropped, in the order listed. */
  function AllDropped(v: View, connected: seq<Connected>): (dropped: seq<Connected>)
    ensures forall d :: d in dropped <==> d in connected && DroppedAtStart(v, d)
  {
    if connected == [] then []
    else
      var last := |connected| - 1;
      assert connected == connected[..last] + [connected[last]];
      AllDropped(v, connected[..last]) + if DroppedAtStart(v, connected[last]) then [connected[last]] else []
  }

  /** A device listed twice is dropped twice. */
  lemma {:induction false} DroppedAsOften(v: View, connected: seq<Connected>, d: Connected)
    ensures multiset(AllDropped(v, connected))[d] == if DroppedAtStart(v, d) then multiset(connected)[d] else 0
  {
    if connected != [] {
      var last := |connected| - 1;
      assert connected == connected[..last] + [connected[last]];
      DroppedAsOften(v, connected[..last], d);
    }
  }

  method DisconnectExternallyConnected(manager: DeviceManager, connected: seq<Connected>)
    returns (dropped: seq<Connected>)
    ensures dropped == AllDropped(manager.State(), connected)
  {
    dropped := [];
    var i := 0;
    while i < |connected|
      invariant 0 <= i <= |connected|
      invariant dropped == AllDropped(manager.State(), connected[..i])
    {
      var d := connected[i];
      var id := Decimal.Print(d.handle);
      var result, status := manager.GetAutoConnect(id);
      assert connected[..i + 1][..i] == connected[..i];
      if result == ErrorNone && status != UNSET && status != ENABLED && d.deviceType != HUMAN_INTERFACE_DEVICE {
        var handle := Decimal.Stoll(id);
        if handle.Some? {
          dropped := dropped + [d];
        }
      }
      i := i + 1;
    }
    assert connected[..i] == connected;
  }

  /** Once migrated, the cleanup at start drops exactly the connected devices,
      remote controls and oversized handles apart, whose own request would be
      rejected; before migration it drops all of them. */
  lemma StartAgreesWithAnswers(v: View, d: Connected)
    ensures DroppedAtStart(v, d) <==>
      && d.deviceType != HUMAN_INTERFACE_DEVICE && d.handle <= 0x7FFF_FFFF_FFFF_FFFF
      && (v.isMigrated ==> AnswerTo(v, Decimal.Print(d.handle)) == Reject)
  {
    if d.handle <= INT64_MAX {
      Decimal.ParsePrint(d.handle);
    } else {
      LargeHandleIsNoNumber(d.handle);
    }
  }
}
