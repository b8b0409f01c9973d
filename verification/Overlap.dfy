/** Exactly when overlapping calls do no harm: when a touch acts as one step, when
    a cleared store stays clear, and when the store is level with the cache. */
module Overlap {
  import opened Prelude
  import opened Json
  import opened Devices
  import opened StoreCodec
  import opened ManagerSpec
  import opened Concurrency
  import opened ConcurrencySafety
  import opened History
  import opened CommitHistory
  import opened KnownGaps
  import Decimal

  // ---------- a touch as one step ----------

  predicate SameButTime(a: Info, b: Info) {
    a == b.(lastConnectTimeUtc := a.lastConnectTimeUtc)
  }

  /** The step from `s` to `next` is the whole mutation `m`. */
  predicate ActsAs(m: Mutation, s: System, next: System) {
    MutationError(s.mem.cache, m) == ErrorNone && next.mem.cache == Mutate(s.mem.cache, m)
  }

  /** In every execution, the second lock section of a `setLastConnectTimeUtc`
      amounts to the whole call made at that moment exactly when the entry is, but
      for its time, still (or again) the one the first section read: nothing is
      lost or revived then, and otherwise something is. */
  lemma TouchIsOneStepIff(text: Text, states: seq<System>, actions: seq<Action>, j: nat, t: int)
    returns (i: nat, id: string, time: string)
    requires Execution(text, states, actions) && j < |actions|
    requires t in states[j].mutators && states[j].mutators[t].PutBack?
    requires actions[j].MutatorStep? && actions[j].t == t
    ensures i < j && IsAt(states[i], t, Fetch(id, time)) && actions[i].MutatorStep? && actions[i].t == t
    ensures id in states[i].mem.cache
    ensures forall k :: i < k <= j ==> IsAt(states[k], t, states[j].mutators[t])
    ensures ActsAs(Touch(id, time), states[j], states[j + 1])
       <==> id in states[j].mem.cache && SameButTime(states[j].mem.cache[id], states[i].mem.cache[id])
  {
    i := CallerCameFrom(text, states, actions, j, t);
    var pc := states[i].mutators[t];
    assert pc.Fetch? by {
      PutBackAfterFetch(text, states[i].mem, pc, actions[i].io);
    }
    id, time := pc.id, pc.time;
    var now := states[j].mem.cache;
    var info := states[i].mem.cache[id].(lastConnectTimeUtc := time);
    assert states[j].mutators[t] == PutBack(id, info);
    CallersAreUp(text, states, actions, j);
    assert states[j + 1].mem.cache == now[id := info];
    if ActsAs(Touch(id, time), states[j], states[j + 1]) {
      assert now[id := info][id] == now[id].(lastConnectTimeUtc := time);
    }
  }

  lemma PutBackAfterFetch(text: Text, mem: Shared, pc: Mutator, io: Io)
    ensures var r := StepMutator(text, mem, pc, io);
      r.next.Some? && r.next.value.PutBack? ==>
        pc.Fetch? && pc.id in mem.cache
        && r.next.value == PutBack(pc.id, mem.cache[pc.id].(lastConnectTimeUtc := pc.time))
  {
  }

  lemma CallersAreUp(text: Text, states: seq<System>, actions: seq<Action>, n: nat)
    requires Execution(text, states, actions) && n <= |actions| && states[n].mutators != map[]
    ensures states[n].up
  {
    LockProtocol(text, states, actions, n);
  }

  // ---------- a cleared store stays clear ----------

  /** The caller is past its flag test and its store is still to come. */
  predicate MayYetStore(pc: Mutator) {
    match pc
    case Saving(w) => w.Serialize? || w.Store?
    case Update(m) => m.SetAutoConnect?
    case _ => false
  }

  /** The caller is about to put `id` in the cache. */
  predicate BringsIn(pc: Mutator, id: string) {
    match pc
    case PutBack(other, _) => other == id
    case Update(m) => m.Add? && m.id == id && MutationError(map[], m) == ErrorNone
    case _ => false
  }

  /** Device `id` is cached, or some pending or later call may bring it in; `pairable`
      says which ids later calls add. */
  predicate MayBeCached(s: System, id: string, pairable: string -> bool) {
    || id in s.mem.cache
    || (pairable(id) && Decimal.Stoll(id).Some?)
    || exists t :: t in s.mutators && BringsIn(s.mutators[t], id)
  }

  /** ... and its store will not fail for lack of the device. */
  predicate WillStore(s: System, pc: Mutator, pairable: string -> bool) {
    MayYetStore(pc) && (pc.Update? ==> MayBeCached(s, pc.m.id, pairable))
  }

  predicate CallersOnly(actions: seq<Action>, pairable: string -> bool) {
    forall k :: 0 <= k < |actions| ==>
      actions[k].MutatorStep? || (actions[k].Call? && (actions[k].m.Add? ==> pairable(actions[k].m.id)))
  }

  /** Whatever callers come and go, `deviceInfo` does not appear. */
  ghost predicate StaysClear(text: Text, s: System, pairable: string -> bool) {
    forall actions :: CallersOnly(actions, pairable) ==> DeviceInfo !in After(text, s, actions).mem.store
  }

  /** The flag is down, nothing is stored, and no caller will store. */
  predicate SafelyClear(s: System, pairable: string -> bool) {
    && s.up && !s.mem.isMigrated && DeviceInfo !in s.mem.store
    && forall t :: t in s.mutators ==> !WillStore(s, s.mutators[t], pairable)
  }

  lemma SafeCallerStep(text: Text, mem: Shared, pc: Mutator, io: Io)
    requires !mem.isMigrated && (MayYetStore(pc) ==> pc.Update? && pc.m.id !in mem.cache)
    ensures var r := StepMutator(text, mem, pc, io);
      && !r.mem.isMigrated && r.mem.store == mem.store
      && (r.next.Some? ==> !MayYetStore(r.next.value))
      && forall id :: (r.next.Some? && BringsIn(r.next.value, id)) || id in r.mem.cache ==> BringsIn(pc, id) || id in mem.cache
  {
  }

  /** No step of a caller, and no call to an id that may not be paired, widens the
      set of ids that may be cached. */
  lemma MayBeCachedShrinks(text: Text, s: System, a: Action, pairable: string -> bool, id: string)
    requires SafelyClear(s, pairable) && CallersOnly([a], pairable)
    requires MayBeCached(Step(text, s, a), id, pairable)
    ensures MayBeCached(s, id, pairable)
  {
    assert [a][0] == a;
    var now := Step(text, s, a);
    if a.MutatorStep? && a.t in s.mutators {
      assert !WillStore(s, s.mutators[a.t], pairable);
      SafeCallerStep(text, s.mem, s.mutators[a.t], a.io);
    }
    if t :| t in now.mutators && BringsIn(now.mutators[t], id) {
      assert t in s.mutators && now.mutators[t] == s.mutators[t] ==> BringsIn(s.mutators[t], id);
    }
  }

  lemma SafelyClearStep(text: Text, s: System, a: Action, pairable: string -> bool)
    requires SafelyClear(s, pairable) && CallersOnly([a], pairable)
    ensures SafelyClear(Step(text, s, a), pairable)
  {
    assert [a][0] == a;
    var now := Step(text, s, a);
    if a.MutatorStep? && a.t in s.mutators {
      assert !WillStore(s, s.mutators[a.t], pairable);
      SafeCallerStep(text, s.mem, s.mutators[a.t], a.io);
    }
    forall t | t in now.mutators ensures !WillStore(now, now.mutators[t], pairable) {
      if WillStore(now, now.mutators[t], pairable) {
        assert t in s.mutators && now.mutators[t] == s.mutators[t];
        assert !WillStore(s, s.mutators[t], pairable);
        MayBeCachedShrinks(text, s, a, pairable, s.mutators[t].m.id);
        assert false;
      }
    }
  }

  lemma {:induction false} SafelyClearStays(text: Text, s: System, actions: seq<Action>, pairable: string -> bool)
    requires SafelyClear(s, pairable) && CallersOnly(actions, pairable)
    ensures DeviceInfo !in After(text, s, actions).mem.store
    decreases |actions|
  {
    if actions != [] {
      assert CallersOnly([actions[0]], pairable);
      SafelyClearStep(text, s, actions[0], pairable);
      SafelyClearStays(text, Step(text, s, actions[0]), actions[1..], pairable);
    }
  }

  lemma Fresh(threads: set<int>) returns (t: int)
    ensures forall k :: k in threads ==> k < t
    decreases |threads|
  {
    t := 0;
    if k :| k in threads {
      var rest := Fresh(threads - {k});
      t := if rest > k then rest else k + 1;
      assert forall j :: j in threads ==> j in threads - {k} || j == k;
    }
  }

  lemma StoreStillLands(text: Text, s: System, t: int, pairable: string -> bool) returns (actions: seq<Action>)
    requires s.up && t in s.mutators && s.mutators[t].Saving? && s.mutators[t].w.Store?
    ensures CallersOnly(actions, pairable) && DeviceInfo in After(text, s, actions).mem.store
  {
    actions := [MutatorStep(t, WORKS)] + [];
    AfterOne(text, s, MutatorStep(t, WORKS), []);
  }

  lemma SerializeStillLands(text: Text, s: System, t: int, pairable: string -> bool) returns (actions: seq<Action>)
    requires s.up && t in s.mutators && s.mutators[t] == Saving(Serialize)
    ensures CallersOnly(actions, pairable) && DeviceInfo in After(text, s, actions).mem.store
  {
    var order := EnumerationExists(s.mem.cache.Keys);
    var a := MutatorStep(t, WORKS.(order := order));
    var rest := StoreStillLands(text, Step(text, s, a), t, pairable);
    actions := [a] + rest;
    AfterOne(text, s, a, rest);
  }

  lemma KnownUpdateLands(text: Text, s: System, t: int, id: string, enable: bool, pairable: string -> bool)
    returns (actions: seq<Action>)
    requires s.up && IsAt(s, t, Update(SetAutoConnect(id, enable))) && id in s.mem.cache
    ensures CallersOnly(actions, pairable) && DeviceInfo in After(text, s, actions).mem.store
  {
    var a := MutatorStep(t, WORKS);
    var rest := SerializeStillLands(text, Step(text, s, a), t, pairable);
    actions := [a] + rest;
    AfterOne(text, s, a, rest);
  }

  /** The device is brought in by a caller already on its way. */
  lemma BroughtInUpdateLands(text: Text, s: System, t: int, id: string, enable: bool, other: int, pairable: string -> bool)
    returns (actions: seq<Action>)
    requires s.up && IsAt(s, t, Update(SetAutoConnect(id, enable)))
    requires other in s.mutators && BringsIn(s.mutators[other], id)
    ensures CallersOnly(actions, pairable) && DeviceInfo in After(text, s, actions).mem.store
  {
    var a := MutatorStep(other, WORKS);
    var next := Step(text, s, a);
    assert id in next.mem.cache && IsAt(next, t, Update(SetAutoConnect(id, enable)));
    var rest := KnownUpdateLands(text, next, t, id, enable, pairable);
    actions := [a] + rest;
    AfterOne(text, s, a, rest);
  }

  /** A `setAutoConnect` past its flag test stores if its device is cached, or only
      added after the clear. */
  lemma UpdateStillLands(text: Text, s: System, t: int, id: string, enable: bool, pairable: string -> bool)
    returns (actions: seq<Action>)
    requires s.up && IsAt(s, t, Update(SetAutoConnect(id, enable))) && MayBeCached(s, id, pairable)
    ensures CallersOnly(actions, pairable) && DeviceInfo in After(text, s, actions).mem.store
  {
    if id in s.mem.cache {
      actions := KnownUpdateLands(text, s, t, id, enable, pairable);
    } else if other :| other in s.mutators && BringsIn(s.mutators[other], id) {
      actions := BroughtInUpdateLands(text, s, t, id, enable, other, pairable);
    } else {
      var other := Fresh(s.mutators.Keys);
      assert other !in s.mutators;
      var a := Call(other, Add(id, Some(Paired(0, UNKNOWN, "", ""))));
      var next := Step(text, s, a);
      assert IsAt(next, t, Update(SetAutoConnect(id, enable)));
      var rest := BroughtInUpdateLands(text, next, t, id, enable, other, pairable);
      actions := [a] + rest;
      AfterOne(text, s, a, rest);
    }
  }

  /** Once cleared, `deviceInfo` stays away, whatever callers do until the next
      migration, exactly when none of them is past its flag test with a store still
      to come; a pending `setAutoConnect` counts only if its device is cached, about
      to be put there, or may be paired later, which takes an id that reads as a number. */
  lemma StaysClearIff(text: Text, s: System, pairable: string -> bool)
    requires s.up && !s.mem.isMigrated && DeviceInfo !in s.mem.store
    ensures StaysClear(text, s, pairable) <==> forall t :: t in s.mutators ==> !WillStore(s, s.mutators[t], pairable)
  {
    if forall t :: t in s.mutators ==> !WillStore(s, s.mutators[t], pairable) {
      forall actions | CallersOnly(actions, pairable) ensures DeviceInfo !in After(text, s, actions).mem.store {
        SafelyClearStays(text, s, actions, pairable);
      }
    } else {
      var t :| t in s.mutators && WillStore(s, s.mutators[t], pairable);
      var actions: seq<Action>;
      match s.mutators[t]
      case Saving(w) =>
        if w.Store? {
          actions := StoreStillLands(text, s, t, pairable);
        } else {
          actions := SerializeStillLands(text, s, t, pairable);
        }
      case Update(m) => actions := UpdateStillLands(text, s, t, m.id, m.enable, pairable);
    }
  }

  // ---------- new data under a new marker ----------

  /** While the import runs nobody gets past the flag test. */
  lemma {:induction false} NobodyPending(text: Text, states: seq<System>, actions: seq<Action>, i: nat, j: nat)
    requires Execution(text, states, actions) && i <= j <= |actions| && OneSession(states, i, j)
    requires forall t :: t in states[i].mutators ==> !MayYetStore(states[i].mutators[t])
    ensures forall t :: t in states[j].mutators ==> !MayYetStore(states[j].mutators[t])
  {
    if i < j {
      NobodyPending(text, states, actions, i, j - 1);
      LockProtocol(text, states, actions, j - 1);
      var s, a := states[j - 1], actions[j - 1];
      if a.MutatorStep? && a.t in s.mutators {
        SafeCallerStep(text, s.mem, s.mutators[a.t], a.io);
      }
    }
  }

  /** A store of the holder after the import's own serialize step is not older than it. */
  lemma HolderStoreIsNew(text: Text, states: seq<System>, actions: seq<Action>, tr: Trail, u: nat, k: nat)
    requires Execution(text, states, actions) && CompleteImport(text, states, actions, tr)
    requires tr.store <= u < |actions| && actions[u].HolderStep? && StoresInfo(states[u], actions[u])
    requires SerializedAt(text, states, actions, k, u)
    ensures tr.serialize <= k
  {
    WriterSince(text, states, actions, k, u, tr.serialize);
    WriterSince(text, states, actions, k, u, tr.store);
  }

  /** Where the thread that stores at `u` stands from its serialize step on. */
  lemma WriterSince(text: Text, states: seq<System>, actions: seq<Action>, k: nat, u: nat, j: nat)
    requires u < |actions| < |states| && j < |states| && StoresInfo(states[u], actions[u])
    requires SerializedAt(text, states, actions, k, u)
    ensures var w := ActingWriter(states[j], actions[u]);
      && (j == k ==> w == Some(Serialize))
      && (k < j <= u ==> w.Some? && w.value.Store?)
  {
  }

  lemma NotWriting(s: System, a: Action)
    requires a.MutatorStep? && forall t :: t in s.mutators ==> !MayYetStore(s.mutators[t])
    ensures var w := ActingWriter(s, a); w.Some? ==> !w.value.Serialize? && !w.value.Store?
  {
  }

  /** ... nor is that of a caller, if none was pending when the import began. */
  lemma CallerStoreIsNew(text: Text, states: seq<System>, actions: seq<Action>, tr: Trail, u: nat, k: nat)
    requires Execution(text, states, actions) && CompleteImport(text, states, actions, tr)
    requires forall t :: t in states[tr.read].mutators ==> !MayYetStore(states[tr.read].mutators[t])
    requires tr.store <= u < |actions| && actions[u].MutatorStep? && StoresInfo(states[u], actions[u])
    requires SerializedAt(text, states, actions, k, u)
    ensures tr.serialize <= k
  {
    var j := if tr.read < k < tr.serialize then k else tr.read;
    NobodyPending(text, states, actions, tr.read, j);
    WriterSince(text, states, actions, k, u, j);
    NotWriting(states[j], actions[u]);
  }

  /** If nobody is past the flag test with a store to come when the import reads the
      file, then all data stored under its marker was serialized at the import's own
      serialize step or after it: nothing older can come back. */
  lemma DataUnderMarkerIsNew(text: Text, states: seq<System>, actions: seq<Action>, tr: Trail, n: nat, u: nat, k: nat)
    requires Execution(text, states, actions) && CompleteImport(text, states, actions, tr) && tr.commit < n <= |actions|
    requires forall t :: t in states[tr.read].mutators ==> !MayYetStore(states[tr.read].mutators[t])
    requires LastStore(states, actions, u, n) && SerializedAt(text, states, actions, k, u)
    ensures tr.serialize <= k
  {
    assert StoresInfo(states[tr.store], actions[tr.store]);
    assert tr.store <= u;
    if actions[u].HolderStep? {
      HolderStoreIsNew(text, states, actions, tr, u, k);
    } else {
      CallerStoreIsNew(text, states, actions, tr, u, k);
    }
  }

  // ---------- the store level with the cache ----------

  /** The caches agree on which devices there are and on every persisted field. */
  predicate SamePersisted(a: Cache, b: Cache) {
    && a.Keys == b.Keys
    && forall id :: id in a ==>
         && a[id].deviceType == b[id].deviceType && a[id].autoConnect == b[id].autoConnect
         && a[id].lastConnectTimeUtc == b[id].lastConnectTimeUtc
         && a[id].lastVolumeSetting == b[id].lastVolumeSetting
  }

  lemma SamePersistedIff(a: Cache, b: Cache)
    ensures SamePersisted(a, b) <==> Persisted(a) == Persisted(b)
  {
    if Persisted(a) == Persisted(b) {
      assert a.Keys == Persisted(a).Keys == Persisted(b).Keys == b.Keys;
      forall id | id in a
        ensures a[id].(deviceAddr := "", friendlyName := "") == b[id].(deviceAddr := "", friendlyName := "")
      {
        assert Persisted(a)[id] == Persisted(b)[id];
      }
    }
    if SamePersisted(a, b) {
      assert Persisted(a).Keys == Persisted(b).Keys;
    }
  }

  /** In every execution, a restart under the marker loads the persisted fields of
      the current cache exactly when they are those of the cache at `k`, where the
      text last stored, at `u`, was serialized. */
  lemma RestartIsCurrentIff(text: Text, states: seq<System>, actions: seq<Action>, n: nat, u: nat, k: nat)
    requires text.Inverse() && Execution(text, states, actions) && n <= |actions| && Marked(states[n].mem.store)
    requires LastStore(states, actions, u, n) && SerializedAt(text, states, actions, k, u)
    requires |states[k].mem.cache| < ARRAY_LENGTH_LIMIT
    ensures RestartedCache(text, states[n]) == Persisted(states[n].mem.cache)
       <==> SamePersisted(states[k].mem.cache, states[n].mem.cache)
  {
    RestartLoadsLastStore(text, states, actions, n, u, k);
    SamePersistedIff(states[k].mem.cache, states[n].mem.cache);
  }

  /** The last store carried the persisted fields of the current cache. */
  predicate Level(mem: Shared) {
    mem.saved.Wrote? && SamePersisted(mem.saved.cache, mem.cache)
  }

  /** Where a lone caller stands, the store is level or the caller is about to
      make it so. */
  predicate LevelOrPending(mem: Shared, pc: Mutator) {
    match pc
    case TestMigrated => true
    case Saving(Serialize) => true
    case Saving(Store(_, cache)) => cache == mem.cache
    case _ => Level(mem)
  }

  /** Migrated, at most one caller, and the store level but for what it is doing. */
  predicate InTurn(s: System) {
    && s.up && s.mem.isMigrated && s.holder == None
    && (forall t, other :: t in s.mutators && other in s.mutators ==> t == other)
    && (s.mutators == map[] ==> Level(s.mem))
    && forall t :: t in s.mutators ==> LevelOrPending(s.mem, s.mutators[t])
  }

  /** Calls do not overlap and no store fails. */
  predicate TakesTurns(s: System, a: Action) {
    match a
    case Call(_, _) => s.mutators == map[]
    case MutatorStep(_, io) => ActingWriter(s, a).Some? && ActingWriter(s, a).value.Store? ==> io.ok
    case FileChanged(_) => true
    case _ => false
  }

  lemma LevelCallerStep(text: Text, mem: Shared, pc: Mutator, io: Io)
    requires mem.isMigrated && LevelOrPending(mem, pc)
    requires pc.Saving? && pc.w.Store? ==> io.ok
    ensures var r := StepMutator(text, mem, pc, io);
      r.mem.isMigrated && if r.next.Some? then LevelOrPending(r.mem, r.next.value) else Level(r.mem)
  {
  }

  lemma TurnKept(text: Text, s: System, a: Action)
    requires InTurn(s) && TakesTurns(s, a)
    ensures InTurn(Step(text, s, a))
  {
    if a.MutatorStep? && a.t in s.mutators {
      LevelCallerStep(text, s.mem, s.mutators[a.t], a.io);
      var next := StepMutator(text, s.mem, s.mutators[a.t], a.io).next;
      var now := Step(text, s, a);
      if next.Some? {
        assert a.t in now.mutators;
      } else {
        assert forall t :: t in s.mutators ==> t == a.t;
        assert now.mutators == map[];
      }
    }
  }

  lemma {:induction false} TurnsKept(text: Text, states: seq<System>, actions: seq<Action>, i: nat, n: nat)
    requires Execution(text, states, actions) && i <= n <= |actions| && InTurn(states[i])
    requires forall k :: i <= k < n ==> TakesTurns(states[k], actions[k])
    ensures InTurn(states[n])
  {
    if i < n {
      TurnsKept(text, states, actions, i, n - 1);
      TurnKept(text, states[n - 1], actions[n - 1]);
    }
  }

  lemma LevelRestart(text: Text, states: seq<System>, actions: seq<Action>, n: nat)
    requires text.Inverse() && Execution(text, states, actions) && n <= |actions| && Marked(states[n].mem.store)
    requires Level(states[n].mem) && |states[n].mem.cache| < ARRAY_LENGTH_LIMIT
    ensures RestartedCache(text, states[n]) == Persisted(states[n].mem.cache)
  {
    var saved, cache := states[n].mem.saved.cache, states[n].mem.cache;
    assert |saved| == |saved.Keys| == |cache.Keys| == |cache|;
    DurableAcrossRestart(text, states, actions, n);
    SamePersistedIff(saved, cache);
  }

  /** Calls that do not overlap, and whose stores work, keep the store level: at
      rest a restart would load the persisted fields of the very cache held. */
  lemma TurnsKeepLevel(text: Text, states: seq<System>, actions: seq<Action>, i: nat, n: nat)
    requires text.Inverse() && Execution(text, states, actions) && i <= n <= |actions|
    requires Idle(states[i]) && states[i].mem.isMigrated && Level(states[i].mem)
    requires forall k :: i <= k < n ==> TakesTurns(states[k], actions[k])
    requires Idle(states[n]) && |states[n].mem.cache| < ARRAY_LENGTH_LIMIT
    ensures RestartedCache(text, states[n]) == Persisted(states[n].mem.cache)
  {
    TurnsKept(text, states, actions, i, n);
    LockProtocol(text, states, actions, n);
    LevelRestart(text, states, actions, n);
  }
}
