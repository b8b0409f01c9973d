/** Executions read backwards: the step that brought a thread where it stands, and
    the one store action the stored `deviceInfo` stems from. */
module History {
  import opened Prelude
  import opened Json
  import opened Devices
  import opened StoreCodec
  import opened ManagerSpec
  import opened Concurrency
  import opened ConcurrencySafety

  // ---------- where a thread came from ----------

  /** The step that brought the lock's holder where it is at `n`. */
  lemma {:induction false} HolderCameFrom(text: Text, states: seq<System>, actions: seq<Action>, n: nat) returns (k: nat)
    requires Execution(text, states, actions) && n <= |actions|
    requires states[n].holder.Some? && states[n].holder.value != ReadMarker && states[n].holder.value != DeleteInfo
    ensures k < n && states[k].up && states[k].holder.Some? && actions[k].HolderStep? && states[k].holder != states[n].holder
    ensures StepHolder(text, states[k].mem, states[k].holder.value, actions[k].io).next == states[n].holder
    ensures forall j :: k < j <= n ==> states[j].holder == states[n].holder
  {
    assert n > 0;
    assert states[n] == Step(text, states[n - 1], actions[n - 1]);
    if states[n - 1].holder == states[n].holder {
      k := HolderCameFrom(text, states, actions, n - 1);
    } else {
      k := n - 1;
    }
  }

  predicate IsAt(s: System, t: int, pc: Mutator) {
    t in s.mutators && s.mutators[t] == pc
  }

  /** The step that brought caller `t` where it is at `n`, past its entry. */
  lemma {:induction false} CallerCameFrom(text: Text, states: seq<System>, actions: seq<Action>, n: nat, t: int)
    returns (k: nat)
    requires Execution(text, states, actions) && n <= |actions|
    requires t in states[n].mutators
    requires var pc := states[n].mutators[t]; pc.PutBack? || pc.TestMigrated? || pc.Saving?
    ensures k < n && states[k].up && t in states[k].mutators && actions[k].MutatorStep? && actions[k].t == t
    ensures states[k].mutators[t] != states[n].mutators[t]
    ensures StepMutator(text, states[k].mem, states[k].mutators[t], actions[k].io).next == Some(states[n].mutators[t])
    ensures forall j :: k < j <= n ==> IsAt(states[j], t, states[n].mutators[t])
  {
    assert n > 0;
    var pc := states[n].mutators[t];
    assert states[n] == Step(text, states[n - 1], actions[n - 1]);
    if IsAt(states[n - 1], t, pc) {
      k := CallerCameFrom(text, states, actions, n - 1, t);
    } else {
      k := n - 1;
    }
  }

  // ---------- the last store ----------

  /** Action `u` stored `deviceInfo`, and up to `n` nothing stored or deleted it again. */
  predicate LastStore(states: seq<System>, actions: seq<Action>, u: int, n: nat)
    requires n <= |actions| < |states|
  {
    && 0 <= u < n && StoresInfo(states[u], actions[u])
    && forall j :: u < j < n ==> !StoresInfo(states[j], actions[j]) && !DeletesInfo(states[j], actions[j])
  }

  /** ... and carried `cache`. */
  predicate LastStored(states: seq<System>, actions: seq<Action>, u: int, n: nat, cache: Cache)
    requires n <= |actions| < |states|
  {
    LastStore(states, actions, u, n) && StoredCache(states[u], actions[u]) == cache
  }

  /** The last action on `deviceInfo` was a store that carried `cache`. */
  ghost predicate EndsStored(states: seq<System>, actions: seq<Action>, n: nat, cache: Cache)
    requires n <= |actions| < |states|
  {
    exists u :: LastStored(states, actions, u, n, cache)
  }

  lemma LastStoredStep(states: seq<System>, actions: seq<Action>, m: nat, n: nat, cache: Cache)
    requires n == m + 1 <= |actions| < |states|
    ensures EndsStored(states, actions, n, cache)
       <==> if StoresInfo(states[m], actions[m]) then StoredCache(states[m], actions[m]) == cache
            else !DeletesInfo(states[m], actions[m]) && EndsStored(states, actions, m, cache)
  {
    if StoresInfo(states[m], actions[m]) {
      assert LastStore(states, actions, m, n);
      assert StoredCache(states[m], actions[m]) == cache ==> LastStored(states, actions, m, n, cache);
      assert forall u :: LastStore(states, actions, u, n) ==> u == m;
    } else if u :| LastStored(states, actions, u, n, cache) {
      assert LastStored(states, actions, u, m, cache);
    } else if u :| LastStored(states, actions, u, m, cache) {
      assert !DeletesInfo(states[m], actions[m]) ==> LastStored(states, actions, u, n, cache);
    }
  }

  lemma SavedStep(text: Text, s: System, a: Action, cache: Cache)
    ensures Step(text, s, a).mem.saved == Wrote(cache)
       <==> if StoresInfo(s, a) then StoredCache(s, a) == cache else !DeletesInfo(s, a) && s.mem.saved == Wrote(cache)
  {
    StepTracksSaved(text, s, a);
    DeletesOrStores(s, a);
  }

  /** The history field names actions of the run: it holds `cache` exactly when the
      last action on `deviceInfo` was a store that carried `cache`. */
  lemma {:induction false} SavedIsLastStore(text: Text, states: seq<System>, actions: seq<Action>, n: nat, cache: Cache)
    requires Execution(text, states, actions) && n <= |actions|
    ensures states[n].mem.saved == Wrote(cache) <==> EndsStored(states, actions, n, cache)
  {
    if n > 0 {
      SavedIsLastStore(text, states, actions, n - 1, cache);
      SavedStep(text, states[n - 1], actions[n - 1], cache);
      LastStoredStep(states, actions, n - 1, n, cache);
    }
  }

  lemma DeletesOrStores(s: System, a: Action)
    ensures !(DeletesInfo(s, a) && StoresInfo(s, a))
  {
  }

  /** What the thread that acts in `a` is writing. */
  function ActingWriter(s: System, a: Action): Option<Writer> {
    match a
    case HolderStep(_) => if s.holder.Some? && s.holder.value.Save? then Some(s.holder.value.w) else None
    case MutatorStep(t, _) => if t in s.mutators && s.mutators[t].Saving? then Some(s.mutators[t].w) else None
    case _ => None
  }

  predicate SameThread(a: Action, b: Action) {
    (a.HolderStep? && b.HolderStep?) || (a.MutatorStep? && b.MutatorStep? && a.t == b.t)
  }

  /** What is stored at `u` was serialized at `k` by the same thread, which waited
      in between; it is the cache as it was at `k`. */
  ghost predicate SerializedAt(text: Text, states: seq<System>, actions: seq<Action>, k: int, u: nat)
    requires u < |actions| < |states| && StoresInfo(states[u], actions[u])
  {
    && 0 <= k < u && SameThread(actions[k], actions[u])
    && ActingWriter(states[k], actions[k]) == Some(Serialize)
    && states[k].mem.cache == StoredCache(states[u], actions[u])
    && Serializes(text, ActingWriter(states[u], actions[u]).value.stored, states[k].mem.cache)
    && forall j :: k < j <= u ==> ActingWriter(states[j], actions[u]) == ActingWriter(states[u], actions[u])
  }

  lemma WriterSerialized(text: Text, mem: Shared, w: Writer, io: Io)
    ensures var r := StepWriter(text, mem, w, io);
      r.next.At? && r.next.w.Store? ==>
        w == Serialize && r.next.w.cache == mem.cache && Serializes(text, r.next.w.stored, mem.cache)
  {
    if w == Serialize && Enumerates(io.order, mem.cache.Keys) {
      assert Serializes(text, text.encode(Arr(Records(mem.cache, io.order))), mem.cache);
    }
  }

  /** Every store has its serialize step. */
  lemma StoreWasSerialized(text: Text, states: seq<System>, actions: seq<Action>, u: nat) returns (k: nat)
    requires Execution(text, states, actions) && u < |actions| && StoresInfo(states[u], actions[u])
    ensures SerializedAt(text, states, actions, k, u)
  {
    var a := actions[u];
    if a.HolderStep? {
      k := HolderCameFrom(text, states, actions, u);
      var h := states[k].holder.value;
      assert h.Save?;
      WriterSerialized(text, states[k].mem, h.w, actions[k].io);
    } else {
      k := CallerCameFrom(text, states, actions, u, a.t);
      var pc := states[k].mutators[a.t];
      assert pc.Saving?;
      WriterSerialized(text, states[k].mem, pc.w, actions[k].io);
    }
  }

  lemma StoredByLastStore(text: Text, states: seq<System>, actions: seq<Action>, n: nat) returns (u: int)
    requires Execution(text, states, actions) && n <= |actions| && states[n].mem.saved.Wrote?
    ensures LastStored(states, actions, u, n, states[n].mem.saved.cache)
  {
    var cache := states[n].mem.saved.cache;
    SavedIsLastStore(text, states, actions, n, cache);
    var last :| LastStored(states, actions, last, n, cache);
    u := last;
  }

  /** The cache after a crash and a start that can read the store. */
  function RestartedCache(text: Text, s: System): Cache {
    Step(text, Step(text, s, Crash), Init(true, true)).mem.cache
  }

  /** Durability in terms of the run's actions: under the marker a restart loads
      the persisted fields of the cache as it was at `k`, where the text that was
      last stored, at `u`, had been serialized. */
  lemma RestartLoadsLastStore(text: Text, states: seq<System>, actions: seq<Action>, n: nat, u: nat, k: nat)
    requires text.Inverse() && Execution(text, states, actions) && n <= |actions| && Marked(states[n].mem.store)
    requires LastStore(states, actions, u, n) && SerializedAt(text, states, actions, k, u)
    requires |states[k].mem.cache| < ARRAY_LENGTH_LIMIT
    ensures RestartedCache(text, states[n]) == Persisted(states[k].mem.cache)
  {
    assert LastStored(states, actions, u, n, states[k].mem.cache);
    SavedIsLastStore(text, states, actions, n, states[k].mem.cache);
    DurableAcrossRestart(text, states, actions, n);
  }
}
