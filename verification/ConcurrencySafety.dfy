/** What every step of every interleaving keeps, and the safety theorems over
    whole runs that follow. */
module ConcurrencySafety {
  import opened Prelude
  import opened Json
  import opened Devices
  import opened StoreCodec
  import opened PersistenceAdapter
  import opened Reconcile
  import opened ManagerSpec
  import opened Concurrency

  // ---------- flag, marker and lock ----------

  predicate Importing(h: Holder) {
    h.ReadFile? || h.Import? || h.Install? || h.TestEmpty? || h.FetchPaired? || h.Enrich? || h.Save? || h.WriteMarker?
  }

  predicate Mirroring(w: Writer) {
    w.Snapshot? || w.MirrorFile?
  }

  /** The holder of the migration lock and the pair (flag, marker) agree: an
      import runs only without marker and flag and never reaches the mirror, and
      outside the two moments between marker and flag the flag has its marker. */
  predicate LockOrder(mem: Shared, holder: Option<Holder>) {
    match holder
    case Some(RaiseFlag) => Marked(mem.store)
    case Some(WipeCache) => !Marked(mem.store)
    case Some(LowerFlag) => !Marked(mem.store)
    case Some(h) =>
      && (mem.isMigrated ==> Marked(mem.store))
      && (Importing(h) ==> !Marked(mem.store) && !mem.isMigrated)
      && (h.Save? ==> !Mirroring(h.w))
    case None => mem.isMigrated ==> Marked(mem.store)
  }

  /** The flag says exactly whether the marker is stored, outside those moments. */
  predicate FlagExactlyMarks(mem: Shared, holder: Option<Holder>) {
    holder in {Some(RaiseFlag), Some(WipeCache), Some(LowerFlag)} || (mem.isMigrated <==> Marked(mem.store))
  }

  predicate LockInvariant(s: System) {
    && (!s.up ==> !s.mem.isMigrated && s.holder == None && s.mutators == map[])
    && LockOrder(s.mem, s.holder)
    && (s.up && s.markerRead ==> FlagExactlyMarks(s.mem, s.holder))
  }

  lemma WriterFrame(text: Text, mem: Shared, w: Writer, io: Io)
    ensures var r := StepWriter(text, mem, w, io);
      && r.mem.isMigrated == mem.isMigrated && r.mem.cache == mem.cache
      && (Marked(r.mem.store) <==> Marked(mem.store))
      && (!mem.isMigrated && r.next.At? && !Mirroring(w) ==> !Mirroring(r.next.w))
      && (!Mirroring(w) ==> r.mem.file == mem.file)
  {
  }

  lemma HolderKeepsLockOrder(text: Text, mem: Shared, h: Holder, io: Io)
    requires LockOrder(mem, Some(h))
    ensures var r := StepHolder(text, mem, h, io);
      LockOrder(r.mem, r.next) && (FlagExactlyMarks(mem, Some(h)) ==> FlagExactlyMarks(r.mem, r.next))
  {
    match h
    case Save(w) => WriterFrame(text, mem, w, io);
    case Import(raw) => assert StepImport(text, raw, io).Unlock? || StepImport(text, raw, io).Install?;
    case _ =>
  }

  lemma MutatorFrame(text: Text, mem: Shared, pc: Mutator, io: Io)
    ensures var r := StepMutator(text, mem, pc, io);
      && r.mem.isMigrated == mem.isMigrated && (Marked(r.mem.store) <==> Marked(mem.store))
      && (!pc.Saving? ==> r.mem.store == mem.store && r.mem.file == mem.file)
  {
    if pc.Saving? {
      WriterFrame(text, mem, pc.w, io);
    }
  }

  lemma StepKeepsLockInvariant(text: Text, s: System, a: Action)
    requires LockInvariant(s)
    ensures LockInvariant(Step(text, s, a))
  {
    match a
    case HolderStep(io) => if s.up && s.holder.Some? { HolderKeepsLockOrder(text, s.mem, s.holder.value, io); }
    case MutatorStep(t, io) => if s.up && t in s.mutators { MutatorFrame(text, s.mem, s.mutators[t], io); }
    case _ =>
  }

  /** Lock protocol, for every run: whenever the migration lock is free the flag
      implies the marker, and if the last `init` could read the marker the two
      are equivalent. */
  lemma {:induction false} LockProtocol(text: Text, states: seq<System>, actions: seq<Action>, n: nat)
    requires Execution(text, states, actions) && n <= |actions|
    ensures LockInvariant(states[n])
    ensures var s := states[n];
      s.up && s.holder == None ==>
        && (s.mem.isMigrated ==> Marked(s.mem.store))
        && (s.markerRead ==> (s.mem.isMigrated <==> Marked(s.mem.store)))
  {
    if n > 0 {
      LockProtocol(text, states, actions, n - 1);
      StepKeepsLockInvariant(text, states[n - 1], actions[n - 1]);
    }
  }

  // ---------- one import per clear ----------

  /** The step completes an import: it stores the marker. */
  predicate Commits(s: System, a: Action) {
    a.HolderStep? && s.up && s.holder == Some(WriteMarker) && a.io.ok
  }

  /** The step is a clear deleting the marker. */
  predicate Unmarks(s: System, a: Action) {
    a.HolderStep? && s.up && s.holder == Some(DeleteMarker) && a.io.ok
  }

  lemma MarkerStays(text: Text, s: System, a: Action)
    requires Marked(s.mem.store) && !Unmarks(s, a)
    ensures Marked(Step(text, s, a).mem.store)
  {
    match a
    case HolderStep(io) =>
      if s.up && s.holder.Some? && s.holder.value.Save? { WriterFrame(text, s.mem, s.holder.value.w, io); }
    case MutatorStep(t, io) => if s.up && t in s.mutators { MutatorFrame(text, s.mem, s.mutators[t], io); }
    case _ =>
  }

  lemma {:induction false} MarkerStaysUntilCleared(text: Text, states: seq<System>, actions: seq<Action>, i: nat, j: nat)
    requires Execution(text, states, actions) && i <= j <= |actions| && Marked(states[i].mem.store)
    requires forall k :: i <= k < j ==> !Unmarks(states[k], actions[k])
    ensures Marked(states[j].mem.store)
  {
    if i < j {
      MarkerStaysUntilCleared(text, states, actions, i, j - 1);
      MarkerStays(text, states[j - 1], actions[j - 1]);
    }
  }

  /** Between two completed imports, however many callers, failures and restarts
      there are, a clear deleted the marker. */
  lemma OneImportPerClear(text: Text, states: seq<System>, actions: seq<Action>, i: nat, j: nat)
    requires Execution(text, states, actions) && i < j < |actions|
    requires Commits(states[i], actions[i]) && Commits(states[j], actions[j])
    ensures exists k :: i < k < j && Unmarks(states[k], actions[k])
  {
    if forall k :: i < k < j ==> !Unmarks(states[k], actions[k]) {
      MarkerStaysUntilCleared(text, states, actions, i + 1, j);
      LockProtocol(text, states, actions, j);
      assert false;
    }
  }

  // ---------- what the store holds ----------

  /** A writer between serializing and storing holds the text of a past cache. */
  ghost predicate Honest(text: Text, past: set<Cache>, w: Writer) {
    w.Store? ==> Serializes(text, w.stored, w.cache) && w.cache in past
  }

  ghost predicate HonestHolder(text: Text, past: set<Cache>, holder: Option<Holder>) {
    holder.Some? && holder.value.Save? ==> Honest(text, past, holder.value.w)
  }

  ghost predicate HonestMutator(text: Text, past: set<Cache>, pc: Mutator) {
    pc.Saving? ==> Honest(text, past, pc.w)
  }

  /** The stored `deviceInfo` is what the history says it is. */
  ghost predicate StoreMatches(text: Text, past: set<Cache>, start: StoreValues, mem: Shared) {
    match mem.saved
    case Untouched => (DeviceInfo in mem.store <==> DeviceInfo in start)
                      && (DeviceInfo in mem.store ==> mem.store[DeviceInfo] == start[DeviceInfo])
    case Wrote(cache) => DeviceInfo in mem.store && Serializes(text, mem.store[DeviceInfo], cache) && cache in past
    case Deleted => DeviceInfo !in mem.store
  }

  ghost predicate Provenance(text: Text, past: set<Cache>, start: StoreValues, s: System) {
    && s.mem.cache in past
    && StoreMatches(text, past, start, s.mem)
    && HonestHolder(text, past, s.holder)
    && forall t :: t in s.mutators ==> HonestMutator(text, past, s.mutators[t])
  }

  lemma WriterKeepsProvenance(text: Text, past: set<Cache>, start: StoreValues, mem: Shared, w: Writer, io: Io)
    requires mem.cache in past && StoreMatches(text, past, start, mem) && Honest(text, past, w)
    ensures var r := StepWriter(text, mem, w, io);
      StoreMatches(text, past, start, r.mem) && (r.next.At? ==> Honest(text, past, r.next.w))
  {
    if w.Serialize? && Enumerates(io.order, mem.cache.Keys) {
      assert Serializes(text, text.encode(Arr(Records(mem.cache, io.order))), mem.cache);
    }
  }

  lemma HolderKeepsProvenance(text: Text, past: set<Cache>, start: StoreValues, mem: Shared, h: Holder, io: Io)
    requires mem.cache in past && StoreMatches(text, past, start, mem) && HonestHolder(text, past, Some(h))
    ensures var r := StepHolder(text, mem, h, io);
      StoreMatches(text, past, start, r.mem) && HonestHolder(text, past, r.next)
  {
    match h
    case Save(w) => WriterKeepsProvenance(text, past, start, mem, w, io);
    case Import(raw) => assert StepImport(text, raw, io).Unlock? || StepImport(text, raw, io).Install?;
    case _ =>
  }

  lemma MutatorKeepsProvenance(text: Text, past: set<Cache>, start: StoreValues, mem: Shared, pc: Mutator, io: Io)
    requires mem.cache in past && StoreMatches(text, past, start, mem) && HonestMutator(text, past, pc)
    ensures var r := StepMutator(text, mem, pc, io);
      StoreMatches(text, past, start, r.mem) && (r.next.Some? ==> HonestMutator(text, past, r.next.value))
  {
    if pc.Saving? {
      WriterKeepsProvenance(text, past, start, mem, pc.w, io);
    }
  }

  lemma MorePast(text: Text, past: set<Cache>, more: set<Cache>, start: StoreValues, s: System)
    requires Provenance(text, past, start, s) && past <= more
    ensures Provenance(text, more, start, s)
  {
    forall t | t in s.mutators ensures HonestMutator(text, more, s.mutators[t]) {
      assert HonestMutator(text, past, s.mutators[t]);
    }
  }

  lemma StepKeepsProvenance(text: Text, past: set<Cache>, start: StoreValues, s: System, a: Action)
    requires Provenance(text, past, start, s) && Step(text, s, a).mem.cache in past
    ensures Provenance(text, past, start, Step(text, s, a))
  {
    match a
    case HolderStep(io) =>
      if s.up && s.holder.Some? { HolderKeepsProvenance(text, past, start, s.mem, s.holder.value, io); }
    case MutatorStep(t, io) =>
      if s.up && t in s.mutators { MutatorKeepsProvenance(text, past, start, s.mem, s.mutators[t], io); }
    case _ =>
  }

  /** The cache states up to `n`. */
  function Past(states: seq<System>, n: nat): set<Cache>
    requires n < |states|
  {
    set k | 0 <= k <= n :: states[k].mem.cache
  }

  /** Provenance, for every interleaving: the stored `deviceInfo` is absent, the
      initial one, or the exact serialization of one cache state that occurred,
      although it is made and stored in two separate steps. */
  lemma {:induction false} StoreProvenance(text: Text, states: seq<System>, actions: seq<Action>, n: nat)
    requires Execution(text, states, actions) && n <= |actions|
    ensures Provenance(text, Past(states, n), states[0].mem.store, states[n])
  {
    assert states[n].mem.cache in Past(states, n);
    if n > 0 {
      StoreProvenance(text, states, actions, n - 1);
      MorePast(text, Past(states, n - 1), Past(states, n), states[0].mem.store, states[n - 1]);
      StepKeepsProvenance(text, Past(states, n), states[0].mem.store, states[n - 1], actions[n - 1]);
    }
  }

  // ---------- commit safety ----------

  /** The step deletes the stored `deviceInfo`. */
  predicate DeletesInfo(s: System, a: Action) {
    a.HolderStep? && s.up && s.holder == Some(DeleteInfo) && a.io.ok
  }

  /** The step stores a whole-cache `deviceInfo`. */
  predicate StoresInfo(s: System, a: Action) {
    || (a.HolderStep? && s.up && s.holder.Some? && s.holder.value.Save? && s.holder.value.w.Store? && a.io.ok)
    || (a.MutatorStep? && s.up && a.t in s.mutators && s.mutators[a.t].Saving? && s.mutators[a.t].w.Store? && a.io.ok)
  }

  /** The cache a storing step carries. */
  function StoredCache(s: System, a: Action): Cache
    requires StoresInfo(s, a)
  {
    if a.HolderStep? then s.holder.value.w.cache else s.mutators[a.t].w.cache
  }

  /** Action `k` deleted `deviceInfo`, and up to `n` nothing stored it again. */
  predicate DeletedSince(states: seq<System>, actions: seq<Action>, k: int, n: nat)
    requires n <= |actions| < |states|
  {
    && 0 <= k < n && DeletesInfo(states[k], actions[k])
    && forall j :: k < j < n ==> !StoresInfo(states[j], actions[j])
  }

  lemma WriterTracksSaved(text: Text, mem: Shared, w: Writer, io: Io)
    ensures var r := StepWriter(text, mem, w, io);
      if w.Store? && io.ok then r.mem.saved == Wrote(w.cache) else r.mem.saved == mem.saved
  {
  }

  lemma StepTracksSaved(text: Text, s: System, a: Action)
    ensures var saved := Step(text, s, a).mem.saved;
      if DeletesInfo(s, a) then saved == Deleted
      else if StoresInfo(s, a) then saved == Wrote(StoredCache(s, a)) else saved == s.mem.saved
  {
    match a
    case HolderStep(io) =>
      if s.up && s.holder.Some? && s.holder.value.Save? { WriterTracksSaved(text, s.mem, s.holder.value.w, io); }
    case MutatorStep(t, io) =>
      if s.up && t in s.mutators && s.mutators[t].Saving? { WriterTracksSaved(text, s.mem, s.mutators[t].w, io); }
    case _ =>
  }

  lemma DeletedSinceStep(states: seq<System>, actions: seq<Action>, m: nat, n: nat)
    requires n == m + 1 <= |actions| < |states|
    ensures (exists k :: DeletedSince(states, actions, k, n))
       <==> DeletesInfo(states[m], actions[m])
            || (!StoresInfo(states[m], actions[m]) && exists k :: DeletedSince(states, actions, k, m))
  {
    if DeletesInfo(states[m], actions[m]) {
      assert DeletedSince(states, actions, m, n);
    } else {
      if k :| DeletedSince(states, actions, k, n) {
        assert DeletedSince(states, actions, k, m) && !StoresInfo(states[m], actions[m]);
      }
      if k :| DeletedSince(states, actions, k, m) && !StoresInfo(states[m], actions[m]) {
        assert DeletedSince(states, actions, k, n);
      }
    }
  }

  lemma {:induction false} SavedTracksActions(text: Text, states: seq<System>, actions: seq<Action>, n: nat)
    requires Execution(text, states, actions) && n <= |actions|
    ensures states[n].mem.saved == Deleted <==> exists k :: DeletedSince(states, actions, k, n)
  {
    if n > 0 {
      SavedTracksActions(text, states, actions, n - 1);
      StepTracksSaved(text, states[n - 1], actions[n - 1]);
      DeletedSinceStep(states, actions, n - 1, n);
    }
  }

  /** A marker stored in this run follows a stored `deviceInfo`. */
  predicate MarkerAfterInfo(start: StoreValues, mem: Shared, holder: Option<Holder>) {
    && (mem.saved == Untouched && Marked(mem.store) ==> Marked(start))
    && (holder in {Some(Save(TestFlag)), Some(WriteMarker), Some(RaiseFlag)} ==> mem.saved.Wrote?)
  }

  lemma WriterKeepsMarkerAfterInfo(text: Text, mem: Shared, w: Writer, io: Io)
    ensures var r := StepWriter(text, mem, w, io);
      && (mem.saved.Wrote? ==> r.mem.saved.Wrote?)
      && (r.next == At(TestFlag) ==> r.mem.saved.Wrote?)
      && (r.next.Finished? ==> w.TestFlag? || w.MirrorFile?)
      && (r.mem.saved == Untouched ==> mem.saved == Untouched)
  {
  }

  lemma HolderKeepsMarkerAfterInfo(text: Text, start: StoreValues, mem: Shared, h: Holder, io: Io)
    requires LockOrder(mem, Some(h)) && MarkerAfterInfo(start, mem, Some(h))
    ensures var r := StepHolder(text, mem, h, io); MarkerAfterInfo(start, r.mem, r.next)
  {
    match h
    case Save(w) => WriterFrame(text, mem, w, io); WriterKeepsMarkerAfterInfo(text, mem, w, io);
    case Import(raw) => assert StepImport(text, raw, io).Unlock? || StepImport(text, raw, io).Install?;
    case _ =>
  }

  lemma MutatorKeepsMarkerAfterInfo(text: Text, start: StoreValues, mem: Shared, holder: Option<Holder>, pc: Mutator, io: Io)
    requires MarkerAfterInfo(start, mem, holder)
    ensures MarkerAfterInfo(start, StepMutator(text, mem, pc, io).mem, holder)
  {
    MutatorFrame(text, mem, pc, io);
    if pc.Saving? {
      WriterKeepsMarkerAfterInfo(text, mem, pc.w, io);
    }
  }

  lemma {:induction false} RunKeepsMarkerAfterInfo(text: Text, states: seq<System>, actions: seq<Action>, n: nat)
    requires Execution(text, states, actions) && n <= |actions|
    ensures MarkerAfterInfo(states[0].mem.store, states[n].mem, states[n].holder)
  {
    if n > 0 {
      var start, s := states[0].mem.store, states[n - 1];
      RunKeepsMarkerAfterInfo(text, states, actions, n - 1);
      LockProtocol(text, states, actions, n - 1);
      match actions[n - 1]
      case HolderStep(io) =>
        if s.up && s.holder.Some? { HolderKeepsMarkerAfterInfo(text, start, s.mem, s.holder.value, io); }
      case MutatorStep(t, io) =>
        if s.up && t in s.mutators { MutatorKeepsMarkerAfterInfo(text, start, s.mem, s.holder, s.mutators[t], io); }
      case _ =>
    }
  }

  /** The store under the marker, for every run with failures and restarts between any two
      steps: under the marker the store holds `deviceInfo`, a whole past cache
      unless it was there from the start; and the marker stands without
      `deviceInfo` exactly when a clear deleted it and nothing stored it since. */
  lemma CommitSafety(text: Text, states: seq<System>, actions: seq<Action>, n: nat)
    requires Execution(text, states, actions) && n <= |actions|
    requires Marked(states[0].mem.store) ==> DeviceInfo in states[0].mem.store
    requires Marked(states[n].mem.store)
    ensures DeviceInfo !in states[n].mem.store <==> exists k :: DeletedSince(states, actions, k, n)
    ensures DeviceInfo in states[n].mem.store ==>
      || (exists k :: 0 <= k <= n && Serializes(text, states[n].mem.store[DeviceInfo], states[k].mem.cache))
      || (Marked(states[0].mem.store) && states[n].mem.store[DeviceInfo] == states[0].mem.store[DeviceInfo])
  {
    StoreProvenance(text, states, actions, n);
    SavedTracksActions(text, states, actions, n);
    RunKeepsMarkerAfterInfo(text, states, actions, n);
    if states[n].mem.saved.Wrote? {
      var k :| 0 <= k <= n && states[k].mem.cache == states[n].mem.saved.cache;
    }
  }

  // ---------- durability ----------

  /** The cache a restart finds under the marker. */
  function Reloaded(text: Text, start: StoreValues, saved: Saved): Cache {
    match saved
    case Untouched => LoadedOrEmpty(text, start)
    case Wrote(cache) => Persisted(cache)
    case Deleted => map[]
  }

  /** Durability: after any run that ends with the marker stored, a restart gets
      the persisted fields of the cache the history names as last stored. */
  lemma DurableAcrossRestart(text: Text, states: seq<System>, actions: seq<Action>, n: nat)
    requires text.Inverse() && Execution(text, states, actions) && n <= |actions| && Marked(states[n].mem.store)
    requires states[n].mem.saved.Wrote? ==> |states[n].mem.saved.cache| < ARRAY_LENGTH_LIMIT
    ensures var again := Step(text, Step(text, states[n], Crash), Init(true, true));
      && again.up && again.mem.isMigrated
      && again.mem.cache == Reloaded(text, states[0].mem.store, states[n].mem.saved)
  {
    StoreProvenance(text, states, actions, n);
    if states[n].mem.saved.Wrote? {
      LoadOfSaved(text, states[n].mem.store[DeviceInfo], states[n].mem.saved.cache);
    }
  }

  // ---------- isolation ----------

  /** Neither migration nor clear ever writes the AS file, in any run. */
  lemma MigrationNeverWritesFile(text: Text, states: seq<System>, actions: seq<Action>, n: nat, io: Io)
    requires Execution(text, states, actions) && n <= |actions|
    ensures Step(text, states[n], HolderStep(io)).mem.file == states[n].mem.file
  {
    var s := states[n];
    LockProtocol(text, states, actions, n);
    if s.up && s.holder.Some? && s.holder.value.Save? {
      WriterFrame(text, s.mem, s.holder.value.w, io);
    }
  }

  /** Not migrated, and no caller is past its flag test. */
  predicate Quiet(s: System) {
    && s.up && !s.mem.isMigrated && s.holder == None
    && forall t :: t in s.mutators ==> HasNotPassed(s.mutators[t])
  }

  predicate HasNotPassed(pc: Mutator) {
    !pc.Saving? && (pc.Update? ==> !pc.m.SetAutoConnect?)
  }

  lemma QuietMutatorStep(text: Text, mem: Shared, pc: Mutator, io: Io)
    requires !mem.isMigrated && HasNotPassed(pc)
    ensures var r := StepMutator(text, mem, pc, io);
      && !r.mem.isMigrated && r.mem.store == mem.store && r.mem.file == mem.file
      && (r.next.Some? ==> HasNotPassed(r.next.value))
  {
  }

  /** While not migrated, any number of concurrent mutator calls leaves store and
      file alone. */
  lemma {:induction false} UnmigratedCallersOnlyTouchTheCache(text: Text, states: seq<System>, actions: seq<Action>,
                                                              i: nat, j: nat)
    requires Execution(text, states, actions) && i <= j <= |actions| && Quiet(states[i])
    requires forall k :: i <= k < j ==> actions[k].Call? || actions[k].MutatorStep?
    ensures Quiet(states[j])
    ensures states[j].mem.store == states[i].mem.store && states[j].mem.file == states[i].mem.file
  {
    if i < j {
      UnmigratedCallersOnlyTouchTheCache(text, states, actions, i, j - 1);
      var s, a := states[j - 1], actions[j - 1];
      if a.MutatorStep? && a.t in s.mutators {
        QuietMutatorStep(text, s.mem, s.mutators[a.t], a.io);
      }
    }
  }
}
