/** The step-by-step machine against the one-call-at-a-time specification: an
    operation whose steps are not interleaved with others does exactly what the
    sequential relation of that operation says, whatever fails on the way. */
module SoloRefinement {
  import opened Prelude
  import opened Json
  import opened Devices
  import opened StoreCodec
  import opened PersistenceAdapter
  import opened Reconcile
  import opened ManagerSpec
  import opened Concurrency

  // ---------- the save common to all ----------

  /** `deviceInfo` alone has been stored, as the whole cache. */
  ghost predicate Stored(text: Text, before: View, after: View) {
    && DeviceInfo in after.store && Serializes(text, after.store[DeviceInfo], before.cache)
    && after == before.(store := before.store[DeviceInfo := after.store[DeviceInfo]])
  }

  /** Where a save that started in `before` stands. */
  ghost predicate SavingFrom(text: Text, before: View, now: View, w: Writer) {
    match w
    case Serialize => now == before
    case Store(stored, cache) => now == before && cache == before.cache && Serializes(text, stored, cache)
    case TestFlag => Stored(text, before, now)
    case Snapshot => Stored(text, before, now) && before.isMigrated
    case MirrorFile(snapshot) =>
      Stored(text, before, now) && before.isMigrated && snapshot == WithoutHid(before.cache)
  }

  lemma SavingStep(text: Text, before: View, mem: Shared, w: Writer, io: Io)
    requires SavingFrom(text, before, mem.View(), w)
    ensures var r := StepWriter(text, mem, w, io);
      match r.next
      case At(w') => SavingFrom(text, before, r.mem.View(), w')
      case Finished => StorageWritten(text, before, r.mem.View(), true)
                       && (!before.isMigrated ==> Stored(text, before, r.mem.View()))
      case GaveUp => r.mem.View() == before
  {
    match w
    case Serialize =>
      if Enumerates(io.order, mem.cache.Keys) {
        assert Serializes(text, text.encode(Arr(Records(mem.cache, io.order))), mem.cache);
      }
    case MirrorFile(snapshot) =>
      if io.ok && Enumerates(io.order, snapshot.Keys) {
        var previous := if io.readable then mem.file else None;
        var after := StepWriter(text, mem, w, io).mem.file;
        assert Enumerates(io.order, WithoutHid(before.cache).Keys) && (previous == None || previous == before.file)
               && after == Some(MirrorText(text, previous, WithoutHid(before.cache), io.order));
        assert Mirrored(text, before.file, before.cache, after);
      }
    case _ =>
  }

  // ---------- mutators ----------

  predicate Ready(v: View, m: Mutation) {
    MutationError(v.cache, m) == ErrorNone && (m.SetAutoConnect? ==> v.isMigrated)
  }

  function Changed(v: View, m: Mutation): View
    requires Ready(v, m)
  {
    v.(cache := Mutate(v.cache, m))
  }

  /** Where a lone caller of mutation `m` that started in `v` stands; None: returned. */
  ghost predicate MutatorFrom(text: Text, m: Mutation, v: View, now: View, pc: Option<Mutator>) {
    match pc
    case None => exists r :: Mutated(text, m, v, now, r)
    case Some(TestFirst(m')) => m' == m && m.SetAutoConnect? && now == v
    case Some(Update(m')) => m' == m && (m.SetAutoConnect? ==> v.isMigrated) && now == v
    case Some(Fetch(id, time)) => m == Touch(id, time) && now == v
    case Some(PutBack(id, info)) =>
      m.Touch? && id == m.id && Ready(v, m) && info == v.cache[id].(lastConnectTimeUtc := m.time) && now == v
    case Some(TestMigrated) => !m.SetAutoConnect? && Ready(v, m) && now == Changed(v, m)
    case Some(Saving(w)) => v.isMigrated && Ready(v, m) && SavingFrom(text, Changed(v, m), now, w)
  }

  lemma MutatorSoloStep(text: Text, m: Mutation, v: View, mem: Shared, pc: Mutator, io: Io)
    requires MutatorFrom(text, m, v, mem.View(), Some(pc))
    ensures var r := StepMutator(text, mem, pc, io); MutatorFrom(text, m, v, r.mem.View(), r.next)
  {
    var r := StepMutator(text, mem, pc, io);
    match pc
    case TestFirst(_) => if r.next.None? { assert Mutated(text, m, v, v, General); }
    case Update(_) => if r.next.None? { assert Mutated(text, m, v, v, MutationError(v.cache, m)); }
    case Fetch(_, _) => if r.next.None? { assert Mutated(text, m, v, v, NotExist); }
    case PutBack(_, _) =>
    case TestMigrated => if r.next.None? { assert Mutated(text, m, v, r.mem.View(), ErrorNone); }
    case Saving(w) =>
      SavingStep(text, Changed(v, m), mem, w, io);
      if r.next.None? {
        var finished := StepWriter(text, mem, w, io).next.Finished?;
        assert Mutated(text, m, v, r.mem.View(), if finished then ErrorNone else General);
      }
  }

  /** An uninterrupted thread: each element is the state and where the thread stands. */
  ghost predicate MutatorAlone(text: Text, steps: seq<Stepped<Option<Mutator>>>, ios: seq<Io>) {
    && |steps| == |ios| + 1
    && forall k :: 0 <= k < |ios| ==>
         steps[k].next.Some? && steps[k + 1] == StepMutator(text, steps[k].mem, steps[k].next.value, ios[k])
  }

  lemma {:induction false} MutatorAloneStands(text: Text, m: Mutation, steps: seq<Stepped<Option<Mutator>>>, ios: seq<Io>, n: nat)
    requires MutatorAlone(text, steps, ios) && steps[0].next == Some(Entry(m)) && n <= |ios|
    ensures MutatorFrom(text, m, steps[0].mem.View(), steps[n].mem.View(), steps[n].next)
  {
    if n > 0 {
      MutatorAloneStands(text, m, steps, ios, n - 1);
      assert steps[n - 1].next.Some?;
      MutatorSoloStep(text, m, steps[0].mem.View(), steps[n - 1].mem, steps[n - 1].next.value, ios[n - 1]);
    }
  }

  /** A mutator call that runs alone meets its sequential specification. */
  lemma MutatorAloneIsSequential(text: Text, m: Mutation, steps: seq<Stepped<Option<Mutator>>>, ios: seq<Io>)
    requires MutatorAlone(text, steps, ios) && steps[0].next == Some(Entry(m)) && steps[|ios|].next == None
    ensures exists r :: Mutated(text, m, steps[0].mem.View(), steps[|ios|].mem.View(), r)
  {
    MutatorAloneStands(text, m, steps, ios, |ios|);
  }

  // ---------- migration and clear ----------

  /** The content an import starts from: an absent file reads as empty. */
  function ReadContent(file: Option<string>): string {
    file.GetOr("")
  }

  /** Where a lone import that started in `v` stands. */
  ghost predicate ImportFrom(text: Text, paired: seq<Paired>, v: View, now: View, h: Holder) {
    var raw := v.(cache := RawImport(text, v.file, paired));
    var willImport := Imported(text, v.file, paired) == Some(Reconciled(raw.cache, paired, true));
    match h
    case ReadFile => now == v
    case Import(content) => now == v && content == ReadContent(v.file) && |content| <= MAX_PAYLOAD_BYTES
    case Install(imported) => now == v && imported == raw.cache && willImport
    case TestEmpty => now == raw && willImport
    case FetchPaired => now == raw && willImport
    case Enrich(list) => now == raw && list == paired && willImport
    case Save(w) =>
      Imported(text, v.file, paired) == Some(now.cache) && SavingFrom(text, v.(cache := now.cache), now, w)
    case WriteMarker => Imported(text, v.file, paired) == Some(now.cache) && Stored(text, v.(cache := now.cache), now)
    case RaiseFlag =>
      && Imported(text, v.file, paired) == Some(now.cache)
      && DeviceInfo in now.store && Serializes(text, now.store[DeviceInfo], now.cache)
      && now == v.(cache := now.cache,
                   store := v.store[DeviceInfo := now.store[DeviceInfo]][MigrationVersion := MIGRATION_VERSION])
    case _ => false
  }

  /** Where a lone `performMigration` that started in `v` stands. */
  ghost predicate PerformFrom(text: Text, paired: seq<Paired>, v: View, now: View, h: Option<Holder>) {
    if h == None || h == Some(Unlock) then exists r :: Performed(text, paired, v, now, r)
    else if h == Some(ReadMarker) then now == v
    else !Marked(v.store) && !v.isMigrated && ImportFrom(text, paired, v, now, h.value)
  }

  /** Where a lone `clearMigration` that started in `v` stands. */
  ghost predicate ClearFrom(v: View, now: View, h: Option<Holder>) {
    var cleared := v.(store := v.store - {DeviceInfo} - {MigrationVersion});
    match h
    case None => exists r :: Cleared(v, now, r)
    case Some(Unlock) => exists r :: Cleared(v, now, r)
    case Some(DeleteInfo) => now == v
    case Some(DeleteMarker) => now == v.(store := v.store - {DeviceInfo})
    case Some(WipeCache) => now == cleared
    case Some(LowerFlag) => now == cleared.(cache := map[])
    case Some(_) => false
  }

  lemma EmptyImport(text: Text, file: Option<string>, paired: seq<Paired>)
    requires ReadContent(file) == ""
    ensures RawImport(text, file, paired) == map[]
    ensures Imported(text, file, paired) == Some(Reconciled(map[], paired, true))
  {
    ReconciledDomain(map[], paired, true);
    assert Reconciled(map[], paired, true) == map[];
  }

  lemma ImportSoloStep(text: Text, paired: seq<Paired>, v: View, content: string, io: Io)
    requires content == ReadContent(v.file) && |content| <= MAX_PAYLOAD_BYTES && io.paired == paired
    requires !Marked(v.store) && !v.isMigrated
    ensures PerformFrom(text, paired, v, v, Some(StepImport(text, content, io)))
  {
    if content == "" {
      EmptyImport(text, v.file, paired);
    } else if StepImport(text, content, io).Unlock? {
      assert Performed(text, paired, v, v, General);
    }
  }

  lemma SaveSoloStep(text: Text, paired: seq<Paired>, v: View, mem: Shared, w: Writer, io: Io)
    requires PerformFrom(text, paired, v, mem.View(), Some(Save(w)))
    ensures var r := StepHolder(text, mem, Save(w), io); PerformFrom(text, paired, v, r.mem.View(), r.next)
  {
    var before := v.(cache := mem.cache);
    SavingStep(text, before, mem, w, io);
    var r := StepWriter(text, mem, w, io);
    if r.next.GaveUp? {
      assert Performed(text, paired, v, r.mem.View(), General);
    }
  }

  lemma PerformSoloStep(text: Text, paired: seq<Paired>, v: View, mem: Shared, h: Holder, io: Io)
    requires PerformFrom(text, paired, v, mem.View(), Some(h)) && io.paired == paired
    requires v.FlagJustified()
    ensures var r := StepHolder(text, mem, h, io); PerformFrom(text, paired, v, r.mem.View(), r.next)
  {
    var r := StepHolder(text, mem, h, io);
    match h
    case ReadMarker =>
      if !io.ok { assert Performed(text, paired, v, v, General); }
      else if Marked(mem.store) { assert Performed(text, paired, v, r.mem.View(), ErrorNone); }
    case ReadFile => if r.next == Some(Unlock) { assert Performed(text, paired, v, v, General); }
    case Import(content) => ImportSoloStep(text, paired, v, content, io);
    case TestEmpty =>
      if mem.cache == map[] {
        ReconciledDomain(mem.cache, paired, true);
        assert Reconciled(mem.cache, paired, true) == map[];
      }
    case FetchPaired => if !io.ok { assert Performed(text, paired, v, r.mem.View(), General); }
    case Save(w) => SaveSoloStep(text, paired, v, mem, w, io);
    case WriteMarker => if !io.ok { assert Performed(text, paired, v, r.mem.View(), General); }
    case RaiseFlag => assert Performed(text, paired, v, r.mem.View(), ErrorNone);
    case _ =>
  }

  lemma ClearSoloStep(text: Text, v: View, mem: Shared, h: Holder, io: Io)
    requires ClearFrom(v, mem.View(), Some(h))
    ensures var r := StepHolder(text, mem, h, io); ClearFrom(v, r.mem.View(), r.next)
  {
    var r := StepHolder(text, mem, h, io);
    match h
    case DeleteInfo => if !io.ok { assert Cleared(v, v, General); }
    case DeleteMarker => if !io.ok { assert Cleared(v, mem.View(), General); }
    case LowerFlag =>
      assert v.store - {DeviceInfo} - {MigrationVersion} == v.store - {DeviceInfo, MigrationVersion};
      assert Cleared(v, r.mem.View(), ErrorNone);
    case _ =>
  }

  /** An uninterrupted holder of the migration lock; the paired list stays the same. */
  ghost predicate HolderAlone(text: Text, paired: seq<Paired>, steps: seq<Stepped<Option<Holder>>>, ios: seq<Io>) {
    && |steps| == |ios| + 1
    && forall k :: 0 <= k < |ios| ==>
         && ios[k].paired == paired && steps[k].next.Some?
         && steps[k + 1] == StepHolder(text, steps[k].mem, steps[k].next.value, ios[k])
  }

  lemma {:induction false} PerformAloneStands(text: Text, paired: seq<Paired>, steps: seq<Stepped<Option<Holder>>>,
                                              ios: seq<Io>, n: nat)
    requires HolderAlone(text, paired, steps, ios) && n <= |ios|
    requires steps[0].next == Some(ReadMarker) && steps[0].mem.View().FlagJustified()
    ensures PerformFrom(text, paired, steps[0].mem.View(), steps[n].mem.View(), steps[n].next)
  {
    if n > 0 {
      PerformAloneStands(text, paired, steps, ios, n - 1);
      var before, io := steps[n - 1], ios[n - 1];
      assert io.paired == paired && before.next.Some?;
      PerformSoloStep(text, paired, steps[0].mem.View(), before.mem, before.next.value, io);
    }
  }

  lemma {:induction false} ClearAloneStands(text: Text, paired: seq<Paired>, steps: seq<Stepped<Option<Holder>>>,
                                            ios: seq<Io>, n: nat)
    requires HolderAlone(text, paired, steps, ios) && n <= |ios| && steps[0].next == Some(DeleteInfo)
    ensures ClearFrom(steps[0].mem.View(), steps[n].mem.View(), steps[n].next)
  {
    if n > 0 {
      ClearAloneStands(text, paired, steps, ios, n - 1);
      var before := steps[n - 1];
      assert before.next.Some?;
      ClearSoloStep(text, steps[0].mem.View(), before.mem, before.next.value, ios[n - 1]);
    }
  }

  /** A migration that runs alone meets its sequential specification: complete,
      failed at any step, or already done. */
  lemma PerformAloneIsSequential(text: Text, paired: seq<Paired>, steps: seq<Stepped<Option<Holder>>>, ios: seq<Io>)
    requires HolderAlone(text, paired, steps, ios) && steps[|ios|].next == None
    requires steps[0].next == Some(ReadMarker) && steps[0].mem.View().FlagJustified()
    ensures exists r :: Performed(text, paired, steps[0].mem.View(), steps[|ios|].mem.View(), r)
  {
    PerformAloneStands(text, paired, steps, ios, |ios|);
  }

  lemma ClearAloneIsSequential(text: Text, paired: seq<Paired>, steps: seq<Stepped<Option<Holder>>>, ios: seq<Io>)
    requires HolderAlone(text, paired, steps, ios) && steps[0].next == Some(DeleteInfo) && steps[|ios|].next == None
    ensures exists r :: Cleared(steps[0].mem.View(), steps[|ios|].mem.View(), r)
  {
    ClearAloneStands(text, paired, steps, ios, |ios|);
  }

  // ---------- when every call works ----------

  /** The outside world obliges: the call works, the old file opens, and the order is
      one the snapshot can be iterated in. */
  predicate Obliges(w: Writer, io: Io) {
    io.ok && io.readable && (w.MirrorFile? ==> Enumerates(io.order, w.snapshot.Keys))
  }

  lemma SavingStepWorks(text: Text, before: View, mem: Shared, w: Writer, io: Io)
    requires SavingFrom(text, before, mem.View(), w) && Obliges(w, io)
    ensures var r := StepWriter(text, mem, w, io);
      match r.next
      case At(w') => SavingFrom(text, before, r.mem.View(), w')
      case Finished =>
        && StorageWritten(text, before, r.mem.View(), true)
        && (before.isMigrated ==> MirroredOver(text, before.file, before.cache, r.mem.file))
        && (!before.isMigrated ==> Stored(text, before, r.mem.View()))
      case GaveUp => false
  {
    SavingStep(text, before, mem, w, io);
    if w.MirrorFile? {
      assert Enumerates(io.order, WithoutHid(before.cache).Keys);
    }
  }

  function Outcome(v: View, m: Mutation): Hresult {
    if m.SetAutoConnect? && !v.isMigrated then General else MutationError(v.cache, m)
  }

  /** The same standing, but a return is a full success or the error of the call. */
  ghost predicate DeliverFrom(text: Text, m: Mutation, v: View, now: View, pc: Option<Mutator>) {
    if pc == None then Mutated(text, m, v, now, Outcome(v, m)) && Delivered(text, m, v, now, Outcome(v, m))
    else MutatorFrom(text, m, v, now, pc)
  }

  lemma MutatorStepWorks(text: Text, m: Mutation, v: View, mem: Shared, pc: Mutator, io: Io)
    requires DeliverFrom(text, m, v, mem.View(), Some(pc)) && (pc.Saving? ==> Obliges(pc.w, io))
    ensures var r := StepMutator(text, mem, pc, io); DeliverFrom(text, m, v, r.mem.View(), r.next)
  {
    MutatorSoloStep(text, m, v, mem, pc, io);
    if pc.Saving? {
      SavingStepWorks(text, Changed(v, m), mem, pc.w, io);
    }
  }

  lemma {:induction false} MutatorAloneWorks(text: Text, m: Mutation, steps: seq<Stepped<Option<Mutator>>>, ios: seq<Io>, n: nat)
    requires MutatorAlone(text, steps, ios) && steps[0].next == Some(Entry(m)) && n <= |ios|
    requires forall k :: 0 <= k < |ios| ==> (steps[k].next.value.Saving? ==> Obliges(steps[k].next.value.w, ios[k]))
    ensures DeliverFrom(text, m, steps[0].mem.View(), steps[n].mem.View(), steps[n].next)
  {
    if n > 0 {
      MutatorAloneWorks(text, m, steps, ios, n - 1);
      var before := steps[n - 1];
      assert before.next.Some?;
      MutatorStepWorks(text, m, steps[0].mem.View(), before.mem, before.next.value, ios[n - 1]);
    }
  }

  /** A mutator call that runs alone and whose calls all work succeeds exactly when it
      applies, and is then in the store and, once migrated, in the file. */
  lemma MutatorAloneDelivers(text: Text, m: Mutation, steps: seq<Stepped<Option<Mutator>>>, ios: seq<Io>)
    requires MutatorAlone(text, steps, ios) && steps[0].next == Some(Entry(m)) && steps[|ios|].next == None
    requires forall k :: 0 <= k < |ios| ==> (steps[k].next.value.Saving? ==> Obliges(steps[k].next.value.w, ios[k]))
    ensures var v, w, r := steps[0].mem.View(), steps[|ios|].mem.View(), Outcome(steps[0].mem.View(), m);
      Mutated(text, m, v, w, r) && Delivered(text, m, v, w, r)
  {
    MutatorAloneWorks(text, m, steps, ios, |ios|);
  }

  /** The outcome of a migration whose calls all work. */
  function Verdict(text: Text, paired: seq<Paired>, v: View): Hresult {
    if Marked(v.store) || Imported(text, v.file, paired).Some? then ErrorNone else General
  }

  ghost predicate SucceedFrom(text: Text, paired: seq<Paired>, v: View, now: View, h: Option<Holder>) {
    if h == None || h == Some(Unlock) then Performed(text, paired, v, now, Verdict(text, paired, v))
    else PerformFrom(text, paired, v, now, h)
  }

  lemma PerformStepWorks(text: Text, paired: seq<Paired>, v: View, mem: Shared, h: Holder, io: Io)
    requires SucceedFrom(text, paired, v, mem.View(), Some(h)) && io.paired == paired && io.ok
    requires v.FlagJustified()
    ensures var r := StepHolder(text, mem, h, io); SucceedFrom(text, paired, v, r.mem.View(), r.next)
  {
    match h
    case Unlock =>
    case ReadMarker =>
    case ReadFile =>
    case Import(content) => ImportSoloStep(text, paired, v, content, io);
    case Save(w) =>
      SaveSoloStep(text, paired, v, mem, w, io);
      SaveStepWorks(text, paired, v, mem, w, io);
    case _ => PerformSoloStep(text, paired, v, mem, h, io);
  }

  lemma SaveStepWorks(text: Text, paired: seq<Paired>, v: View, mem: Shared, w: Writer, io: Io)
    requires PerformFrom(text, paired, v, mem.View(), Some(Save(w))) && io.ok
    ensures StepHolder(text, mem, Save(w), io).next != Some(Unlock)
  {
  }

  lemma {:induction false} PerformAloneWorks(text: Text, paired: seq<Paired>, steps: seq<Stepped<Option<Holder>>>,
                                             ios: seq<Io>, n: nat)
    requires HolderAlone(text, paired, steps, ios) && n <= |ios| && forall k :: 0 <= k < |ios| ==> ios[k].ok
    requires steps[0].next == Some(ReadMarker) && steps[0].mem.View().FlagJustified()
    ensures SucceedFrom(text, paired, steps[0].mem.View(), steps[n].mem.View(), steps[n].next)
  {
    if n > 0 {
      PerformAloneWorks(text, paired, steps, ios, n - 1);
      var before, io := steps[n - 1], ios[n - 1];
      assert io.ok && io.paired == paired && before.next.Some?;
      PerformStepWorks(text, paired, steps[0].mem.View(), before.mem, before.next.value, io);
    }
  }

  /** A migration that runs alone and whose calls all work succeeds exactly when it
      was done before or the file can be imported. */
  lemma PerformAloneSucceeds(text: Text, paired: seq<Paired>, steps: seq<Stepped<Option<Holder>>>, ios: seq<Io>)
    requires HolderAlone(text, paired, steps, ios) && steps[|ios|].next == None
    requires forall k :: 0 <= k < |ios| ==> ios[k].ok
    requires steps[0].next == Some(ReadMarker) && steps[0].mem.View().FlagJustified()
    ensures var v := steps[0].mem.View();
      var done := Marked(v.store) || Imported(text, v.file, paired).Some?;
      Performed(text, paired, v, steps[|ios|].mem.View(), if done then ErrorNone else General)
  {
    PerformAloneWorks(text, paired, steps, ios, |ios|);
  }

  ghost predicate ClearSucceedsFrom(v: View, now: View, h: Option<Holder>) {
    if h == None || h == Some(Unlock) then Cleared(v, now, ErrorNone) else ClearFrom(v, now, h)
  }

  lemma {:induction false} ClearAloneWorks(text: Text, paired: seq<Paired>, steps: seq<Stepped<Option<Holder>>>,
                                           ios: seq<Io>, n: nat)
    requires HolderAlone(text, paired, steps, ios) && n <= |ios| && forall k :: 0 <= k < |ios| ==> ios[k].ok
    requires steps[0].next == Some(DeleteInfo)
    ensures ClearSucceedsFrom(steps[0].mem.View(), steps[n].mem.View(), steps[n].next)
  {
    if n > 0 {
      ClearAloneWorks(text, paired, steps, ios, n - 1);
      var v, before := steps[0].mem.View(), steps[n - 1];
      assert ios[n - 1].ok && before.next.Some?;
      assert v.store - {DeviceInfo} - {MigrationVersion} == v.store - {DeviceInfo, MigrationVersion};
    }
  }

  /** A clear that runs alone and whose calls all work leaves neither key, cache nor flag. */
  lemma ClearAloneSucceeds(text: Text, paired: seq<Paired>, steps: seq<Stepped<Option<Holder>>>, ios: seq<Io>)
    requires HolderAlone(text, paired, steps, ios) && steps[|ios|].next == None && steps[0].next == Some(DeleteInfo)
    requires forall k :: 0 <= k < |ios| ==> ios[k].ok
    ensures Cleared(steps[0].mem.View(), steps[|ios|].mem.View(), ErrorNone)
  {
    ClearAloneWorks(text, paired, steps, ios, |ios|);
  }

  /** A start of the machine meets the sequential specification of `init`. */
  lemma InitIsSequential(text: Text, s: System, markerOk: bool, infoOk: bool)
    requires !s.up
    ensures var now := Step(text, s, Init(markerOk, infoOk));
      if markerOk && Marked(s.mem.store) && !infoOk then now == s
      else now.up && Initialised(text, s.mem.View(), now.mem.View(), markerOk, ErrorNone)
  {
  }
}
