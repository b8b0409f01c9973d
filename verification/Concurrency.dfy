/** The device manager under concurrent callers, failures and restarts: one step
    per store, file or lock boundary, every interleaving, every failure. */
module Concurrency {
  import opened Prelude
  import opened Json
  import opened Devices
  import opened StoreCodec
  import opened PersistenceAdapter
  import opened Reconcile
  import opened ManagerSpec

  // ---------- where a thread stands ----------

  /** Inside `writeStorageFromCache`. `Store` carries the text and, as history,
      the cache it was made from. */
  datatype Writer =
    | Serialize // under _adminLock
    | Store(stored: string, cache: Cache) // SetValue, no lock held
    | TestFlag
    | Snapshot // under _adminLock
    | MirrorFile(snapshot: Cache) // under the file write mutex

  /** The thread that holds `_migrationLock`. */
  datatype Holder =
    // performMigration
    | ReadMarker
    | ReadFile
    | Import(rawContent: string)
    | Install(imported: Cache)
    | TestEmpty
    | FetchPaired
    | Enrich(paired: seq<Paired>)
    | Save(w: Writer)
    | WriteMarker
    | RaiseFlag
    // clearMigration
    | DeleteInfo
    | DeleteMarker
    | WipeCache
    | LowerFlag
    // both
    | Unlock

  /** A thread inside one of the mutators. */
  datatype Mutator =
    | TestFirst(m: Mutation) // `setAutoConnect` tests the flag before anything else
    | Update(m: Mutation)
    | Fetch(id: string, time: string) // `setLastConnectTimeUtc`, first lock section
    | PutBack(id: string, info: Info) // ... and second
    | TestMigrated
    | Saving(w: Writer)

  // ---------- state ----------

  /** History: what last happened to the stored `deviceInfo`. */
  datatype Saved = Untouched | Wrote(cache: Cache) | Deleted

  /** What the threads share; the store and the file outlive the process. */
  datatype Shared = Shared(cache: Cache, isMigrated: bool, store: StoreValues, file: Option<string>, saved: Saved)
  {
    function View(): ManagerSpec.View {
      ManagerSpec.View(cache, isMigrated, store, file)
    }
  }

  datatype System = System(
    up: bool,
    mem: Shared,
    holder: Option<Holder>, // None: _migrationLock is free
    mutators: map<int, Mutator>,
    markerRead: bool) // history: the last `init` could read the marker

  // ---------- steps of one thread ----------

  /** What the outside world decides in one step: whether the call works, the
      paired list, the order a map iterates in, whether the old file opens. */
  datatype Io = Io(ok: bool, paired: seq<Paired>, order: seq<string>, readable: bool)

  datatype WriterNext = At(w: Writer) | Finished | GaveUp

  datatype Stepped<Next> = Stepped(mem: Shared, next: Next)

  function StepWriter(text: Text, mem: Shared, w: Writer, io: Io): Stepped<WriterNext> {
    match w
    case Serialize =>
      if Enumerates(io.order, mem.cache.Keys)
      then Stepped(mem, At(Store(text.encode(Arr(Records(mem.cache, io.order))), mem.cache)))
      else Stepped(mem, At(Serialize))
    case Store(stored, cache) =>
      if io.ok then Stepped(mem.(store := mem.store[DeviceInfo := stored], saved := Wrote(cache)), At(TestFlag))
      else Stepped(mem, GaveUp)
    case TestFlag => Stepped(mem, if mem.isMigrated then At(Snapshot) else Finished)
    case Snapshot => Stepped(mem, At(MirrorFile(WithoutHid(mem.cache))))
    case MirrorFile(snapshot) =>
      if io.ok && Enumerates(io.order, snapshot.Keys)
      then Stepped(
        mem.(file := Some(MirrorText(text, if io.readable then mem.file else None, snapshot, io.order))),
        Finished)
      else Stepped(mem, Finished)
  }

  function StepImport(text: Text, rawContent: string, io: Io): Holder {
    if rawContent == "" then Install(map[])
    else if Parsed(text, rawContent).None? || !io.ok then Unlock
    else Install(ImportRecords(Parsed(text, rawContent).value, AddressIndex(io.paired)))
  }

  function AfterSave(next: WriterNext): Holder {
    match next
    case At(w) => Save(w)
    case Finished => WriteMarker
    case GaveUp => Unlock
  }

  function StepHolder(text: Text, mem: Shared, h: Holder, io: Io): Stepped<Option<Holder>> {
    match h
    case ReadMarker =>
      if !io.ok then Stepped(mem, Some(Unlock))
      else if Marked(mem.store) then Stepped(mem.(isMigrated := true), Some(Unlock))
      else Stepped(mem, Some(ReadFile))
    case ReadFile =>
      if !io.ok || (mem.file.Some? && |mem.file.value| > MAX_PAYLOAD_BYTES) then Stepped(mem, Some(Unlock))
      else Stepped(mem, Some(Import(mem.file.GetOr(""))))
    case Import(rawContent) => Stepped(mem, Some(StepImport(text, rawContent, io)))
    case Install(imported) => Stepped(mem.(cache := imported), Some(TestEmpty))
    case TestEmpty => Stepped(mem, Some(if mem.cache == map[] then Save(Serialize) else FetchPaired))
    case FetchPaired => Stepped(mem, Some(if io.ok then Enrich(io.paired) else Unlock))
    case Enrich(paired) => Stepped(mem.(cache := Reconciled(mem.cache, paired, true)), Some(Save(Serialize)))
    case Save(w) =>
      var r := StepWriter(text, mem, w, io);
      Stepped(r.mem, Some(AfterSave(r.next)))
    case WriteMarker =>
      if io.ok then Stepped(mem.(store := mem.store[MigrationVersion := MIGRATION_VERSION]), Some(RaiseFlag))
      else Stepped(mem, Some(Unlock))
    case RaiseFlag => Stepped(mem.(isMigrated := true), Some(Unlock))
    case DeleteInfo =>
      if io.ok then Stepped(mem.(store := mem.store - {DeviceInfo}, saved := Deleted), Some(DeleteMarker))
      else Stepped(mem, Some(Unlock))
    case DeleteMarker =>
      if io.ok then Stepped(mem.(store := mem.store - {MigrationVersion}), Some(WipeCache))
      else Stepped(mem, Some(Unlock))
    case WipeCache => Stepped(mem.(cache := map[]), Some(LowerFlag))
    case LowerFlag => Stepped(mem.(isMigrated := false), Some(Unlock))
    case Unlock => Stepped(mem, None)
  }

  function Entry(m: Mutation): Mutator {
    if m.SetAutoConnect? then TestFirst(m) else if m.Touch? then Fetch(m.id, m.time) else Update(m)
  }

  /** `setAutoConnect` does not test the flag again. */
  function AfterUpdate(m: Mutation): Mutator {
    if m.SetAutoConnect? then Saving(Serialize) else TestMigrated
  }

  function AfterSaving(next: WriterNext): Option<Mutator> {
    if next.At? then Some(Saving(next.w)) else None
  }

  function StepMutator(text: Text, mem: Shared, pc: Mutator, io: Io): Stepped<Option<Mutator>> {
    match pc
    case TestFirst(m) => Stepped(mem, if mem.isMigrated then Some(Update(m)) else None)
    case Update(m) =>
      if MutationError(mem.cache, m) != ErrorNone then Stepped(mem, None)
      else Stepped(mem.(cache := Mutate(mem.cache, m)), Some(AfterUpdate(m)))
    case Fetch(id, time) =>
      if id !in mem.cache then Stepped(mem, None)
      else Stepped(mem, Some(PutBack(id, mem.cache[id].(lastConnectTimeUtc := time))))
    case PutBack(id, info) => Stepped(mem.(cache := mem.cache[id := info]), Some(TestMigrated))
    case TestMigrated => Stepped(mem, if mem.isMigrated then Some(Saving(Serialize)) else None)
    case Saving(w) =>
      var r := StepWriter(text, mem, w, io);
      Stepped(r.mem, AfterSaving(r.next))
  }

  // ---------- steps of the system ----------

  datatype Action =
    | StartPerform | StartClear // take _migrationLock
    | HolderStep(io: Io)
    | Call(t: int, m: Mutation)
    | MutatorStep(t: int, io: Io)
    | Crash
    | Init(markerOk: bool, infoOk: bool)
    | FileChanged(file: Option<string>) // by the file's previous owner

  /** The cache and the flag are lost; `init` reads them again. */
  function Restarted(mem: Shared): Shared {
    mem.(cache := map[], isMigrated := false)
  }

  function Initialise(text: Text, mem: Shared, markerOk: bool): Shared {
    if markerOk && Marked(mem.store) then mem.(isMigrated := true, cache := LoadedOver(text, mem.store, mem.cache))
    else mem.(isMigrated := false)
  }

  /** One step of the system; an action that is not possible changes nothing. A
      failed `init` leaves the plugin down. */
  function Step(text: Text, s: System, a: Action): System {
    match a
    case StartPerform => if s.up && s.holder == None then s.(holder := Some(ReadMarker)) else s
    case StartClear => if s.up && s.holder == None then s.(holder := Some(DeleteInfo)) else s
    case HolderStep(io) =>
      if s.up && s.holder.Some? then
        var r := StepHolder(text, s.mem, s.holder.value, io);
        s.(mem := r.mem, holder := r.next)
      else s
    case Call(t, m) => if s.up && t !in s.mutators then s.(mutators := s.mutators[t := Entry(m)]) else s
    case MutatorStep(t, io) =>
      if s.up && t in s.mutators then
        var r := StepMutator(text, s.mem, s.mutators[t], io);
        s.(mem := r.mem, mutators := if r.next.Some? then s.mutators[t := r.next.value] else s.mutators - {t})
      else s
    case Crash => System(false, Restarted(s.mem), None, map[], s.markerRead)
    case Init(markerOk, infoOk) =>
      if s.up || (markerOk && Marked(s.mem.store) && !infoOk) then s
      else s.(up := true, mem := Initialise(text, s.mem, markerOk), markerRead := markerOk)
    case FileChanged(file) => s.(mem := s.mem.(file := file))
  }

  /** Switched off, with nothing volatile yet. */
  predicate Initial(s: System) {
    && !s.up && s.holder == None && s.mutators == map[]
    && s.mem.cache == map[] && !s.mem.isMigrated && s.mem.saved == Untouched
  }

  /** A run: `states[k]` is the state before action `k`. */
  ghost predicate Execution(text: Text, states: seq<System>, actions: seq<Action>) {
    && |states| == |actions| + 1
    && Initial(states[0])
    && forall k :: 0 <= k < |actions| ==> states[k + 1] == Step(text, states[k], actions[k])
  }
}
