/** How a marker comes to be stored: traced back through any interleaving, every
    marker stands at the end of one complete import under one hold of the lock,
    and what is stored under it is that import's cache or a later save's. */
module CommitHistory {
  import opened Prelude
  import opened Json
  import opened Devices
  import opened StoreCodec
  import opened PersistenceAdapter
  import opened Reconcile
  import opened ManagerSpec
  import opened Concurrency
  import opened ConcurrencySafety
  import opened History

  /** The steps of one import: the read of the AS file, the accepted parse and
      mapping, the installation in the cache, the paired list fetched for the
      enrichment and the enrichment, the serialization, the store, the marker. */
  datatype Trail = Trail(read: nat, accept: nat, install: nat, fetch: nat, enrich: nat,
                         serialize: nat, store: nat, commit: nat)

  /** From `k` to `n` the same import holds the lock. */
  predicate OneSession(states: seq<System>, k: nat, n: nat)
    requires n < |states|
  {
    forall j :: k <= j <= n ==> states[j].holder.Some? && Importing(states[j].holder.value)
  }

  /** Action `k` is a step of the lock's holder, which stands at `h`. */
  predicate Does(states: seq<System>, actions: seq<Action>, k: nat, h: Holder)
    requires k < |actions| < |states|
  {
    states[k].up && states[k].holder == Some(h) && actions[k].HolderStep?
  }

  /** What the content read becomes, given the paired list the mapping used. */
  function Mapped(text: Text, raw: string, paired: seq<Paired>): Cache {
    if raw == "" || Parsed(text, raw).None? then map[]
    else ImportRecords(Parsed(text, raw).value, AddressIndex(paired))
  }

  /** The whole file is read, parsed and mapped, and the result becomes the cache. */
  predicate ReadAndInstalled(text: Text, states: seq<System>, actions: seq<Action>, f: nat, i: nat, g: nat)
    requires f < |actions| < |states| && i < |actions| && g < |actions|
  {
    var raw := states[f].mem.file.GetOr("");
    && Does(states, actions, f, ReadFile) && actions[f].io.ok && |raw| <= MAX_PAYLOAD_BYTES
    && Does(states, actions, i, Import(raw)) && (raw == "" || (Parsed(text, raw).Some? && actions[i].io.ok))
    && var imported := Mapped(text, raw, actions[i].io.paired);
      Does(states, actions, g, Install(imported)) && states[g + 1].mem.cache == imported
  }

  /** The cache is enriched with the list fetched at `p`, or found empty. */
  predicate Enriched(states: seq<System>, actions: seq<Action>, p: nat, e: nat)
    requires p <= e < |actions| < |states|
  {
    || (&& p < e
        && Does(states, actions, p, FetchPaired) && actions[p].io.ok
        && var list := actions[p].io.paired;
          Does(states, actions, e, Enrich(list)) && states[e + 1].mem.cache == Reconciled(states[e].mem.cache, list, true))
    || (p == e && Does(states, actions, e, TestEmpty) && states[e].mem.cache == map[])
  }

  /** The whole cache is serialized at `s` and stored at `t`. */
  ghost predicate SavedWhole(text: Text, states: seq<System>, actions: seq<Action>, s: nat, t: nat)
    requires s < |actions| < |states| && t < |actions|
  {
    && Does(states, actions, s, Save(Serialize))
    && StoresInfo(states[t], actions[t]) && actions[t].HolderStep?
    && SerializedAt(text, states, actions, s, t)
  }

  ghost predicate CompleteImport(text: Text, states: seq<System>, actions: seq<Action>, tr: Trail)
    requires |actions| < |states|
  {
    && tr.read < tr.accept < tr.install < tr.fetch <= tr.enrich < tr.serialize < tr.store < tr.commit < |actions|
    && OneSession(states, tr.read, tr.commit)
    && ReadAndInstalled(text, states, actions, tr.read, tr.accept, tr.install)
    && Enriched(states, actions, tr.fetch, tr.enrich)
    && SavedWhole(text, states, actions, tr.serialize, tr.store)
    && Commits(states[tr.commit], actions[tr.commit])
  }

  // ---------- backwards through the import ----------

  /** What the step that led to each stage of the import must have been. */
  lemma StepBack(text: Text, mem: Shared, h: Holder, io: Io)
    ensures var r := StepHolder(text, mem, h, io);
      match r.next
      case Some(Enrich(list)) => h == FetchPaired && io.ok && list == io.paired
      case Some(FetchPaired) => h == TestEmpty
      case Some(TestEmpty) => h.Install? && r.mem.cache == h.imported
      case Some(Install(imported)) =>
        && h.Import? && imported == Mapped(text, h.rawContent, io.paired)
        && (h.rawContent == "" || (Parsed(text, h.rawContent).Some? && io.ok))
      case Some(Import(raw)) => h == ReadFile && io.ok && raw == mem.file.GetOr("") && |raw| <= MAX_PAYLOAD_BYTES
      case _ => true
  {
  }

  /** The step before a commit, and the store before that. */
  lemma StoredBeforeCommit(text: Text, states: seq<System>, actions: seq<Action>, n: nat) returns (t: nat)
    requires Execution(text, states, actions) && n < |actions| && states[n].holder == Some(WriteMarker)
    ensures t < n && OneSession(states, t, n)
    ensures StoresInfo(states[t], actions[t]) && actions[t].HolderStep?
  {
    var flag := HolderCameFrom(text, states, actions, n);
    LockProtocol(text, states, actions, flag);
    assert states[flag].holder == Some(Save(TestFlag));
    t := HolderCameFrom(text, states, actions, flag);
  }

  lemma SavedBeforeCommit(text: Text, states: seq<System>, actions: seq<Action>, n: nat) returns (s: nat, t: nat)
    requires Execution(text, states, actions) && n < |actions| && states[n].holder == Some(WriteMarker)
    ensures s < t < n && OneSession(states, s, n)
    ensures SavedWhole(text, states, actions, s, t)
  {
    t := StoredBeforeCommit(text, states, actions, n);
    s := HolderCameFrom(text, states, actions, t);
    WriterSerialized(text, states[s].mem, states[s].holder.value.w, actions[s].io);
  }

  lemma EnrichedBeforeSave(text: Text, states: seq<System>, actions: seq<Action>, s: nat)
    returns (test: nat, p: nat, e: nat)
    requires Execution(text, states, actions) && s < |actions| && states[s].holder == Some(Save(Serialize))
    ensures test <= p <= e < s && states[test].holder == Some(TestEmpty) && OneSession(states, test, s)
    ensures Enriched(states, actions, p, e)
  {
    e := HolderCameFrom(text, states, actions, s);
    if states[e].holder == Some(TestEmpty) {
      test, p := e, e;
    } else {
      assert states[e].holder.value.Enrich?;
      p := HolderCameFrom(text, states, actions, e);
      StepBack(text, states[p].mem, states[p].holder.value, actions[p].io);
      test := HolderCameFrom(text, states, actions, p);
      StepBack(text, states[test].mem, states[test].holder.value, actions[test].io);
    }
  }

  lemma ReadBeforeTest(text: Text, states: seq<System>, actions: seq<Action>, test: nat) returns (f: nat, i: nat, g: nat)
    requires Execution(text, states, actions) && test < |actions| && states[test].holder == Some(TestEmpty)
    ensures f < i < g < test && OneSession(states, f, test)
    ensures ReadAndInstalled(text, states, actions, f, i, g)
  {
    g := HolderCameFrom(text, states, actions, test);
    StepBack(text, states[g].mem, states[g].holder.value, actions[g].io);
    i := HolderCameFrom(text, states, actions, g);
    StepBack(text, states[i].mem, states[i].holder.value, actions[i].io);
    f := HolderCameFrom(text, states, actions, i);
    StepBack(text, states[f].mem, states[f].holder.value, actions[f].io);
  }

  /** Whatever other callers, failures and restarts surround it, a commit ends,
      under one hold of the lock, a complete import. */
  lemma CommitFollowsImport(text: Text, states: seq<System>, actions: seq<Action>, n: nat) returns (tr: Trail)
    requires Execution(text, states, actions) && n < |actions| && Commits(states[n], actions[n])
    ensures tr.commit == n && CompleteImport(text, states, actions, tr)
  {
    var s, t := SavedBeforeCommit(text, states, actions, n);
    var test, p, e := EnrichedBeforeSave(text, states, actions, s);
    var f, i, g := ReadBeforeTest(text, states, actions, test);
    tr := Trail(f, i, g, p, e, s, t, n);
  }

  // ---------- the marker ----------

  lemma MarkingCommits(text: Text, s: System, a: Action)
    requires !Marked(s.mem.store) && Marked(Step(text, s, a).mem.store)
    ensures Commits(s, a)
  {
    match a
    case HolderStep(io) =>
      if s.up && s.holder.Some? && s.holder.value.Save? { WriterFrame(text, s.mem, s.holder.value.w, io); }
    case MutatorStep(t, io) => if s.up && t in s.mutators { MutatorFrame(text, s.mem, s.mutators[t], io); }
    case _ =>
  }

  /** A marker that was not there at some earlier moment comes from a commit after
      it, and has stood since. */
  lemma {:induction false} MarkerWasCommitted(text: Text, states: seq<System>, actions: seq<Action>, from: nat, n: nat)
    returns (c: nat)
    requires Execution(text, states, actions) && from <= n <= |actions|
    requires Marked(states[n].mem.store) && !Marked(states[from].mem.store)
    ensures from <= c < n && Commits(states[c], actions[c])
    ensures forall j :: c < j <= n ==> Marked(states[j].mem.store)
  {
    if Marked(states[n - 1].mem.store) {
      c := MarkerWasCommitted(text, states, actions, from, n - 1);
    } else {
      c := n - 1;
      MarkingCommits(text, states[c], actions[c]);
    }
  }

  lemma {:induction false} StoredOnce(text: Text, states: seq<System>, actions: seq<Action>, t: nat, n: nat)
    requires Execution(text, states, actions) && t < n <= |actions| && StoresInfo(states[t], actions[t])
    ensures states[n].mem.saved != Untouched
  {
    if t < n - 1 {
      StoredOnce(text, states, actions, t, n - 1);
    }
    StepTracksSaved(text, states[n - 1], actions[n - 1]);
    DeletesOrStores(states[n - 1], actions[n - 1]);
  }

  /** After a store, a `deviceInfo` that is there is the text of the last store. */
  lemma InfoWasStored(text: Text, states: seq<System>, actions: seq<Action>, t: nat, n: nat) returns (u: int, k: int)
    requires Execution(text, states, actions) && t < n <= |actions| && StoresInfo(states[t], actions[t])
    requires DeviceInfo in states[n].mem.store
    ensures LastStore(states, actions, u, n) && SerializedAt(text, states, actions, k, u)
    ensures Serializes(text, states[n].mem.store[DeviceInfo], states[k].mem.cache)
  {
    StoredOnce(text, states, actions, t, n);
    StoreProvenance(text, states, actions, n);
    u := StoredByLastStore(text, states, actions, n);
    k := StoreWasSerialized(text, states, actions, u);
  }

  /** ... and one that is missing was deleted; after an import, not before it committed. */
  lemma InfoWasDeleted(text: Text, states: seq<System>, actions: seq<Action>, n: nat, tr: Trail) returns (d: int)
    requires Execution(text, states, actions) && n <= |actions|
    requires CompleteImport(text, states, actions, tr) && tr.commit < n && DeviceInfo !in states[n].mem.store
    ensures tr.commit < d && DeletedSince(states, actions, d, n)
  {
    assert StoresInfo(states[tr.store], actions[tr.store]);
    StoredOnce(text, states, actions, tr.store, n);
    StoreProvenance(text, states, actions, n);
    SavedTracksActions(text, states, actions, n);
    var last :| DeletedSince(states, actions, last, n);
    d := last;
    NoDeletionInSession(states, actions, tr.read, tr.commit, d);
    assert tr.store <= d;
  }

  lemma NoDeletionInSession(states: seq<System>, actions: seq<Action>, i: nat, j: nat, d: nat)
    requires i <= j < |states| && d < |actions| < |states| && OneSession(states, i, j)
    requires DeletesInfo(states[d], actions[d])
    ensures d < i || j < d
  {
  }

  /** Commit safety, whole: a marker that was not there at some earlier moment was
      put there by a complete import; the stored `deviceInfo` is what that import
      stored or what a later save stored, each the exact serialization of the whole
      cache at the save's own serialize step; and it is missing only if a clear
      deleted it after the commit and nothing was saved since. */
  lemma MarkerMeansImport(text: Text, states: seq<System>, actions: seq<Action>, from: nat, n: nat) returns (tr: Trail)
    requires Execution(text, states, actions) && from <= n <= |actions|
    requires Marked(states[n].mem.store) && !Marked(states[from].mem.store)
    ensures CompleteImport(text, states, actions, tr) && from <= tr.commit < n
    ensures forall j :: tr.commit < j <= n ==> Marked(states[j].mem.store)
    ensures forall u :: LastStore(states, actions, u, n) ==> tr.store <= u
    ensures DeviceInfo in states[n].mem.store ==>
      exists u, k :: LastStore(states, actions, u, n) && SerializedAt(text, states, actions, k, u)
                     && Serializes(text, states[n].mem.store[DeviceInfo], states[k].mem.cache)
    ensures DeviceInfo !in states[n].mem.store ==>
      exists d :: tr.commit < d && DeletedSince(states, actions, d, n)
  {
    var c := MarkerWasCommitted(text, states, actions, from, n);
    tr := CommitFollowsImport(text, states, actions, c);
    assert StoresInfo(states[tr.store], actions[tr.store]);
    if DeviceInfo in states[n].mem.store {
      var u, k := InfoWasStored(text, states, actions, tr.store, n);
    } else {
      var d := InfoWasDeleted(text, states, actions, n, tr);
    }
  }
}
