/** Where the content of the AS file comes from in any execution, and when the file
    is level with the cache. */
module FileHistory {
  import opened Prelude
  import opened Json
  import opened Devices
  import opened StoreCodec
  import opened PersistenceAdapter
  import opened ManagerSpec
  import opened Concurrency
  import opened ConcurrencySafety
  import opened History
  import opened KnownGaps
  import opened Overlap

  // ---------- the last write ----------

  /** The step is a mirror write that succeeds. */
  predicate WritesFile(s: System, a: Action) {
    && s.up && ActingWriter(s, a).Some? && ActingWriter(s, a).value.MirrorFile?
    && a.io.ok && Enumerates(a.io.order, ActingWriter(s, a).value.snapshot.Keys)
  }

  predicate TouchesFile(s: System, a: Action) {
    a.FileChanged? || WritesFile(s, a)
  }

  /** The content a mirror write leaves: its snapshot over what it could open. */
  function WrittenFile(text: Text, s: System, a: Action): string
    requires WritesFile(s, a)
  {
    MirrorText(text, if a.io.readable then s.mem.file else None, ActingWriter(s, a).value.snapshot, a.io.order)
  }

  lemma StepTracksFile(text: Text, s: System, a: Action)
    requires LockInvariant(s)
    ensures var file := Step(text, s, a).mem.file;
      if a.FileChanged? then file == a.file
      else if WritesFile(s, a) then file == Some(WrittenFile(text, s, a))
      else file == s.mem.file
  {
    match a
    case HolderStep(io) =>
      if s.up && s.holder.Some? && s.holder.value.Save? { WriterTracksFile(text, s.mem, s.holder.value.w, io); }
    case MutatorStep(t, io) =>
      if s.up && t in s.mutators && s.mutators[t].Saving? { WriterTracksFile(text, s.mem, s.mutators[t].w, io); }
    case _ =>
  }

  lemma WriterTracksFile(text: Text, mem: Shared, w: Writer, io: Io)
    ensures var file := StepWriter(text, mem, w, io).mem.file;
      if w.MirrorFile? && io.ok && Enumerates(io.order, w.snapshot.Keys)
      then file == Some(MirrorText(text, if io.readable then mem.file else None, w.snapshot, io.order))
      else file == mem.file
  {
  }

  /** Action `u` is the last one up to `n` to touch the file. */
  predicate LastTouch(states: seq<System>, actions: seq<Action>, u: int, n: nat)
    requires n <= |actions| < |states|
  {
    && 0 <= u < n && TouchesFile(states[u], actions[u])
    && forall j :: u < j < n ==> !TouchesFile(states[j], actions[j])
  }

  predicate NoTouch(states: seq<System>, actions: seq<Action>, n: nat)
    requires n <= |actions| < |states|
  {
    forall j :: 0 <= j < n ==> !TouchesFile(states[j], actions[j])
  }

  /** What is written at `u` was taken from the cache at `k` by the same thread, which
      waited in between. */
  predicate SnapshotAt(states: seq<System>, actions: seq<Action>, k: int, u: nat)
    requires u < |actions| < |states| && WritesFile(states[u], actions[u])
  {
    && 0 <= k < u && SameThread(actions[k], actions[u])
    && ActingWriter(states[k], actions[k]) == Some(Snapshot)
    && ActingWriter(states[u], actions[u]).value.snapshot == WithoutHid(states[k].mem.cache)
    && forall j :: k < j <= u ==> ActingWriter(states[j], actions[u]) == ActingWriter(states[u], actions[u])
  }

  lemma WriterSnapshot(text: Text, mem: Shared, w: Writer, io: Io)
    ensures var r := StepWriter(text, mem, w, io);
      r.next.At? && r.next.w.MirrorFile? ==> w == Snapshot && r.next.w.snapshot == WithoutHid(mem.cache)
  {
  }

  /** Every mirror write is a caller's, and has its snapshot step. */
  lemma WriteWasSnapshot(text: Text, states: seq<System>, actions: seq<Action>, u: nat) returns (k: nat)
    requires Execution(text, states, actions) && u < |actions| && WritesFile(states[u], actions[u])
    ensures actions[u].MutatorStep? && SnapshotAt(states, actions, k, u)
  {
    var a := actions[u];
    LockProtocol(text, states, actions, u);
    assert a.MutatorStep?;
    k := CallerCameFrom(text, states, actions, u, a.t);
    var pc := states[k].mutators[a.t];
    assert pc.Saving?;
    WriterSnapshot(text, states[k].mem, pc.w, actions[k].io);
  }

  lemma {:induction false} FileIsLastTouch(text: Text, states: seq<System>, actions: seq<Action>, n: nat)
    requires Execution(text, states, actions) && n <= |actions|
    ensures NoTouch(states, actions, n) ==> states[n].mem.file == states[0].mem.file
    ensures forall u :: LastTouch(states, actions, u, n) ==>
      states[n].mem.file == if actions[u].FileChanged? then actions[u].file
                            else Some(WrittenFile(text, states[u], actions[u]))
    ensures NoTouch(states, actions, n) || exists u :: LastTouch(states, actions, u, n)
  {
    if n > 0 {
      var m := n - 1;
      FileIsLastTouch(text, states, actions, m);
      LockProtocol(text, states, actions, m);
      StepTracksFile(text, states[m], actions[m]);
      LastTouchStep(states, actions, m, n);
      if TouchesFile(states[m], actions[m]) {
        assert LastTouch(states, actions, m, n);
      } else if u :| LastTouch(states, actions, u, m) {
        assert LastTouch(states, actions, u, n);
      }
    }
  }

  lemma LastTouchStep(states: seq<System>, actions: seq<Action>, m: nat, n: nat)
    requires n == m + 1 <= |actions| < |states|
    ensures var touches := TouchesFile(states[m], actions[m]);
      && (NoTouch(states, actions, n) <==> !touches && NoTouch(states, actions, m))
      && forall u :: LastTouch(states, actions, u, n)
                     <==> if touches then u == m else LastTouch(states, actions, u, m)
  {
    forall u
      ensures LastTouch(states, actions, u, n)
         <==> if TouchesFile(states[m], actions[m]) then u == m else LastTouch(states, actions, u, m)
    {
      if u < m && LastTouch(states, actions, u, n) {
        assert !TouchesFile(states[m], actions[m]);
      }
    }
  }

  /** What the file can be at `n`: mirror `k` of the cache, over the file as it was
      at the very step `u` that wrote it, or over nothing. */
  predicate MirrorOfPast(text: Text, states: seq<System>, actions: seq<Action>, k: nat, u: nat, file: Option<string>)
    requires u < |actions| < |states| && k < |states|
  {
    && WritesFile(states[u], actions[u]) && SnapshotAt(states, actions, k, u)
    && var kept := WithoutHid(states[k].mem.cache);
      && Enumerates(actions[u].io.order, kept.Keys)
      && file == Some(MirrorText(text, if actions[u].io.readable then states[u].mem.file else None, kept, actions[u].io.order))
  }

  /** Provenance of the AS file, in every interleaving: nothing touched it, or its
      previous owner did last, or it is the mirror of one whole cache that occurred,
      taken and written in two separate steps. */
  lemma FileProvenance(text: Text, states: seq<System>, actions: seq<Action>, n: nat)
    requires Execution(text, states, actions) && n <= |actions|
    ensures || (NoTouch(states, actions, n) && states[n].mem.file == states[0].mem.file)
            || (exists u :: LastTouch(states, actions, u, n) && actions[u].FileChanged?
                            && states[n].mem.file == actions[u].file)
            || (exists u: nat, k: nat :: LastTouch(states, actions, u, n) && k < u
                                         && MirrorOfPast(text, states, actions, k, u, states[n].mem.file))
  {
    FileIsLastTouch(text, states, actions, n);
    if u :| LastTouch(states, actions, u, n) {
      if !actions[u].FileChanged? {
        var k := WriteWasSnapshot(text, states, actions, u);
        assert MirrorOfPast(text, states, actions, k, u, states[n].mem.file);
      }
    }
  }

  // ---------- a write that comes late ----------

  /** The caller is past its second flag test with the mirror still to come. */
  predicate MayYetMirror(pc: Mutator) {
    pc.Saving? && Mirroring(pc.w)
  }

  predicate AnyCallers(actions: seq<Action>) {
    forall k :: 0 <= k < |actions| ==> actions[k].Call? || actions[k].MutatorStep?
  }

  /** Whatever callers come and go, none writes the file. */
  ghost predicate NeverMirrored(text: Text, s: System) {
    forall actions, a :: AnyCallers(actions) ==> !WritesFile(After(text, s, actions), a)
  }

  lemma NoMirrorStep(text: Text, mem: Shared, pc: Mutator, io: Io)
    requires !mem.isMigrated && !MayYetMirror(pc)
    ensures var r := StepMutator(text, mem, pc, io);
      !r.mem.isMigrated && (r.next.Some? ==> !MayYetMirror(r.next.value))
  {
  }

  lemma {:induction false} NoMirrorStays(text: Text, s: System, actions: seq<Action>, a: Action)
    requires s.up && !s.mem.isMigrated && !Mirrors(s.holder) && AnyCallers(actions)
    requires forall t :: t in s.mutators ==> !MayYetMirror(s.mutators[t])
    ensures !WritesFile(After(text, s, actions), a)
    decreases |actions|
  {
    if actions != [] {
      var first := actions[0];
      if first.MutatorStep? && first.t in s.mutators {
        NoMirrorStep(text, s.mem, s.mutators[first.t], first.io);
      }
      NoMirrorStays(text, Step(text, s, first), actions[1..], a);
    }
  }

  predicate Mirrors(holder: Option<Holder>) {
    holder.Some? && holder.value.Save? && Mirroring(holder.value.w)
  }

  lemma MirrorStillLands(text: Text, s: System, t: int) returns (actions: seq<Action>, a: Action)
    requires s.up && t in s.mutators && MayYetMirror(s.mutators[t])
    ensures AnyCallers(actions) && WritesFile(After(text, s, actions), a)
  {
    match s.mutators[t].w
    case MirrorFile(snapshot) =>
      var order := EnumerationExists(snapshot.Keys);
      actions, a := [], MutatorStep(t, WORKS.(order := order));
    case Snapshot =>
      var order := EnumerationExists(WithoutHid(s.mem.cache).Keys);
      actions, a := [MutatorStep(t, WORKS)] + [], MutatorStep(t, WORKS.(order := order));
      AfterOne(text, s, MutatorStep(t, WORKS), []);
  }

  /** With the flag down, after a clear, say, the file is safe from the plugin until
      the next migration exactly when no caller stands between its second flag test
      and its mirror write. */
  lemma NeverMirroredIff(text: Text, s: System)
    requires s.up && !s.mem.isMigrated && LockInvariant(s)
    ensures NeverMirrored(text, s) <==> forall t :: t in s.mutators ==> !MayYetMirror(s.mutators[t])
  {
    if forall t :: t in s.mutators ==> !MayYetMirror(s.mutators[t]) {
      forall actions, a | AnyCallers(actions) ensures !WritesFile(After(text, s, actions), a) {
        NoMirrorStays(text, s, actions, a);
      }
    } else {
      var t :| t in s.mutators && MayYetMirror(s.mutators[t]);
      var actions, a := MirrorStillLands(text, s, t);
    }
  }

  // ---------- the file level with store and cache ----------

  /** The file is a mirror of the whole current cache, remote controls apart. */
  ghost predicate Mirror(text: Text, mem: Shared) {
    exists before, order ::
      Enumerates(order, WithoutHid(mem.cache).Keys)
      && mem.file == Some(MirrorText(text, before, WithoutHid(mem.cache), order))
  }

  /** Where a lone caller stands, the file is a mirror, or the caller is about to
      make it one. */
  ghost predicate MirrorOrPending(text: Text, mem: Shared, pc: Mutator) {
    match pc
    case TestMigrated => true
    case Saving(MirrorFile(snapshot)) => snapshot == WithoutHid(mem.cache)
    case Saving(_) => true
    case _ => Mirror(text, mem)
  }

  /** `mirrored`: a mirror has been written since the turns began. */
  ghost predicate MirrorInTurn(text: Text, s: System, mirrored: bool) {
    && (mirrored && s.mutators == map[] ==> Mirror(text, s.mem))
    && forall t :: t in s.mutators ==>
         MirrorOrPending(text, s.mem, s.mutators[t])
         || (!mirrored && !MayYetMirror(s.mutators[t]))
  }

  /** Calls do not overlap, no store and no file write fails, and nobody else
      touches the file. */
  predicate TakesFullTurns(s: System, a: Action) {
    && TakesTurns(s, a) && !a.FileChanged?
    && (ActingWriter(s, a).Some? && ActingWriter(s, a).value.MirrorFile? ==> WritesFile(s, a))
  }

  predicate MirroredSince(states: seq<System>, actions: seq<Action>, i: nat, n: nat)
    requires n <= |actions| < |states|
  {
    exists k :: i <= k < n && WritesFile(states[k], actions[k])
  }

  lemma MirrorCallerStep(text: Text, mem: Shared, pc: Mutator, io: Io, mirrored: bool)
    requires mem.isMigrated
    requires MirrorOrPending(text, mem, pc) || (!mirrored && !MayYetMirror(pc))
    requires pc.Saving? && pc.w.Store? ==> io.ok
    requires pc.Saving? && pc.w.MirrorFile? ==> io.ok && Enumerates(io.order, pc.w.snapshot.Keys)
    ensures var r := StepMutator(text, mem, pc, io);
      var written := mirrored || (pc.Saving? && pc.w.MirrorFile?);
      && (r.next.None? && written ==> Mirror(text, r.mem))
      && (r.next.Some? ==> MirrorOrPending(text, r.mem, r.next.value) || (!written && !MayYetMirror(r.next.value)))
  {
    if pc.Saving? && pc.w.MirrorFile? {
      var before := if io.readable then mem.file else None;
      assert StepMutator(text, mem, pc, io).mem.file == Some(MirrorText(text, before, pc.w.snapshot, io.order));
    }
  }

  lemma MirrorTurnKept(text: Text, s: System, a: Action, mirrored: bool)
    requires InTurn(s) && TakesFullTurns(s, a) && MirrorInTurn(text, s, mirrored)
    ensures MirrorInTurn(text, Step(text, s, a), mirrored || WritesFile(s, a))
  {
    if a.MutatorStep? && a.t in s.mutators {
      var pc := s.mutators[a.t];
      MirrorCallerStep(text, s.mem, pc, a.io, mirrored);
      assert forall t :: t in s.mutators ==> t == a.t;
    }
  }

  lemma {:induction false} MirrorTurnsKept(text: Text, states: seq<System>, actions: seq<Action>, i: nat, n: nat)
    requires Execution(text, states, actions) && i <= n <= |actions|
    requires InTurn(states[i]) && states[i].mutators == map[]
    requires forall k :: i <= k < n ==> TakesFullTurns(states[k], actions[k])
    ensures MirrorInTurn(text, states[n], MirroredSince(states, actions, i, n))
  {
    if i < n {
      var m := n - 1;
      MirrorTurnsKept(text, states, actions, i, m);
      TurnsKept(text, states, actions, i, m);
      MirrorTurnKept(text, states[m], actions[m], MirroredSince(states, actions, i, m));
      assert MirroredSince(states, actions, i, n)
        <==> MirroredSince(states, actions, i, m) || WritesFile(states[m], actions[m]);
    }
  }

  /** File, store and cache agree at rest: after turns in which one mutation at
      least was saved, the file is a mirror of the cache held, and a restart would
      load the persisted fields of that same cache. */
  lemma TurnsKeepMirror(text: Text, states: seq<System>, actions: seq<Action>, i: nat, n: nat)
    requires text.Inverse() && Execution(text, states, actions) && i <= n <= |actions|
    requires Idle(states[i]) && states[i].mem.isMigrated && Level(states[i].mem)
    requires forall k :: i <= k < n ==> TakesFullTurns(states[k], actions[k])
    requires MirroredSince(states, actions, i, n)
    requires Idle(states[n]) && |states[n].mem.cache| < ARRAY_LENGTH_LIMIT
    ensures Mirror(text, states[n].mem)
    ensures RestartedCache(text, states[n]) == Persisted(states[n].mem.cache)
  {
    MirrorTurnsKept(text, states, actions, i, n);
    TurnsKeepLevel(text, states, actions, i, n);
  }
}
