/** Migration attempts stopped anywhere: by a failing call, by a crash between any
    two steps, by a start that fails, among any number of other callers. */
module Attempts {
  import opened Prelude
  import opened Json
  import opened Devices
  import opened StoreCodec
  import opened Reconcile
  import opened ManagerSpec
  import opened Concurrency
  import opened ConcurrencySafety
  import opened SoloRefinement

  /** The action neither completes an import nor is the file's previous owner's. */
  predicate LeavesUnmigrated(s: System, a: Action) {
    !Commits(s, a) && !a.FileChanged?
  }

  predicate NoMirrorPending(pc: Mutator) {
    pc.Saving? ==> !Mirroring(pc.w)
  }

  /** Neither marker nor flag, the file as it was, and nobody on the way to it. */
  predicate StillUnmigrated(s: System, file: Option<string>) {
    && !Marked(s.mem.store) && !s.mem.isMigrated && s.mem.file == file
    && forall t :: t in s.mutators ==> NoMirrorPending(s.mutators[t])
  }

  lemma HolderStillUnmigrated(text: Text, mem: Shared, h: Holder, io: Io)
    requires LockOrder(mem, Some(h)) && !Marked(mem.store) && !mem.isMigrated && !(h.WriteMarker? && io.ok)
    ensures var now := StepHolder(text, mem, h, io).mem;
      !Marked(now.store) && !now.isMigrated && now.file == mem.file
  {
    if h.Save? {
      WriterFrame(text, mem, h.w, io);
    }
  }

  lemma CallerStillUnmigrated(text: Text, mem: Shared, pc: Mutator, io: Io)
    requires !Marked(mem.store) && !mem.isMigrated && NoMirrorPending(pc)
    ensures var r := StepMutator(text, mem, pc, io);
      && !Marked(r.mem.store) && !r.mem.isMigrated && r.mem.file == mem.file
      && (r.next.Some? ==> NoMirrorPending(r.next.value))
  {
    if pc.Saving? {
      WriterFrame(text, mem, pc.w, io);
    }
  }

  /** From an unmarked store, and as long as no import is completed: whatever
      callers, clears, crashes and starts occur and wherever attempts stop, the
      marker stays absent, the flag down and the AS file untouched. */
  lemma {:induction false} AttemptsLeaveNoTrace(text: Text, states: seq<System>, actions: seq<Action>, n: nat)
    requires Execution(text, states, actions) && n <= |actions| && !Marked(states[0].mem.store)
    requires forall k :: 0 <= k < n ==> LeavesUnmigrated(states[k], actions[k])
    ensures StillUnmigrated(states[n], states[0].mem.file)
  {
    if n > 0 {
      AttemptsLeaveNoTrace(text, states, actions, n - 1);
      LockProtocol(text, states, actions, n - 1);
      var s := states[n - 1];
      assert LeavesUnmigrated(s, actions[n - 1]);
      match actions[n - 1]
      case HolderStep(io) =>
        if s.up && s.holder.Some? { HolderStillUnmigrated(text, s.mem, s.holder.value, io); }
      case MutatorStep(t, io) =>
        if s.up && t in s.mutators { CallerStillUnmigrated(text, s.mem, s.mutators[t], io); }
      case _ =>
    }
  }

  /** From `i` to `j` only the holder of the migration lock moves; the paired list
      it sees stays the same. */
  predicate OnlyHolderMoves(states: seq<System>, actions: seq<Action>, paired: seq<Paired>, i: nat, j: nat)
    requires i <= j <= |actions| < |states|
  {
    forall k :: i <= k < j ==>
      actions[k].HolderStep? && actions[k].io.paired == paired && states[k].up && states[k].holder.Some?
  }

  lemma MigrationIsSequential(text: Text, states: seq<System>, actions: seq<Action>, paired: seq<Paired>, i: nat, j: nat)
    requires Execution(text, states, actions) && i <= j <= |actions|
    requires OnlyHolderMoves(states, actions, paired, i, j)
    requires states[i].holder == Some(ReadMarker) && states[j].holder == None
    requires states[i].mem.View().FlagJustified()
    ensures exists r :: Performed(text, paired, states[i].mem.View(), states[j].mem.View(), r)
  {
    var steps := seq(j - i + 1, k requires 0 <= k < j - i + 1 => Stepped(states[i + k].mem, states[i + k].holder));
    var ios := seq(j - i, k requires 0 <= k < j - i => if actions[i + k].HolderStep? then actions[i + k].io else Io(true, [], [], true));
    forall k | 0 <= k < |ios|
      ensures && ios[k].paired == paired && steps[k].next.Some?
              && steps[k + 1] == StepHolder(text, steps[k].mem, steps[k].next.value, ios[k])
    {
      assert states[i + k + 1] == Step(text, states[i + k], actions[i + k]);
      assert actions[i + k].HolderStep?;
    }
    PerformAloneIsSequential(text, paired, steps, ios);
  }

  /** Retry safety over executions: after any number of attempts, failed, crashed
      or cleared away, the first migration that completes undisturbed ends with
      exactly what the AS file of the very beginning and the paired list give. */
  lemma RetryAfterAnything(text: Text, states: seq<System>, actions: seq<Action>, paired: seq<Paired>, i: nat, j: nat)
    requires Execution(text, states, actions) && i <= j <= |actions| && !Marked(states[0].mem.store)
    requires forall k :: 0 <= k < i ==> LeavesUnmigrated(states[k], actions[k])
    requires OnlyHolderMoves(states, actions, paired, i, j)
    requires states[i].holder == Some(ReadMarker) && states[j].holder == None && states[j].mem.isMigrated
    ensures var migrated := states[j].mem;
      && Imported(text, states[0].mem.file, paired) == Some(migrated.cache)
      && Marked(migrated.store) && migrated.file == states[0].mem.file
      && DeviceInfo in migrated.store && Serializes(text, migrated.store[DeviceInfo], migrated.cache)
  {
    AttemptsLeaveNoTrace(text, states, actions, i);
    MigrationIsSequential(text, states, actions, paired, i, j);
    var r :| Performed(text, paired, states[i].mem.View(), states[j].mem.View(), r);
  }
}
