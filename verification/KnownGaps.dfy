/** Runs the operations do allow, each with an outcome the design does not
    intend. `Overlap` says exactly when calls that overlap avoid theirs. */
module KnownGaps {
  import opened Prelude
  import opened Json
  import opened Devices
  import opened StoreCodec
  import opened ManagerSpec
  import opened Concurrency
  import Decimal

  /** The state after a sequence of actions. */
  function After(text: Text, s: System, actions: seq<Action>): System
    decreases |actions|
  {
    if actions == [] then s else After(text, Step(text, s, actions[0]), actions[1..])
  }

  lemma AfterOne(text: Text, s: System, a: Action, rest: seq<Action>)
    ensures After(text, s, [a] + rest) == After(text, Step(text, s, a), rest)
  {
    assert ([a] + rest)[1..] == rest;
  }

  /** Four actions, one step at a time. */
  lemma AfterFour(text: Text, s: System, a: Action, b: Action, c: Action, d: Action)
    ensures After(text, s, [a, b, c, d]) == Step(text, Step(text, Step(text, Step(text, s, a), b), c), d)
  {
    assert [a, b, c, d] == [a] + ([b] + ([c] + ([d] + [])));
    AfterOne(text, s, a, [b] + ([c] + ([d] + [])));
    AfterOne(text, Step(text, s, a), b, [c] + ([d] + []));
    AfterOne(text, Step(text, Step(text, s, a), b), c, [d] + []);
    AfterOne(text, Step(text, Step(text, Step(text, s, a), b), c), d, []);
  }

  predicate Idle(s: System) {
    s.up && s.holder == None && s.mutators == map[]
  }

  const WORKS := Io(true, [], [], true)

  /** A clear cut short between its two deletes leaves a marker without data, so
      the next start is "migrated" with an empty cache. */
  lemma InterruptedClearLosesTheCache(text: Text, s: System)
    requires Idle(s) && Marked(s.mem.store)
    ensures var again := After(text, s, [StartClear] + ([HolderStep(WORKS)] + ([Crash] + ([Init(true, true)] + []))));
      again.up && again.mem.isMigrated && again.mem.cache == map[] && DeviceInfo !in again.mem.store
  {
    var s1 := Step(text, s, StartClear);
    var s2 := Step(text, s1, HolderStep(WORKS));
    var s3 := Step(text, s2, Crash);
    AfterOne(text, s, StartClear, [HolderStep(WORKS)] + ([Crash] + ([Init(true, true)] + [])));
    AfterOne(text, s1, HolderStep(WORKS), [Crash] + ([Init(true, true)] + []));
    AfterOne(text, s2, Crash, [Init(true, true)] + []);
    AfterOne(text, s3, Init(true, true), []);
  }

  /** A start followed by a migration call finds the stored devices exactly when
      `init` could read the marker, or there was nothing to lose. */
  lemma MigratedCacheIsLoadedIff(text: Text, paired: seq<Paired>, v: View, started: View, migrated: View, markerRead: bool)
    requires v.cache == map[] && Marked(v.store)
    requires Initialised(text, v, started, markerRead, ErrorNone)
    requires Performed(text, paired, started, migrated, ErrorNone)
    ensures migrated.cache == LoadedOrEmpty(text, v.store) <==> markerRead || LoadedOrEmpty(text, v.store) == map[]
  {
  }

  const PERFORM_AFTER_FAILED_READ: seq<Action> := [Init(false, true), StartPerform, HolderStep(WORKS), HolderStep(WORKS)]

  /** When `init` cannot read the marker, a later migration call finds it, raises
      the flag and loads nothing: whatever was stored, the cache is empty. */
  lemma UnreadMarkerSkipsTheLoad(text: Text, s: System)
    requires !s.up && s.holder == None && s.mutators == map[] && s.mem.cache == map[] && Marked(s.mem.store)
    ensures var now := After(text, s, PERFORM_AFTER_FAILED_READ);
      Idle(now) && now.mem == s.mem.(isMigrated := true)
  {
    var a := PERFORM_AFTER_FAILED_READ;
    var s1 := Step(text, s, a[0]);
    var s2 := Step(text, s1, a[1]);
    var s3 := Step(text, s2, a[2]);
    AfterFour(text, s, a[0], a[1], a[2], a[3]);
  }

  lemma AddUpdates(text: Text, s: System, t: int, id: string, device: Paired)
    requires s.up && t !in s.mutators && s.mem.cache == map[] && Decimal.Stoll(id).Some?
    ensures Step(text, Step(text, s, Call(t, Add(id, Some(device)))), MutatorStep(t, WORKS))
         == s.(mem := s.mem.(cache := map[id := AddedInfo(id, device)]), mutators := s.mutators[t := TestMigrated])
  {
    var called := Step(text, s, Call(t, Add(id, Some(device))));
    assert called == s.(mutators := s.mutators[t := Update(Add(id, Some(device)))]);
  }

  lemma OneSerializes(text: Text, s: System, t: int, id: string)
    requires s.up && t in s.mutators && s.mutators[t] == TestMigrated && s.mem.isMigrated && s.mem.cache.Keys == {id}
    ensures Step(text, Step(text, s, MutatorStep(t, WORKS)), MutatorStep(t, WORKS.(order := [id])))
         == s.(mutators := s.mutators[t := Saving(Store(text.encode(Arr([Record(id, s.mem.cache[id])])), s.mem.cache))])
  {
    var tested := Step(text, s, MutatorStep(t, WORKS));
    assert tested == s.(mutators := s.mutators[t := Saving(Serialize)]);
    assert Enumerates([id], s.mem.cache.Keys);
    OneRecord(s.mem.cache, id);
  }

  /** ... and the next added device then replaces everything stored. */
  lemma UnreadMarkerOverwritesTheStore(text: Text, s: System, id: string, device: Paired)
    requires Idle(s) && s.mem.isMigrated && s.mem.cache == map[] && Decimal.Stoll(id).Some?
    ensures var step := MutatorStep(0, WORKS);
      var serialized := After(text, s, [Call(0, Add(id, Some(device))), step, step, MutatorStep(0, WORKS.(order := [id]))]);
      var now := Step(text, serialized, step);
      && now.mem.saved == Wrote(map[id := AddedInfo(id, device)])
      && now.mem.store == s.mem.store[DeviceInfo := text.encode(Arr([Record(id, AddedInfo(id, device))]))]
  {
    var step, saved := MutatorStep(0, WORKS), MutatorStep(0, WORKS.(order := [id]));
    var call := Call(0, Add(id, Some(device)));
    AfterFour(text, s, call, step, step, saved);
    AddUpdates(text, s, 0, id, device);
    OneSerializes(text, Step(text, Step(text, s, call), step), 0, id);
  }

  lemma OneRecord(cache: Cache, id: string)
    requires id in cache
    ensures Records(cache, [id]) == [Record(id, cache[id])]
  {
    assert [id][..0] == [];
  }

  /** `setLastConnectTimeUtc` reads and writes the cache in two lock sections: a
      device removed in between comes back. */
  lemma TouchRevivesARemovedDevice(text: Text, s: System, id: string, time: string)
    requires Idle(s) && id in s.mem.cache
    ensures var removed := After(text, s, [Call(0, Touch(id, time)), MutatorStep(0, WORKS),
                                           Call(1, Remove(id)), MutatorStep(1, WORKS)]);
      var revived := Step(text, removed, MutatorStep(0, WORKS));
      && removed.mem.cache == s.mem.cache - {id}
      && revived.mem.cache == s.mem.cache[id := s.mem.cache[id].(lastConnectTimeUtc := time)]
  {
    var a := [Call(0, Touch(id, time)), MutatorStep(0, WORKS), Call(1, Remove(id)), MutatorStep(1, WORKS)];
    var s1 := Step(text, s, a[0]);
    var s2 := Step(text, s1, a[1]);
    var s3 := Step(text, s2, a[2]);
    assert s2.mutators[0] == PutBack(id, s.mem.cache[id].(lastConnectTimeUtc := time));
    assert s3.mutators[0] == s2.mutators[0] && s3.mutators[1] == Update(Remove(id));
    AfterFour(text, s, a[0], a[1], a[2], a[3]);
  }

  lemma {:induction false} AfterBoth(text: Text, s: System, a: seq<Action>, b: seq<Action>)
    ensures After(text, s, a + b) == After(text, After(text, s, a), b)
    decreases |a|
  {
    if a == [] {
      assert a + b == b;
    } else {
      assert a + b == [a[0]] + (a[1..] + b);
      AfterOne(text, s, a[0], a[1..] + b);
      AfterBoth(text, Step(text, s, a[0]), a[1..], b);
    }
  }

  /** A volume call up to the point where the text is made but not yet stored. */
  function VolumeUpToStore(t: int, id: string, volume: Int64): seq<Action> {
    [Call(t, SetLastVolume(id, volume)), MutatorStep(t, WORKS), MutatorStep(t, WORKS),
     MutatorStep(t, WORKS.(order := [id]))]
  }

  function OneDevice(id: string, info: Info, volume: Int64): Cache {
    map[id := info.(lastVolumeSetting := volume)]
  }

  function StoredDevice(text: Text, id: string, info: Info, volume: Int64): string {
    text.encode(Arr([Record(id, info.(lastVolumeSetting := volume))]))
  }

  lemma VolumeUpdates(text: Text, s: System, t: int, id: string, info: Info, was: Int64, volume: Int64)
    requires s.up && t !in s.mutators && s.mem.cache == OneDevice(id, info, was)
    ensures Step(text, Step(text, s, Call(t, SetLastVolume(id, volume))), MutatorStep(t, WORKS))
         == s.(mem := s.mem.(cache := OneDevice(id, info, volume)), mutators := s.mutators[t := TestMigrated])
  {
    var called := Step(text, s, Call(t, SetLastVolume(id, volume)));
    assert called == s.(mutators := s.mutators[t := Update(SetLastVolume(id, volume))]);
  }

  lemma VolumeReachesStore(text: Text, s: System, t: int, id: string, info: Info, was: Int64, volume: Int64)
    requires s.up && t !in s.mutators && s.mem.isMigrated && s.mem.cache == OneDevice(id, info, was)
    ensures After(text, s, VolumeUpToStore(t, id, volume))
         == s.(mem := s.mem.(cache := OneDevice(id, info, volume)),
               mutators := s.mutators[t := Saving(Store(StoredDevice(text, id, info, volume), OneDevice(id, info, volume)))])
  {
    var a := VolumeUpToStore(t, id, volume);
    AfterFour(text, s, a[0], a[1], a[2], a[3]);
    VolumeUpdates(text, s, t, id, info, was, volume);
    OneSerializes(text, Step(text, Step(text, s, a[0]), a[1]), t, id);
  }

  lemma LastStoreWins(text: Text, s: System, first: string, older: Cache, second: string, newer: Cache)
    requires s.up && s.mutators == map[0 := Saving(Store(first, older)), 1 := Saving(Store(second, newer))]
    ensures var now := After(text, s, [MutatorStep(1, WORKS), MutatorStep(0, WORKS)]);
      && now.mem.cache == s.mem.cache
      && now.mem.store == s.mem.store[DeviceInfo := second][DeviceInfo := first]
      && now.mutators == map[0 := Saving(TestFlag), 1 := Saving(TestFlag)]
  {
    var a := [MutatorStep(1, WORKS), MutatorStep(0, WORKS)];
    var s1 := Step(text, s, a[0]);
    assert s1.mutators == map[0 := Saving(Store(first, older)), 1 := Saving(TestFlag)];
    assert a == [a[0]] + ([a[1]] + []);
    AfterOne(text, s, a[0], [a[1]] + []);
    AfterOne(text, s1, a[1], []);
  }

  /** Serializing and storing are two steps: of two callers, the one that
      serialized first may store last, and its older cache stays in the store. */
  lemma OlderSnapshotMayWin(text: Text, s: System, id: string, info: Info, was: Int64, older: Int64, newer: Int64)
    requires Idle(s) && s.mem.isMigrated && s.mem.cache == OneDevice(id, info, was)
    ensures var both := VolumeUpToStore(0, id, older) + VolumeUpToStore(1, id, newer);
      var now := After(text, s, both + [MutatorStep(1, WORKS), MutatorStep(0, WORKS)]);
      && now.mem.cache == OneDevice(id, info, newer)
      && now.mem.store == s.mem.store[DeviceInfo := StoredDevice(text, id, info, older)]
      && now.mutators == map[0 := Saving(TestFlag), 1 := Saving(TestFlag)]
  {
    var both := VolumeUpToStore(0, id, older) + VolumeUpToStore(1, id, newer);
    var a := [MutatorStep(1, WORKS), MutatorStep(0, WORKS)];
    var s1 := After(text, s, VolumeUpToStore(0, id, older));
    VolumeReachesStore(text, s, 0, id, info, was, older);
    VolumeReachesStore(text, s1, 1, id, info, older, newer);
    AfterBoth(text, s, VolumeUpToStore(0, id, older), VolumeUpToStore(1, id, newer));
    AfterBoth(text, s, both, a);
    LastStoreWins(text, After(text, s, both), StoredDevice(text, id, info, older), OneDevice(id, info, older),
                  StoredDevice(text, id, info, newer), OneDevice(id, info, newer));
    assert s.mem.store[DeviceInfo := StoredDevice(text, id, info, newer)][DeviceInfo := StoredDevice(text, id, info, older)]
        == s.mem.store[DeviceInfo := StoredDevice(text, id, info, older)];
  }

  lemma ClearWipes(text: Text, s: System)
    requires s.up && s.holder == None
    ensures var h := HolderStep(WORKS);
      After(text, s, [StartClear, h, h, h])
      == s.(mem := s.mem.(cache := map[], store := s.mem.store - {DeviceInfo} - {MigrationVersion}, saved := Deleted),
            holder := Some(LowerFlag))
  {
    var h := HolderStep(WORKS);
    AfterFour(text, s, StartClear, h, h, h);
  }

  lemma ClearEnds(text: Text, s: System)
    requires s.up && s.holder == Some(LowerFlag)
    ensures Step(text, Step(text, s, HolderStep(WORKS)), HolderStep(WORKS))
         == s.(mem := s.mem.(isMigrated := false), holder := None)
  {
  }

  lemma LateStore(text: Text, s: System, stored: string, cache: Cache)
    requires s.up && !s.mem.isMigrated && s.mutators == map[0 := Saving(Store(stored, cache))]
    ensures Step(text, Step(text, s, MutatorStep(0, WORKS)), MutatorStep(0, WORKS))
         == s.(mem := s.mem.(store := s.mem.store[DeviceInfo := stored], saved := Wrote(cache)), mutators := map[])
  {
    assert Step(text, s, MutatorStep(0, WORKS)).mutators == map[0 := Saving(TestFlag)];
  }

  /** A caller that serialized before a clear may store after it: the clear has
      succeeded, and yet `deviceInfo` is back. */
  lemma ClearedInfoReappears(text: Text, s: System, stored: string, cache: Cache)
    requires s.up && s.holder == None && s.mutators == map[0 := Saving(Store(stored, cache))]
    ensures var h := HolderStep(WORKS);
      var wiped := After(text, s, [StartClear, h, h, h]);
      var now := After(text, wiped, [h, h, MutatorStep(0, WORKS), MutatorStep(0, WORKS)]);
      && Idle(now) && now.mem.cache == map[] && !now.mem.isMigrated
      && now.mem.store == (s.mem.store - {DeviceInfo} - {MigrationVersion})[DeviceInfo := stored]
  {
    var h, m := HolderStep(WORKS), MutatorStep(0, WORKS);
    var wiped := After(text, s, [StartClear, h, h, h]);
    ClearWipes(text, s);
    AfterFour(text, wiped, h, h, m, m);
    ClearEnds(text, wiped);
    LateStore(text, wiped.(mem := wiped.mem.(isMigrated := false), holder := None), stored, cache);
  }

  lemma EmptyFileIsRead(text: Text, s: System)
    requires s.up && s.holder == None && !Marked(s.mem.store) && s.mem.file == None
    ensures var h := HolderStep(WORKS);
      After(text, s, [StartPerform, h, h, h]) == s.(holder := Some(Install(map[])))
  {
    var h := HolderStep(WORKS);
    AfterFour(text, s, StartPerform, h, h, h);
  }

  lemma EmptyCacheIsSaved(text: Text, s: System)
    requires s.up && s.holder == Some(Install(map[])) && !s.mem.isMigrated
    ensures var h := HolderStep(WORKS);
      After(text, s, [h, h, h, h])
      == s.(mem := s.mem.(cache := map[], store := s.mem.store[DeviceInfo := text.encode(Arr([]))], saved := Wrote(map[])),
            holder := Some(Save(TestFlag)))
  {
    var h := HolderStep(WORKS);
    AfterFour(text, s, h, h, h, h);
    var serializing := Step(text, Step(text, s, h), h);
    assert serializing == s.(mem := s.mem.(cache := map[]), holder := Some(Save(Serialize)));
    assert Enumerates(WORKS.order, serializing.mem.cache.Keys);
  }

  lemma MarkerIsStored(text: Text, s: System)
    requires s.up && s.holder == Some(Save(TestFlag)) && !s.mem.isMigrated
    ensures var h := HolderStep(WORKS);
      After(text, s, [h, h, h, h])
      == s.(mem := s.mem.(store := s.mem.store[MigrationVersion := MIGRATION_VERSION], isMigrated := true), holder := None)
  {
    var h := HolderStep(WORKS);
    AfterFour(text, s, h, h, h, h);
  }

  /** ... and not only after the clear but after the next migration: data from
      before the clear then stands under the new marker, and a restart loads it. */
  lemma StaleSaveUnderNewMarker(text: Text, s: System, stored: string, cache: Cache)
    requires s.up && s.holder == None && s.mem.file == None
    requires s.mutators == map[0 := Saving(Store(stored, cache))]
    ensures var h, m := HolderStep(WORKS), MutatorStep(0, WORKS);
      var cleared := Step(text, Step(text, After(text, s, [StartClear, h, h, h]), h), h);
      var migrated := After(text, After(text, After(text, cleared, [StartPerform, h, h, h]), [h, h, h, h]), [h, h, h, h]);
      var now := Step(text, migrated, m);
      && cleared.holder == None && cleared.mem.store == s.mem.store - {DeviceInfo} - {MigrationVersion}
      && migrated.holder == None && migrated.mem.isMigrated && migrated.mem.cache == map[]
      && Marked(now.mem.store) && now.mem.cache == map[]
      && DeviceInfo in now.mem.store && now.mem.store[DeviceInfo] == stored
  {
    var h := HolderStep(WORKS);
    var wiped := After(text, s, [StartClear, h, h, h]);
    ClearWipes(text, s);
    ClearEnds(text, wiped);
    var cleared := Step(text, Step(text, wiped, h), h);
    EmptyFileIsRead(text, cleared);
    var read := After(text, cleared, [StartPerform, h, h, h]);
    EmptyCacheIsSaved(text, read);
    MarkerIsStored(text, After(text, read, [h, h, h, h]));
  }
}
