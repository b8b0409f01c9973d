# Paired-device persistence of the Bluetooth plugin

The plugin keeps one set of facts, the metadata of paired devices, in four places: a
cache in memory, a persistent key/value store (`deviceInfo` and `migrationVersion`), a
legacy JSON file shared with the previous owner of these settings (the AS file), and the
platform's own paired list. This project models the code that keeps the four in step while
calls fail, the process restarts and several callers run at once, together with the policy
that acts on the cache (external connection requests, power transitions, cleanup at start)
and the discovery timer, and proves what that code guarantees.

How the modules depend on each other:

- `Prelude`, `Decimal`, `Json`, `Devices`: enumerations of finite sets, decimal text of
  64-bit integers, JSON values, the device record and the paired list.
- `PersistenceAdapter`, `MirrorLaws`: the AS file. Tolerant reading, merging writing, the
  byte loop with its atomic rename, and what the file then holds.
- `FileFormat`: the same file field by field, as imports read it and writes leave it.
- `StoreCodec`: the `deviceInfo` array in the store.
- `Reconcile`: import by address, and backfill and scrub against the paired list.
- `ManagerSpec`, `DeviceManagement`: the operations of the device manager. A relation
  between the state before and after states each of them; the methods of class
  `DeviceManager` are proved against these relations, and laws of whole runs about them.
- `Rollback`: mirror, clear and migrate again, end to end.
- `Addresses`: which addresses are known, mirrored and recovered after a restart.
- `Concurrency`, `ConcurrencySafety`, `History`, `CommitHistory`, `FileHistory`: the same
  operations cut at every store, file and lock boundary, under every interleaving with
  failures and crashes; safety over all executions; where every stored value, every marker
  and every content of the AS file comes from.
- `SoloRefinement`, `Attempts`: an operation that is not interleaved does exactly what the
  sequential relation says; a migration after any number of stopped attempts.
- `KnownGaps`, `Overlap`: runs the code does allow and its design does not intend, each
  spelled out; and exactly when overlapping calls do no harm.
- `ConnectionPolicy`, `Discovery`: decisions taken on the cache, and the discovery timer.

Conventions that the statements rest on:

- Text and JSON conversion is a value of datatype `Text`. `text.Inverse()` says that
  decoding undoes encoding and that no encoding is empty; only laws that need it require
  it. The coercions JSON accessors apply to values of another type are unconstrained.
- Loops over JSON arrays count in 16 bits up to a 16-bit length: `Json.Visible` is the part
  they visit. Laws about reading back require fewer than 65536 entries, where that is all.
- Iteration over an unordered map is any `order` with `Enumerates(order, keys)`.
- Every external call may fail. A failed store write or delete is a no-op, and only this
  plugin writes the store. A service marked `reliable` does not fail; what an operation
  owes its caller in that case is stated apart (`Reliable`, `ManagerSpec.Delivered`).
- The clock, the paired list, and what the platform answers are parameters or
  nondeterministic results. An autoconnect status read from the store may be any integer.

Where the code and its documentation differ, the code is modelled:

- `docs/bluetooth-plugin.md:115` says addresses and names are backfilled at run time; a
  migrated start loads the store only (`Bluetooth/BluetoothDeviceManager.cpp:522-536`), so
  both stay blank (`ManagerSpec.MirrorAfterRestartIsEmpty`).
- `docs/bluetooth-plugin.md:110` calls `lastConnectTimeUtc` an ISO-8601 text; it is a
  decimal number of seconds (`Bluetooth/BluetoothDeviceManager.cpp:665-667`).
- The repository's migration requirements want every connected device without explicit
  autoconnect dropped at start (by `Bluetooth/Bluetooth.cpp:180-202`); once migrated, a
  device that is not in the cache is kept (`ConnectionPolicy.StartAgreesWithAnswers`).

## Model

| member | source | states |
|---|---|---|
| Decimal.ParseAcceptsExactlySpellings | Bluetooth/BluetoothPersistenceAdapter.cpp:48-63 | `tryParseInt64` yields n exactly when the whole C string is white space, an optional sign and digits denoting an n within 64 bits; everything else is rejected |
| Decimal.ParsePrint | Bluetooth/BluetoothPersistenceAdapter.cpp:170-173 | for every 64-bit n, parsing the printed n (strictly, or with `stoll`) gives n |
| Decimal.StollReadsPrefix | Bluetooth/BluetoothDeviceManager.cpp:747-752 | `stoll` yields n exactly when the text begins with a number within 64 bits denoting n, whatever follows |
| Decimal.PrintInjective | Bluetooth/BluetoothDeviceManager.cpp:74 | no two handles print to one device id |
| Decimal.CanonicalIsReprinted | Bluetooth/BluetoothPersistenceAdapter.cpp:341-348 | a canonical decimal within range survives parse and print unchanged |
| Decimal.ReprintIsCanonical | Bluetooth/BluetoothPersistenceAdapter.cpp:341-348 | an accepted spelling prints as a canonical decimal, and as itself if and only if it was canonical |
| PersistenceAdapter.TryGetBoolean | Bluetooth/BluetoothPersistenceAdapter.cpp:84-118 | a boolean reads as itself, a number as whether it is not 0, the texts 1 and true (in any case) as true, 0 and false as false; nothing else is readable |
| PersistenceAdapter.BooleanSpellings | Bluetooth/BluetoothPersistenceAdapter.cpp:84-118 | so every spelling of one boolean reads alike |
| PersistenceAdapter.NumberSpellings | Bluetooth/BluetoothPersistenceAdapter.cpp:65-82 | a number field reads as n exactly when it is n or a text that spells n |
| PersistenceAdapter.Parse | Bluetooth/BluetoothPersistenceAdapter.cpp:126-179 | fails exactly without a `pairedDevices` array, else gives the record of each entry in order |
| PersistenceAdapter.ReadRaw | Bluetooth/BluetoothPersistenceAdapter.cpp:229-269 | content of at most 1 MiB, absent, or unreadable; with working calls unreadable means exactly oversized |
| PersistenceAdapter.FileSystem.ReplaceWith | Bluetooth/BluetoothPersistenceAdapter.cpp:358-401 | for all short and interrupted writes the loop ends; the destination is at every call boundary the old content or the whole new one, new if and only if success is returned |
| PersistenceAdapter.Write | Bluetooth/BluetoothPersistenceAdapter.cpp:271-419 | on success the file is the mirror of the cache over the entries of the file that could be opened; on an error it is untouched throughout |
| FileFormat.ImportRefusedIff | Bluetooth/BluetoothPersistenceAdapter.cpp:128-138 | content is refused exactly when over 1 MiB or not an object with an array of paired devices; no content imports as no devices |
| FileFormat.ImportedDevices | Bluetooth/BluetoothDeviceManager.cpp:79-87 | the imported devices are exactly those some entry's address belongs to |
| FileFormat.ImportedRecord | Bluetooth/BluetoothPersistenceAdapter.cpp:142-175 | each is its last entry field by field, in any spelling: a missing or unknown type and a missing name are the platform's, a missing volume 0, status UNSET, time blank; times are canonical decimals |
| FileFormat.MergedWith | Bluetooth/BluetoothPersistenceAdapter.cpp:275-307 | a write merges with the last entry of that address in the file opened, and with nothing if that file is absent, over 1 MiB or misshapen |
| FileFormat.MirrorSpelledOut | Bluetooth/BluetoothPersistenceAdapter.cpp:312-356 | the new file is an object with one array holding, for every device with an address, name (else address), type (else UNKNOWN), volume, status (if UNSET, whether the old entry spells true) and time (else the old one, else 0), and the old entry's other fields |
| MirrorLaws.MirrorIsValid | Bluetooth/BluetoothPersistenceAdapter.cpp:312-353 | over any prior file every entry of every mirror has the six fields the schema requires with its types, has a non-empty address, and keeps the unknown fields the file had for that address |
| MirrorLaws.MirrorAddresses | Bluetooth/BluetoothPersistenceAdapter.cpp:312-351 | the multiset of addresses in the new file is exactly that of the cache entries with a known address |
| MirrorLaws.EntryRoundTrip | Bluetooth/BluetoothPersistenceAdapter.cpp:144-175 | parsing a merged entry gives the cache record up to the normalisation `Normalised` |
| MirrorLaws.EntryIdempotent | Bluetooth/BluetoothPersistenceAdapter.cpp:319-348 | merging a record a second time changes nothing, UNSET status and unparsable time included |
| MirrorLaws.RemirrorAt | Bluetooth/BluetoothPersistenceAdapter.cpp:293-351 | after a write, an address maps to the merge of its last cache entry over its previous file entry, and only cached addresses map |
| MirrorLaws.MappingOfMirror | Bluetooth/BluetoothPersistenceAdapter.cpp:277-307 | the next write, and an import, find in a file of at most 1 MiB exactly what the last write put there |
| MirrorLaws.MirrorIdempotentIff | Bluetooth/BluetoothPersistenceAdapter.cpp:275-351 | writing the same cache again, in any orders and over the entries of any file, preserves the mapping if and only if entries that share a known address agree on what they write |
| MirrorLaws.DistinctMirrorSettles | Bluetooth/BluetoothPersistenceAdapter.cpp:275-356 | with distinct known addresses the mirror is idempotent, and a second write in the same order gives the same text |
| StoreCodec.LoadOfSavedIff | Bluetooth/BluetoothDeviceManager.cpp:302-343 | loading what was saved, in any record order, gives the cache with address and name blank if and only if it has fewer than 65536 devices |
| StoreCodec.StoredFormat | Bluetooth/BluetoothDeviceManager.cpp:443-462 | the stored text is an array with one object per device and these five members by name |
| StoreCodec.LoadedRecord | Bluetooth/BluetoothDeviceManager.cpp:311-334 | of any stored array a start takes for each id the last record, with UNSET, "" and 0 for what it lacks |
| Reconcile.ReconciledDomain | Bluetooth/BluetoothDeviceManager.cpp:363-423 | the cached ids become exactly the paired ones, or stay the same when only backfilling |
| Reconcile.ReconciledKeeps | Bluetooth/BluetoothDeviceManager.cpp:374-399 | autoconnect, volume and time never change, and of the other fields only blank ones do |
| Reconcile.ReconciledEntry | Bluetooth/BluetoothDeviceManager.cpp:374-396 | a cached paired device gets blank name (or else its id), address and type from the platform and keeps the rest; one not cached is added with them and default settings, unless only backfilling |
| Reconcile.ReconciledTwice | Bluetooth/BluetoothDeviceManager.cpp:363-423 | reconciling again with the same list, duplicates included, changes nothing |
| Reconcile.AddressIndexIsLast | Bluetooth/BluetoothDeviceManager.cpp:69-77 | the index maps an address to an id if and only if that is the id of its last occurrence in the paired list |
| Reconcile.ImportIsLastMatch | Bluetooth/BluetoothDeviceManager.cpp:69-87 | the two import loops give each id the last file record whose address is that id's |
| Reconcile.LastMatchUnique | Bluetooth/BluetoothDeviceManager.cpp:69-87 | "last match wins" determines the imported cache completely |
| Reconcile.ImportedAddresses | Bluetooth/BluetoothDeviceManager.cpp:46-94 | for any file and any paired list, imported entries have known, pairwise distinct addresses, each that of its own device |
| ManagerSpec.RunKeepsFlag | Bluetooth/BluetoothDeviceManager.cpp:164-282 | over all sequential runs, failures included, the flag stays raised if and only if the marker is stored |
| ManagerSpec.UnmigratedRun | Bluetooth/BluetoothDeviceManager.cpp:474-476 | until a migration succeeds, no run writes the AS file, stores the marker or raises the flag, and mutators leave the store alone |
| ManagerSpec.RetrySafety | Bluetooth/BluetoothDeviceManager.cpp:190-240 | whatever failed attempts, clears and mutations came before in one process, a successful migration ends with the cache, flag, file and loadable store of a clean one |
| Attempts.AttemptsLeaveNoTrace | Bluetooth/BluetoothDeviceManager.cpp:185-240 | in every execution from an unmarked store, as long as no import completes, all callers, clears, crashes and starts, wherever attempts stop, leave marker absent, flag down and AS file untouched |
| Attempts.RetryAfterAnything | Bluetooth/BluetoothDeviceManager.cpp:190-240 | after any such execution, the first migration that completes undisturbed ends with the cache the initial AS file and the paired list give, stored whole under the marker |
| ManagerSpec.SuccessfulMutationResyncs | Bluetooth/BluetoothDeviceManager.cpp:590-623 | once migrated, one successful mutation makes a restart load the whole current cache, address and name apart, whatever failed earlier |
| ManagerSpec.MirrorAfterRestartIsEmpty | Bluetooth/BluetoothDeviceManager.cpp:522-536 | a mirror of the cache just as a restart loaded it has no entries |
| Addresses.StartKnowsNoAddress | Bluetooth/BluetoothDeviceManager.cpp:302-343 | the cache of every start, whatever is stored, has neither addresses nor names |
| Addresses.AddressKnownIff | Bluetooth/BluetoothDeviceManager.cpp:522-536 | in every run since a migrated start, a cached device has an address if and only if it was added since with that address and not removed after |
| Addresses.MirrorHoldsOnlyAdded | Bluetooth/BluetoothDeviceManager.cpp:741-781 | a mutation whose calls all work leaves in the AS file exactly the addresses of the devices added since the start and not removed, remote controls apart |
| Addresses.OnlyAddedComeBack | Bluetooth/BluetoothDeviceManager.cpp:451-456 | a clear and a migration from there recover exactly those devices |
| ManagerSpec.RestartFixpoint | Bluetooth/BluetoothDeviceManager.cpp:539-566 | built without migration, a successful start caches exactly the paired devices and stores them, and a further start with the same list reproduces cache and store |
| DeviceManagement.DeviceManager.constructor | Bluetooth/BluetoothDeviceManager.h:83-97 | starts with an empty cache, not migrated, no service |
| DeviceManagement.DeviceManager.UpdateCacheFromStorage | Bluetooth/BluetoothDeviceManager.cpp:285-350 | the cache becomes what the stored array holds, or is untouched when there is none or it cannot be read |
| DeviceManagement.DeviceManager.UpdateCacheFromDevice | Bluetooth/BluetoothDeviceManager.cpp:352-427 | the backfill and scrub loops compute `Reconciled`; a failed listing changes nothing |
| DeviceManagement.DeviceManager.WriteCacheFromFilesystemPersistence | Bluetooth/BluetoothDeviceManager.cpp:46-94 | the cache becomes the records matched by address, or is untouched on any failure |
| DeviceManagement.DeviceManager.WriteFilesystemPersistenceFromCache | Bluetooth/BluetoothDeviceManager.cpp:96-116 | the file becomes the mirror of the cache without remote controls, or stays as it was |
| DeviceManagement.DeviceManager.WriteStorageFromCache | Bluetooth/BluetoothDeviceManager.cpp:429-482 | on success the store holds a serialization of the whole cache and, if migrated, the file was mirrored; on failure nothing changed |
| DeviceManagement.DeviceManager.Init | Bluetooth/BluetoothDeviceManager.cpp:484-537 | the flag says whether the marker was read, only then the cache is loaded, and store and file are untouched; the service is up if and only if it succeeded |
| DeviceManagement.DeviceManager.InitWithoutMigration | Bluetooth/BluetoothDeviceManager.cpp:539-566 | cache reconciled and stored on success, store untouched on every failure |
| DeviceManagement.DeviceManager.PerformMigration | Bluetooth/BluetoothDeviceManager.cpp:164-241 | implements `Performed`: all five steps or a harmless part of them; with working services it succeeds exactly when already migrated or the file can be imported |
| DeviceManagement.DeviceManager.ClearMigration | Bluetooth/BluetoothDeviceManager.cpp:243-282 | implements `Cleared`: both keys, cache and flag gone, or nothing but `deviceInfo`; it succeeds when the store works |
| DeviceManagement.DeviceManager.SetAutoConnect | Bluetooth/BluetoothDeviceManager.cpp:590-623 | implements `Mutated`: refused before migration, else this entry's status changes and the whole cache is written |
| DeviceManagement.DeviceManager.GetAutoConnect | Bluetooth/BluetoothDeviceManager.cpp:625-651 | disabled before migration; then UNSET reads as disabled and an unknown device is an error |
| DeviceManagement.DeviceManager.SetLastVolumeSetting | Bluetooth/BluetoothDeviceManager.cpp:689-721 | implements `Mutated`: this entry's volume changes, and is written once migrated |
| DeviceManagement.DeviceManager.SetLastConnectTimeUtc | Bluetooth/BluetoothDeviceManager.cpp:653-687 | implements `Mutated` when it runs alone: this entry's time becomes the clock's reading in decimal |
| DeviceManagement.DeviceManager.AddDevice | Bluetooth/BluetoothDeviceManager.cpp:741-781 | implements `Mutated`: the entry becomes the platform's type, address and name (or else the id) with default settings, the others stay; a bad id and an unknown device change nothing and are told apart |
| DeviceManagement.DeviceManager.RemoveDevice | Bluetooth/BluetoothDeviceManager.cpp:783-807 | implements `Mutated`: exactly this entry goes |
| Rollback.ImportOfMirror | Bluetooth/BluetoothDeviceManager.cpp:69-87 | importing the entries of a mirror gives each id its own normalised record |
| Rollback.RollbackRoundTrip | Bluetooth/BluetoothDeviceManager.cpp:46-116 | importing a mirror yields exactly the mirrored entries with a known address, normalised and enriched |
| Rollback.RecoveredEntry | Bluetooth/BluetoothPersistenceAdapter.cpp:319-348 | field by field what that normalisation is |
| Rollback.RecoveredType | Bluetooth/BluetoothDeviceManager.cpp:385-388 | a blank type comes back as the platform's |
| Rollback.RollbackRun | Bluetooth/BluetoothDeviceManager.cpp:164-282 | a mirror write, a clear and a migration leave exactly the entries that are no remote control and have an address |
| ConcurrencySafety.LockProtocol | Bluetooth/BluetoothDeviceManager.cpp:164-183 | in every execution, whenever the migration lock is free the flag implies the marker, and equals it if `init` could read the marker |
| ConcurrencySafety.OneImportPerClear | Bluetooth/BluetoothDeviceManager.cpp:164-183 | between two completed imports of any execution a clear deleted the marker |
| ConcurrencySafety.StoreProvenance | Bluetooth/BluetoothDeviceManager.cpp:443-468 | in every interleaving the stored `deviceInfo` is absent, the initial one, or the serialization of one cache that occurred |
| FileHistory.FileProvenance | Bluetooth/BluetoothDeviceManager.cpp:96-116 | in every interleaving the AS file is the initial one, its previous owner's last, or the mirror of one whole cache that occurred over the file as it was at the step that wrote it, or over nothing |
| FileHistory.NeverMirroredIff | Bluetooth/BluetoothDeviceManager.cpp:473-476 | with the flag down no continuation of callers writes the file if and only if none stands between the second flag test and its write |
| FileHistory.TurnsKeepMirror | Bluetooth/BluetoothDeviceManager.cpp:429-482 | after calls that do not overlap and whose writes work, one saved mutation among them, the file mirrors the cache held and a restart loads its persisted fields |
| ConcurrencySafety.SavedTracksActions | Bluetooth/BluetoothDeviceManager.cpp:258-263 | the last thing done to `deviceInfo` was its deletion if and only if a clear deleted it and no save followed |
| ConcurrencySafety.CommitSafety | Bluetooth/BluetoothDeviceManager.cpp:164-282 | under the marker `deviceInfo` is missing if and only if a clear deleted it with no save since; otherwise it is the initial one or a whole past cache |
| ConcurrencySafety.DurableAcrossRestart | Bluetooth/BluetoothDeviceManager.cpp:510-536 | after any execution that ends with the marker, a restart loads the persisted fields of what the history names as last stored, the initial value included |
| History.SavedIsLastStore | Bluetooth/BluetoothDeviceManager.cpp:466-468 | that history names a cache if and only if the last action on `deviceInfo` in the execution was a store carrying it |
| History.StoreWasSerialized | Bluetooth/BluetoothDeviceManager.cpp:443-464 | everything stored was serialized earlier by the same thread, from the whole cache as it was at that step |
| History.RestartLoadsLastStore | Bluetooth/BluetoothDeviceManager.cpp:510-536 | hence a restart under the marker loads the persisted fields of the cache at the serialize step of the last successful store |
| ConcurrencySafety.MigrationNeverWritesFile | Bluetooth/BluetoothDeviceManager.cpp:474-476 | in no execution does a step of migration or clear change the AS file |
| ConcurrencySafety.UnmigratedCallersOnlyTouchTheCache | Bluetooth/BluetoothDeviceManager.cpp:678-681 | while not migrated, any number of concurrent mutators leave store and file alone |
| CommitHistory.CommitFollowsImport | Bluetooth/BluetoothDeviceManager.cpp:185-234 | in every interleaving a stored marker ends, under one hold of the lock, a successful read of the file, its parse and mapping, the installation of exactly the mapped records, the enrichment with the list fetched, and a store of the whole cache, in this order |
| CommitHistory.MarkerMeansImport | Bluetooth/BluetoothDeviceManager.cpp:164-282 | commit safety: a marker absent at some earlier moment was put there by such an import; `deviceInfo` is what that import or a later save stored, a whole cache at that save's serialize step, and is missing only if a clear deleted it after the commit with no save since |
| SoloRefinement.MutatorAloneIsSequential | Bluetooth/BluetoothDeviceManager.cpp:590-807 | the steps of an uninterrupted mutator add up to `Mutated` |
| SoloRefinement.MutatorAloneDelivers | Bluetooth/BluetoothDeviceManager.cpp:590-807 | if all its calls work, it succeeds exactly when it applies, and is then in the store and, once migrated, in the file |
| SoloRefinement.PerformAloneIsSequential | Bluetooth/BluetoothDeviceManager.cpp:164-241 | the steps of an uninterrupted migration, stopped by any failure, add up to `Performed` |
| SoloRefinement.PerformAloneSucceeds | Bluetooth/BluetoothDeviceManager.cpp:164-241 | if all its calls work, it succeeds exactly when migrated before or the file can be imported |
| SoloRefinement.ClearAloneIsSequential | Bluetooth/BluetoothDeviceManager.cpp:243-282 | the steps of an uninterrupted clear add up to `Cleared` |
| SoloRefinement.ClearAloneSucceeds | Bluetooth/BluetoothDeviceManager.cpp:243-282 | if all its calls work, neither key, cache nor flag is left |
| KnownGaps.InterruptedClearLosesTheCache | Bluetooth/BluetoothDeviceManager.cpp:258-270 | a crash between the two deletes makes the next start migrated with an empty cache |
| KnownGaps.MigratedCacheIsLoadedIff | Bluetooth/BluetoothDeviceManager.cpp:514-519 | a start and a migration call end with the stored devices if and only if the marker could be read at start or nothing was stored |
| KnownGaps.UnreadMarkerSkipsTheLoad | Bluetooth/BluetoothDeviceManager.cpp:179-183 | with the marker unread at start, the run of a migration call raises the flag and loads nothing |
| KnownGaps.UnreadMarkerOverwritesTheStore | Bluetooth/BluetoothDeviceManager.cpp:741-781 | from there one added device replaces everything stored |
| KnownGaps.TouchRevivesARemovedDevice | Bluetooth/BluetoothDeviceManager.cpp:656-675 | a device removed between the two lock sections comes back |
| KnownGaps.OlderSnapshotMayWin | Bluetooth/BluetoothDeviceManager.cpp:443-468 | of two callers, the older serialization may be stored last and stay |
| KnownGaps.ClearedInfoReappears | Bluetooth/BluetoothDeviceManager.cpp:466-468 | a caller that serialized before a clear may store after it, so `deviceInfo` returns after a successful clear |
| KnownGaps.StaleSaveUnderNewMarker | Bluetooth/BluetoothDeviceManager.cpp:466-468 | the same caller may store after the next migration too, so data from before the clear stands under the new marker |
| Overlap.TouchIsOneStepIff | Bluetooth/BluetoothDeviceManager.cpp:656-675 | in every execution the second section of `setLastConnectTimeUtc` equals the whole call made then if and only if the entry is, time apart, the one the first section read |
| Overlap.StaysClearIff | Bluetooth/BluetoothDeviceManager.cpp:466-468 | with the flag down and nothing stored, no continuation of callers stores `deviceInfo` if and only if none is past its flag test with the store still to come, where a pending `setAutoConnect` counts only if its device is cached, about to be put back or added, or may be paired later, which takes an id that reads as a number |
| Overlap.DataUnderMarkerIsNew | Bluetooth/BluetoothDeviceManager.cpp:164-241 | if no caller is past its flag test with a store to come when an import reads the file, everything stored under its marker was serialized no earlier than by that import |
| Overlap.RestartIsCurrentIff | Bluetooth/BluetoothDeviceManager.cpp:443-468 | a restart loads the persisted fields of the current cache if and only if they are those of the cache at the serialize step of the last successful store |
| Overlap.TurnsKeepLevel | Bluetooth/BluetoothDeviceManager.cpp:590-807 | calls that do not overlap and whose stores work suffice for that |
| ConnectionPolicy.OnExternalConnectRequest | Bluetooth/Bluetooth.cpp:1179-1225 | one answer or one notification, never both, as the cache says; the time is recorded exactly when the platform then connects |
| ConnectionPolicy.AnswerFollowsLastOperation | Bluetooth/Bluetooth.cpp:1182-1208 | over whole sessions the answer is the one left by the last operation that settled it (completed import or clear, or, once migrated, an applicable pairing, unpairing or `setAutoConnect`), or that of the start if none did |
| ConnectionPolicy.AcceptedIff | Bluetooth/Bluetooth.cpp:1188-1194 | a request is accepted if and only if that last operation enabled the device, by `setAutoConnect` or by importing it enabled, or it was accepted at the start and none settled it |
| ConnectionPolicy.OnPowerModeChanged | Bluetooth/Bluetooth.cpp:2008-2122 | the handler issues each command of the transition exactly once and no other |
| ConnectionPolicy.PowerTable | Bluetooth/Bluetooth.cpp:2008-2122 | for every pair of states exactly which commands are issued, with their handles and types |
| ConnectionPolicy.StandbyReach | Bluetooth/Bluetooth.cpp:2039-2067 | from on or unknown to off, standby or light sleep, a device is disconnected if and only if it is no remote control, explicitly disabled, and its handle fits `long long` |
| ConnectionPolicy.AddedRemoteControl | Bluetooth/BluetoothDeviceManager.cpp:766-770 | a device the platform calls a remote control is, once added, neither mirrored nor disconnected |
| ConnectionPolicy.PowerPolicy | Bluetooth/Bluetooth.cpp:2033-2118 | no transition disconnects a remote control, standby disconnects no more than deep sleep, and whoever standby disconnects would be rejected |
| ConnectionPolicy.PowerOnEnables | Bluetooth/Bluetooth.cpp:2071-2092 | below 65536 devices power on enables the adapter if and only if one is no remote control |
| ConnectionPolicy.DeepSleepReach | Bluetooth/Bluetooth.cpp:2094-2118 | deep sleep disconnects a device if and only if it is no remote control and its handle fits `long long` |
| ConnectionPolicy.RunKeepsCanonicalIds | Bluetooth/Bluetooth.cpp:686-709 | in every run that pairs by handle, the ids cached and stored are platform handles in decimal |
| ConnectionPolicy.StartKeepsCanonicalIds | Bluetooth/BluetoothDeviceManager.cpp:302-343 | and so are those a start loads, whatever their number |
| ConnectionPolicy.SetDevicePairing | Bluetooth/Bluetooth.cpp:686-709 | the cache follows the platform's pairing with the record the platform knows; a negative id pairs without reaching the cache |
| ConnectionPolicy.DisconnectExternallyConnected | Bluetooth/Bluetooth.cpp:180-202 | drops, in order, exactly the connected devices of the startup rule |
| ConnectionPolicy.StartAgreesWithAnswers | Bluetooth/Bluetooth.cpp:561-614 | once migrated, that rule is "its own request would be rejected", remote controls and oversized handles apart; before, it drops all others |
| Discovery.DiscoveryControl.StartDeviceDiscovery | Bluetooth/Bluetooth.cpp:357-428 | implements `Started`; hardware is missing only when idle and without adapter |
| Discovery.DiscoveryControl.StopDeviceDiscovery | Bluetooth/Bluetooth.cpp:429-449 | implements `Stopped` |
| Discovery.DiscoveryControl.OnDiscoveryTimer | Bluetooth/Bluetooth.cpp:462-465 | a fired timer is spent and the scan stops |
| Discovery.DiscoveryInvariant | Bluetooth/Bluetooth.cpp:357-465 | in every run exactly one schedule of the timer is pending while a scan runs and none otherwise, and starts and stops alternate |
| Discovery.StartWhenIdle | Bluetooth/Bluetooth.cpp:357-428 | a start while idle leaves a running scan with its own delay, or with no positive timeout one started and stopped; without an adapter nothing |
| Discovery.OneTimerPerScan | Bluetooth/Bluetooth.cpp:451-460 | starts during a scan neither add to, replace nor prolong its one schedule |
| Discovery.DelayOfStart | Bluetooth/Bluetooth.cpp:411-418 | in every run a pending delay is `timeout * 1000` of a past start with a positive timeout, within 32 bits exactly for timeouts up to 2147483 |

## Left out

- JSON text syntax and its printer: an assumed inverse pair; sizes are lengths of the text.
- The platform library, the power manager, the persistent store and the plugin framework: calls that may fail and return data.
- `BluetoothPersistenceAdapter::Read`: `ReadRaw` and `Parse` in sequence, called by nothing.
- A read of the previous file that fails half-way inside `Write`: the stream state is not tested there, so such a read counts as content or as unreadable.
- `fsync`, directory entries and file permissions: only logged on failure.
- Reference counting of shell and interfaces, and logging: a missing interface is a failed call.
- Lock implementation: a section under `_adminLock`, and a file write under its mutex, is one step of the machine; the inside of the file write is proved in `PersistenceAdapter.FileSystem.ReplaceWith`.
- Concurrent `init`: it is one step, before which no other call is possible.
- "The store equals the newest cache at rest" and freedom from lost updates under concurrency: false in general, see `KnownGaps`; when they hold is stated exactly in `Overlap`.
- DurableAcrossRestart: given for fewer than 65536 saved entries; `StoreCodec.LoadOfSavedIff` shows that the 16-bit loop loses entries from there on.
- RestartLoadsLastStore: the same bound.
- RestartIsCurrentIff: the same bound.
- RollbackRoundTrip: assumes the platform still pairs each mirrored address with its id and a mirror of at most 1 MiB, because a larger file is refused by the import.
- ReplaceWith: interrupted and zero-length writes are finitely many, because the loop would not end otherwise.
- JSON-RPC wrappers, event payloads, volume, media, streaming, adapter naming, device-type classification, discovery profiles and the choice of the platform's connect call: one-branch dispatch.
- The timer queue: scheduling adds a pending entry, revoking removes every one of this timer; its worker thread and a fire that races a stop are not modelled.
- `getLastConnectTimeUtc`, `getPairedDeviceInfos` and `deinit`: plain reads and a reset.
