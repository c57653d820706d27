# syncmap in Dafny

A model of the versioned operation-log key/value engine `SyncMap` (syncmap.go) and of the
name-to-map registry `SyncMaps` (syncboard/main.go) of the syncmap/syncboard server.

A `SyncMap` keeps a compacted snapshot (`achieved`, `achieved_version`) and a FIFO log of
pending `Set`/`Del` operations, each stamped with a version. Mutations append to the log and then
compact it down to `op_list_max_size` entries. Reads replay the log over the snapshot. `Diff` and
`Patch` are the sync protocol: `Diff(after_version)` tells a replica what changed since its version,
and `Patch` merges such a message into a map.

Files:

- `oplog.dfy`, module `OpLog`: `Value`, `OpType`, `Op`. `Replay` folds a log into a snapshot front to
  back; everything a reader observes of a map is this replay. `Newer` selects the log entries newer
  than a version. The lemmas cover replay and selection.
- `syncmap.dfy`, module `Syncmap`: the value-level specification and the class.
  - `State` (snapshot, snapshot version, log) with `Live()` (the replayed contents), `Version()` and
    `Monotone()`. `Monotone()` holds when versions are positive and log stamps strictly increase
    above the snapshot version.
  - `Compact` (achieve), `Mutated` (append then compact), `DiffOf` and `PatchOf` say what each
    operation does to a `State`; lemmas about them give the sync properties.
  - The class `SyncMap` holds the same data in fields (`achieved`, `achievedVersion`, `opList`,
    `opListMaxSize`). Each method's `ensures` ties `Model()` (the fields as a `State`) to those
    functions. `Get`, `Keys` and `Diff` walk the log with loops, as the source does.
- `syncboard.dfy`, module `Syncboard`: the class `SyncMaps` with `Get`, `Create` and `GC`.
- `syncmap_test.dfy`, module `SyncmapScenario`: the scenario of syncmap_test.go as a verified
  client.

The wall clock is a parameter. `nowMicros` is the microsecond reading that `next_version` uses, and
`nowUnix` is the seconds reading used for deadlines.

## Model

| member | source | states |
|---|---|---|
| `OpLog.Apply` | syncmap.go:114-122 | Folding one op into the snapshot: a Set makes its key present with the op's value, a Del makes it absent, and every other key keeps its presence and value |
| `OpLog.ReplayConcat` | syncmap.go:111-124 | Replaying a log in two pieces gives the same snapshot as replaying it whole, so popping ops one at a time preserves the replayed contents |
| `OpLog.ReplaySplit` | syncmap.go:111-124 | Replaying the first `k` entries into a snapshot and then the rest gives the same contents as replaying the whole log |
| `OpLog.ReplaySnoc` | syncmap.go:77-88 | Appending an op to the log applies it on top of the replayed contents |
| `OpLog.ReplayUntouched` | syncmap.go:147-161 | If no op in the log touches a key, the replayed contents agree with the snapshot on it (the fallback `achieved[key]`) |
| `OpLog.ReplayLastTouch` | syncmap.go:148-159 | The newest op on a key decides its replayed value: its Value for a Set, absence and the zero Value for a Del |
| `OpLog.Newer` | syncmap.go:234-240 | The selected entries are never more than the log's |
| `OpLog.NewerMembers` | syncmap.go:234-240 | An op is selected exactly when it is in the log and its stamp is greater than the given version |
| `OpLog.NewerIncreasing` | syncmap.go:234-240 | Selecting from a log with strictly increasing stamps keeps them strictly increasing |
| `OpLog.NewerSuffix` | syncmap.go:234-240 | On a log split at `k` into entries not newer and newer than the version, the selection is exactly the suffix from `k`, in log order |
| `Syncmap.VersionIsNewest` | syncmap.go:52-58 | On a well-versioned map, `version()` is at least the snapshot version and at least every pending stamp: it is the newest stamp the map holds |
| `Syncmap.NextVersionAfter` | syncmap.go:60-67 | The next version is strictly greater than the current one, at least the clock reading, and equal to one of the two (so it is `max(now, version+1)`) |
| `Syncmap.Lifetime` | syncmap.go:73-75 | The lifetime is always positive, and equals the caller's `autoremove` when that is positive |
| `Syncmap.PopFrontMonotone` | syncmap.go:112-123 | One compaction step keeps versions positive and increasing: the new snapshot version is the popped stamp, below every remaining one |
| `Syncmap.Compact` | syncmap.go:111-124 | achieve leaves the live contents and the version unchanged, so readers cannot tell. Forced, the log ends empty. Unforced, it ends with `min(len, max)` entries |
| `Syncmap.CompactSuffix` | syncmap.go:111-124 | achieve only removes entries from the front of the log: the log left is the old log's last entries, in order |
| `Syncmap.CompactMonotone` | syncmap.go:111-124 | achieve keeps a well-versioned map well-versioned |
| `Syncmap.AppendedEffect` | syncmap.go:126-134 | Appending an op applies it to the live contents and makes its stamp the version; a stamp above the current version keeps the map well-versioned |
| `Syncmap.MutatedEffect` | syncmap.go:77-88 | Read-your-write and delete-hides-value: after append+compact, the op's key reads as the op's effect and every other key reads as before. The version is the op's stamp, the log is within its bound, and monotonicity is kept |
| `Syncmap.DiffOf` | syncmap.go:220-225 | Asking for the map's own version yields the empty patch; the op tail is never longer than the log |
| `Syncmap.PrefixSplit` | syncmap.go:234-240 | On a well-versioned map, the ops newer than the version reached after the first `k` log entries are exactly the entries from `k` on |
| `Syncmap.DiffContents` | syncmap.go:220-240 | For a baseline not beyond the map, the snapshot is included exactly when the baseline is below `achieved_version`; otherwise snapshot and version are empty/0. The op list is the log entries with stamp greater than the baseline, in log order |
| `Syncmap.DiffFull` | syncmap.go:220-240 | A baseline below the snapshot version, or beyond the map's version (treated as 0), gets the whole snapshot and the whole log |
| `Syncmap.PatchFull` | syncmap.go:244-264 | Patching any receiver with a well-versioned map's whole snapshot and log rebuilds that map, compacted |
| `Syncmap.DiffWellFormed` | syncmap.go:210-242 | A well-versioned map only produces patches with a positive version on any snapshot and strictly increasing op stamps |
| `Syncmap.AppendedAllMonotone` | syncmap.go:257-262 | Appending a strictly increasing tail stamped above the current version keeps the log strictly increasing above the snapshot version |
| `Syncmap.PatchMonotone` | syncmap.go:244-264 | Patching a well-versioned map with a well-formed patch keeps it well-versioned and leaves the log within its bound |
| `Syncmap.RoundTrip` | syncmap_test.go:15-30 | For a baseline below the snapshot version (as with -1 or 0), or beyond the map's version, `Patch(Diff(..))` turns any receiver into the sender's compacted state, with the sender's live contents |
| `Syncmap.PatchRebase` | syncmap.go:248-255 | A patch with a snapshot or positive version replaces the receiver wholesale: the result does not depend on the receiver, pending ops included. Its contents are the patch's snapshot with its newer ops replayed |
| `Syncmap.PatchTail` | syncmap.go:257-263 | A patch without a snapshot keeps the receiver's data: incoming ops not newer than the receiver's version are dropped, and the rest are replayed on top of its live contents in patch order |
| `Syncmap.PatchTailAllNewer` | syncmap.go:257-263 | When every incoming op is newer than the receiver, none is dropped and all of them are replayed on top |
| `Syncmap.DiffSuffix` | syncmap.go:220-240 | The Diff for the version reached after the first `k` pending ops has no snapshot. Its ops are exactly the pending ops from `k` on, all newer than that version |
| `Syncmap.CatchUp` | syncmap.go:210-263 | A replica that has seen the sender's first `k` pending ops reaches the sender's live contents by patching with `Diff(own version)`. This is the incremental path |
| `Syncmap.SyncMap.constructor` | syncmap.go:39-50 | New requires a bound of at least 1 (the source panics otherwise). The map starts with an empty snapshot and log, `achieved_version` 1, version 1, and is well-versioned |
| `Syncmap.SyncMap.Achieve` | syncmap.go:111-124 | The in-place pop loop ends in exactly the state `Compact` describes |
| `Syncmap.SyncMap.ForceAchieve` | syncmap.go:266-271 | The log ends empty, the snapshot becomes the live contents and its version the old version |
| `Syncmap.SyncMap.SetWithOptions` | syncmap.go:69-89 | The new state is the old one with a Set appended (stamp `next_version`, deadline `now + lifetime`) and compacted. The key now maps to that Value, the version strictly increases, the log stays within its bound, and monotonicity is kept |
| `Syncmap.SyncMap.Mutate` | syncmap.go:77-88 | Appending an op and then running achieve(false) ends in exactly `Mutated` of the old state |
| `Syncmap.SyncMap.SetWithPriority` | syncmap.go:90-92 | SetWithOptions with the default one-hour lifetime |
| `Syncmap.SyncMap.Set` | syncmap.go:93-95 | SetWithOptions with priority 0 and the default lifetime |
| `Syncmap.SyncMap.AppendDel` | syncmap.go:126-138 | Appends a Del stamped `next_version` (compacting only when asked). The key is no longer live and the version is the new stamp |
| `Syncmap.SyncMap.Del` | syncmap.go:140-145 | Del appends and compacts. The key is no longer live, the version strictly increases, and the bound and monotonicity are kept |
| `Syncmap.SyncMap.Get` | syncmap.go:147-162 | The newest-first scan returns the key's live value, or the zero Value when it is not live (also `Get`, syncmap.go:190-195) |
| `Syncmap.SyncMap.Keys` | syncmap.go:164-188 | The front-to-back replay of the key set yields exactly the live keys |
| `Syncmap.SyncMap.Size` | syncmap.go:273-278 | Size is the number of live keys; 0 exactly when nothing is live |
| `Syncmap.ExpireStep` | syncmap.go:102-107 | One key of the walk: it is expired exactly when its deadline is before `now`. Deleting it then, or keeping it otherwise, moves it out of the keys still to visit |
| `Syncmap.SyncMap.AutoRemove` | syncmap.go:97-109 | Afterwards the live contents are the old ones minus every key whose deadline is before `now`. The version does not decrease, and the bound and monotonicity are kept |
| `Syncmap.SyncMap.Diff` | syncmap.go:210-242 | The walk over the log builds exactly `DiffOf` of the current state |
| `Syncmap.SyncMap.Patch` | syncmap.go:244-264 | The rebase, filtered append and compaction end in exactly `PatchOf` of the old state. The bound is kept, and monotonicity too for a well-formed patch |
| `Syncboard.SyncMaps.constructor` | syncboard/main.go:39-44 | A new registry is empty and satisfies the registry invariant: every stored map is within its bound and well-versioned |
| `Syncboard.SyncMaps.Get` | syncboard/main.go:46-51 | Lookup only: the stored map when the name is present, null otherwise. A map returned is within its bound and well-versioned, so callers can write to it |
| `Syncboard.SyncMaps.Create` | syncboard/main.go:53-65 | Get-or-create. An existing entry is returned and the registry is unchanged (idempotent). A new map is stored under the name and no other entry changes. It has bound 50, an empty log, no live key and version `next_version(1) > 1`. The registry invariant is kept, and the map returned, new or old, is within its bound and well-versioned |
| `Syncboard.SyncMaps.GC` | syncboard/main.go:66-81 | Exactly the maps with no live key (Size 0) are removed; the rest stay under the same name as the same object. The registry invariant is kept |
| `SyncmapScenario.Populate` | syncmap_test.go:10-14 | After `New(2)` and the four Sets, `hello`, `name` and `want to delete` read back the values just set, and the map is well-versioned with bound 2 |
| `SyncmapScenario.RestoreDeletedKey` | syncmap_test.go:15-30 | The test's sequence on `New(2)`: after `Del`, `hello` and `name` read back and the deleted key reads empty; `Patch(Diff(-1))` taken before the delete restores `"nonsense"` |

## Left out

- Locking: every `sync.Mutex` is dropped and each operation is one atomic sequential step. This includes GC's copy-then-delete locking; its loop over the copy is kept.
- The exported/unexported pairs `get`/`Get` and `version`/`Version` differ only in locking, so each pair is one member.
- The HTTP server (`main`, routing, middleware, CORS, JSON encoding, TLS environment), the long-poll loop and the hourly GC goroutine: these are I/O, timing and concurrency.
- `time.Now()` is the parameters `nowMicros` (versions) and `nowUnix` (deadlines).
- Syncmap.SyncMap.AutoRemove: the source reads the clock afresh for every internal delete; the model uses one `nowMicros` for all of them. The contract fixes the resulting live contents and bounds the version. It does not fix the order of the Del ops in the log, which follows Go's map iteration order.
- Go's map iteration order: `keys()` returns an unordered slice, modelled as a set.
- 64-bit integers: versions, deadlines and priorities are unbounded `int`. Overflow of `version+1`, `autoremove + now` or the `int` to `int64` conversions is not modelled.
- Syncmap.SyncMap.Patch: monotonicity is promised only for a well-formed incoming patch. An arbitrary patch (unsorted ops, or a snapshot with a non-positive version) can leave the log unsorted, and the source does this too.
- `Compact` requires a non-negative bound: with a negative one the source would pop from an empty list. Every map has a bound of at least 1 since `New` panics below it.
- Ops of unknown type: in the source `OpType` is a string (syncmap.go:16), and `Patch` appends any incoming op with a newer stamp without checking its type (syncmap.go:258-261). Such an op later panics with `Unsupported operation type` in `achieve`, `get` or `keys` (syncmap.go:119-120, 156-157, 178-179). The model's `OpType` is a closed datatype with only `Set` and `Del`, so it cannot represent such a patch or those panics.
- `Size` is `len(keys())` (syncmap.go:277), so it counts every live key, including keys whose value is the empty string.
- The test's closing `Diff(0)` is only JSON-encoded and printed; that output is not modelled.
