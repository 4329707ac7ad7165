# js13k game core, modelled in Dafny

This project models four parts of a small browser game and its build tool, and proves properties of each.

- **The incremental build orchestrator** (`tools/action.ts`), in modules `Actions`, `Incremental` and `ActionBuilder`:
  - A `Builder` runs a list of build actions in order.
  - Each action names its input files and output files.
  - The builder keeps a file-metadata cache and an action cache. An action whose inputs (name and modification time, position by position) equal those it last ran with is not executed again; its cached result is returned.
  - File-watcher `change` notifications mark cached files dirty. If a changed file is an input of the build in progress, the build stops with `Dirty`. After a build, such a change moves the builder from `Clean` or `Failed` back to `Dirty`.
  - `ActionBuilder` is the imperative object: classes `Builder` and `BuildContext`, whose methods update fields. Each method is proved equal to a specification function in `Actions`. The lemmas in `Actions` and `Incremental` state what those functions guarantee.
- **The compact data codec** (`src/lib/data.encode.ts`), in module `DataEncode`:
  - It turns arrays of numbers 0–91 into printable ASCII characters 33–126.
  - It skips the quote `'` (39) and the backslash `\` (92).
- **Collision grouping** (`src/game/physics.ts`), in module `Physics`:
  - A union–find forest with path compression and union by rank joins touching entities.
  - Entities are then split into singles and groups, and every entity's position is advanced exactly once.
  - `findColliders` keeps the live colliders that touch a query.
- **Vector slots in model data arrays** (`src/model/util.ts`), in module `ModelUtil`: reading and writing three-element slots of a flat array, and reading the three corners of an indexed triangle.

## How the model is built

- The watcher and the filesystem are outside the builder, so they are parameters:
  - `Disk` maps file names to modification times.
  - For each action position, a `Step` gives three things:
    - what the action's `execute()` resolved to (`Returned(b)`, or `Raised` for a rejection);
    - the files it writes;
    - the watcher `change` events that arrive while the action is awaited.
- Two logs stand in for the builder's side effects:
  - `posted` records the state-change notifications.
  - `built` records the `Build <name>` log lines. An action appears in `built` exactly when it was executed, not reused.
- `Fields` is the builder's complete observable state.
- `BuildFrom` / `BuildPass` are the `build()` loop as a function, and `Builder.Build` is proved to compute exactly that.
- `Outcome` is either `Finished(ok)` (the promise resolves to `ok`) or `Rejected(error)` (the promise rejects).

A missing input file is not an action failure:

- The rejected `fs.promises.stat` (tools/action.ts:176) propagates out of `scanInputs`, out of `runAction` and out of `build()` (tools/action.ts:188, 267, 204).
- The builder therefore stays `Building`, and every later `build()` is refused as a concurrent build (tools/action.ts:197-199).
- `BuildFrom` yields `Rejected(MissingInput(path))` for it, and `Actions.StuckAfterMissingInput` proves the consequence.

## Model

| member | source | states |
|---|---|---|
| DataEncode.MaxOf | src/lib/data.encode.ts:32 | The result is an element of the array and at least every element; for the empty array it is below every byte (JavaScript's `-Infinity`) |
| DataEncode.EncodeByte | src/lib/data.encode.ts:38-42 | Every number up to `dataMax` maps to a printable data character (33–126, never 39 or 92) |
| DataEncode.Encode | src/lib/data.encode.ts:31-45 | Encoding throws exactly when some value exceeds `dataMax`; the error reports the maximum of the array (an element, at least every element, and above 91); otherwise the string has one data character per number |
| DataEncode.Decode | src/lib/data.encode.ts:18-26 | Decoding gives one byte per character |
| DataEncode.DecodeEncodeByte | src/lib/data.encode.ts:18-45 | Decoding the character of any value up to 91 gives the value back |
| DataEncode.EncodeDecodeChar | src/lib/data.encode.ts:18-45 | Every data character decodes to a value up to 91 whose character is the original |
| DataEncode.DecodeEncode | src/lib/data.encode.ts:18-45 | For every array of values in 0–91, encoding succeeds and decoding the result gives the array back |
| DataEncode.EncodeDecode | src/lib/data.encode.ts:18-45 | For every string of data characters, re-encoding its decoding gives the same string |
| DataEncode.EncodeEmpty | src/lib/data.encode.ts:32-36 | The empty array encodes to the empty string (the `-Infinity` maximum passes the range check) |
| ModelUtil.GetVector3 | src/model/util.ts:21-27 | The output vector receives slot `index` copied from `data` (clamped at the end as `subarray` does); `data` is unchanged when it is not the output |
| ModelUtil.PutVector3 | src/model/util.ts:54-60 | Writing succeeds exactly when the slot lies inside `data` (otherwise `set` throws and nothing changes); on success only the three slot elements change, to the vector |
| ModelUtil.GetTriangle | src/model/util.ts:42-51 | Each corner vector receives the slot named by its index entry; a corner whose index entry lies past the end of the index array is left unchanged; `data` is unchanged |
| ModelUtil.StoredWritesSlotOnly | src/model/util.ts:54-60 | A store keeps the array's length, writes the vector into the slot, and leaves every other element alone |
| ModelUtil.FetchedWholeSlot | src/model/util.ts:21-27 | Reading a slot that lies wholly inside the array gives exactly its three elements |
| ModelUtil.FetchAfterStore | src/model/util.ts:21-60 | Reading a slot just written gives the written vector back |
| ModelUtil.FetchOtherSlot | src/model/util.ts:21-60 | Writing one slot does not change what another slot reads |
| Physics.FindRoot | src/game/physics.ts:64-70 | The result is the entity's representative, and the entity now links straight to it; path compression keeps the forest valid and keeps every entity's representative; each link stays or becomes that entity's representative; roots stay roots |
| Physics.CompressFind | src/game/physics.ts:69 | Relinking an entity to its representative changes no entity's representative |
| Physics.LinkRoots | src/game/physics.ts:79-82 | Linking a root of rank no greater under another (raising the parent's rank on a tie) keeps a valid forest, and exactly the child's group moves to the parent |
| Physics.UnionRoots | src/game/physics.ts:73-83 | After both finds, linking the lower-ranked root under the other merges exactly the two groups |
| Physics.Union | src/game/physics.ts:73-83 | Afterwards both entities share a representative; the lower-ranked root, or the second on a tie, links under the other; the parent's rank rises by one exactly on a tie (including when both are already one group); every entity of the two groups now finds the surviving root and every other entity keeps its representative |
| Physics.JoinEarlier | src/game/physics.ts:104-112 | After the inner loop, entity `i` shares a group with every earlier entity it touches, and groups only ever merged; an entity that touches nothing keeps rank 0 if it had it; any tagging that gives touching pairs one tag and was constant on each group before is still constant on each group |
| Physics.JoinTouching | src/game/physics.ts:101-113 | After the join loop, every touching pair shares a representative, and groups only merged; entities that touch nothing keep rank 0; groups never merge beyond what chains of touching pairs connect (every tagging that gives touching pairs one tag stays constant on each group) |
| Physics.RankZeroRootAlone | src/game/physics.ts:119 | A root of rank zero is its own group's only member, which is why the singles test is sound |
| Physics.JoinedNotSingle | src/game/physics.ts:119 | Two distinct entities in one group both fail the singles test |
| Physics.Partition | src/game/physics.ts:115-130 | Singles are exactly the entities passing the test, in ascending order. The others are filed by representative into non-empty ascending groups. The group keys are listed in the order the groups were created, so their first members ascend. Compression keeps every representative |
| Physics.PartitionShape | src/game/physics.ts:101-130 | After joining and partitioning: touching entities are never singles and share a group; every entity is a single or in a group; no group member is a single; no entity is in two groups |
| Physics.UnionUnranked | src/game/physics.ts:73-83 | A union of a touching pair keeps every entity that touches nothing at rank 0 |
| Physics.UnionLabels | src/game/physics.ts:73-83 | A union of two entities with the same tag keeps every entity's tag equal to its representative's tag |
| Physics.MergedKeeps | src/game/physics.ts:104-112 | One more union of a touching pair preserves both facts accumulated by the join loop: untouched entities keep rank 0 and touching-compatible taggings stay constant on groups |
| Physics.JoinStep | src/game/physics.ts:104-112 | One iteration of the inner join loop keeps the partition coarser, joins `i` with every earlier touching entity so far, and preserves both accumulated facts |
| Physics.GroupPaired | src/game/physics.ts:115-130 | A group of non-single entities under a root has at least two members |
| Physics.GroupsPaired | src/game/physics.ts:115-130 | Every group the partition builds has at least two members |
| Physics.GroupsTagged | src/game/physics.ts:115-130 | Two members of one group get the same tag from every tagging that gives touching pairs one tag |
| Physics.IsolatedSingle | src/game/physics.ts:115-119 | An entity that touches nothing is a single after the join loop |
| Physics.PartitionExact | src/game/physics.ts:101-130 | After joining and partitioning: every group has at least two members, every entity touching nothing is a single, and a group holds only entities linked by chains of touching pairs |
| Physics.AdvanceEach | src/game/physics.ts:132-145 | Every entity of the bucket is advanced once and every other position is left alone |
| Physics.AdvanceGroups | src/game/physics.ts:147-174 | The loop over the groups advances exactly the non-single entities, each once |
| Physics.UpdateColliders | src/game/physics.ts:48-175 | Every entity's position is advanced exactly once; touching entities land in a common group and not among the singles; every entity is placed in exactly one of the singles or one group; every group has at least two members; an entity that touches nothing is a single; two members of one group get the same tag from every tagging that gives touching pairs one tag, so groups hold only entities linked by chains of touching pairs |
| Physics.Touching | src/game/physics.ts:32-43 | The result is no longer than the collider list |
| Physics.TouchingMembers | src/game/physics.ts:34-41 | A collider is in the result exactly when it is in the list, alive and touching the circle |
| Physics.TouchingAppend | src/game/physics.ts:34-41 | The result keeps list order: filtering a concatenation is the concatenation of the filtered parts |
| Physics.TouchingAll | src/game/physics.ts:34-41 | When every collider is alive and touching, the whole list is returned |
| Physics.FindColliders | src/game/physics.ts:32-43 | The loop returns exactly the ordered sublist of live, touching colliders |
| Actions.WaitUntilDirty | tools/action.ts:342-355 | `waitUntilDirty` resolves at once exactly when the state is `Dirty`. Otherwise it resolves on the first later `Dirty` notification, or never when none comes |
| Actions.InitialValid | tools/action.ts:131-141 | A fresh builder is `Dirty`, its notification log is consistent with its state, and its file cache is keyed by file name |
| Actions.StateSetCoherent | tools/action.ts:163-168 | `setState` sets the state and posts a notification exactly when the state changes; nothing else changes; the notification log never repeats a state and ends at the current one |
| Actions.SameInputsIgnoresDirty | tools/action.ts:84-99 | Comparison of input lists ignores the dirty flags |
| Actions.SameInputsPositional | tools/action.ts:88-97 | The comparison is positional: swapping two differently named files of a list gives the same files, yet the lists compare unequal |
| Actions.SameInputsEquivalence | tools/action.ts:84-99 | The comparison is reflexive and symmetric |
| Actions.ScanInputResult | tools/action.ts:171-184 | A clean cached file is returned from the cache without touching it. A dirty or absent one is stat'ed, stored clean and returned. A file neither cached clean nor on disk rejects with its name and leaves the cache alone |
| Actions.ScanInputsSuccess | tools/action.ts:187-189 | Scanning a list succeeds exactly when every file can be scanned, and then gives each file's metadata in list order |
| Actions.ScanInputsFailure | tools/action.ts:187-189 | A failed scan reports the first file of the list that cannot be scanned |
| Actions.ScanInputsCache | tools/action.ts:171-189 | After a scan, the file cache holds the old entries plus every listed file on disk; each listed file's entry is its scanned metadata; the rest are unchanged |
| Actions.ChangedEffect | tools/action.ts:323-339 | A change marks a cached file dirty. When the file is a tracked input: during a build it sets `inputsDidChange`; from `Clean` or `Failed` it moves to `Dirty` with one notification; otherwise nothing more changes |
| Actions.ChangeWakesWaiter | tools/action.ts:323-355 | After a `Clean` or `Failed` build, a change to a tracked input wakes a waiting `waitUntilDirty` with the first new notification; a change to any other file does not wake it |
| Actions.PathsMembers | tools/action.ts:223 | A file is among the changed paths exactly when some event names it |
| Actions.AppliedFiles | tools/action.ts:223 | After the events, the disk holds exactly the old files and the changed ones |
| Actions.DeliveredFiles | tools/action.ts:324-327 | After a series of change events, the cache's keys are the same, and each entry is dirty exactly when it was dirty already or was changed |
| Actions.DeliveredCoherent | tools/action.ts:323-339 | Change events keep the notification log consistent with the state |
| Actions.DeliveredWhileBuilding | tools/action.ts:328-332 | During a build, events change neither the state nor the notifications nor the tracked inputs. `inputsDidChange` ends set exactly when it was set already or some event named a tracked input |
| Actions.MergeOutputsEffect | tools/action.ts:305-309 | Storing the outputs' metadata gives every output a clean entry with its mtime on disk and keeps every other entry |
| Actions.ActionRunMissing | tools/action.ts:264-267 | When an input cannot be scanned, `runAction` rejects with the first such input; its inputs are still tracked; the action is not executed |
| Actions.ActionRunHit | tools/action.ts:268-271 | When the scanned inputs equal the cache entry's, the cached success is returned; the action is not executed and the action cache is unchanged |
| Actions.ActionRunMiss | tools/action.ts:272-314 | Otherwise the action is executed and logged. It succeeds exactly when `execute()` resolved true and every output exists afterwards. Its cache entry records that result with the scanned inputs. On success every output's metadata is stored clean. The file cache afterwards holds exactly the old entries, the scanned inputs and, on success only, the outputs. Every entry other than a stored output is its scanned or old metadata, marked dirty exactly when an event names it |
| Actions.ReusedKeeps | tools/action.ts:268-271 | A reused action changes only what its watcher events change; during a build, the flag is set exactly when an event names a tracked input |
| Actions.ExecutedKeeps | tools/action.ts:272-314 | Executing replaces exactly this action's cache entry. The disk gets the action's writes, then the events. Success means `execute()` resolved true and every output exists. On success the outputs' metadata is cached clean. Output metadata is stored only on success, and every other file-cache entry changes only by the events marking it dirty |
| Actions.ExecutedCoherent | tools/action.ts:272-314 | Executing keeps the notification log consistent. During a build the state and notifications stay put, and `inputsDidChange` reflects exactly the tracked inputs named by events |
| Actions.ActionRunKeeps | tools/action.ts:261-320 | `runAction` adds the action's inputs to the tracked set; it leaves other actions' cache entries alone; during a build it keeps the state; on success the action has a cache entry recording the returned result |
| Actions.StaleInputReruns | tools/action.ts:267-276 | An action that has a cache entry is executed again when one of its inputs has a file-cache entry that is dirty or absent (changed by a watcher event or never scanned) and a modification time on disk that differs from the one in the action's cache entry |
| Actions.ActionsLoadedOnce | tools/action.ts:238-254 | `getActions` creates the action list once; a second call changes nothing; it drops exactly the cache entries of actions that no longer exist, on the first call only |
| Actions.BuildFromStep | tools/action.ts:203-213 | One loop iteration: a rejected `runAction` rejects the build; a changed input ends it `Dirty`, checked before success; a failed action ends it `Failed`; a successful one moves on to the next action |
| Actions.BuildFromOutcome | tools/action.ts:203-215 | The action loop resolves true exactly when it ends `Clean`. It resolves false exactly when it ends `Dirty` (a tracked input changed) or `Failed`. It rejects exactly when it stays `Building`, and never as a concurrent build. It posts one notification, for the final state, unless it rejects |
| Actions.BuildFromSucceeded | tools/action.ts:203-215 | When the loop resolves true, no input changed, every action has a successful cache entry and tracked inputs, and no earlier success was lost |
| Actions.BuildStartEffect | tools/action.ts:200-203 | Starting a build enters `Building` with one notification, clears the tracked inputs and the change flag, and loads the actions without touching the file cache |
| Actions.BuildPassOutcome | tools/action.ts:196-216 | `build()` is refused exactly when a build is running, and then changes nothing. Otherwise it resolves true exactly when it ends `Clean`, with every action successful. It resolves false when it ends `Dirty` (input changed) or `Failed`. It rejects when it stays `Building`. The notifications are `Building` and then the final state |
| Actions.StuckAfterMissingInput | tools/action.ts:176-216 | A build that rejects was rejected for a missing input, and every later `build()` is refused as concurrent |
| Incremental.QuietRun | tools/action.ts:261-320 | With no watcher events, `runAction` keeps the state and change flag and keeps clean cache entries other than its outputs. Its inputs that are not among its outputs end up cached clean as scanned. On success, its cache entry matches those inputs |
| Incremental.RunKeepsCurrent | tools/action.ts:203-213 | Among distinctly named actions whose outputs never feed themselves or earlier actions, a successful run keeps earlier actions up to date and makes this one up to date |
| Incremental.BuildFromCurrent | tools/action.ts:203-215 | Under the same conditions, a loop that resolves true leaves every action up to date |
| Incremental.BuildFromUpToDate | tools/action.ts:203-215 | When every action is up to date and no event arrives, the loop resolves true without executing anything and without changing either cache |
| Incremental.SuccessfulBuildIsCurrent | tools/action.ts:196-216 | A quiet successful build leaves every action up to date |
| Incremental.UpToDateBuildRunsNothing | tools/action.ts:196-271 | A build in which every action is up to date executes nothing, resolves true, and keeps every cache entry |
| Incremental.RebuildRunsNothing | tools/action.ts:196-271 | Building again after a quiet successful build, with no changes in between, executes nothing and resolves true with the same caches |
| ActionBuilder.InputsEqual | tools/action.ts:84-99 | The loop returns true exactly when the lists have equal length and agree position by position on file name and modification time |
| ActionBuilder.BuildContext.constructor | tools/action.ts:40-42 | The context holds the given action list |
| ActionBuilder.BuildContext.AddAction | tools/action.ts:48-50 | The action is appended to the list |
| ActionBuilder.Builder.constructor | tools/action.ts:131-155 | A new builder is `Dirty` with empty caches, no actions loaded, and its invariant established |
| ActionBuilder.Builder.SetState | tools/action.ts:163-168 | The state changes as `setState` specifies (see `Actions.StateSetCoherent`) |
| ActionBuilder.Builder.ScanInput | tools/action.ts:171-184 | Returns and stores the scan result of `Actions.ScanInput` and changes nothing else |
| ActionBuilder.Builder.ScanInputs | tools/action.ts:187-189 | The loop over the list computes the scan of `Actions.ScanInputs`: every file's result and cache update, first missing file reported |
| ActionBuilder.Builder.GetActions | tools/action.ts:238-254 | Returns the emitted actions and loads them as `Actions.ActionsLoaded` (see `Actions.ActionsLoadedOnce`) |
| ActionBuilder.Builder.DidChange | tools/action.ts:323-339 | Updates the builder as `Actions.Changed` (see `Actions.ChangedEffect`) and keeps the builder's invariant |
| ActionBuilder.Builder.Deliver | tools/action.ts:223 | Applies each watcher event in order: update the disk, then call `didChange`. The builder's invariant is kept, so `build()` can be called again afterwards |
| ActionBuilder.Builder.StatOutputs | tools/action.ts:281-304 | Reports whether every output exists, and if so gives each output's clean metadata in order |
| ActionBuilder.Builder.MergeFiles | tools/action.ts:305-309 | Stores each output's metadata in the file cache and changes nothing else |
| ActionBuilder.Builder.TrackInputs | tools/action.ts:264-266 | Adds the action's inputs to the tracked set and changes nothing else |
| ActionBuilder.Builder.Execute | tools/action.ts:272-314 | Executes a not-reused action exactly as `Actions.ActionExecuted` (see `Actions.ExecutedKeeps`) |
| ActionBuilder.Builder.RunAction | tools/action.ts:261-320 | Runs one action exactly as `Actions.ActionRun` and keeps the builder's invariant |
| ActionBuilder.Builder.RunActions | tools/action.ts:203-215 | The loop over the actions gives exactly the outcome and state of `Actions.BuildFrom` |
| ActionBuilder.Builder.Build | tools/action.ts:196-216 | `build()` gives exactly the outcome and state of `Actions.BuildPass` (see `Actions.BuildPassOutcome`) and keeps the builder's invariant |

## Left out

- `watch()` is not modelled, because it is the driving loop over chokidar and `process.exit`. Its parts are modelled: the `change` handler (`Deliver`, `DidChange`), `build()` and `waitUntilDirty`.
- `SyncEvent` is replaced by the `posted` notification log. `waitUntilDirty` becomes a function of the current state and the notifications posted later. A promise that never resolves is `None`.
- `process.hrtime`, `formatHRTime`, `showBuildTimes` and all console output are left out, because they are timing and logging. The one exception is the `Build <name>` line, kept as the `built` log so that "nothing was executed" can be stated.
- `BuildContext.listFilesWithExtensions` is left out, because it reads directories; `tools/util` is not part of this model.
- `runAction` treats a `stat` failure on an output other than `ENOENT` (the re-throw at tools/action.ts:297) as a missing output, because the disk map has no other error kind.
- The filesystem is the `Disk` map from file name to modification time. Everything an action writes comes through its `Step`.
- Asynchronous interleaving is fixed to one order, because the model is sequential:
  - Watcher events for an action arrive after its input scan. For an executed action they arrive before its outputs are stat'ed.
  - A cache hit is also given its events, although in JavaScript a hit whose inputs are all clean does not yield.
  - `Promise.all` in `scanInputs` is taken left to right.
- The dirty flag set on file-metadata objects that the action cache shares with the file cache (JavaScript object aliasing) is not tracked into action-cache entries. It cannot be observed, because the comparison ignores dirty flags.
- The `Builder` constructor's `watchPaths` and `options` are left out, because they feed only `watch()` and the timing output. The action emitter is the constant `emitted` list.
- `tools/build.ts` is not part of this model.
- Numbers are modelled without their machine representation:
  - `Float32Array` rounding is not modelled: vectors hold `real`s.
  - `charCodeAt` is taken as the character's code (strings are sequences of `char`).
  - The `Math.max` argument-count limit is not modelled, and `-Infinity` is represented as -1.
- `indexData` elements are `nat`, not 16-bit values, because their width does not affect which slot is read.
- ModelUtil.GetTriangle: requires its three output vectors to be distinct from each other and not to alias `data`. The source does not check this; overlapping vectors are not modelled.
- Physics.Union: requires the `root` and `rank` arrays to be distinct, because they stand for two fields of the same entity objects. The same holds for FindRoot, JoinEarlier, JoinTouching and Partition.
- The physics geometry is abstracted. The distance tests become the parameters `touching` (join loop) and `touches` (`findColliders`). The position update `madd` is the parameter `advance`. Symmetry of touching is not needed.
- These parts of physics.ts are left out, because they do not affect grouping or which positions are advanced:
  - the bounding-box accumulation and drawing colours of each group;
  - the debug marks, the per-entity `movement` and `radius` values, and `resetColliders`.
- The floating-point vector helpers in `src/model/util.ts` other than the three slot operations are left out.
