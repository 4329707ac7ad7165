/**
 * The incremental build system of `tools/action.ts`, described on values.
 *
 * Each operation of the `Builder` class is a function from the builder's
 * fields (a `Fields` record) and the file system (a `Disk`, file name to
 * modification time) to the new fields and the new file system. The class
 * in module ActionBuilder implements these operations with the source's
 * statements and loops, and proves that it computes exactly these
 * functions; the lemmas here state what the functions promise.
 */
module Actions {
  import opened Wrappers

  /** The states of a build; a fresh builder is `Dirty`. */
  datatype BuildState = Dirty | Building | Clean | Failed

  /** What the builder knows about one file: its name, modification time, and whether a watcher event made it stale. */
  datatype FileMetadata = FileMetadata(filename: string, mtime: int, dirty: bool)

  /** The result of the last run of an action and the metadata of the inputs it ran with. */
  datatype ActionCacheEntry = ActionCacheEntry(success: bool, inputs: seq<FileMetadata>)

  /** A build action: its name, the files it reads and the files it must produce. */
  datatype BuildAction = BuildAction(name: string, inputs: seq<string>, outputs: seq<string>)

  /** The file system: the modification time of each file that exists. */
  type Disk = map<string, int>

  type FileCache = map<string, FileMetadata>

  type ActionCache = map<string, ActionCacheEntry>

  /** How `execute()` ended: its promise resolved to a boolean, or it threw. */
  datatype ExecOutcome = Returned(ok: bool) | Raised

  /** A watcher `change` event: the file now has this modification time. */
  datatype Change = Change(path: string, mtime: int)

  /**
   * The outside world's part in running one action: how `execute()` ends
   * (ignored when the action is not executed), the files it writes without
   * the watcher reporting them, and the watcher events delivered while the
   * builder awaits the action.
   */
  datatype Step = Step(outcome: ExecOutcome, writes: Disk, events: seq<Change>)

  /** Why `build()` rejects instead of resolving to a boolean. */
  datatype BuildError = ConcurrentBuild | MissingInput(path: string)

  /** What the promise of `build()` settles to. */
  datatype Outcome = Finished(ok: bool) | Rejected(error: BuildError)

  /**
   * The fields of a `Builder`, plus two logs: `posted` lists the values
   * posted on `stateChanged`, and `built` the names printed as `Build <name>`,
   * one per executed action.
   */
  datatype Fields = Fields(
    state: BuildState,
    actions: Option<seq<BuildAction>>,
    actionCache: ActionCache,
    fileCache: FileCache,
    inputs: set<string>,
    inputsDidChange: bool,
    posted: seq<BuildState>,
    built: seq<string>)

  /** A value together with the file cache after computing it. */
  datatype Scanned<T> = Scanned(value: Result<T, string>, fileCache: FileCache)

  /** The builder and the file system after one step. */
  datatype World = World(fields: Fields, disk: Disk)

  /** The result of `runAction`, with the builder and file system after it. */
  datatype Ran = Ran(result: Result<bool, BuildError>, fields: Fields, disk: Disk)

  /** The outcome of `build()`, with the builder and file system after it. */
  datatype Built = Built(outcome: Outcome, fields: Fields, disk: Disk)

  /** A freshly constructed builder. */
  function Initial(): Fields {
    Fields(Dirty, None, map[], map[], {}, false, [], [])
  }

  /** Every file cache entry is stored under its own file name. */
  predicate CacheKeyed(fc: FileCache) {
    forall p :: p in fc ==> fc[p].filename == p
  }

  /** The cached metadata of `actions` never differs from what the emitter produces. */
  predicate ActionsFrom(f: Fields, emitted: seq<BuildAction>) {
    f.actions.None? || f.actions.value == emitted
  }

  /** `inputsEqual`: same length, and position by position the same file name and modification time. */
  predicate SameInputs(x: seq<FileMetadata>, y: seq<FileMetadata>) {
    && |x| == |y|
    && forall i :: 0 <= i < |x| ==> x[i].filename == y[i].filename && x[i].mtime == y[i].mtime
  }

  /** `setState`: change the state, posting a notification only if it differs. */
  function StateSet(f: Fields, s: BuildState): Fields {
    if s != f.state then f.(state := s, posted := f.posted + [s]) else f
  }

  /** A file the cache holds and no watcher event has made stale. */
  predicate CleanIn(fc: FileCache, p: string) {
    p in fc && !fc[p].dirty
  }

  /** A file whose metadata a scan can obtain: clean in the cache, or present on disk. */
  predicate Available(fc: FileCache, disk: Disk, p: string) {
    CleanIn(fc, p) || p in disk
  }

  /** The metadata a scan of an available file gives. */
  function Observed(fc: FileCache, disk: Disk, p: string): FileMetadata
    requires Available(fc, disk, p)
  {
    if CleanIn(fc, p) then fc[p] else FileMetadata(p, disk[p], false)
  }

  /** `scanInput`: the cached metadata if clean, else a fresh stat stored in the cache; a missing file fails. */
  function ScanInput(fc: FileCache, disk: Disk, name: string): Scanned<FileMetadata> {
    if CleanIn(fc, name) then Scanned(Success(fc[name]), fc)
    else if name in disk then
      var file := FileMetadata(name, disk[name], false);
      Scanned(Success(file), fc[name := file])
    else Scanned(Failure(name), fc)
  }

  /**
   * `scanInputs`: every file is scanned (so every present one is stored),
   * and the result is either all the metadata in order or the first missing
   * file.
   */
  function ScanInputs(fc: FileCache, disk: Disk, names: seq<string>): Scanned<seq<FileMetadata>>
    decreases |names|
  {
    if names == [] then Scanned(Success([]), fc)
    else
      var init := ScanInputs(fc, disk, names[..|names| - 1]);
      var last := ScanInput(init.fileCache, disk, names[|names| - 1]);
      var value :=
        if init.value.Failure? then init.value
        else if last.value.Failure? then Failure(last.value.error)
        else Success(init.value.value + [last.value.value]);
      Scanned(value, last.fileCache)
  }

  /** `didChange`: mark the file's cache entry stale; a tracked input also affects the build state. */
  function Changed(f: Fields, path: string): Fields {
    var f1 :=
      if path in f.fileCache then f.(fileCache := f.fileCache[path := f.fileCache[path].(dirty := true)])
      else f;
    if path !in f.inputs then f1
    else match f1.state
      case Building => f1.(inputsDidChange := true)
      case Clean => StateSet(f1, Dirty)
      case Failed => StateSet(f1, Dirty)
      case Dirty => f1
  }

  /** Watcher events, in order: each one updates the disk and calls `didChange`. */
  function Delivered(f: Fields, disk: Disk, events: seq<Change>): World
    decreases |events|
  {
    if events == [] then World(f, disk)
    else
      var w := Delivered(f, disk, events[..|events| - 1]);
      var e := events[|events| - 1];
      World(Changed(w.fields, e.path), w.disk[e.path := e.mtime])
  }

  /** The fresh metadata of produced outputs merged into the file cache, in order. */
  function MergeOutputs(fc: FileCache, disk: Disk, outputs: seq<string>): FileCache
    requires forall p :: p in outputs ==> p in disk
    decreases |outputs|
  {
    if outputs == [] then fc
    else
      var o := outputs[|outputs| - 1];
      MergeOutputs(fc, disk, outputs[..|outputs| - 1])[o := FileMetadata(o, disk[o], false)]
  }

  /** True when `execute()` resolved to true and then every output exists. */
  predicate Produced(outcome: ExecOutcome, disk: Disk, outputs: seq<string>) {
    outcome == Returned(true) && forall p :: p in outputs ==> p in disk
  }

  /** The names of a list of actions. */
  function Names(acts: seq<BuildAction>): set<string> {
    set a | a in acts :: a.name
  }

  /** The input files of one action, as a set. */
  function InputSet(a: BuildAction): set<string> {
    set p | p in a.inputs
  }

  /** The files the watcher events name. */
  function Paths(events: seq<Change>): set<string>
    decreases |events|
  {
    if events == [] then {} else Paths(events[..|events| - 1]) + {events[|events| - 1].path}
  }

  /** The disk after the watcher events, in order. */
  function Applied(disk: Disk, events: seq<Change>): Disk
    decreases |events|
  {
    if events == [] then disk
    else
      var e := events[|events| - 1];
      Applied(disk, events[..|events| - 1])[e.path := e.mtime]
  }

  /** `runAction` on a cache hit: the cached result, while the step's events arrive. */
  function ActionReused(f: Fields, disk: Disk, a: BuildAction, step: Step): Ran
    requires a.name in f.actionCache
  {
    var w := Delivered(f, disk, step.events);
    Ran(Success(f.actionCache[a.name].success), w.fields, w.disk)
  }

  /**
   * `runAction` on a cache miss: log and execute the action, deliver the
   * step's events, check the outputs, merge their metadata on success, and
   * store the new cache entry for the scanned inputs `cur`.
   */
  function ActionExecuted(f: Fields, disk: Disk, a: BuildAction, step: Step, cur: seq<FileMetadata>): Ran {
    var f3 := f.(built := f.built + [a.name], actionCache := f.actionCache - {a.name});
    var w := Delivered(f3, disk + step.writes, step.events);
    var success := Produced(step.outcome, w.disk, a.outputs);
    var fc := if success then MergeOutputs(w.fields.fileCache, w.disk, a.outputs) else w.fields.fileCache;
    Ran(Success(success),
        w.fields.(fileCache := fc, actionCache := w.fields.actionCache[a.name := ActionCacheEntry(success, cur)]),
        w.disk)
  }

  /**
   * `runAction`: record the inputs as tracked, scan them, return the cached
   * result when the action's cache entry has the same inputs, and otherwise
   * execute the action.
   */
  function ActionRun(f: Fields, disk: Disk, a: BuildAction, step: Step): Ran {
    var f1 := f.(inputs := f.inputs + InputSet(a));
    var scan := ScanInputs(f1.fileCache, disk, a.inputs);
    var f2 := f1.(fileCache := scan.fileCache);
    if scan.value.Failure? then Ran(Failure(MissingInput(scan.value.error)), f2, disk)
    else if a.name in f2.actionCache && SameInputs(scan.value.value, f2.actionCache[a.name].inputs) then
      ActionReused(f2, disk, a, step)
    else ActionExecuted(f2, disk, a, step, scan.value.value)
  }

  /** `getActions`: create the action list on the first call and drop cache entries of actions that no longer exist. */
  function ActionsLoaded(f: Fields, emitted: seq<BuildAction>): Fields {
    if f.actions.Some? then f
    else
      var names := Names(emitted);
      f.(actions := Some(emitted),
         actionCache := map n | n in f.actionCache && n in names :: f.actionCache[n])
  }

  /**
   * The loop of `build()` from action `i` on: stop with a rejection when a
   * scan fails, with `Dirty` when an input changed, with `Failed` when the
   * action failed, and with `Clean` after the last action.
   */
  function BuildFrom(f: Fields, disk: Disk, acts: seq<BuildAction>, steps: seq<Step>, i: nat): Built
    requires |steps| == |acts| && i <= |acts|
    decreases |acts| - i
  {
    if i == |acts| then Built(Finished(true), StateSet(f, Clean), disk)
    else
      var r := ActionRun(f, disk, acts[i], steps[i]);
      if r.result.Failure? then Built(Rejected(r.result.error), r.fields, r.disk)
      else if r.fields.inputsDidChange then Built(Finished(false), StateSet(r.fields, Dirty), r.disk)
      else if !r.result.value then Built(Finished(false), StateSet(r.fields, Failed), r.disk)
      else BuildFrom(r.fields, r.disk, acts, steps, i + 1)
  }

  /** The builder at the start of the action loop of `build()`. */
  function BuildStart(f: Fields, emitted: seq<BuildAction>): Fields {
    ActionsLoaded(StateSet(f, Building).(inputs := {}, inputsDidChange := false), emitted)
  }

  /** `build()`: refuse a concurrent build; otherwise enter `Building`, reset the tracking and run the actions in order. */
  function BuildPass(f: Fields, disk: Disk, emitted: seq<BuildAction>, steps: seq<Step>): Built
    requires |steps| == |emitted|
  {
    if f.state == Building then Built(Rejected(ConcurrentBuild), f, disk)
    else BuildFrom(BuildStart(f, emitted), disk, emitted, steps, 0)
  }

  /**
   * `waitUntilDirty`, given the notifications posted after it is called:
   * `Some(k)` when it resolves after the first k of them, `None` while it
   * is still waiting.
   */
  function WaitUntilDirty(state: BuildState, later: seq<BuildState>): (r: Option<nat>)
    ensures r == Some(0) <==> state == Dirty
    ensures r.None? <==> state != Dirty && Dirty !in later
    ensures r.Some? && r.value > 0 ==>
      r.value <= |later| && later[r.value - 1] == Dirty && Dirty !in later[..r.value - 1]
    decreases |later|
  {
    if state == Dirty then Some(0)
    else if later == [] then None
    else match WaitUntilDirty(later[0], later[1..])
      case None => None
      case Some(k) => Some(k + 1)
  }

  // ---------------------------------------------------------------------
  // Properties of the operations
  // ---------------------------------------------------------------------

  /** The state posted last is the current state, and no notification repeats the one before it. */
  predicate Coherent(f: Fields) {
    && (if f.posted == [] then f.state == Dirty else f.posted[|f.posted| - 1] == f.state)
    && forall k :: 0 <= k < |f.posted| - 1 ==> f.posted[k] != f.posted[k + 1]
  }

  /** A fresh builder is coherent and has its cache keyed by file name. */
  lemma InitialValid()
    ensures Coherent(Initial()) && CacheKeyed(Initial().fileCache) && Initial().state == Dirty
  {
  }

  /** `setState` keeps the notification log coherent: it posts exactly when the state changes. */
  lemma StateSetCoherent(f: Fields, s: BuildState)
    requires Coherent(f)
    ensures var g := StateSet(f, s);
      && g.state == s
      && Coherent(g)
      && (g.posted == if s == f.state then f.posted else f.posted + [s])
      && g == f.(state := s, posted := g.posted)
  {
    var g := StateSet(f, s);
    if s != f.state {
      forall k | 0 <= k < |g.posted| - 1
        ensures g.posted[k] != g.posted[k + 1]
      {
        if k == |f.posted| - 1 {
          assert g.posted[k] == f.state;
        } else {
          assert g.posted[k] == f.posted[k] && g.posted[k + 1] == f.posted[k + 1];
        }
      }
    }
  }

  /** Comparing inputs ignores the `dirty` flags. */
  lemma SameInputsIgnoresDirty(x: seq<FileMetadata>, y: seq<FileMetadata>, i: nat, d: bool)
    requires i < |x|
    ensures SameInputs(x[i := x[i].(dirty := d)], y) <==> SameInputs(x, y)
  {
    var x' := x[i := x[i].(dirty := d)];
    assert forall k :: 0 <= k < |x| ==> x'[k].filename == x[k].filename && x'[k].mtime == x[k].mtime;
  }

  /**
   * Comparing inputs is positional: swapping two differently named files of
   * a list gives a list that compares unequal, although it names the same files.
   */
  lemma SameInputsPositional(x: seq<FileMetadata>, i: nat, j: nat)
    requires i < |x| && j < |x| && x[i].filename != x[j].filename
    ensures var y := x[i := x[j]][j := x[i]];
      multiset(y) == multiset(x) && !SameInputs(x, y)
  {
    var y := x[i := x[j]][j := x[i]];
    assert y[i] == x[j];
  }

  /** Comparing inputs is reflexive and symmetric. */
  lemma SameInputsEquivalence(x: seq<FileMetadata>, y: seq<FileMetadata>)
    ensures SameInputs(x, x)
    ensures SameInputs(x, y) <==> SameInputs(y, x)
  {
  }

  /**
   * `scanInput`: a clean cache entry is returned as is; otherwise a file on
   * disk is stat'ed and its fresh metadata stored; a missing file fails
   * and leaves the cache alone.
   */
  lemma ScanInputResult(fc: FileCache, disk: Disk, name: string)
    requires CacheKeyed(fc)
    ensures var s := ScanInput(fc, disk, name);
      && CacheKeyed(s.fileCache)
      && (s.value.Success? <==> Available(fc, disk, name))
      && (s.value.Success? ==> s.value.value == Observed(fc, disk, name) && s.value.value.filename == name && !s.value.value.dirty)
      && (s.value.Failure? ==> s.value.error == name && s.fileCache == fc)
      && (CleanIn(fc, name) ==> s.fileCache == fc)
      && (!CleanIn(fc, name) && name in disk ==> s.fileCache == fc[name := FileMetadata(name, disk[name], false)])
  {
  }

  /** Scanning one file does not change whether, or with what metadata, any file can be scanned. */
  lemma ScanInputKeepsObserved(fc: FileCache, disk: Disk, name: string, p: string)
    ensures var fc' := ScanInput(fc, disk, name).fileCache;
      && (Available(fc', disk, p) <==> Available(fc, disk, p))
      && (Available(fc, disk, p) ==> Observed(fc', disk, p) == Observed(fc, disk, p))
  {
  }

  /** Scanning a list of files does not change whether, or with what metadata, any file can be scanned. */
  lemma {:induction false} ScanInputsKeepObserved(fc: FileCache, disk: Disk, names: seq<string>, p: string)
    ensures var fc' := ScanInputs(fc, disk, names).fileCache;
      && (Available(fc', disk, p) <==> Available(fc, disk, p))
      && (Available(fc, disk, p) ==> Observed(fc', disk, p) == Observed(fc, disk, p))
    decreases |names|
  {
    if names != [] {
      var init := names[..|names| - 1];
      ScanInputsKeepObserved(fc, disk, init, p);
      ScanInputKeepsObserved(ScanInputs(fc, disk, init).fileCache, disk, names[|names| - 1], p);
    }
  }

  /**
   * The cache after `scanInputs`: every scannable file of the list holds
   * the metadata the scan gave, and no other entry changes.
   */
  lemma {:induction false} ScanInputsCache(fc: FileCache, disk: Disk, names: seq<string>)
    requires CacheKeyed(fc)
    ensures var fc' := ScanInputs(fc, disk, names).fileCache;
      && CacheKeyed(fc')
      && (forall p :: p in fc' <==> p in fc || (p in names && p in disk))
      && (forall p :: p in fc' ==> fc'[p] == if p in names && Available(fc, disk, p) then Observed(fc, disk, p) else fc[p])
    decreases |names|
  {
    if names != [] {
      var init := names[..|names| - 1];
      var name := names[|names| - 1];
      ScanInputsCache(fc, disk, init);
      var mid := ScanInputs(fc, disk, init).fileCache;
      ScanInputResult(mid, disk, name);
      ScanInputsKeepObserved(fc, disk, init, name);
      assert names == init + [name];
      assert forall p :: p in names <==> p in init || p == name;
    }
  }

  /** One step of `scanInputs`: the result for a list, given the result for all but its last file. */
  lemma ScanInputsStep(fc: FileCache, disk: Disk, names: seq<string>)
    requires CacheKeyed(fc) && names != []
    ensures var init := names[..|names| - 1];
      var name := names[|names| - 1];
      var mid := ScanInputs(fc, disk, init);
      var s := ScanInputs(fc, disk, names);
      && (mid.value.Failure? ==> s.value == mid.value)
      && (mid.value.Success? && !Available(fc, disk, name) ==> s.value == Failure(name))
      && (mid.value.Success? && Available(fc, disk, name) ==> s.value == Success(mid.value.value + [Observed(fc, disk, name)]))
  {
    var init := names[..|names| - 1];
    var name := names[|names| - 1];
    var mid := ScanInputs(fc, disk, init);
    ScanInputsCache(fc, disk, init);
    ScanInputResult(mid.fileCache, disk, name);
    ScanInputsKeepObserved(fc, disk, init, name);
  }

  /**
   * `scanInputs` succeeds exactly when every file can be scanned, and then
   * gives the metadata of each file in order.
   */
  lemma {:induction false} ScanInputsSuccess(fc: FileCache, disk: Disk, names: seq<string>)
    requires CacheKeyed(fc)
    ensures var s := ScanInputs(fc, disk, names);
      && (s.value.Success? <==> forall k :: 0 <= k < |names| ==> Available(fc, disk, names[k]))
      && (s.value.Success? ==>
            |s.value.value| == |names| && forall k :: 0 <= k < |names| ==> s.value.value[k] == Observed(fc, disk, names[k]))
    decreases |names|
  {
    if names != [] {
      var init := names[..|names| - 1];
      ScanInputsSuccess(fc, disk, init);
      ScanInputsStep(fc, disk, names);
      assert forall k :: 0 <= k < |init| ==> names[k] == init[k];
    }
  }

  /** When `scanInputs` fails, it reports the first file of the list that cannot be scanned. */
  lemma {:induction false} ScanInputsFailure(fc: FileCache, disk: Disk, names: seq<string>)
    requires CacheKeyed(fc)
    ensures var s := ScanInputs(fc, disk, names);
      s.value.Failure? ==>
        exists k :: 0 <= k < |names| && names[k] == s.value.error && !Available(fc, disk, names[k])
          && forall j :: 0 <= j < k ==> Available(fc, disk, names[j])
    decreases |names|
  {
    if names != [] {
      var init := names[..|names| - 1];
      var name := names[|names| - 1];
      ScanInputsFailure(fc, disk, init);
      ScanInputsSuccess(fc, disk, init);
      ScanInputsStep(fc, disk, names);
      assert forall k :: 0 <= k < |init| ==> names[k] == init[k];
      var mid := ScanInputs(fc, disk, init);
      if mid.value.Failure? {
        var k :| 0 <= k < |init| && init[k] == mid.value.error && !Available(fc, disk, init[k])
            && forall j :: 0 <= j < k ==> Available(fc, disk, init[j]);
        assert names[k] == init[k];
      } else {
        assert names[|init|] == name;
      }
    }
  }

  /**
   * `didChange`: an existing cache entry of the file is always marked stale;
   * a file that is not a tracked input changes nothing else; for a tracked
   * input a `Building` builder sets the flag, a `Clean` or `Failed` one
   * becomes `Dirty`, and a `Dirty` one stays as it is.
   */
  lemma ChangedEffect(f: Fields, path: string)
    ensures var g := Changed(f, path);
      && g.fileCache == (if path in f.fileCache then f.fileCache[path := f.fileCache[path].(dirty := true)] else f.fileCache)
      && g == f.(fileCache := g.fileCache, state := g.state, inputsDidChange := g.inputsDidChange, posted := g.posted)
      && (path !in f.inputs ==> g == f.(fileCache := g.fileCache))
      && (path in f.inputs && f.state == Building ==> g == f.(fileCache := g.fileCache, inputsDidChange := true))
      && (path in f.inputs && (f.state == Clean || f.state == Failed) ==>
            g == f.(fileCache := g.fileCache, state := Dirty, posted := f.posted + [Dirty]))
      && (path in f.inputs && f.state == Dirty ==> g == f.(fileCache := g.fileCache))
  {
  }

  /** Delivering events leaves every field but the file cache, the state, the flag and the log alone, and keeps the cache keyed. */
  lemma {:induction false} DeliveredFrame(f: Fields, disk: Disk, events: seq<Change>)
    requires CacheKeyed(f.fileCache)
    ensures var w := Delivered(f, disk, events);
      && CacheKeyed(w.fields.fileCache)
      && w.fields == f.(fileCache := w.fields.fileCache, state := w.fields.state,
                        inputsDidChange := w.fields.inputsDidChange, posted := w.fields.posted)
      && (events == [] ==> w == World(f, disk))
    decreases |events|
  {
    if events != [] {
      DeliveredFrame(f, disk, events[..|events| - 1]);
      ChangedEffect(Delivered(f, disk, events[..|events| - 1]).fields, events[|events| - 1].path);
    }
  }

  /** The files the events name are exactly the paths of the events. */
  lemma {:induction false} PathsMembers(events: seq<Change>)
    ensures forall p :: p in Paths(events) <==> exists e :: e in events && e.path == p
    decreases |events|
  {
    if events != [] {
      var init := events[..|events| - 1];
      var e := events[|events| - 1];
      PathsMembers(init);
      assert events == init + [e];
      assert forall x :: x in events <==> x in init || x == e;
    }
  }

  /** Delivering events marks exactly the cache entries of the changed files stale, and adds no entry. */
  lemma {:induction false} DeliveredFiles(f: Fields, disk: Disk, events: seq<Change>)
    ensures var w := Delivered(f, disk, events);
      && w.fields.fileCache.Keys == f.fileCache.Keys
      && (forall p :: p in f.fileCache ==>
            w.fields.fileCache[p] == f.fileCache[p].(dirty := f.fileCache[p].dirty || p in Paths(events)))
    decreases |events|
  {
    if events != [] {
      var init := events[..|events| - 1];
      DeliveredFiles(f, disk, init);
      ChangedEffect(Delivered(f, disk, init).fields, events[|events| - 1].path);
    }
  }

  /** Delivering events keeps the notification log coherent. */
  lemma {:induction false} DeliveredCoherent(f: Fields, disk: Disk, events: seq<Change>)
    requires Coherent(f)
    ensures Coherent(Delivered(f, disk, events).fields)
    decreases |events|
  {
    if events != [] {
      var init := events[..|events| - 1];
      var e := events[|events| - 1];
      DeliveredCoherent(f, disk, init);
      var g := Delivered(f, disk, init).fields;
      var g1 := if e.path in g.fileCache then g.(fileCache := g.fileCache[e.path := g.fileCache[e.path].(dirty := true)]) else g;
      StateSetCoherent(g1, Dirty);
    }
  }

  /** While building, events never change the state, and the flag records whether a tracked input changed. */
  lemma {:induction false} DeliveredWhileBuilding(f: Fields, disk: Disk, events: seq<Change>)
    requires f.state == Building
    ensures var w := Delivered(f, disk, events);
      && w.fields.state == Building
      && w.fields.inputs == f.inputs
      && w.fields.posted == f.posted
      && (w.fields.inputsDidChange <==> f.inputsDidChange || Paths(events) * f.inputs != {})
    decreases |events|
  {
    if events != [] {
      var init := events[..|events| - 1];
      var e := events[|events| - 1];
      DeliveredWhileBuilding(f, disk, init);
      var g := Delivered(f, disk, init).fields;
      ChangedEffect(g, e.path);
      assert Paths(events) == Paths(init) + {e.path};
      if e.path in f.inputs {
        assert e.path in Paths(events) * f.inputs;
        assert Changed(g, e.path).inputsDidChange;
      } else {
        assert Paths(events) * f.inputs == Paths(init) * f.inputs;
        assert Changed(g, e.path).inputsDidChange == g.inputsDidChange;
      }
    }
  }

  /** Merging the fresh metadata of the outputs: exactly the outputs get new, clean entries. */
  lemma {:induction false} MergeOutputsEffect(fc: FileCache, disk: Disk, outputs: seq<string>)
    requires CacheKeyed(fc) && forall p :: p in outputs ==> p in disk
    ensures var m := MergeOutputs(fc, disk, outputs);
      && CacheKeyed(m)
      && (forall p :: p in m <==> p in fc || p in outputs)
      && (forall p :: p in m ==> m[p] == if p in outputs then FileMetadata(p, disk[p], false) else fc[p])
    decreases |outputs|
  {
    if outputs != [] {
      var init := outputs[..|outputs| - 1];
      assert outputs == init + [outputs[|outputs| - 1]];
      assert forall p :: p in init ==> p in outputs;
      MergeOutputsEffect(fc, disk, init);
    }
  }

  /** All inputs of a list can be scanned. */
  predicate AllAvailable(fc: FileCache, disk: Disk, names: seq<string>) {
    forall k :: 0 <= k < |names| ==> Available(fc, disk, names[k])
  }

  /** The metadata a successful scan of a list gives, file by file. */
  function Snapshot(fc: FileCache, disk: Disk, names: seq<string>): seq<FileMetadata>
    requires AllAvailable(fc, disk, names)
  {
    seq(|names|, k requires 0 <= k < |names| => Observed(fc, disk, names[k]))
  }

  /** The cache entry of the action matches the inputs about to be scanned. */
  predicate CacheHit(f: Fields, disk: Disk, a: BuildAction)
    requires AllAvailable(f.fileCache, disk, a.inputs)
  {
    a.name in f.actionCache && SameInputs(Snapshot(f.fileCache, disk, a.inputs), f.actionCache[a.name].inputs)
  }

  /** The scan inside `runAction`, restated with `Snapshot`. */
  lemma ActionScan(f: Fields, disk: Disk, a: BuildAction)
    requires CacheKeyed(f.fileCache)
    ensures var scan := ScanInputs(f.fileCache, disk, a.inputs);
      && (scan.value.Success? <==> AllAvailable(f.fileCache, disk, a.inputs))
      && (scan.value.Success? ==> scan.value.value == Snapshot(f.fileCache, disk, a.inputs))
      && CacheKeyed(scan.fileCache)
  {
    ScanInputsSuccess(f.fileCache, disk, a.inputs);
    ScanInputsCache(f.fileCache, disk, a.inputs);
  }

  /** The disk after delivering events depends on the events alone. */
  lemma {:induction false} DeliveredDisk(f: Fields, disk: Disk, events: seq<Change>)
    ensures Delivered(f, disk, events).disk == Applied(disk, events)
    decreases |events|
  {
    if events != [] {
      DeliveredDisk(f, disk, events[..|events| - 1]);
    }
  }

  /** Which files exist after the events: those that existed and those the events name. */
  lemma {:induction false} AppliedFiles(disk: Disk, events: seq<Change>)
    ensures forall p :: p in Applied(disk, events) <==> p in disk || p in Paths(events)
    decreases |events|
  {
    if events != [] {
      AppliedFiles(disk, events[..|events| - 1]);
    }
  }

  /** What a cache hit keeps: everything but what the events touch. */
  lemma ReusedKeeps(f: Fields, disk: Disk, a: BuildAction, step: Step)
    requires a.name in f.actionCache && CacheKeyed(f.fileCache) && Coherent(f)
    ensures var r := ActionReused(f, disk, a, step);
      && r.result == Success(f.actionCache[a.name].success)
      && r.disk == Applied(disk, step.events)
      && CacheKeyed(r.fields.fileCache) && Coherent(r.fields)
      && r.fields == f.(fileCache := r.fields.fileCache, state := r.fields.state,
                        inputsDidChange := r.fields.inputsDidChange, posted := r.fields.posted)
      && (f.state == Building ==>
            && r.fields.state == Building && r.fields.posted == f.posted
            && (r.fields.inputsDidChange <==> f.inputsDidChange || Paths(step.events) * f.inputs != {}))
  {
    DeliveredFrame(f, disk, step.events);
    DeliveredCoherent(f, disk, step.events);
    DeliveredDisk(f, disk, step.events);
    if f.state == Building {
      DeliveredWhileBuilding(f, disk, step.events);
    }
  }

  /** What an execution does, apart from the events' effect on the file cache, state and log. */
  lemma ExecutedKeeps(f: Fields, disk: Disk, a: BuildAction, step: Step, cur: seq<FileMetadata>)
    requires CacheKeyed(f.fileCache)
    ensures var r := ActionExecuted(f, disk, a, step, cur);
      && r.result.Success?
      && r.disk == Applied(disk + step.writes, step.events)
      && (r.result.value <==> Produced(step.outcome, r.disk, a.outputs))
      && r.fields.actionCache == f.actionCache[a.name := ActionCacheEntry(r.result.value, cur)]
      && r.fields.built == f.built + [a.name]
      && r.fields.inputs == f.inputs && r.fields.actions == f.actions
      && CacheKeyed(r.fields.fileCache)
      && (r.result.value ==> forall p :: p in a.outputs ==>
            p in r.fields.fileCache && r.fields.fileCache[p] == FileMetadata(p, r.disk[p], false))
      && (forall p :: p in r.fields.fileCache <==> p in f.fileCache || (r.result.value && p in a.outputs))
      && (forall p :: p in r.fields.fileCache && !(r.result.value && p in a.outputs) ==>
            r.fields.fileCache[p] == f.fileCache[p].(dirty := f.fileCache[p].dirty || p in Paths(step.events)))
  {
    var f3 := f.(built := f.built + [a.name], actionCache := f.actionCache - {a.name});
    DeliveredFrame(f3, disk + step.writes, step.events);
    DeliveredDisk(f3, disk + step.writes, step.events);
    DeliveredFiles(f3, disk + step.writes, step.events);
    var w := Delivered(f3, disk + step.writes, step.events);
    if Produced(step.outcome, w.disk, a.outputs) {
      MergeOutputsEffect(w.fields.fileCache, w.disk, a.outputs);
    }
  }

  /** An execution keeps the notification log coherent, and a `Building` builder stays `Building`. */
  lemma ExecutedCoherent(f: Fields, disk: Disk, a: BuildAction, step: Step, cur: seq<FileMetadata>)
    requires Coherent(f)
    ensures var r := ActionExecuted(f, disk, a, step, cur);
      && Coherent(r.fields)
      && (f.state == Building ==>
            && r.fields.state == Building && r.fields.posted == f.posted
            && (r.fields.inputsDidChange <==> f.inputsDidChange || Paths(step.events) * f.inputs != {}))
  {
    var f3 := f.(built := f.built + [a.name], actionCache := f.actionCache - {a.name});
    DeliveredCoherent(f3, disk + step.writes, step.events);
    if f.state == Building {
      DeliveredWhileBuilding(f3, disk + step.writes, step.events);
    }
  }

  /** The first two steps of `runAction`: the inputs become tracked and are scanned. */
  lemma ActionRunCases(f: Fields, disk: Disk, a: BuildAction, step: Step)
    requires CacheKeyed(f.fileCache)
    ensures var scan := ScanInputs(f.fileCache, disk, a.inputs);
      var f2 := f.(inputs := f.inputs + InputSet(a), fileCache := scan.fileCache);
      && CacheKeyed(scan.fileCache)
      && (!AllAvailable(f.fileCache, disk, a.inputs) ==>
            scan.value.Failure? && ActionRun(f, disk, a, step) == Ran(Failure(MissingInput(scan.value.error)), f2, disk))
      && (AllAvailable(f.fileCache, disk, a.inputs) && CacheHit(f, disk, a) ==>
            ActionRun(f, disk, a, step) == ActionReused(f2, disk, a, step))
      && (AllAvailable(f.fileCache, disk, a.inputs) && !CacheHit(f, disk, a) ==>
            ActionRun(f, disk, a, step) == ActionExecuted(f2, disk, a, step, Snapshot(f.fileCache, disk, a.inputs)))
  {
    ActionScan(f, disk, a);
  }

  /**
   * `runAction` with an input that cannot be scanned rejects with the first
   * such input; the inputs are tracked all the same, and the action cache,
   * the log of executed actions and the disk are untouched.
   */
  lemma ActionRunMissing(f: Fields, disk: Disk, a: BuildAction, step: Step)
    requires CacheKeyed(f.fileCache) && !AllAvailable(f.fileCache, disk, a.inputs)
    ensures var r := ActionRun(f, disk, a, step);
      && r.result.Failure? && r.result.error.MissingInput?
      && (exists k :: 0 <= k < |a.inputs| && a.inputs[k] == r.result.error.path && !Available(f.fileCache, disk, a.inputs[k])
            && forall j :: 0 <= j < k ==> Available(f.fileCache, disk, a.inputs[j]))
      && r.fields == f.(inputs := f.inputs + InputSet(a), fileCache := r.fields.fileCache)
      && r.disk == disk
  {
    ActionRunCases(f, disk, a, step);
    ScanInputsFailure(f.fileCache, disk, a.inputs);
  }

  /**
   * `runAction` on a cache hit returns the cached result without executing
   * the action: the action cache and the log of executed actions do not
   * change, and the disk changes only by the delivered events.
   */
  lemma ActionRunHit(f: Fields, disk: Disk, a: BuildAction, step: Step)
    requires CacheKeyed(f.fileCache) && Coherent(f) && AllAvailable(f.fileCache, disk, a.inputs) && CacheHit(f, disk, a)
    ensures var r := ActionRun(f, disk, a, step);
      && r.result == Success(f.actionCache[a.name].success)
      && r.fields.actionCache == f.actionCache
      && r.fields.built == f.built
      && r.disk == Applied(disk, step.events)
  {
    ActionRunCases(f, disk, a, step);
    var scan := ScanInputs(f.fileCache, disk, a.inputs);
    ReusedKeeps(f.(inputs := f.inputs + InputSet(a), fileCache := scan.fileCache), disk, a, step);
  }

  /**
   * `runAction` on a cache miss executes the action (it is logged), and its
   * success is that `execute()` resolved to true and every output then
   * exists; the action's cache entry becomes exactly that success with the
   * scanned inputs; the outputs' fresh metadata is merged into the file
   * cache on success.
   */
  lemma ActionRunMiss(f: Fields, disk: Disk, a: BuildAction, step: Step)
    requires CacheKeyed(f.fileCache) && AllAvailable(f.fileCache, disk, a.inputs) && !CacheHit(f, disk, a)
    ensures var r := ActionRun(f, disk, a, step);
      var cur := Snapshot(f.fileCache, disk, a.inputs);
      && r.result.Success?
      && (r.result.value <==> step.outcome == Returned(true) && forall p :: p in a.outputs ==> p in r.disk)
      && r.fields.actionCache == f.actionCache[a.name := ActionCacheEntry(r.result.value, cur)]
      && r.fields.built == f.built + [a.name]
      && r.disk == Applied(disk + step.writes, step.events)
      && (r.result.value ==> forall p :: p in a.outputs ==>
            p in r.fields.fileCache && r.fields.fileCache[p] == FileMetadata(p, r.disk[p], false))
      && (forall p :: p in r.fields.fileCache <==> p in f.fileCache || p in a.inputs || (r.result.value && p in a.outputs))
      && (forall p :: p in r.fields.fileCache && !(r.result.value && p in a.outputs) ==>
            var s := if p in a.inputs then Observed(f.fileCache, disk, p) else f.fileCache[p];
            r.fields.fileCache[p] == s.(dirty := s.dirty || p in Paths(step.events)))
  {
    ActionRunCases(f, disk, a, step);
    ScanInputsCache(f.fileCache, disk, a.inputs);
    var scan := ScanInputs(f.fileCache, disk, a.inputs);
    assert forall p :: p in a.inputs ==> Available(f.fileCache, disk, p);
    ExecutedKeeps(f.(inputs := f.inputs + InputSet(a), fileCache := scan.fileCache), disk, a, step,
                  Snapshot(f.fileCache, disk, a.inputs));
  }

  /**
   * What every run of `runAction` keeps: the inputs become tracked, the
   * cache stays keyed by file name, the log stays coherent, only the
   * action's own cache entry can change, and a `Building` builder stays
   * `Building` without posting anything, its flag recording whether an
   * event changed a tracked input.
   */
  lemma ActionRunKeeps(f: Fields, disk: Disk, a: BuildAction, step: Step)
    requires CacheKeyed(f.fileCache) && Coherent(f)
    ensures var r := ActionRun(f, disk, a, step);
      && CacheKeyed(r.fields.fileCache)
      && Coherent(r.fields)
      && r.fields.inputs == f.inputs + InputSet(a)
      && r.fields.actions == f.actions
      && (forall n :: n != a.name ==> (n in r.fields.actionCache <==> n in f.actionCache))
      && (forall n :: n != a.name && n in f.actionCache ==> r.fields.actionCache[n] == f.actionCache[n])
      && (f.state == Building ==> r.fields.state == Building && r.fields.posted == f.posted)
      && (f.state == Building && r.result.Success? ==>
            (r.fields.inputsDidChange <==> f.inputsDidChange || Paths(step.events) * r.fields.inputs != {}))
      && (r.result.Success? ==> a.name in r.fields.actionCache && r.fields.actionCache[a.name].success == r.result.value)
  {
    ActionRunCases(f, disk, a, step);
    var scan := ScanInputs(f.fileCache, disk, a.inputs);
    var f2 := f.(inputs := f.inputs + InputSet(a), fileCache := scan.fileCache);
    if AllAvailable(f.fileCache, disk, a.inputs) {
      if CacheHit(f, disk, a) {
        ReusedKeeps(f2, disk, a, step);
      } else {
        ExecutedKeeps(f2, disk, a, step, Snapshot(f.fileCache, disk, a.inputs));
        ExecutedCoherent(f2, disk, a, step, Snapshot(f.fileCache, disk, a.inputs));
      }
    }
  }

  /**
   * `getActions` creates the list once: afterwards the builder holds the
   * emitted actions, a second call changes nothing, and the first call keeps
   * exactly the cache entries of actions that still exist.
   */
  lemma ActionsLoadedOnce(f: Fields, emitted: seq<BuildAction>)
    requires ActionsFrom(f, emitted)
    ensures var g := ActionsLoaded(f, emitted);
      && g.actions == Some(emitted)
      && ActionsLoaded(g, emitted) == g
      && g == f.(actions := g.actions, actionCache := g.actionCache)
      && (forall n :: n in g.actionCache <==> n in f.actionCache && (f.actions.Some? || n in Names(emitted)))
      && (forall n :: n in g.actionCache ==> g.actionCache[n] == f.actionCache[n])
  {
  }

  /** The builder's invariants: cache keyed by file name, coherent log, action list from the emitter. */
  predicate Sound(f: Fields, emitted: seq<BuildAction>) {
    CacheKeyed(f.fileCache) && Coherent(f) && ActionsFrom(f, emitted)
  }

  /** Every action from position i on has a successful cache entry and tracked inputs. */
  predicate AllSucceeded(f: Fields, acts: seq<BuildAction>, i: nat) {
    forall j :: i <= j < |acts| ==> acts[j].name in f.actionCache && f.actionCache[acts[j].name].success && InputSet(acts[j]) <= f.inputs
  }

  /**
   * The action loop of `build()`, entered while `Building`: it never reports
   * a concurrent build; it resolves to true exactly when it ends `Clean`,
   * to false exactly when it ends `Dirty` (a tracked input changed) or
   * `Failed` (no input changed, an action failed), and rejects exactly when
   * it stays `Building`; it posts one notification, for the final state,
   * unless it rejects.
   */
  lemma {:induction false} BuildFromOutcome(f: Fields, disk: Disk, acts: seq<BuildAction>, steps: seq<Step>, i: nat)
    requires |steps| == |acts| && i <= |acts|
    requires f.state == Building && !f.inputsDidChange && CacheKeyed(f.fileCache) && Coherent(f)
    ensures var b := BuildFrom(f, disk, acts, steps, i);
      && b.outcome != Rejected(ConcurrentBuild)
      && (b.outcome == Finished(true) <==> b.fields.state == Clean)
      && (b.outcome == Finished(false) <==> b.fields.state == Dirty || b.fields.state == Failed)
      && (b.outcome.Rejected? <==> b.fields.state == Building)
      && (b.fields.state == Dirty <==> b.outcome == Finished(false) && b.fields.inputsDidChange)
      && (b.fields.posted == if b.outcome.Rejected? then f.posted else f.posted + [b.fields.state])
      && CacheKeyed(b.fields.fileCache) && Coherent(b.fields)
      && b.fields.actions == f.actions
    decreases |acts| - i
  {
    if i < |acts| {
      var r := ActionRun(f, disk, acts[i], steps[i]);
      ActionRunKeeps(f, disk, acts[i], steps[i]);
      if r.result.Success? && !r.fields.inputsDidChange && r.result.value {
        BuildFromOutcome(r.fields, r.disk, acts, steps, i + 1);
      } else if r.result.Success? {
        StateSetCoherent(r.fields, if r.fields.inputsDidChange then Dirty else Failed);
      }
    } else {
      StateSetCoherent(f, Clean);
    }
  }

  /**
   * A true result of the action loop means every action from i on has a
   * successful cache entry and tracked inputs, and no successful entry was
   * lost on the way.
   */
  lemma {:induction false} BuildFromSucceeded(f: Fields, disk: Disk, acts: seq<BuildAction>, steps: seq<Step>, i: nat)
    requires |steps| == |acts| && i <= |acts|
    requires f.state == Building && !f.inputsDidChange && CacheKeyed(f.fileCache) && Coherent(f)
    ensures var b := BuildFrom(f, disk, acts, steps, i);
      b.outcome == Finished(true) ==>
        && !b.fields.inputsDidChange && AllSucceeded(b.fields, acts, i)
        && f.inputs <= b.fields.inputs
        && forall n :: n in f.actionCache && f.actionCache[n].success ==> n in b.fields.actionCache && b.fields.actionCache[n].success
    decreases |acts| - i
  {
    if i < |acts| {
      var r := ActionRun(f, disk, acts[i], steps[i]);
      BuildFromStep(f, disk, acts, steps, i);
      ActionRunKeeps(f, disk, acts[i], steps[i]);
      if r.result == Success(true) && !r.fields.inputsDidChange {
        BuildFromSucceeded(r.fields, r.disk, acts, steps, i + 1);
        var b := BuildFrom(r.fields, r.disk, acts, steps, i + 1);
        if b.outcome == Finished(true) {
          assert acts[i].name in r.fields.actionCache && r.fields.actionCache[acts[i].name].success;
          assert InputSet(acts[i]) <= r.fields.inputs <= b.fields.inputs;
          assert AllSucceeded(b.fields, acts, i);
        }
      }
    }
  }

  /**
   * One step of the action loop: a run that rejects, sees a tracked input
   * change or fails ends the loop with the matching outcome and state;
   * only a successful run without such a change goes on to the next action.
   */
  lemma BuildFromStep(f: Fields, disk: Disk, acts: seq<BuildAction>, steps: seq<Step>, i: nat)
    requires |steps| == |acts| && i < |acts|
    ensures var r := ActionRun(f, disk, acts[i], steps[i]);
      var b := BuildFrom(f, disk, acts, steps, i);
      && (r.result.Failure? ==> b == Built(Rejected(r.result.error), r.fields, r.disk))
      && (r.result.Success? && r.fields.inputsDidChange ==> b == Built(Finished(false), StateSet(r.fields, Dirty), r.disk))
      && (r.result == Success(false) && !r.fields.inputsDidChange ==> b == Built(Finished(false), StateSet(r.fields, Failed), r.disk))
      && (r.result == Success(true) && !r.fields.inputsDidChange ==> b == BuildFrom(r.fields, r.disk, acts, steps, i + 1))
  {
  }

  /** The start of `build()`: `Building` is posted, tracking is reset and the action list is loaded. */
  lemma BuildStartEffect(f: Fields, emitted: seq<BuildAction>)
    requires Sound(f, emitted) && f.state != Building
    ensures var g := BuildStart(f, emitted);
      && g.state == Building && g.posted == f.posted + [Building]
      && g.inputs == {} && !g.inputsDidChange
      && g.actions == Some(emitted)
      && g.fileCache == f.fileCache && g.built == f.built
      && CacheKeyed(g.fileCache) && Coherent(g)
  {
    StateSetCoherent(f, Building);
    ActionsLoadedOnce(StateSet(f, Building).(inputs := {}, inputsDidChange := false), emitted);
  }

  /**
   * `build()`: a builder still `Building` rejects the call and changes
   * nothing; otherwise the build posts `Building`, then exactly one final
   * state, which is `Clean` when it resolves to true, `Dirty` (an input
   * changed) or `Failed` (it did not) when it resolves to false, and it
   * stays `Building` when an input is missing; a true result means every
   * action's cache entry records success and all their inputs are tracked.
   */
  lemma BuildPassOutcome(f: Fields, disk: Disk, emitted: seq<BuildAction>, steps: seq<Step>)
    requires |steps| == |emitted| && Sound(f, emitted)
    ensures var b := BuildPass(f, disk, emitted, steps);
      && (b.outcome == Rejected(ConcurrentBuild) <==> f.state == Building)
      && (f.state == Building ==> b == Built(Rejected(ConcurrentBuild), f, disk))
      && (f.state != Building ==>
            && Sound(b.fields, emitted) && b.fields.actions == Some(emitted)
            && (b.outcome == Finished(true) <==> b.fields.state == Clean)
            && (b.outcome == Finished(false) && b.fields.inputsDidChange <==> b.fields.state == Dirty)
            && (b.outcome == Finished(false) && !b.fields.inputsDidChange <==> b.fields.state == Failed)
            && (b.outcome.Rejected? <==> b.fields.state == Building)
            && (b.fields.posted == f.posted + [Building] + (if b.outcome.Rejected? then [] else [b.fields.state]))
            && (b.outcome == Finished(true) ==> AllSucceeded(b.fields, emitted, 0)))
  {
    if f.state != Building {
      BuildStartEffect(f, emitted);
      BuildFromOutcome(BuildStart(f, emitted), disk, emitted, steps, 0);
      BuildFromSucceeded(BuildStart(f, emitted), disk, emitted, steps, 0);
    }
  }

  /**
   * A build that rejected because an input was missing leaves the builder
   * `Building`, so every later call of `build()` rejects as concurrent.
   */
  lemma StuckAfterMissingInput(f: Fields, disk: Disk, emitted: seq<BuildAction>, steps: seq<Step>, later: seq<Step>)
    requires |steps| == |emitted| && |later| == |emitted| && Sound(f, emitted)
    requires BuildPass(f, disk, emitted, steps).outcome.Rejected?
    requires f.state != Building
    ensures var b := BuildPass(f, disk, emitted, steps);
      && b.outcome.error.MissingInput?
      && BuildPass(b.fields, b.disk, emitted, later).outcome == Rejected(ConcurrentBuild)
  {
    BuildPassOutcome(f, disk, emitted, steps);
    var b := BuildPass(f, disk, emitted, steps);
    BuildPassOutcome(b.fields, b.disk, emitted, later);
  }

  /**
   * The watch loop's wait: after a finished build, a change of a tracked
   * input makes the builder `Dirty` and wakes `waitUntilDirty` with the
   * notification it posts; a change of any other file leaves it waiting.
   */
  lemma ChangeWakesWaiter(f: Fields, path: string)
    requires Coherent(f) && (f.state == Clean || f.state == Failed)
    ensures var g := Changed(f, path);
      && |f.posted| <= |g.posted|
      && (path in f.inputs ==> g.state == Dirty && WaitUntilDirty(f.state, g.posted[|f.posted|..]) == Some(1))
      && (path !in f.inputs ==> g.state == f.state && WaitUntilDirty(f.state, g.posted[|f.posted|..]) == None)
  {
    ChangedEffect(f, path);
    var g := Changed(f, path);
    if path in f.inputs {
      assert g.posted[|f.posted|..] == [Dirty];
    } else {
      assert g.posted[|f.posted|..] == [];
    }
  }

  /**
   * An action reruns when one of its inputs has a new modification time:
   * if the watcher marked the input's cache entry stale and the disk now
   * holds a time different from the one recorded in the action's cache
   * entry, `runAction` executes the action.
   */
  lemma StaleInputReruns(f: Fields, disk: Disk, a: BuildAction, step: Step, k: nat)
    requires CacheKeyed(f.fileCache) && AllAvailable(f.fileCache, disk, a.inputs)
    requires k < |a.inputs| && a.inputs[k] in disk && !CleanIn(f.fileCache, a.inputs[k])
    requires a.name in f.actionCache && k < |f.actionCache[a.name].inputs|
    requires f.actionCache[a.name].inputs[k].mtime != disk[a.inputs[k]]
    ensures ActionRun(f, disk, a, step).fields.built == f.built + [a.name]
  {
    var cur := Snapshot(f.fileCache, disk, a.inputs);
    assert cur[k].mtime == disk[a.inputs[k]];
    assert !CacheHit(f, disk, a);
    ActionRunMiss(f, disk, a, step);
  }
}
