/**
 * The `Builder` and `BuildContext` classes of `tools/action.ts` and the
 * `inputsEqual` loop, written with the source's fields, statements and
 * loops. Every method is proved to compute the function of module Actions
 * that describes it, so the properties proved there hold of these methods.
 *
 * The file system is passed in and returned (`Disk`), and so is what the
 * environment contributes to running an action (`Step`): the result of
 * `execute()`, its file writes, and the watcher events delivered meanwhile.
 */
module ActionBuilder {
  import opened Wrappers
  import A = Actions

  /** `inputsEqual`: one pass comparing file names and modification times position by position. */
  method InputsEqual(xinputs: seq<A.FileMetadata>, yinputs: seq<A.FileMetadata>) returns (eq: bool)
    ensures eq <==> |xinputs| == |yinputs| && forall i :: 0 <= i < |xinputs| ==>
      xinputs[i].filename == yinputs[i].filename && xinputs[i].mtime == yinputs[i].mtime
    ensures eq <==> A.SameInputs(xinputs, yinputs)
  {
    if |xinputs| != |yinputs| {
      return false;
    }
    var i := 0;
    while i < |xinputs|
      invariant 0 <= i <= |xinputs|
      invariant forall k :: 0 <= k < i ==> xinputs[k].filename == yinputs[k].filename && xinputs[k].mtime == yinputs[k].mtime
    {
      var x := xinputs[i];
      var y := yinputs[i];
      if x.filename != y.filename || x.mtime != y.mtime {
        return false;
      }
      i := i + 1;
    }
    return true;
  }

  /** The context handed to the action emitter: it collects the scheduled actions in order. */
  class BuildContext {
    var actions: seq<A.BuildAction>

    constructor (actions: seq<A.BuildAction>)
      ensures this.actions == actions
    {
      this.actions := actions;
    }

    /** `addAction`: schedule an action after all those scheduled so far. */
    method AddAction(action: A.BuildAction)
      modifies this
      ensures actions == old(actions) + [action]
    {
      actions := actions + [action];
    }
  }

  /**
   * A builder. `emitted` is the list of actions its `createActions`
   * callback schedules; `posted` and `built` log the notifications posted
   * on `stateChanged` and the actions executed.
   */
  class Builder {
    const emitted: seq<A.BuildAction>
    var state: A.BuildState
    var actions: Option<seq<A.BuildAction>>
    var actionCache: A.ActionCache
    var fileCache: A.FileCache
    var inputs: set<string>
    var inputsDidChange: bool
    var posted: seq<A.BuildState>
    var built: seq<string>

    /** The builder's fields as a value. */
    function Model(): A.Fields
      reads this
    {
      A.Fields(state, actions, actionCache, fileCache, inputs, inputsDidChange, posted, built)
    }

    predicate Valid()
      reads this
    {
      A.Sound(Model(), emitted)
    }

    constructor (emitted: seq<A.BuildAction>)
      ensures Valid() && this.emitted == emitted && Model() == A.Initial()
    {
      this.emitted := emitted;
      state := A.Dirty;
      actions := None;
      actionCache := map[];
      fileCache := map[];
      inputs := {};
      inputsDidChange := false;
      posted := [];
      built := [];
    }

    /** `setState`. */
    method SetState(s: A.BuildState)
      modifies this
      ensures Model() == A.StateSet(old(Model()), s)
    {
      if s != state {
        state := s;
        posted := posted + [s];
      }
    }

    /** `scanInput`. */
    method ScanInput(disk: A.Disk, filename: string) returns (r: Result<A.FileMetadata, string>)
      modifies this
      ensures var s := A.ScanInput(old(fileCache), disk, filename);
        r == s.value && Model() == old(Model()).(fileCache := s.fileCache)
    {
      if filename in fileCache && !fileCache[filename].dirty {
        return Success(fileCache[filename]);
      }
      if filename !in disk {
        return Failure(filename);
      }
      var file := A.FileMetadata(filename, disk[filename], false);
      fileCache := fileCache[filename := file];
      return Success(file);
    }

    /** `scanInputs`: every file is scanned; the result is all the metadata or the first failure. */
    method ScanInputs(disk: A.Disk, filenames: seq<string>) returns (r: Result<seq<A.FileMetadata>, string>)
      modifies this
      ensures var s := A.ScanInputs(old(fileCache), disk, filenames);
        r == s.value && Model() == old(Model()).(fileCache := s.fileCache)
    {
      var files: seq<A.FileMetadata> := [];
      var missing: Option<string> := None;
      var k := 0;
      while k < |filenames|
        invariant 0 <= k <= |filenames|
        invariant var s := A.ScanInputs(old(fileCache), disk, filenames[..k]);
          && s.value == (if missing.Some? then Failure(missing.value) else Success(files))
          && Model() == old(Model()).(fileCache := s.fileCache)
      {
        assert filenames[..k + 1][..k] == filenames[..k];
        var file := ScanInput(disk, filenames[k]);
        if missing.None? {
          if file.Failure? {
            missing := Some(file.error);
          } else {
            files := files + [file.value];
          }
        }
        k := k + 1;
      }
      assert filenames[..k] == filenames;
      r := if missing.Some? then Failure(missing.value) else Success(files);
    }

    /** `getActions`: run the emitter once, then drop cache entries of actions that no longer exist. */
    method GetActions() returns (acts: seq<A.BuildAction>)
      requires Valid()
      modifies this
      ensures acts == emitted
      ensures Model() == A.ActionsLoaded(old(Model()), emitted)
    {
      if actions.Some? {
        return actions.value;
      }
      var ctx := new BuildContext([]);
      var k := 0;
      while k < |emitted|
        invariant 0 <= k <= |emitted|
        invariant ctx.actions == emitted[..k]
        invariant Model() == old(Model())
      {
        ctx.AddAction(emitted[k]);
        k := k + 1;
      }
      acts := ctx.actions;
      assert acts == emitted;
      var actionSet := set a | a in acts :: a.name;
      ghost var cache0 := actionCache;
      var keys := actionCache.Keys;
      while keys != {}
        invariant keys <= cache0.Keys
        invariant actionCache == map n | n in cache0 && (n in keys || n in actionSet) :: cache0[n]
        invariant Model() == old(Model()).(actionCache := actionCache)
        decreases keys
      {
        var name :| name in keys;
        if name !in actionSet {
          actionCache := actionCache - {name};
        }
        keys := keys - {name};
      }
      actions := Some(acts);
    }

    /** `didChange`. */
    method DidChange(filename: string)
      requires Valid()
      modifies this
      ensures Valid()
      ensures Model() == A.Changed(old(Model()), filename)
    {
      if filename in fileCache {
        fileCache := fileCache[filename := fileCache[filename].(dirty := true)];
      }
      if filename in inputs {
        match state {
          case Building => inputsDidChange := true;
          case Clean =>
            A.StateSetCoherent(Model(), A.Dirty);
            SetState(A.Dirty);
          case Failed =>
            A.StateSetCoherent(Model(), A.Dirty);
            SetState(A.Dirty);
          case Dirty =>
        }
      }
    }

    /** The file watcher: each event updates the disk, then calls `didChange`. */
    method Deliver(disk: A.Disk, events: seq<A.Change>) returns (disk': A.Disk)
      requires Valid()
      modifies this
      ensures Valid()
      ensures var w := A.Delivered(old(Model()), disk, events);
        Model() == w.fields && disk' == w.disk
    {
      disk' := disk;
      var k := 0;
      while k < |events|
        invariant 0 <= k <= |events|
        invariant Valid()
        invariant var w := A.Delivered(old(Model()), disk, events[..k]);
          Model() == w.fields && disk' == w.disk
      {
        assert events[..k + 1][..k] == events[..k];
        disk' := disk'[events[k].path := events[k].mtime];
        DidChange(events[k].path);
        k := k + 1;
      }
      assert events[..k] == events;
    }

    /**
     * The part of `runAction` after a cache miss: log the action, drop its
     * entry, execute it (its writes, then the events meanwhile), check that
     * every output exists, merge the outputs' metadata on success, and store
     * the new entry for the scanned inputs `cur`.
     */
    method Execute(disk: A.Disk, action: A.BuildAction, step: A.Step, cur: seq<A.FileMetadata>)
        returns (success: bool, disk': A.Disk)
      requires Valid()
      modifies this
      ensures var r := A.ActionExecuted(old(Model()), disk, action, step, cur);
        r.result == Success(success) && Model() == r.fields && disk' == r.disk
    {
      ghost var r := A.ActionExecuted(old(Model()), disk, action, step, cur);
      built := built + [action.name];
      actionCache := actionCache - {action.name};
      disk' := Deliver(disk + step.writes, step.events);
      assert disk' == r.disk;
      success := step.outcome == A.Returned(true);
      if success {
        var present, files := StatOutputs(disk', action.outputs);
        if present {
          MergeFiles(disk', action.outputs, files);
        } else {
          success := false;
        }
      }
      actionCache := actionCache[action.name := A.ActionCacheEntry(success, cur)];
    }

    /**
     * The `stat` of every output after a successful `execute()`: `present` is
     * false as soon as one output is missing (the ENOENT case); otherwise
     * `files` holds a clean entry with the current mtime for each output.
     */
    static method StatOutputs(disk: A.Disk, outputs: seq<string>) returns (present: bool, files: seq<A.FileMetadata>)
      ensures present <==> forall p :: p in outputs ==> p in disk
      ensures present ==> |files| == |outputs|
      ensures present ==> forall j :: 0 <= j < |outputs| ==> files[j] == A.FileMetadata(outputs[j], disk[outputs[j]], false)
    {
      files := [];
      var k := 0;
      while k < |outputs|
        invariant 0 <= k <= |outputs| && |files| == k
        invariant forall j :: 0 <= j < k ==> outputs[j] in disk
        invariant forall j :: 0 <= j < k ==> files[j] == A.FileMetadata(outputs[j], disk[outputs[j]], false)
      {
        var output := outputs[k];
        if output !in disk {
          return false, files;
        }
        files := files + [A.FileMetadata(output, disk[output], false)];
        k := k + 1;
      }
      present := true;
    }

    /** Storing the stat'ed outputs into the file cache, in order. */
    method MergeFiles(disk: A.Disk, outputs: seq<string>, files: seq<A.FileMetadata>)
      requires forall p :: p in outputs ==> p in disk
      requires |files| == |outputs|
      requires forall j :: 0 <= j < |outputs| ==> files[j] == A.FileMetadata(outputs[j], disk[outputs[j]], false)
      modifies this
      ensures Model() == old(Model()).(fileCache := A.MergeOutputs(old(fileCache), disk, outputs))
    {
      var m := 0;
      while m < |files|
        invariant 0 <= m <= |files|
        invariant fileCache == A.MergeOutputs(old(fileCache), disk, outputs[..m])
        invariant Model() == old(Model()).(fileCache := fileCache)
      {
        assert outputs[..m + 1][..m] == outputs[..m];
        fileCache := fileCache[files[m].filename := files[m]];
        m := m + 1;
      }
      assert outputs[..m] == outputs;
    }

    /** The loop at the start of `runAction` adding the action's inputs to the tracked set. */
    method TrackInputs(action: A.BuildAction)
      modifies this
      ensures Model() == old(Model()).(inputs := old(inputs) + A.InputSet(action))
    {
      var k := 0;
      while k < |action.inputs|
        invariant 0 <= k <= |action.inputs|
        invariant inputs == old(inputs) + set j | 0 <= j < k :: action.inputs[j]
        invariant Model() == old(Model()).(inputs := inputs)
      {
        inputs := inputs + {action.inputs[k]};
        k := k + 1;
      }
      assert inputs == old(inputs) + A.InputSet(action) by {
        forall p | p in A.InputSet(action)
          ensures p in set j | 0 <= j < |action.inputs| :: action.inputs[j]
        {
          var j :| 0 <= j < |action.inputs| && action.inputs[j] == p;
        }
      }
    }

    /** `runAction`. */
    method RunAction(disk: A.Disk, action: A.BuildAction, step: A.Step) returns (r: Result<bool, A.BuildError>, disk': A.Disk)
      requires Valid()
      modifies this
      ensures Valid()
      ensures var ran := A.ActionRun(old(Model()), disk, action, step);
        r == ran.result && Model() == ran.fields && disk' == ran.disk
    {
      A.ActionRunKeeps(Model(), disk, action, step);
      TrackInputs(action);
      ghost var f2 := Model();
      var curinputs := ScanInputs(disk, action.inputs);
      A.ActionScan(f2, disk, action);
      ghost var f3 := Model();
      ghost var ran := A.ActionRun(old(Model()), disk, action, step);
      if curinputs.Failure? {
        assert ran == A.Ran(Failure(A.MissingInput(curinputs.error)), f3, disk);
        return Failure(A.MissingInput(curinputs.error)), disk;
      }
      if action.name in actionCache {
        var preventry := actionCache[action.name];
        var same := InputsEqual(curinputs.value, preventry.inputs);
        if same {
          assert ran == A.ActionReused(f3, disk, action, step);
          disk' := Deliver(disk, step.events);
          return Success(preventry.success), disk';
        }
      }
      assert ran == A.ActionExecuted(f3, disk, action, step, curinputs.value);
      var success;
      success, disk' := Execute(disk, action, step, curinputs.value);
      r := Success(success);
    }

    /** `build()`: refuse a concurrent build, otherwise start one and run the action loop. */
    method Build(disk: A.Disk, steps: seq<A.Step>) returns (outcome: A.Outcome, disk': A.Disk)
      requires Valid() && |steps| == |emitted|
      modifies this
      ensures Valid()
      ensures var b := A.BuildPass(old(Model()), disk, emitted, steps);
        outcome == b.outcome && Model() == b.fields && disk' == b.disk
    {
      if state == A.Building {
        return A.Rejected(A.ConcurrentBuild), disk;
      }
      A.BuildStartEffect(Model(), emitted);
      SetState(A.Building);
      inputs := {};
      inputsDidChange := false;
      var acts := GetActions();
      outcome, disk' := RunActions(disk, acts, steps);
    }

    /**
     * The action loop of `build()`: run the actions in order, stopping at
     * the first rejection, tracked input change or failure, and end `Clean`
     * after the last one.
     */
    method RunActions(disk: A.Disk, acts: seq<A.BuildAction>, steps: seq<A.Step>) returns (outcome: A.Outcome, disk': A.Disk)
      requires Valid() && state == A.Building && !inputsDidChange && |steps| == |acts|
      modifies this
      ensures Valid()
      ensures var b := A.BuildFrom(old(Model()), disk, acts, steps, 0);
        outcome == b.outcome && Model() == b.fields && disk' == b.disk
    {
      disk' := disk;
      var i := 0;
      while i < |acts|
        invariant 0 <= i <= |acts|
        invariant Valid() && state == A.Building && !inputsDidChange
        invariant A.BuildFrom(Model(), disk', acts, steps, i) == A.BuildFrom(old(Model()), disk, acts, steps, 0)
      {
        ghost var before, diskBefore := Model(), disk';
        A.ActionRunKeeps(before, diskBefore, acts[i], steps[i]);
        A.BuildFromStep(before, diskBefore, acts, steps, i);
        var success;
        success, disk' := RunAction(disk', acts[i], steps[i]);
        if success.Failure? {
          return A.Rejected(success.error), disk';
        }
        if inputsDidChange {
          A.StateSetCoherent(Model(), A.Dirty);
          SetState(A.Dirty);
          return A.Finished(false), disk';
        }
        if !success.value {
          A.StateSetCoherent(Model(), A.Failed);
          SetState(A.Failed);
          return A.Finished(false), disk';
        }
        i := i + 1;
      }
      A.StateSetCoherent(Model(), A.Clean);
      SetState(A.Clean);
      outcome := A.Finished(true);
    }
  }
}
