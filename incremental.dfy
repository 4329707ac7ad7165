/**
 * The promise of the builder in `tools/action.ts`: a build runs only the
 * actions that are out of date. Stated here for the case the source is
 * written for, where every action depends only on its own inputs and the
 * outputs of earlier actions, and action names are unique: after a
 * successful build in which no watcher event arrived, the file cache and
 * the action cache are up to date, and the next build executes nothing.
 */
module Incremental {
  import opened Wrappers
  import opened Actions

  /** No two actions share a name (each has its own action cache entry). */
  predicate DistinctNames(acts: seq<BuildAction>) {
    forall i, j :: 0 <= i < j < |acts| ==> acts[i].name != acts[j].name
  }

  /** No action produces an input of itself or of an earlier action. */
  predicate FeedForward(acts: seq<BuildAction>) {
    forall i, j, p :: 0 <= i <= j < |acts| && p in acts[j].outputs ==> p !in acts[i].inputs
  }

  /** No watcher event arrives during the build. */
  predicate Quiet(steps: seq<Step>) {
    forall i :: 0 <= i < |steps| ==> steps[i].events == []
  }

  /** Every input is in the cache and not stale. */
  predicate AllClean(fc: FileCache, names: seq<string>) {
    forall k :: 0 <= k < |names| ==> CleanIn(fc, names[k])
  }

  /** The cached metadata of a list of files. */
  function Cached(fc: FileCache, names: seq<string>): seq<FileMetadata>
    requires AllClean(fc, names)
  {
    seq(|names|, k requires 0 <= k < |names| => fc[names[k]])
  }

  /** Action a is up to date: it succeeded with the inputs the clean cache now holds. */
  predicate Current(f: Fields, a: BuildAction) {
    && a.name in f.actionCache
    && f.actionCache[a.name].success
    && AllClean(f.fileCache, a.inputs)
    && SameInputs(Cached(f.fileCache, a.inputs), f.actionCache[a.name].inputs)
  }

  /** The actions before position i are up to date. */
  predicate CurrentBefore(f: Fields, acts: seq<BuildAction>, i: nat) {
    forall j :: 0 <= j < i && j < |acts| ==> Current(f, acts[j])
  }

  /** Whether an action is up to date depends only on its cache entry and its inputs' cache entries. */
  lemma CurrentFromEntries(f: Fields, g: Fields, a: BuildAction)
    requires Current(f, a)
    requires a.name in g.actionCache && g.actionCache[a.name] == f.actionCache[a.name]
    requires forall k :: 0 <= k < |a.inputs| ==> a.inputs[k] in g.fileCache && g.fileCache[a.inputs[k]] == f.fileCache[a.inputs[k]]
    ensures Current(g, a)
  {
    assert Cached(g.fileCache, a.inputs) == Cached(f.fileCache, a.inputs);
  }

  /** The scan of `runAction`: clean entries stay, and every input ends clean with its scanned metadata. */
  lemma QuietScan(f: Fields, disk: Disk, a: BuildAction)
    requires CacheKeyed(f.fileCache) && AllAvailable(f.fileCache, disk, a.inputs)
    ensures var fc' := ScanInputs(f.fileCache, disk, a.inputs).fileCache;
      && (forall p :: CleanIn(f.fileCache, p) ==> p in fc' && fc'[p] == f.fileCache[p])
      && (forall k :: 0 <= k < |a.inputs| ==>
            CleanIn(fc', a.inputs[k]) && fc'[a.inputs[k]] == Snapshot(f.fileCache, disk, a.inputs)[k])
  {
    ScanInputsCache(f.fileCache, disk, a.inputs);
    var fc' := ScanInputs(f.fileCache, disk, a.inputs).fileCache;
    forall k | 0 <= k < |a.inputs|
      ensures CleanIn(fc', a.inputs[k]) && fc'[a.inputs[k]] == Snapshot(f.fileCache, disk, a.inputs)[k]
    {
      assert a.inputs[k] in a.inputs;
    }
  }

  /** A cache hit without events changes nothing but what the scan already changed. */
  lemma QuietReused(f: Fields, disk: Disk, a: BuildAction, step: Step)
    requires a.name in f.actionCache && CacheKeyed(f.fileCache) && step.events == []
    ensures ActionReused(f, disk, a, step).fields == f
  {
    DeliveredFrame(f, disk, step.events);
  }

  /** An execution without events: only the outputs' cache entries and the action's own entry change. */
  lemma QuietExecuted(f: Fields, disk: Disk, a: BuildAction, step: Step, cur: seq<FileMetadata>)
    requires CacheKeyed(f.fileCache) && step.events == []
    ensures var r := ActionExecuted(f, disk, a, step, cur);
      && r.result.Success?
      && r.fields.state == f.state && r.fields.inputsDidChange == f.inputsDidChange
      && (forall p :: p in f.fileCache && p !in a.outputs ==> p in r.fields.fileCache && r.fields.fileCache[p] == f.fileCache[p])
      && a.name in r.fields.actionCache && r.fields.actionCache[a.name] == ActionCacheEntry(r.result.value, cur)
  {
    var f3 := f.(built := f.built + [a.name], actionCache := f.actionCache - {a.name});
    DeliveredFrame(f3, disk + step.writes, step.events);
    if Produced(step.outcome, disk + step.writes, a.outputs) {
      MergeOutputsEffect(f.fileCache, disk + step.writes, a.outputs);
    }
  }

  /**
   * `runAction` without watcher events, when its inputs can be scanned: it
   * resolves; clean cache entries survive unless they are outputs of the
   * action; each input that is not an output ends clean with the scanned
   * metadata; and when it succeeds, its cache entry records success with
   * inputs equal to the scanned ones.
   */
  lemma QuietRun(f: Fields, disk: Disk, a: BuildAction, step: Step)
    requires CacheKeyed(f.fileCache) && AllAvailable(f.fileCache, disk, a.inputs)
    requires step.events == []
    ensures var r := ActionRun(f, disk, a, step);
      && r.result.Success?
      && r.fields.state == f.state && r.fields.inputsDidChange == f.inputsDidChange
      && (forall p :: CleanIn(f.fileCache, p) && p !in a.outputs ==> p in r.fields.fileCache && r.fields.fileCache[p] == f.fileCache[p])
      && (forall k :: 0 <= k < |a.inputs| && a.inputs[k] !in a.outputs ==>
            CleanIn(r.fields.fileCache, a.inputs[k])
            && r.fields.fileCache[a.inputs[k]] == Snapshot(f.fileCache, disk, a.inputs)[k])
      && (r.result.value ==>
            a.name in r.fields.actionCache && r.fields.actionCache[a.name].success
            && SameInputs(Snapshot(f.fileCache, disk, a.inputs), r.fields.actionCache[a.name].inputs))
  {
    ActionRunCases(f, disk, a, step);
    QuietScan(f, disk, a);
    var scan := ScanInputs(f.fileCache, disk, a.inputs);
    var f2 := f.(inputs := f.inputs + InputSet(a), fileCache := scan.fileCache);
    var cur := Snapshot(f.fileCache, disk, a.inputs);
    if CacheHit(f, disk, a) {
      QuietReused(f2, disk, a, step);
    } else {
      QuietExecuted(f2, disk, a, step, cur);
      SameInputsEquivalence(cur, cur);
    }
  }

  /**
   * A successful quiet run of the action at position i keeps the earlier
   * actions up to date and makes it up to date too.
   */
  lemma RunKeepsCurrent(f: Fields, disk: Disk, acts: seq<BuildAction>, step: Step, i: nat)
    requires i < |acts| && CacheKeyed(f.fileCache) && Coherent(f) && AllAvailable(f.fileCache, disk, acts[i].inputs)
    requires step.events == [] && DistinctNames(acts) && FeedForward(acts)
    requires CurrentBefore(f, acts, i)
    ensures var r := ActionRun(f, disk, acts[i], step);
      r.result == Success(true) ==> CurrentBefore(r.fields, acts, i + 1)
  {
    var a := acts[i];
    var r := ActionRun(f, disk, a, step);
    ActionRunKeeps(f, disk, a, step);
    QuietRun(f, disk, a, step);
    if r.result == Success(true) {
      forall j | 0 <= j < i + 1
        ensures Current(r.fields, acts[j])
      {
        if j < i {
          var b := acts[j];
          assert b.name != a.name;
          forall k | 0 <= k < |b.inputs|
            ensures b.inputs[k] in r.fields.fileCache && r.fields.fileCache[b.inputs[k]] == f.fileCache[b.inputs[k]]
          {
            assert b.inputs[k] in b.inputs;
            assert CleanIn(f.fileCache, b.inputs[k]);
          }
          CurrentFromEntries(f, r.fields, b);
        } else {
          forall k | 0 <= k < |a.inputs|
            ensures a.inputs[k] !in a.outputs
          {
            assert a.inputs[k] in a.inputs;
          }
          assert Cached(r.fields.fileCache, a.inputs) == Snapshot(f.fileCache, disk, a.inputs);
        }
      }
    }
  }

  /**
   * A successful quiet build from position i, entered with the earlier
   * actions up to date, ends with every action up to date.
   */
  lemma {:induction false} BuildFromCurrent(f: Fields, disk: Disk, acts: seq<BuildAction>, steps: seq<Step>, i: nat)
    requires |steps| == |acts| && i <= |acts|
    requires f.state == Building && !f.inputsDidChange && CacheKeyed(f.fileCache) && Coherent(f)
    requires DistinctNames(acts) && FeedForward(acts) && Quiet(steps)
    requires CurrentBefore(f, acts, i)
    ensures var b := BuildFrom(f, disk, acts, steps, i);
      b.outcome == Finished(true) ==> CurrentBefore(b.fields, acts, |acts|)
    decreases |acts| - i
  {
    if i < |acts| {
      var a := acts[i];
      var r := ActionRun(f, disk, a, steps[i]);
      BuildFromStep(f, disk, acts, steps, i);
      if AllAvailable(f.fileCache, disk, a.inputs) {
        QuietRun(f, disk, a, steps[i]);
        if r.result.value {
          ActionRunKeeps(f, disk, a, steps[i]);
          RunKeepsCurrent(f, disk, acts, steps[i], i);
          BuildFromCurrent(r.fields, r.disk, acts, steps, i + 1);
        }
      } else {
        ActionRunMissing(f, disk, a, steps[i]);
      }
    }
  }

  /**
   * A quiet build from position i with every action up to date succeeds
   * and executes nothing: the caches and the log of executed actions stay
   * as they were.
   */
  lemma {:induction false} BuildFromUpToDate(f: Fields, disk: Disk, acts: seq<BuildAction>, steps: seq<Step>, i: nat)
    requires |steps| == |acts| && i <= |acts|
    requires f.state == Building && !f.inputsDidChange && CacheKeyed(f.fileCache) && Coherent(f)
    requires Quiet(steps) && CurrentBefore(f, acts, |acts|)
    ensures var b := BuildFrom(f, disk, acts, steps, i);
      && b.outcome == Finished(true)
      && b.fields.built == f.built
      && b.fields.actionCache == f.actionCache
      && b.fields.fileCache == f.fileCache
    decreases |acts| - i
  {
    if i < |acts| {
      var a := acts[i];
      assert Current(f, a);
      assert AllAvailable(f.fileCache, disk, a.inputs);
      assert Snapshot(f.fileCache, disk, a.inputs) == Cached(f.fileCache, a.inputs);
      assert CacheHit(f, disk, a);
      ActionRunCases(f, disk, a, steps[i]);
      ActionRunHit(f, disk, a, steps[i]);
      ActionRunKeeps(f, disk, a, steps[i]);
      ScanInputsCache(f.fileCache, disk, a.inputs);
      var scan := ScanInputs(f.fileCache, disk, a.inputs);
      forall p | p in scan.fileCache
        ensures scan.fileCache[p] == f.fileCache[p]
      {
        if p in a.inputs {
          var k :| 0 <= k < |a.inputs| && a.inputs[k] == p;
          assert CleanIn(f.fileCache, a.inputs[k]);
        }
      }
      assert scan.fileCache == f.fileCache;
      var f2 := f.(inputs := f.inputs + InputSet(a), fileCache := scan.fileCache);
      DeliveredFrame(f2, disk, steps[i].events);
      var r := ActionRun(f, disk, a, steps[i]);
      assert r.fields == f2;
      forall j | 0 <= j < |acts|
        ensures Current(r.fields, acts[j])
      {
        CurrentFromEntries(f, r.fields, acts[j]);
      }
      BuildFromUpToDate(r.fields, r.disk, acts, steps, i + 1);
    }
  }

  /** A successful quiet build leaves every action up to date. */
  lemma SuccessfulBuildIsCurrent(f: Fields, disk: Disk, emitted: seq<BuildAction>, steps: seq<Step>)
    requires |steps| == |emitted| && Sound(f, emitted)
    requires DistinctNames(emitted) && FeedForward(emitted) && Quiet(steps)
    requires BuildPass(f, disk, emitted, steps).outcome == Finished(true)
    ensures CurrentBefore(BuildPass(f, disk, emitted, steps).fields, emitted, |emitted|)
  {
    BuildPassOutcome(f, disk, emitted, steps);
    BuildStartEffect(f, emitted);
    BuildFromCurrent(BuildStart(f, emitted), disk, emitted, steps, 0);
  }

  /**
   * A quiet build of a builder whose actions are all up to date succeeds
   * and executes nothing.
   */
  lemma UpToDateBuildRunsNothing(f: Fields, disk: Disk, emitted: seq<BuildAction>, steps: seq<Step>)
    requires |steps| == |emitted| && Sound(f, emitted) && f.state != Building
    requires Quiet(steps) && CurrentBefore(f, emitted, |emitted|)
    ensures var b := BuildPass(f, disk, emitted, steps);
      && b.outcome == Finished(true)
      && b.fields.built == f.built
      && b.fields.fileCache == f.fileCache
      && (forall a :: a in emitted ==> a.name in b.fields.actionCache && b.fields.actionCache[a.name] == f.actionCache[a.name])
  {
    BuildStartEffect(f, emitted);
    var g := BuildStart(f, emitted);
    ActionsLoadedOnce(StateSet(f, Building).(inputs := {}, inputsDidChange := false), emitted);
    forall j | 0 <= j < |emitted|
      ensures Current(g, emitted[j]) && g.actionCache[emitted[j].name] == f.actionCache[emitted[j].name]
    {
      assert emitted[j] in emitted;
      assert emitted[j].name in Names(emitted);
      CurrentFromEntries(f, g, emitted[j]);
    }
    BuildFromUpToDate(g, disk, emitted, steps, 0);
    forall a | a in emitted
      ensures a.name in g.actionCache && g.actionCache[a.name] == f.actionCache[a.name]
    {
      var j :| 0 <= j < |emitted| && emitted[j] == a;
    }
  }

  /**
   * Building twice with no change in between: when a quiet build succeeds,
   * a second quiet build succeeds too, executes no action, and leaves both
   * caches as the first build left them.
   */
  lemma RebuildRunsNothing(f: Fields, disk: Disk, emitted: seq<BuildAction>, steps: seq<Step>, again: seq<Step>)
    requires |steps| == |emitted| && |again| == |emitted| && Sound(f, emitted)
    requires DistinctNames(emitted) && FeedForward(emitted) && Quiet(steps) && Quiet(again)
    requires BuildPass(f, disk, emitted, steps).outcome == Finished(true)
    ensures var b1 := BuildPass(f, disk, emitted, steps);
      var b2 := BuildPass(b1.fields, b1.disk, emitted, again);
      && b2.outcome == Finished(true)
      && b2.fields.built == b1.fields.built
      && b2.fields.fileCache == b1.fields.fileCache
      && b2.fields.actionCache == b1.fields.actionCache
  {
    BuildPassOutcome(f, disk, emitted, steps);
    var b1 := BuildPass(f, disk, emitted, steps);
    SuccessfulBuildIsCurrent(f, disk, emitted, steps);
    BuildStartEffect(b1.fields, emitted);
    var g := BuildStart(b1.fields, emitted);
    assert g.actionCache == b1.fields.actionCache;
    forall j | 0 <= j < |emitted|
      ensures Current(g, emitted[j])
    {
      CurrentFromEntries(b1.fields, g, emitted[j]);
    }
    BuildFromUpToDate(g, b1.disk, emitted, again, 0);
  }
}
