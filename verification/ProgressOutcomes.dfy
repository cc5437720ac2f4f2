/** What the four counters of the progress reporter count, told from the steps of a run alone. */
module ProgressOutcomes {
  import opened Basics
  import opened Tasks
  import opened Progress

  /** The ending behind each counter. */
  function EndingOf(b: Bucket): Ending {
    match b
    case Done => Finish(Ran)
    case Skipped => Finish(SkippedLocalCache)
    case SharedHits => Finish(SharedCacheHit)
    case Failed => Fail
  }

  /** The task was taken off the list with that ending. */
  predicate EndedAs(done: seq<Step>, t: TaskId, e: Ending) {
    Unlist(t, e) in done
  }

  /** The phase of a task goes with the one ending reported for it so far, if any. */
  ghost predicate Traced(p: Plan, s: State, done: seq<Step>, t: TaskId) {
    match s.PhaseOf(t)
    case Idle => forall e :: !EndedAs(done, t, e)
    case Started => forall e :: !EndedAs(done, t, e)
    case WithSink => forall e :: !EndedAs(done, t, e)
    case Unlisted(x) => forall e :: EndedAs(done, t, e) <==> e == x
    case SinkGone(x) => forall e :: EndedAs(done, t, e) <==> e == x
    case Entered => forall e :: EndedAs(done, t, e) <==> e == Fail
    case HalfCounted(b) => forall e :: EndedAs(done, t, e) <==> e == EndingOf(b)
    case Ended(None) => forall e :: EndedAs(done, t, e) ==> StaysUncounted(p, t, e)
    case Ended(Some(b)) => forall e :: EndedAs(done, t, e) <==> e == EndingOf(b)
  }

  lemma OneStepMore(done: seq<Step>, step: Step)
    ensures forall t, e :: EndedAs(done + [step], t, e) <==> EndedAs(done, t, e) || step == Unlist(t, e)
  {
  }

  lemma StepTraced(p: Plan, s: State, done: seq<Step>, step: Step, t: TaskId)
    requires Inv(p, s) && Enabled(p, s, step) && PlannedFailure(p, step) && Traced(p, s, done, t)
    ensures Traced(p, Apply(p, s, step), done + [step], t)
  {
    if OfReader(step) || t != step.t { OtherTraced(p, s, done, step, t); } else { OwnTraced(p, s, done, step); }
  }

  lemma OtherTraced(p: Plan, s: State, done: seq<Step>, step: Step, t: TaskId)
    requires Enabled(p, s, step) && Traced(p, s, done, t) && (OfReader(step) || t != step.t)
    ensures Traced(p, Apply(p, s, step), done + [step], t)
  {
    OneStepMore(done, step);
    StepPhase(p, s, step);
    assert Apply(p, s, step).PhaseOf(t) == s.PhaseOf(t);
    forall e ensures EndedAs(done + [step], t, e) <==> EndedAs(done, t, e) {}
  }

  lemma OwnTraced(p: Plan, s: State, done: seq<Step>, step: Step)
    requires Inv(p, s) && Enabled(p, s, step) && PlannedFailure(p, step) && !OfReader(step)
    requires Traced(p, s, done, step.t)
    ensures Traced(p, Apply(p, s, step), done + [step], step.t)
  {
    OneStepMore(done, step);
    assert ListedAt(p, s, step.t);
  }

  lemma {:induction false} RunTraced(p: Plan, states: seq<State>, steps: seq<Step>, i: nat, t: TaskId)
    requires p.Valid() && IsRun(p, states, steps) && PlannedFailures(p, steps) && i < |states|
    ensures Traced(p, states[i], steps[..i], t)
  {
    if i > 0 {
      RunTraced(p, states, steps, i - 1, t);
      RunInv(p, states, steps, i - 1);
      assert steps[..i] == steps[..i - 1] + [steps[i - 1]];
      assert Enabled(p, states[i - 1], steps[i - 1]) && states[i] == Apply(p, states[i - 1], steps[i - 1]);
      StepTraced(p, states[i - 1], steps[..i - 1], steps[i - 1], t);
    }
  }

  /** The planned tasks whose call has come to its end and that were taken off the list with that ending. */
  ghost function Reported(p: Plan, s: State, done: seq<Step>, e: Ending): set<TaskId> {
    set t | t in p.waveOf && EndedAs(done, t, e) && s.PhaseOf(t).Ended?
  }

  lemma SelectedAreReported(p: Plan, states: seq<State>, steps: seq<Step>, i: nat, b: Bucket)
    requires p.Valid() && IsRun(p, states, steps) && PlannedFailures(p, steps) && i < |states| && AtRest(states[i])
    ensures
      var s, reported := states[i], Reported(p, states[i], steps[..i], EndingOf(b));
      Select(p.waveOf.Keys, s.GlobalBuckets(), b) == reported &&
      forall w :: Select(TasksOfWave(p, w), s.WaveBuckets(), b) == OfWave(p, reported, w)
  {
    var s, reported := states[i], Reported(p, states[i], steps[..i], EndingOf(b));
    forall t ensures s.GlobalBuckets()(t) == s.WaveBuckets()(t)
             ensures t in p.waveOf ==> (s.GlobalBuckets()(t) == Some(b) <==> t in reported)
    {
      RunTraced(p, states, steps, i, t);
      assert !s.PhaseOf(t).HalfCounted?;
    }
  }

  /**
   * At rest the counters are the numbers of planned tasks whose call has ended: `done` of those that
   * ran, `skipped` of local cache hits, `sharedHits` of shared ones, `failed` of failures; over the
   * whole plan, and wave by wave.
   */
  lemma CountsByOutcome(p: Plan, states: seq<State>, steps: seq<Step>, i: nat)
    requires p.Valid() && IsRun(p, states, steps) && PlannedFailures(p, steps) && i < |states| && AtRest(states[i])
    ensures
      var s, done := states[i], steps[..i];
      s.count.done == |Reported(p, s, done, Finish(Ran))| &&
      s.count.skipped == |Reported(p, s, done, Finish(SkippedLocalCache))| &&
      s.count.sharedHits == |Reported(p, s, done, Finish(SharedCacheHit))| &&
      s.count.failed == |Reported(p, s, done, Fail)|
    ensures
      var s, done := states[i], steps[..i];
      |s.waves| == p.totalWaves &&
      forall w :: 0 <= w < p.totalWaves ==>
        s.waves[w].done == |OfWave(p, Reported(p, s, done, Finish(Ran)), w)| &&
        s.waves[w].skipped == |OfWave(p, Reported(p, s, done, Finish(SkippedLocalCache)), w)| &&
        s.waves[w].sharedHits == |OfWave(p, Reported(p, s, done, Finish(SharedCacheHit)), w)| &&
        s.waves[w].failed == |OfWave(p, Reported(p, s, done, Fail), w)|
  {
    RunInv(p, states, steps, i);
    SelectedAreReported(p, states, steps, i, Done);
    SelectedAreReported(p, states, steps, i, Skipped);
    SelectedAreReported(p, states, steps, i, SharedHits);
    SelectedAreReported(p, states, steps, i, Failed);
    var s := states[i];
    assert s.count.done == s.count.Get(Done) && s.count.skipped == s.count.Get(Skipped);
    assert s.count.sharedHits == s.count.Get(SharedHits) && s.count.failed == s.count.Get(Failed);
    forall w | 0 <= w < p.totalWaves
      ensures s.waves[w].done == s.waves[w].Get(Done) && s.waves[w].skipped == s.waves[w].Get(Skipped)
      ensures s.waves[w].sharedHits == s.waves[w].Get(SharedHits) && s.waves[w].failed == s.waves[w].Get(Failed)
      ensures Tallies(s.waves[w], TasksOfWave(p, w), s.WaveBuckets())
    {
    }
  }
}
