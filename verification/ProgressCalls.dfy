/** The shared sets and the failure lock of the progress reporter, told from the steps of any run. */
module ProgressCalls {
  import opened Basics
  import opened Tasks
  import opened Progress

  /** The call that ends the task has taken it off the list. */
  ghost predicate TakenOff(done: seq<Step>, t: TaskId) {
    exists e :: Unlist(t, e) in done
  }

  /** Between taking the lock of the failed tasks and giving it back. */
  predicate InFailureSection(ph: Phase) {
    ph == Entered || ph == HalfCounted(Failed)
  }

  predicate SinkDropped(ph: Phase) {
    ph.SinkGone? || ph == Entered || ph.HalfCounted? || ph.Ended?
  }

  /** What the steps so far say about one task, its phase and its place in the shared sets. */
  ghost predicate Told(p: Plan, s: State, done: seq<Step>, t: TaskId) {
    var ph := s.PhaseOf(t);
    (TakenOff(done, t) <==> ph != Idle && !IsRunning(ph)) &&
    (IsRunning(ph) <==> StartInsert(t) in done && !TakenOff(done, t)) &&
    (ph == WithSink ==> SinkInsert(t) in done) && (SinkInsert(t) in done ==> ph != Idle && ph != Started) &&
    (SinkRemove(t) in done <==> SinkDropped(ph)) &&
    (Enter(t) in done <==> InFailureSection(ph) || ph == Ended(Some(Failed))) &&
    (t in s.running <==> t in p.waveOf && IsRunning(ph)) &&
    (t in s.sinks <==> t in p.waveOf && SinkInsert(t) in done && SinkRemove(t) !in done) &&
    (t in s.failedTasks <==> Enter(t) in done) &&
    (s.failedHolder == Some(t) <==> InFailureSection(ph))
  }

  ghost predicate AllTold(p: Plan, s: State, done: seq<Step>) {
    |s.waves| == p.totalWaves && forall t :: Told(p, s, done, t)
  }

  lemma OneStepMore(done: seq<Step>, step: Step)
    ensures forall other :: other in done + [step] <==> other in done || other == step
    ensures forall t :: TakenOff(done + [step], t) <==> TakenOff(done, t) || (step.Unlist? && step.t == t)
  {
    forall t | step.Unlist? && step.t == t ensures TakenOff(done + [step], t) {
      assert Unlist(t, step.ending) in done + [step];
    }
    forall t | TakenOff(done, t) ensures TakenOff(done + [step], t) {
      var e :| Unlist(t, e) in done;
      assert Unlist(t, e) in done + [step];
    }
  }

  lemma OthersTold(p: Plan, s: State, done: seq<Step>, step: Step, t: TaskId)
    requires Enabled(p, s, step) && AllTold(p, s, done) && (OfReader(step) || t != step.t)
    ensures Told(p, Apply(p, s, step), done + [step], t)
  {
    OneStepMore(done, step);
    assert Told(p, s, done, t);
    assert !OfReader(step) ==> Told(p, s, done, step.t);
    assert Apply(p, s, step).PhaseOf(t) == s.PhaseOf(t);
  }

  lemma OwnTold(p: Plan, s: State, done: seq<Step>, step: Step)
    requires Enabled(p, s, step) && AllTold(p, s, done) && !OfReader(step)
    ensures Told(p, Apply(p, s, step), done + [step], step.t)
  {
    OneStepMore(done, step);
    assert Told(p, s, done, step.t);
  }

  lemma {:induction false} RunTold(p: Plan, states: seq<State>, steps: seq<Step>, i: nat)
    requires IsRun(p, states, steps) && i < |states|
    ensures AllTold(p, states[i], steps[..i])
  {
    if i > 0 {
      RunTold(p, states, steps, i - 1);
      var s, done, step := states[i - 1], steps[..i - 1], steps[i - 1];
      assert steps[..i] == done + [step] && states[i] == Apply(p, s, step);
      forall t ensures Told(p, states[i], steps[..i], t) {
        if OfReader(step) || t != step.t { OthersTold(p, s, done, step, t); } else { OwnTold(p, s, done, step); }
      }
    }
  }

  /**
   * At every moment of every run the running list holds the planned tasks that were started and not
   * taken off, the sinks are those handed in for planned tasks and not removed, and the failed tasks
   * are those that entered the failure section.
   */
  lemma SetsExactly(p: Plan, states: seq<State>, steps: seq<Step>, i: nat, t: TaskId)
    requires IsRun(p, states, steps) && i < |states|
    ensures
      var s, done := states[i], steps[..i];
      (t in s.running <==> t in p.waveOf && StartInsert(t) in done && !TakenOff(done, t)) &&
      (t in s.sinks <==> t in p.waveOf && SinkInsert(t) in done && SinkRemove(t) !in done) &&
      (t in s.failedTasks <==> Enter(t) in done)
  {
    RunTold(p, states, steps, i);
    assert Told(p, states[i], steps[..i], t);
  }

  /** The failure lock is held by the one task in the failure section; there are never two. */
  lemma OneInFailureSection(p: Plan, states: seq<State>, steps: seq<Step>, i: nat, t: TaskId)
    requires IsRun(p, states, steps) && i < |states| && InFailureSection(states[i].PhaseOf(t))
    ensures states[i].failedHolder == Some(t)
    ensures forall u :: InFailureSection(states[i].PhaseOf(u)) ==> u == t
  {
    RunTold(p, states, steps, i);
    assert Told(p, states[i], steps[..i], t);
    forall u ensures InFailureSection(states[i].PhaseOf(u)) ==> u == t { assert Told(p, states[i], steps[..i], u); }
  }

  /** While the status line is not reading, a task may end once, started or not, and start once before that. */
  lemma MayStartAndEnd(p: Plan, states: seq<State>, steps: seq<Step>, i: nat, t: TaskId, e: Ending)
    requires p.Valid() && IsRun(p, states, steps) && i < |states| && states[i].reading.None?
    ensures
      var s, done := states[i], steps[..i];
      (Enabled(p, s, StartInsert(t)) <==> StartInsert(t) !in done && !TakenOff(done, t)) &&
      (Enabled(p, s, Unlist(t, e)) <==> !TakenOff(done, t))
  {
    RunTold(p, states, steps, i);
    assert Told(p, states[i], steps[..i], t);
  }

  // ---------------------------------------------------------------- no call gets stuck

  /** Steps that may follow a state one after another. */
  ghost predicate Follow(p: Plan, s: State, steps: seq<Step>)
    decreases |steps|
  {
    steps == [] || (Enabled(p, s, steps[0]) && Follow(p, Apply(p, s, steps[0]), steps[1..]))
  }

  ghost function After(p: Plan, s: State, steps: seq<Step>): State
    requires Follow(p, s, steps)
    decreases |steps|
  {
    if steps == [] then s else After(p, Apply(p, s, steps[0]), steps[1..])
  }

  lemma {:induction false} FollowOn(p: Plan, s: State, a: seq<Step>, b: seq<Step>)
    requires Follow(p, s, a) && Follow(p, After(p, s, a), b)
    ensures Follow(p, s, a + b) && After(p, s, a + b) == After(p, After(p, s, a), b)
    decreases |a|
  {
    if a == [] {
      assert a + b == b;
    } else {
      FollowOn(p, Apply(p, s, a[0]), a[1..], b);
      assert (a + b)[0] == a[0] && (a + b)[1..] == a[1..] + b;
    }
  }

  /** An ending call that has not come to its end. */
  predicate Open(ph: Phase) {
    ph.Unlisted? || ph.SinkGone? || ph == Entered || ph.HalfCounted?
  }

  function StepsLeft(ph: Phase): nat {
    match ph
    case Unlisted(_) => 4
    case SinkGone(_) => 3
    case Entered => 2
    case HalfCounted(_) => 1
    case _ => 0
  }

  function NextStep(p: Plan, s: State, t: TaskId): Step
    requires Open(s.PhaseOf(t))
  {
    match s.PhaseOf(t)
    case Unlisted(_) => SinkRemove(t)
    case SinkGone(e) => if StaysUncounted(p, t, e) then Settle(t) else if e == Fail then Enter(t) else CountFirst(t)
    case Entered => CountFirst(t)
    case HalfCounted(_) => CountSecond(t)
  }

  /** The failure lock is free, or held by the task, which is then in its section. */
  predicate Unblocked(s: State, t: TaskId) {
    s.failedHolder == if InFailureSection(s.PhaseOf(t)) then Some(t) else None
  }

  lemma NextStepFits(p: Plan, s: State, t: TaskId)
    requires p.Valid() && |s.waves| == p.totalWaves && Open(s.PhaseOf(t)) && Unblocked(s, t)
    ensures Enabled(p, s, NextStep(p, s, t))
    ensures
      var s' := Apply(p, s, NextStep(p, s, t));
      |s'.waves| == p.totalWaves && Unblocked(s', t) && StepsLeft(s'.PhaseOf(t)) < StepsLeft(s.PhaseOf(t)) &&
      (Open(s'.PhaseOf(t)) || s'.PhaseOf(t).Ended?) && forall u :: u != t ==> s'.PhaseOf(u) == s.PhaseOf(u)
  {
  }

  lemma {:induction false} Finish(p: Plan, s: State, t: TaskId) returns (more: seq<Step>)
    requires p.Valid() && |s.waves| == p.totalWaves && Open(s.PhaseOf(t)) && Unblocked(s, t)
    ensures forall step :: step in more ==> !OfReader(step) && step.t == t
    ensures Follow(p, s, more) && |more| <= StepsLeft(s.PhaseOf(t))
    ensures
      var s' := After(p, s, more);
      |s'.waves| == p.totalWaves && s'.PhaseOf(t).Ended? && s'.failedHolder.None? &&
      forall u :: u != t ==> s'.PhaseOf(u) == s.PhaseOf(u)
    decreases StepsLeft(s.PhaseOf(t))
  {
    var step := NextStep(p, s, t);
    NextStepFits(p, s, t);
    var s' := Apply(p, s, step);
    if s'.PhaseOf(t).Ended? {
      more := [step];
      assert more[1..] == [];
    } else {
      var rest := Finish(p, s', t);
      more := [step] + rest;
      assert more[1..] == rest;
    }
  }

  /**
   * No ending call gets stuck: from every state of every run, at most four steps of its own and four
   * of the task that holds the failure lock bring it to its end, whatever the others do not do.
   */
  lemma CallsComplete(p: Plan, states: seq<State>, steps: seq<Step>, i: nat, t: TaskId) returns (more: seq<Step>)
    requires p.Valid() && IsRun(p, states, steps) && i < |states|
    requires Open(states[i].PhaseOf(t))
    ensures |more| <= 8
    ensures forall step :: step in more ==> !OfReader(step) && (step.t == t || states[i].failedHolder == Some(step.t))
    ensures Follow(p, states[i], more) && After(p, states[i], more).PhaseOf(t).Ended?
  {
    var s := states[i];
    RunTold(p, states, steps, i);
    assert Told(p, s, steps[..i], t);
    if Unblocked(s, t) {
      more := Finish(p, s, t);
    } else {
      var u := s.failedHolder.value;
      assert Told(p, s, steps[..i], u);
      var first := Finish(p, s, u);
      var rest := Finish(p, After(p, s, first), t);
      FollowOn(p, s, first, rest);
      more := first + rest;
    }
  }
}
