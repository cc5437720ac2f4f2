/**
 * The progress reporter under concurrency. Each reporting method is cut into its atomic sub-steps:
 * one step per critical section and one per atomic counter. The steps of different tasks and of
 * the status line interleave freely.
 */
module Progress {
  import opened Basics
  import opened Tasks

  // ---------------------------------------------------------------- plan and state

  /** The planned tasks with their waves. */
  datatype Plan = Plan(waveOf: map<TaskId, nat>, totalWaves: nat) {
    predicate Valid() {
      forall t :: t in waveOf ==> waveOf[t] < totalWaves
    }
  }

  datatype Bucket = Done | Skipped | Failed | SharedHits

  /** The order in which the status line loads the counters. */
  const LoadOrder: seq<Bucket> := [Done, Skipped, Failed, SharedHits]

  /** One counter per bucket. */
  datatype Tally = Tally(done: nat, skipped: nat, failed: nat, sharedHits: nat) {
    function Get(b: Bucket): nat {
      match b
      case Done => done
      case Skipped => skipped
      case Failed => failed
      case SharedHits => sharedHits
    }

    function Add(b: Bucket): Tally {
      match b
      case Done => this.(done := done + 1)
      case Skipped => this.(skipped := skipped + 1)
      case Failed => this.(failed := failed + 1)
      case SharedHits => this.(sharedHits := sharedHits + 1)
    }

    function Sum(): nat { done + skipped + failed + sharedHits }
  }

  const NoneYet := Tally(0, 0, 0, 0)

  datatype TaskOutcome = Ran | SkippedLocalCache | SharedCacheHit | Uncounted

  function BucketOf(o: TaskOutcome): Option<Bucket> {
    match o
    case Ran => Some(Done)
    case SkippedLocalCache => Some(Skipped)
    case SharedCacheHit => Some(SharedHits)
    case Uncounted => None
  }

  /** How a task ends. */
  datatype Ending = Finish(outcome: TaskOutcome) | Fail

  /** How far the calls about one task have come. */
  datatype Phase =
    | Idle
    | Started
    | WithSink
    | Unlisted(ending: Ending)
    | SinkGone(ending: Ending)
    | Entered
    | HalfCounted(bucket: Bucket)
    | Ended(counted: Option<Bucket>)

  /** The status line while it holds the running lock: what it has loaded, and what there was at first. */
  datatype Reading = Reading(loaded: seq<nat>, atStart: Tally, running: set<TaskId>)

  datatype State = State(
    phase: map<TaskId, Phase>,
    running: set<TaskId>,
    sinks: set<TaskId>,
    failedTasks: set<TaskId>,
    failedHolder: Option<TaskId>,
    count: Tally,
    waves: seq<Tally>,
    reading: Option<Reading>)
  {
    function PhaseOf(t: TaskId): Phase {
      if t in phase then phase[t] else Idle
    }

    /** For each task the global counter, and the wave counter, raised for it so far. */
    function GlobalBuckets(): TaskId -> Option<Bucket> {
      t => GlobalBucket(PhaseOf(t))
    }

    function WaveBuckets(): TaskId -> Option<Bucket> {
      t => WaveBucket(PhaseOf(t))
    }

    function To(t: TaskId, ph: Phase): State {
      this.(phase := phase[t := ph])
    }
  }

  function Init(p: Plan): State {
    State(map[], {}, {}, {}, None, NoneYet, seq(p.totalWaves, i => NoneYet), None)
  }

  // ---------------------------------------------------------------- steps

  datatype Step =
    | StartInsert(t: TaskId)
    | SinkInsert(t: TaskId)
    | Unlist(t: TaskId, ending: Ending)
    | SinkRemove(t: TaskId)
    | Settle(t: TaskId)
    | Enter(t: TaskId)
    | CountFirst(t: TaskId)
    | CountSecond(t: TaskId)
    | LockRunning
    | Load
    | UnlockRunning

  /** An ending that never reaches a counter: uncounted outcomes, and tasks outside the plan. */
  predicate StaysUncounted(p: Plan, t: TaskId, e: Ending) {
    e.Finish? && (e.outcome == Uncounted || t !in p.waveOf)
  }

  /**
   * When a step may happen. The running lock excludes starts and endings while the status line
   * holds it. A task starts at most once and before it ends, and ends at most once.
   */
  predicate Enabled(p: Plan, s: State, step: Step) {
    p.Valid() && |s.waves| == p.totalWaves &&
    match step
    case StartInsert(t) => s.PhaseOf(t) == Idle && s.reading.None?
    case SinkInsert(t) => s.PhaseOf(t) == Started
    case Unlist(t, e) =>
      (s.PhaseOf(t) == Idle || s.PhaseOf(t) == Started || s.PhaseOf(t) == WithSink) && s.reading.None?
    case SinkRemove(t) => s.PhaseOf(t).Unlisted?
    case Settle(t) => s.PhaseOf(t).SinkGone? && StaysUncounted(p, t, s.PhaseOf(t).ending)
    case Enter(t) => s.PhaseOf(t) == SinkGone(Fail) && s.failedHolder.None?
    case CountFirst(t) =>
      s.PhaseOf(t) == Entered ||
      (s.PhaseOf(t).SinkGone? && s.PhaseOf(t).ending.Finish? && !StaysUncounted(p, t, s.PhaseOf(t).ending))
    case CountSecond(t) => s.PhaseOf(t).HalfCounted?
    case LockRunning => s.reading.None?
    case Load => s.reading.Some? && |s.reading.value.loaded| < 4
    case UnlockRunning => s.reading.Some? && |s.reading.value.loaded| == 4
  }

  function AddGlobal(s: State, b: Bucket): State {
    s.(count := s.count.Add(b))
  }

  function AddWave(s: State, b: Bucket, w: nat): State
    requires w < |s.waves|
  {
    s.(waves := s.waves[w := s.waves[w].Add(b)])
  }

  function Apply(p: Plan, s: State, step: Step): State
    requires Enabled(p, s, step)
  {
    match step
    case StartInsert(t) =>
      s.(running := if t in p.waveOf then s.running + {t} else s.running).To(t, Started)
    case SinkInsert(t) =>
      s.(sinks := if t in p.waveOf then s.sinks + {t} else s.sinks).To(t, WithSink)
    case Unlist(t, e) =>
      s.(running := s.running - {t}).To(t, Unlisted(e))
    case SinkRemove(t) =>
      s.(sinks := s.sinks - {t}).To(t, SinkGone(s.PhaseOf(t).ending))
    case Settle(t) =>
      s.To(t, Ended(None))
    case Enter(t) =>
      if t in s.failedTasks then s.To(t, Ended(None))
      else s.(failedTasks := s.failedTasks + {t}, failedHolder := Some(t)).To(t, Entered)
    case CountFirst(t) =>
      if s.PhaseOf(t) == Entered then AddGlobal(s, Failed).To(t, HalfCounted(Failed))
      else
        var b := BucketOf(s.PhaseOf(t).ending.outcome).value;
        AddWave(s, b, p.waveOf[t]).To(t, HalfCounted(b))
    case CountSecond(t) =>
      var b := s.PhaseOf(t).bucket;
      if b == Failed then
        var s' := if t in p.waveOf then AddWave(s, b, p.waveOf[t]) else s;
        s'.(failedHolder := None).To(t, Ended(Some(b)))
      else AddGlobal(s, b).To(t, Ended(Some(b)))
    case LockRunning =>
      s.(reading := Some(Reading([], s.count, s.running)))
    case Load =>
      var r := s.reading.value;
      s.(reading := Some(r.(loaded := r.loaded + [s.count.Get(LoadOrder[|r.loaded|])])))
    case UnlockRunning =>
      s.(reading := None)
  }

  // ---------------------------------------------------------------- which tasks a counter stands for

  /** The global counter that has been raised for a task in this phase. */
  function GlobalBucket(ph: Phase): Option<Bucket> {
    match ph
    case Ended(counted) => counted
    case HalfCounted(b) => if b == Failed then Some(b) else None
    case _ => None
  }

  /** The wave counter that has been raised for a task in this phase. */
  function WaveBucket(ph: Phase): Option<Bucket> {
    match ph
    case Ended(counted) => counted
    case HalfCounted(b) => if b == Failed then None else Some(b)
    case _ => None
  }

  predicate IsRunning(ph: Phase) {
    ph == Started || ph == WithSink
  }

  type Assignment = TaskId -> Option<Bucket>

  function Select(tasks: set<TaskId>, f: Assignment, b: Bucket): set<TaskId> {
    set t | t in tasks && f(t) == Some(b)
  }

  function SelectAny(tasks: set<TaskId>, f: Assignment): set<TaskId> {
    set t | t in tasks && f(t).Some?
  }

  /** The counters stand for the tasks that were assigned to them. */
  ghost predicate Tallies(tally: Tally, tasks: set<TaskId>, f: Assignment) {
    forall b :: tally.Get(b) == |Select(tasks, f, b)|
  }

  ghost predicate SameExcept(f: Assignment, g: Assignment, t: TaskId) {
    forall u :: u != t ==> g(u) == f(u)
  }

  lemma TallyKept(tally: Tally, tasks: set<TaskId>, f: Assignment, g: Assignment, t: TaskId)
    requires Tallies(tally, tasks, f) && SameExcept(f, g, t) && (t !in tasks || g(t) == f(t))
    ensures Tallies(tally, tasks, g)
  {
    forall b ensures Select(tasks, g, b) == Select(tasks, f, b) {}
  }

  lemma TallyAdded(tally: Tally, tasks: set<TaskId>, f: Assignment, g: Assignment, t: TaskId, c: Bucket)
    requires Tallies(tally, tasks, f) && SameExcept(f, g, t) && t in tasks && f(t) == None && g(t) == Some(c)
    ensures Tallies(tally.Add(c), tasks, g)
  {
    forall b ensures tally.Add(c).Get(b) == |Select(tasks, g, b)| {
      assert tally.Get(b) == |Select(tasks, f, b)| && t !in Select(tasks, f, b);
      if b == c {
        assert Select(tasks, g, b) == Select(tasks, f, b) + {t};
      } else {
        assert Select(tasks, g, b) == Select(tasks, f, b);
      }
    }
  }

  /** The sum of the counters is the number of tasks assigned to any: none is counted twice. */
  lemma TallySum(tally: Tally, tasks: set<TaskId>, f: Assignment)
    requires Tallies(tally, tasks, f)
    ensures tally.Sum() == |SelectAny(tasks, f)|
  {
    assert tally.Get(Done) == |Select(tasks, f, Done)| && tally.Get(Skipped) == |Select(tasks, f, Skipped)|;
    assert tally.Get(Failed) == |Select(tasks, f, Failed)| && tally.Get(SharedHits) == |Select(tasks, f, SharedHits)|;
    SelectUnion(tasks, f);
  }

  lemma SelectUnion(tasks: set<TaskId>, f: Assignment)
    ensures |SelectAny(tasks, f)| == |Select(tasks, f, Done)| + |Select(tasks, f, Skipped)| +
                                     |Select(tasks, f, Failed)| + |Select(tasks, f, SharedHits)|
  {
    var a, b := Select(tasks, f, Done), Select(tasks, f, Skipped);
    var c, d := Select(tasks, f, Failed), Select(tasks, f, SharedHits);
    forall x, y | x != y ensures Select(tasks, f, x) !! Select(tasks, f, y) {}
    forall t ensures t in SelectAny(tasks, f) <==> t in a || t in b || t in c || t in d {
      if f(t).Some? { match f(t).value { case Done => case Skipped => case Failed => case SharedHits => } }
    }
    FourDisjoint(SelectAny(tasks, f), a, b, c, d);
  }

  lemma FourDisjoint(all: set<TaskId>, a: set<TaskId>, b: set<TaskId>, c: set<TaskId>, d: set<TaskId>)
    requires a !! b && a !! c && a !! d && b !! c && b !! d && c !! d
    requires forall t :: t in all <==> t in a || t in b || t in c || t in d
    ensures |all| == |a| + |b| + |c| + |d|
  {
    assert (a + b) !! c && (a + b + c) !! d;
    assert all == a + b + c + d;
  }

  function OfWave(p: Plan, tasks: set<TaskId>, w: nat): set<TaskId> {
    set t | t in tasks && t in p.waveOf && p.waveOf[t] == w
  }

  function TasksOfWave(p: Plan, w: nat): set<TaskId> {
    OfWave(p, p.waveOf.Keys, w)
  }

  // ---------------------------------------------------------------- the invariant

  ghost predicate ReadingOk(s: State, r: Reading) {
    r.running == s.running && |r.loaded| <= 4 &&
    (forall b :: r.atStart.Get(b) <= s.count.Get(b)) &&
    forall i :: 0 <= i < |r.loaded| ==> r.atStart.Get(LoadOrder[i]) <= r.loaded[i] <= s.count.Get(LoadOrder[i])
  }

  ghost predicate Counted(p: Plan, s: State) {
    |s.waves| == p.totalWaves && Tallies(s.count, p.waveOf.Keys, s.GlobalBuckets()) &&
    forall w :: 0 <= w < p.totalWaves ==> Tallies(s.waves[w], TasksOfWave(p, w), s.WaveBuckets())
  }

  /** The three shared sets say of a task what its phase says. */
  predicate ListedAt(p: Plan, s: State, t: TaskId) {
    var ph := s.PhaseOf(t);
    (t in s.running <==> t in p.waveOf && IsRunning(ph)) &&
    (t in s.failedTasks <==> ph == Entered || ph == HalfCounted(Failed) || ph == Ended(Some(Failed))) &&
    (t in s.sinks ==> ph == WithSink || ph.Unlisted?) &&
    (Counting(ph) ==> t in p.waveOf)
  }

  ghost predicate Listed(p: Plan, s: State) {
    forall t :: ListedAt(p, s, t)
  }

  /** Phases that lead to a counter, or are past one. */
  predicate Counting(ph: Phase) {
    ph == Unlisted(Fail) || ph == SinkGone(Fail) || ph == Entered || ph.HalfCounted? || (ph.Ended? && ph.counted.Some?)
  }

  /** Every failure reported is that of a planned task. */
  predicate PlannedFailure(p: Plan, step: Step) {
    step.Unlist? && step.ending == Fail ==> step.t in p.waveOf
  }

  ghost predicate Inv(p: Plan, s: State) {
    p.Valid() && Counted(p, s) && Listed(p, s) && (s.reading.Some? ==> ReadingOk(s, s.reading.value))
  }

  lemma InitInv(p: Plan)
    requires p.Valid()
    ensures Inv(p, Init(p))
  {
    var s := Init(p);
    forall tasks, b ensures Select(tasks, s.GlobalBuckets(), b) == {} && Select(tasks, s.WaveBuckets(), b) == {} {}
  }

  // ---------------------------------------------------------------- every step keeps the invariant

  /** Which counter a step raises for its task. */
  lemma Moved(s: State, t: TaskId, ph: Phase, s': State)
    requires s'.phase == s.phase[t := ph]
    ensures SameExcept(s.GlobalBuckets(), s'.GlobalBuckets(), t) && SameExcept(s.WaveBuckets(), s'.WaveBuckets(), t)
    ensures s'.GlobalBuckets()(t) == GlobalBucket(ph) && s'.WaveBuckets()(t) == WaveBucket(ph)
  {
  }

  /** A counter is raised exactly when the phase of the task says so. */
  ghost predicate GlobalMove(p: Plan, s: State, t: TaskId, ph: Phase, s': State) {
    if GlobalBucket(s.PhaseOf(t)) == GlobalBucket(ph) then s'.count == s.count
    else t in p.waveOf && GlobalBucket(s.PhaseOf(t)) == None && s'.count == s.count.Add(GlobalBucket(ph).value)
  }

  ghost predicate WaveMove(p: Plan, s: State, t: TaskId, ph: Phase, s': State)
    requires p.Valid() && |s.waves| == p.totalWaves
  {
    if WaveBucket(s.PhaseOf(t)) == WaveBucket(ph) then s'.waves == s.waves
    else t in p.waveOf && WaveBucket(s.PhaseOf(t)) == None &&
         s'.waves == s.waves[p.waveOf[t] := s.waves[p.waveOf[t]].Add(WaveBucket(ph).value)]
  }

  lemma GlobalStep(p: Plan, s: State, t: TaskId, ph: Phase, s': State)
    requires Counted(p, s) && s'.phase == s.phase[t := ph] && GlobalMove(p, s, t, ph, s')
    ensures Tallies(s'.count, p.waveOf.Keys, s'.GlobalBuckets())
  {
    Moved(s, t, ph, s');
    if GlobalBucket(s.PhaseOf(t)) == GlobalBucket(ph) {
      TallyKept(s.count, p.waveOf.Keys, s.GlobalBuckets(), s'.GlobalBuckets(), t);
    } else {
      TallyAdded(s.count, p.waveOf.Keys, s.GlobalBuckets(), s'.GlobalBuckets(), t, GlobalBucket(ph).value);
    }
  }

  lemma WaveStep(p: Plan, s: State, t: TaskId, ph: Phase, s': State, w: nat)
    requires p.Valid() && Counted(p, s) && s'.phase == s.phase[t := ph] && WaveMove(p, s, t, ph, s') && w < p.totalWaves
    ensures |s'.waves| == p.totalWaves && Tallies(s'.waves[w], TasksOfWave(p, w), s'.WaveBuckets())
  {
    Moved(s, t, ph, s');
    if WaveBucket(s.PhaseOf(t)) == WaveBucket(ph) || t !in TasksOfWave(p, w) {
      TallyKept(s.waves[w], TasksOfWave(p, w), s.WaveBuckets(), s'.WaveBuckets(), t);
    } else {
      TallyAdded(s.waves[w], TasksOfWave(p, w), s.WaveBuckets(), s'.WaveBuckets(), t, WaveBucket(ph).value);
    }
  }

  predicate OfReader(step: Step) {
    step.LockRunning? || step.Load? || step.UnlockRunning?
  }

  lemma ReaderCounted(p: Plan, s: State, s': State)
    requires Counted(p, s) && s'.phase == s.phase && s'.count == s.count && s'.waves == s.waves
    ensures Counted(p, s')
  {
    forall tasks, b ensures Select(tasks, s'.GlobalBuckets(), b) == Select(tasks, s.GlobalBuckets(), b) {}
    forall tasks, b ensures Select(tasks, s'.WaveBuckets(), b) == Select(tasks, s.WaveBuckets(), b) {}
  }

  lemma TaskCounted(p: Plan, s: State, t: TaskId, ph: Phase, s': State)
    requires p.Valid() && Counted(p, s) && s'.phase == s.phase[t := ph]
    requires GlobalMove(p, s, t, ph, s') && WaveMove(p, s, t, ph, s')
    ensures Counted(p, s')
  {
    GlobalStep(p, s, t, ph, s');
    forall w | 0 <= w < p.totalWaves
      ensures |s'.waves| == p.totalWaves && Tallies(s'.waves[w], TasksOfWave(p, w), s'.WaveBuckets())
    {
      WaveStep(p, s, t, ph, s', w);
    }
  }

  lemma StepGlobalMove(p: Plan, s: State, step: Step)
    requires Inv(p, s) && Enabled(p, s, step) && PlannedFailure(p, step) && !OfReader(step)
    ensures GlobalMove(p, s, step.t, Apply(p, s, step).PhaseOf(step.t), Apply(p, s, step))
  {
    assert ListedAt(p, s, step.t);
  }

  lemma StepWaveMove(p: Plan, s: State, step: Step)
    requires Inv(p, s) && Enabled(p, s, step) && PlannedFailure(p, step) && !OfReader(step)
    ensures WaveMove(p, s, step.t, Apply(p, s, step).PhaseOf(step.t), Apply(p, s, step))
  {
    assert ListedAt(p, s, step.t);
  }

  lemma StepPhase(p: Plan, s: State, step: Step)
    requires Enabled(p, s, step)
    ensures
      var s' := Apply(p, s, step);
      if OfReader(step) then s'.phase == s.phase && s'.count == s.count && s'.waves == s.waves
      else s'.phase == s.phase[step.t := s'.PhaseOf(step.t)]
  {
  }

  lemma StepCounted(p: Plan, s: State, step: Step)
    requires Inv(p, s) && Enabled(p, s, step) && PlannedFailure(p, step)
    ensures Counted(p, Apply(p, s, step))
  {
    var s' := Apply(p, s, step);
    StepPhase(p, s, step);
    if OfReader(step) {
      ReaderCounted(p, s, s');
    } else {
      StepGlobalMove(p, s, step);
      StepWaveMove(p, s, step);
      TaskCounted(p, s, step.t, s'.PhaseOf(step.t), s');
    }
  }

  lemma OthersListed(p: Plan, s: State, step: Step, t: TaskId)
    requires Inv(p, s) && Enabled(p, s, step) && (OfReader(step) || t != step.t)
    ensures ListedAt(p, Apply(p, s, step), t)
  {
    assert ListedAt(p, s, t);
    assert Apply(p, s, step).PhaseOf(t) == s.PhaseOf(t);
  }

  lemma TaskListed(p: Plan, s: State, step: Step)
    requires Inv(p, s) && Enabled(p, s, step) && PlannedFailure(p, step) && !OfReader(step)
    ensures ListedAt(p, Apply(p, s, step), step.t)
  {
    assert ListedAt(p, s, step.t);
  }

  lemma StepListed(p: Plan, s: State, step: Step)
    requires Inv(p, s) && Enabled(p, s, step) && PlannedFailure(p, step)
    ensures Listed(p, Apply(p, s, step))
  {
    var s' := Apply(p, s, step);
    forall t ensures ListedAt(p, s', t) {
      if OfReader(step) || t != step.t { OthersListed(p, s, step, t); } else { TaskListed(p, s, step); }
    }
  }

  lemma StepReading(p: Plan, s: State, step: Step)
    requires Inv(p, s) && Enabled(p, s, step) && PlannedFailure(p, step)
    ensures
      var s' := Apply(p, s, step);
      s'.reading.Some? ==> ReadingOk(s', s'.reading.value)
  {
    var s' := Apply(p, s, step);
    assert forall b :: s.count.Get(b) <= s'.count.Get(b);
  }

  lemma StepInv(p: Plan, s: State, step: Step)
    requires Inv(p, s) && Enabled(p, s, step) && PlannedFailure(p, step)
    ensures Inv(p, Apply(p, s, step))
  {
    StepCounted(p, s, step);
    StepListed(p, s, step);
    StepReading(p, s, step);
  }

  // ---------------------------------------------------------------- whole runs

  /** A run: the initial state, then one enabled step after another, in any order. */
  ghost predicate IsRun(p: Plan, states: seq<State>, steps: seq<Step>) {
    |states| == |steps| + 1 && states[0] == Init(p) &&
    forall i :: 0 <= i < |steps| ==> Enabled(p, states[i], steps[i]) && states[i + 1] == Apply(p, states[i], steps[i])
  }

  ghost predicate PlannedFailures(p: Plan, steps: seq<Step>) {
    forall i :: 0 <= i < |steps| ==> PlannedFailure(p, steps[i])
  }

  lemma {:induction false} RunInv(p: Plan, states: seq<State>, steps: seq<Step>, i: nat)
    requires p.Valid() && IsRun(p, states, steps) && PlannedFailures(p, steps) && i < |states|
    ensures Inv(p, states[i])
  {
    if i == 0 { InitInv(p); } else {
      RunInv(p, states, steps, i - 1);
      StepInv(p, states[i - 1], steps[i - 1]);
    }
  }

  // ---------------------------------------------------------------- counts at every moment

  lemma DisjointSize(a: set<TaskId>, b: set<TaskId>, all: set<TaskId>)
    requires a !! b && a <= all && b <= all
    ensures |a| + |b| <= |all|
  {
    assert |a + b| == |a| + |b|;
    SubsetSize(a + b, all);
  }

  /** At any moment: no task is counted twice, and none is counted while it runs. */
  lemma CountsAreDisjoint(p: Plan, s: State)
    requires Inv(p, s)
    ensures s.count.Sum() == |SelectAny(p.waveOf.Keys, s.GlobalBuckets())|
    ensures SelectAny(p.waveOf.Keys, s.GlobalBuckets()) !! s.running
    ensures s.count.Sum() + |s.running| <= |p.waveOf|
  {
    TallySum(s.count, p.waveOf.Keys, s.GlobalBuckets());
    var counted := SelectAny(p.waveOf.Keys, s.GlobalBuckets());
    forall t ensures (t in s.running ==> t in p.waveOf) && !(t in counted && t in s.running) {
      assert ListedAt(p, s, t);
    }
    DisjointSize(counted, s.running, p.waveOf.Keys);
  }

  function Pending(total: nat, counted: nat, running: nat): nat {
    if counted + running <= total then total - (counted + running) else 0
  }

  function Loaded(r: Reading): nat
    requires |r.loaded| == 4
  {
    r.loaded[0] + r.loaded[1] + r.loaded[2] + r.loaded[3]
  }

  lemma LoadedBetween(s: State, r: Reading)
    requires ReadingOk(s, r) && |r.loaded| == 4
    ensures r.atStart.Sum() <= Loaded(r) <= s.count.Sum()
  {
    assert r.atStart.Get(LoadOrder[0]) <= r.loaded[0] <= s.count.Get(LoadOrder[0]);
    assert r.atStart.Get(LoadOrder[1]) <= r.loaded[1] <= s.count.Get(LoadOrder[1]);
    assert r.atStart.Get(LoadOrder[2]) <= r.loaded[2] <= s.count.Get(LoadOrder[2]);
    assert r.atStart.Get(LoadOrder[3]) <= r.loaded[3] <= s.count.Get(LoadOrder[3]);
  }

  /**
   * A status line, taken under the running lock with the counters loaded one by one: no task is
   * counted twice, so the subtraction never saturates, and the pending count lies between what was
   * pending when the lock was released and what was pending when it was taken.
   */
  lemma StatusLine(p: Plan, states: seq<State>, steps: seq<Step>, i: nat)
    requires p.Valid() && IsRun(p, states, steps) && PlannedFailures(p, steps) && i < |steps| && steps[i].UnlockRunning?
    ensures
      var s, total := states[i], |p.waveOf|;
      s.reading.Some? && |s.reading.value.loaded| == 4 &&
      var r := s.reading.value;
      Loaded(r) + |s.running| <= total &&
      Pending(total, s.count.Sum(), |s.running|) <= Pending(total, Loaded(r), |s.running|)
        <= Pending(total, r.atStart.Sum(), |r.running|)
  {
    assert Enabled(p, states[i], steps[i]);
    RunInv(p, states, steps, i);
    CountsAreDisjoint(p, states[i]);
    LoadedBetween(states[i], states[i].reading.value);
  }

  // ---------------------------------------------------------------- waves

  function SumTo(f: nat -> nat, n: nat): nat {
    if n == 0 then 0 else SumTo(f, n - 1) + f(n - 1)
  }

  function BelowWave(p: Plan, tasks: set<TaskId>, n: nat): set<TaskId> {
    set t | t in tasks && t in p.waveOf && p.waveOf[t] < n
  }

  /** Tasks of a valid plan split over the waves. */
  lemma {:induction false} WavesPartition(p: Plan, tasks: set<TaskId>, f: nat -> nat, n: nat)
    requires forall w :: 0 <= w < n ==> f(w) == |OfWave(p, tasks, w)|
    ensures SumTo(f, n) == |BelowWave(p, tasks, n)|
  {
    if n == 0 {
      NoWave(p, tasks);
    } else {
      WavesPartition(p, tasks, f, n - 1);
      OneWaveMore(p, tasks, n - 1);
      assert f(n - 1) == |OfWave(p, tasks, n - 1)|;
    }
  }

  lemma NoWave(p: Plan, tasks: set<TaskId>)
    ensures BelowWave(p, tasks, 0) == {}
  {
  }

  lemma OneWaveMore(p: Plan, tasks: set<TaskId>, w: nat)
    ensures |BelowWave(p, tasks, w + 1)| == |BelowWave(p, tasks, w)| + |OfWave(p, tasks, w)|
  {
    var a, b, c := BelowWave(p, tasks, w), OfWave(p, tasks, w), BelowWave(p, tasks, w + 1);
    forall t ensures (t in c <==> t in a || t in b) && !(t in a && t in b) {}
    assert c == a + b;
  }

  function WaveCounter(s: State, b: Bucket): nat -> nat {
    (w: nat) => if w < |s.waves| then s.waves[w].Get(b) else 0
  }

  /** No call is in the middle of its two counters. */
  ghost predicate AtRest(s: State) {
    forall t :: !s.PhaseOf(t).HalfCounted?
  }

  /** At rest the wave counters of every bucket add up to its global counter. */
  lemma WaveSums(p: Plan, states: seq<State>, steps: seq<Step>, i: nat, b: Bucket)
    requires p.Valid() && IsRun(p, states, steps) && PlannedFailures(p, steps) && i < |states| && AtRest(states[i])
    ensures SumTo(WaveCounter(states[i], b), p.totalWaves) == states[i].count.Get(b)
  {
    var s := states[i];
    RunInv(p, states, steps, i);
    var tasks := Select(p.waveOf.Keys, s.WaveBuckets(), b);
    forall w: nat | w < p.totalWaves ensures WaveCounter(s, b)(w) == |OfWave(p, tasks, w)| {
      WaveCounterAt(p, s, b, w);
    }
    WavesPartition(p, tasks, WaveCounter(s, b), p.totalWaves);
    assert BelowWave(p, tasks, p.totalWaves) == tasks;
    GlobalAtRest(p, s, b);
  }

  lemma WaveCounterAt(p: Plan, s: State, b: Bucket, w: nat)
    requires Counted(p, s) && w < p.totalWaves
    ensures WaveCounter(s, b)(w) == |OfWave(p, Select(p.waveOf.Keys, s.WaveBuckets(), b), w)|
  {
    var here := Select(TasksOfWave(p, w), s.WaveBuckets(), b);
    assert Tallies(s.waves[w], TasksOfWave(p, w), s.WaveBuckets());
    assert s.waves[w].Get(b) == |here|;
    assert OfWave(p, Select(p.waveOf.Keys, s.WaveBuckets(), b), w) == here;
  }

  lemma GlobalAtRest(p: Plan, s: State, b: Bucket)
    requires Counted(p, s) && AtRest(s)
    ensures s.count.Get(b) == |Select(p.waveOf.Keys, s.WaveBuckets(), b)|
  {
    forall t ensures s.WaveBuckets()(t) == s.GlobalBuckets()(t) { assert !s.PhaseOf(t).HalfCounted?; }
    assert Select(p.waveOf.Keys, s.WaveBuckets(), b) == Select(p.waveOf.Keys, s.GlobalBuckets(), b);
  }

  /** Counts the planned tasks of every wave; wave indices out of range are ignored. */
  method WaveTotals(p: Plan) returns (totals: seq<nat>)
    ensures |totals| == p.totalWaves
    ensures forall w :: 0 <= w < |totals| ==> totals[w] == |TasksOfWave(p, w)|
  {
    totals := seq(p.totalWaves, i => 0);
    var rest := p.waveOf.Keys;
    ghost var seen: set<TaskId> := {};
    while rest != {}
      invariant |totals| == p.totalWaves && rest !! seen && rest + seen == p.waveOf.Keys
      invariant forall w :: 0 <= w < |totals| ==> totals[w] == |OfWave(p, seen, w)|
      decreases |rest|
    {
      var t :| t in rest;
      forall w: nat ensures |OfWave(p, seen + {t}, w)| == |OfWave(p, seen, w)| + if w == p.waveOf[t] then 1 else 0 {
        OfWaveInsert(p, seen, t, w);
      }
      if p.waveOf[t] < |totals| { totals := totals[p.waveOf[t] := totals[p.waveOf[t]] + 1]; }
      rest, seen := rest - {t}, seen + {t};
    }
    assert seen == p.waveOf.Keys;
  }

  lemma OfWaveInsert(p: Plan, tasks: set<TaskId>, t: TaskId, w: nat)
    requires t !in tasks && t in p.waveOf
    ensures |OfWave(p, tasks + {t}, w)| == |OfWave(p, tasks, w)| + if w == p.waveOf[t] then 1 else 0
  {
    if w == p.waveOf[t] {
      assert OfWave(p, tasks + {t}, w) == OfWave(p, tasks, w) + {t};
    } else {
      assert OfWave(p, tasks + {t}, w) == OfWave(p, tasks, w);
    }
  }

  /** In a valid plan the totals of the waves add up to the number of planned tasks. */
  lemma TotalTasks(p: Plan, totals: nat -> nat)
    requires p.Valid() && forall w :: 0 <= w < p.totalWaves ==> totals(w) == |TasksOfWave(p, w)|
    ensures SumTo(totals, p.totalWaves) == |p.waveOf|
  {
    WavesPartition(p, p.waveOf.Keys, totals, p.totalWaves);
    assert BelowWave(p, p.waveOf.Keys, p.totalWaves) == p.waveOf.Keys;
  }

  ghost predicate WaveDone(p: Plan, s: State, w: nat) {
    forall t :: t in TasksOfWave(p, w) ==> WaveBucket(s.PhaseOf(t)).Some?
  }

  /** At any moment the counters of a wave add up to its total exactly when each of its tasks has reached one. */
  lemma WaveFilled(p: Plan, s: State, w: nat)
    requires Inv(p, s) && w < p.totalWaves
    ensures |s.waves| == p.totalWaves && s.waves[w].Sum() <= |TasksOfWave(p, w)|
    ensures s.waves[w].Sum() == |TasksOfWave(p, w)| <==> WaveDone(p, s, w)
  {
    var all := TasksOfWave(p, w);
    TallySum(s.waves[w], all, s.WaveBuckets());
    SubsetSize(SelectAny(all, s.WaveBuckets()), all);
    assert SelectAny(all, s.WaveBuckets()) == all <==> WaveDone(p, s, w) by {
      assert forall t :: t in SelectAny(all, s.WaveBuckets()) <==> t in all && WaveBucket(s.PhaseOf(t)).Some?;
    }
  }

  lemma WaveCounterGrows(p: Plan, s: State, step: Step, w: nat, b: Bucket)
    requires Inv(p, s) && Enabled(p, s, step) && w < p.totalWaves
    ensures |Apply(p, s, step).waves| == p.totalWaves && s.waves[w].Get(b) <= Apply(p, s, step).waves[w].Get(b)
  {
  }

  lemma {:induction false} WaveCounterMonotone(p: Plan, states: seq<State>, steps: seq<Step>, i: nat, j: nat, w: nat,
                                               b: Bucket)
    requires p.Valid() && IsRun(p, states, steps) && PlannedFailures(p, steps) && i <= j < |states| && w < p.totalWaves
    ensures |states[i].waves| == |states[j].waves| == p.totalWaves
    ensures states[i].waves[w].Get(b) <= states[j].waves[w].Get(b)
    decreases j - i
  {
    if i < j {
      WaveCounterMonotone(p, states, steps, i, j - 1, w, b);
      WaveCounterStep(p, states, steps, j - 1, w, b);
    } else {
      RunInv(p, states, steps, j);
    }
  }

  lemma WaveCounterStep(p: Plan, states: seq<State>, steps: seq<Step>, j: nat, w: nat, b: Bucket)
    requires p.Valid() && IsRun(p, states, steps) && PlannedFailures(p, steps) && j + 1 < |states| && w < p.totalWaves
    ensures |states[j].waves| == |states[j + 1].waves| == p.totalWaves
    ensures states[j].waves[w].Get(b) <= states[j + 1].waves[w].Get(b)
  {
    RunInv(p, states, steps, j);
    RunInv(p, states, steps, j + 1);
    assert Enabled(p, states[j], steps[j]) && states[j + 1] == Apply(p, states[j], steps[j]);
    WaveCounterGrows(p, states[j], steps[j], w, b);
  }

  /** The order in which the four counters of a wave are loaded. */
  const WaveLoadOrder: seq<Bucket> := [Done, Skipped, SharedHits, Failed]

  /** The moments of the loads: four for each wave, wave after wave, other threads stepping in between. */
  ghost predicate LoadTimes(states: seq<State>, waves: nat, times: seq<nat>) {
    |times| == 4 * waves && (forall i, j :: 0 <= i <= j < |times| ==> times[i] <= times[j]) &&
    forall i :: 0 <= i < |times| ==> times[i] < |states|
  }

  ghost function LoadAt(states: seq<State>, times: seq<nat>, w: nat, c: nat): nat
    requires c < 4 && 4 * w + c < |times| && times[4 * w + c] < |states|
  {
    WaveCounter(states[times[4 * w + c]], WaveLoadOrder[c])(w)
  }

  ghost function LoadedSum(states: seq<State>, times: seq<nat>, w: nat): nat
    requires 4 * w + 3 < |times| && forall i :: 0 <= i < |times| ==> times[i] < |states|
  {
    LoadAt(states, times, w, 0) + LoadAt(states, times, w, 1) + LoadAt(states, times, w, 2) +
    LoadAt(states, times, w, 3)
  }

  /** One load lies between the counter at the start of the scan and at its end. */
  lemma LoadBetween(p: Plan, states: seq<State>, steps: seq<Step>, times: seq<nat>, w: nat, c: nat, i: nat, j: nat)
    requires p.Valid() && IsRun(p, states, steps) && PlannedFailures(p, steps) && LoadTimes(states, p.totalWaves, times)
    requires w < p.totalWaves && c < 4 && i <= times[4 * w + c] <= j < |states|
    ensures |states[times[4 * w + c]].waves| == |states[i].waves| == |states[j].waves| == p.totalWaves
    ensures states[i].waves[w].Get(WaveLoadOrder[c]) <= LoadAt(states, times, w, c)
    ensures LoadAt(states, times, w, c) <= states[j].waves[w].Get(WaveLoadOrder[c])
  {
    WaveCounterMonotone(p, states, steps, i, times[4 * w + c], w, WaveLoadOrder[c]);
    WaveCounterMonotone(p, states, steps, times[4 * w + c], j, w, WaveLoadOrder[c]);
  }

  ghost predicate RunsAlong(p: Plan, states: seq<State>, steps: seq<Step>, times: seq<nat>) {
    p.Valid() && IsRun(p, states, steps) && PlannedFailures(p, steps) && LoadTimes(states, p.totalWaves, times)
  }

  /** Shown as completed: the four loads add up to the total. */
  ghost predicate ShownComplete(p: Plan, states: seq<State>, steps: seq<Step>, times: seq<nat>, w: nat)
    requires RunsAlong(p, states, steps, times) && w < p.totalWaves
  {
    LoadedSum(states, times, w) == |TasksOfWave(p, w)|
  }

  /**
   * A wave whose tasks were all counted when the scan began is shown as completed, and a wave shown
   * as completed has all its tasks counted when the scan ends, although its four counters are loaded
   * one after another while others are raised.
   */
  lemma WaveCompletion(p: Plan, states: seq<State>, steps: seq<Step>, times: seq<nat>, w: nat, i: nat, j: nat)
    requires RunsAlong(p, states, steps, times) && w < p.totalWaves && j < |states|
    requires i <= times[4 * w] && times[4 * w + 3] <= j
    ensures WaveDone(p, states[i], w) ==> ShownComplete(p, states, steps, times, w)
    ensures ShownComplete(p, states, steps, times, w) ==> WaveDone(p, states[j], w)
  {
    RunInv(p, states, steps, i);
    RunInv(p, states, steps, j);
    WaveFilled(p, states[i], w);
    WaveFilled(p, states[j], w);
    LoadsBetween(p, states, steps, times, w, i, j);
  }

  /** The four loads add up to something between the sums at the start and at the end. */
  lemma LoadsBetween(p: Plan, states: seq<State>, steps: seq<Step>, times: seq<nat>, w: nat, i: nat, j: nat)
    requires RunsAlong(p, states, steps, times) && w < p.totalWaves && j < |states|
    requires i <= times[4 * w] && times[4 * w + 3] <= j
    ensures |states[i].waves| == |states[j].waves| == p.totalWaves
    ensures states[i].waves[w].Sum() <= LoadedSum(states, times, w) <= states[j].waves[w].Sum()
  {
    LoadBetween(p, states, steps, times, w, 0, i, j);
    LoadBetween(p, states, steps, times, w, 1, i, j);
    LoadBetween(p, states, steps, times, w, 2, i, j);
    LoadBetween(p, states, steps, times, w, 3, i, j);
  }

  ghost function CompletedWaves(p: Plan, states: seq<State>, steps: seq<Step>, times: seq<nat>): set<nat>
    requires RunsAlong(p, states, steps, times)
  {
    set w: nat | w < p.totalWaves && ShownComplete(p, states, steps, times, w)
  }

  ghost function DoneWaves(p: Plan, s: State): set<nat> {
    set w: nat | w < p.totalWaves && WaveDone(p, s, w)
  }

  /** The number of completed waves lies between the true numbers at the first and at the last load. */
  lemma CompletedBetween(p: Plan, states: seq<State>, steps: seq<Step>, times: seq<nat>, i: nat, j: nat)
    requires RunsAlong(p, states, steps, times) && i < |states| && j < |states|
    requires forall k :: 0 <= k < |times| ==> i <= times[k] <= j
    ensures |DoneWaves(p, states[i])| <= |CompletedWaves(p, states, steps, times)| <= |DoneWaves(p, states[j])|
  {
    forall w: nat | w < p.totalWaves
      ensures w in DoneWaves(p, states[i]) ==> w in CompletedWaves(p, states, steps, times)
      ensures w in CompletedWaves(p, states, steps, times) ==> w in DoneWaves(p, states[j])
    {
      WaveCompletion(p, states, steps, times, w, i, j);
    }
    SubsetSize(DoneWaves(p, states[i]), CompletedWaves(p, states, steps, times));
    SubsetSize(CompletedWaves(p, states, steps, times), DoneWaves(p, states[j]));
  }

  // ---------------------------------------------------------------- exactly which failures the counts bear

  /** Only tasks of the given set fail. */
  ghost predicate FailsWithin(steps: seq<Step>, failing: iset<TaskId>) {
    forall i :: 0 <= i < |steps| && steps[i].Unlist? && steps[i].ending == Fail ==> steps[i].t in failing
  }

  ghost predicate NeverOvercounts(p: Plan, states: seq<State>) {
    forall i :: 0 <= i < |states| ==> states[i].count.Sum() + |states[i].running| <= |p.waveOf|
  }

  /** No status line counts more than the planned tasks, so no subtraction saturates. */
  ghost predicate LinesHold(p: Plan, states: seq<State>, steps: seq<Step>)
    requires IsRun(p, states, steps)
  {
    forall i :: 0 <= i < |steps| && steps[i].UnlockRunning? ==> LineHolds(p, states[i])
  }

  predicate LineHolds(p: Plan, s: State) {
    s.reading.Some? && |s.reading.value.loaded| == 4 ==> Loaded(s.reading.value) + |s.running| <= |p.waveOf|
  }

  /** The run that starts the given planned tasks one after the other. */
  lemma {:induction false} StartAll(p: Plan, tasks: set<TaskId>) returns (states: seq<State>, steps: seq<Step>)
    requires p.Valid() && tasks <= p.waveOf.Keys
    ensures IsRun(p, states, steps) && FailsWithin(steps, iset{})
    ensures
      var s := states[|steps|];
      s.running == tasks && s.count == NoneYet && s.failedTasks == {} && s.failedHolder == None && s.reading == None &&
      |s.waves| == p.totalWaves && forall t :: t !in tasks ==> s.PhaseOf(t) == Idle
  {
    if tasks == {} {
      states, steps := [Init(p)], [];
    } else {
      var t :| t in tasks;
      states, steps := StartAll(p, tasks - {t});
      states, steps := Extend(p, states, steps, StartInsert(t), iset{});
    }
  }

  lemma Extend(p: Plan, states: seq<State>, steps: seq<Step>, step: Step, failing: iset<TaskId>)
    returns (states': seq<State>, steps': seq<Step>)
    requires IsRun(p, states, steps) && Enabled(p, states[|steps|], step)
    ensures IsRun(p, states', steps') && steps' == steps + [step] && states' == states + [states'[|steps'|]]
    ensures states'[|steps'|] == Apply(p, states[|steps|], step)
    ensures FailsWithin(steps, failing) && (step.Unlist? && step.ending == Fail ==> step.t in failing) ==>
              FailsWithin(steps', failing)
  {
    states', steps' := states + [Apply(p, states[|steps|], step)], steps + [step];
  }

  /**
   * For every plan and every task outside it there is a run in which that task alone fails and the
   * counts exceed the total.
   */
  lemma UnplannedFailureOvercounts(p: Plan, t: TaskId) returns (states: seq<State>, steps: seq<Step>)
    requires p.Valid() && t !in p.waveOf
    ensures IsRun(p, states, steps) && FailsWithin(steps, iset{t})
    ensures
      var s := states[|steps|];
      s.count.Sum() + |s.running| > |p.waveOf| && s.reading == None && |s.waves| == p.totalWaves
  {
    states, steps := StartAll(p, p.waveOf.Keys);
    assert FailsWithin(steps, iset{t});
    states, steps := Extend(p, states, steps, Unlist(t, Fail), iset{t});
    states, steps := Extend(p, states, steps, SinkRemove(t), iset{t});
    assert states[|steps|].running == p.waveOf.Keys;
    states, steps := FailureCounted(p, states, steps, t);
  }

  lemma FailureCounted(p: Plan, states: seq<State>, steps: seq<Step>, t: TaskId)
    returns (states': seq<State>, steps': seq<Step>)
    requires IsRun(p, states, steps) && p.Valid() && t !in p.waveOf && |states[|steps|].waves| == p.totalWaves
    requires states[|steps|].PhaseOf(t) == SinkGone(Fail) && states[|steps|].failedHolder == None
    requires t !in states[|steps|].failedTasks && states[|steps|].reading == None && FailsWithin(steps, iset{t})
    ensures IsRun(p, states', steps') && FailsWithin(steps', iset{t})
    ensures states'[|steps'|].count.Sum() == states[|steps|].count.Sum() + 1
    ensures states'[|steps'|].running == states[|steps|].running && states'[|steps'|].reading == None
    ensures |states'[|steps'|].waves| == p.totalWaves
  {
    states', steps' := Extend(p, states, steps, Enter(t), iset{t});
    states', steps' := Extend(p, states', steps', CountFirst(t), iset{t});
  }

  /** A status line read while nothing else happens shows the counters as they are. */
  lemma ReadLine(p: Plan, states: seq<State>, steps: seq<Step>, failing: iset<TaskId>)
    returns (states': seq<State>, steps': seq<Step>)
    requires IsRun(p, states, steps) && p.Valid() && FailsWithin(steps, failing)
    requires states[|steps|].reading == None && |states[|steps|].waves| == p.totalWaves
    ensures IsRun(p, states', steps') && FailsWithin(steps', failing) && steps' != [] &&
            steps'[|steps'| - 1].UnlockRunning?
    ensures
      var s, s' := states[|steps|], states'[|steps'| - 1];
      s'.running == s.running && s'.reading.Some? && |s'.reading.value.loaded| == 4 &&
      Loaded(s'.reading.value) == s.count.Sum()
  {
    states', steps' := Extend(p, states, steps, LockRunning, failing);
    states', steps' := LoadOne(p, states', steps', failing);
    states', steps' := LoadOne(p, states', steps', failing);
    states', steps' := LoadOne(p, states', steps', failing);
    states', steps' := LoadOne(p, states', steps', failing);
    ghost var last := states'[|steps'|];
    states', steps' := Extend(p, states', steps', UnlockRunning, failing);
    assert states'[|steps'| - 1] == last;
  }

  lemma LoadOne(p: Plan, states: seq<State>, steps: seq<Step>, failing: iset<TaskId>)
    returns (states': seq<State>, steps': seq<Step>)
    requires IsRun(p, states, steps) && p.Valid() && FailsWithin(steps, failing) &&
             |states[|steps|].waves| == p.totalWaves
    requires states[|steps|].reading.Some? && |states[|steps|].reading.value.loaded| < 4
    ensures IsRun(p, states', steps') && FailsWithin(steps', failing)
    ensures
      var s, s' := states[|steps|], states'[|steps'|];
      var r := s.reading.value;
      s' == s.(reading := Some(r.(loaded := r.loaded + [s.count.Get(LoadOrder[|r.loaded|])])))
  {
    states', steps' := Extend(p, states, steps, Load, failing);
  }

  lemma PlannedNeverOvercounts(p: Plan, failing: iset<TaskId>, states: seq<State>, steps: seq<Step>)
    requires p.Valid() && (forall t :: t in failing ==> t in p.waveOf)
    requires IsRun(p, states, steps) && FailsWithin(steps, failing)
    ensures NeverOvercounts(p, states) && LinesHold(p, states, steps)
  {
    forall i | 0 <= i < |states| ensures states[i].count.Sum() + |states[i].running| <= |p.waveOf| {
      RunInv(p, states, steps, i);
      CountsAreDisjoint(p, states[i]);
    }
    forall i | 0 <= i < |steps| && steps[i].UnlockRunning? ensures LineHolds(p, states[i]) {
      StatusLine(p, states, steps, i);
    }
  }

  /**
   * Exactly which failures the counts bear: in every state of every run whose failing tasks lie in a
   * given set the counted and running tasks do not exceed the total, if and only if the whole set is
   * planned.
   */
  lemma NeverOvercountsExactly(p: Plan, failing: iset<TaskId>)
    requires p.Valid()
    ensures (forall states, steps :: IsRun(p, states, steps) && FailsWithin(steps, failing) ==>
               NeverOvercounts(p, states)) <==>
            forall t :: t in failing ==> t in p.waveOf
  {
    if forall t :: t in failing ==> t in p.waveOf {
      forall states, steps | IsRun(p, states, steps) && FailsWithin(steps, failing) ensures NeverOvercounts(p, states) {
        PlannedNeverOvercounts(p, failing, states, steps);
      }
    } else {
      var t :| t in failing && t !in p.waveOf;
      var states, steps := UnplannedFailureOvercounts(p, t);
      assert IsRun(p, states, steps) && FailsWithin(steps, failing) && !NeverOvercounts(p, states);
    }
  }

  /** The same of what is displayed: every status line of every such run holds if and only if the set is planned. */
  lemma StatusLinesExactly(p: Plan, failing: iset<TaskId>)
    requires p.Valid()
    ensures (forall states, steps :: IsRun(p, states, steps) && FailsWithin(steps, failing) ==>
               LinesHold(p, states, steps)) <==>
            forall t :: t in failing ==> t in p.waveOf
  {
    if forall t :: t in failing ==> t in p.waveOf {
      forall states, steps | IsRun(p, states, steps) && FailsWithin(steps, failing)
        ensures LinesHold(p, states, steps)
      {
        PlannedNeverOvercounts(p, failing, states, steps);
      }
    } else {
      var t :| t in failing && t !in p.waveOf;
      var states, steps := UnplannedFailureOvercounts(p, t);
      states, steps := ReadLine(p, states, steps, iset{t});
      assert IsRun(p, states, steps) && FailsWithin(steps, failing) && !LineHolds(p, states[|steps| - 1]);
    }
  }
}
