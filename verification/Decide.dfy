/** The decision to skip or run a task, and the decision to restore it from the shared cache. */
module Decide {
  import opened Basics
  import opened FileEntries
  import opened FilesDiff

  /** The part of a run record that the decisions read. */
  datatype TaskRunRecord = TaskRunRecord(
    taskSpecHash: Digest,
    inputPatterns: seq<Str>,
    inputs: seq<FileEntry>,
    outputPatterns: seq<Str>,
    outputs: seq<FileEntry>,
    detectedInputPatterns: bool,
    detectedOutputPatterns: bool,
    outputsHash: Digest,
    envHash: Digest,
    pkgDepHash: Digest,
    depOutputs: map<Str, Digest>,
    succeeded: bool,
    cacheNonce: Option<Str>)

  /** Resolution of patterns to files, given earlier entries to reuse; None is a resolution error. */
  type Resolver = (seq<Str>, seq<FileEntry>) -> Option<seq<FileEntry>>

  datatype CurrentState = CurrentState(
    taskSpecHash: Digest,
    envHash: Digest,
    pkgDepHash: Digest,
    depOutputs: map<Str, Digest>,
    cacheNonce: Option<Str>,
    declaredInputPatterns: seq<Str>,
    declaredOutputPatterns: seq<Str>,
    resolveInputs: Resolver,
    resolveOutputs: Resolver)

  datatype RunReason =
    | NoPriorRecord
    | PriorFailed
    | NonceChanged
    | TaskSpecMismatch
    | DepOutputMismatch(tasks: seq<Str>)
    | PkgDepMismatch
    | EnvMismatch
    | InputChanged(changed: seq<FileDelta>, truncated: bool, changeCount: nat)
    | OutputChanged(changed: seq<FileDelta>, truncated: bool, changeCount: nat)

  datatype Decision = Skip | Run(reason: RunReason)

  const DiffLimit: nat := 50

  // ---------------------------------------------------------------- the local decision

  function MismatchedTasks(prior: map<Str, Digest>, current: map<Str, Digest>, keys: seq<Str>): seq<Str> {
    if keys == [] then []
    else
      var rest := MismatchedTasks(prior, current, keys[..|keys| - 1]);
      var last := keys[|keys| - 1];
      if last in prior && last in current && prior[last] == current[last] then rest else rest + [last]
  }

  /** The dependencies whose hash changed or went away, then the new ones. */
  function ChangedDepTasks(prior: map<Str, Digest>, current: map<Str, Digest>): seq<Str> {
    MismatchedTasks(prior, current, Ascending(prior.Keys)) + Ascending(current.Keys - prior.Keys)
  }

  method CollectChangedDepTasks(prior: map<Str, Digest>, current: map<Str, Digest>) returns (changed: seq<Str>)
    ensures changed == ChangedDepTasks(prior, current)
  {
    var keys, mismatched := Ascending(current.Keys), MismatchedTasks(prior, current, Ascending(prior.Keys));
    changed := mismatched;
    for i := 0 to |keys|
      invariant changed == mismatched + Without(keys[..i], Ascending(prior.Keys))
    {
      assert keys[..i + 1][..i] == keys[..i];
      assert keys[i] in prior <==> keys[i] in Ascending(prior.Keys) by { AscendingIsOrdered(prior.Keys); }
      if keys[i] !in prior { changed := changed + [keys[i]]; }
    }
    assert keys[..|keys|] == keys;
    WithoutIsDifference(current.Keys, prior.Keys);
  }

  /** The two maps do not both have the same hash under that name. */
  predicate DepDiffers(prior: map<Str, Digest>, current: map<Str, Digest>, k: Str) {
    (k in prior || k in current) && !(k in prior && k in current && prior[k] == current[k])
  }

  lemma {:induction false} MismatchedTasksContents(prior: map<Str, Digest>, current: map<Str, Digest>, keys: seq<Str>,
                                                   k: Str)
    requires forall x :: x in keys ==> x in prior
    ensures k in MismatchedTasks(prior, current, keys) <==> k in keys && DepDiffers(prior, current, k)
  {
    if keys != [] {
      var init, last := keys[..|keys| - 1], keys[|keys| - 1];
      MismatchedTasksContents(prior, current, init, k);
      assert k in keys <==> k in init || k == last;
    }
  }

  /** A dependency is listed as changed exactly when its hash differs, came or went. */
  lemma ChangedDepTasksContents(prior: map<Str, Digest>, current: map<Str, Digest>, k: Str)
    ensures k in ChangedDepTasks(prior, current) <==> DepDiffers(prior, current, k)
  {
    AscendingIsOrdered(prior.Keys);
    AscendingIsOrdered(current.Keys - prior.Keys);
    MismatchedTasksContents(prior, current, Ascending(prior.Keys), k);
  }

  /** No dependency is listed exactly when the two maps are equal. */
  lemma ChangedDepTasksEmpty(prior: map<Str, Digest>, current: map<Str, Digest>)
    ensures ChangedDepTasks(prior, current) == [] <==> prior == current
  {
    var changed := ChangedDepTasks(prior, current);
    forall k ensures k in changed <==> DepDiffers(prior, current, k) {
      ChangedDepTasksContents(prior, current, k);
    }
    if changed != [] {
      assert changed[0] in changed;
    } else {
      assert forall k :: k in prior || k in current ==> !DepDiffers(prior, current, k);
    }
  }

  function EffectivePatterns(detected: bool, recorded: seq<Str>, declared: seq<Str>): seq<Str> {
    if detected then recorded else declared
  }

  function EffectiveInputPatterns(prior: TaskRunRecord, current: CurrentState): seq<Str> {
    EffectivePatterns(prior.detectedInputPatterns, prior.inputPatterns, current.declaredInputPatterns)
  }

  function EffectiveOutputPatterns(prior: TaskRunRecord, current: CurrentState): seq<Str> {
    EffectivePatterns(prior.detectedOutputPatterns, prior.outputPatterns, current.declaredOutputPatterns)
  }

  function DeltasBetween(prior: seq<FileEntry>, current: seq<FileEntry>): seq<FileDelta> {
    AllDeltas(IndexByPath(prior), IndexByPath(current))
  }

  function Truncate(deltas: seq<FileDelta>): seq<FileDelta> {
    deltas[..Min(DiffLimit, |deltas|)]
  }

  function Count(deltas: seq<FileDelta>): nat {
    Min(|deltas|, U32Max)
  }

  function OutputChange(prior: TaskRunRecord, current: CurrentState): Option<RunReason> {
    match current.resolveOutputs(EffectiveOutputPatterns(prior, current), prior.outputs)
    case None => Some(OutputChanged([], false, 0))
    case Some(entries) =>
      var deltas := DeltasBetween(prior.outputs, entries);
      if Count(deltas) == 0 then None
      else Some(OutputChanged(Truncate(deltas), Count(deltas) > DiffLimit, Count(deltas)))
  }

  function InputChange(prior: TaskRunRecord, current: CurrentState): Option<RunReason> {
    match current.resolveInputs(EffectiveInputPatterns(prior, current), prior.inputs)
    case None => Some(InputChanged([], false, 0))
    case Some(entries) =>
      var deltas := DeltasBetween(prior.inputs, entries);
      if Count(deltas) == 0 then None
      else Some(InputChanged(Truncate(deltas), Count(deltas) > DiffLimit, Count(deltas)))
  }

  /** First mismatch wins. */
  function DecideRun(prior: Option<TaskRunRecord>, current: CurrentState): Decision {
    if prior.None? then Run(NoPriorRecord)
    else
      var r := prior.value;
      var changedDeps := ChangedDepTasks(r.depOutputs, current.depOutputs);
      if !r.succeeded then Run(PriorFailed)
      else if r.cacheNonce != current.cacheNonce then Run(NonceChanged)
      else if r.taskSpecHash != current.taskSpecHash then Run(TaskSpecMismatch)
      else if changedDeps != [] then Run(DepOutputMismatch(changedDeps))
      else if r.pkgDepHash != current.pkgDepHash then Run(PkgDepMismatch)
      else if r.envHash != current.envHash then Run(EnvMismatch)
      else if OutputChange(r, current).Some? then Run(OutputChange(r, current).value)
      else if InputChange(r, current).Some? then Run(InputChange(r, current).value)
      else Skip
  }

  // ---------------------------------------------------------------- the shared decision

  predicate CacheablePrior(prior: TaskRunRecord, current: CurrentState) {
    prior.succeeded
    && prior.cacheNonce == current.cacheNonce
    && prior.taskSpecHash == current.taskSpecHash
    && prior.envHash == current.envHash
    && prior.pkgDepHash == current.pkgDepHash
    && prior.depOutputs == current.depOutputs
  }

  /** May a record found under `inputsHash` be restored? No file is looked at. */
  predicate DecideSharedRestore(h: Str -> Digest, record: TaskRunRecord, current: CurrentState, inputsHash: Digest) {
    CacheablePrior(record, current) && CombinedHash(h, InputsDomain, record.inputs) == inputsHash
  }

  // ---------------------------------------------------------------- the two agree

  /** The ordered checks come to the same facts as the conjunction, plus the two file comparisons. */
  lemma SkipMeaning(r: TaskRunRecord, current: CurrentState)
    ensures DecideRun(Some(r), current) == Skip <==>
            CacheablePrior(r, current) && OutputChange(r, current).None? && InputChange(r, current).None?
    ensures CacheablePrior(r, current) && OutputChange(r, current).Some? ==>
            DecideRun(Some(r), current) == Run(OutputChange(r, current).value)
  {
    ChangedDepTasksEmpty(r.depOutputs, current.depOutputs);
  }

  ghost predicate FilesDiffer(resolved: Option<seq<FileEntry>>, recorded: seq<FileEntry>) {
    resolved.None? || Disagreements(IndexByPath(recorded), IndexByPath(resolved.value)) != {}
  }

  /** The mismatches in their documented order of precedence, counted from 1. */
  ghost predicate Mismatch(k: nat, prior: Option<TaskRunRecord>, current: CurrentState) {
    if prior.None? then k == 1
    else
      var r := prior.value;
      match k
      case 2 => !r.succeeded
      case 3 => r.cacheNonce != current.cacheNonce
      case 4 => r.taskSpecHash != current.taskSpecHash
      case 5 => r.depOutputs != current.depOutputs
      case 6 => r.pkgDepHash != current.pkgDepHash
      case 7 => r.envHash != current.envHash
      case 8 => OutputChange(r, current).Some?
      case 9 => InputChange(r, current).Some?
      case _ => false
  }

  function Precedence(d: Decision): nat {
    match d
    case Skip => 10
    case Run(NoPriorRecord) => 1
    case Run(PriorFailed) => 2
    case Run(NonceChanged) => 3
    case Run(TaskSpecMismatch) => 4
    case Run(DepOutputMismatch(_)) => 5
    case Run(PkgDepMismatch) => 6
    case Run(EnvMismatch) => 7
    case Run(OutputChanged(_, _, _)) => 8
    case Run(InputChanged(_, _, _)) => 9
  }

  lemma ChangeKinds(r: TaskRunRecord, current: CurrentState)
    ensures OutputChange(r, current).Some? ==> OutputChange(r, current).value.OutputChanged?
    ensures InputChange(r, current).Some? ==> InputChange(r, current).value.InputChanged?
  {
  }

  /** Files count as changed exactly when they cannot be resolved or some path disagrees. */
  lemma ChangeMeansDiffer(r: TaskRunRecord, current: CurrentState)
    ensures OutputChange(r, current).Some? <==>
            FilesDiffer(current.resolveOutputs(EffectiveOutputPatterns(r, current), r.outputs), r.outputs)
    ensures InputChange(r, current).Some? <==>
            FilesDiffer(current.resolveInputs(EffectiveInputPatterns(r, current), r.inputs), r.inputs)
  {
    var outputs := current.resolveOutputs(EffectiveOutputPatterns(r, current), r.outputs);
    var inputs := current.resolveInputs(EffectiveInputPatterns(r, current), r.inputs);
    if outputs.Some? { DeltaCount(IndexByPath(r.outputs), IndexByPath(outputs.value)); }
    if inputs.Some? { DeltaCount(IndexByPath(r.inputs), IndexByPath(inputs.value)); }
  }

  /**
   * A skip on the fields of the record: inputs, and likewise outputs, are resolved from the recorded
   * patterns where these were detected by the run, and from the declared ones where they were not.
   */
  lemma SkipOnFields(r: TaskRunRecord, c: CurrentState)
    ensures r.detectedInputPatterns && r.detectedOutputPatterns ==>
              (DecideRun(Some(r), c) == Skip <==>
               CacheablePrior(r, c) && !FilesDiffer(c.resolveInputs(r.inputPatterns, r.inputs), r.inputs) &&
               !FilesDiffer(c.resolveOutputs(r.outputPatterns, r.outputs), r.outputs))
    ensures r.detectedInputPatterns && !r.detectedOutputPatterns ==>
              (DecideRun(Some(r), c) == Skip <==>
               CacheablePrior(r, c) && !FilesDiffer(c.resolveInputs(r.inputPatterns, r.inputs), r.inputs) &&
               !FilesDiffer(c.resolveOutputs(c.declaredOutputPatterns, r.outputs), r.outputs))
    ensures !r.detectedInputPatterns && r.detectedOutputPatterns ==>
              (DecideRun(Some(r), c) == Skip <==>
               CacheablePrior(r, c) && !FilesDiffer(c.resolveInputs(c.declaredInputPatterns, r.inputs), r.inputs) &&
               !FilesDiffer(c.resolveOutputs(r.outputPatterns, r.outputs), r.outputs))
    ensures !r.detectedInputPatterns && !r.detectedOutputPatterns ==>
              (DecideRun(Some(r), c) == Skip <==>
               CacheablePrior(r, c) && !FilesDiffer(c.resolveInputs(c.declaredInputPatterns, r.inputs), r.inputs) &&
               !FilesDiffer(c.resolveOutputs(c.declaredOutputPatterns, r.outputs), r.outputs))
  {
    SkipMeaning(r, c);
    ChangeMeansDiffer(r, c);
  }

  /** So whatever is declared, a record of detected patterns gets the same decision, down to the reason. */
  lemma DetectedIgnoresDeclared(r: TaskRunRecord, c: CurrentState, patterns: seq<Str>)
    ensures r.detectedInputPatterns ==>
              DecideRun(Some(r), c.(declaredInputPatterns := patterns)) == DecideRun(Some(r), c)
    ensures r.detectedOutputPatterns ==>
              DecideRun(Some(r), c.(declaredOutputPatterns := patterns)) == DecideRun(Some(r), c)
  {
  }

  /** And whatever patterns were recorded, a record without detection does. */
  lemma DeclaredIgnoresRecorded(r: TaskRunRecord, c: CurrentState, patterns: seq<Str>)
    ensures !r.detectedInputPatterns ==>
              DecideRun(Some(r.(inputPatterns := patterns)), c) == DecideRun(Some(r), c)
    ensures !r.detectedOutputPatterns ==>
              DecideRun(Some(r.(outputPatterns := patterns)), c) == DecideRun(Some(r), c)
  {
  }

  /** What a reason about files says: the first deltas in path order, the number of all, whether some are left off. */
  ghost predicate ReasonDescribes(changed: seq<FileDelta>, truncated: bool, count: nat,
                                  prior: seq<FileEntry>, current: seq<FileEntry>)
  {
    var differ := |Disagreements(IndexByPath(prior), IndexByPath(current))|;
    |changed| == Min(50, differ) && count == Min(differ, U32Max) && (truncated <==> differ > 50) &&
    changed <= AllDeltas(IndexByPath(prior), IndexByPath(current)) &&
    forall d :: d in changed ==> Describes(d, IndexByPath(prior), IndexByPath(current))
  }

  /** A reason about dependencies names those that differ. */
  lemma DependencyReason(r: TaskRunRecord, c: CurrentState)
    ensures
      match DecideRun(Some(r), c)
      case Run(DepOutputMismatch(tasks)) => forall k :: k in tasks <==> DepDiffers(r.depOutputs, c.depOutputs, k)
      case _ => true
  {
    ChangeKinds(r, c);
    forall k ensures k in ChangedDepTasks(r.depOutputs, c.depOutputs) <==> DepDiffers(r.depOutputs, c.depOutputs, k) {
      ChangedDepTasksContents(r.depOutputs, c.depOutputs, k);
    }
  }

  /** A reason about files describes how they differ, or is empty when they cannot be resolved. */
  lemma FileReasons(r: TaskRunRecord, c: CurrentState)
    ensures
      match DecideRun(Some(r), c)
      case Run(OutputChanged(changed, truncated, count)) =>
        var now := c.resolveOutputs(EffectiveOutputPatterns(r, c), r.outputs);
        if now.None? then changed == [] && !truncated && count == 0
        else ReasonDescribes(changed, truncated, count, r.outputs, now.value)
      case Run(InputChanged(changed, truncated, count)) =>
        var now := c.resolveInputs(EffectiveInputPatterns(r, c), r.inputs);
        if now.None? then changed == [] && !truncated && count == 0
        else ReasonDescribes(changed, truncated, count, r.inputs, now.value)
      case _ => true
  {
    ChangeKinds(r, c);
    var outputs := c.resolveOutputs(EffectiveOutputPatterns(r, c), r.outputs);
    var inputs := c.resolveInputs(EffectiveInputPatterns(r, c), r.inputs);
    if outputs.Some? { DeltasDescribed(r.outputs, outputs.value); }
    if inputs.Some? { DeltasDescribed(r.inputs, inputs.value); }
  }

  lemma DeltasDescribed(prior: seq<FileEntry>, current: seq<FileEntry>)
    ensures
      var deltas := DeltasBetween(prior, current);
      ReasonDescribes(Truncate(deltas), Count(deltas) > DiffLimit, Count(deltas), prior, current)
  {
    DeltaCount(IndexByPath(prior), IndexByPath(current));
    DeltasMeaning(IndexByPath(prior), IndexByPath(current));
    var deltas := DeltasBetween(prior, current);
    assert forall d :: d in Truncate(deltas) ==> d in deltas;
  }

  /** The reason given is a mismatch that is there, and none of higher precedence is. */
  lemma FirstMismatchWins(prior: Option<TaskRunRecord>, current: CurrentState)
    ensures
      var k := Precedence(DecideRun(prior, current));
      (k < 10 ==> Mismatch(k, prior, current)) && forall j :: 0 <= j < k ==> !Mismatch(j, prior, current)
  {
    ReasonIsThere(prior, current);
    forall j | 0 <= j < Precedence(DecideRun(prior, current)) ensures !Mismatch(j, prior, current) {
      NothingBefore(prior, current, j);
    }
  }

  lemma ReasonIsThere(prior: Option<TaskRunRecord>, current: CurrentState)
    ensures Precedence(DecideRun(prior, current)) < 10 ==>
            Mismatch(Precedence(DecideRun(prior, current)), prior, current)
  {
    if prior.Some? {
      ChangedDepTasksEmpty(prior.value.depOutputs, current.depOutputs);
      ChangeKinds(prior.value, current);
    }
  }

  lemma NothingBefore(prior: Option<TaskRunRecord>, current: CurrentState, j: nat)
    requires j < Precedence(DecideRun(prior, current))
    ensures !Mismatch(j, prior, current)
  {
    if prior.Some? {
      ChangedDepTasksEmpty(prior.value.depOutputs, current.depOutputs);
      ChangeKinds(prior.value, current);
    }
  }

  lemma {:induction false} IndexByPathContents(entries: seq<FileEntry>)
    requires DistinctPaths(entries)
    ensures forall e :: e in entries <==> e.path in IndexByPath(entries) && IndexByPath(entries)[e.path] == e
    ensures forall p :: p in IndexByPath(entries) ==>
              IndexByPath(entries)[p] in entries && IndexByPath(entries)[p].path == p
  {
    if entries != [] {
      var init, last := entries[..|entries| - 1], entries[|entries| - 1];
      IndexByPathContents(init);
      assert forall e :: e in entries <==> e in init || e == last;
      assert forall e :: e in init ==> e.path != last.path;
    }
  }

  /** Entries that are absent in both lists under one path carry one hash. */
  ghost predicate AbsentAgree(a: seq<FileEntry>, b: seq<FileEntry>) {
    forall x, y :: x in a && y in b && x.absent && y.absent && x.path == y.path ==> x.hash == y.hash
  }

  /** The diff finds nothing, and absent entries agree, exactly when the two lists say the same. */
  lemma SameFactsExactly(a: seq<FileEntry>, b: seq<FileEntry>)
    requires DistinctPaths(a) && DistinctPaths(b)
    ensures Facts(a) == Facts(b) <==> Disagreements(IndexByPath(a), IndexByPath(b)) == {} && AbsentAgree(a, b)
  {
    if Facts(a) == Facts(b) { SameFactsAgree(a, b); }
    if Disagreements(IndexByPath(a), IndexByPath(b)) == {} && AbsentAgree(a, b) {
      FactsIncluded(a, b);
      assert Disagreements(IndexByPath(b), IndexByPath(a)) == {} by {
        forall p ensures p !in Disagreements(IndexByPath(b), IndexByPath(a)) {
          assert p !in Disagreements(IndexByPath(a), IndexByPath(b));
        }
      }
      FactsIncluded(b, a);
    }
  }

  lemma SameFactsAgree(a: seq<FileEntry>, b: seq<FileEntry>)
    requires DistinctPaths(a) && DistinctPaths(b) && Facts(a) == Facts(b)
    ensures Disagreements(IndexByPath(a), IndexByPath(b)) == {} && AbsentAgree(a, b)
  {
    var m, n := IndexByPath(a), IndexByPath(b);
    IndexByPathContents(a);
    IndexByPathContents(b);
    forall p ensures p !in Disagreements(m, n) {
      if p in m { assert FactOf(m[p]) in Facts(b); var e :| e in b && FactOf(e) == FactOf(m[p]); }
      if p in n { assert FactOf(n[p]) in Facts(a); var e :| e in a && FactOf(e) == FactOf(n[p]); }
    }
    forall x, y | x in a && y in b && x.path == y.path ensures x.hash == y.hash {
      assert FactOf(x) in Facts(b);
      var e :| e in b && FactOf(e) == FactOf(x);
      assert n[e.path] == e && n[y.path] == y;
    }
  }

  lemma FactsIncluded(a: seq<FileEntry>, b: seq<FileEntry>)
    requires DistinctPaths(a) && DistinctPaths(b) && AbsentAgree(a, b)
    requires Disagreements(IndexByPath(a), IndexByPath(b)) == {}
    ensures Facts(a) <= Facts(b)
  {
    var m, n := IndexByPath(a), IndexByPath(b);
    IndexByPathContents(a);
    IndexByPathContents(b);
    forall f | f in Facts(a) ensures f in Facts(b) {
      var e :| e in a && FactOf(e) == f;
      assert e.path !in Disagreements(m, n);
      assert n[e.path] in b && FactOf(n[e.path]) == f;
    }
  }

  /** Lists of distinct paths whose sizes fit their encodings. */
  ghost predicate Proper(entries: seq<FileEntry>) {
    DistinctPaths(entries) && Sized(entries)
  }

  /**
   * The recorded and the current input list have the same stream exactly when nothing counts as
   * changed and absent entries agree.
   */
  lemma InputChangeMeaning(r: TaskRunRecord, current: CurrentState, inputs: seq<FileEntry>)
    requires Proper(r.inputs) && Proper(inputs)
    requires current.resolveInputs(EffectiveInputPatterns(r, current), r.inputs) == Some(inputs)
    ensures InputChange(r, current).None? && AbsentAgree(r.inputs, inputs) <==>
            CombinedStream(InputsDomain, r.inputs) == CombinedStream(InputsDomain, inputs)
  {
    DeltaCount(IndexByPath(r.inputs), IndexByPath(inputs));
    SameFactsExactly(r.inputs, inputs);
    CombinedStreamMeaning(InputsDomain, r.inputs, inputs);
  }

  /**
   * On one resolved input list. If the shared decision accepts the hash of that list, the local
   * decision is to skip or to run because outputs changed; and a local skip means that the shared
   * decision accepts if and only if absent entries agree: or else two different input streams with
   * one digest are at hand.
   */
  lemma DecisionsAgree(h: Str -> Digest, r: TaskRunRecord, current: CurrentState, inputs: seq<FileEntry>)
    requires Proper(r.inputs) && Proper(inputs)
    requires current.resolveInputs(EffectiveInputPatterns(r, current), r.inputs) == Some(inputs)
    ensures
      var local := DecideRun(Some(r), current);
      var shared := DecideSharedRestore(h, r, current, CombinedHash(h, InputsDomain, inputs));
      var collide := Collide(h, CombinedStream(InputsDomain, r.inputs), CombinedStream(InputsDomain, inputs));
      (shared ==> local == Skip || (local.Run? && local.reason.OutputChanged?) || collide) &&
      (local == Skip ==> (shared <==> AbsentAgree(r.inputs, inputs) || collide))
  {
    SkipMeaning(r, current);
    ChangeKinds(r, current);
    InputChangeMeaning(r, current, inputs);
  }

  /** Absent entries as the resolver builds them, with the zero hash. */
  ghost predicate AbsentAreZero(entries: seq<FileEntry>) {
    forall e :: e in entries && e.absent ==> e.hash == ZeroHash
  }

  /** So for lists as the resolver builds them a local skip always means that the shared decision accepts. */
  lemma ResolvedDecisionsAgree(h: Str -> Digest, r: TaskRunRecord, current: CurrentState, inputs: seq<FileEntry>)
    requires Proper(r.inputs) && Proper(inputs) && AbsentAreZero(r.inputs) && AbsentAreZero(inputs)
    requires current.resolveInputs(EffectiveInputPatterns(r, current), r.inputs) == Some(inputs)
    ensures DecideRun(Some(r), current) == Skip ==>
              DecideSharedRestore(h, r, current, CombinedHash(h, InputsDomain, inputs))
  {
    DecisionsAgree(h, r, current, inputs);
  }

  /**
   * A record whose one input is absent with one hash, and is resolved as absent with another: the
   * local decision is to skip, and the shared one refuses, or the two input streams collide.
   */
  lemma AbsentHashMatters(h: Str -> Digest, r: TaskRunRecord, current: CurrentState, a: FileEntry, b: FileEntry)
    requires a.absent && b.absent && a.path == b.path && a.hash != b.hash && |a.path| <= U64Max
    requires r.inputs == [a] && current.resolveInputs(EffectiveInputPatterns(r, current), [a]) == Some([b])
    requires CacheablePrior(r, current) && OutputChange(r, current).None?
    ensures DecideRun(Some(r), current) == Skip
    ensures !DecideSharedRestore(h, r, current, CombinedHash(h, InputsDomain, [b])) ||
            Collide(h, CombinedStream(InputsDomain, [a]), CombinedStream(InputsDomain, [b]))
  {
    assert a in [a] && b in [b] && !AbsentAgree([a], [b]);
    OneEachIndexed(a, b);
    DeltaCount(IndexByPath([a]), IndexByPath([b]));
    SkipMeaning(r, current);
    DecisionsAgree(h, r, current, [b]);
  }

  lemma OneEachIndexed(a: FileEntry, b: FileEntry)
    requires a.absent && b.absent && a.path == b.path
    ensures Disagreements(IndexByPath([a]), IndexByPath([b])) == {}
  {
    assert [a][..0] == [] && [b][..0] == [];
    assert IndexByPath([a]) == map[a.path := a] && IndexByPath([b]) == map[b.path := b];
  }
}
