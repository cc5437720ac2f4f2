/** Passive readiness: has another process made every selected task current? */
module Await {
  import opened Basics
  import opened Tasks
  import opened DepOutputs
  import opened Decide

  /**
   * What one scan looks at. `live` stands for the inspection of the working tree: everything a
   * current state holds except the dependency outputs, or None when it fails.
   */
  datatype Context = Context(
    h: Str -> Digest,
    g: TaskGraph,
    cache: map<Str, TaskRunRecord>,
    live: TaskId -> Option<CurrentState>,
    orderedTasks: seq<TaskId>)
  {
    function Read(t: TaskId): Option<TaskRunRecord> {
      if t.Name() in cache then Some(cache[t.Name()]) else None
    }

    predicate Succeeded(t: TaskId) {
      Read(t).Some? && Read(t).value.succeeded
    }

    /** The lookup behind the decision for cacheable tasks: any record will do. */
    function AnyRecord(): Lookup {
      t => if Read(t).Some? then Some(Read(t).value.outputsHash) else None
    }

    /** The lookup for tasks that are not cacheable: only successful records count. */
    function SuccessfulRecord(): Lookup {
      t => if Succeeded(t) then Some(Read(t).value.outputsHash) else None
    }

    predicate Counts(t: TaskId) {
      t in g.definitions && g.definitions[t].CountsInProgress()
    }

    // -------------------------------------------------------------- the scan, task by task

    /** The test applied to a task whose dependencies are ready. */
    ghost predicate PassesScan(t: TaskId)
      requires g.Acyclic()
    {
      t in g.definitions &&
      (Counts(t) ==>
        if g.definitions[t].cacheEnabled then
          live(t).Some? &&
          DecideRun(Read(t), live(t).value.(depOutputs := PlainOutputs(h, g, AnyRecord(), t))) == Skip
        else
          Succeeded(t) && !Missing(SuccessfulRecord(), CountedBehind(g, t)) &&
          Read(t).value.depOutputs == PlainOutputs(h, g, SuccessfulRecord(), t))
    }

    ghost predicate DependenciesBefore(i: nat)
      requires i < |orderedTasks|
    {
      forall d :: d in g.DependenciesOf(orderedTasks[i]) ==> d in orderedTasks[..i]
    }

    ghost predicate Scanned(n: nat)
      requires g.Acyclic() && n <= |orderedTasks|
    {
      forall i :: 0 <= i < n ==> DependenciesBefore(i) && PassesScan(orderedTasks[i])
    }

    // -------------------------------------------------------------- what readiness means

    /** The dependency map of t over the successful records now in the cache. */
    ghost function CurrentOutputs(t: TaskId): Outputs
      requires g.Acyclic()
    {
      PlainOutputs(h, g, SuccessfulRecord(), t)
    }

    /**
     * A task that runs is current: it succeeded, over the outputs its dependencies have now, and if
     * it is cacheable nothing else it is keyed on has changed either.
     */
    ghost predicate Current(t: TaskId)
      requires g.Acyclic() && t in g.definitions
    {
      Succeeded(t) && Read(t).value.depOutputs == CurrentOutputs(t) &&
      (g.definitions[t].cacheEnabled ==>
        live(t).Some? && DecideRun(Read(t), live(t).value.(depOutputs := CurrentOutputs(t))) == Skip)
    }

    /** The list is a dependency-closed topological order, and every task in it that runs is current. */
    ghost predicate AllCurrent()
      requires g.Acyclic()
    {
      forall i :: 0 <= i < |orderedTasks| ==>
        DependenciesBefore(i) && orderedTasks[i] in g.definitions &&
        (Counts(orderedTasks[i]) ==> Current(orderedTasks[i]))
    }

    lemma {:induction false} BehindIsListed(i: nat, x: TaskId)
      requires g.Acyclic() && i < |orderedTasks|
      requires forall j :: 0 <= j <= i ==> DependenciesBefore(j)
      requires x in CountedBehind(g, orderedTasks[i])
      ensures x in orderedTasks[..i] && !g.IsConnector(x)
    {
      var d := CountedVia(g, orderedTasks[i], g.DependenciesOf(orderedTasks[i]), x);
      assert DependenciesBefore(i) && d in orderedTasks[..i];
      var j :| 0 <= j < i && orderedTasks[..i][j] == d;
      if g.IsConnector(d) { BehindIsListed(j, x); }
    }

    /** Behind a listed task everything listed before it succeeded, so both lookups see the same. */
    lemma LookupsAgree(i: nat)
      requires g.Acyclic() && i < |orderedTasks|
      requires forall j :: 0 <= j <= i ==> DependenciesBefore(j) && orderedTasks[j] in g.definitions
      requires forall j :: 0 <= j < i && Counts(orderedTasks[j]) ==> Succeeded(orderedTasks[j])
      ensures !Missing(SuccessfulRecord(), CountedBehind(g, orderedTasks[i]))
      ensures PlainOutputs(h, g, AnyRecord(), orderedTasks[i]) == CurrentOutputs(orderedTasks[i])
    {
      var t := orderedTasks[i];
      forall x | x in CountedBehind(g, t) ensures Succeeded(x) {
        BehindIsListed(i, x);
        var j :| 0 <= j < i && orderedTasks[j] == x;
      }
      AgreeingLookups(h, g, AnyRecord(), SuccessfulRecord(), t, g.DependenciesOf(t));
    }

    /** The scan, which consults failed records for cacheable tasks, still means what it should. */
    lemma ScanMeaning()
      requires g.Acyclic()
      ensures Scanned(|orderedTasks|) <==> AllCurrent()
    {
      if Scanned(|orderedTasks|) {
        forall i | 0 <= i < |orderedTasks| && Counts(orderedTasks[i]) ensures Current(orderedTasks[i]) {
          ScannedSucceeded(i);
          LookupsAgree(i);
          if Read(orderedTasks[i]).Some? && live(orderedTasks[i]).Some? {
            SkipMeaning(Read(orderedTasks[i]).value,
                        live(orderedTasks[i]).value.(depOutputs := CurrentOutputs(orderedTasks[i])));
          }
        }
      }
      if AllCurrent() {
        forall i | 0 <= i < |orderedTasks| ensures PassesScan(orderedTasks[i]) {
          LookupsAgree(i);
        }
      }
    }

    lemma ScannedSucceeded(i: nat)
      requires g.Acyclic() && i <= |orderedTasks| && Scanned(i)
      ensures forall j :: 0 <= j < i && Counts(orderedTasks[j]) ==> Succeeded(orderedTasks[j])
    {
      forall j | 0 <= j < i && Counts(orderedTasks[j]) ensures Succeeded(orderedTasks[j]) {
        var t := orderedTasks[j];
        assert PassesScan(t);
        if g.definitions[t].cacheEnabled && Read(t).Some? {
          SkipMeaning(Read(t).value, live(t).value.(depOutputs := PlainOutputs(h, g, AnyRecord(), t)));
        }
      }
    }

    /** A task that runs is cacheable, and the working tree cannot be inspected for it. */
    predicate Uninspectable(t: TaskId) {
      Counts(t) && g.definitions[t].cacheEnabled && live(t).None?
    }

    /** The scan gets as far as t, and cannot look at it. */
    ghost predicate StopsAt(i: nat, t: TaskId)
      requires g.Acyclic() && i < |orderedTasks|
    {
      orderedTasks[i] == t && Scanned(i) && DependenciesBefore(i) && (t !in g.definitions || Uninspectable(t))
    }

    ghost predicate Stops(t: TaskId)
      requires g.Acyclic()
    {
      exists i :: 0 <= i < |orderedTasks| && StopsAt(i, t)
    }

    /** The scan stops nowhere but at the first task that does not pass, if it stops there. */
    lemma StopsHere(n: nat)
      requires g.Acyclic() && n < |orderedTasks| && Scanned(n)
      requires !(DependenciesBefore(n) && PassesScan(orderedTasks[n]))
      ensures !AllCurrent()
      ensures forall t :: Stops(t) <==> StopsAt(n, t)
    {
      ScanMeaning();
      assert forall i :: 0 <= i < n ==> PassesScan(orderedTasks[i]);
      forall i, t | 0 <= i < |orderedTasks| && StopsAt(i, t) ensures i == n {}
    }

    lemma StopsNowhere()
      requires g.Acyclic() && Scanned(|orderedTasks|)
      ensures AllCurrent()
      ensures forall t :: !Stops(t)
    {
      ScanMeaning();
      forall i, t | 0 <= i < |orderedTasks| ensures !StopsAt(i, t) { assert PassesScan(orderedTasks[i]); }
    }

    // -------------------------------------------------------------- the program

    /** A map exactly when every counted task the walk reaches has a successful record. */
    method CurrentSuccessfulDependencyOutputs(t: TaskId) returns (outputs: Option<Outputs>)
      requires g.Acyclic()
      ensures outputs.Some? <==> forall x :: x in CountedBehind(g, t) ==> Succeeded(x)
      ensures outputs.Some? ==> outputs.value == CurrentOutputs(t)
    {
      var resolved, memo := Query(h, g, SuccessfulRecord()).ResolveDependencyOutputs(t);
      outputs := if memo.missed then None else Some(resolved);
    }

    /** What does not pass is an error only when it cannot be inspected; otherwise it is not ready yet. */
    method TaskIsReady(t: TaskId) returns (ready: Result<bool, TaskId>)
      requires g.Acyclic() && t in g.definitions
      ensures ready == Ok(true) <==> PassesScan(t)
      ensures ready.Err? <==> Uninspectable(t)
      ensures ready.Err? ==> ready.error == t
    {
      var definition := g.definitions[t];
      if !definition.CountsInProgress() {
        ready := Ok(true);
      } else if definition.cacheEnabled {
        var outputs, memo := Query(h, g, AnyRecord()).ResolveDependencyOutputs(t);
        var state := live(t);
        if state.None? { return Err(t); }
        ready := Ok(DecideRun(Read(t), state.value.(depOutputs := outputs)) == Skip);
      } else {
        var prior := Read(t);
        if prior.None? || !prior.value.succeeded { return Ok(false); }
        var outputs := CurrentSuccessfulDependencyOutputs(t);
        ready := Ok(outputs.Some? && prior.value.depOutputs == outputs.value);
      }
    }

    /**
     * One scan: true exactly when the whole selection is current, an error exactly when it gets to a
     * task that cannot be looked at, and false, so that the wait goes on, in every other case.
     */
    method SelectedSubgraphIsReady() returns (ready: Result<bool, TaskId>)
      requires g.Acyclic()
      ensures ready == Ok(true) <==> AllCurrent()
      ensures forall t :: ready == Err(t) <==> Stops(t)
      ensures ready == Ok(false) <==> !AllCurrent() && forall t :: !Stops(t)
    {
      var readyTasks: set<TaskId> := {};
      for i := 0 to |orderedTasks|
        invariant Scanned(i)
        invariant forall x :: x in readyTasks <==> x in orderedTasks[..i]
      {
        var t := orderedTasks[i];
        assert orderedTasks[..i + 1] == orderedTasks[..i] + [t];
        if exists d :: d in g.DependenciesOf(t) && d !in readyTasks {
          assert !DependenciesBefore(i);
          StopsHere(i);
          return Ok(false);
        }
        if t !in g.definitions {
          StopsHere(i);
          return Err(t);
        }
        ready := TaskIsReady(t);
        if ready != Ok(true) {
          StopsHere(i);
          assert Stops(t) <==> Uninspectable(t);
          assert ready.Ok? ==> ready == Ok(ready.value) && !ready.value;
          return;
        }
        readyTasks := readyTasks + {t};
      }
      StopsNowhere();
      return Ok(true);
    }
  }
}
