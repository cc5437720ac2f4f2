/**
 * The promise over whole histories: files are written and removed, runs are recorded, and the entries
 * that the decision compares are the ones the resolvers make, hashes copied from record to record.
 */
module RunHistory {
  import opened Basics
  import opened Sorting
  import opened Tasks
  import opened DepOutputs
  import opened TaskSpecHash
  import opened FileEntries
  import opened FilesDiff
  import opened ResolveOutputs
  import opened OutputEntries
  import opened RecordedPaths
  import opened HashReuse
  import opened ResolveInputs
  import opened Decide
  import opened Promise

  /** A history of events, and the digest function that its records were made with. */
  datatype History = History(h: Str -> Digest, events: seq<Event>) {
    function Until(n: nat): State
      requires n <= |events|
    {
      Replay(h, events[..n])
    }

    /** Writes that look alike have contents of one hash. */
    ghost predicate Honest(writes: iset<Event>) {
      StatDetermines(h, writes) && Uses(events, writes)
    }
  }

  /** Input requests resolved after the first `at` events, over the entries of an earlier record or none. */
  datatype InputRun = InputRun(at: nat, worktree: Worktree, requests: seq<Request>, basedOn: Option<nat>) {
    ghost predicate Possible(k: History) {
      at <= |k.events| && ValidWorktree(worktree) && worktree.disk == k.Until(at).disk &&
      Apart(worktree, SelectedTexts(worktree, requests))
    }

    ghost function Files(): FileSet
      requires ValidWorktree(worktree)
    {
      FileSet(worktree.disk, SelectedTexts(worktree, requests))
    }

    function Entries(k: History): Option<seq<FileEntry>>
      requires at <= |k.events| && ValidWorktree(worktree)
    {
      Resolution(k.h, worktree, requests, Prior(k.Until(at), basedOn))
    }
  }

  /** Output patterns resolved at such a moment among the files that a walk found. */
  datatype OutputRun = OutputRun(at: nat, found: set<Path>, patterns: seq<Str>, basedOn: Option<nat>) {
    ghost function Paths(): set<Str>
      requires ValidTree(found)
    {
      var paths := Resolved(patterns, found);
      if paths.Some? then paths.value else {}
    }

    ghost predicate Possible(k: History) {
      at <= |k.events| && ValidTree(found) && InjectiveOn(Paths(), Recorded)
    }

    ghost function Files(k: History): FileSet
      requires at <= |k.events| && ValidTree(found)
    {
      FileSet(k.Until(at).disk, Paths())
    }

    ghost function Entries(k: History): Option<seq<FileEntry>>
      requires at <= |k.events| && ValidTree(found)
    {
      OutputEntries.Outputs(k.h, k.Until(at).disk, patterns, found, Prior(k.Until(at), basedOn))
    }
  }

  // ---------------------------------------------------------------- resolved lists tell the truth

  lemma InputsHold(k: History, writes: iset<Event>, run: InputRun)
    requires k.Honest(writes) && run.Possible(k) && run.Entries(k).Some?
    ensures Holds(k.h, run.Files(), run.Entries(k).value)
  {
    var w, s, result := run.worktree, k.Until(run.at), run.Entries(k).value;
    HistoryInv(k.h, writes, k.events, run.at);
    ResolutionIsPlain(k.h, w, run.requests, Prior(s, run.basedOn));
    forall t ensures EntryFor(k.h, w.disk, t, Prior(s, run.basedOn)) == EntryFor(k.h, w.disk, t, map[]) {
      ReuseIsFresh(k.h, writes, s, t, run.basedOn);
    }
    StrictlySortedDistinct(result);
  }

  lemma StrictlySortedDistinct(entries: seq<FileEntry>)
    requires StrictlySorted(PathBelow, entries)
    ensures DistinctPaths(entries)
  {
    forall i, j | 0 <= i < j < |entries| ensures entries[i].path != entries[j].path {
      LessTotal(entries[i].path, entries[j].path);
    }
  }

  lemma PathAscendingContents(texts: set<Str>)
    ensures Distinct(PathAscending(texts)) && forall t :: t in PathAscending(texts) <==> t in texts
  {
    AscendingIsOrdered(texts);
    AscendingIsDistinct(Ascending(texts));
    SortPermutes(PathTextBelow, Ascending(texts));
    DistinctSorted(Ascending(texts), PathAscending(texts));
  }

  lemma ListHolds(h: Str -> Digest, disk: Disk, texts: seq<Str>)
    requires Distinct(texts) && InjectiveOn(SetOf(texts), Recorded)
    ensures Holds(h, FileSet(disk, SetOf(texts)), EntriesFor(h, disk, texts, map[]))
  {
    var entries := EntriesFor(h, disk, texts, map[]);
    forall i, j | 0 <= i < j < |entries| ensures entries[i].path != entries[j].path {
      assert texts[i] in SetOf(texts) && texts[j] in SetOf(texts);
    }
    forall e ensures e in entries <==> exists t :: t in SetOf(texts) && e == EntryFor(h, disk, t, map[]) {
      EntriesContents(h, disk, texts, map[], e);
    }
  }

  lemma OutputsHold(k: History, writes: iset<Event>, run: OutputRun)
    requires k.Honest(writes) && run.Possible(k) && run.Entries(k).Some?
    ensures Holds(k.h, run.Files(k), run.Entries(k).value)
  {
    var s, texts := k.Until(run.at), PathAscending(run.Paths());
    HistoryInv(k.h, writes, k.events, run.at);
    EntriesFresh(k.h, writes, s, texts, run.basedOn);
    PathAscendingContents(run.Paths());
    assert SetOf(texts) == run.Paths();
    ListHolds(k.h, s.disk, texts);
  }

  // ---------------------------------------------------------------- and are what a history records

  ghost predicate MadeFrom(h: Str -> Digest, disk: Disk, texts: set<Str>, prior: ByPath, e: FileEntry) {
    exists t :: t in texts && e == EntryFor(h, disk, t, prior)
  }

  ghost function TextBehind(h: Str -> Digest, disk: Disk, texts: set<Str>, prior: ByPath, e: FileEntry): (t: Str)
    requires MadeFrom(h, disk, texts, prior, e)
    ensures t in texts && e == EntryFor(h, disk, t, prior)
  {
    var t :| t in texts && e == EntryFor(h, disk, t, prior); t
  }

  lemma TextsOfEntries(h: Str -> Digest, disk: Disk, texts: set<Str>, prior: ByPath, entries: seq<FileEntry>)
    returns (listed: seq<Str>)
    requires forall i :: 0 <= i < |entries| ==> MadeFrom(h, disk, texts, prior, entries[i])
    ensures EntriesFor(h, disk, listed, prior) == entries && forall t :: t in listed ==> t in texts
  {
    listed := seq(|entries|, i requires 0 <= i < |entries| => TextBehind(h, disk, texts, prior, entries[i]));
    var made := EntriesFor(h, disk, listed, prior);
    forall i | 0 <= i < |entries| ensures made[i] == entries[i] && listed[i] in texts {
      assert listed[i] == TextBehind(h, disk, texts, prior, entries[i]);
    }
  }

  lemma MustBeListed(h: Str -> Digest, disk: Disk, texts: set<Str>, prior: ByPath, listed: seq<Str>, t: Str)
    requires InjectiveOn(texts, Recorded) && t in texts && forall u :: u in listed ==> u in texts
    requires EntryFor(h, disk, t, prior) in EntriesFor(h, disk, listed, prior)
    ensures t in listed
  {
    EntriesContents(h, disk, listed, prior, EntryFor(h, disk, t, prior));
    var u :| u in listed && EntryFor(h, disk, t, prior) == EntryFor(h, disk, u, prior);
    assert Recorded(t) == Recorded(u);
  }

  lemma RecordedList(h: Str -> Digest, disk: Disk, texts: set<Str>, prior: ByPath, entries: seq<FileEntry>)
    returns (listed: seq<Str>)
    requires InjectiveOn(texts, Recorded)
    requires forall e :: e in entries <==> exists t :: t in texts && e == EntryFor(h, disk, t, prior)
    ensures SetOf(listed) == texts && EntriesFor(h, disk, listed, prior) == entries
  {
    forall i | 0 <= i < |entries| ensures MadeFrom(h, disk, texts, prior, entries[i]) { assert entries[i] in entries; }
    listed := TextsOfEntries(h, disk, texts, prior, entries);
    forall t | t in texts ensures t in listed {
      assert EntryFor(h, disk, t, prior) in entries;
      MustBeListed(h, disk, texts, prior, listed, t);
    }
  }

  /** The list that a run resolves is the list that some event of recorded paths adds to the history. */
  lemma ResolvedIsRecorded(k: History, run: InputRun) returns (paths: seq<Str>)
    requires run.Possible(k) && run.Entries(k).Some?
    ensures SetOf(paths) == run.Files().paths
    ensures After(k.h, k.Until(run.at), Record(paths, run.basedOn)).records ==
            k.Until(run.at).records + [run.Entries(k).value]
  {
    var w, prior := run.worktree, Prior(k.Until(run.at), run.basedOn);
    ResolutionIsPlain(k.h, w, run.requests, prior);
    paths := RecordedList(k.h, w.disk, run.Files().paths, prior, run.Entries(k).value);
  }

  // ---------------------------------------------------------------- the promise over histories

  /** One run, or one look at the task, in the course of a history. */
  datatype Moment = Moment(
    definition: TaskDefinition,
    nonce: Option<Str>,
    lookup: Lookup,
    packages: seq<Pair>,
    inputs: InputRun,
    outputs: OutputRun)
  {
    ghost predicate Possible(k: History) {
      inputs.Possible(k) && outputs.Possible(k)
    }

    ghost function At(k: History): Snapshot
      requires Possible(k)
    {
      Snapshot(definition, nonce, lookup, packages, inputs.Files(), outputs.Files(k))
    }
  }

  /** The record holds the hashes of that moment and the two lists resolved then. */
  ghost predicate Records(k: History, g: TaskGraph, t: TaskId, m: Moment, r: TaskRunRecord)
    requires g.Acyclic() && m.Possible(k)
  {
    r.taskSpecHash == k.h(SpecStream(m.At(k).Hashed())) && r.cacheNonce == m.nonce &&
    r.depOutputs == PlainOutputs(k.h, g, m.lookup, t) && r.pkgDepHash == k.h(PkgDepStream(m.packages)) &&
    m.inputs.Entries(k) == Some(r.inputs) && m.outputs.Entries(k) == Some(r.outputs)
  }

  /** The decision is given the hashes of that moment and resolves the two lists then. */
  ghost predicate Sees(k: History, g: TaskGraph, t: TaskId, m: Moment, r: TaskRunRecord, current: CurrentState)
    requires g.Acyclic() && m.Possible(k)
  {
    current.taskSpecHash == k.h(SpecStream(m.At(k).Hashed())) && current.cacheNonce == m.nonce &&
    current.depOutputs == PlainOutputs(k.h, g, m.lookup, t) && current.pkgDepHash == k.h(PkgDepStream(m.packages)) &&
    NowInputs(r, current) == m.inputs.Entries(k) && NowOutputs(r, current) == m.outputs.Entries(k)
  }

  /**
   * In any history whose writes can be told apart by size and time, or have one hash: a task that ran
   * at moment a is skipped at moment b if and only if nothing it depends on or left behind is
   * different then, its run succeeded in the same environment and its patterns still resolve; or else
   * two different streams that were really hashed have one digest.
   */
  lemma SkippedOverHistories(k: History, writes: iset<Event>, g: TaskGraph, t: TaskId, a: Moment, b: Moment,
                             r: TaskRunRecord, current: CurrentState)
    requires k.Honest(writes) && g.Acyclic() && WellNamed(g) && a.Possible(k) && b.Possible(k)
    requires a.At(k).Fits() && b.At(k).Fits()
    requires Records(k, g, t, a, r) && Sees(k, g, t, b, r, current)
    ensures Collision(k.h, g, t, a.At(k), b.At(k)) ||
            (DecideRun(Some(r), current) == Skip <==>
             Unchanged(g, t, a.At(k), b.At(k)) && r.succeeded && r.envHash == current.envHash &&
             b.inputs.Entries(k).Some? && b.outputs.Entries(k).Some?)
  {
    InputsHold(k, writes, a.inputs);
    OutputsHold(k, writes, a.outputs);
    if b.inputs.Entries(k).Some? { InputsHold(k, writes, b.inputs); }
    if b.outputs.Entries(k).Some? { OutputsHold(k, writes, b.outputs); }
    SkippedExactlyWhenUnchanged(k.h, g, t, a.At(k), b.At(k), r, current);
  }

  /**
   * Without that, a rewritten input goes unnoticed: after a write e, a recorded run, and a write f that
   * looks like e and has another hash, the input list resolved over the record is the recorded one, and
   * the decision is to skip.
   */
  lemma StaleSkip(h: Str -> Digest, e: Event, f: Event, r: TaskRunRecord, current: CurrentState)
    requires SameStat(e, f) && h(e.file.content) != h(f.file.content)
    requires
      var s := Replay(h, [e, Record([e.path], None), f]);
      s.records == [r.inputs] && NowInputs(r, current) == Some(EntriesFor(h, s.disk, [f.path], Prior(s, Some(0))))
    requires CacheablePrior(r, current) && OutputChange(r, current).None?
    ensures DecideRun(Some(r), current) == Skip
  {
    var first := StaleList(h, e, f);
    SkipMeaning(r, current);
    DeltaCount(IndexByPath(r.inputs), IndexByPath([first]));
  }

  lemma StaleList(h: Str -> Digest, e: Event, f: Event) returns (first: FileEntry)
    requires SameStat(e, f)
    ensures
      var s := Replay(h, [e, Record([e.path], None), f]);
      s.records == [[first]] && EntriesFor(h, s.disk, [f.path], Prior(s, Some(0))) == [first]
  {
    var disk := map[e.path := e.file];
    first := EntryFor(h, disk, e.path, map[]);
    Rewritten(h, e, f);
    var s := Replay(h, [e, Record([e.path], None), f]);
    OneIndexed(first);
    assert Prior(s, Some(0)) == map[first.path := first];
    OneEntry(h, s.disk, f.path, map[first.path := first]);
  }

  lemma Rewritten(h: Str -> Digest, e: Event, f: Event)
    requires e.Write? && f.Write?
    ensures
      var disk := map[e.path := e.file];
      Replay(h, [e, Record([e.path], None), f]) ==
      State(disk[f.path := f.file], [[EntryFor(h, disk, e.path, map[])]])
  {
    var made := Record([e.path], None);
    assert [e, made] + [f] == [e, made, f];
    WrittenAndRecorded(h, e);
    ReplayStep(h, [e, made], f);
  }

  lemma WrittenAndRecorded(h: Str -> Digest, e: Event)
    requires e.Write?
    ensures
      var disk := map[e.path := e.file];
      Replay(h, [e, Record([e.path], None)]) == State(disk, [[EntryFor(h, disk, e.path, map[])]])
  {
    var disk, made := map[e.path := e.file], Record([e.path], None);
    assert [] + [e] == [e] && [e] + [made] == [e, made];
    ReplayStep(h, [], e);
    assert Replay(h, [e]) == State(disk, []);
    ReplayStep(h, [e], made);
    OneEntry(h, disk, e.path, map[]);
  }
}
