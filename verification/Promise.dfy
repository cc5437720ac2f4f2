/**
 * The central promise: a task is skipped exactly when nothing it depends on has changed. The local
 * decision sees digests only; here they are traced back to the definitions, dependency outputs,
 * package dependencies and file contents that went into them.
 */
module Promise {
  import opened Basics
  import opened Tasks
  import opened DepOutputs
  import opened TaskSpecHash
  import opened FileEntries
  import opened FilesDiff
  import opened RecordedPaths
  import opened HashReuse
  import opened Decide

  /** The paths that patterns resolve to at one time, and the disk at that time. */
  datatype FileSet = FileSet(disk: Disk, paths: set<Str>)

  /** One entry per recorded path, and for each of the files the entry that a resolution from scratch makes. */
  ghost predicate Holds(h: Str -> Digest, files: FileSet, entries: seq<FileEntry>) {
    DistinctPaths(entries) &&
    forall e :: e in entries <==> exists t :: t in files.paths && e == EntryFor(h, files.disk, t, map[])
  }

  /** What a task depends on, and what it left behind, at one time. */
  datatype Snapshot = Snapshot(
    definition: TaskDefinition,
    nonce: Option<Str>,
    lookup: Lookup,
    packages: seq<Pair>,
    inputs: FileSet,
    outputs: FileSet)
  {
    /** The hashed fields of the definition, references to tasks in their serialized form. */
    ghost function Hashed(): Spec {
      SpecOf(definition, nonce)
    }

    /** Lengths fit their 64-bit encodings. */
    ghost predicate Fits() {
      Hashed().Sized() && SizedTexts(Flatten(CanonicalPairs(packages)))
    }
  }

  /** The record that a run at that time leaves behind. */
  ghost predicate RecordedAt(h: Str -> Digest, g: TaskGraph, t: TaskId, s: Snapshot, r: TaskRunRecord)
    requires g.Acyclic()
  {
    r.taskSpecHash == h(SpecStream(s.Hashed())) && r.cacheNonce == s.nonce &&
    r.depOutputs == PlainOutputs(h, g, s.lookup, t) && r.pkgDepHash == h(PkgDepStream(s.packages)) &&
    Holds(h, s.inputs, r.inputs) && Holds(h, s.outputs, r.outputs)
  }

  function NowInputs(r: TaskRunRecord, current: CurrentState): Option<seq<FileEntry>> {
    current.resolveInputs(EffectiveInputPatterns(r, current), r.inputs)
  }

  function NowOutputs(r: TaskRunRecord, current: CurrentState): Option<seq<FileEntry>> {
    current.resolveOutputs(EffectiveOutputPatterns(r, current), r.outputs)
  }

  /** The state that the decision is given at that time. */
  ghost predicate CurrentAt(h: Str -> Digest, g: TaskGraph, t: TaskId, s: Snapshot, r: TaskRunRecord,
                            current: CurrentState)
    requires g.Acyclic()
  {
    current.taskSpecHash == h(SpecStream(s.Hashed())) && current.cacheNonce == s.nonce &&
    current.depOutputs == PlainOutputs(h, g, s.lookup, t) && current.pkgDepHash == h(PkgDepStream(s.packages)) &&
    (NowInputs(r, current).Some? ==> Holds(h, s.inputs, NowInputs(r, current).value)) &&
    (NowOutputs(r, current).Some? ==> Holds(h, s.outputs, NowOutputs(r, current).value))
  }

  /** File p of one time and file q of the other are recorded alike and hold the same. */
  predicate SameFile(a: FileSet, p: Str, b: FileSet, q: Str) {
    Recorded(p) == Recorded(q) && (p in a.disk <==> q in b.disk) &&
    (p in a.disk && q in b.disk ==> a.disk[p].content == b.disk[q].content)
  }

  ghost predicate FilesKept(a: FileSet, b: FileSet) {
    forall p :: p in a.paths ==> exists q :: q in b.paths && SameFile(a, p, b, q)
  }

  ghost predicate SameFiles(a: FileSet, b: FileSet) {
    FilesKept(a, b) && FilesKept(b, a)
  }

  ghost predicate Unchanged(g: TaskGraph, t: TaskId, a: Snapshot, b: Snapshot)
    requires g.Acyclic()
  {
    a.Hashed() == b.Hashed() && a.nonce == b.nonce && Agree(a.lookup, b.lookup, CountedBehind(g, t)) &&
    (forall p :: p in a.packages <==> p in b.packages) && SameFiles(a.inputs, b.inputs) &&
    SameFiles(a.outputs, b.outputs)
  }

  /** Two different contents of the files with one digest. */
  ghost predicate FileCollision(h: Str -> Digest, a: FileSet, b: FileSet) {
    exists p, q ::
      p in a.paths && q in b.paths && p in a.disk && q in b.disk && Collide(h, a.disk[p].content, b.disk[q].content)
  }

  /** Two different streams, both really hashed, with one digest. */
  ghost predicate Collision(h: Str -> Digest, g: TaskGraph, t: TaskId, a: Snapshot, b: Snapshot)
    requires g.Acyclic()
  {
    Collide(h, SpecStream(a.Hashed()), SpecStream(b.Hashed())) ||
    Collide(h, PkgDepStream(a.packages), PkgDepStream(b.packages)) ||
    ConnectorCollision(h, g, a.lookup, b.lookup, t) ||
    FileCollision(h, a.inputs, b.inputs) || FileCollision(h, a.outputs, b.outputs)
  }

  // ---------------------------------------------------------------- files

  lemma FactAt(h: Str -> Digest, files: FileSet, entries: seq<FileEntry>, p: Str)
    requires Holds(h, files, entries) && p in files.paths
    ensures FactOf(EntryFor(h, files.disk, p, map[])) in Facts(entries)
  {
    assert EntryFor(h, files.disk, p, map[]) in entries;
  }

  lemma FactFrom(h: Str -> Digest, files: FileSet, entries: seq<FileEntry>, f: Fact) returns (p: Str)
    requires Holds(h, files, entries) && f in Facts(entries)
    ensures p in files.paths && f == FactOf(EntryFor(h, files.disk, p, map[]))
  {
    var e :| e in entries && FactOf(e) == f;
    p :| p in files.paths && e == EntryFor(h, files.disk, p, map[]);
  }

  lemma SameFileSameFact(h: Str -> Digest, a: FileSet, p: Str, b: FileSet, q: Str)
    ensures SameFile(a, p, b, q) ==> FactOf(EntryFor(h, a.disk, p, map[])) == FactOf(EntryFor(h, b.disk, q, map[]))
    ensures FactOf(EntryFor(h, a.disk, p, map[])) == FactOf(EntryFor(h, b.disk, q, map[])) ==>
            SameFile(a, p, b, q) || (p in a.disk && q in b.disk && Collide(h, a.disk[p].content, b.disk[q].content))
  {
  }

  lemma KeptMeansFacts(h: Str -> Digest, a: FileSet, x: seq<FileEntry>, b: FileSet, y: seq<FileEntry>)
    requires Holds(h, a, x) && Holds(h, b, y) && FilesKept(a, b)
    ensures Facts(x) <= Facts(y)
  {
    forall f | f in Facts(x) ensures f in Facts(y) {
      var p := FactFrom(h, a, x, f);
      var q :| q in b.paths && SameFile(a, p, b, q);
      SameFileSameFact(h, a, p, b, q);
      FactAt(h, b, y, q);
    }
  }

  lemma FactsMeanKept(h: Str -> Digest, a: FileSet, x: seq<FileEntry>, b: FileSet, y: seq<FileEntry>)
    requires Holds(h, a, x) && Holds(h, b, y) && Facts(x) <= Facts(y) && !FileCollision(h, a, b)
    ensures FilesKept(a, b)
  {
    forall p | p in a.paths ensures exists q :: q in b.paths && SameFile(a, p, b, q) {
      FactAt(h, a, x, p);
      var q := FactFrom(h, b, y, FactOf(EntryFor(h, a.disk, p, map[])));
      SameFileSameFact(h, a, p, b, q);
    }
  }

  lemma CollisionIsSymmetric(h: Str -> Digest, a: FileSet, b: FileSet)
    requires FileCollision(h, a, b)
    ensures FileCollision(h, b, a)
  {
    var p, q :| p in a.paths && q in b.paths && p in a.disk && q in b.disk &&
                Collide(h, a.disk[p].content, b.disk[q].content);
    assert Collide(h, b.disk[q].content, a.disk[p].content);
  }

  lemma HeldAgree(h: Str -> Digest, a: FileSet, x: seq<FileEntry>, b: FileSet, y: seq<FileEntry>)
    requires Holds(h, a, x) && Holds(h, b, y)
    ensures AbsentAgree(x, y)
  {
    forall e | (e in x || e in y) && e.absent ensures e.hash == ZeroHash { }
  }

  /** The diff of two lists finds nothing exactly when the files are the same, or contents collide. */
  lemma DiffMeansFiles(h: Str -> Digest, a: FileSet, x: seq<FileEntry>, b: FileSet, y: seq<FileEntry>)
    requires Holds(h, a, x) && Holds(h, b, y) && !FileCollision(h, a, b)
    ensures Disagreements(IndexByPath(x), IndexByPath(y)) == {} <==> SameFiles(a, b)
  {
    HeldAgree(h, a, x, b, y);
    SameFactsExactly(x, y);
    if FileCollision(h, b, a) { CollisionIsSymmetric(h, b, a); }
    if Facts(x) == Facts(y) {
      FactsMeanKept(h, a, x, b, y);
      FactsMeanKept(h, b, y, a, x);
    }
    if SameFiles(a, b) {
      KeptMeansFacts(h, a, x, b, y);
      KeptMeansFacts(h, b, y, a, x);
    }
  }

  /** Inputs and outputs count as unchanged exactly when both resolve and hold what they held. */
  lemma FilesUnchanged(h: Str -> Digest, g: TaskGraph, t: TaskId, a: Snapshot, b: Snapshot, r: TaskRunRecord,
                       current: CurrentState)
    requires g.Acyclic() && !Collision(h, g, t, a, b)
    requires RecordedAt(h, g, t, a, r) && CurrentAt(h, g, t, b, r, current)
    ensures InputChange(r, current).None? <==> NowInputs(r, current).Some? && SameFiles(a.inputs, b.inputs)
    ensures OutputChange(r, current).None? <==> NowOutputs(r, current).Some? && SameFiles(a.outputs, b.outputs)
  {
    ChangeMeansDiffer(r, current);
    if NowInputs(r, current).Some? { DiffMeansFiles(h, a.inputs, r.inputs, b.inputs, NowInputs(r, current).value); }
    if NowOutputs(r, current).Some? {
      DiffMeansFiles(h, a.outputs, r.outputs, b.outputs, NowOutputs(r, current).value);
    }
  }

  // ---------------------------------------------------------------- the promise

  /** The usable-record checks hold exactly when everything but the files is unchanged, or streams collide. */
  lemma RecordUnchanged(h: Str -> Digest, g: TaskGraph, t: TaskId, a: Snapshot, b: Snapshot, r: TaskRunRecord,
                        current: CurrentState)
    requires g.Acyclic() && WellNamed(g) && a.Fits() && b.Fits() && !Collision(h, g, t, a, b)
    requires RecordedAt(h, g, t, a, r) && CurrentAt(h, g, t, b, r, current)
    ensures CacheablePrior(r, current) <==>
            r.succeeded && r.envHash == current.envHash && a.Hashed() == b.Hashed() && a.nonce == b.nonce &&
            Agree(a.lookup, b.lookup, CountedBehind(g, t)) && forall p :: p in a.packages <==> p in b.packages
  {
    SpecStreamInjective(a.Hashed(), b.Hashed());
    MerkleProperty(h, g, a.lookup, b.lookup, t);
    PkgDepStreamMeaning(a.packages, b.packages);
  }

  /**
   * A task whose last run succeeded, with the same environment, is skipped if and only if its
   * definition and nonce, the output hashes of all counted tasks behind connectors, its package
   * dependencies and the contents of its inputs and of its outputs are what they were, and both file
   * lists resolve; or else two different streams that were really hashed have one digest.
   */
  lemma SkippedExactlyWhenUnchanged(h: Str -> Digest, g: TaskGraph, t: TaskId, a: Snapshot, b: Snapshot,
                                    r: TaskRunRecord, current: CurrentState)
    requires g.Acyclic() && WellNamed(g) && a.Fits() && b.Fits()
    requires RecordedAt(h, g, t, a, r) && CurrentAt(h, g, t, b, r, current)
    ensures Collision(h, g, t, a, b) ||
            (DecideRun(Some(r), current) == Skip <==>
             Unchanged(g, t, a, b) && r.succeeded && r.envHash == current.envHash &&
             NowInputs(r, current).Some? && NowOutputs(r, current).Some?)
  {
    if !Collision(h, g, t, a, b) {
      SkipMeaning(r, current);
      RecordUnchanged(h, g, t, a, b, r, current);
      FilesUnchanged(h, g, t, a, b, r, current);
    }
  }
}
