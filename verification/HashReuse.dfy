/** Content hashes carried from record to record while size and modification time stay the same. */
module HashReuse {
  import opened Basics
  import opened FileEntries
  import opened FilesDiff
  import opened RecordedPaths

  /** A regular file as it can be read. */
  datatype File = File(size: nat, mtime: int, content: Str)

  type Disk = map<Str, File>

  /**
   * One resolved path: absent, or its hash from the earlier entry if that still fits, or a fresh hash.
   * Both the entry and the earlier one go by the recorded form of the path.
   */
  function EntryFor(h: Str -> Digest, disk: Disk, path: Str, prior: ByPath): FileEntry {
    var key := Recorded(path);
    if path !in disk then AbsentEntry(key)
    else
      var f := disk[path];
      var reusable := key in prior && !prior[key].absent && prior[key].size == f.size && prior[key].mtime == f.mtime;
      FileEntry(key, f.size, f.mtime, if reusable then prior[key].hash else h(f.content), false)
  }

  function EntriesFor(h: Str -> Digest, disk: Disk, paths: seq<Str>, prior: ByPath): (r: seq<FileEntry>)
    ensures |r| == |paths|
    ensures forall i :: 0 <= i < |r| ==> r[i] == EntryFor(h, disk, paths[i], prior)
  {
    if paths == [] then []
    else EntriesFor(h, disk, paths[..|paths| - 1], prior) + [EntryFor(h, disk, paths[|paths| - 1], prior)]
  }

  lemma EntriesStep(h: Str -> Digest, disk: Disk, texts: seq<Str>, prior: ByPath, i: nat)
    requires i < |texts|
    ensures EntriesFor(h, disk, texts[..i + 1], prior) ==
            EntriesFor(h, disk, texts[..i], prior) + [EntryFor(h, disk, texts[i], prior)]
  {
    assert texts[..i + 1][..i] == texts[..i];
  }

  // ---------------------------------------------------------------- histories

  /** Files are written and removed, and runs are recorded, each over one earlier record at most. */
  datatype Event =
    | Write(path: Str, file: File)
    | Remove(path: Str)
    | Record(paths: seq<Str>, basedOn: Option<nat>)

  datatype State = State(disk: Disk, records: seq<seq<FileEntry>>)

  function Prior(s: State, basedOn: Option<nat>): ByPath {
    if basedOn.Some? && basedOn.value < |s.records| then IndexByPath(s.records[basedOn.value]) else map[]
  }

  function After(h: Str -> Digest, s: State, e: Event): State {
    match e
    case Write(path, file) => s.(disk := s.disk[path := file])
    case Remove(path) => s.(disk := s.disk - {path})
    case Record(paths, basedOn) => s.(records := s.records + [EntriesFor(h, s.disk, paths, Prior(s, basedOn))])
  }

  function Replay(h: Str -> Digest, events: seq<Event>): State {
    if events == [] then State(map[], []) else After(h, Replay(h, events[..|events| - 1]), events[|events| - 1])
  }

  lemma ReplayStep(h: Str -> Digest, events: seq<Event>, e: Event)
    ensures Replay(h, events + [e]) == After(h, Replay(h, events), e)
  {
    assert (events + [e])[..|events|] == events;
  }

  /** Two writes that the resolver cannot tell apart by recorded path, size and modification time. */
  predicate SameStat(e: Event, f: Event) {
    e.Write? && f.Write? && Recorded(e.path) == Recorded(f.path) && e.file.size == f.file.size &&
    e.file.mtime == f.file.mtime
  }

  /** Writes that cannot be told apart have contents of one hash. */
  ghost predicate StatDetermines(h: Str -> Digest, writes: iset<Event>) {
    forall e, f :: e in writes && f in writes && SameStat(e, f) ==> h(e.file.content) == h(f.file.content)
  }

  /** The history writes nothing else. */
  ghost predicate Uses(events: seq<Event>, writes: iset<Event>) {
    forall i :: 0 <= i < |events| && events[i].Write? ==> events[i] in writes
  }

  /** The entry tells the truth about some write of its recorded path with this size and time. */
  ghost predicate Witnessed(h: Str -> Digest, writes: iset<Event>, e: FileEntry) {
    e.absent || exists w :: w in writes && WitnessOf(h, w, e)
  }

  predicate WitnessOf(h: Str -> Digest, w: Event, e: FileEntry) {
    w.Write? && Recorded(w.path) == e.path && w.file.size == e.size && w.file.mtime == e.mtime &&
    h(w.file.content) == e.hash
  }

  ghost predicate Inv(h: Str -> Digest, writes: iset<Event>, s: State) {
    (forall p :: p in s.disk ==> Write(p, s.disk[p]) in writes) &&
    forall i, e :: 0 <= i < |s.records| && e in s.records[i] ==> Witnessed(h, writes, e)
  }

  lemma {:induction false} IndexedComesFromList(entries: seq<FileEntry>, p: Str)
    requires p in IndexByPath(entries)
    ensures IndexByPath(entries)[p] in entries && IndexByPath(entries)[p].path == p
  {
    if p != entries[|entries| - 1].path { IndexedComesFromList(entries[..|entries| - 1], p); }
  }

  /** A reused hash is the hash of the content that is there now. */
  lemma ReuseIsFresh(h: Str -> Digest, writes: iset<Event>, s: State, path: Str, basedOn: Option<nat>)
    requires StatDetermines(h, writes) && Inv(h, writes, s)
    ensures EntryFor(h, s.disk, path, Prior(s, basedOn)) == EntryFor(h, s.disk, path, map[])
  {
    var prior, key := Prior(s, basedOn), Recorded(path);
    if path in s.disk && key in prior && !prior[key].absent &&
       prior[key].size == s.disk[path].size && prior[key].mtime == s.disk[path].mtime {
      IndexedComesFromList(s.records[basedOn.value], key);
      var e := prior[key];
      assert Witnessed(h, writes, e);
      var w :| w in writes && WitnessOf(h, w, e);
      assert SameStat(w, Write(path, s.disk[path]));
    }
  }

  lemma EntriesFresh(h: Str -> Digest, writes: iset<Event>, s: State, paths: seq<Str>, basedOn: Option<nat>)
    requires StatDetermines(h, writes) && Inv(h, writes, s)
    ensures EntriesFor(h, s.disk, paths, Prior(s, basedOn)) == EntriesFor(h, s.disk, paths, map[])
  {
    forall i | 0 <= i < |paths|
      ensures EntryFor(h, s.disk, paths[i], Prior(s, basedOn)) == EntryFor(h, s.disk, paths[i], map[])
    {
      ReuseIsFresh(h, writes, s, paths[i], basedOn);
    }
  }

  lemma FreshIsWitnessed(h: Str -> Digest, writes: iset<Event>, s: State, path: Str)
    requires Inv(h, writes, s)
    ensures Witnessed(h, writes, EntryFor(h, s.disk, path, map[]))
  {
    if path in s.disk { assert WitnessOf(h, Write(path, s.disk[path]), EntryFor(h, s.disk, path, map[])); }
  }

  lemma StepInv(h: Str -> Digest, writes: iset<Event>, s: State, e: Event)
    requires StatDetermines(h, writes) && Inv(h, writes, s) && (e.Write? ==> e in writes)
    ensures Inv(h, writes, After(h, s, e))
  {
    if e.Record? {
      var s', made := After(h, s, e), EntriesFor(h, s.disk, e.paths, map[]);
      EntriesFresh(h, writes, s, e.paths, e.basedOn);
      forall i, x | 0 <= i < |s'.records| && x in s'.records[i] ensures Witnessed(h, writes, x) {
        if i == |s.records| {
          var j :| 0 <= j < |made| && made[j] == x;
          FreshIsWitnessed(h, writes, s, e.paths[j]);
        }
      }
    }
  }

  lemma {:induction false} HistoryInv(h: Str -> Digest, writes: iset<Event>, events: seq<Event>, n: nat)
    requires StatDetermines(h, writes) && Uses(events, writes) && n <= |events|
    ensures Inv(h, writes, Replay(h, events[..n]))
  {
    if n > 0 {
      HistoryInv(h, writes, events, n - 1);
      assert events[..n][..n - 1] == events[..n - 1];
      StepInv(h, writes, Replay(h, events[..n - 1]), events[n - 1]);
    }
  }

  /** The entry says of its path what is on disk. */
  ghost predicate TrueOf(h: Str -> Digest, disk: Disk, path: Str, e: FileEntry) {
    e.path == Recorded(path) && (e.absent <==> path !in disk) &&
    (path in disk ==> e.size == disk[path].size && e.mtime == disk[path].mtime && e.hash == h(disk[path].content))
  }

  /** What the n-th event records is true of the disk at that time, path by path. */
  ghost predicate RecordIsTrue(h: Str -> Digest, events: seq<Event>, n: nat)
    requires n < |events| && events[n].Record?
  {
    var before, after, paths := Replay(h, events[..n]), Replay(h, events[..n + 1]), events[n].paths;
    |after.records| == |before.records| + 1 && |after.records[|before.records|]| == |paths| &&
    forall i :: 0 <= i < |paths| ==> TrueOf(h, before.disk, paths[i], after.records[|before.records|][i])
  }

  ghost predicate RecordsAllTrue(h: Str -> Digest, events: seq<Event>) {
    forall n :: 0 <= n < |events| && events[n].Record? ==> RecordIsTrue(h, events, n)
  }

  /**
   * Over any history whose indistinguishable writes have one hash, every record holds exactly the
   * entries a resolution from scratch would have given at that time: the true hashes of the files
   * that were there, although most were copied from earlier records.
   */
  lemma RecordsAreTrue(h: Str -> Digest, writes: iset<Event>, events: seq<Event>, n: nat)
    requires StatDetermines(h, writes) && Uses(events, writes) && n < |events| && events[n].Record?
    ensures RecordIsTrue(h, events, n)
    ensures
      var before, after := Replay(h, events[..n]), Replay(h, events[..n + 1]);
      after.records[|before.records|] == EntriesFor(h, before.disk, events[n].paths, map[])
  {
    HistoryInv(h, writes, events, n);
    assert events[..n + 1][..n] == events[..n];
    EntriesFresh(h, writes, Replay(h, events[..n]), events[n].paths, events[n].basedOn);
  }

  /**
   * Two writes that look alike and have different hashes, of one path or of two with one recorded
   * form, can follow each other so that the hash of the first is recorded for the second.
   */
  lemma StaleReuse(h: Str -> Digest, s: State, e: Event, f: Event)
    requires SameStat(e, f) && h(e.file.content) != h(f.file.content)
    ensures
      var s1 := After(h, After(h, s, e), Record([e.path], None));
      var s2 := After(h, s1, f);
      var s3 := After(h, s2, Record([f.path], Some(|s.records|)));
      |s3.records| == |s.records| + 2 && |s2.records| == |s.records| + 1 &&
      var stale := s3.records[|s.records| + 1];
      |stale| == 1 && !TrueOf(h, s2.disk, f.path, stale[0])
  {
    var disk := s.disk[e.path := e.file];
    var first := EntryFor(h, disk, e.path, map[]);
    var s1 := After(h, After(h, s, e), Record([e.path], None));
    OneEntry(h, disk, e.path, map[]);
    assert s1.records[|s.records|] == [first];
    var s2 := After(h, s1, f);
    assert s2.records == s1.records && s2.disk[f.path] == f.file;
    OneIndexed(first);
    OneEntry(h, s2.disk, f.path, map[first.path := first]);
  }

  lemma OneEntry(h: Str -> Digest, disk: Disk, path: Str, prior: ByPath)
    ensures EntriesFor(h, disk, [path], prior) == [EntryFor(h, disk, path, prior)]
  {
    assert [path][..0] == [];
  }

  lemma OneIndexed(e: FileEntry)
    ensures IndexByPath([e]) == map[e.path := e]
  {
    assert [e][..0] == [];
  }

  function StaleHistory(e: Event, f: Event): seq<Event>
    requires e.Write? && f.Write?
  {
    [e, Record([e.path], None), f, Record([f.path], Some(0))]
  }

  lemma StaleHistoryLies(h: Str -> Digest, e: Event, f: Event)
    requires SameStat(e, f) && h(e.file.content) != h(f.file.content)
    ensures !RecordsAllTrue(h, StaleHistory(e, f))
  {
    var events, s := StaleHistory(e, f), State(map[], []);
    assert events[..0] == [] && events[..1] == events[..0] + [e] && events[..2] == events[..1] + [events[1]];
    assert events[..3] == events[..2] + [f] && events[..4] == events[..3] + [events[3]];
    ReplayStep(h, events[..0], e);
    ReplayStep(h, events[..1], events[1]);
    ReplayStep(h, events[..2], f);
    ReplayStep(h, events[..3], events[3]);
    StaleReuse(h, s, e, f);
    assert !RecordIsTrue(h, events, 3);
  }

  /**
   * Exactly when reuse is safe: every history made of a set of writes, with removals and recorded
   * runs in any order, records only true entries if and only if any two of the writes that look
   * alike have contents of one hash.
   */
  lemma TrueHistories(h: Str -> Digest, writes: iset<Event>)
    requires forall e :: e in writes ==> e.Write?
    ensures (forall events: seq<Event> :: Uses(events, writes) ==> RecordsAllTrue(h, events)) <==>
            StatDetermines(h, writes)
  {
    if StatDetermines(h, writes) {
      forall events: seq<Event> | Uses(events, writes) ensures RecordsAllTrue(h, events) {
        forall n | 0 <= n < |events| && events[n].Record? ensures RecordIsTrue(h, events, n) {
          RecordsAreTrue(h, writes, events, n);
        }
      }
    } else {
      var e, f :| e in writes && f in writes && SameStat(e, f) && h(e.file.content) != h(f.file.content);
      StaleHistoryLies(h, e, f);
      assert Uses(StaleHistory(e, f), writes);
    }
  }

  /** Files `x\y` and `x/y` with one size and time look alike, so one takes the hash of the other. */
  lemma SeparatorsLookAlike(x: Str, y: Str, f: File, g: File)
    requires f.size == g.size && f.mtime == g.mtime
    ensures SameStat(Write(x + "\\" + y, f), Write(x + "/" + y, g))
  {
    SeparatorsMerge(x, y);
  }
}
