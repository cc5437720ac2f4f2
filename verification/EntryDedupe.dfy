/** Merged entries deduped by the file they name and sorted by recorded path. */
module EntryDedupe {
  import opened Basics
  import opened Sorting
  import opened FileEntries

  /** Absent entries are told apart by path, present ones by the file they name. */
  function DedupeKey(canonical: Str -> Str, e: FileEntry): (bool, Str) {
    (e.absent, if e.absent then e.path else canonical(e.path))
  }

  predicate HasKey(canonical: Str -> Str, entries: seq<FileEntry>, key: (bool, Str)) {
    exists x :: x in entries && DedupeKey(canonical, x) == key
  }

  predicate KeySeen(canonical: Str -> Str, entries: seq<FileEntry>, e: FileEntry) {
    HasKey(canonical, entries, DedupeKey(canonical, e))
  }

  lemma KeyAdded(canonical: Str -> Str, entries: seq<FileEntry>, e: FileEntry)
    ensures forall key :: HasKey(canonical, entries + [e], key) <==>
              HasKey(canonical, entries, key) || key == DedupeKey(canonical, e)
  {
    var all := entries + [e];
    assert e in all && forall x :: x in all <==> x in entries || x == e;
    forall key | HasKey(canonical, entries, key) ensures HasKey(canonical, all, key) {
      var x :| x in entries && DedupeKey(canonical, x) == key;
      assert x in all;
    }
  }

  ghost function KeySet(canonical: Str -> Str, entries: seq<FileEntry>): set<(bool, Str)> {
    set e | e in entries :: DedupeKey(canonical, e)
  }

  lemma SameKeys(canonical: Str -> Str, a: seq<FileEntry>, b: seq<FileEntry>)
    requires forall key :: HasKey(canonical, a, key) <==> HasKey(canonical, b, key)
    ensures KeySet(canonical, a) == KeySet(canonical, b)
  {
    forall k ensures k in KeySet(canonical, a) <==> k in KeySet(canonical, b) {
      assert k in KeySet(canonical, a) <==> HasKey(canonical, a, k);
      assert k in KeySet(canonical, b) <==> HasKey(canonical, b, k);
    }
  }

  /** The first entry of every key. */
  function Dedupe(canonical: Str -> Str, entries: seq<FileEntry>): seq<FileEntry> {
    if entries == [] then []
    else
      var init, last := entries[..|entries| - 1], entries[|entries| - 1];
      if KeySeen(canonical, init, last) then Dedupe(canonical, init) else Dedupe(canonical, init) + [last]
  }

  /** The seen-sets hold the keys of the entries read so far. */
  ghost predicate Seen(canonical: Str -> Str, done: seq<FileEntry>, present: set<Str>, absent: set<Str>) {
    (forall k :: k in absent <==> HasKey(canonical, done, (true, k))) &&
    forall k :: k in present <==> HasKey(canonical, done, (false, k))
  }

  lemma SeenStep(canonical: Str -> Str, done: seq<FileEntry>, e: FileEntry, present: set<Str>, absent: set<Str>)
    requires Seen(canonical, done, present, absent)
    ensures KeySeen(canonical, done, e) <==> if e.absent then e.path in absent else canonical(e.path) in present
    ensures Seen(canonical, done + [e], if e.absent then present else present + {canonical(e.path)},
                 if e.absent then absent + {e.path} else absent)
    ensures Dedupe(canonical, done + [e]) == Dedupe(canonical, done) + if KeySeen(canonical, done, e) then [] else [e]
  {
    KeyAdded(canonical, done, e);
    assert (done + [e])[..|done|] == done;
  }

  method DedupeAndSort(canonical: Str -> Str, entries: seq<FileEntry>) returns (result: seq<FileEntry>)
    ensures result == Sort(PathBelow, Dedupe(canonical, entries))
  {
    var seenPresent: set<Str>, seenAbsent: set<Str> := {}, {};
    var deduped: seq<FileEntry> := [];
    for i := 0 to |entries|
      invariant deduped == Dedupe(canonical, entries[..i]) && Seen(canonical, entries[..i], seenPresent, seenAbsent)
    {
      var entry := entries[i];
      assert entries[..i + 1] == entries[..i] + [entry];
      SeenStep(canonical, entries[..i], entry, seenPresent, seenAbsent);
      if entry.absent {
        if entry.path !in seenAbsent { deduped := deduped + [entry]; }
        seenAbsent := seenAbsent + {entry.path};
        continue;
      }
      if canonical(entry.path) !in seenPresent { deduped := deduped + [entry]; }
      seenPresent := seenPresent + {canonical(entry.path)};
    }
    assert entries[..|entries|] == entries;
    result := Sort(PathBelow, deduped);
  }

  ghost predicate DistinctKeys(canonical: Str -> Str, entries: seq<FileEntry>) {
    forall i, j :: 0 <= i < j < |entries| ==> DedupeKey(canonical, entries[i]) != DedupeKey(canonical, entries[j])
  }

  /** Dedupe keeps entries of the list, one of each key. */
  lemma {:induction false} DedupeKeepsKeys(canonical: Str -> Str, entries: seq<FileEntry>)
    ensures forall e :: e in Dedupe(canonical, entries) ==> e in entries
    ensures forall key :: HasKey(canonical, Dedupe(canonical, entries), key) <==> HasKey(canonical, entries, key)
    ensures DistinctKeys(canonical, Dedupe(canonical, entries))
  {
    if entries != [] {
      var init, last := entries[..|entries| - 1], entries[|entries| - 1];
      assert entries == init + [last];
      DedupeKeepsKeys(canonical, init);
      KeyAdded(canonical, init, last);
      if !KeySeen(canonical, init, last) { OneKeyMore(canonical, Dedupe(canonical, init), last); }
    }
  }

  lemma OneKeyMore(canonical: Str -> Str, kept: seq<FileEntry>, e: FileEntry)
    requires DistinctKeys(canonical, kept) && !KeySeen(canonical, kept, e)
    ensures DistinctKeys(canonical, kept + [e])
    ensures forall key :: HasKey(canonical, kept + [e], key) <==>
              HasKey(canonical, kept, key) || key == DedupeKey(canonical, e)
  {
    KeyAdded(canonical, kept, e);
    forall i | 0 <= i < |kept| ensures DedupeKey(canonical, kept[i]) != DedupeKey(canonical, e) {
      assert kept[i] in kept;
    }
  }

  /** The kept entry of a key is the first one. */
  lemma {:induction false} FirstIsKept(canonical: Str -> Str, entries: seq<FileEntry>)
    requires entries != []
    ensures Dedupe(canonical, entries) != [] && Dedupe(canonical, entries)[0] == entries[0]
  {
    var init, last := entries[..|entries| - 1], entries[|entries| - 1];
    if init != [] { FirstIsKept(canonical, init); }
  }

  /** No two different entries with one key or one recorded path. */
  ghost predicate Separate(canonical: Str -> Str, entries: seq<FileEntry>) {
    forall x, y ::
      x in entries && y in entries && (DedupeKey(canonical, x) == DedupeKey(canonical, y) || x.path == y.path) ==>
      x == y
  }

  /** Then dedupe loses no entry, and the sorted list is strictly sorted. */
  lemma DedupeMeaning(canonical: Str -> Str, entries: seq<FileEntry>)
    requires Separate(canonical, entries)
    ensures
      var result := Sort(PathBelow, Dedupe(canonical, entries));
      StrictlySorted(PathBelow, result) && forall e :: e in result <==> e in entries
  {
    var kept := Dedupe(canonical, entries);
    DedupeKeepsKeys(canonical, entries);
    forall e | e in entries ensures e in kept {
      assert HasKey(canonical, entries, DedupeKey(canonical, e));
      var x :| x in kept && DedupeKey(canonical, x) == DedupeKey(canonical, e);
    }
    SortPermutes(PathBelow, kept);
    forall i, j | 0 <= i < j < |kept| ensures kept[i].path != kept[j].path {
      assert kept[i] in kept && kept[j] in kept;
    }
    SortedStrictly(kept);
  }

  lemma SortedStrictly(entries: seq<FileEntry>)
    requires DistinctPaths(entries)
    ensures StrictlySorted(PathBelow, Sort(PathBelow, entries))
  {
    var sorted := Sort(PathBelow, entries);
    SortPermutes(PathBelow, entries);
    PathBelowIsWeakOrder();
    SortSorts(PathBelow, entries);
    PermutationKeepsDistinct(sorted, entries);
    forall i, j | 0 <= i < j < |sorted| ensures PathBelow(sorted[i], sorted[j]) {
      LessTotal(sorted[i].path, sorted[j].path);
    }
  }

  lemma PathsUnique(a: seq<FileEntry>, b: seq<FileEntry>)
    requires StrictlySorted(PathBelow, a) && StrictlySorted(PathBelow, b) && forall e :: e in a <==> e in b
    ensures a == b
  {
    forall x, y | PathBelow(x, y) ensures !PathBelow(y, x) { LessTotal(x.path, y.path); }
    StrictlySortedUnique(PathBelow, a, b);
  }

  // ---------------------------------------------------------------- exactly when the order does not matter

  /** With x first, its path starts with x, and no other entry has its key. */
  lemma FirstWins(canonical: Str -> Str, x: FileEntry, rest: seq<FileEntry>)
    ensures
      var result := Sort(PathBelow, Dedupe(canonical, [x] + rest));
      var same := Filter((e: FileEntry) => e.path == x.path, result);
      same != [] && same[0] == x && x in result &&
      forall y :: y in result && DedupeKey(canonical, y) == DedupeKey(canonical, x) ==> y == x
  {
    var kept, keep := Dedupe(canonical, [x] + rest), (e: FileEntry) => e.path == x.path;
    FirstIsKept(canonical, [x] + rest);
    DedupeKeepsKeys(canonical, [x] + rest);
    forall a, b | keep(a) && keep(b) ensures !PathBelow(a, b) { LessTotal(a.path, b.path); }
    SortStable(PathBelow, keep, kept);
    SortPermutes(PathBelow, kept);
    assert kept[0] in kept &&
           forall i :: 0 < i < |kept| ==> DedupeKey(canonical, kept[0]) != DedupeKey(canonical, kept[i]);
  }

  lemma OrderMatters(canonical: Str -> Str, a: seq<FileEntry>, x: FileEntry, y: FileEntry)
    returns (b: seq<FileEntry>, c: seq<FileEntry>)
    requires x in a && y in a && x != y && (DedupeKey(canonical, x) == DedupeKey(canonical, y) || x.path == y.path)
    ensures multiset(b) == multiset(a) && multiset(c) == multiset(a)
    ensures Sort(PathBelow, Dedupe(canonical, b)) != Sort(PathBelow, Dedupe(canonical, c))
  {
    var others := Pull(a, x);
    assert y in multiset([x] + others) && y in others;
    var rest := Pull(others, y);
    b, c := [x] + ([y] + rest), [y] + ([x] + rest);
    FirstWins(canonical, x, [y] + rest);
    FirstWins(canonical, y, [x] + rest);
  }

  /**
   * The deduped and sorted list is the same for every order of the entries exactly when no two
   * different entries share a key or a recorded path.
   */
  lemma OrderIndependentExactly(canonical: Str -> Str, a: seq<FileEntry>)
    ensures (forall b :: multiset(b) == multiset(a) ==>
               Sort(PathBelow, Dedupe(canonical, b)) ==
               Sort(PathBelow, Dedupe(canonical, a))) <==> Separate(canonical, a)
  {
    if Separate(canonical, a) {
      DedupeMeaning(canonical, a);
      forall b | multiset(b) == multiset(a)
        ensures Sort(PathBelow, Dedupe(canonical, b)) == Sort(PathBelow, Dedupe(canonical, a))
      {
        SamePermutation(a, b);
        DedupeMeaning(canonical, b);
        PathsUnique(Sort(PathBelow, Dedupe(canonical, b)), Sort(PathBelow, Dedupe(canonical, a)));
      }
    } else {
      var x, y :| x in a && y in a && (DedupeKey(canonical, x) == DedupeKey(canonical, y) || x.path == y.path) &&
                  x != y;
      var b, c := OrderMatters(canonical, a, x, y);
    }
  }
}
