/** Snapshots of resolved files, and the framed stream that stands for a list of them. */
module FileEntries {
  import opened Basics
  import opened Sorting

  const ZeroHash: Digest := LittleEndian(0, 32)

  /** One resolved path; `absent` marks a declared literal path that did not exist. */
  datatype FileEntry = FileEntry(path: Str, size: nat, mtime: int, hash: Digest, absent: bool)

  function AbsentEntry(path: Str): FileEntry {
    FileEntry(path, 0, 0, ZeroHash, true)
  }

  ghost predicate DistinctPaths(entries: seq<FileEntry>) {
    forall i, j :: 0 <= i < j < |entries| ==> entries[i].path != entries[j].path
  }

  predicate PathBelow(a: FileEntry, b: FileEntry) {
    Less(a.path, b.path)
  }

  lemma PathBelowIsWeakOrder()
    ensures WeakOrder(PathBelow)
  {
    forall a, b | PathBelow(a, b) ensures !PathBelow(b, a) { LessTotal(a.path, b.path); }
    forall a, b, c | !PathBelow(a, b) && !PathBelow(b, c) ensures !PathBelow(a, c) {
      LessTotal(a.path, b.path);
      LessTotal(b.path, c.path);
      LessTotal(a.path, c.path);
      if Less(b.path, a.path) && Less(c.path, b.path) { LessTransitive(c.path, b.path, a.path); }
    }
  }

  // ---------------------------------------------------------------- what a list says

  /** What the stream of a list depends on: not size, not modification time, not order. */
  datatype Fact = Fact(path: Str, absent: bool, hash: Digest)

  function FactOf(e: FileEntry): Fact {
    Fact(e.path, e.absent, e.hash)
  }

  ghost function Facts(entries: seq<FileEntry>): set<Fact> {
    set e | e in entries :: FactOf(e)
  }

  function FactList(entries: seq<FileEntry>): (r: seq<Fact>)
    ensures |r| == |entries|
    ensures forall i :: 0 <= i < |r| ==> r[i] == FactOf(entries[i])
  {
    seq(|entries|, i requires 0 <= i < |entries| => FactOf(entries[i]))
  }

  /** The facts of a list in path order. */
  function OrderedFacts(entries: seq<FileEntry>): seq<Fact> {
    FactList(Sort(PathBelow, entries))
  }

  ghost predicate AscendingFacts(facts: seq<Fact>) {
    StrictlySorted(FactBelow, facts)
  }

  lemma OrderedFactsContents(entries: seq<FileEntry>)
    ensures |OrderedFacts(entries)| == |entries|
    ensures forall f :: f in OrderedFacts(entries) <==> f in Facts(entries)
  {
    var sorted := Sort(PathBelow, entries);
    SortPermutes(PathBelow, entries);
    forall f ensures f in OrderedFacts(entries) <==> f in Facts(entries) {
      if f in OrderedFacts(entries) {
        var i :| 0 <= i < |sorted| && OrderedFacts(entries)[i] == f;
        assert sorted[i] in entries;
      }
      if f in Facts(entries) {
        var e :| e in entries && FactOf(e) == f;
        assert e in sorted;
        var i :| 0 <= i < |sorted| && sorted[i] == e;
        assert OrderedFacts(entries)[i] == f;
      }
    }
  }

  lemma OrderedFactsAscend(entries: seq<FileEntry>)
    requires DistinctPaths(entries)
    ensures AscendingFacts(OrderedFacts(entries))
  {
    var sorted := Sort(PathBelow, entries);
    PathBelowIsWeakOrder();
    SortSorts(PathBelow, entries);
    SortPermutes(PathBelow, entries);
    forall i, j | 0 <= i < j < |sorted| ensures Less(sorted[i].path, sorted[j].path) {
      PermutationKeepsDistinct(sorted, entries);
      LessTotal(sorted[i].path, sorted[j].path);
    }
  }

  lemma PermutationKeepsDistinct(a: seq<FileEntry>, b: seq<FileEntry>)
    requires multiset(a) == multiset(b) && DistinctPaths(b)
    ensures DistinctPaths(a)
  {
    forall i, j | 0 <= i < j < |a| ensures a[i].path != a[j].path {
      var x, y := a[i], a[j];
      assert a == a[..i] + [x] + a[i + 1..j] + [y] + a[j + 1..];
      OccursOnce(b, x);
      assert x == y ==> multiset(a)[x] >= 2;
      assert x in multiset(b) && y in multiset(b);
      var k, l :| 0 <= k < |b| && b[k] == x && 0 <= l < |b| && b[l] == y;
    }
  }

  lemma {:induction false} OccursOnce(b: seq<FileEntry>, x: FileEntry)
    requires DistinctPaths(b)
    ensures multiset(b)[x] <= 1
  {
    if b != [] {
      OccursOnce(b[1..], x);
      assert b == [b[0]] + b[1..];
      if x == b[0] { assert x !in b[1..]; assert multiset(b[1..])[x] == 0; }
    }
  }

  predicate FactBelow(f: Fact, g: Fact) {
    Less(f.path, g.path)
  }

  lemma AscendingFactsUnique(a: seq<Fact>, b: seq<Fact>)
    requires AscendingFacts(a) && AscendingFacts(b)
    requires forall f :: f in a <==> f in b
    ensures a == b
  {
    forall f, g | FactBelow(f, g) ensures !FactBelow(g, f) { LessTotal(f.path, g.path); }
    StrictlySortedUnique(FactBelow, a, b);
  }

  // ---------------------------------------------------------------- the stream

  const OutputsDomain: Str := "luchta-cache:combined-outputs:v1"
  const InputsDomain: Str := "luchta-cache:combined-inputs:v1"
  const CacheFilesDomain: Str := "luchta-cache:combined-cache-files:v1"

  function Frame(f: Fact): Str {
    LengthPrefixed(f.path) + (Flag(f.absent) + f.hash)
  }

  function FactFrames(facts: seq<Fact>): Str {
    if facts == [] then [] else FactFrames(facts[..|facts| - 1]) + Frame(facts[|facts| - 1])
  }

  /** The bytes hashed for a list of entries in one of the three roles. */
  function CombinedStream(domain: Str, entries: seq<FileEntry>): Str {
    domain + LittleEndian(|entries|, 8) + FactFrames(OrderedFacts(entries))
  }

  function CombinedHash(h: Str -> Digest, domain: Str, entries: seq<FileEntry>): Digest {
    h(CombinedStream(domain, entries))
  }

  /** Feeding the hasher entry by entry feeds it the stream. */
  method CombinedEntriesHash(h: Str -> Digest, domain: Str, entries: seq<FileEntry>) returns (digest: Digest)
    ensures digest == CombinedHash(h, domain, entries)
  {
    var sorted := Sort(PathBelow, entries);
    SortPermutes(PathBelow, entries);
    var fed: Str := domain + LittleEndian(|sorted|, 8);
    ghost var facts, head := OrderedFacts(entries), fed;
    for i := 0 to |sorted|
      invariant fed == head + FactFrames(facts[..i])
    {
      FramesStep(facts, i, head);
      fed := fed + Frame(FactOf(sorted[i]));
    }
    assert facts[..|sorted|] == facts;
    digest := h(fed);
  }

  lemma FramesStep(facts: seq<Fact>, i: nat, head: Str)
    requires i < |facts|
    ensures head + FactFrames(facts[..i + 1]) == head + FactFrames(facts[..i]) + Frame(facts[i])
  {
    assert facts[..i + 1][..i] == facts[..i];
  }

  // ---------------------------------------------------------------- what the stream determines

  /** Lists that fit in memory: lengths are 64-bit. */
  predicate Sized(entries: seq<FileEntry>) {
    |entries| <= U64Max && forall i :: 0 <= i < |entries| ==> |entries[i].path| <= U64Max
  }

  predicate SizedFacts(facts: seq<Fact>) {
    forall i :: 0 <= i < |facts| ==> |facts[i].path| <= U64Max
  }

  lemma {:induction false} FactFramesFromHead(facts: seq<Fact>)
    requires facts != []
    ensures FactFrames(facts) == Frame(facts[0]) + FactFrames(facts[1..])
  {
    if |facts| > 1 {
      var init, last := facts[..|facts| - 1], facts[|facts| - 1];
      FactFramesFromHead(init);
      assert init[1..] == facts[1..][..|facts| - 2];
      assert FactFrames(facts[1..]) == FactFrames(init[1..]) + Frame(last);
    } else {
      assert facts[..0] == [] && facts[1..] == [];
    }
  }

  /** One frame can be read off the front of a stream in one way only. */
  lemma FramePrefixFree(f: Fact, x: Str, g: Fact, y: Str)
    requires |f.path| <= U64Max && |g.path| <= U64Max
    requires Frame(f) + x == Frame(g) + y
    ensures f == g && x == y
  {
    var u: Str, v: Str := Flag(f.absent) + f.hash, Flag(g.absent) + g.hash;
    Associate(LengthPrefixed(f.path), u, x);
    Associate(LengthPrefixed(g.path), v, y);
    LengthPrefixFree(f.path, u + x, g.path, v + y);
    SplitEqual(u, x, v, y);
    SplitEqual(Flag(f.absent), f.hash, Flag(g.absent), g.hash);
    assert Flag(f.absent)[0] == Flag(g.absent)[0];
  }

  lemma {:induction false} FactFramesInjective(a: seq<Fact>, b: seq<Fact>)
    requires |a| == |b| && SizedFacts(a) && SizedFacts(b)
    requires FactFrames(a) == FactFrames(b)
    ensures a == b
  {
    if a != [] {
      FactFramesFromHead(a);
      FactFramesFromHead(b);
      FramePrefixFree(a[0], FactFrames(a[1..]), b[0], FactFrames(b[1..]));
      FactFramesInjective(a[1..], b[1..]);
      assert a == [a[0]] + a[1..] && b == [b[0]] + b[1..];
    }
  }

  lemma OrderedFactsSized(entries: seq<FileEntry>)
    requires Sized(entries)
    ensures SizedFacts(OrderedFacts(entries))
  {
    SortPermutes(PathBelow, entries);
    var sorted := Sort(PathBelow, entries);
    assert forall i :: 0 <= i < |sorted| ==> sorted[i] in entries;
  }

  /**
   * For lists with distinct paths the streams are equal exactly when the lists say the same of the
   * same paths, in whatever order, and with whatever sizes and modification times.
   */
  lemma CombinedStreamMeaning(domain: Str, a: seq<FileEntry>, b: seq<FileEntry>)
    requires DistinctPaths(a) && DistinctPaths(b) && Sized(a) && Sized(b)
    ensures CombinedStream(domain, a) == CombinedStream(domain, b) <==> Facts(a) == Facts(b)
  {
    var p, q := OrderedFacts(a), OrderedFacts(b);
    OrderedFactsContents(a);
    OrderedFactsContents(b);
    if CombinedStream(domain, a) == CombinedStream(domain, b) {
      var x, y := LittleEndian(|a|, 8), LittleEndian(|b|, 8);
      SplitEqual(domain + x, FactFrames(p), domain + y, FactFrames(q));
      SplitEqual(domain, x, domain, y);
      Power256Values();
      LittleEndianInjective(|a|, |b|, 8);
      OrderedFactsSized(a);
      OrderedFactsSized(b);
      FactFramesInjective(p, q);
      assert forall f :: f in Facts(a) <==> f in Facts(b);
    }
    if Facts(a) == Facts(b) {
      OrderedFactsAscend(a);
      OrderedFactsAscend(b);
      AscendingFactsUnique(p, q);
    }
  }

  /** Streams in different roles are never equal, so no list can pass for one in another role. */
  lemma DomainsSeparate(a: seq<FileEntry>, b: seq<FileEntry>, c: seq<FileEntry>)
    ensures CombinedStream(InputsDomain, a) != CombinedStream(OutputsDomain, b)
    ensures CombinedStream(InputsDomain, a) != CombinedStream(CacheFilesDomain, c)
    ensures CombinedStream(OutputsDomain, b) != CombinedStream(CacheFilesDomain, c)
  {
    var i, o := CombinedStream(InputsDomain, a), CombinedStream(OutputsDomain, b);
    var f := CombinedStream(CacheFilesDomain, c);
    assert i[22] == InputsDomain[22] == 'i';
    assert o[22] == OutputsDomain[22] == 'o';
    assert f[22] == CacheFilesDomain[22] == 'c';
  }
}
