/** Output files of a task as the entries of its record: each resolved path once, in path order. */
module OutputEntries {
  import opened Basics
  import opened Sorting
  import opened FileEntries
  import opened FilesDiff
  import opened HashReuse
  import opened ResolveOutputs
  import opened LimitedWalk

  /** The order in which an ordered set of paths is walked. */
  function PathAscending(texts: set<Str>): seq<Str> {
    Sort(PathTextBelow, Ascending(texts))
  }

  /** The entries of the outputs found among some candidates; None when a pattern does not compile. */
  ghost function Outputs(h: Str -> Digest, disk: Disk, patterns: seq<Str>, candidates: set<Path>,
                         prior: ByPath): Option<seq<FileEntry>>
    requires forall c :: c in candidates ==> c != []
  {
    var paths := Resolved(patterns, candidates);
    if paths.None? then None else Some(EntriesFor(h, disk, PathAscending(paths.value), prior))
  }

  method ResolveWithCandidates(h: Str -> Digest, disk: Disk, patterns: seq<Str>, candidates: seq<Path>, prior: ByPath)
    returns (entries: Option<seq<FileEntry>>)
    requires AllFiles(candidates)
    ensures entries == Outputs(h, disk, patterns, (set c | c in candidates), prior)
  {
    var paths := ResolvePaths(patterns, candidates);
    if paths.None? { return None; }
    var texts, made := PathAscending(paths.value), [];
    for i := 0 to |texts|
      invariant made == EntriesFor(h, disk, texts[..i], prior)
    {
      EntriesStep(h, disk, texts, prior, i);
      made := made + [EntryFor(h, disk, texts[i], prior)];
    }
    assert texts[..|texts|] == texts;
    return Some(made);
  }

  // ---------------------------------------------------------------- each path once, in order

  lemma ComponentTotal(a: Component, b: Component)
    ensures ComponentBelow(a, b) || a == b || ComponentBelow(b, a)
    ensures ComponentBelow(a, b) ==> !ComponentBelow(b, a) && a != b
  {
    if a.Named? && b.Named? { LessTotal(a.name, b.name); }
  }

  lemma {:induction false} ComponentsTotal(a: seq<Component>, b: seq<Component>)
    ensures ComponentsBelow(a, b) || a == b || ComponentsBelow(b, a)
    ensures ComponentsBelow(a, b) ==> !ComponentsBelow(b, a) && a != b
  {
    if a != [] && b != [] {
      ComponentTotal(a[0], b[0]);
      ComponentsTotal(a[1..], b[1..]);
      assert a == [a[0]] + a[1..] && b == [b[0]] + b[1..];
    }
  }

  lemma ComponentTransitive(a: Component, b: Component, c: Component)
    requires ComponentBelow(a, b) && ComponentBelow(b, c)
    ensures ComponentBelow(a, c)
  {
    if a.Named? && b.Named? && c.Named? { LessTransitive(a.name, b.name, c.name); }
  }

  lemma {:induction false} ComponentsTransitive(a: seq<Component>, b: seq<Component>, c: seq<Component>)
    requires ComponentsBelow(a, b) && ComponentsBelow(b, c)
    ensures ComponentsBelow(a, c)
  {
    if a != [] {
      if ComponentBelow(a[0], b[0]) && ComponentBelow(b[0], c[0]) { ComponentTransitive(a[0], b[0], c[0]); }
      if a[0] == b[0] == c[0] && !ComponentBelow(a[0], b[0]) && !ComponentBelow(b[0], c[0]) {
        ComponentsTransitive(a[1..], b[1..], c[1..]);
      }
      ComponentTotal(a[0], b[0]);
      ComponentTotal(b[0], c[0]);
    }
  }

  lemma PathOrderIsWeak()
    ensures WeakOrder(PathTextBelow)
  {
    forall a, b | PathTextBelow(a, b) ensures !PathTextBelow(b, a) { ComponentsTotal(Components(a), Components(b)); }
    forall a, b, c | !PathTextBelow(a, b) && !PathTextBelow(b, c) ensures !PathTextBelow(a, c) {
      var x, y, z := Components(a), Components(b), Components(c);
      ComponentsTotal(x, y);
      ComponentsTotal(y, z);
      ComponentsTotal(x, z);
      if x != y && y != z { ComponentsTransitive(z, y, x); }
    }
  }

  lemma {:induction false} LiteralsDistinct(patterns: seq<Str>, a: Str, b: Str)
    requires a in LiteralPaths(patterns) && b in LiteralPaths(patterns) && Components(a) == Components(b)
    ensures a == b
  {
    var rest := patterns[..|patterns| - 1];
    if a in LiteralPaths(rest) && b in LiteralPaths(rest) { LiteralsDistinct(rest, a, b); }
  }

  /** No two resolved texts spell one path. */
  lemma ResolvedDistinct(patterns: seq<Str>, candidates: set<Path>, a: Str, b: Str)
    requires ValidTree(candidates) && Resolved(patterns, candidates).Some?
    requires a in Resolved(patterns, candidates).value && b in Resolved(patterns, candidates).value &&
             Components(a) == Components(b)
    ensures a == b
  {
    if a in LiteralPaths(patterns) && b in LiteralPaths(patterns) {
      LiteralsDistinct(patterns, a, b);
    } else if a !in LiteralPaths(patterns) && b !in LiteralPaths(patterns) {
      var f :| f in candidates && Text(f) == a;
      var g :| g in candidates && Text(g) == b;
      SameComponents(f, g);
    }
  }

  /** The texts are walked in strictly ascending path order, and all of them. */
  lemma OutputOrder(patterns: seq<Str>, candidates: set<Path>)
    requires ValidTree(candidates) && Resolved(patterns, candidates).Some?
    ensures
      var texts := Resolved(patterns, candidates).value;
      StrictlySorted(PathTextBelow, PathAscending(texts)) && forall t :: t in PathAscending(texts) <==> t in texts
  {
    var texts := Resolved(patterns, candidates).value;
    var listed, sorted := Ascending(texts), PathAscending(texts);
    AscendingIsOrdered(texts);
    SortPermutes(PathTextBelow, listed);
    PathOrderIsWeak();
    SortSorts(PathTextBelow, listed);
    AscendingIsDistinct(listed);
    DistinctSorted(listed, sorted);
    forall i, j | 0 <= i < j < |sorted| ensures PathTextBelow(sorted[i], sorted[j]) {
      assert sorted[i] in sorted && sorted[j] in sorted;
      ComponentsTotal(Components(sorted[i]), Components(sorted[j]));
      if Components(sorted[i]) == Components(sorted[j]) {
        ResolvedDistinct(patterns, candidates, sorted[i], sorted[j]);
      }
    }
  }

  lemma DistinctSorted(a: seq<Str>, b: seq<Str>)
    requires Distinct(a) && multiset(a) == multiset(b)
    ensures Distinct(b)
  {
    forall i, j | 0 <= i < j < |b| ensures b[i] != b[j] {
      OnceOnly(a, b[i]);
      assert b == b[..i] + [b[i]] + b[i + 1..j] + [b[j]] + b[j + 1..];
    }
  }

  lemma {:induction false} OnceOnly(a: seq<Str>, x: Str)
    requires Distinct(a)
    ensures multiset(a)[x] <= 1
  {
    if a != [] {
      OnceOnly(a[1..], x);
      assert a == [a[0]] + a[1..];
    }
  }

  /** From the limited walk come the entries that the full walk gives. */
  lemma LimitedOutputs(h: Str -> Digest, disk: Disk, patterns: seq<Str>, tree: Tree, prior: ByPath)
    requires ValidTree(tree) && RootsFit(patterns)
    ensures Outputs(h, disk, patterns, Listing(tree, PrefixUnion(patterns)), prior) ==
            Outputs(h, disk, patterns, tree, prior)
  {
    FittingRootsSuffice(patterns, tree);
  }
}
