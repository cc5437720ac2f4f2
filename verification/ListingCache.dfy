/** The listing cache that all tasks of one run share. */
module ListingCache {
  import opened Basics
  import opened Sorting
  import opened Glob
  import opened FileEntries
  import opened FilesDiff
  import opened HashReuse
  import opened ResolveOutputs
  import opened LimitedWalk
  import opened OutputEntries
  import opened EntryDedupe
  import R = ResolveInputs

  type Dir = seq<Str>

  /**
   * What the file system answers while it does not change: the worktree root of a directory, the
   * tracked files below a directory of a worktree, and the files of an output tree, None being an
   * error; then the worktree of the run, its files and their canonical spelling, and the files below
   * an output directory.
   */
  datatype World = World(
    root: Dir -> Option<Dir>,
    tracked: (Dir, Dir) -> Option<seq<Path>>,
    files: Dir -> Option<Tree>,
    home: Dir,
    inputDisk: Disk,
    canonical: Str -> Str,
    outputDisk: Dir -> Disk)
  {
    /** Listings hold files, and all inputs lie in one worktree. */
    ghost predicate Valid() {
      (forall b, r :: tracked(b, r).Some? ==> AllFiles(tracked(b, r).value)) &&
      (forall b :: files(b).Some? ==> ValidTree(files(b).value)) &&
      forall b :: root(b).Some? ==> root(b).value == home
    }

    function Worktree(): R.Worktree {
      R.Worktree((b: Path) => if Inputs(home + b).Some? then Inputs(home + b).value else [], inputDisk, canonical)
    }

    lemma WorktreeIsValid()
      requires Valid()
      ensures R.ValidWorktree(Worktree())
    {
      forall d, i | 0 <= i < |Worktree().tracked(d)| ensures Normal(Worktree().tracked(d)[i]) {
        assert Inputs(home + d).Some? && AllFiles(Inputs(home + d).value);
      }
    }

    /** Uncached input listing: discover the worktree, then list below the base directory. */
    function Inputs(base: Dir): Option<seq<Path>> {
      if root(base).None? || !(root(base).value <= base) then None else tracked(base, root(base).value)
    }

    /** Uncached output listing: the full walk needs the directory, a limited one skips what is missing. */
    function Outputs(base: Dir, prefixes: Option<set<Path>>): Option<set<Path>> {
      if prefixes.None? then files(base)
      else Some(Listing(if files(base).None? then {} else files(base).value, prefixes))
    }
  }

  /** Directory and walk roots; "no roots" and "no limit" are different keys. */
  datatype OutputKey = OutputKey(base: Dir, prefixes: Option<set<Path>>)

  class Cache {
    var inputs: map<Dir, seq<Path>>
    var outputs: map<OutputKey, set<Path>>
    var roots: map<Dir, Dir>

    constructor ()
      ensures inputs == map[] && outputs == map[] && roots == map[]
    {
      inputs, outputs, roots := map[], map[], map[];
    }

    /** Every stored answer is the answer for exactly its key. */
    ghost predicate Agrees(world: World)
      reads this
    {
      (forall d :: d in inputs ==> world.Inputs(d) == Some(inputs[d])) &&
      (forall k :: k in outputs ==> world.Outputs(k.base, k.prefixes) == Some(outputs[k])) &&
      (forall d :: d in roots ==> world.root(d) == Some(roots[d]))
    }

    /** What the cache remembers it answers, whatever the file system would say by now. */
    method WorktreeRoot(world: World, base: Dir) returns (r: Option<Dir>)
      modifies `roots
      ensures old(Agrees(world)) ==> Agrees(world) && r == world.root(base)
      ensures r == if base in old(roots) then Some(old(roots)[base]) else world.root(base)
      ensures roots == if r.Some? then old(roots)[base := r.value] else old(roots)
    {
      if base in roots { return Some(roots[base]); }
      r := world.root(base);
      if r.Some? && base !in roots { roots := roots[base := r.value]; }
    }

    /**
     * The per-call cache in front of the shared one holds nothing but true listings either. Both
     * remember what was listed, the shared one unless the per-call cache answers; neither forgets.
     */
    method InputCandidates(world: World, base: Dir, local: map<Dir, seq<Path>>)
      returns (r: Option<seq<Path>>, local': map<Dir, seq<Path>>)
      modifies `roots, `inputs
      ensures old(Agrees(world)) && (base in local ==> world.Inputs(base) == Some(local[base])) ==>
                Agrees(world) && r == world.Inputs(base)
      ensures base in local ==> r == Some(local[base])
      ensures base !in local && base in old(inputs) ==> r == Some(old(inputs)[base])
      ensures inputs == if r.Some? && base !in local then old(inputs)[base := r.value] else old(inputs)
      ensures local' == if r.Some? then local[base := r.value] else local
    {
      local' := local;
      if base in local { return Some(local[base]), local; }
      if base in inputs {
        local' := local[base := inputs[base]];
        return Some(inputs[base]), local';
      }
      var root := WorktreeRoot(world, base);
      if root.None? || !(root.value <= base) { return None, local; }
      r := world.tracked(base, root.value);
      if r.Some? {
        inputs := inputs[base := r.value];
        local' := local[base := r.value];
      }
    }

    method OutputCandidates(world: World, base: Dir, prefixes: Option<set<Path>>) returns (r: Option<set<Path>>)
      modifies `outputs
      ensures old(Agrees(world)) ==> Agrees(world) && r == world.Outputs(base, prefixes)
      ensures
        var key := OutputKey(base, prefixes);
        r == if key in old(outputs) then Some(old(outputs)[key]) else world.Outputs(base, prefixes)
      ensures outputs ==
              if r.Some? then old(outputs)[OutputKey(base, prefixes) := r.value] else old(outputs)
    {
      var key := OutputKey(base, prefixes);
      if key in outputs { return Some(outputs[key]); }
      r := world.Outputs(base, prefixes);
      if r.Some? { outputs := outputs[key := r.value]; }
    }
  }

  // ---------------------------------------------------------------- resolution without a cache

  /** Every include has a worktree, every wildcard a listing, and every pattern compiles. */
  ghost predicate Resolvable(world: World, requests: seq<R.Request>) {
    R.PatternsCompile(requests) &&
    forall r :: r in requests && !r.negated ==>
      world.root(world.home + r.base).Some? && (r.wildcard ==> world.Inputs(world.home + r.base).Some?)
  }

  ghost function PlainInputs(world: World, h: Str -> Digest, requests: seq<R.Request>,
                             prior: ByPath): Option<seq<FileEntry>>
    requires world.Valid()
  {
    world.WorktreeIsValid();
    if requests == [] then Some([])
    else if !Resolvable(world, requests) then None
    else R.Resolution(h, world.Worktree(), requests, prior)
  }

  ghost function PlainOutputs(world: World, h: Str -> Digest, base: Dir, patterns: seq<Str>,
                              prior: ByPath): Option<seq<FileEntry>>
    requires world.Valid()
  {
    var candidates := world.Outputs(base, PrefixUnion(patterns));
    if candidates.None? then None else Outputs(h, world.outputDisk(base), patterns, candidates.value, prior)
  }

  /** When the walk roots fit, that is resolution over the whole output tree. */
  lemma PlainOutputsAreWhole(world: World, h: Str -> Digest, base: Dir, patterns: seq<Str>, prior: ByPath)
    requires world.Valid() && world.files(base).Some? && RootsFit(patterns)
    ensures PlainOutputs(world, h, base, patterns, prior) ==
            Outputs(h, world.outputDisk(base), patterns, world.files(base).value, prior)
  {
    LimitedOutputs(h, world.outputDisk(base), patterns, world.files(base).value, prior);
  }

  // ---------------------------------------------------------------- resolution through the cache

  ghost predicate LocalAgrees(world: World, local: map<Dir, seq<Path>>) {
    forall d :: d in local ==> world.Inputs(d) == Some(local[d])
  }

  /** The worktree of one include and, for a wildcard, the listing of its base. */
  method RequestCandidates(cache: Cache, world: World, r: R.Request, local: map<Dir, seq<Path>>)
    returns (candidates: Option<seq<Path>>, local': map<Dir, seq<Path>>)
    requires cache.Agrees(world) && world.Valid() && LocalAgrees(world, local) && !r.negated
    modifies cache
    ensures cache.Agrees(world) && LocalAgrees(world, local')
    ensures local' == if candidates.Some? && r.wildcard then local[world.home + r.base := candidates.value] else local
    ensures candidates.Some? <==> Listed(world, r)
    ensures candidates.Some? ==> AllFiles(candidates.value)
    ensures candidates.Some? && r.wildcard ==> candidates.value == world.Worktree().tracked(r.base)
  {
    local' := local;
    var root := cache.WorktreeRoot(world, world.home + r.base);
    if root.None? { return None, local; }
    if !r.wildcard { return Some([]), local; }
    candidates, local' := cache.InputCandidates(world, world.home + r.base, local);
  }

  ghost predicate ListedUpTo(world: World, requests: seq<R.Request>, n: nat)
    requires n <= |requests|
  {
    forall j :: 0 <= j < n ==> Listed(world, requests[j])
  }

  /** The entries of all includes, in order; None as soon as one has no worktree or no listing. */
  method MergeInputs(cache: Cache, world: World, h: Str -> Digest, requests: seq<R.Request>, prior: ByPath)
    returns (merged: Option<seq<FileEntry>>)
    requires cache.Agrees(world) && world.Valid() && R.ValidWorktree(world.Worktree())
    modifies cache
    ensures cache.Agrees(world) && (merged.Some? <==> ListedUpTo(world, requests, |requests|))
    ensures merged.Some? ==> merged.value == R.MergedEntries(h, world.Worktree(), requests, prior)
  {
    var w, local: map<Dir, seq<Path>>, entries: seq<FileEntry> := world.Worktree(), map[], [];
    for i := 0 to |requests|
      invariant cache.Agrees(world) && LocalAgrees(world, local)
      invariant ListedUpTo(world, requests, i) && entries == R.EntriesUpTo(h, w, requests, i, prior)
    {
      R.OneRequestMore(h, w, requests, i, prior);
      if requests[i].negated { continue; }
      var candidates;
      candidates, local := RequestCandidates(cache, world, requests[i], local);
      if candidates.None? { return None; }
      var found := R.RequestEntries(h, w, requests, requests[i], candidates.value, prior);
      entries := entries + found;
    }
    return Some(entries);
  }

  method ResolveInputFiles(cache: Cache, world: World, h: Str -> Digest, requests: seq<R.Request>, prior: ByPath)
    returns (entries: Option<seq<FileEntry>>)
    requires cache.Agrees(world) && world.Valid()
    modifies cache
    ensures cache.Agrees(world) && entries == PlainInputs(world, h, requests, prior)
  {
    if requests == [] { return Some([]); }
    if !R.PatternsCompile(requests) { return None; }
    world.WorktreeIsValid();
    AllListed(world, requests);
    var merged := MergeInputs(cache, world, h, requests, prior);
    if merged.None? { return None; }
    var sorted := DedupeAndSort(world.canonical, merged.value);
    return Some(sorted);
  }

  lemma AllListed(world: World, requests: seq<R.Request>)
    requires R.PatternsCompile(requests)
    ensures ListedUpTo(world, requests, |requests|) <==> Resolvable(world, requests)
  {
    if ListedUpTo(world, requests, |requests|) {
      forall r | r in requests ensures Listed(world, r) { var j :| 0 <= j < |requests| && requests[j] == r; }
    }
    if Resolvable(world, requests) {
      forall j | 0 <= j < |requests| ensures Listed(world, requests[j]) { assert requests[j] in requests; }
    }
  }

  ghost predicate Listed(world: World, r: R.Request) {
    !r.negated ==> world.root(world.home + r.base).Some? && (r.wildcard ==> world.Inputs(world.home + r.base).Some?)
  }

  method ResolveOutputFiles(cache: Cache, world: World, h: Str -> Digest, base: Dir, patterns: seq<Str>, prior: ByPath)
    returns (entries: Option<seq<FileEntry>>)
    requires cache.Agrees(world) && world.Valid()
    modifies cache
    ensures cache.Agrees(world) && entries == PlainOutputs(world, h, base, patterns, prior)
  {
    var prefixes := ComputePrefixUnion(patterns);
    var candidates := cache.OutputCandidates(world, base, prefixes);
    if candidates.None? { return None; }
    var listed := SetToSeq(candidates.value);
    forall i | 0 <= i < |listed| ensures listed[i] != [] && Normal(listed[i]) { assert listed[i] in candidates.value; }
    entries := ResolveWithCandidates(h, world.outputDisk(base), patterns, listed, prior);
    assert (set c | c in listed) == candidates.value;
  }

  method SetToSeq(s: set<Path>) returns (r: seq<Path>)
    ensures forall c :: c in r <==> c in s
  {
    var rest := s;
    r := [];
    while rest != {}
      invariant rest <= s && forall c :: c in r <==> c in s && c !in rest
      decreases |rest|
    {
      var c :| c in rest;
      r, rest := r + [c], rest - {c};
    }
  }

  // ---------------------------------------------------------------- whole runs

  datatype Query =
    | InputQuery(requests: seq<R.Request>, prior: ByPath)
    | OutputQuery(base: Dir, patterns: seq<Str>, prior: ByPath)

  ghost function Uncached(world: World, h: Str -> Digest, q: Query): Option<seq<FileEntry>>
    requires world.Valid()
  {
    match q
    case InputQuery(requests, prior) => PlainInputs(world, h, requests, prior)
    case OutputQuery(base, patterns, prior) => PlainOutputs(world, h, base, patterns, prior)
  }

  /** Any sequence of resolutions through one cache gives, one by one, the entries it gives without. */
  method AnswerAll(world: World, h: Str -> Digest, queries: seq<Query>) returns (answers: seq<Option<seq<FileEntry>>>)
    requires world.Valid()
    ensures |answers| == |queries|
    ensures forall i :: 0 <= i < |queries| ==> answers[i] == Uncached(world, h, queries[i])
  {
    var cache := new Cache();
    answers := [];
    for i := 0 to |queries|
      invariant fresh(cache) && cache.Agrees(world) && |answers| == i
      invariant forall j :: 0 <= j < i ==> answers[j] == Uncached(world, h, queries[j])
    {
      var entries := AnswerOne(cache, world, h, queries[i]);
      answers := answers + [entries];
    }
  }

  method AnswerOne(cache: Cache, world: World, h: Str -> Digest, q: Query) returns (entries: Option<seq<FileEntry>>)
    requires cache.Agrees(world) && world.Valid()
    modifies cache
    ensures cache.Agrees(world) && entries == Uncached(world, h, q)
  {
    match q {
      case InputQuery(requests, prior) => entries := ResolveInputFiles(cache, world, h, requests, prior);
      case OutputQuery(base, patterns, prior) => entries := ResolveOutputFiles(cache, world, h, base, patterns, prior);
    }
  }

  /** Serving the empty limited walk from the full one, or the reverse, would be wrong. */
  lemma NoRootsIsNotNoLimit(world: World, base: Dir)
    requires world.files(base).Some? && world.files(base).value != {}
    ensures world.Outputs(base, Some({})) != world.Outputs(base, None)
  {
    assert Listing(world.files(base).value, Some({})) == {};
  }
}
