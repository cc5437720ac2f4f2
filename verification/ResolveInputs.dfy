/**
 * Input files of a task, resolved from several base directories of one worktree. All paths are
 * given from the root of the worktree.
 */
module ResolveInputs {
  import opened Basics
  import opened Sorting
  import opened Tasks
  import opened Glob
  import opened FileEntries
  import opened FilesDiff
  import opened ResolveOutputs
  import opened HashReuse
  import opened RecordedPaths
  import opened EntryDedupe

  /**
   * A pattern below a base directory; the pattern of a negated request is without its `!`. Whether it
   * is resolved as a wildcard is part of the request: it is for patterns that contain a metacharacter,
   * and for all patterns of upstream packages.
   */
  datatype Request = Request(base: Path, pattern: Str, negated: bool, wildcard: bool)

  /** The tracked files below each directory, the files on disk, and the canonical spelling of a path. */
  datatype Worktree = Worktree(tracked: Path -> seq<Path>, disk: Disk, canonical: Str -> Str)

  // ---------------------------------------------------------------- the plain definition

  /** Exclusions apply to the files of every base directory, by their path below it. */
  predicate ExcludedAt(requests: seq<Request>, text: Str) {
    exists r :: r in requests && r.negated && Matches(r.pattern, text)
  }

  predicate PatternsCompile(requests: seq<Request>) {
    forall r :: r in requests && (r.negated || r.wildcard) ==> Compiles(r.pattern)
  }

  /** The path of a literal request, below its base. */
  function LiteralPath(r: Request): Path {
    Segments(UnescapeLiteral(r.pattern))
  }

  /** Literals are spelled without empty, `.` or `..` segments. */
  ghost predicate PlainRequests(requests: seq<Request>) {
    forall r :: r in requests ==> AllNormal(r.base) && (!r.wildcard ==> AllNormal(LiteralPath(r)))
  }

  ghost predicate ValidWorktree(w: Worktree) {
    forall d, i :: 0 <= i < |w.tracked(d)| ==> Normal(w.tracked(d)[i])
  }

  /** Does the request take the file at `rel` below its base, exclusions aside? */
  predicate Takes(w: Worktree, r: Request, rel: Path)
    requires rel != []
  {
    if r.wildcard then rel in w.tracked(r.base) && Matches(r.pattern, Text(rel)) else rel == LiteralPath(r)
  }

  /** Some include takes the path, and no exclusion matches it below the base of that include. */
  ghost predicate SelectedBy(w: Worktree, requests: seq<Request>, path: Path, r: Request) {
    r in requests && !r.negated && r.base < path &&
    Takes(w, r, path[|r.base|..]) && !ExcludedAt(requests, Text(path[|r.base|..]))
  }

  ghost predicate IsSelected(w: Worktree, requests: seq<Request>, path: Path) {
    exists r :: SelectedBy(w, requests, path, r)
  }

  // ---------------------------------------------------------------- resolution, request by request

  /** The listed files that the pattern of a wildcard request matches, in listing order. */
  function MatchedBelow(requests: seq<Request>, r: Request, candidates: seq<Path>): seq<Path>
    requires forall i :: 0 <= i < |candidates| ==> candidates[i] != []
  {
    if candidates == [] then []
    else
      var rest, last := MatchedBelow(requests, r, candidates[..|candidates| - 1]), candidates[|candidates| - 1];
      if Matches(r.pattern, Text(last)) && !ExcludedAt(requests, Text(last)) then rest + [r.base + last] else rest
  }

  /** The paths of one request, given the listing of its base. */
  function PathsFrom(requests: seq<Request>, r: Request, candidates: seq<Path>): seq<Path>
    requires forall i :: 0 <= i < |candidates| ==> candidates[i] != []
  {
    if r.wildcard then MatchedBelow(requests, r, candidates)
    else if ExcludedAt(requests, UnescapeLiteral(r.pattern)) then []
    else [r.base + LiteralPath(r)]
  }

  function RequestPaths(w: Worktree, requests: seq<Request>, r: Request): seq<Path>
    requires ValidWorktree(w)
  {
    assert forall i :: 0 <= i < |w.tracked(r.base)| ==> Normal(w.tracked(r.base)[i]);
    PathsFrom(requests, r, w.tracked(r.base))
  }

  /** What the first n requests contribute, in order. */
  function Merged(w: Worktree, requests: seq<Request>, n: nat): seq<Path>
    requires ValidWorktree(w) && n <= |requests|
  {
    if n == 0 then []
    else if requests[n - 1].negated then Merged(w, requests, n - 1)
    else Merged(w, requests, n - 1) + RequestPaths(w, requests, requests[n - 1])
  }

  lemma {:induction false} TextOfSegments(s: Str)
    ensures Text(Segments(s)) == s
    decreases |s|
  {
    var i := IndexOf(s, '/');
    if i < |s| {
      TextOfSegments(s[i + 1..]);
      assert Segments(s)[1..] == Segments(s[i + 1..]);
      assert s == s[..i] + "/" + s[i + 1..];
    }
  }

  lemma {:induction false} MatchedMeaning(requests: seq<Request>, r: Request, candidates: seq<Path>, path: Path)
    requires forall i :: 0 <= i < |candidates| ==> candidates[i] != []
    ensures path in MatchedBelow(requests, r, candidates) <==>
            r.base < path && path[|r.base|..] in candidates &&
            Matches(r.pattern, Text(path[|r.base|..])) && !ExcludedAt(requests, Text(path[|r.base|..]))
  {
    if candidates != [] {
      var init, last := candidates[..|candidates| - 1], candidates[|candidates| - 1];
      MatchedMeaning(requests, r, init, path);
      assert forall c :: c in candidates <==> c in init || c == last;
      assert path == r.base + last <==> r.base < path && path[|r.base|..] == last by {
        if r.base < path { assert path == r.base + path[|r.base|..]; }
        if path == r.base + last { assert path[|r.base|..] == last; }
      }
    }
  }

  lemma RequestMeaning(w: Worktree, requests: seq<Request>, r: Request, path: Path)
    requires ValidWorktree(w) && r in requests && !r.negated
    ensures path in RequestPaths(w, requests, r) <==> SelectedBy(w, requests, path, r)
  {
    if r.wildcard {
      MatchedMeaning(requests, r, w.tracked(r.base), path);
    } else {
      var l := LiteralPath(r);
      TextOfSegments(UnescapeLiteral(r.pattern));
      if r.base < path { assert path == r.base + path[|r.base|..]; }
      if path == r.base + l { assert path[|r.base|..] == l; }
    }
  }

  /** Some of the first n requests selects the path. */
  ghost predicate SelectedAmong(w: Worktree, requests: seq<Request>, n: nat, path: Path)
    requires n <= |requests|
  {
    exists i :: 0 <= i < n && SelectedBy(w, requests, path, requests[i])
  }

  lemma AmongStep(w: Worktree, requests: seq<Request>, n: nat, path: Path)
    requires 0 < n <= |requests|
    ensures SelectedAmong(w, requests, n, path) <==>
            SelectedAmong(w, requests, n - 1, path) || SelectedBy(w, requests, path, requests[n - 1])
  {
  }

  /** The requests together contribute exactly what the plain definition selects. */
  lemma {:induction false} MergedMeaning(w: Worktree, requests: seq<Request>, n: nat, path: Path)
    requires ValidWorktree(w) && n <= |requests|
    ensures path in Merged(w, requests, n) <==> SelectedAmong(w, requests, n, path)
  {
    if n > 0 {
      MergedMeaning(w, requests, n - 1, path);
      AmongStep(w, requests, n, path);
      if !requests[n - 1].negated { RequestMeaning(w, requests, requests[n - 1], path); }
    }
  }

  lemma MergedSelects(w: Worktree, requests: seq<Request>, path: Path)
    requires ValidWorktree(w)
    ensures path in Merged(w, requests, |requests|) <==> IsSelected(w, requests, path)
  {
    MergedMeaning(w, requests, |requests|, path);
    if IsSelected(w, requests, path) {
      var r :| SelectedBy(w, requests, path, r);
      var i :| 0 <= i < |requests| && requests[i] == r;
    }
  }

  // ---------------------------------------------------------------- the resolver

  function TextOrEmpty(path: Path): Str {
    if path == [] then [] else Text(path)
  }

  function Texts(paths: seq<Path>): (r: seq<Str>)
    ensures |r| == |paths|
    ensures forall i :: 0 <= i < |r| ==> r[i] == TextOrEmpty(paths[i])
  {
    if paths == [] then [] else Texts(paths[..|paths| - 1]) + [TextOrEmpty(paths[|paths| - 1])]
  }

  /** A path below a base, joined to the base's own path unless that is the root of the worktree. */
  function Qualified(base: Path, rel: Path): Str
    requires rel != []
  {
    if base == [] then Text(rel) else Text(base) + "/" + Text(rel)
  }

  lemma {:induction false} QualifiedText(base: Path, rel: Path)
    requires rel != []
    ensures Qualified(base, rel) == Text(base + rel)
  {
    if base == [] {
      assert base + rel == rel;
    } else {
      assert (base + rel)[0] == base[0] && (base + rel)[1..] == base[1..] + rel;
      QualifiedText(base[1..], rel);
      if |base| > 1 { assert Text(base) + "/" + Text(rel) == base[0] + "/" + (Text(base[1..]) + "/" + Text(rel)); }
    }
  }

  /** The entries that the first n requests contribute. */
  function EntriesUpTo(h: Str -> Digest, w: Worktree, requests: seq<Request>, n: nat, prior: ByPath): seq<FileEntry>
    requires ValidWorktree(w) && n <= |requests|
  {
    EntriesFor(h, w.disk, Texts(Merged(w, requests, n)), prior)
  }

  lemma OneRequestMore(h: Str -> Digest, w: Worktree, requests: seq<Request>, n: nat, prior: ByPath)
    requires ValidWorktree(w) && n < |requests|
    ensures EntriesUpTo(h, w, requests, n + 1, prior) ==
            EntriesUpTo(h, w, requests, n, prior) +
            if requests[n].negated then []
            else EntriesFor(h, w.disk, Texts(RequestPaths(w, requests, requests[n])), prior)
  {
    EntriesConcat(h, w.disk, Merged(w, requests, n), RequestPaths(w, requests, requests[n]), prior);
  }

  function MergedEntries(h: Str -> Digest, w: Worktree, requests: seq<Request>, prior: ByPath): seq<FileEntry>
    requires ValidWorktree(w)
  {
    EntriesUpTo(h, w, requests, |requests|, prior)
  }

  /** The resolved entries; None when a pattern does not compile. */
  function Resolution(h: Str -> Digest, w: Worktree, requests: seq<Request>, prior: ByPath): Option<seq<FileEntry>>
    requires ValidWorktree(w)
  {
    if requests == [] then Some([])
    else if !PatternsCompile(requests) then None
    else Some(Sort(PathBelow, Dedupe(w.canonical, MergedEntries(h, w, requests, prior))))
  }

  /** The entries of one request, each looked up below its base and recorded with the base in front. */
  method RequestEntries(h: Str -> Digest, w: Worktree, requests: seq<Request>, r: Request, candidates: seq<Path>,
                        prior: ByPath)
    returns (entries: seq<FileEntry>)
    requires ValidWorktree(w) && r in requests && !r.negated && AllFiles(candidates)
    requires r.wildcard ==> candidates == w.tracked(r.base)
    ensures entries == EntriesFor(h, w.disk, Texts(RequestPaths(w, requests, r)), prior)
  {
    var paths := PathsFrom(requests, r, candidates);
    assert paths == RequestPaths(w, requests, r);
    entries := [];
    for i := 0 to |paths|
      invariant entries == EntriesFor(h, w.disk, Texts(paths)[..i], prior)
    {
      BelowBase(w, requests, r, paths[i]);
      var rel := paths[i][|r.base|..];
      EntriesStep(h, w.disk, Texts(paths), prior, i);
      entries := entries + [EntryFor(h, w.disk, Qualified(r.base, rel), prior)];
    }
    assert Texts(paths)[..|paths|] == Texts(paths);
  }

  lemma BelowBase(w: Worktree, requests: seq<Request>, r: Request, path: Path)
    requires ValidWorktree(w) && r in requests && !r.negated && path in RequestPaths(w, requests, r)
    ensures r.base < path && Qualified(r.base, path[|r.base|..]) == Text(path)
  {
    RequestMeaning(w, requests, r, path);
    QualifiedText(r.base, path[|r.base|..]);
    assert path == r.base + path[|r.base|..];
  }

  method Resolve(h: Str -> Digest, w: Worktree, requests: seq<Request>, prior: ByPath)
    returns (entries: Option<seq<FileEntry>>)
    requires ValidWorktree(w)
    ensures entries == Resolution(h, w, requests, prior)
  {
    if requests == [] { return Some([]); }
    if !PatternsCompile(requests) { return None; }
    var merged: seq<FileEntry> := [];
    for i := 0 to |requests|
      invariant merged == EntriesUpTo(h, w, requests, i, prior)
    {
      var r := requests[i];
      OneRequestMore(h, w, requests, i, prior);
      if r.negated { continue; }
      var found := RequestEntries(h, w, requests, r, w.tracked(r.base), prior);
      merged := merged + found;
    }
    var sorted := DedupeAndSort(w.canonical, merged);
    return Some(sorted);
  }

  lemma EntriesConcat(h: Str -> Digest, disk: Disk, a: seq<Path>, b: seq<Path>, prior: ByPath)
    ensures EntriesFor(h, disk, Texts(a + b), prior) ==
            EntriesFor(h, disk, Texts(a), prior) + EntriesFor(h, disk, Texts(b), prior)
  {
    TextsConcat(a, b);
    EntriesForConcat(h, disk, Texts(a), Texts(b), prior);
  }

  lemma TextsConcat(a: seq<Path>, b: seq<Path>)
    ensures Texts(a + b) == Texts(a) + Texts(b)
  {
  }

  lemma {:induction false} EntriesForConcat(h: Str -> Digest, disk: Disk, a: seq<Str>, b: seq<Str>, prior: ByPath)
    ensures EntriesFor(h, disk, a + b, prior) == EntriesFor(h, disk, a, prior) + EntriesFor(h, disk, b, prior)
  {
    if b == [] {
      assert a + b == a;
    } else {
      var init := b[..|b| - 1];
      EntriesForConcat(h, disk, a, init, prior);
      assert (a + b)[..|a + b| - 1] == a + init;
    }
  }

  // ---------------------------------------------------------------- exactly when there is one entry per path

  ghost function SetOf(texts: seq<Str>): set<Str> {
    set t | t in texts
  }

  /** The texts of the selected paths. */
  ghost function SelectedTexts(w: Worktree, requests: seq<Request>): set<Str>
    requires ValidWorktree(w)
  {
    SetOf(Texts(Merged(w, requests, |requests|)))
  }

  lemma SelectedTextsMeaning(w: Worktree, requests: seq<Request>, t: Str)
    requires ValidWorktree(w)
    ensures t in SelectedTexts(w, requests) <==> exists path :: IsSelected(w, requests, path) && Text(path) == t
  {
    var merged := Merged(w, requests, |requests|);
    if t in SelectedTexts(w, requests) {
      var i :| 0 <= i < |merged| && Texts(merged)[i] == t;
      MergedSelects(w, requests, merged[i]);
    }
    if exists path :: IsSelected(w, requests, path) && Text(path) == t {
      var path :| IsSelected(w, requests, path) && Text(path) == t;
      MergedSelects(w, requests, path);
      var i :| 0 <= i < |merged| && merged[i] == path;
      assert Texts(merged)[i] == t;
    }
  }

  /** What dedupe goes by: a missing path by its recorded form, a present one by the file found under it. */
  function KeyOf(w: Worktree, t: Str): (bool, Str) {
    (t !in w.disk, if t in w.disk then w.canonical(Recorded(t)) else Recorded(t))
  }

  ghost function Keys(w: Worktree): Str -> (bool, Str) {
    t => KeyOf(w, t)
  }

  ghost predicate InjectiveOn<K>(texts: set<Str>, f: Str -> K) {
    forall a, b :: a in texts && b in texts && f(a) == f(b) ==> a == b
  }

  ghost function Image<K>(texts: set<Str>, f: Str -> K): set<K> {
    set t | t in texts :: f(t)
  }

  lemma {:induction false} ImageSize<K>(texts: set<Str>, f: Str -> K)
    ensures |Image(texts, f)| <= |texts|
    ensures |Image(texts, f)| == |texts| <==> InjectiveOn(texts, f)
  {
    if texts == {} {
      assert Image(texts, f) == {};
    } else {
      var t :| t in texts;
      var rest := texts - {t};
      ImageSize(rest, f);
      assert Image(texts, f) == Image(rest, f) + {f(t)};
      assert InjectiveOn(texts, f) <==> InjectiveOn(rest, f) && f(t) !in Image(rest, f);
    }
  }

  lemma EntriesContents(h: Str -> Digest, disk: Disk, texts: seq<Str>, prior: ByPath, e: FileEntry)
    ensures e in EntriesFor(h, disk, texts, prior) <==> exists t :: t in texts && e == EntryFor(h, disk, t, prior)
  {
    var entries := EntriesFor(h, disk, texts, prior);
    if e in entries {
      var i :| 0 <= i < |entries| && entries[i] == e;
      assert texts[i] in texts;
    }
    if t :| t in texts && e == EntryFor(h, disk, t, prior) {
      var i :| 0 <= i < |texts| && texts[i] == t;
      assert entries[i] == e;
    }
  }

  /** No two of the paths share a recorded form or, being present, a file. */
  ghost predicate Apart(w: Worktree, texts: set<Str>) {
    InjectiveOn(texts, Recorded) && InjectiveOn(texts, Keys(w))
  }

  /** The list holds one entry per path, in strictly ascending order of recorded paths. */
  ghost predicate OnePerPath(result: seq<FileEntry>, texts: set<Str>) {
    |result| == |texts| && StrictlySorted(PathBelow, result)
  }

  lemma EntryKey(h: Str -> Digest, w: Worktree, t: Str, prior: ByPath)
    ensures DedupeKey(w.canonical, EntryFor(h, w.disk, t, prior)) == KeyOf(w, t)
    ensures EntryFor(h, w.disk, t, prior).path == Recorded(t)
  {
  }

  lemma EntriesSeparate(h: Str -> Digest, w: Worktree, texts: seq<Str>, prior: ByPath)
    requires Apart(w, SetOf(texts))
    ensures Separate(w.canonical, EntriesFor(h, w.disk, texts, prior))
  {
    var entries := EntriesFor(h, w.disk, texts, prior);
    forall x, y | x in entries && y in entries &&
                  (DedupeKey(w.canonical, x) == DedupeKey(w.canonical, y) || x.path == y.path)
      ensures x == y
    {
      var s := TextOf(h, w, texts, prior, x);
      var t := TextOf(h, w, texts, prior, y);
      assert s in SetOf(texts) && t in SetOf(texts);
      assert Keys(w)(s) == KeyOf(w, s) && Keys(w)(t) == KeyOf(w, t);
    }
  }

  lemma TextOf(h: Str -> Digest, w: Worktree, texts: seq<Str>, prior: ByPath, e: FileEntry) returns (t: Str)
    requires e in EntriesFor(h, w.disk, texts, prior)
    ensures t in texts && e == EntryFor(h, w.disk, t, prior) && DedupeKey(w.canonical, e) == KeyOf(w, t) &&
            e.path == Recorded(t)
  {
    EntriesContents(h, w.disk, texts, prior, e);
    t :| t in texts && e == EntryFor(h, w.disk, t, prior);
    EntryKey(h, w, t, prior);
  }

  lemma KeySetSize(canonical: Str -> Str, kept: seq<FileEntry>)
    requires DistinctKeys(canonical, kept)
    ensures |KeySet(canonical, kept)| == |kept|
  {
    var key := (e: FileEntry) => DedupeKey(canonical, e);
    DistinctValues(kept, key);
    assert KeySet(canonical, kept) == Values(kept, key);
  }

  /** There are as many entries as different keys. */
  lemma ResultSize(h: Str -> Digest, w: Worktree, texts: seq<Str>, prior: ByPath)
    ensures |Dedupe(w.canonical, EntriesFor(h, w.disk, texts, prior))| == |Image(SetOf(texts), Keys(w))|
  {
    var entries := EntriesFor(h, w.disk, texts, prior);
    DedupeKeepsKeys(w.canonical, entries);
    KeySetSize(w.canonical, Dedupe(w.canonical, entries));
    SameKeys(w.canonical, Dedupe(w.canonical, entries), entries);
    EntriesKeySet(h, w, texts, prior);
  }

  lemma EntriesKeySet(h: Str -> Digest, w: Worktree, texts: seq<Str>, prior: ByPath)
    ensures KeySet(w.canonical, EntriesFor(h, w.disk, texts, prior)) == Image(SetOf(texts), Keys(w))
  {
    var entries := EntriesFor(h, w.disk, texts, prior);
    forall e | e in entries ensures DedupeKey(w.canonical, e) in Image(SetOf(texts), Keys(w)) {
      var t := TextOf(h, w, texts, prior, e);
      assert t in SetOf(texts) && Keys(w)(t) == KeyOf(w, t);
    }
    forall t | t in SetOf(texts) ensures Keys(w)(t) in KeySet(w.canonical, entries) {
      EntryKey(h, w, t, prior);
      EntriesContents(h, w.disk, texts, prior, EntryFor(h, w.disk, t, prior));
    }
  }

  ghost function PathSet(entries: seq<FileEntry>): set<Str> {
    set e | e in entries :: e.path
  }

  lemma PathSetSize(entries: seq<FileEntry>)
    requires StrictlySorted(PathBelow, entries)
    ensures |PathSet(entries)| == |entries|
  {
    var path := (e: FileEntry) => e.path;
    forall i, j | 0 <= i < j < |entries| ensures path(entries[i]) != path(entries[j]) {
      LessTotal(entries[i].path, entries[j].path);
    }
    DistinctValues(entries, path);
    assert PathSet(entries) == Values(entries, path);
  }

  lemma SortedPathsInjective(h: Str -> Digest, w: Worktree, texts: seq<Str>, prior: ByPath, result: seq<FileEntry>)
    requires OnePerPath(result, SetOf(texts))
    requires forall e :: e in result ==> e in EntriesFor(h, w.disk, texts, prior)
    ensures InjectiveOn(SetOf(texts), Recorded)
  {
    PathSetSize(result);
    forall e | e in result ensures e.path in Image(SetOf(texts), Recorded) {
      var t := TextOf(h, w, texts, prior, e);
      assert t in SetOf(texts);
    }
    SubsetSize(PathSet(result), Image(SetOf(texts), Recorded));
    ImageSize(SetOf(texts), Recorded);
  }

  /** Deduped and sorted entries are one per path exactly when the paths are apart. */
  lemma OnePerPathExactly(h: Str -> Digest, w: Worktree, texts: seq<Str>, prior: ByPath)
    ensures OnePerPath(Sort(PathBelow, Dedupe(w.canonical, EntriesFor(h, w.disk, texts, prior))), SetOf(texts)) <==>
            Apart(w, SetOf(texts))
  {
    var entries, all := EntriesFor(h, w.disk, texts, prior), SetOf(texts);
    var kept := Dedupe(w.canonical, entries);
    ResultSize(h, w, texts, prior);
    ImageSize(all, Keys(w));
    SortPermutes(PathBelow, kept);
    DedupeKeepsKeys(w.canonical, entries);
    if Apart(w, all) {
      EntriesSeparate(h, w, texts, prior);
      DedupeMeaning(w.canonical, entries);
    }
    if OnePerPath(Sort(PathBelow, kept), all) {
      SortedPathsInjective(h, w, texts, prior, Sort(PathBelow, kept));
    }
  }

  /** The resolver returns one entry per selected path exactly when the selected paths are apart. */
  lemma ResolutionExact(h: Str -> Digest, w: Worktree, requests: seq<Request>, prior: ByPath)
    requires ValidWorktree(w) && PatternsCompile(requests)
    ensures
      var result, texts := Resolution(h, w, requests, prior), SelectedTexts(w, requests);
      result.Some? && (OnePerPath(result.value, texts) <==> Apart(w, texts))
  {
    OnePerPathExactly(h, w, Texts(Merged(w, requests, |requests|)), prior);
    if requests == [] { assert Merged(w, requests, 0) == []; }
  }

  /** Then the list is strictly sorted and holds the entries of the selected paths and nothing else. */
  lemma ResolutionIsPlain(h: Str -> Digest, w: Worktree, requests: seq<Request>, prior: ByPath)
    requires ValidWorktree(w) && PatternsCompile(requests) && Apart(w, SelectedTexts(w, requests))
    ensures
      var result, texts := Resolution(h, w, requests, prior), SelectedTexts(w, requests);
      result.Some? && OnePerPath(result.value, texts) &&
      forall e :: e in result.value <==> exists t :: t in texts && e == EntryFor(h, w.disk, t, prior)
  {
    var texts := Texts(Merged(w, requests, |requests|));
    ResolutionExact(h, w, requests, prior);
    EntriesSeparate(h, w, texts, prior);
    DedupeMeaning(w.canonical, EntriesFor(h, w.disk, texts, prior));
    var result := Resolution(h, w, requests, prior).value;
    forall e
      ensures e in result <==> exists t :: t in SelectedTexts(w, requests) && e == EntryFor(h, w.disk, t, prior)
    {
      EntriesContents(h, w.disk, texts, prior, e);
    }
    if requests == [] { assert Merged(w, requests, 0) == []; }
  }

  /** A file `x\y` beside `x/y`: both are selected, and there is no entry for each. */
  lemma SeparatorsCollapse(h: Str -> Digest, w: Worktree, requests: seq<Request>, prior: ByPath, x: Str, y: Str)
    requires ValidWorktree(w) && PatternsCompile(requests)
    requires x + "\\" + y in SelectedTexts(w, requests) && x + "/" + y in SelectedTexts(w, requests)
    ensures !OnePerPath(Resolution(h, w, requests, prior).value, SelectedTexts(w, requests))
  {
    var a, b := x + "\\" + y, x + "/" + y;
    SeparatorsMerge(x, y);
    assert a[|x|] != b[|x|];
    ResolutionExact(h, w, requests, prior);
  }

  // ---------------------------------------------------------------- the compiled matcher

  /** The test of one path against the requests, without listing anything. */
  ghost predicate MatchesPath(requests: seq<Request>, path: Path) {
    exists r :: r in requests && !r.negated && r.base < path && MatchesBelow(requests, r, path[|r.base|..])
  }

  ghost predicate MatchesBelow(requests: seq<Request>, r: Request, rel: Path)
    requires rel != []
  {
    !ExcludedAt(requests, Text(rel)) && if r.wildcard then Matches(r.pattern, Text(rel)) else rel == LiteralPath(r)
  }

  /** Every base above the file lists it. */
  ghost predicate Listable(w: Worktree, requests: seq<Request>, path: Path) {
    forall r :: r in requests && !r.negated && r.base < path ==> path[|r.base|..] in w.tracked(r.base)
  }

  lemma SelectedIsNormal(w: Worktree, requests: seq<Request>, path: Path, r: Request)
    requires ValidWorktree(w) && PlainRequests(requests) && SelectedBy(w, requests, path, r)
    ensures Normal(path)
  {
    var rel := path[|r.base|..];
    assert AllNormal(rel) by {
      if r.wildcard { var i :| 0 <= i < |w.tracked(r.base)| && w.tracked(r.base)[i] == rel; }
    }
    forall i | 0 <= i < |path| ensures NormalSegment(path[i]) {
      assert if i < |r.base| then path[i] == r.base[i] else path[i] == rel[i - |r.base|];
    }
  }

  /** For a listable file the matcher accepts the path exactly when the requests select it. */
  lemma MatcherSelects(w: Worktree, requests: seq<Request>, path: Path)
    requires ValidWorktree(w) && PlainRequests(requests) && Normal(path) && Listable(w, requests, path)
    ensures MatchesPath(requests, path) <==> Text(path) in SelectedTexts(w, requests)
  {
    SelectedTextsMeaning(w, requests, Text(path));
    if MatchesPath(requests, path) {
      var r :| r in requests && !r.negated && r.base < path && MatchesBelow(requests, r, path[|r.base|..]);
      assert SelectedBy(w, requests, path, r);
    }
    if q :| IsSelected(w, requests, q) && Text(q) == Text(path) {
      var r :| SelectedBy(w, requests, q, r);
      SelectedIsNormal(w, requests, q, r);
      SegmentsOfText(q);
      SegmentsOfText(path);
      assert MatchesBelow(requests, r, path[|r.base|..]);
    }
  }

  /** The requests select another path with the same recorded form. */
  ghost predicate Shadowed(w: Worktree, requests: seq<Request>, path: Path)
    requires ValidWorktree(w) && path != []
  {
    exists t :: t in SelectedTexts(w, requests) && t != Text(path) && Recorded(t) == Recorded(Text(path))
  }

  /**
   * For a listable file, matcher and resolver agree, the one accepting the path exactly when the other
   * returns an entry under its recorded form, if and only if the requests select no other path with
   * that recorded form.
   */
  lemma MatcherAgrees(h: Str -> Digest, w: Worktree, requests: seq<Request>, prior: ByPath, path: Path)
    requires ValidWorktree(w) && PlainRequests(requests) && PatternsCompile(requests)
    requires Apart(w, SelectedTexts(w, requests)) && Normal(path) && Listable(w, requests, path)
    ensures
      var result := Resolution(h, w, requests, prior);
      result.Some? &&
      ((MatchesPath(requests, path) <==> exists e :: e in result.value && e.path == Recorded(Text(path))) <==>
       !Shadowed(w, requests, path))
  {
    EntryUnder(h, w, requests, prior, Recorded(Text(path)));
    MatcherSelects(w, requests, path);
  }

  lemma EntryUnder(h: Str -> Digest, w: Worktree, requests: seq<Request>, prior: ByPath, recorded: Str)
    requires ValidWorktree(w) && PatternsCompile(requests) && Apart(w, SelectedTexts(w, requests))
    ensures
      var result := Resolution(h, w, requests, prior);
      result.Some? && ((exists e :: e in result.value && e.path == recorded) <==>
                       exists t :: t in SelectedTexts(w, requests) && Recorded(t) == recorded)
  {
    ResolutionIsPlain(h, w, requests, prior);
    var result := Resolution(h, w, requests, prior).value;
    if t :| t in SelectedTexts(w, requests) && Recorded(t) == recorded {
      EntryKey(h, w, t, prior);
      assert EntryFor(h, w.disk, t, prior) in result;
    }
    if e :| e in result && e.path == recorded {
      var t :| t in SelectedTexts(w, requests) && e == EntryFor(h, w.disk, t, prior);
      EntryKey(h, w, t, prior);
    }
  }
}
