/** When the order of input requests matters to what they resolve to. */
module RequestOrder {
  import opened Basics
  import opened Sorting
  import opened Glob
  import opened FileEntries
  import opened FilesDiff
  import opened ResolveOutputs
  import opened HashReuse
  import opened RecordedPaths
  import opened EntryDedupe
  import opened ResolveInputs
  import opened BlockOrder

  lemma SameSelection(h: Str -> Digest, w: Worktree, a: seq<Request>, b: seq<Request>, prior: ByPath, e: FileEntry)
    requires ValidWorktree(w) && forall r :: r in a <==> r in b
    ensures e in MergedEntries(h, w, a, prior) <==> e in MergedEntries(h, w, b, prior)
  {
    forall path ensures IsSelected(w, a, path) <==> IsSelected(w, b, path) {
      assert forall t :: ExcludedAt(a, t) <==> ExcludedAt(b, t);
      assert forall r :: SelectedBy(w, a, path, r) <==> SelectedBy(w, b, path, r);
    }
    forall t ensures t in SelectedTexts(w, a) <==> t in SelectedTexts(w, b) {
      SelectedTextsMeaning(w, a, t);
      SelectedTextsMeaning(w, b, t);
    }
    EntriesContents(h, w.disk, Texts(Merged(w, a, |a|)), prior, e);
    EntriesContents(h, w.disk, Texts(Merged(w, b, |b|)), prior, e);
    assert forall t :: t in SelectedTexts(w, a) <==> t in Texts(Merged(w, a, |a|));
    assert forall t :: t in SelectedTexts(w, b) <==> t in Texts(Merged(w, b, |b|));
  }

  /** Without aliases two request lists with the same requests, in any order and number, resolve alike. */
  lemma OrderOfRequests(h: Str -> Digest, w: Worktree, a: seq<Request>, b: seq<Request>, prior: ByPath)
    requires ValidWorktree(w) && (forall r :: r in a <==> r in b)
    requires Separate(w.canonical, MergedEntries(h, w, a, prior))
    ensures Resolution(h, w, a, prior) == Resolution(h, w, b, prior)
  {
    assert a == [] <==> b == [] by {
      if a != [] { assert a[0] in b; }
      if b != [] { assert b[0] in a; }
    }
    forall e ensures e in MergedEntries(h, w, a, prior) <==> e in MergedEntries(h, w, b, prior) {
      SameSelection(h, w, a, b, prior, e);
    }
    SameEntries(w.canonical, MergedEntries(h, w, a, prior), MergedEntries(h, w, b, prior));
  }

  lemma SameEntries(canonical: Str -> Str, x: seq<FileEntry>, y: seq<FileEntry>)
    requires Separate(canonical, x) && forall e :: e in x <==> e in y
    ensures Sort(PathBelow, Dedupe(canonical, x)) == Sort(PathBelow, Dedupe(canonical, y))
  {
    DedupeMeaning(canonical, x);
    DedupeMeaning(canonical, y);
    PathsUnique(Sort(PathBelow, Dedupe(canonical, x)), Sort(PathBelow, Dedupe(canonical, y)));
  }

  ghost predicate PlainLiteral(r: Request) {
    !r.negated && !r.wildcard
  }

  ghost predicate AllLiteral(requests: seq<Request>) {
    forall r :: r in requests ==> PlainLiteral(r)
  }

  /** The path of a literal request as text. */
  function LiteralText(r: Request): Str {
    Text(r.base + LiteralPath(r))
  }

  function LiteralTexts(requests: seq<Request>): seq<Str> {
    seq(|requests|, i requires 0 <= i < |requests| => LiteralText(requests[i]))
  }

  function LiteralEntries(h: Str -> Digest, w: Worktree, requests: seq<Request>, prior: ByPath): seq<FileEntry> {
    EntriesFor(h, w.disk, LiteralTexts(requests), prior)
  }

  lemma {:induction false} LiteralsMerged(w: Worktree, requests: seq<Request>, n: nat)
    requires ValidWorktree(w) && AllLiteral(requests) && n <= |requests|
    ensures |Merged(w, requests, n)| == n
    ensures forall i :: 0 <= i < n ==> Merged(w, requests, n)[i] == requests[i].base + LiteralPath(requests[i])
  {
    if n > 0 {
      LiteralsMerged(w, requests, n - 1);
      assert requests[n - 1] in requests;
      assert !ExcludedAt(requests, UnescapeLiteral(requests[n - 1].pattern));
    }
  }

  lemma LiteralsResolved(h: Str -> Digest, w: Worktree, requests: seq<Request>, prior: ByPath)
    requires ValidWorktree(w) && AllLiteral(requests)
    ensures Resolution(h, w, requests, prior) ==
            Some(Sort(PathBelow, Dedupe(w.canonical, LiteralEntries(h, w, requests, prior))))
  {
    LiteralsMerged(w, requests, |requests|);
    assert Texts(Merged(w, requests, |requests|)) == LiteralTexts(requests);
  }

  lemma RequestOrderMatters(h: Str -> Digest, w: Worktree, a: seq<Request>, r: Request, q: Request, prior: ByPath)
    returns (b: seq<Request>, c: seq<Request>)
    requires ValidWorktree(w) && AllLiteral(a) && r in a && q in a
    requires
      var x, y := EntryFor(h, w.disk, LiteralText(r), prior), EntryFor(h, w.disk, LiteralText(q), prior);
      x != y && (DedupeKey(w.canonical, x) == DedupeKey(w.canonical, y) || x.path == y.path)
    ensures multiset(b) == multiset(a) && multiset(c) == multiset(a)
    ensures Resolution(h, w, b, prior) != Resolution(h, w, c, prior)
  {
    var others := Pull(a, r);
    assert q in multiset([r] + others) && q in others;
    var rest := Pull(others, q);
    b, c := [r] + ([q] + rest), [q] + ([r] + rest);
    SamePermutation(a, b);
    SamePermutation(a, c);
    LiteralsResolved(h, w, b, prior);
    LiteralsResolved(h, w, c, prior);
    HeadEntry(h, w, r, [q] + rest, prior);
    HeadEntry(h, w, q, [r] + rest, prior);
  }

  /** The entry of the first request is the first of its path, and the only one of its key. */
  lemma HeadEntry(h: Str -> Digest, w: Worktree, r: Request, rest: seq<Request>, prior: ByPath)
    ensures
      var x := EntryFor(h, w.disk, LiteralText(r), prior);
      var result := Sort(PathBelow, Dedupe(w.canonical, LiteralEntries(h, w, [r] + rest, prior)));
      var same := Filter((e: FileEntry) => e.path == x.path, result);
      same != [] && same[0] == x && x in result &&
      forall y :: y in result && DedupeKey(w.canonical, y) == DedupeKey(w.canonical, x) ==> y == x
  {
    EntriesOfHead(h, w, r, rest, prior);
    FirstWins(w.canonical, EntryFor(h, w.disk, LiteralText(r), prior), LiteralEntries(h, w, rest, prior));
  }

  lemma EntriesOfHead(h: Str -> Digest, w: Worktree, r: Request, rest: seq<Request>, prior: ByPath)
    ensures LiteralEntries(h, w, [r] + rest, prior) ==
            [EntryFor(h, w.disk, LiteralText(r), prior)] + LiteralEntries(h, w, rest, prior)
  {
    TextsOfHead(r, rest);
    EntriesCons(h, w.disk, LiteralText(r), LiteralTexts(rest), prior);
  }

  lemma TextsOfHead(r: Request, rest: seq<Request>)
    ensures LiteralTexts([r] + rest) == [LiteralText(r)] + LiteralTexts(rest)
  {
    var a, b := LiteralTexts([r] + rest), [LiteralText(r)] + LiteralTexts(rest);
    forall i | 0 <= i < |a| ensures a[i] == b[i] { assert ([r] + rest)[i] == if i == 0 then r else rest[i - 1]; }
  }

  lemma EntriesCons(h: Str -> Digest, disk: Disk, t: Str, texts: seq<Str>, prior: ByPath)
    ensures EntriesFor(h, disk, [t] + texts, prior) == [EntryFor(h, disk, t, prior)] + EntriesFor(h, disk, texts, prior)
  {
    EntriesForConcat(h, disk, [t], texts, prior);
    OneEntry(h, disk, t, prior);
  }

  /** Lists of literals resolve alike in every order exactly when their entries are separate. */
  lemma LiteralOrderExactly(h: Str -> Digest, w: Worktree, a: seq<Request>, prior: ByPath)
    requires ValidWorktree(w) && AllLiteral(a)
    ensures (forall b :: multiset(b) == multiset(a) ==> Resolution(h, w, b, prior) == Resolution(h, w, a, prior)) <==>
            Separate(w.canonical, LiteralEntries(h, w, a, prior))
  {
    if Separate(w.canonical, LiteralEntries(h, w, a, prior)) {
      LiteralsMerged(w, a, |a|);
      assert Texts(Merged(w, a, |a|)) == LiteralTexts(a);
      forall b | multiset(b) == multiset(a) ensures Resolution(h, w, b, prior) == Resolution(h, w, a, prior) {
        SamePermutation(a, b);
        OrderOfRequests(h, w, a, b, prior);
      }
    } else {
      var b, c := LiteralsClash(h, w, a, prior);
    }
  }

  lemma LiteralsClash(h: Str -> Digest, w: Worktree, a: seq<Request>, prior: ByPath)
    returns (b: seq<Request>, c: seq<Request>)
    requires ValidWorktree(w) && AllLiteral(a) && !Separate(w.canonical, LiteralEntries(h, w, a, prior))
    ensures multiset(b) == multiset(a) && multiset(c) == multiset(a)
    ensures Resolution(h, w, b, prior) != Resolution(h, w, c, prior)
  {
    var entries := LiteralEntries(h, w, a, prior);
    var x, y :| x in entries && y in entries &&
                (DedupeKey(w.canonical, x) == DedupeKey(w.canonical, y) || x.path == y.path) && x != y;
    var r := RequestOf(h, w, a, prior, x);
    var q := RequestOf(h, w, a, prior, y);
    b, c := RequestOrderMatters(h, w, a, r, q, prior);
  }

  lemma RequestOf(h: Str -> Digest, w: Worktree, a: seq<Request>, prior: ByPath, x: FileEntry) returns (r: Request)
    requires x in LiteralEntries(h, w, a, prior)
    ensures r in a && EntryFor(h, w.disk, LiteralText(r), prior) == x
  {
    EntriesContents(h, w.disk, LiteralTexts(a), prior, x);
    var t :| t in LiteralTexts(a) && x == EntryFor(h, w.disk, t, prior);
    var i :| 0 <= i < |a| && LiteralTexts(a)[i] == t;
    r := a[i];
  }

  lemma FirstSpelling(h: Str -> Digest, w: Worktree, r: Request, q: Request, prior: ByPath)
    requires ValidWorktree(w) && PlainLiteral(r) && PlainLiteral(q)
    requires KeyOf(w, LiteralText(r)) == KeyOf(w, LiteralText(q))
    ensures Resolution(h, w, [r, q], prior) == Some([EntryFor(h, w.disk, LiteralText(r), prior)])
  {
    var x, y := EntryFor(h, w.disk, LiteralText(r), prior), EntryFor(h, w.disk, LiteralText(q), prior);
    LiteralsResolved(h, w, [r, q], prior);
    TwoEntries(h, w, r, q, prior);
    EntryKey(h, w, LiteralText(r), prior);
    EntryKey(h, w, LiteralText(q), prior);
    SecondSpellingDropped(w.canonical, x, y);
  }

  lemma TwoEntries(h: Str -> Digest, w: Worktree, r: Request, q: Request, prior: ByPath)
    ensures LiteralEntries(h, w, [r, q], prior) ==
            [EntryFor(h, w.disk, LiteralText(r), prior), EntryFor(h, w.disk, LiteralText(q), prior)]
  {
    EntriesOfHead(h, w, r, [q], prior);
    EntriesOfHead(h, w, q, [], prior);
    assert [r] + [q] == [r, q] && [q] + [] == [q];
  }

  /** Two spellings of one present file, requested in either order: the first one requested is kept. */
  lemma FirstSpellingWins(h: Str -> Digest, w: Worktree, r: Request, q: Request, prior: ByPath)
    requires ValidWorktree(w) && PlainLiteral(r) && PlainLiteral(q)
    requires LiteralText(r) in w.disk && LiteralText(q) in w.disk
    requires w.canonical(Recorded(LiteralText(r))) == w.canonical(Recorded(LiteralText(q)))
    ensures Resolution(h, w, [r, q], prior) == Some([EntryFor(h, w.disk, LiteralText(r), prior)])
    ensures Resolution(h, w, [q, r], prior) == Some([EntryFor(h, w.disk, LiteralText(q), prior)])
    ensures Recorded(LiteralText(r)) != Recorded(LiteralText(q)) ==>
            Resolution(h, w, [r, q], prior) != Resolution(h, w, [q, r], prior)
  {
    FirstSpelling(h, w, r, q, prior);
    FirstSpelling(h, w, q, r, prior);
    EntryKey(h, w, LiteralText(r), prior);
    EntryKey(h, w, LiteralText(q), prior);
  }

  lemma SecondSpellingDropped(canonical: Str -> Str, x: FileEntry, y: FileEntry)
    requires DedupeKey(canonical, x) == DedupeKey(canonical, y)
    ensures Sort(PathBelow, Dedupe(canonical, [x, y])) == [x]
  {
    assert [x, y][..1] == [x] && [x][..0] == [] && x in [x];
    assert KeySeen(canonical, [x], y) && !KeySeen(canonical, [], x);
    assert Dedupe(canonical, [x]) == Dedupe(canonical, []) + [x];
  }

  // ---------------------------------------------------------------- lists with wildcards and exclusions

  /** What one request contributes, exclusions of the whole list applied. */
  ghost function Block(h: Str -> Digest, w: Worktree, requests: seq<Request>, prior: ByPath): Request -> seq<FileEntry>
    requires ValidWorktree(w)
  {
    (r: Request) => if r.negated then [] else EntriesFor(h, w.disk, Texts(RequestPaths(w, requests, r)), prior)
  }

  lemma {:induction false} FlattenSnoc<T>(block: T -> seq<FileEntry>, s: seq<T>, x: T)
    ensures Flatten(block, s + [x]) == Flatten(block, s) + block(x)
  {
    if s == [] {
      assert [] + [x] == [x] && [x][1..] == [];
    } else {
      FlattenSnoc(block, s[1..], x);
      assert (s + [x])[1..] == s[1..] + [x];
      Associate(block(s[0]), Flatten(block, s[1..]), block(x));
    }
  }

  lemma OneBlockMore(h: Str -> Digest, w: Worktree, requests: seq<Request>, n: nat, prior: ByPath)
    requires ValidWorktree(w) && n < |requests|
    ensures EntriesUpTo(h, w, requests, n + 1, prior) ==
            EntriesUpTo(h, w, requests, n, prior) + Block(h, w, requests, prior)(requests[n])
  {
    OneRequestMore(h, w, requests, n, prior);
  }

  lemma FlattenUpTo<T>(block: T -> seq<FileEntry>, s: seq<T>, n: nat)
    requires n < |s|
    ensures Flatten(block, s[..n + 1]) == Flatten(block, s[..n]) + block(s[n])
  {
    assert s[..n + 1] == s[..n] + [s[n]];
    FlattenSnoc(block, s[..n], s[n]);
  }

  lemma {:induction false} MergedBlocks(h: Str -> Digest, w: Worktree, requests: seq<Request>, n: nat, prior: ByPath)
    requires ValidWorktree(w) && n <= |requests|
    ensures EntriesUpTo(h, w, requests, n, prior) == Flatten(Block(h, w, requests, prior), requests[..n])
  {
    if n > 0 {
      var m: nat := n - 1;
      MergedBlocks(h, w, requests, m, prior);
      OneBlockMore(h, w, requests, m, prior);
      FlattenUpTo(Block(h, w, requests, prior), requests, m);
    }
  }

  lemma {:induction false} SameMatched(a: seq<Request>, b: seq<Request>, r: Request, candidates: seq<Path>)
    requires forall t :: ExcludedAt(a, t) <==> ExcludedAt(b, t)
    requires forall i :: 0 <= i < |candidates| ==> candidates[i] != []
    ensures MatchedBelow(a, r, candidates) == MatchedBelow(b, r, candidates)
  {
    if candidates != [] { SameMatched(a, b, r, candidates[..|candidates| - 1]); }
  }

  /** The block of a request is the same in every order of the list. */
  lemma SameBlock(h: Str -> Digest, w: Worktree, a: seq<Request>, b: seq<Request>, prior: ByPath, r: Request)
    requires ValidWorktree(w) && multiset(a) == multiset(b)
    ensures Block(h, w, a, prior)(r) == Block(h, w, b, prior)(r)
  {
    SamePermutation(a, b);
    forall t ensures ExcludedAt(a, t) <==> ExcludedAt(b, t) { }
    SameMatched(a, b, r, w.tracked(r.base));
  }

  lemma {:induction false} SameFlattened<T>(f: T -> seq<FileEntry>, g: T -> seq<FileEntry>, s: seq<T>)
    requires forall x :: x in s ==> f(x) == g(x)
    ensures Flatten(f, s) == Flatten(g, s)
  {
    if s != [] { SameFlattened(f, g, s[1..]); }
  }

  lemma ResolutionOfBlocks(h: Str -> Digest, w: Worktree, a: seq<Request>, b: seq<Request>, prior: ByPath)
    requires ValidWorktree(w) && multiset(a) == multiset(b)
    ensures Resolution(h, w, b, prior) ==
            if PatternsCompile(a) then Some(Outcome(w.canonical, Flatten(Block(h, w, a, prior), b))) else None
  {
    SamePermutation(a, b);
    assert PatternsCompile(a) <==> PatternsCompile(b);
    MergedBlocks(h, w, b, |b|, prior);
    assert b[..|b|] == b;
    forall r | r in b ensures Block(h, w, a, prior)(r) == Block(h, w, b, prior)(r) { SameBlock(h, w, a, b, prior, r); }
    SameFlattened(Block(h, w, a, prior), Block(h, w, b, prior), b);
  }

  ghost predicate OrderMakesNoDifference(h: Str -> Digest, w: Worktree, a: seq<Request>, prior: ByPath)
    requires ValidWorktree(w)
  {
    forall b :: multiset(b) == multiset(a) ==> Resolution(h, w, b, prior) == Resolution(h, w, a, prior)
  }

  /**
   * Any list of requests, wildcards and exclusions included, resolves alike in every order exactly when
   * what any two of its requests keep agrees key by key and in the first entry of every recorded path,
   * or some pattern does not compile.
   */
  lemma RequestOrderExactly(h: Str -> Digest, w: Worktree, a: seq<Request>, prior: ByPath)
    requires ValidWorktree(w)
    ensures OrderMakesNoDifference(h, w, a, prior) <==>
            !PatternsCompile(a) || AllCompatible(w.canonical, Block(h, w, a, prior), a)
  {
    var block := Block(h, w, a, prior);
    forall b | multiset(b) == multiset(a)
      ensures Resolution(h, w, b, prior) ==
              if PatternsCompile(a) then Some(Outcome(w.canonical, Flatten(block, b))) else None
    {
      ResolutionOfBlocks(h, w, a, b, prior);
    }
    BlockOrderExactly(w.canonical, block, a);
    if OrderMakesNoDifference(h, w, a, prior) && PatternsCompile(a) {
      forall t | multiset(t) == multiset(a)
        ensures Outcome(w.canonical, Flatten(block, t)) == Outcome(w.canonical, Flatten(block, a))
      {
        assert Resolution(h, w, t, prior) == Resolution(h, w, a, prior);
      }
    }
  }
}
