/** Output files of a task: patterns resolved against a walk that visits no more than it must. */
module ResolveOutputs {
  import opened Basics
  import opened Tasks
  import opened Glob

  // ---------------------------------------------------------------- paths and trees

  /** A path by its segments. */
  type Path = seq<Str>

  /** A segment as a directory entry has it. */
  predicate NormalSegment(s: Str) {
    s != [] && s != "." && s != ".." && '/' !in s
  }

  predicate Normal(path: Path) {
    path != [] && forall i :: 0 <= i < |path| ==> NormalSegment(path[i])
  }

  function Text(path: Path): Str
    requires path != []
  {
    if |path| == 1 then path[0] else path[0] + "/" + Text(path[1..])
  }

  /** The segments of a text between slashes. */
  function Segments(s: Str): (r: seq<Str>)
    ensures r != []
    decreases |s|
  {
    var i := IndexOf(s, '/');
    if i == |s| then [s] else [s[..i]] + Segments(s[i + 1..])
  }

  lemma {:induction false} SegmentsOfText(path: Path)
    requires Normal(path)
    ensures Segments(Text(path)) == path
  {
    if |path| == 1 {
      assert IndexOf(path[0], '/') == |path[0]|;
    } else {
      var rest: Str := "/" + Text(path[1..]);
      assert Text(path) == path[0] + rest;
      IndexOfConcat(path[0], rest, '/');
      SegmentsOfText(path[1..]);
      assert Text(path)[..|path[0]|] == path[0] && Text(path)[|path[0]| + 1..] == Text(path[1..]);
    }
  }

  /** The regular files below an existing base directory that holds no symbolic links. */
  type Tree = set<Path>

  ghost predicate ValidTree(tree: Tree) {
    forall f :: f in tree ==> Normal(f)
  }

  // ---------------------------------------------------------------- paths as ordered sets hold them

  datatype Component = RootDir | CurDir | ParentDir | Named(name: Str)

  /** The components by which two spellings are the same path: empty and inner `.` segments do not count. */
  function Components(text: Str): seq<Component> {
    if "/" <= text then [RootDir] + Inner(Segments(text))
    else if Segments(text)[0] == "." then [CurDir] + Inner(Segments(text)[1..])
    else Inner(Segments(text))
  }

  function Inner(segments: seq<Str>): seq<Component> {
    if segments == [] then []
    else if segments[0] == [] || segments[0] == "." then Inner(segments[1..])
    else [if segments[0] == ".." then ParentDir else Named(segments[0])] + Inner(segments[1..])
  }

  function AllNamed(path: Path): seq<Component> {
    seq(|path|, i requires 0 <= i < |path| => Named(path[i]))
  }

  lemma {:induction false} InnerOfNormal(path: Path)
    requires forall i :: 0 <= i < |path| ==> NormalSegment(path[i])
    ensures Inner(path) == AllNamed(path)
  {
    if path != [] {
      InnerOfNormal(path[1..]);
      assert AllNamed(path) == [Named(path[0])] + AllNamed(path[1..]);
    }
  }

  /** A listed file is the same path as no other listed file. */
  lemma ComponentsOfText(path: Path)
    requires Normal(path)
    ensures Components(Text(path)) == AllNamed(path)
  {
    SegmentsOfText(path);
    InnerOfNormal(path);
    assert path[0] != "." && path[0] != [];
    assert Text(path)[0] == path[0][0];
  }

  lemma SameComponents(a: Path, b: Path)
    requires Normal(a) && Normal(b) && Components(Text(a)) == Components(Text(b))
    ensures a == b
  {
    ComponentsOfText(a);
    ComponentsOfText(b);
    assert |a| == |AllNamed(a)| == |AllNamed(b)| == |b|;
    forall i | 0 <= i < |a| ensures a[i] == b[i] { assert AllNamed(a)[i] == AllNamed(b)[i]; }
  }

  function Rank(c: Component): nat {
    match c
    case RootDir => 0
    case CurDir => 1
    case ParentDir => 2
    case Named(_) => 3
  }

  predicate ComponentBelow(a: Component, b: Component) {
    Rank(a) < Rank(b) || (a.Named? && b.Named? && Less(a.name, b.name))
  }

  predicate ComponentsBelow(a: seq<Component>, b: seq<Component>) {
    b != [] && (a == [] || ComponentBelow(a[0], b[0]) || (a[0] == b[0] && ComponentsBelow(a[1..], b[1..])))
  }

  /** The order of paths, component by component. */
  predicate PathTextBelow(a: Str, b: Str) {
    ComponentsBelow(Components(a), Components(b))
  }

  /** A text put into an ordered set of paths: nothing happens when the path is there, however spelled. */
  function Put(paths: set<Str>, text: Str): set<Str> {
    if Spelled(paths, text) then paths else paths + {text}
  }

  predicate Spelled(paths: set<Str>, text: Str) {
    exists t :: t in paths && Components(t) == Components(text)
  }

  // ---------------------------------------------------------------- walk roots

  predicate IsSeparator(c: Byte) {
    c == '/' || c == '\\'
  }

  function SeparatorIndex(s: Str): (i: nat)
    ensures i <= |s|
  {
    if s == [] || IsSeparator(s[0]) then 0 else 1 + SeparatorIndex(s[1..])
  }

  lemma {:induction false} SeparatorIndexMeaning(s: Str)
    ensures SeparatorIndex(s) < |s| ==> IsSeparator(s[SeparatorIndex(s)])
    ensures forall k :: 0 <= k < SeparatorIndex(s) ==> !IsSeparator(s[k])
  {
    if s != [] && !IsSeparator(s[0]) { SeparatorIndexMeaning(s[1..]); }
  }

  /** The pieces of a pattern between slashes and backslashes. */
  function Pieces(s: Str): seq<Str>
    decreases |s|
  {
    var i := SeparatorIndex(s);
    if i == |s| then [s] else [s[..i]] + Pieces(s[i + 1..])
  }

  predicate HasMetachar(s: Str) {
    StaticLength(s) < |s|
  }

  /** The directory a walk may start from, after the pieces read so far; None asks for the full walk. */
  function PrefixFrom(pieces: seq<Str>, prefix: Path): Option<Path> {
    if pieces == [] then Some(prefix)
    else if pieces[0] == [] || pieces[0] == "." then PrefixFrom(pieces[1..], prefix)
    else if pieces[0] == ".." then None
    else if HasMetachar(pieces[0]) then if prefix == [] then None else Some(prefix)
    else PrefixFrom(pieces[1..], prefix + [pieces[0]])
  }

  method StaticPrefix(pattern: Str) returns (prefix: Option<Path>)
    ensures prefix == PrefixFrom(Pieces(pattern), [])
  {
    var pieces, walked: Path := Pieces(pattern), [];
    for i := 0 to |pieces|
      invariant PrefixFrom(pieces, []) == PrefixFrom(pieces[i..], walked)
    {
      var piece := pieces[i];
      assert pieces[i..][0] == piece && pieces[i..][1..] == pieces[i + 1..];
      if piece == [] || piece == "." { continue; }
      if piece == ".." { return None; }
      if HasMetachar(piece) { return if walked == [] then None else Some(walked); }
      walked := walked + [piece];
    }
    return Some(walked);
  }

  function PatternPrefix(pattern: Str): Option<Path> {
    PrefixFrom(Pieces(pattern), [])
  }

  /** The walk roots of a pattern list: those of its includes, or None as soon as one has none. */
  function PrefixUnion(patterns: seq<Str>): Option<set<Path>> {
    if patterns == [] then Some({})
    else
      var rest, last := PrefixUnion(patterns[..|patterns| - 1]), patterns[|patterns| - 1];
      if IsNegated(last) then rest
      else if rest.None? || PatternPrefix(last).None? then None
      else Some(rest.value + {PatternPrefix(last).value})
  }

  method ComputePrefixUnion(patterns: seq<Str>) returns (prefixes: Option<set<Path>>)
    ensures prefixes == PrefixUnion(patterns)
  {
    var roots: set<Path> := {};
    for i := 0 to |patterns|
      invariant PrefixUnion(patterns[..i]) == Some(roots)
    {
      assert patterns[..i + 1][..i] == patterns[..i];
      if !IsNegated(patterns[i]) {
        var prefix := StaticPrefix(patterns[i]);
        if prefix.None? {
          NoPrefixStays(patterns, i + 1);
          return None;
        }
        roots := roots + {prefix.value};
      }
    }
    assert patterns[..|patterns|] == patterns;
    return Some(roots);
  }

  lemma {:induction false} NoPrefixStays(patterns: seq<Str>, i: nat)
    requires i <= |patterns| && PrefixUnion(patterns[..i]).None?
    ensures PrefixUnion(patterns).None?
    decreases |patterns| - i
  {
    if i < |patterns| {
      assert patterns[..i + 1][..i] == patterns[..i];
      NoPrefixStays(patterns, i + 1);
    } else {
      assert patterns[..i] == patterns;
    }
  }

  /** What the lister returns: everything, or what lies below the given roots. */
  function Listing(tree: Tree, prefixes: Option<set<Path>>): set<Path> {
    if prefixes.None? then tree else set f, root | f in tree && root in prefixes.value && root <= f :: f
  }

  // ---------------------------------------------------------------- resolution

  /** The paths named by the literal includes, each in its first spelling. */
  function LiteralPaths(patterns: seq<Str>): set<Str> {
    if patterns == [] then {}
    else
      var rest, last := LiteralPaths(patterns[..|patterns| - 1]), patterns[|patterns| - 1];
      if IsNegated(last) || IsWildcard(last) then rest else Put(rest, UnescapeLiteral(last))
  }

  predicate Included(patterns: seq<Str>, text: Str) {
    exists p :: p in patterns && !IsNegated(p) && IsWildcard(p) && Matches(p, text)
  }

  predicate Excluded(patterns: seq<Str>, text: Str) {
    exists p :: p in patterns && IsNegated(p) && Matches(Body(p), text)
  }

  /** Literal includes are taken as they are; only exclusions and wildcards must compile. */
  predicate AllCompile(patterns: seq<Str>) {
    forall p :: p in patterns && (IsNegated(p) || IsWildcard(p)) ==> Compiles(Body(p))
  }

  /** A listed file is taken when an include matches it and no literal names it already. */
  predicate TakesFile(patterns: seq<Str>, text: Str) {
    Included(patterns, text) && !Spelled(LiteralPaths(patterns), text)
  }

  /** The paths resolved from a set of candidates; None when a pattern does not compile. */
  ghost function Resolved(patterns: seq<Str>, candidates: set<Path>): Option<set<Str>>
    requires forall c :: c in candidates ==> c != []
  {
    if !AllCompile(patterns) then None
    else Some(set t | t in LiteralPaths(patterns) + CandidateTexts(candidates) &&
                      (t in LiteralPaths(patterns) || TakesFile(patterns, t)) && !Excluded(patterns, t))
  }

  ghost function CandidateTexts(candidates: set<Path>): set<Str>
    requires forall c :: c in candidates ==> c != []
  {
    set c | c in candidates :: Text(c)
  }

  ghost predicate AllFiles(candidates: seq<Path>) {
    forall i :: 0 <= i < |candidates| ==> candidates[i] != [] && Normal(candidates[i])
  }

  /** Filtering the candidates one by one into an ordered set, then dropping what the exclusions match. */
  method ResolvePaths(patterns: seq<Str>, candidates: seq<Path>) returns (resolved: Option<set<Str>>)
    requires AllFiles(candidates)
    ensures resolved == Resolved(patterns, set c | c in candidates)
  {
    if !AllCompile(patterns) { return None; }
    var paths := LiteralPaths(patterns);
    for i := 0 to |candidates|
      invariant forall t :: t in paths <==>
                  t in LiteralPaths(patterns) || (TakesFile(patterns, t) && t in TextsOf(candidates[..i]))
    {
      var text := Text(candidates[i]);
      OneCandidate(patterns, candidates, i, paths);
      if Included(patterns, text) { paths := Put(paths, text); }
    }
    assert candidates[..|candidates|] == candidates;
    resolved := Some(set t | t in paths && !Excluded(patterns, t));
    assert forall t :: t in CandidateTexts(set c | c in candidates) <==> t in TextsOf(candidates);
    assert resolved.value == Resolved(patterns, set c | c in candidates).value;
  }

  lemma OneCandidate(patterns: seq<Str>, candidates: seq<Path>, i: nat, paths: set<Str>)
    requires AllFiles(candidates) && i < |candidates|
    requires forall t :: t in paths <==>
               t in LiteralPaths(patterns) || (TakesFile(patterns, t) && t in TextsOf(candidates[..i]))
    ensures
      var text := Text(candidates[i]);
      var after := if Included(patterns, text) then Put(paths, text) else paths;
      forall t :: t in after <==>
      t in LiteralPaths(patterns) || (TakesFile(patterns, t) && t in TextsOf(candidates[..i + 1]))
  {
    var text := Text(candidates[i]);
    assert candidates[..i + 1] == candidates[..i] + [candidates[i]];
    forall t ensures t in TextsOf(candidates[..i + 1]) <==> t in TextsOf(candidates[..i]) || t == text {}
    forall t | t in TextsOf(candidates[..i]) && Components(t) == Components(text) ensures t == text {
      var c :| c in candidates[..i] && Text(c) == t;
      var j :| 0 <= j < i && candidates[j] == c;
      SameComponents(candidates[j], candidates[i]);
    }
    assert Spelled(LiteralPaths(patterns), text) ==> Spelled(paths, text) by {
      if t :| t in LiteralPaths(patterns) && Components(t) == Components(text) { assert t in paths; }
    }
  }

  ghost function TextsOf(candidates: seq<Path>): set<Str>
    requires forall i :: 0 <= i < |candidates| ==> candidates[i] != []
  {
    set c | c in candidates :: Text(c)
  }

  // ---------------------------------------------------------------- the limited walk misses nothing

  /** The text begins like the pattern, up to the first metacharacter. */
  ghost predicate SharesHead(p: Str, t: Str) {
    StaticLength(p) <= |t| && forall k :: 0 <= k < StaticLength(p) ==> t[k] == p[k]
  }

  ghost predicate AllNormal(ss: seq<Str>) {
    forall i :: 0 <= i < |ss| ==> NormalSegment(ss[i])
  }

  /** The prefix, if there is one, consists of what was walked before and k segments of the text. */
  ghost predicate Covered(prefix: Option<Path>, before: Path, ss: seq<Str>, k: nat) {
    prefix.Some? ==> k <= |ss| && prefix.value == before + ss[..k]
  }

  /** A pattern whose head holds no escape matches only below its static prefix. */
  lemma {:induction false} PrefixCovers(p: Str, t: Str, before: Path) returns (k: nat)
    requires StaticLength(p) < |p| && PlainHead(p) && SharesHead(p, t) && AllNormal(Segments(t))
    ensures Covered(PrefixFrom(Pieces(p), before), before, Segments(t), k)
    decreases |p|
  {
    var i := SeparatorIndex(p);
    if i < StaticLength(p) {
      var first, ss := p[..i], Segments(t[i + 1..]);
      HeadTail(p, i);
      HeadShared(p, t, i);
      TextSplit(p, t, i);
      NormalTail(first, ss);
      var j := PrefixCovers(p[i + 1..], t[i + 1..], before + [first]);
      PrefixStep(first, Pieces(p[i + 1..]), before);
      OneSegmentMore(PrefixFrom(Pieces(p), before), before, first, ss, j);
      k := j + 1;
    } else {
      FirstPieceHasMetachar(p);
      k := 0;
    }
  }

  lemma NormalTail(first: Str, ss: seq<Str>)
    requires AllNormal([first] + ss)
    ensures NormalSegment(first) && AllNormal(ss)
  {
    var all := [first] + ss;
    assert all[0] == first;
    forall j | 0 <= j < |ss| ensures NormalSegment(ss[j]) { assert all[j + 1] == ss[j]; }
  }

  lemma PrefixStep(first: Str, pieces: seq<Str>, prefix: Path)
    requires NormalSegment(first) && !HasMetachar(first)
    ensures PrefixFrom([first] + pieces, prefix) == PrefixFrom(pieces, prefix + [first])
  {
    assert ([first] + pieces)[1..] == pieces;
  }

  lemma OneSegmentMore(prefix: Option<Path>, before: Path, first: Str, ss: seq<Str>, j: nat)
    requires Covered(prefix, before + [first], ss, j)
    ensures Covered(prefix, before, [first] + ss, j + 1)
  {
    if prefix.Some? { assert before + [first] + ss[..j] == before + ([first] + ss)[..j + 1]; }
  }

  lemma FirstPieceHasMetachar(p: Str)
    requires StaticLength(p) < |p| && SeparatorIndex(p) >= StaticLength(p)
    ensures Pieces(p) != [] && HasMetachar(Pieces(p)[0])
  {
    SeparatorIndexMeaning(p);
    StaticLengthMeaning(p);
    assert SeparatorIndex(p) != StaticLength(p);
    HeadMetachar(p, SeparatorIndex(p));
    assert Pieces(p)[0] == p[..SeparatorIndex(p)];
  }

  lemma HeadMetachar(p: Str, i: nat)
    requires StaticLength(p) < i <= |p|
    ensures HasMetachar(p[..i])
  {
    StaticLengthMeaning(p);
    StaticLengthUnique(p[..i], StaticLength(p));
  }

  /** What follows the first slash of the head of a pattern. */
  lemma HeadTail(p: Str, i: nat)
    requires i < StaticLength(p) < |p| && PlainHead(p) && i == SeparatorIndex(p)
    ensures p[i] == '/' && !HasMetachar(p[..i])
    ensures StaticLength(p[i + 1..]) == StaticLength(p) - i - 1
  {
    SeparatorIndexMeaning(p);
    assert p[i] in p[..StaticLength(p)];
    CutHead(p, i);
  }

  lemma CutHead(p: Str, i: nat)
    requires i < StaticLength(p)
    ensures !HasMetachar(p[..i]) && StaticLength(p[i + 1..]) == StaticLength(p) - i - 1
  {
    StaticLengthMeaning(p);
    StaticLengthUnique(p[i + 1..], StaticLength(p) - i - 1);
    StaticLengthUnique(p[..i], i);
  }

  lemma HeadShared(p: Str, t: Str, i: nat)
    requires i < StaticLength(p) && PlainHead(p) && SharesHead(p, t)
    requires StaticLength(p[i + 1..]) == StaticLength(p) - i - 1
    ensures PlainHead(p[i + 1..]) && SharesHead(p[i + 1..], t[i + 1..])
  {
    var n, q := StaticLength(p), p[i + 1..];
    forall c | c in q[..n - i - 1] ensures c in p[..n] {
      var k :| 0 <= k < n - i - 1 && q[..n - i - 1][k] == c;
      assert p[..n][k + i + 1] == c;
    }
    forall k | 0 <= k < n - i - 1 ensures t[i + 1..][k] == q[k] { assert t[k + i + 1] == p[k + i + 1]; }
  }

  lemma TextSplit(p: Str, t: Str, i: nat)
    requires i < StaticLength(p) && i == SeparatorIndex(p) && p[i] == '/' && SharesHead(p, t)
    ensures Segments(t) == [p[..i]] + Segments(t[i + 1..])
  {
    SeparatorIndexMeaning(p);
    assert t[..i] == p[..i];
    assert t == t[..i] + ("/" + t[i + 1..]);
    IndexOfConcat(t[..i], "/" + t[i + 1..], '/');
  }

  lemma WildcardHasMetachar(p: Str)
    requires IsWildcard(p)
    ensures StaticLength(p) < |p|
  {
    StaticLengthMeaning(p);
    if '*' in p { var i :| 0 <= i < |p| && p[i] == '*'; }
    else if '?' in p { var i :| 0 <= i < |p| && p[i] == '?'; }
    else if '[' in p { var i :| 0 <= i < |p| && p[i] == '['; }
    else { var i :| 0 <= i < |p| && p[i] == '{'; }
  }

  ghost predicate PlainHeads(patterns: seq<Str>) {
    forall p :: p in patterns && !IsNegated(p) && IsWildcard(p) ==> PlainHead(p)
  }

  lemma {:induction false} PrefixUnionMember(patterns: seq<Str>, p: Str)
    requires PrefixUnion(patterns).Some? && p in patterns && !IsNegated(p)
    ensures PatternPrefix(p).Some? && PatternPrefix(p).value in PrefixUnion(patterns).value
  {
    if p != patterns[|patterns| - 1] { PrefixUnionMember(patterns[..|patterns| - 1], p); }
  }

  /** A file that some include matches is found by the limited walk. */
  lemma MatchedIsListed(patterns: seq<Str>, tree: Tree, f: Path, p: Str)
    requires ValidTree(tree) && f in tree && PlainHead(p)
    requires p in patterns && !IsNegated(p) && IsWildcard(p) && Matches(p, Text(f))
    ensures f in Listing(tree, PrefixUnion(patterns))
  {
    if PrefixUnion(patterns).Some? {
      var t := Text(f);
      PrefixUnionMember(patterns, p);
      WildcardHasMetachar(p);
      HeadIsLiteral(p, t, true);
      assert SharesHead(p, t) by {
        forall k | 0 <= k < StaticLength(p) ensures t[k] == p[k] {
          assert t[k] == t[..StaticLength(p)][k] == p[..StaticLength(p)][k];
        }
      }
      SegmentsOfText(f);
      var k := PrefixCovers(p, t, []);
      assert PatternPrefix(p).value == f[..k];
    }
  }

  /**
   * Resolving from the walk that visits only the static prefixes gives exactly what the full walk
   * gives, for every tree and every pattern list without escapes in front of a metacharacter:
   * empty lists, exclusion-only lists and lists that start with a glob included.
   */
  lemma LimitedWalkSuffices(patterns: seq<Str>, tree: Tree)
    requires ValidTree(tree) && PlainHeads(patterns)
    ensures Resolved(patterns, Listing(tree, PrefixUnion(patterns))) == Resolved(patterns, tree)
  {
    forall f, p | f in tree && Includes(patterns, p, f) ensures f in Listing(tree, PrefixUnion(patterns)) {
      MatchedIsListed(patterns, tree, f, p);
    }
    ListedSuffices(patterns, tree);
  }

  ghost predicate Includes(patterns: seq<Str>, p: Str, f: Path) {
    f != [] && p in patterns && !IsNegated(p) && IsWildcard(p) && Matches(p, Text(f))
  }

  /** A walk that finds every file matched by an include resolves to what the full walk does. */
  lemma ListedSuffices(patterns: seq<Str>, tree: Tree)
    requires ValidTree(tree)
    requires forall f, p :: f in tree && Includes(patterns, p, f) ==> f in Listing(tree, PrefixUnion(patterns))
    ensures Resolved(patterns, Listing(tree, PrefixUnion(patterns))) == Resolved(patterns, tree)
  {
    var listed := Listing(tree, PrefixUnion(patterns));
    if AllCompile(patterns) {
      var a, b := Resolved(patterns, listed).value, Resolved(patterns, tree).value;
      forall t ensures t in a <==> t in b {
        if t in b && t !in LiteralPaths(patterns) {
          var f :| f in tree && Text(f) == t;
          var p :| p in patterns && !IsNegated(p) && IsWildcard(p) && Matches(p, t);
          assert Includes(patterns, p, f);
        }
      }
      assert a == b;
    }
  }

  /**
   * An escape in the head breaks this: a pattern such as `src\*.ts` names the file `src*.ts`, but
   * its backslash is taken for a separator, and only the directory `src` is walked.
   */
  lemma EscapedHeadMisses(x: Str, y: Str, pattern: Str, file: Path)
    requires Ordinary(x) && Ordinary(y) && x != [] && y != [] && x[0] != '!' && x != "." && x != ".."
    requires pattern == x + "\\*" + y && file == [x + "*" + y]
    ensures Resolved([pattern], {file}) == Some({Text(file)})
    ensures Resolved([pattern], Listing({file}, PrefixUnion([pattern]))) == Some({})
  {
    EscapedMatches(x, y);
    EscapedPrefix(x, y);
    assert pattern[0] == x[0] && pattern[|x| + 1] == '*';
    assert forall p :: p in [pattern] ==> p == pattern;
    assert pattern in [pattern];
    assert [pattern][..0] == [] && PrefixUnion([]) == Some({});
    assert !IsNegated(pattern) && IsWildcard(pattern);
    var none: set<Path> := {};
    assert none + {[x]} == {[x]};
    assert PrefixUnion([pattern]) == Some({[x]});
    assert !([x] <= file) by { assert |file[0]| > |x|; }
    assert Listing({file}, PrefixUnion([pattern])) == {};
    assert LiteralPaths([pattern]) == {} && AllCompile([pattern]);
    forall t ensures !Excluded([pattern], t) {}
    assert Included([pattern], Text(file));
    assert CandidateTexts({file}) == {Text(file)};
    assert Resolved([pattern], {file}).value == {Text(file)};
    assert Resolved([pattern], {}).value == {};
  }

  lemma EscapedMatches(x: Str, y: Str)
    requires Ordinary(x) && Ordinary(y) && x != [] && y != []
    ensures Matches(x + "\\*" + y, x + "*" + y) && Compiles(x + "\\*" + y)
  {
    var p: Str, s: Str := "\\*" + y, "*" + y;
    assert x + "\\*" + y == x + p && x + "*" + y == x + s;
    OrdinaryMatches(x, p, s, true);
    assert p[2..] == y && s[1..] == y;
    OrdinaryMatches(y, [], [], false);
    assert y + [] == y;
  }

  lemma EscapedPrefix(x: Str, y: Str)
    requires Ordinary(x) && x != [] && x != "." && x != ".."
    ensures PatternPrefix(x + "\\*" + y) == Some([x])
  {
    var pattern: Str, rest: Str := x + "\\*" + y, "*" + y;
    assert pattern == x + ("\\" + rest);
    SeparatorAfter(x, "\\" + rest);
    assert pattern[..|x|] == x && pattern[|x| + 1..] == rest;
    StaticLengthUnique(x, |x|);
    PrefixStep(x, Pieces(rest), []);
    var none: Path := [];
    assert none + [x] == [x];
    StarStops(y, [x]);
  }

  lemma StarStops(y: Str, prefix: Path)
    requires prefix != []
    ensures PrefixFrom(Pieces("*" + y), prefix) == Some(prefix)
  {
    var rest: Str := "*" + y;
    var first := Pieces(rest)[0];
    assert SeparatorIndex(rest) > 0 && first[0] == '*';
    StaticLengthUnique(first, 0);
  }

  lemma {:induction false} SeparatorAfter(x: Str, s: Str)
    requires Ordinary(x) && s != [] && IsSeparator(s[0])
    ensures SeparatorIndex(x + s) == |x|
  {
    if x == [] {
      assert x + s == s;
    } else {
      SeparatorAfter(x[1..], s);
      assert (x + s)[1..] == x[1..] + s;
    }
  }
}
