/**
 * Exactly when the limited walk finds a file. The walk takes backslashes for separators; matching
 * takes them for escapes. The directory it starts from is right for a pattern when, written out,
 * it is the beginning of what the pattern spells.
 */
module LimitedWalk {
  import opened Basics
  import opened Tasks
  import opened Glob
  import opened ResolveOutputs

  // ---------------------------------------------------------------- directories as text

  /** The segments of a directory, each with its slash. */
  function DirText(path: Path): Str {
    if path == [] then [] else path[0] + "/" + DirText(path[1..])
  }

  predicate SlashFree(path: Path) {
    forall i :: 0 <= i < |path| ==> '/' !in path[i]
  }

  lemma {:induction false} DirTextConcat(a: Path, b: Path)
    ensures DirText(a + b) == DirText(a) + DirText(b)
  {
    if a == [] {
      assert a + b == b;
    } else {
      DirTextConcat(a[1..], b);
      assert (a + b)[0] == a[0] && (a + b)[1..] == a[1..] + b;
      Associate(a[0] + "/", DirText(a[1..]), DirText(b));
    }
  }

  lemma {:induction false} DirTextOfFile(f: Path)
    requires f != []
    ensures DirText(f) == Text(f) + "/"
  {
    if |f| > 1 {
      DirTextOfFile(f[1..]);
      Associate(f[0] + "/", Text(f[1..]), "/");
    } else {
      assert f[1..] == [] && f[0] + "/" + [] == f[0] + "/";
    }
  }

  /** One path is the beginning of another exactly when its text is. */
  lemma {:induction false} DirTextPrefix(a: Path, b: Path)
    requires SlashFree(a) && SlashFree(b)
    ensures DirText(a) <= DirText(b) <==> a <= b
  {
    if a != [] {
      if b == [] {
        assert |DirText(a)| > 0;
      } else {
        var x, y := DirText(a[1..]), DirText(b[1..]);
        DirTextPrefix(a[1..], b[1..]);
        assert a == [a[0]] + a[1..] && b == [b[0]] + b[1..];
        SameStart(a[0], x, b[0], y);
      }
    }
  }

  lemma SameStart(g: Str, x: Str, g': Str, y: Str)
    requires '/' !in g && '/' !in g'
    ensures g + "/" + x <= g' + "/" + y <==> g == g' && x <= y
  {
    var s, t := g + "/" + x, g' + "/" + y;
    if s <= t {
      var z := t[|s|..];
      assert t == s + z && s + z == g + "/" + (x + z);
      SplitAtFirst(g, x + z, g', y, '/');
    }
    if g == g' && x <= y {
      assert y == x + y[|x|..];
      assert t == s + y[|x|..];
    }
  }

  // ---------------------------------------------------------------- the walk root as text

  /** The text of the directories that the pieces of a pattern add to the walk root. */
  function WalkText(pieces: seq<Str>): Str {
    if pieces == [] || pieces[0] == ".." then []
    else if pieces[0] == [] || pieces[0] == "." then WalkText(pieces[1..])
    else if HasMetachar(pieces[0]) then []
    else pieces[0] + "/" + WalkText(pieces[1..])
  }

  lemma {:induction false} WalkTextIsRoot(pieces: seq<Str>, before: Path)
    requires PrefixFrom(pieces, before).Some?
    ensures DirText(PrefixFrom(pieces, before).value) == DirText(before) + WalkText(pieces)
  {
    if pieces != [] && !HasMetachar(pieces[0]) {
      var first, rest := pieces[0], pieces[1..];
      if first == [] || first == "." {
        WalkTextIsRoot(rest, before);
      } else {
        WalkTextIsRoot(rest, before + [first]);
        DirTextConcat(before, [first]);
        assert DirText([first]) == first + "/" + [] == first + "/";
        Associate(DirText(before), first + "/", WalkText(rest));
      }
    }
  }

  // ---------------------------------------------------------------- the walk root is never longer

  /** The two texts agree as far as both go. */
  ghost predicate Compatible(a: Str, b: Str) {
    forall k :: 0 <= k < |a| && k < |b| ==> a[k] == b[k]
  }

  lemma CompatibleTail(a: Str, x: Str, b: Str)
    requires Compatible(a + x, b) && |a| <= |b|
    ensures Compatible(x, b[|a|..])
  {
    forall k | 0 <= k < |x| && k < |b[|a|..]| ensures x[k] == b[|a|..][k] {
      assert (a + x)[|a| + k] == x[k];
    }
  }

  /** Pieces without separators and metacharacters are spelled as they stand, escaped or not. */
  lemma {:induction false} LiteralPiece(q: Str, escaped: bool, i: nat)
    requires i <= |q| && (escaped ==> i > 0) && forall k :: 0 <= k < i ==> !IsMetachar(q[k]) && q[k] != '\\'
    ensures LiteralFrom(q, escaped) == q[..i] + LiteralFrom(q[i..], false)
  {
    if i > 0 {
      LiteralPiece(q[1..], false, i - 1);
      assert q[..i] == [q[0]] + q[1..][..i - 1] && q[1..][i - 1..] == q[i..];
      Associate([q[0]], q[1..][..i - 1], LiteralFrom(q[i..], false));
    } else {
      assert q[0..] == q;
    }
  }

  lemma {:induction false} SeparatorThere(q: Str)
    requires SeparatorIndex(q) < |q|
    ensures IsSeparator(q[SeparatorIndex(q)])
  {
    if !IsSeparator(q[0]) { SeparatorThere(q[1..]); }
  }

  lemma PiecesSplit(q: Str, i: nat)
    requires i == SeparatorIndex(q) < |q|
    ensures IsSeparator(q[i]) && Pieces(q)[0] == q[..i] && Pieces(q)[1..] == Pieces(q[i + 1..])
  {
    SeparatorThere(q);
    PiecesUnfold(q, i);
    HeadAndTail(q[..i], Pieces(q[i + 1..]));
  }

  lemma PiecesUnfold(q: Str, i: nat)
    requires i == SeparatorIndex(q) < |q|
    ensures Pieces(q) == [q[..i]] + Pieces(q[i + 1..])
  {
  }

  lemma HeadAndTail(x: Str, s: seq<Str>)
    ensures ([x] + s)[0] == x && ([x] + s)[1..] == s
  {
  }

  /** What a pattern spells by its first piece and the separator behind it. */
  function Taken(q: Str, escaped: bool): Str
    requires SeparatorIndex(q) < |q|
  {
    var i := SeparatorIndex(q);
    q[..i] + if q[i] == '/' || (i == 0 && escaped) then [q[i]] else []
  }

  /** Does that separator escape the byte behind it? */
  predicate Escapes(q: Str, escaped: bool)
    requires SeparatorIndex(q) < |q|
  {
    var i := SeparatorIndex(q);
    q[i] == '\\' && !(i == 0 && escaped)
  }

  lemma LiteralSplit(q: Str, escaped: bool)
    requires SeparatorIndex(q) < |q| && !HasMetachar(q[..SeparatorIndex(q)])
    ensures LiteralFrom(q, escaped) == Taken(q, escaped) + LiteralFrom(q[SeparatorIndex(q) + 1..], Escapes(q, escaped))
  {
    var i := SeparatorIndex(q);
    SeparatorIndexMeaning(q);
    var rest := q[i + 1..];
    if i == 0 {
      assert q[..0] == [] && q[0..] == q;
    } else {
      StaticLengthMeaning(q[..i]);
      LiteralPiece(q, escaped, i);
      assert q[i..][0] == q[i] && q[i..][1..] == rest;
      Associate(q[..i], [q[i]], LiteralFrom(rest, false));
    }
  }

  lemma MetacharBehind(q: Str)
    requires HasMetachar(q) && SeparatorIndex(q) < |q| && !HasMetachar(q[..SeparatorIndex(q)])
    ensures HasMetachar(q[SeparatorIndex(q) + 1..])
  {
    var i, n := SeparatorIndex(q), StaticLength(q);
    SeparatorIndexMeaning(q);
    StaticLengthMeaning(q);
    if n < i { HeadMetachar(q, i); }
    CutHead(q, i);
  }

  /**
   * As long as the walk root agrees with what the pattern spells (behind some surplus v of spelled
   * text), it is not longer: a separator of the walk that spells nothing uses up surplus.
   */
  lemma {:induction false} RootNotLonger(q: Str, escaped: bool, v: Str)
    requires HasMetachar(q) && Compatible(WalkText(Pieces(q)), v + LiteralFrom(q, escaped))
    ensures |WalkText(Pieces(q))| <= |v| + |LiteralFrom(q, escaped)|
    decreases |q|
  {
    var i := SeparatorIndex(q);
    if i < |q| && !HasMetachar(q[..i]) && q[..i] != ".." {
      var q', escaped', v', n := NextStep(q, escaped, v);
      RootNotLonger(q', escaped', v');
    }
  }

  /** One piece less, which n bytes of the walk root stand for. */
  ghost predicate Shorter(q: Str, escaped: bool, v: Str, q': Str, escaped': bool, v': Str, n: nat) {
    |q'| < |q| && HasMetachar(q') && Compatible(WalkText(Pieces(q')), v' + LiteralFrom(q', escaped')) &&
    |WalkText(Pieces(q))| == n + |WalkText(Pieces(q'))| &&
    |v| + |LiteralFrom(q, escaped)| == n + |v'| + |LiteralFrom(q', escaped')|
  }

  lemma NextStep(q: Str, escaped: bool, v: Str) returns (q': Str, escaped': bool, v': Str, n: nat)
    requires HasMetachar(q) && Compatible(WalkText(Pieces(q)), v + LiteralFrom(q, escaped)) && SeparatorIndex(q) < |q|
    requires !HasMetachar(q[..SeparatorIndex(q)]) && q[..SeparatorIndex(q)] != ".."
    ensures Shorter(q, escaped, v, q', escaped', v', n)
  {
    var i := SeparatorIndex(q);
    var first, rest := q[..i], q[i + 1..];
    PiecesSplit(q, i);
    LiteralSplit(q, escaped);
    MetacharBehind(q);
    var next, l := WalkText(Pieces(rest)), LiteralFrom(rest, Escapes(q, escaped));
    if first == [] || first == "." {
      Associate(v, Taken(q, escaped), l);
      q', escaped', v', n := rest, Escapes(q, escaped), v + Taken(q, escaped), 0;
    } else {
      var sep := if q[i] == '/' then [q[i]] else [];
      assert Taken(q, escaped) == first + sep;
      if |v| + |sep| > 0 {
        var w := UseSurplus(first, next, v, sep, l);
        q', escaped', v', n := rest, Escapes(q, escaped), w, |first| + 1;
      } else {
        assert l == [rest[0]] + LiteralFrom(rest[1..], false);
        SlashBehind(first, next, v, rest[0], LiteralFrom(rest[1..], false));
        SkipSlash(rest);
        q', escaped', v', n := rest[1..], false, [], |first| + 1;
      }
    }
  }

  lemma UseSurplus(g: Str, x: Str, v: Str, sep: Str, l: Str) returns (w: Str)
    requires Compatible(g + "/" + x, v + (g + sep + l)) && |v| + |sep| > 0
    ensures |w| == |v| + |sep| - 1 && Compatible(x, w + l)
  {
    var spelled := v + (g + sep);
    w := spelled[|g| + 1..];
    Associate(v, g + sep, l);
    CompatibleTail(g + "/", x, spelled + l);
    assert (spelled + l)[|g| + 1..] == w + l;
  }

  lemma SlashBehind(g: Str, x: Str, v: Str, c: Byte, l: Str)
    requires v == [] && Compatible(g + "/" + x, v + (g + [] + ([c] + l)))
    ensures c == '/' && Compatible(x, [] + l)
  {
    var spelled := v + (g + [] + ([c] + l));
    assert (g + "/" + x)[|g|] == '/' && spelled[|g|] == c;
    CompatibleTail(g + "/", x, spelled);
    assert spelled[|g| + 1..] == [] + l;
  }

  lemma SkipSlash(q: Str)
    requires q != [] && q[0] == '/' && HasMetachar(q)
    ensures WalkText(Pieces(q)) == WalkText(Pieces(q[1..])) && HasMetachar(q[1..])
  {
    PiecesSplit(q, 0);
    assert q[..0] == [];
    MetacharBehind(q);
  }

  // ---------------------------------------------------------------- exactly when a file is found

  lemma {:induction false} PiecesSlashFree(s: Str)
    ensures SlashFree(Pieces(s))
    decreases |s|
  {
    SeparatorIndexMeaning(s);
    if SeparatorIndex(s) < |s| { PiecesSlashFree(s[SeparatorIndex(s) + 1..]); }
  }

  lemma {:induction false} RootSlashFree(pieces: seq<Str>, before: Path)
    requires SlashFree(pieces) && SlashFree(before) && PrefixFrom(pieces, before).Some?
    ensures SlashFree(PrefixFrom(pieces, before).value)
  {
    if pieces != [] && !HasMetachar(pieces[0]) {
      RootSlashFree(pieces[1..], if pieces[0] == [] || pieces[0] == "." then before else before + [pieces[0]]);
    }
  }

  /** The walk root of a pattern, if it has one, is the beginning of what the pattern spells. */
  predicate RootFits(p: Str) {
    PatternPrefix(p).Some? ==> DirText(PatternPrefix(p).value) <= Literal(p)
  }

  /** For each file that a pattern matches: it lies below the walk root exactly when the root fits the pattern. */
  lemma FoundExactly(p: Str, f: Path)
    requires IsWildcard(p) && Normal(f) && Matches(p, Text(f)) && PatternPrefix(p).Some?
    ensures PatternPrefix(p).value <= f <==> RootFits(p)
  {
    var root, spelled, whole := PatternPrefix(p).value, Literal(p), DirText(f);
    PiecesSlashFree(p);
    RootSlashFree(Pieces(p), []);
    DirTextPrefix(root, f);
    DirTextOfFile(f);
    LiteralStarts(p, Text(f), true);
    WildcardHasMetachar(p);
    WalkTextIsRoot(Pieces(p), []);
    assert spelled <= whole;
    if DirText(root) <= whole {
      assert [] + spelled == spelled && Compatible(DirText(root), spelled);
      RootNotLonger(p, false, []);
    }
  }

  /** Every wildcard include has a walk root that fits, or no escape in front of a metacharacter. */
  ghost predicate RootsFit(patterns: seq<Str>) {
    forall p :: p in patterns && !IsNegated(p) && IsWildcard(p) ==> RootFits(p) || PlainHead(p)
  }

  /** Such pattern lists lose nothing. */
  lemma FittingRootsSuffice(patterns: seq<Str>, tree: Tree)
    requires ValidTree(tree) && RootsFit(patterns)
    ensures Resolved(patterns, Listing(tree, PrefixUnion(patterns))) == Resolved(patterns, tree)
  {
    forall f, p | f in tree && Includes(patterns, p, f) ensures f in Listing(tree, PrefixUnion(patterns)) {
      if PrefixUnion(patterns).Some? {
        if PlainHead(p) {
          MatchedIsListed(patterns, tree, f, p);
        } else {
          PrefixUnionMember(patterns, p);
          FoundExactly(p, f);
        }
      }
    }
    ListedSuffices(patterns, tree);
  }

  lemma UnionOfOne(p: Str)
    requires !IsNegated(p)
    ensures PrefixUnion([p]) == if PatternPrefix(p).None? then None else Some({PatternPrefix(p).value})
  {
    assert [p][..0] == [] && PrefixUnion([]) == Some({});
    if PatternPrefix(p).Some? {
      var none: set<Path> := {};
      assert none + {PatternPrefix(p).value} == {PatternPrefix(p).value};
    }
  }

  /** A single wildcard loses nothing of a tree exactly when its walk root fits or it matches no file there. */
  lemma LimitedWalkExact(p: Str, tree: Tree)
    requires ValidTree(tree) && !IsNegated(p) && IsWildcard(p) && Compiles(p)
    ensures Resolved([p], Listing(tree, PrefixUnion([p]))) == Resolved([p], tree) <==>
            RootFits(p) || forall f :: f in tree ==> !Matches(p, Text(f))
  {
    var listed := Listing(tree, PrefixUnion([p]));
    assert p in [p] && forall q :: q in [p] ==> q == p;
    if RootFits(p) {
      FittingRootsSuffice([p], tree);
    } else {
      UnionOfOne(p);
      forall f | f in tree && Matches(p, Text(f)) ensures f !in listed { FoundExactly(p, f); }
      MissedAll(p, tree, listed);
    }
  }

  lemma MissedAll(p: Str, tree: Tree, listed: set<Path>)
    requires ValidTree(tree) && listed <= tree && !IsNegated(p) && IsWildcard(p) && Compiles(p)
    requires forall f :: f in tree && Matches(p, Text(f)) ==> f !in listed
    ensures Resolved([p], listed) == Some({})
    ensures Resolved([p], tree) == Some({}) <==> forall f :: f in tree ==> !Matches(p, Text(f))
  {
    assert p in [p] && forall q :: q in [p] ==> q == p;
    assert LiteralPaths([p]) == {} && AllCompile([p]);
    forall t ensures !Excluded([p], t) && (Included([p], t) <==> Matches(p, t)) {}
    assert forall f :: f in tree ==> Text(f) in CandidateTexts(tree);
    assert Resolved([p], listed).value == {};
    var found := Resolved([p], tree).value;
    forall f | f in tree && Matches(p, Text(f)) ensures Text(f) in found {}
    forall t | t in found ensures exists f :: f in tree && Matches(p, Text(f)) {
      assert t in CandidateTexts(tree) && Matches(p, t);
    }
    assert found == {} <==> forall f :: f in tree ==> !Matches(p, Text(f)) by {
      if found != {} { var t :| t in found; }
    }
  }

  // ---------------------------------------------------------------- exactly when a pattern list loses nothing

  /** The patterns resolve to the file and not to a literal in its place. */
  ghost predicate Resolves(patterns: seq<Str>, f: Path)
    requires f != []
  {
    TakesFile(patterns, Text(f)) && !Excluded(patterns, Text(f))
  }

  /** Some wildcard that matches the file has a walk root that fits. */
  ghost predicate FitMatch(patterns: seq<Str>, f: Path) {
    exists p :: Includes(patterns, p, f) && RootFits(p)
  }

  /** The walk root of an include that does not match the file happens to hold it. */
  ghost predicate StrayRoot(patterns: seq<Str>, f: Path) {
    exists p :: HasRoot(patterns, p, f) && !Includes(patterns, p, f)
  }

  ghost predicate HasRoot(patterns: seq<Str>, p: Str, f: Path) {
    p in patterns && !IsNegated(p) && PatternPrefix(p).Some? && PatternPrefix(p).value <= f
  }

  /** Some include has no walk root, and the walk is not limited. */
  ghost predicate Unlimited(patterns: seq<Str>) {
    exists p :: p in patterns && !IsNegated(p) && PatternPrefix(p).None?
  }

  lemma {:induction false} UnionMeaning(patterns: seq<Str>)
    ensures PrefixUnion(patterns).None? <==> Unlimited(patterns)
    ensures PrefixUnion(patterns).Some? ==> forall root :: root in PrefixUnion(patterns).value ==>
              exists p :: p in patterns && !IsNegated(p) && PatternPrefix(p) == Some(root)
  {
    if patterns != [] {
      var init, last := patterns[..|patterns| - 1], patterns[|patterns| - 1];
      UnionMeaning(init);
      assert forall p :: p in patterns <==> p in init || p == last;
    }
  }

  ghost predicate Reached(patterns: seq<Str>, f: Path) {
    PrefixUnion(patterns).None? || exists root :: root in PrefixUnion(patterns).value && root <= f
  }

  /** Which files the limited walk reaches. */
  lemma ReachedExactly(patterns: seq<Str>, f: Path)
    requires Normal(f) && exists p :: Includes(patterns, p, f)
    ensures Reached(patterns, f) <==> Unlimited(patterns) || FitMatch(patterns, f) || StrayRoot(patterns, f)
  {
    UnionMeaning(patterns);
    if !Unlimited(patterns) {
      if root :| root in PrefixUnion(patterns).value && root <= f {
        var p :| p in patterns && !IsNegated(p) && PatternPrefix(p) == Some(root);
        assert HasRoot(patterns, p, f);
        if Includes(patterns, p, f) { FoundExactly(p, f); }
      }
      if p :| Includes(patterns, p, f) && RootFits(p) {
        PrefixUnionMember(patterns, p);
        FoundExactly(p, f);
      }
      if p :| HasRoot(patterns, p, f) && !Includes(patterns, p, f) { PrefixUnionMember(patterns, p); }
    }
  }

  lemma SameText(f: Path, g: Path)
    requires Normal(f) && Normal(g) && Text(f) == Text(g)
    ensures f == g
  {
    SegmentsOfText(f);
    SegmentsOfText(g);
  }

  lemma ReachedSuffices(patterns: seq<Str>, tree: Tree)
    requires ValidTree(tree) && AllCompile(patterns)
    ensures Resolved(patterns, Listing(tree, PrefixUnion(patterns))) == Resolved(patterns, tree) <==>
            forall f :: f in tree && Resolves(patterns, f) ==> Reached(patterns, f)
  {
    var listed := Listing(tree, PrefixUnion(patterns));
    var a, b := Resolved(patterns, listed).value, Resolved(patterns, tree).value;
    forall f | f in tree ensures f in listed <==> Reached(patterns, f) {}
    if a == b {
      forall f | f in tree && Resolves(patterns, f) ensures Reached(patterns, f) {
        TakenIsListed(patterns, tree, listed, f);
      }
    }
    if forall f :: f in tree && Resolves(patterns, f) ==> Reached(patterns, f) {
      forall t ensures t in a <==> t in b {
        if t in b && t !in LiteralPaths(patterns) {
          var f :| f in tree && Text(f) == t;
          assert Resolves(patterns, f);
        }
      }
    }
  }

  /**
   * A pattern list loses nothing of a tree exactly when some include has no walk root, or every file
   * that it takes is matched by a wildcard whose walk root fits or lies below the walk root of an
   * include that does not match it.
   */
  lemma ListWalkExact(patterns: seq<Str>, tree: Tree)
    requires ValidTree(tree) && AllCompile(patterns)
    ensures Resolved(patterns, Listing(tree, PrefixUnion(patterns))) == Resolved(patterns, tree) <==>
            Unlimited(patterns) ||
            forall f :: f in tree && Resolves(patterns, f) ==> FitMatch(patterns, f) || StrayRoot(patterns, f)
  {
    ReachedSuffices(patterns, tree);
    UnionMeaning(patterns);
    forall f | f in tree && Resolves(patterns, f)
      ensures Reached(patterns, f) <==> Unlimited(patterns) || FitMatch(patterns, f) || StrayRoot(patterns, f)
    {
      var p :| p in patterns && !IsNegated(p) && IsWildcard(p) && Matches(p, Text(f));
      assert Includes(patterns, p, f);
      ReachedExactly(patterns, f);
    }
  }

  lemma TakenIsListed(patterns: seq<Str>, tree: Tree, listed: set<Path>, f: Path)
    requires ValidTree(tree) && listed <= tree && AllCompile(patterns) && f in tree && Resolves(patterns, f)
    requires Resolved(patterns, listed).value == Resolved(patterns, tree).value
    ensures f in listed
  {
    var t := Text(f);
    assert t in CandidateTexts(tree) && t in Resolved(patterns, tree).value;
    assert forall l :: l in LiteralPaths(patterns) ==> Spelled(LiteralPaths(patterns), l);
    var g :| g in listed && Text(g) == t;
    SameText(f, g);
  }
}
