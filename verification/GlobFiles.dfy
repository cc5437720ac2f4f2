/** What the forms of path globs take of a tree of files, as outputs and as inputs. */
module GlobFiles {
  import opened Basics
  import opened Tasks
  import opened Glob
  import opened GlobTable
  import opened ResolveOutputs
  import opened ResolveInputs

  // ---------------------------------------------------------------- outputs by one pattern

  /** The listed files that a test takes, as texts. */
  ghost function FilesWhere(tree: Tree, take: Path -> bool): set<Str>
    requires ValidTree(tree)
  {
    set f | f in tree && take(f) :: Text(f)
  }

  /** What a single wildcard resolves to. */
  lemma ResolvedAlone(p: Str, tree: Tree, take: Path -> bool)
    requires ValidTree(tree) && !IsNegated(p) && IsWildcard(p) && Compiles(p)
    requires forall f :: f in tree ==> (Matches(p, Text(f)) <==> take(f))
    ensures Resolved([p], tree) == Some(FilesWhere(tree, take))
  {
    assert p in [p] && forall q :: q in [p] ==> q == p;
    assert [p][..0] == [] && LiteralPaths([p]) == {};
    var found := Resolved([p], tree).value;
    forall t ensures !Excluded([p], t) && (Included([p], t) <==> Matches(p, t)) {}
    forall t ensures t in found <==> t in FilesWhere(tree, take) {
      if t in found {
        var f :| f in tree && Text(f) == t;
        assert take(f);
      }
      if t in FilesWhere(tree, take) {
        var f :| f in tree && take(f) && Text(f) == t;
        assert t in CandidateTexts(tree);
      }
    }
    assert found == FilesWhere(tree, take);
  }

  lemma {:induction false} OrdinaryCompiles(x: Str, p: Str, depth: nat)
    requires Ordinary(x)
    ensures WellFormed(x + p, depth) <==> WellFormed(p, depth)
  {
    if x == [] {
      assert x + p == p;
    } else {
      assert (x + p)[0] == x[0] && (x + p)[1..] == x[1..] + p;
      OrdinaryCompiles(x[1..], p, depth);
    }
  }

  lemma OneByteMore(c: Byte, p: Str, depth: nat)
    requires c == '*' || c == '?' || c == '/' || c == ','
    ensures WellFormed([c] + p, depth) <==> WellFormed(p, depth)
  {
    assert ([c] + p)[0] == c && ([c] + p)[1..] == p;
  }

  lemma StarsCompile(p: Str)
    ensures Compiles("**/" + p) <==> Compiles(p)
  {
    var one, two := "/" + p, "*" + ("/" + p);
    assert "**/" + p == "*" + two;
    OneByteMore('/', p, 0);
    OneByteMore('*', one, 0);
    OneByteMore('*', two, 0);
  }

  /** A pattern list with an exclusion or a wildcard that does not compile resolves to nothing. */
  lemma OneRefused(patterns: seq<Str>, p: Str, tree: Tree)
    requires ValidTree(tree) && p in patterns && (IsNegated(p) || IsWildcard(p)) && !Compiles(Body(p))
    ensures Resolved(patterns, tree) == None
  {
  }

  /** `**` and a pattern behind it: files that the pattern takes below some directory of theirs. */
  lemma ResolvedAnyDepth(p: Str, tree: Tree)
    requires ValidTree(tree)
    ensures Resolved(["**/" + p], tree) ==
            if !Compiles(p) then None
            else Some(FilesWhere(tree, f => exists k :: 0 <= k < |f| && Matches(p, Text(f[k..]))))
  {
    var q: Str := "**/" + p;
    assert q[0] == '*' && '*' in q;
    StarsCompile(p);
    if !Compiles(p) {
      OneRefused([q], q, tree);
      return;
    }
    forall f | f in tree
      ensures Matches(q, Text(f)) <==> exists k :: 0 <= k < |f| && Matches(p, Text(f[k..]))
    {
      AnyDepth(p, f);
    }
    ResolvedAlone(q, tree, f => exists k :: 0 <= k < |f| && Matches(p, Text(f[k..])));
  }

  lemma EverythingResolved(tree: Tree)
    requires ValidTree(tree)
    ensures Resolved(["**"], tree) == Some(FilesWhere(tree, f => true))
  {
    var q: Str := "**";
    assert q[0] == '*' && '*' in q && q[1..] == "*" && q[1..][1..] == [];
    ResolvedAlone(q, tree, f => true);
  }

  lemma {:induction false} DirectoryCompiles(dir: Path, p: Str)
    requires PlainDirectory(dir)
    ensures Compiles(Text(dir) + "/" + p) <==> Compiles(p)
  {
    if |dir| == 1 {
      Associate(dir[0], "/", p);
      OrdinaryCompiles(dir[0], "/" + p, 0);
      OneByteMore('/', p, 0);
    } else {
      var rest: Str := Text(dir[1..]) + "/" + p;
      DirectoryCompiles(dir[1..], p);
      assert Text(dir) + "/" + p == dir[0] + ("/" + rest);
      OrdinaryCompiles(dir[0], "/" + rest, 0);
      OneByteMore('/', rest, 0);
    }
  }

  /** A directory and `**` behind it: all files below the directory. */
  lemma ResolvedBelow(dir: Path, tree: Tree)
    requires ValidTree(tree) && PlainDirectory(dir) && !IsNegated(Text(dir))
    ensures Resolved([Text(dir) + "/" + "**"], tree) == Some(FilesWhere(tree, f => dir < f))
  {
    var q: Str := Text(dir) + "/" + "**";
    DirectoryCompiles(dir, "**");
    assert Compiles("**") by { assert ("**")[1..] == "*" && ("*")[1..] == []; }
    assert q[|q| - 1] == '*' && '*' in q && q[0] == Text(dir)[0];
    forall f | f in tree ensures Matches(q, Text(f)) <==> dir < f { Below(dir, f); }
    ResolvedAlone(q, tree, f => dir < f);
  }

  lemma InNameCompiles(x: Str, form: Str, y: Str)
    requires Ordinary(x) && Ordinary(y) && (WellFormed(form + y, 0) <==> WellFormed(y, 0))
    ensures Compiles(x + (form + y))
  {
    OrdinaryCompiles(x, form + y, 0);
    assert y + [] == y;
    OrdinaryCompiles(y, [], 0);
  }

  lemma HoldsFirst(x: Str, form: Str, y: Str)
    requires form != [] && form[0] != '!' && !IsNegated(x)
    ensures !IsNegated(x + (form + y)) && form[0] in x + (form + y)
  {
    var p := x + (form + y);
    assert p[|x|] == form[0];
    assert x != [] ==> p[0] == x[0];
  }

  /** `*` in a name: files of the base directory with such a name. */
  lemma ResolvedStar(x: Str, y: Str, tree: Tree)
    requires ValidTree(tree) && Ordinary(x) && Ordinary(y) && !IsNegated(x)
    ensures Resolved([x + ("*" + y)], tree) == Some(FilesWhere(tree, f => |f| == 1 && Framed(x, y, f[0])))
  {
    OneByteMore('*', y, 0);
    InNameCompiles(x, "*", y);
    HoldsFirst(x, "*", y);
    forall f | f in tree ensures Matches(x + ("*" + y), Text(f)) <==> |f| == 1 && Framed(x, y, f[0]) {
      StarInName(x, y, f);
    }
    ResolvedAlone(x + ("*" + y), tree, f => |f| == 1 && Framed(x, y, f[0]));
  }

  /** `?` in a name: files of the base directory with one character in its place. */
  lemma ResolvedQuestion(x: Str, y: Str, tree: Tree)
    requires ValidTree(tree) && Ordinary(x) && Ordinary(y) && !IsNegated(x)
    ensures Resolved([x + ("?" + y)], tree) ==
            Some(FilesWhere(tree, f => exists c :: c != '/' && f == [x + ([c] + y)]))
  {
    OneByteMore('?', y, 0);
    InNameCompiles(x, "?", y);
    HoldsFirst(x, "?", y);
    forall f | f in tree
      ensures Matches(x + ("?" + y), Text(f)) <==> exists c :: c != '/' && f == [x + ([c] + y)]
    {
      QuestionInName(x, y, f);
    }
    ResolvedAlone(x + ("?" + y), tree, f => exists c :: c != '/' && f == [x + ([c] + y)]);
  }

  predicate AllOrdered(items: seq<Item>) {
    forall i :: 0 <= i < |items| ==> items[i].Span? ==> items[i].low <= items[i].high
  }

  lemma {:induction false} SetOrdered(items: seq<Item>)
    requires AllPlain(items)
    ensures RangesOrdered(Spell(items)) <==> AllOrdered(items)
  {
    if items != [] {
      assert AllOrdered(items) <==> AllOrdered(items[..1]) && AllOrdered(items[1..]);
      var s, rest := Spell(items), Spell(items[1..]);
      SetOrdered(items[1..]);
      SpellStarts(items[1..]);
      if items[0].One? {
        assert s[1..] == rest && (|s| >= 3 ==> s[1] != '-');
      } else {
        assert s[0] == items[0].low && s[1] == '-' && s[2] == items[0].high && s[3..] == rest;
      }
    }
  }

  /** A set compiles exactly when none of its ranges runs backwards. */
  lemma ClassCompiles(negated: bool, items: seq<Item>, y: Str, depth: nat)
    requires AllPlain(items) && items != []
    ensures WellFormed(Class(negated, items) + y, depth) <==> AllOrdered(items) && WellFormed(y, depth)
  {
    ClassEnds(negated, items, y);
    SetOrdered(items);
    SpellStarts(items);
    var inside := Mark(negated) + Spell(items);
    assert Unmarked(inside) == Spell(items) by {
      if negated { assert inside[0] == '!' && inside[1..] == Spell(items); } else { assert inside == Spell(items); }
    }
  }

  /** The path is x, one character that is in the set or is not, and y. */
  ghost predicate OneInPlace(negated: bool, items: seq<Item>, x: Str, y: Str, f: Path) {
    f != [] && exists c :: (InSet(items, c) <==> !negated) && Text(f) == x + ([c] + y)
  }

  /** A set in brackets: files whose path has in its place one character that is in the set, or is not. */
  lemma ResolvedClass(negated: bool, items: seq<Item>, x: Str, y: Str, tree: Tree)
    requires ValidTree(tree) && Ordinary(x) && Ordinary(y) && !IsNegated(x) && AllPlain(items) && items != []
    ensures Resolved([x + (Class(negated, items) + y)], tree) ==
            if AllOrdered(items) then Some(FilesWhere(tree, f => OneInPlace(negated, items, x, y, f))) else None
  {
    var form := Class(negated, items);
    ClassCompiles(negated, items, y, 0);
    assert form[0] == '[';
    HoldsFirst(x, form, y);
    if !AllOrdered(items) {
      OrdinaryCompiles(x, form + y, 0);
      OneRefused([x + (form + y)], x + (form + y), tree);
      return;
    }
    InNameCompiles(x, form, y);
    forall f | f in tree ensures Matches(x + (form + y), Text(f)) <==> OneInPlace(negated, items, x, y, f) {
      ClassInText(negated, items, x, y, Text(f));
    }
    ResolvedAlone(x + (form + y), tree, f => OneInPlace(negated, items, x, y, f));
  }

  /** What is read of a branch at once, and what that asks for; the same in front of anything. */
  lemma BranchStep(a: Str, r: Str, depth: nat, more: nat)
    requires Branch(a, depth) && a != []
    ensures PieceOf(a) <= |a|
    ensures
      var n, inner := PieceOf(a), DepthBehind(a, depth);
      var ordered := a[0] == '[' ==> RangesOrdered(Unmarked(a[1..ClassEnd(a)]));
      Branch(a[n..], inner) && (WellFormed(a, depth) <==> ordered && WellFormed(a[n..], inner)) &&
      (WellFormed(a + r, depth + more) <==> ordered && WellFormed(a[n..] + r, inner + more))
  {
    var p := a + r;
    TakeFront(a, r, PieceOf(a));
    assert p[0] == a[0];
    if a[0] == '[' {
      ClosedClass(a, r);
      assert p[1..ClassEnd(p)] == a[1..ClassEnd(a)];
    }
  }

  /** A closed branch is compiled by itself. */
  lemma {:induction false} BranchCompiles(a: Str, r: Str, depth: nat, more: nat)
    requires Branch(a, depth)
    ensures WellFormed(a + r, depth + more) <==> WellFormed(a, depth) && WellFormed(r, more)
    decreases |a|
  {
    if a == [] {
      assert a + r == r;
    } else {
      BranchStep(a, r, depth, more);
      BranchCompiles(a[PieceOf(a)..], r, DepthBehind(a, depth), more);
    }
  }

  ghost predicate BranchesCompile(list: seq<Str>) {
    forall a :: a in list ==> Compiles(a)
  }

  lemma {:induction false} CommasCompile(list: seq<Str>, r: Str)
    requires Branches(list)
    ensures WellFormed(Commas(list) + r, 1) <==> BranchesCompile(list) && WellFormed(r, 1)
  {
    assert forall a :: a in list <==> a == list[0] || a in list[1..];
    if |list| == 1 {
      BranchCompiles(list[0], r, 0, 1);
      assert BranchesCompile(list) <==> Compiles(list[0]);
      assert Commas(list) == list[0];
    } else {
      CommasCompile(list[1..], r);
      OneBranchMore(list, r);
    }
  }

  lemma OneBranchMore(list: seq<Str>, r: Str)
    requires |list| > 1 && Branch(list[0], 0)
    ensures WellFormed(Commas(list) + r, 1) <==> Compiles(list[0]) && WellFormed(Commas(list[1..]) + r, 1)
  {
    var rest := Commas(list[1..]) + r;
    CommaFirst(list, r);
    BranchCompiles(list[0], "," + rest, 0, 1);
    OneByteMore(',', rest, 1);
  }

  /** Braces compile exactly when every branch does. */
  lemma BracesCompile(list: seq<Str>, y: Str)
    requires Branches(list)
    ensures WellFormed(Braces(list) + y, 0) <==> BranchesCompile(list) && WellFormed(y, 0)
  {
    var p, close: Str := Braces(list) + y, "}" + y;
    Associate("{", Commas(list) + "}", y);
    Associate(Commas(list), "}", y);
    assert p[0] == '{' && p[1..] == Commas(list) + close;
    CommasCompile(list, close);
    assert close[0] == '}' && close[1..] == y;
  }

  /** Some branch, written in place of the braces, gives a glob that takes the file. */
  ghost predicate SomeBranch(x: Str, list: seq<Str>, y: Str, f: Path) {
    f != [] && exists a :: a in list && Matches(x + (a + y), Text(f))
  }

  /** Braces: what the globs take that have one of the branches in their place. */
  lemma ResolvedBraces(x: Str, list: seq<Str>, y: Str, tree: Tree)
    requires ValidTree(tree) && Ordinary(x) && !IsNegated(x) && Branches(list)
    ensures Resolved([x + (Braces(list) + y)], tree) ==
            if !BranchesCompile(list) || !Compiles(y) then None
            else Some(FilesWhere(tree, f => SomeBranch(x, list, y, f)))
  {
    var form := Braces(list);
    BracesCompile(list, y);
    OrdinaryCompiles(x, form + y, 0);
    assert form[0] == '{';
    HoldsFirst(x, form, y);
    if !(BranchesCompile(list) && Compiles(y)) {
      OneRefused([x + (form + y)], x + (form + y), tree);
      return;
    }
    forall f | f in tree ensures Matches(x + (form + y), Text(f)) <==> SomeBranch(x, list, y, f) {
      BracesInText(x, list, y, Text(f));
    }
    ResolvedAlone(x + (form + y), tree, f => SomeBranch(x, list, y, f));
  }

  /** An exclusion takes away what its body matches, literals included, and nothing else. */
  lemma ResolvedWithout(patterns: seq<Str>, q: Str, tree: Tree)
    requires ValidTree(tree)
    ensures
      var before, after := Resolved(patterns, tree), Resolved(patterns + ["!" + q], tree);
      if before.None? || !Compiles(q) then after.None?
      else after.Some? && forall t :: t in after.value <==> t in before.value && !Matches(q, t)
  {
    var no: Str, all := "!" + q, patterns + ["!" + q];
    assert IsNegated(no) && Body(no) == q;
    assert all[..|all| - 1] == patterns && all[|all| - 1] == no;
    assert forall p :: p in all <==> p in patterns || p == no;
    assert LiteralPaths(all) == LiteralPaths(patterns);
    assert AllCompile(all) <==> AllCompile(patterns) && Compiles(q);
    forall t ensures (Included(all, t) <==> Included(patterns, t)) &&
                     (Excluded(all, t) <==> Excluded(patterns, t) || Matches(q, t))
    {
      assert no in all;
    }
  }

  // ---------------------------------------------------------------- inputs by one pattern

  /** What a single wildcard request selects. */
  lemma SelectedAlone(w: Worktree, r: Request, path: Path)
    requires ValidWorktree(w) && r.wildcard && !r.negated
    ensures IsSelected(w, [r], path) <==>
            r.base < path && path[|r.base|..] in w.tracked(r.base) && Matches(r.pattern, Text(path[|r.base|..]))
  {
    assert forall q :: q in [r] <==> q == r;
    assert SelectedBy(w, [r], path, r) <==> IsSelected(w, [r], path);
  }

  /** `**` and a pattern behind it: tracked files that the pattern takes below some directory of theirs. */
  lemma InputsAtAnyDepth(w: Worktree, base: Path, p: Str, path: Path)
    requires ValidWorktree(w)
    ensures IsSelected(w, [Request(base, "**/" + p, false, true)], path) <==>
            base < path && path[|base|..] in w.tracked(base) &&
            exists k :: |base| <= k < |path| && Matches(p, Text(path[k..]))
  {
    SelectedAlone(w, Request(base, "**/" + p, false, true), path);
    if base < path && path[|base|..] in w.tracked(base) {
      var below := path[|base|..];
      var i :| 0 <= i < |w.tracked(base)| && w.tracked(base)[i] == below;
      assert Normal(below);
      AnyDepth(p, below);
      SomeTail(path, |base|, p);
    }
  }

  /** A directory and `**` behind it: all tracked files below the directory. */
  lemma InputsBelow(w: Worktree, base: Path, dir: Path, path: Path)
    requires ValidWorktree(w) && PlainDirectory(dir)
    ensures IsSelected(w, [Request(base, Text(dir) + "/" + "**", false, true)], path) <==>
            base < path && path[|base|..] in w.tracked(base) && dir < path[|base|..]
  {
    SelectedAlone(w, Request(base, Text(dir) + "/" + "**", false, true), path);
    if base < path && path[|base|..] in w.tracked(base) {
      var below := path[|base|..];
      var i :| 0 <= i < |w.tracked(base)| && w.tracked(base)[i] == below;
      Below(dir, below);
    }
  }
}
