/** Which patterns are refused, and what one refused pattern does to a resolution. */
module GlobErrors {
  import opened Basics
  import opened Tasks
  import opened Glob
  import opened GlobTable
  import opened GlobFiles
  import opened HashReuse
  import opened FilesDiff
  import opened FileEntries
  import opened ResolveOutputs
  import opened ResolveInputs

  lemma OpenBraces(y: Str, depth: nat)
    requires Ordinary(y)
    ensures !WellFormed("{" + y, depth)
  {
    assert ("{" + y)[1..] == y && y == y + [];
    OrdinaryCompiles(y, [], depth + 1);
  }

  lemma OpenBracket(y: Str, depth: nat)
    requires ']' !in y
    ensures !WellFormed("[" + y, depth)
  {
    var p: Str := "[" + y;
    assert forall i :: 1 <= i < |p| ==> p[i] == y[i - 1] && p[i] != ']';
    forall from | 1 <= from <= |p| ensures IndexOf(p[from..], ']') == |p| - from {
      assert ']' !in p[from..];
    }
  }

  /** Behind ordinary text: a dangling escape, a closing brace on its own, an open brace, an open bracket. */
  lemma Refused(x: Str, y: Str, p: Str)
    requires Ordinary(x)
    ensures !Compiles(x + "\\") && !Compiles(x + ("}" + p))
    ensures Ordinary(y) ==> !Compiles(x + ("{" + y))
    ensures ']' !in y ==> !Compiles(x + ("[" + y))
  {
    OrdinaryCompiles(x, "\\", 0);
    OrdinaryCompiles(x, "}" + p, 0);
    OrdinaryCompiles(x, "{" + y, 0);
    OrdinaryCompiles(x, "[" + y, 0);
    if Ordinary(y) { OpenBraces(y, 0); }
    if ']' !in y { OpenBracket(y, 0); }
  }

  /** Whatever is escaped compiles. */
  lemma {:induction false} EscapedCompiles(t: Str)
    ensures Compiles(Escaped(t))
  {
    if t != [] {
      assert Escaped(t)[2..] == Escaped(t[1..]);
      EscapedCompiles(t[1..]);
    }
  }

  /** Outputs are refused one pattern at a time: exclusions and wildcards that do not compile, never literals. */
  lemma RefusedPatterns(a: seq<Str>, b: seq<Str>, p: Str, tree: Tree)
    requires ValidTree(tree)
    ensures Resolved(a + b, tree).None? <==> Resolved(a, tree).None? || Resolved(b, tree).None?
    ensures "!" <= p ==> (Resolved([p], tree).None? <==> !Compiles(p[1..]))
    ensures !("!" <= p) && ('*' in p || '?' in p || '[' in p || '{' in p) ==>
              (Resolved([p], tree).None? <==> !Compiles(p))
    ensures !("!" <= p) && '*' !in p && '?' !in p && '[' !in p && '{' !in p ==>
              Resolved([p], tree) == Some({UnescapeLiteral(p)})
  {
    assert forall q :: q in a + b <==> q in a || q in b;
    assert forall q :: q in [p] <==> q == p;
    if !IsNegated(p) && !IsWildcard(p) { OneLiteral(p, tree); }
  }

  lemma OneLiteral(p: Str, tree: Tree)
    requires ValidTree(tree) && !IsNegated(p) && !IsWildcard(p)
    ensures Resolved([p], tree) == Some({UnescapeLiteral(p)})
  {
    assert [p][..0] == [] && LiteralPaths([]) == {} && LiteralPaths([p]) == {UnescapeLiteral(p)};
    assert forall q :: q in [p] <==> q == p;
    forall t ensures !Excluded([p], t) && !Included([p], t) {}
    assert Resolved([p], tree).value == {UnescapeLiteral(p)};
  }

  /** Inputs likewise, by the fields of the requests. */
  lemma RefusedRequests(h: Str -> Digest, w: Worktree, a: seq<Request>, b: seq<Request>, r: Request, prior: ByPath)
    requires ValidWorktree(w)
    ensures Resolution(h, w, a + b, prior).None? <==>
            Resolution(h, w, a, prior).None? || Resolution(h, w, b, prior).None?
    ensures Resolution(h, w, [r], prior).None? <==> (r.negated || r.wildcard) && !Compiles(r.pattern)
  {
    assert forall q :: q in a + b <==> q in a || q in b;
    assert forall q :: q in [r] <==> q == r;
  }

  /** A negated request takes away what its pattern matches below the base of the include, and nothing else. */
  lemma SelectedWithout(w: Worktree, requests: seq<Request>, no: Request, path: Path)
    requires ValidWorktree(w) && no.negated
    ensures IsSelected(w, requests + [no], path) <==>
            exists r :: SelectedBy(w, requests, path, r) && !Matches(no.pattern, Text(path[|r.base|..]))
  {
    var all := requests + [no];
    assert forall q :: q in all <==> q in requests || q == no;
    forall text ensures ExcludedAt(all, text) <==> ExcludedAt(requests, text) || Matches(no.pattern, text) {
      assert no in all;
    }
    forall r ensures SelectedBy(w, all, path, r) <==>
                     SelectedBy(w, requests, path, r) && !Matches(no.pattern, Text(path[|r.base|..]))
    {
    }
  }
}
