/** The deterministic task list does not depend on the order in which the tasks come. */
module TaskOrder {
  import opened Basics
  import opened Sorting
  import opened Tasks
  import opened TaskPrefixes
  import opened TaskList

  lemma ReattachInjective(a: Str, b: Str, scope: Option<Str>)
    requires Reattach(a, scope) == Reattach(b, scope)
    ensures a == b
  {
    if scope.Some? {
      var front: Str := scope.value + "/";
      SplitEqual(front, a, front, b);
    }
  }

  lemma SameTexts(g: Group, h: Group, scope: Option<Str>)
    requires g.OverPackages? && h.OverPackages? && Expand(g, scope) == Expand(h, scope)
    ensures Texts(g.prefix, g.members) == Texts(h.prefix, h.members)
  {
    var a, b := Texts(g.prefix, g.members), Texts(h.prefix, h.members);
    assert |Expand(g, scope)| == |a| && |Expand(h, scope)| == |b|;
    forall i | 0 <= i < |a| ensures a[i] == b[i] {
      assert Expand(g, scope)[i].package == Reattach(a[i], scope);
      assert Expand(h, scope)[i].package == Reattach(b[i], scope);
      ReattachInjective(a[i], b[i], scope);
    }
  }

  /** Of the same texts there is one longest boundary prefix. */
  lemma SamePrefix(g: Group, h: Group)
    requires g.OverPackages? && h.OverPackages? && Factored(g) && Factored(h) && |g.members| > 1 && |h.members| > 1
    requires Texts(g.prefix, g.members) == Texts(h.prefix, h.members)
    ensures g.prefix == h.prefix
  {
    var texts := Texts(g.prefix, g.members);
    if g.prefix.Some? {
      var p, q := g.prefix.value, h.prefix.value;
      assert BoundaryPrefix(texts, p) && BoundaryPrefix(texts, q);
      assert p <= texts[0] && q <= texts[0];
      assert p == texts[0][..|p|] && q == texts[0][..|q|];
    }
  }

  lemma SameMembers(a: seq<Str>, b: seq<Str>, prefix: Option<Str>)
    requires Texts(prefix, a) == Texts(prefix, b)
    ensures a == b
  {
    assert |Texts(prefix, a)| == |a| && |Texts(prefix, b)| == |b|;
    forall i | 0 <= i < |a| ensures a[i] == b[i] {
      assert Texts(prefix, a)[i] == PrefixText(prefix) + a[i] && Texts(prefix, b)[i] == PrefixText(prefix) + b[i];
      SplitEqual(PrefixText(prefix), a[i], PrefixText(prefix), b[i]);
    }
  }

  /** A group over packages is determined by the tasks it stands for. */
  lemma NameGroupUnique(g: Group, h: Group, scope: Option<Str>, a: seq<TaskId>, b: seq<TaskId>, name: Str)
    requires IsNameGroup(g, scope, a, name) && IsNameGroup(h, scope, b, name)
    requires forall t :: t in a <==> t in b
    ensures g == h
  {
    assert PackagesWith(a, name) == PackagesWith(b, name);
    SameTexts(g, h, scope);
    assert |Texts(g.prefix, g.members)| == |g.members| && |Texts(h.prefix, h.members)| == |h.members|;
    if |g.members| > 1 { SamePrefix(g, h); }
    SameMembers(g.members, h.members, g.prefix);
  }

  lemma {:induction false} SharedAlike(a: seq<TaskId>, b: seq<TaskId>, names: seq<Str>)
    requires forall t :: t in a <==> t in b
    ensures SharedOf(a, names) == SharedOf(b, names)
  {
    if names != [] {
      SharedAlike(a, b, names[..|names| - 1]);
      assert SharedName(a, names[|names| - 1]) <==> SharedName(b, names[|names| - 1]);
    }
  }

  lemma SameSets(a: seq<TaskId>, b: seq<TaskId>)
    requires forall t :: t in a <==> t in b
    ensures NameSet(a) == NameSet(b) && Leftovers(a) == Leftovers(b) && SharedScope(a) == SharedScope(b)
  {
    assert PackagesOf(a) == PackagesOf(b);
    forall n ensures SharedName(a, n) <==> SharedName(b, n) {}
    forall t ensures t in Leftovers(a) <==> t in Leftovers(b) {}
  }

  /** The same tasks in any order give the same groups in the same order, only their positions differ. */
  lemma AnyOrder(a: seq<TaskId>, b: seq<TaskId>, f: seq<Placed>, g: seq<Placed>)
    requires multiset(a) == multiset(b)
    requires DeterministicList(f, a, SharedScope(a)) && DeterministicList(g, b, SharedScope(b))
    ensures |f| == |g| && forall i :: 0 <= i < |f| ==> f[i].group == g[i].group
  {
    SamePermutation(a, b);
    SameSets(a, b);
    var scope, names := SharedScope(a), Ascending(NameSet(a));
    SharedAlike(a, b, names);
    var shared, packages := SharedOf(a, names), Ascending(PackageSetOf(Leftovers(a)));
    var n := |shared|;
    assert |f| == n + |packages| && |g| == n + |packages|;
    forall i | 0 <= i < |f| ensures f[i].group == g[i].group {
      if i < n {
        assert f[..n][i] == f[i] && g[..n][i] == g[i];
        NameGroupUnique(f[i].group, g[i].group, scope, a, b, shared[i]);
      } else {
        assert f[n..][i - n] == f[i] && g[n..][i - n] == g[i];
        assert IsPackageGroup(f[i].group, scope, Leftovers(a), packages[i - n]);
      }
    }
  }
}
