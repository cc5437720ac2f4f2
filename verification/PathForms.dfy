/** Which spellings name one path, and in which order paths stand in an ordered set. */
module PathForms {
  import opened Basics
  import opened Sorting
  import opened Tasks
  import opened ResolveOutputs

  lemma CutAtSlash(n: Str, tail: Str)
    requires '/' !in n && tail != [] && tail[0] == '/'
    ensures Segments(n + tail) == [n] + Segments(tail[1..])
  {
    IndexOfConcat(n, tail, '/');
    assert (n + tail)[..|n|] == n && (n + tail)[|n| + 1..] == tail[1..];
  }

  lemma JoinStep(n: Str, back: Str, tail: Str)
    requires '/' !in n && back != [] && back[0] == '/' && tail != [] && tail[0] == '/'
    requires Segments(back[1..] + tail) == Segments(back[1..]) + Segments(tail[1..])
    ensures Segments((n + back) + tail) == Segments(n + back) + Segments(tail[1..])
  {
    CutBehind(n, back, tail);
    CutAtSlash(n, back);
    Associate([n], Segments(back[1..]), Segments(tail[1..]));
  }

  lemma CutBehind(n: Str, back: Str, tail: Str)
    requires '/' !in n && back != [] && back[0] == '/'
    ensures Segments((n + back) + tail) == [n] + Segments(back[1..] + tail)
  {
    Associate(n, back, tail);
    CutAtSlash(n, back + tail);
    assert (back + tail)[1..] == back[1..] + tail;
  }

  lemma {:induction false} SegmentsJoin(u: Str, tail: Str)
    requires tail != [] && tail[0] == '/'
    ensures Segments(u + tail) == Segments(u) + Segments(tail[1..])
    decreases |u|
  {
    var i := IndexOf(u, '/');
    if i == |u| {
      CutAtSlash(u, tail);
    } else {
      assert u == u[..i] + u[i..];
      SegmentsJoin(u[i..][1..], tail);
      JoinStep(u[..i], u[i..], tail);
    }
  }

  lemma {:induction false} InnerJoin(a: seq<Str>, b: seq<Str>)
    ensures Inner(a + b) == Inner(a) + Inner(b)
  {
    if a == [] {
      assert a + b == b;
    } else {
      assert (a + b)[0] == a[0] && (a + b)[1..] == a[1..] + b;
      InnerJoin(a[1..], b);
    }
  }

  /** The components from the segments; an absolute text differs in its first component alone. */
  function FromSegments(absolute: bool, segments: seq<Str>): seq<Component>
    requires segments != []
  {
    if absolute then [RootDir] + Inner(segments)
    else if segments[0] == "." then [CurDir] + Inner(segments[1..])
    else Inner(segments)
  }

  lemma FromJoin(absolute: bool, a: seq<Str>, b: seq<Str>)
    requires a != []
    ensures FromSegments(absolute, a + b) == FromSegments(absolute, a) + Inner(b)
  {
    assert (a + b)[0] == a[0] && (a + b)[1..] == a[1..] + b;
    InnerJoin(a, b);
    InnerJoin(a[1..], b);
  }

  lemma ComponentsTail(u: Str, tail: Str)
    requires u != [] && tail != [] && tail[0] == '/'
    ensures Components(u + tail) == Components(u) + Inner(Segments(tail[1..]))
  {
    var p, absolute := u + tail, u[0] == '/';
    assert p[0] == u[0];
    SegmentsJoin(u, tail);
    FromJoin(absolute, Segments(u), Segments(tail[1..]));
    assert Components(u) == FromSegments(absolute, Segments(u));
    assert Components(p) == FromSegments(absolute, Segments(p));
  }

  /** What stands behind a slash is added component by component. */
  lemma ComponentsJoin(u: Str, v: Str)
    requires u != []
    ensures Components(u + "/" + v) == Components(u) + Inner(Segments(v))
  {
    Associate(u, "/", v);
    ComponentsTail(u, "/" + v);
    assert ("/" + v)[1..] == v;
  }

  lemma OneSegment(n: Str)
    requires '/' !in n
    ensures Segments(n) == [n]
  {
    assert IndexOf(n, '/') == |n|;
  }

  /** One more segment: names and `..` count, nothing and `.` do not. */
  lemma OneSegmentMore(u: Str, n: Str)
    requires u != [] && '/' !in n
    ensures Components(u + "/" + n) ==
            Components(u) + if n == [] || n == "." then [] else if n == ".." then [ParentDir] else [Named(n)]
  {
    ComponentsJoin(u, n);
    OneSegment(n);
    assert Inner([n][1..]) == [];
  }

  /** Between two slashes, and behind the last one, nothing and a `.` make no other path. */
  lemma SameSpellings(u: Str, d: Str, v: Str)
    requires u != [] && (d == [] || d == ".")
    ensures Components(u + "/" + d + "/" + v) == Components(u + "/" + v)
    ensures Components(u + "/" + d) == Components(u)
  {
    OneSegmentMore(u, d);
    ComponentsJoin(u, v);
    ComponentsJoin(u + "/" + d, v);
  }

  /** The text is the segment, or goes on behind it. */
  ghost predicate Leads(n: Str, text: Str) {
    text == n || exists v: Str :: text == n + ("/" + v)
  }

  lemma SegmentsLead(n: Str, text: Str)
    requires '/' !in n && n != [] && Leads(n, text)
    ensures Segments(text)[0] == n && text[0] == n[0] != '/'
  {
    OneSegment(n);
    assert n[0] in n;
    if text != n {
      var v: Str :| text == n + ("/" + v);
      CutAtSlash(n, "/" + v);
    }
  }

  lemma FirstSegment(n: Str, text: Str)
    requires '/' !in n && n != [] && Leads(n, text)
    ensures Segments(text)[0] == n && !("/" <= text)
    ensures n != "." ==> Components(text) != [] && Components(text)[0] == if n == ".." then ParentDir else Named(n)
  {
    SegmentsLead(n, text);
  }

  /** Absolute paths come first, then those that start with `.`, with `..`, and with a name. */
  lemma KindsInOrder(a: Str, b: Str, c: Str, d: Str, n: Str)
    requires "/" <= a && Leads(".", b) && Leads("..", c) && NormalSegment(n) && Leads(n, d)
    ensures PathTextBelow(a, b) && PathTextBelow(b, c) && PathTextBelow(c, d)
  {
    FirstSegment(".", b);
    FirstSegment("..", c);
    FirstSegment(n, d);
    assert Components(a)[0] == RootDir && Components(b)[0] == CurDir;
  }

  lemma {:induction false} CommonFront(x: seq<Component>, a: seq<Component>, b: seq<Component>)
    ensures ComponentsBelow(x + a, x + b) <==> ComponentsBelow(a, b)
  {
    if x == [] {
      assert x + a == a && x + b == b;
    } else {
      assert (x + a)[0] == x[0] == (x + b)[0] && (x + a)[1..] == x[1..] + a && (x + b)[1..] == x[1..] + b;
      CommonFront(x[1..], a, b);
      NotBelowItself(x[0]);
    }
  }

  lemma NotBelowItself(c: Component)
    ensures !ComponentBelow(c, c)
  {
    if c.Named? { LessTotal(c.name, c.name); }
  }

  /** Below one directory, entries stand in the order of their names, whatever is below them. */
  lemma NamesInOrder(u: Str, m: Str, n: Str, a: Str, b: Str)
    requires u != [] && NormalSegment(m) && NormalSegment(n) && m != n && Leads(m, a) && Leads(n, b)
    ensures PathTextBelow(u + "/" + a, u + "/" + b) <==> Less(m, n)
  {
    ComponentsJoin(u, a);
    ComponentsJoin(u, b);
    FirstSegment(m, a);
    FirstSegment(n, b);
    CommonFront(Components(u), Inner(Segments(a)), Inner(Segments(b)));
  }

  /** A directory stands in front of what is below it. */
  lemma DirectoryFirst(u: Str, n: Str, a: Str)
    requires u != [] && NormalSegment(n) && Leads(n, a)
    ensures PathTextBelow(u, u + "/" + a) && !PathTextBelow(u + "/" + a, u)
  {
    ComponentsJoin(u, a);
    FirstSegment(n, a);
    var x := Components(u);
    assert x + [] == x;
    CommonFront(x, [], Inner(Segments(a)));
    CommonFront(x, Inner(Segments(a)), []);
  }
}
