/** What each form of path glob matches, over the segments of a path. */
module GlobTable {
  import opened Basics
  import opened Tasks
  import opened Glob
  import opened ResolveOutputs

  // ---------------------------------------------------------------- texts by their segments

  /** What stands behind a slash of a path is the path from some segment on. */
  lemma {:induction false} BehindSlash(path: Path, i: nat) returns (k: nat)
    requires Normal(path) && i < |Text(path)| && Text(path)[i] == '/'
    ensures 1 <= k < |path| && Text(path)[i + 1..] == Text(path[k..])
  {
    var n := |path[0]|;
    if |path| > 1 {
      var rest: Str := "/" + Text(path[1..]);
      assert Text(path) == path[0] + rest;
      if i == n {
        k := 1;
      } else {
        assert i > n && Text(path)[i] == rest[i - n] == Text(path[1..])[i - n - 1];
        var m := BehindSlash(path[1..], i - n - 1);
        k := m + 1;
        assert path[1..][m..] == path[k..];
        assert Text(path)[i + 1..] == Text(path[1..])[i - n..];
      }
    }
  }

  /** And from every segment but the first the path stands behind a slash. */
  lemma {:induction false} SlashBefore(path: Path, k: nat) returns (i: nat)
    requires Normal(path) && 1 <= k < |path|
    ensures i < |Text(path)| && Text(path)[i] == '/' && Text(path)[i + 1..] == Text(path[k..])
  {
    var n := |path[0]|;
    var rest: Str := "/" + Text(path[1..]);
    assert Text(path) == path[0] + rest;
    if k == 1 {
      i := n;
    } else {
      var j := SlashBefore(path[1..], k - 1);
      i := n + 1 + j;
      assert path[1..][k - 1..] == path[k..];
      assert Text(path)[i] == rest[j + 1] == Text(path[1..])[j];
      assert Text(path)[i + 1..] == Text(path[1..])[j + 1..];
    }
  }

  lemma {:induction false} SlashFree(path: Path)
    requires Normal(path)
    ensures '/' !in Text(path) <==> |path| == 1
  {
    if |path| > 1 {
      var i := SlashBefore(path, 1);
    }
  }

  lemma OneSegment(path: Path, s: Str)
    requires Normal(path) && '/' !in s
    ensures Text(path) == s <==> path == [s]
  {
    SlashFree(path);
  }

  /** A path starts with a slash-free directory exactly when that is its first segment and not its only one. */
  lemma StartsInDirectory(d: Str, path: Path)
    requires Normal(path) && '/' !in d
    ensures d + "/" <= Text(path) <==> |path| > 1 && path[0] == d
    ensures |path| > 1 && path[0] == d ==> Text(path)[|d| + 1..] == Text(path[1..])
  {
    if |path| > 1 && path[0] == d {
      FirstCut(d, Text(path[1..]));
    }
    var front: Str, t := d + "/", Text(path);
    if front <= t {
      PrefixRest(front, t);
      FirstSegment(d, path, t[|front|..]);
    }
  }

  lemma PrefixRest(a: Str, s: Str)
    requires a <= s
    ensures s == a + s[|a|..]
  {
  }

  lemma FirstCut(d: Str, rest: Str)
    ensures d + "/" <= d + "/" + rest && (d + "/" + rest)[|d| + 1..] == rest
  {
  }

  lemma FirstSegment(d: Str, path: Path, rest: Str)
    requires Normal(path) && '/' !in d && Text(path) == d + "/" + rest
    ensures |path| > 1 && path[0] == d
  {
    Associate(d, "/", rest);
    IndexOfConcat(d, "/" + rest, '/');
    SlashFree(path);
    assert Text(path)[|d|] == '/';
    if |path| > 1 { SameFront(path[0], Text(path[1..]), d, rest); }
  }

  lemma SameFront(a: Str, x: Str, b: Str, y: Str)
    requires '/' !in a && '/' !in b && a + "/" + x == b + "/" + y
    ensures a == b
  {
    Associate(a, "/", x);
    Associate(b, "/", y);
    IndexOfConcat(a, "/" + x, '/');
    IndexOfConcat(b, "/" + y, '/');
    SplitEqual(a, "/" + x, b, "/" + y);
  }

  // ---------------------------------------------------------------- `**`

  /** Zero or more directories, as a leading `**` segment. */
  lemma AnyDepth(p: Str, path: Path)
    requires Normal(path)
    ensures Matches("**/" + p, Text(path)) <==> exists k :: 0 <= k < |path| && Matches(p, Text(path[k..]))
  {
    var q, s: Str := "**/" + p, Text(path);
    assert q[3..] == p && "**/" <= q && path[0..] == path;
    if i :| 0 <= i < |s| && s[i] == '/' && MatchFrom(p, s[i + 1..], true) {
      var k := BehindSlash(path, i);
      assert Matches(p, Text(path[k..]));
    }
    if k :| 0 <= k < |path| && Matches(p, Text(path[k..])) {
      if k > 0 { var i := SlashBefore(path, k); }
    }
  }

  /** Everything, as the whole pattern. */
  lemma Everything(s: Str)
    ensures Matches("**", s)
  {
  }

  /** Ordinary text at the front of a pattern stands for itself. */
  lemma {:induction false} OrdinaryFront(x: Str, p: Str, s: Str, start: bool)
    requires Ordinary(x)
    ensures MatchFrom(x + p, s, start) <==> x <= s && MatchFrom(p, s[|x|..], start && x == [])
  {
    if x == [] {
      assert x + p == p && s[0..] == s;
    } else {
      var q := x[1..] + p;
      assert (x + p)[0] == x[0] && (x + p)[1..] == q;
      if s != [] && s[0] == x[0] {
        OrdinaryFront(x[1..], p, s[1..], false);
        assert x <= s <==> x[1..] <= s[1..];
        if x <= s { assert s[1..][|x| - 1..] == s[|x|..]; }
      }
    }
  }

  /** A directory of segments without metacharacters. */
  ghost predicate PlainDirectory(dir: Path) {
    dir != [] && forall i :: 0 <= i < |dir| ==> dir[i] != [] && Ordinary(dir[i])
  }

  lemma SlashFront(p: Str, s: Str)
    ensures MatchFrom("/" + p, s, false) <==> s != [] && s[0] == '/' && MatchFrom(p, s[1..], true)
  {
    assert ("/" + p)[0] == '/' && ("/" + p)[1..] == p;
  }

  /** A directory name and a slash at the front of a pattern stand for themselves. */
  lemma DirectoryFront(d: Str, p: Str, s: Str)
    requires Ordinary(d) && d != []
    ensures Matches(d + "/" + p, s) <==> d + "/" <= s && Matches(p, s[|d| + 1..])
  {
    Associate(d, "/", p);
    OrdinaryFront(d, "/" + p, s, true);
    if d <= s {
      SlashFront(p, s[|d|..]);
      assert s == d + s[|d|..];
      assert d + "/" <= s <==> s[|d|..] != [] && s[|d|..][0] == '/';
      if |s| > |d| { assert s[|d|..][1..] == s[|d| + 1..]; }
    }
  }

  lemma OneDirectory(d: Str, p: Str, path: Path)
    requires Ordinary(d) && d != [] && Normal(path)
    ensures Matches(d + "/" + p, Text(path)) <==> |path| > 1 && path[0] == d && Matches(p, Text(path[1..]))
  {
    assert forall i :: 0 <= i < |d| ==> d[i] != '/';
    DirectoryFront(d, p, Text(path));
    StartsInDirectory(d, path);
  }

  /** A pattern in a directory matches what the pattern itself matches below that directory. */
  lemma {:induction false} InDirectory(dir: Path, p: Str, path: Path)
    requires PlainDirectory(dir) && Normal(path)
    ensures Matches(Text(dir) + "/" + p, Text(path)) <==> dir < path && Matches(p, Text(path[|dir|..]))
  {
    if |dir| == 1 {
      OneDirectory(dir[0], p, path);
      assert |path| > 1 ==> (dir < path <==> path[0] == dir[0]);
    } else {
      var rest: Str := Text(dir[1..]) + "/" + p;
      assert Text(dir) + "/" + p == dir[0] + "/" + rest;
      OneDirectory(dir[0], rest, path);
      if |path| > 1 && path[0] == dir[0] {
        InDirectory(dir[1..], p, path[1..]);
        assert dir < path <==> dir[1..] < path[1..];
        if dir < path { assert path[1..][|dir| - 1..] == path[|dir|..]; }
      }
    }
  }

  /** Everything below the directory, at any depth, as a trailing `**` segment. */
  lemma Below(dir: Path, path: Path)
    requires PlainDirectory(dir) && Normal(path)
    ensures Matches(Text(dir) + "/" + "**", Text(path)) <==> dir < path
  {
    InDirectory(dir, "**", path);
  }

  /** Zero or more directories in between, as a middle `**` segment. */
  lemma AnyDepthBelow(dir: Path, q: Str, p: Str, path: Path)
    requires PlainDirectory(dir) && Normal(path) && q == "**/" + p
    ensures Matches(Text(dir) + "/" + q, Text(path)) <==>
            dir < path && exists k :: |dir| <= k < |path| && Matches(p, Text(path[k..]))
  {
    InDirectory(dir, q, path);
    if dir < path {
      var below := path[|dir|..];
      assert Normal(below);
      AnyDepth(p, below);
      SomeTail(path, |dir|, p);
    }
  }

  lemma SomeTail(path: Path, n: nat, p: Str)
    requires n < |path|
    ensures (exists k :: 0 <= k < |path[n..]| && Matches(p, Text(path[n..][k..]))) <==>
            exists k :: n <= k < |path| && Matches(p, Text(path[k..]))
  {
    var below := path[n..];
    if k :| 0 <= k < |below| && Matches(p, Text(below[k..])) { assert below[k..] == path[n + k..]; }
    if k :| n <= k < |path| && Matches(p, Text(path[k..])) { assert below[k - n..] == path[k..]; }
  }

  // ---------------------------------------------------------------- `*` and `?`

  lemma {:induction false} ItselfOnly(y: Str, s: Str, start: bool)
    requires Ordinary(y)
    ensures MatchFrom(y, s, start) <==> s == y
  {
    var none: Str := [];
    assert y + none == y;
    OrdinaryFront(y, none, s, start);
    if y <= s { assert s == y + s[|y|..]; }
  }

  /** A name without metacharacters names one file of the base directory. */
  lemma NameMeaning(x: Str, path: Path)
    requires Ordinary(x) && Normal(path)
    ensures Matches(x, Text(path)) <==> path == [x]
  {
    ItselfOnly(x, Text(path), true);
    OneSegment(path, x);
  }

  /** The name begins with x and ends with y, the two not overlapping. */
  predicate Framed(x: Str, y: Str, name: Str) {
    |x| + |y| <= |name| && x <= name && name[|name| - |y|..] == y
  }

  lemma SlashFreeParts(x: Str, m: Str, y: Str)
    requires Ordinary(x) && Ordinary(y)
    ensures '/' !in x + (m + y) <==> '/' !in m
  {
    assert forall i :: 0 <= i < |x| ==> x[i] != '/';
    assert forall i :: 0 <= i < |y| ==> y[i] != '/';
    var s := x + (m + y);
    assert forall i :: 0 <= i < |m| ==> s[|x| + i] == m[i];
  }

  /** A framed name is x, something, and y. */
  lemma FramedMeaning(x: Str, y: Str, s: Str)
    ensures Framed(x, y, s) <==> exists m: Str :: s == x + (m + y)
  {
    if Framed(x, y, s) {
      var m := s[|x|..|s| - |y|];
      assert s == x + (m + y);
    }
    if m: Str :| s == x + (m + y) {
      assert s[..|x|] == x;
      assert s[|x| + |m|..] == y;
    }
  }

  lemma StarTail(y: Str, rest: Str, start: bool)
    requires Ordinary(y)
    ensures MatchFrom("*" + y, rest, start) <==> exists m: Str :: '/' !in m && rest == m + y
  {
    StarMeaning(y, rest, start);
    forall n | 0 <= n <= |rest| ensures MatchFrom(y, rest[n..], false) <==> rest[n..] == y {
      ItselfOnly(y, rest[n..], false);
    }
    if n :| 0 <= n <= |rest| && '/' !in rest[..n] && MatchFrom(y, rest[n..], false) {
      assert rest == rest[..n] + y;
    }
    if m: Str :| '/' !in m && rest == m + y {
      assert rest[..|m|] == m && rest[|m|..] == y;
    }
  }

  /** Two stars are one star unless they fill a segment: behind other text, or with other text behind. */
  lemma {:induction false} TwoStars(y: Str, s: Str, start: bool)
    requires y == [] || y[0] != '*'
    requires start ==> y != [] && y[0] != '/'
    ensures MatchFrom("**" + y, s, start) <==> MatchFrom("*" + y, s, start)
    decreases |s|
  {
    var one, two: Str := "*" + y, "**" + y;
    assert two[1..] == one && one[1..] == y && two[..2] == "**";
    assert y != [] ==> two[2] == y[0] && one[1] == y[0];
    if s != [] { TwoStars(y, s[1..], false); }
  }

  /** `x**y` is `x*y`. */
  lemma DoubleStarInName(x: Str, y: Str, s: Str)
    requires Ordinary(x) && (y == [] || y[0] != '*') && (x == [] ==> y != [] && y[0] != '/')
    ensures Matches(x + ("**" + y), s) <==> Matches(x + ("*" + y), s)
  {
    OrdinaryFront(x, "**" + y, s, true);
    OrdinaryFront(x, "*" + y, s, true);
    if x <= s { TwoStars(y, s[|x|..], x == []); }
  }

  lemma StarText(x: Str, y: Str, s: Str)
    requires Ordinary(x) && Ordinary(y)
    ensures Matches(x + ("*" + y), s) <==> Framed(x, y, s) && '/' !in s
  {
    OrdinaryFront(x, "*" + y, s, true);
    FramedMeaning(x, y, s);
    if x <= s {
      PrefixRest(x, s);
      StarTail(y, s[|x|..], x == []);
    }
    if m: Str :| s == x + (m + y) {
      SlashFreeParts(x, m, y);
      DropFront(x, m + y);
    }
    if x <= s && exists m: Str :: '/' !in m && s[|x|..] == m + y {
      var m: Str :| '/' !in m && s[|x|..] == m + y;
      SlashFreeParts(x, m, y);
    }
  }

  lemma DropFront(a: Str, b: Str)
    ensures a <= a + b && (a + b)[|a|..] == b
  {
  }

  /** Zero or more characters of one name: a file of the base directory whose name has that frame. */
  lemma StarInName(x: Str, y: Str, path: Path)
    requires Ordinary(x) && Ordinary(y) && Normal(path)
    ensures Matches(x + ("*" + y), Text(path)) <==> |path| == 1 && Framed(x, y, path[0])
  {
    StarText(x, y, Text(path));
    SlashFree(path);
  }

  /** A text that is x, one allowed byte, and y. */
  ghost predicate OneBetween(x: Str, y: Str, s: Str, allowed: Byte -> bool) {
    exists c :: allowed(c) && s == x + ([c] + y)
  }

  /** A form that stands for one byte, between two texts. */
  lemma OneByteText(x: Str, form: Str, y: Str, s: Str, allowed: Byte -> bool)
    requires Ordinary(x) && Ordinary(y)
    requires forall t, start ::
               MatchFrom(form + y, t, start) <==> t != [] && allowed(t[0]) && MatchFrom(y, t[1..], false)
    ensures Matches(x + (form + y), s) <==> OneBetween(x, y, s, allowed)
  {
    OrdinaryFront(x, form + y, s, true);
    if x <= s {
      var t := s[|x|..];
      assert s == x + t;
      if t != [] {
        ItselfOnly(y, t[1..], false);
        assert t == [t[0]] + t[1..];
      }
    }
    if c :| allowed(c) && s == x + ([c] + y) {
      var t := [c] + y;
      assert s[|x|..] == t && t[1..] == y;
      ItselfOnly(y, y, false);
    }
  }

  lemma QuestionFront(y: Str, t: Str, start: bool)
    ensures MatchFrom("?" + y, t, start) <==> t != [] && t[0] != '/' && MatchFrom(y, t[1..], false)
  {
    assert ("?" + y)[0] == '?' && ("?" + y)[1..] == y;
  }

  /** Exactly one character of one name. */
  lemma QuestionInName(x: Str, y: Str, path: Path)
    requires Ordinary(x) && Ordinary(y) && Normal(path)
    ensures Matches(x + ("?" + y), Text(path)) <==> exists c :: c != '/' && path == [x + ([c] + y)]
  {
    var noSlash := (c: Byte) => c != '/';
    forall t, start
      ensures MatchFrom("?" + y, t, start) <==> t != [] && noSlash(t[0]) && MatchFrom(y, t[1..], false)
    {
      QuestionFront(y, t, start);
    }
    OneByteText(x, "?", y, Text(path), noSlash);
    forall c | c != '/' ensures Text(path) == x + ([c] + y) <==> path == [x + ([c] + y)] {
      NoSlashInside(x, c, y);
      OneSegment(path, x + ([c] + y));
    }
    if OneBetween(x, y, Text(path), noSlash) {
      var c :| noSlash(c) && Text(path) == x + ([c] + y);
    }
    if c :| c != '/' && path == [x + ([c] + y)] { assert noSlash(c); }
  }

  lemma NoSlashInside(x: Str, c: Byte, y: Str)
    requires Ordinary(x) && Ordinary(y) && c != '/'
    ensures '/' !in x + ([c] + y)
  {
    assert forall i :: 0 <= i < |x| ==> x[i] != '/';
    assert forall i :: 0 <= i < |y| ==> y[i] != '/';
  }

  // ---------------------------------------------------------------- `[ab]`, `[a-z]`, `[!ab]`

  /** One member of a set of characters, or a range. */
  datatype Item = One(c: Byte) | Span(low: Byte, high: Byte) {
    predicate Holds(c: Byte) {
      if One? then this.c == c else low <= c <= high
    }

    function Spelled(): Str {
      if One? then [c] else [low, '-', high]
    }

    /** Characters with a meaning of their own inside brackets are left out. */
    predicate Plain() {
      if One? then PlainInside(c) else PlainInside(low) && PlainInside(high)
    }
  }

  predicate PlainInside(c: Byte) {
    c != ']' && c != '-' && c != '!' && c != '^'
  }

  function Spell(items: seq<Item>): Str {
    if items == [] then [] else items[0].Spelled() + Spell(items[1..])
  }

  predicate InSet(items: seq<Item>, c: Byte) {
    exists item :: item in items && item.Holds(c)
  }

  /** Members without a meaning of their own; a closing bracket is one in the first place. */
  predicate AllPlain(items: seq<Item>) {
    forall i :: 0 <= i < |items| ==> items[i].Plain() || (i == 0 && items[i] == One(']'))
  }

  predicate StartsClass(c: Byte) {
    PlainInside(c) || c == ']'
  }

  lemma {:induction false} NoBracket(items: seq<Item>)
    requires forall i :: 0 <= i < |items| ==> items[i].Plain()
    ensures ']' !in Spell(items)
  {
    if items != [] {
      NoBracket(items[1..]);
      assert ']' !in items[0].Spelled();
    }
  }

  lemma SpellStarts(items: seq<Item>)
    requires AllPlain(items)
    ensures items != [] ==> Spell(items) != [] && StartsClass(Spell(items)[0]) && ']' !in Spell(items)[1..]
  {
    if items != [] {
      NoBracket(items[1..]);
      assert Spell(items)[1..] == items[0].Spelled()[1..] + Spell(items[1..]);
      assert ']' !in items[0].Spelled()[1..];
    }
  }

  /** The inside of a class stands for its members. */
  lemma {:induction false} RangesMeaning(items: seq<Item>, c: Byte)
    requires AllPlain(items)
    ensures InRanges(Spell(items), c) <==> InSet(items, c)
  {
    if items != [] {
      var first, rest, s := items[0], Spell(items[1..]), Spell(items);
      RangesMeaning(items[1..], c);
      SpellStarts(items[1..]);
      assert InSet(items, c) <==> first.Holds(c) || InSet(items[1..], c) by {
        assert forall x :: x in items <==> x == first || x in items[1..];
      }
      if first.One? {
        assert s[0] == first.c && s[1..] == rest;
        assert |s| >= 3 ==> s[1] != '-';
      } else {
        assert s[0] == first.low && s[1] == '-' && s[2] == first.high && s[3..] == rest;
      }
    }
  }

  function Mark(negated: bool): Str {
    if negated then "!" else []
  }

  function Class(negated: bool, items: seq<Item>): Str {
    "[" + (Mark(negated) + (Spell(items) + "]"))
  }

  /** The parts of a text that is a, b, one byte, and d. */
  lemma Parts(a: Str, b: Str, c: Byte, d: Str)
    ensures
      var p, n := a + (b + ([c] + d)), |a| + |b|;
      p[|a|..] == b + ([c] + d) && p[|a|..n] == b && p[n] == c && p[n + 1..] == d &&
      forall i :: 0 <= i < |a| ==> p[i] == a[i]
  {
    var tail := [c] + d;
    assert (b + tail)[..|b|] == b && (b + tail)[|b|..] == tail && tail[1..] == d;
  }

  /** A class ends at the first closing bracket behind its first byte and its mark. */
  lemma EndOfClass(p: Str, from: nat, inside: Str, tail: Str)
    requires 0 < from < |p| && p[from..] == inside + tail
    requires from == if p[1] == '!' || p[1] == '^' then 2 else 1
    requires inside != [] && ']' !in inside[1..] && tail != [] && tail[0] == ']'
    ensures ClassEnd(p) == from + |inside| < |p|
  {
    assert p[from] == p[from..][0] == inside[0];
    if inside[0] == ']' {
      assert p[from + 1..] == p[from..][1..] == inside[1..] + tail;
      IndexOfConcat(inside[1..], tail, ']');
    } else {
      assert inside == [inside[0]] + inside[1..];
      IndexOfConcat(inside, tail, ']');
    }
  }

  lemma SetEnds(inside: Str, y: Str)
    requires inside != [] && StartsClass(inside[0]) && ']' !in inside[1..]
    ensures
      var p, end := "[" + (inside + ("]" + y)), 1 + |inside|;
      p[0] == '[' && ClassEnd(p) == end < |p| && p[1..end] == inside && p[end + 1..] == y
  {
    Parts("[", inside, ']', y);
    var p: Str, tail: Str := "[" + (inside + ("]" + y)), "]" + y;
    assert p[1] == p[1..][0] == inside[0];
    EndOfClass(p, 1, inside, tail);
  }

  lemma NotSetEnds(inside: Str, y: Str)
    requires inside != [] && StartsClass(inside[0]) && ']' !in inside[1..]
    ensures
      var p, end := "[!" + (inside + ("]" + y)), 2 + |inside|;
      p[0] == '[' && ClassEnd(p) == end < |p| && p[2..end] == inside && p[1] == '!' && p[end + 1..] == y
  {
    Parts("[!", inside, ']', y);
    var p: Str, tail: Str := "[!" + (inside + ("]" + y)), "]" + y;
    EndOfClass(p, 2, inside, tail);
  }

  lemma ClassEnds(negated: bool, items: seq<Item>, y: Str)
    requires AllPlain(items) && items != []
    ensures
      var p := Class(negated, items) + y;
      var end := |Class(negated, items)| - 1;
      p[0] == '[' && ClassEnd(p) == end < |p| && p[1..end] == Mark(negated) + Spell(items) && p[end + 1..] == y
  {
    SpellStarts(items);
    var inside, p := Spell(items), Class(negated, items) + y;
    Regroup(Mark(negated), inside, y);
    if negated {
      NotSetEnds(inside, y);
      Associate("[", "!", inside + ("]" + y));
      assert "[" + "!" == "[!";
      AfterMark(p, inside);
    } else {
      SetEnds(inside, y);
      assert Mark(false) + (inside + ("]" + y)) == inside + ("]" + y);
      assert Mark(false) + inside == inside;
    }
  }

  lemma AfterMark(p: Str, inside: Str)
    requires |p| >= 2 + |inside| && p[1] == '!' && p[2..2 + |inside|] == inside
    ensures p[1..2 + |inside|] == "!" + inside
  {
    assert p[1..2 + |inside|] == [p[1]] + p[2..2 + |inside|];
  }

  lemma Regroup(m: Str, inside: Str, y: Str)
    ensures "[" + (m + (inside + "]")) + y == "[" + (m + (inside + ("]" + y)))
  {
    Associate("[", m + (inside + "]"), y);
    Associate(m, inside + "]", y);
    Associate(inside, "]", y);
  }

  lemma ClassFront(negated: bool, items: seq<Item>, y: Str, t: Str, start: bool)
    requires AllPlain(items) && items != []
    ensures MatchFrom(Class(negated, items) + y, t, start) <==>
            t != [] && (InSet(items, t[0]) <==> !negated) && MatchFrom(y, t[1..], false)
  {
    ClassEnds(negated, items, y);
    SpellStarts(items);
    if t != [] {
      RangesMeaning(items, t[0]);
      ClassInside(negated, Spell(items), t[0]);
    }
  }

  lemma ClassInside(negated: bool, inside: Str, c: Byte)
    requires inside != [] && StartsClass(inside[0])
    ensures InClass(Mark(negated) + inside, c) <==> (InRanges(inside, c) <==> !negated)
  {
    assert negated ==> (Mark(true) + inside)[0] == '!' && (Mark(true) + inside)[1..] == inside;
    assert !negated ==> Mark(false) + inside == inside;
  }

  /** One character that is in the set, or with a `!` in front one that is not. */
  lemma ClassInText(negated: bool, items: seq<Item>, x: Str, y: Str, s: Str)
    requires Ordinary(x) && Ordinary(y) && AllPlain(items) && items != []
    ensures Matches(x + (Class(negated, items) + y), s) <==>
            exists c :: (InSet(items, c) <==> !negated) && s == x + ([c] + y)
  {
    var allowed := (c: Byte) => InSet(items, c) <==> !negated;
    forall t, start
      ensures MatchFrom(Class(negated, items) + y, t, start) <==>
              t != [] && allowed(t[0]) && MatchFrom(y, t[1..], false)
    {
      ClassFront(negated, items, y, t, start);
    }
    OneByteText(x, Class(negated, items), y, s, allowed);
    if c :| (InSet(items, c) <==> !negated) && s == x + ([c] + y) { assert allowed(c); }
    if OneBetween(x, y, s, allowed) {
      var c :| allowed(c) && s == x + ([c] + y);
      assert InSet(items, c) <==> !negated;
    }
  }

  lemma CaretEnds(p: Str)
    ensures
      var a, b: Str := "[^" + p, "[!" + p;
      var end := ClassEnd(a);
      a[0] == '[' == b[0] && end == ClassEnd(b) >= 2 && |a| == |b| &&
      (end < |a| ==> IsMarked(a[1..end]) && IsMarked(b[1..end]) && Unmarked(a[1..end]) == Unmarked(b[1..end]) &&
                     a[end + 1..] == b[end + 1..])
  {
    var a, b: Str := "[^" + p, "[!" + p;
    assert a[2..] == p == b[2..] && (p != [] ==> a[3..] == p[1..] == b[3..]);
    var end := ClassEnd(a);
    if end < |a| { assert a[end + 1..] == b[end + 1..] && a[1..end][1..] == a[2..end] == b[2..end] == b[1..end][1..]; }
  }

  /** A `^` negates like a `!`, in the pattern and for the compiler. */
  lemma CaretNegates(p: Str, s: Str, start: bool, depth: nat)
    ensures MatchFrom("[^" + p, s, start) <==> MatchFrom("[!" + p, s, start)
    ensures WellFormed("[^" + p, depth) <==> WellFormed("[!" + p, depth)
  {
    CaretEnds(p);
  }

  // ---------------------------------------------------------------- `{a,b}`

  /** A branch is itself a glob: classes and inner braces closed, and no comma outside inner braces. */
  predicate Branch(a: Str, depth: nat)
    decreases |a|
  {
    if a == [] then depth == 0
    else if a[0] == '\\' then |a| >= 2 && Branch(a[2..], depth)
    else if a[0] == '[' then ClassEnd(a) < |a| && Branch(a[ClassEnd(a) + 1..], depth)
    else if a[0] == '{' then Branch(a[1..], depth + 1)
    else if a[0] == '}' then depth > 0 && Branch(a[1..], depth - 1)
    else if a[0] == ',' && depth == 0 then false
    else Branch(a[1..], depth)
  }

  lemma {:induction false} IndexInFront(a: Str, r: Str, c: Byte)
    requires c in a
    ensures IndexOf(a + r, c) == IndexOf(a, c) < |a|
  {
    if a[0] != c {
      assert (a + r)[1..] == a[1..] + r;
      IndexInFront(a[1..], r, c);
    }
  }

  /** A class that is closed ends where it does, whatever follows. */
  lemma ClosedClass(a: Str, r: Str)
    requires a != [] && ClassEnd(a) < |a|
    ensures ClassEnd(a + r) == ClassEnd(a)
  {
    var p := a + r;
    assert forall i :: 0 <= i < |a| ==> p[i] == a[i];
    var negated := if |a| > 1 && (a[1] == '!' || a[1] == '^') then 1 else 0;
    var from := if |a| > 1 + negated && a[1 + negated] == ']' then 2 + negated else 1 + negated;
    assert p[from..] == a[from..] + r;
    assert a[from..][IndexOf(a[from..], ']')] == ']';
    IndexInFront(a[from..], r, ']');
  }

  lemma TakeFront(a: Str, r: Str, n: nat)
    requires n <= |a|
    ensures (a + r)[..n] == a[..n] && (a + r)[n..] == a[n..] + r && a == a[..n] + a[n..]
  {
  }

  /** Reading a group passes over a whole branch. */
  lemma {:induction false} ReadThrough(a: Str, r: Str, depth: nat, current: Str)
    requires Branch(a, depth)
    ensures ReadGroup(a + r, depth, current) == ReadGroup(r, 0, current + a)
    decreases |a|
  {
    if a == [] {
      assert a + r == r && current + a == current;
    } else {
      var p := a + r;
      assert p[0] == a[0];
      var n, inner := PieceOf(a), DepthBehind(a, depth);
      TakeFront(a, r, n);
      if a[0] == '[' { ClosedClass(a, r); }
      assert ReadGroup(p, depth, current) == ReadGroup(p[n..], inner, current + p[..n]);
      ReadThrough(a[n..], r, inner, current + a[..n]);
      Associate(current, a[..n], a[n..]);
    }
  }

  /** How much of a branch is read at once. */
  function PieceOf(a: Str): (n: nat)
    requires a != []
  {
    if a[0] == '\\' then 2 else if a[0] == '[' then ClassEnd(a) + 1 else 1
  }

  function DepthBehind(a: Str, depth: nat): nat
    requires Branch(a, depth) && a != []
  {
    if a[0] == '{' then depth + 1 else if a[0] == '}' then depth - 1 else depth
  }

  predicate Branches(list: seq<Str>) {
    list != [] && forall i :: 0 <= i < |list| ==> Branch(list[i], 0)
  }

  function Commas(list: seq<Str>): Str
    requires list != []
  {
    if |list| == 1 then list[0] else list[0] + ("," + Commas(list[1..]))
  }

  /** The branches between braces. */
  function Braces(list: seq<Str>): Str
    requires list != []
  {
    "{" + (Commas(list) + "}")
  }

  lemma AtComma(rest: Str, current: Str)
    ensures
      var g := ReadGroup(rest, 0, []);
      ReadGroup("," + rest, 0, current) ==
        if g.None? then None else Some(Group([current] + g.value.alternatives, g.value.rest))
  {
    assert ("," + rest)[0] == ',' && ("," + rest)[1..] == rest;
  }

  lemma AtClose(y: Str, current: Str)
    ensures ReadGroup("}" + y, 0, current) == Some(Group([current], y))
  {
    assert ("}" + y)[0] == '}' && ("}" + y)[1..] == y;
  }

  lemma {:induction false} ReadBranches(list: seq<Str>, close: Str, y: Str)
    requires Branches(list) && close == "}" + y
    ensures ReadGroup(Commas(list) + close, 0, []) == Some(Group(list, y))
  {
    ReadFirst(list[0], close);
    if |list| == 1 {
      AtClose(y, list[0]);
      assert list == [list[0]];
    } else {
      ReadBranches(list[1..], close, y);
      ReadMore(list, close, y);
    }
  }

  lemma ReadFirst(a: Str, r: Str)
    requires Branch(a, 0)
    ensures ReadGroup(a + r, 0, []) == ReadGroup(r, 0, a)
  {
    var none: Str := [];
    ReadThrough(a, r, 0, none);
    assert none + a == a;
  }

  lemma ReadMore(list: seq<Str>, close: Str, y: Str)
    requires |list| > 1 && Branch(list[0], 0)
    requires ReadGroup(Commas(list[1..]) + close, 0, []) == Some(Group(list[1..], y))
    ensures ReadGroup(Commas(list) + close, 0, []) == Some(Group(list, y))
  {
    var rest := Commas(list[1..]) + close;
    CommaFirst(list, close);
    ReadFirst(list[0], "," + rest);
    AtComma(rest, list[0]);
    HeadAndTail(list);
  }

  lemma HeadAndTail<T>(s: seq<T>)
    requires s != []
    ensures [s[0]] + s[1..] == s
  {
  }

  lemma CommaFirst(list: seq<Str>, r: Str)
    requires |list| > 1
    ensures Commas(list) + r == list[0] + ("," + (Commas(list[1..]) + r))
  {
    Associate(list[0], "," + Commas(list[1..]), r);
    Associate(",", Commas(list[1..]), r);
  }

  lemma {:induction false} BranchFits(list: seq<Str>, a: Str)
    requires list != [] && a in list
    ensures |a| <= |Commas(list)|
  {
    if a != list[0] { BranchFits(list[1..], a); }
  }

  /** Braces match what one of their branches would match in their place. */
  lemma BracesFront(list: seq<Str>, y: Str, s: Str, start: bool)
    requires Branches(list)
    ensures MatchFrom(Braces(list) + y, s, start) <==> exists a :: a in list && MatchFrom(a + y, s, start)
  {
    var p := Braces(list) + y;
    Associate("{", Commas(list) + "}", y);
    Associate(Commas(list), "}", y);
    assert p[0] == '{' && p[1..] == Commas(list) + ("}" + y);
    ReadBranches(list, "}" + y, y);
    forall a | a in list ensures |a| + |y| < |p| { BranchFits(list, a); }
  }

  lemma BracesInText(x: Str, list: seq<Str>, y: Str, s: Str)
    requires Ordinary(x) && Branches(list)
    ensures Matches(x + (Braces(list) + y), s) <==> exists a :: a in list && Matches(x + (a + y), s)
  {
    OrdinaryFront(x, Braces(list) + y, s, true);
    forall a | a in list ensures Matches(x + (a + y), s) <==> x <= s && MatchFrom(a + y, s[|x|..], x == []) {
      OrdinaryFront(x, a + y, s, true);
    }
    if x <= s { BracesFront(list, y, s[|x|..], x == []); }
  }

  // ---------------------------------------------------------------- escapes

  /** Every byte with a backslash in front. */
  function Escaped(t: Str): Str {
    if t == [] then [] else ['\\', t[0]] + Escaped(t[1..])
  }

  /** An escaped text stands for itself, as a pattern and as a literal path. */
  lemma {:induction false} EscapedMeaning(t: Str, s: Str, start: bool)
    ensures MatchFrom(Escaped(t), s, start) <==> s == t
    ensures UnescapeLiteral(Escaped(t)) == t
  {
    if t != [] {
      var p := Escaped(t);
      assert p[0] == '\\' && p[1] == t[0] && p[2..] == Escaped(t[1..]);
      EscapedMeaning(t[1..], if s == [] then [] else s[1..], t[0] == '/');
      if s != [] { assert s == [s[0]] + s[1..]; }
      assert t == [t[0]] + t[1..];
    }
  }
}
