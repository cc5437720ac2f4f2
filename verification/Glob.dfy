/**
 * Path globs: `*` and `?` stay within one directory level, `**` spans levels, `{a,b}` and `[ab]`
 * choose, a backslash escapes. Texts are paths relative to a base directory, with `/` separators.
 */
module Glob {
  import opened Basics
  import opened Tasks

  // ---------------------------------------------------------------- pattern lists

  predicate IsNegated(pattern: Str) {
    "!" <= pattern
  }

  function Body(pattern: Str): Str {
    if IsNegated(pattern) then pattern[1..] else pattern
  }

  /** Wildcard patterns are matched against listed files; all others name one path literally. */
  predicate IsWildcard(pattern: Str) {
    '*' in pattern || '?' in pattern || '[' in pattern || '{' in pattern
  }

  /** Drops escapes from a literal pattern; a trailing backslash stays. */
  function UnescapeLiteral(pattern: Str): Str {
    if pattern == [] then []
    else if pattern[0] == '\\' && |pattern| >= 2 then [pattern[1]] + UnescapeLiteral(pattern[2..])
    else [pattern[0]] + UnescapeLiteral(pattern[1..])
  }

  lemma {:induction false} UnescapePlain(pattern: Str)
    requires '\\' !in pattern
    ensures UnescapeLiteral(pattern) == pattern
  {
    if pattern != [] { UnescapePlain(pattern[1..]); }
  }

  // ---------------------------------------------------------------- matching

  /** Index of the `]` that closes the class at the start of p, or the length of p. */
  function ClassEnd(p: Str): (i: nat)
    requires p != []
    ensures 1 <= i <= |p|
  {
    var negated := if |p| > 1 && (p[1] == '!' || p[1] == '^') then 1 else 0;
    // A bracket right after the opening stands for itself.
    var from := if |p| > 1 + negated && p[1 + negated] == ']' then 2 + negated else 1 + negated;
    if from >= |p| then |p| else from + IndexOf(p[from..], ']')
  }

  /** Membership in the inside of a class: single bytes and ranges. */
  predicate InRanges(ranges: Str, c: Byte) {
    if |ranges| >= 3 && ranges[1] == '-' then ranges[0] <= c <= ranges[2] || InRanges(ranges[3..], c)
    else ranges != [] && (ranges[0] == c || InRanges(ranges[1..], c))
  }

  /** A `!` or a `^` right after the opening negates a class. */
  predicate IsMarked(inside: Str) {
    inside != [] && (inside[0] == '!' || inside[0] == '^')
  }

  function Unmarked(inside: Str): Str {
    if IsMarked(inside) then inside[1..] else inside
  }

  predicate InClass(inside: Str, c: Byte) {
    InRanges(Unmarked(inside), c) <==> !IsMarked(inside)
  }

  /** The alternatives of a brace group, and the pattern behind it. */
  datatype Group = Group(alternatives: seq<Str>, rest: Str)

  /** Reads a group from behind its opening brace; None when it is not closed. */
  function ReadGroup(p: Str, depth: nat, current: Str): (g: Option<Group>)
    ensures g.Some? ==> |g.value.rest| < |p|
    ensures g.Some? ==> forall a :: a in g.value.alternatives ==> |a| + |g.value.rest| < |current| + |p|
    decreases |p|
  {
    if p == [] then None
    else if p[0] == '\\' && |p| >= 2 then ReadGroup(p[2..], depth, current + p[..2])
    else if p[0] == '[' && ClassEnd(p) < |p| then ReadGroup(p[ClassEnd(p) + 1..], depth, current + p[..ClassEnd(p) + 1])
    else if p[0] == '{' then ReadGroup(p[1..], depth + 1, current + p[..1])
    else if p[0] == '}' && depth == 0 then Some(Group([current], p[1..]))
    else if p[0] == '}' then ReadGroup(p[1..], depth - 1, current + p[..1])
    else if p[0] == ',' && depth == 0 then
      var g := ReadGroup(p[1..], 0, []);
      if g.None? then None else Some(Group([current] + g.value.alternatives, g.value.rest))
    else ReadGroup(p[1..], depth, current + p[..1])
  }

  /** Does the pattern p match the text s? `start` tells whether p stands at the start of a segment. */
  predicate MatchFrom(p: Str, s: Str, start: bool)
    decreases |p|, |s|
  {
    if p == [] then s == []
    else if start && p == "**" then true
    else if start && "**/" <= p then
      MatchFrom(p[3..], s, true) || exists i :: 0 <= i < |s| && s[i] == '/' && MatchFrom(p[3..], s[i + 1..], true)
    else if p[0] == '*' then
      MatchFrom(p[1..], s, false) || (s != [] && s[0] != '/' && MatchFrom(p, s[1..], false))
    else if p[0] == '?' then s != [] && s[0] != '/' && MatchFrom(p[1..], s[1..], false)
    else if p[0] == '[' then
      ClassEnd(p) < |p| && s != [] && InClass(p[1..ClassEnd(p)], s[0]) && MatchFrom(p[ClassEnd(p) + 1..], s[1..], false)
    else if p[0] == '{' then
      var g := ReadGroup(p[1..], 0, []);
      g.Some? &&
      exists a :: a in g.value.alternatives && |a| + |g.value.rest| < |p| && MatchFrom(a + g.value.rest, s, start)
    else if p[0] == '\\' then |p| >= 2 && s != [] && s[0] == p[1] && MatchFrom(p[2..], s[1..], p[1] == '/')
    else s != [] && s[0] == p[0] && MatchFrom(p[1..], s[1..], p[0] == '/')
  }

  predicate Matches(pattern: Str, text: Str) {
    MatchFrom(pattern, text, true)
  }

  predicate RangesOrdered(ranges: Str) {
    if |ranges| >= 3 && ranges[1] == '-' then ranges[0] <= ranges[2] && RangesOrdered(ranges[3..])
    else ranges == [] || RangesOrdered(ranges[1..])
  }

  /** Patterns that compile: classes closed and ordered, braces balanced, no dangling escape. */
  predicate WellFormed(p: Str, depth: nat)
    decreases |p|
  {
    if p == [] then depth == 0
    else if p[0] == '\\' then |p| >= 2 && WellFormed(p[2..], depth)
    else if p[0] == '[' then
      ClassEnd(p) < |p| && RangesOrdered(Unmarked(p[1..ClassEnd(p)])) && WellFormed(p[ClassEnd(p) + 1..], depth)
    else if p[0] == '{' then WellFormed(p[1..], depth + 1)
    else if p[0] == '}' then depth > 0 && WellFormed(p[1..], depth - 1)
    else WellFormed(p[1..], depth)
  }

  predicate Compiles(pattern: Str) {
    WellFormed(pattern, 0)
  }

  predicate IsMetachar(c: Byte) {
    c == '*' || c == '?' || c == '[' || c == '{' || c == ']' || c == '}'
  }

  /** Length of the part of a pattern in front of the first metacharacter. */
  function StaticLength(p: Str): (n: nat)
    ensures n <= |p|
  {
    if p == [] || IsMetachar(p[0]) then 0 else 1 + StaticLength(p[1..])
  }

  /** The static length is the index of the first metacharacter, or the whole length. */
  lemma {:induction false} StaticLengthMeaning(p: Str)
    ensures forall i :: 0 <= i < StaticLength(p) ==> !IsMetachar(p[i])
    ensures StaticLength(p) < |p| ==> IsMetachar(p[StaticLength(p)])
  {
    if p != [] && !IsMetachar(p[0]) { StaticLengthMeaning(p[1..]); }
  }

  lemma {:induction false} StaticLengthUnique(p: Str, n: nat)
    requires n <= |p| && (forall k :: 0 <= k < n ==> !IsMetachar(p[k])) && (n < |p| ==> IsMetachar(p[n]))
    ensures StaticLength(p) == n
  {
    if n > 0 { StaticLengthUnique(p[1..], n - 1); }
  }

  /** No escape in front of the first metacharacter. */
  predicate PlainHead(p: Str) {
    '\\' !in p[..StaticLength(p)]
  }

  /** The part of a pattern without metacharacters and escapes is matched as it stands. */
  lemma {:induction false} HeadIsLiteral(p: Str, s: Str, start: bool)
    requires MatchFrom(p, s, start) && PlainHead(p)
    ensures StaticLength(p) <= |s| && s[..StaticLength(p)] == p[..StaticLength(p)]
    decreases |p|
  {
    var n := StaticLength(p);
    if n > 0 {
      assert !IsMetachar(p[0]) && p[0] in p[..n];
      assert p[..n] == [p[0]] + p[1..][..n - 1];
      HeadIsLiteral(p[1..], s[1..], p[0] == '/');
      assert s[..n] == [s[0]] + s[1..][..n - 1];
    }
  }

  /** Text in which no byte has a meaning of its own. */
  predicate Ordinary(s: Str) {
    forall i :: 0 <= i < |s| ==> !IsMetachar(s[i]) && s[i] != '\\' && s[i] != '/'
  }

  /** Ordinary text matches itself and compiles. */
  lemma {:induction false} OrdinaryMatches(x: Str, p: Str, s: Str, start: bool)
    requires Ordinary(x) && x != []
    ensures MatchFrom(x + p, x + s, start) <==> MatchFrom(p, s, false)
    ensures WellFormed(x + p, 0) <==> WellFormed(p, 0)
  {
    var q, t := x[1..] + p, x[1..] + s;
    assert (x + p)[0] == x[0] && (x + p)[1..] == q && (x + s)[0] == x[0] && (x + s)[1..] == t;
    if |x| > 1 {
      OrdinaryMatches(x[1..], p, s, false);
    } else {
      assert q == p && t == s;
    }
  }

  /** A star stands for any bytes of one directory level, and for nothing beyond it. */
  lemma {:induction false} StarMeaning(p: Str, s: Str, start: bool)
    requires p == [] || p[0] != '*'
    ensures MatchFrom("*" + p, s, start) <==> exists n :: 0 <= n <= |s| && '/' !in s[..n] && MatchFrom(p, s[n..], false)
    decreases |s|
  {
    assert ("*" + p)[1..] == p && s[0..] == s;
    if s != [] {
      StarMeaning(p, s[1..], false);
      forall n | 1 <= n <= |s|
        ensures s[n..] == s[1..][n - 1..] && ('/' !in s[..n] <==> s[0] != '/' && '/' !in s[1..][..n - 1])
      {
        assert s[..n] == [s[0]] + s[1..][..n - 1];
      }
      if exists m :: 0 <= m <= |s[1..]| && '/' !in s[1..][..m] && MatchFrom(p, s[1..][m..], false) {
        var m :| 0 <= m <= |s[1..]| && '/' !in s[1..][..m] && MatchFrom(p, s[1..][m..], false);
        assert s[m + 1..] == s[1..][m..];
      }
    }
  }

  /** What a pattern spells, escapes undone, in front of its first unescaped metacharacter. */
  function Literal(p: Str): Str {
    LiteralFrom(p, false)
  }

  function LiteralFrom(p: Str, escaped: bool): Str {
    if p == [] then []
    else if escaped then [p[0]] + LiteralFrom(p[1..], false)
    else if IsMetachar(p[0]) then []
    else if p[0] == '\\' then LiteralFrom(p[1..], true)
    else [p[0]] + LiteralFrom(p[1..], false)
  }

  /** Every text that a pattern matches starts with what the pattern spells. */
  lemma {:induction false} LiteralStarts(p: Str, s: Str, start: bool)
    requires MatchFrom(p, s, start)
    ensures Literal(p) <= s
    decreases |p|
  {
    if p != [] && !IsMetachar(p[0]) {
      if p[0] == '\\' {
        assert p[1..] != [] && p[1..][0] == p[1] && p[1..][1..] == p[2..];
        LiteralStarts(p[2..], s[1..], p[1] == '/');
        assert Literal(p) == LiteralFrom(p[1..], true) == [s[0]] + Literal(p[2..]);
      } else {
        LiteralStarts(p[1..], s[1..], p[0] == '/');
        assert Literal(p) == [s[0]] + Literal(p[1..]);
      }
      assert s == [s[0]] + s[1..];
    }
  }
}
