/** Which texts are white space only: the characters of Unicode's White_Space property, in UTF-8. */
module WhiteSpace {
  import opened Basics
  import opened Tasks
  import opened Utf8

  /** The code points with that property. */
  predicate IsWhite(c: nat) {
    0x9 <= c <= 0xD || c == 0x20 || c == 0x85 || c == 0xA0 || c == 0x1680 || 0x2000 <= c <= 0x200A ||
    c == 0x2028 || c == 0x2029 || c == 0x202F || c == 0x205F || c == 0x3000
  }

  type White = c: Scalar | IsWhite(c) witness 0x20

  function EncodeAll(cs: seq<White>): Str {
    if cs == [] then [] else Encode(cs[0]) + EncodeAll(cs[1..])
  }

  /** The text is a sequence of white-space characters. */
  ghost predicate WhiteOnly(s: Str) {
    exists cs: seq<White> :: EncodeAll(cs) == s
  }

  /** The white-space character at the start of a text. */
  lemma LeadingCharacter(s: Str) returns (c: White)
    requires LeadingWhitespace(s) > 0
    ensures Encode(c) == s[..LeadingWhitespace(s)]
  {
    var n := LeadingWhitespace(s);
    if n == 1 {
      c := s[0] as int;
    } else if n == 2 {
      c := s[1] as int;
    } else if s[0] as int == 0xE2 && s[1] as int == 0x80 {
      c := 0x2000 + (s[2] as int - 0x80);
    } else {
      c := if s[0] as int == 0xE1 then 0x1680 else if s[0] as int == 0xE2 then 0x205F else 0x3000;
    }
    assert s[..n] == Encode(c);
  }

  lemma WhiteLeads(c: White, rest: Str)
    ensures LeadingWhitespace(Encode(c) + rest) == |Encode(c)|
  {
    var s := Encode(c) + rest;
    assert IsWhite(c);
    assert forall i :: 0 <= i < |Encode(c)| ==> s[i] == Encode(c)[i];
  }

  lemma EncodeOneMore(c: White, cs: seq<White>)
    ensures EncodeAll([c] + cs) == Encode(c) + EncodeAll(cs)
  {
    assert ([c] + cs)[1..] == cs;
  }

  lemma CutAt(s: Str, n: nat)
    requires n <= |s|
    ensures s == s[..n] + s[n..]
  {
  }

  lemma {:induction false} BlankIsWhite(s: Str)
    requires Blank(s)
    ensures WhiteOnly(s)
  {
    var none: seq<White> := [];
    if s == [] {
      assert EncodeAll(none) == s;
    } else {
      var n := LeadingWhitespace(s);
      BlankIsWhite(s[n..]);
      var c := LeadingCharacter(s);
      var cs: seq<White> :| EncodeAll(cs) == s[n..];
      EncodeOneMore(c, cs);
      CutAt(s, n);
    }
  }

  lemma {:induction false} WhiteIsBlank(cs: seq<White>)
    ensures Blank(EncodeAll(cs))
  {
    if cs != [] {
      var s, n := EncodeAll(cs), |Encode(cs[0])|;
      WhiteLeads(cs[0], EncodeAll(cs[1..]));
      WhiteIsBlank(cs[1..]);
      assert s[n..] == EncodeAll(cs[1..]);
    }
  }

  /** Trimming a text leaves nothing exactly when it is a sequence of white-space characters. */
  lemma BlankExactly(s: Str)
    ensures Blank(s) <==> WhiteOnly(s)
  {
    if Blank(s) { BlankIsWhite(s); }
    if WhiteOnly(s) {
      var cs: seq<White> :| EncodeAll(cs) == s;
      WhiteIsBlank(cs);
    }
  }

  /** The white-space characters of ASCII. */
  predicate AsciiWhite(b: Byte) {
    b == ' ' || 0x9 <= b as int <= 0xD
  }

  lemma {:induction false} AsciiInWhite(cs: seq<White>, i: nat)
    requires i < |EncodeAll(cs)| && EncodeAll(cs)[i] as int < 0x80
    ensures AsciiWhite(EncodeAll(cs)[i])
  {
    var head, rest := Encode(cs[0]), EncodeAll(cs[1..]);
    if i >= |head| {
      assert (head + rest)[i] == rest[i - |head|];
      AsciiInWhite(cs[1..], i - |head|);
    } else {
      assert (head + rest)[i] == head[i];
    }
  }

  /** One byte of ASCII that is no white space is enough to make a text visible. */
  lemma VisibleByte(s: Str, i: nat)
    requires i < |s| && s[i] as int < 0x80 && !AsciiWhite(s[i])
    ensures !WhiteOnly(s)
  {
    if WhiteOnly(s) {
      var cs: seq<White> :| EncodeAll(cs) == s;
      AsciiInWhite(cs, i);
    }
  }

  /** Texts of spaces, tabs and line ends are white space only. */
  lemma {:induction false} SpacesOnly(s: Str)
    requires forall i :: 0 <= i < |s| ==> AsciiWhite(s[i])
    ensures WhiteOnly(s)
  {
    BlankOfSpaces(s);
    BlankExactly(s);
  }

  lemma {:induction false} BlankOfSpaces(s: Str)
    requires forall i :: 0 <= i < |s| ==> AsciiWhite(s[i])
    ensures Blank(s)
  {
    if s != [] { BlankOfSpaces(s[1..]); }
  }

  /** A task counts as running exactly when it has a worker, or a command with more to it than white space. */
  lemma CountsExactly(d: TaskDefinition)
    ensures d.CountsInProgress() <==> d.worker.Some? || (d.command.Some? && !WhiteOnly(d.command.value))
  {
    if d.command.Some? { BlankExactly(d.command.value); }
  }
}
