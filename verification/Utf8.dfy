/** Well-formed UTF-8, section 4 of RFC 3629. */
module Utf8 {
  import opened Basics

  predicate Within(c: Byte, low: int, high: int) {
    low <= c as int <= high
  }

  predicate IsTail(c: Byte) {
    Within(c, 0x80, 0xBF)
  }

  predicate Two(s: Str) {
    |s| >= 2 && Within(s[0], 0xC2, 0xDF) && IsTail(s[1])
  }

  predicate Three(s: Str) {
    |s| >= 3 && IsTail(s[2]) &&
    ((s[0] as int == 0xE0 && Within(s[1], 0xA0, 0xBF)) ||
     (Within(s[0], 0xE1, 0xEC) && IsTail(s[1])) ||
     (s[0] as int == 0xED && Within(s[1], 0x80, 0x9F)) ||
     (Within(s[0], 0xEE, 0xEF) && IsTail(s[1])))
  }

  predicate Four(s: Str) {
    |s| >= 4 && IsTail(s[2]) && IsTail(s[3]) &&
    ((s[0] as int == 0xF0 && Within(s[1], 0x90, 0xBF)) ||
     (Within(s[0], 0xF1, 0xF3) && IsTail(s[1])) ||
     (s[0] as int == 0xF4 && Within(s[1], 0x80, 0x8F)))
  }

  /** Length of the character that starts a text, 0 when none does. */
  function CharLength(s: Str): (n: nat)
    ensures n <= |s|
  {
    if |s| >= 1 && s[0] as int <= 0x7F then 1
    else if Two(s) then 2
    else if Three(s) then 3
    else if Four(s) then 4
    else 0
  }

  predicate Valid(s: Str) {
    s == [] || (CharLength(s) > 0 && Valid(s[CharLength(s)..]))
  }

  /** The positions at which a text may be cut, as `is_char_boundary` tells them. */
  predicate Boundary(s: Str, i: nat) {
    i == 0 || i == |s| || (i < |s| && !IsTail(s[i]))
  }

  lemma FirstOfConcat(a: Str, b: Str)
    requires CharLength(a) > 0
    ensures CharLength(a + b) == CharLength(a) && (a + b)[CharLength(a)..] == a[CharLength(a)..] + b
  {
  }

  lemma {:induction false} ValidConcat(a: Str, b: Str)
    requires Valid(a) && Valid(b)
    ensures Valid(a + b)
  {
    if a == [] {
      assert a + b == b;
    } else {
      FirstOfConcat(a, b);
      ValidConcat(a[CharLength(a)..], b);
    }
  }

  /** A boundary inside a text does not fall into its first character. */
  lemma FirstCharacter(s: Str, i: nat)
    requires Valid(s) && 0 < i < |s| && Boundary(s, i)
    ensures 0 < CharLength(s) <= i && CharLength(s[..i]) == CharLength(s)
  {
    assert forall k :: 0 < k < CharLength(s) ==> IsTail(s[k]);
  }

  lemma CutTwice(s: Str, n: nat, i: nat)
    requires n <= i <= |s|
    ensures s[n..][i - n..] == s[i..] && s[n..][..i - n] == s[..i][n..]
  {
    assert s[n..][..i - n] == s[n..i];
    assert s[..i][n..] == s[n..i];
  }

  lemma {:induction false} ValidCut(s: Str, i: nat)
    requires Valid(s) && Boundary(s, i)
    ensures i <= |s| && Valid(s[..i]) && Valid(s[i..])
  {
    if 0 < i < |s| {
      var n := CharLength(s);
      FirstCharacter(s, i);
      ValidCut(s[n..], i - n);
      CutTwice(s, n, i);
    } else {
      assert s[0..] == s && s[..|s|] == s;
    }
  }

  /** A slice of valid text between two boundaries is valid. */
  lemma ValidSlice(s: Str, i: nat, j: nat)
    requires Valid(s) && i <= j && Boundary(s, i) && Boundary(s, j)
    ensures j <= |s| && Valid(s[i..j])
  {
    ValidCut(s, j);
    assert Boundary(s[..j], i);
    ValidCut(s[..j], i);
    assert s[..j][i..] == s[i..j];
  }

  /** A position is a boundary exactly when both parts of the text are valid. */
  lemma BoundaryExactly(s: Str, i: nat)
    requires Valid(s) && i <= |s|
    ensures Boundary(s, i) <==> Valid(s[..i]) && Valid(s[i..])
  {
    if Boundary(s, i) { ValidCut(s, i); }
    if 0 < i < |s| && Valid(s[i..]) { assert s[i..][0] == s[i] && CharLength(s[i..]) > 0; }
  }

  // ---------------------------------------------------------------- the characters written

  /** A Unicode scalar value. */
  type Scalar = c: nat | c < 0xD800 || 0xE000 <= c < 0x110000 witness 0

  /** A scalar value as UTF-8 writes it, section 3 of RFC 3629. */
  function Encode(c: Scalar): (s: Str)
    ensures s != []
  {
    if c < 0x80 then [c as char]
    else if c < 0x800 then [(0xC0 + c / 64) as char, Tail(c)]
    else if c < 0x10000 then [(0xE0 + c / 4096) as char, Tail(c / 64), Tail(c)]
    else [(0xF0 + c / 262144) as char, Tail(c / 4096), Tail(c / 64), Tail(c)]
  }

  /** A byte that carries the last six bits of a number. */
  function Tail(n: nat): (c: Byte)
    ensures IsTail(c)
  {
    (0x80 + n % 64) as char
  }

  function EncodeText(cs: seq<Scalar>): Str {
    if cs == [] then [] else Encode(cs[0]) + EncodeText(cs[1..])
  }

  lemma EncodedLength(c: Scalar)
    ensures CharLength(Encode(c)) == |Encode(c)|
  {
    if 0x800 <= c < 0x10000 { ThreeBytes(c); }
    if 0x10000 <= c { FourBytes(c); }
  }

  lemma ThreeBytes(c: Scalar)
    requires 0x800 <= c < 0x10000
    ensures Three(Encode(c))
  {
    var high := c / 4096;
    assert Encode(c)[1] as int == 0x80 + c / 64 - 64 * high;
  }

  lemma FourBytes(c: Scalar)
    requires 0x10000 <= c
    ensures Four(Encode(c))
  {
    var high := c / 262144;
    assert Encode(c)[1] as int == 0x80 + c / 4096 - 64 * high;
  }

  /** The six bits that a tail carries. */
  function Bits(c: Byte): nat
    requires IsTail(c)
  {
    c as int - 0x80
  }

  lemma TailBits(c: Byte, n: nat)
    requires IsTail(c) && n % 64 == Bits(c)
    ensures Tail(n) == c
  {
  }

  lemma TwoScalar(s: Str) returns (c: Scalar)
    requires Two(s)
    ensures Encode(c) == [s[0], s[1]]
  {
    c := 64 * (s[0] as int - 0xC0) + Bits(s[1]);
    assert c / 64 == s[0] as int - 0xC0;
    TailBits(s[1], c);
  }

  lemma ThreeScalar(s: Str) returns (c: Scalar)
    requires Three(s)
    ensures Encode(c) == [s[0], s[1], s[2]]
  {
    var front := 64 * (s[0] as int - 0xE0) + Bits(s[1]);
    c := 64 * front + Bits(s[2]);
    assert c / 64 == front && c / 4096 == front / 64 == s[0] as int - 0xE0;
    TailBits(s[1], c / 64);
    TailBits(s[2], c);
  }

  lemma FourScalar(s: Str) returns (c: Scalar)
    requires Four(s)
    ensures Encode(c) == [s[0], s[1], s[2], s[3]]
  {
    var front := 64 * (s[0] as int - 0xF0) + Bits(s[1]);
    var middle := 64 * front + Bits(s[2]);
    c := 64 * middle + Bits(s[3]);
    assert c / 64 == middle && c / 4096 == middle / 64 == front && c / 262144 == front / 64 == s[0] as int - 0xF0;
    TailBits(s[1], c / 4096);
    TailBits(s[2], c / 64);
    TailBits(s[3], c);
  }

  /** The scalar value at the start of a text. */
  lemma FirstScalar(s: Str) returns (c: Scalar)
    requires CharLength(s) > 0
    ensures Encode(c) == s[..CharLength(s)]
  {
    if s[0] as int <= 0x7F {
      c := s[0] as int;
    } else if Two(s) {
      c := TwoScalar(s);
    } else if Three(s) {
      c := ThreeScalar(s);
    } else {
      c := FourScalar(s);
    }
  }

  lemma {:induction false} EncodedIsValid(cs: seq<Scalar>)
    ensures Valid(EncodeText(cs))
  {
    if cs != [] {
      var first, rest := Encode(cs[0]), EncodeText(cs[1..]);
      EncodedLength(cs[0]);
      FirstOfConcat(first, rest);
      EncodedIsValid(cs[1..]);
      assert first[|first|..] + rest == rest;
    }
  }

  lemma {:induction false} ValidIsEncoded(s: Str) returns (cs: seq<Scalar>)
    requires Valid(s)
    ensures EncodeText(cs) == s
  {
    if s == [] {
      cs := [];
    } else {
      var n := CharLength(s);
      var c := FirstScalar(s);
      var rest := ValidIsEncoded(s[n..]);
      cs := [c] + rest;
      assert cs[1..] == rest && s == s[..n] + s[n..];
    }
  }

  /** The valid texts are exactly those that write a sequence of scalar values. */
  lemma ValidExactly(s: Str)
    ensures Valid(s) <==> exists cs: seq<Scalar> :: EncodeText(cs) == s
  {
    if Valid(s) { var cs := ValidIsEncoded(s); }
    if cs: seq<Scalar> :| EncodeText(cs) == s { EncodedIsValid(cs); }
  }
}
