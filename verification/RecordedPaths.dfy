/** The text under which a path is recorded: bytes that are no UTF-8 replaced, backslashes turned into slashes. */
module RecordedPaths {
  import opened Basics
  import opened Utf8

  /** U+FFFD, the replacement character. */
  const Replacement: Str := ['\U{EF}', '\U{BF}', '\U{BD}']

  /** How many bytes of a text that starts with no character belong to one broken character. */
  function BrokenLength(s: Str): (n: nat)
    requires s != []
    ensures 1 <= n <= |s|
  {
    if |s| >= 2 && Three(s[..2] + ['\U{80}']) then 2
    else if |s| >= 3 && Four(s[..3] + ['\U{80}']) then 3
    else if |s| >= 2 && Four(s[..2] + ['\U{80}', '\U{80}']) then 2
    else 1
  }

  function StepLength(s: Str): (n: nat)
    requires s != []
    ensures 1 <= n <= |s|
  {
    if CharLength(s) > 0 then CharLength(s) else BrokenLength(s)
  }

  /** `to_string_lossy`: each broken character becomes the replacement character. */
  function Lossy(s: Str): Str {
    if s == [] then []
    else (if CharLength(s) > 0 then s[..CharLength(s)] else Replacement) + Lossy(s[StepLength(s)..])
  }

  function Slashed(s: Str): (r: Str)
    ensures |r| == |s|
    ensures forall i :: 0 <= i < |r| ==> r[i] == if s[i] == '\\' then '/' else s[i]
  {
    if s == [] then [] else [if s[0] == '\\' then '/' else s[0]] + Slashed(s[1..])
  }

  function Recorded(path: Str): Str {
    Slashed(Lossy(path))
  }

  lemma {:induction false} LossyOfValid(s: Str)
    requires Valid(s)
    ensures Lossy(s) == s
  {
    if s != [] { LossyOfValid(s[CharLength(s)..]); }
  }

  /** Valid text without backslashes is recorded as it stands. */
  lemma RecordedPlain(s: Str)
    requires Valid(s) && '\\' !in s
    ensures Recorded(s) == s
  {
    LossyOfValid(s);
  }

  lemma SlashedConcat(a: Str, b: Str)
    ensures Slashed(a + b) == Slashed(a) + Slashed(b)
  {
  }

  /** Texts that differ in one place, and there in a separator only, are cut at the same places. */
  lemma SameStep(x: Str, y: Str)
    ensures StepLength(x + "\\" + y) == StepLength(x + "/" + y)
    ensures CharLength(x + "\\" + y) == CharLength(x + "/" + y)
    ensures StepLength(x + "/" + y) <= |x| || x == []
  {
  }

  lemma RecordedStep(s: Str)
    requires s != []
    ensures
      var head := if CharLength(s) > 0 then s[..CharLength(s)] else Replacement;
      Recorded(s) == Slashed(head) + Recorded(s[StepLength(s)..])
  {
    var head := if CharLength(s) > 0 then s[..CharLength(s)] else Replacement;
    SlashedConcat(head, Lossy(s[StepLength(s)..]));
  }

  lemma CutBefore(x: Str, sep: Str, y: Str, n: nat)
    requires n <= |x|
    ensures (x + sep + y)[n..] == x[n..] + sep + y && (x + sep + y)[..n] == x[..n]
  {
  }

  /** Two names that differ in a slash and a backslash are recorded alike, whatever stands around them. */
  lemma {:induction false} SeparatorsMerge(x: Str, y: Str)
    ensures Recorded(x + "\\" + y) == Recorded(x + "/" + y)
  {
    SameStep(x, y);
    RecordedStep(x + "\\" + y);
    RecordedStep(x + "/" + y);
    if x == [] {
      SeparatorFirst(y);
    } else {
      var n := StepLength(x + "/" + y);
      CutBefore(x, "\\", y, n);
      CutBefore(x, "/", y, n);
      SeparatorsMerge(x[n..], y);
    }
  }

  lemma SeparatorFirst(y: Str)
    ensures Recorded([] + "\\" + y) == Recorded([] + "/" + y)
  {
    var a: Str, b: Str := [] + "\\" + y, [] + "/" + y;
    assert a[1..] == y == b[1..] && a[..1] == "\\" && b[..1] == "/";
    RecordedStep(a);
    RecordedStep(b);
  }

  /** A byte that is the first of no character: a continuation byte, or one that UTF-8 never uses. */
  predicate StartsNothing(b: Byte) {
    IsTail(b) || Within(b, 0xC0, 0xC1) || Within(b, 0xF5, 0xFF)
  }

  lemma BrokenFirst(b: Byte, y: Str)
    requires StartsNothing(b)
    ensures Lossy([b] + y) == Replacement + Lossy(y)
  {
    assert ([b] + y)[1..] == y;
  }

  /** So are two names that differ in such a byte, behind valid text and in front of anything. */
  lemma {:induction false} BrokenBytesMerge(x: Str, b: Byte, c: Byte, y: Str)
    requires Valid(x) && StartsNothing(b) && StartsNothing(c)
    ensures Recorded(x + [b] + y) == Recorded(x + [c] + y)
  {
    if x == [] {
      assert x + [b] + y == [b] + y && x + [c] + y == [c] + y;
      BrokenFirst(b, y);
      BrokenFirst(c, y);
    } else {
      var n := CharLength(x);
      assert CharLength(x + [b] + y) == n == CharLength(x + [c] + y);
      RecordedStep(x + [b] + y);
      RecordedStep(x + [c] + y);
      CutBefore(x, [b], y, n);
      CutBefore(x, [c], y, n);
      BrokenBytesMerge(x[n..], b, c, y);
    }
  }

  lemma LossyStep(x: Str, y: Str)
    requires CharLength(x) > 0
    ensures Lossy(x + y) == x[..CharLength(x)] + Lossy(x[CharLength(x)..] + y)
  {
    FirstOfConcat(x, y);
    assert (x + y)[..CharLength(x)] == x[..CharLength(x)];
  }

  lemma Rejoin(x: Str, n: nat, tail: Str)
    requires n <= |x|
    ensures x[..n] + (x[n..] + tail) == x + tail
  {
  }

  lemma {:induction false} ValidInFront(x: Str, y: Str)
    requires Valid(x)
    ensures Lossy(x + y) == x + Lossy(y)
  {
    if x == [] {
      assert x + y == y;
    } else {
      var n := CharLength(x);
      ValidInFront(x[n..], y);
      LossyStep(x, y);
      Rejoin(x, n, Lossy(y));
    }
  }

  /** No character goes on with this text. */
  predicate StartsAnew(y: Str) {
    y == [] || !IsTail(y[0])
  }

  lemma CutShort(c: Scalar, n: nat, y: Str)
    requires 0 < n < |Encode(c)| && StartsAnew(y)
    ensures CharLength(Encode(c)[..n] + y) == 0 && BrokenLength(Encode(c)[..n] + y) == n
  {
    var whole, s := Encode(c), Encode(c)[..n] + y;
    EncodedLength(c);
    assert forall i :: 0 <= i < n ==> s[i] == whole[i];
    assert n < |s| ==> s[n] == y[0];
  }

  /** A character cut short becomes one replacement character, however many of its bytes are there. */
  lemma CutShortOnce(x: Str, c: Scalar, n: nat, y: Str)
    requires Valid(x) && 0 < n < |Encode(c)| && StartsAnew(y)
    ensures Lossy(x + (Encode(c)[..n] + y)) == x + (Replacement + Lossy(y))
  {
    var s := Encode(c)[..n] + y;
    ValidInFront(x, s);
    CutShort(c, n, y);
    assert s[n..] == y;
  }

  // ---------------------------------------------------------------- which names are recorded as they stand

  lemma {:induction false} LossyIsValid(s: Str)
    ensures Valid(Lossy(s))
  {
    if s != [] {
      LossyIsValid(s[StepLength(s)..]);
      var head := if CharLength(s) > 0 then s[..CharLength(s)] else Replacement;
      assert CharLength(head) == |head| && head[|head|..] == [];
      ValidConcat(head, Lossy(s[StepLength(s)..]));
    }
  }

  lemma {:induction false} SlashedIsValid(s: Str)
    requires Valid(s)
    ensures Valid(Slashed(s))
  {
    if s != [] {
      var n := CharLength(s);
      assert CharLength(Slashed(s)) == n;
      assert Slashed(s)[n..] == Slashed(s[n..]);
      SlashedIsValid(s[n..]);
    }
  }

  /** Exactly the valid texts without backslashes are recorded as they stand. */
  lemma RecordedAsIs(s: Str)
    ensures Recorded(s) == s <==> Valid(s) && '\\' !in s
  {
    if Valid(s) && '\\' !in s { RecordedPlain(s); }
    LossyIsValid(s);
    SlashedIsValid(Lossy(s));
    assert '\\' !in Recorded(s);
  }
}
