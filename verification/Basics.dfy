/** Bytes, digests, fixed-width integers, and the order in which ordered maps iterate. */
module Basics {
  import opened Sorting

  /** One byte. A Rust string is the sequence of its UTF-8 bytes, so ASCII literals read as text. */
  type Byte = c: char | c as int < 256 witness 'a'
  type Str = seq<Byte>

  /** A BLAKE3 digest. */
  type Digest = d: Str | |d| == 32 witness "00000000000000000000000000000000"

  datatype Option<+T> = None | Some(value: T)
  datatype Result<+T, +E> = Ok(value: T) | Err(error: E)

  const U32Max: nat := 0xFFFF_FFFF
  const U64Max: nat := 0xFFFF_FFFF_FFFF_FFFF

  /** Two streams that are different and still have one digest. */
  predicate Collide(h: Str -> Digest, a: Str, b: Str) {
    a != b && h(a) == h(b)
  }

  /** Little-endian encoding of n in `width` bytes, as `to_le_bytes` writes it. */
  function LittleEndian(n: nat, width: nat): (r: Str)
    ensures |r| == width
  {
    if width == 0 then [] else [(n % 256) as char] + LittleEndian(n / 256, width - 1)
  }

  /** A boolean, or the tag of an option, in one byte. */
  function Flag(b: bool): Str {
    if b then ['\U{1}'] else ['\0']
  }

  function Power256(width: nat): (p: nat)
    ensures p > 0
  {
    if width == 0 then 1 else 256 * Power256(width - 1)
  }

  lemma {:induction false} LittleEndianInjective(m: nat, n: nat, width: nat)
    requires m < Power256(width) && n < Power256(width)
    requires LittleEndian(m, width) == LittleEndian(n, width)
    ensures m == n
  {
    if width > 0 {
      var a, b := LittleEndian(m, width), LittleEndian(n, width);
      assert a[0] == b[0] && a[1..] == LittleEndian(m / 256, width - 1) && b[1..] == LittleEndian(n / 256, width - 1);
      LittleEndianInjective(m / 256, n / 256, width - 1);
    }
  }

  lemma Power256Values()
    ensures Power256(4) == U32Max + 1
    ensures Power256(8) == U64Max + 1
  {
    assert Power256(2) == 65536;
    assert Power256(4) == 65536 * 65536;
    assert Power256(6) == 65536 * 65536 * 65536;
  }

  /** Equal concatenations whose first parts have one length have equal parts. */
  lemma SplitEqual(a: Str, x: Str, b: Str, y: Str)
    requires a + x == b + y && |a| == |b|
    ensures a == b && x == y
  {
    assert a == (a + x)[..|a|] && b == (b + y)[..|b|];
    assert x == (a + x)[|a|..] && y == (b + y)[|b|..];
  }

  lemma Associate<T>(a: seq<T>, b: seq<T>, c: seq<T>)
    ensures a + b + c == a + (b + c)
  {
  }

  /** The same one level down: the first parts of two three-part concatenations. */
  lemma SplitHead(a: Str, b: Str, x: Str, c: Str, d: Str, y: Str)
    requires a + b + x == c + d + y && |a| == |c|
    ensures a == c && b + x == d + y
  {
    assert a + b + x == a + (b + x) && c + d + y == c + (d + y);
    SplitEqual(a, b + x, c, d + y);
  }

  /** A text behind its 64-bit length. */
  function LengthPrefixed(s: Str): Str {
    LittleEndian(|s|, 8) + s
  }

  /** A length-prefixed text can be read off the front of a stream in one way only. */
  lemma LengthPrefixFree(a: Str, x: Str, b: Str, y: Str)
    requires |a| <= U64Max && |b| <= U64Max
    requires LengthPrefixed(a) + x == LengthPrefixed(b) + y
    ensures a == b && x == y
  {
    SplitHead(LittleEndian(|a|, 8), a, x, LittleEndian(|b|, 8), b, y);
    Power256Values();
    LittleEndianInjective(|a|, |b|, 8);
    SplitEqual(a, x, b, y);
  }

  /** Byte-wise lexicographic order, the order of Rust strings. */
  predicate Less(a: Str, b: Str) {
    b != [] && (a == [] || a[0] < b[0] || (a[0] == b[0] && Less(a[1..], b[1..])))
  }

  /** The byte order of texts: a proper prefix comes first, otherwise the first difference decides. */
  lemma {:induction false} LessMeaning(a: Str, b: Str)
    ensures Less(a, b) <==> a < b || exists i :: 0 <= i < |a| && i < |b| && a[..i] == b[..i] && a[i] < b[i]
  {
    if a != [] && b != [] && a[0] == b[0] {
      var x, y := a[1..], b[1..];
      LessMeaning(x, y);
      assert a < b <==> x < y;
      if i :| 0 <= i < |x| && i < |y| && x[..i] == y[..i] && x[i] < y[i] {
        assert a[..i + 1] == [a[0]] + x[..i] && b[..i + 1] == [a[0]] + y[..i];
      }
      if i :| 0 <= i < |a| && i < |b| && a[..i] == b[..i] && a[i] < b[i] {
        assert x[..i - 1] == a[..i][1..] && y[..i - 1] == b[..i][1..];
      }
    } else if a != [] && b != [] {
      assert a[..0] == b[..0];
      forall i | 0 < i < |a| && i < |b| ensures a[..i] != b[..i] { assert a[..i][0] != b[..i][0]; }
    }
  }

  lemma LessTransitive(a: Str, b: Str, c: Str)
    requires Less(a, b) && Less(b, c)
    ensures Less(a, c)
  {
    if a != [] && a[0] == b[0] == c[0] { LessTransitive(a[1..], b[1..], c[1..]); }
  }

  lemma LessTotal(a: Str, b: Str)
    ensures Less(a, b) || a == b || Less(b, a)
    ensures !(Less(a, b) && Less(b, a))
    ensures !Less(a, a)
  {
    if a != [] && b != [] && a[0] == b[0] {
      LessTotal(a[1..], b[1..]);
      assert a == [a[0]] + a[1..] && b == [b[0]] + b[1..];
    }
    if a != [] { LessTotal(a[1..], a[1..]); }
  }

  predicate IsLeast(m: Str, s: set<Str>) {
    m in s && forall x :: x in s ==> x == m || Less(m, x)
  }

  lemma LeastExists(s: set<Str>) returns (m: Str)
    requires s != {}
    ensures IsLeast(m, s)
  {
    var x :| x in s;
    if s == {x} { return x; }
    var n := LeastExists(s - {x});
    LessTotal(x, n);
    m := if Less(x, n) then x else n;
    forall y | y in s ensures y == m || Less(m, y) {
      if y != x && Less(x, n) && y != n { LessTransitive(x, n, y); }
    }
  }

  function Least(s: set<Str>): (m: Str)
    requires s != {}
    ensures IsLeast(m, s)
  {
    assert exists m :: IsLeast(m, s) by { var m := LeastExists(s); assert IsLeast(m, s); }
    assert forall a, b :: IsLeast(a, s) && IsLeast(b, s) ==> a == b by {
      forall a, b | IsLeast(a, s) && IsLeast(b, s) ensures a == b { LessTotal(a, b); }
    }
    var m :| m in s && IsLeast(m, s); m
  }

  lemma SubsetSize<T>(a: set<T>, b: set<T>)
    requires a <= b
    ensures |a| <= |b|
    ensures |a| == |b| ==> a == b
  {
    assert b == a + (b - a) && |b| == |a| + |b - a|;
  }

  ghost function Values<T, K>(r: seq<T>, f: T -> K): set<K> {
    set x | x in r :: f(x)
  }

  lemma {:induction false} DistinctValues<T, K>(r: seq<T>, f: T -> K)
    requires forall i, j :: 0 <= i < j < |r| ==> f(r[i]) != f(r[j])
    ensures |Values(r, f)| == |r|
  {
    if r == [] {
      assert Values(r, f) == {};
    } else {
      var init, last := r[..|r| - 1], r[|r| - 1];
      DistinctValues(init, f);
      assert r == init + [last];
      assert Values(r, f) == Values(init, f) + {f(last)};
    }
  }

  ghost predicate Distinct<T>(s: seq<T>) {
    forall i, j :: 0 <= i < j < |s| ==> s[i] != s[j]
  }

  /** The keys of an ordered map or set, in iteration order. */
  function Ascending(s: set<Str>): (r: seq<Str>) {
    if s == {} then [] else
      var m := Least(s);
      [m] + Ascending(s - {m})
  }

  lemma {:induction false} AscendingIsOrdered(s: set<Str>)
    ensures forall x :: x in Ascending(s) <==> x in s
    ensures StrictlyAscending(Ascending(s))
    ensures |Ascending(s)| == |s|
  {
    if s != {} {
      var m := Least(s);
      AscendingIsOrdered(s - {m});
      LeastFirst(m, Ascending(s - {m}), s);
    }
  }

  lemma LeastFirst(m: Str, rest: seq<Str>, s: set<Str>)
    requires IsLeast(m, s) && StrictlyAscending(rest) && |rest| == |s - {m}| && forall x :: x in rest <==> x in s - {m}
    ensures StrictlyAscending([m] + rest) && |[m] + rest| == |s| && forall x :: x in [m] + rest <==> x in s
  {
    var all := [m] + rest;
    forall i, j | 0 <= i < j < |all| ensures Less(all[i], all[j]) {
      assert all[j] == rest[j - 1] && rest[j - 1] in rest;
      assert i > 0 ==> all[i] == rest[i - 1];
    }
    assert s == (s - {m}) + {m};
    forall x ensures x in all <==> x in s { assert x in all <==> x == m || x in rest; }
  }

  ghost predicate StrictlyAscending(r: seq<Str>) {
    StrictlySorted(Less, r)
  }

  lemma AscendingUnique(a: seq<Str>, b: seq<Str>)
    requires StrictlyAscending(a) && StrictlyAscending(b)
    requires forall x :: x in a <==> x in b
    ensures a == b
  {
    forall x, y | Less(x, y) ensures !Less(y, x) { LessTotal(x, y); }
    StrictlySortedUnique(Less, a, b);
  }

  /** The bindings of an ordered map, in iteration order. */
  function Bindings<V>(m: map<Str, V>): (r: seq<(Str, V)>) {
    BindingsOf(m, Ascending(m.Keys))
  }

  function BindingsOf<V>(m: map<Str, V>, keys: seq<Str>): (r: seq<(Str, V)>)
    ensures |r| <= |keys|
  {
    if keys == [] then []
    else if keys[0] in m then [(keys[0], m[keys[0]])] + BindingsOf(m, keys[1..])
    else BindingsOf(m, keys[1..])
  }

  lemma {:induction false} BindingsOfContents<V>(m: map<Str, V>, keys: seq<Str>, k: Str, v: V)
    ensures (k, v) in BindingsOf(m, keys) <==> k in keys && k in m && m[k] == v
  {
    if keys != [] {
      BindingsOfContents(m, keys[1..], k, v);
      assert k in keys <==> k == keys[0] || k in keys[1..];
    }
  }

  /** The list of bindings is faithful to the map. */
  lemma BindingsContents<V>(m: map<Str, V>, k: Str, v: V)
    ensures (k, v) in Bindings(m) <==> k in m && m[k] == v
  {
    AscendingIsOrdered(m.Keys);
    BindingsOfContents(m, Ascending(m.Keys), k, v);
  }

  lemma BindingsDetermineMap<V>(m: map<Str, V>, n: map<Str, V>)
    requires Bindings(m) == Bindings(n)
    ensures m == n
  {
    forall k ensures k in m <==> k in n {
      if k in m { BindingsContents(m, k, m[k]); BindingsContents(n, k, m[k]); }
      if k in n { BindingsContents(m, k, n[k]); BindingsContents(n, k, n[k]); }
    }
    forall k | k in m ensures m[k] == n[k] {
      BindingsContents(m, k, m[k]);
      BindingsContents(n, k, m[k]);
    }
  }
}
