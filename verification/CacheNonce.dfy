/** The cache nonce: four optional values in one string, and the decoder that recovers them. */
module CacheNonce {
  import opened Basics
  import opened Tasks

  // ---------------------------------------------------------------- percent encoding

  /** Controls, the two delimiters, the percent sign, and every byte outside ASCII. */
  predicate MustEscape(c: Byte) {
    c < ' ' || c as int >= 0x7F || c == '%' || c == '&' || c == '='
  }

  function HexDigit(n: nat): Byte
    requires n < 16
  {
    "0123456789ABCDEF"[n]
  }

  function EncodeByte(c: Byte): Str {
    if MustEscape(c) then ['%', HexDigit(c as int / 16), HexDigit(c as int % 16)] else [c]
  }

  function PercentEncode(s: Str): Str {
    if s == [] then [] else EncodeByte(s[0]) + PercentEncode(s[1..])
  }

  function HexValue(c: Byte): (n: nat)
    ensures n < 16
  {
    if '0' <= c <= '9' then c as int - '0' as int
    else if 'A' <= c <= 'F' then c as int - 'A' as int + 10
    else 0
  }

  /** Undoes percent-encoding, section 2.1 of RFC 3986. */
  function PercentDecode(s: Str): Str {
    if s == [] then []
    else if s[0] == '%' && |s| >= 3 then [(16 * HexValue(s[1]) + HexValue(s[2])) as char] + PercentDecode(s[3..])
    else [s[0]] + PercentDecode(s[1..])
  }

  lemma HexRoundTrip(n: nat)
    requires n < 16
    ensures HexValue(HexDigit(n)) == n
  {
  }

  lemma {:induction false} PercentRoundTrip(s: Str)
    ensures PercentDecode(PercentEncode(s)) == s
  {
    if s != [] {
      var c, rest := s[0], PercentEncode(s[1..]);
      var e := EncodeByte(c) + rest;
      PercentRoundTrip(s[1..]);
      if MustEscape(c) {
        HexRoundTrip(c as int / 16);
        HexRoundTrip(c as int % 16);
        assert e[0] == '%' && e[1] == HexDigit(c as int / 16) && e[2] == HexDigit(c as int % 16) && e[3..] == rest;
        assert 16 * (c as int / 16) + c as int % 16 == c as int;
      } else {
        assert e[0] == c && e[1..] == rest;
      }
    }
  }

  /** Exactly the texts of printable ASCII without the three special characters are encoded as themselves. */
  lemma {:induction false} EncodedAsItself(s: Str)
    ensures PercentEncode(s) == s <==>
            forall c :: c in s ==> ' ' <= c <= '~' && c != '%' && c != '&' && c != '='
    ensures |PercentEncode(s)| >= |s|
  {
    if s != [] {
      var c, rest := s[0], s[1..];
      EncodedAsItself(rest);
      assert s == [c] + rest && forall x :: x in s <==> x == c || x in rest;
      assert PercentEncode(s) == EncodeByte(c) + PercentEncode(rest);
      assert c in s && (MustEscape(c) <==> !(' ' <= c <= '~' && c != '%' && c != '&' && c != '='));
      if !MustEscape(c) {
        assert PercentEncode(s)[1..] == PercentEncode(rest);
        assert PercentEncode(s) == s <==> PercentEncode(rest) == rest;
      }
    }
  }

  lemma HexDigitsAreNoDelimiters(n: nat)
    requires n < 16
    ensures HexDigit(n) != '&' && HexDigit(n) != '='
  {
  }

  lemma {:induction false} EncodedHasNoDelimiters(s: Str)
    ensures '&' !in PercentEncode(s) && '=' !in PercentEncode(s)
  {
    if s != [] {
      EncodedHasNoDelimiters(s[1..]);
      HexDigitsAreNoDelimiters(s[0] as int / 16);
      HexDigitsAreNoDelimiters(s[0] as int % 16);
      assert '&' !in EncodeByte(s[0]) && '=' !in EncodeByte(s[0]);
    }
  }

  // ---------------------------------------------------------------- joining and splitting

  function Join(parts: seq<Str>): Str
    requires parts != []
  {
    if |parts| == 1 then parts[0] else parts[0] + "&" + Join(parts[1..])
  }

  function Split(s: Str): seq<Str>
    decreases |s|
  {
    var i := IndexOf(s, '&');
    if i == |s| then [s] else [s[..i]] + Split(s[i + 1..])
  }

  lemma {:induction false} SplitJoin(parts: seq<Str>)
    requires parts != [] && forall i :: 0 <= i < |parts| ==> '&' !in parts[i]
    ensures Split(Join(parts)) == parts
  {
    var s := Join(parts);
    if |parts| == 1 {
      assert IndexOf(s, '&') == |s|;
    } else {
      SplitJoin(parts[1..]);
      var rest: Str := "&" + Join(parts[1..]);
      assert s == parts[0] + rest;
      IndexOfConcat(parts[0], rest, '&');
      assert s[..|parts[0]|] == parts[0] && s[|parts[0]| + 1..] == Join(parts[1..]);
    }
  }

  // ---------------------------------------------------------------- the nonce

  type Source = (Str, Option<Str>)

  function Part(key: Str, value: Str): Str {
    key + "=" + PercentEncode(value)
  }

  /** One part per source that has a value. */
  function Parts(sources: seq<Source>): seq<Str> {
    if sources == [] then []
    else
      var init, last := Parts(sources[..|sources| - 1]), sources[|sources| - 1];
      if last.1.None? then init else init + [Part(last.0, last.1.value)]
  }

  function Sources(env: Option<Str>, global: Option<Str>, worker: Option<Str>, task: Option<Str>): seq<Source> {
    [("env", env), ("global", global), ("worker", worker), ("task", task)]
  }

  function Nonce(sources: seq<Source>): Option<Str> {
    if Parts(sources) == [] then None else Some(Join(Parts(sources)))
  }

  method ResolveCacheNonce(env: Option<Str>, global: Option<Str>, worker: Option<Str>, task: Option<Str>)
    returns (nonce: Option<Str>)
    ensures nonce == Nonce(Sources(env, global, worker, task))
  {
    var sources := Sources(env, global, worker, task);
    var parts: seq<Str> := [];
    for i := 0 to |sources|
      invariant parts == Parts(sources[..i])
    {
      assert sources[..i + 1][..i] == sources[..i];
      if sources[i].1.Some? { parts := parts + [Part(sources[i].0, sources[i].1.value)]; }
    }
    assert sources[..|sources|] == sources;
    nonce := if parts == [] then None else Some(Join(parts));
  }

  /** The value under a key: the decoded text behind the first `=` of the last part with that key. */
  function Find(parts: seq<Str>, key: Str): Option<Str> {
    if parts == [] then None
    else
      var part := parts[|parts| - 1];
      var i := IndexOf(part, '=');
      if i < |part| && part[..i] == key then Some(PercentDecode(part[i + 1..])) else Find(parts[..|parts| - 1], key)
  }

  function DecodeNonce(nonce: Option<Str>, key: Str): Option<Str> {
    if nonce.None? then None else Find(Split(nonce.value), key)
  }

  ghost predicate KeysOk(sources: seq<Source>) {
    (forall i :: 0 <= i < |sources| ==> '=' !in sources[i].0 && '&' !in sources[i].0) &&
    (forall i, j :: 0 <= i < j < |sources| ==> sources[i].0 != sources[j].0)
  }

  lemma PartReadsBack(key: Str, value: Str)
    requires '=' !in key
    ensures
      var part := Part(key, value);
      IndexOf(part, '=') == |key| < |part| && part[..|key|] == key && part[|key| + 1..] == PercentEncode(value)
  {
    var rest: Str := "=" + PercentEncode(value);
    assert Part(key, value) == key + rest;
    IndexOfConcat(key, rest, '=');
  }

  lemma FindStep(sources: seq<Source>, key: Str)
    requires sources != [] && '=' !in sources[|sources| - 1].0
    ensures
      var last := sources[|sources| - 1];
      Find(Parts(sources), key) ==
        if last.1.Some? && last.0 == key then last.1 else Find(Parts(sources[..|sources| - 1]), key)
  {
    var init, last := Parts(sources[..|sources| - 1]), sources[|sources| - 1];
    if last.1.Some? {
      PartReadsBack(last.0, last.1.value);
      PercentRoundTrip(last.1.value);
      assert (init + [Part(last.0, last.1.value)])[..|init|] == init;
    }
  }

  lemma {:induction false} FindInParts(sources: seq<Source>, i: nat)
    requires KeysOk(sources) && i < |sources|
    ensures Find(Parts(sources), sources[i].0) == sources[i].1
  {
    var init := sources[..|sources| - 1];
    FindStep(sources, sources[i].0);
    if i < |init| { FindInParts(init, i); } else { FindNone(init, sources[i].0); }
  }

  lemma {:induction false} FindNone(sources: seq<Source>, key: Str)
    requires KeysOk(sources) && forall i :: 0 <= i < |sources| ==> sources[i].0 != key
    ensures Find(Parts(sources), key) == None
  {
    if sources != [] {
      FindStep(sources, key);
      FindNone(sources[..|sources| - 1], key);
    }
  }

  lemma {:induction false} PartsHaveNoDelimiter(sources: seq<Source>)
    requires KeysOk(sources)
    ensures forall i :: 0 <= i < |Parts(sources)| ==> '&' !in Parts(sources)[i]
  {
    if sources != [] {
      var last := sources[|sources| - 1];
      PartsHaveNoDelimiter(sources[..|sources| - 1]);
      if last.1.Some? { EncodedHasNoDelimiters(last.1.value); }
    }
  }

  lemma DecodeSource(sources: seq<Source>, i: nat)
    requires KeysOk(sources) && i < |sources|
    ensures DecodeNonce(Nonce(sources), sources[i].0) == sources[i].1
  {
    FindInParts(sources, i);
    PartsHaveNoDelimiter(sources);
    if Parts(sources) != [] { SplitJoin(Parts(sources)); }
  }

  /** The decoder recovers all four values, an absent one as absent and an empty one as empty. */
  lemma NonceRoundTrip(env: Option<Str>, global: Option<Str>, worker: Option<Str>, task: Option<Str>)
    ensures
      var nonce := Nonce(Sources(env, global, worker, task));
      DecodeNonce(nonce, "env") == env && DecodeNonce(nonce, "global") == global &&
      DecodeNonce(nonce, "worker") == worker && DecodeNonce(nonce, "task") == task
  {
    var s := Sources(env, global, worker, task);
    KeysAreOk(s);
    DecodeSource(s, 0);
    DecodeSource(s, 1);
    DecodeSource(s, 2);
    DecodeSource(s, 3);
  }

  lemma KeysAreOk(s: seq<Source>)
    requires |s| == 4 && s[0].0 == "env" && s[1].0 == "global" && s[2].0 == "worker" && s[3].0 == "task"
    ensures KeysOk(s)
  {
    assert |s[0].0| == 3 && |s[1].0| == 6 && |s[2].0| == 6 && |s[3].0| == 4;
    assert s[1].0[0] == 'g' && s[2].0[0] == 'w';
  }

  /** Hence different quadruples of nonces never share a cache key. */
  lemma NonceInjective(e: Option<Str>, g: Option<Str>, w: Option<Str>, t: Option<Str>,
                       e': Option<Str>, g': Option<Str>, w': Option<Str>, t': Option<Str>)
    ensures Nonce(Sources(e, g, w, t)) == Nonce(Sources(e', g', w', t')) <==> e == e' && g == g' && w == w' && t == t'
  {
    NonceRoundTrip(e, g, w, t);
    NonceRoundTrip(e', g', w', t');
  }

  function Written(key: Str, value: Option<Str>): seq<Str> {
    if value.None? then [] else [key + "=" + PercentEncode(value.value)]
  }

  /** The text itself: what is present of the four, in this order, between ampersands. */
  lemma NonceText(env: Option<Str>, global: Option<Str>, worker: Option<Str>, task: Option<Str>)
    ensures
      var nonce := Nonce(Sources(env, global, worker, task));
      var parts := Written("env", env) + Written("global", global) + Written("worker", worker) + Written("task", task);
      if nonce.None? then parts == [] else Split(nonce.value) == parts
  {
    var s := Sources(env, global, worker, task);
    var one: seq<Source>, two: seq<Source>, three: seq<Source> := s[..1], s[..2], s[..3];
    assert one[..0] == [] && two[..1] == one && three[..2] == two && s[..3] == three;
    assert Parts(one) == Written("env", env);
    assert Parts(two) == Written("env", env) + Written("global", global);
    assert Parts(three) == Written("env", env) + Written("global", global) + Written("worker", worker);
    KeysAreOk(s);
    PartsHaveNoDelimiter(s);
    if Parts(s) != [] { SplitJoin(Parts(s)); }
  }
}
