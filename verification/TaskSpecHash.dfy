/** The byte streams behind the hash of a task definition and the hash of package dependencies. */
module TaskSpecHash {
  import opened Basics
  import opened Tasks
  import opened Sorting

  // ---------------------------------------------------------------- canonical encoding

  function EncodeOption(o: Option<Str>): Str {
    if o.None? then Flag(false) else Flag(true) + LengthPrefixed(o.value)
  }

  function Concat(texts: seq<Str>): Str {
    if texts == [] then [] else LengthPrefixed(texts[0]) + Concat(texts[1..])
  }

  function EncodeTexts(texts: seq<Str>): Str {
    LittleEndian(|texts|, 8) + Concat(texts)
  }

  function ConfigStrings(dependsOn: seq<DependsOn>): (r: seq<Str>)
    ensures |r| == |dependsOn|
    ensures forall i :: 0 <= i < |r| ==> r[i] == dependsOn[i].ConfigString()
  {
    if dependsOn == [] then [] else [dependsOn[0].ConfigString()] + ConfigStrings(dependsOn[1..])
  }

  ghost predicate SizedOption(o: Option<Str>) {
    o.Some? ==> |o.value| <= U64Max
  }

  ghost predicate SizedTexts(texts: seq<Str>) {
    |texts| <= U64Max && forall i :: 0 <= i < |texts| ==> |texts[i]| <= U64Max
  }

  lemma OptionPrefixFree(a: Option<Str>, x: Str, b: Option<Str>, y: Str)
    requires SizedOption(a) && SizedOption(b)
    requires EncodeOption(a) + x == EncodeOption(b) + y
    ensures a == b && x == y
  {
    var u, v := EncodeOption(a) + x, EncodeOption(b) + y;
    assert u[0] == Flag(a.Some?)[0] && v[0] == Flag(b.Some?)[0];
    if a.Some? {
      SplitHead(Flag(true), LengthPrefixed(a.value), x, Flag(true), LengthPrefixed(b.value), y);
      LengthPrefixFree(a.value, x, b.value, y);
    } else {
      SplitEqual(Flag(false), x, Flag(false), y);
    }
  }

  lemma {:induction false} ConcatPrefixFree(a: seq<Str>, x: Str, b: seq<Str>, y: Str)
    requires |a| == |b| && SizedTexts(a) && SizedTexts(b)
    requires Concat(a) + x == Concat(b) + y
    ensures a == b && x == y
  {
    if a != [] {
      var r, s := Concat(a[1..]), Concat(b[1..]);
      Associate(LengthPrefixed(a[0]), r, x);
      Associate(LengthPrefixed(b[0]), s, y);
      LengthPrefixFree(a[0], r + x, b[0], s + y);
      ConcatPrefixFree(a[1..], x, b[1..], y);
      assert a == [a[0]] + a[1..] && b == [b[0]] + b[1..];
    } else {
      assert Concat(a) + x == x && Concat(b) + y == y;
    }
  }

  lemma TextsPrefixFree(a: seq<Str>, x: Str, b: seq<Str>, y: Str)
    requires SizedTexts(a) && SizedTexts(b)
    requires EncodeTexts(a) + x == EncodeTexts(b) + y
    ensures a == b && x == y
  {
    SplitHead(LittleEndian(|a|, 8), Concat(a), x, LittleEndian(|b|, 8), Concat(b), y);
    Power256Values();
    LittleEndianInjective(|a|, |b|, 8);
    ConcatPrefixFree(a, x, b, y);
  }

  /** A struct is encoded field after field, each field in the form of its type. */
  datatype Field = OptionField(o: Option<Str>) | TextsField(texts: seq<Str>) | WordField(n: nat) | BoolField(b: bool) {
    function Encode(): Str {
      match this
      case OptionField(o) => EncodeOption(o)
      case TextsField(texts) => EncodeTexts(texts)
      case WordField(n) => LittleEndian(n, 4)
      case BoolField(b) => Flag(b)
    }

    ghost predicate Sized() {
      match this
      case OptionField(o) => SizedOption(o)
      case TextsField(texts) => SizedTexts(texts)
      case WordField(n) => n <= U32Max
      case BoolField(_) => true
    }

    predicate SameType(f: Field) {
      OptionField? == f.OptionField? && TextsField? == f.TextsField? && WordField? == f.WordField?
    }
  }

  function EncodeFields(fields: seq<Field>): Str {
    if fields == [] then [] else fields[0].Encode() + EncodeFields(fields[1..])
  }

  lemma FieldPrefixFree(f: Field, x: Str, g: Field, y: Str)
    requires f.SameType(g) && f.Sized() && g.Sized()
    requires f.Encode() + x == g.Encode() + y
    ensures f == g && x == y
  {
    match f {
      case OptionField(o) => OptionPrefixFree(o, x, g.o, y);
      case TextsField(texts) => TextsPrefixFree(texts, x, g.texts, y);
      case WordField(n) =>
        SplitEqual(LittleEndian(n, 4), x, LittleEndian(g.n, 4), y);
        Power256Values();
        LittleEndianInjective(n, g.n, 4);
      case BoolField(b) =>
        SplitEqual(Flag(b), x, Flag(g.b), y);
        assert Flag(b)[0] == Flag(g.b)[0];
    }
  }

  /** Field lists of one type can be read off the front of a stream in one way only. */
  lemma {:induction false} FieldsPrefixFree(a: seq<Field>, x: Str, b: seq<Field>, y: Str)
    requires |a| == |b| && forall i :: 0 <= i < |a| ==> a[i].SameType(b[i]) && a[i].Sized() && b[i].Sized()
    requires EncodeFields(a) + x == EncodeFields(b) + y
    ensures a == b && x == y
  {
    if a == [] {
      assert EncodeFields(a) + x == x && EncodeFields(b) + y == y;
    } else {
      var r, s := EncodeFields(a[1..]), EncodeFields(b[1..]);
      Associate(a[0].Encode(), r, x);
      Associate(b[0].Encode(), s, y);
      FieldPrefixFree(a[0], r + x, b[0], s + y);
      FieldsPrefixFree(a[1..], x, b[1..], y);
      assert a == [a[0]] + a[1..] && b == [b[0]] + b[1..];
    }
  }

  // ---------------------------------------------------------------- the task specification

  const CacheFilesTag: Str := "luchta-cache:task-spec-cache-files:v1"
  const ToolVersionTag: Str := "luchta-cache:task-spec-tool-version:v1"

  /** Everything of a definition that its specification hash depends on. */
  datatype Spec = Spec(
    command: Option<Str>,
    worker: Option<Str>,
    weight: nat,
    dependsOn: seq<Str>,
    cacheEnabled: bool,
    inputs: seq<Str>,
    outputs: seq<Str>,
    nonce: Option<Str>,
    cacheFiles: seq<Str>,
    toolVersion: Option<Str>)
  {
    /** The fields of the serialized struct, in order; the last two of the above stay outside. */
    function CoreFields(): seq<Field> {
      [OptionField(command), OptionField(worker), WordField(weight), TextsField(dependsOn), BoolField(cacheEnabled),
       TextsField(inputs), TextsField(outputs), OptionField(nonce)]
    }

    function Core(): Str {
      EncodeFields(CoreFields())
    }

    /** Values that fit in memory. */
    ghost predicate Sized() {
      (forall i :: 0 <= i < 8 ==> CoreFields()[i].Sized()) && SizedTexts(cacheFiles) && SizedOption(toolVersion) &&
      |Core()| <= U64Max && |EncodeTexts(cacheFiles)| <= U64Max
    }
  }

  function SpecOf(d: TaskDefinition, nonce: Option<Str>): Spec {
    Spec(d.command, d.worker, d.weight, ConfigStrings(d.dependsOn), d.cacheEnabled, d.inputs, d.outputs, nonce,
         d.cacheFiles, d.toolVersion)
  }

  function ToolVersionPart(version: Option<Str>): Str {
    if version.None? then [] else ToolVersionTag + LengthPrefixed(version.value)
  }

  function CacheFilesPart(core: Str, cacheFiles: Str): Str {
    CacheFilesTag + (LengthPrefixed(core) + LengthPrefixed(cacheFiles))
  }

  /** The optional extensions stay outside the struct, so that older keys survive without them. */
  function SpecStream(s: Spec): Str {
    (if s.cacheFiles == [] then s.Core() else CacheFilesPart(s.Core(), EncodeTexts(s.cacheFiles))) +
    ToolVersionPart(s.toolVersion)
  }

  /** Feeding the hasher piece by piece, with the early return for the form without extensions. */
  method TaskSpecDigest(h: Str -> Digest, d: TaskDefinition, nonce: Option<Str>) returns (digest: Digest)
    ensures digest == h(SpecStream(SpecOf(d, nonce)))
  {
    var s := SpecOf(d, nonce);
    var bytes := s.Core();
    if d.cacheFiles == [] && d.toolVersion.None? {
      assert SpecStream(s) == bytes;
      return h(bytes);
    }
    var fed := bytes;
    if d.cacheFiles != [] {
      var cacheFiles := EncodeTexts(d.cacheFiles);
      fed := CacheFilesTag;
      fed := fed + LengthPrefixed(bytes);
      fed := fed + LengthPrefixed(cacheFiles);
      assert fed == CacheFilesPart(bytes, cacheFiles);
    }
    fed := fed + ToolVersionPart(d.toolVersion);
    digest := h(fed);
  }

  lemma ToolVersionInjective(a: Option<Str>, b: Option<Str>)
    requires SizedOption(a) && SizedOption(b) && ToolVersionPart(a) == ToolVersionPart(b)
    ensures a == b
  {
    assert a.Some? ==> |ToolVersionPart(a)| > 0;
    assert b.Some? ==> |ToolVersionPart(b)| > 0;
    if a.Some? && b.Some? {
      SplitEqual(ToolVersionTag, LengthPrefixed(a.value), ToolVersionTag, LengthPrefixed(b.value));
      assert LengthPrefixed(a.value) + [] == LengthPrefixed(b.value) + [];
      LengthPrefixFree(a.value, [], b.value, []);
    }
  }

  lemma CacheFilesPartPrefixFree(c: Str, e: Str, p: Str, d: Str, f: Str, q: Str)
    requires |c| <= U64Max && |d| <= U64Max && |e| <= U64Max && |f| <= U64Max
    requires CacheFilesPart(c, e) + p == CacheFilesPart(d, f) + q
    ensures c == d && e == f && p == q
  {
    var u, v := LengthPrefixed(c) + LengthPrefixed(e), LengthPrefixed(d) + LengthPrefixed(f);
    SplitHead(CacheFilesTag, u, p, CacheFilesTag, v, q);
    assert u + p == LengthPrefixed(c) + (LengthPrefixed(e) + p);
    assert v + q == LengthPrefixed(d) + (LengthPrefixed(f) + q);
    LengthPrefixFree(c, LengthPrefixed(e) + p, d, LengthPrefixed(f) + q);
    LengthPrefixFree(e, p, f, q);
  }

  /** The first byte shows whether cache files were declared. */
  lemma FirstByte(s: Spec)
    ensures |SpecStream(s)| > 0 && (SpecStream(s)[0] == 'l' <==> s.cacheFiles != [])
  {
    if s.cacheFiles == [] {
      assert s.Core() == s.CoreFields()[0].Encode() + EncodeFields(s.CoreFields()[1..]);
      assert SpecStream(s)[0] == EncodeOption(s.command)[0] == Flag(s.command.Some?)[0];
    } else {
      assert SpecStream(s)[0] == CacheFilesTag[0];
    }
  }

  lemma CoreInjective(a: Spec, p: Str, b: Spec, q: Str)
    requires a.Sized() && b.Sized() && a.Core() + p == b.Core() + q
    ensures a.(cacheFiles := b.cacheFiles, toolVersion := b.toolVersion) == b && p == q
  {
    var u, v := a.CoreFields(), b.CoreFields();
    FieldsPrefixFree(u, p, v, q);
    assert u[0] == v[0] && u[1] == v[1] && u[2] == v[2] && u[3] == v[3];
    assert u[4] == v[4] && u[5] == v[5] && u[6] == v[6] && u[7] == v[7];
  }

  /**
   * Two definitions feed the same bytes exactly when they agree on every hashed field, across all
   * four forms of the optional extensions.
   */
  lemma SpecStreamInjective(a: Spec, b: Spec)
    requires a.Sized() && b.Sized()
    ensures SpecStream(a) == SpecStream(b) <==> a == b
  {
    if SpecStream(a) == SpecStream(b) {
      FirstByte(a);
      FirstByte(b);
      var p, q := ToolVersionPart(a.toolVersion), ToolVersionPart(b.toolVersion);
      if a.cacheFiles == [] {
        CoreInjective(a, p, b, q);
      } else {
        var e, f := EncodeTexts(a.cacheFiles), EncodeTexts(b.cacheFiles);
        CacheFilesPartPrefixFree(a.Core(), e, p, b.Core(), f, q);
        assert a.Core() + [] == b.Core() + [] && e + [] == f + [];
        CoreInjective(a, [], b, []);
        TextsPrefixFree(a.cacheFiles, [], b.cacheFiles, []);
      }
      ToolVersionInjective(a.toolVersion, b.toolVersion);
    }
  }

  /** The `dependsOn` entries were parsed from texts. */
  ghost predicate ParsedFrom(dependsOn: seq<DependsOn>, texts: seq<Str>) {
    |dependsOn| == |texts| && forall i :: 0 <= i < |texts| ==> ParseDependsOn(texts[i]) == Some(dependsOn[i])
  }

  /** The same definition, up to the two spellings of a root task. */
  ghost predicate SameDefinition(c: TaskDefinition, d: TaskDefinition) {
    c.(dependsOn := d.dependsOn) == d && |c.dependsOn| == |d.dependsOn| &&
    forall i :: 0 <= i < |c.dependsOn| ==> Alike(c.dependsOn[i], d.dependsOn[i])
  }

  /** Definitions read from configuration feed the same bytes exactly when they are the same up to that spelling. */
  lemma DefinitionsDetermined(c: TaskDefinition, m: Option<Str>, s: seq<Str>, d: TaskDefinition, n: Option<Str>,
                              t: seq<Str>)
    requires SpecOf(c, m).Sized() && SpecOf(d, n).Sized()
    requires ParsedFrom(c.dependsOn, s) && ParsedFrom(d.dependsOn, t)
    ensures SpecStream(SpecOf(c, m)) == SpecStream(SpecOf(d, n)) <==> SameDefinition(c, d) && m == n
  {
    SpecStreamInjective(SpecOf(c, m), SpecOf(d, n));
    var u, v := ConfigStrings(c.dependsOn), ConfigStrings(d.dependsOn);
    if |c.dependsOn| == |d.dependsOn| {
      forall i | 0 <= i < |s| ensures u[i] == v[i] <==> Alike(c.dependsOn[i], d.dependsOn[i]) {
        SerializedAlike(s[i], t[i]);
      }
    }
    if SameDefinition(c, d) { assert u == v; }
  }

  /** An entry that spells out the root package is hashed like the root reference. */
  lemma RootSpellingCollides(task: Str)
    requires task != []
    ensures ParseDependsOn(RootPackage + "#" + task) == Some(Specific(TaskId(RootPackage, task)))
    ensures Specific(TaskId(RootPackage, task)).ConfigString() == Root(task).ConfigString()
  {
    var text: Str := RootPackage + ("#" + task);
    assert text == RootPackage + "#" + task;
    IndexOfConcat(RootPackage, "#" + task, '#');
    assert text[0] == '/' && text[|RootPackage|] == '#';
    assert text[..|RootPackage|] == RootPackage && text[|RootPackage| + 1..] == task;
  }

  // ---------------------------------------------------------------- package dependencies

  type Pair = (Str, Str)

  predicate PairBelow(a: Pair, b: Pair) {
    Less(a.0, b.0) || (a.0 == b.0 && Less(a.1, b.1))
  }

  lemma PairOrder(a: Pair, b: Pair, c: Pair)
    ensures PairBelow(a, b) ==> !PairBelow(b, a)
    ensures !PairBelow(a, b) && !PairBelow(b, c) ==> !PairBelow(a, c)
    ensures !PairBelow(a, b) && !PairBelow(b, a) ==> a == b
  {
    LessTotal(a.0, b.0);
    LessTotal(a.1, b.1);
    LessTotal(b.0, c.0);
    LessTotal(b.1, c.1);
    LessTotal(a.0, c.0);
    LessTotal(a.1, c.1);
    if Less(c.0, b.0) && Less(b.0, a.0) { LessTransitive(c.0, b.0, a.0); }
    if Less(c.1, b.1) && Less(b.1, a.1) { LessTransitive(c.1, b.1, a.1); }
  }

  /** Drops every element equal to its predecessor. */
  function Dedup(s: seq<Pair>): seq<Pair> {
    if |s| <= 1 then s
    else if s[0] == s[1] then Dedup(s[1..])
    else [s[0]] + Dedup(s[1..])
  }

  function CanonicalPairs(pairs: seq<Pair>): seq<Pair> {
    Dedup(Sort(PairBelow, pairs))
  }

  function Flatten(pairs: seq<Pair>): (r: seq<Str>)
    ensures |r| == 2 * |pairs|
  {
    if pairs == [] then [] else [pairs[0].0, pairs[0].1] + Flatten(pairs[1..])
  }

  /** The bytes hashed for the resolved package dependencies of a task. */
  function PkgDepStream(pairs: seq<Pair>): Str {
    var canonical := CanonicalPairs(pairs);
    LittleEndian(|canonical|, 8) + Concat(Flatten(canonical))
  }

  lemma {:induction false} DedupSorted(s: seq<Pair>)
    requires SortedBy(PairBelow, s)
    ensures StrictlySorted(PairBelow, Dedup(s))
    ensures forall p :: p in Dedup(s) <==> p in s
    ensures |Dedup(s)| <= |s|
  {
    if |s| > 1 {
      DedupSorted(s[1..]);
      assert forall p :: p in s <==> p == s[0] || p in s[1..];
      if s[0] != s[1] {
        var rest := Dedup(s[1..]);
        forall j | 0 <= j < |rest| ensures PairBelow(s[0], rest[j]) {
          assert rest[j] in s[1..];
          var k :| 1 <= k < |s| && s[k] == rest[j];
          PairOrder(s[0], s[1], s[k]);
          PairOrder(s[0], s[k], s[0]);
          PairOrder(s[1], s[0], s[0]);
          PairOrder(s[1], s[k], s[1]);
        }
      }
    }
  }

  lemma CanonicalPairsContents(pairs: seq<Pair>)
    ensures StrictlySorted(PairBelow, CanonicalPairs(pairs))
    ensures forall p :: p in CanonicalPairs(pairs) <==> p in pairs
    ensures |CanonicalPairs(pairs)| <= |pairs|
  {
    assert WeakOrder(PairBelow) by {
      forall a, b, c
        ensures (PairBelow(a, b) ==> !PairBelow(b, a)) && (!PairBelow(a, b) && !PairBelow(b, c) ==> !PairBelow(a, c))
      {
        PairOrder(a, b, c);
      }
    }
    SortSorts(PairBelow, pairs);
    SortPermutes(PairBelow, pairs);
    DedupSorted(Sort(PairBelow, pairs));
  }

  lemma {:induction false} FlattenInjective(a: seq<Pair>, b: seq<Pair>)
    requires Flatten(a) == Flatten(b)
    ensures a == b
  {
    assert |a| == |b|;
    if a != [] {
      var u, v := Flatten(a), Flatten(b);
      assert u[0] == v[0] && u[1] == v[1] && u[2..] == v[2..];
      assert u[2..] == Flatten(a[1..]) && v[2..] == Flatten(b[1..]);
      FlattenInjective(a[1..], b[1..]);
      assert a == [a[0]] + a[1..] && b == [b[0]] + b[1..];
    }
  }

  /** The stream stands for the set of pairs: order and repetition do not reach the key. */
  lemma PkgDepStreamMeaning(a: seq<Pair>, b: seq<Pair>)
    requires SizedTexts(Flatten(CanonicalPairs(a))) && SizedTexts(Flatten(CanonicalPairs(b)))
    ensures PkgDepStream(a) == PkgDepStream(b) <==> forall p :: p in a <==> p in b
  {
    var c, d := CanonicalPairs(a), CanonicalPairs(b);
    CanonicalPairsContents(a);
    CanonicalPairsContents(b);
    if PkgDepStream(a) == PkgDepStream(b) {
      SplitEqual(LittleEndian(|c|, 8), Concat(Flatten(c)), LittleEndian(|d|, 8), Concat(Flatten(d)));
      Power256Values();
      LittleEndianInjective(|c|, |d|, 8);
      assert Concat(Flatten(c)) + [] == Concat(Flatten(d)) + [];
      ConcatPrefixFree(Flatten(c), [], Flatten(d), []);
      FlattenInjective(c, d);
    }
    if forall p :: p in a <==> p in b {
      forall x, y | PairBelow(x, y) ensures !PairBelow(y, x) { PairOrder(x, y, x); }
      StrictlySortedUnique(PairBelow, c, d);
    }
  }
}
