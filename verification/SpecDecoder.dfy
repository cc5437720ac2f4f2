/** A reader of the bytes behind cache keys, which gets back all that went into them. */
module SpecDecoder {
  import opened Basics
  import opened Sorting
  import opened TaskSpecHash

  // ---------------------------------------------------------------- the parts of the layout

  /** A value read off the front of a stream, and what stands behind it. */
  datatype Read<T> = Read(value: T, rest: Str)

  /** The number that bytes stand for, the least significant one first. */
  function Number(s: Str): nat {
    if s == [] then 0 else s[0] as int + 256 * Number(s[1..])
  }

  function ReadNumber(s: Str, width: nat): Read<nat> {
    if |s| < width then Read(0, []) else Read(Number(s[..width]), s[width..])
  }

  function ReadFlag(s: Str): Read<bool> {
    if s == [] then Read(false, []) else Read(s[0] == '\U{1}', s[1..])
  }

  /** A text behind its length in eight bytes. */
  function ReadText(s: Str): Read<Str> {
    var n := ReadNumber(s, 8);
    if n.value <= |n.rest| then Read(n.rest[..n.value], n.rest[n.value..]) else Read([], [])
  }

  function ReadOption(s: Str): Read<Option<Str>> {
    var some := ReadFlag(s);
    if !some.value then Read(None, some.rest)
    else
      var t := ReadText(some.rest);
      Read(Some(t.value), t.rest)
  }

  function ReadMany(s: Str, n: nat): Read<seq<Str>>
    decreases n
  {
    if n == 0 then Read([], s)
    else
      var first := ReadText(s);
      var more := ReadMany(first.rest, n - 1);
      Read([first.value] + more.value, more.rest)
  }

  /** Texts behind their number in eight bytes. */
  function ReadTexts(s: Str): Read<seq<Str>> {
    var n := ReadNumber(s, 8);
    ReadMany(n.rest, n.value)
  }

  lemma {:induction false} NumberBack(n: nat, width: nat)
    requires n < Power256(width)
    ensures Number(LittleEndian(n, width)) == n
  {
    if width > 0 {
      NumberBack(n / 256, width - 1);
      assert LittleEndian(n, width)[1..] == LittleEndian(n / 256, width - 1);
    }
  }

  lemma CutFront(a: Str, r: Str)
    ensures (a + r)[..|a|] == a && (a + r)[|a|..] == r
  {
  }

  lemma NumberFront(n: nat, width: nat, r: Str)
    requires n < Power256(width)
    ensures ReadNumber(LittleEndian(n, width) + r, width) == Read(n, r)
  {
    NumberBack(n, width);
    CutFront(LittleEndian(n, width), r);
  }

  lemma FlagFront(b: bool, r: Str)
    ensures ReadFlag(Flag(b) + r) == Read(b, r)
  {
    CutFront(Flag(b), r);
    assert (Flag(b) + r)[0] == Flag(b)[0];
  }

  lemma TextFront(t: Str, r: Str)
    requires |t| <= U64Max
    ensures ReadText(LengthPrefixed(t) + r) == Read(t, r)
  {
    Power256Values();
    Associate(LittleEndian(|t|, 8), t, r);
    NumberFront(|t|, 8, t + r);
    CutFront(t, r);
  }

  lemma OptionFront(o: Option<Str>, r: Str)
    requires SizedOption(o)
    ensures ReadOption(EncodeOption(o) + r) == Read(o, r)
  {
    if o.None? {
      FlagFront(false, r);
    } else {
      Associate(Flag(true), LengthPrefixed(o.value), r);
      FlagFront(true, LengthPrefixed(o.value) + r);
      TextFront(o.value, r);
    }
  }

  lemma {:induction false} ManyFront(texts: seq<Str>, r: Str)
    requires SizedTexts(texts)
    ensures ReadMany(Concat(texts) + r, |texts|) == Read(texts, r)
  {
    if texts == [] {
      assert Concat(texts) + r == r;
    } else {
      Associate(LengthPrefixed(texts[0]), Concat(texts[1..]), r);
      TextFront(texts[0], Concat(texts[1..]) + r);
      ManyFront(texts[1..], r);
      assert [texts[0]] + texts[1..] == texts;
    }
  }

  lemma TextsFront(texts: seq<Str>, r: Str)
    requires SizedTexts(texts)
    ensures ReadTexts(EncodeTexts(texts) + r) == Read(texts, r)
  {
    Power256Values();
    Associate(LittleEndian(|texts|, 8), Concat(texts), r);
    NumberFront(|texts|, 8, Concat(texts) + r);
    ManyFront(texts, r);
  }

  // ---------------------------------------------------------------- the task specification

  /** The serialized struct, field by field in the order of its declaration. */
  function ReadCore(s: Str): Read<Spec> {
    var command := ReadOption(s);
    var worker := ReadOption(command.rest);
    var weight := ReadNumber(worker.rest, 4);
    var dependsOn := ReadTexts(weight.rest);
    var cacheEnabled := ReadFlag(dependsOn.rest);
    var inputs := ReadTexts(cacheEnabled.rest);
    var outputs := ReadTexts(inputs.rest);
    var nonce := ReadOption(outputs.rest);
    Read(Spec(command.value, worker.value, weight.value, dependsOn.value, cacheEnabled.value,
              inputs.value, outputs.value, nonce.value, [], None), nonce.rest)
  }

  /** The domain tag of the tool version, and the version behind its length, if there is anything. */
  function ReadToolVersion(s: Str): Option<Str> {
    var tag: Str := "luchta-cache:task-spec-tool-version:v1";
    if tag <= s then Some(ReadText(s[|tag|..]).value) else None
  }

  /** The whole stream, in whichever of its forms. */
  function ReadSpec(s: Str): Spec {
    var tag: Str := "luchta-cache:task-spec-cache-files:v1";
    if tag <= s then
      var core := ReadText(s[|tag|..]);
      var files := ReadText(core.rest);
      ReadCore(core.value).value.(cacheFiles := ReadTexts(files.value).value,
                                  toolVersion := ReadToolVersion(files.rest))
    else
      var core := ReadCore(s);
      core.value.(toolVersion := ReadToolVersion(core.rest))
  }

  lemma FieldFront(fields: seq<Field>, r: Str)
    requires fields != []
    ensures EncodeFields(fields) + r == fields[0].Encode() + (EncodeFields(fields[1..]) + r)
  {
    Associate(fields[0].Encode(), EncodeFields(fields[1..]), r);
  }

  /** Reading the struct gets its eight fields back. */
  lemma CoreFront(s: Spec, r: Str)
    requires s.Sized()
    ensures ReadCore(s.Core() + r) == Read(s.(cacheFiles := [], toolVersion := None), r)
  {
    var f := s.CoreFields();
    var r7 := EncodeFields(f[8..]) + r;
    var r6 := EncodeFields(f[7..]) + r;
    var r5 := EncodeFields(f[6..]) + r;
    var r4 := EncodeFields(f[5..]) + r;
    var r3 := EncodeFields(f[4..]) + r;
    var r2 := EncodeFields(f[3..]) + r;
    var r1 := EncodeFields(f[2..]) + r;
    var r0 := EncodeFields(f[1..]) + r;
    FieldsInTurn(f, r);
    Power256Values();
    assert f[0].Sized() && f[1].Sized() && f[2].Sized() && f[3].Sized();
    assert f[5].Sized() && f[6].Sized() && f[7].Sized();
    OptionFront(s.command, r0);
    OptionFront(s.worker, r1);
    NumberFront(s.weight, 4, r2);
    TextsFront(s.dependsOn, r3);
    FlagFront(s.cacheEnabled, r4);
    TextsFront(s.inputs, r5);
    TextsFront(s.outputs, r6);
    OptionFront(s.nonce, r7);
  }

  lemma FieldsInTurn(f: seq<Field>, r: Str)
    requires |f| == 8
    ensures forall i :: 0 <= i < 8 ==>
              EncodeFields(f[i..]) + r == f[i].Encode() + (EncodeFields(f[i + 1..]) + r)
    ensures EncodeFields(f[0..]) == EncodeFields(f) && EncodeFields(f[8..]) + r == r
  {
    forall i | 0 <= i < 8
      ensures EncodeFields(f[i..]) + r == f[i].Encode() + (EncodeFields(f[i + 1..]) + r)
    {
      FieldFront(f[i..], r);
      assert f[i..][1..] == f[i + 1..];
    }
    assert f[0..] == f && f[8..] == [];
  }

  lemma ToolVersionBack(version: Option<Str>)
    requires SizedOption(version)
    ensures ReadToolVersion(ToolVersionPart(version)) == version
  {
    if version.Some? {
      var none: Str := [];
      CutFront(ToolVersionTag, LengthPrefixed(version.value));
      TextFront(version.value, none);
      assert LengthPrefixed(version.value) + none == LengthPrefixed(version.value);
    }
  }

  /** The stream of a specification reads back as that specification, in all four forms. */
  lemma SpecBack(s: Spec)
    requires s.Sized()
    ensures ReadSpec(SpecStream(s)) == s
  {
    var tool := ToolVersionPart(s.toolVersion);
    ToolVersionBack(s.toolVersion);
    if s.cacheFiles == [] {
      CoreFront(s, tool);
      FirstByte(s);
      assert SpecStream(s)[0] != 'l';
    } else {
      WithCacheFiles(s, tool);
    }
  }

  lemma WithCacheFiles(s: Spec, tool: Str)
    requires s.Sized() && s.cacheFiles != []
    requires SpecStream(s) == CacheFilesPart(s.Core(), EncodeTexts(s.cacheFiles)) + tool
    requires ReadToolVersion(tool) == s.toolVersion
    ensures ReadSpec(SpecStream(s)) == s
  {
    var none: Str, core, files := [], s.Core(), EncodeTexts(s.cacheFiles);
    var behind := LengthPrefixed(core) + (LengthPrefixed(files) + tool);
    Associate(CacheFilesTag, LengthPrefixed(core) + LengthPrefixed(files), tool);
    Associate(LengthPrefixed(core), LengthPrefixed(files), tool);
    assert SpecStream(s) == CacheFilesTag + behind;
    CutFront(CacheFilesTag, behind);
    TextFront(core, LengthPrefixed(files) + tool);
    TextFront(files, tool);
    CoreFront(s, none);
    TextsFront(s.cacheFiles, none);
    assert core + none == core && files + none == files;
  }

  // ---------------------------------------------------------------- package dependencies

  function ReadPairs(s: Str, n: nat): seq<Pair>
    decreases n
  {
    if n == 0 then []
    else
      var name := ReadText(s);
      var version := ReadText(name.rest);
      [(name.value, version.value)] + ReadPairs(version.rest, n - 1)
  }

  /** The number of pairs in eight bytes, then name and version of each. */
  function ReadPkgDeps(s: Str): seq<Pair> {
    var n := ReadNumber(s, 8);
    ReadPairs(n.rest, n.value)
  }

  lemma {:induction false} PairsBack(pairs: seq<Pair>)
    requires forall i :: 0 <= i < |pairs| ==> |pairs[i].0| <= U64Max && |pairs[i].1| <= U64Max
    ensures ReadPairs(Concat(Flatten(pairs)), |pairs|) == pairs
  {
    if pairs != [] {
      var p, texts := pairs[0], Flatten(pairs);
      var rest := Concat(Flatten(pairs[1..]));
      assert texts[0] == p.0 && texts[1] == p.1 && texts[1..][1..] == Flatten(pairs[1..]);
      assert Concat(texts[1..]) == LengthPrefixed(p.1) + rest;
      TextFront(p.0, LengthPrefixed(p.1) + rest);
      TextFront(p.1, rest);
      PairsBack(pairs[1..]);
      assert [p] + pairs[1..] == pairs && p == (p.0, p.1);
    }
  }

  /** From the stream of package dependencies come back their pairs, each once, by name and then by version. */
  lemma PkgDepsBack(pairs: seq<Pair>)
    requires |pairs| <= U64Max && forall i :: 0 <= i < |pairs| ==> |pairs[i].0| <= U64Max && |pairs[i].1| <= U64Max
    ensures
      var back := ReadPkgDeps(PkgDepStream(pairs));
      (forall p :: p in back <==> p in pairs) &&
      forall i, j :: 0 <= i < j < |back| ==>
        Less(back[i].0, back[j].0) || (back[i].0 == back[j].0 && Less(back[i].1, back[j].1))
  {
    var c := CanonicalPairs(pairs);
    CanonicalPairsContents(pairs);
    assert forall i :: 0 <= i < |c| ==> c[i] in c;
    Power256Values();
    NumberFront(|c|, 8, Concat(Flatten(c)));
    PairsBack(c);
  }
}
