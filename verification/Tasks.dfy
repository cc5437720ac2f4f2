/** Task identifiers, task definitions and the dependency references of a pipeline. */
module Tasks {
  import opened Basics

  datatype TaskId = TaskId(package: Str, task: Str) {
    predicate IsRoot() { package == RootPackage }

    /** The text shown for a task, and the key of its cache record and of dependency maps. */
    function Name(): Str {
      if IsRoot() then "#" + task else package + "#" + task
    }
  }

  const RootPackage: Str := "//root"

  /** Holds of the package names that npm accepts; the synthetic root package qualifies too. */
  predicate PlainPackage(package: Str) {
    package != [] && '#' !in package
  }

  /** The first occurrence of a byte that the first part does not contain splits a text one way. */
  lemma SplitAtFirst(a: Str, x: Str, b: Str, y: Str, sep: Byte)
    requires a + [sep] + x == b + [sep] + y
    requires sep !in a && sep !in b
    ensures a == b && x == y
  {
    var s := a + [sep] + x;
    assert s[|a|] == sep && s[|b|] == sep;
    assert forall k :: 0 <= k < |a| ==> s[k] == a[k] && a[k] in a;
    assert forall k :: 0 <= k < |b| ==> s[k] == b[k] && b[k] in b;
    assert s == a + ([sep] + x) == b + ([sep] + y);
    SplitEqual(a, [sep] + x, b, [sep] + y);
    assert x == ([sep] + x)[1..] && y == ([sep] + y)[1..];
  }

  lemma NameInjective(s: TaskId, t: TaskId)
    requires PlainPackage(s.package) && PlainPackage(t.package)
    requires s.Name() == t.Name()
    ensures s == t
  {
    var p: Str, q: Str := if s.IsRoot() then [] else s.package, if t.IsRoot() then [] else t.package;
    assert s.Name() == p + "#" + s.task && t.Name() == q + "#" + t.task;
    SplitAtFirst(p, s.task, q, t.task, '#');
  }

  datatype DependsOn =
    | DirectUpstream(task: Str)
    | TransitiveUpstream(task: Str)
    | SamePackage(task: Str)
    | Specific(id: TaskId)
    | Root(task: Str)
  {
    /** The form written in configuration files, and the form that is serialized. */
    function ConfigString(): Str {
      match this
      case DirectUpstream(task) => "^" + task
      case TransitiveUpstream(task) => "^^" + task
      case SamePackage(task) => task
      case Specific(id) => id.Name()
      case Root(task) => "#" + task
    }
  }

  function IndexOf(s: Str, c: Byte): (i: nat)
    ensures i <= |s|
    ensures c !in s[..i]
    ensures i < |s| ==> s[i] == c
  {
    if s == [] || s[0] == c then 0 else
      var i := IndexOf(s[1..], c);
      assert s[..i + 1] == [s[0]] + s[1..][..i];
      i + 1
  }

  /** Parsing of one `dependsOn` entry; None stands for the parse errors. */
  function ParseDependsOn(value: Str): Option<DependsOn> {
    if "^^" <= value then
      if |value| == 2 then None else Some(TransitiveUpstream(value[2..]))
    else if "^" <= value then
      if |value| == 1 then None else Some(DirectUpstream(value[1..]))
    else if "#" <= value then
      if |value| == 1 then None else Some(Root(value[1..]))
    else if '#' in value then
      var i := IndexOf(value, '#');
      if i + 1 >= |value| then None else Some(Specific(TaskId(value[..i], value[i + 1..])))
    else if value == [] then None
    else Some(SamePackage(value))
  }

  /** Which texts are read as an upstream, a root or a same-package reference, and to which task. */
  lemma ParseReads(value: Str, n: Str)
    ensures ParseDependsOn(value) == Some(TransitiveUpstream(n)) <==> n != [] && value == "^^" + n
    ensures ParseDependsOn(value) == Some(DirectUpstream(n)) <==> n != [] && n[0] != '^' && value == "^" + n
    ensures ParseDependsOn(value) == Some(Root(n)) <==> n != [] && value == "#" + n
    ensures ParseDependsOn(value) == Some(SamePackage(n)) <==> n != [] && n[0] != '^' && '#' !in n && value == n
  {
    assert ("^^" + n)[2..] == n && ("^" + n)[1..] == n && ("#" + n)[1..] == n;
    assert "^^" <= value ==> value == "^^" + value[2..];
    assert "^" <= value ==> value == "^" + value[1..];
    assert "#" <= value ==> value == "#" + value[1..];
  }

  lemma SpecificReads(package: Str, rest: Str)
    requires package != [] && package[0] != '^' && '#' !in package && |rest| >= 2 && rest[0] == '#'
    ensures ParseDependsOn(package + rest) == Some(Specific(TaskId(package, rest[1..])))
  {
    var value := package + rest;
    assert value[0] == package[0] && package[0] in package;
    IndexOfConcat(package, rest, '#');
    assert value[..|package|] == package && value[|package| + 1..] == rest[1..];
  }

  /** A task of a package is read from the text that names both, in front of and behind the first `#`. */
  lemma ParseSpecific(value: Str, package: Str, task: Str)
    ensures ParseDependsOn(value) == Some(Specific(TaskId(package, task))) <==>
            package != [] && package[0] != '^' && '#' !in package && task != [] && value == package + "#" + task
  {
    if package != [] && package[0] != '^' && '#' !in package && task != [] && value == package + "#" + task {
      assert value == package + ("#" + task);
      SpecificReads(package, "#" + task);
      assert ("#" + task)[1..] == task;
    }
    if ParseDependsOn(value) == Some(Specific(TaskId(package, task))) {
      assert value == package + "#" + task && value[0] == package[0];
    }
  }

  /** What is refused: a prefix without a task, and a text whose only `#` is its last byte. */
  lemma ParseRefuses(value: Str)
    ensures ParseDependsOn(value).None? <==>
            value == [] || value == "^" || value == "^^" ||
            (value[0] != '^' && value[|value| - 1] == '#' && '#' !in value[..|value| - 1])
  {
    if value != [] && value[0] != '^' {
      var i, n := IndexOf(value, '#'), |value| - 1;
      assert value == value[..n] + value[n..];
      assert forall k :: 0 <= k < i ==> value[k] == value[..i][k] && value[k] in value[..i];
      if value[n] == '#' && '#' !in value[..n] { IndexOfConcat(value[..n], value[n..], '#'); }
      assert i < n ==> value[i] == value[..n][i];
    } else if value != [] {
      assert value == [value[0]] + value[1..];
    }
  }

  /** Holds of the texts that spell the synthetic root package out. */
  predicate SpellsRootPackage(value: Str) {
    RootPackage + "#" <= value
  }

  /**
   * A parsed entry is written back as it was read exactly when the text does not spell out the
   * root package: such an entry is written back as a root reference instead.
   */
  lemma ConfigRoundTrip(value: Str)
    requires ParseDependsOn(value).Some?
    ensures ParseDependsOn(value).value.ConfigString() == value <==> !SpellsRootPackage(value)
  {
    SpellsRootPackageAtIndex(value);
    if "^^" <= value {
      assert value == "^^" + value[2..] && !StartsWithSlash(value);
    } else if "^" <= value {
      assert value == "^" + value[1..] && !StartsWithSlash(value);
    } else if "#" <= value {
      assert value == "#" + value[1..] && !StartsWithSlash(value);
    } else if '#' in value {
      var i := IndexOf(value, '#');
      assert value == value[..i] + "#" + value[i + 1..];
      assert |value[..i] + "#" + value[i + 1..]| != |"#" + value[i + 1..]|;
    }
  }

  predicate StartsWithSlash(value: Str) {
    value != [] && value[0] == '/'
  }

  lemma SpellsRootPackageAtIndex(value: Str)
    ensures SpellsRootPackage(value) <==> '#' in value && value[..IndexOf(value, '#')] == RootPackage
    ensures SpellsRootPackage(value) ==> StartsWithSlash(value)
  {
    var root: Str := RootPackage + "#";
    if SpellsRootPackage(value) {
      assert value == RootPackage + "#" + value[|root|..];
      assert value[0] == root[0];
      IndexOfConcat(RootPackage, "#" + value[|root|..], '#');
      assert value == RootPackage + ("#" + value[|root|..]);
    } else if '#' in value {
      var i := IndexOf(value, '#');
      assert value[..i + 1] == value[..i] + "#";
    }
  }

  lemma IndexOfConcat(a: Str, b: Str, c: Byte)
    requires c !in a && b != [] && b[0] == c
    ensures IndexOf(a + b, c) == |a|
  {
    var s, i := a + b, IndexOf(a + b, c);
    assert s[|a|] == c;
    assert forall k :: 0 <= k < |a| ==> s[k] == a[k] && a[k] in a;
    assert forall k :: 0 <= k < i ==> s[k] == s[..i][k] && s[k] in s[..i];
  }

  /** The task with a plain package whose name a text is; None when there is none. */
  function PlainReading(name: Str): Option<TaskId> {
    var i := IndexOf(name, '#');
    if i == |name| || name[..i] == RootPackage then None
    else Some(TaskId(if i == 0 then RootPackage else name[..i], name[i + 1..]))
  }

  /** At most one task with a plain package has a given name, and the first `#` finds it. */
  lemma PlainReadingMeaning(name: Str, t: TaskId)
    ensures PlainPackage(t.package) && t.Name() == name <==> PlainReading(name) == Some(t)
  {
    if PlainPackage(t.package) && t.Name() == name { PlainNameReads(t); }
    if PlainReading(name) == Some(t) { ReadingHasName(name); }
  }

  lemma PlainNameReads(t: TaskId)
    requires PlainPackage(t.package)
    ensures PlainReading(t.Name()) == Some(t)
  {
    var name, p: Str := t.Name(), if t.IsRoot() then [] else t.package;
    assert name == p + ("#" + t.task);
    IndexOfConcat(p, "#" + t.task, '#');
    assert name[..|p|] == p && name[|p| + 1..] == t.task;
  }

  lemma ReadingHasName(name: Str)
    requires PlainReading(name).Some?
    ensures PlainPackage(PlainReading(name).value.package) && PlainReading(name).value.Name() == name
  {
    var i := IndexOf(name, '#');
    assert name == name[..i] + "#" + name[i + 1..];
    assert RootPackage[0] == '/' && '#' !in RootPackage;
  }

  /**
   * A task shares its name with a task of a plain package exactly when its own package is not plain
   * and does not spell the root package out in front of a `#`.
   */
  lemma NameShared(s: TaskId)
    ensures (exists t: TaskId :: t != s && PlainPackage(t.package) && t.Name() == s.Name()) <==>
            !PlainPackage(s.package) && !SpellsRootPackage(s.package)
  {
    var name, p: Str := s.Name(), if s.IsRoot() then [] else s.package;
    assert name == p + ("#" + s.task);
    forall t: TaskId ensures PlainPackage(t.package) && t.Name() == name <==> PlainReading(name) == Some(t) {
      PlainReadingMeaning(name, t);
    }
    if !PlainPackage(s.package) {
      FirstHash(s.package, s.task);
      SpellsRootPackageAtIndex(s.package);
      if !SpellsRootPackage(s.package) {
        var t := PlainReading(name).value;
        assert t.Name() == name && t != s;
      }
    }
  }

  /** The first `#` of a name lies in the package if there is one. */
  lemma FirstHash(package: Str, task: Str)
    requires package == [] || '#' in package
    ensures
      var i, j := IndexOf(package + "#" + task, '#'), IndexOf(package, '#');
      i == j && (package + "#" + task)[..i] == package[..j]
  {
    var j := IndexOf(package, '#');
    var rest := package[j..] + "#" + task;
    assert package + "#" + task == package[..j] + rest;
    IndexOfConcat(package[..j], rest, '#');
  }

  /** A reference that spells the root package out, and the root reference of the same task. */
  predicate RootTwins(d: DependsOn, e: DependsOn) {
    d.Specific? && d.id.IsRoot() && e == Root(d.id.task)
  }

  /** Two references are serialized to one text. */
  predicate Alike(d: DependsOn, e: DependsOn) {
    d == e || RootTwins(d, e) || RootTwins(e, d)
  }

  /** Reading a serialized reference gives it back, or the root reference in place of its twin. */
  lemma ReadBack(v: Str)
    requires ParseDependsOn(v).Some?
    ensures
      var d := ParseDependsOn(v).value;
      ParseDependsOn(d.ConfigString()) == Some(if d.Specific? && d.id.IsRoot() then Root(d.id.task) else d)
  {
    var d := ParseDependsOn(v).value;
    if d.Specific? && d.id.IsRoot() {
      assert ("#" + d.id.task)[1..] == d.id.task && d.id.task != [];
    } else {
      ConfigRoundTrip(v);
      SpellsRootPackageAtIndex(v);
    }
  }

  /** Exactly which parsed references are serialized alike: equal ones, and a root task in its two spellings. */
  lemma SerializedAlike(v: Str, w: Str)
    requires ParseDependsOn(v).Some? && ParseDependsOn(w).Some?
    ensures
      var d, e := ParseDependsOn(v).value, ParseDependsOn(w).value;
      d.ConfigString() == e.ConfigString() <==> Alike(d, e)
  {
    ReadBack(v);
    ReadBack(w);
  }

  datatype TaskDefinition = TaskDefinition(
    command: Option<Str>,
    worker: Option<Str>,
    weight: nat,
    dependsOn: seq<DependsOn>,
    cacheEnabled: bool,
    inputs: seq<Str>,
    outputs: seq<Str>,
    cacheFiles: seq<Str>,
    toolVersion: Option<Str>)
  {
    /** Runnable work, or a command without worker; everything else only orders tasks. */
    predicate CountsInProgress() {
      worker.Some? || (command.Some? && !Blank(command.value))
    }
  }

  /** Number of bytes of the white-space character that starts a UTF-8 text, 0 if there is none. */
  function LeadingWhitespace(s: Str): (n: nat)
    ensures n <= |s|
  {
    var b := (i: nat) => if i < |s| then s[i] as int else 256;
    if 0x09 <= b(0) <= 0x0D || b(0) == 0x20 then 1
    else if b(0) == 0xC2 && (b(1) == 0x85 || b(1) == 0xA0) then 2
    else if b(0) == 0xE1 && b(1) == 0x9A && b(2) == 0x80 then 3
    else if b(0) == 0xE2 && b(1) == 0x80 &&
    (0x80 <= b(2) <= 0x8A || b(2) == 0xA8 || b(2) == 0xA9 || b(2) == 0xAF) then 3
    else if b(0) == 0xE2 && b(1) == 0x81 && b(2) == 0x9F then 3
    else if b(0) == 0xE3 && b(1) == 0x80 && b(2) == 0x80 then 3
    else 0
  }

  /** Trimming leaves nothing: the text is white space only. */
  predicate Blank(s: Str) {
    s == [] || (LeadingWhitespace(s) > 0 && Blank(s[LeadingWhitespace(s)..]))
  }
}
