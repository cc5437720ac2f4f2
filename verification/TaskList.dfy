/**
 * The compact task list of the status line: tasks that share a name are grouped over their
 * packages, the others per package, with a shared scope and a shared prefix factored out.
 */
module TaskList {
  import opened Basics
  import opened Sorting
  import opened Tasks
  import opened TaskPrefixes

  // ---------------------------------------------------------------- groups

  datatype Order = Deterministic | OldestFirst

  /** `prefix{a,b}#task` over packages, or `package#{a,b}` in one package (None is the root). */
  datatype Group =
    | OverPackages(prefix: Option<Str>, members: seq<Str>, task: Str)
    | InPackage(package: Option<Str>, names: seq<Str>)

  datatype Placed = Placed(position: nat, group: Group)

  function PrefixText(prefix: Option<Str>): Str {
    if prefix.None? then [] else prefix.value
  }

  /** The packages, as displayed, that a brace group over packages stands for. */
  function Texts(prefix: Option<Str>, members: seq<Str>): seq<Str> {
    seq(|members|, i requires 0 <= i < |members| => PrefixText(prefix) + members[i])
  }

  /** Undoes the braces: the tasks that a group stands for, in the order written. */
  function Expand(g: Group, scope: Option<Str>): seq<TaskId> {
    match g
    case OverPackages(prefix, members, task) =>
      var texts := Texts(prefix, members);
      seq(|texts|, i requires 0 <= i < |texts| => TaskId(Reattach(texts[i], scope), task))
    case InPackage(package, names) =>
      var full := if package.None? then RootPackage else Reattach(package.value, scope);
      seq(|names|, i requires 0 <= i < |names| => TaskId(full, names[i]))
  }

  function Flat(groups: seq<Placed>, scope: Option<Str>): seq<TaskId> {
    if groups == [] then [] else Expand(groups[0].group, scope) + Flat(groups[1..], scope)
  }

  lemma {:induction false} FlatConcat(a: seq<Placed>, b: seq<Placed>, scope: Option<Str>)
    ensures multiset(Flat(a + b, scope)) == multiset(Flat(a, scope)) + multiset(Flat(b, scope))
  {
    if a == [] {
      assert a + b == b;
    } else {
      FlatConcat(a[1..], b, scope);
      Associate([a[0]], a[1..], b);
      FlatOneMore(a[0], a[1..], b, scope);
      assert a == [a[0]] + a[1..];
    }
  }

  lemma FlatOneMore(g: Placed, a: seq<Placed>, b: seq<Placed>, scope: Option<Str>)
    requires multiset(Flat(a + b, scope)) == multiset(Flat(a, scope)) + multiset(Flat(b, scope))
    ensures multiset(Flat([g] + (a + b), scope)) == multiset(Flat([g] + a, scope)) + multiset(Flat(b, scope))
  {
    FlatStep(g, a, scope);
    FlatStep(g, a + b, scope);
  }

  lemma FlatStep(g: Placed, groups: seq<Placed>, scope: Option<Str>)
    ensures Flat([g] + groups, scope) == Expand(g.group, scope) + Flat(groups, scope)
  {
    assert ([g] + groups)[1..] == groups;
  }

  /** The factored prefix is the longest that ends at a separator and leaves no member empty. */
  ghost predicate Factored(g: Group) {
    g.OverPackages? && |g.members| > 1 ==>
      var texts := Texts(g.prefix, g.members);
      (g.prefix.Some? ==> BoundaryPrefix(texts, g.prefix.value)) &&
      forall p :: BoundaryPrefix(texts, p) ==> g.prefix.Some? && |p| <= |g.prefix.value|
  }

  /** A group stands at its oldest task; one over packages stands at the oldest task of its name, of the root or not. */
  ghost predicate AtOldest(shown: seq<TaskId>, placed: Placed, scope: Option<Str>) {
    var (n, g) := (placed.position, placed.group);
    n < |shown| && (forall j :: 0 <= j < n ==> shown[j] !in Expand(g, scope)) &&
    if g.InPackage? then shown[n] in Expand(g, scope)
    else
      shown[n].task == g.task && (forall j :: 0 <= j < n ==> shown[j].task != g.task) &&
      (shown[n].IsRoot() || shown[n] in Expand(g, scope)) && forall t :: t in Expand(g, scope) ==> !t.IsRoot()
  }

  // ---------------------------------------------------------------- indices by key

  /** The indices below n with a given key, other than the skipped ones, in ascending order. */
  function IndicesOf(keys: seq<Str>, skip: seq<bool>, key: Str, n: nat): seq<nat>
    requires n <= |keys| == |skip|
  {
    if n == 0 then []
    else IndicesOf(keys, skip, key, n - 1) + if keys[n - 1] == key && !skip[n - 1] then [n - 1] else []
  }

  lemma {:induction false} IndicesMeaning(keys: seq<Str>, skip: seq<bool>, key: Str, n: nat)
    requires n <= |keys| == |skip|
    ensures forall i :: i in IndicesOf(keys, skip, key, n) <==> 0 <= i < n && keys[i] == key && !skip[i]
    ensures forall a, b :: 0 <= a < b < |IndicesOf(keys, skip, key, n)| ==>
      IndicesOf(keys, skip, key, n)[a] < IndicesOf(keys, skip, key, n)[b]
  {
    if n > 0 {
      IndicesMeaning(keys, skip, key, n - 1);
      var prior := IndicesOf(keys, skip, key, n - 1);
      assert forall a :: 0 <= a < |prior| ==> prior[a] in prior;
    }
  }

  method GroupIndices(keys: seq<Str>, skip: seq<bool>) returns (byKey: map<Str, seq<nat>>)
    requires |keys| == |skip|
    ensures forall k :: k in byKey ==> byKey[k] == IndicesOf(keys, skip, k, |keys|) != []
    ensures forall k :: k !in byKey ==> IndicesOf(keys, skip, k, |keys|) == []
  {
    byKey := map[];
    for n := 0 to |keys|
      invariant forall k :: k in byKey ==> byKey[k] == IndicesOf(keys, skip, k, n) != []
      invariant forall k :: k !in byKey ==> IndicesOf(keys, skip, k, n) == []
    {
      if !skip[n] {
        var key := keys[n];
        byKey := byKey[key := (if key in byKey then byKey[key] else []) + [n]];
      }
    }
  }

  function At(shown: seq<TaskId>, ids: seq<nat>): seq<TaskId>
    requires forall i :: i in ids ==> i < |shown|
  {
    seq(|ids|, i requires 0 <= i < |ids| => assert ids[i] in ids; shown[ids[i]])
  }

  // ---------------------------------------------------------------- groups over packages

  function NonRoot(tasks: seq<TaskId>): seq<TaskId> {
    if tasks == [] then []
    else (if tasks[0].IsRoot() then [] else [tasks[0]]) + NonRoot(tasks[1..])
  }

  ghost function NonRootSet(tasks: seq<TaskId>): set<TaskId> {
    set t | t in tasks && !t.IsRoot()
  }

  function WithName(packages: seq<Str>, name: Str): seq<TaskId> {
    seq(|packages|, i requires 0 <= i < |packages| => TaskId(packages[i], name))
  }

  /** The tasks of one name in the order in which they are written. */
  function Ordered(tasks: seq<TaskId>, name: Str, order: Order): seq<TaskId> {
    if order.Deterministic? then WithName(Ascending(PackagesOf(tasks)), name) else NonRoot(tasks)
  }

  lemma {:induction false} DistinctMultiset(s: seq<TaskId>)
    requires Distinct(s)
    ensures multiset(s) == multiset(set t | t in s)
  {
    if s != [] {
      var rest := s[1..];
      DistinctTail(s);
      DistinctMultiset(rest);
      OneMore(s[0], set t | t in rest);
    }
  }

  lemma DistinctTail(s: seq<TaskId>)
    requires s != [] && Distinct(s)
    ensures Distinct(s[1..]) && s[0] !in s[1..]
    ensures (set t | t in s) == {s[0]} + set t | t in s[1..]
    ensures multiset(s) == multiset{s[0]} + multiset(s[1..])
  {
    assert s == [s[0]] + s[1..];
    assert forall i :: 0 <= i < |s| - 1 ==> s[1..][i] == s[i + 1];
  }

  lemma OneMore(x: TaskId, s: set<TaskId>)
    requires x !in s
    ensures multiset({x} + s) == multiset{x} + multiset(s)
  {
    var sum := multiset{x} + multiset(s);
    forall t ensures multiset({x} + s)[t] == sum[t] {}
  }

  lemma {:induction false} NonRootContents(tasks: seq<TaskId>)
    ensures forall t :: t in NonRoot(tasks) <==> t in tasks && !t.IsRoot()
    ensures Distinct(tasks) ==> Distinct(NonRoot(tasks))
  {
    if tasks != [] {
      NonRootContents(tasks[1..]);
      assert forall t :: t in tasks <==> t == tasks[0] || t in tasks[1..];
      var rest := NonRoot(tasks[1..]);
      assert forall i :: 0 <= i < |rest| ==> rest[i] in rest;
      assert Distinct(tasks) ==> tasks[0] !in tasks[1..] && Distinct(tasks[1..]);
    }
  }

  lemma OrderedContents(tasks: seq<TaskId>, name: Str, order: Order)
    requires forall t :: t in tasks ==> t.task == name
    ensures forall t :: t in Ordered(tasks, name, order) <==> t in NonRootSet(tasks)
    ensures Distinct(tasks) ==> multiset(Ordered(tasks, name, order)) == multiset(NonRootSet(tasks))
  {
    var written := Ordered(tasks, name, order);
    if order.OldestFirst? {
      NonRootContents(tasks);
    } else {
      AscendingOnce(PackagesOf(tasks), name);
      forall t ensures t in written <==> t in NonRootSet(tasks) {
        assert t.package in PackagesOf(tasks) && t.task == name ==> t == TaskId(t.package, name);
      }
    }
    assert (set t | t in written) == NonRootSet(tasks);
    if Distinct(written) { DistinctMultiset(written); }
  }

  lemma AscendingOnce(packages: set<Str>, name: Str)
    ensures Distinct(WithName(Ascending(packages), name))
    ensures forall t :: t in WithName(Ascending(packages), name) <==> t.package in packages && t.task == name
  {
    var keys := Ascending(packages);
    var tasks := WithName(keys, name);
    AscendingIsOrdered(packages);
    forall i, j | 0 <= i < j < |keys| ensures keys[i] != keys[j] {
      assert Less(keys[i], keys[j]);
      LessTotal(keys[i], keys[j]);
    }
    forall t ensures t in tasks <==> t.package in packages && t.task == name {
      if t.package in packages && t.task == name {
        assert t.package in keys;
        var i :| 0 <= i < |keys| && keys[i] == t.package;
        assert tasks[i] == t;
      }
      assert forall i :: 0 <= i < |keys| ==> keys[i] in keys;
    }
  }

  function Displays(tasks: seq<TaskId>, scope: Option<Str>): seq<Str> {
    seq(|tasks|, i requires 0 <= i < |tasks| => Display(tasks[i].package, scope))
  }

  /** Writes the tasks of one name as one group, with the shared prefix in front of the braces. */
  method PackageSet(tasks: seq<TaskId>, name: Str, scope: Option<Str>, order: Order) returns (g: Group)
    requires forall t :: t in tasks ==> t.task == name && ScopeFits(scope, t)
    ensures g.OverPackages? && g.task == name && Factored(g) && (|g.members| <= 1 ==> g.prefix.None?)
    ensures Expand(g, scope) == Ordered(tasks, name, order)
  {
    var ordered := Ordered(tasks, name, order);
    var displays := Displays(ordered, scope);
    var prefix := None;
    if |displays| > 1 { prefix := LongestBoundaryPrefix(displays); }
    var members := Strip(displays, prefix);
    g := OverPackages(prefix, members, name);
    Stripped(displays, prefix);
    OrderedContents(tasks, name, order);
    DisplaysExpand(ordered, scope, g);
  }

  predicate PrefixesAll(displays: seq<Str>, prefix: Option<Str>) {
    forall i :: 0 <= i < |displays| ==> PrefixText(prefix) <= displays[i]
  }

  function Strip(displays: seq<Str>, prefix: Option<Str>): seq<Str>
    requires PrefixesAll(displays, prefix)
  {
    seq(|displays|, i requires 0 <= i < |displays| => displays[i][|PrefixText(prefix)|..])
  }

  lemma Stripped(displays: seq<Str>, prefix: Option<Str>)
    requires PrefixesAll(displays, prefix)
    ensures Texts(prefix, Strip(displays, prefix)) == displays
  {
    var texts := Texts(prefix, Strip(displays, prefix));
    forall i | 0 <= i < |displays| ensures texts[i] == displays[i] {}
  }

  lemma DisplaysExpand(tasks: seq<TaskId>, scope: Option<Str>, g: Group)
    requires g.OverPackages? && Texts(g.prefix, g.members) == Displays(tasks, scope)
    requires forall t :: t in tasks ==> !t.IsRoot() && t.task == g.task && ScopeFits(scope, t)
    ensures Expand(g, scope) == tasks
  {
    forall i | 0 <= i < |tasks| ensures Expand(g, scope)[i] == tasks[i] {
      assert ScopeFits(scope, tasks[i]);
    }
  }

  // ---------------------------------------------------------------- the two passes

  ghost predicate Lists(ids: seq<nat>, keys: seq<Str>, skip: seq<bool>, key: Str)
    requires |keys| == |skip|
  {
    ids != [] && Distinct(ids) && (forall i :: i in ids ==> ids[0] <= i) &&
    forall i :: i in ids <==> 0 <= i < |keys| && keys[i] == key && !skip[i]
  }

  lemma IndicesList(keys: seq<Str>, skip: seq<bool>, key: Str)
    requires |keys| == |skip| && IndicesOf(keys, skip, key, |keys|) != []
    ensures Lists(IndicesOf(keys, skip, key, |keys|), keys, skip, key)
  {
    IndicesMeaning(keys, skip, key, |keys|);
  }

  function Names(shown: seq<TaskId>): seq<Str> {
    seq(|shown|, i requires 0 <= i < |shown| => shown[i].task)
  }

  function Packages(shown: seq<TaskId>): seq<Str> {
    seq(|shown|, i requires 0 <= i < |shown| => shown[i].package)
  }

  ghost predicate AllFit(shown: seq<TaskId>, scope: Option<Str>) {
    forall t :: t in shown ==> ScopeFits(scope, t)
  }

  ghost function TasksAt(shown: seq<TaskId>, done: set<nat>): set<TaskId> {
    set i | i in done && i < |shown| :: shown[i]
  }

  ghost function Marked(consumed: seq<bool>): set<nat> {
    set i: nat | i < |consumed| && consumed[i]
  }

  /** The groups stand for the tasks at the given indices, each once. */
  ghost predicate Covers(groups: seq<Placed>, scope: Option<Str>, shown: seq<TaskId>, done: set<nat>) {
    Distinct(shown) ==> multiset(Flat(groups, scope)) == multiset(TasksAt(shown, done))
  }

  lemma DisjointUnion(a: set<TaskId>, b: set<TaskId>)
    requires a !! b
    ensures multiset(a + b) == multiset(a) + multiset(b)
  {
    var sum := multiset(a) + multiset(b);
    forall t ensures multiset(a + b)[t] == sum[t] {}
  }

  lemma GroupAdded(groups: seq<Placed>, g: Placed, scope: Option<Str>, shown: seq<TaskId>, done: set<nat>,
                   more: set<nat>)
    requires Covers(groups, scope, shown, done) && done !! more
    requires Distinct(shown) ==> multiset(Expand(g.group, scope)) == multiset(TasksAt(shown, more))
    ensures Covers(groups + [g], scope, shown, done + more)
  {
    if Distinct(shown) {
      DisjointUnion(TasksAt(shown, done), TasksAt(shown, more));
      assert TasksAt(shown, done + more) == TasksAt(shown, done) + TasksAt(shown, more);
      FlatConcat(groups, [g], scope);
      assert Flat([g], scope) == Expand(g.group, scope);
    }
  }

  lemma AtContents(shown: seq<TaskId>, ids: seq<nat>)
    requires forall i :: i in ids ==> i < |shown|
    ensures forall t :: t in At(shown, ids) <==> exists i :: i in ids && shown[i] == t
    ensures Distinct(ids) && Distinct(shown) ==> Distinct(At(shown, ids))
  {
    var tasks := At(shown, ids);
    forall t ensures t in tasks <==> exists i :: i in ids && shown[i] == t {
      assert forall k :: 0 <= k < |ids| ==> ids[k] in ids && tasks[k] == shown[ids[k]];
      if i :| i in ids && shown[i] == t {
        var k :| 0 <= k < |ids| && ids[k] == i;
        assert tasks[k] == t;
      }
    }
    assert forall k :: 0 <= k < |ids| ==> ids[k] in ids && tasks[k] == shown[ids[k]];
  }

  /** Marks the tasks of a group as rendered, leaving root tasks to the second pass. */
  method MarkConsumed(shown: seq<TaskId>, consumed: seq<bool>, ids: seq<nat>) returns (after: seq<bool>)
    requires |consumed| == |shown| && forall i :: i in ids ==> i < |shown|
    ensures |after| == |shown|
    ensures forall i :: 0 <= i < |shown| ==> (after[i] <==> consumed[i] || (i in ids && !shown[i].IsRoot()))
  {
    after := consumed;
    for k := 0 to |ids|
      invariant |after| == |shown|
      invariant forall i :: 0 <= i < |shown| ==> (after[i] <==> consumed[i] || (i in ids[..k] && !shown[i].IsRoot()))
    {
      assert ids[k] in ids && ids[..k + 1] == ids[..k] + [ids[k]];
      if !shown[ids[k]].IsRoot() { after := after[ids[k] := true]; }
    }
    assert ids[..|ids|] == ids;
  }

  function NoneSkipped(n: nat): seq<bool> {
    seq(n, _ => false)
  }

  ghost function NonRootIds(shown: seq<TaskId>, ids: seq<nat>): set<nat> {
    set i | i in ids && i < |shown| && !shown[i].IsRoot()
  }

  lemma NameGroup(shown: seq<TaskId>, ids: seq<nat>, name: Str, g: Group, scope: Option<Str>, order: Order)
    requires Lists(ids, Names(shown), NoneSkipped(|shown|), name)
    requires g.OverPackages? && g.task == name && Expand(g, scope) == Ordered(At(shown, ids), name, order)
    ensures AtOldest(shown, Placed(ids[0], g), scope)
    ensures Distinct(shown) ==> multiset(Expand(g, scope)) == multiset(TasksAt(shown, NonRootIds(shown, ids)))
    ensures forall t :: t in shown && !t.IsRoot() && t.task == name ==> t in Expand(g, scope)
  {
    TasksOfName(shown, ids, name);
    var tasks := At(shown, ids);
    AtContents(shown, ids);
    OrderedContents(tasks, name, order);
    assert ids[0] in ids && shown[ids[0]] in tasks;
    forall j | 0 <= j < ids[0] ensures shown[j].task != name {
      assert Names(shown)[j] == name ==> j in ids;
    }
    assert NonRootSet(tasks) == TasksAt(shown, NonRootIds(shown, ids));
  }

  /** Two packages outside the root have a task of that name. */
  ghost predicate SharedName(shown: seq<TaskId>, name: Str) {
    exists s, t ::
      s in shown && t in shown && !s.IsRoot() && !t.IsRoot() && s.task == t.task == name && s.package != t.package
  }

  lemma TwoPackages(tasks: seq<TaskId>, shown: seq<TaskId>, name: Str)
    requires forall t :: t in tasks <==> t in shown && t.task == name
    ensures |PackagesOf(tasks)| >= 2 <==> SharedName(shown, name)
  {
    var packages := PackagesOf(tasks);
    if |packages| >= 2 {
      var p :| p in packages;
      assert |packages - {p}| >= 1;
      var q :| q in packages - {p};
      var s :| s in tasks && !s.IsRoot() && s.package == p;
      var t :| t in tasks && !t.IsRoot() && t.package == q;
    }
    if SharedName(shown, name) {
      var s, t :| s in shown && t in shown && !s.IsRoot() && !t.IsRoot() && s.task == t.task == name &&
                  s.package != t.package;
      assert s in tasks && t in tasks && {s.package, t.package} <= packages;
      SubsetSize({s.package, t.package}, packages);
    }
  }

  /** One group holds all the tasks of that name outside the root. */
  ghost predicate NameTogether(groups: seq<Placed>, scope: Option<Str>, shown: seq<TaskId>, name: Str) {
    exists g :: g in groups && forall t :: t in shown && !t.IsRoot() && t.task == name ==> t in Expand(g.group, scope)
  }

  /** One group holds all the tasks of that package that no shared name has gathered. */
  ghost predicate PackageTogether(groups: seq<Placed>, scope: Option<Str>, shown: seq<TaskId>, consumed: seq<bool>,
                                  package: Str)
    requires |consumed| == |shown|
  {
    exists g :: g in groups &&
      forall i :: 0 <= i < |shown| && shown[i].package == package && !consumed[i] ==> shown[i] in Expand(g.group, scope)
  }

  /** The tasks gathered by name are the ones outside the root whose name is shared. */
  ghost predicate ConsumedNames(shown: seq<TaskId>, consumed: seq<bool>, names: seq<Str>)
    requires |consumed| == |shown|
  {
    forall i :: 0 <= i < |shown| ==>
    (consumed[i] <==> !shown[i].IsRoot() && shown[i].task in names && SharedName(shown, shown[i].task))
  }

  ghost predicate GroupsOk(groups: seq<Placed>, shown: seq<TaskId>, scope: Option<Str>) {
    forall g :: g in groups ==> Factored(g.group) && (Distinct(shown) ==> AtOldest(shown, g, scope))
  }

  /** What the first pass has established after some names. */
  ghost predicate NamesDone(shown: seq<TaskId>, groups: seq<Placed>, consumed: seq<bool>, scope: Option<Str>,
                            names: seq<Str>)
  {
    |consumed| == |shown| && Covers(groups, scope, shown, Marked(consumed)) && GroupsOk(groups, shown, scope) &&
    ConsumedNames(shown, consumed, names) && SharedTogether(groups, scope, shown, names) &&
    NameGroups(groups, scope, shown)
  }

  /** A group over packages: two packages share its name, and it holds all their tasks of that name. */
  ghost predicate NameGroupOf(g: Group, scope: Option<Str>, shown: seq<TaskId>) {
    g.OverPackages? && SharedName(shown, g.task) &&
    forall t :: t in shown && !t.IsRoot() && t.task == g.task ==> t in Expand(g, scope)
  }

  ghost predicate NameGroups(groups: seq<Placed>, scope: Option<Str>, shown: seq<TaskId>) {
    forall g :: g in groups ==> NameGroupOf(g.group, scope, shown)
  }

  ghost predicate PackageGroups(groups: seq<Placed>) {
    forall g :: g in groups ==> g.group.InPackage?
  }

  ghost predicate SharedTogether(groups: seq<Placed>, scope: Option<Str>, shown: seq<TaskId>, names: seq<Str>) {
    forall n :: n in names && SharedName(shown, n) ==> NameTogether(groups, scope, shown, n)
  }

  /** The indices listed for a name give the tasks of that name. */
  lemma TasksOfName(shown: seq<TaskId>, ids: seq<nat>, name: Str)
    requires Lists(ids, Names(shown), NoneSkipped(|shown|), name)
    ensures forall t :: t in At(shown, ids) <==> t in shown && t.task == name
    ensures forall i :: 0 <= i < |shown| ==> (i in ids <==> shown[i].task == name)
  {
    var tasks := At(shown, ids);
    AtContents(shown, ids);
    forall i | 0 <= i < |shown| ensures i in ids <==> shown[i].task == name {
      assert Names(shown)[i] == shown[i].task;
    }
    forall t | t in shown && t.task == name ensures t in tasks {
      var i :| 0 <= i < |shown| && shown[i] == t;
      assert i in ids;
    }
  }

  lemma NameSkipped(shown: seq<TaskId>, groups: seq<Placed>, consumed: seq<bool>, scope: Option<Str>, names: seq<Str>,
                    name: Str)
    requires NamesDone(shown, groups, consumed, scope, names) && !SharedName(shown, name)
    ensures NamesDone(shown, groups, consumed, scope, names + [name])
  {
  }

  lemma NameConsumed(shown: seq<TaskId>, ids: seq<nat>, name: Str, consumed: seq<bool>, after: seq<bool>,
                     names: seq<Str>)
    requires |after| == |shown| == |consumed|
    requires forall i :: 0 <= i < |shown| ==> (i in ids <==> shown[i].task == name)
    requires SharedName(shown, name) && ConsumedNames(shown, consumed, names)
    requires forall i :: 0 <= i < |shown| ==> (after[i] <==> consumed[i] || (i in ids && !shown[i].IsRoot()))
    ensures ConsumedNames(shown, after, names + [name])
  {
  }

  lemma NameGathered(shown: seq<TaskId>, groups: seq<Placed>, g: Placed, scope: Option<Str>, names: seq<Str>, name: Str)
    requires SharedTogether(groups, scope, shown, names)
    requires forall t :: t in shown && !t.IsRoot() && t.task == name ==> t in Expand(g.group, scope)
    ensures SharedTogether(groups + [g], scope, shown, names + [name])
  {
    var all := groups + [g];
    assert g in all;
    forall n | n in names && SharedName(shown, n) ensures NameTogether(all, scope, shown, n) {
      var h :| h in groups && forall t :: t in shown && !t.IsRoot() && t.task == n ==> t in Expand(h.group, scope);
      assert h in all;
    }
  }

  lemma NameCovers(shown: seq<TaskId>, ids: seq<nat>, g: Placed, scope: Option<Str>,
                   groups: seq<Placed>, consumed: seq<bool>, after: seq<bool>)
    requires |after| == |shown| == |consumed| && forall i :: i in ids ==> 0 <= i < |shown| && !consumed[i]
    requires Covers(groups, scope, shown, Marked(consumed))
    requires Distinct(shown) ==> multiset(Expand(g.group, scope)) == multiset(TasksAt(shown, NonRootIds(shown, ids)))
    requires forall i :: 0 <= i < |shown| ==> (after[i] <==> consumed[i] || (i in ids && !shown[i].IsRoot()))
    ensures Covers(groups + [g], scope, shown, Marked(after))
  {
    var more := NonRootIds(shown, ids);
    assert Marked(after) == Marked(consumed) + more;
    GroupAdded(groups, g, scope, shown, Marked(consumed), more);
  }

  lemma NameStep(shown: seq<TaskId>, ids: seq<nat>, name: Str, g: Group, scope: Option<Str>, order: Order,
                 groups: seq<Placed>, consumed: seq<bool>, after: seq<bool>, names: seq<Str>)
    requires Lists(ids, Names(shown), NoneSkipped(|shown|), name) && name !in names && SharedName(shown, name)
    requires g.OverPackages? && g.task == name && Factored(g) &&
             Expand(g, scope) == Ordered(At(shown, ids), name, order)
    requires NamesDone(shown, groups, consumed, scope, names)
    requires |after| == |shown|
    requires forall i :: 0 <= i < |shown| ==> (after[i] <==> consumed[i] || (i in ids && !shown[i].IsRoot()))
    ensures NamesDone(shown, groups + [Placed(ids[0], g)], after, scope, names + [name])
  {
    var placed := Placed(ids[0], g);
    TasksOfName(shown, ids, name);
    NameGroup(shown, ids, name, g, scope, order);
    NotYetConsumed(shown, ids, name, consumed, names);
    NameConsumed(shown, ids, name, consumed, after, names);
    NameGathered(shown, groups, placed, scope, names, name);
    NameCovers(shown, ids, placed, scope, groups, consumed, after);
    OneGroupMore(groups, placed, shown, scope);
    OneNameMore(groups, placed, shown, scope);
  }

  lemma OneNameMore(groups: seq<Placed>, g: Placed, shown: seq<TaskId>, scope: Option<Str>)
    requires NameGroups(groups, scope, shown) && NameGroupOf(g.group, scope, shown)
    ensures NameGroups(groups + [g], scope, shown)
  {
  }

  lemma NotYetConsumed(shown: seq<TaskId>, ids: seq<nat>, name: Str, consumed: seq<bool>, names: seq<Str>)
    requires |consumed| == |shown| && ConsumedNames(shown, consumed, names) && name !in names
    requires Lists(ids, Names(shown), NoneSkipped(|shown|), name)
    ensures forall i :: i in ids ==> 0 <= i < |shown| && !consumed[i]
  {
    TasksOfName(shown, ids, name);
  }

  lemma OneGroupMore(groups: seq<Placed>, g: Placed, shown: seq<TaskId>, scope: Option<Str>)
    requires GroupsOk(groups, shown, scope) && Factored(g.group) && (Distinct(shown) ==> AtOldest(shown, g, scope))
    ensures GroupsOk(groups + [g], shown, scope)
  {
  }

  // ---------------------------------------------------------------- the deterministic order

  ghost function NameSet(shown: seq<TaskId>): set<Str> {
    set t | t in shown :: t.task
  }

  /** The packages outside the root that have a task of that name. */
  ghost function PackagesWith(shown: seq<TaskId>, name: Str): set<Str> {
    set t | t in shown && t.task == name && !t.IsRoot() :: t.package
  }

  ghost function SharedOf(shown: seq<TaskId>, names: seq<Str>): seq<Str> {
    if names == [] then []
    else SharedOf(shown, names[..|names| - 1]) +
         if SharedName(shown, names[|names| - 1]) then [names[|names| - 1]] else []
  }

  /** The group of a shared name, its packages in ascending order behind what they share. */
  ghost predicate IsNameGroup(g: Group, scope: Option<Str>, shown: seq<TaskId>, name: Str) {
    g.OverPackages? && g.task == name && Factored(g) && (|g.members| <= 1 ==> g.prefix.None?) &&
    Expand(g, scope) == WithName(Ascending(PackagesWith(shown, name)), name)
  }

  /** One such group for each of the names that is shared, in their order. */
  ghost predicate NameList(groups: seq<Placed>, scope: Option<Str>, shown: seq<TaskId>, names: seq<Str>) {
    var shared := SharedOf(shown, names);
    |groups| == |shared| && forall i :: 0 <= i < |groups| ==> IsNameGroup(groups[i].group, scope, shown, shared[i])
  }

  lemma NameListed(groups: seq<Placed>, g: Placed, scope: Option<Str>, shown: seq<TaskId>, names: seq<Str>,
                   tasks: seq<TaskId>, name: Str)
    requires NameList(groups, scope, shown, names) && SharedName(shown, name)
    requires forall t :: t in tasks <==> t in shown && t.task == name
    requires g.group.OverPackages? && g.group.task == name && Factored(g.group)
    requires |g.group.members| <= 1 ==> g.group.prefix.None?
    requires Expand(g.group, scope) == WithName(Ascending(PackagesOf(tasks)), name)
    ensures NameList(groups + [g], scope, shown, names + [name])
  {
    assert PackagesOf(tasks) == PackagesWith(shown, name);
    assert (names + [name])[..|names|] == names;
  }

  lemma NameNotListed(groups: seq<Placed>, scope: Option<Str>, shown: seq<TaskId>, names: seq<Str>, name: Str)
    requires NameList(groups, scope, shown, names) && !SharedName(shown, name)
    ensures NameList(groups, scope, shown, names + [name])
  {
    assert (names + [name])[..|names|] == names;
  }

  lemma KeysAreNames(shown: seq<TaskId>, byName: map<Str, seq<nat>>)
    requires forall k :: k in byName ==> IndicesOf(Names(shown), NoneSkipped(|shown|), k, |shown|) != []
    requires forall k :: k !in byName ==> IndicesOf(Names(shown), NoneSkipped(|shown|), k, |shown|) == []
    ensures byName.Keys == NameSet(shown)
  {
    forall k ensures k in byName <==> k in NameSet(shown) { KeyIsName(shown, k); }
  }

  lemma KeyIsName(shown: seq<TaskId>, k: Str)
    ensures IndicesOf(Names(shown), NoneSkipped(|shown|), k, |shown|) != [] <==> k in NameSet(shown)
  {
    var found := IndicesOf(Names(shown), NoneSkipped(|shown|), k, |shown|);
    IndicesMeaning(Names(shown), NoneSkipped(|shown|), k, |shown|);
    if found != [] {
      var i := found[0];
      assert i in found && Names(shown)[i] == k;
      assert shown[i] in shown;
    }
    if k in NameSet(shown) {
      var t :| t in shown && t.task == k;
      var i :| 0 <= i < |shown| && shown[i] == t;
      assert Names(shown)[i] == k && i in found;
    }
  }

  /** First pass: one group for each name that at least two packages share. */
  method GroupByName(shown: seq<TaskId>, scope: Option<Str>, order: Order)
    returns (groups: seq<Placed>, consumed: seq<bool>)
    requires AllFit(shown, scope)
    ensures NamesDone(shown, groups, consumed, scope, Names(shown))
    ensures order.Deterministic? ==> NameList(groups, scope, shown, Ascending(NameSet(shown)))
  {
    var skip := NoneSkipped(|shown|);
    var byName := GroupIndices(Names(shown), skip);
    var names := Ascending(byName.Keys);
    AscendingIsOrdered(byName.Keys);
    groups, consumed := [], skip;
    assert TasksAt(shown, Marked(consumed)) == {};
    for k := 0 to |names|
      invariant NamesDone(shown, groups, consumed, scope, names[..k])
      invariant order.Deterministic? ==> NameList(groups, scope, shown, names[..k])
    {
      var name := names[k];
      AscendingPrefix(names, k);
      var ids := byName[name];
      IndicesList(Names(shown), skip, name);
      TasksOfName(shown, ids, name);
      var tasks := At(shown, ids);
      TwoPackages(tasks, shown, name);
      if |PackagesOf(tasks)| >= 2 {
        var g := PackageSet(tasks, name, scope, order);
        var after := MarkConsumed(shown, consumed, ids);
        NameStep(shown, ids, name, g, scope, order, groups, consumed, after, names[..k]);
        if order.Deterministic? { NameListed(groups, Placed(ids[0], g), scope, shown, names[..k], tasks, name); }
        groups, consumed := groups + [Placed(ids[0], g)], after;
      } else {
        NameSkipped(shown, groups, consumed, scope, names[..k], name);
        if order.Deterministic? { NameNotListed(groups, scope, shown, names[..k], name); }
      }
    }
    KeysAreNames(shown, byName);
    assert names[..|names|] == names;
    AllNamesDone(shown, groups, consumed, scope, names, byName);
  }

  lemma AllNamesDone(shown: seq<TaskId>, groups: seq<Placed>, consumed: seq<bool>, scope: Option<Str>, names: seq<Str>,
                     byName: map<Str, seq<nat>>)
    requires NamesDone(shown, groups, consumed, scope, names[..|names|])
    requires forall k :: k in byName <==> k in names
    requires forall k :: k !in byName ==> IndicesOf(Names(shown), NoneSkipped(|shown|), k, |shown|) == []
    ensures NamesDone(shown, groups, consumed, scope, Names(shown))
  {
    assert names[..|names|] == names;
    NamesCover(shown, names);
  }

  lemma NamesCover(shown: seq<TaskId>, names: seq<Str>)
    requires forall k :: k !in names ==> IndicesOf(Names(shown), NoneSkipped(|shown|), k, |shown|) == []
    ensures forall i :: 0 <= i < |shown| ==> shown[i].task in names && shown[i].task in Names(shown)
    ensures forall n :: n in Names(shown) ==> n in names
  {
    forall i | 0 <= i < |shown| ensures shown[i].task in names && shown[i].task in Names(shown) {
      IndicesMeaning(Names(shown), NoneSkipped(|shown|), shown[i].task, |shown|);
      assert Names(shown)[i] == shown[i].task;
    }
  }

  lemma AscendingPrefix(keys: seq<Str>, k: nat)
    requires k < |keys| && StrictlyAscending(keys)
    ensures keys[k] in keys && keys[k] !in keys[..k] && keys[..k + 1] == keys[..k] + [keys[k]]
  {
    forall i | 0 <= i < k ensures keys[i] != keys[k] {
      assert Less(keys[i], keys[k]);
      LessTotal(keys[i], keys[k]);
    }
  }

  predicate TaskBelow(s: TaskId, t: TaskId) {
    Less(s.task, t.task)
  }

  /** Writes the tasks of one package as one group. */
  method PackageGroup(tasks: seq<TaskId>, package: Str, scope: Option<Str>, order: Order) returns (g: Group)
    requires forall t :: t in tasks ==> t.package == package && ScopeFits(scope, t)
    requires tasks != []
    ensures g == InPackage(if package == RootPackage then None else Some(Display(package, scope)),
                           Names(if order.Deterministic? then Sort(TaskBelow, tasks) else tasks))
    ensures Expand(g, scope) == if order.Deterministic? then Sort(TaskBelow, tasks) else tasks
  {
    var sorted := if order.Deterministic? then Sort(TaskBelow, tasks) else tasks;
    SortPermutes(TaskBelow, tasks);
    assert tasks[0] in tasks;
    g := InPackage(if package == RootPackage then None else Some(Display(package, scope)), Names(sorted));
    forall i | 0 <= i < |sorted| ensures Expand(g, scope)[i] == sorted[i] {
      assert sorted[i] in sorted;
    }
  }

  lemma RemainingGroup(shown: seq<TaskId>, consumed: seq<bool>, ids: seq<nat>, package: Str, g: Group,
                       scope: Option<Str>)
    requires |consumed| == |shown| && Lists(ids, Packages(shown), consumed, package)
    requires g.InPackage? && multiset(Expand(g, scope)) == multiset(At(shown, ids))
    requires Distinct(shown)
    ensures AtOldest(shown, Placed(ids[0], g), scope)
    ensures multiset(Expand(g, scope)) == multiset(TasksAt(shown, set i | i in ids))
  {
    var tasks := At(shown, ids);
    AtContents(shown, ids);
    SamePermutation(Expand(g, scope), tasks);
    assert ids[0] in ids && shown[ids[0]] in tasks;
    forall j | 0 <= j < ids[0] ensures shown[j] !in tasks {
      assert j !in ids;
    }
    DistinctMultiset(tasks);
    assert TasksAt(shown, set i | i in ids) == set t | t in tasks;
  }

  ghost predicate PackagesTogether(groups: seq<Placed>, scope: Option<Str>, shown: seq<TaskId>, consumed: seq<bool>,
                                   packages: seq<Str>)
    requires |consumed| == |shown|
  {
    forall p :: p in packages ==> PackageTogether(groups, scope, shown, consumed, p)
  }

  lemma RemainingGathered(shown: seq<TaskId>, consumed: seq<bool>, ids: seq<nat>, package: Str, g: Placed,
                          scope: Option<Str>,
                          groups: seq<Placed>, packages: seq<Str>)
    requires |consumed| == |shown| && Lists(ids, Packages(shown), consumed, package)
    requires multiset(Expand(g.group, scope)) == multiset(At(shown, ids))
    ensures PackagesTogether(groups, scope, shown, consumed, packages) ==>
      PackagesTogether(groups + [g], scope, shown, consumed, packages + [package])
  {
    var all := groups + [g];
    AtContents(shown, ids);
    SamePermutation(Expand(g.group, scope), At(shown, ids));
    assert g in all;
    forall i | 0 <= i < |shown| && shown[i].package == package && !consumed[i]
      ensures shown[i] in Expand(g.group, scope)
    {
      assert Packages(shown)[i] == package && i in ids;
    }
    forall p | PackageTogether(groups, scope, shown, consumed, p)
      ensures PackageTogether(all, scope, shown, consumed, p)
    {
      var h :| h in groups &&
               forall i :: 0 <= i < |shown| && shown[i].package == p && !consumed[i] ==>
               shown[i] in Expand(h.group, scope);
      assert h in all;
    }
  }

  /** What the second pass has established after some packages. */
  ghost predicate PackagesDone(shown: seq<TaskId>, groups: seq<Placed>, consumed: seq<bool>, scope: Option<Str>,
                               packages: seq<Str>)
  {
    |consumed| == |shown| && Covers(groups, scope, shown, RemainingIn(shown, consumed, packages)) &&
    GroupsOk(groups, shown, scope) && PackagesTogether(groups, scope, shown, consumed, packages) &&
    PackageGroups(groups)
  }

  lemma TasksOfPackage(shown: seq<TaskId>, consumed: seq<bool>, ids: seq<nat>, package: Str)
    requires |consumed| == |shown| && Lists(ids, Packages(shown), consumed, package)
    ensures At(shown, ids) != [] && forall t :: t in At(shown, ids) ==> t in shown && t.package == package
  {
    AtContents(shown, ids);
  }

  lemma PackageStep(shown: seq<TaskId>, consumed: seq<bool>, ids: seq<nat>, package: Str, g: Group, scope: Option<Str>,
                    groups: seq<Placed>, packages: seq<Str>)
    requires |consumed| == |shown| && Lists(ids, Packages(shown), consumed, package) && package !in packages
    requires g.InPackage? && multiset(Expand(g, scope)) == multiset(At(shown, ids))
    requires PackagesDone(shown, groups, consumed, scope, packages)
    ensures PackagesDone(shown, groups + [Placed(ids[0], g)], consumed, scope, packages + [package])
  {
    var placed, more := Placed(ids[0], g), set i | i in ids;
    RemainingGathered(shown, consumed, ids, package, placed, scope, groups, packages);
    if Distinct(shown) { RemainingGroup(shown, consumed, ids, package, g, scope); }
    OneGroupMore(groups, placed, shown, scope);
    OnePackageMore(shown, consumed, ids, package, packages);
    GroupAdded(groups, placed, scope, shown, RemainingIn(shown, consumed, packages), more);
  }

  lemma OnePackageMore(shown: seq<TaskId>, consumed: seq<bool>, ids: seq<nat>, package: Str, packages: seq<Str>)
    requires |consumed| == |shown| && Lists(ids, Packages(shown), consumed, package) && package !in packages
    ensures RemainingIn(shown, consumed, packages + [package]) ==
            RemainingIn(shown, consumed, packages) + set i | i in ids
    ensures RemainingIn(shown, consumed, packages) !! set i | i in ids
  {
    forall i | 0 <= i < |shown| ensures i in ids <==> shown[i].package == package && !consumed[i] {
      assert Packages(shown)[i] == shown[i].package;
    }
  }

  ghost function RemainingIn(shown: seq<TaskId>, consumed: seq<bool>, packages: seq<Str>): set<nat> {
    set i: nat | i < |shown| && i < |consumed| && !consumed[i] && shown[i].package in packages
  }

  /** The tasks that are left to the second pass. */
  ghost function RestOf(shown: seq<TaskId>, consumed: seq<bool>): set<TaskId>
    requires |consumed| == |shown|
  {
    set i | 0 <= i < |shown| && !consumed[i] :: shown[i]
  }

  ghost function NamesIn(rest: set<TaskId>, package: Str): set<Str> {
    set t | t in rest && t.package == package :: t.task
  }

  ghost function PackageSetOf(rest: set<TaskId>): set<Str> {
    set t | t in rest :: t.package
  }

  /** The group of a package, its tasks by ascending name. */
  ghost predicate IsPackageGroup(g: Group, scope: Option<Str>, rest: set<TaskId>, package: Str) {
    g == InPackage(if package == RootPackage then None else Some(Display(package, scope)),
                   Ascending(NamesIn(rest, package)))
  }

  /** One such group for each package, in their order. */
  ghost predicate PackageList(groups: seq<Placed>, scope: Option<Str>, rest: set<TaskId>, packages: seq<Str>) {
    |groups| == |packages| &&
    forall i :: 0 <= i < |groups| ==> IsPackageGroup(groups[i].group, scope, rest, packages[i])
  }

  lemma DistinctNames(tasks: seq<TaskId>, package: Str)
    requires Distinct(tasks) && forall t :: t in tasks ==> t.package == package
    ensures StrictlyAscending(Names(Sort(TaskBelow, tasks)))
  {
    var sorted := Sort(TaskBelow, tasks);
    TaskOrder();
    SortSorts(TaskBelow, tasks);
    SortPermutes(TaskBelow, tasks);
    SortedDistinct(tasks);
    forall i, j | 0 <= i < j < |sorted| ensures Less(sorted[i].task, sorted[j].task) {
      assert sorted[i] in sorted && sorted[j] in sorted;
      assert sorted[i] == TaskId(package, sorted[i].task) && sorted[j] == TaskId(package, sorted[j].task);
      LessTotal(sorted[i].task, sorted[j].task);
    }
  }

  lemma SortedDistinct(tasks: seq<TaskId>)
    requires Distinct(tasks)
    ensures Distinct(Sort(TaskBelow, tasks))
  {
    var sorted := Sort(TaskBelow, tasks);
    SortPermutes(TaskBelow, tasks);
    forall i, j | 0 <= i < j < |sorted| ensures sorted[i] != sorted[j] {
      DistinctMultiset(tasks);
      assert sorted == sorted[..i] + [sorted[i]] + sorted[i + 1..j] + [sorted[j]] + sorted[j + 1..];
      assert multiset(sorted)[sorted[i]] <= 1;
    }
  }

  lemma TaskOrder()
    ensures WeakOrder(TaskBelow)
  {
    forall s, t | TaskBelow(s, t) ensures !TaskBelow(t, s) { LessTotal(s.task, t.task); }
    forall s, t, u | !TaskBelow(s, t) && !TaskBelow(t, u) ensures !TaskBelow(s, u) {
      LessTotal(s.task, t.task);
      LessTotal(t.task, u.task);
      LessTotal(s.task, u.task);
      if Less(t.task, s.task) && Less(u.task, t.task) { LessTransitive(u.task, t.task, s.task); }
    }
  }

  lemma SortedNames(shown: seq<TaskId>, consumed: seq<bool>, ids: seq<nat>, package: Str)
    requires |consumed| == |shown| && Lists(ids, Packages(shown), consumed, package) && Distinct(shown)
    ensures Names(Sort(TaskBelow, At(shown, ids))) == Ascending(NamesIn(RestOf(shown, consumed), package))
  {
    var tasks, names := At(shown, ids), NamesIn(RestOf(shown, consumed), package);
    var sorted := Sort(TaskBelow, tasks);
    TasksOfPackage(shown, consumed, ids, package);
    RestInPackage(shown, consumed, ids, package);
    AtContents(shown, ids);
    DistinctNames(tasks, package);
    SortPermutes(TaskBelow, tasks);
    AscendingIsOrdered(names);
    forall n ensures n in Names(sorted) <==> n in names { NameInSorted(sorted, tasks, n); }
    AscendingUnique(Names(sorted), Ascending(names));
  }

  lemma NameInSorted(sorted: seq<TaskId>, tasks: seq<TaskId>, n: Str)
    requires forall t :: t in sorted <==> t in tasks
    ensures n in Names(sorted) <==> exists t :: t in tasks && t.task == n
  {
    if n in Names(sorted) {
      var i :| 0 <= i < |sorted| && Names(sorted)[i] == n;
      assert sorted[i] in sorted;
    }
    if t :| t in tasks && t.task == n {
      var i :| 0 <= i < |sorted| && sorted[i] == t;
      assert Names(sorted)[i] == n;
    }
  }

  lemma RestInPackage(shown: seq<TaskId>, consumed: seq<bool>, ids: seq<nat>, package: Str)
    requires |consumed| == |shown| && Lists(ids, Packages(shown), consumed, package)
    ensures forall t :: t in At(shown, ids) <==> t in RestOf(shown, consumed) && t.package == package
  {
    AtContents(shown, ids);
    forall t | t in RestOf(shown, consumed) && t.package == package ensures t in At(shown, ids) {
      var i :| 0 <= i < |shown| && !consumed[i] && shown[i] == t;
      assert Packages(shown)[i] == package && i in ids;
    }
    forall t | t in At(shown, ids) ensures t in RestOf(shown, consumed) && t.package == package {
      var i :| i in ids && shown[i] == t;
      assert Packages(shown)[i] == package && !consumed[i];
    }
  }

  lemma PackageListed(shown: seq<TaskId>, consumed: seq<bool>, ids: seq<nat>, package: Str, scope: Option<Str>,
                      groups: seq<Placed>, g: Placed, packages: seq<Str>)
    requires |consumed| == |shown| && Lists(ids, Packages(shown), consumed, package) && Distinct(shown)
    requires PackageList(groups, scope, RestOf(shown, consumed), packages)
    requires g.group == InPackage(if package == RootPackage then None else Some(Display(package, scope)),
                                  Names(Sort(TaskBelow, At(shown, ids))))
    ensures PackageList(groups + [g], scope, RestOf(shown, consumed), packages + [package])
  {
    SortedNames(shown, consumed, ids, package);
  }

  lemma KeysArePackages(shown: seq<TaskId>, consumed: seq<bool>, byPackage: map<Str, seq<nat>>)
    requires |consumed| == |shown|
    requires forall k :: k in byPackage ==> IndicesOf(Packages(shown), consumed, k, |shown|) != []
    requires forall k :: k !in byPackage ==> IndicesOf(Packages(shown), consumed, k, |shown|) == []
    ensures byPackage.Keys == PackageSetOf(RestOf(shown, consumed))
  {
    forall k ensures k in byPackage <==> k in PackageSetOf(RestOf(shown, consumed)) {
      KeyIsPackage(shown, consumed, k);
    }
  }

  lemma KeyIsPackage(shown: seq<TaskId>, consumed: seq<bool>, k: Str)
    requires |consumed| == |shown|
    ensures IndicesOf(Packages(shown), consumed, k, |shown|) != [] <==> k in PackageSetOf(RestOf(shown, consumed))
  {
    var found := IndicesOf(Packages(shown), consumed, k, |shown|);
    IndicesMeaning(Packages(shown), consumed, k, |shown|);
    if found != [] {
      var i := found[0];
      assert i in found && Packages(shown)[i] == k && !consumed[i];
      assert shown[i] in RestOf(shown, consumed);
    }
    if k in PackageSetOf(RestOf(shown, consumed)) {
      var i :| 0 <= i < |shown| && !consumed[i] && shown[i].package == k;
      assert Packages(shown)[i] == k && i in found;
    }
  }

  /** Second pass: what is left, one group for each package. */
  method GroupRemaining(shown: seq<TaskId>, consumed: seq<bool>, scope: Option<Str>, order: Order)
    returns (groups: seq<Placed>)
    requires AllFit(shown, scope) && |consumed| == |shown|
    ensures Covers(groups, scope, shown, RemainingIn(shown, consumed, Packages(shown))) &&
            GroupsOk(groups, shown, scope)
    ensures PackageGroups(groups)
    ensures forall i :: 0 <= i < |shown| && !consumed[i] ==>
              PackageTogether(groups, scope, shown, consumed, shown[i].package)
    ensures order.Deterministic? && Distinct(shown) ==>
              PackageList(groups, scope, RestOf(shown, consumed), Ascending(PackageSetOf(RestOf(shown, consumed))))
  {
    var byPackage := GroupIndices(Packages(shown), consumed);
    var packages := Ascending(byPackage.Keys);
    AscendingIsOrdered(byPackage.Keys);
    groups := [];
    assert TasksAt(shown, RemainingIn(shown, consumed, [])) == {};
    for k := 0 to |packages|
      invariant PackagesDone(shown, groups, consumed, scope, packages[..k])
      invariant order.Deterministic? && Distinct(shown) ==>
                  PackageList(groups, scope, RestOf(shown, consumed), packages[..k])
    {
      var package := packages[k];
      AscendingPrefix(packages, k);
      var ids := byPackage[package];
      IndicesList(Packages(shown), consumed, package);
      TasksOfPackage(shown, consumed, ids, package);
      var g := PackageGroup(At(shown, ids), package, scope, order);
      SortPermutes(TaskBelow, At(shown, ids));
      PackageStep(shown, consumed, ids, package, g, scope, groups, packages[..k]);
      if order.Deterministic? && Distinct(shown) {
        PackageListed(shown, consumed, ids, package, scope, groups, Placed(ids[0], g), packages[..k]);
      }
      groups := groups + [Placed(ids[0], g)];
    }
    AllRemaining(shown, consumed, packages);
    KeysArePackages(shown, consumed, byPackage);
  }

  lemma AllRemaining(shown: seq<TaskId>, consumed: seq<bool>, packages: seq<Str>)
    requires |consumed| == |shown|
    requires forall k :: k !in packages ==> IndicesOf(Packages(shown), consumed, k, |shown|) == []
    ensures packages[..|packages|] == packages
    ensures RemainingIn(shown, consumed, packages) == RemainingIn(shown, consumed, Packages(shown))
    ensures forall i :: 0 <= i < |shown| && !consumed[i] ==> shown[i].package in packages
  {
    forall i | 0 <= i < |shown| && !consumed[i]
      ensures shown[i].package in packages && shown[i].package in Packages(shown)
    {
      IndicesMeaning(Packages(shown), consumed, shown[i].package, |shown|);
      assert Packages(shown)[i] == shown[i].package;
    }
  }

  // ---------------------------------------------------------------- the whole list

  predicate Older(a: Placed, b: Placed) {
    a.position < b.position
  }

  lemma {:induction false} FlatInserted(x: Placed, groups: seq<Placed>, scope: Option<Str>)
    ensures multiset(Flat(Insert(Older, x, groups), scope)) ==
            multiset(Expand(x.group, scope)) + multiset(Flat(groups, scope))
  {
    if groups != [] && Older(groups[0], x) {
      FlatInserted(x, groups[1..], scope);
      FlatStep(groups[0], Insert(Older, x, groups[1..]), scope);
    } else {
      FlatStep(x, groups, scope);
    }
  }

  lemma {:induction false} FlatSorted(groups: seq<Placed>, scope: Option<Str>)
    ensures multiset(Flat(Sort(Older, groups), scope)) == multiset(Flat(groups, scope))
  {
    if groups != [] {
      FlatSorted(groups[1..], scope);
      FlatInserted(groups[0], Sort(Older, groups[1..]), scope);
    }
  }

  lemma Partition(shown: seq<TaskId>, consumed: seq<bool>, named: seq<Placed>, rest: seq<Placed>, scope: Option<Str>)
    requires |consumed| == |shown| && Distinct(shown)
    requires Covers(named, scope, shown, Marked(consumed))
    requires Covers(rest, scope, shown, RemainingIn(shown, consumed, Packages(shown)))
    ensures multiset(Flat(named + rest, scope)) == multiset(shown)
  {
    var a, b := TasksAt(shown, Marked(consumed)), TasksAt(shown, RemainingIn(shown, consumed, Packages(shown)));
    TwoParts(shown, consumed);
    DisjointUnion(a, b);
    DistinctMultiset(shown);
    FlatConcat(named, rest, scope);
  }

  lemma TwoParts(shown: seq<TaskId>, consumed: seq<bool>)
    requires |consumed| == |shown| && Distinct(shown)
    ensures TasksAt(shown, Marked(consumed)) !! TasksAt(shown, RemainingIn(shown, consumed, Packages(shown)))
    ensures TasksAt(shown, Marked(consumed)) + TasksAt(shown, RemainingIn(shown, consumed, Packages(shown))) ==
            set t | t in shown
  {
    var marked, remaining := Marked(consumed), RemainingIn(shown, consumed, Packages(shown));
    forall t | t in shown ensures t in TasksAt(shown, marked) + TasksAt(shown, remaining) {
      var i :| 0 <= i < |shown| && shown[i] == t;
      assert Packages(shown)[i] == t.package;
      assert i in marked || i in remaining;
    }
    assert marked !! remaining;
  }

  /** One group holds the tasks of a package that share their name with no other package. */
  ghost predicate LeftoversTogether(groups: seq<Placed>, scope: Option<Str>, shown: seq<TaskId>, package: Str) {
    exists g :: g in groups &&
      forall t :: t in shown && t.package == package && Leftover(shown, t) ==> t in Expand(g.group, scope)
  }

  ghost predicate Leftover(shown: seq<TaskId>, t: TaskId) {
    t.IsRoot() || !SharedName(shown, t.task)
  }

  /** Every task stands beside the others of its shared name, or else of its package. */
  ghost predicate Gathered(groups: seq<Placed>, scope: Option<Str>, shown: seq<TaskId>) {
    (forall n {:trigger NameTogether(groups, scope, shown, n)} ::
       SharedName(shown, n) ==> NameTogether(groups, scope, shown, n)) &&
    forall t {:trigger LeftoversTogether(groups, scope, shown, t.package)} ::
      t in shown && Leftover(shown, t) ==> LeftoversTogether(groups, scope, shown, t.package)
  }

  lemma GroupsGather(shown: seq<TaskId>, consumed: seq<bool>, named: seq<Placed>, rest: seq<Placed>, scope: Option<Str>)
    requires NamesDone(shown, named, consumed, scope, Names(shown))
    requires forall i :: 0 <= i < |shown| && !consumed[i] ==>
               PackageTogether(rest, scope, shown, consumed, shown[i].package)
    ensures Gathered(named + rest, scope, shown)
  {
    var all := named + rest;
    forall n | SharedName(shown, n) ensures NameTogether(all, scope, shown, n) {
      var s :| s in shown && s.task == n;
      var i :| 0 <= i < |shown| && shown[i] == s;
      assert Names(shown)[i] == n;
      var g :| g in named && forall t :: t in shown && !t.IsRoot() && t.task == n ==> t in Expand(g.group, scope);
      assert g in all;
    }
    forall t | t in shown && Leftover(shown, t) ensures LeftoversTogether(all, scope, shown, t.package) {
      var i :| 0 <= i < |shown| && shown[i] == t;
      var g :| g in rest &&
               forall j :: 0 <= j < |shown| && shown[j].package == t.package && !consumed[j] ==>
               shown[j] in Expand(g.group, scope);
      assert g in all;
    }
  }

  lemma GatheredPermuted(a: seq<Placed>, b: seq<Placed>, scope: Option<Str>, shown: seq<TaskId>)
    requires Gathered(a, scope, shown) && forall g :: g in a ==> g in b
    ensures Gathered(b, scope, shown)
  {
    forall n | NameTogether(a, scope, shown, n) ensures NameTogether(b, scope, shown, n) {
      var g :| g in a && forall t :: t in shown && !t.IsRoot() && t.task == n ==> t in Expand(g.group, scope);
      assert g in b;
    }
    forall p | LeftoversTogether(a, scope, shown, p) ensures LeftoversTogether(b, scope, shown, p) {
      var g :| g in a && forall t :: t in shown && t.package == p && Leftover(shown, t) ==> t in Expand(g.group, scope);
      assert g in b;
    }
  }

  lemma InEither(a: seq<TaskId>, b: seq<TaskId>, t: TaskId)
    ensures t in a + b <==> t in a || t in b
  {
  }

  lemma {:induction false} FlatMember(groups: seq<Placed>, scope: Option<Str>, t: TaskId) returns (i: nat)
    requires t in Flat(groups, scope)
    ensures i < |groups| && t in Expand(groups[i].group, scope)
  {
    var first, rest := Expand(groups[0].group, scope), groups[1..];
    InEither(first, Flat(rest, scope), t);
    if t in first {
      i := 0;
    } else {
      var k := FlatMember(rest, scope, t);
      assert rest[k] == groups[k + 1];
      i := k + 1;
    }
  }

  lemma {:induction false} MemberOfFlat(groups: seq<Placed>, scope: Option<Str>, i: nat, t: TaskId)
    requires i < |groups| && t in Expand(groups[i].group, scope)
    ensures t in Flat(groups, scope)
  {
    InEither(Expand(groups[0].group, scope), Flat(groups[1..], scope), t);
    if i > 0 {
      assert groups[1..][i - 1] == groups[i];
      MemberOfFlat(groups[1..], scope, i - 1, t);
    }
  }

  /** A group over packages gathers a shared name; a group in a package holds leftovers. */
  ghost predicate Rightful(groups: seq<Placed>, scope: Option<Str>, shown: seq<TaskId>) {
    forall g :: g in groups ==>
      if g.group.OverPackages? then NameGroupOf(g.group, scope, shown)
      else forall t :: t in Expand(g.group, scope) ==> Leftover(shown, t)
  }

  lemma RemainingAreLeftovers(shown: seq<TaskId>, consumed: seq<bool>, rest: seq<Placed>, scope: Option<Str>,
                              g: Placed, t: TaskId)
    requires Distinct(shown) && |consumed| == |shown| && ConsumedNames(shown, consumed, Names(shown))
    requires Covers(rest, scope, shown, RemainingIn(shown, consumed, Packages(shown)))
    requires g in rest && t in Expand(g.group, scope)
    ensures Leftover(shown, t)
  {
    var i :| 0 <= i < |rest| && rest[i] == g;
    MemberOfFlat(rest, scope, i, t);
    assert t in multiset(Flat(rest, scope)) && t in TasksAt(shown, RemainingIn(shown, consumed, Packages(shown)));
    var k :| 0 <= k < |shown| && shown[k] == t && !consumed[k];
    assert Names(shown)[k] == t.task;
  }

  lemma GroupsRightful(shown: seq<TaskId>, consumed: seq<bool>, named: seq<Placed>, rest: seq<Placed>,
                       scope: Option<Str>)
    requires Distinct(shown) && NamesDone(shown, named, consumed, scope, Names(shown)) && PackageGroups(rest)
    requires Covers(rest, scope, shown, RemainingIn(shown, consumed, Packages(shown)))
    ensures Rightful(named + rest, scope, shown)
  {
    forall g, t | g in rest && t in Expand(g.group, scope) ensures Leftover(shown, t) {
      RemainingAreLeftovers(shown, consumed, rest, scope, g, t);
    }
  }

  // ---------------------------------------------------------------- oldest first

  /** By position; at one position a group over packages stands in front of a group in a package. */
  predicate Ahead(a: Placed, b: Placed) {
    a.position < b.position || (a.position == b.position && a.group.OverPackages? && b.group.InPackage?)
  }

  ghost predicate SortedByAge(groups: seq<Placed>) {
    SortedBy(Ahead, groups)
  }

  /** A stable sort by position keeps the groups of the first pass in front of those of the second. */
  lemma {:induction false} StableByAge(named: seq<Placed>, rest: seq<Placed>)
    requires (forall g :: g in named ==> g.group.OverPackages?) && PackageGroups(rest)
    ensures Sort(Older, named + rest) == Sort(Ahead, named + rest)
  {
    if named != [] {
      assert (named + rest)[1..] == named[1..] + rest && named[0] in named;
      StableByAge(named[1..], rest);
      SameInsert(named[0], Sort(Older, named[1..] + rest));
    } else if rest != [] {
      assert named + rest == rest && named + rest[1..] == rest[1..] && rest[0] in rest;
      StableByAge(named, rest[1..]);
      SortPermutes(Older, rest[1..]);
      SameInsert(rest[0], Sort(Older, rest[1..]));
    }
  }

  lemma {:induction false} SameInsert(x: Placed, groups: seq<Placed>)
    requires x.group.OverPackages? || PackageGroups(groups)
    ensures Insert(Older, x, groups) == Insert(Ahead, x, groups)
  {
    if groups != [] {
      assert groups[0] in groups;
      SameInsert(x, groups[1..]);
    }
  }

  ghost function Leftovers(shown: seq<TaskId>): set<TaskId> {
    set t | t in shown && Leftover(shown, t)
  }

  /** The shared names in ascending order, then the packages of what is left in ascending order. */
  ghost predicate DeterministicList(groups: seq<Placed>, shown: seq<TaskId>, scope: Option<Str>) {
    var n := |SharedOf(shown, Ascending(NameSet(shown)))|;
    n <= |groups| && NameList(groups[..n], scope, shown, Ascending(NameSet(shown))) &&
    PackageList(groups[n..], scope, Leftovers(shown), Ascending(PackageSetOf(Leftovers(shown))))
  }

  lemma InDeterministicOrder(named: seq<Placed>, rest: seq<Placed>, shown: seq<TaskId>, consumed: seq<bool>,
                             scope: Option<Str>)
    requires |consumed| == |shown| && ConsumedNames(shown, consumed, Names(shown))
    requires NameList(named, scope, shown, Ascending(NameSet(shown)))
    requires PackageList(rest, scope, RestOf(shown, consumed), Ascending(PackageSetOf(RestOf(shown, consumed))))
    ensures DeterministicList(named + rest, shown, scope)
  {
    forall i | 0 <= i < |shown| ensures shown[i].task in Names(shown) { assert Names(shown)[i] == shown[i].task; }
    forall t ensures t in RestOf(shown, consumed) <==> t in Leftovers(shown) {
      if t in Leftovers(shown) { var i :| 0 <= i < |shown| && shown[i] == t; }
    }
    assert RestOf(shown, consumed) == Leftovers(shown);
    assert (named + rest)[..|named|] == named && (named + rest)[|named|..] == rest;
  }

  /** The whole list: expanding its groups gives back the tasks shown, each exactly once. */
  method RenderTaskGroups(shown: seq<TaskId>, order: Order) returns (groups: seq<Placed>)
    ensures Distinct(shown) ==>
            multiset(Flat(groups, SharedScope(shown))) == multiset(shown) && Rightful(groups, SharedScope(shown), shown)
    ensures GroupsOk(groups, shown, SharedScope(shown)) && Gathered(groups, SharedScope(shown), shown)
    ensures order.OldestFirst? ==> SortedByAge(groups)
    ensures order.Deterministic? && Distinct(shown) ==> DeterministicList(groups, shown, SharedScope(shown))
  {
    var scope := SharedScope(shown);
    forall t | t in shown ensures ScopeFits(scope, t) { SharedScopeFits(shown, t); }
    var named, consumed := GroupByName(shown, scope, order);
    var rest := GroupRemaining(shown, consumed, scope, order);
    if Distinct(shown) {
      Partition(shown, consumed, named, rest, scope);
      GroupsRightful(shown, consumed, named, rest, scope);
    }
    GroupsGather(shown, consumed, named, rest, scope);
    groups := named + rest;
    if order.Deterministic? && Distinct(shown) { InDeterministicOrder(named, rest, shown, consumed, scope); }
    if order.OldestFirst? {
      SortedList(groups, shown, scope);
      StableByAge(named, rest);
      AheadSorts(named + rest);
      groups := Sort(Older, groups);
    }
  }

  lemma AheadSorts(groups: seq<Placed>)
    ensures SortedByAge(Sort(Ahead, groups))
  {
    SortSorts(Ahead, groups);
  }

  /** Sorting by position loses nothing. */
  lemma SortedList(groups: seq<Placed>, shown: seq<TaskId>, scope: Option<Str>)
    requires GroupsOk(groups, shown, scope) && Gathered(groups, scope, shown)
    ensures multiset(Flat(Sort(Older, groups), scope)) == multiset(Flat(groups, scope))
    ensures GroupsOk(Sort(Older, groups), shown, scope) && Gathered(Sort(Older, groups), scope, shown)
    ensures Rightful(groups, scope, shown) ==> Rightful(Sort(Older, groups), scope, shown)
  {
    FlatSorted(groups, scope);
    SortPermutes(Older, groups);
    GatheredPermuted(groups, Sort(Older, groups), scope, shown);
  }
}
