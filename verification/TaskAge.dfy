/** Exactly when the list of running tasks is in age order. */
module TaskAge {
  import opened Basics
  import opened Sorting
  import opened Tasks
  import opened TaskPrefixes
  import opened TaskList

  /** Whatever a group holds, each group in front of it holds something at least as old. */
  ghost predicate AgeOrdered(groups: seq<Placed>, shown: seq<TaskId>, scope: Option<Str>) {
    forall i, j, n :: 0 <= i < j < |groups| && 0 <= n < |shown| && shown[n] in Expand(groups[j].group, scope) ==>
      exists m :: 0 <= m <= n && shown[m] in Expand(groups[i].group, scope)
  }

  /** What is promised of an oldest-first list of distinct tasks. */
  ghost predicate OldestFirstList(groups: seq<Placed>, shown: seq<TaskId>, scope: Option<Str>) {
    Distinct(shown) && multiset(Flat(groups, scope)) == multiset(shown) && GroupsOk(groups, shown, scope) &&
    Gathered(groups, scope, shown) && Rightful(groups, scope, shown) && SortedByAge(groups)
  }

  // ---------------------------------------------------------------- each task in one group

  lemma {:induction false} AtMostOnce(shown: seq<TaskId>, t: TaskId)
    requires Distinct(shown)
    ensures multiset(shown)[t] <= 1
  {
    DistinctMultiset(shown);
  }

  lemma {:induction false} CountedTwice(groups: seq<Placed>, scope: Option<Str>, i: nat, j: nat, t: TaskId)
    requires i < j < |groups| && t in Expand(groups[i].group, scope) && t in Expand(groups[j].group, scope)
    ensures multiset(Flat(groups, scope))[t] >= 2
  {
    if i == 0 {
      CountedAgain(groups, scope, j, t);
    } else {
      Shifted(groups, i);
      Shifted(groups, j);
      CountedTwice(groups[1..], scope, i - 1, j - 1, t);
      FlatCount(groups, scope, t);
    }
  }

  lemma Shifted(groups: seq<Placed>, i: nat)
    requires 0 < i < |groups|
    ensures groups[1..][i - 1] == groups[i]
  {
  }

  lemma CountedAgain(groups: seq<Placed>, scope: Option<Str>, j: nat, t: TaskId)
    requires 0 < j < |groups| && t in Expand(groups[0].group, scope) && t in Expand(groups[j].group, scope)
    ensures multiset(Flat(groups, scope))[t] >= 2
  {
    Shifted(groups, j);
    MemberOfFlat(groups[1..], scope, j - 1, t);
    FlatCount(groups, scope, t);
  }

  lemma FlatCount(groups: seq<Placed>, scope: Option<Str>, t: TaskId)
    requires groups != []
    ensures multiset(Flat(groups, scope))[t] ==
            multiset(Expand(groups[0].group, scope))[t] + multiset(Flat(groups[1..], scope))[t]
    ensures t in Expand(groups[0].group, scope) ==> multiset(Expand(groups[0].group, scope))[t] >= 1
    ensures t in Flat(groups[1..], scope) ==> multiset(Flat(groups[1..], scope))[t] >= 1
  {
    SumOfParts(Expand(groups[0].group, scope), Flat(groups[1..], scope), t);
  }

  lemma SumOfParts(a: seq<TaskId>, b: seq<TaskId>, t: TaskId)
    ensures multiset(a + b)[t] == multiset(a)[t] + multiset(b)[t]
    ensures (t in a ==> multiset(a)[t] >= 1) && (t in b ==> multiset(b)[t] >= 1)
  {
  }

  lemma OneGroup(groups: seq<Placed>, shown: seq<TaskId>, scope: Option<Str>, i: nat, j: nat, t: TaskId)
    requires OldestFirstList(groups, shown, scope) && i < |groups| && j < |groups|
    requires t in Expand(groups[i].group, scope) && t in Expand(groups[j].group, scope)
    ensures i == j
  {
    AtMostOnce(shown, t);
    if i < j { CountedTwice(groups, scope, i, j, t); }
    if j < i { CountedTwice(groups, scope, j, i, t); }
  }

  lemma GroupOf(groups: seq<Placed>, shown: seq<TaskId>, scope: Option<Str>, k: nat) returns (j: nat)
    requires OldestFirstList(groups, shown, scope) && k < |shown|
    ensures j < |groups| && shown[k] in Expand(groups[j].group, scope)
  {
    SamePermutation(Flat(groups, scope), shown);
    assert shown[k] in shown;
    j := FlatMember(groups, scope, shown[k]);
  }

  // ---------------------------------------------------------------- where the group of a task stands

  /** Task j counts for the place of the group that holds task k: the name, or else the package, decides. */
  ghost predicate Counts(shown: seq<TaskId>, j: nat, k: nat)
    requires j < |shown| && k < |shown|
  {
    if Leftover(shown, shown[k]) then Leftover(shown, shown[j]) && shown[j].package == shown[k].package
    else shown[j].task == shown[k].task
  }

  lemma Members(groups: seq<Placed>, shown: seq<TaskId>, scope: Option<Str>, i: nat, t: TaskId)
    requires OldestFirstList(groups, shown, scope) && i < |groups| && t in Expand(groups[i].group, scope)
    ensures t in shown && AtOldest(shown, groups[i], scope)
    ensures groups[i].group.OverPackages? ==>
            NameGroupOf(groups[i].group, scope, shown) && t.task == groups[i].group.task && !t.IsRoot()
    ensures groups[i].group.InPackage? ==> Leftover(shown, t)
  {
    assert groups[i] in groups;
    MemberOfFlat(groups, scope, i, t);
    SamePermutation(Flat(groups, scope), shown);
  }

  /** A group stands at the first task that counts for its place. */
  lemma StandsAt(groups: seq<Placed>, shown: seq<TaskId>, scope: Option<Str>, i: nat, k: nat)
    requires OldestFirstList(groups, shown, scope) && i < |groups| && k < |shown| &&
             shown[k] in Expand(groups[i].group, scope)
    ensures groups[i].position <= k && Counts(shown, groups[i].position, k)
    ensures forall j :: 0 <= j < groups[i].position ==> !Counts(shown, j, k)
  {
    Members(groups, shown, scope, i, shown[k]);
    if groups[i].group.InPackage? {
      Members(groups, shown, scope, i, shown[groups[i].position]);
      forall j | 0 <= j < groups[i].position ensures !Counts(shown, j, k) {
        LeftoverJoins(groups, shown, scope, i, k, j);
      }
    }
  }

  lemma LeftoverJoins(groups: seq<Placed>, shown: seq<TaskId>, scope: Option<Str>, i: nat, k: nat, j: nat)
    requires OldestFirstList(groups, shown, scope) && i < |groups| && k < |shown| && j < |shown|
    requires groups[i].group.InPackage? && shown[k] in Expand(groups[i].group, scope) && Leftover(shown, shown[k])
    ensures Counts(shown, j, k) ==> shown[j] in Expand(groups[i].group, scope)
  {
    assert shown[k] in shown && shown[j] in shown;
    assert LeftoversTogether(groups, scope, shown, shown[k].package);
    var g :| g in groups &&
             forall t :: t in shown && t.package == shown[k].package && Leftover(shown, t) ==>
             t in Expand(g.group, scope);
    var b :| 0 <= b < |groups| && groups[b] == g;
    OneGroup(groups, shown, scope, i, b, shown[k]);
  }

  // ---------------------------------------------------------------- the exact condition

  /** The first task of a shared name is the root's, at r; the first other one is at m. */
  ghost predicate LedByRoot(shown: seq<TaskId>, r: nat, m: nat) {
    r < m < |shown| && shown[r].IsRoot() && !shown[m].IsRoot() && shown[m].task == shown[r].task &&
    SharedName(shown, shown[r].task) && forall i :: 0 <= i < m && shown[i].task == shown[r].task ==> i == r
  }

  /** The group of task k starts before r. */
  ghost predicate StartsBefore(shown: seq<TaskId>, r: nat, k: nat)
    requires r <= k < |shown|
  {
    exists j :: 0 <= j < r && Counts(shown, j, k)
  }

  /**
   * Every task that is not older than such a root task, but older than the others of its name, is
   * in a group that starts before.
   */
  ghost predicate RootsHarmless(shown: seq<TaskId>) {
    forall r: nat, m: nat, k: nat :: r <= k < m && LedByRoot(shown, r, m) ==> StartsBefore(shown, r, k)
  }

  lemma {:induction false} FirstOther(shown: seq<TaskId>, name: Str, from: nat) returns (m: nat)
    requires exists i :: from <= i < |shown| && !shown[i].IsRoot() && shown[i].task == name
    ensures from <= m < |shown| && !shown[m].IsRoot() && shown[m].task == name
    ensures forall i :: from <= i < m && shown[i].task == name ==> shown[i].IsRoot()
    decreases |shown| - from
  {
    if !shown[from].IsRoot() && shown[from].task == name {
      m := from;
    } else {
      m := FirstOther(shown, name, from + 1);
    }
  }

  /** A name group that stands at a root task is led by it. */
  lemma LedGroup(groups: seq<Placed>, shown: seq<TaskId>, scope: Option<Str>, i: nat) returns (m: nat)
    requires OldestFirstList(groups, shown, scope) && i < |groups| && groups[i].group.OverPackages?
    requires AtOldest(shown, groups[i], scope) && shown[groups[i].position].IsRoot()
    ensures LedByRoot(shown, groups[i].position, m) && shown[m] in Expand(groups[i].group, scope)
  {
    GroupFacts(groups, shown, scope, i);
    m := LedAt(shown, groups[i], scope);
  }

  lemma LedAt(shown: seq<TaskId>, g: Placed, scope: Option<Str>) returns (m: nat)
    requires Distinct(shown) && g.group.OverPackages? && NameGroupOf(g.group, scope, shown) && g.position < |shown|
    requires shown[g.position] == TaskId(RootPackage, g.group.task)
    requires forall j :: 0 <= j < g.position ==> shown[j].task != g.group.task
    ensures LedByRoot(shown, g.position, m) && shown[m] in Expand(g.group, scope)
  {
    var name := g.group.task;
    var s :| s in shown && !s.IsRoot() && s.task == name;
    var n :| 0 <= n < |shown| && shown[n] == s;
    m := FirstOther(shown, name, 0);
    assert shown[m] in shown;
    forall i | 0 <= i < m && shown[i].task == name ensures i == g.position {
      assert shown[i] == TaskId(RootPackage, name);
    }
  }

  lemma HarmlessMeansOrdered(groups: seq<Placed>, shown: seq<TaskId>, scope: Option<Str>, i: nat, j: nat, n: nat)
    returns (m: nat)
    requires OldestFirstList(groups, shown, scope) && RootsHarmless(shown)
    requires i < j < |groups| && n < |shown| && shown[n] in Expand(groups[j].group, scope)
    ensures m <= n && shown[m] in Expand(groups[i].group, scope)
  {
    var r := groups[i].position;
    InOrder(groups, shown, scope, i, j);
    StandsAt(groups, shown, scope, j, n);
    assert !StartsBefore(shown, r, n);
    m := r;
    if shown[r] !in Expand(groups[i].group, scope) { m := LedGroup(groups, shown, scope, i); }
  }

  lemma InOrder(groups: seq<Placed>, shown: seq<TaskId>, scope: Option<Str>, i: nat, j: nat)
    requires OldestFirstList(groups, shown, scope) && i < j < |groups|
    ensures groups[i].position <= groups[j].position && AtOldest(shown, groups[i], scope)
  {
    assert groups[i] in groups && !Ahead(groups[j], groups[i]);
  }

  /** The group of a name that the root leads stands at the root's task. */
  lemma LedGroupStands(groups: seq<Placed>, shown: seq<TaskId>, scope: Option<Str>, r: nat, m: nat) returns (i: nat)
    requires OldestFirstList(groups, shown, scope) && LedByRoot(shown, r, m)
    ensures i < |groups| && groups[i].group.OverPackages? && groups[i].group.task == shown[r].task &&
            groups[i].position == r
    ensures forall k :: 0 <= k < m ==> shown[k] !in Expand(groups[i].group, scope)
  {
    i := GroupOf(groups, shown, scope, m);
    Members(groups, shown, scope, i, shown[m]);
    assert shown[m] in shown && !Leftover(shown, shown[m]);
    AtFirstOfName(shown, groups[i], scope, r, m);
  }

  lemma AtFirstOfName(shown: seq<TaskId>, g: Placed, scope: Option<Str>, r: nat, m: nat)
    requires LedByRoot(shown, r, m) && AtOldest(shown, g, scope) && g.group.OverPackages? &&
             g.group.task == shown[r].task
    ensures g.position == r && forall k :: 0 <= k < m ==> shown[k] !in Expand(g.group, scope)
  {
    assert shown[r].task == g.group.task && shown[g.position].task == g.group.task;
    assert forall t :: t in Expand(g.group, scope) ==> t.task == g.group.task && !t.IsRoot();
  }

  lemma HarmfulMeansUnordered(groups: seq<Placed>, shown: seq<TaskId>, scope: Option<Str>, r: nat, m: nat, k: nat)
    requires OldestFirstList(groups, shown, scope) && LedByRoot(shown, r, m) && r <= k < m
    requires !StartsBefore(shown, r, k)
    ensures !AgeOrdered(groups, shown, scope)
  {
    var i := LedGroupStands(groups, shown, scope, r, m);
    var j := GroupOf(groups, shown, scope, k);
    StandsAt(groups, shown, scope, j, k);
    assert i != j && r <= groups[j].position;
    if groups[j].group.OverPackages? && groups[j].position == r { SameName(groups, shown, scope, i, j, m); }
    assert Ahead(groups[i], groups[j]) && i < j;
  }

  lemma SameName(groups: seq<Placed>, shown: seq<TaskId>, scope: Option<Str>, i: nat, j: nat, m: nat)
    requires OldestFirstList(groups, shown, scope) && i < |groups| && j < |groups| && m < |shown|
    requires groups[i].group.OverPackages? && groups[j].group.OverPackages? && groups[i].position == groups[j].position
    requires groups[i].group.task == shown[m].task && !shown[m].IsRoot()
    ensures i == j
  {
    GroupFacts(groups, shown, scope, i);
    GroupFacts(groups, shown, scope, j);
    assert shown[m] in shown;
    OneGroup(groups, shown, scope, i, j, shown[m]);
  }

  lemma GroupFacts(groups: seq<Placed>, shown: seq<TaskId>, scope: Option<Str>, i: nat)
    requires OldestFirstList(groups, shown, scope) && i < |groups|
    ensures AtOldest(shown, groups[i], scope)
    ensures groups[i].group.OverPackages? ==> NameGroupOf(groups[i].group, scope, shown)
    ensures groups[i].group.OverPackages? ==> shown[groups[i].position].task == groups[i].group.task
  {
    assert groups[i] in groups;
  }

  lemma AllOrdered(groups: seq<Placed>, shown: seq<TaskId>, scope: Option<Str>)
    requires OldestFirstList(groups, shown, scope) && RootsHarmless(shown)
    ensures AgeOrdered(groups, shown, scope)
  {
    forall i, j, n | 0 <= i < j < |groups| && 0 <= n < |shown| && shown[n] in Expand(groups[j].group, scope)
      ensures exists m :: 0 <= m <= n && shown[m] in Expand(groups[i].group, scope)
    {
      var m := HarmlessMeansOrdered(groups, shown, scope, i, j, n);
    }
  }

  /**
   * An oldest-first list is in age order exactly when, for every shared name that a root task leads,
   * whatever started from that root task on and before the first other task of the name belongs to a
   * group that starts earlier still.
   */
  lemma AgeOrderExactly(groups: seq<Placed>, shown: seq<TaskId>, scope: Option<Str>)
    requires OldestFirstList(groups, shown, scope)
    ensures AgeOrdered(groups, shown, scope) <==> RootsHarmless(shown)
  {
    if RootsHarmless(shown) {
      AllOrdered(groups, shown, scope);
    } else {
      var r: nat, m: nat, k: nat :| r <= k < m && LedByRoot(shown, r, m) && !StartsBefore(shown, r, k);
      HarmfulMeansUnordered(groups, shown, scope, r, m, k);
    }
  }

  /** So a list that starts with a root task of a shared name never is: the name's group passes the root's. */
  lemma RootTaskJumpsTheQueue(groups: seq<Placed>, shown: seq<TaskId>, scope: Option<Str>)
    requires OldestFirstList(groups, shown, scope) && shown != [] && shown[0].IsRoot() &&
             SharedName(shown, shown[0].task)
    ensures !AgeOrdered(groups, shown, scope)
  {
    var m := LedFromStart(shown);
    assert !StartsBefore(shown, 0, 0);
    HarmfulMeansUnordered(groups, shown, scope, 0, m, 0);
  }

  lemma LedFromStart(shown: seq<TaskId>) returns (m: nat)
    requires Distinct(shown) && shown != [] && shown[0].IsRoot() && SharedName(shown, shown[0].task)
    ensures LedByRoot(shown, 0, m)
  {
    var name := shown[0].task;
    var s :| s in shown && !s.IsRoot() && s.task == name;
    var n :| 0 <= n < |shown| && shown[n] == s;
    m := FirstOther(shown, name, 0);
    forall i | 0 <= i < m && shown[i].task == name ensures i == 0 {
      assert shown[i] == TaskId(RootPackage, name) && shown[0] == TaskId(RootPackage, name);
    }
  }

  /** The list of running tasks, with the exact condition for its age order. */
  method RenderRunning(shown: seq<TaskId>) returns (groups: seq<Placed>)
    requires Distinct(shown)
    ensures AgeOrdered(groups, shown, SharedScope(shown)) <==> RootsHarmless(shown)
    ensures OldestFirstList(groups, shown, SharedScope(shown))
  {
    groups := RenderTaskGroups(shown, Order.OldestFirst);
    AgeOrderExactly(groups, shown, SharedScope(shown));
  }
}
