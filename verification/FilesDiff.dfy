/** Comparison of two lists of file entries, path by path. */
module FilesDiff {
  import opened Basics
  import opened FileEntries

  datatype FileDelta = FileDelta(path: Str, priorHash: Digest, currentHash: Digest, priorAbsent: bool,
                                 currentAbsent: bool)

  type ByPath = map<Str, FileEntry>

  /** Index of a list; a repeated path keeps its last entry. */
  function IndexByPath(entries: seq<FileEntry>): ByPath {
    if entries == [] then map[]
    else IndexByPath(entries[..|entries| - 1])[entries[|entries| - 1].path := entries[|entries| - 1]]
  }

  function Get(m: ByPath, path: Str): Option<FileEntry> {
    if path in m then Some(m[path]) else None
  }

  predicate PathChanged(prior: Option<FileEntry>, current: Option<FileEntry>) {
    match (prior, current)
    case (Some(p), Some(c)) => p.path != c.path || p.absent != c.absent || (!p.absent && p.hash != c.hash)
    case (None, None) => false
    case _ => true
  }

  /** The paths on which two indexes disagree. */
  function Disagreements(prior: ByPath, current: ByPath): set<Str> {
    set p | p in prior.Keys + current.Keys && PathChanged(Get(prior, p), Get(current, p))
  }

  function Delta(prior: ByPath, current: ByPath, path: Str): FileDelta {
    var p, c := Get(prior, path), Get(current, path);
    FileDelta(path, if p.Some? then p.value.hash else ZeroHash, if c.Some? then c.value.hash else ZeroHash,
              p.None? || p.value.absent, c.None? || c.value.absent)
  }

  /** The deltas of the changed paths among `paths`, in that order. */
  function Deltas(prior: ByPath, current: ByPath, paths: seq<Str>): seq<FileDelta> {
    if paths == [] then []
    else
      var last := paths[|paths| - 1];
      var rest := Deltas(prior, current, paths[..|paths| - 1]);
      if PathChanged(Get(prior, last), Get(current, last)) then rest + [Delta(prior, current, last)] else rest
  }

  /** Prior paths in order, then the new paths in order. */
  function PathOrder(prior: ByPath, current: ByPath): seq<Str> {
    Ascending(prior.Keys) + Ascending(current.Keys - prior.Keys)
  }

  function AllDeltas(prior: ByPath, current: ByPath): seq<FileDelta> {
    Deltas(prior, current, PathOrder(prior, current))
  }

  // ---------------------------------------------------------------- the chained iteration

  /** The elements of a sequence that did not occur before, in order. */
  function FirstOccurrences(s: seq<Str>): seq<Str> {
    if s == [] then []
    else
      var init, last := s[..|s| - 1], s[|s| - 1];
      if last in init then FirstOccurrences(init) else FirstOccurrences(init) + [last]
  }

  lemma {:induction false} FirstOccurrencesOfDistinct(s: seq<Str>)
    requires Distinct(s)
    ensures FirstOccurrences(s) == s
  {
    if s != [] {
      var init, last := s[..|s| - 1], s[|s| - 1];
      FirstOccurrencesOfDistinct(init);
      assert last !in init;
      assert s == init + [last];
    }
  }

  function Without(s: seq<Str>, t: seq<Str>): seq<Str> {
    if s == [] then []
    else if s[|s| - 1] in t then Without(s[..|s| - 1], t)
    else Without(s[..|s| - 1], t) + [s[|s| - 1]]
  }

  lemma {:induction false} FirstOccurrencesOfChain(a: seq<Str>, b: seq<Str>)
    requires Distinct(a) && Distinct(b)
    ensures FirstOccurrences(a + b) == a + Without(b, a)
  {
    if b == [] {
      FirstOccurrencesOfDistinct(a);
      assert a + b == a;
    } else {
      var init, last := b[..|b| - 1], b[|b| - 1];
      FirstOccurrencesOfChain(a, init);
      assert (a + b)[..|a + b| - 1] == a + init;
      assert last !in init;
      assert last in a + init <==> last in a;
    }
  }

  lemma {:induction false} WithoutContents(s: seq<Str>, t: seq<Str>)
    requires StrictlyAscending(s)
    ensures forall x :: x in Without(s, t) <==> x in s && x !in t
    ensures StrictlyAscending(Without(s, t))
  {
    if s != [] {
      var init, last := s[..|s| - 1], s[|s| - 1];
      WithoutContents(init, t);
      assert forall x :: x in s <==> x in init || x == last;
      var r := Without(init, t);
      forall i | 0 <= i < |r| ensures Less(r[i], last) {
        assert r[i] in init;
      }
    }
  }

  lemma AscendingIsDistinct(s: seq<Str>)
    requires StrictlyAscending(s)
    ensures Distinct(s)
  {
    forall i, j | 0 <= i < j < |s| ensures s[i] != s[j] { LessTotal(s[i], s[j]); }
  }

  lemma WithoutIsDifference(s: set<Str>, t: set<Str>)
    ensures Without(Ascending(s), Ascending(t)) == Ascending(s - t)
  {
    AscendingIsOrdered(s);
    AscendingIsOrdered(t);
    AscendingIsOrdered(s - t);
    WithoutContents(Ascending(s), Ascending(t));
    AscendingUnique(Without(Ascending(s), Ascending(t)), Ascending(s - t));
  }

  /** Walking the prior keys and then all current keys, skipping what was seen, is the path order. */
  lemma ChainIsPathOrder(prior: ByPath, current: ByPath)
    ensures FirstOccurrences(Ascending(prior.Keys) + Ascending(current.Keys)) == PathOrder(prior, current)
  {
    var a, b := Ascending(prior.Keys), Ascending(current.Keys);
    AscendingIsOrdered(prior.Keys);
    AscendingIsOrdered(current.Keys);
    AscendingIsDistinct(a);
    AscendingIsDistinct(b);
    FirstOccurrencesOfChain(a, b);
    WithoutIsDifference(current.Keys, prior.Keys);
  }

  lemma PathOrderContents(prior: ByPath, current: ByPath)
    ensures Distinct(PathOrder(prior, current))
    ensures forall x :: x in PathOrder(prior, current) <==> x in prior || x in current
  {
    var a, c := Ascending(prior.Keys), Ascending(current.Keys - prior.Keys);
    AscendingIsOrdered(prior.Keys);
    AscendingIsOrdered(current.Keys - prior.Keys);
    AscendingIsDistinct(a);
    AscendingIsDistinct(c);
    var all := PathOrder(prior, current);
    forall i, j | 0 <= i < j < |all| ensures all[i] != all[j] {
      if i < |a| <= j { assert a[i] in a && c[j - |a|] in c; }
    }
  }

  function SaturatingIncrement(n: nat): nat {
    if n < U32Max then n + 1 else n
  }

  function Min(a: nat, b: nat): nat {
    if a < b then a else b
  }

  lemma ChainStep(prior: ByPath, current: ByPath, keys: seq<Str>, i: nat)
    requires i < |keys|
    ensures
      var before := Deltas(prior, current, FirstOccurrences(keys[..i]));
      Deltas(prior, current, FirstOccurrences(keys[..i + 1])) ==
        if keys[i] !in keys[..i] && PathChanged(Get(prior, keys[i]), Get(current, keys[i]))
        then before + [Delta(prior, current, keys[i])] else before
    ensures forall k :: k in keys[..i + 1] <==> k in keys[..i] || k == keys[i]
  {
    assert keys[..i + 1] == keys[..i] + [keys[i]];
    var firsts := FirstOccurrences(keys[..i]);
    assert (firsts + [keys[i]])[..|firsts|] == firsts;
  }

  lemma TakeStep(all: seq<FileDelta>, d: FileDelta, limit: nat)
    ensures
      var taken, after := all[..Min(limit, |all|)], all + [d];
      after[..Min(limit, |after|)] == (if |taken| < limit then taken + [d] else taken) &&
      Min(|after|, U32Max) == SaturatingIncrement(Min(|all|, U32Max))
  {
  }

  /**
   * The diff shown to users: the first `limit` deltas in path order, whether more than `limit`
   * were counted, and the 32-bit saturating count.
   */
  method Diff(priorEntries: seq<FileEntry>, currentEntries: seq<FileEntry>, limit: nat)
    returns (changed: seq<FileDelta>, truncated: bool, count: nat)
    ensures
      var all := AllDeltas(IndexByPath(priorEntries), IndexByPath(currentEntries));
      changed == all[..Min(limit, |all|)] && count == Min(|all|, U32Max) && (truncated <==> count > limit)
  {
    var prior, current := IndexByPath(priorEntries), IndexByPath(currentEntries);
    var keys := Ascending(prior.Keys) + Ascending(current.Keys);
    changed, count := [], 0;
    var seen: set<Str> := {};
    ghost var all: seq<FileDelta> := [];
    for i := 0 to |keys|
      invariant forall k :: k in seen <==> k in keys[..i]
      invariant all == Deltas(prior, current, FirstOccurrences(keys[..i]))
      invariant changed == all[..Min(limit, |all|)] && count == Min(|all|, U32Max)
    {
      var path := keys[i];
      ChainStep(prior, current, keys, i);
      if path !in seen && PathChanged(Get(prior, path), Get(current, path)) {
        var delta := Delta(prior, current, path);
        TakeStep(all, delta, limit);
        count := SaturatingIncrement(count);
        if |changed| < limit { changed := changed + [delta]; }
        all := all + [delta];
      }
      seen := seen + {path};
    }
    assert keys[..|keys|] == keys;
    ChainIsPathOrder(prior, current);
    truncated := count > limit;
  }

  // ---------------------------------------------------------------- what the diff says

  ghost function ChangedAmong(prior: ByPath, current: ByPath, paths: seq<Str>): set<Str> {
    set p | p in paths && PathChanged(Get(prior, p), Get(current, p))
  }

  lemma ChangedStep(prior: ByPath, current: ByPath, init: seq<Str>, last: Str)
    requires last !in init
    ensures
      var before, after := ChangedAmong(prior, current, init), ChangedAmong(prior, current, init + [last]);
      |after| == |before| + if PathChanged(Get(prior, last), Get(current, last)) then 1 else 0
  {
    var before := ChangedAmong(prior, current, init);
    assert ChangedAmong(prior, current, init + [last]) ==
           before + if PathChanged(Get(prior, last), Get(current, last)) then {last} else {};
  }

  lemma {:induction false} DeltasContents(prior: ByPath, current: ByPath, paths: seq<Str>)
    requires Distinct(paths)
    ensures |Deltas(prior, current, paths)| == |ChangedAmong(prior, current, paths)|
  {
    if paths == [] {
      assert ChangedAmong(prior, current, paths) == {};
    } else {
      var init, last := paths[..|paths| - 1], paths[|paths| - 1];
      DeltasContents(prior, current, init);
      ChangedStep(prior, current, init, last);
      assert paths == init + [last];
    }
  }

  /** The delta is about a path on which the indexes disagree, and says on each side what that side has. */
  ghost predicate Describes(d: FileDelta, prior: ByPath, current: ByPath) {
    d.path in Disagreements(prior, current) &&
    (d.path in prior ==> d.priorHash == prior[d.path].hash && d.priorAbsent == prior[d.path].absent) &&
    (d.path !in prior ==> d.priorHash == ZeroHash && d.priorAbsent) &&
    (d.path in current ==> d.currentHash == current[d.path].hash && d.currentAbsent == current[d.path].absent) &&
    (d.path !in current ==> d.currentHash == ZeroHash && d.currentAbsent)
  }

  /** Prior paths stand in front of new ones, and both are in ascending order. */
  predicate PathBefore(prior: ByPath, p: Str, q: Str) {
    if p in prior <==> q in prior then Less(p, q) else p in prior
  }

  ghost predicate InPathOrder(prior: ByPath, paths: seq<Str>) {
    forall i, j :: 0 <= i < j < |paths| ==> PathBefore(prior, paths[i], paths[j])
  }

  lemma PathOrderAscends(prior: ByPath, current: ByPath)
    ensures InPathOrder(prior, PathOrder(prior, current))
  {
    AscendingIsOrdered(prior.Keys);
    AscendingIsOrdered(current.Keys - prior.Keys);
    ConcatAscends(prior, Ascending(prior.Keys), Ascending(current.Keys - prior.Keys));
  }

  lemma ConcatAscends(prior: ByPath, a: seq<Str>, c: seq<Str>)
    requires StrictlyAscending(a) && StrictlyAscending(c)
    requires (forall p :: p in a ==> p in prior) && forall p :: p in c ==> p !in prior
    ensures InPathOrder(prior, a + c)
  {
    var all := a + c;
    assert forall i :: 0 <= i < |a| ==> all[i] == a[i] && a[i] in a;
    assert forall i :: |a| <= i < |all| ==> all[i] == c[i - |a|] && c[i - |a|] in c;
  }

  /** Each delta is about one of the paths, and they come in path order. */
  ghost predicate Listed(prior: ByPath, current: ByPath, paths: seq<Str>, deltas: seq<FileDelta>) {
    (forall i :: 0 <= i < |deltas| ==> Describes(deltas[i], prior, current) && deltas[i].path in paths) &&
    forall i, j :: 0 <= i < j < |deltas| ==> PathBefore(prior, deltas[i].path, deltas[j].path)
  }

  /** The deltas describe what changed among the paths, all of it and in their order. */
  ghost predicate Described(prior: ByPath, current: ByPath, paths: seq<Str>, deltas: seq<FileDelta>) {
    Listed(prior, current, paths, deltas) &&
    forall p :: p in paths && p in Disagreements(prior, current) ==> exists d :: d in deltas && d.path == p
  }

  lemma StillThere(prior: ByPath, current: ByPath, deltas: seq<FileDelta>, p: Str, q: Str)
    requires q == p || exists d :: d in deltas && d.path == q
    ensures exists d :: d in deltas + [Delta(prior, current, p)] && d.path == q
  {
    var more := deltas + [Delta(prior, current, p)];
    if q == p {
      assert more[|deltas|] in more;
    } else {
      var d :| d in deltas && d.path == q;
      assert d in more;
    }
  }

  lemma OneListedMore(prior: ByPath, current: ByPath, paths: seq<Str>, deltas: seq<FileDelta>, p: Str)
    requires Listed(prior, current, paths, deltas) && p in Disagreements(prior, current)
    requires forall q :: q in paths ==> PathBefore(prior, q, p)
    ensures Listed(prior, current, paths + [p], deltas + [Delta(prior, current, p)])
  {
    var more := deltas + [Delta(prior, current, p)];
    assert forall i :: 0 <= i < |deltas| ==> more[i] == deltas[i];
    assert more[|deltas|].path == p && Describes(more[|deltas|], prior, current);
  }

  lemma OneDeltaMore(prior: ByPath, current: ByPath, paths: seq<Str>, deltas: seq<FileDelta>, p: Str)
    requires Described(prior, current, paths, deltas) && p in Disagreements(prior, current)
    requires forall q :: q in paths ==> PathBefore(prior, q, p)
    ensures Described(prior, current, paths + [p], deltas + [Delta(prior, current, p)])
  {
    OneListedMore(prior, current, paths, deltas, p);
    forall q | q in paths + [p] && q in Disagreements(prior, current)
      ensures exists d :: d in deltas + [Delta(prior, current, p)] && d.path == q
    {
      StillThere(prior, current, deltas, p, q);
    }
  }

  lemma BeforeLast(prior: ByPath, init: seq<Str>, last: Str)
    requires InPathOrder(prior, init + [last])
    ensures InPathOrder(prior, init) && forall q :: q in init ==> PathBefore(prior, q, last)
  {
    var all := init + [last];
    assert all[..|init|] == init && all[|init|] == last;
    forall q | q in init ensures PathBefore(prior, q, last) {
      var k :| 0 <= k < |init| && init[k] == q;
      assert all[k] == q;
    }
    assert forall i :: 0 <= i < |init| ==> all[i] == init[i];
  }

  lemma NoDeltaMore(prior: ByPath, current: ByPath, paths: seq<Str>, deltas: seq<FileDelta>, p: Str)
    requires Described(prior, current, paths, deltas) && p !in Disagreements(prior, current)
    ensures Described(prior, current, paths + [p], deltas)
  {
    assert forall q :: q in paths + [p] <==> q in paths || q == p;
  }

  lemma {:induction false} DeltasDescribe(prior: ByPath, current: ByPath, paths: seq<Str>)
    requires InPathOrder(prior, paths) && forall p :: p in paths ==> p in prior || p in current
    ensures Described(prior, current, paths, Deltas(prior, current, paths))
  {
    if paths != [] {
      var init, last := paths[..|paths| - 1], paths[|paths| - 1];
      assert paths == init + [last] && last in paths && forall p :: p in init ==> p in paths;
      BeforeLast(prior, init, last);
      DeltasDescribe(prior, current, init);
      if last in Disagreements(prior, current) {
        OneDeltaMore(prior, current, init, Deltas(prior, current, init), last);
      } else {
        NoDeltaMore(prior, current, init, Deltas(prior, current, init), last);
      }
    }
  }

  /**
   * Every delta describes a path on which the indexes disagree, every such path has one, and they come
   * in path order, so none twice.
   */
  lemma DeltasMeaning(prior: ByPath, current: ByPath)
    ensures
      var deltas := AllDeltas(prior, current);
      (forall d :: d in deltas ==> Describes(d, prior, current)) &&
      (forall p :: p in Disagreements(prior, current) ==> exists d :: d in deltas && d.path == p) &&
      forall i, j :: 0 <= i < j < |deltas| ==> PathBefore(prior, deltas[i].path, deltas[j].path)
  {
    PathOrderContents(prior, current);
    PathOrderAscends(prior, current);
    DeltasDescribe(prior, current, PathOrder(prior, current));
  }

  /** One delta per path on which the two indexes disagree. */
  lemma DeltaCount(prior: ByPath, current: ByPath)
    ensures |AllDeltas(prior, current)| == |Disagreements(prior, current)|
  {
    var paths := PathOrder(prior, current);
    PathOrderContents(prior, current);
    DeltasContents(prior, current, paths);
    assert Disagreements(prior, current) == ChangedAmong(prior, current, paths);
  }

  /** The count is the same in both directions. */
  lemma DiffSymmetric(prior: ByPath, current: ByPath)
    ensures |AllDeltas(prior, current)| == |AllDeltas(current, prior)|
  {
    DeltaCount(prior, current);
    DeltaCount(current, prior);
    forall p ensures p in Disagreements(prior, current) <==> p in Disagreements(current, prior) {
      assert PathChanged(Get(prior, p), Get(current, p)) <==> PathChanged(Get(current, p), Get(prior, p));
    }
    assert Disagreements(prior, current) == Disagreements(current, prior);
  }

  /**
   * Of the triple that `Diff` returns: the count is the number of paths on which the lists disagree,
   * up to saturation, and the truncation flag holds exactly when some delta was left off, unless
   * the count saturated under a limit that no saturated count exceeds.
   */
  lemma DiffMeaning(priorEntries: seq<FileEntry>, currentEntries: seq<FileEntry>, limit: nat,
                    changed: seq<FileDelta>, truncated: bool, count: nat)
    requires
      var all := AllDeltas(IndexByPath(priorEntries), IndexByPath(currentEntries));
      changed == all[..Min(limit, |all|)] && count == Min(|all|, U32Max) && (truncated <==> count > limit)
    ensures
      var differ := |Disagreements(IndexByPath(priorEntries), IndexByPath(currentEntries))|;
      count == Min(differ, U32Max) &&
      ((truncated <==> |changed| < differ) <==> !(differ > limit >= U32Max))
  {
    DeltaCount(IndexByPath(priorEntries), IndexByPath(currentEntries));
  }
}
