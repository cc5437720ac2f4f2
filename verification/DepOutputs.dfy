/**
 * Dependency output hashes. A task that runs contributes its own output hash; a connector, which
 * never runs, contributes a digest of what lies behind it. The plain recursion is the
 * specification; the walk in the program memoizes the digests of connectors.
 */
module DepOutputs {
  import opened Basics
  import opened Tasks
  import opened WhiteSpace

  datatype TaskGraph = TaskGraph(edges: map<TaskId, seq<TaskId>>, definitions: map<TaskId, TaskDefinition>) {
    function DependenciesOf(t: TaskId): seq<TaskId> {
      if t in edges then edges[t] else []
    }

    predicate IsConnector(t: TaskId) {
      t in definitions && !definitions[t].CountsInProgress()
    }

    ghost predicate Ranks(rank: TaskId -> nat) {
      forall t, d :: d in DependenciesOf(t) ==> rank(d) < rank(t)
    }

    ghost predicate Acyclic() {
      exists rank :: Ranks(rank)
    }

    ghost function Rank(): (rank: TaskId -> nat)
      requires Acyclic()
      ensures Ranks(rank)
    {
      var rank :| Ranks(rank); rank
    }
  }

  const ConnectorDomain: Str := "luchta.connector.dep-outputs.v1"
  const Separator: Byte := '\U{1f}'

  type Lookup = TaskId -> Option<Digest>
  type Outputs = map<Str, Digest>

  // ---------------------------------------------------------------- the hashed stream

  function Frames(bindings: seq<(Str, Digest)>): Str {
    if bindings == [] then []
    else Frame(bindings[0]) + Frames(bindings[1..])
  }

  function Frame(binding: (Str, Digest)): Str {
    binding.0 + [Separator] + binding.1 + [Separator]
  }

  /** The bytes hashed for a connector whose dependencies resolved to the given map. */
  function ConnectorStream(outputs: Outputs): Str {
    ConnectorDomain + Frames(Bindings(outputs))
  }

  /** No name followed by the separator begins another name, so the end of each name can be seen. */
  ghost predicate SelfDelimiting(names: set<Str>) {
    forall a, b :: a in names && b in names ==> !(a + [Separator] <= b)
  }

  ghost function NamesOf(bindings: seq<(Str, Digest)>): set<Str> {
    set x | x in bindings :: x.0
  }

  lemma BeginsLonger(a: Str, x: Str, b: Str, y: Str)
    requires a + x == b + y && |a| <= |b|
    ensures a <= b
  {
    assert a == (a + x)[..|a|] && b[..|a|] == (b + y)[..|a|];
  }

  lemma NameEnds(a: Str, x: Str, b: Str, y: Str)
    requires a + [Separator] + x == b + [Separator] + y
    requires !(a + [Separator] <= b) && !(b + [Separator] <= a)
    ensures a == b && x == y
  {
    Associate(a, [Separator], x);
    Associate(b, [Separator], y);
    if |a| < |b| { BeginsLonger(a + [Separator], x, b, [Separator] + y); }
    if |b| < |a| { BeginsLonger(b + [Separator], y, a, [Separator] + x); }
    SplitEqual(a + [Separator], x, b + [Separator], y);
    SplitEqual(a, [Separator], b, [Separator]);
  }

  /** One frame can be read off the front. */
  lemma FrameEnds(p: (Str, Digest), x: Str, q: (Str, Digest), y: Str)
    requires Frame(p) + x == Frame(q) + y
    requires !(p.0 + [Separator] <= q.0) && !(q.0 + [Separator] <= p.0)
    ensures p == q && x == y
  {
    FrameRest(p, x);
    FrameRest(q, y);
    NameEnds(p.0, p.1 + ([Separator] + x), q.0, q.1 + ([Separator] + y));
    SplitEqual(p.1, [Separator] + x, q.1, [Separator] + y);
    SplitEqual([Separator], x, [Separator], y);
  }

  lemma FrameRest(p: (Str, Digest), x: Str)
    ensures Frame(p) + x == p.0 + [Separator] + (p.1 + ([Separator] + x))
  {
    Associate(p.0 + [Separator] + p.1, [Separator], x);
    Associate(p.0 + [Separator], p.1, [Separator] + x);
  }

  lemma {:induction false} FramesInjective(a: seq<(Str, Digest)>, b: seq<(Str, Digest)>)
    requires SelfDelimiting(NamesOf(a) + NamesOf(b))
    requires Frames(a) == Frames(b)
    ensures a == b
  {
    if a != [] && b != [] {
      assert a[0] in a && b[0] in b && a[0].0 in NamesOf(a) && b[0].0 in NamesOf(b);
      FrameEnds(a[0], Frames(a[1..]), b[0], Frames(b[1..]));
      assert NamesOf(a[1..]) <= NamesOf(a) && NamesOf(b[1..]) <= NamesOf(b);
      FramesInjective(a[1..], b[1..]);
      assert a == [a[0]] + a[1..] && b == [b[0]] + b[1..];
    }
  }

  /** Self-delimiting names make the stream decodable: it determines the map. */
  lemma ConnectorStreamInjective(m: Outputs, n: Outputs)
    requires SelfDelimiting(m.Keys + n.Keys)
    requires ConnectorStream(m) == ConnectorStream(n)
    ensures m == n
  {
    SplitEqual(ConnectorDomain, Frames(Bindings(m)), ConnectorDomain, Frames(Bindings(n)));
    NamesAreKeys(m);
    NamesAreKeys(n);
    FramesInjective(Bindings(m), Bindings(n));
    BindingsDetermineMap(m, n);
  }

  lemma NamesAreKeys(m: Outputs)
    ensures NamesOf(Bindings(m)) <= m.Keys
  {
    forall x | x in Bindings(m) ensures x.0 in m.Keys { BindingsContents(m, x.0, x.1); }
  }

  function Swallowed(a: Str, d: Digest, b: Str): Str {
    a + [Separator] + d + [Separator] + b
  }

  /** A name holding the separator can swallow its neighbour: two maps, one stream. */
  lemma ConnectorStreamAmbiguous(a: Str, d: Digest, b: Str, e: Digest, two: Outputs, one: Outputs)
    requires Less(a, b) && two == map[a := d, b := e] && one == map[Swallowed(a, d, b) := e]
    ensures two != one && ConnectorStream(two) == ConnectorStream(one)
  {
    assert two != one by { assert |Swallowed(a, d, b)| != |a|; assert a in two && a !in one; }
    assert Bindings(two) == [(a, d), (b, e)] by { LessTotal(a, b); BindingsOfTwo(two, a, b); }
    assert Bindings(one) == [(Swallowed(a, d, b), e)] by { BindingsOfOne(one, Swallowed(a, d, b)); }
    assert ConnectorStream(two) == ConnectorStream(one) by { FramesAmbiguous(a, d, b, e); }
  }

  lemma BindingsOfOne(m: Outputs, a: Str)
    requires m.Keys == {a}
    ensures Bindings(m) == [(a, m[a])]
  {
    AscendingIsOrdered(m.Keys);
    AscendingUnique(Ascending(m.Keys), [a]);
  }

  lemma BindingsOfTwo(m: Outputs, a: Str, b: Str)
    requires m.Keys == {a, b} && Less(a, b)
    ensures Bindings(m) == [(a, m[a]), (b, m[b])]
  {
    AscendingIsOrdered(m.Keys);
    AscendingUnique(Ascending(m.Keys), [a, b]);
    assert [a, b][1..] == [b];
    assert BindingsOf(m, [b]) == [(b, m[b])];
  }

  lemma FramesAmbiguous(a: Str, d: Digest, b: Str, e: Digest)
    ensures Frames([(a, d), (b, e)]) == Frames([(Swallowed(a, d, b), e)])
  {
    var two: seq<(Str, Digest)>, one: seq<(Str, Digest)> := [(a, d), (b, e)], [(Swallowed(a, d, b), e)];
    var tail: Str := [Separator] + e + [Separator];
    assert two[1..] == [(b, e)] && one[1..] == [];
    assert Frames([(b, e)]) == b + tail by { assert [(b, e)][1..] == []; }
    assert Frames(two) == a + [Separator] + d + [Separator] + (b + tail);
    assert Frames(one) == Swallowed(a, d, b) + tail;
  }

  // ---------------------------------------------------------------- plain recursion

  /** The hash one dependency contributes, without any memo. */
  ghost function PlainHash(h: Str -> Digest, g: TaskGraph, lookup: Lookup, d: TaskId): Option<Digest>
    requires g.Acyclic()
    decreases g.Rank()(d), 1, 0
  {
    if !g.IsConnector(d) then lookup(d)
    else Some(h(ConnectorStream(PlainOutputs(h, g, lookup, d))))
  }

  /** The dependency map folded into a task's cache key, without any memo. */
  ghost function PlainOutputs(h: Str -> Digest, g: TaskGraph, lookup: Lookup, t: TaskId): Outputs
    requires g.Acyclic()
    decreases g.Rank()(t), 0, |g.DependenciesOf(t)| + 1
  {
    Collect(h, g, lookup, t, g.DependenciesOf(t))
  }

  /** Map of the first dependencies of t; a repeated name keeps the last hash. */
  ghost function Collect(h: Str -> Digest, g: TaskGraph, lookup: Lookup, t: TaskId, ds: seq<TaskId>): Outputs
    requires g.Acyclic()
    requires forall d :: d in ds ==> d in g.DependenciesOf(t)
    decreases g.Rank()(t), 0, |ds|
  {
    if ds == [] then map[]
    else
      var last := ds[|ds| - 1];
      var rest := Collect(h, g, lookup, t, ds[..|ds| - 1]);
      match PlainHash(h, g, lookup, last)
      case None => rest
      case Some(hash) => rest[last.Name() := hash]
  }

  /** Tasks that run and are reachable from t through connectors only. */
  ghost function CountedBehind(g: TaskGraph, t: TaskId): set<TaskId>
    requires g.Acyclic()
    decreases g.Rank()(t), 0, |g.DependenciesOf(t)| + 1
  {
    CountedAmong(g, t, g.DependenciesOf(t))
  }

  ghost function CountedAmong(g: TaskGraph, t: TaskId, ds: seq<TaskId>): set<TaskId>
    requires g.Acyclic() && forall d :: d in ds ==> d in g.DependenciesOf(t)
    decreases g.Rank()(t), 0, |ds|
  {
    if ds == [] then {} else CountedAmong(g, t, ds[..|ds| - 1]) + CountedFrom(g, ds[|ds| - 1])
  }

  ghost function CountedFrom(g: TaskGraph, d: TaskId): set<TaskId>
    requires g.Acyclic()
    decreases g.Rank()(d), 1, 0
  {
    if g.IsConnector(d) then CountedBehind(g, d) else {d}
  }

  /** Connectors reachable from t through connectors only. */
  ghost function ConnectorsBehind(g: TaskGraph, t: TaskId): set<TaskId>
    requires g.Acyclic()
    decreases g.Rank()(t), 0, |g.DependenciesOf(t)| + 1
  {
    ConnectorsAmong(g, t, g.DependenciesOf(t))
  }

  ghost function ConnectorsAmong(g: TaskGraph, t: TaskId, ds: seq<TaskId>): set<TaskId>
    requires g.Acyclic() && forall d :: d in ds ==> d in g.DependenciesOf(t)
    decreases g.Rank()(t), 0, |ds|
  {
    if ds == [] then {} else ConnectorsAmong(g, t, ds[..|ds| - 1]) + ConnectorsFrom(g, ds[|ds| - 1])
  }

  ghost function ConnectorsFrom(g: TaskGraph, d: TaskId): set<TaskId>
    requires g.Acyclic()
    decreases g.Rank()(d), 1, 0
  {
    if g.IsConnector(d) then {d} + ConnectorsBehind(g, d) else {}
  }

  lemma {:induction false} FromDependency(g: TaskGraph, t: TaskId, ds: seq<TaskId>, d: TaskId)
    requires g.Acyclic() && d in ds && forall d :: d in ds ==> d in g.DependenciesOf(t)
    ensures CountedFrom(g, d) <= CountedAmong(g, t, ds)
    ensures ConnectorsFrom(g, d) <= ConnectorsAmong(g, t, ds)
    decreases |ds|
  {
    if d != ds[|ds| - 1] { FromDependency(g, t, ds[..|ds| - 1], d); }
  }

  lemma {:induction false} CountedVia(g: TaskGraph, t: TaskId, ds: seq<TaskId>, x: TaskId) returns (d: TaskId)
    requires g.Acyclic() && forall d :: d in ds ==> d in g.DependenciesOf(t)
    requires x in CountedAmong(g, t, ds)
    ensures d in ds && x in CountedFrom(g, d)
    decreases |ds|
  {
    d := ds[|ds| - 1];
    if x !in CountedFrom(g, d) { d := CountedVia(g, t, ds[..|ds| - 1], x); }
  }

  lemma {:induction false} ConnectorVia(g: TaskGraph, t: TaskId, ds: seq<TaskId>, c: TaskId) returns (d: TaskId)
    requires g.Acyclic() && forall d :: d in ds ==> d in g.DependenciesOf(t)
    requires c in ConnectorsAmong(g, t, ds)
    ensures d in ds && c in ConnectorsFrom(g, d)
    decreases |ds|
  {
    d := ds[|ds| - 1];
    if c !in ConnectorsFrom(g, d) { d := ConnectorVia(g, t, ds[..|ds| - 1], c); }
  }

  /** The dependencies of every task have names of their own, and self-delimiting ones. */
  ghost predicate WellNamed(g: TaskGraph) {
    forall t, d, e :: d in g.DependenciesOf(t) && e in g.DependenciesOf(t) ==>
      (d.Name() == e.Name() ==> d == e) && !(d.Name() + [Separator] <= e.Name())
  }

  /** It suffices that packages are plain and names free of the separator. */
  lemma PlainlyNamed(g: TaskGraph)
    requires forall t, d :: d in g.DependenciesOf(t) ==> PlainPackage(d.package) && Separator !in d.Name()
    ensures WellNamed(g)
  {
    forall t, d, e | d in g.DependenciesOf(t) && e in g.DependenciesOf(t)
      ensures (d.Name() == e.Name() ==> d == e) && !(d.Name() + [Separator] <= e.Name())
    {
      if d.Name() == e.Name() { NameInjective(d, e); }
      assert (d.Name() + [Separator])[|d.Name()|] == Separator;
    }
  }

  ghost predicate Agree(l: Lookup, r: Lookup, tasks: set<TaskId>) {
    forall x :: x in tasks ==> l(x) == r(x)
  }

  /** Lookups that agree on the counted tasks behind t resolve t alike. */
  lemma {:induction false} AgreeingLookups(h: Str -> Digest, g: TaskGraph, l: Lookup, r: Lookup, t: TaskId,
                                           ds: seq<TaskId>)
    requires g.Acyclic() && Agree(l, r, CountedBehind(g, t))
    requires forall d :: d in ds ==> d in g.DependenciesOf(t)
    ensures Collect(h, g, l, t, ds) == Collect(h, g, r, t, ds)
    decreases g.Rank()(t), |ds|
  {
    if ds != [] {
      var last := ds[|ds| - 1];
      AgreeingLookups(h, g, l, r, t, ds[..|ds| - 1]);
      assert last in ds;
      FromDependency(g, t, g.DependenciesOf(t), last);
      if g.IsConnector(last) {
        AgreeingLookups(h, g, l, r, last, g.DependenciesOf(last));
        assert PlainOutputs(h, g, l, last) == PlainOutputs(h, g, r, last);
      }
    }
  }

  /** What the map says about each dependency it was collected from. */
  lemma {:induction false} CollectAt(h: Str -> Digest, g: TaskGraph, lookup: Lookup, t: TaskId, ds: seq<TaskId>,
                                     d: TaskId)
    requires g.Acyclic() && WellNamed(g)
    requires forall d :: d in ds ==> d in g.DependenciesOf(t)
    requires d in g.DependenciesOf(t)
    ensures
      var m := Collect(h, g, lookup, t, ds);
      var hash := PlainHash(h, g, lookup, d);
      (d.Name() in m <==> d in ds && hash.Some?) && (d.Name() in m ==> m[d.Name()] == hash.value)
    decreases |ds|
  {
    if ds != [] {
      var last := ds[|ds| - 1];
      CollectAt(h, g, lookup, t, ds[..|ds| - 1], d);
      assert last in ds;
      assert d in ds <==> d == last || d in ds[..|ds| - 1];
    }
  }

  /**
   * Merkle property, hard half: a task that resolves to one map under two lookups has lookups that
   * agree on everything counted behind it, unless some connector behind it was hashed over two
   * different streams with one digest.
   */
  lemma {:induction false} EqualOutputs(h: Str -> Digest, g: TaskGraph, l: Lookup, r: Lookup, t: TaskId)
    requires g.Acyclic() && WellNamed(g)
    requires PlainOutputs(h, g, l, t) == PlainOutputs(h, g, r, t)
    ensures Agree(l, r, CountedBehind(g, t)) || ConnectorCollision(h, g, l, r, t)
    decreases g.Rank()(t)
  {
    if !ConnectorCollision(h, g, l, r, t) {
      var ds := g.DependenciesOf(t);
      forall x | x in CountedBehind(g, t) ensures l(x) == r(x) {
        var d := CountedVia(g, t, ds, x);
        FromDependency(g, t, ds, d);
        CollectAt(h, g, l, t, ds, d);
        CollectAt(h, g, r, t, ds, d);
        if g.IsConnector(d) {
          var m, n := PlainOutputs(h, g, l, d), PlainOutputs(h, g, r, d);
          assert ConnectorStream(m) == ConnectorStream(n);
          KeysDelimited(h, g, l, r, d);
          ConnectorStreamInjective(m, n);
          EqualOutputs(h, g, l, r, d);
        }
      }
    }
  }

  lemma {:induction false} CollectNames(h: Str -> Digest, g: TaskGraph, lookup: Lookup, t: TaskId, ds: seq<TaskId>,
                                        k: Str)
    requires g.Acyclic() && forall d :: d in ds ==> d in g.DependenciesOf(t)
    requires k in Collect(h, g, lookup, t, ds)
    ensures exists d :: d in ds && d.Name() == k
    decreases |ds|
  {
    var last := ds[|ds| - 1];
    assert last in ds;
    if k != last.Name() { CollectNames(h, g, lookup, t, ds[..|ds| - 1], k); }
  }

  lemma KeysDelimited(h: Str -> Digest, g: TaskGraph, l: Lookup, r: Lookup, t: TaskId)
    requires g.Acyclic() && WellNamed(g)
    ensures SelfDelimiting(PlainOutputs(h, g, l, t).Keys + PlainOutputs(h, g, r, t).Keys)
  {
    var ds := g.DependenciesOf(t);
    forall k | k in PlainOutputs(h, g, l, t) ensures exists d :: d in ds && d.Name() == k {
      CollectNames(h, g, l, t, ds, k);
    }
    forall k | k in PlainOutputs(h, g, r, t) ensures exists d :: d in ds && d.Name() == k {
      CollectNames(h, g, r, t, ds, k);
    }
  }

  ghost predicate ConnectorCollision(h: Str -> Digest, g: TaskGraph, l: Lookup, r: Lookup, t: TaskId)
    requires g.Acyclic()
  {
    exists c :: c in ConnectorsBehind(g, t) &&
      Collide(h, ConnectorStream(PlainOutputs(h, g, l, c)), ConnectorStream(PlainOutputs(h, g, r, c)))
  }

  /**
   * The resolved maps of a task are equal exactly when the lookups agree on every counted task
   * reachable through connectors only, or else a digest collision is exhibited.
   */
  lemma MerkleProperty(h: Str -> Digest, g: TaskGraph, l: Lookup, r: Lookup, t: TaskId)
    requires g.Acyclic() && WellNamed(g)
    ensures Agree(l, r, CountedBehind(g, t)) ==> PlainOutputs(h, g, l, t) == PlainOutputs(h, g, r, t)
    ensures PlainOutputs(h, g, l, t) == PlainOutputs(h, g, r, t) ==>
              Agree(l, r, CountedBehind(g, t)) || ConnectorCollision(h, g, l, r, t)
  {
    if Agree(l, r, CountedBehind(g, t)) { AgreeingLookups(h, g, l, r, t, g.DependenciesOf(t)); }
    if PlainOutputs(h, g, l, t) == PlainOutputs(h, g, r, t) { EqualOutputs(h, g, l, r, t); }
  }

  // ---------------------------------------------------------------- who is asked for a hash

  /**
   * A dependency with a worker, or with a command that is more than white space, stands in the map under
   * its own name with the hash that the lookup has for it, and is missing exactly when the lookup has none.
   * So does a dependency without a definition.
   */
  lemma RunningIsLookedUp(h: Str -> Digest, g: TaskGraph, lookup: Lookup, t: TaskId, d: TaskId)
    requires g.Acyclic() && WellNamed(g) && d in g.DependenciesOf(t)
    requires d in g.definitions ==>
               g.definitions[d].worker.Some? ||
               (g.definitions[d].command.Some? && !WhiteOnly(g.definitions[d].command.value))
    ensures
      var m := PlainOutputs(h, g, lookup, t);
      (d.Name() in m <==> lookup(d).Some?) && (d.Name() in m ==> m[d.Name()] == lookup(d).value)
  {
    if d in g.definitions { CountsExactly(g.definitions[d]); }
    CollectAt(h, g, lookup, t, g.DependenciesOf(t), d);
  }

  lemma {:induction false} NeverCounted(g: TaskGraph, t: TaskId, c: TaskId)
    requires g.Acyclic() && g.IsConnector(c)
    ensures c !in CountedBehind(g, t)
    decreases g.Rank()(t)
  {
    if c in CountedBehind(g, t) {
      var d := CountedVia(g, t, g.DependenciesOf(t), c);
      if g.IsConnector(d) { NeverCounted(g, d, c); }
    }
  }

  /**
   * A defined task with no worker, and with no command or one of white space only, is never asked: what
   * a lookup says of it reaches no map of any task.
   */
  lemma ConnectorIsNotLookedUp(h: Str -> Digest, g: TaskGraph, l: Lookup, r: Lookup, t: TaskId, c: TaskId)
    requires g.Acyclic() && c in g.definitions && g.definitions[c].worker.None?
    requires g.definitions[c].command.Some? ==> WhiteOnly(g.definitions[c].command.value)
    requires forall x :: x != c ==> l(x) == r(x)
    ensures PlainOutputs(h, g, l, t) == PlainOutputs(h, g, r, t)
  {
    CountsExactly(g.definitions[c]);
    NeverCounted(g, t, c);
    AgreeingLookups(h, g, l, r, t, g.DependenciesOf(t));
  }

  // ---------------------------------------------------------------- the memoized walk

  lemma {:induction false} BehindIsBelow(g: TaskGraph, t: TaskId, c: TaskId)
    requires g.Acyclic() && c in ConnectorsBehind(g, t)
    ensures g.Rank()(c) < g.Rank()(t)
    decreases g.Rank()(t)
  {
    var d := ConnectorVia(g, t, g.DependenciesOf(t), c);
    if c != d { BehindIsBelow(g, d, c); }
  }

  lemma NotBehindItself(g: TaskGraph, d: TaskId)
    requires g.Acyclic()
    ensures d !in ConnectorsBehind(g, d)
  {
    if d in ConnectorsBehind(g, d) { BehindIsBelow(g, d, d); }
  }

  ghost predicate Missing(lookup: Lookup, tasks: set<TaskId>) {
    exists x :: x in tasks && lookup(x).None?
  }

  /**
   * What one resolution carries along: the digests of the connectors it expanded, in the order of
   * expansion, and the flag a lookup raises when it has no hash to give.
   */
  datatype Memo = Memo(digests: map<TaskId, Digest>, expanded: seq<TaskId>, missed: bool)

  const EmptyMemo := Memo(map[], [], false)

  /** What a resolution is about: the hash, the graph and the hashes of the tasks that ran. */
  datatype Query = Query(h: Str -> Digest, g: TaskGraph, lookup: Lookup) {
    /** The memoized digest of c is the plain one, and no gap behind c is forgotten. */
    ghost predicate Remembers(memo: Memo, c: TaskId)
      requires g.Acyclic() && c in memo.digests
    {
      g.IsConnector(c) && PlainHash(h, g, lookup, c) == Some(memo.digests[c]) &&
      ConnectorsBehind(g, c) <= memo.digests.Keys &&
      (Missing(lookup, CountedBehind(g, c)) ==> memo.missed)
    }

    ghost predicate Sound(memo: Memo) {
      g.Acyclic() && Distinct(memo.expanded) && (forall c :: c in memo.expanded <==> c in memo.digests) &&
      forall c {:trigger Remembers(memo, c)} :: c in memo.digests ==> Remembers(memo, c)
    }

    /** From `before` to `after` the walk met these counted tasks and these connectors. */
    ghost predicate Met(before: Memo, after: Memo, counted: set<TaskId>, connectors: set<TaskId>) {
      Sound(after) && before.expanded <= after.expanded &&
      after.digests.Keys == before.digests.Keys + connectors &&
      (after.missed <==> before.missed || Missing(lookup, counted))
    }

    lemma Memorized(memo: Memo, d: TaskId, digest: Digest)
      requires Sound(memo) && d !in memo.digests
      requires g.IsConnector(d) && PlainHash(h, g, lookup, d) == Some(digest)
      requires ConnectorsBehind(g, d) <= memo.digests.Keys
      requires Missing(lookup, CountedBehind(g, d)) ==> memo.missed
      ensures Met(memo, Memo(memo.digests[d := digest], memo.expanded + [d], memo.missed), {}, {d})
    {
      var after := Memo(memo.digests[d := digest], memo.expanded + [d], memo.missed);
      forall c {:trigger Remembers(after, c)} | c in after.digests ensures Remembers(after, c) {
        assert c != d ==> Remembers(memo, c);
      }
    }

    lemma Expanded(before: Memo, memo: Memo, d: TaskId, digest: Digest)
      requires g.Acyclic() && Met(before, memo, CountedBehind(g, d), ConnectorsBehind(g, d))
      requires g.IsConnector(d) && PlainHash(h, g, lookup, d) == Some(digest) && d !in before.digests
      ensures Met(before, Memo(memo.digests[d := digest], memo.expanded + [d], memo.missed),
                  CountedBehind(g, d) + {}, ConnectorsBehind(g, d) + {d})
    {
      var after := Memo(memo.digests[d := digest], memo.expanded + [d], memo.missed);
      assert d !in memo.digests by { NotBehindItself(g, d); }
      assert Met(memo, after, {}, {d}) by { Memorized(memo, d, digest); }
      MetBoth(before, memo, after, CountedBehind(g, d), {}, ConnectorsBehind(g, d), {d});
    }

    lemma LookedUp(memo: Memo, d: TaskId)
      requires Sound(memo) && !g.IsConnector(d)
      ensures Met(memo, memo.(missed := memo.missed || lookup(d).None?), CountedFrom(g, d), ConnectorsFrom(g, d))
    {
      var after := memo.(missed := memo.missed || lookup(d).None?);
      forall c {:trigger Remembers(after, c)} | c in after.digests ensures Remembers(after, c) {
        assert Remembers(memo, c);
      }
    }

    lemma Recalled(memo: Memo, d: TaskId)
      requires Sound(memo) && d in memo.digests
      ensures Met(memo, memo, CountedFrom(g, d), ConnectorsFrom(g, d))
      ensures g.IsConnector(d) && PlainHash(h, g, lookup, d) == Some(memo.digests[d])
    {
      assert Remembers(memo, d);
    }

    lemma MetBoth(a: Memo, b: Memo, c: Memo, x: set<TaskId>, y: set<TaskId>, p: set<TaskId>, q: set<TaskId>)
      requires Met(a, b, x, p) && Met(b, c, y, q)
      ensures Met(a, c, x + y, p + q)
    {
      assert Missing(lookup, x + y) <==> Missing(lookup, x) || Missing(lookup, y);
    }

    lemma OneDependencyMore(t: TaskId, ds: seq<TaskId>, i: nat)
      requires g.Acyclic() && ds == g.DependenciesOf(t) && i < |ds|
      ensures CountedAmong(g, t, ds[..i + 1]) == CountedAmong(g, t, ds[..i]) + CountedFrom(g, ds[i])
      ensures ConnectorsAmong(g, t, ds[..i + 1]) == ConnectorsAmong(g, t, ds[..i]) + ConnectorsFrom(g, ds[i])
      ensures Collect(h, g, lookup, t, ds[..i + 1]) ==
              var rest, hash := Collect(h, g, lookup, t, ds[..i]), PlainHash(h, g, lookup, ds[i]);
              if hash.Some? then rest[ds[i].Name() := hash.value] else rest
    {
      assert ds[..i + 1][..i] == ds[..i];
    }

    /**
     * One resolution from an empty memo: the plain map; every connector behind t expanded exactly
     * once; the flag raised exactly when some counted task behind t has no hash, however often the
     * memo answered for it.
     */
    method ResolveDependencyOutputs(t: TaskId) returns (outputs: Outputs, memo: Memo)
      requires g.Acyclic()
      ensures outputs == PlainOutputs(h, g, lookup, t)
      ensures Distinct(memo.expanded) && forall c :: c in memo.expanded <==> c in ConnectorsBehind(g, t)
      ensures memo.missed <==> Missing(lookup, CountedBehind(g, t))
    {
      outputs, memo := Resolve(t, EmptyMemo);
    }

    /** The map of t's dependencies. Over a whole walk each connector met is expanded once. */
    method Resolve(t: TaskId, memo: Memo) returns (outputs: Outputs, memo': Memo)
      requires Sound(memo)
      ensures outputs == PlainOutputs(h, g, lookup, t)
      ensures Met(memo, memo', CountedBehind(g, t), ConnectorsBehind(g, t))
      decreases g.Rank()(t), 0
    {
      outputs, memo' := map[], memo;
      var ds := g.DependenciesOf(t);
      for i := 0 to |ds|
        invariant outputs == Collect(h, g, lookup, t, ds[..i])
        invariant Met(memo, memo', CountedAmong(g, t, ds[..i]), ConnectorsAmong(g, t, ds[..i]))
      {
        var hash, next := DependencyHash(ds[i], memo');
        MetBoth(memo, memo', next, CountedAmong(g, t, ds[..i]), CountedFrom(g, ds[i]),
                ConnectorsAmong(g, t, ds[..i]), ConnectorsFrom(g, ds[i]));
        if hash.Some? { outputs := outputs[ds[i].Name() := hash.value]; }
        memo' := next;
        OneDependencyMore(t, ds, i);
      }
      assert ds[..|ds|] == ds;
    }

    method DependencyHash(d: TaskId, memo: Memo) returns (hash: Option<Digest>, memo': Memo)
      requires Sound(memo)
      ensures hash == PlainHash(h, g, lookup, d)
      ensures Met(memo, memo', CountedFrom(g, d), ConnectorsFrom(g, d))
      decreases g.Rank()(d), 1
    {
      if !g.IsConnector(d) {
        hash := lookup(d);
        memo' := memo.(missed := memo.missed || hash.None?);
        LookedUp(memo, d);
      } else if d in memo.digests {
        hash, memo' := Some(memo.digests[d]), memo;
        Recalled(memo, d);
      } else {
        var nested, inner := Resolve(d, memo);
        var digest := h(ConnectorStream(nested));
        memo' := Memo(inner.digests[d := digest], inner.expanded + [d], inner.missed);
        hash := Some(digest);
        Expanded(memo, inner, d, digest);
        assert CountedBehind(g, d) + {} == CountedFrom(g, d);
        assert ConnectorsBehind(g, d) + {d} == ConnectorsFrom(g, d);
      }
    }
  }
}
