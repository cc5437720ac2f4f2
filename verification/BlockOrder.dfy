/** When the order of whole blocks of entries matters to the deduped and sorted list. */
module BlockOrder {
  import opened Basics
  import opened Sorting
  import opened FileEntries
  import opened EntryDedupe

  type Canonical = Str -> Str

  function Outcome(c: Canonical, entries: seq<FileEntry>): seq<FileEntry> {
    Sort(PathBelow, Dedupe(c, entries))
  }

  // ---------------------------------------------------------------- filters

  lemma {:induction false} FilterConcat<T>(keep: T -> bool, a: seq<T>, b: seq<T>)
    ensures Filter(keep, a + b) == Filter(keep, a) + Filter(keep, b)
  {
    if a == [] {
      assert a + b == b;
    } else {
      FilterConcat(keep, a[1..], b);
      assert (a + b)[1..] == a[1..] + b;
      if keep(a[0]) { Associate([a[0]], Filter(keep, a[1..]), Filter(keep, b)); }
    }
  }

  lemma {:induction false} FilterMembers<T>(keep: T -> bool, a: seq<T>)
    ensures forall x :: x in Filter(keep, a) <==> x in a && keep(x)
  {
    if a != [] {
      FilterMembers(keep, a[1..]);
      assert forall x :: x in a <==> x == a[0] || x in a[1..];
    }
  }

  lemma {:induction false} FiltersCommute<T>(p: T -> bool, q: T -> bool, a: seq<T>)
    ensures Filter(p, Filter(q, a)) == Filter(q, Filter(p, a))
  {
    if a != [] {
      FiltersCommute(p, q, a[1..]);
      if q(a[0]) { FilterStep(p, a[0], Filter(q, a[1..])); }
      if p(a[0]) { FilterStep(q, a[0], Filter(p, a[1..])); }
    }
  }

  function WithPath(path: Str): FileEntry -> bool {
    (e: FileEntry) => e.path == path
  }

  /** The two lists have the same entries of every path, in the same order. */
  ghost predicate SameByPath(a: seq<FileEntry>, b: seq<FileEntry>) {
    forall p :: Filter(WithPath(p), a) == Filter(WithPath(p), b)
  }

  lemma SameByPathMembers(a: seq<FileEntry>, b: seq<FileEntry>)
    requires SameByPath(a, b)
    ensures forall e :: e in a <==> e in b
  {
    forall e ensures e in a <==> e in b {
      FilterMembers(WithPath(e.path), a);
      FilterMembers(WithPath(e.path), b);
      assert Filter(WithPath(e.path), a) == Filter(WithPath(e.path), b);
    }
  }

  lemma SortedByPath(a: seq<FileEntry>, p: Str)
    ensures Filter(WithPath(p), Sort(PathBelow, a)) == Filter(WithPath(p), a)
  {
    var keep := WithPath(p);
    forall x, y | keep(x) && keep(y) ensures !PathBelow(x, y) { LessTotal(x.path, y.path); }
    SortStable(PathBelow, keep, a);
  }

  /** Sorted lists are determined by their entries of each path. */
  lemma {:induction false} SortedUnique(a: seq<FileEntry>, b: seq<FileEntry>)
    requires SortedBy(PathBelow, a) && SortedBy(PathBelow, b) && SameByPath(a, b)
    ensures a == b
  {
    SameByPathMembers(a, b);
    assert b != [] ==> b[0] in a;
    if a != [] {
      assert a[0] in a && a[0] in b && b != [] && b[0] in b && b[0] in a;
      HeadPath(a, b[0]);
      HeadPath(b, a[0]);
      LessTotal(a[0].path, b[0].path);
      var p := a[0].path;
      assert Filter(WithPath(p), a) == Filter(WithPath(p), b);
      assert Filter(WithPath(p), a)[0] == a[0] && Filter(WithPath(p), b)[0] == b[0];
      forall q ensures Filter(WithPath(q), a[1..]) == Filter(WithPath(q), b[1..]) {
        assert Filter(WithPath(q), a) == Filter(WithPath(q), b);
        TailFilter(WithPath(q), a, b);
      }
      SortedUnique(a[1..], b[1..]);
      assert a == [a[0]] + a[1..] && b == [b[0]] + b[1..];
    }
  }

  lemma HeadPath(a: seq<FileEntry>, e: FileEntry)
    requires SortedBy(PathBelow, a) && e in a
    ensures !PathBelow(e, a[0])
  {
    var i :| 0 <= i < |a| && a[i] == e;
    LessTotal(e.path, e.path);
  }

  lemma TailFilter(keep: FileEntry -> bool, a: seq<FileEntry>, b: seq<FileEntry>)
    requires a != [] && b != [] && a[0] == b[0] && Filter(keep, a) == Filter(keep, b)
    ensures Filter(keep, a[1..]) == Filter(keep, b[1..])
  {
    if keep(a[0]) {
      assert Filter(keep, a)[1..] == Filter(keep, a[1..]) && Filter(keep, b)[1..] == Filter(keep, b[1..]);
    }
  }

  /** Results are equal exactly when the deduped lists agree path by path. */
  lemma ResultsAgree(c: Canonical, a: seq<FileEntry>, b: seq<FileEntry>)
    ensures Outcome(c, a) == Outcome(c, b) <==> SameByPath(Dedupe(c, a), Dedupe(c, b))
  {
    var x, y := Dedupe(c, a), Dedupe(c, b);
    forall p ensures Filter(WithPath(p), Outcome(c, a)) == Filter(WithPath(p), x) &&
                     Filter(WithPath(p), Outcome(c, b)) == Filter(WithPath(p), y)
    {
      SortedByPath(x, p);
      SortedByPath(y, p);
    }
    if SameByPath(x, y) {
      PathBelowIsWeakOrder();
      SortSorts(PathBelow, x);
      SortSorts(PathBelow, y);
      SortedUnique(Outcome(c, a), Outcome(c, b));
    }
  }

  // ---------------------------------------------------------------- concatenation

  function FreshIn(c: Canonical, keys: set<(bool, Str)>): FileEntry -> bool {
    (e: FileEntry) => DedupeKey(c, e) !in keys
  }

  lemma InKeySet(c: Canonical, a: seq<FileEntry>, e: FileEntry)
    ensures KeySeen(c, a, e) <==> DedupeKey(c, e) in KeySet(c, a)
  {
  }

  lemma SeenInBoth(c: Canonical, a: seq<FileEntry>, b: seq<FileEntry>, e: FileEntry)
    ensures KeySeen(c, a + b, e) <==> KeySeen(c, a, e) || KeySeen(c, b, e)
  {
    assert forall x :: x in a + b <==> x in a || x in b;
  }

  lemma SnocFilter<T>(keep: T -> bool, s: seq<T>, x: T)
    ensures Filter(keep, s + [x]) == if keep(x) then Filter(keep, s) + [x] else Filter(keep, s)
  {
    FilterConcat(keep, s, [x]);
    assert Filter(keep, [x]) == if keep(x) then [x] else [];
  }

  /** What a block adds behind another: its own deduped entries whose keys are new. */
  lemma {:induction false} DedupeConcat(c: Canonical, a: seq<FileEntry>, b: seq<FileEntry>)
    ensures Dedupe(c, a + b) == Dedupe(c, a) + Filter(FreshIn(c, KeySet(c, a)), Dedupe(c, b))
  {
    if b == [] {
      assert a + b == a;
    } else {
      var init, last := b[..|b| - 1], b[|b| - 1];
      assert b == init + [last];
      Associate(a, init, [last]);
      DedupeConcat(c, a, init);
      OneEntryMore(c, a, init, last);
    }
  }

  lemma OneEntryMore(c: Canonical, a: seq<FileEntry>, b: seq<FileEntry>, e: FileEntry)
    requires Dedupe(c, a + b) == Dedupe(c, a) + Filter(FreshIn(c, KeySet(c, a)), Dedupe(c, b))
    ensures Dedupe(c, (a + b) + [e]) == Dedupe(c, a) + Filter(FreshIn(c, KeySet(c, a)), Dedupe(c, b + [e]))
  {
    var keep := FreshIn(c, KeySet(c, a));
    SnocDedupe(c, a + b, e);
    SnocDedupe(c, b, e);
    SeenInBoth(c, a, b, e);
    InKeySet(c, a, e);
    SnocFilter(keep, Dedupe(c, b), e);
    Associate(Dedupe(c, a), Filter(keep, Dedupe(c, b)), [e]);
  }

  lemma SnocDedupe(c: Canonical, a: seq<FileEntry>, e: FileEntry)
    ensures Dedupe(c, a + [e]) == if KeySeen(c, a, e) then Dedupe(c, a) else Dedupe(c, a) + [e]
  {
    assert (a + [e])[..|a|] == a;
  }

  lemma SameKeySets(c: Canonical, a: seq<FileEntry>, b: seq<FileEntry>)
    requires SameByPath(Dedupe(c, a), Dedupe(c, b))
    ensures KeySet(c, a) == KeySet(c, b)
  {
    SameByPathMembers(Dedupe(c, a), Dedupe(c, b));
    DedupeKeepsKeys(c, a);
    DedupeKeepsKeys(c, b);
    SameKeys(c, Dedupe(c, a), a);
    SameKeys(c, Dedupe(c, b), b);
  }

  /** Blocks with one result can be exchanged in front of anything. */
  lemma ExchangeInFront(c: Canonical, a: seq<FileEntry>, b: seq<FileEntry>, rest: seq<FileEntry>)
    requires Outcome(c, a) == Outcome(c, b)
    ensures Outcome(c, a + rest) == Outcome(c, b + rest)
  {
    ResultsAgree(c, a, b);
    SameKeySets(c, a, b);
    DedupeConcat(c, a, rest);
    DedupeConcat(c, b, rest);
    var added := Filter(FreshIn(c, KeySet(c, a)), Dedupe(c, rest));
    forall p ensures Filter(WithPath(p), Dedupe(c, a + rest)) == Filter(WithPath(p), Dedupe(c, b + rest)) {
      FilterConcat(WithPath(p), Dedupe(c, a), added);
      FilterConcat(WithPath(p), Dedupe(c, b), added);
      assert Filter(WithPath(p), Dedupe(c, a)) == Filter(WithPath(p), Dedupe(c, b));
    }
    ResultsAgree(c, a + rest, b + rest);
  }

  /** And behind anything. */
  lemma ExchangeBehind(c: Canonical, front: seq<FileEntry>, a: seq<FileEntry>, b: seq<FileEntry>)
    requires Outcome(c, a) == Outcome(c, b)
    ensures Outcome(c, front + a) == Outcome(c, front + b)
  {
    ResultsAgree(c, a, b);
    DedupeConcat(c, front, a);
    DedupeConcat(c, front, b);
    var keep, x, y := FreshIn(c, KeySet(c, front)), Dedupe(c, a), Dedupe(c, b);
    forall p ensures Filter(WithPath(p), Dedupe(c, front + a)) == Filter(WithPath(p), Dedupe(c, front + b)) {
      FilterConcat(WithPath(p), Dedupe(c, front), Filter(keep, x));
      FilterConcat(WithPath(p), Dedupe(c, front), Filter(keep, y));
      FiltersCommute(WithPath(p), keep, x);
      FiltersCommute(WithPath(p), keep, y);
      assert Filter(WithPath(p), x) == Filter(WithPath(p), y);
    }
    ResultsAgree(c, front + a, front + b);
  }

  /** Conversely, blocks of the same keys that give one result in front of something give one result alone. */
  lemma FrontDecides(c: Canonical, a: seq<FileEntry>, b: seq<FileEntry>, rest: seq<FileEntry>)
    requires Outcome(c, a + rest) == Outcome(c, b + rest) && KeySet(c, a) == KeySet(c, b)
    ensures Outcome(c, a) == Outcome(c, b)
  {
    ResultsAgree(c, a + rest, b + rest);
    DedupeConcat(c, a, rest);
    DedupeConcat(c, b, rest);
    var added := Filter(FreshIn(c, KeySet(c, a)), Dedupe(c, rest));
    forall p ensures Filter(WithPath(p), Dedupe(c, a)) == Filter(WithPath(p), Dedupe(c, b)) {
      FilterConcat(WithPath(p), Dedupe(c, a), added);
      FilterConcat(WithPath(p), Dedupe(c, b), added);
      assert Filter(WithPath(p), Dedupe(c, a + rest)) == Filter(WithPath(p), Dedupe(c, b + rest));
      SameFront(Filter(WithPath(p), Dedupe(c, a)), Filter(WithPath(p), Dedupe(c, b)), Filter(WithPath(p), added));
    }
    ResultsAgree(c, a, b);
  }

  lemma SameFront(a: seq<FileEntry>, b: seq<FileEntry>, z: seq<FileEntry>)
    requires a + z == b + z
    ensures a == b
  {
    assert |a| == |b|;
    assert a == (a + z)[..|a|] && b == (b + z)[..|b|];
  }

  // ---------------------------------------------------------------- when two blocks can be exchanged

  /** The two blocks give one result in either order. */
  ghost predicate Commute(c: Canonical, a: seq<FileEntry>, b: seq<FileEntry>) {
    Outcome(c, a + b) == Outcome(c, b + a)
  }

  /** Kept entries of one key are equal, and so are the first kept ones of one recorded path. */
  ghost predicate Compatible(c: Canonical, a: seq<FileEntry>, b: seq<FileEntry>) {
    SameOfKey(c, Dedupe(c, a), Dedupe(c, b)) && SameFirst(Dedupe(c, a), Dedupe(c, b))
  }

  ghost predicate SameOfKey(c: Canonical, x: seq<FileEntry>, y: seq<FileEntry>) {
    forall e, f :: e in x && f in y && DedupeKey(c, e) == DedupeKey(c, f) ==> e == f
  }

  ghost predicate SameFirst(x: seq<FileEntry>, y: seq<FileEntry>) {
    forall p :: FirstAgree(Filter(WithPath(p), x), Filter(WithPath(p), y))
  }

  predicate FirstAgree(u: seq<FileEntry>, v: seq<FileEntry>) {
    u != [] && v != [] ==> u[0] == v[0]
  }

  lemma CommuteSameOfKey(c: Canonical, a: seq<FileEntry>, b: seq<FileEntry>)
    requires Commute(c, a, b)
    ensures SameOfKey(c, Dedupe(c, a), Dedupe(c, b))
  {
    ResultsAgree(c, a + b, b + a);
    DedupeConcat(c, a, b);
    DedupeConcat(c, b, a);
    SameByPathMembers(Dedupe(c, a + b), Dedupe(c, b + a));
    DedupeKeepsKeys(c, a + b);
    forall e, f | e in Dedupe(c, a) && f in Dedupe(c, b) && DedupeKey(c, e) == DedupeKey(c, f) ensures e == f {
      assert e in Dedupe(c, a + b) && f in Dedupe(c, b + a);
    }
  }

  lemma FirstOfPath(c: Canonical, a: seq<FileEntry>, b: seq<FileEntry>, p: Str)
    ensures Filter(WithPath(p), Dedupe(c, a)) <= Filter(WithPath(p), Dedupe(c, a + b))
  {
    DedupeConcat(c, a, b);
    FilterConcat(WithPath(p), Dedupe(c, a), Filter(FreshIn(c, KeySet(c, a)), Dedupe(c, b)));
  }

  lemma CommuteSameFirst(c: Canonical, a: seq<FileEntry>, b: seq<FileEntry>)
    requires Commute(c, a, b)
    ensures SameFirst(Dedupe(c, a), Dedupe(c, b))
  {
    ResultsAgree(c, a + b, b + a);
    forall p ensures FirstAgree(Filter(WithPath(p), Dedupe(c, a)), Filter(WithPath(p), Dedupe(c, b))) {
      FirstOfPath(c, a, b, p);
      FirstOfPath(c, b, a, p);
      assert Filter(WithPath(p), Dedupe(c, a + b)) == Filter(WithPath(p), Dedupe(c, b + a));
    }
  }

  /** One path has at most one kept entry that is absent and one that is present. */
  ghost predicate Few(u: seq<FileEntry>) {
    forall i, j :: 0 <= i < j < |u| ==> u[i].absent != u[j].absent
  }

  lemma {:induction false} FilterKeepsDistinct(c: Canonical, x: seq<FileEntry>, keep: FileEntry -> bool)
    requires DistinctKeys(c, x)
    ensures DistinctKeys(c, Filter(keep, x))
  {
    if x != [] {
      FilterKeepsDistinct(c, x[1..], keep);
      FilterMembers(keep, x[1..]);
      var rest := Filter(keep, x[1..]);
      forall j | 0 <= j < |rest| ensures DedupeKey(c, rest[j]) != DedupeKey(c, x[0]) { assert rest[j] in x[1..]; }
    }
  }

  lemma FewOfPath(c: Canonical, a: seq<FileEntry>, p: Str)
    ensures Few(Filter(WithPath(p), Dedupe(c, a)))
    ensures forall e :: e in Filter(WithPath(p), Dedupe(c, a)) <==> e in Dedupe(c, a) && e.path == p
  {
    var u := Filter(WithPath(p), Dedupe(c, a));
    DedupeKeepsKeys(c, a);
    FilterKeepsDistinct(c, Dedupe(c, a), WithPath(p));
    FilterMembers(WithPath(p), Dedupe(c, a));
    forall i, j | 0 <= i < j < |u| ensures u[i].absent != u[j].absent { assert u[i] in u && u[j] in u; }
  }

  lemma AtMostTwo(u: seq<FileEntry>)
    requires Few(u)
    ensures |u| <= 2
  {
    var flag := (e: FileEntry) => e.absent;
    DistinctValues(u, flag);
    SubsetSize(Values(u, flag), {true, false});
  }

  function NotIn(u: seq<FileEntry>): FileEntry -> bool {
    (e: FileEntry) => e !in u
  }

  /** What one path gets from behind is what it does not have yet. */
  lemma FreshOfPath(c: Canonical, a: seq<FileEntry>, b: seq<FileEntry>, p: Str)
    requires SameOfKey(c, Dedupe(c, a), Dedupe(c, b))
    ensures
      var u, v := Filter(WithPath(p), Dedupe(c, a)), Filter(WithPath(p), Dedupe(c, b));
      Filter(WithPath(p), Dedupe(c, a + b)) == u + Filter(NotIn(u), v)
  {
    var x, y, keep := Dedupe(c, a), Dedupe(c, b), FreshIn(c, KeySet(c, a));
    var u, v := Filter(WithPath(p), x), Filter(WithPath(p), y);
    DedupeConcat(c, a, b);
    FilterConcat(WithPath(p), x, Filter(keep, y));
    FiltersCommute(WithPath(p), keep, y);
    FewOfPath(c, a, p);
    FewOfPath(c, b, p);
    forall f | f in v ensures keep(f) <==> NotIn(u)(f) { FreshOrKept(c, a, b, u, p, f); }
    FiltersAgree(keep, NotIn(u), v);
  }

  lemma FreshOrKept(c: Canonical, a: seq<FileEntry>, b: seq<FileEntry>, u: seq<FileEntry>, p: Str, f: FileEntry)
    requires SameOfKey(c, Dedupe(c, a), Dedupe(c, b)) && f in Dedupe(c, b) && f.path == p
    requires forall e :: e in u <==> e in Dedupe(c, a) && e.path == p
    ensures DedupeKey(c, f) in KeySet(c, a) <==> f in u
  {
    DedupeKeepsKeys(c, a);
    if DedupeKey(c, f) in KeySet(c, a) {
      assert HasKey(c, a, DedupeKey(c, f));
      var e :| e in Dedupe(c, a) && DedupeKey(c, e) == DedupeKey(c, f);
    }
  }

  lemma {:induction false} FiltersAgree<T>(p: T -> bool, q: T -> bool, a: seq<T>)
    requires forall x :: x in a ==> (p(x) <==> q(x))
    ensures Filter(p, a) == Filter(q, a)
  {
    if a != [] { FiltersAgree(p, q, a[1..]); }
  }

  lemma FewCommute(u: seq<FileEntry>, v: seq<FileEntry>)
    requires Few(u) && Few(v) && FirstAgree(u, v)
    requires forall e, f :: e in u && f in v && e.absent == f.absent ==> e == f
    ensures u + Filter(NotIn(u), v) == v + Filter(NotIn(v), u)
  {
    AtMostTwo(u);
    AtMostTwo(v);
    FilterOfFew(NotIn(u), v);
    FilterOfFew(NotIn(v), u);
    if |u| == 2 && |v| == 2 { assert u[1] in u && v[1] in v && u[1] == v[1]; }
  }

  lemma FilterOfFew<T>(keep: T -> bool, s: seq<T>)
    requires |s| <= 2
    ensures s == [] ==> Filter(keep, s) == []
    ensures |s| == 1 ==> Filter(keep, s) == if keep(s[0]) then [s[0]] else []
    ensures |s| == 2 ==> Filter(keep, s) == (if keep(s[0]) then [s[0]] else []) + if keep(s[1]) then [s[1]] else []
  {
    if |s| == 2 { assert s[1..] == [s[1]]; }
  }

  lemma CompatibleOfPath(c: Canonical, a: seq<FileEntry>, b: seq<FileEntry>, p: Str)
    requires Compatible(c, a, b)
    ensures Filter(WithPath(p), Dedupe(c, a + b)) == Filter(WithPath(p), Dedupe(c, b + a))
  {
    var u, v := Filter(WithPath(p), Dedupe(c, a)), Filter(WithPath(p), Dedupe(c, b));
    FewOfPath(c, a, p);
    FewOfPath(c, b, p);
    FreshOfPath(c, a, b, p);
    FreshOfPath(c, b, a, p);
    assert FirstAgree(u, v);
    forall e, f | e in u && f in v && e.absent == f.absent ensures e == f { assert DedupeKey(c, e) == DedupeKey(c, f); }
    FewCommute(u, v);
  }

  /** Two blocks can be exchanged exactly when what they keep agrees key by key and in the first entry of every path. */
  lemma CommuteExactly(c: Canonical, a: seq<FileEntry>, b: seq<FileEntry>)
    ensures Commute(c, a, b) <==> Compatible(c, a, b)
  {
    if Commute(c, a, b) {
      CommuteSameOfKey(c, a, b);
      CommuteSameFirst(c, a, b);
    }
    if Compatible(c, a, b) {
      forall p ensures Filter(WithPath(p), Dedupe(c, a + b)) == Filter(WithPath(p), Dedupe(c, b + a)) {
        CompatibleOfPath(c, a, b, p);
      }
      ResultsAgree(c, a + b, b + a);
    }
  }

  // ---------------------------------------------------------------- permutations of blocks

  function Flatten<T>(block: T -> seq<FileEntry>, s: seq<T>): seq<FileEntry> {
    if s == [] then [] else block(s[0]) + Flatten(block, s[1..])
  }

  ghost predicate AllCompatible<T(!new)>(c: Canonical, block: T -> seq<FileEntry>, s: seq<T>) {
    forall x, y :: x in s && y in s ==> Compatible(c, block(x), block(y))
  }

  ghost predicate AllCommute<T(!new)>(c: Canonical, block: T -> seq<FileEntry>, s: seq<T>) {
    forall x, y :: x in s && y in s ==> Commute(c, block(x), block(y))
  }

  lemma FlattenCons<T>(block: T -> seq<FileEntry>, x: T, s: seq<T>)
    ensures Flatten(block, [x] + s) == block(x) + Flatten(block, s)
  {
    assert ([x] + s)[1..] == s;
  }

  lemma SwapInFront(c: Canonical, a: seq<FileEntry>, b: seq<FileEntry>, rest: seq<FileEntry>)
    requires Commute(c, a, b)
    ensures Outcome(c, a + (b + rest)) == Outcome(c, b + (a + rest))
  {
    ExchangeInFront(c, a + b, b + a, rest);
    Associate(a, b, rest);
    Associate(b, a, rest);
  }

  /** A block can be moved to the front when all blocks commute. */
  lemma {:induction false} MoveToFront<T(!new)>(c: Canonical, block: T -> seq<FileEntry>, s: seq<T>, i: nat)
    requires i < |s| && AllCommute(c, block, s)
    ensures Outcome(c, Flatten(block, s)) == Outcome(c, Flatten(block, [s[i]] + Others(s, i)))
  {
    if i == 0 {
      assert s == [s[0]] + Others(s, 0);
    } else {
      assert forall y :: y in s[1..] ==> y in s;
      MoveToFront(c, block, s[1..], i - 1);
      OthersTail(s, i);
      assert s[0] in s && s[i] in s;
      MoveStep(c, block, s, s[i], Others(s[1..], i - 1));
    }
  }

  function Others<T>(s: seq<T>, i: nat): seq<T>
    requires i < |s|
  {
    s[..i] + s[i + 1..]
  }

  lemma OthersTail<T>(s: seq<T>, i: nat)
    requires 0 < i < |s|
    ensures Others(s, i) == [s[0]] + Others(s[1..], i - 1)
  {
    assert s[..i] == [s[0]] + s[1..][..i - 1];
    assert s[1..][i..] == s[i + 1..];
    Associate([s[0]], s[1..][..i - 1], s[i + 1..]);
  }

  /** The other elements and the one left out make up the whole. */
  lemma OthersAndOne<T>(s: seq<T>, i: nat)
    requires i < |s|
    ensures multiset(s) == multiset(Others(s, i)) + multiset{s[i]}
  {
    assert s == s[..i] + [s[i]] + s[i + 1..];
  }

  lemma MoveStep<T(!new)>(c: Canonical, block: T -> seq<FileEntry>, s: seq<T>, x: T, others: seq<T>)
    requires s != [] && Commute(c, block(s[0]), block(x))
    requires Outcome(c, Flatten(block, s[1..])) == Outcome(c, Flatten(block, [x] + others))
    ensures Outcome(c, Flatten(block, s)) == Outcome(c, Flatten(block, [x] + ([s[0]] + others)))
  {
    FlattenCons(block, x, others);
    FlattenCons(block, s[0], others);
    FlattenCons(block, x, [s[0]] + others);
    ExchangeBehind(c, block(s[0]), Flatten(block, s[1..]), Flatten(block, [x] + others));
    SwapInFront(c, block(s[0]), block(x), Flatten(block, others));
  }

  lemma {:induction false} AllPermutationsAgree<T(!new)>(c: Canonical, block: T -> seq<FileEntry>, s: seq<T>, t: seq<T>)
    requires multiset(s) == multiset(t) && AllCommute(c, block, s)
    ensures Outcome(c, Flatten(block, s)) == Outcome(c, Flatten(block, t))
  {
    SamePermutation(s, t);
    if t != [] {
      var x := t[0];
      assert x in t;
      var i :| 0 <= i < |s| && s[i] == x;
      var others := Others(s, i);
      MoveToFront(c, block, s, i);
      WithoutOne(s, i, t);
      assert forall y :: y in others ==> y in s;
      AllPermutationsAgree(c, block, others, t[1..]);
      FlattenCons(block, x, others);
      ExchangeBehind(c, block(x), Flatten(block, others), Flatten(block, t[1..]));
    }
  }

  lemma WithoutOne<T>(s: seq<T>, i: nat, t: seq<T>)
    requires i < |s| && t != [] && t[0] == s[i] && multiset(s) == multiset(t)
    ensures multiset(Others(s, i)) == multiset(t[1..])
  {
    OthersAndOne(s, i);
    OthersAndOne(t, 0);
    assert Others(t, 0) == t[1..];
    assert multiset(Others(s, i)) == multiset(s) - multiset{s[i]};
    assert multiset(t[1..]) == multiset(t) - multiset{t[0]};
  }

  lemma TwoToFront<T>(s: seq<T>, x: T, y: T) returns (rest: seq<T>)
    requires x in s && y in s && x != y
    ensures multiset([x, y] + rest) == multiset(s) == multiset([y, x] + rest)
  {
    var others := Pull(s, x);
    SamePermutation(s, [x] + others);
    rest := Pull(others, y);
    TwoInFront(x, y, rest);
    TwoInFront(y, x, rest);
  }

  lemma TwoInFront<T>(x: T, y: T, rest: seq<T>)
    ensures multiset([x, y] + rest) == multiset{x} + multiset([y] + rest) == multiset{x, y} + multiset(rest)
  {
    assert [x, y] + rest == [x] + ([y] + rest);
  }

  lemma SameKeysSwapped(c: Canonical, a: seq<FileEntry>, b: seq<FileEntry>)
    ensures KeySet(c, a + b) == KeySet(c, b + a)
  {
    assert forall e :: e in a + b <==> e in b + a;
  }

  ghost predicate OrderFree<T(!new)>(c: Canonical, block: T -> seq<FileEntry>, s: seq<T>) {
    forall t :: multiset(t) == multiset(s) ==> Outcome(c, Flatten(block, t)) == Outcome(c, Flatten(block, s))
  }

  lemma OrderFreeAt<T(!new)>(c: Canonical, block: T -> seq<FileEntry>, s: seq<T>, t: seq<T>)
    requires OrderFree(c, block, s) && multiset(t) == multiset(s)
    ensures Outcome(c, Flatten(block, t)) == Outcome(c, Flatten(block, s))
  {
  }

  lemma OrderFreeCommute<T(!new)>(c: Canonical, block: T -> seq<FileEntry>, s: seq<T>, x: T, y: T)
    requires OrderFree(c, block, s) && x in s && y in s && x != y
    ensures Commute(c, block(x), block(y))
  {
    var rest := TwoToFront(s, x, y);
    OrderFreeAt(c, block, s, [x, y] + rest);
    OrderFreeAt(c, block, s, [y, x] + rest);
    SwappedAtFront(c, block, x, y, rest);
  }

  lemma SwappedAtFront<T>(c: Canonical, block: T -> seq<FileEntry>, x: T, y: T, rest: seq<T>)
    requires Outcome(c, Flatten(block, [x, y] + rest)) == Outcome(c, Flatten(block, [y, x] + rest))
    ensures Commute(c, block(x), block(y))
  {
    TwoFlattened(block, x, y, rest);
    TwoFlattened(block, y, x, rest);
    SameKeysSwapped(c, block(x), block(y));
    FrontDecides(c, block(x) + block(y), block(y) + block(x), Flatten(block, rest));
  }

  /** Every order of the blocks gives one result exactly when any two of them are compatible. */
  lemma BlockOrderExactly<T(!new)>(c: Canonical, block: T -> seq<FileEntry>, s: seq<T>)
    ensures OrderFree(c, block, s) <==> AllCompatible(c, block, s)
  {
    forall x, y ensures Commute(c, block(x), block(y)) <==> Compatible(c, block(x), block(y)) {
      CommuteExactly(c, block(x), block(y));
    }
    if AllCommute(c, block, s) {
      forall t | multiset(t) == multiset(s) ensures Outcome(c, Flatten(block, t)) == Outcome(c, Flatten(block, s)) {
        AllPermutationsAgree(c, block, s, t);
      }
    } else {
      var x, y :| x in s && y in s && !Commute(c, block(x), block(y));
      if OrderFree(c, block, s) { OrderFreeCommute(c, block, s, x, y); }
    }
  }

  lemma TwoFlattened<T>(block: T -> seq<FileEntry>, x: T, y: T, rest: seq<T>)
    ensures Flatten(block, [x, y] + rest) == block(x) + block(y) + Flatten(block, rest)
  {
    assert [x, y] + rest == [x] + ([y] + rest);
    FlattenCons(block, x, [y] + rest);
    FlattenCons(block, y, rest);
    Associate(block(x), block(y), Flatten(block, rest));
  }
}
