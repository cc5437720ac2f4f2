/** Fixes of one file: a conflict-free selection, spliced into the source from the end. */
module Edits {
  import opened Basics
  import opened Sorting
  import opened Utf8

  datatype Edit = Edit(position: nat, deleted: nat, inserted: Str, rule: Str) {
    function End(): nat { position + deleted }
  }

  // ---------------------------------------------------------------- selection

  /** By position, longer deletions first, then by rule. */
  predicate EditBelow(a: Edit, b: Edit) {
    a.position < b.position ||
    (a.position == b.position && (a.deleted > b.deleted || (a.deleted == b.deleted && Less(a.rule, b.rule))))
  }

  lemma EditBelowIsWeakOrder()
    ensures WeakOrder(EditBelow)
  {
    forall a, b | EditBelow(a, b) ensures !EditBelow(b, a) { LessTotal(a.rule, b.rule); }
    forall a, b, c | !EditBelow(a, b) && !EditBelow(b, c) ensures !EditBelow(a, c) {
      LessTotal(a.rule, b.rule);
      LessTotal(b.rule, c.rule);
      LessTotal(a.rule, c.rule);
      if Less(c.rule, b.rule) && Less(b.rule, a.rule) { LessTransitive(c.rule, b.rule, a.rule); }
    }
  }

  /** The last accepted edit ends where no later one may start before. */
  function LastEnd(accepted: seq<Edit>): nat {
    if accepted == [] then 0 else accepted[|accepted| - 1].End()
  }

  ghost predicate InOrder(edits: seq<Edit>) {
    forall i, j :: 0 <= i < j < |edits| ==> edits[i].End() <= edits[j].position
  }

  ghost predicate StartsInside(e: Edit, accepted: seq<Edit>) {
    exists a :: a in accepted && a.position <= e.position < a.End()
  }

  datatype Selection = Selection(accepted: seq<Edit>, skipped: seq<Edit>)

  /** Each edit in turn, unless it starts before the end of the one accepted last. */
  function Greedy(sorted: seq<Edit>): Selection {
    if sorted == [] then Selection([], [])
    else
      var s, edit := Greedy(sorted[..|sorted| - 1]), sorted[|sorted| - 1];
      if s.accepted != [] && edit.position < LastEnd(s.accepted) then s.(skipped := s.skipped + [edit])
      else s.(accepted := s.accepted + [edit])
  }

  method SelectNonOverlapping(candidates: seq<Edit>) returns (accepted: seq<Edit>, skipped: seq<Edit>)
    ensures Selection(accepted, skipped) == Greedy(Sort(EditBelow, candidates))
  {
    var sorted := Sort(EditBelow, candidates);
    accepted, skipped := [], [];
    var lastEnd := 0;
    for i := 0 to |sorted|
      invariant Selection(accepted, skipped) == Greedy(sorted[..i]) && lastEnd == LastEnd(accepted)
    {
      var edit := sorted[i];
      assert sorted[..i + 1][..i] == sorted[..i];
      if accepted != [] && edit.position < lastEnd {
        skipped := skipped + [edit];
        continue;
      }
      lastEnd := edit.End();
      accepted := accepted + [edit];
    }
    assert sorted[..|sorted|] == sorted;
  }

  lemma {:induction false} GreedyPartitions(sorted: seq<Edit>)
    ensures multiset(Greedy(sorted).accepted) + multiset(Greedy(sorted).skipped) == multiset(sorted)
  {
    if sorted != [] {
      GreedyPartitions(sorted[..|sorted| - 1]);
      assert sorted == sorted[..|sorted| - 1] + [sorted[|sorted| - 1]];
    }
  }

  lemma GreedyAccepts(sorted: seq<Edit>, e: Edit)
    requires e in Greedy(sorted).accepted
    ensures e in sorted
  {
    GreedyPartitions(sorted);
    assert e in multiset(Greedy(sorted).accepted);
    assert e in multiset(sorted);
  }

  ghost predicate Apart(s: Selection) {
    InOrder(s.accepted) && SortedBy(EditBelow, s.accepted) &&
    (forall a :: a in s.accepted ==> a.End() <= LastEnd(s.accepted)) &&
    forall e :: e in s.skipped ==> StartsInside(e, s.accepted)
  }

  lemma AcceptOne(s: Selection, e: Edit)
    requires Apart(s) && forall a :: a in s.accepted ==> !EditBelow(e, a)
    requires s.accepted == [] || LastEnd(s.accepted) <= e.position
    ensures Apart(s.(accepted := s.accepted + [e]))
  {
    var more := s.accepted + [e];
    assert forall k :: 0 <= k < |s.accepted| ==> s.accepted[k] in s.accepted;
    forall x | x in s.skipped ensures StartsInside(x, more) {
      var a :| a in s.accepted && a.position <= x.position < a.End();
      assert a in more;
    }
  }

  lemma SkipOne(s: Selection, e: Edit)
    requires Apart(s) && s.accepted != [] && e.position < LastEnd(s.accepted)
    requires forall a :: a in s.accepted ==> !EditBelow(e, a)
    ensures Apart(s.(skipped := s.skipped + [e]))
  {
    var last := s.accepted[|s.accepted| - 1];
    assert last in s.accepted && last.position <= e.position;
    assert StartsInside(e, s.accepted);
  }

  lemma LaterIsBehind(init: seq<Edit>, e: Edit)
    requires SortedBy(EditBelow, init + [e])
    ensures forall a :: a in Greedy(init).accepted ==> !EditBelow(e, a)
  {
    var sorted := init + [e];
    forall a | a in Greedy(init).accepted ensures !EditBelow(e, a) {
      GreedyAccepts(init, a);
      var k :| 0 <= k < |init| && init[k] == a;
      assert sorted[k] == a && sorted[|init|] == e;
    }
  }

  lemma {:induction false} GreedyIsApart(sorted: seq<Edit>)
    requires SortedBy(EditBelow, sorted)
    ensures Apart(Greedy(sorted))
  {
    if sorted != [] {
      var init, e := sorted[..|sorted| - 1], sorted[|sorted| - 1];
      var s := Greedy(init);
      GreedyIsApart(init);
      assert sorted == init + [e];
      LaterIsBehind(init, e);
      if s.accepted != [] && e.position < LastEnd(s.accepted) { SkipOne(s, e); } else { AcceptOne(s, e); }
    }
  }

  /**
   * Of the selection: accepted and skipped edits together are the candidates; the accepted ones
   * ascend and do not overlap; every skipped one starts inside an accepted range.
   */
  lemma SelectionMeaning(candidates: seq<Edit>)
    ensures
      var s := Greedy(Sort(EditBelow, candidates));
      multiset(s.accepted) + multiset(s.skipped) == multiset(candidates) &&
      InOrder(s.accepted) && SortedBy(EditBelow, s.accepted) &&
      forall e :: e in s.skipped ==> StartsInside(e, s.accepted)
  {
    EditBelowIsWeakOrder();
    SortSorts(EditBelow, candidates);
    SortPermutes(EditBelow, candidates);
    GreedyPartitions(Sort(EditBelow, candidates));
    GreedyIsApart(Sort(EditBelow, candidates));
  }

  /** At one position: the longer deletion, and of two as long the one whose rule comes first. */
  predicate Outranks(a: Edit, e: Edit) {
    a.deleted > e.deleted || (a.deleted == e.deleted && !Less(e.rule, a.rule))
  }

  ghost predicate Ranked(s: Selection) {
    (forall e :: e in s.skipped ==> s.accepted != [] && e.position < LastEnd(s.accepted)) &&
    forall a, e :: a in s.accepted && e in s.skipped && a.position == e.position ==> Outranks(a, e)
  }

  lemma {:induction false} GreedyIsRanked(sorted: seq<Edit>)
    requires SortedBy(EditBelow, sorted)
    ensures Ranked(Greedy(sorted))
  {
    if sorted != [] {
      var init, e := sorted[..|sorted| - 1], sorted[|sorted| - 1];
      GreedyIsRanked(init);
      GreedyIsApart(init);
      assert sorted == init + [e];
      LaterIsBehind(init, e);
      OneMoreRanked(Greedy(init), e);
    }
  }

  lemma OneMoreRanked(s: Selection, e: Edit)
    requires Ranked(s) && Apart(s) && forall a :: a in s.accepted ==> !EditBelow(e, a)
    ensures s.accepted != [] && e.position < LastEnd(s.accepted) ==> Ranked(s.(skipped := s.skipped + [e]))
    ensures !(s.accepted != [] && e.position < LastEnd(s.accepted)) ==> Ranked(s.(accepted := s.accepted + [e]))
  {
  }

  /**
   * Of edits at one position: none that was skipped deletes more than an accepted one, or as much under
   * a rule that comes first; and the accepted ones are in that order.
   */
  lemma SamePositionMeaning(candidates: seq<Edit>)
    ensures
      var s := Greedy(Sort(EditBelow, candidates));
      (forall a, e :: a in s.accepted && e in s.skipped && a.position == e.position ==> Outranks(a, e)) &&
      forall i, j :: 0 <= i < j < |s.accepted| && s.accepted[i].position == s.accepted[j].position ==>
        Outranks(s.accepted[i], s.accepted[j])
  {
    EditBelowIsWeakOrder();
    SortSorts(EditBelow, candidates);
    GreedyIsRanked(Sort(EditBelow, candidates));
    SelectionMeaning(candidates);
    forall a: Edit, b: Edit | a.position == b.position && !EditBelow(b, a) ensures Outranks(a, b) {}
  }

  // ---------------------------------------------------------------- splicing

  function Splice(s: Str, from: nat, to: nat, text: Str): Str
    requires from <= to <= |s|
  {
    s[..from] + text + s[to..]
  }

  ghost predicate Fits(source: Str, edits: seq<Edit>, from: nat) {
    InOrder(edits) && from <= |source| &&
    forall i :: 0 <= i < |edits| ==> from <= edits[i].position && edits[i].End() <= |source|
  }

  /** Simultaneous substitution: the untouched gaps and the inserted texts, in ascending order. */
  ghost function Substitute(source: Str, edits: seq<Edit>, from: nat): Str
    requires Fits(source, edits, from)
  {
    if edits == [] then source[from..]
    else source[from..edits[0].position] + edits[0].inserted + Substitute(source, edits[1..], edits[0].End())
  }

  /** Up to the first edit the substituted text is the source. */
  lemma SubstituteFrom(source: Str, edits: seq<Edit>, k: nat)
    requires Fits(source, edits, 0) && Fits(source, edits, k)
    ensures k <= |Substitute(source, edits, 0)|
    ensures Substitute(source, edits, 0)[..k] == source[..k]
    ensures Substitute(source, edits, 0)[k..] == Substitute(source, edits, k)
  {
    if edits == [] {
      assert source[0..] == source;
    } else {
      var p, tail := edits[0].position, Substitute(source, edits[1..], edits[0].End());
      assert source[0..p] == source[..k] + source[k..p];
      Associate(source[0..p], edits[0].inserted, tail);
      Associate(source[k..p], edits[0].inserted, tail);
      Associate(source[..k], source[k..p], edits[0].inserted + tail);
      CutConcat(source[..k], source[k..p] + (edits[0].inserted + tail));
    }
  }

  lemma CutConcat(a: Str, b: Str)
    ensures (a + b)[..|a|] == a && (a + b)[|a|..] == b
  {
  }

  lemma SpliceStep(source: Str, edits: seq<Edit>, i: nat)
    requires Fits(source, edits, 0) && i < |edits|
    ensures
      var later := Substitute(source, edits[i + 1..], 0);
      edits[i].End() <= |later| &&
      Splice(later, edits[i].position, edits[i].End(), edits[i].inserted) == Substitute(source, edits[i..], 0)
  {
    var e, rest := edits[i], edits[i + 1..];
    assert edits[i..][1..] == rest && edits[i..][0] == e;
    SubstituteFrom(source, rest, e.End());
    SubstituteFrom(source, rest, e.position);
    assert source[0..e.position] == source[..e.position];
  }

  /** Splicing from the last edit to the first substitutes all of them at once. */
  method ApplyEdits(source: Str, edits: seq<Edit>) returns (result: Result<Str, Str>)
    requires Fits(source, edits, 0)
    ensures
      var text := Substitute(source, edits, 0);
      result == if Valid(text) then Ok(text) else Err("failed to decode rewritten source")
  {
    var buffer := source;
    var i := |edits|;
    assert edits[i..] == [] && source[0..] == source;
    while i > 0
      invariant i <= |edits| && buffer == Substitute(source, edits[i..], 0)
    {
      i := i - 1;
      SpliceStep(source, edits, i);
      buffer := Splice(buffer, edits[i].position, edits[i].End(), edits[i].inserted);
    }
    assert edits[0..] == edits;
    result := if Valid(buffer) then Ok(buffer) else Err("failed to decode rewritten source");
  }

  // ---------------------------------------------------------------- what the substitution does

  /** How far the edits that end at or before k move what follows. */
  ghost function Shift(edits: seq<Edit>, k: nat): int {
    if edits == [] || edits[0].End() > k then 0
    else |edits[0].inserted| - edits[0].deleted + Shift(edits[1..], k)
  }

  ghost predicate Untouched(edits: seq<Edit>, k: nat) {
    forall e :: e in edits ==> k < e.position || e.End() <= k
  }

  /** Every byte outside the deleted ranges is kept, moved by what was changed before it. */
  lemma {:induction false} UntouchedBytesKept(source: Str, edits: seq<Edit>, from: nat, k: nat)
    requires Fits(source, edits, from) && from <= k < |source| && Untouched(edits, k)
    ensures
      var text := Substitute(source, edits, from);
      0 <= k - from + Shift(edits, k) < |text| && text[k - from + Shift(edits, k)] == source[k]
  {
    if edits != [] {
      var e, rest := edits[0], edits[1..];
      var tail := Substitute(source, rest, e.End());
      var head: Str := source[from..e.position] + e.inserted;
      assert e in edits;
      assert Substitute(source, edits, from) == head + tail;
      if e.End() <= k {
        UntouchedBytesKept(source, rest, e.End(), k);
        var at := k - e.End() + Shift(rest, k);
        assert (head + tail)[|head| + at] == tail[at];
      } else {
        assert (head + tail)[k - from] == head[k - from] == source[k];
      }
    }
  }

  /** Around every edit: what comes before, the inserted text, and the rest substituted as such. */
  lemma {:induction false} SubstituteAround(source: Str, edits: seq<Edit>, from: nat, i: nat) returns (before: Str)
    requires Fits(source, edits, from) && i < |edits|
    ensures |before| == edits[i].position - from + Grown(edits[..i])
    ensures Fits(source, edits[i + 1..], edits[i].End())
    ensures Substitute(source, edits, from) ==
            before + (edits[i].inserted + Substitute(source, edits[i + 1..], edits[i].End()))
  {
    var e, rest := edits[0], edits[1..];
    var gap, tail: Str := source[from..e.position], Substitute(source, rest, e.End());
    if i == 0 {
      Associate(gap, e.inserted, tail);
      before := gap;
    } else {
      var inner := SubstituteAround(source, rest, e.End(), i - 1);
      assert rest[i..] == edits[i + 1..] && rest[..i - 1] == edits[..i][1..];
      Associate(gap + e.inserted, inner, edits[i].inserted + Substitute(source, rest[i..], edits[i].End()));
      before := gap + e.inserted + inner;
    }
  }

  /** Every inserted text is there, at its position moved by what was changed before it. */
  lemma InsertedTextsPresent(source: Str, edits: seq<Edit>, i: nat)
    requires Fits(source, edits, 0) && i < |edits|
    ensures
      var text, at := Substitute(source, edits, 0), edits[i].position + Grown(edits[..i]);
      0 <= at <= at + |edits[i].inserted| <= |text| && text[at..at + |edits[i].inserted|] == edits[i].inserted
  {
    var before := SubstituteAround(source, edits, 0, i);
    var tail := Substitute(source, edits[i + 1..], edits[i].End());
    SliceInside(before, edits[i].inserted, tail);
  }

  lemma SliceInside(a: Str, piece: Str, b: Str)
    ensures (a + (piece + b))[|a|..|a| + |piece|] == piece
  {
  }

  ghost function Grown(edits: seq<Edit>): int {
    if edits == [] then 0 else |edits[0].inserted| - edits[0].deleted + Grown(edits[1..])
  }

  /** Nothing else is there: the length changes by exactly what the edits insert and delete. */
  lemma {:induction false} LengthAccounted(source: Str, edits: seq<Edit>, from: nat)
    requires Fits(source, edits, from)
    ensures |Substitute(source, edits, from)| == |source| - from + Grown(edits)
  {
    if edits != [] { LengthAccounted(source, edits[1..], edits[0].End()); }
  }

  /** Edits cut at character boundaries that insert valid text keep a valid source valid. */
  lemma {:induction false} ValidityKept(source: Str, edits: seq<Edit>, from: nat)
    requires Fits(source, edits, from) && Valid(source) && Boundary(source, from)
    requires forall e :: e in edits ==> Valid(e.inserted) && Boundary(source, e.position) && Boundary(source, e.End())
    ensures Valid(Substitute(source, edits, from))
  {
    if edits == [] {
      ValidCut(source, from);
    } else {
      var e := edits[0];
      assert e in edits;
      ValidSlice(source, from, e.position);
      ValidConcat(source[from..e.position], e.inserted);
      ValidityKept(source, edits[1..], e.End());
      ValidConcat(source[from..e.position] + e.inserted, Substitute(source, edits[1..], e.End()));
    }
  }

  /** The whole rewrite of a file: selection, then splicing, with no decoding error on good edits. */
  method Rewrite(source: Str, candidates: seq<Edit>) returns (result: Result<Str, Str>, skipped: seq<Edit>)
    requires Valid(source)
    requires forall e :: e in candidates ==>
               e.End() <= |source| && Valid(e.inserted) && Boundary(source, e.position) && Boundary(source, e.End())
    ensures
      var s := Greedy(Sort(EditBelow, candidates));
      skipped == s.skipped && Fits(source, s.accepted, 0) && result == Ok(Substitute(source, s.accepted, 0))
  {
    var accepted;
    accepted, skipped := SelectNonOverlapping(candidates);
    SelectionMeaning(candidates);
    forall e | e in accepted ensures e in candidates {
      assert e in multiset(accepted) && e in multiset(candidates);
    }
    assert forall i :: 0 <= i < |accepted| ==> accepted[i] in accepted;
    ValidityKept(source, accepted, 0);
    result := ApplyEdits(source, accepted);
  }
}
