/** The parts that the compact task list factors out: a prefix shared up to a separator, and a shared npm scope. */
module TaskPrefixes {
  import opened Basics
  import opened Tasks

  // ---------------------------------------------------------------- shared prefix

  predicate IsWordSeparator(c: Byte) {
    c == '-' || c == '/' || c == '.'
  }

  /** A prefix that ends at a separator and leaves something of every text. */
  predicate BoundaryPrefix(texts: seq<Str>, prefix: Str) {
    prefix != [] && IsWordSeparator(prefix[|prefix| - 1]) && forall i :: 0 <= i < |texts| ==> prefix < texts[i]
  }

  method CommonPrefixLength(a: Str, b: Str) returns (n: nat)
    ensures n <= |a| && n <= |b| && a[..n] == b[..n]
    ensures n < |a| && n < |b| ==> a[n] != b[n]
  {
    n := 0;
    while n < |a| && n < |b| && a[n] == b[n]
      invariant n <= |a| && n <= |b| && a[..n] == b[..n]
    {
      n := n + 1;
    }
  }

  /** The length up to which all texts agree with the first. */
  method SharedPrefixLength(texts: seq<Str>) returns (shared: nat)
    requires texts != []
    ensures shared <= |texts[0]|
    ensures forall i :: 0 <= i < |texts| ==> shared <= |texts[i]| && texts[i][..shared] == texts[0][..shared]
    ensures forall n :: shared < n <= |texts[0]| ==> exists i :: 0 <= i < |texts| && !(texts[0][..n] <= texts[i])
  {
    shared := |texts[0]|;
    for i := 1 to |texts|
      invariant shared <= |texts[0]|
      invariant forall j :: 0 <= j < i ==> shared <= |texts[j]| && texts[j][..shared] == texts[0][..shared]
      invariant forall n :: shared < n <= |texts[0]| ==> exists j :: 0 <= j < i && !(texts[0][..n] <= texts[j])
    {
      var n := CommonPrefixLength(texts[0], texts[i]);
      forall m | n < m <= |texts[0]| ensures !(texts[0][..m] <= texts[i]) {
        assert texts[0][..m][n] == texts[0][n];
      }
      if n < shared {
        forall j | 0 <= j < i ensures texts[j][..n] == texts[0][..n] {
          assert texts[j][..shared][..n] == texts[j][..n] && texts[0][..shared][..n] == texts[0][..n];
        }
        shared := n;
      }
      else { assert texts[i][..n][..shared] == texts[i][..shared] && texts[0][..n][..shared] == texts[0][..shared]; }
    }
  }

  /** The longest boundary prefix, or None when there is none at all. */
  method LongestBoundaryPrefix(texts: seq<Str>) returns (prefix: Option<Str>)
    ensures prefix.Some? ==> BoundaryPrefix(texts, prefix.value)
    ensures prefix.Some? ==> forall p :: BoundaryPrefix(texts, p) ==> |p| <= |prefix.value|
    ensures prefix.None? && texts != [] ==> forall p :: !BoundaryPrefix(texts, p)
    ensures texts == [] ==> prefix.None?
  {
    if texts == [] { return None; }
    var first := texts[0];
    var shared := SharedPrefixLength(texts);
    forall p | BoundaryPrefix(texts, p) ensures |p| <= shared && p == first[..|p|] {
      assert p < texts[0] && forall i :: 0 <= i < |texts| ==> first[..|p|] <= texts[i];
    }
    var n := shared;
    while n > 0
      invariant n <= shared
      invariant forall p :: BoundaryPrefix(texts, p) ==> |p| <= n
    {
      var candidate := first[..n];
      if IsWordSeparator(first[n - 1]) && (forall i :: 0 <= i < |texts| ==> candidate < texts[i]) {
        return Some(candidate);
      }
      forall p | BoundaryPrefix(texts, p) ensures |p| <= n - 1 {
        assert |p| == n ==> p == candidate;
      }
      n := n - 1;
    }
    return None;
  }

  // ---------------------------------------------------------------- shared scope

  /** Index of the last slash, or the length when there is none. */
  function LastSlash(s: Str): (i: nat)
    ensures i <= |s|
    ensures i < |s| ==> s[i] == '/' && '/' !in s[i + 1..]
    ensures i == |s| ==> '/' !in s
  {
    if s == [] then 0
    else if s[|s| - 1] == '/' then |s| - 1
    else
      var i := LastSlash(s[..|s| - 1]);
      if i == |s| - 1 then |s| else i
  }

  /** The npm scope of a package: what stands before the last slash of an `@` name. */
  function ScopeOf(package: Str): Option<Str> {
    if "@" <= package && LastSlash(package) < |package| then Some(package[..LastSlash(package)]) else None
  }

  function PackagesOf(tasks: seq<TaskId>): set<Str> {
    set t | t in tasks && !t.IsRoot() :: t.package
  }

  /** The scope that every package outside the root has, if there is one. */
  function SharedScope(shown: seq<TaskId>): Option<Str> {
    var packages := PackagesOf(shown);
    if packages == {} then None
    else
      var scope := ScopeOf(Least(packages));
      if scope.Some? && forall p :: p in packages ==> ScopeOf(p) == scope then scope else None
  }

  function Display(package: Str, scope: Option<Str>): Str {
    if scope.None? || !(scope.value <= package) then package
    else
      var rest := package[|scope.value|..];
      if "/" <= rest then rest[1..] else rest
  }

  function Reattach(display: Str, scope: Option<Str>): Str {
    if scope.None? then display else scope.value + "/" + display
  }

  ghost predicate ScopeFits(scope: Option<Str>, t: TaskId) {
    !t.IsRoot() ==> Reattach(Display(t.package, scope), scope) == t.package
  }

  /** A scope is shared exactly when there are packages outside the root and all of them have it. */
  lemma SharedScopeMeaning(shown: seq<TaskId>, scope: Str)
    ensures SharedScope(shown) == Some(scope) <==>
            (exists t :: t in shown && !t.IsRoot()) &&
            forall t :: t in shown && !t.IsRoot() ==> ScopeOf(t.package) == Some(scope)
  {
    var packages := PackagesOf(shown);
    assert forall t :: t in shown && !t.IsRoot() ==> t.package in packages;
    if packages != {} { assert Least(packages) in packages; }
  }

  /** Re-attaching the shared scope undoes the display form of every package shown. */
  lemma SharedScopeFits(shown: seq<TaskId>, t: TaskId)
    requires t in shown
    ensures ScopeFits(SharedScope(shown), t)
  {
    var scope := SharedScope(shown);
    if scope.Some? && !t.IsRoot() {
      assert ScopeOf(t.package) == scope;
      CutAndReattach(t.package, LastSlash(t.package));
    }
  }

  lemma CutAndReattach(package: Str, i: nat)
    requires i < |package| && package[i] == '/'
    ensures Reattach(Display(package, Some(package[..i])), Some(package[..i])) == package
  {
    assert package[i..][0] == '/' && package[i..][1..] == package[i + 1..];
    assert package == package[..i] + "/" + package[i + 1..];
  }
}
