/** Resident memory of a process tree, from one reading of the process table, which may hold cycles. */
module ProcessTree {
  import opened Basics

  type Pid = p: int | 0 <= p <= U32Max

  /** One reading of the process table: resident memory where it could be read, and children. */
  datatype Table = Table(rss: Pid -> Option<nat>, children: Pid -> seq<Pid>) {
    ghost predicate Closed(s: set<Pid>, root: Pid) {
      root in s && forall p, c :: p in s && c in children(p) && rss(c).Some? ==> c in s
    }

    /** The least set that holds the root and is closed under children with readable memory. */
    ghost predicate IsTree(s: set<Pid>, root: Pid) {
      Closed(s, root) && forall t: set<Pid> :: Closed(t, root) ==> s <= t
    }

    ghost function Memory(p: Pid): nat {
      if rss(p).Some? then rss(p).value else 0
    }

    ghost function Sum(s: set<Pid>): nat {
      if s == {} then 0 else
        var p :| p in s;
        Memory(p) + Sum(s - {p})
    }

    lemma {:induction false} SumInsert(s: set<Pid>, p: Pid)
      requires p !in s
      ensures Sum(s + {p}) == Sum(s) + Memory(p)
    {
      var t := s + {p};
      var q :| q in t && Sum(t) == Memory(q) + Sum(t - {q});
      if q == p {
        assert t - {q} == s;
      } else {
        SumInsert(s - {q}, p);
        assert t - {q} == s - {q} + {p};
        SumInsert(s - {q}, q);
        assert s - {q} + {q} == s;
      }
    }

    lemma TreeUnique(s: set<Pid>, t: set<Pid>, root: Pid)
      requires IsTree(s, root) && IsTree(t, root)
      ensures s == t
    {
    }

    /** The invariant of the walk: what has been counted, and what is still to be expanded. */
    ghost predicate Walking(root: Pid, total: nat, visited: set<Pid>, queue: seq<Pid>, counted: set<Pid>) {
      root in counted && counted <= visited && total == Cap(Sum(counted)) &&
      (forall p :: p in visited ==> (p in counted <==> rss(p).Some?)) &&
      (forall p :: p in queue ==> p in counted) &&
      forall t: set<Pid> :: Closed(t, root) ==> counted <= t
    }

    ghost predicate Expanded(p: Pid, n: nat, visited: set<Pid>)
      requires n <= |children(p)|
    {
      forall j :: 0 <= j < n ==> children(p)[j] in visited
    }

    /** Counts and queues the children of one process that were not seen before. */
    method Visit(root: Pid, pid: Pid, sum: nat, visited: set<Pid>, queue: seq<Pid>, ghost tree: set<Pid>)
      returns (sum': nat, visited': set<Pid>, queue': seq<Pid>, ghost tree': set<Pid>)
      requires Walking(root, sum, visited, queue, tree) && pid in tree
      ensures Walking(root, sum', visited', queue', tree') && visited <= visited' && tree <= tree' && queue <= queue'
      ensures Expanded(pid, |children(pid)|, visited')
      ensures forall p :: p in tree' && p !in tree ==> p in queue'
      ensures visited' == visited ==> queue' == queue
    {
      sum', visited', queue', tree' := sum, visited, queue, tree;
      var kids := children(pid);
      for i := 0 to |kids|
        invariant Walking(root, sum', visited', queue', tree') && visited <= visited' && tree <= tree' &&
                  queue <= queue'
        invariant Expanded(pid, i, visited')
        invariant forall p :: p in tree' && p !in tree ==> p in queue'
        invariant visited' == visited ==> queue' == queue
      {
        var child := kids[i];
        if child !in visited' {
          visited' := visited' + {child};
          if rss(child).Some? {
            SumInsert(tree', child);
            CapStep(Sum(tree'), rss(child).value);
            assert pid in tree' && child in children(pid);
            sum' := SaturatingAdd(sum', rss(child).value);
            queue' := queue' + [child];
            tree' := tree' + {child};
          }
        }
      }
    }

    /**
     * The sum, capped at the 64-bit maximum, over the tree of the root, each process counted once;
     * nothing when the root itself cannot be read.
     */
    method TreeRss(root: Pid) returns (total: Option<nat>, ghost tree: set<Pid>)
      requires forall p :: rss(p).Some? ==> rss(p).value <= U64Max
      ensures total.None? <==> rss(root).None?
      ensures total.Some? ==> IsTree(tree, root) && total.value == Cap(Sum(tree))
    {
      tree := {root};
      if rss(root).None? { return None, tree; }
      var sum := rss(root).value;
      var visited, queue: seq<Pid> := {root}, [root];
      assert {} + {root} == {root};
      SumInsert({}, root);
      while queue != []
        invariant Walking(root, sum, visited, queue, tree)
        invariant forall p :: p in tree && p !in queue ==> Expanded(p, |children(p)|, visited)
        decreases AllPids() - visited, |queue|
      {
        var pid := queue[0];
        ghost var popped := queue;
        queue := queue[1..];
        assert forall p :: p in popped <==> p == pid || p in queue;
        sum, visited, queue, tree := Visit(root, pid, sum, visited, queue, tree);
      }
      total := Some(sum);
      forall p, c | p in tree && c in children(p) && rss(c).Some? ensures c in tree {
        assert Expanded(p, |children(p)|, visited);
      }
    }
  }

  ghost function AllPids(): set<Pid> {
    set p: Pid | 0 <= p <= U32Max && IsPid(p)
  }

  predicate IsPid(p: int) {
    0 <= p <= U32Max
  }

  function Cap(n: nat): nat {
    if n <= U64Max then n else U64Max
  }

  function SaturatingAdd(a: nat, b: nat): nat {
    Cap(a + b)
  }

  lemma CapStep(a: nat, b: nat)
    ensures SaturatingAdd(Cap(a), b) == Cap(a + b)
  {
  }
}
