/** Searches and comparisons over a causal DAG: happensBefore with its explicit stack, the memoised
    depth, and the ready-queue comparators (src/distributed/event_model.ts,
    src/distributed/merge_algebra.ts, src/distributed/state_engine.ts). A graph is read here through
    its event table. */
module GraphSearch {
  import opened Ids
  import opened Digraph
  import opened EventDag

  /** happensBefore: search the parents of b with a stack until a turns up. */
  method HappensBefore(a: Id, b: Id, E: Events) returns (before: bool)
    ensures before <==> EventDag.HappensBefore(E, a, b)
  {
    if a == b {
      return false;
    }
    ghost var g := Parents(E);
    ghost var u := {b} + set id, p | id in E && p in E[id].parents :: p;
    var stack, seen := [b], {};
    while |stack| > 0
      invariant forall x :: x in stack || x in seen ==> x in u && (x == b || Reaches(g, b, x))
      invariant a !in seen && a !in stack
      invariant forall x, y :: x in seen && Edge(g, x, y) ==> y in seen || y in stack
      invariant b in seen || b in stack
      decreases u - seen, |stack|
    {
      var cur := stack[|stack| - 1];
      stack := stack[..|stack| - 1];
      if cur in seen {
        continue;
      }
      label Popped:
      seen := seen + {cur};
      if cur in E {
        var parents := E[cur].parents;
        ghost var rest := stack;
        for i := 0 to |parents|
          invariant stack == rest + parents[..i]
          invariant a !in parents[..i]
        {
          if parents[i] == a {
            assert Edge(g, cur, a);
            ReachEdge(g, cur, a);
            if cur != b {
              ReachTransitive(g, b, cur, a);
            }
            return true;
          }
          stack := stack + [parents[i]];
        }
        assert parents[..|parents|] == parents;
        forall y | y in parents
          ensures y in u && Reaches(g, b, y)
        {
          assert Edge(g, cur, y);
          ReachEdge(g, cur, y);
          if cur != b {
            ReachTransitive(g, b, cur, y);
          }
        }
      }
    }
    if Reaches(g, b, a) {
      ReachStaysIn(g, seen, b, a);
    }
    before := false;
  }

  ghost predicate Memo(E: Events, memo: map<Id, nat>)
    requires Dag(E)
  {
    forall id :: id in memo ==> id in E && memo[id] == Depth(E, id)
  }

  /** computeDepth: memoised recursion over the parents. */
  method ComputeDepth(id: Id, E: Events, memo: map<Id, nat>) returns (d: nat, memo': map<Id, nat>)
    requires Dag(E) && id in E && Memo(E, memo)
    ensures d == Depth(E, id) && Memo(E, memo')
    decreases Depth(E, id)
  {
    memo' := memo;
    if id in memo {
      return memo[id], memo';
    }
    var parents := E[id].parents;
    var deepest: int := -1;
    for i := 0 to |parents|
      invariant deepest == PrefixDepth(E, id, i) && Memo(E, memo')
    {
      ParentDepth(E, id, parents[i]);
      var dp;
      dp, memo' := ComputeDepth(parents[i], E, memo');
      if dp > deepest {
        deepest := dp;
      }
    }
    d := deepest + 1;
    memo' := memo'[id := d];
  }

  method ResolveConflict(a: Id, b: Id, E: Events) returns (winner: Id)
    requires Dag(E) && a in E && b in E
    ensures winner == Winner(E, a, b)
  {
    if a == b {
      return a;
    }
    var da, memo := ComputeDepth(a, E, map[]);
    var db;
    db, memo := ComputeDepth(b, E, map[]);
    if da != db {
      return if da > db then a else b;
    }
    winner := if a >= b then a else b;
  }

  method AreConcurrent(a: Id, b: Id, E: Events) returns (r: bool)
    ensures r <==> Concurrent(E, a, b)
  {
    if a == b {
      return false;
    }
    var ab := HappensBefore(a, b, E);
    var ba := HappensBefore(b, a, E);
    r := !ab && !ba;
  }

  method Dominates(a: Id, b: Id, E: Events) returns (r: bool)
    requires Dag(E) && a in E && b in E
    ensures r <==> EventDag.Dominates(E, a, b)
  {
    if a == b {
      return false;
    }
    var ba := HappensBefore(b, a, E);
    if ba {
      return true;
    }
    var ab := HappensBefore(a, b, E);
    if ab {
      return false;
    }
    var winner := ResolveConflict(a, b, E);
    r := winner == a;
  }

  // ----- ready queues -----

  /** Which comparator orders the ready queue: by id (topologicalSort), deeper and larger first
      (merge insertion), or conflict losers first (state evaluation). */
  datatype Policy = ById | DeepestFirst | LosersFirst

  ghost predicate Before(E: Events, policy: Policy, x: Id, y: Id)
    requires Dag(E) && x in E && y in E
  {
    match policy
    case ById => x < y
    case DeepestFirst => KeyLess(E, y, x)
    case LosersFirst => KeyLess(E, x, y)
  }

  /** Whether the comparator returns a negative number. */
  method Earlier(policy: Policy, x: Id, y: Id, E: Events) returns (r: bool)
    requires Dag(E) && x in E && y in E
    ensures r <==> Before(E, policy, x, y)
  {
    match policy
    case ById => r := x < y;
    case DeepestFirst =>
      var dx, memo := ComputeDepth(x, E, map[]);
      var dy;
      dy, memo := ComputeDepth(y, E, memo);
      r := if dx != dy then dx > dy else y < x;
    case LosersFirst =>
      DominanceIsKeyOrder(E, x, y);
      DominanceIsKeyOrder(E, y, x);
      if x == y {
        return false;
      }
      var xy := Dominates(x, y, E);
      if xy {
        return false;
      }
      var yx := Dominates(y, x, E);
      if yx {
        return true;
      }
      r := x < y;
  }

  ghost predicate Distinct(s: seq<Id>) {
    forall i, j :: 0 <= i < j < |s| ==> s[i] != s[j]
  }

  ghost predicate Ordered(E: Events, policy: Policy, s: seq<Id>)
    requires Dag(E) && forall x :: x in s ==> x in E
  {
    forall i, j :: 0 <= i < j < |s| ==> Before(E, policy, s[i], s[j])
  }

  /** ready.sort with the comparator. */
  method SortReady(E: Events, policy: Policy, ready: seq<Id>) returns (sorted: seq<Id>)
    requires Dag(E) && Distinct(ready) && forall x :: x in ready ==> x in E
    ensures forall x :: x in sorted <==> x in ready
    ensures |sorted| == |ready| && Distinct(sorted) && Ordered(E, policy, sorted)
  {
    sorted := [];
    for n := 0 to |ready|
      invariant |sorted| == n
      invariant forall x :: x in sorted <==> x in ready[..n]
      invariant forall x :: x in sorted ==> x in E
      invariant Ordered(E, policy, sorted)
    {
      var x := ready[n];
      var i := 0;
      assert x !in ready[..n];
      while i < n
        invariant 0 <= i <= n
        invariant forall k :: 0 <= k < i ==> Before(E, policy, sorted[k], x)
      {
        var earlier := Earlier(policy, sorted[i], x, E);
        if !earlier {
          break;
        }
        i := i + 1;
      }
      InsertOrdered(E, policy, sorted, x, i);
      sorted := sorted[..i] + [x] + sorted[i..];
      assert ready[..n + 1] == ready[..n] + [x];
    }
    assert ready[..|ready|] == ready;
  }

  lemma BeforeIsOrder(E: Events, policy: Policy, x: Id, y: Id, z: Id)
    requires Dag(E) && x in E && y in E && z in E
    ensures x != y ==> Before(E, policy, x, y) || Before(E, policy, y, x)
    ensures Before(E, policy, x, y) && Before(E, policy, y, z) ==> Before(E, policy, x, z)
  {
  }

  lemma RestAfter(E: Events, policy: Policy, s: seq<Id>, x: Id, i: nat)
    requires Dag(E) && x in E && x !in s && (forall y :: y in s ==> y in E) && Ordered(E, policy, s)
    requires i < |s| ==> !Before(E, policy, s[i], x)
    ensures forall l :: i <= l < |s| ==> Before(E, policy, x, s[l])
  {
    forall l | i <= l < |s|
      ensures Before(E, policy, x, s[l])
    {
      assert s[i] in s && s[l] in s;
      BeforeIsOrder(E, policy, x, s[i], s[l]);
    }
  }

  lemma InsertOrdered(E: Events, policy: Policy, s: seq<Id>, x: Id, i: nat)
    requires Dag(E) && x in E && x !in s && (forall y :: y in s ==> y in E) && Ordered(E, policy, s)
    requires i <= |s| && forall k :: 0 <= k < i ==> Before(E, policy, s[k], x)
    requires i < |s| ==> !Before(E, policy, s[i], x)
    ensures var r := s[..i] + [x] + s[i..];
      (forall y :: y in r <==> y in s || y == x) && Ordered(E, policy, r)
  {
    var r := s[..i] + [x] + s[i..];
    assert s == s[..i] + s[i..];
    assert forall y :: y in r <==> y in s || y == x;
    RestAfter(E, policy, s, x, i);
    var less := (a: Id, b: Id) => a in E && b in E && Before(E, policy, a, b);
    InsertKeepsPairs(less, s, x, i);
    forall k, l | 0 <= k < l < |r|
      ensures Before(E, policy, r[k], r[l])
    {
      assert less(r[k], r[l]);
    }
  }

  ghost predicate Pairwise(less: (Id, Id) -> bool, s: seq<Id>) {
    forall k, l :: 0 <= k < l < |s| ==> less(s[k], s[l])
  }

  lemma InsertKeepsPairs(less: (Id, Id) -> bool, s: seq<Id>, x: Id, i: nat)
    requires i <= |s| && Pairwise(less, s)
    requires (forall k :: 0 <= k < i ==> less(s[k], x)) && forall l :: i <= l < |s| ==> less(x, s[l])
    ensures Pairwise(less, s[..i] + [x] + s[i..])
  {
  }
}
