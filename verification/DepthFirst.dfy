/** What a depth-first walk with a call stack and a set of finished nodes knows at every moment. It is
    the common ground of the two recursive cycle searches in the distributed layer. */
module DepthFirst {
  import opened Ids
  import opened Digraph

  /** Nodes finish after everything they point to. */
  ghost predicate Finished(g: Graph, fin: seq<Id>) {
    && (forall i, j :: 0 <= i < j < |fin| ==> fin[i] != fin[j])
    && (forall i, y :: 0 <= i < |fin| && Edge(g, fin[i], y) ==> y in fin[..i])
  }

  /** The call stack is a path, disjoint from the finished nodes. */
  ghost predicate Walking(g: Graph, stack: seq<Id>, fin: seq<Id>) {
    && Finished(g, fin)
    && (forall i, j :: 0 <= i < j < |stack| ==> stack[i] != stack[j])
    && (forall x :: x in stack ==> x !in fin)
    && (stack != [] ==> IsPath(g, stack))
  }

  /** Every id the walk can meet. */
  ghost predicate Universe(g: Graph, u: set<Id>) {
    forall a, b :: Edge(g, a, b) ==> b in u
  }

  ghost predicate CycleFrom(g: Graph, start: Id, x: Id) {
    (x == start || Reaches(g, start, x)) && Reaches(g, x, x)
  }

  /** A cycle can be reached from start. */
  ghost predicate CycleReachable(g: Graph, start: Id) {
    exists x :: CycleFrom(g, start, x)
  }

  lemma StackReaches(g: Graph, stack: seq<Id>, i: nat, y: Id)
    requires i < |stack| && IsPath(g, stack) && Edge(g, stack[|stack| - 1], y)
    ensures Reaches(g, stack[i], y)
  {
    PathReaches(g, stack + [y], i, |stack|);
  }

  /** Meeting a node of the stack again closes a cycle reachable from the bottom of the stack. */
  lemma BackEdgeIsCycle(g: Graph, stack: seq<Id>, id: Id)
    requires stack != [] && IsPath(g, stack) && Edge(g, stack[|stack| - 1], id) && id in stack
    ensures CycleReachable(g, stack[0])
  {
    var i :| 0 <= i < |stack| && stack[i] == id;
    StackReaches(g, stack, i, id);
    StackReaches(g, stack, 0, id);
    assert CycleFrom(g, stack[0], id);
  }

  lemma PushStack(g: Graph, stack: seq<Id>, fin: seq<Id>, id: Id)
    requires Walking(g, stack, fin) && id !in stack && id !in fin
    requires stack != [] ==> Edge(g, stack[|stack| - 1], id)
    ensures Walking(g, stack + [id], fin)
  {
    var s := stack + [id];
    forall i | 0 <= i < |s| - 1
      ensures Edge(g, s[i], s[i + 1])
    {
      if i < |stack| - 1 {
        assert Edge(g, stack[i], stack[i + 1]);
      }
    }
  }

  lemma Finish(g: Graph, stack: seq<Id>, fin: seq<Id>, id: Id)
    requires Walking(g, stack + [id], fin)
    requires forall y :: Edge(g, id, y) ==> y in fin
    ensures Walking(g, stack, fin + [id])
  {
    var s := stack + [id];
    var f := fin + [id];
    forall i, y | 0 <= i < |f| && Edge(g, f[i], y)
      ensures y in f[..i]
    {
      if i < |fin| {
        assert f[..i] == fin[..i];
      } else {
        assert f[..i] == fin;
      }
    }
    forall x | x in stack
      ensures x !in f
    {
      var i :| 0 <= i < |stack| && stack[i] == x;
      assert s[i] == x && s[|stack|] == id && x in s;
    }
    assert id in s;
    assert forall i, j :: 0 <= i < j < |stack| ==> s[i] == stack[i] && s[j] == stack[j];
    if stack != [] {
      forall i | 0 <= i < |stack| - 1
        ensures Edge(g, stack[i], stack[i + 1])
      {
        assert Edge(g, s[i], s[i + 1]);
      }
    }
  }

  lemma FinishedPrefixClosed(g: Graph, fin: seq<Id>, k: nat)
    requires Finished(g, fin) && k <= |fin|
    ensures ClosedUnder(g, Elements(fin[..k]))
  {
    forall a, b | a in Elements(fin[..k]) && Edge(g, a, b)
      ensures b in Elements(fin[..k])
    {
      var i :| 0 <= i < k && fin[i] == a;
      assert b in fin[..i];
      assert fin[..i] <= fin[..k];
    }
  }

  /** No finished node lies on, or leads to, a cycle. */
  lemma FinishedHasNoCycle(g: Graph, fin: seq<Id>, start: Id)
    requires Finished(g, fin) && start in fin
    ensures !CycleReachable(g, start)
  {
    forall x | CycleFrom(g, start, x)
      ensures false
    {
      FinishedPrefixClosed(g, fin, |fin|);
      assert fin[..|fin|] == fin;
      if x != start {
        ReachStaysIn(g, Elements(fin), start, x);
      }
      var i :| 0 <= i < |fin| && fin[i] == x;
      FinishedPrefixClosed(g, fin, i);
      ReachStaysIn(g, Elements(fin[..i]), x, x);
    }
  }
}
