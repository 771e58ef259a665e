/** Directed graphs given by their successor function: paths, reachability, rankings. */
module Digraph {
  import opened Ids

  type Graph = Id -> set<Id>

  predicate Edge(g: Graph, a: Id, b: Id) {
    b in g(a)
  }

  ghost predicate IsPath(g: Graph, p: seq<Id>) {
    |p| > 0 && forall i :: 0 <= i < |p| - 1 ==> Edge(g, p[i], p[i + 1])
  }

  lemma SubPath(g: Graph, p: seq<Id>)
    requires IsPath(g, p) && |p| > 1
    ensures IsPath(g, p[1..])
  {
    var q := p[1..];
    forall i | 0 <= i < |q| - 1
      ensures Edge(g, q[i], q[i + 1])
    {
      assert Edge(g, p[i + 1], p[i + 1 + 1]);
    }
  }

  lemma InitPath(g: Graph, p: seq<Id>)
    requires IsPath(g, p) && |p| > 1
    ensures IsPath(g, p[..|p| - 1])
  {
    var q := p[..|p| - 1];
    forall i | 0 <= i < |q| - 1
      ensures Edge(g, q[i], q[i + 1])
    {
      assert Edge(g, p[i], p[i + 1]);
    }
  }

  /** A path with at least one edge leads from a to b. */
  ghost predicate Reaches(g: Graph, a: Id, b: Id) {
    exists p: seq<Id> :: PathBetween(g, p, a, b)
  }

  ghost predicate PathBetween(g: Graph, p: seq<Id>, a: Id, b: Id) {
    |p| > 1 && IsPath(g, p) && p[0] == a && p[|p| - 1] == b
  }

  ghost predicate HasCycle(g: Graph) {
    exists x :: Reaches(g, x, x)
  }

  lemma ReachEdge(g: Graph, a: Id, b: Id)
    requires Edge(g, a, b)
    ensures Reaches(g, a, b)
  {
    assert PathBetween(g, [a, b], a, b);
  }

  lemma ReachTransitive(g: Graph, a: Id, b: Id, c: Id)
    requires Reaches(g, a, b) && Reaches(g, b, c)
    ensures Reaches(g, a, c)
  {
    var p :| PathBetween(g, p, a, b);
    var q :| PathBetween(g, q, b, c);
    var r := p + q[1..];
    forall i | 0 <= i < |r| - 1
      ensures Edge(g, r[i], r[i + 1])
    {
      if i < |p| - 1 {
        assert r[i] == p[i] && r[i + 1] == p[i + 1];
      } else {
        assert r[i] == q[i - |p| + 1] && r[i + 1] == q[i - |p| + 2];
      }
    }
    assert PathBetween(g, r, a, c);
  }

  /** The first edge of a connection. */
  lemma ReachFirst(g: Graph, a: Id, b: Id) returns (m: Id)
    requires Reaches(g, a, b)
    ensures Edge(g, a, m) && (m == b || Reaches(g, m, b))
  {
    var p :| PathBetween(g, p, a, b);
    m := p[1];
    assert Edge(g, p[0], p[1]);
    if |p| > 2 {
      SubPath(g, p);
      assert PathBetween(g, p[1..], m, b);
    }
  }

  /** The last edge of a connection. */
  lemma ReachLast(g: Graph, a: Id, b: Id) returns (m: Id)
    requires Reaches(g, a, b)
    ensures Edge(g, m, b) && (m == a || Reaches(g, a, m))
  {
    var p :| PathBetween(g, p, a, b);
    m := p[|p| - 2];
    assert Edge(g, p[|p| - 2], p[|p| - 1]);
    if |p| > 2 {
      assert PathBetween(g, p[..|p| - 1], a, m);
    }
  }

  /** A path connects any earlier position with any later one. */
  lemma PathReaches(g: Graph, p: seq<Id>, i: nat, j: nat)
    requires IsPath(g, p) && i < j < |p|
    ensures Reaches(g, p[i], p[j])
  {
    var q := p[i..j + 1];
    forall k | 0 <= k < |q| - 1
      ensures Edge(g, q[k], q[k + 1])
    {
      assert Edge(g, p[i + k], p[i + k + 1]);
    }
    assert PathBetween(g, q, p[i], p[j]);
  }

  /** On a closed path longer than a loop, the end of every edge leads back to its start. */
  lemma CycleReturns(g: Graph, p: seq<Id>, i: nat)
    requires IsPath(g, p) && |p| > 2 && p[0] == p[|p| - 1] && i < |p| - 1
    ensures Reaches(g, p[i + 1], p[i])
  {
    if i + 1 < |p| - 1 {
      PathReaches(g, p, i + 1, |p| - 1);
    }
    if i > 0 {
      PathReaches(g, p, 0, i);
    }
    if i + 1 < |p| - 1 && i > 0 {
      ReachTransitive(g, p[i + 1], p[0], p[i]);
    }
  }

  /** What a closed set contains, it contains with everything reachable. */
  ghost predicate ClosedUnder(g: Graph, s: set<Id>) {
    forall a, b :: a in s && Edge(g, a, b) ==> b in s
  }

  lemma {:induction false} PathStaysIn(g: Graph, s: set<Id>, p: seq<Id>)
    requires ClosedUnder(g, s) && IsPath(g, p) && p[0] in s
    ensures p[|p| - 1] in s
  {
    if |p| > 1 {
      assert Edge(g, p[0], p[1]);
      SubPath(g, p);
      PathStaysIn(g, s, p[1..]);
    }
  }

  /** A closed set holding every successor of a holds everything a reaches. */
  lemma ReachStaysIn(g: Graph, s: set<Id>, a: Id, b: Id)
    requires ClosedUnder(g, s) && Reaches(g, a, b)
    requires forall x :: Edge(g, a, x) ==> x in s
    ensures b in s
  {
    var p :| PathBetween(g, p, a, b);
    assert Edge(g, p[0], p[1]);
    SubPath(g, p);
    PathStaysIn(g, s, p[1..]);
  }

  /** The numbers fall along every edge. */
  ghost predicate Falls(g: Graph, rank: Id -> nat) {
    forall a, b :: Edge(g, a, b) ==> rank(b) < rank(a)
  }

  lemma {:induction false} PathFalls(g: Graph, rank: Id -> nat, p: seq<Id>)
    requires Falls(g, rank) && IsPath(g, p)
    ensures rank(p[|p| - 1]) + |p| - 1 <= rank(p[0])
  {
    if |p| > 1 {
      assert Edge(g, p[0], p[1]);
      SubPath(g, p);
      PathFalls(g, rank, p[1..]);
    }
  }

  lemma ReachFalls(g: Graph, rank: Id -> nat, a: Id, b: Id)
    requires Falls(g, rank) && Reaches(g, a, b)
    ensures rank(b) < rank(a)
  {
    var p :| PathBetween(g, p, a, b);
    PathFalls(g, rank, p);
  }

  /** g has every edge of h that starts in h. */
  ghost predicate Includes(g: Graph, h: Graph) {
    forall a, b :: Edge(h, a, b) ==> Edge(g, a, b)
  }

  lemma ReachMonotone(g: Graph, h: Graph, a: Id, b: Id)
    requires Includes(g, h) && Reaches(h, a, b)
    ensures Reaches(g, a, b)
  {
    var p :| PathBetween(h, p, a, b);
    assert PathBetween(g, p, a, b);
  }
}
