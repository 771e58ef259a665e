/** Happens-before in a set that grew by rows on top of their nodes, told by the original set and the new
    rows alone. */
module GrownSets {
  import opened Ids
  import opened Digraph
  import opened DistributedEvents
  import opened CausalGraphs
  import opened RowOrder
  import opened EventSets

  /** Which rows are new. */
  type NewRows = Row -> bool

  ghost predicate AddedAs(E: Rows, F: Rows, z: Row) {
    z.id in F && F[z.id] == z && z.id !in E
  }

  /** A new row names only old sources, and only their parents as parents. */
  ghost predicate RefersDown(E: Rows, z: Row) {
    && (forall x :: x in z.resolvedFrom ==> x in E)
    && (forall p :: p in z.parents ==> exists x :: x in z.resolvedFrom && x in E && p in E[x].parents)
  }

  /** F is E with exactly the new rows on top, those of one node level with each other. */
  ghost predicate Grown(added: NewRows, E: Rows, F: Rows) {
    && OnTop(E, F)
    && (forall z :: added(z) ==> AddedAs(E, F, z) && RefersDown(E, z))
    && (forall id :: id in F && id !in E ==> added(F[id]))
    && (forall y, z :: added(y) && added(z) && y.node == z.node ==> y.sequence == z.sequence)
  }

  /** The rows of the grown set. */
  ghost predicate Member(added: NewRows, E: Rows, r: Row) {
    (r.id in E && E[r.id] == r) || added(r)
  }

  lemma MemberIsListed(added: NewRows, E: Rows, F: Rows, r: Row)
    requires Grown(added, E, F)
    ensures Member(added, E, r) <==> r.id in F && F[r.id] == r
  {
  }

  // ----- the description -----

  /** v is a source of a new row on the node of y, and that row is y or has a smaller id. */
  ghost predicate SourceBelow(added: NewRows, v: Id, z: Row, y: Row) {
    added(z) && v in z.resolvedFrom && z.node == y.node && z.id <= y.id
  }

  /** v stands right below the new row y. */
  ghost predicate Under(added: NewRows, E: Rows, v: Id, y: Row) {
    v in E && (E[v].node == y.node || exists z :: SourceBelow(added, v, z, y))
  }

  ghost predicate UpTo(E: Rows, x: Id, v: Id) {
    x == v || Before(E, x, v)
  }

  ghost predicate StandsUnder(added: NewRows, E: Rows, x: Id, y: Row) {
    exists v :: Under(added, E, v, y) && UpTo(E, x, v)
  }

  /** Happens-before between the rows: old rows stand as they did; a new row stands above the rows of its
      node and above the sources of the new rows of its node up to it; new rows of one node stand by id. */
  ghost predicate GrownBefore(added: NewRows, E: Rows, x: Row, y: Row) {
    if y.id in E then x.id in E && Before(E, x.id, y.id)
    else if x.id in E then StandsUnder(added, E, x.id, y)
    else x.node == y.node && x.id < y.id
  }

  // ----- nothing else happens before -----

  ghost predicate RightBelow(added: NewRows, E: Rows, F: Rows, m: Id, y: Row) {
    && m in F
    && if m in E then StandsUnder(added, E, m, y) else F[m].node == y.node && m < y.id
  }

  /** What an edge into a new row comes from. */
  lemma EdgeIntoNew(added: NewRows, E: Rows, F: Rows, m: Id, y: Id)
    requires Grown(added, E, F) && y in F && y !in E
    ensures Edge(Causal(F), m, y) ==> RightBelow(added, E, F, m, F[y])
  {
    if CausalEdge(F, m, y) {
      assert RefersDown(E, F[y]);
      if m in F[y].resolvedFrom {
        assert SourceBelow(added, m, F[y], F[y]);
        assert Under(added, E, m, F[y]) && UpTo(E, m, m);
      } else if m in F[y].parents {
        var x :| x in F[y].resolvedFrom && x in E && m in E[x].parents;
        ParentUnder(added, E, m, x, F[y]);
      } else {
        assert OnChain(F, m, y);
        assert m in E ==> Under(added, E, m, F[y]) && UpTo(E, m, m);
      }
    }
  }

  lemma ParentUnder(added: NewRows, E: Rows, m: Id, x: Id, y: Row)
    requires added(y) && x in y.resolvedFrom && x in E && m in E[x].parents && RefClosed(E)
    ensures m in E && StandsUnder(added, E, m, y)
  {
    assert CausalEdge(E, m, x);
    ReachEdge(Causal(E), m, x);
    assert SourceBelow(added, x, y, y);
    assert Under(added, E, x, y) && UpTo(E, m, x);
  }

  lemma UnderGrows(added: NewRows, E: Rows, v: Id, m: Row, y: Row)
    requires Under(added, E, v, m) && m.node == y.node && m.id < y.id
    ensures Under(added, E, v, y)
  {
    if E[v].node != y.node {
      var z :| SourceBelow(added, v, z, m);
      assert SourceBelow(added, v, z, y);
    }
  }

  lemma StepFromOld(added: NewRows, E: Rows, x: Id, m: Id, y: Row)
    requires Before(E, x, m) && StandsUnder(added, E, m, y)
    ensures StandsUnder(added, E, x, y)
  {
    var v :| Under(added, E, v, y) && UpTo(E, m, v);
    if v != m {
      ReachTransitive(Causal(E), x, m, v);
    }
    assert Under(added, E, v, y) && UpTo(E, x, v);
  }

  lemma StepFromNew(added: NewRows, E: Rows, x: Row, m: Row, y: Row)
    requires GrownBefore(added, E, x, m) && m.id !in E && y.id !in E && m.node == y.node && m.id < y.id
    ensures GrownBefore(added, E, x, y)
  {
    if x.id in E {
      var v :| Under(added, E, v, m) && UpTo(E, x.id, v);
      UnderGrows(added, E, v, m, y);
    }
  }

  lemma {:induction false} PathIntoNew(added: NewRows, E: Rows, F: Rows, p: seq<Id>)
    requires Grown(added, E, F)
    requires IsPath(Causal(F), p) && |p| > 1 && p[|p| - 1] in F && p[|p| - 1] !in E
    ensures p[0] in F && GrownBefore(added, E, F[p[0]], F[p[|p| - 1]])
    decreases |p|
  {
    var k := |p| - 1;
    var m, y := p[k - 1], p[k];
    assert Edge(Causal(F), m, y);
    EdgeIntoNew(added, E, F, m, y);
    if |p| > 2 {
      var q := p[..k];
      assert q[0] == p[0] && q[|q| - 1] == m;
      InitPath(Causal(F), p);
      if m in E {
        PathIntoOld(E, F, q);
        StepFromOld(added, E, p[0], m, F[y]);
      } else {
        PathIntoNew(added, E, F, q);
        StepFromNew(added, E, F[p[0]], F[m], F[y]);
      }
    }
  }

  // ----- all of it does -----

  lemma NewByIds(added: NewRows, E: Rows, F: Rows, x: Id, y: Id)
    requires Grown(added, E, F) && x in F && x !in E && y in F && y !in E && F[x].node == F[y].node && x < y
    ensures Before(F, x, y)
  {
    assert OnChain(F, x, y);
    ChainIsBefore(F, x, y);
  }

  lemma SourceIsBefore(F: Rows, v: Id, z: Id, y: Id)
    requires z in F && v in F[z].resolvedFrom && (z == y || Before(F, z, y))
    ensures Before(F, v, y)
  {
    assert CausalEdge(F, v, z);
    ReachEdge(Causal(F), v, z);
    if z != y {
      ReachTransitive(Causal(F), v, z, y);
    }
  }

  lemma UnderIsBefore(added: NewRows, E: Rows, F: Rows, v: Id, y: Id)
    requires Grown(added, E, F) && y in F && y !in E && Under(added, E, v, F[y])
    ensures Before(F, v, y)
  {
    if E[v].node == F[y].node {
      assert OnChain(F, v, y);
      ChainIsBefore(F, v, y);
    } else {
      var z :| SourceBelow(added, v, z, F[y]);
      assert AddedAs(E, F, z);
      if z.id != y {
        NewByIds(added, E, F, z.id, y);
      }
      SourceIsBefore(F, v, z.id, y);
    }
  }

  lemma GrownBeforeHolds(added: NewRows, E: Rows, F: Rows, x: Id, y: Id)
    requires Grown(added, E, F) && x in F && y in F && GrownBefore(added, E, F[x], F[y])
    ensures Before(F, x, y)
  {
    if y in E {
      NoNewPaths(E, F, x, y);
    } else if x in E {
      var v :| Under(added, E, v, F[y]) && UpTo(E, x, v);
      UnderIsBefore(added, E, F, v, y);
      if x != v {
        NoNewPaths(E, F, x, v);
        ReachTransitive(Causal(F), x, v, y);
      }
    } else {
      NewByIds(added, E, F, x, y);
    }
  }

  /** The description is right. */
  lemma GrownBeforeExactly(added: NewRows, E: Rows, F: Rows, x: Id, y: Id)
    requires Grown(added, E, F) && x in F && y in F
    ensures Before(F, x, y) <==> GrownBefore(added, E, F[x], F[y])
  {
    if Before(F, x, y) {
      var p :| PathBetween(Causal(F), p, x, y);
      if y in E {
        PathIntoOld(E, F, p);
      } else {
        PathIntoNew(added, E, F, p);
      }
    }
    if GrownBefore(added, E, F[x], F[y]) {
      GrownBeforeHolds(added, E, F, x, y);
    }
  }

  // ----- circles of the causal comparator -----

  ghost predicate GrownApart(added: NewRows, E: Rows, x: Row, y: Row) {
    x.id != y.id && !GrownBefore(added, E, x, y) && !GrownBefore(added, E, y, x)
  }

  /** A circle of the comparator among the rows of the grown set: a row a below a row b with an earlier
      time, and a row c, apart from both, timed between them. */
  ghost predicate GrownCircle(added: NewRows, E: Rows, a: Row, b: Row, c: Row) {
    && Member(added, E, a) && Member(added, E, b) && Member(added, E, c)
    && GrownBefore(added, E, a, b) && GrownApart(added, E, a, c) && GrownApart(added, E, b, c)
    && Less(b, c) && Less(c, a)
  }

  lemma CircleIsGrown(added: NewRows, E: Rows, F: Rows, a: Id, b: Id, c: Id)
    requires Grown(added, E, F) && a in F && b in F && c in F
    ensures Circle(F, a, b, c) <==> GrownCircle(added, E, F[a], F[b], F[c])
  {
    MemberIsListed(added, E, F, F[a]);
    MemberIsListed(added, E, F, F[b]);
    MemberIsListed(added, E, F, F[c]);
    GrownBeforeExactly(added, E, F, a, b);
    GrownBeforeExactly(added, E, F, a, c);
    GrownBeforeExactly(added, E, F, c, a);
    GrownBeforeExactly(added, E, F, b, c);
    GrownBeforeExactly(added, E, F, c, b);
  }

  lemma CirclesAgree(added: NewRows, E: Rows, F: Rows)
    requires Grown(added, E, F)
    ensures (exists a, b, c :: Circle(F, a, b, c)) <==> exists a, b, c :: GrownCircle(added, E, a, b, c)
  {
    if a, b, c :| Circle(F, a, b, c) {
      CircleIsGrown(added, E, F, a, b, c);
    }
    if a, b, c :| GrownCircle(added, E, a, b, c) {
      MemberIsListed(added, E, F, a);
      MemberIsListed(added, E, F, b);
      MemberIsListed(added, E, F, c);
      CircleIsGrown(added, E, F, a.id, b.id, c.id);
    }
  }
}
