/** The causal graph over distributed rows and its transitive closure
    (src/distributed/causal_graph.ts, src/distributed/event_traceability.ts). */
module CausalGraphs {
  import opened Results
  import opened Ids
  import opened Digraph
  import opened DistributedEvents

  type Rows = map<Id, Row>

  ghost predicate RowTable(E: Rows) {
    forall id :: id in E ==> E[id].id == id
  }

  predicate DistinctRows(events: seq<Row>) {
    forall i, j :: 0 <= i < j < |events| ==> events[i].id != events[j].id
  }

  /** `new Map(events.map(e => [e.eventId, e]))`: a later row replaces an earlier one. */
  function TableOf(events: seq<Row>): (E: Rows)
    ensures RowTable(E)
    ensures forall id :: id in E <==> exists i :: 0 <= i < |events| && events[i].id == id
  {
    if |events| == 0 then map[]
    else
      var last := events[|events| - 1];
      var rest := TableOf(events[..|events| - 1]);
      assert forall i :: 0 <= i < |events| - 1 ==> events[..|events| - 1][i] == events[i];
      rest[last.id := last]
  }

  lemma {:induction false} TableOfDistinct(events: seq<Row>)
    requires DistinctRows(events)
    ensures forall i :: 0 <= i < |events| ==> TableOf(events)[events[i].id] == events[i]
  {
    if |events| > 0 {
      TableOfDistinct(events[..|events| - 1]);
      assert forall i :: 0 <= i < |events| - 1 ==> events[..|events| - 1][i] == events[i];
    }
  }

  // ----- the edges -----

  /** Order of the rows of one node: by sequence, then by id. */
  predicate ChainLess(a: Row, b: Row) {
    a.sequence < b.sequence || (a.sequence == b.sequence && a.id < b.id)
  }

  predicate OnChain(E: Rows, a: Id, b: Id) {
    a in E && b in E && E[a].node == E[b].node && ChainLess(E[a], E[b])
  }

  /** b is the next row of a's node. */
  predicate Follows(E: Rows, a: Id, b: Id) {
    OnChain(E, a, b) && !exists c :: c in E && OnChain(E, a, c) && OnChain(E, c, b)
  }

  predicate CausalEdge(E: Rows, a: Id, b: Id) {
    b in E && (a in E[b].parents || a in E[b].resolvedFrom || Follows(E, a, b))
  }

  function Causal(E: Rows): Graph {
    (a: Id) => set b | b in E && CausalEdge(E, a, b)
  }

  /** a happens before b. */
  ghost predicate Before(E: Rows, a: Id, b: Id) {
    Reaches(Causal(E), a, b)
  }

  ghost predicate Concurrent(E: Rows, a: Id, b: Id) {
    a != b && !Before(E, a, b) && !Before(E, b, a)
  }

  function Between(E: Rows, a: Id, b: Id): set<Id> {
    set c | c in E && OnChain(E, a, c) && OnChain(E, c, b)
  }

  /** Rows of one node are ordered by happens-before. */
  lemma {:induction false} ChainIsBefore(E: Rows, a: Id, b: Id)
    requires OnChain(E, a, b)
    ensures Before(E, a, b)
    decreases |Between(E, a, b)|
  {
    if c :| c in Between(E, a, b) {
      assert Between(E, a, c) <= Between(E, a, b) - {c} && Between(E, c, b) <= Between(E, a, b) - {c};
      SmallerBetween(Between(E, a, c), Between(E, a, b), c);
      SmallerBetween(Between(E, c, b), Between(E, a, b), c);
      ChainIsBefore(E, a, c);
      ChainIsBefore(E, c, b);
      ReachTransitive(Causal(E), a, c, b);
    } else {
      assert forall c :: c in E && OnChain(E, a, c) && OnChain(E, c, b) ==> c in Between(E, a, b);
      assert Follows(E, a, b);
      ReachEdge(Causal(E), a, b);
    }
  }

  lemma SmallerBetween(s: set<Id>, t: set<Id>, c: Id)
    requires s <= t - {c} && c in t
    ensures |s| < |t|
  {
    var rest := t - {c};
    assert rest == s + (rest - s);
    assert |rest| == |s| + |rest - s|;
    assert t == rest + {c};
  }

  // ----- happens-before in the parts of the rows -----

  /** Row a comes earlier on the node of row b, or row b refers to it as a parent or as a merged source. */
  ghost predicate DirectlyBefore(E: Rows, a: Id, b: Id) {
    && b in E
    && (a in E[b].parents || a in E[b].resolvedFrom
        || (a in E && E[a].node == E[b].node
            && (E[a].sequence < E[b].sequence || (E[a].sequence == E[b].sequence && E[a].id < E[b].id))))
  }

  /** Happens-before is the transitive closure of that. */
  lemma BeforeExactly(E: Rows, a: Id, b: Id)
    ensures Before(E, a, b) <==> Reaches(DirectGraph(E), a, b)
  {
    if Before(E, a, b) {
      ReachMonotone(DirectGraph(E), Causal(E), a, b);
    }
    if Reaches(DirectGraph(E), a, b) {
      var p :| PathBetween(DirectGraph(E), p, a, b);
      DirectPath(E, p);
    }
  }

  ghost function DirectGraph(E: Rows): Graph {
    (a: Id) => set b | b in E && DirectlyBefore(E, a, b)
  }

  lemma {:induction false} DirectPath(E: Rows, p: seq<Id>)
    requires IsPath(DirectGraph(E), p) && |p| > 1
    ensures Before(E, p[0], p[|p| - 1])
  {
    assert Edge(DirectGraph(E), p[0], p[1]);
    if OnChain(E, p[0], p[1]) {
      ChainIsBefore(E, p[0], p[1]);
    } else {
      ReachEdge(Causal(E), p[0], p[1]);
    }
    if |p| > 2 {
      SubPath(DirectGraph(E), p);
      DirectPath(E, p[1..]);
      ReachTransitive(Causal(E), p[0], p[1], p[|p| - 1]);
    }
  }

  type EdgeMap = map<Id, set<Id>>

  predicate HasEdge(edges: EdgeMap, a: Id, b: Id) {
    a in edges && b in edges[a]
  }

  function AddEdge(edges: EdgeMap, from: Id, to: Id): (r: EdgeMap)
    ensures forall a, b :: HasEdge(r, a, b) <==> HasEdge(edges, a, b) || (a == from && b == to)
  {
    edges[from := (if from in edges then edges[from] else {}) + {to}]
  }

  // ----- the chain of one node -----

  ghost predicate ChainSorted(s: seq<Row>) {
    forall i, j :: 0 <= i < j < |s| ==> ChainLess(s[i], s[j])
  }

  function InsertChain(x: Row, s: seq<Row>): (r: seq<Row>)
    ensures forall y :: y in r <==> y == x || y in s
  {
    if |s| == 0 || ChainLess(x, s[0]) then [x] + s
    else
      var rest := InsertChain(x, s[1..]);
      assert forall y :: y in s <==> y == s[0] || y in s[1..];
      [s[0]] + rest
  }

  function SortChain(s: seq<Row>): (r: seq<Row>)
    ensures forall y :: y in r <==> y in s
  {
    if |s| == 0 then []
    else
      assert forall y :: y in s <==> y == s[0] || y in s[1..];
      InsertChain(s[0], SortChain(s[1..]))
  }

  lemma {:induction false} InsertChainSorted(x: Row, s: seq<Row>)
    requires ChainSorted(s) && forall y :: y in s ==> y.id != x.id
    ensures ChainSorted(InsertChain(x, s))
  {
    if |s| > 0 && !ChainLess(x, s[0]) {
      assert s[0] in s;
      assert forall y :: y in s[1..] ==> y in s;
      InsertChainSorted(x, s[1..]);
      var r := InsertChain(x, s[1..]);
      forall j | 0 <= j < |r|
        ensures ChainLess(s[0], r[j])
      {
        assert r[j] in r;
      }
    }
  }

  lemma {:induction false} SortChainSorts(s: seq<Row>)
    requires DistinctRows(s)
    ensures ChainSorted(SortChain(s))
  {
    if |s| > 0 {
      SortChainSorts(s[1..]);
      InsertChainSorted(s[0], SortChain(s[1..]));
    }
  }

  /** The rows of one node, in list order. */
  function OnNode(events: seq<Row>, node: Id): (r: seq<Row>)
    ensures forall x :: x in r <==> x in events && x.node == node
  {
    if |events| == 0 then []
    else
      var last := events[|events| - 1];
      var rest := OnNode(events[..|events| - 1], node);
      assert events == events[..|events| - 1] + [last];
      if last.node == node then rest + [last] else rest
  }

  lemma {:induction false} OnNodeDistinct(events: seq<Row>, node: Id)
    requires DistinctRows(events)
    ensures DistinctRows(OnNode(events, node))
  {
    if |events| > 0 {
      OnNodeDistinct(events[..|events| - 1], node);
      var rest := OnNode(events[..|events| - 1], node);
      forall i | 0 <= i < |rest|
        ensures rest[i].id != events[|events| - 1].id
      {
        assert rest[i] in rest;
      }
    }
  }

  /** In the sorted chain of a node, exactly the neighbours follow one another. */
  lemma NeighboursFollow(E: Rows, chain: seq<Row>, node: Id, a: Id, b: Id)
    requires RowTable(E) && ChainSorted(chain)
    requires forall x :: x in chain <==> x.id in E && E[x.id] == x && x.node == node
    ensures (exists i :: 0 < i < |chain| && chain[i - 1].id == a && chain[i].id == b)
            <==> Follows(E, a, b) && E[b].node == node
  {
    if i :| 0 < i < |chain| && chain[i - 1].id == a && chain[i].id == b {
      NeighbourFollows(E, chain, node, i);
    }
    if Follows(E, a, b) && E[b].node == node {
      FollowerIsNeighbour(E, chain, node, a, b);
    }
  }

  lemma NeighbourFollows(E: Rows, chain: seq<Row>, node: Id, i: nat)
    requires RowTable(E) && ChainSorted(chain) && 0 < i < |chain|
    requires forall x :: x in chain <==> x.id in E && E[x.id] == x && x.node == node
    ensures Follows(E, chain[i - 1].id, chain[i].id) && E[chain[i].id].node == node
  {
    var a, b := chain[i - 1].id, chain[i].id;
    assert chain[i - 1] in chain && chain[i] in chain;
    forall c | c in E && OnChain(E, a, c) && OnChain(E, c, b)
      ensures false
    {
      assert E[c] in chain;
      var k :| 0 <= k < |chain| && chain[k] == E[c];
    }
  }

  lemma ApartHasBetween(E: Rows, chain: seq<Row>, node: Id, i: nat, j: nat)
    requires RowTable(E) && ChainSorted(chain) && i < j < |chain|
    requires forall x :: x in chain <==> x.id in E && E[x.id] == x && x.node == node
    ensures i + 1 < j ==> exists c :: c in E && OnChain(E, chain[i].id, c) && OnChain(E, c, chain[j].id)
  {
    if i + 1 < j {
      assert chain[i] in chain && chain[i + 1] in chain && chain[j] in chain;
      var c := chain[i + 1].id;
      assert OnChain(E, chain[i].id, c) && OnChain(E, c, chain[j].id);
    }
  }

  lemma FollowerIsNeighbour(E: Rows, chain: seq<Row>, node: Id, a: Id, b: Id)
    requires RowTable(E) && ChainSorted(chain) && Follows(E, a, b) && E[b].node == node
    requires forall x :: x in chain <==> x.id in E && E[x.id] == x && x.node == node
    ensures exists i :: 0 < i < |chain| && chain[i - 1].id == a && chain[i].id == b
  {
    assert E[a] in chain && E[b] in chain;
    var i :| 0 <= i < |chain| && chain[i] == E[a];
    var j :| 0 <= j < |chain| && chain[j] == E[b];
    assert i < j;
    ApartHasBetween(E, chain, node, i, j);
    assert j == i + 1;
  }

  // ----- the graph of a list -----

  /** Neighbours in a chain. */
  ghost predicate Neighbours(chain: seq<Row>, a: Id, b: Id) {
    exists i :: 0 < i < |chain| && chain[i - 1].id == a && chain[i].id == b
  }

  ghost predicate NextOnNode(events: seq<Row>, node: Id, a: Id, b: Id) {
    Neighbours(SortChain(OnNode(events, node)), a, b)
  }

  predicate RefersTo(r: Row, b: Id, a: Id) {
    r.id == b && (a in r.parents || a in r.resolvedFrom)
  }

  /** The edges of any list of rows, repeated ids included: neighbours in the sorted chain of a node, and
      references of listed rows. */
  ghost predicate ListEdge(events: seq<Row>, a: Id, b: Id) {
    || (exists node :: NextOnNode(events, node, a, b))
    || (exists r :: r in events && RefersTo(r, b, a))
  }

  ghost function ListCausal(events: seq<Row>): Graph {
    (a: Id) => set b | b in TableOf(events) && ListEdge(events, a, b)
  }

  lemma ListEdgeListed(events: seq<Row>, a: Id, b: Id)
    ensures Edge(ListCausal(events), a, b) <==> ListEdge(events, a, b)
  {
    if node :| NextOnNode(events, node, a, b) {
      NeighbourListed(events, SortChain(OnNode(events, node)), a, b);
    }
    if r :| r in events && RefersTo(r, b, a) {
      var k :| 0 <= k < |events| && events[k] == r;
    }
  }

  lemma NeighbourListed(events: seq<Row>, chain: seq<Row>, a: Id, b: Id)
    requires Neighbours(chain, a, b) && forall x :: x in chain ==> x in events
    ensures b in TableOf(events)
  {
    var i :| 0 < i < |chain| && chain[i - 1].id == a && chain[i].id == b;
    assert chain[i] in chain;
    var k :| 0 <= k < |events| && events[k] == chain[i];
  }

  /** On distinct rows these are the edges of the table. */
  lemma ListIsTable(events: seq<Row>, a: Id, b: Id)
    requires DistinctRows(events)
    ensures Edge(ListCausal(events), a, b) <==> Edge(Causal(TableOf(events)), a, b)
  {
    var E := TableOf(events);
    TableOfDistinct(events);
    ListEdgeListed(events, a, b);
    forall node
      ensures NextOnNode(events, node, a, b) <==> Follows(E, a, b) && E[b].node == node
    {
      var chain := SortChain(OnNode(events, node));
      OnNodeDistinct(events, node);
      SortChainSorts(OnNode(events, node));
      ChainIsNode(events, chain, node);
      NeighboursFollow(E, chain, node, a, b);
    }
    if Follows(E, a, b) {
      assert NextOnNode(events, E[b].node, a, b);
    }
    if r :| r in events && RefersTo(r, b, a) {
      var k :| 0 <= k < |events| && events[k] == r;
    }
    if b in E {
      var k :| 0 <= k < |events| && events[k].id == b;
      assert E[b] == events[k] && events[k] in events;
    }
  }

  lemma ListReaches(events: seq<Row>, a: Id, b: Id)
    requires DistinctRows(events)
    ensures Reaches(ListCausal(events), a, b) <==> Before(TableOf(events), a, b)
  {
    forall x, y
      ensures Edge(ListCausal(events), x, y) <==> Edge(Causal(TableOf(events)), x, y)
    {
      ListIsTable(events, x, y);
    }
    if Reaches(ListCausal(events), a, b) {
      ReachMonotone(Causal(TableOf(events)), ListCausal(events), a, b);
    }
    if Before(TableOf(events), a, b) {
      ReachMonotone(ListCausal(events), Causal(TableOf(events)), a, b);
    }
  }

  // ----- the edge map -----

  /** The edges that chains of the given nodes contribute. */
  ghost predicate ChainEdges(events: seq<Row>, edges: EdgeMap, nodes: set<Id>) {
    forall a, b :: HasEdge(edges, a, b) <==> exists node :: node in nodes && NextOnNode(events, node, a, b)
  }

  method AddChain(edges: EdgeMap, chain: seq<Row>) returns (r: EdgeMap)
    ensures forall a, b :: HasEdge(r, a, b) <==> HasEdge(edges, a, b) || Neighbours(chain, a, b)
  {
    r := edges;
    var i := 1;
    while i < |chain|
      invariant 1 <= i
      invariant forall a, b :: HasEdge(r, a, b) <==>
                  HasEdge(edges, a, b) ||
                  exists k :: 0 < k < i && k < |chain| && chain[k - 1].id == a && chain[k].id == b
    {
      r := AddEdge(r, chain[i - 1].id, chain[i].id);
      i := i + 1;
    }
  }

  /** normalizeParentEventIds throws on the first row with repeated parents. */
  predicate ParentsOk(r: Row) {
    |Elements(r.parents)| == |r.parents|
  }

  predicate AllParentsOk(events: seq<Row>) {
    forall i :: 0 <= i < |events| ==> ParentsOk(events[i])
  }

  method AddRefs(edges: EdgeMap, refs: seq<Id>, to: Id) returns (r: EdgeMap)
    ensures forall a, b :: HasEdge(r, a, b) <==> HasEdge(edges, a, b) || (b == to && a in refs)
  {
    r := edges;
    for i := 0 to |refs|
      invariant forall a, b :: HasEdge(r, a, b) <==> HasEdge(edges, a, b) || (b == to && a in refs[..i])
    {
      r := AddEdge(r, refs[i], to);
    }
  }

  /** Group the rows by node. */
  method GroupByNode(events: seq<Row>) returns (byNode: map<Id, seq<Row>>)
    ensures forall n :: n in byNode <==> OnNode(events, n) != []
    ensures forall n :: n in byNode ==> byNode[n] == OnNode(events, n)
  {
    byNode := map[];
    for i := 0 to |events|
      invariant forall n :: n in byNode <==> OnNode(events[..i], n) != []
      invariant forall n :: n in byNode ==> byNode[n] == OnNode(events[..i], n)
    {
      var e := events[i];
      assert events[..i + 1][..i] == events[..i] && events[..i + 1][i] == e;
      byNode := byNode[e.node := (if e.node in byNode then byNode[e.node] else []) + [e]];
    }
    assert events[..|events|] == events;
  }

  /** Rows by id. */
  function InsertById(x: Row, s: seq<Row>): (r: seq<Row>)
    ensures forall y :: y in r <==> y == x || y in s
  {
    if |s| == 0 || x.id <= s[0].id then [x] + s
    else
      var rest := InsertById(x, s[1..]);
      assert forall y :: y in s <==> y == s[0] || y in s[1..];
      [s[0]] + rest
  }

  function SortById(s: seq<Row>): (r: seq<Row>)
    ensures forall y :: y in r <==> y in s
  {
    if |s| == 0 then []
    else
      assert forall y :: y in s <==> y == s[0] || y in s[1..];
      InsertById(s[0], SortById(s[1..]))
  }

  /** buildCausalGraph fails exactly on repeated parents, and else computes exactly the edges of the list:
      neighbours on one node, parent to child, merged source to merge row. */
  method BuildCausalGraph(events: seq<Row>) returns (r: Result<EdgeMap, InputError>)
    ensures r.Ok? <==> AllParentsOk(events)
    ensures r.Err? ==> r.error.DuplicateParents?
    ensures r.Ok? ==> forall a, b :: HasEdge(r.value, a, b) <==> Edge(ListCausal(events), a, b)
  {
    var byNode := GroupByNode(events);
    var nodeKeys := SortIds(byNode.Keys);
    var edges: EdgeMap := map[];
    for k := 0 to |nodeKeys|
      invariant ChainEdges(events, edges, Elements(nodeKeys[..k]))
    {
      assert nodeKeys[k] in Elements(nodeKeys);
      ghost var was := edges;
      edges := AddChain(edges, SortChain(byNode[nodeKeys[k]]));
      ElementsStep(nodeKeys, k);
      ChainAdded(events, was, edges, Elements(nodeKeys[..k]), nodeKeys[k]);
    }
    ElementsWhole(nodeKeys);
    ChainsComplete(events, edges, byNode.Keys);
    r := AddAllRefs(events, edges);
  }

  lemma ChainAdded(events: seq<Row>, was: EdgeMap, edges: EdgeMap, done: set<Id>, node: Id)
    requires ChainEdges(events, was, done)
    requires forall a, b :: HasEdge(edges, a, b) <==> HasEdge(was, a, b) || NextOnNode(events, node, a, b)
    ensures ChainEdges(events, edges, done + {node})
  {
  }

  /** A node without rows has no chain. */
  lemma ChainsComplete(events: seq<Row>, edges: EdgeMap, nodes: set<Id>)
    requires ChainEdges(events, edges, nodes) && forall n :: n in nodes <==> OnNode(events, n) != []
    ensures forall a, b :: HasEdge(edges, a, b) <==> exists node :: NextOnNode(events, node, a, b)
  {
    forall a, b, node | NextOnNode(events, node, a, b)
      ensures node in nodes
    {
      assert OnNode(events, node) == [] ==> SortChain(OnNode(events, node)) == [];
    }
  }

  method AddAllRefs(events: seq<Row>, chains: EdgeMap) returns (r: Result<EdgeMap, InputError>)
    requires forall a, b :: HasEdge(chains, a, b) <==> exists node :: NextOnNode(events, node, a, b)
    ensures r.Ok? <==> AllParentsOk(events)
    ensures r.Err? ==> r.error.DuplicateParents?
    ensures r.Ok? ==> forall a, b :: HasEdge(r.value, a, b) <==> Edge(ListCausal(events), a, b)
  {
    var edges := chains;
    var rows := SortById(events);
    for k := 0 to |rows|
      invariant forall i :: 0 <= i < k ==> ParentsOk(rows[i])
      invariant forall a, b :: HasEdge(edges, a, b) <==>
                  HasEdge(chains, a, b) || exists i :: 0 <= i < k && RefersTo(rows[i], b, a)
    {
      if !ParentsOk(rows[k]) {
        assert rows[k] in rows;
        return Err(DuplicateParents(rows[k].id));
      }
      var parents := SortIds(Elements(rows[k].parents));
      FirstIsElement(parents);
      FirstIsElement(rows[k].parents);
      edges := AddRefs(edges, parents, rows[k].id);
      edges := AddRefs(edges, SortList(rows[k].resolvedFrom), rows[k].id);
    }
    EveryRowSeen(events, rows);
    forall a, b
      ensures HasEdge(edges, a, b) <==> Edge(ListCausal(events), a, b)
    {
      ListEdgeListed(events, a, b);
      RefsSeen(events, rows, a, b);
    }
    r := Ok(edges);
  }

  lemma EveryRowSeen(events: seq<Row>, rows: seq<Row>)
    requires forall x :: x in rows <==> x in events
    ensures (forall i :: 0 <= i < |rows| ==> ParentsOk(rows[i])) <==> AllParentsOk(events)
  {
    if AllParentsOk(events) {
      forall i | 0 <= i < |rows|
        ensures ParentsOk(rows[i])
      {
        assert rows[i] in rows;
      }
    }
    if forall i :: 0 <= i < |rows| ==> ParentsOk(rows[i]) {
      forall i | 0 <= i < |events|
        ensures ParentsOk(events[i])
      {
        assert events[i] in rows;
      }
    }
  }

  lemma RefsSeen(events: seq<Row>, rows: seq<Row>, a: Id, b: Id)
    requires forall x :: x in rows <==> x in events
    ensures (exists i :: 0 <= i < |rows| && RefersTo(rows[i], b, a)) <==> exists r :: r in events && RefersTo(r, b, a)
  {
    if i :| 0 <= i < |rows| && RefersTo(rows[i], b, a) {
      assert rows[i] in rows;
    }
    if r :| r in events && RefersTo(r, b, a) {
      assert r in rows;
      var i :| 0 <= i < |rows| && rows[i] == r;
    }
  }

  lemma ChainIsNode(events: seq<Row>, chain: seq<Row>, node: Id)
    requires DistinctRows(events) && forall x :: x in chain <==> x in OnNode(events, node)
    ensures var E := TableOf(events); forall x :: x in chain <==> x.id in E && E[x.id] == x && x.node == node
  {
    TableOfDistinct(events);
    var E := TableOf(events);
    forall x
      ensures x in events <==> x.id in E && E[x.id] == x
    {
      if x in events {
        var i :| 0 <= i < |events| && events[i] == x;
      }
    }
  }

  // ----- the transitive closure -----

  ghost predicate DescendantTable(E: Rows, desc: map<Id, set<Id>>) {
    && desc.Keys == E.Keys
    && forall id, x :: id in desc ==> (x in desc[id] <==> Before(E, id, x))
  }

  /** What the explicit-stack search knows: everything met is reachable, everything seen has its
      successors seen or stacked. */
  ghost predicate Searching(g: Graph, from: Id, seen: set<Id>, stack: seq<Id>) {
    && (forall x :: x in seen || x in stack ==> Reaches(g, from, x))
    && (forall x, y :: x in seen && Edge(g, x, y) ==> y in seen || y in stack)
    && (forall y :: Edge(g, from, y) ==> y in seen || y in stack)
  }

  lemma SearchDone(g: Graph, from: Id, seen: set<Id>)
    requires Searching(g, from, seen, [])
    ensures forall x :: x in seen <==> Reaches(g, from, x)
  {
    forall x | Reaches(g, from, x)
      ensures x in seen
    {
      ReachStaysIn(g, seen, from, x);
    }
  }

  lemma SearchStart(g: Graph, from: Id, stack: seq<Id>)
    requires forall y :: y in stack <==> Edge(g, from, y)
    ensures Searching(g, from, {}, stack)
  {
    forall x | x in stack
      ensures Reaches(g, from, x)
    {
      ReachEdge(g, from, x);
    }
  }

  lemma SearchSkip(g: Graph, from: Id, seen: set<Id>, stack: seq<Id>)
    requires Searching(g, from, seen, stack) && |stack| > 0 && stack[|stack| - 1] in seen
    ensures Searching(g, from, seen, stack[..|stack| - 1])
  {
    assert forall x :: x in stack <==> x in stack[..|stack| - 1] || x == stack[|stack| - 1];
  }

  lemma SearchVisit(g: Graph, from: Id, seen: set<Id>, stack: seq<Id>, next: seq<Id>)
    requires Searching(g, from, seen, stack) && |stack| > 0
    requires var v := stack[|stack| - 1];
      && (forall y :: y in next ==> Edge(g, v, y))
      && (forall y :: Edge(g, v, y) ==> y in next || y in seen + {v})
    ensures Searching(g, from, seen + {stack[|stack| - 1]}, stack[..|stack| - 1] + next)
  {
    var v := stack[|stack| - 1];
    assert forall x :: x in stack <==> x in stack[..|stack| - 1] || x == v;
    forall x | x in next
      ensures Reaches(g, from, x)
    {
      ReachEdge(g, v, x);
      ReachTransitive(g, from, v, x);
    }
  }

  /** Successors in an edge map, as a list. */
  function Next(edges: EdgeMap, v: Id): seq<Id> {
    SortIds(if v in edges then edges[v] else {})
  }

  function Reverse(s: seq<Id>): (r: seq<Id>)
    ensures |r| == |s| && forall x :: x in r <==> x in s
  {
    if |s| == 0 then []
    else
      assert forall y :: y in s <==> y == s[0] || y in s[1..];
      Reverse(s[1..]) + [s[0]]
  }

  method DescendantsOf(edges: EdgeMap, ghost g: Graph, id: Id, ghost universe: set<Id>) returns (seen: set<Id>)
    requires forall a, b :: HasEdge(edges, a, b) <==> Edge(g, a, b)
    requires forall a, b :: Edge(g, a, b) ==> b in universe
    ensures forall x :: x in seen <==> Reaches(g, id, x)
  {
    seen := {};
    var stack := Next(edges, id);
    NextIsEdges(edges, g, id);
    SearchStart(g, id, stack);
    while |stack| > 0
      invariant Searching(g, id, seen, stack)
      decreases universe - seen, |stack|
    {
      var v := stack[|stack| - 1];
      if v in seen {
        SearchSkip(g, id, seen, stack);
        stack := stack[..|stack| - 1];
        continue;
      }
      assert v in stack;
      var m := ReachLast(g, id, v);
      assert v in universe;
      var next := Reverse(Next(edges, v));
      NextIsEdges(edges, g, v);
      var fresh' := Unseen(next, seen + {v});
      SearchVisit(g, id, seen, stack, fresh');
      stack := stack[..|stack| - 1] + fresh';
      seen := seen + {v};
    }
    SearchDone(g, id, seen);
  }

  lemma NextIsEdges(edges: EdgeMap, g: Graph, v: Id)
    requires forall a, b :: HasEdge(edges, a, b) <==> Edge(g, a, b)
    ensures forall y :: y in Next(edges, v) <==> Edge(g, v, y)
  {
    assert forall y :: y in Next(edges, v) <==> y in Elements(Next(edges, v));
    assert forall y :: HasEdge(edges, v, y) <==> y in Elements(Next(edges, v));
  }

  function Unseen(s: seq<Id>, seen: set<Id>): (r: seq<Id>)
    ensures forall x :: x in r <==> x in s && x !in seen
  {
    if |s| == 0 then []
    else
      assert forall y :: y in s <==> y == s[0] || y in s[1..];
      if s[0] in seen then Unseen(s[1..], seen) else [s[0]] + Unseen(s[1..], seen)
  }

  /** The ids reachable from every listed id. */
  ghost predicate ClosureTable(events: seq<Row>, desc: map<Id, set<Id>>) {
    && desc.Keys == TableOf(events).Keys
    && forall id, x :: id in desc ==> (x in desc[id] <==> Reaches(ListCausal(events), id, x))
  }

  lemma ClosureIsDescendants(events: seq<Row>, desc: map<Id, set<Id>>)
    requires DistinctRows(events)
    ensures ClosureTable(events, desc) <==> DescendantTable(TableOf(events), desc)
  {
    forall id, x
      ensures Reaches(ListCausal(events), id, x) <==> Before(TableOf(events), id, x)
    {
      ListReaches(events, id, x);
    }
  }

  /** computeDescendants is the transitive closure of the causal graph, on any list. */
  method ComputeDescendants(events: seq<Row>) returns (r: Result<map<Id, set<Id>>, InputError>)
    ensures r.Ok? <==> AllParentsOk(events)
    ensures r.Err? ==> r.error.DuplicateParents?
    ensures r.Ok? ==> ClosureTable(events, r.value)
  {
    ghost var E := TableOf(events);
    var edges :- BuildCausalGraph(events);
    var allIds := SortIds(Elements(ListedIds(events)));
    ListedIdsAre(events);
    var desc: map<Id, set<Id>> := map[];
    for k := 0 to |allIds|
      invariant desc.Keys == Elements(allIds[..k])
      invariant forall id, x :: id in desc ==> (x in desc[id] <==> Reaches(ListCausal(events), id, x))
    {
      var seen := DescendantsOf(edges, ListCausal(events), allIds[k], E.Keys);
      ElementsStep(allIds, k);
      desc := desc[allIds[k] := seen];
    }
    ElementsWhole(allIds);
    r := Ok(desc);
  }

  function ListedIds(events: seq<Row>): seq<Id> {
    seq(|events|, i requires 0 <= i < |events| => events[i].id)
  }

  lemma ListedIdsAre(events: seq<Row>)
    ensures Elements(ListedIds(events)) == TableOf(events).Keys
  {
    var ids := ListedIds(events);
    forall id
      ensures id in ids <==> id in TableOf(events)
    {
      if id in ids {
        var i :| 0 <= i < |ids| && ids[i] == id;
        assert events[i].id == id;
      }
      if id in TableOf(events) {
        var i :| 0 <= i < |events| && events[i].id == id;
        assert ids[i] == id;
      }
    }
  }

  // ----- predecessors -----

  /** causalPredecessorIdsForEvent: parents and merge sources. */
  function PredecessorIds(r: Row): seq<Id> {
    SortIds(Elements(r.parents) + Elements(r.resolvedFrom))
  }

  function Predecessors(E: Rows): Graph {
    (b: Id) => if b in E then Elements(E[b].parents) + Elements(E[b].resolvedFrom) else {}
  }

  /** The predecessors of a row are its parents and merged sources. */
  lemma PredecessorsExactly(E: Rows, b: Id, a: Id)
    ensures Edge(Predecessors(E), b, a) <==> b in E && (a in E[b].parents || a in E[b].resolvedFrom)
  {
    if b in E {
      PredecessorsListed(E, b);
    }
  }

  lemma PredecessorsListed(E: Rows, b: Id)
    requires b in E
    ensures forall y :: y in PredecessorIds(E[b]) <==> Edge(Predecessors(E), b, y)
  {
    assert forall y :: y in PredecessorIds(E[b]) <==> y in Elements(PredecessorIds(E[b]));
  }

  /** getEventAncestors: every row reachable against parent and lineage edges. */
  method GetEventAncestors(eventId: Id, events: seq<Row>) returns (ids: seq<Id>)
    ensures StrictlySorted(ids)
    ensures forall x :: x in ids <==> Reaches(Predecessors(TableOf(events)), eventId, x)
  {
    var E := TableOf(events);
    ghost var g := Predecessors(E);
    if eventId !in E {
      forall x | Reaches(g, eventId, x)
        ensures false
      {
        var m := ReachFirst(g, eventId, x);
      }
      return [];
    }
    ghost var universe := set b, x | b in E && x in Elements(E[b].parents) + Elements(E[b].resolvedFrom) :: x;
    var acc := {};
    var stack := Reverse(PredecessorIds(E[eventId]));
    PredecessorsListed(E, eventId);
    SearchStart(g, eventId, stack);
    while |stack| > 0
      invariant Searching(g, eventId, acc, stack)
      decreases universe - acc, |stack|
    {
      var p := stack[|stack| - 1];
      if p in acc {
        SearchSkip(g, eventId, acc, stack);
        stack := stack[..|stack| - 1];
        continue;
      }
      assert p in stack;
      var m := ReachLast(g, eventId, p);
      assert p in universe;
      var next := [];
      if p in E {
        next := Reverse(PredecessorIds(E[p]));
        PredecessorsListed(E, p);
      }
      SearchVisit(g, eventId, acc, stack, next);
      stack := stack[..|stack| - 1] + next;
      acc := acc + {p};
    }
    SearchDone(g, eventId, acc);
    ids := SortIds(acc);
    assert forall x :: x in ids <==> x in Elements(ids);
  }

  /** getEventDescendants. */
  method GetEventDescendants(eventId: Id, events: seq<Row>) returns (r: Result<seq<Id>, InputError>)
    ensures r.Ok? <==> AllParentsOk(events)
    ensures r.Ok? ==> StrictlySorted(r.value)
    ensures r.Ok? ==> forall x :: x in r.value <==>
        eventId in TableOf(events) && Reaches(ListCausal(events), eventId, x)
  {
    var desc :- ComputeDescendants(events);
    var ids := SortIds(if eventId in desc then desc[eventId] else {});
    assert forall x :: x in ids <==> x in Elements(ids);
    r := Ok(ids);
  }

  lemma {:induction false} PathReverses(g: Graph, h: Graph, p: seq<Id>)
    requires forall a, b :: Edge(g, a, b) ==> Edge(h, b, a)
    requires IsPath(g, p) && |p| > 1
    ensures Reaches(h, p[|p| - 1], p[0])
  {
    assert Edge(g, p[0], p[1]);
    ReachEdge(h, p[1], p[0]);
    if |p| > 2 {
      SubPath(g, p);
      PathReverses(g, h, p[1..]);
      ReachTransitive(h, p[|p| - 1], p[1], p[0]);
    }
  }

  /** Descendants invert ancestors: whatever getEventAncestors lists for b counts b among its
      descendants. Only the same-node chain makes the converse fail. */
  lemma AncestorsInverted(E: Rows, b: Id, a: Id)
    requires Reaches(Predecessors(E), b, a)
    ensures Before(E, a, b)
  {
    var p :| PathBetween(Predecessors(E), p, b, a);
    forall x, y | Edge(Predecessors(E), x, y)
      ensures Edge(Causal(E), y, x)
    {
      assert CausalEdge(E, y, x);
    }
    PathReverses(Predecessors(E), Causal(E), p);
  }
}
