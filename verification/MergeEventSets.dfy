/** The merge operator on row lists: deduplicate, derive one row per unresolved conflict set, sort
    causally (src/distributed/merge_algebra.ts, src/distributed/merge_policy.ts). Rows may carry lossy payloads;
    the merged set is then told as far as the texts of its rows show it. */
module MergeEventSets {
  import opened Results
  import opened Ids
  import opened Digraph
  import opened Json
  import opened JsonTheory
  import opened CanonicalKeys
  import opened DistributedEvents
  import opened CausalGraphs
  import opened ShownRows
  import opened Deduplication
  import opened ConflictSets
  import opened RowOrder
  import opened PayloadMerge
  import opened EventSets
  import opened GrownSets
  import opened MergeOrder

  // ----- one derived row -----

  method MaxSequenceOnNode(events: seq<Row>, node: Id) returns (m: int)
    requires DistinctRows(events)
    ensures MaxSequence(TableOf(events), node, m)
  {
    TableOfDistinct(events);
    m := 0;
    for i := 0 to |events|
      invariant m >= 0
      invariant forall k :: 0 <= k < i && events[k].node == node ==> events[k].sequence <= m
      invariant m == 0 || exists k :: 0 <= k < i && events[k].node == node && events[k].sequence == m
    {
      if events[i].node == node && events[i].sequence > m {
        m := events[i].sequence;
      }
    }
    if m != 0 {
      var k :| 0 <= k < |events| && events[k].node == node && events[k].sequence == m;
      assert events[k].id in TableOf(events);
    }
  }

  method MergedParents(members: seq<Row>) returns (parents: seq<Id>)
    ensures StrictlySorted(parents)
    ensures forall p :: p in Elements(parents) <==> exists i :: 0 <= i < |members| && p in members[i].parents
  {
    var parentSet: set<Id> := {};
    for i := 0 to |members|
      invariant forall p :: p in parentSet <==> exists k :: 0 <= k < i && p in members[k].parents
    {
      parentSet := parentSet + Elements(members[i].parents);
    }
    parents := SortIds(parentSet);
  }

  /** classifyMergePolicyForSet: the greatest member wins. */
  method ClassifyMergePolicy(members: seq<Row>) returns (policy: MergePolicy)
    requires |members| >= 2 && DistinctRows(members)
    ensures exists w ::
              Greatest(members, w) && policy == Decision("deterministic_order", w.id, SortList(IdsOf(members)))
  {
    var sorted := SortBy(ByTime(), members);
    LastIsGreatest(members);
    policy := Decision("deterministic_order", sorted[|sorted| - 1].id, SortList(IdsOf(members)));
  }

  function IdsOf(rows: seq<Row>): (s: seq<Id>)
    ensures |s| == |rows| && forall i :: 0 <= i < |s| ==> s[i] == rows[i].id
  {
    seq(|rows|, i requires 0 <= i < |rows| => rows[i].id)
  }

  /** mergeConflictSet derives the row of the component. */
  method MergeConflictSet(digest: Digest, members: seq<Row>, context: seq<Row>, cs: ConflictSet)
    returns (r: Result<Row, InputError>)
    requires DistinctRows(context) && StrictlySorted(cs.eventIds) && Present(TableOf(context), cs.eventIds)
    requires members == RowsOf(TableOf(context), cs.eventIds) && cs.id == ConflictSetId(digest, cs.eventIds)
    requires forall m :: m in members ==> CanonValid(m.payload)
    ensures |members| < 2 ==> r == Err(TooFewMembers)
    ensures |members| >= 2 ==>
              r.Ok? && MergeRow(digest, TableOf(ShownList(context)), cs.eventIds, ShownRow(r.value))
  {
    if |members| < 2 {
      return Err(TooFewMembers);
    }
    ghost var E := TableOf(context);
    RowsDistinct(E, cs.eventIds);
    var sorted := SortBy(ByTime(), members);
    LastIsGreatest(members);
    var winner := sorted[|sorted| - 1];
    var policy := ClassifyMergePolicy(members);
    var parents := MergedParents(members);
    var payload := MergeObjectPayloadsGroup(members);
    var m := MaxSequenceOnNode(context, winner.node);
    var body := Row(0, winner.node, winner.time, m + 1, MERGE_RESOLVED, payload, parents, SortList(IdsOf(members)),
                    Some(policy), Some(cs.id));
    var row := body.(id := DerivedId(digest, body));
    MemberIds(E, cs.eventIds);
    PolicyWinner(members, winner, policy);
    ParentsAgree(E, cs.eventIds, Elements(parents));
    ShownTable(context);
    RowShown(digest, E, TableOf(ShownList(context)), cs.eventIds, winner, body);
    r := Ok(row);
  }

  /** The assembled row shows the derived one. */
  lemma RowShown(digest: Digest, E: Rows, S: Rows, s: seq<Id>, winner: Row, body: Row)
    requires Shows(E, S) && Present(E, s) && winner.id in s && winner.id in E && E[winner.id] == winner
        && Greatest(RowsOf(E, s), winner)
    requires body.node == winner.node && body.time == winner.time && body.kind == MERGE_RESOLVED
    requires body.policy == Some(Decision("deterministic_order", winner.id, s)) && body.resolvedFrom == s
    requires MaxSequence(E, winner.node, body.sequence - 1)
    requires CanonValid(body.payload) && GroupPayload(ShownList(RowsOf(E, s)), Printed(body.payload))
    requires StrictlySorted(body.parents) && Elements(body.parents) == ParentsOf(E, s)
    requires body.conflictSet == Some(ConflictSetId(digest, s))
    ensures MergeRow(digest, S, s, ShownRow(body.(id := DerivedId(digest, body))))
  {
    ShownRowFacts(digest, body);
    MembersShown(E, S, s);
    GreatestShown(RowsOf(E, s), winner);
    assert ParentsOf(S, s) == ParentsOf(E, s);
    assert MaxSequence(S, winner.node, body.sequence - 1);
    RowAssembled(digest, S, s, ShownRow(winner), ShownRow(body));
    assert ShownRow(body.(id := DerivedId(digest, body))) == ShownRow(body).(id := DerivedId(digest, body));
  }

  lemma MembersShown(E: Rows, S: Rows, s: seq<Id>)
    requires Shows(E, S) && Present(E, s)
    ensures Present(S, s) && RowsOf(S, s) == ShownList(RowsOf(E, s))
  {
    assert forall i :: 0 <= i < |s| ==> s[i] in S && S[s[i]] == ShownRow(E[s[i]]);
  }

  lemma GreatestShown(rows: seq<Row>, h: Row)
    requires Greatest(rows, h)
    ensures Greatest(ShownList(rows), ShownRow(h))
  {
    ShownListMembers(rows, ShownRow(h));
    forall y | y in ShownList(rows)
      ensures y == ShownRow(h) || Less(y, ShownRow(h))
    {
      ShownListMembers(rows, y);
      var x :| x in rows && y == ShownRow(x);
    }
  }

  lemma RowAssembled(digest: Digest, E: Rows, s: seq<Id>, winner: Row, body: Row)
    requires Present(E, s) && winner.id in s && winner.id in E && E[winner.id] == winner
        && Greatest(RowsOf(E, s), winner)
    requires body.node == winner.node && body.time == winner.time && body.kind == MERGE_RESOLVED
    requires body.policy == Some(Decision("deterministic_order", winner.id, s)) && body.resolvedFrom == s
    requires MaxSequence(E, winner.node, body.sequence - 1) && GroupPayload(RowsOf(E, s), body.payload)
    requires StrictlySorted(body.parents) && Elements(body.parents) == ParentsOf(E, s)
    requires body.conflictSet == Some(ConflictSetId(digest, s))
    ensures MergeRow(digest, E, s, body.(id := DerivedId(digest, body)))
  {
    var row := body.(id := DerivedId(digest, body));
    assert RowValues(None, body) == RowValues(None, row);
    assert WonBy(E, s, winner.id, row);
  }

  lemma PolicyWinner(members: seq<Row>, winner: Row, policy: MergePolicy)
    requires Greatest(members, winner)
    requires exists w ::
               Greatest(members, w) && policy == Decision("deterministic_order", w.id, SortList(IdsOf(members)))
    ensures policy == Decision("deterministic_order", winner.id, SortList(IdsOf(members)))
  {
    var w :| Greatest(members, w) && policy == Decision("deterministic_order", w.id, SortList(IdsOf(members)));
    LessIsTotalOrder(w, winner, w);
  }

  lemma MemberIds(E: Rows, s: seq<Id>)
    requires RowTable(E) && Present(E, s) && StrictlySorted(s)
    ensures SortList(IdsOf(RowsOf(E, s))) == s
    ensures forall m :: m in RowsOf(E, s) ==> m.id in s && m.id in E && E[m.id] == m
  {
    assert IdsOf(RowsOf(E, s)) == s;
    SortListSorts(s);
  }

  lemma ParentsAgree(E: Rows, s: seq<Id>, parents: set<Id>)
    requires Present(E, s)
    requires forall p :: p in parents <==> exists i :: 0 <= i < |RowsOf(E, s)| && p in RowsOf(E, s)[i].parents
    ensures parents == ParentsOf(E, s)
  {
    forall p
      ensures p in parents <==> p in ParentsOf(E, s)
    {
      if p in ParentsOf(E, s) {
        var x :| x in s && x in E && p in E[x].parents;
        var i :| 0 <= i < |s| && s[i] == x;
        assert RowsOf(E, s)[i] == E[x];
      }
      if p in parents {
        var i :| 0 <= i < |RowsOf(E, s)| && p in RowsOf(E, s)[i].parents;
        assert s[i] in s;
      }
    }
  }

  // ----- all of them -----

  function PrimitiveRows(list: seq<Row>): (r: seq<Row>)
    ensures forall x :: x in r <==> x in list && x.kind != MERGE_RESOLVED
  {
    if |list| == 0 then []
    else
      assert forall x :: x in list <==> x == list[0] || x in list[1..];
      var rest := PrimitiveRows(list[1..]);
      if list[0].kind != MERGE_RESOLVED then [list[0]] + rest else rest
  }

  lemma {:induction false} PrimitiveDistinct(list: seq<Row>)
    requires DistinctRows(list)
    ensures DistinctRows(PrimitiveRows(list))
  {
    if |list| > 0 {
      PrimitiveDistinct(list[1..]);
      var rest := PrimitiveRows(list[1..]);
      forall i | 0 <= i < |rest|
        ensures rest[i].id != list[0].id
      {
        assert rest[i] in rest;
        var j :| 0 <= j < |list[1..]| && list[1..][j] == rest[i];
        assert list[j + 1].id != list[0].id;
      }
    }
  }

  lemma RowsListed(list: seq<Row>)
    requires DistinctRows(list)
    ensures forall x :: x in list <==> x.id in TableOf(list) && TableOf(list)[x.id] == x
  {
    TableOfDistinct(list);
    var E := TableOf(list);
    forall x
      ensures x in list <==> x.id in E && E[x.id] == x
    {
      if x in list {
        var i :| 0 <= i < |list| && list[i] == x;
      }
      if x.id in E && E[x.id] == x {
        var i :| 0 <= i < |list| && list[i].id == x.id;
        assert E[list[i].id] == list[i];
      }
    }
  }

  /** P holds exactly the primitive rows of E. */
  ghost predicate PrimitivePart(E: Rows, P: Rows) {
    forall a :: (a in P <==> Primitive(E, a)) && (a in P ==> P[a] == E[a])
  }

  lemma PrimitiveTable(list: seq<Row>)
    requires DistinctRows(list)
    ensures PrimitivePart(TableOf(list), TableOf(PrimitiveRows(list)))
  {
    var E, P := TableOf(list), TableOf(PrimitiveRows(list));
    PrimitiveDistinct(list);
    RowsListed(list);
    RowsListed(PrimitiveRows(list));
    forall a
      ensures (a in P <==> Primitive(E, a)) && (a in P ==> P[a] == E[a])
    {
      if a in P {
        assert P[a] in PrimitiveRows(list);
      }
      if Primitive(E, a) {
        assert E[a] in PrimitiveRows(list);
      }
    }
  }

  /** On the primitive rows the computed conflict graph is the meant one. */
  lemma ComputedConflicts(E: Rows, P: Rows, desc: Descendants)
    requires PrimitivePart(E, P) && DescendantTable(E, desc)
    ensures SameEdges(ConflictGraph(P, desc), Conflicts(E))
  {
    forall a, b
      ensures Edge(ConflictGraph(P, desc), a, b) <==> Edge(Conflicts(E), a, b)
    {
      if a in E && b in E {
        assert Precedes(desc, a, b) <==> Before(E, a, b);
        assert Precedes(desc, b, a) <==> Before(E, b, a);
      }
    }
  }

  lemma ListingTransfers(digest: Digest, g: Graph, h: Graph, sets: seq<ConflictSet>)
    requires SameEdges(g, h) && ConflictListing(digest, g, sets)
    ensures ConflictListing(digest, h, sets)
  {
    forall i | 0 <= i < |sets|
      ensures Component(h, sets[i].eventIds)
    {
      SameComponents(g, h, sets[i].eventIds);
    }
  }

  /** hasMergeForSet. */
  method HasMergeForSet(list: seq<Row>, s: seq<Id>) returns (r: bool)
    requires DistinctRows(list)
    ensures r <==> Resolved(TableOf(list), s)
  {
    TableOfDistinct(list);
    for i := 0 to |list|
      invariant forall k :: 0 <= k < i ==> !Resolves(list[k], s)
    {
      if Resolves(list[i], s) {
        assert list[i].id in TableOf(list);
        return true;
      }
    }
    r := false;
  }

  /** The rows collected for the sets below k: one fitting row per set that is not resolved. */
  ghost predicate Deriving(resolved: int -> bool, fits: (int, Row) -> bool, k: nat, toAdd: seq<Row>, from: seq<int>) {
    && |from| == |toAdd|
    && (forall j :: 0 <= j < |from| ==> 0 <= from[j] < k && fits(from[j], toAdd[j]))
    && (forall i, j :: 0 <= i < j < |from| ==> from[i] < from[j])
    && (forall i :: 0 <= i < k && !resolved(i) ==> i in from)
  }

  function Extended(toAdd: seq<Row>, row: Option<Row>): seq<Row> {
    if row.Some? then toAdd + [row.value] else toAdd
  }

  lemma DerivingNext(resolved: int -> bool, fits: (int, Row) -> bool, k: nat, toAdd: seq<Row>, from: seq<int>,
      row: Option<Row>)
    requires Deriving(resolved, fits, k, toAdd, from)
    requires if row.Some? then fits(k, row.value) else resolved(k)
    ensures Deriving(resolved, fits, k + 1, Extended(toAdd, row), if row.Some? then from + [k] else from)
  {
  }

  ghost function ResolvedAt(E: Rows, sets: seq<ConflictSet>): int -> bool {
    (i: int) => 0 <= i < |sets| && Resolved(E, sets[i].eventIds)
  }

  ghost function FitsAt(digest: Digest, E: Rows, sets: seq<ConflictSet>): (int, Row) -> bool {
    (i: int, row: Row) => 0 <= i < |sets| && DerivedFor(digest, E, sets[i].eventIds, row)
  }

  lemma DerivedApart(digest: Digest, list: seq<Row>, sets: seq<ConflictSet>, toAdd: seq<Row>, from: seq<int>)
    requires EventModel.CollisionFree(digest) && DistinctRows(list) && Identified(digest, TableOf(list))
    requires ConflictListing(digest, Conflicts(TableOf(list)), sets)
    requires Deriving(ResolvedAt(TableOf(list), sets), FitsAt(digest, TableOf(list), sets), |sets|, toAdd, from)
    ensures DistinctRows(list + toAdd)
  {
    var E, fits := TableOf(list), FitsAt(digest, TableOf(list), sets);
    forall j | 0 <= j < |toAdd|
      ensures toAdd[j].id !in E
    {
      assert fits(from[j], toAdd[j]);
      MergeRowFresh(digest, E, sets[from[j]].eventIds, toAdd[j]);
    }
    forall i, j | 0 <= i < j < |toAdd|
      ensures toAdd[i].id != toAdd[j].id
    {
      assert fits(from[i], toAdd[i]) && fits(from[j], toAdd[j]);
      SetRowsApart(digest, E, sets, from[i], toAdd[i], from[j], toAdd[j]);
    }
    AppendDistinct(list, toAdd);
  }

  lemma SetRowsApart(digest: Digest, E: Rows, sets: seq<ConflictSet>, i: nat, row: Row, j: nat, row': Row)
    requires EventModel.CollisionFree(digest) && ConflictListing(digest, Conflicts(E), sets) && i < j < |sets|
    requires DerivedFor(digest, E, sets[i].eventIds, row) && DerivedFor(digest, E, sets[j].eventIds, row')
    ensures row.id != row'.id
  {
    if row.id == row'.id {
      MergeRowsApart(digest, E, sets[i].eventIds, row, sets[j].eventIds, row');
    }
  }

  lemma AppendDistinct(list: seq<Row>, more: seq<Row>)
    requires DistinctRows(list) && DistinctRows(more) && forall j :: 0 <= j < |more| ==> more[j].id !in TableOf(list)
    ensures DistinctRows(list + more)
  {
    var all := list + more;
    forall i, j | 0 <= i < j < |all|
      ensures all[i].id != all[j].id
    {
      if i < |list| && j >= |list| {
        assert list[i].id in TableOf(list);
        assert all[j] == more[j - |list|];
      }
    }
  }

  lemma AddedTable(list: seq<Row>, toAdd: seq<Row>)
    requires DistinctRows(list) && DistinctRows(list + toAdd)
    ensures var E, F := TableOf(list), TableOf(list + toAdd);
      && Extends(E, F)
      && (forall j :: 0 <= j < |toAdd| ==> toAdd[j].id in F && F[toAdd[j].id] == toAdd[j])
      && (forall id :: id in F && id !in E ==> exists j :: 0 <= j < |toAdd| && toAdd[j].id == id)
  {
    var all := list + toAdd;
    var E, F := TableOf(list), TableOf(all);
    RowsListed(list);
    RowsListed(all);
    assert forall x :: x in all <==> x in list || x in toAdd;
    forall id | id in E
      ensures id in F && F[id] == E[id]
    {
      assert E[id] in list;
    }
    forall j | 0 <= j < |toAdd|
      ensures toAdd[j].id in F && F[toAdd[j].id] == toAdd[j]
    {
      assert toAdd[j] in all;
    }
    forall id | id in F && id !in E
      ensures exists j :: 0 <= j < |toAdd| && toAdd[j].id == id
    {
      assert F[id] in all && F[id] !in list;
    }
  }

  lemma DerivingAbsorbs(digest: Digest, list: seq<Row>, sets: seq<ConflictSet>, toAdd: seq<Row>, from: seq<int>)
    requires DistinctRows(list + toAdd) && DistinctRows(list)
    requires ConflictListing(digest, Conflicts(TableOf(list)), sets)
    requires Deriving(ResolvedAt(TableOf(list), sets), FitsAt(digest, TableOf(list), sets), |sets|, toAdd, from)
    ensures Absorbed(digest, TableOf(list), TableOf(list + toAdd))
  {
    AddedTable(list, toAdd);
    var E, F, fits := TableOf(list), TableOf(list + toAdd), FitsAt(digest, TableOf(list), sets);
    forall s | Unresolved(E, s)
      ensures Covered(digest, E, F, s)
    {
      var i := SetListed(digest, E, sets, s);
      assert !ResolvedAt(E, sets)(i);
      var j :| 0 <= j < |from| && from[j] == i;
      assert fits(i, toAdd[j]);
      assert DerivedFor(digest, E, s, F[toAdd[j].id]);
    }
    forall id | id in F && id !in E
      ensures IsDerived(digest, E, F[id])
    {
      var j :| 0 <= j < |toAdd| && toAdd[j].id == id;
      assert fits(from[j], toAdd[j]);
      assert DerivedFor(digest, E, sets[from[j]].eventIds, F[id]);
    }
  }

  lemma SetListed(digest: Digest, E: Rows, sets: seq<ConflictSet>, s: seq<Id>) returns (i: nat)
    requires ConflictListing(digest, Conflicts(E), sets) && Component(Conflicts(E), s)
    ensures i < |sets| && sets[i].eventIds == s
  {
    var y := ComponentHasEdge(Conflicts(E), s, s[0]);
    assert Listed(sets, s[0]);
    i :| 0 <= i < |sets| && s[0] in sets[i].eventIds;
    ComponentsMeet(Conflicts(E), s, sets[i].eventIds, s[0]);
  }

  // ----- the rows at work -----

  /** Canonical rows under their derived ids. */
  ghost predicate AdmittedRows(digest: Digest, list: seq<Row>) {
    forall x :: x in list ==> CanonValidRow(x) && x.id == DerivedId(digest, x)
  }

  lemma AdmittedShown(digest: Digest, list: seq<Row>)
    requires DistinctRows(list) && AdmittedRows(digest, list)
    ensures Identified(digest, TableOf(ShownList(list)))
  {
    var E, S := TableOf(list), TableOf(ShownList(list));
    ShownTable(list);
    RowsListed(list);
    forall id | id in S
      ensures CanonicalRow(S[id]) && CanonicalJson(S[id].payload) && id == DerivedId(digest, S[id])
    {
      assert E[id] in list;
      ShownRowFacts(digest, E[id]);
    }
  }

  /** Canonical rows repeat no parent, so the causal graph is computed without error. */
  lemma CanonicalParentsOk(digest: Digest, list: seq<Row>)
    requires AdmittedRows(digest, list)
    ensures AllParentsOk(list)
  {
    forall i | 0 <= i < |list|
      ensures ParentsOk(list[i])
    {
      assert list[i] in list;
      DistinctCard(list[i].parents);
    }
  }

  /** Neither kind nor keys of a payload are lost in its text. */
  lemma ConflictsShown(E: Rows, S: Rows)
    requires Shows(E, S)
    ensures SameEdges(Conflicts(E), Conflicts(S))
  {
    forall a, b
      ensures Edge(Conflicts(E), a, b) <==> Edge(Conflicts(S), a, b)
    {
      ShownBefore(E, S, a, b);
      ShownBefore(E, S, b, a);
      if a in E && b in E {
        KeysShown(E[a].payload);
        KeysShown(E[b].payload);
      }
      assert ConflictEdge(E, a, b) <==> ConflictEdge(S, a, b);
    }
  }

  lemma KeysShown(v: Json)
    ensures Keys(Printed(v)) == Keys(v) && (Printed(v).Obj? <==> v.Obj?)
  {
    if v.Obj? {
      var fs, gs := v.fields, Printed(v).fields;
      assert forall i :: 0 <= i < |fs| ==> gs[i].key == fs[i].key;
      forall k
        ensures k in Keys(Printed(v)) <==> k in Keys(v)
      {
        if i :| 0 <= i < |fs| && fs[i].key == k {
          assert gs[i].key == k;
        }
      }
    }
  }

  lemma ResolvedShown(E: Rows, S: Rows, s: seq<Id>)
    requires Shows(E, S)
    ensures Resolved(E, s) <==> Resolved(S, s)
  {
    if id :| id in E && Resolves(E[id], s) {
      assert id in S && Resolves(S[id], s);
    }
    if id :| id in S && Resolves(S[id], s) {
      assert id in E && Resolves(E[id], s);
    }
  }

  /** absorbConflictSets adds exactly the missing derived rows behind the given ones; the member lookup never
      fails. */
  method AbsorbConflictSets(digest: Digest, list: seq<Row>) returns (r: seq<Row>)
    requires EventModel.CollisionFree(digest) && DistinctRows(list) && AdmittedRows(digest, list)
    ensures list <= r && DistinctRows(r)
    ensures Absorbed(digest, TableOf(ShownList(list)), TableOf(ShownList(r)))
  {
    CanonicalParentsOk(digest, list);
    var descended := ComputeDescendants(list);
    var descendants := descended.value;
    ClosureIsDescendants(list, descendants);
    var prim := PrimitiveRows(list);
    var sets := BuildConflictSets(digest, prim, descendants);
    SetsShown(digest, list, prim, descendants, sets);
    AdmittedShown(digest, list);
    var toAdd;
    ghost var from;
    toAdd, from := CollectDerived(digest, list, sets);
    ShownDistinct(list);
    DerivedApart(digest, ShownList(list), sets, ShownList(toAdd), from);
    DerivingAbsorbs(digest, ShownList(list), sets, ShownList(toAdd), from);
    ShownListAppend(list, toAdd);
    ShownDistinct(list + toAdd);
    r := list + toAdd;
  }

  /** The computed sets list the conflicts of what the rows show. */
  lemma SetsShown(digest: Digest, list: seq<Row>, prim: seq<Row>, desc: Descendants, sets: seq<ConflictSet>)
    requires DistinctRows(list) && prim == PrimitiveRows(list) && DescendantTable(TableOf(list), desc)
    requires ConflictListing(digest, ConflictGraph(TableOf(prim), desc), sets)
    ensures ConflictListing(digest, Conflicts(TableOf(ShownList(list))), sets)
  {
    var E, S := TableOf(list), TableOf(ShownList(list));
    PrimitiveTable(list);
    ComputedConflicts(E, TableOf(prim), desc);
    ListingTransfers(digest, ConflictGraph(TableOf(prim), desc), Conflicts(E), sets);
    ShownTable(list);
    ConflictsShown(E, S);
    ListingTransfers(digest, Conflicts(E), Conflicts(S), sets);
  }

  function ShownOption(row: Option<Row>): Option<Row> {
    if row.Some? then Some(ShownRow(row.value)) else None
  }

  method CollectDerived(digest: Digest, list: seq<Row>, sets: seq<ConflictSet>)
    returns (toAdd: seq<Row>, ghost from: seq<int>)
    requires DistinctRows(list) && AdmittedRows(digest, list)
    requires ConflictListing(digest, Conflicts(TableOf(ShownList(list))), sets)
    ensures var S := TableOf(ShownList(list));
      Deriving(ResolvedAt(S, sets), FitsAt(digest, S, sets), |sets|, ShownList(toAdd), from)
  {
    ghost var S := TableOf(ShownList(list));
    ghost var resolved, fits := ResolvedAt(S, sets), FitsAt(digest, S, sets);
    toAdd, from := [], [];
    for k := 0 to |sets|
      invariant Deriving(resolved, fits, k, ShownList(toAdd), from)
    {
      var merged := DeriveAt(digest, list, sets, k);
      DerivingNext(resolved, fits, k, ShownList(toAdd), from, ShownOption(merged));
      ExtendedShown(toAdd, merged);
      toAdd, from := Extended(toAdd, merged), if merged.Some? then from + [k] else from;
    }
  }

  lemma ExtendedShown(toAdd: seq<Row>, row: Option<Row>)
    ensures ShownList(Extended(toAdd, row)) == Extended(ShownList(toAdd), ShownOption(row))
  {
  }

  method DeriveAt(digest: Digest, list: seq<Row>, sets: seq<ConflictSet>, k: nat) returns (r: Option<Row>)
    requires DistinctRows(list) && AdmittedRows(digest, list) && k < |sets|
    requires ConflictListing(digest, Conflicts(TableOf(ShownList(list))), sets)
    ensures r.None? ==> ResolvedAt(TableOf(ShownList(list)), sets)(k)
    ensures r.Some? ==> FitsAt(digest, TableOf(ShownList(list)), sets)(k, ShownRow(r.value))
  {
    r := DeriveMissing(digest, list, sets[k]);
  }

  method DeriveMissing(digest: Digest, list: seq<Row>, cs: ConflictSet) returns (r: Option<Row>)
    requires DistinctRows(list) && AdmittedRows(digest, list) && cs.id == ConflictSetId(digest, cs.eventIds)
    requires Component(Conflicts(TableOf(ShownList(list))), cs.eventIds)
    ensures r.None? <==> Resolved(TableOf(ShownList(list)), cs.eventIds)
    ensures r.Some? ==> DerivedFor(digest, TableOf(ShownList(list)), cs.eventIds, ShownRow(r.value))
  {
    ShownTable(list);
    ResolvedShown(TableOf(list), TableOf(ShownList(list)), cs.eventIds);
    var done := HasMergeForSet(list, cs.eventIds);
    if done {
      return None;
    }
    ComponentRows(digest, list, cs.eventIds);
    var members := RowsOf(TableOf(list), cs.eventIds);
    var merged := MergeConflictSet(digest, members, list, cs);
    r := Some(merged.value);
  }

  lemma ComponentRows(digest: Digest, list: seq<Row>, s: seq<Id>)
    requires DistinctRows(list) && AdmittedRows(digest, list) && Component(Conflicts(TableOf(ShownList(list))), s)
    ensures var E := TableOf(list);
      Present(E, s) && |RowsOf(E, s)| >= 2 && forall m :: m in RowsOf(E, s) ==> CanonValid(m.payload)
  {
    ShownTable(list);
    UnresolvedPresent(TableOf(ShownList(list)), s);
    RowsListed(list);
    forall i | 0 <= i < |s|
      ensures s[i] in TableOf(list) && CanonValid(TableOf(list)[s[i]].payload)
    {
      assert TableOf(list)[s[i]] in list;
    }
  }

  /** Neither do derived rows. */
  lemma AbsorbedParentsOk(digest: Digest, D: Rows, list: seq<Row>)
    requires DistinctRows(list) && Identified(digest, D) && Absorbed(digest, D, TableOf(ShownList(list)))
    ensures AllParentsOk(list)
  {
    var F := TableOf(ShownList(list));
    ShownTable(list);
    RowsListed(list);
    forall i | 0 <= i < |list|
      ensures ParentsOk(list[i])
    {
      assert list[i] in list;
      MergedParentsOk(digest, D, F, list[i].id);
      assert F[list[i].id].parents == list[i].parents;
    }
  }

  lemma MergedParentsOk(digest: Digest, D: Rows, F: Rows, id: Id)
    requires Identified(digest, D) && Absorbed(digest, D, F) && id in F
    ensures ParentsOk(F[id])
  {
    if id in D {
      assert CanonicalRow(D[id]);
    } else {
      var s :| DerivedFor(digest, D, s, F[id]);
    }
    DistinctCard(F[id].parents);
  }

  /** Some table of descendants of the listed rows puts them in causal order. */
  ghost predicate CausallyOrdered(rows: seq<Row>) {
    exists desc :: DescendantTable(TableOf(rows), desc) && OrderedBy(Causally(desc), rows)
  }

  /** When the merge of D admits no circle of the causal comparator. */
  ghost predicate CircleFree(digest: Digest, D: Rows) {
    !exists a, b, c :: GrownCircle(DerivedRows(digest, D), D, a, b, c)
  }

  /** A row as validation admits it: its payload a value the language can hold, its id derived from its
      canonical form. */
  ghost predicate Admitted(digest: Digest, e: Row) {
    Valid(e.payload) && (CanonicalizeRow(e).Ok? ==> e.id == DerivedId(digest, CanonicalizeRow(e).value))
  }

  lemma DedupeAdmits(digest: Digest, events: seq<Row>, list: seq<Row>)
    requires (forall e :: e in events ==> Admitted(digest, e)) && Dedupe(events) == Ok(list)
    ensures DistinctRows(list) && AdmittedRows(digest, list)
  {
    DedupeExactly(events);
    forall x | x in list
      ensures CanonValidRow(x) && x.id == DerivedId(digest, x)
    {
      FirstIsCanonical(events, x);
      var e :| e in events && CanonicalizeRow(e) == Ok(x);
      CanonicalizedIsValid(e);
    }
  }

  /** What a merge of deduplicated rows must return. It keeps them, and shows exactly the absorbed set of what
      they show. Where that set, D, is reference-closed and acyclic, the result is in causal order exactly where
      D admits no circle, and then safe to replay; where the clock condition holds it is ascending too. */
  ghost predicate Merged(digest: Digest, deduped: seq<Row>, out: seq<Row>) {
    var D := TableOf(ShownList(deduped));
    && DistinctRows(out) && (forall x :: x in deduped ==> x in out)
    && SortedAbsorbed(digest, D, out)
  }

  ghost predicate SortedAbsorbed(digest: Digest, D: Rows, out: seq<Row>) {
    && Absorbed(digest, D, TableOf(ShownList(out)))
    && (ClockConsistent(TableOf(out)) ==> OrderedBy(ByTime(), out) && ReplaySafe(out))
    && (RefClosed(D) && !HasCycle(Causal(D)) ==>
          && (CausallyOrdered(out) <==> CircleFree(digest, D))
          && (CausallyOrdered(out) ==> ReplaySafe(out)))
  }

  /** mergeEventSets: it fails exactly when deduplication does. */
  method MergeEventSets(digest: Digest, events: seq<Row>) returns (r: Result<seq<Row>, InputError>)
    requires EventModel.CollisionFree(digest) && forall e :: e in events ==> Admitted(digest, e)
    ensures match Dedupe(events)
            case Err(e) => r == Err(e)
            case Ok(deduped) => r.Ok? && Merged(digest, deduped, r.value)
  {
    var deduped := DedupeRows(events);
    if deduped.Err? {
      return Err(deduped.error);
    }
    DedupeAdmits(digest, events, deduped.value);
    var out := MergeDeduped(digest, deduped.value);
    r := Ok(out);
  }

  method MergeDeduped(digest: Digest, deduped: seq<Row>) returns (out: seq<Row>)
    requires EventModel.CollisionFree(digest) && DistinctRows(deduped) && AdmittedRows(digest, deduped)
    ensures Merged(digest, deduped, out)
  {
    AdmittedShown(digest, deduped);
    var list := AbsorbConflictSets(digest, deduped);
    AbsorbedParentsOk(digest, TableOf(ShownList(deduped)), list);
    var descended := ComputeDescendants(list);
    var desc := descended.value;
    ClosureIsDescendants(list, desc);
    SortedOutput(digest, TableOf(ShownList(deduped)), list, desc);
    SortKeepsRows(Causally(desc), list);
    out := SortBy(Causally(desc), list);
  }

  /** What sorting makes of the absorbed list. */
  lemma SortedOutput(digest: Digest, D: Rows, list: seq<Row>, desc: map<Id, set<Id>>)
    requires EventModel.CollisionFree(digest) && Identified(digest, D) && DistinctRows(list)
    requires Absorbed(digest, D, TableOf(ShownList(list))) && DescendantTable(TableOf(list), desc)
    ensures SortedAbsorbed(digest, D, SortBy(Causally(desc), list))
  {
    var out := SortBy(Causally(desc), list);
    SortKeepsRows(Causally(desc), list);
    if ClockConsistent(TableOf(list)) {
      SortedIsReplaySafe(list, desc);
    }
    SortShown(desc, list);
    ShownDistinct(list);
    SortKeepsRows(Causally(desc), ShownList(list));
    if RefClosed(D) && !HasCycle(Causal(D)) {
      OutputOrder(digest, D, list, desc, out);
    }
  }

  lemma CompareShown(desc: map<Id, set<Id>>, x: Row, y: Row)
    ensures Causally(desc)(ShownRow(x), ShownRow(y)) == Causally(desc)(x, y)
  {
  }

  lemma {:induction false} SortShown(desc: map<Id, set<Id>>, list: seq<Row>)
    ensures ShownList(SortBy(Causally(desc), list)) == SortBy(Causally(desc), ShownList(list))
  {
    if |list| > 0 {
      SortShown(desc, list[1..]);
      forall y
        ensures Causally(desc)(ShownRow(list[0]), ShownRow(y)) == Causally(desc)(list[0], y)
      {
        CompareShown(desc, list[0], y);
      }
      InsertShown(Causally(desc), list[0], SortBy(Causally(desc), list[1..]));
      assert ShownList(list)[1..] == ShownList(list[1..]);
    }
  }

  lemma {:induction false} InsertShown(cmp: Comparator, x: Row, s: seq<Row>)
    requires forall i :: 0 <= i < |s| ==> cmp(ShownRow(x), ShownRow(s[i])) == cmp(x, s[i])
    ensures ShownList(InsertBy(cmp, x, s)) == InsertBy(cmp, ShownRow(x), ShownList(s))
  {
    if |s| == 0 || cmp(x, s[0]) <= 0 {
      ShownListAppend([x], s);
    } else {
      assert ShownList(s)[1..] == ShownList(s[1..]);
      InsertShown(cmp, x, s[1..]);
      ShownListAppend([s[0]], InsertBy(cmp, x, s[1..]));
    }
  }

  lemma OrderShown(desc: map<Id, set<Id>>, out: seq<Row>)
    ensures OrderedBy(Causally(desc), ShownList(out)) <==> OrderedBy(Causally(desc), out)
  {
    forall i, j | 0 <= i < j < |out|
      ensures Causally(desc)(ShownList(out)[i], ShownList(out)[j]) == Causally(desc)(out[i], out[j])
    {
      CompareShown(desc, out[i], out[j]);
    }
  }

  lemma OutputOrder(digest: Digest, D: Rows, list: seq<Row>, desc: map<Id, set<Id>>, out: seq<Row>)
    requires EventModel.CollisionFree(digest) && Identified(digest, D) && RefClosed(D) && !HasCycle(Causal(D))
    requires DistinctRows(list) && Absorbed(digest, D, TableOf(ShownList(list))) && DescendantTable(TableOf(list), desc)
    requires out == SortBy(Causally(desc), list) && DistinctRows(out) && TableOf(out) == TableOf(list)
    ensures CausallyOrdered(out) <==> CircleFree(digest, D)
    ensures CausallyOrdered(out) ==> ReplaySafe(out)
  {
    var E := TableOf(list);
    ShownOrder(digest, D, list, desc);
    if desc' :| DescendantTable(E, desc') && OrderedBy(Causally(desc'), out) {
      DescendantsUnique(E, desc, desc');
    }
    if OrderedBy(Causally(desc), out) {
      OrderedIsSafe(E, desc, out);
    }
  }

  lemma ShownOrder(digest: Digest, D: Rows, list: seq<Row>, desc: map<Id, set<Id>>)
    requires EventModel.CollisionFree(digest) && Identified(digest, D) && RefClosed(D) && !HasCycle(Causal(D))
    requires DistinctRows(list) && Absorbed(digest, D, TableOf(ShownList(list))) && DescendantTable(TableOf(list), desc)
    ensures OrderedBy(Causally(desc), SortBy(Causally(desc), list)) <==> CircleFree(digest, D)
    ensures !HasCycle(Causal(TableOf(list)))
  {
    var out, F := SortBy(Causally(desc), list), TableOf(ShownList(list));
    ShownSort(list, desc);
    OrderShown(desc, out);
    MergeOutputExactly(digest, D, F, desc, ShownList(out));
    MergeAcyclic(digest, D, F);
    ShownAcyclic(list);
  }

  lemma ShownSort(list: seq<Row>, desc: map<Id, set<Id>>)
    requires DistinctRows(list) && DescendantTable(TableOf(list), desc)
    ensures SortOf(TableOf(ShownList(list)), desc, ShownList(SortBy(Causally(desc), list)))
  {
    ShownTable(list);
    ShownDistinct(list);
    ShownDescendants(TableOf(list), TableOf(ShownList(list)), desc);
    ListsTable(ShownList(list));
    SortShown(desc, list);
  }

  lemma ShownAcyclic(list: seq<Row>)
    requires !HasCycle(Causal(TableOf(ShownList(list))))
    ensures !HasCycle(Causal(TableOf(list)))
  {
    ShownTable(list);
    if x :| Reaches(Causal(TableOf(list)), x, x) {
      ShownBefore(TableOf(list), TableOf(ShownList(list)), x, x);
    }
  }

  lemma ListsTable(list: seq<Row>)
    requires DistinctRows(list)
    ensures Lists(list, TableOf(list))
  {
    TableOfDistinct(list);
    forall x
      ensures x in list <==> x.id in TableOf(list) && TableOf(list)[x.id] == x
    {
      if x in list {
        var i :| 0 <= i < |list| && list[i] == x;
      }
    }
  }

  lemma DescendantsUnique(E: Rows, desc: map<Id, set<Id>>, desc': map<Id, set<Id>>)
    requires DescendantTable(E, desc) && DescendantTable(E, desc')
    ensures desc == desc'
  {
    forall id | id in desc
      ensures desc[id] == desc'[id]
    {
      assert forall x :: x in desc[id] <==> x in desc'[id];
    }
  }

  /** Sorting rearranges, whatever the comparator. */
  lemma SortKeepsRows(cmp: Comparator, list: seq<Row>)
    requires DistinctRows(list)
    ensures DistinctRows(SortBy(cmp, list)) && TableOf(SortBy(cmp, list)) == TableOf(list)
  {
    SortDistinct(cmp, list);
    SameTable(list, SortBy(cmp, list));
  }

  lemma {:induction false} SortDistinct(cmp: Comparator, list: seq<Row>)
    requires DistinctRows(list)
    ensures DistinctRows(SortBy(cmp, list))
  {
    if |list| > 0 {
      SortDistinct(cmp, list[1..]);
      var rest := SortBy(cmp, list[1..]);
      forall y | y in rest
        ensures y.id != list[0].id
      {
        var j :| 0 <= j < |list[1..]| && list[1..][j] == y;
        assert list[j + 1].id != list[0].id;
      }
      InsertDistinct(cmp, list[0], rest);
    }
  }

  lemma {:induction false} InsertDistinct(cmp: Comparator, x: Row, s: seq<Row>)
    requires DistinctRows(s) && forall y :: y in s ==> y.id != x.id
    ensures DistinctRows(InsertBy(cmp, x, s))
  {
    if |s| > 0 && cmp(x, s[0]) > 0 {
      assert forall y :: y in s[1..] ==> y in s;
      InsertDistinct(cmp, x, s[1..]);
      var r := InsertBy(cmp, x, s[1..]);
      assert s[0] in s;
      forall j | 0 <= j < |r|
        ensures r[j].id != s[0].id
      {
        assert r[j] in r;
        if r[j] != x {
          var i :| 0 <= i < |s[1..]| && s[1..][i] == r[j];
          assert s[i + 1].id != s[0].id;
        }
      }
    }
  }

  /** What merging the rows shows. */
  ghost predicate MergesTo(digest: Digest, events: seq<Row>, F: Rows) {
    Dedupe(events).Ok? && Absorbed(digest, TableOf(ShownList(Dedupe(events).value)), F)
  }

  /** What the merged set shows does not depend on the order or repetition of the input rows; in particular the
      union of two logs merges the same from either side. */
  lemma MergeOrderIndependent(digest: Digest, events: seq<Row>, events': seq<Row>, F: Rows, F': Rows)
    requires ValidRows(events) && forall e :: e in events <==> e in events'
    ensures Dedupe(events).Ok? <==> Dedupe(events').Ok?
    ensures MergesTo(digest, events, F) && MergesTo(digest, events', F') ==> F == F'
  {
    DedupeOrder(events, events');
    if MergesTo(digest, events, F) && MergesTo(digest, events', F') {
      AbsorbedUnique(digest, TableOf(ShownList(Dedupe(events).value)), F, F');
    }
  }
}
