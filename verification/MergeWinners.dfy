/** Where a merge puts its rows and what it writes into them, told in the parts of the rows
    (src/distributed/merge_algebra.ts, src/distributed/merge_policy.ts, src/distributed/payload_domain.ts). */
module MergeWinners {
  import opened Results
  import opened Ids
  import opened Digraph
  import opened Json
  import opened DistributedEvents
  import opened CausalGraphs
  import opened ConflictSets
  import opened PayloadMerge
  import opened EventSets

  // ----- what is merged -----

  /** Two rows conflict when both are no merge rows, neither happened before the other, and both write a key. */
  lemma ConflictsExactly(E: Rows, a: Id, b: Id)
    ensures Edge(Conflicts(E), a, b) <==>
              && a in E && b in E && a != b
              && E[a].kind != "iris.merge.resolved" && E[b].kind != "iris.merge.resolved"
              && !Reaches(DirectGraph(E), a, b) && !Reaches(DirectGraph(E), b, a)
              && exists k :: WritesKey(E[a], k) && WritesKey(E[b], k)
  {
    BeforeExactly(E, a, b);
    BeforeExactly(E, b, a);
    if a in E && b in E {
      SharedKey(E[a], E[b]);
    }
  }

  lemma SharedKey(a: Row, b: Row)
    ensures Overlap(a.payload, b.payload) <==> exists k :: WritesKey(a, k) && WritesKey(b, k)
  {
    forall k
      ensures (HoldsKey(a, k) <==> WritesKey(a, k)) && (HoldsKey(b, k) <==> WritesKey(b, k))
    {
      HoldsWrites(a, k);
      HoldsWrites(b, k);
    }
    if Overlap(a.payload, b.payload) {
      var k :| k in Keys(a.payload) * Keys(b.payload);
      assert HoldsKey(a, k) && HoldsKey(b, k);
    }
    if k :| WritesKey(a, k) && WritesKey(b, k) {
      assert HoldsKey(a, k) && HoldsKey(b, k);
      assert k in Keys(a.payload) * Keys(b.payload);
    }
  }

  /** A conflict is resolved already when some merge row names exactly its rows as sources, in whatever order. */
  lemma ResolvesExactly(r: Row, s: seq<Id>)
    ensures Resolves(r, s) <==> r.kind == "iris.merge.resolved" && multiset(r.resolvedFrom) == multiset(s)
  {
    SortListSorts(r.resolvedFrom);
    SortListSorts(s);
    SortListKeeps(r.resolvedFrom);
    SortListKeeps(s);
    if multiset(r.resolvedFrom) == multiset(s) {
      SortedSame(SortList(r.resolvedFrom), SortList(s));
      assert |multiset(r.resolvedFrom)| == |multiset(s)|;
    }
  }

  // ----- the place of the row -----

  /** Of the members with the latest counter, w is on the greatest node; of those there it has the greatest
      sequence, and then the greatest id. */
  ghost predicate Wins(E: Rows, s: seq<Id>, w: Id) {
    && w in s && w in E
    && forall x :: x in s ==> x in E && WinsOver(E[w], E[x])
  }

  ghost predicate WinsOver(w: Row, x: Row) {
    && x.time.counter <= w.time.counter
    && (x.time.counter == w.time.counter ==> x.time.node <= w.time.node)
    && (x.time == w.time ==> x.sequence <= w.sequence)
    && (x.time == w.time && x.sequence == w.sequence ==> x.id <= w.id)
  }

  /** The row carries the winner's node and clock, the sequence right after the last one there, and names the
      winner, all sources and all their parents. */
  ghost predicate Standing(E: Rows, s: seq<Id>, w: Id, row: Row)
    requires w in E
  {
    && row.node == E[w].node && row.time == E[w].time && row.kind == "iris.merge.resolved"
    && row.resolvedFrom == s && row.policy == Some(Decision("deterministic_order", w, s))
    && (forall x :: x in E && E[x].node == row.node ==> E[x].sequence < row.sequence)
    && (row.sequence == 1 || exists x :: x in E && E[x].node == row.node && E[x].sequence == row.sequence - 1)
    && StrictlySorted(row.parents)
    && forall p :: p in row.parents <==> exists x :: x in s && x in E && p in E[x].parents
  }

  // ----- the payload of the row -----

  ghost predicate Writes(r: Row, k: string, v: Json) {
    r.payload.Obj? && Field(k, v) in r.payload.fields
  }

  ghost predicate WritesKey(r: Row, k: string) {
    exists v :: Writes(r, k, v)
  }

  /** h is the last of the members to write the key. */
  ghost predicate LastToWrite(E: Rows, s: seq<Id>, k: string, h: Id) {
    && h in s && h in E && WritesKey(E[h], k)
    && forall x :: x in s && x in E && WritesKey(E[x], k) ==> WinsOver(E[h], E[x])
  }

  /** The row's payload is an object with the keys the members write, each with what its last writer wrote. */
  ghost predicate Carries(E: Rows, s: seq<Id>, row: Row) {
    && row.payload.Obj? && KeysSorted(row.payload.fields)
    && (forall k :: WritesKey(row, k) <==> exists x :: x in s && x in E && WritesKey(E[x], k))
    && (forall k, h, v :: LastToWrite(E, s, k, h) && Writes(E[h], k, v) ==> Writes(row, k, v))
  }

  // ----- the law -----

  lemma OrderWins(w: Row, x: Row)
    ensures x == w || Less(x, w) ==> WinsOver(w, x)
    ensures WinsOver(w, x) && x.id != w.id ==> Less(x, w)
  {
    LessExactly(x, w);
    LessExactly(w, x);
  }

  lemma WinnerWins(E: Rows, s: seq<Id>, w: Id, row: Row)
    requires Present(E, s) && w in s && w in E && WonBy(E, s, w, row)
    ensures Wins(E, s, w)
  {
    forall x | x in s
      ensures x in E && WinsOver(E[w], E[x])
    {
      var i :| 0 <= i < |s| && s[i] == x;
      assert RowsOf(E, s)[i] == E[x];
      OrderWins(E[w], E[x]);
    }
  }

  lemma RowStands(digest: Digest, E: Rows, s: seq<Id>, w: Id, row: Row)
    requires MergeRow(digest, E, s, row) && w in s && w in E && WonBy(E, s, w, row)
    ensures Standing(E, s, w, row)
  {
    forall p
      ensures p in row.parents <==> exists x :: x in s && x in E && p in E[x].parents
    {
      assert p in row.parents <==> p in Elements(row.parents);
    }
  }

  lemma HoldsWrites(r: Row, k: string)
    ensures HoldsKey(r, k) <==> WritesKey(r, k)
  {
    if HoldsKey(r, k) {
      var i :| 0 <= i < |r.payload.fields| && r.payload.fields[i].key == k;
      assert r.payload.fields[i] == Field(k, r.payload.fields[i].value);
      assert Writes(r, k, r.payload.fields[i].value);
    }
    if v :| Writes(r, k, v) {
      var i :| 0 <= i < |r.payload.fields| && r.payload.fields[i] == Field(k, v);
    }
  }

  lemma LastIsTopHolder(E: Rows, s: seq<Id>, k: string, h: Id)
    requires RowTable(E) && Present(E, s) && LastToWrite(E, s, k, h)
    ensures TopHolder(RowsOf(E, s), k, E[h])
  {
    var j :| 0 <= j < |s| && s[j] == h;
    assert RowsOf(E, s)[j] == E[h];
    HoldsWrites(E[h], k);
    forall y | y in RowsOf(E, s) && HoldsKey(y, k)
      ensures y == E[h] || Less(y, E[h])
    {
      var i :| 0 <= i < |s| && RowsOf(E, s)[i] == y;
      HoldsWrites(y, k);
      assert s[i] in s;
      OrderWins(E[h], y);
    }
  }

  lemma HeldIsWritten(E: Rows, s: seq<Id>, k: string)
    requires Present(E, s)
    ensures Held(RowsOf(E, s), k) <==> exists x :: x in s && x in E && WritesKey(E[x], k)
  {
    if y :| y in RowsOf(E, s) && HoldsKey(y, k) {
      var i :| 0 <= i < |s| && RowsOf(E, s)[i] == y;
      HoldsWrites(y, k);
      assert s[i] in s && WritesKey(E[s[i]], k);
    }
    if x :| x in s && x in E && WritesKey(E[x], k) {
      var i :| 0 <= i < |s| && s[i] == x;
      HoldsWrites(E[x], k);
      assert RowsOf(E, s)[i] == E[x];
    }
  }

  lemma LookupWrites(r: Row, k: string, v: Json)
    requires r.payload.Obj? && DistinctKeys(r.payload.fields)
    ensures Lookup(r.payload.fields, k) == Some(v) <==> Writes(r, k, v)
  {
    if Writes(r, k, v) {
      LookupField(r.payload.fields, Field(k, v));
    }
  }

  lemma RowCarries(digest: Digest, E: Rows, s: seq<Id>, row: Row)
    requires Identified(digest, E) && Present(E, s) && GroupPayload(RowsOf(E, s), row.payload)
    ensures Carries(E, s, row)
  {
    SortedDistinct(row.payload.fields);
    forall k
      ensures WritesKey(row, k) <==> exists x :: x in s && x in E && WritesKey(E[x], k)
    {
      HeldIsWritten(E, s, k);
      HoldsWrites(row, k);
    }
    forall k, h, v | LastToWrite(E, s, k, h) && Writes(E[h], k, v)
      ensures Writes(row, k, v)
    {
      LastIsTopHolder(E, s, k, h);
      LookupWrites(E[h], k, v);
      LookupWrites(row, k, v);
    }
  }

  /** What a merge leaves of an unresolved component: one new row, which stands on the node of the winner and
      carries what the last writer of every key wrote. */
  lemma MergedRowTold(digest: Digest, E: Rows, F: Rows, s: seq<Id>)
    requires Identified(digest, E) && Absorbed(digest, E, F) && Unresolved(E, s)
    ensures exists id, w :: id in F && id !in E && Wins(E, s, w) && Standing(E, s, w, F[id]) && Carries(E, s, F[id])
  {
    assert Covered(digest, E, F, s);
    var id :| id in F && DerivedFor(digest, E, s, F[id]);
    assert id !in E by {
      MergeRowOk(digest, E, s, F[id]);
      assert Extends(E, F);
    }
    var w :| w in s && w in E && WonBy(E, s, w, F[id]);
    WinnerWins(E, s, w, F[id]);
    RowStands(digest, E, s, w, F[id]);
    RowCarries(digest, E, s, F[id]);
  }
}
