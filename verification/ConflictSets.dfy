/** Conflict sets: the connected components of the concurrent-and-overlapping graph, computed with
    union-find and path compression (src/distributed/conflict_sets.ts, src/distributed/payload_domain.ts). */
module ConflictSets {
  import opened Ids
  import opened Digraph
  import opened Json
  import opened JsonTheory
  import opened DistributedEvents
  import opened CausalGraphs

  // ----- the conflict graph -----

  function Keys(v: Json): set<string> {
    match v
    case Obj(fields) => set i | 0 <= i < |fields| :: fields[i].key
    case _ => {}
  }

  predicate Overlap(a: Json, b: Json) {
    a.Obj? && b.Obj? && Keys(a) * Keys(b) != {}
  }

  /** payloadsOverlap: look for a key of a among the keys of b. */
  method PayloadsOverlap(a: Json, b: Json) returns (r: bool)
    ensures r <==> Overlap(a, b)
  {
    if !a.Obj? || !b.Obj? {
      return false;
    }
    var keysB := Keys(b);
    for i := 0 to |a.fields|
      invariant forall k :: 0 <= k < i ==> a.fields[k].key !in keysB
    {
      if a.fields[i].key in keysB {
        assert a.fields[i].key in Keys(a) * Keys(b);
        return true;
      }
    }
    assert Keys(a) * Keys(b) == {};
    r := false;
  }

  type Descendants = map<Id, set<Id>>

  predicate Precedes(desc: Descendants, a: Id, b: Id) {
    a in desc && b in desc[a]
  }

  /** areConcurrentPair. */
  predicate ConcurrentPair(desc: Descendants, a: Id, b: Id) {
    a != b && !Precedes(desc, a, b) && !Precedes(desc, b, a)
  }

  function ConflictGraph(P: Rows, desc: Descendants): Graph {
    (a: Id) => set b | b in P && a in P && ConcurrentPair(desc, a, b) && Overlap(P[a].payload, P[b].payload)
  }

  ghost predicate Connected(g: Graph, a: Id, b: Id) {
    a == b || Reaches(g, a, b)
  }

  ghost predicate Symmetric(g: Graph) {
    forall a, b :: Edge(g, a, b) ==> Edge(g, b, a)
  }

  lemma ConflictSymmetric(P: Rows, desc: Descendants)
    ensures Symmetric(ConflictGraph(P, desc))
  {
    forall a, b | Edge(ConflictGraph(P, desc), a, b)
      ensures Edge(ConflictGraph(P, desc), b, a)
    {
      assert Keys(P[a].payload) * Keys(P[b].payload) == Keys(P[b].payload) * Keys(P[a].payload);
    }
  }

  lemma ConnectedSymmetric(g: Graph, a: Id, b: Id)
    requires Symmetric(g) && Connected(g, a, b)
    ensures Connected(g, b, a)
  {
    if a != b {
      var p :| PathBetween(g, p, a, b);
      PathReverses(g, g, p);
    }
  }

  lemma ConnectedTransitive(g: Graph, a: Id, b: Id, c: Id)
    requires Connected(g, a, b) && Connected(g, b, c)
    ensures Connected(g, a, c)
  {
    if a != b && b != c {
      ReachTransitive(g, a, b, c);
    }
  }

  // ----- union-find -----

  /** One id of the forest: unmet ids stand for themselves; a met id has the representative of its
      parent, and heights fall along parents. */
  ghost predicate NodeOk(parent: map<Id, Id>, rep: Id -> Id, height: Id -> nat, x: Id) {
    && rep(rep(x)) == rep(x)
    && (x !in parent ==> rep(x) == x)
    && (x in parent ==>
          && parent[x] in parent && rep(x) in parent
          && rep(parent[x]) == rep(x)
          && (parent[x] == x <==> rep(x) == x)
          && (parent[x] != x ==> height(parent[x]) < height(x))
          && (rep(x) != x ==> height(rep(x)) < height(x)))
  }

  ghost predicate Forest(parent: map<Id, Id>, rep: Id -> Id, height: Id -> nat) {
    forall x :: NodeOk(parent, rep, height, x)
  }

  lemma ForestMeets(parent: map<Id, Id>, rep: Id -> Id, height: Id -> nat, x: Id)
    requires Forest(parent, rep, height) && x !in parent
    ensures Forest(parent[x := x], rep, height)
  {
    var p := parent[x := x];
    forall y
      ensures NodeOk(p, rep, height, y)
    {
      assert NodeOk(parent, rep, height, y) && NodeOk(parent, rep, height, x);
    }
  }

  /** Path compression points an id at its representative. */
  lemma ForestCompresses(parent: map<Id, Id>, rep: Id -> Id, height: Id -> nat, x: Id)
    requires Forest(parent, rep, height) && x in parent
    ensures Forest(parent[x := rep(x)], rep, height)
  {
    var p := parent[x := rep(x)];
    forall y
      ensures NodeOk(p, rep, height, y)
    {
      assert NodeOk(parent, rep, height, y) && NodeOk(parent, rep, height, x);
    }
  }

  lemma ForestJoins(parent: map<Id, Id>, rep: Id -> Id, height: Id -> nat, rep': Id -> Id, height': Id -> nat, ra: Id,
      rb: Id)
    requires Forest(parent, rep, height) && ra in parent && rb in parent && ra != rb && rep(ra) == ra && rep(rb) == rb
    requires forall z :: rep'(z) == if rep(z) == ra then rb else rep(z)
    requires forall z :: height'(z) == if rep(z) == ra then height(z) + height(rb) + 1 else height(z)
    ensures Forest(parent[ra := rb], rep', height')
  {
    var p := parent[ra := rb];
    forall y
      ensures NodeOk(p, rep', height', y)
    {
      assert NodeOk(parent, rep, height, y);
      assert y in parent ==> NodeOk(parent, rep, height, parent[y]);
    }
  }

  /** The forest as the source keeps it, a parent per met id. */
  class UnionFind {
    var parent: map<Id, Id>
    ghost var rep: Id -> Id
    ghost var height: Id -> nat

    ghost predicate Valid()
      reads this
    {
      Forest(parent, rep, height)
    }

    constructor ()
      ensures Valid() && forall x :: rep(x) == x
    {
      parent := map[];
      rep := x => x;
      height := x => 0;
    }

    /** Path compression rewrites parents, yet the search terminates and no representative moves. */
    method Find(x: Id) returns (r: Id)
      requires Valid()
      modifies this`parent
      ensures Valid() && r == rep(x)
      ensures r in parent && old(parent.Keys) <= parent.Keys
      decreases height(x)
    {
      assert NodeOk(parent, rep, height, x);
      if x !in parent {
        ForestMeets(parent, rep, height, x);
        parent := parent[x := x];
        assert NodeOk(parent, rep, height, x);
      }
      var p := parent[x];
      if p != x {
        var root := Find(p);
        ForestCompresses(parent, rep, height, x);
        parent := parent[x := root];
        assert NodeOk(parent, rep, height, x);
      }
      r := parent[x];
    }

    /** Two classes become one. */
    method Union(a: Id, b: Id)
      requires Valid()
      modifies this
      ensures Valid()
      ensures forall z :: rep(z) == if old(rep)(z) == old(rep)(a) then old(rep)(b) else old(rep)(z)
    {
      var ra := Find(a);
      var rb := Find(b);
      ghost var f, h := rep, height;
      assert NodeOk(parent, f, h, a) && NodeOk(parent, f, h, b);
      if ra != rb {
        rep := z => if f(z) == ra then rb else f(z);
        height := z => if f(z) == ra then h(z) + h(rb) + 1 else h(z);
        ForestJoins(parent, f, h, rep, height, ra, rb);
        parent := parent[ra := rb];
      }
    }
  }

  /** Representatives agree only inside components. */
  ghost predicate SoundAt(g: Graph, rep: Id -> Id, x: Id, y: Id) {
    rep(x) == rep(y) ==> Connected(g, x, y)
  }

  ghost predicate Sound(g: Graph, rep: Id -> Id) {
    forall x, y :: SoundAt(g, rep, x, y)
  }

  lemma UnionSound(g: Graph, rep: Id -> Id, rep': Id -> Id, a: Id, b: Id)
    requires Symmetric(g) && Sound(g, rep) && Edge(g, a, b)
    requires forall z :: rep'(z) == if rep(z) == rep(a) then rep(b) else rep(z)
    ensures Sound(g, rep')
  {
    ReachEdge(g, a, b);
    forall x, y
      ensures SoundAt(g, rep', x, y)
    {
      assert SoundAt(g, rep, x, y) && SoundAt(g, rep, x, a) && SoundAt(g, rep, y, a) && SoundAt(g, rep, b, x)
          && SoundAt(g, rep, b, y);
      if rep'(x) == rep'(y) && rep(x) != rep(y) {
        if rep(x) == rep(a) {
          ConnectedTransitive(g, x, a, b);
          ConnectedTransitive(g, x, b, y);
        } else {
          ConnectedTransitive(g, y, a, b);
          ConnectedTransitive(g, y, b, x);
          ConnectedSymmetric(g, y, x);
        }
      }
    }
  }

  lemma {:induction false} PathMerged(g: Graph, rep: Id -> Id, p: seq<Id>)
    requires IsPath(g, p) && forall a, b :: Edge(g, a, b) ==> rep(a) == rep(b)
    ensures rep(p[0]) == rep(p[|p| - 1])
  {
    if |p| > 1 {
      assert Edge(g, p[0], p[1]);
      SubPath(g, p);
      PathMerged(g, rep, p[1..]);
    }
  }

  /** Representatives agree exactly inside components. */
  ghost predicate DecidesAt(g: Graph, rep: Id -> Id, x: Id, y: Id) {
    rep(x) == rep(y) <==> Connected(g, x, y)
  }

  ghost predicate Decides(g: Graph, rep: Id -> Id) {
    forall x, y :: DecidesAt(g, rep, x, y)
  }

  /** Once every edge is merged, representatives decide connection. */
  lemma RepresentativesAreComponents(g: Graph, rep: Id -> Id)
    requires Sound(g, rep) && forall a, b :: Edge(g, a, b) ==> rep(a) == rep(b)
    ensures Decides(g, rep)
  {
    forall x, y
      ensures DecidesAt(g, rep, x, y)
    {
      assert SoundAt(g, rep, x, y);
      if Reaches(g, x, y) {
        var p :| PathBetween(g, p, x, y);
        PathMerged(g, rep, p);
      }
    }
  }

  // ----- the listing of components -----

  datatype ConflictSet = ConflictSet(id: Id, eventIds: seq<Id>)

  /** deriveConflictSetId. */
  function ConflictSetId(digest: Digest, eventIds: seq<Id>): Id {
    digest(Stringify(Obj([Field("eventIds", IdItems(SortList(eventIds)))])))
  }

  lemma ConflictSetIdInjective(digest: Digest, s: seq<Id>, t: seq<Id>)
    requires EventModel.CollisionFree(digest) && Sorted(s) && Sorted(t)
    requires ConflictSetId(digest, s) == ConflictSetId(digest, t)
    ensures s == t
  {
    SortListSorts(s);
    SortListSorts(t);
    IdItemsOk(s);
    IdItemsOk(t);
    var fs, gs := [Field("eventIds", IdItems(s))], [Field("eventIds", IdItems(t))];
    RecordsInjective(fs, gs);
    assert Shown(fs[0].value) == Shown(gs[0].value);
    ShownLossless(fs[0].value);
    ShownLossless(gs[0].value);
    EventModel.ParentItemsInjective(s, t);
  }

  ghost predicate MemberAt(g: Graph, s: seq<Id>, x: Id, y: Id) {
    x in s ==> (y in s <==> Connected(g, x, y))
  }

  /** A component of at least two rows, in ascending order. */
  ghost predicate Component(g: Graph, s: seq<Id>) {
    |s| >= 2 && StrictlySorted(s) && forall x, y :: MemberAt(g, s, x, y)
  }

  /** Exactly the components of size at least two, in the order of their first ids. */
  ghost predicate ConflictListing(digest: Digest, g: Graph, sets: seq<ConflictSet>) {
    && (forall i :: 0 <= i < |sets| ==>
        Component(g, sets[i].eventIds) && sets[i].id == ConflictSetId(digest, sets[i].eventIds))
    && (forall a, b :: Edge(g, a, b) ==> Listed(sets, a))
    && (forall i, j :: 0 <= i < j < |sets| ==> sets[i].eventIds[0] < sets[j].eventIds[0])
  }

  ghost predicate Listed(sets: seq<ConflictSet>, a: Id) {
    exists i :: 0 <= i < |sets| && a in sets[i].eventIds
  }

  lemma ComponentsMeet(g: Graph, s: seq<Id>, t: seq<Id>, x: Id)
    requires Component(g, s) && Component(g, t) && x in s && x in t
    ensures s == t
  {
    forall y
      ensures y in s <==> y in t
    {
      assert MemberAt(g, s, x, y) && MemberAt(g, t, x, y);
    }
    assert Elements(s) == Elements(t);
    SortedUnique(s, t);
  }

  lemma ComponentHasEdge(g: Graph, s: seq<Id>, x: Id) returns (y: Id)
    requires Component(g, s) && x in s
    ensures Edge(g, x, y)
  {
    var z := if s[0] == x then s[1] else s[0];
    assert z in s && MemberAt(g, s, x, z);
    y := ReachFirst(g, x, z);
  }

  lemma ListingIncludes(digest: Digest, g: Graph, sets: seq<ConflictSet>, sets': seq<ConflictSet>, i: nat)
    returns (j: nat)
    requires ConflictListing(digest, g, sets) && ConflictListing(digest, g, sets') && i < |sets|
    ensures j < |sets'| && sets'[j] == sets[i]
  {
    var x := sets[i].eventIds[0];
    var y := ComponentHasEdge(g, sets[i].eventIds, x);
    assert Listed(sets', x);
    j :| 0 <= j < |sets'| && x in sets'[j].eventIds;
    ComponentsMeet(g, sets[i].eventIds, sets'[j].eventIds, x);
  }

  function Firsts(sets: seq<ConflictSet>): seq<Id>
    requires forall i :: 0 <= i < |sets| ==> |sets[i].eventIds| > 0
  {
    seq(|sets|, i requires 0 <= i < |sets| => sets[i].eventIds[0])
  }

  lemma FirstsIncluded(digest: Digest, g: Graph, sets: seq<ConflictSet>, sets': seq<ConflictSet>)
    requires ConflictListing(digest, g, sets) && ConflictListing(digest, g, sets')
    ensures Elements(Firsts(sets)) <= Elements(Firsts(sets'))
  {
    forall x | x in Firsts(sets)
      ensures x in Firsts(sets')
    {
      var i :| 0 <= i < |Firsts(sets)| && Firsts(sets)[i] == x;
      var j := ListingIncludes(digest, g, sets, sets', i);
      assert Firsts(sets')[j] == x;
    }
  }

  /** The listing depends on the graph alone, not on the order in which rows were met. */
  lemma ListingUnique(digest: Digest, g: Graph, sets: seq<ConflictSet>, sets': seq<ConflictSet>)
    requires ConflictListing(digest, g, sets) && ConflictListing(digest, g, sets')
    ensures sets == sets'
  {
    FirstsIncluded(digest, g, sets, sets');
    FirstsIncluded(digest, g, sets', sets);
    SortedUnique(Firsts(sets), Firsts(sets'));
    assert |sets| == |Firsts(sets)| == |sets'|;
    forall i | 0 <= i < |sets|
      ensures sets[i] == sets'[i]
    {
      var j := ListingIncludes(digest, g, sets, sets', i);
      assert Firsts(sets)[i] == Firsts(sets')[i] == Firsts(sets')[j];
    }
  }

  /** Sets of one listing share no row. */
  lemma ListingDisjoint(digest: Digest, g: Graph, sets: seq<ConflictSet>, i: nat, j: nat)
    requires ConflictListing(digest, g, sets) && i < j < |sets|
    ensures Elements(sets[i].eventIds) !! Elements(sets[j].eventIds)
  {
    forall x | x in sets[i].eventIds && x in sets[j].eventIds
      ensures false
    {
      ComponentsMeet(g, sets[i].eventIds, sets[j].eventIds, x);
    }
  }

  // ----- buildConflictSets -----

  /** The pairs already looked at: all with first index below i, and those of i with second below j. */
  ghost predicate Merged(g: Graph, rep: Id -> Id, ids: seq<Id>, i: int, j: int) {
    forall k, l :: 0 <= k < l < |ids| && (k < i || (k == i && l < j)) && Edge(g, ids[k], ids[l]) ==>
        rep(ids[k]) == rep(ids[l])
  }

  lemma PairStep(g: Graph, rep: Id -> Id, rep': Id -> Id, ids: seq<Id>, i: nat, j: nat)
    requires i < j < |ids| && StrictlySorted(ids) && Symmetric(g) && Sound(g, rep) && Merged(g, rep, ids, i, j)
    requires if Edge(g, ids[i], ids[j])
             then forall z :: rep'(z) == if rep(z) == rep(ids[i]) then rep(ids[j]) else rep(z)
             else rep' == rep
    ensures Sound(g, rep') && Merged(g, rep', ids, i, j + 1)
  {
    if Edge(g, ids[i], ids[j]) {
      UnionSound(g, rep, rep', ids[i], ids[j]);
    }
  }

  method UnionPairs(uf: UnionFind, P: Rows, desc: Descendants, ids: seq<Id>, i: nat)
    requires uf.Valid() && i < |ids| && Elements(ids) == P.Keys && StrictlySorted(ids)
    requires Sound(ConflictGraph(P, desc), uf.rep) && Merged(ConflictGraph(P, desc), uf.rep, ids, i, i + 1)
    modifies uf
    ensures uf.Valid()
    ensures Sound(ConflictGraph(P, desc), uf.rep) && Merged(ConflictGraph(P, desc), uf.rep, ids, i + 1, i + 2)
  {
    ghost var g := ConflictGraph(P, desc);
    ConflictSymmetric(P, desc);
    var j := i + 1;
    while j < |ids|
      invariant i < j <= |ids| && uf.Valid()
      invariant Sound(g, uf.rep) && Merged(g, uf.rep, ids, i, j)
    {
      assert ids[i] in Elements(ids) && ids[j] in Elements(ids);
      ghost var was := uf.rep;
      UnionIfConflict(uf, P, desc, ids[i], ids[j]);
      PairStep(g, was, uf.rep, ids, i, j);
      j := j + 1;
    }
    NextRow(g, uf.rep, ids, i);
  }

  lemma NextRow(g: Graph, rep: Id -> Id, ids: seq<Id>, i: nat)
    requires i < |ids| && Merged(g, rep, ids, i, |ids|)
    ensures Merged(g, rep, ids, i + 1, i + 2)
  {
  }

  method UnionIfConflict(uf: UnionFind, P: Rows, desc: Descendants, a: Id, b: Id)
    requires uf.Valid() && a in P && b in P
    modifies uf
    ensures uf.Valid()
    ensures if Edge(ConflictGraph(P, desc), a, b)
            then forall z :: uf.rep(z) == if old(uf.rep)(z) == old(uf.rep)(a) then old(uf.rep)(b) else old(uf.rep)(z)
            else uf.rep == old(uf.rep)
  {
    if !ConcurrentPair(desc, a, b) {
      return;
    }
    var overlap := PayloadsOverlap(P[a].payload, P[b].payload);
    if !overlap {
      return;
    }
    uf.Union(a, b);
  }

  lemma AllMerged(g: Graph, rep: Id -> Id, ids: seq<Id>)
    requires Symmetric(g) && Merged(g, rep, ids, |ids|, |ids| + 1)
    requires forall a, b :: Edge(g, a, b) ==> a in ids && b in ids
    ensures forall a, b :: Edge(g, a, b) ==> rep(a) == rep(b)
  {
    forall a, b | Edge(g, a, b)
      ensures rep(a) == rep(b)
    {
      var k :| 0 <= k < |ids| && ids[k] == a;
      var l :| 0 <= l < |ids| && ids[l] == b;
      if k < l {
        assert Edge(g, ids[k], ids[l]);
      } else if l < k {
        assert Edge(g, ids[l], ids[k]);
      }
    }
  }

  /** The listed ids with one representative. */
  ghost function Members(ids: seq<Id>, rep: Id -> Id, r: Id): (m: seq<Id>)
    ensures forall x :: x in m <==> x in ids && rep(x) == r
  {
    if |ids| == 0 then []
    else
      var last := ids[|ids| - 1];
      var rest := Members(ids[..|ids| - 1], rep, r);
      assert ids == ids[..|ids| - 1] + [last];
      if rep(last) == r then rest + [last] else rest
  }

  lemma {:induction false} MembersSorted(ids: seq<Id>, rep: Id -> Id, r: Id)
    requires StrictlySorted(ids)
    ensures StrictlySorted(Members(ids, rep, r))
  {
    if |ids| > 0 {
      MembersSorted(ids[..|ids| - 1], rep, r);
      var rest := Members(ids[..|ids| - 1], rep, r);
      forall i | 0 <= i < |rest|
        ensures rest[i] < ids[|ids| - 1]
      {
        assert rest[i] in rest;
      }
    }
  }

  /** Buckets by representative; `order` lists the representatives as they were first met. */
  ghost predicate Buckets(ids: seq<Id>, rep: Id -> Id, buckets: map<Id, seq<Id>>, order: seq<Id>) {
    && (forall r :: r in buckets <==> Members(ids, rep, r) != [])
    && (forall r :: r in buckets ==> buckets[r] == Members(ids, rep, r))
    && Elements(order) == buckets.Keys
    && forall i, j :: 0 <= i < j < |order| ==> order[i] != order[j]
  }

  method FillBuckets(uf: UnionFind, ids: seq<Id>) returns (buckets: map<Id, seq<Id>>, order: seq<Id>)
    requires uf.Valid()
    modifies uf`parent
    ensures uf.Valid() && Buckets(ids, uf.rep, buckets, order)
  {
    buckets, order := map[], [];
    for k := 0 to |ids|
      invariant uf.Valid() && Buckets(ids[..k], uf.rep, buckets, order)
    {
      var r := uf.Find(ids[k]);
      assert ids[..k + 1][..k] == ids[..k] && ids[..k + 1][k] == ids[k];
      if r !in buckets {
        assert r !in Elements(order);
        ElementsAppend(order, r);
        buckets, order := buckets[r := []], order + [r];
      }
      buckets := buckets[r := buckets[r] + [ids[k]]];
    }
    assert ids[..|ids|] == ids;
  }

  lemma BucketIsComponent(g: Graph, rep: Id -> Id, ids: seq<Id>, r: Id)
    requires Decides(g, rep) && StrictlySorted(ids) && |Members(ids, rep, r)| >= 2
    requires forall x, y :: x in ids && Connected(g, x, y) ==> y in ids
    ensures Component(g, Members(ids, rep, r))
  {
    var m := Members(ids, rep, r);
    MembersSorted(ids, rep, r);
    forall x, y
      ensures MemberAt(g, m, x, y)
    {
      assert DecidesAt(g, rep, x, y);
    }
  }

  function BucketSet(digest: Digest, m: seq<Id>): ConflictSet {
    ConflictSet(ConflictSetId(digest, m), m)
  }

  ghost predicate FromBucket(digest: Digest, ids: seq<Id>, rep: Id -> Id, r: Id, y: ConflictSet) {
    |Members(ids, rep, r)| >= 2 && y == BucketSet(digest, Members(ids, rep, r))
  }

  /** The sets pushed for the listed representatives: one per bucket of at least two ids. */
  ghost function SetsOf(digest: Digest, ids: seq<Id>, rep: Id -> Id, order: seq<Id>): (sets: seq<ConflictSet>)
    ensures forall y :: y in sets <==> exists r :: r in order && FromBucket(digest, ids, rep, r, y)
  {
    if |order| == 0 then []
    else
      var last := order[|order| - 1];
      var rest := SetsOf(digest, ids, rep, order[..|order| - 1]);
      assert forall r :: r in order <==> r in order[..|order| - 1] || r == last by {
        assert order == order[..|order| - 1] + [last];
      }
      var m := Members(ids, rep, last);
      if |m| >= 2 then
        var sets := rest + [BucketSet(digest, m)];
        assert forall y :: y in sets <==> y in rest || FromBucket(digest, ids, rep, last, y);
        sets
      else rest
  }

  /** The first ids belong to distinct listed classes. */
  ghost predicate FirstsApart(rep: Id -> Id, order: seq<Id>, sets: seq<ConflictSet>) {
    && NonEmpty(sets)
    && (forall i :: 0 <= i < |sets| ==> rep(sets[i].eventIds[0]) in order)
    && forall i, j :: 0 <= i < j < |sets| ==> sets[i].eventIds[0] != sets[j].eventIds[0]
  }

  lemma FirstsApartStep(rep: Id -> Id, order: seq<Id>, sets: seq<ConflictSet>, r: Id, s: ConflictSet)
    requires FirstsApart(rep, order, sets) && r !in order
    ensures FirstsApart(rep, order + [r], sets)
    ensures |s.eventIds| > 0 && rep(s.eventIds[0]) == r ==> FirstsApart(rep, order + [r], sets + [s])
  {
  }

  lemma FirstRep(ids: seq<Id>, rep: Id -> Id, r: Id)
    ensures |Members(ids, rep, r)| > 0 ==> rep(Members(ids, rep, r)[0]) == r
  {
    var m := Members(ids, rep, r);
    if |m| > 0 {
      assert m[0] in m;
    }
  }

  lemma {:induction false} SetsOfFirsts(digest: Digest, ids: seq<Id>, rep: Id -> Id, order: seq<Id>)
    requires forall i, j :: 0 <= i < j < |order| ==> order[i] != order[j]
    ensures FirstsApart(rep, order, SetsOf(digest, ids, rep, order))
  {
    if |order| > 0 {
      var init, last := order[..|order| - 1], order[|order| - 1];
      SetsOfFirsts(digest, ids, rep, init);
      assert order == init + [last];
      assert last !in init;
      FirstRep(ids, rep, last);
      FirstsApartStep(rep, init, SetsOf(digest, ids, rep, init), last, BucketSet(digest, Members(ids, rep, last)));
    }
  }

  ghost predicate FirstSorted(sets: seq<ConflictSet>)
    requires forall i :: 0 <= i < |sets| ==> |sets[i].eventIds| > 0
  {
    forall i, j :: 0 <= i < j < |sets| ==> sets[i].eventIds[0] < sets[j].eventIds[0]
  }

  predicate NonEmpty(sets: seq<ConflictSet>) {
    forall i :: 0 <= i < |sets| ==> |sets[i].eventIds| > 0
  }

  function InsertSet(x: ConflictSet, sets: seq<ConflictSet>): (r: seq<ConflictSet>)
    requires NonEmpty(sets) && |x.eventIds| > 0
    ensures NonEmpty(r) && forall y :: y in r <==> y == x || y in sets
  {
    if |sets| == 0 || x.eventIds[0] <= sets[0].eventIds[0] then [x] + sets
    else
      var rest := InsertSet(x, sets[1..]);
      assert forall y :: y in sets <==> y == sets[0] || y in sets[1..];
      [sets[0]] + rest
  }

  function SortSets(sets: seq<ConflictSet>): (r: seq<ConflictSet>)
    requires NonEmpty(sets)
    ensures NonEmpty(r) && forall y :: y in r <==> y in sets
  {
    if |sets| == 0 then []
    else
      assert forall y :: y in sets <==> y == sets[0] || y in sets[1..];
      InsertSet(sets[0], SortSets(sets[1..]))
  }

  lemma {:induction false} InsertSetSorted(x: ConflictSet, sets: seq<ConflictSet>)
    requires NonEmpty(sets) && |x.eventIds| > 0 && FirstSorted(sets)
    requires forall y :: y in sets ==> y.eventIds[0] != x.eventIds[0]
    ensures FirstSorted(InsertSet(x, sets))
  {
    if |sets| > 0 {
      assert sets[0] in sets;
      if x.eventIds[0] > sets[0].eventIds[0] {
        assert forall y :: y in sets[1..] ==> y in sets;
        InsertSetSorted(x, sets[1..]);
        var r := InsertSet(x, sets[1..]);
        forall j | 0 <= j < |r|
          ensures sets[0].eventIds[0] < r[j].eventIds[0]
        {
          assert r[j] in r;
        }
      }
    }
  }

  lemma {:induction false} SortSetsSorts(sets: seq<ConflictSet>)
    requires NonEmpty(sets)
    requires forall i, j :: 0 <= i < j < |sets| ==> sets[i].eventIds[0] != sets[j].eventIds[0]
    ensures FirstSorted(SortSets(sets))
  {
    if |sets| > 0 {
      SortSetsSorts(sets[1..]);
      InsertSetSorted(sets[0], SortSets(sets[1..]));
    }
  }

  lemma SortedListing(digest: Digest, g: Graph, rep: Id -> Id, order: seq<Id>, ids: seq<Id>)
    requires forall i, j :: 0 <= i < j < |order| ==> order[i] != order[j]
    requires forall r :: r in order && |Members(ids, rep, r)| >= 2 ==> Component(g, Members(ids, rep, r))
    requires forall a, b :: Edge(g, a, b) ==> EdgeListed(rep, order, ids, a, b)
    ensures NonEmpty(SetsOf(digest, ids, rep, order))
    ensures ConflictListing(digest, g, SortSets(SetsOf(digest, ids, rep, order)))
  {
    SetsOfFirsts(digest, ids, rep, order);
    var out := SetsOf(digest, ids, rep, order);
    SortSetsSorts(out);
    var sets := SortSets(out);
    forall i | 0 <= i < |sets|
      ensures Component(g, sets[i].eventIds) && sets[i].id == ConflictSetId(digest, sets[i].eventIds)
    {
      assert sets[i] in sets;
    }
    forall a, b | Edge(g, a, b)
      ensures Listed(sets, a)
    {
      assert EdgeListed(rep, order, ids, a, b);
      var m := Members(ids, rep, rep(a));
      assert a in m && b in m;
      assert |m| >= 2;
      assert FromBucket(digest, ids, rep, rep(a), BucketSet(digest, m));
      assert BucketSet(digest, m) in sets;
      var i :| 0 <= i < |sets| && sets[i] == BucketSet(digest, m);
    }
  }

  /** Both ends of an edge stand in one bucket. */
  ghost predicate EdgeListed(rep: Id -> Id, order: seq<Id>, ids: seq<Id>, a: Id, b: Id) {
    a in ids && b in ids && a != b && rep(a) == rep(b) && rep(a) in order
  }

  /** buildConflictSets returns exactly the connected components of size at least two of the
      concurrent-and-overlapping graph. */
  method BuildConflictSets(digest: Digest, events: seq<Row>, desc: Descendants) returns (sets: seq<ConflictSet>)
    ensures ConflictListing(digest, ConflictGraph(TableOf(events), desc), sets)
  {
    var P := TableOf(events);
    ghost var g := ConflictGraph(P, desc);
    ConflictSymmetric(P, desc);
    var ids := SortIds(P.Keys);
    FirstIsElement(ids);
    var uf := new UnionFind();
    for i := 0 to |ids|
      invariant uf.Valid() && Sound(g, uf.rep) && Merged(g, uf.rep, ids, i, i + 1)
    {
      UnionPairs(uf, P, desc, ids, i);
    }
    AllMerged(g, uf.rep, ids);
    RepresentativesAreComponents(g, uf.rep);
    var buckets, order := FillBuckets(uf, ids);
    sets := Collect(digest, g, uf.rep, buckets, order, ids);
  }

  method Collect(digest: Digest, ghost g: Graph, ghost rep: Id -> Id, buckets: map<Id, seq<Id>>, order: seq<Id>,
      ids: seq<Id>)
    returns (sets: seq<ConflictSet>)
    requires Buckets(ids, rep, buckets, order) && StrictlySorted(ids) && Decides(g, rep)
    requires forall a, b :: Edge(g, a, b) ==> a in ids && b in ids && a != b
    ensures ConflictListing(digest, g, sets)
  {
    var out: seq<ConflictSet> := [];
    for k := 0 to |order|
      invariant out == SetsOf(digest, ids, rep, order[..k])
    {
      assert order[k] in Elements(order);
      var members := buckets[order[k]];
      MembersSorted(ids, rep, order[k]);
      SortIdsOfSorted(members);
      var sorted := SortIds(Elements(members));
      assert order[..k + 1][..k] == order[..k] && order[..k + 1][k] == order[k];
      if |sorted| >= 2 {
        out := out + [ConflictSet(ConflictSetId(digest, sorted), sorted)];
      }
    }
    assert order[..|order|] == order;
    BucketsAreComponents(g, rep, buckets, order, ids);
    SortedListing(digest, g, rep, order, ids);
    sets := SortSets(out);
  }

  lemma BucketsAreComponents(g: Graph, rep: Id -> Id, buckets: map<Id, seq<Id>>, order: seq<Id>, ids: seq<Id>)
    requires Buckets(ids, rep, buckets, order) && StrictlySorted(ids) && Decides(g, rep)
    requires forall a, b :: Edge(g, a, b) ==> a in ids && b in ids && a != b
    ensures forall r :: r in order && |Members(ids, rep, r)| >= 2 ==> Component(g, Members(ids, rep, r))
    ensures forall a, b :: Edge(g, a, b) ==> EdgeListed(rep, order, ids, a, b)
  {
    ComponentsStay(g, ids);
    forall r | r in order && |Members(ids, rep, r)| >= 2
      ensures Component(g, Members(ids, rep, r))
    {
      BucketIsComponent(g, rep, ids, r);
    }
    forall a, b | Edge(g, a, b)
      ensures EdgeListed(rep, order, ids, a, b)
    {
      ReachEdge(g, a, b);
      assert DecidesAt(g, rep, a, b);
      assert a in Members(ids, rep, rep(a));
      assert rep(a) in Elements(order);
    }
  }

  lemma ComponentsStay(g: Graph, ids: seq<Id>)
    requires forall a, b :: Edge(g, a, b) ==> b in ids
    ensures forall x, y :: x in ids && Connected(g, x, y) ==> y in ids
  {
    forall x, y | x in ids && Connected(g, x, y)
      ensures y in ids
    {
      if x != y {
        var m := ReachLast(g, x, y);
      }
    }
  }
}
