/** Small row sets for the limits of the merge: rows without references, stored under their derived ids. */
module ExampleRows {
  import opened Results
  import opened Ids
  import opened Digraph
  import opened Json
  import opened JsonTheory
  import opened CanonicalKeys
  import opened DistributedEvents
  import opened ConflictSets

  function Derive(digest: Digest, r: Row): Row {
    r.(id := DerivedId(digest, r))
  }

  function PlainRow(digest: Digest, node: Id, counter: nat, sequence: int, payload: Json): Row {
    Derive(digest, Row(0, node, LogicalTime(counter, node), sequence, "write", payload, [], [], None, None))
  }

  predicate Plain(r: Row) {
    r.kind != MERGE_RESOLVED && r.parents == [] && r.resolvedFrom == []
  }

  lemma PlainRowsApart(digest: Digest, a: Row, b: Row)
    requires EventModel.CollisionFree(digest) && CanonicalRow(a) && CanonicalRow(b)
    requires CanonicalJson(a.payload) && CanonicalJson(b.payload)
    requires a.id == DerivedId(digest, a) && b.id == DerivedId(digest, b)
    requires a.node != b.node || a.sequence != b.sequence
    ensures a.id != b.id
  {
    if a.id == b.id {
      DerivedIdInjective(digest, a, b);
    }
  }

  lemma PlainRowOk(digest: Digest, node: Id, counter: nat, sequence: int, payload: Json)
    requires CanonicalJson(payload)
    ensures var r := PlainRow(digest, node, counter, sequence, payload); CanonicalRow(r) && r.id == DerivedId(digest, r)
  {
    var r := PlainRow(digest, node, counter, sequence, payload);
    CanonFixpoint(payload);
    assert RowValues(None, r) == RowValues(None, r.(id := 0));
  }

  /** `{"k":null}` */
  function OneKey(k: string): Json {
    Obj([Field(k, Null)])
  }

  lemma OneKeyOk(k: string)
    requires |k| == 1
    ensures CanonicalJson(OneKey(k)) && k in Keys(OneKey(k))
  {
    var o := OneKey(k);
    assert o.fields[0].key == k && |PROTO| == 9;
  }

  const PAYLOAD_XY: Json := Obj([Field("x", Null), Field("y", Null)])

  lemma TwoKeysOk()
    ensures CanonicalJson(PAYLOAD_XY) && "x" in Keys(PAYLOAD_XY) && "y" in Keys(PAYLOAD_XY)
  {
    var fs := PAYLOAD_XY.fields;
    assert fs[0].key == "x" && fs[1].key == "y" && |PROTO| == 9;
    assert "x"[0] == 'x' && "y"[0] == 'y';
    assert KeysSorted(fs) && DistinctKeys(fs);
    assert IsNormal(PAYLOAD_XY) && NoProto(PAYLOAD_XY);
  }

  lemma CommonKey(v: Json, w: Json, k: string)
    requires k in Keys(v) && k in Keys(w)
    ensures Overlap(v, w)
  {
    assert k in Keys(v) * Keys(w);
  }

  function PairOf(a: Row, b: Row): seq<Id> {
    if a.id < b.id then [a.id, b.id] else [b.id, a.id]
  }

  /** Where two rows conflict with each other and nothing else does, they are the one component. */
  lemma PairIsComponent(g: Graph, a: Row, b: Row)
    requires a.id != b.id && forall x, y :: Edge(g, x, y) <==> IsPair(a, b, x, y)
    ensures Component(g, PairOf(a, b))
  {
    var s := PairOf(a, b);
    ReachEdge(g, a.id, b.id);
    ReachEdge(g, b.id, a.id);
    forall x, y
      ensures MemberAt(g, s, x, y)
    {
      if x in s && Connected(g, x, y) && x != y {
        var m := ReachLast(g, x, y);
      }
    }
  }

  ghost predicate IsPair(a: Row, b: Row, x: Id, y: Id) {
    (x == a.id && y == b.id) || (x == b.id && y == a.id)
  }
}
