/** The causal DAG told in the parts of its events: which are admitted, who wins a conflict, and in which order they
    are listed (src/distributed/event_model.ts, src/distributed/merge_algebra.ts, src/distributed/state_engine.ts). */
module EventLaws {
  import opened Results
  import opened Ids
  import opened Json
  import opened EventModel
  import opened EventDag
  import opened GraphSearch
  import opened Kahn

  // ----- admissible values -----

  /** The value at the end of a path of positions, of items or of members. */
  function At(v: Json, path: seq<nat>): Option<Json> {
    if |path| == 0 then Some(v)
    else
      match v
      case Arr(items) => if path[0] < |items| then At(items[path[0]], path[1..]) else None
      case Obj(fields) => if path[0] < |fields| then At(fields[path[0]].value, path[1..]) else None
      case _ => None
  }

  ghost predicate PartOk(v: Json) {
    && v != Undefined && !v.NonFinite?
    && (v.Obj? ==> forall f :: f in v.fields ==> f.key !in ["__proto__", "prototype", "constructor"])
  }

  ghost predicate AllPartsOk(v: Json) {
    forall path :: At(v, path).Some? ==> PartOk(At(v, path).value)
  }

  lemma {:induction false} PartsOfOk(v: Json, path: seq<nat>)
    requires PayloadOk(v) && At(v, path).Some?
    ensures PartOk(At(v, path).value)
    decreases |path|
  {
    if |path| == 0 {
      if v.Obj? {
        forall f | f in v.fields
          ensures f.key !in ["__proto__", "prototype", "constructor"]
        {
          var i :| 0 <= i < |v.fields| && v.fields[i] == f;
          assert !ForbiddenKey(v.fields[i].key);
        }
      }
    } else if v.Arr? {
      PartsOfOk(v.items[path[0]], path[1..]);
    } else {
      PartsOfOk(v.fields[path[0]].value, path[1..]);
    }
  }

  lemma {:induction false} OkOfParts(v: Json)
    requires Valid(v) && AllPartsOk(v)
    ensures PayloadOk(v)
  {
    assert At(v, []) == Some(v);
    match v
    case Arr(items) =>
      forall i | 0 <= i < |items|
        ensures PayloadOk(items[i])
      {
        forall path | At(items[i], path).Some?
          ensures PartOk(At(items[i], path).value)
        {
          assert ([i] + path)[1..] == path;
          assert At(v, [i] + path) == At(items[i], path);
        }
        OkOfParts(items[i]);
      }
    case Obj(fields) =>
      forall i | 0 <= i < |fields|
        ensures !ForbiddenKey(fields[i].key) && PayloadOk(fields[i].value)
      {
        assert fields[i] in fields;
        forall path | At(fields[i].value, path).Some?
          ensures PartOk(At(fields[i].value, path).value)
        {
          assert ([i] + path)[1..] == path;
          assert At(v, [i] + path) == At(fields[i].value, path);
        }
        OkOfParts(fields[i].value);
      }
    case _ =>
  }

  /** A value is admissible exactly when nothing in it is undefined or a non-finite number, and no property
      anywhere has one of the three names. */
  lemma PayloadOkExactly(v: Json)
    requires Valid(v)
    ensures PayloadOk(v) <==> AllPartsOk(v)
  {
    if PayloadOk(v) {
      forall path | At(v, path).Some?
        ensures PartOk(At(v, path).value)
      {
        PartsOfOk(v, path);
      }
    }
    if AllPartsOk(v) {
      OkOfParts(v);
    }
  }

  /** addEvent admits exactly the events with a type, no empty actor, an admissible payload, ascending parents among
      which the event is not, and the digest of its canonical text without id as id. */
  lemma AdmitsExactly(digest: Digest, e: Event)
    requires Valid(e.payload)
    ensures Admit(digest, e).Ok? <==>
              && e.kind != "" && e.actorId != Some("") && AllPartsOk(e.payload)
              && (forall i, j :: 0 <= i < j < |e.parents| ==> e.parents[i] < e.parents[j]) && e.id !in e.parents
              && e.id == ContentId(digest, e.(payload := Canon(e.payload)))
  {
    PayloadOkExactly(e.payload);
    AdmitExactly(digest, e);
  }

  // ----- winners and orders -----

  /** The event with the longer chain of parents behind it wins, of equal ones the one with the greater id. */
  lemma WinnerExactly(E: Events, a: Id, b: Id)
    requires Dag(E) && a in E && b in E
    ensures Winner(E, a, b) in {a, b}
    ensures Winner(E, a, b) == a <==> a == b || Depth(E, a) > Depth(E, b) || (Depth(E, a) == Depth(E, b) && a > b)
  {
  }

  /** Event y could be listed next: it is not listed, and all its parents are. */
  ghost predicate CouldFollow(E: Events, listed: seq<Id>, y: Id) {
    y in E && y !in listed && forall p :: p in E[y].parents ==> p in listed
  }

  /** What the three sorts take first among the events that could follow: the least id; the deepest, then the
      greatest id; the shallowest, then the least id. */
  ghost predicate TakenBefore(E: Events, policy: Policy, x: Id, y: Id)
    requires Dag(E) && x in E && y in E
  {
    match policy
    case ById => x < y
    case DeepestFirst => Depth(E, x) > Depth(E, y) || (Depth(E, x) == Depth(E, y) && x > y)
    case LosersFirst => Depth(E, x) < Depth(E, y) || (Depth(E, x) == Depth(E, y) && x < y)
  }

  /** Every listed event could follow those before it, and nothing else that could was to be taken before it. */
  lemma ListsExactly(E: Events, policy: Policy, out: seq<Id>, i: nat)
    requires Dag(E) && LinearExtension(E, out) && Greedy(E, policy, out) && i < |out|
    ensures CouldFollow(E, out[..i], out[i])
    ensures forall y :: CouldFollow(E, out[..i], y) && y != out[i] ==> TakenBefore(E, policy, out[i], y)
  {
    assert out[i] in Elements(out);
    assert LeastReady(E, policy, out[i], Elements(out[..i]));
    assert forall x :: x in out[..i] <==> x in Elements(out[..i]);
    forall y | CouldFollow(E, out[..i], y) && y != out[i]
      ensures TakenBefore(E, policy, out[i], y)
    {
      assert ReadyNow(E, y, Elements(out[..i]));
    }
  }
}
