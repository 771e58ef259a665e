/** What becomes of admissible operations that set __proto__ (src/distributed/state_engine.ts). */
module PrototypeWrites {
  import opened Results
  import opened Ids
  import opened Digraph
  import opened Json
  import opened JsonTheory
  import opened CanonicalKeys
  import opened EventModel
  import opened EventDag
  import opened StateRecords
  import opened StateEngine

  // ----- the event of a set -----

  /** The event of `set key = value`, in canonical form. */
  function SetEvent(digest: Digest, key: string, value: Json, parents: seq<Id>): Event {
    var e := Event(0, STATE_OP, Obj([Field("op", SetObject(key, value))]), parents, 0, None);
    e.(id := ContentId(digest, e))
  }

  function SetObject(key: string, value: Json): Json {
    Obj([Field("key", Str(key)), Field("type", Str("set")), Field("value", value)])
  }

  lemma SetObjectOk(key: string, value: Json)
    requires key != "" && CanonicalValue(value)
    ensures var op := SetObject(key, value);
      IsNormal(op) && PayloadOk(op) && ReadOperation(op) == Some(SetOp(key, value))
  {
    var op := SetObject(key, value);
    PayloadIsDefined(value);
    CanonFixpoint(value);
    assert op.fields[0].key == "key" && op.fields[1].key == "type" && op.fields[2].key == "value";
    assert "key"[0] == 'k' && "type"[0] == 't' && "value"[0] == 'v';
    assert Property(op.fields, "key") == Str(key);
    assert Property(op.fields[1..], "type") == Str("set") && Property(op.fields[2..], "value") == value;
    assert op.fields[1..][1..] == op.fields[2..];
    assert Property(op.fields, "type") == Str("set");
    assert Property(op.fields, "value") == value;
  }

  lemma SetEventOk(digest: Digest, key: string, value: Json, parents: seq<Id>)
    requires key != "" && CanonicalValue(value)
    ensures var e := SetEvent(digest, key, value, parents);
      FieldsOk(e) && Canon(e.payload) == e.payload && ExtractOperation(e) == Some(SetOp(key, value))
  {
    var e := SetEvent(digest, key, value, parents);
    SetObjectOk(key, value);
    assert e.payload.fields[0].key == "op" && |PROTO| == 9;
    assert IsNormal(e.payload) && PayloadOk(e.payload);
    PayloadIsDefined(e.payload);
    CanonFixpoint(e.payload);
    assert Property(e.payload.fields, "op") == SetObject(key, value);
  }

  /** addEvent admits it unless its digest is one of its parents. */
  lemma SetEventAdmitted(digest: Digest, key: string, value: Json, parents: seq<Id>)
    requires key != "" && CanonicalValue(value) && StrictlySorted(parents)
    ensures var e := SetEvent(digest, key, value, parents); e.id !in parents ==> Admit(digest, e) == Ok(e)
  {
    SetEventOk(digest, key, value, parents);
    AdmitExactly(digest, SetEvent(digest, key, value, parents));
  }

  // ----- the write is lost -----

  lemma SingleIsDag(e: Event)
    requires e.parents == []
    ensures Dag(map[e.id := e])
  {
    assert Falls(Parents(map[e.id := e]), (x: Id) => 0);
  }

  /** Whatever value the only event sets __proto__ to, it is admitted, the state stays empty, and last writer
      wins does not extend to that key. */
  lemma ProtoWriteIsLost(digest: Digest, value: Json, r: Result<State, StateError>)
    requires CanonicalValue(value)
    ensures var e := SetEvent(digest, PROTO, value, []); var E := map[e.id := e];
      && Admit(digest, e) == Ok(e) && Dag(E) && StateOpsOnly(E)
      && (EvaluatesTo(E, r) ==> r == Ok(map[]) && !IsLww(E, E.Keys, map[]))
  {
    var e := SetEvent(digest, PROTO, value, []);
    assert PROTO != "";
    SetEventOk(digest, PROTO, value, []);
    SetEventAdmitted(digest, PROTO, value, []);
    SingleIsLost(e, r);
  }

  lemma SingleIsLost(e: Event, r: Result<State, StateError>)
    requires e.parents == []
    requires ExtractOperation(e).Some? && ExtractOperation(e).value.SetOp? && ExtractOperation(e).value.key == PROTO
    ensures var E := map[e.id := e];
      Dag(E) && StateOpsOnly(E) && (EvaluatesTo(E, r) ==> r == Ok(map[]) && !IsLww(E, E.Keys, map[]))
  {
    var E := map[e.id := e];
    SingleIsDag(e);
    OnlyProto(E, e.id);
    if EvaluatesTo(E, r) {
      OutcomeUnique(E, r, Ok(map[]));
    }
  }

  lemma OnlyProto(E: Events, id: Id)
    requires Dag(E) && StateOpsOnly(E) && E.Keys == {id} && OpOf(E, id).SetOp? && OpOf(E, id).key == PROTO
    ensures EvaluatesTo(E, Ok(map[])) && !IsLww(E, E.Keys, map[])
  {
    assert forall k :: k != PROTO ==> !Named(E, E.Keys, k);
    assert Evaluated(E, E.Keys, map[]);
    OnlyProtoPasses(E, id);
    assert LastWriter(E, E.Keys, id, PROTO);
    LwwExactly(E, E.Keys, map[]);
  }

  lemma OnlyProtoPasses(E: Events, id: Id)
    requires Dag(E) && StateOpsOnly(E) && E.Keys == {id} && OpOf(E, id).SetOp? && OpOf(E, id).key == PROTO
    ensures Tripless(E)
  {
    KeyBeforeStrict(PROTO, PROTO, PROTO);
    forall x, k | x in E && Blocks(OpOf(E, x).value, k)
      ensures !Held(E, Past(E, x), k)
    {
      assert k != PROTO;
    }
  }

  // ----- the write fails -----

  lemma PairIsDag(a: Event, b: Event)
    requires a.id != b.id && a.parents == [] && b.parents == [a.id]
    ensures Dag(map[a.id := a, b.id := b])
  {
    assert Falls(Parents(map[a.id := a, b.id := b]), (x: Id) => if x == b.id then 1 else 0);
  }

  lemma ParentsApart(digest: Digest, a: Event, b: Event)
    requires CollisionFree(digest) && FieldsOk(a) && FieldsOk(b) && a.parents != b.parents
    requires a.id == ContentId(digest, a) && b.id == ContentId(digest, b)
    ensures a.id != b.id
  {
    if a.id == b.id {
      TextDecides("", a, "", b);
    }
  }

  /** A set on __proto__ right after the only write of a blocking key. */
  lemma ChildTrips(E: Events, a: Id, b: Id, k: string)
    requires Dag(E) && StateOpsOnly(E) && E.Keys == {a, b} && a != b && E[b].parents == [a]
    requires OpOf(E, a).SetOp? && OpOf(E, a).key == k
    requires OpOf(E, b).SetOp? && OpOf(E, b).key == PROTO && Blocks(OpOf(E, b).value, k)
    ensures TripsAt(E, b)
  {
    ParentDepth(E, b, a);
    assert Past(E, b) == {a};
    assert LastWriter(E, Past(E, b), a, k);
    assert Held(E, Past(E, b), k);
  }

  lemma PairTrips(a: Event, b: Event, key: string)
    requires a.id != b.id && a.parents == [] && b.parents == [a.id]
    requires ExtractOperation(a).Some? && ExtractOperation(a).value.SetOp? && ExtractOperation(a).value.key == key
    requires ExtractOperation(b).Some? && ExtractOperation(b).value.SetOp? && ExtractOperation(b).value.key == PROTO
    requires Blocks(ExtractOperation(b).value.value, key)
    ensures var E := map[a.id := a, b.id := b]; Dag(E) && StateOpsOnly(E) && TripsAt(E, b.id)
  {
    var E := map[a.id := a, b.id := b];
    PairIsDag(a, b);
    assert E.Keys == {a.id, b.id};
    ChildTrips(E, a.id, b.id, key);
  }

  lemma PairAdmitted(digest: Digest, key: string, x: Json, value: Json)
    requires CollisionFree(digest) && key != "" && CanonicalValue(x) && CanonicalValue(value)
    ensures var a := SetEvent(digest, key, x, []);
      var b := SetEvent(digest, PROTO, value, [a.id]);
      a.id != b.id && Admit(digest, a) == Ok(a) && Admit(digest, b) == Ok(b)
  {
    var a := SetEvent(digest, key, x, []);
    var b := SetEvent(digest, PROTO, value, [a.id]);
    assert PROTO != "";
    SetEventOk(digest, key, x, []);
    SetEventOk(digest, PROTO, value, [a.id]);
    ParentsApart(digest, a, b);
    SetEventAdmitted(digest, key, x, []);
    SetEventAdmitted(digest, PROTO, value, [a.id]);
  }

  /** Both events are admitted, and the graph of the two fails to evaluate on a read-only property. */
  ghost predicate AdmittedYetFails(digest: Digest, a: Event, b: Event, r: Result<State, StateError>) {
    var E := map[a.id := a, b.id := b];
    && Admit(digest, a) == Ok(a) && Admit(digest, b) == Ok(b)
    && Dag(E) && StateOpsOnly(E)
    && (EvaluatesTo(E, r) ==> r == Err(ReadOnlyProperty))
  }

  /** Two admissible events, a set and after it a set of __proto__ to a value that blocks its key: evaluation
      fails, because the copy of the second step meets a read-only property. */
  lemma ProtoWriteTrips(digest: Digest, key: string, x: Json, value: Json, r: Result<State, StateError>)
    requires CollisionFree(digest) && key != "" && CanonicalValue(x) && CanonicalValue(value) && Blocks(value, key)
    ensures var a := SetEvent(digest, key, x, []);
      AdmittedYetFails(digest, a, SetEvent(digest, PROTO, value, [a.id]), r)
  {
    var a := SetEvent(digest, key, x, []);
    var b := SetEvent(digest, PROTO, value, [a.id]);
    assert PROTO != "";
    PairAdmitted(digest, key, x, value);
    SetEventOk(digest, key, x, []);
    SetEventOk(digest, PROTO, value, [a.id]);
    PairTrips(a, b, key);
  }

  lemma OneFieldOk(k: string, v: Json)
    requires |k| == 1 && CanonicalValue(v)
    ensures CanonicalValue(Obj([Field(k, v)]))
  {
    var o := Obj([Field(k, v)]);
    PayloadIsDefined(v);
    CanonFixpoint(v);
    assert |o.fields[0].key| == 1 && |PROTO| == 9 && |"prototype"| == 9 && |"constructor"| == 11;
    assert IsNormal(o) && PayloadOk(o);
    PayloadIsDefined(o);
    CanonFixpoint(o);
  }

  lemma ZIsLater()
    ensures KeyBefore(PROTO, "z")
  {
    QuoteHead("z");
    QuoteHead(PROTO);
  }

  /** For instance `set z = 1`, then `set __proto__ = {"z":2}`. */
  lemma ProtoWriteTripsExample(digest: Digest, r: Result<State, StateError>)
    requires CollisionFree(digest)
    ensures var a := SetEvent(digest, "z", Num("1"), []);
      AdmittedYetFails(digest, a, SetEvent(digest, PROTO, Obj([Field("z", Num("2"))]), [a.id]), r)
  {
    var value := Obj([Field("z", Num("2"))]);
    OneFieldOk("z", Num("2"));
    ZIsLater();
    assert value.fields[0].key == "z";
    ProtoWriteTrips(digest, "z", Num("1"), value, r);
  }
}
