/** Evaluation told in the parts of the raw events: how an operation object is read, and which event decides a key
    (src/distributed/state_engine.ts). */
module StateLaws {
  import opened Results
  import opened Ids
  import opened Json
  import opened EventModel
  import opened EventDag
  import opened StateRecords
  import opened StateEngine

  // ----- operation objects -----

  lemma {:induction false} PropertyFound(fields: seq<Field>, key: string, value: Json)
    requires DistinctKeys(fields)
    ensures value != Undefined ==> (Property(fields, key) == value <==> Field(key, value) in fields)
  {
    if |fields| > 0 {
      PropertyFound(fields[1..], key, value);
      assert forall f :: f in fields <==> f == fields[0] || f in fields[1..];
      if fields[0].key == key {
        forall f | f in fields[1..]
          ensures f.key != key
        {
          var i :| 0 <= i < |fields[1..]| && fields[1..][i] == f;
          assert fields[0].key != fields[i + 1].key;
        }
      }
    }
  }

  /** `{key: k, type: "delete"}`, whatever else it holds. */
  ghost predicate IsDelete(fields: seq<Field>, k: string) {
    k != "" && Field("key", Str(k)) in fields && Field("type", Str("delete")) in fields
  }

  /** `{key: k, type: "set", value: v}` with an admissible value. */
  ghost predicate IsSet(fields: seq<Field>, k: string, v: Json) {
    && k != "" && Field("key", Str(k)) in fields && Field("type", Str("set")) in fields
    && Field("value", v) in fields && PayloadOk(v)
  }

  lemma ReadsDelete(fields: seq<Field>, k: string)
    requires DistinctKeys(fields)
    ensures ReadOperation(Obj(fields)) == Some(DeleteOp(k)) <==> IsDelete(fields, k)
  {
    PropertyFound(fields, "key", Str(k));
    PropertyFound(fields, "type", Str("delete"));
  }

  lemma ReadsSet(fields: seq<Field>, k: string, v: Json)
    requires DistinctKeys(fields)
    ensures ReadOperation(Obj(fields)) == Some(SetOp(k, v)) <==>
              exists value :: IsSet(fields, k, value) && v == Canon(value)
  {
    PropertyFound(fields, "key", Str(k));
    PropertyFound(fields, "type", Str("set"));
    if ReadOperation(Obj(fields)) == Some(SetOp(k, v)) {
      var value := Property(fields, "value");
      PayloadIsDefined(value);
      PropertyFound(fields, "value", value);
      assert IsSet(fields, k, value);
    }
    if value :| IsSet(fields, k, value) && v == Canon(value) {
      PayloadIsDefined(value);
      PropertyFound(fields, "value", value);
    }
  }

  /** Raw operations are read from their properties: as a delete, as a set with the value canonicalised, or, where
      neither fits, not at all. */
  lemma ReadsExactly(raw: Json, op: Operation)
    requires Valid(raw)
    ensures ReadOperation(raw) == Some(op) <==>
              raw.Obj? && match op
                          case DeleteOp(k) => IsDelete(raw.fields, k)
                          case SetOp(k, v) => exists value :: IsSet(raw.fields, k, value) && v == Canon(value)
  {
    if raw.Obj? {
      match op
      case DeleteOp(k) => ReadsDelete(raw.fields, k);
      case SetOp(k, v) => ReadsSet(raw.fields, k, v);
    }
  }

  /** The event holds an operation object with these properties. */
  ghost predicate Deletes(e: Event, k: string) {
    && e.kind == "ir.state.op" && e.payload.Obj?
    && exists fields :: Field("op", Obj(fields)) in e.payload.fields && IsDelete(fields, k)
  }

  ghost predicate Sets(e: Event, k: string, v: Json) {
    && e.kind == "ir.state.op" && e.payload.Obj?
    && exists fields :: Field("op", Obj(fields)) in e.payload.fields && IsSet(fields, k, v)
  }

  ghost predicate Names(e: Event, k: string) {
    Deletes(e, k) || exists v :: Sets(e, k, v)
  }

  lemma ExtractsExactly(e: Event, op: Operation)
    requires FieldsOk(e)
    ensures ExtractOperation(e) == Some(op) <==>
              match op
              case DeleteOp(k) => Deletes(e, k)
              case SetOp(k, v) => exists value :: Sets(e, k, value) && v == Canon(value)
  {
    PayloadIsDefined(e.payload);
    if e.payload.Obj? && e.kind == "ir.state.op" {
      var fs := e.payload.fields;
      var raw := Property(fs, "op");
      PropertyFound(fs, "op", raw);
      forall fields | Field("op", Obj(fields)) in fs
        ensures raw == Obj(fields)
      {
        PropertyFound(fs, "op", Obj(fields));
      }
      if raw != Undefined {
        var i :| 0 <= i < |fs| && fs[i] == Field("op", raw);
        assert Valid(fs[i].value);
        ReadsExactly(raw, op);
      }
    }
  }

  // ----- which event decides a key -----

  /** Of the events that name the key, the deepest, and of these the one with the greatest id. */
  ghost predicate LastOn(E: Events, k: string, id: Id)
    requires Dag(E)
  {
    && id in E && Names(E[id], k)
    && forall j :: j in E && Names(E[j], k) && j != id ==>
        Depth(E, j) < Depth(E, id) || (Depth(E, j) == Depth(E, id) && j < id)
  }

  lemma NamesKey(E: Events, id: Id, k: string)
    requires StateOpsOnly(E) && id in E && FieldsOk(E[id])
    ensures Names(E[id], k) <==> OpOf(E, id).key == k
    ensures Deletes(E[id], k) <==> OpOf(E, id) == DeleteOp(k)
    ensures forall v :: Sets(E[id], k, v) ==> OpOf(E, id) == SetOp(k, Canon(v))
  {
    var op := OpOf(E, id);
    ExtractsExactly(E[id], op);
    ExtractsExactly(E[id], DeleteOp(k));
    forall v | Sets(E[id], k, v)
      ensures op == SetOp(k, Canon(v))
    {
      ExtractsExactly(E[id], SetOp(k, Canon(v)));
    }
  }

  lemma LastOnIsWriter(E: Events, k: string, id: Id)
    requires Dag(E) && StateOpsOnly(E) && (forall j :: j in E ==> FieldsOk(E[j])) && LastOn(E, k, id)
    ensures LastWriter(E, E.Keys, id, k)
  {
    NamesKey(E, id, k);
    forall j | j in E && j in E.Keys && OpOf(E, j).key == k && j != id
      ensures KeyLess(E, j, id)
    {
      NamesKey(E, j, k);
    }
  }

  /** A key whose last event deletes it is absent, one whose last event sets it holds the canonical value, and one
      that no event names is absent. */
  lemma LastDecides(E: Events, st: State, k: string, id: Id, v: Json)
    requires Dag(E) && (forall j :: j in E ==> FieldsOk(E[j])) && EvaluatesTo(E, Ok(st)) && k != "__proto__"
    ensures LastOn(E, k, id) && Deletes(E[id], k) ==> k !in st
    ensures LastOn(E, k, id) && Sets(E[id], k, v) ==> k in st && st[k] == Canon(v)
    ensures (forall j :: j in E ==> !Names(E[j], k)) ==> k !in st
  {
    assert KeyIsLww(E, E.Keys, st, k);
    if LastOn(E, k, id) {
      LastOnIsWriter(E, k, id);
      NamesKey(E, id, k);
      forall w | LastWriter(E, E.Keys, w, k)
        ensures w == id
      {
        LastWriterUnique(E, E.Keys, w, id, k);
      }
      assert Named(E, E.Keys, k);
    }
    if k in st && forall j :: j in E ==> !Names(E[j], k) {
      var w :| LastWriter(E, E.Keys, w, k) && OpOf(E, w) == SetOp(k, st[k]);
      NamesKey(E, w, k);
    }
  }

  // ----- the copy of a state -----

  /** Key k comes after `__proto__` in the order of quoted texts and is a property of the value that a copy finds
      read-only there. */
  ghost predicate ReadOnlyUnder(v: Json, k: string) {
    && StrLess(Quote("__proto__"), Quote(k))
    && ((v.Obj? && exists w :: Field(k, w) in v.fields) || (v.Arr? && k == "length"))
  }

  /** Freezing a record fails exactly when it holds such a key beside `__proto__`, and else drops that one key. */
  lemma FreezesExactly(base: State)
    ensures Frozen(base).Err? <==> "__proto__" in base && exists k :: k in base && ReadOnlyUnder(base["__proto__"], k)
    ensures Frozen(base).Ok? ==> Frozen(base).value == base - {"__proto__"}
  {
    forall k, v
      ensures Blocks(v, k) <==> ReadOnlyUnder(v, k)
    {
      if v.Obj? {
        if i :| 0 <= i < |v.fields| && v.fields[i].key == k {
          assert Field(k, v.fields[i].value) in v.fields;
        }
      }
    }
  }
}
