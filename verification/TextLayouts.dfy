/** What an independent reader finds in the texts identifiers are taken from: the names and contents of their members
    (src/distributed/event_model.ts, src/distributed/event_serialization.ts, src/distributed/event_identity.ts). */
module TextLayouts {
  import opened Results
  import opened Ids
  import opened Json
  import opened JsonTheory
  import opened JsonReader
  import opened CanonicalKeys
  import opened EventModel
  import Rows = DistributedEvents
  import Sets = ConflictSets

  // ----- integers -----

  /** Decimal notation. */
  function DecimalValue(digits: string): int {
    if |digits| == 0 then 0
    else DecimalValue(digits[..|digits| - 1]) * 10 + (digits[|digits| - 1] as int - '0' as int)
  }

  function IntValue(token: string): int {
    if |token| > 0 && token[0] == '-' then -DecimalValue(token[1..]) else DecimalValue(token)
  }

  lemma {:induction false} DigitsRead(n: nat)
    ensures DecimalValue(Digits(n)) == n
  {
    LastDigit(n);
    if n >= 10 {
      DigitsRead(n / 10);
    } else {
      assert Digits(n)[..0] == "";
    }
  }

  lemma IntTextReads(n: int)
    ensures IntValue(IntText(n)) == n
  {
    var p: nat := if n < 0 then -n else n;
    DigitsRead(p);
    DecimalDigits(p);
    SignReads(Digits(p), p);
  }

  lemma SignReads(digits: string, p: int)
    requires |digits| > 0 && digits[0] != '-' && DecimalValue(digits) == p
    ensures IntValue(digits) == p && IntValue("-" + digits) == -p
  {
    assert ("-" + digits)[0] == '-' && ("-" + digits)[1..] == digits;
  }

  // ----- objects -----

  /** The members a reader finds are the defined ones of the object. */
  ghost predicate FoundIn(fs: seq<Field>, fields: seq<Field>) {
    forall x :: x in fields <==> exists f :: f in fs && f.value != Undefined && x == Field(f.key, Shown(f.value))
  }

  /** A printed object reads as its defined members, each with what its value shows, sorted by name. */
  lemma ObjectReads(fs: seq<Field>)
    requires Valid(Obj(fs))
    ensures ReadText(Stringify(Obj(fs)), true) == Some(Shown(Obj(fs))) && Shown(Obj(fs)).Obj?
    ensures KeysSorted(Shown(Obj(fs)).fields)
    ensures FoundIn(fs, Shown(Obj(fs)).fields)
  {
    var v := Obj(fs);
    PrintedReads(v);
    ShownPrints(v);
    forall x
      ensures x in Shown(v).fields <==> exists f :: f in fs && f.value != Undefined && x == Field(f.key, Shown(f.value))
    {
      MemberShown(fs, x);
    }
  }

  lemma MemberShown(fs: seq<Field>, x: Field)
    ensures x in Shown(Obj(fs)).fields <==>
              exists f :: f in fs && f.value != Undefined && x == Field(f.key, Shown(f.value))
  {
    var p := Printed(Obj(fs));
    var ps := p.fields;
    assert x in Normal(p).fields <==> x in NormalFields(p, ps);
    if x in NormalFields(p, ps) {
      var g :| g in ps && g.value != Undefined && x == Field(g.key, Normal(g.value));
      var i :| 0 <= i < |ps| && ps[i] == g;
      PrintedFixpoint(fs[i].value);
      assert fs[i] in fs;
    }
    if f :| f in fs && f.value != Undefined && x == Field(f.key, Shown(f.value)) {
      var i :| 0 <= i < |fs| && fs[i] == f;
      PrintedFixpoint(f.value);
      assert ps[i] in ps;
    }
  }

  lemma {:induction false} PayloadNoHoles(v: Json)
    requires PayloadOk(v)
    ensures NoHoles(v)
  {
    match v
    case Arr(items) =>
      forall i | 0 <= i < |items|
        ensures items[i] != Undefined && NoHoles(items[i])
      {
        PayloadNoHoles(items[i]);
      }
    case Obj(fields) =>
      forall i | 0 <= i < |fields|
        ensures NoHoles(fields[i].value)
      {
        PayloadNoHoles(fields[i].value);
      }
    case _ =>
  }

  // ----- events -----

  /** The members of an event's object, by name. */
  ghost predicate EventMembers(id: string, e: Event, fields: seq<Field>) {
    && KeysSorted(fields)
    && Field("id", Str(id)) in fields
    && Field("type", Str(e.kind)) in fields
    && Field("payload", Canon(e.payload)) in fields
    && (exists items :: Field("parents", Arr(items)) in fields && IdList(items, e.parents))
    && (exists token :: Field("timestampLogical", Num(token)) in fields && IntValue(token) == e.timestampLogical)
    && (e.actorId.Some? ==> Field("actorId", Str(e.actorId.value)) in fields)
    && forall f :: f in fields ==> EventName(f.key, e.actorId.Some?)
  }

  predicate EventName(key: string, actor: bool) {
    key in ["id", "type", "payload", "parents", "timestampLogical"] || (key == "actorId" && actor)
  }

  ghost predicate IdList(items: seq<Json>, ids: seq<Id>) {
    |items| == |ids| && forall i :: 0 <= i < |ids| ==> items[i] == Str(IdText(ids[i]))
  }

  /** An event's text is a text of the standard's grammar with exactly these members; its content id is the digest
      of the text with an empty id. */
  lemma EventReads(id: string, e: Event)
    requires FieldsOk(e)
    ensures exists fields ::
              ReadText(Stringify(EventJson(id, e)), false) == Some(Obj(fields)) && EventMembers(id, e, fields)
  {
    var v := EventJson(id, e);
    EventJsonOk(id, e);
    ObjectReads(v.fields);
    EventNoHoles(id, e);
    PrintedReads(v);
    EventFields(id, e, Shown(v).fields);
  }

  ghost predicate TextOfEvent(text: string, id: string, e: Event) {
    exists fields :: ReadText(text, false) == Some(Obj(fields)) && EventMembers(id, e, fields)
  }

  lemma ContentIdReads(digest: Digest, e: Event)
    requires FieldsOk(e)
    ensures TextOfEvent(EventText(e), IdText(e.id), e)
    ensures exists text :: ContentId(digest, e) == digest(text) && TextOfEvent(text, "", e)
  {
    EventReads(IdText(e.id), e);
    EventReads("", e);
    assert TextOfEvent(Stringify(EventJson("", e)), "", e);
  }

  lemma EventNoHoles(id: string, e: Event)
    requires FieldsOk(e)
    ensures NoHoles(Shown(EventJson(id, e)))
  {
    PayloadNoHoles(e.payload);
    PrintedNoHoles(EventJson(id, e));
    NormalNoHoles(Printed(EventJson(id, e)));
  }

  lemma MemberFound(fs: seq<Field>, fields: seq<Field>, i: nat, value: Json)
    requires FoundIn(fs, fields) && i < |fs| && fs[i].value != Undefined && Shown(fs[i].value) == value
    ensures Field(fs[i].key, value) in fields
  {
    assert fs[i] in fs;
  }

  lemma FoundKeys(fs: seq<Field>, fields: seq<Field>, f: Field) returns (i: nat)
    requires FoundIn(fs, fields) && f in fields
    ensures i < |fs| && f.key == fs[i].key && fs[i].value != Undefined
  {
    var g :| g in fs && g.value != Undefined && f == Field(g.key, Shown(g.value));
    i :| 0 <= i < |fs| && fs[i] == g;
  }

  lemma EventFields(id: string, e: Event, fields: seq<Field>)
    requires FieldsOk(e) && KeysSorted(fields) && FoundIn(EventJson(id, e).fields, fields)
    ensures EventMembers(id, e, fields)
  {
    PlainMembers(id, e, fields);
    PayloadMember(id, e, fields);
    ParentsMember(id, e, fields);
    TimestampMember(id, e, fields);
    forall f | f in fields
      ensures EventName(f.key, e.actorId.Some?)
    {
      EventKey(id, e, fields, f);
    }
  }

  lemma PlainMembers(id: string, e: Event, fields: seq<Field>)
    requires FieldsOk(e) && FoundIn(EventJson(id, e).fields, fields)
    ensures Field("id", Str(id)) in fields && Field("type", Str(e.kind)) in fields
    ensures e.actorId.Some? ==> Field("actorId", Str(e.actorId.value)) in fields
  {
    var fs := EventJson(id, e).fields;
    MemberFound(fs, fields, 0, Str(id));
    MemberFound(fs, fields, 1, Str(e.kind));
    if e.actorId.Some? {
      MemberFound(fs, fields, 5, Str(e.actorId.value));
    }
  }

  lemma PayloadMember(id: string, e: Event, fields: seq<Field>)
    requires FieldsOk(e) && FoundIn(EventJson(id, e).fields, fields)
    ensures Field("payload", Canon(e.payload)) in fields
  {
    PayloadShown(e.payload);
    MemberFound(EventJson(id, e).fields, fields, 2, Canon(e.payload));
  }

  lemma ParentsMember(id: string, e: Event, fields: seq<Field>)
    requires FoundIn(EventJson(id, e).fields, fields)
    ensures exists items :: Field("parents", Arr(items)) in fields && IdList(items, e.parents)
  {
    ItemsShown(e.parents);
    MemberFound(EventJson(id, e).fields, fields, 3, Arr(ParentItems(e.parents)));
    assert IdList(ParentItems(e.parents), e.parents);
  }

  lemma TimestampMember(id: string, e: Event, fields: seq<Field>)
    requires FoundIn(EventJson(id, e).fields, fields)
    ensures exists token :: Field("timestampLogical", Num(token)) in fields && IntValue(token) == e.timestampLogical
  {
    IntTextReads(e.timestampLogical);
    MemberFound(EventJson(id, e).fields, fields, 4, Num(IntText(e.timestampLogical)));
  }

  lemma EventKey(id: string, e: Event, fields: seq<Field>, f: Field)
    requires FoundIn(EventJson(id, e).fields, fields) && f in fields
    ensures EventName(f.key, e.actorId.Some?)
  {
    var i := FoundKeys(EventJson(id, e).fields, fields, f);
  }

  lemma PayloadShown(v: Json)
    requires PayloadOk(v)
    ensures v != Undefined && Shown(v) == Canon(v)
  {
    PayloadIsDefined(v);
    CanonPlain(v);
    ShownLossless(v);
  }

  lemma ItemsShown(ids: seq<Id>)
    ensures Shown(Arr(ParentItems(ids))) == Arr(ParentItems(ids))
  {
    var items := ParentItems(ids);
    assert |items| == 1 ==> items[0] != Undefined;
    assert items != [Undefined];
    assert Printed(Arr(items)).items == items;
    assert Normal(Arr(items)).items == items;
  }

  // ----- rows -----

  ghost predicate IntShown(n: int, v: Json) {
    v.Num? && IntValue(v.token) == n
  }

  ghost predicate IdsShown(ids: seq<Id>, v: Json) {
    v.Arr? && IdList(v.items, ids)
  }

  ghost predicate TimeShown(t: Rows.LogicalTime, v: Json) {
    && v.Obj? && Field("nodeId", Str(IdText(t.node))) in v.fields
    && exists c :: Field("counter", c) in v.fields && IntShown(t.counter, c)
  }

  ghost predicate PolicyShown(p: Rows.MergePolicy, v: Json) {
    match p
    case Legacy(name) => v == Str(name)
    case Decision(kind, winner, participants) =>
      && v.Obj? && Field("type", Str(kind)) in v.fields && Field("winner", Str(IdText(winner))) in v.fields
      && exists ids :: Field("participants", ids) in v.fields && IdsShown(participants, ids)
  }

  /** The members of a row's object that hold one plain value. */
  ghost predicate RowPlain(id: Option<Id>, r: Rows.Row, fields: seq<Field>) {
    && (id.Some? ==> Field("eventId", Str(IdText(id.value))) in fields)
    && Field("nodeId", Str(IdText(r.node))) in fields
    && Field("type", Str(r.kind)) in fields
    && (exists n :: Field("sequence", n) in fields && IntShown(r.sequence, n))
    && (r.conflictSet.Some? ==> Field("conflictSetId", Str(IdText(r.conflictSet.value))) in fields)
    && (Canon(r.payload) != Undefined ==> Field("payload", Rows.ShownPayload(r)) in fields)
  }

  ghost predicate HasTime(fields: seq<Field>, t: Rows.LogicalTime) {
    exists v :: Field("logicalTime", v) in fields && TimeShown(t, v)
  }

  ghost predicate HasPolicy(fields: seq<Field>, p: Rows.MergePolicy) {
    exists v :: Field("mergePolicy", v) in fields && PolicyShown(p, v)
  }

  ghost predicate HasIds(fields: seq<Field>, name: string, ids: seq<Id>) {
    exists v :: Field(name, v) in fields && IdsShown(ids, v)
  }

  /** Those that hold lists or objects. */
  ghost predicate RowNested(r: Rows.Row, fields: seq<Field>) {
    && HasTime(fields, r.time)
    && (r.parents != [] ==> HasIds(fields, "parentEventIds", r.parents))
    && (r.resolvedFrom != [] ==> HasIds(fields, "resolvedFrom", r.resolvedFrom))
    && (r.policy.Some? ==> HasPolicy(fields, r.policy.value))
  }

  /** The member is there only when the row has something to tell. */
  predicate RowName(id: Option<Id>, r: Rows.Row, key: string) {
    || key in ["nodeId", "type", "sequence", "logicalTime", "payload"]
    || (key == "eventId" && id.Some?) || (key == "conflictSetId" && r.conflictSet.Some?)
    || (key == "parentEventIds" && r.parents != []) || (key == "resolvedFrom" && r.resolvedFrom != [])
    || (key == "mergePolicy" && r.policy.Some?)
  }

  ghost predicate RowMembers(id: Option<Id>, r: Rows.Row, fields: seq<Field>) {
    && KeysSorted(fields) && RowPlain(id, r, fields) && RowNested(r, fields)
    && forall f :: f in fields ==> RowName(id, r, f.key)
  }

  /** A row's text reads as an object with exactly these members, and the text its id is derived from as the same
      without the id; only array items left undefined in the payload are no part of the standard's grammar. */
  lemma RowReads(id: Option<Id>, r: Rows.Row)
    requires Valid(r.payload)
    ensures exists fields ::
              ReadText(Stringify(Rows.RowJson(id, r)), true) == Some(Obj(fields)) && RowMembers(id, r, fields)
  {
    var values := Rows.RowValues(id, r);
    var fs := Rows.Record(values);
    Rows.RowValuesOk(id, r);
    Rows.RecordOk(values);
    ObjectReads(fs);
    var fields := Shown(Obj(fs)).fields;
    RowPlainFound(id, r, fields);
    RowNestedFound(id, r, fields);
    forall f | f in fields
      ensures RowName(id, r, f.key)
    {
      RowKey(id, r, fields, f);
    }
    assert RowMembers(id, r, fields);
  }

  /** The text is that of a row with these members. */
  ghost predicate TextOfRow(text: string, id: Option<Id>, r: Rows.Row) {
    exists fields :: ReadText(text, true) == Some(Obj(fields)) && RowMembers(id, r, fields)
  }

  /** A derived id is the digest of such a text without the id. */
  lemma DerivedIdReads(digest: Digest, r: Rows.Row)
    requires Valid(r.payload)
    ensures TextOfRow(Rows.RowText(r), Some(r.id), r)
    ensures exists text :: Rows.DerivedId(digest, r) == digest(text) && TextOfRow(text, None, r)
  {
    RowReads(Some(r.id), r);
    RowReads(None, r);
    assert TextOfRow(Stringify(Rows.RowJson(None, r)), None, r);
  }

  /** A conflict set's id is the digest of `{"eventIds":[...]}` with its ids in ascending order. */
  lemma ConflictSetIdReads(digest: Digest, ids: seq<Id>)
    ensures exists text, list ::
              && Sets.ConflictSetId(digest, ids) == digest(text)
              && ReadText(text, false) == Some(Obj([Field("eventIds", list)]))
              && IdsShown(SortList(ids), list)
  {
    SortListSorts(ids);
    var list := Rows.IdItems(SortList(ids));
    Rows.IdItemsOk(SortList(ids));
    SingleReads("eventIds", list);
    assert IdsShown(SortList(ids), list);
  }

  lemma SingleReads(key: string, v: Json)
    requires GoodItem(v) && v != Undefined && NoHoles(v)
    ensures ReadText(Stringify(Obj([Field(key, v)])), false) == Some(Obj([Field(key, v)]))
  {
    var o := Obj([Field(key, v)]);
    PrintedFixpoint(o);
    NormalFixpoint(o);
    PrintedReads(o);
  }

  ghost predicate RowFound(id: Option<Id>, r: Rows.Row, fields: seq<Field>) {
    FoundIn(Rows.Record(Rows.RowValues(id, r)), fields)
  }

  /** Slot i of the row's object. */
  lemma RowSlot(id: Option<Id>, r: Rows.Row, fields: seq<Field>, i: nat)
    requires RowFound(id, r, fields) && i < 10 && Rows.RowValues(id, r)[i] != Undefined
    ensures Field(Rows.ROW_KEYS[i], Shown(Rows.RowValues(id, r)[i])) in fields
  {
    var fs := Rows.Record(Rows.RowValues(id, r));
    assert fs[i] in fs;
  }

  lemma RowPlainFound(id: Option<Id>, r: Rows.Row, fields: seq<Field>)
    requires Valid(r.payload) && RowFound(id, r, fields)
    ensures RowPlain(id, r, fields)
  {
    if id.Some? {
      RowSlot(id, r, fields, 0);
    }
    RowSlot(id, r, fields, 2);
    if r.conflictSet.Some? {
      RowSlot(id, r, fields, 6);
    }
    if Canon(r.payload) != Undefined {
      RowSlot(id, r, fields, 7);
      Rows.PayloadSlot(r);
    }
    RowSlot(id, r, fields, 8);
    IntTextReads(r.sequence);
    RowSlot(id, r, fields, 9);
  }

  lemma RowNestedFound(id: Option<Id>, r: Rows.Row, fields: seq<Field>)
    requires RowFound(id, r, fields)
    ensures RowNested(r, fields)
  {
    RowTime(id, r, fields);
    RowParents(id, r, fields);
    RowSources(id, r, fields);
    if r.policy.Some? {
      RowPolicy(id, r, fields);
    }
  }

  lemma RowTime(id: Option<Id>, r: Rows.Row, fields: seq<Field>)
    requires RowFound(id, r, fields)
    ensures HasTime(fields, r.time)
  {
    RowSlot(id, r, fields, 1);
    TimeReads(r.time);
  }

  lemma RowParents(id: Option<Id>, r: Rows.Row, fields: seq<Field>)
    requires RowFound(id, r, fields)
    ensures r.parents != [] ==> HasIds(fields, "parentEventIds", r.parents)
  {
    if r.parents != [] {
      RowIds(id, r, fields, 3, r.parents);
    }
  }

  lemma RowSources(id: Option<Id>, r: Rows.Row, fields: seq<Field>)
    requires RowFound(id, r, fields)
    ensures r.resolvedFrom != [] ==> HasIds(fields, "resolvedFrom", r.resolvedFrom)
  {
    if r.resolvedFrom != [] {
      RowIds(id, r, fields, 4, r.resolvedFrom);
    }
  }

  lemma RowIds(id: Option<Id>, r: Rows.Row, fields: seq<Field>, i: nat, ids: seq<Id>)
    requires RowFound(id, r, fields) && i < 10 && Rows.RowValues(id, r)[i] == Rows.IdItems(ids)
    ensures HasIds(fields, Rows.ROW_KEYS[i], ids)
  {
    RowSlot(id, r, fields, i);
    IdsRead(ids);
  }

  lemma RowPolicy(id: Option<Id>, r: Rows.Row, fields: seq<Field>)
    requires RowFound(id, r, fields) && r.policy.Some?
    ensures HasPolicy(fields, r.policy.value)
  {
    RowSlot(id, r, fields, 5);
    PolicyReads(r.policy.value);
  }

  lemma IdsRead(ids: seq<Id>)
    ensures IdsShown(ids, Shown(Rows.IdItems(ids)))
  {
    ItemsShown(ids);
  }

  lemma TimeReads(t: Rows.LogicalTime)
    ensures TimeShown(t, Shown(Rows.TimeJson(t)))
  {
    var fs := Rows.TimeJson(t).fields;
    var fields := Shown(Obj(fs)).fields;
    forall x
      ensures x in fields <==> exists f :: f in fs && f.value != Undefined && x == Field(f.key, Shown(f.value))
    {
      MemberShown(fs, x);
    }
    IntTextReads(t.counter);
    MemberFound(fs, fields, 0, Num(IntText(t.counter)));
    MemberFound(fs, fields, 1, Str(IdText(t.node)));
    assert IntShown(t.counter, Num(IntText(t.counter)));
  }

  lemma PolicyReads(p: Rows.MergePolicy)
    ensures PolicyShown(p, Shown(Rows.PolicyJson(p)))
  {
    if p.Decision? {
      var fs := Rows.PolicyJson(p).fields;
      var fields := Shown(Obj(fs)).fields;
      forall x
        ensures x in fields <==> exists f :: f in fs && f.value != Undefined && x == Field(f.key, Shown(f.value))
      {
        MemberShown(fs, x);
      }
      IdsRead(p.participants);
      MemberFound(fs, fields, 0, Str(p.kind));
      MemberFound(fs, fields, 1, Str(IdText(p.winner)));
      MemberFound(fs, fields, 2, Shown(Rows.IdItems(p.participants)));
    }
  }

  lemma RowKey(id: Option<Id>, r: Rows.Row, fields: seq<Field>, f: Field)
    requires RowFound(id, r, fields) && f in fields
    ensures RowName(id, r, f.key)
  {
    var i := FoundKeys(Rows.Record(Rows.RowValues(id, r)), fields, f);
    assert f.key == Rows.ROW_KEYS[i] && Rows.RowValues(id, r)[i] != Undefined;
  }
}
