/** Rows of the distributed event log: canonical form, text, derived identity and total order
    (src/distributed/global_input.ts, event_serialization.ts, event_identity.ts, event_ordering.ts,
    logical_time.ts). Node names are ordered identifiers, and their rendering is injective. */
module DistributedEvents {
  import opened Results
  import opened Ids
  import opened Json
  import opened JsonTheory
  import opened CanonicalKeys
  import EventModel

  type Digest = string -> Id

  datatype LogicalTime = LogicalTime(counter: nat, node: Id)

  datatype MergePolicy =
    | Legacy(name: string)
    | Decision(kind: string, winner: Id, participants: seq<Id>)

  datatype Row = Row(
    id: Id,
    node: Id,
    time: LogicalTime,
    sequence: int,
    kind: string,
    payload: Json,
    parents: seq<Id>,
    resolvedFrom: seq<Id>,
    policy: Option<MergePolicy>,
    conflictSet: Option<Id>)

  datatype InputError =
    | DuplicateParents(id: Id)
    | MergeConflict(id: Id)
    | SelfReference(id: Id)
    | MissingReference(id: Id, missing: Id)
    | CausalCycle
    | TooFewMembers
    | ReplayViolation(earlier: Id, later: Id)

  const MERGE_RESOLVED: string := "iris.merge.resolved"

  // ----- canonical form -----

  /** normalizeParentEventIds refuses repeated parents and sorts the rest. */
  function CanonicalizeRow(r: Row): Result<Row, InputError> {
    if |Elements(r.parents)| != |r.parents| then Err(DuplicateParents(r.id))
    else Ok(r.(
              payload := Canon(r.payload),
              parents := SortIds(Elements(r.parents)),
              resolvedFrom := SortList(r.resolvedFrom),
              policy := CanonPolicy(r.policy)))
  }

  function CanonPolicy(p: Option<MergePolicy>): Option<MergePolicy> {
    match p
    case Some(Decision(kind, winner, participants)) => Some(Decision(kind, winner, SortList(participants)))
    case _ => p
  }

  ghost predicate CanonicalRow(r: Row) {
    && Canon(r.payload) == r.payload
    && StrictlySorted(r.parents) && Sorted(r.resolvedFrom)
    && CanonPolicy(r.policy) == r.policy
  }

  /** Payloads whose text shows them as they are, as those parsed from JSON texts. */
  ghost predicate JsonPayload(r: Row) {
    Valid(r.payload) && Lossless(r.payload)
  }

  lemma CanonicalizeRowFacts(r: Row)
    requires Valid(r.payload) && CanonicalizeRow(r).Ok?
    ensures var c := CanonicalizeRow(r).value;
      CanonicalRow(c) && CanonicalizeRow(c) == Ok(c) && (JsonPayload(r) ==> JsonPayload(c)) && Valid(c.payload)
  {
    var c := CanonicalizeRow(r).value;
    CanonIdempotent(r.payload);
    CanonIsCanon(r.payload);
    SortListSorts(r.resolvedFrom);
    SortListSorts(c.resolvedFrom);
    if r.policy.Some? && r.policy.value.Decision? {
      SortListSorts(r.policy.value.participants);
      SortListSorts(c.policy.value.participants);
    }
    SortIdsOfSorted(c.parents);
    DistinctCard(c.parents);
  }

  /** Canonicalising fails exactly on repeated parents; otherwise it sorts the lists, canonicalises the payload and
      keeps all else. */
  lemma CanonicalizesExactly(r: Row)
    ensures CanonicalizeRow(r).Ok? <==> forall i, j :: 0 <= i < j < |r.parents| ==> r.parents[i] != r.parents[j]
    ensures CanonicalizeRow(r).Ok? ==>
              var c := CanonicalizeRow(r).value;
              && c.id == r.id && c.node == r.node && c.time == r.time && c.sequence == r.sequence && c.kind == r.kind
              && c.conflictSet == r.conflictSet && c.payload == Canon(r.payload)
              && StrictlySorted(c.parents) && (forall p :: p in c.parents <==> p in r.parents)
              && Sorted(c.resolvedFrom) && multiset(c.resolvedFrom) == multiset(r.resolvedFrom)
              && PolicyKept(r.policy, c.policy)
  {
    DistinctCard(r.parents);
    SortListKeeps(r.resolvedFrom);
    SortListSorts(r.resolvedFrom);
    if r.policy.Some? && r.policy.value.Decision? {
      SortListKeeps(r.policy.value.participants);
      SortListSorts(r.policy.value.participants);
    }
    if CanonicalizeRow(r).Ok? {
      var c := CanonicalizeRow(r).value;
      forall p
        ensures p in c.parents <==> p in r.parents
      {
        assert p in c.parents <==> p in Elements(c.parents);
        assert p in r.parents <==> p in Elements(r.parents);
      }
    }
  }

  ghost predicate PolicyKept(p: Option<MergePolicy>, q: Option<MergePolicy>) {
    if p.Some? && p.value.Decision? then
      && q.Some? && q.value.Decision? && q.value.kind == p.value.kind && q.value.winner == p.value.winner
      && Sorted(q.value.participants) && multiset(q.value.participants) == multiset(p.value.participants)
    else q == p
  }

  // ----- text and identity -----

  function IdItems(ids: seq<Id>): Json {
    Arr(EventModel.ParentItems(ids))
  }

  function PolicyJson(p: MergePolicy): Json {
    match p
    case Legacy(name) => Str(name)
    case Decision(kind, winner, participants) =>
      Obj([Field("type", Str(kind)), Field("winner", Str(EventModel.IdText(winner))),
          Field("participants", IdItems(participants))])
  }

  function TimeJson(t: LogicalTime): Json {
    Obj([Field("counter", Num(EventModel.IntText(t.counter))), Field("nodeId", Str(EventModel.IdText(t.node)))])
  }

  const ROW_KEYS: seq<string> :=
    [ "eventId", "logicalTime", "nodeId", "parentEventIds", "resolvedFrom", "mergePolicy", "conflictSetId", "payload",
      "sequence", "type"]

  const PAYLOAD_SLOT := 7

  function RowValues(id: Option<Id>, r: Row): (vs: seq<Json>)
    ensures |vs| == 10
  {
    [ if id.Some? then Str(EventModel.IdText(id.value)) else Undefined,
      TimeJson(r.time),
      Str(EventModel.IdText(r.node)),
      if r.parents == [] then Undefined else IdItems(r.parents),
      if r.resolvedFrom == [] then Undefined else IdItems(r.resolvedFrom),
      if r.policy.Some? then PolicyJson(r.policy.value) else Undefined,
      if r.conflictSet.Some? then Str(EventModel.IdText(r.conflictSet.value)) else Undefined,
      Canon(r.payload),
      Num(EventModel.IntText(r.sequence)),
      Str(r.kind)]
  }

  function Record(values: seq<Json>): seq<Field>
    requires |values| == 10
  {
    seq(10, i requires 0 <= i < 10 => Field(ROW_KEYS[i], values[i]))
  }

  /** The object that is printed, its payload canonicalised; lists are present only when not empty, the id
      only in the event text. */
  function RowJson(id: Option<Id>, r: Row): Json {
    Obj(Record(RowValues(id, r)))
  }

  function RowText(r: Row): string {
    Stringify(RowJson(Some(r.id), r))
  }

  /** deriveDeterministicEventId. */
  function DerivedId(digest: Digest, r: Row): Id {
    digest(Stringify(RowJson(None, r)))
  }

  lemma IdItemsOk(ids: seq<Id>)
    ensures Valid(IdItems(ids)) && Lossless(IdItems(ids))
  {
    var ps := EventModel.ParentItems(ids);
    if |ps| == 1 {
      assert ps[0] != Undefined;
    }
  }

  lemma TimeOk(t: LogicalTime)
    ensures Valid(TimeJson(t)) && Lossless(TimeJson(t))
  {
    EventModel.IntTextInjective(t.counter, 0);
    var fs := TimeJson(t).fields;
    assert fs[0].key[0] == 'c' && fs[1].key[0] == 'n';
  }

  lemma PolicyOk(p: MergePolicy)
    ensures Valid(PolicyJson(p)) && Lossless(PolicyJson(p))
  {
    if p.Decision? {
      IdItemsOk(p.participants);
      var fs := PolicyJson(p).fields;
      assert fs[0].key[0] == 't' && fs[1].key[0] == 'w' && fs[2].key[0] == 'p';
    }
  }

  lemma RowKeysDistinct()
    ensures forall i, j :: 0 <= i < j < 10 ==> ROW_KEYS[i] != ROW_KEYS[j]
  {
    var mark := (k: string) => if |k| > 2 then (k[0], k[2]) else (' ', ' ');
    assert mark(ROW_KEYS[0]) == ('e', 'e') && mark(ROW_KEYS[1]) == ('l', 'g') && mark(ROW_KEYS[2]) == ('n', 'd');
    assert mark(ROW_KEYS[3]) == ('p', 'r') && mark(ROW_KEYS[4]) == ('r', 's') && mark(ROW_KEYS[5]) == ('m', 'r');
    assert mark(ROW_KEYS[6]) == ('c', 'n') && mark(ROW_KEYS[7]) == ('p', 'y') && mark(ROW_KEYS[8]) == ('s', 'q');
    assert mark(ROW_KEYS[9]) == ('t', 'p');
    assert forall i, j :: 0 <= i < j < 10 ==> mark(ROW_KEYS[i]) != mark(ROW_KEYS[j]);
  }

  lemma RowValuesOk(id: Option<Id>, r: Row)
    requires Valid(r.payload)
    ensures forall i :: 0 <= i < 10 ==> Valid(RowValues(id, r)[i])
    ensures forall i :: 0 <= i < 10 && i != PAYLOAD_SLOT ==> Lossless(RowValues(id, r)[i])
  {
    TimeOk(r.time);
    IdItemsOk(r.parents);
    IdItemsOk(r.resolvedFrom);
    if r.policy.Some? {
      PolicyOk(r.policy.value);
    }
    EventModel.IntTextInjective(r.sequence, 0);
    CanonIsCanon(r.payload);
  }

  lemma RowSlotsShown(id: Option<Id>, r: Row)
    requires Valid(r.payload)
    ensures forall i :: 0 <= i < 10 && i != PAYLOAD_SLOT ==> Shown(RowValues(id, r)[i]) == Normal(RowValues(id, r)[i])
  {
    RowValuesOk(id, r);
    forall i | 0 <= i < 10 && i != PAYLOAD_SLOT
      ensures Shown(RowValues(id, r)[i]) == Normal(RowValues(id, r)[i])
    {
      ShownLossless(RowValues(id, r)[i]);
    }
  }

  lemma RecordOk(values: seq<Json>)
    requires |values| == 10 && forall i :: 0 <= i < 10 ==> Valid(values[i])
    ensures Valid(Obj(Record(values)))
  {
    RowKeysDistinct();
  }

  lemma RecordsDecide(vs: seq<Json>, ws: seq<Json>)
    requires |vs| == |ws| == 10
    requires forall i :: 0 <= i < 10 ==> Valid(vs[i]) && Valid(ws[i])
    ensures Stringify(Obj(Record(vs))) == Stringify(Obj(Record(ws))) <==>
              forall i :: 0 <= i < 10 ==> Shown(vs[i]) == Shown(ws[i])
  {
    RecordOk(vs);
    RecordOk(ws);
    var fs, gs := Record(vs), Record(ws);
    assert |fs| == 10 && |gs| == 10;
    RecordsInjective(fs, gs);
    assert forall i :: 0 <= i < 10 ==> fs[i].value == vs[i] && gs[i].value == ws[i];
  }

  lemma TimeInjective(t: LogicalTime, u: LogicalTime)
    requires Normal(TimeJson(t)) == Normal(TimeJson(u))
    ensures t == u
  {
    TimeOk(t);
    TimeOk(u);
    var fs, gs := TimeJson(t).fields, TimeJson(u).fields;
    SlotsDecideNormal(fs, gs);
    assert Normal(fs[0].value) == Normal(gs[0].value) && Normal(fs[1].value) == Normal(gs[1].value);
    EventModel.IntTextInjective(t.counter, u.counter);
    EventModel.IdTextInjective(t.node, u.node);
  }

  lemma PolicyInjective(p: MergePolicy, q: MergePolicy)
    requires Normal(PolicyJson(p)) == Normal(PolicyJson(q))
    ensures p == q
  {
    PolicyOk(p);
    PolicyOk(q);
    if p.Decision? && q.Decision? {
      var fs, gs := PolicyJson(p).fields, PolicyJson(q).fields;
      SlotsDecideNormal(fs, gs);
      assert Normal(fs[0].value) == Normal(gs[0].value) && Normal(fs[1].value) == Normal(gs[1].value)
             && Normal(fs[2].value) == Normal(gs[2].value);
      EventModel.IdTextInjective(p.winner, q.winner);
      EventModel.ParentItemsInjective(p.participants, q.participants);
    }
  }

  lemma IdListSlot(p: seq<Id>, q: seq<Id>)
    requires Normal(if p == [] then Undefined else IdItems(p)) == Normal(if q == [] then Undefined else IdItems(q))
    ensures p == q
  {
    if p != [] && q != [] {
      EventModel.ParentItemsInjective(p, q);
    }
  }

  lemma OptionalIdSlot(p: Option<Id>, q: Option<Id>)
    requires Normal(if p.Some? then Str(EventModel.IdText(p.value)) else Undefined)
          == Normal(if q.Some? then Str(EventModel.IdText(q.value)) else Undefined)
    ensures p == q
  {
    if p.Some? && q.Some? {
      EventModel.IdTextInjective(p.value, q.value);
    }
  }

  /** The fields besides id and payload. */
  predicate SameFrame(r: Row, s: Row) {
    r.(id := 0, payload := Null) == s.(id := 0, payload := Null)
  }

  lemma SlotsGiveRow(i: Option<Id>, r: Row, j: Option<Id>, s: Row)
    requires forall k :: 0 <= k < 10 && k != PAYLOAD_SLOT ==> Normal(RowValues(i, r)[k]) == Normal(RowValues(j, s)[k])
    ensures i == j && SameFrame(r, s)
  {
    var vs, ws := RowValues(i, r), RowValues(j, s);
    assert Normal(vs[0]) == Normal(ws[0]) && Normal(vs[1]) == Normal(ws[1]) && Normal(vs[2]) == Normal(ws[2]);
    assert Normal(vs[3]) == Normal(ws[3]) && Normal(vs[4]) == Normal(ws[4]) && Normal(vs[5]) == Normal(ws[5]);
    assert Normal(vs[6]) == Normal(ws[6]) && Normal(vs[8]) == Normal(ws[8]) && Normal(vs[9]) == Normal(ws[9]);
    OptionalIdSlot(i, j);
    TimeInjective(r.time, s.time);
    EventModel.IdTextInjective(r.node, s.node);
    IdListSlot(r.parents, s.parents);
    IdListSlot(r.resolvedFrom, s.resolvedFrom);
    PolicySlot(r.policy, s.policy);
    OptionalIdSlot(r.conflictSet, s.conflictSet);
    EventModel.IntTextInjective(r.sequence, s.sequence);
  }

  lemma PolicySlot(p: Option<MergePolicy>, q: Option<MergePolicy>)
    requires Normal(if p.Some? then PolicyJson(p.value) else Undefined)
          == Normal(if q.Some? then PolicyJson(q.value) else Undefined)
    ensures p == q
  {
    if p.Some? && q.Some? {
      PolicyInjective(p.value, q.value);
    }
  }

  /** What the text shows of a payload: its canonical form, lossy parts replaced. */
  function ShownPayload(r: Row): Json {
    Printed(Canon(r.payload))
  }

  lemma PayloadSlot(r: Row)
    requires Valid(r.payload)
    ensures Shown(Canon(r.payload)) == ShownPayload(r)
  {
    CanonIsCanon(r.payload);
    PrintedNormal(Canon(r.payload));
    NormalFixpoint(Canon(r.payload));
  }

  /** Two rows print alike exactly when they agree in every field and their canonical payloads show the
      same. */
  lemma RowTextDecides(i: Option<Id>, r: Row, j: Option<Id>, s: Row)
    requires Valid(r.payload) && Valid(s.payload)
    ensures Stringify(RowJson(i, r)) == Stringify(RowJson(j, s)) <==>
              i == j && SameFrame(r, s) && ShownPayload(r) == ShownPayload(s)
  {
    RowValuesOk(i, r);
    RowValuesOk(j, s);
    var vs, ws := RowValues(i, r), RowValues(j, s);
    RecordsDecide(vs, ws);
    PayloadSlot(r);
    PayloadSlot(s);
    if forall k :: 0 <= k < 10 ==> Shown(vs[k]) == Shown(ws[k]) {
      assert Shown(vs[PAYLOAD_SLOT]) == Shown(ws[PAYLOAD_SLOT]);
      ShownGiveRow(i, r, j, s);
    }
  }

  lemma ShownGiveRow(i: Option<Id>, r: Row, j: Option<Id>, s: Row)
    requires Valid(r.payload) && Valid(s.payload)
    requires forall k :: 0 <= k < 10 ==> Shown(RowValues(i, r)[k]) == Shown(RowValues(j, s)[k])
    ensures i == j && SameFrame(r, s)
  {
    RowSlotsShown(i, r);
    RowSlotsShown(j, s);
    SlotsGiveRow(i, r, j, s);
  }

  lemma FrameAndPayload(r: Row, s: Row)
    requires JsonPayload(r) && JsonPayload(s) && CanonicalRow(r) && CanonicalRow(s)
    ensures SameFrame(r, s) && ShownPayload(r) == ShownPayload(s) <==> r.(id := 0) == s.(id := 0)
  {
    PrintedFixpoint(r.payload);
    PrintedFixpoint(s.payload);
    assert r.(id := 0) == r.(id := 0, payload := Null).(payload := r.payload);
    assert s.(id := 0) == s.(id := 0, payload := Null).(payload := s.payload);
    assert r.(id := 0, payload := Null) == r.(id := 0).(payload := Null);
    assert s.(id := 0, payload := Null) == s.(id := 0).(payload := Null);
  }

  /** Under a collision-free digest derived identifiers decide rows: they coincide exactly when all fields
      besides the id agree, payloads as far as their text shows them; so completely, where no payload is
      lossy. */
  lemma DerivedIdInjective(digest: Digest, r: Row, s: Row)
    requires EventModel.CollisionFree(digest)
    requires Valid(r.payload) && Valid(s.payload) && CanonicalRow(r) && CanonicalRow(s)
    ensures DerivedId(digest, r) == DerivedId(digest, s) <==>
              SameFrame(r, s) && Printed(r.payload) == Printed(s.payload)
    ensures JsonPayload(r) && JsonPayload(s) ==>
              (DerivedId(digest, r) == DerivedId(digest, s) <==> r.(id := 0) == s.(id := 0))
  {
    RowTextDecides(None, r, None, s);
    if JsonPayload(r) && JsonPayload(s) {
      FrameAndPayload(r, s);
    }
  }

  /** Row validation admits non-finite numbers, which print as null: two different rows with one text and
      one derived id. */
  lemma NonFiniteCollides(digest: Digest, r: Row)
    ensures var a, b := r.(payload := Obj([Field("x", NonFinite(NaN))])), r.(payload := Obj([Field("x", Null)]));
      a != b && RowText(a) == RowText(b) && DerivedId(digest, a) == DerivedId(digest, b)
  {
    var a, b := r.(payload := Obj([Field("x", NonFinite(NaN))])), r.(payload := Obj([Field("x", Null)]));
    assert a.payload.fields[0] != b.payload.fields[0];
    XIsKept(NonFinite(NaN));
    XIsKept(Null);
    assert Printed(a.payload).fields == Printed(b.payload).fields;
    RowTextDecides(Some(a.id), a, Some(b.id), b);
    RowTextDecides(None, a, None, b);
  }

  lemma XIsKept(v: Json)
    requires v == Null || v.NonFinite?
    ensures var o := Obj([Field("x", v)]); Valid(o) && Canon(o) == o
  {
    var o := Obj([Field("x", v)]);
    assert |o.fields[0].key| == 1 && |PROTO| == 9;
    assert IsNormal(o) && NoProto(o);
    CanonFixpoint(o);
  }

  // ----- total order -----

  function CompareIds(a: Id, b: Id): int {
    a - b
  }

  function CompareLogicalTime(a: LogicalTime, b: LogicalTime): int {
    if a.counter < b.counter then -1
    else if a.counter > b.counter then 1
    else CompareIds(a.node, b.node)
  }

  function CompareDistributed(a: Row, b: Row): int {
    var t := CompareLogicalTime(a.time, b.time);
    if t != 0 then t
    else if a.sequence < b.sequence then -1
    else if a.sequence > b.sequence then 1
    else CompareIds(a.id, b.id)
  }

  predicate Less(a: Row, b: Row) {
    CompareDistributed(a, b) < 0
  }

  /** compareDistributedEvents is a strict total order on rows with distinct ids. */
  lemma LessIsTotalOrder(a: Row, b: Row, c: Row)
    ensures !Less(a, a)
    ensures a.id != b.id ==> Less(a, b) || Less(b, a)
    ensures !(Less(a, b) && Less(b, a))
    ensures Less(a, b) && Less(b, c) ==> Less(a, c)
    ensures CompareDistributed(a, b) > 0 <==> Less(b, a)
  {
  }

  /** The order in the parts of the rows: the counter decides, then the node of the clock, then the sequence,
      then the id, the smaller always first. */
  lemma LessExactly(a: Row, b: Row)
    ensures Less(a, b) <==>
              || a.time.counter < b.time.counter
              || (a.time.counter == b.time.counter && a.time.node < b.time.node)
              || (a.time == b.time && a.sequence < b.sequence)
              || (a.time == b.time && a.sequence == b.sequence && a.id < b.id)
  {
    assert a.time == b.time <==> a.time.counter == b.time.counter && a.time.node == b.time.node;
  }

  // ----- logical clocks -----

  /** advanceLocalClock. */
  function Advance(prev: LogicalTime): LogicalTime {
    LogicalTime(prev.counter + 1, prev.node)
  }

  /** mergeClocks: on receive. */
  function MergeClocks(local: LogicalTime, remote: LogicalTime): LogicalTime {
    LogicalTime((if local.counter >= remote.counter then local.counter else remote.counter) + 1, local.node)
  }

  /** A local step and a receipt keep the node and take the least counter beyond what was known. */
  lemma ClocksAdvance(local: LogicalTime, remote: LogicalTime, c: nat)
    ensures Advance(local).node == local.node && MergeClocks(local, remote).node == local.node
    ensures Advance(local).counter <= c <==> local.counter < c
    ensures MergeClocks(local, remote).counter <= c <==> local.counter < c && remote.counter < c
  {
  }
}
