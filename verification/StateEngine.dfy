/** Evaluation of a causal graph to a key/value state (src/distributed/state_engine.ts). */
module StateEngine {
  import opened Results
  import opened Ids
  import opened Json
  import opened CanonicalKeys
  import opened EventModel
  import opened EventDag
  import opened EventGraphs
  import opened GraphSearch
  import opened Kahn
  import opened MergeGraphs
  import opened StateRecords

  const STATE_OP := "ir.state.op"

  datatype Operation = SetOp(key: string, value: Json) | DeleteOp(key: string)

  // ----- operations -----

  /** A property read: absent properties read as undefined. */
  function Property(fields: seq<Field>, key: string): Json {
    if |fields| == 0 then Undefined
    else if fields[0].key == key then fields[0].value
    else Property(fields[1..], key)
  }

  /** canonicalizeEventOperation on the raw operation object: a non-empty string key, and for set a
      legal value, whose keys are then sorted. */
  function ReadOperation(raw: Json): Option<Operation> {
    match raw
    case Obj(fields) =>
      var key := Property(fields, "key");
      if !key.Str? || key.s == "" then None
      else if Property(fields, "type") == Str("set") then
        var value := Property(fields, "value");
        if PayloadOk(value) then Some(SetOp(key.s, Canon(value))) else None
      else if Property(fields, "type") == Str("delete") then Some(DeleteOp(key.s))
      else None
    case _ => None
  }

  /** extractOperation; None where it throws. */
  function ExtractOperation(e: Event): Option<Operation> {
    if e.kind != STATE_OP || !e.payload.Obj? then None
    else ReadOperation(Property(e.payload.fields, "op"))
  }

  ghost predicate CanonicalValue(v: Json) {
    PayloadOk(v) && Canon(v) == v
  }

  ghost predicate CanonicalState(st: State) {
    PROTO !in st && forall k :: k in st ==> CanonicalValue(st[k])
  }

  lemma ExtractedIsCanonical(e: Event)
    ensures ExtractOperation(e).Some? && ExtractOperation(e).value.SetOp? ==>
              CanonicalValue(ExtractOperation(e).value.value)
  {
    if ExtractOperation(e).Some? && ExtractOperation(e).value.SetOp? {
      var value := Property(Property(e.payload.fields, "op").fields, "value");
      PayloadIsDefined(value);
      CanonKeepsPayload(value);
      CanonIdempotent(value);
    }
  }

  /** applyEvent: a delete of an absent key and a set to a value that prints the same return the state
      unchanged; every other step copies the changed record. */
  function ApplyOperation(st: State, op: Operation): Result<State, StateError> {
    match op
    case DeleteOp(key) => if key !in st then Ok(st) else Frozen(st - {key})
    case SetOp(key, value) =>
      if key in st && Stringify(st[key]) == Stringify(value) then Ok(st) else Frozen(st[key := value])
  }

  method ApplyEvent(st: State, op: Operation) returns (r: Result<State, StateError>)
    ensures r == ApplyOperation(st, op)
  {
    match op
    case DeleteOp(key) =>
      if key !in st {
        return Ok(st);
      }
      r := FreezeStateRecord(st - {key});
    case SetOp(key, value) =>
      if key in st && Stringify(st[key]) == Stringify(value) {
        return Ok(st);
      }
      r := FreezeStateRecord(st[key := value]);
  }

  /** A set on __proto__ to a value with a property that the state holds under a later key. */
  predicate Trips(st: State, op: Operation) {
    op.SetOp? && op.key == PROTO && exists k :: k in st && Blocks(op.value, k)
  }

  /** The operation writes its key and nothing else; a set on __proto__ writes nothing at all. */
  ghost predicate Writes(st: State, op: Operation, after: State) {
    && (op.SetOp? && op.key != PROTO ==> op.key in after && after[op.key] == op.value)
    && (op.SetOp? && op.key == PROTO ==> after == st)
    && (op.DeleteOp? ==> op.key !in after)
    && forall k :: k != op.key ==> (k in after <==> k in st) && (k in st ==> after[k] == st[k])
  }

  /** The outcome of a step: it throws exactly on tripping sets, and else writes. */
  ghost predicate Applied(st: State, op: Operation, r: Result<State, StateError>) {
    && (r.Err? <==> Trips(st, op))
    && (r.Err? ==> r.error == ReadOnlyProperty)
    && (r.Ok? ==> CanonicalState(r.value) && Writes(st, op, r.value))
  }

  /** Reusing the old value when it prints the same is sound: canonical values that print the same are
      equal, so a set leaves its value and a delete none, and no other key changes. The one exception is
      a set on __proto__: it throws where it trips, and elsewhere leaves the state as it was. */
  lemma ApplyIsWrite(st: State, op: Operation)
    requires CanonicalState(st) && (op.SetOp? ==> CanonicalValue(op.value))
    ensures Applied(st, op, ApplyOperation(st, op))
  {
    ApplyTrips(st, op);
    if op.SetOp? && op.key in st && Stringify(st[op.key]) == Stringify(op.value) {
      PayloadIsDefined(st[op.key]);
      PayloadIsDefined(op.value);
      CanonFixpoint(st[op.key]);
      CanonFixpoint(op.value);
      CanonicalTextInjective(st[op.key], op.value);
    }
  }

  lemma ApplyTrips(st: State, op: Operation)
    requires PROTO !in st
    ensures ApplyOperation(st, op).Err? <==> Trips(st, op)
  {
    if op.SetOp? && op.key == PROTO {
      var base := st[PROTO := op.value];
      KeyBeforeStrict(PROTO, PROTO, PROTO);
      assert forall k :: k in base && Blocks(op.value, k) <==> k in st && Blocks(op.value, k);
    }
  }

  // ----- the meaning of a graph -----

  ghost predicate StateOpsOnly(E: Events) {
    forall id :: id in E ==> ExtractOperation(E[id]).Some?
  }

  ghost function OpOf(E: Events, id: Id): Operation
    requires StateOpsOnly(E) && id in E
  {
    ExtractOperation(E[id]).value
  }

  /** id is the last event on key k in the order (depth, id), among the events in done. */
  ghost predicate LastWriter(E: Events, done: set<Id>, id: Id, k: string)
    requires Dag(E) && StateOpsOnly(E)
  {
    && id in E && id in done && OpOf(E, id).key == k
    && forall j :: j in E && j in done && OpOf(E, j).key == k && j != id ==> KeyLess(E, j, id)
  }

  ghost predicate Named(E: Events, done: set<Id>, k: string)
    requires StateOpsOnly(E)
  {
    exists id :: id in E && id in done && OpOf(E, id).key == k
  }

  ghost predicate Deleted(E: Events, done: set<Id>, k: string)
    requires Dag(E) && StateOpsOnly(E)
  {
    exists id :: LastWriter(E, done, id, k) && OpOf(E, id).DeleteOp?
  }

  /** The key holds the value its last writer set; it is absent when its last writer is a delete or no
      event names it. */
  ghost predicate KeyIsLww(E: Events, done: set<Id>, st: State, k: string)
    requires Dag(E) && StateOpsOnly(E)
  {
    && (k in st ==> exists id :: LastWriter(E, done, id, k) && OpOf(E, id) == SetOp(k, st[k]))
    && (k !in st ==> !Named(E, done, k) || Deleted(E, done, k))
  }

  /** Last writer wins, on every key: the (depth, id)-greatest event on it decides. */
  ghost predicate IsLww(E: Events, done: set<Id>, st: State)
    requires Dag(E) && StateOpsOnly(E)
  {
    forall k :: KeyIsLww(E, done, st, k)
  }

  /** The events before id in the order (depth, id). */
  ghost function Past(E: Events, id: Id): set<Id>
    requires Dag(E) && id in E
  {
    set j | j in E && KeyLess(E, j, id)
  }

  /** Among the events in done the last writer on k sets it. */
  ghost predicate Held(E: Events, done: set<Id>, k: string)
    requires Dag(E) && StateOpsOnly(E)
  {
    exists w :: LastWriter(E, done, w, k) && OpOf(E, w).SetOp?
  }

  /** The event sets __proto__ to a value with a property under a later key that its past holds. */
  ghost predicate TripsAt(E: Events, id: Id)
    requires Dag(E) && StateOpsOnly(E)
  {
    && id in E && OpOf(E, id).SetOp? && OpOf(E, id).key == PROTO
    && exists k :: Blocks(OpOf(E, id).value, k) && Held(E, Past(E, id), k)
  }

  ghost predicate Tripless(E: Events)
    requires Dag(E) && StateOpsOnly(E)
  {
    forall id :: !TripsAt(E, id)
  }

  /** What evaluation yields: last writer wins on every key but __proto__, which is never held. */
  ghost predicate Evaluated(E: Events, done: set<Id>, st: State)
    requires Dag(E) && StateOpsOnly(E)
  {
    PROTO !in st && forall k :: k != PROTO ==> KeyIsLww(E, done, st, k)
  }

  /** The last writer on __proto__, if there is one, is no set. */
  ghost predicate ProtoUnset(E: Events, done: set<Id>)
    requires Dag(E) && StateOpsOnly(E)
  {
    forall id :: LastWriter(E, done, id, PROTO) ==> OpOf(E, id).DeleteOp?
  }

  /** Exactly then the evaluated state is last-writer-wins on all keys. */
  lemma LwwExactly(E: Events, done: set<Id>, st: State)
    requires Dag(E) && StateOpsOnly(E) && Evaluated(E, done, st)
    ensures IsLww(E, done, st) <==> ProtoUnset(E, done)
  {
    if Named(E, done, PROTO) {
      var w := LastWriterExists(E, done, PROTO);
      forall id | LastWriter(E, done, id, PROTO)
        ensures id == w
      {
        LastWriterUnique(E, done, id, w, PROTO);
      }
    }
    if IsLww(E, done, st) {
      assert KeyIsLww(E, done, st, PROTO);
    }
  }

  lemma LastWriterUnique(E: Events, done: set<Id>, a: Id, b: Id, k: string)
    requires Dag(E) && StateOpsOnly(E) && LastWriter(E, done, a, k) && LastWriter(E, done, b, k)
    ensures a == b
  {
  }

  /** Every key some event names has a last writer. */
  lemma LastWriterExists(E: Events, done: set<Id>, k: string) returns (id: Id)
    requires Dag(E) && StateOpsOnly(E) && Named(E, done, k)
    ensures LastWriter(E, done, id, k)
  {
    var among := set j | j in E && j in done && OpOf(E, j).key == k;
    var named :| named in E && named in done && OpOf(E, named).key == k;
    assert named in among;
    id := Greatest(E, among);
  }

  lemma {:induction false} Greatest(E: Events, among: set<Id>) returns (id: Id)
    requires Dag(E) && among != {} && forall j :: j in among ==> j in E
    ensures id in among && forall j :: j in among && j != id ==> KeyLess(E, j, id)
    decreases among
  {
    var first :| first in among;
    id := first;
    if among != {first} {
      var other := Greatest(E, among - {first});
      if KeyLess(E, first, other) {
        id := other;
      }
      forall j | j in among && j != id
        ensures KeyLess(E, j, id)
      {
        assert j == first || j in among - {first};
      }
    }
  }

  /** The specification determines the state. */
  lemma LwwUnique(E: Events, s: State, t: State)
    requires Dag(E) && StateOpsOnly(E) && Evaluated(E, E.Keys, s) && Evaluated(E, E.Keys, t)
    ensures s == t
  {
    forall k
      ensures k in s <==> k in t
      ensures k in s ==> s[k] == t[k]
    {
      if k != PROTO {
        SameKey(E, s, t, k);
        SameKey(E, t, s, k);
      }
    }
  }

  lemma SameKey(E: Events, s: State, t: State, k: string)
    requires Dag(E) && StateOpsOnly(E) && KeyIsLww(E, E.Keys, s, k) && KeyIsLww(E, E.Keys, t, k)
    ensures k in s ==> k in t && s[k] == t[k]
  {
    if k in s {
      var a :| LastWriter(E, E.Keys, a, k) && OpOf(E, a) == SetOp(k, s[k]);
      assert Named(E, E.Keys, k);
      forall b | LastWriter(E, E.Keys, b, k)
        ensures b == a
      {
        LastWriterUnique(E, E.Keys, a, b, k);
      }
    }
  }

  /** What evaluating a graph must give: it fails exactly on foreign events and on tripping ones. */
  ghost predicate EvaluatesTo(E: Events, r: Result<State, StateError>)
    requires Dag(E)
  {
    && (r.Ok? <==> StateOpsOnly(E) && Tripless(E))
    && (r.Ok? ==> Evaluated(E, E.Keys, r.value))
    && (r.Err? ==>
          if StateOpsOnly(E) then r.error == ReadOnlyProperty
          else r.error.NotAStateEvent? && FirstForeign(E, r.error.id))
  }

  /** The least id of an event that is no state operation. */
  ghost predicate FirstForeign(E: Events, id: Id) {
    id in E && ExtractOperation(E[id]).None? && forall j :: j in E && ExtractOperation(E[j]).None? ==> id <= j
  }

  /** So events decide the outcome, errors included. */
  lemma OutcomeUnique(E: Events, r: Result<State, StateError>, r': Result<State, StateError>)
    requires Dag(E) && EvaluatesTo(E, r) && EvaluatesTo(E, r')
    ensures r == r'
  {
    if r.Ok? {
      LwwUnique(E, r.value, r'.value);
    }
  }

  lemma HeldIsHeld(E: Events, done: set<Id>, st: State, k: string)
    requires Dag(E) && StateOpsOnly(E) && KeyIsLww(E, done, st, k)
    ensures Held(E, done, k) <==> k in st
  {
    if w :| LastWriter(E, done, w, k) && OpOf(E, w).SetOp? {
      assert Named(E, done, k);
      forall d | LastWriter(E, done, d, k)
        ensures d == w
      {
        LastWriterUnique(E, done, d, w, k);
      }
    }
  }

  /** The step of an event fails on the state of its past exactly when the event trips. */
  lemma StepTrips(E: Events, id: Id, st: State)
    requires Dag(E) && StateOpsOnly(E) && id in E && Evaluated(E, Past(E, id), st)
    ensures Trips(st, OpOf(E, id)) <==> TripsAt(E, id)
  {
    forall k | k != PROTO
      ensures Held(E, Past(E, id), k) <==> k in st
    {
      HeldIsHeld(E, Past(E, id), st, k);
    }
    KeyBeforeStrict(PROTO, PROTO, PROTO);
  }

  /** The listed events before position i are the past of the one there. */
  lemma PastIsPrefix(E: Events, order: seq<Id>, i: nat)
    requires Dag(E) && KeySorted(E, order) && Elements(order) == E.Keys && i < |order|
    ensures order[i] in E && Past(E, order[i]) == Elements(order[..i])
  {
    assert order[i] in Elements(order);
    forall j
      ensures j in Past(E, order[i]) <==> j in Elements(order[..i])
    {
      if j in Elements(order[..i]) {
        var k :| 0 <= k < i && order[k] == j;
        assert KeyLess(E, order[k], order[i]);
      }
      if j in Past(E, order[i]) {
        assert j in Elements(order);
        var k :| 0 <= k < |order| && order[k] == j;
        assert order[..i][k] == j;
      }
    }
  }

  /** One fold step: applying the next event of the evaluation order fails exactly when it trips, and else
      keeps the state last-writer-wins for the events applied so far. */
  lemma FoldStep(E: Events, order: seq<Id>, i: nat, st: State)
    requires Dag(E) && StateOpsOnly(E) && KeySorted(E, order) && Elements(order) == E.Keys && i < |order|
    requires CanonicalState(st) && Evaluated(E, Elements(order[..i]), st)
    ensures order[i] in E
    ensures Folded(E, order[i], Elements(order[..i + 1]), ApplyOperation(st, OpOf(E, order[i])))
  {
    PastIsPrefix(E, order, i);
    ElementsStep(order, i);
    FoldOne(E, order[i], st);
  }

  /** The outcome of one step, after which the events in done are applied. */
  ghost predicate Folded(E: Events, id: Id, done: set<Id>, r: Result<State, StateError>)
    requires Dag(E) && StateOpsOnly(E)
  {
    && (r.Err? <==> TripsAt(E, id))
    && (r.Err? ==> r.error == ReadOnlyProperty)
    && (r.Ok? ==> CanonicalState(r.value) && Evaluated(E, done, r.value))
  }

  lemma FoldOne(E: Events, id: Id, st: State)
    requires Dag(E) && StateOpsOnly(E) && id in E && CanonicalState(st) && Evaluated(E, Past(E, id), st)
    ensures Folded(E, id, Past(E, id) + {id}, ApplyOperation(st, OpOf(E, id)))
  {
    ExtractedIsCanonical(E[id]);
    ApplyIsWrite(st, OpOf(E, id));
    FoldApplied(E, id, st, ApplyOperation(st, OpOf(E, id)));
  }

  lemma FoldApplied(E: Events, id: Id, st: State, r: Result<State, StateError>)
    requires Dag(E) && StateOpsOnly(E) && id in E && Evaluated(E, Past(E, id), st) && Applied(st, OpOf(E, id), r)
    ensures Folded(E, id, Past(E, id) + {id}, r)
  {
    StepTrips(E, id, st);
    if r.Ok? {
      FoldedState(E, Past(E, id), id, st, r.value);
    }
  }

  lemma FoldedState(E: Events, done: set<Id>, id: Id, st: State, st': State)
    requires Dag(E) && StateOpsOnly(E) && id in E && Evaluated(E, done, st)
    requires PROTO !in st' && forall j :: j in done ==> j in E && KeyLess(E, j, id)
    requires Writes(st, OpOf(E, id), st')
    ensures Evaluated(E, done + {id}, st')
  {
    forall k | k != PROTO
      ensures KeyIsLww(E, done + {id}, st', k)
    {
      if k == OpOf(E, id).key {
        WrittenKey(E, done, id, k, st');
      } else {
        OtherKey(E, done, id, k, st, st');
      }
    }
  }

  lemma WrittenKey(E: Events, done: set<Id>, id: Id, k: string, st': State)
    requires Dag(E) && StateOpsOnly(E) && id in E && OpOf(E, id).key == k
    requires forall j :: j in done ==> j in E && KeyLess(E, j, id)
    requires OpOf(E, id).SetOp? ==> k in st' && st'[k] == OpOf(E, id).value
    requires OpOf(E, id).DeleteOp? ==> k !in st'
    ensures KeyIsLww(E, done + {id}, st', k)
  {
    assert LastWriter(E, done + {id}, id, k);
  }

  lemma OtherKey(E: Events, done: set<Id>, id: Id, k: string, st: State, st': State)
    requires Dag(E) && StateOpsOnly(E) && id in E && OpOf(E, id).key != k
    requires KeyIsLww(E, done, st, k) && (k in st' <==> k in st) && (k in st ==> st'[k] == st[k])
    ensures KeyIsLww(E, done + {id}, st', k)
  {
    forall j
      ensures LastWriter(E, done + {id}, j, k) <==> LastWriter(E, done, j, k)
    {
    }
  }

  // ----- dominance check -----

  /** No later entry repeats the one at position i. */
  ghost predicate LastEntry(ordered: seq<Id>, i: int)
    requires 0 <= i < |ordered|
  {
    forall j :: i < j < |ordered| ==> ordered[j] != ordered[i]
  }

  /** Of the events that are listed, every concurrent pair's winner stands after the loser; where an id is
      repeated its last entry counts. */
  ghost predicate DominanceConsistent(E: Events, ordered: seq<Id>)
    requires Dag(E)
  {
    forall i, j ::
      && 0 <= i < j < |ordered| && LastEntry(ordered, i) && LastEntry(ordered, j)
      && ordered[i] in E && ordered[j] in E && Concurrent(E, ordered[i], ordered[j])
      ==> Winner(E, ordered[i], ordered[j]) == ordered[j]
  }

  lemma KeySortedIsConsistent(E: Events, ordered: seq<Id>)
    requires Dag(E) && KeySorted(E, ordered)
    ensures DominanceConsistent(E, ordered)
  {
    forall i, j | 0 <= i < j < |ordered| && ordered[i] in E && ordered[j] in E && Concurrent(E, ordered[i], ordered[j])
      ensures Winner(E, ordered[i], ordered[j]) == ordered[j]
    {
      assert KeyLess(E, ordered[i], ordered[j]);
    }
  }

  ghost predicate PositionTable(ordered: seq<Id>, idx: map<Id, nat>) {
    && idx.Keys == Elements(ordered)
    && forall id :: id in idx ==> idx[id] < |ordered| && ordered[idx[id]] == id && LastEntry(ordered, idx[id])
  }

  /** `idx`: the last position of every listed id. */
  method Positions(ordered: seq<Id>) returns (idx: map<Id, nat>)
    ensures PositionTable(ordered, idx)
  {
    idx := map[];
    for i := 0 to |ordered|
      invariant idx.Keys == Elements(ordered[..i])
      invariant forall id :: id in idx ==> idx[id] < i && ordered[idx[id]] == id
      invariant forall id, j :: id in idx && idx[id] < j < i ==> ordered[j] != id
    {
      ElementsStep(ordered, i);
      idx := idx[ordered[i] := i];
    }
    ElementsWhole(ordered);
  }

  lemma LastPosition(ordered: seq<Id>, idx: map<Id, nat>, i: nat)
    requires PositionTable(ordered, idx) && i < |ordered| && LastEntry(ordered, i)
    ensures ordered[i] in idx && idx[ordered[i]] == i
  {
    assert ordered[i] in Elements(ordered);
    var k := idx[ordered[i]];
    assert LastEntry(ordered, k);
  }

  /** The pair passes the check: not both listed, not concurrent, or the winner listed later. */
  ghost predicate PairOk(E: Events, idx: map<Id, nat>, a: Id, b: Id)
    requires Dag(E) && a in E && b in E
  {
    a in idx && b in idx && Concurrent(E, a, b) ==>
      if Winner(E, a, b) == a then idx[b] < idx[a] else idx[a] < idx[b]
  }

  /** One pair of the check; a comparison with the position of an unlisted id is false. */
  method CheckPair(a: Id, b: Id, idx: map<Id, nat>, E: Events) returns (r: Option<StateError>)
    requires Dag(E) && a in E && b in E && a != b
    ensures r.None? <==> PairOk(E, idx, a, b)
  {
    var concurrent := AreConcurrent(a, b, E);
    if !concurrent {
      return None;
    }
    var winner := ResolveConflict(a, b, E);
    var loser := if winner == a then b else a;
    r := if winner in idx && loser in idx && idx[winner] <= idx[loser] then Some(DominanceViolation(winner, loser))
         else None;
  }

  /** validateDominanceOrdering: it accepts exactly the dominance-consistent listings, whatever is listed. */
  method ValidateDominanceOrdering(ordered: seq<Id>, E: Events) returns (r: Result<(), StateError>)
    requires Dag(E)
    ensures r.Ok? <==> DominanceConsistent(E, ordered)
  {
    var idx := Positions(ordered);
    var ids := SortIds(E.Keys);
    FirstIsElement(ids);
    for i := 0 to |ids|
      invariant forall k :: 0 <= k < i ==> RowPairsOk(E, idx, ids, k, |ids|)
    {
      var violation := CheckRow(ordered, idx, ids, i, E);
      if violation.Some? {
        return Err(violation.value);
      }
    }
    AllPairs(E, ordered, idx, ids);
    r := Ok(());
  }

  /** The pairs of one id with those after it, up to position n. */
  ghost predicate RowPairsOk(E: Events, idx: map<Id, nat>, ids: seq<Id>, k: int, n: int)
    requires Dag(E) && (forall x :: x in ids ==> x in E) && 0 <= k < |ids| && n <= |ids|
  {
    forall l :: k < l < n ==> PairOk(E, idx, ids[k], ids[l])
  }

  /** The inner loop: all pairs of one id. */
  method CheckRow(ordered: seq<Id>, idx: map<Id, nat>, ids: seq<Id>, i: nat, E: Events)
    returns (violation: Option<StateError>)
    requires Dag(E) && PositionTable(ordered, idx) && i < |ids| && StrictlySorted(ids)
    requires forall x :: x in ids ==> x in E
    ensures violation.None? ==> RowPairsOk(E, idx, ids, i, |ids|)
    ensures violation.Some? ==> !DominanceConsistent(E, ordered)
  {
    for j := i + 1 to |ids|
      invariant RowPairsOk(E, idx, ids, i, j)
    {
      assert ids[i] in ids && ids[j] in ids;
      violation := CheckPair(ids[i], ids[j], idx, E);
      if violation.Some? {
        BadPair(E, ordered, idx, ids[i], ids[j]);
        return;
      }
    }
    violation := None;
  }

  lemma BadPair(E: Events, ordered: seq<Id>, idx: map<Id, nat>, a: Id, b: Id)
    requires Dag(E) && PositionTable(ordered, idx) && a in E && b in E && a != b && !PairOk(E, idx, a, b)
    ensures !DominanceConsistent(E, ordered)
  {
    var i, j := idx[a], idx[b];
    assert LastEntry(ordered, i) && LastEntry(ordered, j) && ordered[i] == a && ordered[j] == b;
    WinnerSymmetric(E, a, b);
  }

  lemma WinnerSymmetric(E: Events, a: Id, b: Id)
    requires Dag(E) && a in E && b in E
    ensures Winner(E, a, b) == Winner(E, b, a) && (Concurrent(E, a, b) <==> Concurrent(E, b, a))
  {
  }

  lemma AllPairs(E: Events, ordered: seq<Id>, idx: map<Id, nat>, ids: seq<Id>)
    requires Dag(E) && PositionTable(ordered, idx) && forall x :: x in ids <==> x in E
    requires forall k :: 0 <= k < |ids| ==> RowPairsOk(E, idx, ids, k, |ids|)
    ensures DominanceConsistent(E, ordered)
  {
    forall i, j |
      && 0 <= i < j < |ordered| && LastEntry(ordered, i) && LastEntry(ordered, j)
      && ordered[i] in E && ordered[j] in E && Concurrent(E, ordered[i], ordered[j])
      ensures Winner(E, ordered[i], ordered[j]) == ordered[j]
    {
      var a, b := ordered[i], ordered[j];
      LastPosition(ordered, idx, i);
      LastPosition(ordered, idx, j);
      assert a in ids && b in ids;
      var k :| 0 <= k < |ids| && ids[k] == a;
      var l :| 0 <= l < |ids| && ids[l] == b;
      WinnerSymmetric(E, a, b);
      assert RowPairsOk(E, idx, ids, k, |ids|) && RowPairsOk(E, idx, ids, l, |ids|);
      assert if k < l then PairOk(E, idx, ids[k], ids[l]) else k > l && PairOk(E, idx, ids[l], ids[k]);
    }
  }

  // ----- evaluation -----

  /** assertGraphStateOpsOnly */
  method CheckOperations(E: Events) returns (r: Result<(), StateError>)
    ensures r.Ok? <==> StateOpsOnly(E)
    ensures r.Err? ==> r.error.NotAStateEvent? && FirstForeign(E, r.error.id)
  {
    var ids := SortIds(E.Keys);
    for i := 0 to |ids|
      invariant forall k :: 0 <= k < i ==> ids[k] in E && ExtractOperation(E[ids[k]]).Some?
    {
      assert ids[i] in Elements(ids);
      if ExtractOperation(E[ids[i]]).None? {
        forall j | j in E && ExtractOperation(E[j]).None?
          ensures ids[i] <= j
        {
          assert j in Elements(ids);
          var k :| 0 <= k < |ids| && ids[k] == j;
        }
        return Err(NotAStateEvent(ids[i]));
      }
    }
    assert forall id :: id in E ==> id in Elements(ids);
    r := Ok(());
  }

  /** evaluateGraph: it fails exactly on a foreign event, or on a set on __proto__ that trips over what the
      events before it hold. The optional dominance check never fails, so strict and fast mode agree. The
      result is the last-writer-wins state on every key but __proto__, and on all keys exactly when the last
      writer on __proto__ sets nothing. */
  method EvaluateGraph(graph: EventGraph, validateDominance: bool) returns (r: Result<State, StateError>)
    requires graph.Valid()
    ensures EvaluatesTo(graph.events, r)
    ensures r.Ok? ==>
              (IsLww(graph.events, graph.events.Keys, r.value) <==> ProtoUnset(graph.events, graph.events.Keys))
  {
    ghost var E := graph.events;
    var ids := graph.SortedIds();
    var table := EventTable(graph.nodes, ids);
    assert table == E;
    var checked := CheckOperations(table);
    if checked.Err? {
      return Err(checked.error);
    }
    var sorted := SortGraph(graph, LosersFirst);
    var ordered := sorted.value;
    if validateDominance {
      KeySortedIsConsistent(E, ordered);
      var verdict := ValidateDominanceOrdering(ordered, table);
      assert verdict.Ok?;
    }
    r := Fold(table, ordered);
    if r.Ok? {
      LwwExactly(E, E.Keys, r.value);
    }
  }

  /** The reduction over the ordered events. */
  method Fold(table: Events, ordered: seq<Id>) returns (r: Result<State, StateError>)
    requires Dag(table) && StateOpsOnly(table) && KeySorted(table, ordered) && Elements(ordered) == table.Keys
    ensures EvaluatesTo(table, r)
  {
    var st: State := map[];
    assert Elements(ordered[..0]) == {};
    for i := 0 to |ordered|
      invariant CanonicalState(st) && Evaluated(table, Elements(ordered[..i]), st)
      invariant forall j :: 0 <= j < i ==> !TripsAt(table, ordered[j])
    {
      FoldStep(table, ordered, i, st);
      var applied := ApplyEvent(st, ExtractOperation(table[ordered[i]]).value);
      if applied.Err? {
        return Err(applied.error);
      }
      st := applied.value;
    }
    ElementsWhole(ordered);
    forall id
      ensures !TripsAt(table, id)
    {
      if id in table {
        assert id in Elements(ordered);
        var j :| 0 <= j < |ordered| && ordered[j] == id;
      }
    }
    r := Ok(st);
  }

  // ----- history is never reordered -----

  function Filter(s: seq<Id>, keep: set<Id>): seq<Id> {
    if |s| == 0 then []
    else if s[0] in keep then [s[0]] + Filter(s[1..], keep)
    else Filter(s[1..], keep)
  }

  lemma {:induction false} FilterKeepsOrder(E: Events, s: seq<Id>, keep: set<Id>)
    requires Dag(E) && KeySorted(E, s)
    ensures KeySorted(E, Filter(s, keep))
    ensures forall x :: x in Filter(s, keep) <==> x in s && x in keep
  {
    if |s| > 0 {
      assert s == [s[0]] + s[1..];
      assert forall x :: x in s[1..] ==> x in s;
      FilterKeepsOrder(E, s[1..], keep);
      var rest := Filter(s[1..], keep);
      forall i | 0 <= i < |rest|
        ensures KeyLess(E, s[0], rest[i])
      {
        assert rest[i] in s[1..];
      }
    }
  }

  lemma {:induction false} KeySortedUnique(E: Events, s: seq<Id>, t: seq<Id>)
    requires Dag(E) && KeySorted(E, s) && KeySorted(E, t) && forall x :: x in s <==> x in t
    ensures s == t
  {
    if |s| == 0 || |t| == 0 {
      HeadMember(s);
      HeadMember(t);
    } else {
      assert s[0] in s && t[0] in t;
      assert s[0] in t && t[0] in s;
      assert s[0] == t[0];
      assert s == [s[0]] + s[1..] && t == [t[0]] + t[1..];
      forall x
        ensures x in s[1..] <==> x in t[1..]
      {
        assert x in s[1..] ==> x in s && x != s[0];
        assert x in t[1..] ==> x in t && x != t[0];
      }
      KeySortedUnique(E, s[1..], t[1..]);
    }
  }

  lemma HeadMember(s: seq<Id>)
    ensures |s| > 0 ==> s[0] in s
  {
  }

  /** Merging never reorders history: the evaluation order of a graph is the evaluation order of any
      graph that contains it, restricted to its events. */
  lemma EvaluationOrderEmbeds(A: Events, U: Events, orderA: seq<Id>, orderU: seq<Id>)
    requires Dag(A) && Dag(U) && SubGraph(A, U)
    requires KeySorted(A, orderA) && Elements(orderA) == A.Keys
    requires KeySorted(U, orderU) && Elements(orderU) == U.Keys
    ensures Filter(orderU, A.Keys) == orderA
  {
    FilterKeepsOrder(U, orderU, A.Keys);
    assert forall x :: x in orderA <==> x in Elements(orderA);
    assert forall x :: x in orderU <==> x in Elements(orderU);
    forall i, j | 0 <= i < j < |orderA|
      ensures KeyLess(U, orderA[i], orderA[j])
    {
      assert KeyLess(A, orderA[i], orderA[j]);
      DepthStable(A, U, orderA[i]);
      DepthStable(A, U, orderA[j]);
    }
    assert KeySorted(U, orderA);
    KeySortedUnique(U, Filter(orderU, A.Keys), orderA);
  }
}
