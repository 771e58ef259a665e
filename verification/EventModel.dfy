/** Events of the causal DAG, their canonical form, their text and their content-derived identifier
    (src/distributed/event_model.ts). SHA-256 is a parameter `digest` from texts to identifiers. */
module EventModel {
  import opened Results
  import opened Ids
  import opened Json
  import opened JsonTheory
  import opened CanonicalKeys

  type Digest = string -> Id

  datatype Event = Event(
    id: Id,
    kind: string,
    payload: Json,
    parents: seq<Id>,
    timestampLogical: int,
    actorId: Option<string>)

  datatype GraphError =
    | InvalidEvent
    | InvalidId
    | NotCanonical
    | DuplicateParents
    | UnsortedParents
    | SelfReference
    | MissingParent(parent: Id)
    | CycleDetected
    | IncompatibleDuplicate(id: Id)

  // ----- canonical form -----

  predicate ForbiddenKey(k: string) {
    k in [PROTO, "prototype", "constructor"]
  }

  /** validateDeterministicPayload: no undefined anywhere, no forbidden key, finite numbers. */
  predicate PayloadOk(v: Json) {
    match v
    case Undefined => false
    case NonFinite(_) => false
    case Num(token) => NumToken(token)
    case Arr(items) => forall i :: 0 <= i < |items| ==> PayloadOk(items[i])
    case Obj(fields) =>
      && DistinctKeys(fields)
      && forall i :: 0 <= i < |fields| ==> !ForbiddenKey(fields[i].key) && PayloadOk(fields[i].value)
    case _ => true
  }

  /** canonicalizeEvent: the checks it makes, and the event it returns. */
  predicate FieldsOk(e: Event) {
    && e.kind != ""
    && e.actorId != Some("")
    && PayloadOk(e.payload)
  }

  function CanonicalizeEvent(e: Event): Result<Event, GraphError> {
    if !FieldsOk(e) then Err(InvalidEvent)
    else Ok(e.(payload := Canon(e.payload), parents := SortIds(Elements(e.parents))))
  }

  // ----- text and identifier -----

  function Digits(n: nat): string {
    if n < 10 then [HexDigit(n)] else Digits(n / 10) + [HexDigit(n % 10)]
  }

  /** Some injective rendering of a digest; the digits' base plays no role. */
  function IdText(id: Id): string {
    "EVT:" + Digits(id)
  }

  function IntText(n: int): string {
    if n < 0 then "-" + Digits(-n) else Digits(n)
  }

  /** The object that is printed: `actorId` is present only when defined. */
  function EventJson(idText: string, e: Event): Json {
    Obj([
      Field("id", Str(idText)),
      Field("type", Str(e.kind)),
      Field("payload", e.payload),
      Field("parents", Arr(ParentItems(e.parents))),
      Field("timestampLogical", Num(IntText(e.timestampLogical))),
      Field("actorId", if e.actorId.Some? then Str(e.actorId.value) else Undefined)])
  }

  function ParentItems(parents: seq<Id>): seq<Json> {
    seq(|parents|, i requires 0 <= i < |parents| => Str(IdText(parents[i])))
  }

  function EventText(e: Event): string {
    Stringify(EventJson(IdText(e.id), e))
  }

  /** hashEvent of the event with an empty id. */
  function ContentId(digest: Digest, e: Event): Id {
    digest(Stringify(EventJson("", e)))
  }

  ghost predicate CollisionFree(digest: Digest) {
    forall s, t :: digest(s) == digest(t) ==> s == t
  }

  // ----- injectivity of the text -----

  lemma LastDigit(n: nat)
    ensures var d := Digits(n);
      && |d| > 0 && d[|d| - 1] == HexDigit(n % 10)
      && (n < 10 ==> |d| == 1)
      && (n >= 10 ==> |d| > 1 && d[..|d| - 1] == Digits(n / 10))
  {
    if n >= 10 {
      LastDigit(n / 10);
    }
  }

  lemma {:induction false} DigitsInjective(m: nat, n: nat)
    requires Digits(m) == Digits(n)
    ensures m == n
  {
    LastDigit(m);
    LastDigit(n);
    HexDigitInjective(m % 10, n % 10);
    if m >= 10 {
      DigitsInjective(m / 10, n / 10);
    }
  }

  lemma {:induction false} DecimalDigits(n: nat)
    ensures NumToken(Digits(n)) && Digits(n)[0] != '-'
  {
    if n >= 10 {
      DecimalDigits(n / 10);
      assert Digits(n)[0] == Digits(n / 10)[0];
    }
  }

  lemma IntTextInjective(m: int, n: int)
    ensures NumToken(IntText(m))
    ensures IntText(m) == IntText(n) ==> m == n
  {
    var pm, pn := if m < 0 then -m else m, if n < 0 then -n else n;
    DecimalDigits(pm);
    DecimalDigits(pn);
    if IntText(m) == IntText(n) {
      assert (m < 0) == (IntText(m)[0] == '-') && (n < 0) == (IntText(n)[0] == '-');
      if m < 0 {
        Cancel("-", Digits(pm), Digits(pn));
      }
      DigitsInjective(pm, pn);
    }
  }

  lemma IdTextInjective(m: Id, n: Id)
    requires IdText(m) == IdText(n)
    ensures m == n
  {
    Cancel("EVT:", Digits(m), Digits(n));
    DigitsInjective(m, n);
  }

  lemma {:induction false} PayloadIsDefined(v: Json)
    requires PayloadOk(v)
    ensures v != Undefined && Valid(v) && Lossless(v) && NoProto(v)
  {
    match v
    case Arr(items) =>
      forall i | 0 <= i < |items|
        ensures items[i] != Undefined && Valid(items[i]) && Lossless(items[i]) && NoProto(items[i])
      {
        PayloadIsDefined(items[i]);
      }
      if |items| == 1 {
        assert items[0] != Undefined;
      }
    case Obj(fields) =>
      forall i | 0 <= i < |fields|
        ensures fields[i].key != PROTO && Valid(fields[i].value) && Lossless(fields[i].value)
            && NoProto(fields[i].value)
      {
        assert !ForbiddenKey(fields[i].key);
        PayloadIsDefined(fields[i].value);
      }
    case _ =>
  }

  lemma EventJsonOk(t: string, e: Event)
    requires FieldsOk(e)
    ensures Valid(EventJson(t, e)) && Lossless(EventJson(t, e))
  {
    PayloadIsDefined(e.payload);
    IntTextInjective(e.timestampLogical, 0);
    var fs := EventJson(t, e).fields;
    assert fs[0].key[0] == 'i' && fs[1].key[0] == 't' && fs[1].key[1] == 'y' && fs[2].key[2] == 'y';
    assert fs[3].key[2] == 'r' && fs[4].key[1] == 'i' && fs[5].key[0] == 'a';
    assert DistinctKeys(fs);
    var ps := ParentItems(e.parents);
    if |ps| == 1 {
      assert ps[0] != Undefined;
    }
  }

  /** Two events agree field by field, the payload up to key order, ids aside. */
  predicate SameContent(d: Event, e: Event) {
    && d.kind == e.kind && d.parents == e.parents
    && d.timestampLogical == e.timestampLogical && d.actorId == e.actorId
    && Canon(d.payload) == Canon(e.payload)
  }

  /** Two events print alike exactly when they have the same id text and the same content. */
  lemma TextDecides(s: string, d: Event, t: string, e: Event)
    requires FieldsOk(d) && FieldsOk(e)
    ensures Stringify(EventJson(s, d)) == Stringify(EventJson(t, e)) <==> s == t && SameContent(d, e)
  {
    TextIsSlots(s, d, t, e);
    if SlotsAgree(EventJson(s, d).fields, EventJson(t, e).fields) {
      SlotsDecide(s, d, t, e);
    }
    PayloadIsDefined(d.payload);
    PayloadIsDefined(e.payload);
    CanonPlain(d.payload);
    CanonPlain(e.payload);
    if s == t && SameContent(d, e) {
      SlotsFollow(s, d, t, e);
    }
  }

  lemma TextIsSlots(s: string, d: Event, t: string, e: Event)
    requires FieldsOk(d) && FieldsOk(e)
    ensures Stringify(EventJson(s, d)) == Stringify(EventJson(t, e)) <==>
              SlotsAgree(EventJson(s, d).fields, EventJson(t, e).fields)
  {
    EventJsonOk(s, d);
    EventJsonOk(t, e);
    RecordsInjective(EventJson(s, d).fields, EventJson(t, e).fields);
    SlotsShown(s, d);
    SlotsShown(t, e);
  }

  lemma SlotsFollow(s: string, d: Event, t: string, e: Event)
    requires s == t && d.kind == e.kind && d.parents == e.parents && Normal(d.payload) == Normal(e.payload)
    requires d.timestampLogical == e.timestampLogical && d.actorId == e.actorId
    ensures SlotsAgree(EventJson(s, d).fields, EventJson(t, e).fields)
  {
  }

  /** Nothing in an event's object is lossy. */
  lemma SlotsShown(t: string, e: Event)
    requires FieldsOk(e)
    ensures var fs := EventJson(t, e).fields; forall i :: 0 <= i < |fs| ==> Shown(fs[i].value) == Normal(fs[i].value)
  {
    EventJsonOk(t, e);
    var fs := EventJson(t, e).fields;
    forall i | 0 <= i < |fs|
      ensures Shown(fs[i].value) == Normal(fs[i].value)
    {
      ShownLossless(fs[i].value);
    }
  }

  lemma SlotsDecide(s: string, d: Event, t: string, e: Event)
    requires SlotsAgree(EventJson(s, d).fields, EventJson(t, e).fields)
    ensures s == t && d.kind == e.kind && d.parents == e.parents
    ensures d.timestampLogical == e.timestampLogical && d.actorId == e.actorId
    ensures Normal(d.payload) == Normal(e.payload)
  {
    var fs, gs := EventJson(s, d).fields, EventJson(t, e).fields;
    assert Normal(fs[0].value) == Normal(gs[0].value);
    assert Normal(fs[1].value) == Normal(gs[1].value);
    assert Normal(fs[2].value) == Normal(gs[2].value);
    assert Normal(fs[3].value) == Normal(gs[3].value);
    assert Normal(fs[4].value) == Normal(gs[4].value);
    assert Normal(fs[5].value) == Normal(gs[5].value);
    ParentItemsInjective(d.parents, e.parents);
    IntTextInjective(d.timestampLogical, e.timestampLogical);
  }

  lemma ParentItemsInjective(p: seq<Id>, q: seq<Id>)
    requires Normal(Arr(ParentItems(p))) == Normal(Arr(ParentItems(q)))
    ensures p == q
  {
    var xs, ys := Normal(Arr(ParentItems(p))).items, Normal(Arr(ParentItems(q))).items;
    assert |p| == |xs| && |q| == |ys|;
    forall i | 0 <= i < |p|
      ensures p[i] == q[i]
    {
      assert xs[i] == Str(IdText(p[i])) && ys[i] == Str(IdText(q[i]));
      IdTextInjective(p[i], q[i]);
    }
  }

  // ----- what addEvent admits -----

  /** The checks of addEvent that look at the event alone, in the order it makes them; on success the
      canonical event that is stored. */
  function Admit(digest: Digest, e: Event): Result<Event, GraphError> {
    var c :- CanonicalizeEvent(e);
    if e.id != ContentId(digest, c) then Err(InvalidId)
    else if EventText(e) != EventText(c) then Err(NotCanonical)
    else if |Elements(e.parents)| != |e.parents| then Err(DuplicateParents)
    else if SortIds(Elements(e.parents)) != e.parents then Err(UnsortedParents)
    else if e.id in e.parents then Err(SelfReference)
    else Ok(c)
  }

  /** An event in the form graphs store it. */
  ghost predicate CanonicalEvent(digest: Digest, e: Event) {
    && FieldsOk(e)
    && Canon(e.payload) == e.payload
    && StrictlySorted(e.parents)
    && e.id == ContentId(digest, e)
    && e.id !in e.parents
  }

  lemma {:induction false} CanonKeepsPayload(v: Json)
    requires PayloadOk(v)
    ensures PayloadOk(Canon(v))
  {
    PayloadIsDefined(v);
    CanonIsCanon(v);
    match v
    case Arr(items) =>
      forall i | 0 <= i < |items|
        ensures PayloadOk(Canon(items[i]))
      {
        CanonKeepsPayload(items[i]);
      }
    case Obj(fields) =>
      var cs := Canon(v).fields;
      forall i | 0 <= i < |cs|
        ensures !ForbiddenKey(cs[i].key) && PayloadOk(cs[i].value)
      {
        assert cs[i] in cs;
        assert cs[i] in CanonFields(v, fields);
        var f :| f in fields && Kept(f) && cs[i] == Field(f.key, Canon(f.value));
        CanonKeepsPayload(f.value);
      }
    case _ =>
  }

  lemma CanonicalizeFacts(digest: Digest, e: Event)
    requires FieldsOk(e)
    ensures var c := CanonicalizeEvent(e).value;
      && FieldsOk(c) && Canon(c.payload) == c.payload && StrictlySorted(c.parents)
      && (EventText(e) == EventText(c) <==> e.parents == c.parents)
  {
    var c := CanonicalizeEvent(e).value;
    PayloadIsDefined(e.payload);
    CanonKeepsPayload(e.payload);
    CanonIdempotent(e.payload);
    CanonIsCanon(e.payload);
    TextDecides(IdText(e.id), e, IdText(c.id), c);
  }

  /** The canonical-text check already decides duplicates and order of parents: an event is admitted
      exactly when its fields are legal, its parents strictly ascending, its id the digest of its
      content and not among its parents; the two later parent checks never fire. */
  lemma AdmitExactly(digest: Digest, e: Event)
    ensures Admit(digest, e).Ok? <==>
              && FieldsOk(e) && StrictlySorted(e.parents) && e.id !in e.parents
              && e.id == ContentId(digest, e.(payload := Canon(e.payload)))
    ensures Admit(digest, e).Ok? ==> Admit(digest, e).value == e.(payload := Canon(e.payload))
    ensures Admit(digest, e).Ok? ==> CanonicalEvent(digest, Admit(digest, e).value)
    ensures Admit(digest, e) != Err(DuplicateParents) && Admit(digest, e) != Err(UnsortedParents)
  {
    if FieldsOk(e) {
      CanonicalizeFacts(digest, e);
      if StrictlySorted(e.parents) {
        SortIdsOfSorted(e.parents);
      }
      if e.parents == CanonicalizeEvent(e).value.parents {
        DistinctCard(e.parents);
      }
    }
  }

  /** Under a collision-free digest the identifier determines the stored event. */
  lemma ContentIdInjective(digest: Digest, d: Event, e: Event)
    requires CollisionFree(digest)
    requires CanonicalEvent(digest, d) && CanonicalEvent(digest, e) && d.id == e.id
    ensures d == e
  {
    TextDecides("", d, "", e);
  }
}
