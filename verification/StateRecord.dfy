/** State records and the copy that freezeStateRecord makes of them, property by property into an ordinary
    object (src/distributed/state_engine.ts, src/distributed/state_model.ts). */
module StateRecords {
  import opened Results
  import opened Ids
  import opened Json
  import opened JsonTheory
  import opened EventModel

  type State = map<string, Json>

  datatype StateError =
    | NotAStateEvent(id: Id)
    | DominanceViolation(winner: Id, loser: Id)
    | CycleInGraph
    | ReadOnlyProperty

  // ----- keys in order -----

  /** deterministicCompare on keys: by their quoted texts. */
  predicate KeyBefore(a: string, b: string) {
    StrLess(Quote(a), Quote(b))
  }

  lemma KeyBeforeTotal(a: string, b: string)
    ensures a == b || KeyBefore(a, b) || KeyBefore(b, a)
  {
    StrLessTotal(Quote(a), Quote(b));
    if Quote(a) == Quote(b) {
      assert Quote(a) + "" == Quote(b) + "";
      QuoteDecodes(a, b, "", "");
    }
  }

  lemma KeyBeforeStrict(a: string, b: string, c: string)
    ensures !KeyBefore(a, a) && !(KeyBefore(a, b) && KeyBefore(b, a))
    ensures KeyBefore(a, b) && KeyBefore(b, c) ==> KeyBefore(a, c)
  {
    StrLessIrreflexive(Quote(a));
    if KeyBefore(a, b) && KeyBefore(b, a) {
      StrLessTransitive(Quote(a), Quote(b), Quote(a));
    }
    if KeyBefore(a, b) && KeyBefore(b, c) {
      StrLessTransitive(Quote(a), Quote(b), Quote(c));
    }
  }

  predicate FirstKey(k: string, keys: set<string>) {
    k in keys && forall x :: x in keys && x != k ==> KeyBefore(k, x)
  }

  lemma {:induction false} FirstKeyExists(keys: set<string>) returns (k: string)
    requires keys != {}
    ensures FirstKey(k, keys)
    decreases keys
  {
    k :| k in keys;
    if keys != {k} {
      var other := FirstKeyExists(keys - {k});
      KeyBeforeTotal(k, other);
      forall x | x in keys && x != k && x != other
        ensures KeyBefore(other, x) && (KeyBefore(k, other) ==> KeyBefore(k, x))
      {
        KeyBeforeStrict(k, other, x);
      }
      if KeyBefore(other, k) {
        k := other;
      }
    }
  }

  lemma FirstKeyUnique(keys: set<string>)
    requires keys != {}
    ensures exists k :: FirstKey(k, keys)
    ensures forall a, b :: FirstKey(a, keys) && FirstKey(b, keys) ==> a == b
  {
    var k := FirstKeyExists(keys);
    forall a, b | FirstKey(a, keys) && FirstKey(b, keys)
      ensures a == b
    {
      KeyBeforeStrict(a, b, a);
    }
  }

  ghost predicate InKeyOrder(s: seq<string>) {
    forall i, j :: 0 <= i < j < |s| ==> KeyBefore(s[i], s[j])
  }

  /** `Object.keys(base).sort(deterministicCompare)` */
  function SortKeys(keys: set<string>): (r: seq<string>)
    ensures InKeyOrder(r) && Elements(r) == keys
  {
    if keys == {} then []
    else
      FirstKeyUnique(keys);
      var k: string :| k in keys && FirstKey(k, keys);
      var rest := SortKeys(keys - {k});
      assert forall x :: x in rest <==> x in Elements(rest);
      assert forall x :: x in [k] + rest <==> x == k || x in rest;
      [k] + rest
  }

  // ----- the copy -----

  /** The own properties of a value; all of them are read-only once it is frozen. */
  predicate OwnKey(v: Json, k: string) {
    match v
    case Obj(fields) => exists i :: 0 <= i < |fields| && fields[i].key == k
    case Arr(items) => k == "length" || exists i :: 0 <= i < |items| && k == Digits(i)
    case _ => false
  }

  /** What an assignment to __proto__ makes the prototype: only objects, arrays and null are accepted. */
  predicate BecomesPrototype(v: Json) {
    v.Obj? || v.Arr? || v.Null?
  }

  /** Under a prototype v a copy cannot receive the key that comes after __proto__. */
  predicate Blocks(v: Json, k: string) {
    KeyBefore(PROTO, k) &&
    match v
    case Obj(fields) => exists i :: 0 <= i < |fields| && fields[i].key == k
    case Arr(_) => k == "length"
    case _ => false
  }

  /** Some key of the record meets a read-only property of the value stored under __proto__. */
  predicate Blocked(base: State) {
    PROTO in base && exists k :: k in base && Blocks(base[PROTO], k)
  }

  function Frozen(base: State): Result<State, StateError> {
    if Blocked(base) then Err(ReadOnlyProperty) else Ok(base - {PROTO})
  }

  /** Array indices come before __proto__, so of an array only its length blocks. */
  lemma IndexIsEarlier(n: nat)
    ensures KeyBefore(Digits(n), PROTO)
  {
    DecimalDigits(n);
    var d := Digits(n);
    assert NumChar(d[0]) && '0' <= d[0] <= '9';
    QuoteHead(d);
    QuoteHead(PROTO);
    assert PROTO[0] == '_';
  }

  lemma QuoteHead(s: string)
    requires |s| > 0 && EscapeChar(s[0]) == [s[0]]
    ensures |Quote(s)| >= 2 && Quote(s)[0] == '"' && Quote(s)[1] == s[0]
    ensures Quote(s)[1..][0] == s[0]
  {
    assert Escape(s) == [s[0]] + Escape(s[1..]);
  }

  lemma LateOwnKey(v: Json, k: string)
    requires KeyBefore(PROTO, k)
    ensures OwnKey(v, k) <==> Blocks(v, k)
  {
    if v.Arr? {
      forall i | 0 <= i < |v.items|
        ensures k != Digits(i)
      {
        IndexIsEarlier(i);
        KeyBeforeStrict(PROTO, k, k);
      }
    }
  }

  /** freezeStateRecord in strict mode: assigning under __proto__ sets the prototype of the copy, and
      assigning where the prototype holds a read-only property throws. It fails exactly on blocked records,
      and else returns the record without __proto__. */
  method FreezeStateRecord(base: State) returns (r: Result<State, StateError>)
    ensures r == Frozen(base)
  {
    var keys := SortKeys(base.Keys);
    r := CopyInOrder(base, PROTO, keys);
    if r.Err? {
      BlockedSomewhere(base, keys);
    } else {
      NothingBlocked(base, keys);
    }
  }

  /** The loop over the sorted keys, where assigning under proto sets the prototype. */
  method CopyInOrder(base: State, proto: string, keys: seq<string>) returns (r: Result<State, StateError>)
    requires InKeyOrder(keys) && Elements(keys) == base.Keys
    ensures r.Ok? <==> forall j :: 0 <= j < |keys| ==> PassesAt(base, proto, keys, j)
    ensures r == if r.Ok? then Ok(base - {proto}) else Err(ReadOnlyProperty)
  {
    var out: State := map[];
    var prototype := Undefined;
    for i := 0 to |keys|
      invariant Copied(base, proto, keys[..i], out, prototype)
      invariant forall j :: 0 <= j < i ==> PassesAt(base, proto, keys, j)
    {
      var ok;
      ok, out, prototype := AssignKey(base, proto, keys, i, out, prototype);
      if !ok {
        return Err(ReadOnlyProperty);
      }
    }
    WholeCopy(base, proto, keys, out, prototype);
    r := Ok(out);
  }

  /** `out[k] = base[k]` for key i. */
  method AssignKey(base: State, proto: string, keys: seq<string>, i: nat, out: State, prototype: Json)
    returns (ok: bool, out': State, prototype': Json)
    requires InKeyOrder(keys) && Elements(keys) == base.Keys && i < |keys|
    requires Copied(base, proto, keys[..i], out, prototype)
    ensures ok <==> PassesAt(base, proto, keys, i)
    ensures ok ==> Copied(base, proto, keys[..i + 1], out', prototype')
  {
    var k := keys[i];
    ok, out', prototype' := !OwnKey(prototype, k), out, prototype;
    if ok {
      CopyStep(base, proto, keys, i, out, prototype);
      if k == proto {
        if BecomesPrototype(base[k]) {
          prototype' := base[k];
        }
      } else {
        out' := out[k := base[k]];
      }
    }
  }

  function NextCopy(base: State, proto: string, k: string, out: State): State
    requires k in base
  {
    if k == proto then out else out[k := base[k]]
  }

  function NextPrototype(base: State, proto: string, k: string, prototype: Json): Json
    requires k in base
  {
    if k == proto && BecomesPrototype(base[k]) then base[k] else prototype
  }

  /** The prototype of the copy once the keys are assigned; undefined while it is the ordinary one. */
  function PrototypeAfter(base: State, proto: string, keys: seq<string>): Json {
    if proto in keys && proto in base && BecomesPrototype(base[proto]) then base[proto] else Undefined
  }

  /** The copy after the keys in done. */
  ghost predicate Copied(base: State, proto: string, done: seq<string>, out: State, prototype: Json) {
    && out.Keys == Elements(done) - {proto} && (forall k :: k in out ==> k in base && out[k] == base[k])
    && prototype == PrototypeAfter(base, proto, done)
  }

  /** The assignment of key j meets no read-only property. */
  predicate PassesAt(base: State, proto: string, keys: seq<string>, j: int)
    requires 0 <= j < |keys|
  {
    !OwnKey(PrototypeAfter(base, proto, keys[..j]), keys[j])
  }

  lemma CopyStep(base: State, proto: string, keys: seq<string>, i: nat, out: State, prototype: Json)
    requires InKeyOrder(keys) && Elements(keys) == base.Keys && i < |keys|
    requires Copied(base, proto, keys[..i], out, prototype)
    ensures keys[i] in base
    ensures Copied(base, proto, keys[..i + 1], NextCopy(base, proto, keys[i], out),
                   NextPrototype(base, proto, keys[i], prototype))
  {
    assert keys[i] in Elements(keys);
    ElementsStep(keys, i);
    PrototypeStep(base, proto, keys, i);
  }

  lemma PrototypeStep(base: State, proto: string, keys: seq<string>, i: nat)
    requires i < |keys| && keys[i] in base
    ensures PrototypeAfter(base, proto, keys[..i + 1])
         == NextPrototype(base, proto, keys[i], PrototypeAfter(base, proto, keys[..i]))
  {
    assert keys[..i + 1] == keys[..i] + [keys[i]];
  }

  lemma WholeCopy(base: State, proto: string, keys: seq<string>, out: State, prototype: Json)
    requires Elements(keys) == base.Keys && Copied(base, proto, keys[..|keys|], out, prototype)
    ensures out == base - {proto}
  {
    assert keys[..|keys|] == keys;
  }

  lemma BlockedSomewhere(base: State, keys: seq<string>)
    requires InKeyOrder(keys) && Elements(keys) == base.Keys
    requires exists i :: 0 <= i < |keys| && !PassesAt(base, PROTO, keys, i)
    ensures Blocked(base)
  {
    var i :| 0 <= i < |keys| && !PassesAt(base, PROTO, keys, i);
    var p :| 0 <= p < |keys[..i]| && keys[..i][p] == PROTO;
    assert KeyBefore(keys[p], keys[i]);
    assert keys[i] in Elements(keys);
    LateOwnKey(base[PROTO], keys[i]);
  }

  lemma NothingBlocked(base: State, keys: seq<string>)
    requires InKeyOrder(keys) && Elements(keys) == base.Keys
    requires forall j :: 0 <= j < |keys| ==> PassesAt(base, PROTO, keys, j)
    ensures !Blocked(base)
  {
    if PROTO in base {
      assert PROTO in Elements(keys);
      var p :| 0 <= p < |keys| && keys[p] == PROTO;
      forall k | k in base
        ensures !Blocks(base[PROTO], k)
      {
        assert k in Elements(keys);
        var j :| 0 <= j < |keys| && keys[j] == k;
        NotBlockedAt(base, keys, p, j);
      }
    }
  }

  lemma NotBlockedAt(base: State, keys: seq<string>, p: nat, j: nat)
    requires InKeyOrder(keys) && p < |keys| && j < |keys| && keys[p] == PROTO && PROTO in base
    requires PassesAt(base, PROTO, keys, j)
    ensures !Blocks(base[PROTO], keys[j])
  {
    if p < j {
      assert keys[..j][p] == PROTO;
      LateOwnKey(base[PROTO], keys[j]);
    } else {
      assert j < p ==> KeyBefore(keys[j], PROTO);
      KeyBeforeStrict(PROTO, keys[j], PROTO);
    }
  }
}
