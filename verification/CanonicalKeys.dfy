/** canonicalizeKeysDeep (src/logging/audit.ts): its loops, its fixpoints, and what it changes in the
    printed text. */
module CanonicalKeys {
  import opened Json
  import opened JsonTheory

  // ----- the loops -----

  /** `out[key] = value` on an ordinary object that has no such property yet. */
  function SetProperty(out: seq<Field>, key: string, value: Json): seq<Field> {
    if key == PROTO then out else out + [Field(key, value)]
  }

  /** The copy is built key by key in sorted order. */
  method CanonicalizeKeysDeep(v: Json) returns (c: Json)
    requires Valid(v)
    ensures c == Canon(v)
    decreases v
  {
    match v
    case Arr(items) =>
      var out: seq<Json> := [];
      for i := 0 to |items|
        invariant |out| == i
        invariant forall k :: 0 <= k < i ==> out[k] == Canon(items[k])
      {
        var item := CanonicalizeKeysDeep(items[i]);
        out := out + [item];
      }
      c := Arr(out);
    case Obj(fields) =>
      var sorted := SortFields(fields);
      var out: seq<Field> := [];
      for i := 0 to |sorted|
        invariant forall f :: f in sorted[i..] ==> f in fields
        invariant CanonFields(v, sorted) == out + CanonFields(v, sorted[i..])
      {
        var f := sorted[i];
        assert sorted[i..][1..] == sorted[i + 1..];
        if f.value != Undefined {
          assert f in fields;
          var value := CanonicalizeKeysDeep(f.value);
          out := SetProperty(out, f.key, value);
        }
      }
      assert CanonFields(v, sorted) == out;
      CanonSortsFirst(v);
      c := Obj(out);
    case _ =>
      c := v;
  }

  /** Sorting before or after the filter makes no difference. */
  lemma CanonSortsFirst(v: Json)
    requires v.Obj? && Valid(v)
    ensures Canon(v) == Obj(CanonFields(v, SortFields(v.fields)))
  {
    var sorted := SortFields(v.fields);
    SortSorts(v.fields);
    CanonFieldsSorted(v, sorted);
    CanonFieldsDistinct(v, v.fields);
    SortSorts(CanonFields(v, v.fields));
    SortedFieldsUnique(SortFields(CanonFields(v, v.fields)), CanonFields(v, sorted));
  }

  lemma {:induction false} CanonFieldsSorted(owner: Json, fs: seq<Field>)
    requires forall f :: f in fs ==> f.value < owner
    requires KeysSorted(fs)
    ensures KeysSorted(CanonFields(owner, fs))
  {
    if |fs| > 0 {
      CanonFieldsSorted(owner, fs[1..]);
      var rest := CanonFields(owner, fs[1..]);
      forall x | x in rest
        ensures StrLess(fs[0].key, x.key)
      {
        var f :| f in fs[1..] && Kept(f) && x == Field(f.key, Canon(f.value));
      }
    }
  }

  lemma {:induction false} CanonFieldsDistinct(owner: Json, fs: seq<Field>)
    requires forall f :: f in fs ==> f.value < owner
    requires DistinctKeys(fs)
    ensures DistinctKeys(CanonFields(owner, fs))
  {
    if |fs| > 0 {
      assert forall f :: f in fs[1..] ==> f in fs;
      CanonFieldsDistinct(owner, fs[1..]);
      var rest := CanonFields(owner, fs[1..]);
      forall x | x in rest
        ensures x.key != fs[0].key
      {
        var f :| f in fs[1..] && Kept(f) && x == Field(f.key, Canon(f.value));
      }
    }
  }

  // ----- without __proto__ -----

  /** No defined property named __proto__ anywhere. */
  predicate NoProto(v: Json) {
    match v
    case Arr(items) => forall i :: 0 <= i < |items| ==> NoProto(items[i])
    case Obj(fields) =>
      forall i :: 0 <= i < |fields| && fields[i].value != Undefined ==>
          fields[i].key != PROTO && NoProto(fields[i].value)
    case _ => true
  }

  /** The value without its properties named __proto__. */
  function DropProto(v: Json): Json
    decreases v, 1
  {
    match v
    case Arr(items) => Arr(seq(|items|, i requires 0 <= i < |items| => DropProto(items[i])))
    case Obj(fields) => Obj(DropFields(v, fields))
    case _ => v
  }

  function DropFields(owner: Json, fs: seq<Field>): (r: seq<Field>)
    requires forall f :: f in fs ==> f.value < owner
    ensures forall x :: x in r <==> exists f :: f in fs && f.key != PROTO && x == Field(f.key, DropProto(f.value))
    decreases owner, 0, |fs|
  {
    if |fs| == 0 then []
    else
      assert forall f :: f in fs <==> f == fs[0] || f in fs[1..];
      var rest := DropFields(owner, fs[1..]);
      if fs[0].key == PROTO then rest else [Field(fs[0].key, DropProto(fs[0].value))] + rest
  }

  lemma DropNotUndefined(v: Json)
    ensures DropProto(v) == Undefined <==> v == Undefined
  {
  }

  lemma {:induction false} DropFieldsDistinct(owner: Json, fs: seq<Field>)
    requires forall f :: f in fs ==> f.value < owner
    requires DistinctKeys(fs)
    ensures DistinctKeys(DropFields(owner, fs))
  {
    if |fs| > 0 {
      assert forall f :: f in fs[1..] ==> f in fs;
      DropFieldsDistinct(owner, fs[1..]);
      var rest := DropFields(owner, fs[1..]);
      forall x | x in rest
        ensures x.key != fs[0].key
      {
        var f :| f in fs[1..] && f.key != PROTO && x == Field(f.key, DropProto(f.value));
      }
    }
  }

  /** Dropping keeps values legal and lossless. */
  lemma {:induction false} DropKeeps(v: Json)
    ensures Valid(v) ==> Valid(DropProto(v))
    ensures Lossless(v) ==> Lossless(DropProto(v))
  {
    match v
    case Arr(items) =>
      var ds := DropProto(v).items;
      forall i | 0 <= i < |items|
        ensures (Valid(items[i]) ==> Valid(ds[i])) && (Lossless(items[i]) ==> Lossless(ds[i]))
      {
        DropKeeps(items[i]);
      }
      if |items| == 1 {
        DropNotUndefined(items[0]);
        assert items == [items[0]];
      }
    case Obj(fields) =>
      if DistinctKeys(fields) {
        DropFieldsDistinct(v, fields);
      }
      forall x | x in DropFields(v, fields)
        ensures (Valid(v) ==> Valid(x.value)) && (Lossless(v) ==> Lossless(x.value))
      {
        var f :| f in fields && f.key != PROTO && x == Field(f.key, DropProto(f.value));
        DropKeeps(f.value);
      }
    case _ =>
  }

  /** canonicalizeKeysDeep normalises what is left without __proto__. */
  lemma {:induction false} CanonIsNormal(v: Json)
    ensures Canon(v) == Normal(DropProto(v))
  {
    match v
    case Arr(items) =>
      var d := DropProto(v);
      forall i | 0 <= i < |items|
        ensures Canon(items[i]) == Normal(d.items[i])
      {
        CanonIsNormal(items[i]);
      }
    case Obj(fields) =>
      forall f | f in fields
        ensures Canon(f.value) == Normal(DropProto(f.value))
      {
        CanonIsNormal(f.value);
      }
      var d := DropProto(v);
      CanonFieldsNormal(v, fields, d, d.fields);
    case _ =>
  }

  lemma {:induction false} CanonFieldsNormal(owner: Json, fs: seq<Field>, owner': Json, gs: seq<Field>)
    requires forall f :: f in fs ==> f.value < owner && Canon(f.value) == Normal(DropProto(f.value))
    requires gs == DropFields(owner, fs) && forall g :: g in gs ==> g.value < owner'
    ensures CanonFields(owner, fs) == NormalFields(owner', gs)
  {
    if |fs| > 0 {
      assert fs[0] in fs;
      DropNotUndefined(fs[0].value);
      var rest := DropFields(owner, fs[1..]);
      if fs[0].key == PROTO {
        CanonFieldsNormal(owner, fs[1..], owner', rest);
      } else {
        assert gs[1..] == rest;
        CanonFieldsNormal(owner, fs[1..], owner', rest);
      }
    }
  }

  // ----- canonical values -----

  /** Keys sorted, no undefined and no __proto__ property, at every level. */
  ghost predicate IsCanon(v: Json) {
    IsNormal(v) && NoProto(v)
  }

  /** Canonical values that print as they are. */
  ghost predicate CanonicalJson(v: Json) {
    IsCanon(v) && Valid(v) && Lossless(v)
  }

  /** Without __proto__ only the keys are sorted and the undefined properties dropped. */
  lemma {:induction false} CanonPlain(v: Json)
    requires NoProto(v)
    ensures Canon(v) == Normal(v)
  {
    match v
    case Arr(items) =>
      forall i | 0 <= i < |items|
        ensures Canon(items[i]) == Normal(items[i])
      {
        CanonPlain(items[i]);
      }
    case Obj(fields) =>
      forall f | f in fields && f.value != Undefined
        ensures f.key != PROTO && Canon(f.value) == Normal(f.value)
      {
        CanonPlain(f.value);
      }
      PlainFields(v, fields);
    case _ =>
  }

  lemma {:induction false} PlainFields(owner: Json, fs: seq<Field>)
    requires forall f :: f in fs ==> f.value < owner
    requires forall f :: f in fs && f.value != Undefined ==> f.key != PROTO && Canon(f.value) == Normal(f.value)
    ensures CanonFields(owner, fs) == NormalFields(owner, fs)
  {
    if |fs| > 0 {
      assert fs[0] in fs;
      PlainFields(owner, fs[1..]);
    }
  }

  lemma {:induction false} CanonHasNoProto(v: Json)
    ensures NoProto(Canon(v))
  {
    match v
    case Arr(items) =>
      forall i | 0 <= i < |items|
        ensures NoProto(Canon(items[i]))
      {
        CanonHasNoProto(items[i]);
      }
    case Obj(fields) =>
      var cs := Canon(v).fields;
      forall i | 0 <= i < |cs|
        ensures cs[i].key != PROTO && NoProto(cs[i].value)
      {
        assert cs[i] in cs;
        assert cs[i] in CanonFields(v, fields);
        var f :| f in fields && Kept(f) && cs[i] == Field(f.key, Canon(f.value));
        CanonHasNoProto(f.value);
      }
    case _ =>
  }

  /** canonicalizeKeysDeep produces a canonical, valid value. */
  lemma CanonIsCanon(v: Json)
    requires Valid(v)
    ensures IsCanon(Canon(v)) && Valid(Canon(v)) && (Lossless(v) ==> Lossless(Canon(v)))
  {
    CanonIsNormal(v);
    DropKeeps(v);
    NormalIsNormal(DropProto(v));
    NormalKeepsLossless(DropProto(v));
    CanonHasNoProto(v);
  }

  /** Exactly the canonical values are left alone. */
  lemma CanonFixpoint(v: Json)
    requires Valid(v)
    ensures Canon(v) == v <==> IsCanon(v)
  {
    if IsCanon(v) {
      CanonPlain(v);
      NormalFixpoint(v);
    }
    CanonIsCanon(v);
  }

  /** Canonicalising twice is canonicalising once. */
  lemma CanonIdempotent(v: Json)
    requires Valid(v)
    ensures Canon(Canon(v)) == Canon(v)
  {
    CanonIsCanon(v);
    CanonFixpoint(Canon(v));
  }

  // ----- what canonicalising changes -----

  lemma {:induction false} NormalKeepsProto(v: Json)
    ensures NoProto(Normal(v)) <==> NoProto(v)
  {
    match v
    case Arr(items) =>
      var ns := Normal(v).items;
      forall i | 0 <= i < |items|
        ensures NoProto(ns[i]) <==> NoProto(items[i])
      {
        NormalKeepsProto(items[i]);
      }
    case Obj(fields) =>
      forall f | f in fields
        ensures NoProto(Normal(f.value)) <==> NoProto(f.value)
      {
        NormalKeepsProto(f.value);
      }
      if NoProto(v) {
        ProtoDown(v);
      }
      if NoProto(Normal(v)) {
        ProtoUp(v);
      }
    case _ =>
  }

  lemma ProtoDown(v: Json)
    requires v.Obj? && NoProto(v)
    requires forall f :: f in v.fields ==> (NoProto(Normal(f.value)) <==> NoProto(f.value))
    ensures NoProto(Normal(v))
  {
    var ns := Normal(v).fields;
    forall i | 0 <= i < |ns|
      ensures ns[i].key != PROTO && NoProto(ns[i].value)
    {
      assert ns[i] in ns;
      var j := NormalOrigin(v, ns[i]);
      assert v.fields[j] in v.fields;
    }
  }

  lemma ProtoUp(v: Json)
    requires v.Obj? && NoProto(Normal(v))
    requires forall f :: f in v.fields ==> (NoProto(Normal(f.value)) <==> NoProto(f.value))
    ensures NoProto(v)
  {
    var fs, ns := v.fields, Normal(v).fields;
    forall i | 0 <= i < |fs| && fs[i].value != Undefined
      ensures fs[i].key != PROTO && NoProto(fs[i].value)
    {
      NormalFieldMember(v, fs, fs[i]);
      NormalNotUndefined(fs[i].value);
      var x := Field(fs[i].key, Normal(fs[i].value));
      assert x in ns;
      var j :| 0 <= j < |ns| && ns[j] == x;
    }
  }

  lemma {:induction false} PrintedKeepsProto(v: Json)
    ensures NoProto(Printed(v)) <==> NoProto(v)
  {
    match v
    case Arr(items) =>
      if items == [Undefined] {
        assert NoProto(items[0]);
      } else {
        var ps := Printed(v).items;
        forall i | 0 <= i < |items|
          ensures NoProto(ps[i]) <==> NoProto(items[i])
        {
          PrintedKeepsProto(items[i]);
        }
      }
    case Obj(fields) =>
      var ps := Printed(v).fields;
      forall i | 0 <= i < |fields|
        ensures NoProto(ps[i].value) <==> NoProto(fields[i].value)
        ensures ps[i].value == Undefined <==> fields[i].value == Undefined
      {
        PrintedKeepsProto(fields[i].value);
        PrintedFixpoint(fields[i].value);
      }
    case _ =>
  }

  /** Canonicalising leaves the printed string unchanged exactly when no defined property is named
      __proto__. */
  lemma StringifyOfCanon(v: Json)
    requires Valid(v)
    ensures Stringify(Canon(v)) == Stringify(v) <==> NoProto(v)
  {
    CanonIsCanon(v);
    if NoProto(v) {
      CanonPlain(v);
      StringifyOfNormal(v);
    }
    StringifyKernel(Canon(v), v);
    PrintedKeepsProto(v);
    NormalKeepsProto(Printed(v));
    PrintedKeepsProto(Canon(v));
    NormalKeepsProto(Printed(Canon(v)));
  }

  /** Two values have one canonical form exactly when they are equal, without their __proto__ properties,
      up to key order and undefined properties. */
  lemma EquivIffCanon(v: Json, w: Json)
    requires Valid(v) && Valid(w)
    ensures Canon(v) == Canon(w) <==> Equiv(DropProto(v), DropProto(w))
    ensures NoProto(v) && NoProto(w) ==> (Canon(v) == Canon(w) <==> Equiv(v, w))
  {
    CanonIsNormal(v);
    CanonIsNormal(w);
    DropKeeps(v);
    DropKeeps(w);
    EquivIffNormal(DropProto(v), DropProto(w));
    if NoProto(v) && NoProto(w) {
      CanonPlain(v);
      CanonPlain(w);
      EquivIffNormal(v, w);
    }
  }

  /** The loss is real: `{"__proto__":1}` and `{}` have one canonical form. */
  lemma ProtoIsLost()
    ensures var v := Obj([Field(PROTO, Num("1"))]);
      && Valid(v) && Canon(v) == Canon(Obj([]))
      && Stringify(v) != Stringify(Obj([])) && !Equiv(v, Obj([]))
  {
    var v := Obj([Field(PROTO, Num("1"))]);
    assert !NoProto(v) by {
      assert v.fields[0].key == PROTO;
    }
    assert CanonFields(v, v.fields) == [] by {
      assert !Kept(v.fields[0]);
      assert CanonFields(v, v.fields[1..]) == [];
    }
    StringifyOfCanon(v);
    assert v.fields[0] in v.fields;
  }

  /** Canonical values are determined by their text. */
  lemma CanonicalTextInjective(v: Json, w: Json)
    requires CanonicalJson(v) && CanonicalJson(w)
    ensures Stringify(v) == Stringify(w) <==> v == w
  {
    StringifyKernel(v, w);
    ShownLossless(v);
    ShownLossless(w);
    NormalFixpoint(v);
    NormalFixpoint(w);
  }
}
