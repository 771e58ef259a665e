/** JSON values as the logging and distributed layers handle them, and the canonical printer
    (src/logging/stableAudit.ts) with the key canonicaliser (src/logging/audit.ts). */
module Json {

  /** A JavaScript value tree. A finite number is represented by the token its printing yields, and an object
      by its own enumerable properties in insertion order. Integer-like keys are treated like all others,
      although the language lists them first and by number: texts are not affected, as printing sorts the keys. */
  datatype Json =
    | Undefined
    | Null
    | Bool(b: bool)
    | Num(token: string)
    | NonFinite(which: Special)
    | Str(s: string)
    | Arr(items: seq<Json>)
    | Obj(fields: seq<Field>)

  datatype Field = Field(key: string, value: Json)

  datatype Special = NaN | PositiveInfinity | NegativeInfinity

  /** Assigning under this key calls the prototype setter of an ordinary object: no own property appears. */
  const PROTO: string := "__proto__"

  // ----- lexicographic order on strings -----

  predicate StrLess(a: string, b: string) {
    if |b| == 0 then false
    else if |a| == 0 then true
    else a[0] < b[0] || (a[0] == b[0] && StrLess(a[1..], b[1..]))
  }

  lemma StrLessIrreflexive(a: string)
    ensures !StrLess(a, a)
  {
  }

  lemma {:induction false} StrLessTransitive(a: string, b: string, c: string)
    requires StrLess(a, b) && StrLess(b, c)
    ensures StrLess(a, c)
  {
    if |a| > 0 && a[0] == b[0] == c[0] {
      StrLessTransitive(a[1..], b[1..], c[1..]);
    }
  }

  lemma {:induction false} StrLessTotal(a: string, b: string)
    ensures StrLess(a, b) || a == b || StrLess(b, a)
  {
    if |a| > 0 && |b| > 0 && a[0] == b[0] {
      StrLessTotal(a[1..], b[1..]);
      assert a == [a[0]] + a[1..] && b == [b[0]] + b[1..];
    }
  }

  /** The order of strings: a proper prefix comes first, otherwise the first difference decides. */
  lemma {:induction false} StrLessExactly(a: string, b: string)
    ensures StrLess(a, b) <==>
              a < b || exists k :: 0 <= k < |a| && k < |b| && a[..k] == b[..k] && a[k] < b[k]
  {
    if |a| > 0 && |b| > 0 && a[0] == b[0] {
      StrLessExactly(a[1..], b[1..]);
      assert a == [a[0]] + a[1..] && b == [b[0]] + b[1..];
      assert a < b <==> a[1..] < b[1..];
      if k :| 0 <= k < |a[1..]| && k < |b[1..]| && a[1..][..k] == b[1..][..k] && a[1..][k] < b[1..][k] {
        assert a[..k + 1] == [a[0]] + a[1..][..k] && b[..k + 1] == [b[0]] + b[1..][..k];
        assert a[k + 1] < b[k + 1];
      }
      if k :| 0 <= k < |a| && k < |b| && a[..k] == b[..k] && a[k] < b[k] {
        assert a[1..][..k - 1] == a[..k][1..] && b[1..][..k - 1] == b[..k][1..];
      }
    } else if |a| > 0 && |b| > 0 {
      assert a[..0] == b[..0];
    }
  }

  // ----- sorting properties by key -----

  predicate DistinctKeys(fs: seq<Field>) {
    forall i, j :: 0 <= i < j < |fs| ==> fs[i].key != fs[j].key
  }

  ghost predicate KeysSorted(fs: seq<Field>) {
    forall i, j :: 0 <= i < j < |fs| ==> StrLess(fs[i].key, fs[j].key)
  }

  function InsertField(f: Field, fs: seq<Field>): (r: seq<Field>)
    ensures forall x :: x in r <==> x == f || x in fs
  {
    if |fs| == 0 || StrLess(f.key, fs[0].key) then [f] + fs
    else
      var rest := InsertField(f, fs[1..]);
      assert forall x :: x in fs <==> x == fs[0] || x in fs[1..];
      [fs[0]] + rest
  }

  function SortFields(fs: seq<Field>): (r: seq<Field>)
    ensures forall x :: x in r <==> x in fs
  {
    if |fs| == 0 then []
    else
      assert forall x :: x in fs <==> x == fs[0] || x in fs[1..];
      InsertField(fs[0], SortFields(fs[1..]))
  }

  lemma {:induction false} InsertKeepsSorted(f: Field, fs: seq<Field>)
    requires KeysSorted(fs) && forall x :: x in fs ==> x.key != f.key
    ensures KeysSorted(InsertField(f, fs))
  {
    if |fs| == 0 {
    } else if StrLess(f.key, fs[0].key) {
      forall i | 0 < i < |fs|
        ensures StrLess(f.key, fs[i].key)
      {
        StrLessTransitive(f.key, fs[0].key, fs[i].key);
      }
    } else {
      StrLessTotal(f.key, fs[0].key);
      InsertKeepsSorted(f, fs[1..]);
      var r := InsertField(f, fs[1..]);
      assert forall x :: x in r ==> StrLess(fs[0].key, x.key);
    }
  }

  lemma {:induction false} SortSorts(fs: seq<Field>)
    requires DistinctKeys(fs)
    ensures KeysSorted(SortFields(fs))
  {
    if |fs| > 0 {
      SortSorts(fs[1..]);
      InsertKeepsSorted(fs[0], SortFields(fs[1..]));
    }
  }

  lemma SortedDistinct(fs: seq<Field>)
    requires KeysSorted(fs)
    ensures DistinctKeys(fs)
  {
    forall i, j | 0 <= i < j < |fs|
      ensures fs[i].key != fs[j].key
    {
      StrLessIrreflexive(fs[i].key);
    }
  }

  lemma FirstIsMember(fs: seq<Field>)
    ensures |fs| > 0 ==> fs[0] in fs
  {
  }

  /** A sorted listing is determined by the properties it lists. */
  lemma {:induction false} SortedFieldsUnique(fs: seq<Field>, gs: seq<Field>)
    requires KeysSorted(fs) && KeysSorted(gs)
    requires forall x :: x in fs <==> x in gs
    ensures fs == gs
  {
    FirstIsMember(gs);
    if |fs| > 0 {
      assert fs[0] in gs;
      assert gs[0] in fs;
      if fs[0] != gs[0] {
        StrLessTransitive(fs[0].key, gs[0].key, fs[0].key);
        StrLessIrreflexive(fs[0].key);
        assert false;
      }
      StrLessIrreflexive(fs[0].key);
      forall x
        ensures x in fs[1..] <==> x in gs[1..]
      {
        assert x in fs <==> x == fs[0] || x in fs[1..];
        assert x in gs <==> x == gs[0] || x in gs[1..];
      }
      SortedFieldsUnique(fs[1..], gs[1..]);
      assert fs == [fs[0]] + fs[1..] && gs == [gs[0]] + gs[1..];
    }
  }

  lemma SortOfSorted(fs: seq<Field>)
    requires KeysSorted(fs)
    ensures SortFields(fs) == fs
  {
    SortedDistinct(fs);
    SortSorts(fs);
    SortedFieldsUnique(SortFields(fs), fs);
  }

  // ----- printing -----

  function HexDigit(n: int): char
    requires 0 <= n < 16
  {
    "0123456789abcdef"[n]
  }

  /** The escape sequence JSON.stringify emits for one character. */
  function EscapeChar(c: char): (r: string)
    ensures |r| >= 1
  {
    if c == '"' then "\\\""
    else if c == '\\' then "\\\\"
    else if c as int == 8 then "\\b"
    else if c as int == 9 then "\\t"
    else if c as int == 10 then "\\n"
    else if c as int == 12 then "\\f"
    else if c as int == 13 then "\\r"
    else if (c as int) < 32 then "\\u00" + [HexDigit(c as int / 16), HexDigit(c as int % 16)]
    else [c]
  }

  function Escape(s: string): string {
    if |s| == 0 then "" else EscapeChar(s[0]) + Escape(s[1..])
  }

  function Quote(s: string): string {
    "\"" + Escape(s) + "\""
  }

  /** Array.prototype.join with a comma. */
  function Join(parts: seq<string>): string {
    if |parts| == 0 then ""
    else if |parts| == 1 then parts[0]
    else parts[0] + "," + Join(parts[1..])
  }

  /** stableStringify. An undefined array element joins as the empty string, an undefined property
      is skipped, a non-finite number prints as null. */
  function Stringify(v: Json): string
    decreases v, 1
  {
    match v
    case Undefined => ""
    case Null => "null"
    case Bool(b) => if b then "true" else "false"
    case Num(token) => token
    case NonFinite(_) => "null"
    case Str(s) => Quote(s)
    case Arr(items) => "[" + Join(seq(|items|, i requires 0 <= i < |items| => Stringify(items[i]))) + "]"
    case Obj(fields) => "{" + Join(FieldTexts(v, SortFields(fields))) + "}"
  }

  function FieldTexts(owner: Json, fs: seq<Field>): seq<string>
    requires forall f :: f in fs ==> f.value < owner
    decreases owner, 0, |fs|
  {
    if |fs| == 0 then []
    else if fs[0].value == Undefined then FieldTexts(owner, fs[1..])
    else [Quote(fs[0].key) + ":" + Stringify(fs[0].value)] + FieldTexts(owner, fs[1..])
  }

  /** The printer's own loops: parts are pushed in key order and joined. */
  method StableStringify(v: Json) returns (text: string)
    ensures text == Stringify(v)
    decreases v
  {
    match v
    case Undefined => text := "";
    case Null => text := "null";
    case Bool(b) => text := if b then "true" else "false";
    case Num(token) => text := token;
    case NonFinite(_) => text := "null";
    case Str(s) => text := Quote(s);
    case Arr(items) =>
      var parts: seq<string> := [];
      for i := 0 to |items|
        invariant |parts| == i
        invariant forall k :: 0 <= k < i ==> parts[k] == Stringify(items[k])
      {
        var part := StableStringify(items[i]);
        parts := parts + [part];
      }
      assert parts == seq(|items|, i requires 0 <= i < |items| => Stringify(items[i]));
      text := "[" + Join(parts) + "]";
    case Obj(fields) =>
      var sorted := SortFields(fields);
      var parts: seq<string> := [];
      for i := 0 to |sorted|
        invariant forall f :: f in sorted[i..] ==> f in fields
        invariant FieldTexts(v, sorted) == parts + FieldTexts(v, sorted[i..])
      {
        var f := sorted[i];
        assert sorted[i..][1..] == sorted[i + 1..];
        if f.value != Undefined {
          assert f in fields;
          var part := StableStringify(f.value);
          parts := parts + [Quote(f.key) + ":" + part];
        }
      }
      assert FieldTexts(v, sorted) == parts;
      text := "{" + Join(parts) + "}";
  }

  /** canonicalizeKeysDeep: keys sorted at every level; undefined properties are skipped, and a property
      named __proto__ is lost in the assignment to the copy. */
  function Canon(v: Json): Json
    decreases v, 1
  {
    match v
    case Arr(items) => Arr(seq(|items|, i requires 0 <= i < |items| => Canon(items[i])))
    case Obj(fields) => Obj(SortFields(CanonFields(v, fields)))
    case _ => v
  }

  predicate Kept(f: Field) {
    f.value != Undefined && f.key != PROTO
  }

  function CanonFields(owner: Json, fs: seq<Field>): (r: seq<Field>)
    requires forall f :: f in fs ==> f.value < owner
    ensures forall x :: x in r <==> exists f :: f in fs && Kept(f) && x == Field(f.key, Canon(f.value))
    decreases owner, 0, |fs|
  {
    if |fs| == 0 then []
    else
      assert forall f :: f in fs <==> f == fs[0] || f in fs[1..];
      var rest := CanonFields(owner, fs[1..]);
      if Kept(fs[0]) then [Field(fs[0].key, Canon(fs[0].value))] + rest
      else rest
  }

  // ----- which values -----

  predicate NumChar(c: char) {
    '0' <= c <= '9' || c == '-' || c == '+' || c == '.' || c == 'e'
  }

  /** Tokens of finite numbers begin with a digit or a minus sign. */
  predicate NumToken(t: string) {
    |t| > 0 && ('0' <= t[0] <= '9' || t[0] == '-') && forall c :: c in t ==> NumChar(c)
  }

  /** Values the language can hold: an object has one property per key. */
  predicate Valid(v: Json) {
    match v
    case Num(token) => NumToken(token)
    case Arr(items) => forall i :: 0 <= i < |items| ==> Valid(items[i])
    case Obj(fields) => DistinctKeys(fields) && forall i :: 0 <= i < |fields| ==> Valid(fields[i].value)
    case _ => true
  }

  /** Nothing inside v prints like something else: no array is the one-element array holding undefined,
      no number is non-finite. */
  predicate Lossless(v: Json) {
    match v
    case NonFinite(_) => false
    case Arr(items) => items != [Undefined] && forall i :: 0 <= i < |items| ==> Lossless(items[i])
    case Obj(fields) => forall i :: 0 <= i < |fields| ==> Lossless(fields[i].value)
    case _ => true
  }

  /** Equality up to the order of object keys and up to undefined properties. */
  ghost predicate Equiv(v: Json, w: Json) {
    match (v, w)
    case (Arr(xs), Arr(ys)) =>
      |xs| == |ys| && forall i :: 0 <= i < |xs| ==> Equiv(xs[i], ys[i])
    case (Obj(fs), Obj(gs)) =>
      && (forall f :: f in fs && f.value != Undefined ==>
            exists g :: g in gs && g.key == f.key && g.value != Undefined && Equiv(f.value, g.value))
      && (forall g :: g in gs && g.value != Undefined ==>
            exists f :: f in fs && f.key == g.key && f.value != Undefined && Equiv(f.value, g.value))
    case _ => v == w
  }
}
