/** Properties of the canonical printer: the text determines the value up to key order, undefined
    properties, [undefined] read as [] and non-finite numbers read as null. */
module JsonTheory {
  import opened Json

  // ----- normal form -----

  /** Keys sorted at every level, undefined properties dropped: what every text can be read back to. */
  function Normal(v: Json): Json
    decreases v, 1
  {
    match v
    case Arr(items) => Arr(seq(|items|, i requires 0 <= i < |items| => Normal(items[i])))
    case Obj(fields) => Obj(SortFields(NormalFields(v, fields)))
    case _ => v
  }

  function NormalFields(owner: Json, fs: seq<Field>): (r: seq<Field>)
    requires forall f :: f in fs ==> f.value < owner
    ensures forall x :: x in r <==> exists f :: f in fs && f.value != Undefined && x == Field(f.key, Normal(f.value))
    decreases owner, 0, |fs|
  {
    if |fs| == 0 then []
    else
      assert forall f :: f in fs <==> f == fs[0] || f in fs[1..];
      var rest := NormalFields(owner, fs[1..]);
      if fs[0].value == Undefined then rest
      else [Field(fs[0].key, Normal(fs[0].value))] + rest
  }

  ghost predicate IsNormal(v: Json) {
    match v
    case Arr(items) => forall i :: 0 <= i < |items| ==> IsNormal(items[i])
    case Obj(fields) =>
      && KeysSorted(fields)
      && forall i :: 0 <= i < |fields| ==> fields[i].value != Undefined && IsNormal(fields[i].value)
    case _ => true
  }

  lemma {:induction false} NormalFieldsDistinct(owner: Json, fs: seq<Field>)
    requires forall f :: f in fs ==> f.value < owner
    requires DistinctKeys(fs)
    ensures DistinctKeys(NormalFields(owner, fs))
  {
    if |fs| > 0 {
      assert forall f :: f in fs[1..] ==> f in fs;
      NormalFieldsDistinct(owner, fs[1..]);
      var rest := NormalFields(owner, fs[1..]);
      forall x | x in rest
        ensures x.key != fs[0].key
      {
        var f :| f in fs[1..] && f.value != Undefined && x == Field(f.key, Normal(f.value));
      }
    }
  }

  lemma NormalNotUndefined(v: Json)
    ensures Normal(v) == Undefined <==> v == Undefined
  {
  }

  /** Normalising produces a normal, valid value. */
  lemma {:induction false} NormalIsNormal(v: Json)
    requires Valid(v)
    ensures IsNormal(Normal(v)) && Valid(Normal(v))
  {
    match v
    case Arr(items) =>
      forall i | 0 <= i < |items|
        ensures IsNormal(Normal(items[i])) && Valid(Normal(items[i]))
      {
        NormalIsNormal(items[i]);
      }
    case Obj(fields) =>
      var cs := NormalFields(v, fields);
      NormalFieldsDistinct(v, fields);
      SortSorts(cs);
      SortedDistinct(SortFields(cs));
      forall x | x in SortFields(cs)
        ensures x.value != Undefined && IsNormal(x.value) && Valid(x.value)
      {
        assert x in cs;
        var f :| f in fields && f.value != Undefined && x == Field(f.key, Normal(f.value));
        NormalIsNormal(f.value);
      }
    case _ =>
  }

  /** Normalising leaves a normal value alone. */
  lemma {:induction false} NormalFixpoint(v: Json)
    requires IsNormal(v)
    ensures Normal(v) == v
  {
    match v
    case Arr(items) =>
      forall i | 0 <= i < |items|
        ensures Normal(items[i]) == items[i]
      {
        NormalFixpoint(items[i]);
      }
    case Obj(fields) =>
      forall f | f in fields
        ensures f.value != Undefined && Normal(f.value) == f.value
      {
        NormalFixpoint(f.value);
      }
      NormalFieldsSame(v, fields);
      SortOfSorted(fields);
    case _ =>
  }

  lemma {:induction false} NormalFieldsSame(owner: Json, fs: seq<Field>)
    requires forall f :: f in fs ==> f.value < owner && f.value != Undefined && Normal(f.value) == f.value
    ensures NormalFields(owner, fs) == fs
  {
    if |fs| > 0 {
      assert fs[0] in fs;
      NormalFieldsSame(owner, fs[1..]);
    }
  }

  /** Texts of the defined fields, as if each value were printed after normalising. */
  lemma {:induction false} FieldTextsOfNormal(owner: Json, fs: seq<Field>, owner': Json, gs: seq<Field>)
    requires forall f :: f in fs ==> f.value < owner && Stringify(Normal(f.value)) == Stringify(f.value)
    requires gs == NormalFields(owner, fs)
    requires forall g :: g in gs ==> g.value < owner'
    ensures FieldTexts(owner', gs) == FieldTexts(owner, fs)
  {
    if |fs| > 0 {
      assert fs[0] in fs;
      NormalNotUndefined(fs[0].value);
      var rest := NormalFields(owner, fs[1..]);
      if fs[0].value == Undefined {
        FieldTextsOfNormal(owner, fs[1..], owner', rest);
      } else {
        assert gs[1..] == rest;
        FieldTextsOfNormal(owner, fs[1..], owner', rest);
      }
    }
  }

  lemma {:induction false} NormalOfSorted(owner: Json, fs: seq<Field>)
    requires forall f :: f in fs ==> f.value < owner
    requires KeysSorted(fs)
    ensures KeysSorted(NormalFields(owner, fs))
  {
    if |fs| > 0 {
      NormalOfSorted(owner, fs[1..]);
      var rest := NormalFields(owner, fs[1..]);
      forall x | x in rest
        ensures StrLess(fs[0].key, x.key)
      {
        var f :| f in fs[1..] && f.value != Undefined && x == Field(f.key, Normal(f.value));
      }
    }
  }

  /** Normalising does not change the printed string. */
  lemma {:induction false} StringifyOfNormal(v: Json)
    requires Valid(v)
    ensures Stringify(Normal(v)) == Stringify(v)
  {
    match v
    case Arr(items) =>
      forall i | 0 <= i < |items|
        ensures Stringify(Normal(items[i])) == Stringify(items[i])
      {
        StringifyOfNormal(items[i]);
      }
      var c := Normal(v);
      assert seq(|c.items|, i requires 0 <= i < |c.items| => Stringify(c.items[i]))
          == seq(|items|, i requires 0 <= i < |items| => Stringify(items[i]));
    case Obj(fields) =>
      forall f | f in fields
        ensures Stringify(Normal(f.value)) == Stringify(f.value)
      {
        StringifyOfNormal(f.value);
      }
      NormalIsNormal(v);
      var c := Normal(v);
      SortOfSorted(c.fields);
      SortSorts(fields);
      var sorted := SortFields(fields);
      NormalOfSorted(v, sorted);
      SortedFieldsUnique(c.fields, NormalFields(v, sorted));
      FieldTextsOfNormal(v, sorted, c, c.fields);
    case _ =>
  }

  // ----- unique decoding of the printed text -----

  /** The characters that may follow a printed value. */
  predicate Terminated(s: string) {
    |s| > 0 ==> s[0] == ',' || s[0] == ']' || s[0] == '}'
  }

  lemma EscapeCharDecodes(c: char, d: char, x: string, y: string)
    requires EscapeChar(c) + x == EscapeChar(d) + y
    ensures c == d && x == y
  {
    var l, r := EscapeChar(c) + x, EscapeChar(d) + y;
    var ec, ed := EscapeChar(c), EscapeChar(d);
    assert l[0] == ec[0] && r[0] == ed[0];
    if ec[0] == '\\' && ed[0] == '\\' {
      assert l[1] == ec[1] && r[1] == ed[1];
      if ec[1] == 'u' {
        assert l[4] == ec[4] && r[4] == ed[4];
        assert l[5] == ec[5] && r[5] == ed[5];
        HexDigitInjective(c as int / 16, d as int / 16);
        HexDigitInjective(c as int % 16, d as int % 16);
      }
    }
    assert ec == ed;
    assert x == l[|ec|..] && y == r[|ed|..];
  }

  lemma HexDigitInjective(m: int, n: int)
    requires 0 <= m < 16 && 0 <= n < 16
    ensures HexDigit(m) == HexDigit(n) ==> m == n
  {
  }

  lemma EscapeCharHead(c: char)
    ensures EscapeChar(c)[0] != '"'
  {
  }

  lemma {:induction false} QuoteBodyDecodes(s: string, t: string, x: string, y: string)
    requires Escape(s) + ("\"" + x) == Escape(t) + ("\"" + y)
    ensures s == t && x == y
  {
    var qx, qy := "\"" + x, "\"" + y;
    assert qx[0] == '"' && qx[1..] == x && qy[0] == '"' && qy[1..] == y;
    EscapeHead(s, qx);
    EscapeHead(t, qy);
    if |s| > 0 && |t| > 0 {
      Assoc(EscapeChar(s[0]), Escape(s[1..]), qx);
      Assoc(EscapeChar(t[0]), Escape(t[1..]), qy);
      EscapeCharDecodes(s[0], t[0], Escape(s[1..]) + qx, Escape(t[1..]) + qy);
      QuoteBodyDecodes(s[1..], t[1..], x, y);
      assert s == [s[0]] + s[1..] && t == [t[0]] + t[1..];
    }
  }

  lemma EscapeHead(s: string, qx: string)
    requires |qx| > 0 && qx[0] == '"'
    ensures (Escape(s) + qx)[0] == '"' <==> |s| == 0
    ensures |s| == 0 ==> Escape(s) + qx == qx
  {
    if |s| > 0 {
      EscapeCharHead(s[0]);
    }
  }

  lemma Head(a: string, x: string)
    ensures |a| > 0 ==> (a + x)[0] == a[0]
  {
  }

  lemma Assoc(a: string, b: string, c: string)
    ensures (a + b) + c == a + (b + c)
  {
  }

  lemma Cancel(a: string, x: string, y: string)
    requires a + x == a + y
    ensures x == y
  {
    assert x == (a + x)[|a|..] && y == (a + y)[|a|..];
  }

  lemma QuoteSplit(s: string, x: string)
    ensures Quote(s) + x == "\"" + (Escape(s) + ("\"" + x))
  {
  }

  /** A quoted string can be read back whatever follows it. */
  lemma QuoteDecodes(s: string, t: string, x: string, y: string)
    requires Quote(s) + x == Quote(t) + y
    ensures s == t && x == y
  {
    QuoteSplit(s, x);
    QuoteSplit(t, y);
    Cancel("\"", Escape(s) + ("\"" + x), Escape(t) + ("\"" + y));
    QuoteBodyDecodes(s, t, x, y);
  }

  lemma TokenStops(b: string, x: string, y: string)
    requires |b| > 0 && NumChar(b[0]) && Terminated(x)
    ensures x != b + y
  {
    assert (b + y)[0] == b[0];
  }

  /** A number token ends where its terminator begins. */
  lemma {:induction false} TokenDecodes(a: string, b: string, x: string, y: string)
    requires forall i :: 0 <= i < |a| ==> NumChar(a[i])
    requires forall i :: 0 <= i < |b| ==> NumChar(b[i])
    requires Terminated(x) && Terminated(y)
    requires a + x == b + y
    ensures a == b && x == y
  {
    assert |a| == 0 ==> a + x == x;
    assert |b| == 0 ==> b + y == y;
    if |a| == 0 {
      if |b| > 0 { TokenStops(b, x, y); }
    } else if |b| == 0 {
      TokenStops(a, y, x);
    } else {
      assert (a + x)[0] == a[0] && (b + y)[0] == b[0];
      assert (a + x)[1..] == a[1..] + x && (b + y)[1..] == b[1..] + y;
      TokenDecodes(a[1..], b[1..], x, y);
      assert a == [a[0]] + a[1..] && b == [b[0]] + b[1..];
    }
  }

  /** First character of a printed value: it tells the constructor. */
  lemma StringifyHead(v: Json)
    requires Valid(v)
    ensures v != Undefined ==> |Stringify(v)| > 0
    ensures v != Undefined ==> var c := Stringify(v)[0];
      && c != ',' && c != ']' && c != '}'
      && (v.Null? || v.NonFinite? <==> c == 'n')
      && (v.Bool? <==> c == 't' || c == 'f')
      && (v.Num? <==> '0' <= c <= '9' || c == '-')
      && (v.Str? <==> c == '"')
      && (v.Arr? <==> c == '[')
      && (v.Obj? <==> c == '{')
  {
  }

  function ItemTexts(items: seq<Json>): seq<string> {
    seq(|items|, i requires 0 <= i < |items| => Stringify(items[i]))
  }

  /** What follows the first part of a joined list. */
  function Tail(parts: seq<string>, close: string): string
    requires |parts| > 0
  {
    if |parts| == 1 then close else "," + (Join(parts[1..]) + close)
  }

  lemma JoinSplit(parts: seq<string>, close: string)
    requires |parts| > 0
    ensures Join(parts) + close == parts[0] + Tail(parts, close)
  {
  }

  lemma Prepend(c: string, parts: seq<string>, close: string, x: string)
    ensures (c + Join(parts) + close) + x == c + (Join(parts) + (close + x))
  {
  }

  ghost predicate GoodItem(v: Json) {
    IsNormal(v) && Valid(v) && Lossless(v)
  }

  ghost predicate GoodField(f: Field) {
    f.value != Undefined && GoodItem(f.value)
  }

  /** Printed values are uniquely decodable. */
  lemma {:induction false} StringifyDecodes(v: Json, w: Json, x: string, y: string)
    requires GoodItem(v) && GoodItem(w)
    requires Terminated(x) && Terminated(y)
    requires Stringify(v) + x == Stringify(w) + y
    ensures v == w && x == y
    decreases v, 3
  {
    if v == Undefined || w == Undefined {
      UndefinedDecodes(v, w, x, y);
    } else {
      SameConstructor(v, w, x, y);
      match v
      case Num(token) =>
        TokenDecodes(token, w.token, x, y);
      case Str(s) => QuoteDecodes(s, w.s, x, y);
      case Arr(items) =>
        Prepend("[", ItemTexts(items), "]", x);
        Prepend("[", ItemTexts(w.items), "]", y);
        Cancel("[", Join(ItemTexts(items)) + ("]" + x), Join(ItemTexts(w.items)) + ("]" + y));
        ItemsDecode(v, items, w.items, x, y);
      case Obj(fields) =>
        SortOfSorted(fields);
        SortOfSorted(w.fields);
        Prepend("{", FieldTexts(v, fields), "}", x);
        Prepend("{", FieldTexts(w, w.fields), "}", y);
        Cancel("{", Join(FieldTexts(v, fields)) + ("}" + x), Join(FieldTexts(w, w.fields)) + ("}" + y));
        FieldsDecode(v, fields, w, w.fields, x, y);
      case _ =>
        Cancel(Stringify(v), x, y);
    }
  }

  lemma UndefinedDecodes(v: Json, w: Json, x: string, y: string)
    requires Valid(v) && Valid(w) && (v == Undefined || w == Undefined)
    requires Terminated(x) && Terminated(y)
    requires Stringify(v) + x == Stringify(w) + y
    ensures v == w && x == y
  {
    assert Stringify(Undefined) + x == x && Stringify(Undefined) + y == y;
    Head(Stringify(v), x);
    Head(Stringify(w), y);
    StringifyHead(v);
    StringifyHead(w);
  }

  lemma SameConstructor(v: Json, w: Json, x: string, y: string)
    requires Valid(v) && Valid(w) && v != Undefined && w != Undefined && !v.NonFinite? && !w.NonFinite?
    requires Stringify(v) + x == Stringify(w) + y
    ensures v.Null? == w.Null? && v.Num? == w.Num? && v.Str? == w.Str? && v.Arr? == w.Arr? && v.Obj? == w.Obj?
    ensures v.Bool? ==> w.Bool? && v.b == w.b
  {
    StringifyHead(v);
    StringifyHead(w);
    assert (Stringify(v) + x)[0] == Stringify(v)[0] && (Stringify(w) + y)[0] == Stringify(w)[0];
  }

  lemma {:induction false} ItemsDecode(owner: Json, xs: seq<Json>, ys: seq<Json>, x: string, y: string)
    requires forall i :: 0 <= i < |xs| ==> xs[i] < owner && GoodItem(xs[i])
    requires forall i :: 0 <= i < |ys| ==> GoodItem(ys[i])
    requires xs != [Undefined] && ys != [Undefined]
    requires Join(ItemTexts(xs)) + ("]" + x) == Join(ItemTexts(ys)) + ("]" + y)
    ensures xs == ys && x == y
    decreases owner, 2
  {
    if |xs| == 0 && |ys| == 0 {
      assert "" + ("]" + x) == "]" + x && "" + ("]" + y) == "]" + y;
      Cancel("]", x, y);
    } else if |xs| == 0 {
      assert (Join(ItemTexts(xs)) + ("]" + x))[0] == ']';
      NonEmptyItemsHead(ys, y);
    } else if |ys| == 0 {
      assert (Join(ItemTexts(ys)) + ("]" + y))[0] == ']';
      NonEmptyItemsHead(xs, x);
    } else {
      ItemsTailDecode(owner, xs, ys, x, y);
    }
  }

  lemma NonEmptyItemsHead(ys: seq<Json>, y: string)
    requires |ys| > 0 && ys != [Undefined]
    requires forall i :: 0 <= i < |ys| ==> GoodItem(ys[i])
    ensures (Join(ItemTexts(ys)) + ("]" + y))[0] != ']'
  {
    JoinSplit(ItemTexts(ys), "]" + y);
    if ys[0] != Undefined {
      StringifyHead(ys[0]);
    } else {
      assert ys == [ys[0]] + ys[1..];
    }
  }

  /** Two non-empty lists of items: a comma before each further item removes the ambiguity. */
  lemma {:induction false} ItemsTailDecode(owner: Json, xs: seq<Json>, ys: seq<Json>, x: string, y: string)
    requires |xs| > 0 && |ys| > 0
    requires forall i :: 0 <= i < |xs| ==> xs[i] < owner && GoodItem(xs[i])
    requires forall i :: 0 <= i < |ys| ==> GoodItem(ys[i])
    requires Join(ItemTexts(xs)) + ("]" + x) == Join(ItemTexts(ys)) + ("]" + y)
    ensures xs == ys && x == y
    decreases owner, 1, |xs|
  {
    var px, py := ItemTexts(xs), ItemTexts(ys);
    assert px[1..] == ItemTexts(xs[1..]) && py[1..] == ItemTexts(ys[1..]);
    JoinSplit(px, "]" + x);
    JoinSplit(py, "]" + y);
    StringifyDecodes(xs[0], ys[0], Tail(px, "]" + x), Tail(py, "]" + y));
    TailDecides(px, py, "]", x, y);
    assert xs == [xs[0]] + xs[1..] && ys == [ys[0]] + ys[1..];
    if |xs| > 1 {
      ItemsTailDecode(owner, xs[1..], ys[1..], x, y);
    }
  }

  lemma TailDecides(px: seq<string>, py: seq<string>, close: string, x: string, y: string)
    requires |px| > 0 && |py| > 0 && |close| == 1 && close[0] != ','
    requires Tail(px, close + x) == Tail(py, close + y)
    ensures |px| == 1 <==> |py| == 1
    ensures |px| == 1 ==> x == y
    ensures |px| > 1 ==> Join(px[1..]) + (close + x) == Join(py[1..]) + (close + y)
  {
    assert |px| == 1 ==> Tail(px, close + x)[0] == close[0];
    assert |py| == 1 ==> Tail(py, close + y)[0] == close[0];
    if |px| == 1 {
      Cancel(close, x, y);
    } else {
      Cancel(",", Join(px[1..]) + (close + x), Join(py[1..]) + (close + y));
    }
  }

  lemma {:induction false} FieldsDecode(v: Json, fs: seq<Field>, w: Json, gs: seq<Field>, x: string, y: string)
    requires forall f :: f in fs ==> f.value < v && GoodField(f)
    requires forall g :: g in gs ==> g.value < w && GoodField(g)
    requires Join(FieldTexts(v, fs)) + ("}" + x) == Join(FieldTexts(w, gs)) + ("}" + y)
    ensures fs == gs && x == y
    decreases v, 2, |fs|
  {
    FieldTextsShape(v, fs);
    FieldTextsShape(w, gs);
    var px, py := FieldTexts(v, fs), FieldTexts(w, gs);
    if |fs| == 0 || |gs| == 0 {
      EmptyFieldsDecode(px, py, x, y);
    } else {
      FirstFieldDecode(fs[0], px, gs[0], py, v, x, y);
      TailDecides(px, py, "}", x, y);
      assert fs == [fs[0]] + fs[1..] && gs == [gs[0]] + gs[1..];
      if |fs| > 1 {
        FieldsDecode(v, fs[1..], w, gs[1..], x, y);
      }
    }
  }

  lemma EmptyFieldsDecode(px: seq<string>, py: seq<string>, x: string, y: string)
    requires |px| == 0 || |py| == 0
    requires forall i :: 0 <= i < |px| ==> |px[i]| > 0 && px[i][0] == '"'
    requires forall i :: 0 <= i < |py| ==> |py[i]| > 0 && py[i][0] == '"'
    requires Join(px) + ("}" + x) == Join(py) + ("}" + y)
    ensures |px| == |py| && x == y
  {
    assert |px| == 0 ==> Join(px) + ("}" + x) == "}" + x;
    assert |py| == 0 ==> Join(py) + ("}" + y) == "}" + y;
    Head(Join(px), "}" + x);
    Head(Join(py), "}" + y);
    if |px| == 0 && |py| == 0 {
      Cancel("}", x, y);
    }
  }

  lemma {:induction false} FirstFieldDecode(f: Field, px: seq<string>, g: Field, py: seq<string>, v: Json, x: string,
      y: string)
    requires |px| > 0 && |py| > 0 && f.value < v && GoodField(f) && GoodField(g)
    requires px[0] == Quote(f.key) + ":" + Stringify(f.value) && py[0] == Quote(g.key) + ":" + Stringify(g.value)
    requires Join(px) + ("}" + x) == Join(py) + ("}" + y)
    ensures f == g && Tail(px, "}" + x) == Tail(py, "}" + y)
    decreases v, 1
  {
    var tx, ty := Tail(px, "}" + x), Tail(py, "}" + y);
    JoinSplit(px, "}" + x);
    JoinSplit(py, "}" + y);
    FieldSplit(Quote(f.key), Stringify(f.value), tx);
    FieldSplit(Quote(g.key), Stringify(g.value), ty);
    QuoteDecodes(f.key, g.key, ":" + (Stringify(f.value) + tx), ":" + (Stringify(g.value) + ty));
    Cancel(":", Stringify(f.value) + tx, Stringify(g.value) + ty);
    StringifyDecodes(f.value, g.value, tx, ty);
  }

  lemma FieldSplit(key: string, value: string, rest: string)
    ensures (key + ":" + value) + rest == key + (":" + (value + rest))
  {
  }

  lemma {:induction false} FieldTextsShape(owner: Json, fs: seq<Field>)
    requires forall f :: f in fs ==> f.value < owner && GoodField(f)
    ensures |FieldTexts(owner, fs)| == |fs|
    ensures |fs| > 0 ==> FieldTexts(owner, fs)[0] == Quote(fs[0].key) + ":" + Stringify(fs[0].value)
    ensures |fs| > 0 ==> FieldTexts(owner, fs)[1..] == FieldTexts(owner, fs[1..])
    ensures forall i :: 0 <= i < |fs| ==> var t := FieldTexts(owner, fs)[i]; |t| > 0 && t[0] == '"'
  {
    if |fs| > 0 {
      assert fs[0] in fs;
      FieldTextsShape(owner, fs[1..]);
    }
  }

  // ----- equivalence -----

  /** Every defined property of fs has a counterpart in gs with the same normal value. */
  ghost predicate NormalCovers(fs: seq<Field>, gs: seq<Field>) {
    forall f :: f in fs && f.value != Undefined ==>
      exists g :: g in gs && g.key == f.key && g.value != Undefined && Normal(f.value) == Normal(g.value)
  }

  lemma CoverSubset(v: Json, w: Json)
    requires v.Obj? && w.Obj? && NormalCovers(v.fields, w.fields)
    ensures forall x :: x in NormalFields(v, v.fields) ==> x in NormalFields(w, w.fields)
  {
    forall x | x in NormalFields(v, v.fields)
      ensures x in NormalFields(w, w.fields)
    {
      CoverMember(v, w, x);
    }
  }

  lemma CoverMember(v: Json, w: Json, x: Field)
    requires v.Obj? && w.Obj? && NormalCovers(v.fields, w.fields)
    requires x in NormalFields(v, v.fields)
    ensures x in NormalFields(w, w.fields)
  {
    var f :| f in v.fields && f.value != Undefined && x == Field(f.key, Normal(f.value));
    var g :| g in w.fields && g.key == f.key && g.value != Undefined && Normal(f.value) == Normal(g.value);
    NormalFieldMember(w, w.fields, g);
  }

  lemma NormalFieldMember(owner: Json, fs: seq<Field>, f: Field)
    requires forall g :: g in fs ==> g.value < owner
    requires f in fs && f.value != Undefined
    ensures Field(f.key, Normal(f.value)) in NormalFields(owner, fs)
  {
  }

  lemma SubsetCover(v: Json, w: Json)
    requires v.Obj? && w.Obj?
    requires forall x :: x in NormalFields(v, v.fields) ==> x in NormalFields(w, w.fields)
    ensures NormalCovers(v.fields, w.fields)
  {
    forall f | f in v.fields && f.value != Undefined
      ensures exists g :: g in w.fields && g.key == f.key && g.value != Undefined && Normal(f.value) == Normal(g.value)
    {
      var x := Field(f.key, Normal(f.value));
      assert x in NormalFields(v, v.fields);
      var g :| g in w.fields && g.value != Undefined && x == Field(g.key, Normal(g.value));
    }
  }

  lemma NormalEqualIffCovers(v: Json, w: Json)
    requires v.Obj? && w.Obj? && Valid(v) && Valid(w)
    ensures Normal(v) == Normal(w) <==> NormalCovers(v.fields, w.fields) && NormalCovers(w.fields, v.fields)
  {
    var cf, cg := NormalFields(v, v.fields), NormalFields(w, w.fields);
    if Normal(v) == Normal(w) {
      assert forall x :: x in cf <==> x in SortFields(cf);
      assert forall x :: x in cg <==> x in SortFields(cg);
      SubsetCover(v, w);
      SubsetCover(w, v);
    }
    if NormalCovers(v.fields, w.fields) && NormalCovers(w.fields, v.fields) {
      CoverSubset(v, w);
      CoverSubset(w, v);
      NormalFieldsDistinct(v, v.fields);
      NormalFieldsDistinct(w, w.fields);
      SortSorts(cf);
      SortSorts(cg);
      SortedFieldsUnique(SortFields(cf), SortFields(cg));
    }
  }

  /** Normal forms coincide exactly on equivalent values. */
  lemma {:induction false} EquivIffNormal(v: Json, w: Json)
    requires Valid(v) && Valid(w)
    ensures Equiv(v, w) <==> Normal(v) == Normal(w)
    decreases v
  {
    match (v, w)
    case (Arr(xs), Arr(ys)) =>
      var cx, cy := Normal(v).items, Normal(w).items;
      forall i | 0 <= i < |xs| && i < |ys|
        ensures Equiv(xs[i], ys[i]) <==> cx[i] == cy[i]
      {
        EquivIffNormal(xs[i], ys[i]);
      }
    case (Obj(fs), Obj(gs)) =>
      forall f, g | f in fs && g in gs
        ensures Equiv(f.value, g.value) <==> Normal(f.value) == Normal(g.value)
      {
        EquivIffNormal(f.value, g.value);
      }
      NormalEqualIffCovers(v, w);
    case _ =>
  }

  lemma {:induction false} NormalKeepsLossless(v: Json)
    requires Valid(v)
    ensures Lossless(Normal(v)) <==> Lossless(v)
  {
    match v
    case Arr(items) =>
      var cs := Normal(v).items;
      forall i | 0 <= i < |items|
        ensures Lossless(cs[i]) <==> Lossless(items[i])
      {
        NormalKeepsLossless(items[i]);
      }
      if |items| == 1 {
        NormalNotUndefined(items[0]);
        assert items == [items[0]];
      }
    case Obj(fields) =>
      forall f | f in fields
        ensures Lossless(Normal(f.value)) <==> Lossless(f.value)
      {
        NormalKeepsLossless(f.value);
      }
      if Lossless(v) {
        LosslessDown(v);
      }
      if Lossless(Normal(v)) {
        LosslessUp(v);
      }
    case _ =>
  }

  lemma LosslessDown(v: Json)
    requires v.Obj? && Lossless(v)
    requires forall f :: f in v.fields ==> (Lossless(Normal(f.value)) <==> Lossless(f.value))
    ensures Lossless(Normal(v))
  {
    var cs := Normal(v).fields;
    forall i | 0 <= i < |cs|
      ensures Lossless(cs[i].value)
    {
      assert cs[i] in cs;
      assert cs[i] in NormalFields(v, v.fields);
      var f :| f in v.fields && f.value != Undefined && cs[i] == Field(f.key, Normal(f.value));
    }
  }

  lemma LosslessUp(v: Json)
    requires v.Obj? && Lossless(Normal(v))
    requires forall f :: f in v.fields ==> (Lossless(Normal(f.value)) <==> Lossless(f.value))
    ensures Lossless(v)
  {
    var fs, cs := v.fields, Normal(v).fields;
    forall i | 0 <= i < |fs|
      ensures Lossless(fs[i].value)
    {
      if fs[i].value != Undefined {
        NormalFieldMember(v, fs, fs[i]);
        var x := Field(fs[i].key, Normal(fs[i].value));
        assert x in cs;
        var j :| 0 <= j < |cs| && cs[j] == x;
      }
    }
  }

  /** Two objects with the same keys have the same normal form when they agree slot by slot. */
  ghost predicate SlotsAgree(fs: seq<Field>, gs: seq<Field>) {
    |fs| == |gs| && forall i :: 0 <= i < |fs| ==> Normal(fs[i].value) == Normal(gs[i].value)
  }

  ghost predicate SameKeys(fs: seq<Field>, gs: seq<Field>) {
    |fs| == |gs| && forall i :: 0 <= i < |fs| ==> fs[i].key == gs[i].key
  }

  lemma SlotsCover(fs: seq<Field>, gs: seq<Field>)
    requires SameKeys(fs, gs) && SlotsAgree(fs, gs)
    ensures NormalCovers(fs, gs)
  {
    forall f | f in fs && f.value != Undefined
      ensures exists g :: g in gs && g.key == f.key && g.value != Undefined && Normal(f.value) == Normal(g.value)
    {
      var i :| 0 <= i < |fs| && fs[i] == f;
      NormalNotUndefined(f.value);
      NormalNotUndefined(gs[i].value);
      assert gs[i] in gs;
    }
  }

  lemma CoverSlot(fs: seq<Field>, gs: seq<Field>, i: nat)
    requires SameKeys(fs, gs) && DistinctKeys(gs) && NormalCovers(fs, gs) && i < |fs| && fs[i].value != Undefined
    ensures Normal(fs[i].value) == Normal(gs[i].value)
  {
    assert fs[i] in fs;
    var g :| g in gs && g.key == fs[i].key && g.value != Undefined && Normal(fs[i].value) == Normal(g.value);
    var j :| 0 <= j < |gs| && gs[j] == g;
    assert i == j;
  }

  lemma SlotsDecideNormal(fs: seq<Field>, gs: seq<Field>)
    requires SameKeys(fs, gs) && Valid(Obj(fs)) && Valid(Obj(gs))
    ensures Normal(Obj(fs)) == Normal(Obj(gs)) <==> SlotsAgree(fs, gs)
  {
    NormalEqualIffCovers(Obj(fs), Obj(gs));
    if SlotsAgree(fs, gs) {
      SlotsCover(fs, gs);
      SlotsCover(gs, fs);
    }
    if NormalCovers(fs, gs) && NormalCovers(gs, fs) {
      CoversAgree(fs, gs);
    }
  }

  lemma CoversAgree(fs: seq<Field>, gs: seq<Field>)
    requires SameKeys(fs, gs) && DistinctKeys(fs) && DistinctKeys(gs) && NormalCovers(fs, gs) && NormalCovers(gs, fs)
    ensures SlotsAgree(fs, gs)
  {
    forall i | 0 <= i < |fs|
      ensures Normal(fs[i].value) == Normal(gs[i].value)
    {
      if fs[i].value != Undefined {
        CoverSlot(fs, gs, i);
      } else if gs[i].value != Undefined {
        CoverSlot(gs, fs, i);
      }
    }
  }

  // ----- what the text shows -----

  /** The value as its text shows it: [undefined] as [], a non-finite number as null. */
  function Printed(v: Json): Json {
    match v
    case NonFinite(_) => Null
    case Arr(items) =>
      if items == [Undefined] then Arr([]) else Arr(seq(|items|, i requires 0 <= i < |items| => Printed(items[i])))
    case Obj(fields) =>
      Obj(seq(|fields|, i requires 0 <= i < |fields| => Field(fields[i].key, Printed(fields[i].value))))
    case _ => v
  }

  /** What the text of a value determines, and all it determines. */
  function Shown(v: Json): Json {
    Normal(Printed(v))
  }

  /** Exactly the lossless values are shown as they are. */
  lemma {:induction false} PrintedFixpoint(v: Json)
    ensures Printed(v) == v <==> Lossless(v)
    ensures Printed(v) == Undefined <==> v == Undefined
  {
    match v
    case Arr(items) =>
      forall i | 0 <= i < |items|
        ensures Printed(items[i]) == items[i] <==> Lossless(items[i])
      {
        PrintedFixpoint(items[i]);
      }
      if items != [Undefined] {
        var ps := Printed(v).items;
        assert ps == items <==> forall i :: 0 <= i < |items| ==> ps[i] == items[i];
      }
    case Obj(fields) =>
      var ps := Printed(v).fields;
      forall i | 0 <= i < |fields|
        ensures ps[i] == fields[i] <==> Lossless(fields[i].value)
      {
        PrintedFixpoint(fields[i].value);
      }
      assert ps == fields <==> forall i :: 0 <= i < |fields| ==> ps[i] == fields[i];
    case _ =>
  }

  /** Of a normal value the shown value is normal, lossless, and has the same text. */
  lemma {:induction false} PrintedText(v: Json)
    requires IsNormal(v) && Valid(v)
    ensures GoodItem(Printed(v))
    ensures Stringify(Printed(v)) == Stringify(v)
  {
    match v
    case Arr(items) =>
      var w := Printed(v);
      if items == [Undefined] {
        assert ItemTexts(items) == [""] && ItemTexts(w.items) == [];
      } else {
        forall i | 0 <= i < |items|
          ensures GoodItem(w.items[i]) && (w.items[i] == Undefined <==> items[i] == Undefined)
          ensures Stringify(w.items[i]) == Stringify(items[i])
        {
          PrintedFixpoint(items[i]);
          PrintedText(items[i]);
        }
        assert ItemTexts(w.items) == ItemTexts(items);
        assert |items| == 1 ==> items == [items[0]];
        assert |items| == 1 ==> w.items == [w.items[0]];
      }
    case Obj(fields) =>
      var w := Printed(v);
      forall i | 0 <= i < |fields|
        ensures GoodField(w.fields[i]) && w.fields[i].key == fields[i].key
        ensures Stringify(w.fields[i].value) == Stringify(fields[i].value)
      {
        PrintedFixpoint(fields[i].value);
        PrintedText(fields[i].value);
      }
      PrintedFieldsText(v, w);
    case _ =>
  }

  lemma PrintedFieldsText(v: Json, w: Json)
    requires v.Obj? && w.Obj? && |w.fields| == |v.fields| && KeysSorted(v.fields)
    requires forall i :: 0 <= i < |v.fields| ==> v.fields[i].value != Undefined
    requires forall i :: 0 <= i < |v.fields| ==> GoodField(w.fields[i]) && w.fields[i].key == v.fields[i].key
    requires forall i :: 0 <= i < |v.fields| ==> Stringify(w.fields[i].value) == Stringify(v.fields[i].value)
    ensures GoodItem(w) && Stringify(w) == Stringify(v)
  {
    SameKeysSorted(v.fields, w.fields);
    SortedDistinct(w.fields);
    SortOfSorted(w.fields);
    SortOfSorted(v.fields);
    SameTexts(w, w.fields, v, v.fields);
  }

  lemma SameKeysSorted(fs: seq<Field>, gs: seq<Field>)
    requires KeysSorted(fs) && |fs| == |gs| && forall i :: 0 <= i < |fs| ==> gs[i].key == fs[i].key
    ensures KeysSorted(gs)
  {
  }

  lemma {:induction false} SameTexts(v: Json, fs: seq<Field>, w: Json, gs: seq<Field>)
    requires forall f :: f in fs ==> f.value < v
    requires forall g :: g in gs ==> g.value < w
    requires |fs| == |gs|
    requires forall i :: 0 <= i < |fs| ==>
        fs[i].key == gs[i].key && fs[i].value != Undefined && gs[i].value != Undefined
    requires forall i :: 0 <= i < |fs| ==> Stringify(fs[i].value) == Stringify(gs[i].value)
    ensures FieldTexts(v, fs) == FieldTexts(w, gs)
  {
    if |fs| > 0 {
      SameTexts(v, fs[1..], w, gs[1..]);
    }
  }

  /** Showing and normalising commute. */
  lemma {:induction false} PrintedNormal(v: Json)
    requires Valid(v)
    ensures Valid(Printed(v)) && Normal(Printed(v)) == Printed(Normal(v))
  {
    match v
    case Arr(items) =>
      forall i | 0 <= i < |items|
        ensures Valid(Printed(items[i])) && Normal(Printed(items[i])) == Printed(Normal(items[i]))
        ensures Normal(items[i]) == Undefined <==> items[i] == Undefined
      {
        PrintedNormal(items[i]);
        NormalNotUndefined(items[i]);
      }
      if |items| == 1 {
        assert items == [items[0]];
      }
      assert items == [Undefined] <==> Normal(v).items == [Undefined];
      if items != [Undefined] {
        assert Normal(Printed(v)).items == Printed(Normal(v)).items;
      }
    case Obj(fields) =>
      forall i | 0 <= i < |fields|
        ensures Valid(Printed(fields[i].value)) && ShownAlike(fields[i].value)
      {
        PrintedNormal(fields[i].value);
        PrintedFixpoint(fields[i].value);
      }
      PrintedNormalFields(v);
    case _ =>
  }

  lemma PrintedNormalFields(v: Json)
    requires v.Obj? && DistinctKeys(v.fields)
    requires forall i :: 0 <= i < |v.fields| ==> ShownAlike(v.fields[i].value)
    ensures Normal(Printed(v)) == Printed(Normal(v))
  {
    var p, n := Printed(v), Normal(v);
    var pn, np := Printed(n).fields, Normal(p).fields;
    NormalFieldsDistinct(v, v.fields);
    NormalFieldsDistinct(p, p.fields);
    SortSorts(NormalFields(v, v.fields));
    SortSorts(NormalFields(p, p.fields));
    SameKeysSorted(n.fields, pn);
    forall x
      ensures x in np <==> x in pn
    {
      if x in np {
        NormalOfPrinted(v, x);
      }
      if x in pn {
        PrintedOfNormal(v, x);
      }
    }
    SortedFieldsUnique(np, pn);
  }

  lemma NormalOfPrinted(v: Json, x: Field)
    requires v.Obj? && forall i :: 0 <= i < |v.fields| ==> ShownAlike(v.fields[i].value)
    requires x in Normal(Printed(v)).fields
    ensures x in Printed(Normal(v)).fields
  {
    var p := Printed(v);
    assert x in NormalFields(p, p.fields);
    var g :| g in p.fields && g.value != Undefined && x == Field(g.key, Normal(g.value));
    var i :| 0 <= i < |p.fields| && p.fields[i] == g;
    assert ShownAlike(v.fields[i].value);
    ShownMember(v, i);
  }

  lemma PrintedOfNormal(v: Json, x: Field)
    requires v.Obj? && forall i :: 0 <= i < |v.fields| ==> ShownAlike(v.fields[i].value)
    requires x in Printed(Normal(v)).fields
    ensures x in Normal(Printed(v)).fields
  {
    var n := Normal(v);
    var j :| 0 <= j < |n.fields| && Printed(n).fields[j] == x;
    var i := NormalOrigin(v, n.fields[j]);
    assert ShownAlike(v.fields[i].value);
    PrintedMember(v, i);
  }

  lemma NormalOrigin(v: Json, g: Field) returns (i: nat)
    requires v.Obj? && g in Normal(v).fields
    ensures i < |v.fields| && v.fields[i].value != Undefined
    ensures g == Field(v.fields[i].key, Normal(v.fields[i].value))
  {
    assert g in NormalFields(v, v.fields);
    var f :| f in v.fields && f.value != Undefined && g == Field(f.key, Normal(f.value));
    i :| 0 <= i < |v.fields| && v.fields[i] == f;
  }

  lemma PrintedMember(v: Json, i: nat)
    requires v.Obj? && i < |v.fields| && Printed(v.fields[i].value) != Undefined
    ensures Field(v.fields[i].key, Shown(v.fields[i].value)) in Normal(Printed(v)).fields
  {
    var p := Printed(v);
    assert p.fields[i] in p.fields;
    NormalFieldMember(p, p.fields, p.fields[i]);
  }

  ghost predicate ShownAlike(v: Json) {
    Normal(Printed(v)) == Printed(Normal(v)) && (Printed(v) == Undefined <==> v == Undefined)
  }

  lemma ShownMember(v: Json, i: nat)
    requires v.Obj? && i < |v.fields| && v.fields[i].value != Undefined
    ensures Field(v.fields[i].key, Printed(Normal(v.fields[i].value))) in Printed(Normal(v)).fields
  {
    var n := Normal(v);
    var x := Field(v.fields[i].key, Normal(v.fields[i].value));
    NormalFieldMember(v, v.fields, v.fields[i]);
    assert x in n.fields;
    var j :| 0 <= j < |n.fields| && n.fields[j] == x;
    assert Printed(n).fields[j] in Printed(n).fields;
  }

  /** The kernel of the printer: two values print alike if and only if they are equal up to key order and
      undefined properties once [undefined] is read as [] and every non-finite number as null. */
  lemma StringifyKernel(v: Json, w: Json)
    requires Valid(v) && Valid(w)
    ensures Stringify(v) == Stringify(w) <==> Equiv(Printed(v), Printed(w))
    ensures Stringify(v) == Stringify(w) <==> Shown(v) == Shown(w)
  {
    PrintedNormal(v);
    PrintedNormal(w);
    EquivIffNormal(Printed(v), Printed(w));
    StringifyOfNormal(v);
    StringifyOfNormal(w);
    NormalIsNormal(v);
    NormalIsNormal(w);
    PrintedText(Normal(v));
    PrintedText(Normal(w));
    if Stringify(v) == Stringify(w) {
      assert Stringify(Shown(v)) + "" == Stringify(Shown(w)) + "";
      StringifyDecodes(Shown(v), Shown(w), "", "");
    }
  }

  lemma ShownLossless(v: Json)
    requires Lossless(v)
    ensures Shown(v) == Normal(v)
  {
    PrintedFixpoint(v);
  }

  /** The exceptions are real and exact: every value prints like its shown value, which is equivalent to
      it if and only if the value is lossless. */
  lemma LossyCollides(v: Json)
    requires Valid(v)
    ensures var w := Printed(v);
      && Valid(w) && Lossless(w)
      && Stringify(w) == Stringify(v)
      && (Equiv(v, w) <==> Lossless(v))
  {
    var w := Printed(v);
    PrintedNormal(v);
    NormalIsNormal(v);
    PrintedText(Normal(v));
    NormalKeepsLossless(w);
    NormalKeepsLossless(v);
    PrintedFixpoint(Normal(v));
    PrintedFixpoint(w);
    StringifyKernel(v, w);
    EquivIffNormal(v, w);
  }

  // ----- records -----

  /** Records, that is objects with the same listed keys, print alike exactly when every slot shows the
      same. */
  lemma RecordsInjective(fs: seq<Field>, gs: seq<Field>)
    requires SameKeys(fs, gs) && Valid(Obj(fs)) && Valid(Obj(gs))
    ensures Stringify(Obj(fs)) == Stringify(Obj(gs)) <==>
              forall i :: 0 <= i < |fs| ==> Shown(fs[i].value) == Shown(gs[i].value)
  {
    StringifyKernel(Obj(fs), Obj(gs));
    PrintedNormal(Obj(fs));
    PrintedNormal(Obj(gs));
    var ps, qs := Printed(Obj(fs)).fields, Printed(Obj(gs)).fields;
    SlotsDecideNormal(ps, qs);
    assert forall i :: 0 <= i < |fs| ==>
        Shown(fs[i].value) == Normal(ps[i].value) && Shown(gs[i].value) == Normal(qs[i].value);
  }
}
