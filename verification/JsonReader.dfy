/** A reader for JSON texts after the grammar of RFC 8259 (sections 3 to 7), written without regard to the printer, and
    what it makes of printed texts. Insignificant white space, which the printer never emits, is not skipped, and
    numbers are read as tokens. */
module JsonReader {
  import opened Results
  import opened Json
  import opened JsonTheory

  datatype Read<T> = Read(value: T, rest: string)

  // ----- strings -----

  function HexValue(c: char): Option<nat> {
    if '0' <= c <= '9' then Some(c as int - '0' as int)
    else if 'a' <= c <= 'f' then Some(c as int - 'a' as int + 10)
    else if 'A' <= c <= 'F' then Some(c as int - 'A' as int + 10)
    else None
  }

  /** Four hexadecimal digits; surrogates are no characters of their own. */
  function ReadHex(t: string): Option<char>
    requires |t| == 4
  {
    var a :- HexValue(t[0]);
    var b :- HexValue(t[1]);
    var c :- HexValue(t[2]);
    var d :- HexValue(t[3]);
    var code := a * 4096 + b * 256 + c * 16 + d;
    if code < 0xD800 || 0xE000 <= code < 0x10000 then Some(code as char) else None
  }

  /** What follows a backslash. */
  function ReadEscape(t: string): (r: Option<Read<char>>)
    ensures r.Some? ==> |r.value.rest| < |t|
  {
    if |t| == 0 then None
    else
      match t[0]
      case '"' => Some(Read('"', t[1..]))
      case '\\' => Some(Read('\\', t[1..]))
      case '/' => Some(Read('/', t[1..]))
      case 'b' => Some(Read(0x08 as char, t[1..]))
      case 'f' => Some(Read(0x0C as char, t[1..]))
      case 'n' => Some(Read('\n', t[1..]))
      case 'r' => Some(Read('\r', t[1..]))
      case 't' => Some(Read('\t', t[1..]))
      case 'u' =>
        if |t| < 5 then None
        else
          var c :- ReadHex(t[1..5]);
          Some(Read(c, t[5..]))
      case _ => None
  }

  /** The characters behind an opening quotation mark, up to the closing one. */
  function ReadChars(t: string): (r: Option<Read<string>>)
    ensures r.Some? ==> |r.value.rest| < |t|
  {
    if |t| == 0 then None
    else if t[0] == '"' then Some(Read("", t[1..]))
    else if t[0] == '\\' then
      var c :- ReadEscape(t[1..]);
      var more :- ReadChars(c.rest);
      Some(Read([c.value] + more.value, more.rest))
    else if (t[0] as int) < 0x20 then None
    else
      var more :- ReadChars(t[1..]);
      Some(Read([t[0]] + more.value, more.rest))
  }

  // ----- values -----

  predicate Starts(t: string, word: string) {
    |word| <= |t| && t[..|word|] == word
  }

  /** The longest number at the front. */
  function NumLength(t: string): (n: nat)
    ensures n <= |t|
  {
    if |t| > 0 && NumChar(t[0]) then 1 + NumLength(t[1..]) else 0
  }

  /** One value. With holes, an item left out between commas or brackets reads as undefined, as in an array
      literal of the language; the grammar of the standard has no holes. */
  function ReadValue(t: string, holes: bool): (r: Option<Read<Json>>)
    ensures r.Some? ==> |r.value.rest| < |t|
    decreases |t|, 0
  {
    if |t| == 0 then None
    else if Starts(t, "null") then Some(Read(Null, t[4..]))
    else if Starts(t, "true") then Some(Read(Bool(true), t[4..]))
    else if Starts(t, "false") then Some(Read(Bool(false), t[5..]))
    else if t[0] == '"' then
      var s :- ReadChars(t[1..]);
      Some(Read(Str(s.value), s.rest))
    else if '0' <= t[0] <= '9' || t[0] == '-' then
      var n := NumLength(t[1..]) + 1;
      Some(Read(Num(t[..n]), t[n..]))
    else if Starts(t, "[]") then Some(Read(Arr([]), t[2..]))
    else if t[0] == '[' then
      var items :- ReadItems(t[1..], holes);
      Some(Read(Arr(items.value), items.rest))
    else if Starts(t, "{}") then Some(Read(Obj([]), t[2..]))
    else if t[0] == '{' then
      var fields :- ReadFields(t[1..], holes);
      Some(Read(Obj(fields.value), fields.rest))
    else None
  }

  function ReadItem(t: string, holes: bool): (r: Option<Read<Json>>)
    ensures r.Some? ==> |r.value.rest| <= |t|
    decreases |t|, 1
  {
    if holes && |t| > 0 && (t[0] == ',' || t[0] == ']') then Some(Read(Undefined, t)) else ReadValue(t, holes)
  }

  /** One item or more, and the closing bracket. */
  function ReadItems(t: string, holes: bool): (r: Option<Read<seq<Json>>>)
    ensures r.Some? ==> |r.value.rest| < |t|
    decreases |t|, 2
  {
    var item :- ReadItem(t, holes);
    if |item.rest| > 0 && item.rest[0] == ']' then Some(Read([item.value], item.rest[1..]))
    else if |item.rest| > 0 && item.rest[0] == ',' then
      var more :- ReadItems(item.rest[1..], holes);
      Some(Read([item.value] + more.value, more.rest))
    else None
  }

  /** A member: name, colon, value. */
  function ReadField(t: string, holes: bool): (r: Option<Read<Field>>)
    ensures r.Some? ==> |r.value.rest| < |t|
    decreases |t|, 1
  {
    if |t| == 0 || t[0] != '"' then None
    else
      var key :- ReadChars(t[1..]);
      if |key.rest| == 0 || key.rest[0] != ':' then None
      else
        var value :- ReadValue(key.rest[1..], holes);
        Some(Read(Field(key.value, value.value), value.rest))
  }

  /** One member or more, and the closing brace. */
  function ReadFields(t: string, holes: bool): (r: Option<Read<seq<Field>>>)
    ensures r.Some? ==> |r.value.rest| < |t|
    decreases |t|, 2
  {
    var field :- ReadField(t, holes);
    if |field.rest| > 0 && field.rest[0] == '}' then Some(Read([field.value], field.rest[1..]))
    else if |field.rest| > 0 && field.rest[0] == ',' then
      var more :- ReadFields(field.rest[1..], holes);
      Some(Read([field.value] + more.value, more.rest))
    else None
  }

  /** A whole text. */
  function ReadText(t: string, holes: bool): Option<Json> {
    var v :- ReadValue(t, holes);
    if v.rest == "" then Some(v.value) else None
  }

  // ----- printed strings -----

  lemma HexReads(n: int)
    requires 0 <= n < 32
    ensures ReadHex("00" + [HexDigit(n / 16), HexDigit(n % 16)]) == Some(n as char)
  {
    var t := "00" + [HexDigit(n / 16), HexDigit(n % 16)];
    assert t[0] == '0' && t[1] == '0' && t[2] == HexDigit(n / 16) && t[3] == HexDigit(n % 16);
    HexDigitReads(n / 16);
    HexDigitReads(n % 16);
  }

  lemma HexDigitReads(n: int)
    requires 0 <= n < 16
    ensures HexValue(HexDigit(n)) == Some(n)
  {
  }

  /** Every character is read back from what is printed of it. */
  lemma EscapeReads(c: char, y: string)
    ensures var t := EscapeChar(c) + y;
      if EscapeChar(c)[0] == '\\' then ReadEscape(t[1..]) == Some(Read(c, y))
      else t[0] == c && c != '"' && c as int >= 0x20 && t[1..] == y
  {
    var e, t := EscapeChar(c), EscapeChar(c) + y;
    assert t[1..] == e[1..] + y;
    if e[0] == '\\' {
      var u := e[1..] + y;
      if |e| == 2 {
        assert u[0] == e[1] && u[1..] == y;
      } else {
        assert u[0] == 'u' && u[1..5] == "00" + [HexDigit(c as int / 16), HexDigit(c as int % 16)] && u[5..] == y;
        HexReads(c as int);
      }
    }
  }

  lemma {:induction false} CharsRead(s: string, x: string)
    ensures ReadChars(Escape(s) + ("\"" + x)) == Some(Read(s, x))
  {
    var close := "\"" + x;
    assert close[0] == '"' && close[1..] == x;
    if |s| == 0 {
      assert Escape(s) + close == close;
    } else {
      var e, y := EscapeChar(s[0]), Escape(s[1..]) + close;
      Assoc(e, Escape(s[1..]), close);
      var t := e + y;
      assert Escape(s) + close == t;
      EscapeReads(s[0], y);
      EscapeCharHead(s[0]);
      assert t[0] == e[0];
      CharsRead(s[1..], x);
      assert s == [s[0]] + s[1..];
    }
  }

  lemma QuoteReads(s: string, x: string)
    ensures var t := Quote(s) + x; t[0] == '"' && ReadChars(t[1..]) == Some(Read(s, x))
  {
    QuoteSplit(s, x);
    var t := Quote(s) + x;
    assert t[1..] == Escape(s) + ("\"" + x);
    CharsRead(s, x);
  }

  // ----- printed values -----

  lemma StartsWith(w: string, y: string)
    ensures Starts(w + y, w) && (w + y)[|w|..] == y
  {
  }

  lemma StartsHead(t: string, w: string)
    requires |t| > 0 && |w| > 0
    ensures Starts(t, w) ==> t[0] == w[0]
  {
    if Starts(t, w) {
      assert t[..|w|][0] == t[0];
    }
  }

  /** Only null, true and false begin with their first letter. */
  lemma NoWord(t: string)
    requires |t| > 0 && t[0] != 'n' && t[0] != 't' && t[0] != 'f'
    ensures !Starts(t, "null") && !Starts(t, "true") && !Starts(t, "false")
  {
    StartsHead(t, "null");
    StartsHead(t, "true");
    StartsHead(t, "false");
  }

  lemma {:induction false} TokenReads(a: string, x: string)
    requires (forall i :: 0 <= i < |a| ==> NumChar(a[i])) && Terminated(x)
    ensures NumLength(a + x) == |a|
  {
    if |a| == 0 {
      assert a + x == x;
    } else {
      TokenReads(a[1..], x);
      assert (a + x)[0] == a[0] && (a + x)[1..] == a[1..] + x;
    }
  }

  lemma NumberReads(token: string, x: string, holes: bool)
    requires NumToken(token) && Terminated(x)
    ensures ReadValue(token + x, holes) == Some(Read(Num(token), x))
  {
    var t := token + x;
    assert t[0] == token[0] && t[1..] == token[1..] + x;
    assert forall i :: 0 <= i < |token| ==> token[i] in token;
    TokenReads(token[1..], x);
    NoWord(t);
    assert t[..|token|] == token && t[|token|..] == x;
  }

  lemma WordReads(v: Json, x: string, holes: bool)
    requires v.Null? || v.Bool?
    ensures ReadValue(Stringify(v) + x, holes) == Some(Read(v, x))
  {
    var w, t := Stringify(v), Stringify(v) + x;
    StartsWith(w, x);
    assert t[0] == w[0];
    StartsHead(t, "null");
    StartsHead(t, "true");
  }

  lemma StringReads(s: string, x: string, holes: bool)
    ensures ReadValue(Quote(s) + x, holes) == Some(Read(Str(s), x))
  {
    QuoteReads(s, x);
    NoWord(Quote(s) + x);
  }

  /** No array item is undefined. */
  predicate NoHoles(v: Json) {
    match v
    case Arr(items) => forall i :: 0 <= i < |items| ==> items[i] != Undefined && NoHoles(items[i])
    case Obj(fields) => forall i :: 0 <= i < |fields| ==> NoHoles(fields[i].value)
    case _ => true
  }

  /** Printed values are read back, whatever terminator follows; holes are needed only where there are some. */
  lemma {:induction false} ValueReads(v: Json, x: string, holes: bool)
    requires GoodItem(v) && v != Undefined && Terminated(x) && (holes || NoHoles(v))
    ensures ReadValue(Stringify(v) + x, holes) == Some(Read(v, x))
    decreases v, 4
  {
    match v
    case Num(token) => NumberReads(token, x, holes);
    case Str(s) => StringReads(s, x, holes);
    case Arr(items) => ArrayReads(v, items, x, holes);
    case Obj(fields) => ObjectReads(v, fields, x, holes);
    case _ => WordReads(v, x, holes);
  }

  lemma ArrayReads(v: Json, items: seq<Json>, x: string, holes: bool)
    requires v == Arr(items) && GoodItem(v) && Terminated(x) && (holes || NoHoles(v))
    ensures ReadValue(Stringify(v) + x, holes) == Some(Read(v, x))
    decreases v, 3
  {
    Prepend("[", ItemTexts(items), "]", x);
    if |items| == 0 {
      assert "[" + (Join([]) + ("]" + x)) == "[]" + x;
      EmptyArrayReads(x, holes);
    } else {
      ItemsRead(v, items, ItemTexts(items), x, holes);
      NonEmptyItemsHead(items, x);
      BracketedReads(Join(ItemTexts(items)) + ("]" + x), items, x, holes);
    }
  }

  lemma EmptyArrayReads(x: string, holes: bool)
    ensures ReadValue("[]" + x, holes) == Some(Read(Arr([]), x))
  {
    NoWord("[]" + x);
    StartsWith("[]", x);
  }

  lemma BracketedReads(body: string, items: seq<Json>, x: string, holes: bool)
    requires |body| > 0 && body[0] != ']' && ReadItems(body, holes) == Some(Read(items, x))
    ensures ReadValue("[" + body, holes) == Some(Read(Arr(items), x))
  {
    var t := "[" + body;
    NoWord(t);
    assert t[1..] == body && t[..2][1] == body[0] && "[]"[1] == ']';
    assert !Starts(t, "[]");
  }

  lemma {:induction false} ItemsRead(owner: Json, xs: seq<Json>, parts: seq<string>, x: string, holes: bool)
    requires |xs| > 0 && forall i :: 0 <= i < |xs| ==> xs[i] < owner && GoodItem(xs[i])
    requires holes || forall i :: 0 <= i < |xs| ==> xs[i] != Undefined && NoHoles(xs[i])
    requires |parts| == |xs| && forall i :: 0 <= i < |xs| ==> parts[i] == Stringify(xs[i])
    ensures ReadItems(Join(parts) + ("]" + x), holes) == Some(Read(xs, x))
    decreases owner, 2, |xs|
  {
    var close := "]" + x;
    FirstItemReads(xs[0], parts, close, holes);
    if |xs| > 1 {
      ItemsRead(owner, xs[1..], parts[1..], x, holes);
      MoreItemsRead(Join(parts) + close, xs[0], Join(parts[1..]) + close, xs[1..], x, holes);
      assert xs == [xs[0]] + xs[1..];
    } else {
      LastItemReads(Join(parts) + close, xs[0], x, holes);
      assert xs == [xs[0]];
    }
  }

  lemma FirstItemReads(v: Json, parts: seq<string>, close: string, holes: bool)
    requires GoodItem(v) && (holes || (v != Undefined && NoHoles(v))) && |close| > 0 && close[0] == ']'
    requires |parts| > 0 && parts[0] == Stringify(v)
    ensures ReadItem(Join(parts) + close, holes) == Some(Read(v, Tail(parts, close)))
    decreases v, 6
  {
    JoinSplit(parts, close);
    ItemReads(v, Tail(parts, close), holes);
  }

  lemma LastItemReads(t: string, v: Json, x: string, holes: bool)
    requires ReadItem(t, holes) == Some(Read(v, "]" + x))
    ensures ReadItems(t, holes) == Some(Read([v], x))
  {
    assert ("]" + x)[0] == ']' && ("]" + x)[1..] == x;
  }

  lemma MoreItemsRead(t: string, v: Json, u: string, items: seq<Json>, x: string, holes: bool)
    requires ReadItem(t, holes) == Some(Read(v, "," + u)) && ReadItems(u, holes) == Some(Read(items, x))
    ensures ReadItems(t, holes) == Some(Read([v] + items, x))
  {
    assert ("," + u)[0] == ',' && ("," + u)[1..] == u;
  }

  lemma ItemReads(v: Json, tail: string, holes: bool)
    requires GoodItem(v) && |tail| > 0 && (tail[0] == ',' || tail[0] == ']')
    requires holes || (v != Undefined && NoHoles(v))
    ensures ReadItem(Stringify(v) + tail, holes) == Some(Read(v, tail))
    decreases v, 5
  {
    if v == Undefined {
      assert Stringify(v) + tail == tail;
    } else {
      StringifyHead(v);
      assert (Stringify(v) + tail)[0] == Stringify(v)[0];
      ValueReads(v, tail, holes);
    }
  }

  lemma ObjectReads(v: Json, fields: seq<Field>, x: string, holes: bool)
    requires v == Obj(fields) && GoodItem(v) && Terminated(x) && (holes || NoHoles(v))
    ensures ReadValue(Stringify(v) + x, holes) == Some(Read(v, x))
    decreases v, 3
  {
    ObjectText(v, fields, x);
    if |fields| == 0 {
      assert "{" + (Join([]) + ("}" + x)) == "{}" + x;
      EmptyObjectReads(x, holes);
    } else {
      assert forall i :: 0 <= i < |fields| ==> fields[i] in fields;
      FieldTextsAre(v, fields);
      FieldsRead(v, fields, FieldTexts(v, fields), x, holes);
      FieldsHead(v, fields, x);
      BracedReads(Join(FieldTexts(v, fields)) + ("}" + x), fields, x, holes);
    }
  }

  lemma ObjectText(v: Json, fields: seq<Field>, x: string)
    requires v == Obj(fields) && GoodItem(v)
    ensures Stringify(v) + x == "{" + (Join(FieldTexts(v, fields)) + ("}" + x))
    ensures |fields| == 0 ==> FieldTexts(v, fields) == []
    ensures forall f :: f in fields ==> f.value < v && GoodField(f)
  {
    SortOfSorted(fields);
    Prepend("{", FieldTexts(v, fields), "}", x);
  }

  lemma FieldsHead(owner: Json, fs: seq<Field>, x: string)
    requires |fs| > 0 && forall f :: f in fs ==> f.value < owner && GoodField(f)
    ensures (Join(FieldTexts(owner, fs)) + ("}" + x))[0] == '"'
  {
    FieldTextsShape(owner, fs);
    JoinSplit(FieldTexts(owner, fs), "}" + x);
  }

  lemma EmptyObjectReads(x: string, holes: bool)
    ensures ReadValue("{}" + x, holes) == Some(Read(Obj([]), x))
  {
    NoWord("{}" + x);
    StartsWith("{}", x);
  }

  lemma BracedReads(body: string, fields: seq<Field>, x: string, holes: bool)
    requires |body| > 0 && body[0] == '"' && ReadFields(body, holes) == Some(Read(fields, x))
    ensures ReadValue("{" + body, holes) == Some(Read(Obj(fields), x))
  {
    var t := "{" + body;
    NoWord(t);
    assert t[1..] == body && t[..2][1] == body[0] && "{}"[1] == '}';
    assert !Starts(t, "{}") && !Starts(t, "[]");
  }

  /** The texts of the members, one by one. */
  ghost predicate MemberTexts(fs: seq<Field>, parts: seq<string>) {
    |parts| == |fs| && forall i :: 0 <= i < |fs| ==> parts[i] == Quote(fs[i].key) + ":" + Stringify(fs[i].value)
  }

  lemma {:induction false} FieldTextsAre(owner: Json, fs: seq<Field>)
    requires forall f :: f in fs ==> f.value < owner && GoodField(f)
    ensures MemberTexts(fs, FieldTexts(owner, fs))
  {
    FieldTextsShape(owner, fs);
    if |fs| > 0 {
      FieldTextsAre(owner, fs[1..]);
      assert forall i :: 0 < i < |fs| ==> FieldTexts(owner, fs)[i] == FieldTexts(owner, fs[1..])[i - 1];
    }
  }

  lemma {:induction false} FieldsRead(owner: Json, fs: seq<Field>, parts: seq<string>, x: string, holes: bool)
    requires |fs| > 0 && MemberTexts(fs, parts)
    requires forall i :: 0 <= i < |fs| ==> fs[i].value < owner && GoodField(fs[i]) && (holes || NoHoles(fs[i].value))
    ensures ReadFields(Join(parts) + ("}" + x), holes) == Some(Read(fs, x))
    decreases owner, 2, |fs|
  {
    var close := "}" + x;
    FirstFieldReads(fs[0], parts, close, holes);
    if |fs| > 1 {
      FieldsRead(owner, fs[1..], parts[1..], x, holes);
      MoreFieldsRead(Join(parts) + close, fs[0], Join(parts[1..]) + close, fs[1..], x, holes);
      assert fs == [fs[0]] + fs[1..];
    } else {
      LastFieldReads(Join(parts) + close, fs[0], x, holes);
      assert fs == [fs[0]];
    }
  }

  lemma FirstFieldReads(f: Field, parts: seq<string>, close: string, holes: bool)
    requires GoodField(f) && (holes || NoHoles(f.value)) && |close| > 0 && close[0] == '}'
    requires |parts| > 0 && parts[0] == Quote(f.key) + ":" + Stringify(f.value)
    ensures ReadField(Join(parts) + close, holes) == Some(Read(f, Tail(parts, close)))
    decreases f.value, 6
  {
    JoinSplit(parts, close);
    FieldReads(f, Tail(parts, close), holes);
  }

  lemma LastFieldReads(t: string, f: Field, x: string, holes: bool)
    requires ReadField(t, holes) == Some(Read(f, "}" + x))
    ensures ReadFields(t, holes) == Some(Read([f], x))
  {
    assert ("}" + x)[0] == '}' && ("}" + x)[1..] == x;
  }

  lemma MoreFieldsRead(t: string, f: Field, u: string, fs: seq<Field>, x: string, holes: bool)
    requires ReadField(t, holes) == Some(Read(f, "," + u)) && ReadFields(u, holes) == Some(Read(fs, x))
    ensures ReadFields(t, holes) == Some(Read([f] + fs, x))
  {
    assert ("," + u)[0] == ',' && ("," + u)[1..] == u;
  }

  lemma FieldReads(f: Field, tail: string, holes: bool)
    requires GoodField(f) && |tail| > 0 && (tail[0] == ',' || tail[0] == '}') && (holes || NoHoles(f.value))
    ensures ReadField((Quote(f.key) + ":" + Stringify(f.value)) + tail, holes) == Some(Read(f, tail))
    decreases f.value, 5
  {
    var value := Stringify(f.value) + tail;
    FieldSplit(Quote(f.key), Stringify(f.value), tail);
    var rest := ":" + value;
    assert rest[0] == ':' && rest[1..] == value;
    QuoteReads(f.key, rest);
    ValueReads(f.value, tail, holes);
  }

  // ----- reading without holes -----

  /** What is read without holes has none, and is read alike where they are allowed. */
  lemma {:induction false} StrictValue(t: string)
    ensures ReadValue(t, false).Some? ==>
              NoHoles(ReadValue(t, false).value.value) && ReadValue(t, true) == ReadValue(t, false)
    decreases |t|, 0
  {
    if |t| > 0 {
      StrictItems(t[1..]);
      StrictFields(t[1..]);
    }
  }

  lemma {:induction false} StrictItem(t: string)
    ensures ReadItem(t, false).Some? ==>
              var v := ReadItem(t, false).value.value;
              v != Undefined && NoHoles(v) && ReadItem(t, true) == ReadItem(t, false)
    decreases |t|, 1
  {
    StrictValue(t);
  }

  lemma {:induction false} StrictItems(t: string)
    ensures ReadItems(t, false).Some? ==> NoHoles(Arr(ReadItems(t, false).value.value))
    ensures ReadItems(t, false).Some? ==> ReadItems(t, true) == ReadItems(t, false)
    decreases |t|, 2
  {
    StrictItem(t);
    var item := ReadItem(t, false);
    if item.Some? && |item.value.rest| > 0 {
      StrictItems(item.value.rest[1..]);
    }
  }

  lemma {:induction false} StrictFields(t: string)
    ensures ReadFields(t, false).Some? ==> NoHoles(Obj(ReadFields(t, false).value.value))
    ensures ReadFields(t, false).Some? ==> ReadFields(t, true) == ReadFields(t, false)
    decreases |t|, 2
  {
    StrictField(t);
    var field := ReadField(t, false);
    if field.Some? && |field.value.rest| > 0 {
      StrictFields(field.value.rest[1..]);
    }
  }

  lemma {:induction false} StrictField(t: string)
    ensures ReadField(t, false).Some? ==>
              NoHoles(ReadField(t, false).value.value.value) && ReadField(t, true) == ReadField(t, false)
    decreases |t|, 1
  {
    if |t| > 0 {
      var key := ReadChars(t[1..]);
      if key.Some? && |key.value.rest| > 0 {
        StrictValue(key.value.rest[1..]);
      }
    }
  }

  lemma {:induction false} PrintedNoHoles(v: Json)
    requires NoHoles(v)
    ensures NoHoles(Printed(v))
  {
    match v
    case Arr(items) =>
      if |items| == 1 {
        assert items[0] != Undefined;
      }
      forall i | 0 <= i < |items|
        ensures Printed(items[i]) != Undefined && NoHoles(Printed(items[i]))
      {
        PrintedFixpoint(items[i]);
        PrintedNoHoles(items[i]);
      }
    case Obj(fields) =>
      forall i | 0 <= i < |fields|
        ensures NoHoles(Printed(fields[i].value))
      {
        PrintedNoHoles(fields[i].value);
      }
    case _ =>
  }

  lemma {:induction false} NormalNoHoles(v: Json)
    requires NoHoles(v)
    ensures NoHoles(Normal(v))
  {
    match v
    case Arr(items) =>
      forall i | 0 <= i < |items|
        ensures Normal(items[i]) != Undefined && NoHoles(Normal(items[i]))
      {
        NormalNotUndefined(items[i]);
        NormalNoHoles(items[i]);
      }
    case Obj(fields) =>
      var ns := Normal(v).fields;
      forall i | 0 <= i < |ns|
        ensures NoHoles(ns[i].value)
      {
        assert ns[i] in ns;
        var j := NormalOrigin(v, ns[i]);
        NormalNoHoles(fields[j].value);
      }
    case _ =>
  }

  // ----- the round trip -----

  /** Every printed text reads as the value it shows. It is a text of the standard's grammar exactly when that
      value has no undefined array item. */
  lemma PrintedReads(v: Json)
    requires Valid(v) && v != Undefined
    ensures ReadText(Stringify(v), true) == Some(Shown(v))
    ensures ReadText(Stringify(v), false) == if NoHoles(Shown(v)) then Some(Shown(v)) else None
  {
    ShownPrints(v);
    assert Stringify(Shown(v)) + "" == Stringify(v);
    ValueReads(Shown(v), "", true);
    if NoHoles(Shown(v)) {
      ValueReads(Shown(v), "", false);
    }
    StrictValue(Stringify(v));
  }

  lemma ShownPrints(v: Json)
    requires Valid(v)
    ensures GoodItem(Shown(v)) && Stringify(Shown(v)) == Stringify(v) && (Shown(v) == Undefined <==> v == Undefined)
  {
    PrintedNormal(v);
    NormalIsNormal(v);
    NormalNotUndefined(v);
    PrintedFixpoint(Normal(v));
    PrintedText(Normal(v));
    StringifyOfNormal(v);
  }
}
