/** The printer audit records are hashed through (iris-sim/src/security/stable_json.ts), and what its text
    determines of a payload. */
module SigningJson {
  import opened Results
  import opened Json
  import opened JsonTheory
  import opened JsonReader

  /** What `String(undefined)` is. */
  const WORD: string := "undefined"

  /** stableStringify for signing: like the logging printer, but undefined prints as a quoted word wherever it
      stands, and no property is skipped. */
  function SigningText(v: Json): string
    decreases v, 1
  {
    match v
    case Undefined => Quote(WORD)
    case Null => "null"
    case Bool(b) => if b then "true" else "false"
    case Num(token) => token
    case NonFinite(_) => "null"
    case Str(s) => Quote(s)
    case Arr(items) => "[" + Join(seq(|items|, i requires 0 <= i < |items| => SigningText(items[i]))) + "]"
    case Obj(fields) => "{" + Join(SigningFields(v, SortFields(fields))) + "}"
  }

  function SigningFields(owner: Json, fs: seq<Field>): seq<string>
    requires forall f :: f in fs ==> f.value < owner
    decreases owner, 0, |fs|
  {
    if |fs| == 0 then []
    else [Quote(fs[0].key) + ":" + SigningText(fs[0].value)] + SigningFields(owner, fs[1..])
  }

  /** The value as its text tells it: undefined as the word, a non-finite number as null. */
  function Told(v: Json): Json {
    match v
    case Undefined => Str(WORD)
    case NonFinite(_) => Null
    case Arr(items) => Arr(seq(|items|, i requires 0 <= i < |items| => Told(items[i])))
    case Obj(fields) =>
      Obj(seq(|fields|, i requires 0 <= i < |fields| => Field(fields[i].key, Told(fields[i].value))))
    case _ => v
  }

  lemma ToldDefined(v: Json)
    ensures Told(v) != Undefined
  {
  }

  lemma {:induction false} ToldValid(v: Json)
    requires Valid(v)
    ensures Valid(Told(v))
  {
    match v
    case Arr(items) =>
      forall i | 0 <= i < |items|
        ensures Valid(Told(items[i]))
      {
        ToldValid(items[i]);
      }
    case Obj(fields) =>
      forall i | 0 <= i < |fields|
        ensures Valid(Told(fields[i].value))
      {
        ToldValid(fields[i].value);
      }
    case _ =>
  }

  /** The fields of gs are those of fs, told. */
  ghost predicate ToldFields(fs: seq<Field>, gs: seq<Field>) {
    |gs| == |fs| && forall i :: 0 <= i < |fs| ==> gs[i] == Field(fs[i].key, Told(fs[i].value))
  }

  lemma {:induction false} InsertTold(f: Field, fs: seq<Field>, gs: seq<Field>)
    requires ToldFields(fs, gs)
    ensures ToldFields(InsertField(f, fs), InsertField(Field(f.key, Told(f.value)), gs))
  {
    if |fs| > 0 && !StrLess(f.key, fs[0].key) {
      InsertTold(f, fs[1..], gs[1..]);
    }
  }

  lemma {:induction false} SortTold(fs: seq<Field>, gs: seq<Field>)
    requires ToldFields(fs, gs)
    ensures ToldFields(SortFields(fs), SortFields(gs))
  {
    if |fs| > 0 {
      SortTold(fs[1..], gs[1..]);
      InsertTold(fs[0], SortFields(fs[1..]), SortFields(gs[1..]));
    }
  }

  lemma {:induction false} ToldTexts(v: Json, fs: seq<Field>, w: Json, gs: seq<Field>)
    requires forall f :: f in fs ==> f.value < v
    requires forall g :: g in gs ==> g.value < w
    requires ToldFields(fs, gs)
    requires forall i :: 0 <= i < |fs| ==> SigningText(fs[i].value) == Stringify(gs[i].value)
    ensures SigningFields(v, fs) == FieldTexts(w, gs)
  {
    if |fs| > 0 {
      ToldDefined(fs[0].value);
      ToldTexts(v, fs[1..], w, gs[1..]);
    }
  }

  /** The text is what the logging printer makes of the told value. */
  lemma {:induction false} SigningIsTold(v: Json)
    ensures SigningText(v) == Stringify(Told(v))
  {
    match v
    case Arr(items) =>
      var ws := Told(v).items;
      forall i | 0 <= i < |items|
        ensures SigningText(items[i]) == Stringify(ws[i])
      {
        SigningIsTold(items[i]);
      }
      assert seq(|items|, i requires 0 <= i < |items| => SigningText(items[i]))
          == seq(|ws|, i requires 0 <= i < |ws| => Stringify(ws[i]));
    case Obj(fields) =>
      var w := Told(v);
      var fs, gs := SortFields(fields), SortFields(w.fields);
      SortTold(fields, w.fields);
      forall i | 0 <= i < |fs|
        ensures SigningText(fs[i].value) == Stringify(gs[i].value)
      {
        assert fs[i] in fs;
        SigningIsTold(fs[i].value);
      }
      ToldTexts(v, fs, w, gs);
    case _ =>
  }

  /** Holds neither undefined nor a non-finite number. */
  predicate Plain(v: Json) {
    match v
    case Undefined => false
    case NonFinite(_) => false
    case Arr(items) => forall i :: 0 <= i < |items| ==> Plain(items[i])
    case Obj(fields) => forall i :: 0 <= i < |fields| ==> Plain(fields[i].value)
    case _ => true
  }

  lemma {:induction false} ToldIsPlain(v: Json)
    ensures Plain(Told(v)) && Lossless(Told(v))
    ensures Told(v) == v <==> Plain(v)
  {
    match v
    case Arr(items) =>
      var ws := Told(v).items;
      forall i | 0 <= i < |items|
        ensures Plain(ws[i]) && Lossless(ws[i]) && ws[i] != Undefined && (ws[i] == items[i] <==> Plain(items[i]))
      {
        ToldIsPlain(items[i]);
        ToldDefined(items[i]);
      }
      assert ws == items <==> forall i :: 0 <= i < |items| ==> ws[i] == items[i];
      assert |ws| == 1 ==> ws[0] != Undefined;
    case Obj(fields) =>
      var ws := Told(v).fields;
      forall i | 0 <= i < |fields|
        ensures Plain(ws[i].value) && Lossless(ws[i].value) && (ws[i] == fields[i] <==> Plain(fields[i].value))
      {
        ToldIsPlain(fields[i].value);
      }
      assert ws == fields <==> forall i :: 0 <= i < |fields| ==> ws[i] == fields[i];
    case _ =>
  }

  /** The kernel of this printer: two values share their text, and so their part in a record hash, if and only
      if they are equal up to key order once every undefined is read as the word and every non-finite number as
      null. */
  lemma SigningKernel(v: Json, w: Json)
    requires Valid(v) && Valid(w)
    ensures SigningText(v) == SigningText(w) <==> Equiv(Told(v), Told(w))
  {
    SigningIsTold(v);
    SigningIsTold(w);
    ToldValid(v);
    ToldValid(w);
    ToldIsPlain(v);
    ToldIsPlain(w);
    PrintedFixpoint(Told(v));
    PrintedFixpoint(Told(w));
    StringifyKernel(Told(v), Told(w));
  }

  lemma {:induction false} NormalTold(v: Json)
    requires Valid(v) && Normal(v) == Normal(Told(v))
    ensures Plain(v)
  {
    match v
    case Arr(items) =>
      forall i | 0 <= i < |items|
        ensures Plain(items[i])
      {
        assert Normal(v).items[i] == Normal(Told(v)).items[i];
        NormalTold(items[i]);
      }
    case Obj(fields) =>
      ToldValid(v);
      SlotsDecideNormal(fields, Told(v).fields);
      forall i | 0 <= i < |fields|
        ensures Plain(fields[i].value)
      {
        NormalTold(fields[i].value);
      }
    case _ =>
  }

  /** The losses are real and exact: every value shares its text with the told one, which is equivalent to it
      if and only if the value holds neither undefined nor a non-finite number. */
  lemma SigningCollides(v: Json)
    requires Valid(v)
    ensures Valid(Told(v)) && SigningText(Told(v)) == SigningText(v)
    ensures Equiv(v, Told(v)) <==> Plain(v)
  {
    ToldValid(v);
    ToldIsPlain(v);
    ToldIsPlain(Told(v));
    SigningIsTold(v);
    SigningIsTold(Told(v));
    EquivIffNormal(v, Told(v));
    if Equiv(v, Told(v)) {
      NormalTold(v);
    }
  }

  /** A non-finite number has the text of null, and undefined that of the word, inside any object too. */
  lemma SigningLosses(which: Special, key: string)
    ensures SigningText(NonFinite(which)) == SigningText(Null) == "null"
    ensures SigningText(Undefined) == SigningText(Str("undefined"))
    ensures SigningText(Obj([Field(key, NonFinite(which))])) == SigningText(Obj([Field(key, Null)]))
    ensures SigningText(Obj([Field(key, Undefined)])) == SigningText(Obj([Field(key, Str("undefined"))]))
  {
    SingleText(key, NonFinite(which));
    SingleText(key, Null);
    SingleText(key, Undefined);
    SingleText(key, Str("undefined"));
  }

  lemma SingleText(key: string, v: Json)
    ensures SigningText(Obj([Field(key, v)])) == "{" + (Quote(key) + ":" + SigningText(v)) + "}"
  {
    var o := Obj([Field(key, v)]);
    SortOfSorted(o.fields);
    assert SigningFields(o, o.fields) == [Quote(key) + ":" + SigningText(v)];
  }

  lemma {:induction false} PlainNoHoles(v: Json)
    requires Plain(v)
    ensures NoHoles(v)
  {
    match v
    case Arr(items) =>
      forall i | 0 <= i < |items|
        ensures items[i] != Undefined && NoHoles(items[i])
      {
        PlainNoHoles(items[i]);
      }
    case Obj(fields) =>
      forall i | 0 <= i < |fields|
        ensures NoHoles(fields[i].value)
      {
        PlainNoHoles(fields[i].value);
      }
    case _ =>
  }

  /** Every signing text is a text of the standard's grammar and reads as the told value, keys sorted. */
  lemma SigningReads(v: Json)
    requires Valid(v)
    ensures ReadText(SigningText(v), false) == Some(Normal(Told(v)))
  {
    ToldValid(v);
    ToldIsPlain(v);
    ToldDefined(v);
    SigningIsTold(v);
    PrintedReads(Told(v));
    ShownLossless(Told(v));
    PlainNoHoles(Told(v));
    NormalNoHoles(Told(v));
  }
}
