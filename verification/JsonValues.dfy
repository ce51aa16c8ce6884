/** JSON values (RFC 8259) as the compact writer renders them, and that a rendered text
    determines its value. */
module JsonValues {
  import opened Decimal
  import Text
  import Json

  datatype Value =
    | Null
    | Bool(b: bool)
    | Number(n: int)
    | Str(s: string)
    | List(items: Values)
    | Object(fields: Fields)

  datatype Values = Nil | Cons(head: Value, tail: Values)

  datatype Fields = NoField | Field(key: string, value: Value, rest: Fields)

  function Quoted(s: string): string { "\"" + Json.EscapeAll(s) + "\"" }

  function Integer(n: int): string { if n < 0 then "-" + Print(-n) else Print(n) }

  /** `serde_json::Value::to_string`. */
  function Render(v: Value): string {
    match v
    case Null => "null"
    case Bool(b) => if b then "true" else "false"
    case Number(n) => Integer(n)
    case Str(s) => Quoted(s)
    case List(items) => "[" + FirstItem(items)
    case Object(fields) => "{" + FirstField(fields)
  }

  /** The elements and the closing bracket. */
  function FirstItem(items: Values): string {
    match items
    case Nil => "]"
    case Cons(head, tail) => Render(head) + MoreItems(tail)
  }

  function MoreItems(items: Values): string {
    match items
    case Nil => "]"
    case Cons(head, tail) => "," + (Render(head) + MoreItems(tail))
  }

  /** The members and the closing brace. */
  function FirstField(fields: Fields): string {
    match fields
    case NoField => "}"
    case Field(key, value, rest) => Quoted(key) + (":" + (Render(value) + MoreFields(rest)))
  }

  function MoreFields(fields: Fields): string {
    match fields
    case NoField => "}"
    case Field(key, value, rest) => "," + (Quoted(key) + (":" + (Render(value) + MoreFields(rest))))
  }

  /** Text that cannot continue a number. */
  predicate Ends(t: string) { t != "" ==> !IsDigit(t[0]) }

  // ---- the parts a rendered text starts with --------------------------------------

  lemma QuotedUnique(a: string, b: string, s: string, t: string)
    requires Quoted(a) + s == Quoted(b) + t
    ensures a == b && s == t
  {
    hide Json.EscapeAll;
    assert (Quoted(a) + s)[1..] == Json.EscapeAll(a) + "\"" + s;
    assert (Quoted(b) + t)[1..] == Json.EscapeAll(b) + "\"" + t;
    Json.ParseEscaped(a, s);
    Json.ParseEscaped(b, t);
  }

  lemma DigitsUnique(m: nat, n: nat, s: string, t: string)
    requires Print(m) + s == Print(n) + t && Ends(s) && Ends(t)
    ensures m == n && s == t
  {
    hide Print;
    var a, b := Print(m), Print(n);
    SameLength(a, b, s, t);
    SameLength(b, a, t, s);
    assert a == (a + s)[..|a|] == b;
    assert s == (a + s)[|a|..] == t;
  }

  lemma SameLength(a: string, b: string, s: string, t: string)
    requires a + s == b + t && AllDigits(a) && AllDigits(b) && Ends(s) && Ends(t)
    ensures |b| <= |a|
  {
    var r := a + s;
    assert forall i :: 0 <= i < |b| ==> r[i] == b[i];
    assert |a| < |r| ==> r[|a|] == s[0];
  }

  lemma IntegerUnique(m: int, n: int, s: string, t: string)
    requires Integer(m) + s == Integer(n) + t && Ends(s) && Ends(t)
    ensures m == n && s == t
  {
    hide Print, Integer, Ends;
    IntegerHead(m, s);
    IntegerHead(n, t);
    assert m < 0 <==> n < 0;
    if m < 0 {
      MinusAndDigits(m);
      MinusAndDigits(n);
      Drop("-", Print(-m), Print(-n), s, t);
      DigitsUnique(-m, -n, s, t);
    } else {
      JustDigits(m);
      JustDigits(n);
      DigitsUnique(m, n, s, t);
    }
  }

  lemma MinusAndDigits(n: int)
    requires n < 0
    ensures Integer(n) == "-" + Print(-n)
  {
    hide Print;
  }

  lemma JustDigits(n: nat)
    ensures Integer(n) == Print(n)
  {
    hide Print;
  }

  lemma IntegerHead(n: int, s: string)
    ensures var r := Integer(n) + s; r != "" && (if n < 0 then r[0] == '-' else IsDigit(r[0]))
  {
    hide Print;
  }

  /** The first character tells the kind of a value, and whether a list or object is empty. */
  function KindOf(c: char): nat {
    if c == 'n' then 0 else if c == 't' then 1 else if c == 'f' then 2
    else if c == '"' then 3 else if c == '[' then 4 else if c == '{' then 5 else 6
  }

  function Kind(v: Value): nat {
    match v
    case Null => 0
    case Bool(b) => if b then 1 else 2
    case Str(_) => 3
    case List(_) => 4
    case Object(_) => 5
    case Number(_) => 6
  }

  lemma RenderHead(v: Value, s: string)
    ensures var r := Render(v) + s; r != "" && KindOf(r[0]) == Kind(v) && r[0] != ']' && r[0] != '}'
  {
    hide Print, Json.EscapeAll;
    if v.Number? {
      IntegerHead(v.n, s);
    }
  }

  lemma MoreItemsHead(a: Values, s: string)
    ensures var r := MoreItems(a) + s; r != "" && r[0] == (if a.Nil? then ']' else ',') && Ends(r)
  {
  }

  lemma MoreFieldsHead(a: Fields, s: string)
    ensures var r := MoreFields(a) + s; r != "" && r[0] == (if a.NoField? then '}' else ',') && Ends(r)
  {
  }

  lemma Drop(a: string, x: string, y: string, s: string, t: string)
    requires (a + x) + s == (a + y) + t
    ensures x + s == y + t
  {
    assert x + s == ((a + x) + s)[|a|..];
    assert y + t == ((a + y) + t)[|a|..];
  }

  // ---- a rendered text determines its value ----------------------------------------

  lemma {:induction false} ValueUnique(v: Value, w: Value, s: string, t: string)
    requires Render(v) + s == Render(w) + t && Ends(s) && Ends(t)
    ensures v == w && s == t
    decreases v
  {
    hide Quoted, Integer, FirstItem, FirstField, Ends;
    RenderHead(v, s);
    RenderHead(w, t);
    match v
    case Null => WordUnique("null", s, t);
    case Bool(b) => WordUnique(if b then "true" else "false", s, t);
    case Number(n) => IntegerUnique(n, w.n, s, t);
    case Str(a) => QuotedUnique(a, w.s, s, t);
    case List(items) =>
      Drop("[", FirstItem(items), FirstItem(w.items), s, t);
      ItemsUnique(items, w.items, s, t);
    case Object(fields) =>
      Drop("{", FirstField(fields), FirstField(w.fields), s, t);
      FieldsUnique(fields, w.fields, s, t);
  }

  lemma WordUnique(a: string, s: string, t: string)
    requires a + s == a + t
    ensures s == t
  {
    assert s == (a + s)[|a|..];
    assert t == (a + t)[|a|..];
  }

  lemma {:induction false} ItemsUnique(a: Values, b: Values, s: string, t: string)
    requires FirstItem(a) + s == FirstItem(b) + t
    ensures a == b && s == t
    decreases a
  {
    hide Render, MoreItems;
    FirstItemHead(a, s);
    FirstItemHead(b, t);
    assert a.Nil? <==> b.Nil?;
    if a.Nil? {
      WordUnique("]", s, t);
    } else {
      assert FirstItem(a) + s == Render(a.head) + (MoreItems(a.tail) + s);
      assert FirstItem(b) + t == Render(b.head) + (MoreItems(b.tail) + t);
      MoreItemsHead(a.tail, s);
      MoreItemsHead(b.tail, t);
      ValueUnique(a.head, b.head, MoreItems(a.tail) + s, MoreItems(b.tail) + t);
      MoreItemsUnique(a.tail, b.tail, s, t);
    }
  }

  lemma FirstItemHead(a: Values, s: string)
    ensures var r := FirstItem(a) + s; r != "" && (r[0] == ']' <==> a.Nil?)
  {
    hide Render, MoreItems;
    if a.Cons? {
      RenderHead(a.head, MoreItems(a.tail) + s);
      assert FirstItem(a) + s == Render(a.head) + (MoreItems(a.tail) + s);
    }
  }

  lemma {:induction false} MoreItemsUnique(a: Values, b: Values, s: string, t: string)
    requires MoreItems(a) + s == MoreItems(b) + t
    ensures a == b && s == t
    decreases a
  {
    hide Render;
    MoreItemsHead(a, s);
    MoreItemsHead(b, t);
    assert a.Nil? <==> b.Nil?;
    if a.Nil? {
      WordUnique("]", s, t);
    } else {
      var x, y := MoreItems(a.tail), MoreItems(b.tail);
      Drop(",", Render(a.head) + x, Render(b.head) + y, s, t);
      assert Render(a.head) + x + s == Render(a.head) + (x + s);
      assert Render(b.head) + y + t == Render(b.head) + (y + t);
      MoreItemsHead(a.tail, s);
      MoreItemsHead(b.tail, t);
      ValueUnique(a.head, b.head, x + s, y + t);
      MoreItemsUnique(a.tail, b.tail, s, t);
    }
  }

  lemma {:induction false} FieldsUnique(a: Fields, b: Fields, s: string, t: string)
    requires FirstField(a) + s == FirstField(b) + t
    ensures a == b && s == t
    decreases a
  {
    hide Render, MoreFields, Quoted;
    FirstFieldHead(a, s);
    FirstFieldHead(b, t);
    assert a.NoField? <==> b.NoField?;
    if a.NoField? {
      WordUnique("}", s, t);
    } else {
      var x, y := MoreFields(a.rest), MoreFields(b.rest);
      MemberUnique(a.key, b.key, Render(a.value), Render(b.value), x, y, s, t);
      MoreFieldsHead(a.rest, s);
      MoreFieldsHead(b.rest, t);
      ValueUnique(a.value, b.value, x + s, y + t);
      MoreFieldsUnique(a.rest, b.rest, s, t);
    }
  }

  lemma FirstFieldHead(a: Fields, s: string)
    ensures var r := FirstField(a) + s; r != "" && (r[0] == '}' <==> a.NoField?)
  {
    hide Render, MoreFields, Json.EscapeAll;
  }

  lemma {:induction false} MoreFieldsUnique(a: Fields, b: Fields, s: string, t: string)
    requires MoreFields(a) + s == MoreFields(b) + t
    ensures a == b && s == t
    decreases a
  {
    hide Render, Quoted;
    MoreFieldsHead(a, s);
    MoreFieldsHead(b, t);
    assert a.NoField? <==> b.NoField?;
    if a.NoField? {
      WordUnique("}", s, t);
    } else {
      var x, y := MoreFields(a.rest), MoreFields(b.rest);
      Drop(",", Quoted(a.key) + (":" + (Render(a.value) + x)), Quoted(b.key) + (":" + (Render(b.value) + y)), s, t);
      MemberUnique(a.key, b.key, Render(a.value), Render(b.value), x, y, s, t);
      MoreFieldsHead(a.rest, s);
      MoreFieldsHead(b.rest, t);
      ValueUnique(a.value, b.value, x + s, y + t);
      MoreFieldsUnique(a.rest, b.rest, s, t);
    }
  }

  /** Members agree in their key, and in what follows the colon. */
  lemma MemberUnique(k: string, l: string, v: string, w: string, x: string, y: string, s: string, t: string)
    requires Quoted(k) + (":" + (v + x)) + s == Quoted(l) + (":" + (w + y)) + t
    ensures k == l && v + (x + s) == w + (y + t)
  {
    hide Quoted;
    assert Quoted(k) + (":" + (v + x)) + s == Quoted(k) + (":" + (v + (x + s)));
    assert Quoted(l) + (":" + (w + y)) + t == Quoted(l) + (":" + (w + (y + t)));
    QuotedUnique(k, l, ":" + (v + (x + s)), ":" + (w + (y + t)));
    WordUnique(":", v + (x + s), w + (y + t));
  }

  /** A rendered text determines its value. */
  lemma RenderUnique(v: Value, w: Value)
    ensures Render(v) == Render(w) <==> v == w
  {
    hide Render;
    assert Render(v) + "" == Render(v) && Render(w) + "" == Render(w);
    if Render(v) == Render(w) {
      ValueUnique(v, w, "", "");
    }
  }

  // ---- the rendered form ------------------------------------------------------------

  function Texts(items: Values): (r: seq<string>)
    ensures items.Cons? ==> r != []
  {
    match items
    case Nil => []
    case Cons(head, tail) => [Render(head)] + Texts(tail)
  }

  function MemberTexts(fields: Fields): (r: seq<string>)
    ensures fields.Field? ==> r != []
  {
    match fields
    case NoField => []
    case Field(key, value, rest) => [Quoted(key) + (":" + Render(value))] + MemberTexts(rest)
  }

  lemma {:induction false} MoreItemsJoined(head: string, items: Values)
    ensures head + MoreItems(items) == Text.Join([head] + Texts(items), ",") + "]"
    decreases items
  {
    hide Render;
    if items.Cons? {
      var x := Render(items.head);
      MoreItemsJoined(x, items.tail);
      assert ([head] + Texts(items))[1..] == [x] + Texts(items.tail);
      assert head + MoreItems(items) == head + "," + (x + MoreItems(items.tail));
    }
  }

  lemma {:induction false} MoreFieldsJoined(head: string, fields: Fields)
    ensures head + MoreFields(fields) == Text.Join([head] + MemberTexts(fields), ",") + "}"
    decreases fields
  {
    hide Render, Quoted;
    if fields.Field? {
      var x := Quoted(fields.key) + (":" + Render(fields.value));
      MoreFieldsJoined(x, fields.rest);
      assert ([head] + MemberTexts(fields))[1..] == [x] + MemberTexts(fields.rest);
      assert head + MoreFields(fields) == head + "," + (x + MoreFields(fields.rest));
    }
  }

  lemma Bracketed(a: string, b: string, c: string)
    ensures a + (b + c) == a + b + c
  {
  }

  /** Brackets or braces around the comma-separated elements or members. */
  lemma RenderedForm(items: Values, fields: Fields)
    ensures Render(Null) == "null" && Render(Bool(true)) == "true" && Render(Bool(false)) == "false"
    ensures Render(List(items)) == "[" + Text.Join(Texts(items), ",") + "]"
    ensures Render(Object(fields)) == "{" + Text.Join(MemberTexts(fields), ",") + "}"
  {
    hide Render;
    WordsRendered();
    ListRendered(items);
    ObjectRendered(fields);
  }

  lemma WordsRendered()
    ensures Render(Null) == "null" && Render(Bool(true)) == "true" && Render(Bool(false)) == "false"
  {
  }

  lemma {:induction false} ListRendered(items: Values)
    ensures Render(List(items)) == "[" + Text.Join(Texts(items), ",") + "]"
  {
    hide MoreItems;
    if items.Cons? {
      var x := Render(items.head);
      MoreItemsJoined(x, items.tail);
      assert Texts(items) == [x] + Texts(items.tail);
      Bracketed("[", Text.Join(Texts(items), ","), "]");
    }
  }

  lemma {:induction false} ObjectRendered(fields: Fields)
    ensures Render(Object(fields)) == "{" + Text.Join(MemberTexts(fields), ",") + "}"
  {
    hide Quoted, MoreFields;
    if fields.Field? {
      var x := Quoted(fields.key) + (":" + Render(fields.value));
      MoreFieldsJoined(x, fields.rest);
      assert MemberTexts(fields) == [x] + MemberTexts(fields.rest);
      assert FirstField(fields) == x + MoreFields(fields.rest);
      Bracketed("{", Text.Join(MemberTexts(fields), ","), "}");
    }
  }
}
