/** JSON arrays of strings (RFC 8259): the compact writer and the strict reader that config
    values pass through. */
module Json {
  import opened Text

  function HexDigit(n: nat): char
    requires n < 16
  {
    if n < 10 then ('0' as int + n) as char else ('a' as int + n - 10) as char
  }

  function HexValue(c: char): Option<nat> {
    if '0' <= c <= '9' then Some(c as int - '0' as int)
    else if 'a' <= c <= 'f' then Some(c as int - 'a' as int + 10)
    else if 'A' <= c <= 'F' then Some(c as int - 'A' as int + 10)
    else None
  }

  /** One character as the writer puts it between quotes. */
  function Escape(c: char): (r: string)
    ensures r != "" && r[0] != '"'
  {
    if c == '"' then "\\\""
    else if c == '\\' then "\\\\"
    else if c == '\U{08}' then "\\b"
    else if c == '\U{0C}' then "\\f"
    else if c == '\n' then "\\n"
    else if c == '\r' then "\\r"
    else if c == '\t' then "\\t"
    else if c < ' ' then "\\u00" + [HexDigit(c as int / 16), HexDigit(c as int % 16)]
    else [c]
  }

  function EscapeAll(s: string): string {
    if s == "" then "" else Escape(s[0]) + EscapeAll(s[1..])
  }

  /** The elements and the closing bracket. */
  function EncodeItems(xs: seq<string>): string
    requires xs != []
  {
    "\"" + EscapeAll(xs[0]) + "\"" + if |xs| == 1 then "]" else "," + EncodeItems(xs[1..])
  }

  /** `serde_json::to_string` on a list of strings. */
  function Encode(xs: seq<string>): string {
    "[" + if xs == [] then "]" else EncodeItems(xs)
  }

  /** Four hexadecimal digits. */
  function ReadHex(t: string): (r: Option<nat>)
    ensures r.Some? ==> |t| >= 4 && r.value < 0x10000
  {
    if |t| < 4 then None
    else match (HexValue(t[0]), HexValue(t[1]), HexValue(t[2]), HexValue(t[3]))
      case (Some(a), Some(b), Some(c), Some(d)) => Some(((a * 16 + b) * 16 + c) * 16 + d)
      case _ => None
  }

  /** The character a `\u` escape stands for; a surrogate must come with its partner. */
  function ReadUnicode(t: string): (r: Option<(char, string)>)
    ensures r.Some? ==> |r.value.1| < |t|
  {
    match ReadHex(t)
    case None => None
    case Some(n) =>
      if n < 0xD800 || 0xDFFF < n then Some((n as char, t[4..]))
      else if 0xDC00 <= n || |t| < 6 || t[4] != '\\' || t[5] != 'u' then None
      else match ReadHex(t[6..])
        case None => None
        case Some(m) =>
          if m < 0xDC00 || 0xDFFF < m then None
          else Some(((0x10000 + (n - 0xD800) * 0x400 + (m - 0xDC00)) as char, t[10..]))
  }

  /** One possibly escaped character inside a string. */
  function ReadChar(t: string): (r: Option<(char, string)>)
    ensures r.Some? ==> |r.value.1| < |t|
  {
    if t == "" || t[0] < ' ' then None
    else if t[0] != '\\' then Some((t[0], t[1..]))
    else if |t| == 1 then None
    else if t[1] == '"' || t[1] == '\\' || t[1] == '/' then Some((t[1], t[2..]))
    else if t[1] == 'b' then Some(('\U{08}', t[2..]))
    else if t[1] == 'f' then Some(('\U{0C}', t[2..]))
    else if t[1] == 'n' then Some(('\n', t[2..]))
    else if t[1] == 'r' then Some(('\r', t[2..]))
    else if t[1] == 't' then Some(('\t', t[2..]))
    else if t[1] == 'u' then ReadUnicode(t[2..])
    else None
  }

  /** A string behind its opening quote, and the text behind its closing quote. */
  function ParseString(t: string): (r: Option<(string, string)>)
    ensures r.Some? ==> |r.value.1| < |t|
    decreases |t|
  {
    if t == "" then None
    else if t[0] == '"' then Some(("", t[1..]))
    else match ReadChar(t)
      case None => None
      case Some((c, u)) =>
        match ParseString(u)
        case None => None
        case Some((s, v)) => Some(([c] + s, v))
  }

  function SkipBlanks(t: string): (u: string)
    ensures |u| <= |t|
  {
    if t != "" && (t[0] == ' ' || t[0] == '\n' || t[0] == '\t' || t[0] == '\r')
    then SkipBlanks(t[1..]) else t
  }

  /** Elements up to the closing bracket. */
  function ParseItems(t: string): Option<(seq<string>, string)>
    decreases |t|
  {
    if t == "" || t[0] != '"' then None
    else match ParseString(t[1..])
      case None => None
      case Some((s, u)) =>
        var v := SkipBlanks(u);
        if v == "" then None
        else if v[0] == ']' then Some(([s], v[1..]))
        else if v[0] != ',' then None
        else match ParseItems(SkipBlanks(v[1..]))
          case None => None
          case Some((xs, w)) => Some(([s] + xs, w))
  }

  /** `serde_json::from_str::<Vec<String>>`. */
  function Decode(t: string): Option<seq<string>> {
    var u := SkipBlanks(t);
    if u == "" || u[0] != '[' then None
    else
      var v := SkipBlanks(u[1..]);
      var r: Option<(seq<string>, string)> :=
        if v != "" && v[0] == ']' then Some(([], v[1..])) else ParseItems(v);
      match r
      case None => None
      case Some((xs, w)) => if SkipBlanks(w) == "" then Some(xs) else None
  }

  /** Reading undoes writing, character by character. */
  lemma ReadEscaped(c: char, u: string)
    ensures ReadChar(Escape(c) + u) == Some((c, u))
  {
    var e := Escape(c);
    var t := e + u;
    assert t[|e|..] == u;
    if c < ' ' && e[1] == 'u' {
      var h := [HexDigit(c as int / 16), HexDigit(c as int % 16)];
      assert t[2..] == "00" + h + u;
      ReadControl(c, u);
    }
  }

  lemma ReadControl(c: char, u: string)
    requires c < ' '
    ensures ReadUnicode("00" + [HexDigit(c as int / 16), HexDigit(c as int % 16)] + u) == Some((c, u))
  {
    var hi, lo := c as int / 16, c as int % 16;
    var t := "00" + [HexDigit(hi), HexDigit(lo)] + u;
    assert HexValue(t[2]) == Some(hi) && HexValue(t[3]) == Some(lo);
    assert ReadHex(t) == Some(c as int);
    assert t[4..] == u;
  }

  lemma {:induction false} ParseEscaped(s: string, post: string)
    ensures ParseString(EscapeAll(s) + "\"" + post) == Some((s, post))
    decreases |s|
  {
    hide ReadChar, Escape;
    var t := EscapeAll(s) + "\"" + post;
    if s == "" {
      assert t[1..] == post;
    } else {
      var u := EscapeAll(s[1..]) + "\"" + post;
      assert t == Escape(s[0]) + u;
      ReadEscaped(s[0], u);
      ParseEscaped(s[1..], post);
      assert s == [s[0]] + s[1..];
    }
  }

  lemma SkipNothing(t: string)
    requires t != "" && (t[0] == '"' || t[0] == '[' || t[0] == ']' || t[0] == ',')
    ensures SkipBlanks(t) == t
  {
  }

  lemma {:induction false} ParseEncoded(xs: seq<string>, post: string)
    requires xs != []
    ensures ParseItems(EncodeItems(xs) + post) == Some((xs, post))
    decreases |xs|
  {
    hide ParseString, EscapeAll, SkipBlanks;
    var t := EncodeItems(xs) + post;
    var more := if |xs| == 1 then "]" else "," + EncodeItems(xs[1..]);
    assert t[1..] == EscapeAll(xs[0]) + "\"" + (more + post);
    ParseEscaped(xs[0], more + post);
    SkipNothing(more + post);
    if |xs| == 1 {
      assert (more + post)[1..] == post;
      assert xs == [xs[0]];
    } else {
      var rest := EncodeItems(xs[1..]) + post;
      assert (more + post)[1..] == rest;
      SkipNothing(rest);
      ParseEncoded(xs[1..], post);
      assert xs == [xs[0]] + xs[1..];
    }
  }

  /** Reading undoes writing. */
  lemma RoundTrip(xs: seq<string>)
    ensures Decode(Encode(xs)) == Some(xs)
  {
    hide ParseItems, EncodeItems, SkipBlanks;
    var t := Encode(xs);
    SkipNothing(t);
    if xs == [] {
      assert t[1..] == "]";
      SkipNothing("]");
      assert SkipBlanks("") == "" by { SkipEmpty(); }
    } else {
      assert EncodeItems(xs)[0] == '"' by { ItemsStart(xs); }
      assert t[1..] == EncodeItems(xs) == EncodeItems(xs) + "";
      SkipNothing(EncodeItems(xs));
      ParseEncoded(xs, "");
      SkipEmpty();
    }
  }

  lemma SkipEmpty()
    ensures SkipBlanks("") == ""
  {
  }

  lemma ItemsStart(xs: seq<string>)
    requires xs != []
    ensures EncodeItems(xs) != "" && EncodeItems(xs)[0] == '"'
  {
  }

  lemma {:induction false} ItemsEnd(xs: seq<string>)
    requires xs != []
    ensures EncodeItems(xs) != "" && EncodeItems(xs)[|EncodeItems(xs)| - 1] == ']'
    decreases |xs|
  {
    if |xs| > 1 {
      ItemsEnd(xs[1..]);
    }
  }

  /** Written arrays start and end with their brackets, so trimming leaves them alone. */
  lemma EncodedIsTrimmed(xs: seq<string>)
    ensures Encode(xs) != "" && Encode(xs)[0] == '['
    ensures Trim(Encode(xs)) == Encode(xs)
  {
    if xs != [] {
      ItemsEnd(xs);
    }
    TrimIdentity(Encode(xs));
  }

  // ---- white space and malformed texts ------------------------------------------------

  predicate AllBlank(w: string) {
    forall i :: 0 <= i < |w| ==> w[i] in {' ', '\t', '\n', '\r'}
  }

  lemma {:induction false} SkipsBlanks(w: string, t: string)
    requires AllBlank(w)
    ensures SkipBlanks(w + t) == SkipBlanks(t)
    decreases |w|
  {
    if w == "" {
      assert w + t == t;
    } else {
      assert (w + t)[1..] == w[1..] + t;
      SkipsBlanks(w[1..], t);
    }
  }

  /** The elements with white space of any kind around each of them. */
  function SpacedItems(xs: seq<string>, w: string): string
    requires xs != []
  {
    "\"" + EscapeAll(xs[0]) + "\"" + (w + if |xs| == 1 then "]" else "," + (w + SpacedItems(xs[1..], w)))
  }

  lemma {:induction false} ParseSpaced(xs: seq<string>, w: string, post: string)
    requires xs != [] && AllBlank(w)
    ensures ParseItems(SpacedItems(xs, w) + post) == Some((xs, post))
    decreases |xs|
  {
    hide ParseString, EscapeAll, SkipBlanks;
    var t := SpacedItems(xs, w) + post;
    var more := if |xs| == 1 then "]" else "," + (w + SpacedItems(xs[1..], w));
    assert t[1..] == EscapeAll(xs[0]) + "\"" + (w + (more + post));
    ParseEscaped(xs[0], w + (more + post));
    SkipsBlanks(w, more + post);
    SkipNothing(more + post);
    if |xs| == 1 {
      assert (more + post)[1..] == post;
      assert xs == [xs[0]];
    } else {
      var rest := SpacedItems(xs[1..], w) + post;
      assert (more + post)[1..] == w + rest;
      SkipsBlanks(w, rest);
      SkipNothing(rest);
      ParseSpaced(xs[1..], w, post);
      assert xs == [xs[0]] + xs[1..];
    }
  }

  /** White space around the array, its elements and its commas is ignored. */
  lemma SpacedIsRead(xs: seq<string>, before: string, w: string, behind: string)
    requires AllBlank(before) && AllBlank(w) && AllBlank(behind)
    ensures Decode(before + ("[" + (w + if xs == [] then "]" + behind else SpacedItems(xs, w) + behind))) == Some(xs)
  {
    hide ParseItems, SpacedItems, SkipBlanks, AllBlank;
    var items := if xs == [] then "]" + behind else SpacedItems(xs, w) + behind;
    var u := "[" + (w + items);
    SkipsBlanks(before, u);
    SkipNothing(u);
    assert u[1..] == w + items;
    SkipsBlanks(w, items);
    assert behind + "" == behind;
    SkipsBlanks(behind, "");
    SkipEmpty();
    if xs == [] {
      SkipNothing(items);
      assert items[1..] == behind;
    } else {
      SpacedStart(xs, w, behind);
      SkipNothing(items);
      ParseSpaced(xs, w, behind);
    }
  }

  lemma SpacedStart(xs: seq<string>, w: string, behind: string)
    requires xs != []
    ensures var t := SpacedItems(xs, w) + behind; t != "" && t[0] == '"'
  {
    hide EscapeAll;
  }

  predicate BlankChar(c: char) { c in {' ', '\t', '\n', '\r'} }

  /** Text behind the array, anything but an array, and elements that are no strings are refused. */
  lemma MalformedIsRefused(xs: seq<string>, c: char, z: string)
    requires !BlankChar(c)
    ensures Decode(Encode(xs) + [c] + z) == None
    ensures c != '[' ==> Decode([c] + z) == None
    ensures c != '"' && c != ']' ==> Decode("[" + [c] + z) == None
    ensures Decode("") == None && Decode("[") == None
  {
    hide ParseItems, SkipBlanks, Encode;
    KeepsFirst([c] + z);
    KeepsFirst("[" + [c] + z);
    KeepsFirst("[");
    SkipEmpty();
    assert ("[" + [c] + z)[1..] == [c] + z && "["[1..] == "";
    if c != '"' {
      NoItems([c] + z);
    }
    NoItems("");
    BehindIsRefused(xs, c, z);
  }

  lemma KeepsFirst(t: string)
    requires t != "" && !BlankChar(t[0])
    ensures SkipBlanks(t) == t
  {
  }

  lemma NoItems(t: string)
    requires t == "" || t[0] != '"'
    ensures ParseItems(t) == None
  {
  }

  lemma BehindIsRefused(xs: seq<string>, c: char, z: string)
    requires !BlankChar(c)
    ensures Decode(Encode(xs) + [c] + z) == None
  {
    hide ParseItems, SkipBlanks, EncodeItems;
    var t := Encode(xs) + [c] + z;
    SkipNothing(t);
    KeepsFirst([c] + z);
    if xs == [] {
      assert t[1..] == "]" + ([c] + z);
      SkipNothing(t[1..]);
      assert t[1..][1..] == [c] + z;
    } else {
      assert t[1..] == EncodeItems(xs) + ([c] + z);
      ItemsStart(xs);
      SkipNothing(t[1..]);
      ParseEncoded(xs, [c] + z);
    }
  }

  /** How the writer escapes. */
  lemma EscapesAre(c: char)
    ensures Escape('"') == "\\\"" && Escape('\\') == "\\\\" && Escape('\n') == "\\n" && Escape('\r') == "\\r"
    ensures Escape('\t') == "\\t" && Escape('\U{08}') == "\\b" && Escape('\U{0C}') == "\\f"
    ensures Escape('\U{1F}') == "\\u001f"
    ensures c >= ' ' && c != '"' && c != '\\' ==> Escape(c) == [c]
  {
  }

  /** What the reader takes: the short escapes, the four-digit ones, and plain characters; no raw
      control character and no other escape. */
  lemma ReadsAre(c: char, u: string)
    ensures ReadChar("\\\"" + u) == Some(('"', u)) && ReadChar("\\\\" + u) == Some(('\\', u))
    ensures ReadChar("\\/" + u) == Some(('/', u)) && ReadChar("\\b" + u) == Some(('\U{08}', u))
    ensures ReadChar("\\f" + u) == Some(('\U{0C}', u)) && ReadChar("\\n" + u) == Some(('\n', u))
    ensures ReadChar("\\r" + u) == Some(('\r', u)) && ReadChar("\\t" + u) == Some(('\t', u))
    ensures c < ' ' ==> ReadChar([c] + u) == None
    ensures c >= ' ' && c != '\\' ==> ReadChar([c] + u) == Some((c, u))
    ensures c !in {'"', '\\', '/', 'b', 'f', 'n', 'r', 't', 'u'} ==> ReadChar("\\" + [c] + u) == None
  {
    assert ([c] + u)[1..] == u && ("\\" + [c] + u)[1] == c;
    assert ("\\\"" + u)[2..] == u && ("\\\\" + u)[2..] == u && ("\\/" + u)[2..] == u && ("\\b" + u)[2..] == u;
    assert ("\\f" + u)[2..] == u && ("\\n" + u)[2..] == u && ("\\r" + u)[2..] == u && ("\\t" + u)[2..] == u;
  }

  function QuotedAll(xs: seq<string>): (r: seq<string>)
    ensures |r| == |xs| && forall i :: 0 <= i < |xs| ==> r[i] == "\"" + EscapeAll(xs[i]) + "\""
  {
    seq(|xs|, i requires 0 <= i < |xs| => "\"" + EscapeAll(xs[i]) + "\"")
  }

  lemma {:induction false} ItemsJoined(xs: seq<string>)
    requires xs != []
    ensures EncodeItems(xs) == Join(QuotedAll(xs), ",") + "]"
    decreases |xs|
  {
    hide EscapeAll;
    if |xs| > 1 {
      ItemsJoined(xs[1..]);
      assert QuotedAll(xs)[1..] == QuotedAll(xs[1..]);
    }
  }

  /** The written form: quoted elements with commas between, in brackets, and no white space. */
  lemma EncodedForm(xs: seq<string>)
    ensures Encode(xs) == "[" + Join(QuotedAll(xs), ",") + "]"
  {
    hide EscapeAll, EncodeItems, Join;
    if xs != [] {
      ItemsJoined(xs);
      Associate("[", Join(QuotedAll(xs), ","), "]");
    } else {
      NothingJoined();
      assert QuotedAll(xs) == [];
    }
  }

  lemma NothingJoined()
    ensures Join([], ",") == ""
  {
  }

  lemma Associate(a: string, b: string, c: string)
    ensures a + (b + c) == a + b + c
  {
  }

  const SMALL_HEX := "0123456789abcdef"
  const CAPITAL_HEX := "0123456789ABCDEF"

  lemma HexDigitsAre(c: char, k: nat)
    requires k < 16
    ensures HexValue(c) == Some(k) <==> c == SMALL_HEX[k] || c == CAPITAL_HEX[k]
  {
  }

  function FourDigits(a: nat, b: nat, c: nat, d: nat): (r: string)
    requires a < 16 && b < 16 && c < 16 && d < 16
    ensures |r| == 4
  {
    [SMALL_HEX[a], SMALL_HEX[b], SMALL_HEX[c], SMALL_HEX[d]]
  }

  /** Four hexadecimal digits stand for the character with that number; a surrogate does not stand
      alone. */
  lemma UnicodeMeans(a: nat, b: nat, c: nat, d: nat, u: string)
    requires a < 16 && b < 16 && c < 16 && d < 16
    ensures var n := 4096 * a + 256 * b + 16 * c + d;
            var r := ReadUnicode(FourDigits(a, b, c, d) + u);
            && (n < 0xD800 || 0xDFFF < n ==> r == Some((n as char, u)))
            && (0xDC00 <= n <= 0xDFFF ==> r == None)
            && (0xD800 <= n < 0xDC00 && (u == "" || u[0] != '\\') ==> r == None)
  {
    hide ReadHex, FourDigits;
    HexOf(a, b, c, d, u);
    var t := FourDigits(a, b, c, d) + u;
    assert t[4..] == u;
  }

  /** A high surrogate followed by the escape of a low one stands for one character beyond the first
      plane; followed by any other escape it is refused. */
  lemma SurrogatesMean(first: string, n: nat, second: string, m: nat, u: string)
    requires |first| == 4 && |second| == 4 && 0xD800 <= n < 0xDC00
    requires forall t :: ReadHex(first + t) == Some(n)
    requires forall t :: ReadHex(second + t) == Some(m)
    ensures ReadUnicode(first + ("\\u" + (second + u))) ==
            if 0xDC00 <= m <= 0xDFFF then Some(((0x10000 + (n - 0xD800) * 0x400 + (m - 0xDC00)) as char, u)) else None
  {
    hide ReadHex;
    var t := first + ("\\u" + (second + u));
    assert t[4] == '\\' && t[5] == 'u';
    assert t[6..] == second + u && t[10..] == u;
    assert ReadHex(t) == Some(n) && ReadHex(t[6..]) == Some(m);
  }

  lemma HexOf(a: nat, b: nat, c: nat, d: nat, u: string)
    requires a < 16 && b < 16 && c < 16 && d < 16
    ensures ReadHex(FourDigits(a, b, c, d) + u) == Some(4096 * a + 256 * b + 16 * c + d)
  {
    hide HexValue;
    HexDigitsAre(SMALL_HEX[a], a);
    HexDigitsAre(SMALL_HEX[b], b);
    HexDigitsAre(SMALL_HEX[c], c);
    HexDigitsAre(SMALL_HEX[d], d);
  }
}
