/** Origins as the configuration accepts them: scheme and authority of a URI (section 3 of
    RFC 3986, section 6.2 of RFC 6454) in lower case, nothing else. */
module Origins {
  import opened Text

  const EXTENSION_SCHEMES: seq<string> := ["chrome-extension", "moz-extension", "safari-web-extension"]

  predicate EndsAuthority(c: char) { c == '/' || c == '?' || c == '#' }

  /** Where the authority starting at `k` ends. */
  function AuthorityStop(s: string, k: nat): (n: nat)
    requires k <= |s|
    ensures k <= n <= |s| && (n < |s| ==> EndsAuthority(s[n]))
    ensures forall j :: k <= j < n ==> !EndsAuthority(s[j])
    decreases |s| - k
  {
    if k == |s| || EndsAuthority(s[k]) then k else AuthorityStop(s, k + 1)
  }

  /** What a character means inside an authority. */
  datatype Class = Colon | Open | Close | Percent | Plain | Bad

  function ClassOf(c: char): Class {
    if c == ':' then Colon
    else if c == '[' then Open
    else if c == ']' then Close
    else if c == '%' then Percent
    else if 'a' <= c <= 'z' || 'A' <= c <= 'Z' || '0' <= c <= '9' then Plain
    else if c in "-._~!$&'()*+,;=" then Plain
    else Bad
  }

  const MAX_COLONS := 8

  /** The reader's counters: colons since the last bracket, brackets, a percent sign. */
  datatype Scan = Scan(colons: nat, open: bool, close: bool, percent: bool)

  const FRESH := Scan(0, false, false, false)

  function Advance(s: Scan, c: Class): Option<Scan> {
    match c
    case Colon => if s.colons >= MAX_COLONS then None else Some(s.(colons := s.colons + 1))
    case Open => if s.percent || s.open then None else Some(s.(open := true))
    case Close => if !s.open || s.close then None else Some(Scan(0, true, true, false))
    case Percent => Some(s.(percent := true))
    case Plain => Some(s)
    case Bad => None
  }

  function ScanAll(a: string): Option<Scan> {
    if a == "" then Some(FRESH)
    else match ScanAll(a[..|a| - 1])
      case None => None
      case Some(s) => Advance(s, ClassOf(a[|a| - 1]))
  }

  /** An authority without user information. */
  predicate ValidAuthority(a: string) {
    && a != ""
    && match ScanAll(a)
       case None => false
       case Some(s) => s.open == s.close && s.colons <= 1 && !s.percent
  }

  lemma ClassIgnoresCase(c: char)
    ensures ClassOf(Lower(c)) == ClassOf(c)
  {
  }

  lemma {:induction false} ScanIgnoresCase(a: string)
    ensures ScanAll(LowerAll(a)) == ScanAll(a)
    decreases |a|
  {
    hide ClassOf, Advance;
    if a != "" {
      var n := |a| - 1;
      assert LowerAll(a)[..n] == LowerAll(a[..n]);
      ScanIgnoresCase(a[..n]);
      ClassIgnoresCase(a[n]);
    }
  }

  /** Every character of a scanned text has a class. */
  lemma {:induction false} ScannedChars(a: string)
    requires ScanAll(a).Some?
    ensures forall j :: 0 <= j < |a| ==> ClassOf(a[j]) != Bad
    decreases |a|
  {
    hide ClassOf;
    if a != "" {
      ScannedChars(a[..|a| - 1]);
    }
  }

  lemma GoodChar(c: char)
    requires ClassOf(c) != Bad
    ensures !EndsAuthority(c) && !IsSpace(c)
  {
  }

  /** The standard schemes are recognised in any letter case, others only as written. */
  function StandardScheme(s: string): string {
    if LowerAll(s) == "http" || LowerAll(s) == "https" then LowerAll(s) else s
  }

  predicate SchemeAllowed(scheme: string, extra: seq<string>) {
    scheme == "http" || scheme == "https" || scheme in extra
  }

  /** Behind the authority at most a root path and a fragment, which the URI reader drops. */
  predicate OriginOnly(s: string, e: nat) {
    || e >= |s|
    || s[e] == '#'
    || (s[e] == '/' && (e + 1 == |s| || s[e + 1] == '#'))
  }

  /** `normalize_origin_with_schemes`; `None` is the validation error. */
  function NormalizeOrigin(origin: string, allowWildcard: bool, extra: seq<string>): Option<string> {
    var t := Trim(origin);
    if t == "" then None
    else if allowWildcard && t == "*" then Some("*")
    else match Find(t, "://")
      case None => None
      case Some(i) =>
        var scheme := StandardScheme(t[..i]);
        var e := AuthorityStop(t, i + 3);
        if SchemeAllowed(scheme, extra) && ValidAuthority(t[i + 3..e]) && OriginOnly(t, e)
        then Some(LowerAll(scheme) + "://" + LowerAll(t[i + 3..e]))
        else None
  }

  /** Schemes under which the normaliser's own output is read again. */
  predicate PlainSchemes(extra: seq<string>) {
    forall k :: 0 <= k < |extra| ==> PlainScheme(extra[k])
  }

  predicate PlainScheme(s: string) {
    && s != "" && LowerAll(s) == s && !IsSpace(s[0])
    && (forall j :: 0 <= j < |s| ==> s[j] != ':')
  }

  lemma ExtensionSchemesArePlain()
    ensures PlainSchemes(EXTENSION_SCHEMES) && PlainSchemes([])
  {
    hide PlainScheme;
    ChromeIsPlain();
    MozillaIsPlain();
    SafariIsPlain();
  }

  lemma ChromeIsPlain()
    ensures PlainScheme("chrome-extension")
  {
  }

  lemma MozillaIsPlain()
    ensures PlainScheme("moz-extension")
  {
  }

  lemma SafariIsPlain()
    ensures PlainScheme("safari-web-extension")
  {
  }

  lemma AllowedIsPlain(scheme: string, extra: seq<string>)
    requires SchemeAllowed(scheme, extra) && PlainSchemes(extra)
    ensures PlainScheme(scheme)
  {
    if scheme in extra {
      var k :| 0 <= k < |extra| && extra[k] == scheme;
      assert PlainScheme(extra[k]);
    } else {
      assert LowerAll("http") == "http" && LowerAll("https") == "https";
    }
  }

  lemma LowerTwice(s: string)
    ensures LowerAll(LowerAll(s)) == LowerAll(s)
  {
  }

  /** A plain scheme, the separator and a lower-case authority form a normal origin. */
  lemma NormalIsFixed(scheme: string, a: string, allowWildcard: bool, extra: seq<string>)
    requires PlainScheme(scheme) && SchemeAllowed(scheme, extra) && ValidAuthority(a) && LowerAll(a) == a
    ensures NormalizeOrigin(scheme + "://" + a, allowWildcard, extra) == Some(scheme + "://" + a)
    ensures Trim(scheme + "://" + a) == scheme + "://" + a
  {
    hide ScanAll, AuthorityStop, Text.Trim, Text.Find, ClassOf;
    var t := scheme + "://" + a;
    ScannedChars(a);
    forall j | 0 <= j < |a| ensures !EndsAuthority(a[j]) && !IsSpace(a[j]) {
      GoodChar(a[j]);
    }
    TrimIdentity(t);
    FindSeparator(scheme, a);
    var k := |scheme| + 3;
    assert t[..|scheme|] == scheme && t[k..] == a;
    AuthorityRunsOut(t, k);
    assert t[k..|t|] == a;
    assert StandardScheme(scheme) == scheme;
  }

  lemma AuthorityRunsOut(s: string, k: nat)
    requires k <= |s| && forall j :: 0 <= j < |s| - k ==> !EndsAuthority(s[k..][j])
    ensures AuthorityStop(s, k) == |s|
  {
    hide EndsAuthority;
    assert forall j :: k <= j < |s| ==> s[j] == s[k..][j - k];
  }

  lemma FindSeparator(scheme: string, a: string)
    requires PlainScheme(scheme)
    ensures Find(scheme + "://" + a, "://") == Some(|scheme|)
  {
    hide Text.Find;
    var t := scheme + "://" + a;
    assert t[|scheme|..|scheme| + 3] == "://";
    forall j: nat | j < |scheme| ensures !At(t, "://", j) {
      assert t[j..][0] == scheme[j];
      NotAtHead(t[j..], "://");
      AtSuffix(t, j, "://", 0);
    }
    FindIs(t, "://", |scheme|);
  }

  /** Normalising an accepted origin again changes nothing. */
  lemma NormalizeIsIdempotent(origin: string, allowWildcard: bool, extra: seq<string>)
    requires PlainSchemes(extra) && NormalizeOrigin(origin, allowWildcard, extra).Some?
    ensures var n := NormalizeOrigin(origin, allowWildcard, extra).value;
            NormalizeOrigin(n, allowWildcard, extra) == Some(n) && Trim(n) == n && n != ""
  {
    hide ScanAll, AuthorityStop, Text.Find, ClassOf, Text.Trim;
    var t := Trim(origin);
    if allowWildcard && t == "*" {
      TrimIdentity("*");
    } else {
      var i := Find(t, "://").value;
      var scheme := StandardScheme(t[..i]);
      var a := t[i + 3..AuthorityStop(t, i + 3)];
      AllowedIsPlain(scheme, extra);
      ScanIgnoresCase(a);
      LowerTwice(a);
      NormalIsFixed(scheme, LowerAll(a), allowWildcard, extra);
    }
  }

  // ---- which origins are accepted ---------------------------------------------------

  /** The characters of an authority. */
  lemma AuthorityCharsAre(c: char)
    ensures ClassOf(c) != Bad <==>
            || 'a' <= c <= 'z' || 'A' <= c <= 'Z' || '0' <= c <= '9'
            || c in {'-', '.', '_', '~', '!', '$', '&', '\'', '(', ')', '*', '+', ',', ';', '=', ':', '[', ']', '%'}
    ensures EndsAuthority(c) <==> c in {'/', '?', '#'}
  {
  }

  /** An authority with any other character, such as the `@` of user information, is refused. */
  lemma StrangeAuthorityIsRefused(a: string, j: nat)
    requires j < |a| && (a[j] == '@' || a[j] == ' ' || a[j] == '\\' || a[j] == '"' || a[j] as int > 126)
    ensures !ValidAuthority(a) && !ValidAuthority("")
  {
    hide ScanAll;
    if ScanAll(a).Some? {
      ScannedChars(a);
    }
  }

  /** Host names. */
  predicate PlainHost(h: string) {
    && h != ""
    && forall j :: 0 <= j < |h| ==>
         'a' <= h[j] <= 'z' || 'A' <= h[j] <= 'Z' || '0' <= h[j] <= '9' || h[j] == '.' || h[j] == '-'
  }

  predicate Digits(s: string) {
    forall j :: 0 <= j < |s| ==> '0' <= s[j] <= '9'
  }

  lemma {:induction false} ScanPlain(a: string, b: string)
    requires ScanAll(a).Some? && forall j :: 0 <= j < |b| ==> ClassOf(b[j]) == Plain
    ensures ScanAll(a + b) == ScanAll(a)
    decreases |b|
  {
    hide ClassOf;
    if b == "" {
      assert a + b == a;
    } else {
      var n := |b| - 1;
      ScanPlain(a, b[..n]);
      assert (a + b)[..|a + b| - 1] == a + b[..n] && (a + b)[|a + b| - 1] == b[n];
    }
  }

  lemma ScanStep(a: string, c: char)
    requires ScanAll(a).Some?
    ensures ScanAll(a + [c]) == Advance(ScanAll(a).value, ClassOf(c))
  {
    assert (a + [c])[..|a|] == a;
  }

  /** A host name alone and with a port is accepted; a second colon is not. */
  lemma HostNamesAreAccepted(h: string, port: string, more: string)
    requires PlainHost(h) && Digits(port) && Digits(more)
    ensures ValidAuthority(h) && ValidAuthority(h + ":" + port) && !ValidAuthority(h + ":" + port + ":" + more)
  {
    hide ScanAll;
    ScanFresh();
    assert "" + h == h;
    ScanPlain("", h);
    ScanStep(h, ':');
    assert h + ":" == h + [':'];
    ScanPlain(h + ":", port);
    ScanStep(h + ":" + port, ':');
    ScanPlain(h + ":" + port + ":", more);
  }

  lemma ScanFresh()
    ensures ScanAll("") == Some(Scan(0, false, false, false))
  {
  }

  /** What follows the authority. */
  predicate OnlyRoot(tail: string) {
    tail == "" || tail == "/" || tail[0] == '#' || (|tail| > 1 && tail[0] == '/' && tail[1] == '#')
  }

  /** What is accepted, exactly, and what it becomes: a scheme, the separator, an authority, and
      behind it at most a root path; a path or a query is refused. */
  lemma OriginMeans(scheme: string, a: string, tail: string, allowWildcard: bool, extra: seq<string>)
    requires scheme != "" && !IsSpace(scheme[0]) && forall j :: 0 <= j < |scheme| ==> scheme[j] != ':'
    requires forall j :: 0 <= j < |a| ==> a[j] !in {'/', '?', '#'}
    requires tail == "" || tail[0] in {'/', '?', '#'}
    requires var o := scheme + "://" + a + tail; !IsSpace(o[|o| - 1])
    ensures NormalizeOrigin(scheme + "://" + a + tail, allowWildcard, extra) ==
            if (LowerAll(scheme) in {"http", "https"} || scheme in extra) && ValidAuthority(a) && OnlyRoot(tail)
            then Some(LowerAll(scheme) + "://" + LowerAll(a)) else None
  {
    hide ScanAll, AuthorityStop, Text.Trim, Text.Find, Text.LowerAll, ValidAuthority, IsSpace;
    var o := scheme + "://" + a + tail;
    TrimIdentity(o);
    SeparatorAt(scheme, a + tail);
    assert o == scheme + "://" + (a + tail);
    var k := |scheme| + 3;
    var e := k + |a|;
    assert o[k..e] == a && o[e..] == tail && o[..|scheme|] == scheme;
    StopBehind(o, k, e);
    SchemeMeans(scheme, extra);
    TailMeans(o, e, tail);
  }

  lemma SeparatorAt(scheme: string, rest: string)
    requires forall j :: 0 <= j < |scheme| ==> scheme[j] != ':'
    ensures Find(scheme + "://" + rest, "://") == Some(|scheme|)
  {
    hide Text.Find;
    var t := scheme + "://" + rest;
    assert t[|scheme|..|scheme| + 3] == "://";
    forall j: nat | j < |scheme| ensures !At(t, "://", j) {
      Mismatch(t, "://", j, j);
    }
    FindIs(t, "://", |scheme|);
  }

  lemma StopBehind(o: string, k: nat, e: nat)
    requires k <= e <= |o| && (forall j :: 0 <= j < e - k ==> o[k..e][j] !in {'/', '?', '#'})
    requires e < |o| ==> o[e] in {'/', '?', '#'}
    ensures AuthorityStop(o, k) == e
  {
    assert forall j :: k <= j < e ==> o[j] == o[k..e][j - k];
  }

  lemma SchemeMeans(scheme: string, extra: seq<string>)
    ensures SchemeAllowed(StandardScheme(scheme), extra) <==> LowerAll(scheme) in {"http", "https"} || scheme in extra
    ensures LowerAll(StandardScheme(scheme)) == LowerAll(scheme)
  {
    LowerTwice(scheme);
    LowerIsFixed();
  }

  lemma LowerIsFixed()
    ensures LowerAll("http") == "http" && LowerAll("https") == "https"
  {
  }

  lemma TailMeans(o: string, e: nat, tail: string)
    requires e <= |o| && o[e..] == tail && (tail == "" || tail[0] in {'/', '?', '#'})
    ensures OriginOnly(o, e) <==> OnlyRoot(tail)
  {
    assert tail != "" ==> o[e] == tail[0];
    assert |tail| > 1 ==> o[e + 1] == tail[1];
  }

  /** The extension schemes by name, which are taken only as written. */
  lemma ExtensionsAre(scheme: string)
    ensures scheme in EXTENSION_SCHEMES <==> scheme in {"chrome-extension", "moz-extension", "safari-web-extension"}
  {
  }

  /** An address in brackets, with a port or without; an open bracket and a percent sign outside
      brackets are refused. */
  lemma BracketsAreAccepted(port: string)
    requires Digits(port)
    ensures ValidAuthority("[::1]") && ValidAuthority("[::1]" + ":" + port)
    ensures !ValidAuthority("[::1") && !ValidAuthority("a%")
  {
    hide ScanAll;
    assert "" + ['['] == "[" && "[" + [':'] == "[:" && "[:" + [':'] == "[::" && "[::" + ['1'] == "[::1";
    assert "[::1" + [']'] == "[::1]" && "" + ['a'] == "a" && "a" + ['%'] == "a%";
    ScanFresh();
    ScanStep("", '[');
    ScanStep("[", ':');
    ScanStep("[:", ':');
    ScanStep("[::", '1');
    ScanStep("[::1", ']');
    ScanStep("[::1]", ':');
    ScanPlain("[::1]" + ":", port);
    ScanStep("", 'a');
    ScanStep("a", '%');
  }

  /** The wildcard is taken only where it is allowed; a blank origin and one without a scheme are
      refused. */
  lemma OtherOriginsAreRefused(origin: string, allowWildcard: bool, extra: seq<string>)
    ensures Trim(origin) == "" ==> NormalizeOrigin(origin, allowWildcard, extra) == None
    ensures Trim(origin) == "*" ==>
              NormalizeOrigin(origin, allowWildcard, extra) == if allowWildcard then Some("*") else None
    ensures Trim(origin) != "*" && (forall j: nat :: !At(Trim(origin), "://", j)) ==>
              NormalizeOrigin(origin, allowWildcard, extra) == None
  {
    hide ValidAuthority, AuthorityStop, Text.Trim, Text.LowerAll, Text.Find, OriginOnly, SchemeAllowed;
    if Trim(origin) == "*" {
      StarHasNoSeparator();
    }
  }

  lemma StarHasNoSeparator()
    ensures Find("*", "://") == None
  {
  }
}
