/** Public site origins: the strict parser of the stored list, the tolerant reader of the
    request path, and the choice of an origin for a request. */
module SiteUrl {
  import opened Text
  import opened Origins
  import opened Decimal
  import Cors
  import Json

  // ---- one origin -------------------------------------------------------------

  const MAX_PORT := 65535

  function DefaultPort(scheme: string): nat { if scheme == "https" then 443 else 80 }

  /** Where the host of an authority ends: behind a bracketed address, else at the colon. */
  function HostEnd(a: string): (h: nat)
    ensures h <= |a|
  {
    if a != "" && a[0] == '[' then
      match Find(a, "]")
      case Some(i) => i + 1
      case None => |a|
    else
      match Find(a, ":")
      case Some(i) => i
      case None => |a|
  }

  /** A bracketed address, or a name without brackets and percent signs. */
  predicate HostOk(host: string) {
    && host != ""
    && if host[0] == '[' then host[|host| - 1] == ']'
       else '[' !in host && ']' !in host && '%' !in host
  }

  datatype Port = NoPort | PortNumber(n: nat) | BadPort

  /** What follows the host: nothing, or a colon and possibly a number. */
  function PortOf(tail: string): (p: Port)
    ensures p.PortNumber? ==> p.n <= MAX_PORT
  {
    if tail == "" || tail == ":" then NoPort
    else if tail[0] != ':' || !AllDigits(tail[1..]) || Value(tail[1..]) > MAX_PORT then BadPort
    else PortNumber(Value(tail[1..]))
  }

  function PortText(scheme: string, port: Port): string {
    if port.PortNumber? && port.n != DefaultPort(scheme) then ":" + Print(port.n) else ""
  }

  /** The browser's serialisation of an origin: a default port is dropped (section 6.2 of
      RFC 6454). */
  function Serialized(scheme: string, authority: string): Option<string> {
    var h := HostEnd(authority);
    var port := PortOf(authority[h..]);
    if !HostOk(authority[..h]) || port.BadPort? then None
    else Some(scheme + "://" + authority[..h] + PortText(scheme, port))
  }

  /** `parse_public_site_url_origin`. */
  function ParseOrigin(origin: string): Option<string> {
    if '*' in origin then None
    else match NormalizeOrigin(origin, false, [])
      case None => None
      case Some(validated) =>
        match Find(validated, "://")
        case None => None
        case Some(i) => Serialized(validated[..i], validated[i + 3..])
  }

  // ---- lists --------------------------------------------------------------------

  /** The entries of a stored list, trimmed and without blank ones. */
  function Entries(value: string): Option<seq<string>> {
    var t := Trim(value);
    if t == "" then None
    else match Json.Decode(t)
      case None => None
      case Some(items) => Some(Cors.NonEmptyTrimmed(items))
  }

  /** First occurrences only, in order. */
  function Dedupe(xs: seq<string>): seq<string> {
    if xs == [] then []
    else
      var r := Dedupe(xs[..|xs| - 1]);
      if xs[|xs| - 1] in r then r else r + [xs[|xs| - 1]]
  }

  predicate AllValid(entries: seq<string>) {
    forall k :: 0 <= k < |entries| ==> ParseOrigin(entries[k]).Some?
  }

  /** The entries that are valid origins, as those origins. */
  function ValidOrigins(entries: seq<string>): seq<string> {
    if entries == [] then []
    else
      var init, last := entries[..|entries| - 1], ParseOrigin(entries[|entries| - 1]);
      match last
      case Some(o) => ValidOrigins(init) + [o]
      case None => ValidOrigins(init)
  }

  /** The strict parser: every entry must be valid. */
  function Strict(entries: seq<string>): Option<seq<string>> {
    if AllValid(entries) then Some(Dedupe(ValidOrigins(entries))) else None
  }

  /** The tolerant reader: invalid entries are ignored one by one. */
  function Tolerant(entries: seq<string>): seq<string> {
    Dedupe(ValidOrigins(entries))
  }

  lemma DedupeSnoc(xs: seq<string>, x: string)
    ensures Dedupe(xs + [x]) == if x in Dedupe(xs) then Dedupe(xs) else Dedupe(xs) + [x]
  {
    assert (xs + [x])[..|xs|] == xs;
  }

  /** The loop of the strict parser. */
  method ParsePublicSiteUrl(value: string) returns (r: Option<seq<string>>)
    ensures r == match Entries(value) case None => None case Some(entries) => Strict(entries)
  {
    hide Entries, ParseOrigin, Dedupe;
    match Entries(value) {
      case None => return None;
      case Some(entries) =>
        var origins: seq<string> := [];
        DedupeEmpty();
        for n := 0 to |entries|
          invariant AllValid(entries[..n])
          invariant origins == Dedupe(ValidOrigins(entries[..n]))
        {
          assert entries[..n + 1][..n] == entries[..n];
          match ParseOrigin(entries[n]) {
            case None => return None;
            case Some(normalized) =>
              DedupeSnoc(ValidOrigins(entries[..n]), normalized);
              if normalized !in origins { origins := origins + [normalized]; }
          }
        }
        assert entries[..|entries|] == entries;
        return Some(origins);
    }
  }

  /** The origins the request path works with; an unreadable value gives none. */
  function Configured(raw: Option<string>): seq<string> {
    match raw
    case None => []
    case Some(value) =>
      match Entries(value)
      case None => []
      case Some(entries) => Tolerant(entries)
  }

  /** The loop of the tolerant reader. */
  method PublicSiteUrls(raw: Option<string>) returns (origins: seq<string>)
    ensures origins == Configured(raw)
  {
    hide ParseOrigin, Dedupe, Entries;
    if raw.None? || Trim(raw.value) == "" {
      BlankHasNoEntries(raw);
      return [];
    }
    SameEntries(raw.value);
    match Entries(Trim(raw.value)) {
      case None => return [];
      case Some(entries) =>
        origins := [];
        DedupeEmpty();
        for n := 0 to |entries|
          invariant origins == Dedupe(ValidOrigins(entries[..n]))
        {
          assert entries[..n + 1][..n] == entries[..n];
          match ParseOrigin(entries[n]) {
            case None =>
            case Some(normalized) =>
              DedupeSnoc(ValidOrigins(entries[..n]), normalized);
              if normalized !in origins { origins := origins + [normalized]; }
          }
        }
        assert entries[..|entries|] == entries;
    }
  }

  lemma BlankHasNoEntries(raw: Option<string>)
    requires raw.None? || Trim(raw.value) == ""
    ensures Configured(raw) == []
  {
  }

  lemma SameEntries(value: string)
    ensures Entries(Trim(value)) == Entries(value)
  {
    hide Json.Decode, Text.Trim;
    TrimTwice(value);
  }

  lemma DedupeEmpty()
    ensures Dedupe([]) == []
  {
  }

  /** The entries that are valid origins, as they were written. */
  function Filtered(entries: seq<string>): seq<string> {
    if entries == [] then []
    else
      var k := |entries| - 1;
      if ParseOrigin(entries[k]).Some? then Filtered(entries[..k]) + [entries[k]] else Filtered(entries[..k])
  }

  lemma {:induction false} FilteredIsValid(entries: seq<string>)
    ensures AllValid(Filtered(entries)) && ValidOrigins(Filtered(entries)) == ValidOrigins(entries)
    ensures AllValid(entries) ==> Filtered(entries) == entries
    decreases |entries|
  {
    hide ParseOrigin;
    if entries != [] {
      var k := |entries| - 1;
      FilteredIsValid(entries[..k]);
      assert (Filtered(entries[..k]) + [entries[k]])[..|Filtered(entries[..k])|] == Filtered(entries[..k]);
      assert entries == entries[..k] + [entries[k]];
    }
  }

  /** The tolerant reader is the strict parser on the valid entries, and the strict parser
      itself wherever that accepts. */
  lemma TolerantIsStrictOnValid(entries: seq<string>)
    ensures Strict(Filtered(entries)) == Some(Tolerant(entries))
    ensures Strict(entries).Some? ==> Strict(entries) == Some(Tolerant(entries))
    ensures Strict(entries).None? <==> exists k :: 0 <= k < |entries| && ParseOrigin(entries[k]) == None
  {
    hide ParseOrigin, Dedupe;
    FilteredIsValid(entries);
    assert !AllValid(entries) ==> exists k :: 0 <= k < |entries| && ParseOrigin(entries[k]) == None;
  }

  function FirstIndex(xs: seq<string>, x: string): (i: nat)
    requires x in xs
    ensures i < |xs| && xs[i] == x && x !in xs[..i]
  {
    if xs[0] == x then 0
    else
      assert xs == [xs[0]] + xs[1..];
      var i := 1 + FirstIndex(xs[1..], x);
      assert xs[..i] == [xs[0]] + xs[1..][..i - 1];
      i
  }

  lemma FirstIndexSnoc(xs: seq<string>, y: string, x: string)
    requires x in xs
    ensures x in xs + [y] && FirstIndex(xs + [y], x) == FirstIndex(xs, x)
  {
    hide FirstIndex;
    var all := xs + [y];
    var i, j := FirstIndex(xs, x), FirstIndex(all, x);
    assert forall k :: 0 <= k < i ==> all[k] == xs[k] == xs[..i][k];
    assert forall k :: 0 <= k < j ==> all[..j][k] == all[k];
    assert all[i] == x;
  }

  /** Deduplication keeps each element once, in the order of first occurrence. */
  lemma {:induction false} DedupeMeaning(xs: seq<string>)
    ensures forall x :: x in Dedupe(xs) <==> x in xs
    ensures forall i, j :: 0 <= i < j < |Dedupe(xs)| ==>
              Dedupe(xs)[i] in xs && Dedupe(xs)[j] in xs &&
              FirstIndex(xs, Dedupe(xs)[i]) < FirstIndex(xs, Dedupe(xs)[j])
    decreases |xs|
  {
    hide FirstIndex;
    if xs != [] {
      var n := |xs| - 1;
      var init, last := xs[..n], xs[n];
      assert xs == init + [last];
      DedupeMeaning(init);
      var r := Dedupe(init);
      forall i, j | 0 <= i < j < |Dedupe(xs)|
        ensures Dedupe(xs)[i] in xs && Dedupe(xs)[j] in xs &&
                FirstIndex(xs, Dedupe(xs)[i]) < FirstIndex(xs, Dedupe(xs)[j])
      {
        assert r[i] in r;
        FirstIndexSnoc(init, last, r[i]);
        if j < |r| {
          assert r[j] in r;
          FirstIndexSnoc(init, last, r[j]);
        } else {
          LastIsNew(init, last);
        }
      }
    }
  }

  lemma LastIsNew(init: seq<string>, last: string)
    requires last !in init
    ensures last in init + [last] && FirstIndex(init + [last], last) == |init|
  {
    hide FirstIndex;
    var i := FirstIndex(init + [last], last);
    assert forall k :: 0 <= k < |init| ==> (init + [last])[k] == init[k];
  }

  // ---- requests ------------------------------------------------------------------

  /** `public_site_url_for_request` on the configured origins. */
  function ForRequest(origins: seq<string>, scheme: string, host: string): (r: Option<string>)
    ensures r.None? <==> origins == []
    ensures r.Some? ==> r.value in origins
  {
    if origins == [] then None
    else match ParseOrigin(scheme + "://" + host)
      case Some(own) => if own in origins then Some(own) else Some(origins[0])
      case None => Some(origins[0])
  }

  /** Only configured origins are answered: the request's own if it is listed, whichever way
      its default port is written, else the first. */
  lemma RequestGetsConfigured(entries: seq<string>, scheme: string, host: string)
    ensures var r := ForRequest(Tolerant(entries), scheme, host);
            && (r.None? <==> ValidOrigins(entries) == [])
            && (r.Some? ==> r.value in ValidOrigins(entries))
            && (r.Some? && ParseOrigin(scheme + "://" + host).Some?
                  && ParseOrigin(scheme + "://" + host).value in ValidOrigins(entries)
                ==> r == ParseOrigin(scheme + "://" + host))
            && (r.Some? && (ParseOrigin(scheme + "://" + host).Some?
                            ==> ParseOrigin(scheme + "://" + host).value !in ValidOrigins(entries))
                ==> r == Some(ValidOrigins(entries)[0]))
  {
    hide ParseOrigin;
    var xs := ValidOrigins(entries);
    DedupeMeaning(xs);
    if xs == [] {
      DedupeEmpty();
    } else {
      DedupeHead(xs);
    }
  }

  lemma {:induction false} DedupeHead(xs: seq<string>)
    requires xs != []
    ensures Dedupe(xs) != [] && Dedupe(xs)[0] == xs[0]
    decreases |xs|
  {
    if |xs| > 1 {
      DedupeHead(xs[..|xs| - 1]);
    }
  }

  // ---- stored lists are stable ----------------------------------------------------

  lemma {:induction false} PlainScan(a: string)
    requires forall j :: 0 <= j < |a| ==> ClassOf(a[j]) == Plain
    ensures ScanAll(a) == Some(FRESH)
    decreases |a|
  {
    hide ClassOf;
    if a != "" {
      PlainScan(a[..|a| - 1]);
    }
  }

  lemma {:induction false} ScanPrefix(a: string, n: nat)
    requires n <= |a| && ScanAll(a).Some?
    ensures ScanAll(a[..n]).Some?
    decreases |a|
  {
    hide ClassOf, Advance;
    if n < |a| {
      ScanPrefix(a[..|a| - 1], n);
      assert a[..|a| - 1][..n] == a[..n];
    } else {
      assert a[..n] == a;
    }
  }

  lemma {:induction false} ScanDigits(a: string, digits: string)
    requires AllDigits(digits) && ScanAll(a).Some?
    ensures ScanAll(a + digits) == ScanAll(a)
    decreases |digits|
  {
    if digits == "" {
      assert a + digits == a;
    } else {
      var n := |digits| - 1;
      ScanDigits(a, digits[..n]);
      assert (a + digits)[..|a + digits| - 1] == a + digits[..n];
      assert ClassOf(digits[n]) == Plain;
    }
  }

  /** Behind a host the scan has no colon, no percent sign and no open bracket pending. */
  lemma HostScan(a: string)
    requires ValidAuthority(a) && HostOk(a[..HostEnd(a)])
    ensures var s := ScanAll(a[..HostEnd(a)]);
            s.Some? && s.value.colons == 0 && s.value.open == s.value.close && !s.value.percent
  {
    hide ScanAll, Text.Find;
    var h := HostEnd(a);
    var host := a[..h];
    ScanPrefix(a, h);
    if a[0] == '[' {
      ScanPrefix(host, h - 1);
      BracketScan(host);
    } else {
      ScannedChars(host);
      NoColonInHost(a);
      forall j | 0 <= j < |host| ensures ClassOf(host[j]) == Plain {
        assert host[j] in host;
      }
      PlainScan(host);
    }
  }

  lemma BracketScan(host: string)
    requires host != "" && host[|host| - 1] == ']' && ScanAll(host).Some?
    ensures ScanAll(host) == Some(Scan(0, true, true, false))
  {
  }

  lemma NoColonInHost(a: string)
    requires a != "" && a[0] != '['
    ensures ':' !in a[..HostEnd(a)]
  {
    hide Text.Find;
    var h := HostEnd(a);
    forall j: nat | j < h ensures a[j] != ':' {
      assert At(a, ":", j) <==> a[j] == ':' by { assert a[j..j + 1] == [a[j]]; }
    }
  }

  /** The serialised authority is valid and serialises to itself. */
  lemma SerializedIsFixed(scheme: string, a: string)
    requires ValidAuthority(a) && Serialized(scheme, a).Some?
    ensures var h := HostEnd(a);
            var b := a[..h] + PortText(scheme, PortOf(a[h..]));
            && ValidAuthority(b)
            && Serialized(scheme, a) == Some(scheme + "://" + b)
            && Serialized(scheme, b) == Some(scheme + "://" + b)
  {
    hide ScanAll, HostEnd, PortOf, PortText, ValidAuthority, HostOk;
    var h := HostEnd(a);
    var host, port := a[..h], PortOf(a[h..]);
    var text := PortText(scheme, port);
    var b := host + text;
    AuthorityNotEmpty(a);
    PortTextIsFixed(scheme, port);
    HostEndStays(a, text);
    assert b[..|host|] == host && b[|host|..] == text;
    SerializedIsValid(scheme, a);
    assert scheme + "://" + host + text == scheme + "://" + b;
  }

  lemma AuthorityNotEmpty(a: string)
    requires ValidAuthority(a)
    ensures a != ""
  {
  }

  lemma SerializedIsValid(scheme: string, a: string)
    requires ValidAuthority(a) && HostOk(a[..HostEnd(a)])
    ensures ValidAuthority(a[..HostEnd(a)] + PortText(scheme, PortOf(a[HostEnd(a)..])))
  {
    hide ScanAll, HostEnd, PortOf, Decimal.Print;
    var host, port := a[..HostEnd(a)], PortOf(a[HostEnd(a)..]);
    HostScan(a);
    assert host + "" == host;
    if port.PortNumber? {
      PortScan(host, port.n);
    }
  }

  /** A port text reads as the port it was printed from, or as none for a default port. */
  lemma PortTextIsFixed(scheme: string, port: Port)
    requires port.PortNumber? ==> port.n <= MAX_PORT
    ensures var text := PortText(scheme, port);
            && (text == "" || text[0] == ':')
            && !PortOf(text).BadPort?
            && PortText(scheme, PortOf(text)) == text
  {
    hide Decimal.Print;
    var text := PortText(scheme, port);
    if text != "" {
      assert text[1..] == Print(port.n);
    }
  }

  lemma PortScan(host: string, n: nat)
    requires host != "" && ScanAll(host).Some? && ScanAll(host).value.colons == 0
    requires ScanAll(host).value.open == ScanAll(host).value.close && !ScanAll(host).value.percent
    ensures ValidAuthority(host + (":" + Print(n)))
  {
    hide Decimal.Print, ScanAll;
    ScanColon(host);
    ScanDigits(host + ":", Print(n));
    assert host + (":" + Print(n)) == host + ":" + Print(n);
  }

  lemma ScanColon(host: string)
    requires ScanAll(host).Some?
    ensures ScanAll(host + ":") == Advance(ScanAll(host).value, Colon)
  {
    assert (host + ":")[..|host|] == host;
  }

  /** The host ends at the same place when only the port text changes. */
  lemma HostEndStays(a: string, text: string)
    requires a != "" && HostOk(a[..HostEnd(a)]) && (text == "" || text[0] == ':')
    ensures HostEnd(a[..HostEnd(a)] + text) == HostEnd(a)
  {
    hide Text.Find, Text.At;
    var h := HostEnd(a);
    var host := a[..h];
    var b := host + text;
    assert b[0] == host[0] == a[0];
    if a[0] == '[' {
      assert forall j :: 0 <= j < h ==> b[j] == host[j] == a[j];
      NoneBefore(a, ']', h - 1);
      FindChar(b, ']', h - 1);
    } else {
      NoColonInHost(a);
      assert forall j :: 0 <= j < h ==> b[j] == host[j] && host[j] in host;
      if text != "" {
        FindChar(b, ':', h);
      } else {
        FindNoChar(b, ':');
      }
    }
  }

  lemma NoneBefore(s: string, c: char, i: nat)
    requires Find(s, [c]).Some? ==> i <= Find(s, [c]).value
    requires i <= |s|
    ensures forall j :: 0 <= j < i ==> s[j] != c
  {
    hide Text.Find;
    forall j | 0 <= j < i ensures s[j] != c {
      assert s[j..j + 1] == [s[j]];
      assert !At(s, [c], j);
    }
  }

  lemma FindChar(s: string, c: char, i: nat)
    requires i < |s| && s[i] == c && forall j :: 0 <= j < i ==> s[j] != c
    ensures Find(s, [c]) == Some(i)
  {
    hide Text.Find;
    assert s[i..i + 1] == [c];
    forall j: nat | j < i ensures !At(s, [c], j) {
      assert s[j..j + 1] == [s[j]];
    }
    FindIs(s, [c], i);
  }

  lemma FindNoChar(s: string, c: char)
    requires forall j :: 0 <= j < |s| ==> s[j] != c
    ensures Find(s, [c]) == None
  {
    hide Text.Find;
    forall j: nat ensures !At(s, [c], j) {
      assert j < |s| ==> s[j..j + 1] == [s[j]];
    }
  }

  lemma LowerSlice(s: string, i: nat, j: nat)
    requires i <= j <= |s|
    ensures LowerAll(s[i..j]) == LowerAll(s)[i..j]
  {
  }

  /** What an accepted origin becomes: a standard scheme and a serialised lower-case authority. */
  lemma ParsedForm(origin: string) returns (scheme: string, a: string)
    requires ParseOrigin(origin).Some?
    ensures (scheme == "http" || scheme == "https") && ValidAuthority(a) && LowerAll(a) == a && '*' !in a
    ensures ParseOrigin(origin) == Serialized(scheme, a)
  {
    hide ValidAuthority, AuthorityStop, Text.Find, Text.Trim, Text.LowerAll, Serialized, IsSpace;
    var t := Trim(origin);
    var i := Find(t, "://").value;
    scheme := StandardScheme(t[..i]);
    var raw := t[i + 3..AuthorityStop(t, i + 3)];
    a := LowerAll(raw);
    ValidIgnoresCase(raw);
    LowerTwice(raw);
    assert LowerAll(scheme) == scheme by { LowerTwice(t[..i]); StandardIsLower(); }
    ParsedFrom(origin, scheme, a);
    TrimTakes(origin);
    NoStarInside(t, i + 3, AuthorityStop(t, i + 3));
  }

  lemma ValidIgnoresCase(a: string)
    requires ValidAuthority(a)
    ensures ValidAuthority(LowerAll(a))
  {
    hide ScanAll;
    ScanIgnoresCase(a);
  }

  lemma NoStarInside(t: string, i: nat, j: nat)
    requires i <= j <= |t| && '*' !in t
    ensures '*' !in LowerAll(t[i..j])
  {
    var raw := t[i..j];
    forall k | 0 <= k < |raw| ensures LowerAll(raw)[k] != '*' {
      assert raw[k] == t[i + k] && t[i + k] in t;
    }
  }

  lemma StandardIsLower()
    ensures LowerAll("http") == "http" && LowerAll("https") == "https"
  {
  }

  /** Trimming only takes characters away. */
  lemma TrimTakes(s: string)
    ensures forall c :: c in Trim(s) ==> c in s
  {
    StartTakes(s);
  }

  lemma {:induction false} StartTakes(s: string)
    ensures forall c :: c in TrimStart(s) ==> c in s
    decreases |s|
  {
    if s != "" {
      StartTakes(s[1..]);
    }
  }

  /** An accepted origin is its own canonical form. */
  lemma OriginIsFixed(origin: string)
    requires ParseOrigin(origin).Some?
    ensures var n := ParseOrigin(origin).value;
            ParseOrigin(n) == Some(n) && Trim(n) == n && n != ""
  {
    hide ParseOrigin, NormalizeOrigin, ValidAuthority, HostEnd, PortOf, PortText, Serialized, PlainScheme,
      Text.Find, Text.Trim, Text.LowerAll;
    var scheme, a := ParsedForm(origin);
    var h := HostEnd(a);
    var text := PortText(scheme, PortOf(a[h..]));
    var b := a[..h] + text;
    var n := scheme + "://" + b;
    SerializedIsFixed(scheme, a);
    ExtensionSchemesArePlain();
    AllowedIsPlain(scheme, []);
    FormStaysLower(a, h, scheme, PortOf(a[h..]));
    NormalIsFixed(scheme, b, false, []);
    FindSeparator(scheme, b);
    assert n[..|scheme|] == scheme && n[|scheme| + 3..] == b;
    NoStar(scheme, b);
    ParseNormal(n, |scheme|);
  }

  lemma NoStar(scheme: string, b: string)
    requires (scheme == "http" || scheme == "https") && '*' !in b
    ensures '*' !in scheme + "://" + b
  {
  }

  lemma FormStaysLower(a: string, h: nat, scheme: string, port: Port)
    requires h <= |a| && LowerAll(a) == a && '*' !in a
    ensures var b := a[..h] + PortText(scheme, port); LowerAll(b) == b && '*' !in b
  {
    hide Decimal.Print;
    LowerSlice(a, 0, h);
    var b := a[..h] + PortText(scheme, port);
    forall j | 0 <= j < |b| ensures Lower(b[j]) == b[j] && b[j] != '*' {
      if j < h {
        assert b[j] == a[j];
        assert LowerAll(a)[j] == a[j];
        assert a[j] in a;
      } else if j > h {
        assert b[j] == Print(port.n)[j - h - 1];
      }
    }
  }

  lemma ParseNormal(n: string, i: nat)
    requires '*' !in n && NormalizeOrigin(n, false, []) == Some(n) && Find(n, "://") == Some(i)
    ensures ParseOrigin(n) == Serialized(n[..i], n[i + 3..])
  {
    hide NormalizeOrigin, Text.Find, Serialized;
  }

  /** The stored form of a list. */
  function Normalize(value: string): Option<string> {
    match Entries(value)
    case None => None
    case Some(entries) =>
      match Strict(entries)
      case None => None
      case Some(origins) => Some(Json.Encode(origins))
  }

  lemma {:induction false} FixedListIsValid(xs: seq<string>)
    requires forall k :: 0 <= k < |xs| ==> ParseOrigin(xs[k]) == Some(xs[k])
    ensures AllValid(xs) && ValidOrigins(xs) == xs
    decreases |xs|
  {
    hide ParseOrigin;
    if xs != [] {
      FixedListIsValid(xs[..|xs| - 1]);
      assert xs == xs[..|xs| - 1] + [xs[|xs| - 1]];
    }
  }

  lemma {:induction false} TrimmedListStays(xs: seq<string>)
    requires forall k :: 0 <= k < |xs| ==> xs[k] != "" && Trim(xs[k]) == xs[k]
    ensures Cors.NonEmptyTrimmed(xs) == xs
    decreases |xs|
  {
    hide Text.Trim;
    if xs != [] {
      TrimmedListStays(xs[1..]);
      assert xs == [xs[0]] + xs[1..];
    }
  }

  lemma {:induction false} DedupeTwice(xs: seq<string>)
    ensures Dedupe(Dedupe(xs)) == Dedupe(xs)
    decreases |xs|
  {
    if xs != [] {
      var n := |xs| - 1;
      DedupeTwice(xs[..n]);
      if xs[n] !in Dedupe(xs[..n]) {
        DedupeSnoc(Dedupe(xs[..n]), xs[n]);
      }
    }
  }

  lemma {:induction false} ValidAreFixed(entries: seq<string>)
    ensures forall k :: 0 <= k < |ValidOrigins(entries)| ==>
              && ParseOrigin(ValidOrigins(entries)[k]) == Some(ValidOrigins(entries)[k])
              && ValidOrigins(entries)[k] != "" && Trim(ValidOrigins(entries)[k]) == ValidOrigins(entries)[k]
    decreases |entries|
  {
    hide ParseOrigin, Text.Trim;
    if entries != [] {
      var n := |entries| - 1;
      ValidAreFixed(entries[..n]);
      if ParseOrigin(entries[n]).Some? {
        OriginIsFixed(entries[n]);
      }
    }
  }

  /** A stored list is a fixed point of its normaliser, and the request path reads exactly
      the origins that were stored. */
  lemma StoredListIsStable(value: string)
    requires Normalize(value).Some?
    ensures Normalize(Normalize(value).value) == Normalize(value)
    ensures Entries(value).Some? && Configured(Normalize(value)) == Tolerant(Entries(value).value)
  {
    hide ParseOrigin, Text.Trim, Json.Encode, Json.Decode, Dedupe, ValidOrigins, AllValid, Cors.NonEmptyTrimmed;
    var entries := Entries(value).value;
    var xs := ValidOrigins(entries);
    var origins := Dedupe(xs);
    ValidAreFixed(entries);
    DedupeMeaning(xs);
    forall k | 0 <= k < |origins|
      ensures ParseOrigin(origins[k]) == Some(origins[k]) && origins[k] != "" && Trim(origins[k]) == origins[k]
    {
      assert origins[k] in origins;
      var j :| 0 <= j < |xs| && xs[j] == origins[k];
    }
    Json.EncodedIsTrimmed(origins);
    Json.RoundTrip(origins);
    TrimmedListStays(origins);
    FixedListIsValid(origins);
    DedupeTwice(xs);
  }

  // ---- which origins, and what they become ------------------------------------------------

  lemma HostOfName(h: string, tail: string)
    requires PlainHost(h) && (tail == "" || tail[0] == ':')
    ensures HostEnd(h + tail) == |h| && HostOk(h)
  {
    hide Text.Find;
    var a := h + tail;
    assert a[0] == h[0] && forall j :: 0 <= j < |h| ==> a[j] == h[j];
    if tail == "" {
      FindNoChar(a, ':');
    } else {
      FindChar(a, ':', |h|);
    }
  }

  lemma PrintedPort(n: nat)
    requires n <= 65535
    ensures PortOf(":" + Print(n)) == PortNumber(n) && Digits(Print(n))
  {
    hide Decimal.Print;
    assert (":" + Print(n))[1..] == Print(n);
  }

  /** The default ports by number: 443 for https and 80 for http are dropped, and no other is. */
  lemma DefaultPortsAre(scheme: string, h: string, n: nat)
    requires (scheme == "http" || scheme == "https") && PlainHost(h) && n <= 65535
    ensures Serialized(scheme, h) == Some(scheme + "://" + h)
    ensures Serialized(scheme, h + (":" + Print(n))) ==
            if (scheme == "https" && n == 443) || (scheme == "http" && n == 80) then Some(scheme + "://" + h)
            else Some(scheme + "://" + h + ":" + Print(n))
  {
    hide HostEnd, PortOf, Decimal.Print, HostOk;
    var tail := ":" + Print(n);
    HostOfName(h, "");
    HostOfName(h, tail);
    PrintedPort(n);
    NoPortAtAll();
    assert h + "" == h && h[..|h|] == h && h[|h|..] == "";
    assert (h + tail)[..|h|] == h && (h + tail)[|h|..] == tail;
    assert scheme + "://" + h + "" == scheme + "://" + h;
    assert scheme + "://" + h + (":" + Print(n)) == scheme + "://" + h + ":" + Print(n);
  }

  lemma NoPortAtAll()
    ensures PortOf("") == NoPort && PortOf(":") == NoPort
    ensures PortText("http", NoPort) == "" && PortText("https", NoPort) == ""
  {
  }

  /** A port beyond 16 bits, or one that is no number, is refused; so is a wildcard. */
  lemma BadPortsAreRefused(n: nat, c: char, rest: string, origin: string)
    ensures n > 65535 ==> PortOf(":" + Print(n)) == BadPort
    ensures !IsDigit(c) ==> PortOf(":" + [c] + rest) == BadPort
    ensures '*' in origin ==> ParseOrigin(origin) == None
  {
    hide Decimal.Print;
    assert (":" + Print(n))[1..] == Print(n) && (":" + [c] + rest)[1..] == [c] + rest;
    assert ([c] + rest)[0] == c;
  }

  /** A plain origin in any case is accepted and becomes its lower-case form without default port. */
  lemma PlainOriginMeans(scheme: string, h: string, n: nat)
    requires LowerAll(scheme) in {"http", "https"}
    requires PlainHost(h) && n <= 65535
    ensures var lower := LowerAll(scheme);
            && ParseOrigin(scheme + "://" + h) == Some(lower + "://" + LowerAll(h))
            && ParseOrigin(scheme + "://" + h + ":" + Print(n)) ==
               if (lower == "https" && n == 443) || (lower == "http" && n == 80) then Some(lower + "://" + LowerAll(h))
               else Some(lower + "://" + LowerAll(h) + ":" + Print(n))
  {
    hide Text.Find, Text.LowerAll, NormalizeOrigin, Serialized, Decimal.Print, PlainHost, PlainScheme;
    var lower, l := LowerAll(scheme), LowerAll(h);
    LowerHost(h);
    DefaultPortsAre(lower, l, n);
    NormalizedHost(scheme, h, "");
    PrintedPort(n);
    NormalizedHost(scheme, h, ":" + Print(n));
    LowerPort(h, n);
    assert scheme + "://" + (h + "") == scheme + "://" + h;
    assert scheme + "://" + (h + (":" + Print(n))) == scheme + "://" + h + ":" + Print(n);
    SchemeIsWord(scheme);
    NoStarIn(scheme, h, n);
    ParsedFrom(scheme + "://" + h, lower, l);
    ParsedFrom(scheme + "://" + h + ":" + Print(n), lower, l + (":" + Print(n)));
  }

  lemma LowerHost(h: string)
    requires PlainHost(h)
    ensures PlainHost(LowerAll(h)) && '*' !in h
  {
  }

  lemma LowerPort(h: string, n: nat)
    ensures LowerAll(h + (":" + Print(n))) == LowerAll(h) + (":" + Print(n)) && LowerAll(h + "") == LowerAll(h)
  {
    hide Decimal.Print;
    var p := Print(n);
    assert forall j :: 0 <= j < |p| ==> IsDigit(p[j]) && Lower(p[j]) == p[j];
    assert h + "" == h;
  }

  lemma NoStarIn(scheme: string, h: string, n: nat)
    requires '*' !in scheme && '*' !in h
    ensures '*' !in scheme + "://" + h && '*' !in scheme + "://" + h + ":" + Print(n)
  {
    hide Decimal.Print;
    var p := Print(n);
    assert forall j :: 0 <= j < |p| ==> IsDigit(p[j]);
  }

  lemma NormalizedHost(scheme: string, h: string, tail: string)
    requires LowerAll(scheme) in {"http", "https"} && PlainHost(h)
    requires tail == "" || (tail[0] == ':' && |tail| > 1 && Digits(tail[1..]))
    ensures NormalizeOrigin(scheme + "://" + (h + tail), false, []) ==
            Some(LowerAll(scheme) + "://" + LowerAll(h + tail))
  {
    hide Text.LowerAll, NormalizeOrigin, ValidAuthority;
    var a := h + tail;
    if tail == "" {
      HostNamesAreAccepted(h, "", "");
      assert a == h;
    } else {
      HostNamesAreAccepted(h, tail[1..], "");
      assert a == h + ":" + tail[1..];
    }
    SchemeIsWord(scheme);
    HostChars(h, tail);
    OriginMeans(scheme, a, "", false, []);
    assert scheme + "://" + a + "" == scheme + "://" + a;
  }

  lemma SchemeIsWord(scheme: string)
    requires LowerAll(scheme) in {"http", "https"}
    ensures scheme != "" && !IsSpace(scheme[0])
    ensures forall j :: 0 <= j < |scheme| ==> scheme[j] != ':' && scheme[j] != '*'
  {
    var l := LowerAll(scheme);
    assert |l| == |scheme| && forall j :: 0 <= j < |scheme| ==> l[j] == Lower(scheme[j]) && l[j] != ':' && l[j] != '*';
    assert l[0] == 'h';
  }

  lemma HostChars(h: string, tail: string)
    requires PlainHost(h) && (tail == "" || (tail[0] == ':' && |tail| > 1 && Digits(tail[1..])))
    ensures var a := h + tail;
            a != "" && !IsSpace(a[|a| - 1]) && forall j :: 0 <= j < |a| ==> a[j] !in {'/', '?', '#'}
  {
    var a := h + tail;
    assert forall j :: 0 <= j < |h| ==> a[j] == h[j];
    if tail != "" {
      assert forall j :: 1 <= j < |tail| ==> tail[j] == tail[1..][j - 1];
      assert a[|a| - 1] == tail[|tail| - 1];
    }
  }

  lemma ParsedFrom(origin: string, lower: string, a: string)
    requires '*' !in origin && (lower == "http" || lower == "https")
    requires NormalizeOrigin(origin, false, []) == Some(lower + "://" + a)
    ensures ParseOrigin(origin) == Serialized(lower, a)
  {
    hide Text.Find, NormalizeOrigin, Serialized, PlainScheme;
    var o := lower + "://" + a;
    SeparatorAt(lower, a);
    assert o[..|lower|] == lower && o[|lower| + 3..] == a;
  }

  /** The entries of a value: those of the JSON list that are not blank, trimmed and in order. */
  lemma EntriesMean(value: string, items: seq<string>)
    ensures Trim(value) == "" ==> Entries(value) == None
    ensures Json.Decode(Trim(value)) == None ==> Entries(value) == None
    ensures Entries(Json.Encode(items)) == Some(Cors.NonEmptyTrimmed(items))
  {
    hide Json.Decode, Json.Encode, Cors.NonEmptyTrimmed, Text.Trim;
    Json.EncodedIsTrimmed(items);
    Json.RoundTrip(items);
  }

  /** The valid entries come in the order of the list. */
  lemma {:induction false} ValidOriginsInOrder(x: string, entries: seq<string>)
    ensures ValidOrigins([]) == []
    ensures ValidOrigins([x] + entries) ==
            (if ParseOrigin(x).Some? then [ParseOrigin(x).value] else []) + ValidOrigins(entries)
    decreases |entries|
  {
    hide ParseOrigin;
    var all := [x] + entries;
    if entries == [] {
      assert all == [x] && [x][..0] == [];
    } else {
      var n := |entries| - 1;
      assert all[..|all| - 1] == [x] + entries[..n] && all[|all| - 1] == entries[n];
      ValidOriginsInOrder(x, entries[..n]);
    }
  }
}
