/** The CORS origin list: its parser, its normal form and the migration of the older
    comma-separated form. */
module Cors {
  import opened Text
  import opened Origins
  import opened Ordering
  import Json

  datatype AllowedOrigins = NoOrigins | AnyOrigin | ListOf(origins: seq<string>)

  const WILDCARD := "*"

  function NormalizeCorsOrigin(origin: string): Option<string> {
    NormalizeOrigin(origin, true, EXTENSION_SCHEMES)
  }

  /** One entry of the list: blank entries are skipped, invalid ones refuse the list. */
  datatype Entry = Blank | Invalid | Name(name: string)

  function EntryOf(raw: string): Entry {
    var origin := Trim(raw);
    if origin == "" then Blank
    else match NormalizeCorsOrigin(origin)
      case None => Invalid
      case Some(n) => Name(n)
  }

  /** The loop's state: whether a wildcard was seen, and the sorted explicit origins. */
  datatype Collected = Refused | Collected(wildcard: bool, origins: seq<string>)

  function Add(c: Collected, e: Entry): Collected {
    match (c, e)
    case (Refused, _) => Refused
    case (_, Invalid) => Refused
    case (_, Blank) => c
    case (Collected(w, xs), Name(n)) =>
      if n == WILDCARD then Collected(true, xs) else Collected(w, Insert(n, xs))
  }

  function Collect(items: seq<string>): Collected {
    if items == [] then Collected(false, [])
    else Add(Collect(items[..|items| - 1]), EntryOf(items[|items| - 1]))
  }

  function Conclude(c: Collected): Option<AllowedOrigins> {
    match c
    case Refused => None
    case Collected(w, xs) =>
      if w && xs != [] then None
      else if w then Some(AnyOrigin)
      else if xs == [] then Some(NoOrigins)
      else Some(ListOf(xs))
  }

  function ParseItems(items: seq<string>): Option<AllowedOrigins> {
    Conclude(Collect(items))
  }

  /** `parse_allowed_origins_value`; `None` is the validation error. */
  function ParseAllowedOrigins(value: string): Option<AllowedOrigins> {
    var t := Trim(value);
    if t == "" then Some(NoOrigins)
    else match Json.Decode(t)
      case None => None
      case Some(items) => ParseItems(items)
  }

  /** The parsing loop over the entries. */
  method ParseAllowedOriginsValue(value: string) returns (r: Option<AllowedOrigins>)
    ensures r == ParseAllowedOrigins(value)
  {
    hide Json.Decode, NormalizeOrigin, Insert;
    var t := Trim(value);
    if t == "" { return Some(NoOrigins); }
    match Json.Decode(t) {
      case None => return None;
      case Some(configured) =>
        var origins: seq<string> := [];
        var wildcard := false;
        for n := 0 to |configured|
          invariant Collect(configured[..n]) == Collected(wildcard, origins)
        {
          assert configured[..n + 1][..n] == configured[..n];
          var origin := Trim(configured[n]);
          if origin != "" {
            match NormalizeCorsOrigin(origin) {
              case None =>
                RefusedStays(configured, n + 1);
                return None;
              case Some(normalized) =>
                if normalized == WILDCARD {
                  wildcard := true;
                } else {
                  origins := Insert(normalized, origins);
                }
            }
          }
        }
        assert configured[..|configured|] == configured;
        return Conclude(Collected(wildcard, origins));
    }
  }

  lemma {:induction false} RefusedStays(items: seq<string>, n: nat)
    requires n <= |items| && Collect(items[..n]) == Refused
    ensures Collect(items) == Refused
    decreases |items| - n
  {
    hide EntryOf, Insert;
    if n < |items| {
      assert items[..n + 1][..n] == items[..n];
      RefusedStays(items, n + 1);
    } else {
      assert items[..n] == items;
    }
  }

  // ---- the parsed list does not depend on order or repetition -------------------

  /** The names the entries stand for. */
  ghost predicate Names(items: seq<string>, n: string) {
    exists raw :: raw in items && EntryOf(raw) == Name(n)
  }

  ghost predicate AllUsable(items: seq<string>) {
    forall raw :: raw in items ==> EntryOf(raw) != Invalid
  }

  /** What the loop collects, said without the loop. */
  lemma {:induction false} CollectMeaning(items: seq<string>)
    ensures Collect(items).Refused? <==> !AllUsable(items)
    ensures Collect(items).Collected? ==>
              && Sorted(Collect(items).origins)
              && (Collect(items).wildcard <==> Names(items, WILDCARD))
              && (forall n :: n in Collect(items).origins <==> n != WILDCARD && Names(items, n))
    decreases |items|
  {
    hide EntryOf, Insert, Less, Names, AllUsable;
    if items == [] {
      NoNames();
    } else {
      var k := |items| - 1;
      var init, last := items[..k], items[k];
      assert items == init + [last];
      CollectMeaning(init);
      UsableSnoc(init, last);
      forall n ensures Names(items, n) <==> Names(init, n) || EntryOf(last) == Name(n) {
        NamesSnoc(init, last, n);
      }
      if Collect(init).Collected? && EntryOf(last).Name? {
        InsertElements(EntryOf(last).name, Collect(init).origins);
        InsertSorted(EntryOf(last).name, Collect(init).origins);
      }
    }
  }

  lemma NoNames()
    ensures AllUsable([]) && forall n :: !Names([], n)
  {
  }

  lemma UsableSnoc(init: seq<string>, last: string)
    ensures AllUsable(init + [last]) <==> AllUsable(init) && EntryOf(last) != Invalid
  {
    hide EntryOf;
    assert last in init + [last] && forall x :: x in init ==> x in init + [last];
  }

  lemma NamesSnoc(init: seq<string>, last: string, n: string)
    ensures Names(init + [last], n) <==> Names(init, n) || EntryOf(last) == Name(n)
  {
    hide EntryOf;
    assert last in init + [last] && forall x :: x in init ==> x in init + [last];
  }

  /** The result depends only on which entries occur. */
  lemma OrderDoesNotMatter(a: seq<string>, b: seq<string>)
    requires forall raw :: raw in a <==> raw in b
    ensures ParseItems(a) == ParseItems(b)
  {
    hide EntryOf, Insert, Less, Collect;
    CollectMeaning(a);
    CollectMeaning(b);
    assert AllUsable(a) <==> AllUsable(b);
    assert forall n :: Names(a, n) <==> Names(b, n);
    if Collect(a).Collected? {
      SortedIsUnique(Collect(a).origins, Collect(b).origins);
    }
  }

  // ---- normal form -----------------------------------------------------------------

  function Listed(o: AllowedOrigins): seq<string> {
    match o
    case NoOrigins => []
    case AnyOrigin => [WILDCARD]
    case ListOf(xs) => xs
  }

  function Serialize(o: AllowedOrigins): string {
    Json.Encode(Listed(o))
  }

  /** `normalize_allowed_origins_config_value`. */
  function Normalize(value: string): Option<string> {
    match ParseAllowedOrigins(value)
    case None => None
    case Some(o) => Some(Serialize(o))
  }

  /** Parsed lists: strictly sorted, without a wildcard, and every entry its own normal form. */
  ghost predicate Canonical(o: AllowedOrigins) {
    o.ListOf? ==>
      && o.origins != []
      && Sorted(o.origins)
      && (forall n :: n in o.origins ==> n != WILDCARD && EntryOf(n) == Name(n))
  }

  lemma EntryIsFixed(raw: string)
    requires EntryOf(raw).Name?
    ensures EntryOf(EntryOf(raw).name) == EntryOf(raw)
  {
    hide NormalizeOrigin, Text.Trim;
    ExtensionSchemesArePlain();
    NormalizeIsIdempotent(Trim(raw), true, EXTENSION_SCHEMES);
  }

  lemma ParsedIsCanonical(value: string)
    requires ParseAllowedOrigins(value).Some?
    ensures Canonical(ParseAllowedOrigins(value).value)
  {
    hide Json.Decode, EntryOf, Insert, Less, Collect, Text.Trim;
    var t := Trim(value);
    if t != "" {
      var items := Json.Decode(t).value;
      CollectMeaning(items);
      forall n | n in Collect(items).origins ensures EntryOf(n) == Name(n) {
        var raw :| raw in items && EntryOf(raw) == Name(n);
        EntryIsFixed(raw);
      }
    }
  }

  lemma WildcardEntry()
    ensures EntryOf(WILDCARD) == Name(WILDCARD)
  {
    TrimIdentity(WILDCARD);
  }

  /** A canonical value is read back from its serialised form. */
  lemma SerializeParses(o: AllowedOrigins)
    requires Canonical(o)
    ensures ParseAllowedOrigins(Serialize(o)) == Some(o)
  {
    hide Json.Decode, Json.Encode, EntryOf, Insert, Less, Collect, Text.Trim;
    var xs := Listed(o);
    Json.EncodedIsTrimmed(xs);
    Json.RoundTrip(xs);
    CollectMeaning(xs);
    WildcardEntry();
    assert o.AnyOrigin? ==> WILDCARD in xs;
    forall raw | raw in xs ensures EntryOf(raw) == Name(raw) {
    }
    var c := Collect(xs);
    if o.ListOf? {
      forall n ensures n in c.origins <==> n in xs {
      }
      SortedIsUnique(c.origins, xs);
    } else {
      forall n ensures n !in c.origins {
        assert Names(xs, n) ==> n == WILDCARD;
      }
      NothingIn(c.origins);
    }
  }

  lemma NothingIn(xs: seq<string>)
    requires forall n :: n !in xs
    ensures xs == []
  {
    if xs != [] {
      HeadIn(xs);
    }
  }

  lemma HeadIn(xs: seq<string>)
    requires xs != []
    ensures xs[0] in xs
  {
  }

  /** Parsing, serialising and parsing again is parsing, and normalising is idempotent. */
  lemma NormalFormIsStable(value: string)
    requires Normalize(value).Some?
    ensures ParseAllowedOrigins(Normalize(value).value) == ParseAllowedOrigins(value)
    ensures Normalize(Normalize(value).value) == Normalize(value)
    ensures Normalize(value).value != "" && Trim(Normalize(value).value) == Normalize(value).value
    ensures Normalize(value).value[0] == '['
  {
    hide ParseAllowedOrigins, Json.Encode, Text.Trim;
    ParsedIsCanonical(value);
    var o := ParseAllowedOrigins(value).value;
    SerializeParses(o);
    Json.EncodedIsTrimmed(Listed(o));
  }

  /** Two values have the same normal form exactly when they parse to the same list. */
  lemma NormalFormIsCanonical(a: string, b: string)
    requires Normalize(a).Some? && Normalize(b).Some?
    ensures Normalize(a) == Normalize(b) <==> ParseAllowedOrigins(a) == ParseAllowedOrigins(b)
  {
    hide ParseAllowedOrigins, Json.Encode, Text.Trim;
    NormalFormIsStable(a);
    NormalFormIsStable(b);
  }

  // ---- the older comma-separated form ---------------------------------------------

  /** `split(',')`. */
  function SplitCommas(s: string): (r: seq<string>)
    ensures r != []
  {
    if s == "" then [""]
    else
      var rest := SplitCommas(s[1..]);
      if s[0] == ',' then [""] + rest else [[s[0]] + rest[0]] + rest[1..]
  }

  /** Trimmed, without empty ones. */
  function NonEmptyTrimmed(parts: seq<string>): seq<string> {
    if parts == [] then []
    else
      var rest := NonEmptyTrimmed(parts[1..]);
      if Trim(parts[0]) == "" then rest else [Trim(parts[0])] + rest
  }

  /** `normalize_existing_allowed_origins_config_value`. */
  function NormalizeExisting(value: string): Option<string> {
    var t := Trim(value);
    if t != "" && t[0] == '[' then Normalize(value)
    else Normalize(Json.Encode(NonEmptyTrimmed(SplitCommas(value))))
  }

  lemma {:induction false} TrimmedEntriesMean(parts: seq<string>, n: string)
    ensures AllUsable(NonEmptyTrimmed(parts)) <==> AllUsable(parts)
    ensures Names(NonEmptyTrimmed(parts), n) <==> Names(parts, n)
    decreases |parts|
  {
    hide NormalizeOrigin, Text.Trim;
    if parts != [] {
      TrimmedEntriesMean(parts[1..], n);
      TrimTwice(parts[0]);
      assert EntryOf(Trim(parts[0])) == EntryOf(parts[0]);
      assert parts == [parts[0]] + parts[1..];
      var rest := NonEmptyTrimmed(parts[1..]);
      ConsMeans(parts[0], parts[1..], n);
      ConsMeans(Trim(parts[0]), rest, n);
    }
  }

  lemma ConsMeans(x: string, xs: seq<string>, n: string)
    ensures AllUsable([x] + xs) <==> EntryOf(x) != Invalid && AllUsable(xs)
    ensures Names([x] + xs, n) <==> EntryOf(x) == Name(n) || Names(xs, n)
  {
    hide EntryOf;
    assert x in [x] + xs && forall y :: y in xs ==> y in [x] + xs;
  }

  /** A legacy value is normalised to the list of its comma-separated parts. */
  lemma LegacyMeans(value: string)
    requires var t := Trim(value); t == "" || t[0] != '['
    ensures NormalizeExisting(value) ==
            match ParseItems(SplitCommas(value)) case None => None case Some(o) => Some(Serialize(o))
  {
    hide SplitCommas, NonEmptyTrimmed, Json.Encode, Json.Decode, EntryOf, Collect, Insert, Less, Text.Trim;
    var parts := SplitCommas(value);
    var items := NonEmptyTrimmed(parts);
    Json.EncodedIsTrimmed(items);
    Json.RoundTrip(items);
    CollectMeaning(items);
    CollectMeaning(parts);
    TrimmedEntriesMean(parts, WILDCARD);
    forall n ensures Names(items, n) <==> Names(parts, n) {
      TrimmedEntriesMean(parts, n);
    }
    if Collect(items).Collected? {
      SortedIsUnique(Collect(items).origins, Collect(parts).origins);
    }
  }

  /** The migration yields JSON normal forms, leaves migrated values alone, and a second
      migration changes nothing. */
  lemma MigrationIsStable(value: string)
    requires NormalizeExisting(value).Some?
    ensures var m := NormalizeExisting(value).value;
            && NormalizeExisting(m) == Some(m)
            && Normalize(m) == Some(m)
  {
    hide Normalize, SplitCommas, NonEmptyTrimmed, Json.Encode, Text.Trim;
    var t := Trim(value);
    var v := if t != "" && t[0] == '[' then value else Json.Encode(NonEmptyTrimmed(SplitCommas(value)));
    NormalFormIsStable(v);
  }

  // ---- what is parsed, and from what ----------------------------------------------------

  /** The parsed list, exactly: refused with an invalid entry or a wildcard beside another origin;
      otherwise any origin, none, or the sorted list of the named ones. */
  lemma ParsedMeans(items: seq<string>)
    ensures ParseItems(items) == None <==>
            || (exists raw :: raw in items && EntryOf(raw) == Invalid)
            || (Names(items, "*") && exists n :: n != "*" && Names(items, n))
    ensures ParseItems(items) == Some(AnyOrigin) <==>
            AllUsable(items) && Names(items, "*") && forall n :: Names(items, n) ==> n == "*"
    ensures ParseItems(items) == Some(NoOrigins) <==> AllUsable(items) && forall n :: !Names(items, n)
    ensures ParseItems(items).Some? && ParseItems(items).value.ListOf? ==>
              forall n :: n in ParseItems(items).value.origins <==> Names(items, n)
  {
    hide EntryOf, Insert, Less, Collect, Names, AllUsable;
    CollectMeaning(items);
    UsableMeans(items);
    if Collect(items).Collected? {
      var xs := Collect(items).origins;
      if xs != [] {
        HeadIn(xs);
      }
    }
  }

  lemma UsableMeans(items: seq<string>)
    ensures AllUsable(items) <==> !exists raw :: raw in items && EntryOf(raw) == Invalid
  {
    hide EntryOf;
  }

  /** One entry: spaces around it do not count, and an empty one is skipped. */
  lemma EntryMeans(raw: string)
    ensures EntryOf(raw) == Blank <==> Trim(raw) == ""
    ensures EntryOf(raw) == Name("*") <== Trim(raw) == "*"
    ensures Trim(raw) != "" ==>
              var schemes := ["chrome-extension", "moz-extension", "safari-web-extension"];
              EntryOf(raw) == match NormalizeOrigin(Trim(raw), true, schemes)
                              case None => Invalid
                              case Some(n) => Name(n)
  {
    hide Text.Find, Text.LowerAll, AuthorityStop, ValidAuthority;
    TrimTwice(raw);
  }

  /** The comma is the separator, and it is removed nowhere else. */
  lemma {:induction false} SplitMeans(s: string)
    ensures Join(SplitCommas(s), ",") == s
    ensures forall i :: 0 <= i < |SplitCommas(s)| ==> ',' !in SplitCommas(s)[i]
    decreases |s|
  {
    if s != "" {
      SplitMeans(s[1..]);
      var rest := SplitCommas(s[1..]);
      var parts := SplitCommas(s);
      assert s == [s[0]] + s[1..];
      if s[0] == ',' {
        assert parts[1..] == rest;
      } else {
        assert parts[1..] == rest[1..];
        if |rest| > 1 {
          assert parts[0] + "," + Join(rest[1..], ",") == [s[0]] + (rest[0] + "," + Join(rest[1..], ","));
        }
      }
    }
  }

  /** The entries that are kept stay in order, each trimmed. */
  lemma {:induction false} NonEmptyTrimmedSnoc(parts: seq<string>, x: string)
    ensures NonEmptyTrimmed([]) == []
    ensures NonEmptyTrimmed(parts + [x]) == NonEmptyTrimmed(parts) + if Trim(x) == "" then [] else [Trim(x)]
    decreases |parts|
  {
    hide Text.Trim;
    if parts != [] {
      NonEmptyTrimmedSnoc(parts[1..], x);
      assert (parts + [x])[1..] == parts[1..] + [x];
    } else {
      assert parts + [x] == [x] && [x][1..] == [];
    }
  }

  /** A whole value: blank is no origin, anything but a JSON list of strings is refused. */
  lemma ValueMeans(value: string, items: seq<string>)
    ensures Trim(value) == "" ==> ParseAllowedOrigins(value) == Some(NoOrigins)
    ensures Trim(value) != "" && Json.Decode(Trim(value)) == None ==> ParseAllowedOrigins(value) == None
    ensures ParseAllowedOrigins(Json.Encode(items)) == ParseItems(items)
  {
    hide Json.Decode, Json.Encode, ParseItems, Text.Trim;
    Json.EncodedIsTrimmed(items);
    Json.RoundTrip(items);
  }

  /** A value that already is a JSON list migrates like any other JSON list. */
  lemma JsonMigratesAsJson(value: string)
    requires Trim(value) != "" && Trim(value)[0] == '['
    ensures NormalizeExisting(value) == Normalize(value)
  {
    hide Normalize, Json.Encode, Text.Trim;
  }
}
