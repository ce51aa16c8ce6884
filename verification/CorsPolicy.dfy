/** The CORS keys together: cross-checked admission of writes, and the policy the request
    path reads. */
module CorsPolicy {
  import opened Text
  import opened Cors
  import opened Decimal
  import AuditScope
  import Json

  datatype Key = Enabled | Origins | Credentials | MaxAge

  type Store = map<Key, string>

  const DEFAULT_MAX_AGE := 3600

  function Get(s: Store, k: Key): Option<string> {
    if k in s then Some(s[k]) else None
  }

  /** `parse_bool_str`. */
  function ParseBool(value: string): Option<bool> {
    var t := Trim(value);
    if t == "true" then Some(true) else if t == "false" then Some(false) else None
  }

  function BoolText(b: bool): string { if b then "true" else "false" }

  function NormalizeBool(value: string): Option<string> {
    match ParseBool(value)
    case None => None
    case Some(b) => Some(BoolText(b))
  }

  function NormalizeMaxAge(value: string): Option<string> {
    match ParseUnsigned(Trim(value), U64_MAX)
    case None => None
    case Some(n) => Some(Print(n))
  }

  /** A wildcard and credentials exclude each other. */
  predicate Compatible(o: AllowedOrigins, credentials: bool) {
    !(o.AnyOrigin? && credentials)
  }

  // ---- admission of writes ----------------------------------------------------

  function StoredOrigins(s: Store): Option<AllowedOrigins> {
    ParseAllowedOrigins(match Get(s, Origins) case Some(v) => v case None => "")
  }

  function StoredCredentials(s: Store): bool {
    match Get(s, Credentials)
    case None => false
    case Some(raw) =>
      match AuditScope.ParseBoolLike(raw)
      case Some(b) => b
      case None => false
  }

  /** The registered normaliser of a key, with the current values it looks up. */
  function Admit(s: Store, k: Key, value: string): Option<string> {
    match k
    case Enabled => NormalizeBool(value)
    case MaxAge => NormalizeMaxAge(value)
    case Origins =>
      (match Normalize(value)
       case None => None
       case Some(normalized) =>
         match ParseAllowedOrigins(normalized)
         case None => None
         case Some(o) => if Compatible(o, StoredCredentials(s)) then Some(normalized) else None)
    case Credentials =>
      (match NormalizeBool(value)
       case None => None
       case Some(normalized) =>
         match StoredOrigins(s)
         case None => None
         case Some(o) => if Compatible(o, normalized == "true") then Some(normalized) else None)
  }

  datatype Change = Write(key: Key, value: string) | Remove(key: Key)

  /** A refused write leaves the store alone. */
  function Step(s: Store, c: Change): Store {
    match c
    case Remove(k) => s - {k}
    case Write(k, value) =>
      match Admit(s, k, value)
      case None => s
      case Some(stored) => s[k := stored]
  }

  function Run(s: Store, changes: seq<Change>): Store {
    if changes == [] then s
    else Step(Run(s, changes[..|changes| - 1]), changes[|changes| - 1])
  }

  const DEFAULTS: Store := map[Enabled := "false", Origins := "[]", Credentials := "false", MaxAge := "3600"]

  /** Every stored value is in the normal form of its key. */
  ghost predicate Normal(s: Store) {
    && (forall k :: k in s && (k.Enabled? || k.Credentials?) ==> s[k] == "true" || s[k] == "false")
    && (Origins in s ==> Normalize(s[Origins]) == Some(s[Origins]))
    && (MaxAge in s ==> NormalizeMaxAge(s[MaxAge]) == Some(s[MaxAge]))
  }

  /** Stored values are normal and never combine a wildcard with credentials. */
  ghost predicate Safe(s: Store) {
    && Normal(s)
    && StoredOrigins(s).Some?
    && Compatible(StoredOrigins(s).value, StoredCredentials(s))
  }

  lemma BoolTextReads(b: bool)
    ensures ParseBool(BoolText(b)) == Some(b)
    ensures AuditScope.ParseBoolLike(BoolText(b)) == Some(b)
    ensures NormalizeBool(BoolText(b)) == Some(BoolText(b))
  {
    TrimIdentity(BoolText(b));
    assert LowerAll("true") == "true" && LowerAll("false") == "false";
  }

  lemma MaxAgeIsStable(value: string)
    requires NormalizeMaxAge(value).Some?
    ensures NormalizeMaxAge(NormalizeMaxAge(value).value) == NormalizeMaxAge(value)
  {
    hide Decimal.Print, Decimal.ParseUnsigned, Text.Trim;
    PrintThenParse(ParseUnsigned(Trim(value), U64_MAX).value, U64_MAX);
  }

  lemma NothingStored()
    ensures ParseAllowedOrigins("") == Some(NoOrigins)
  {
  }

  /** No admitted write or removal leaves the safe states, whichever key comes last. */
  lemma StepIsSafe(s: Store, c: Change)
    requires Safe(s)
    ensures Safe(Step(s, c))
  {
    hide Normalize, NormalizeMaxAge, ParseAllowedOrigins, AuditScope.ParseBoolLike, ParseBool;
    NothingStored();
    BoolTextReads(true);
    BoolTextReads(false);
    match c
    case Remove(k) =>
    case Write(k, value) =>
      if k == Origins && Normalize(value).Some? {
        NormalFormIsStable(value);
      }
      if k == MaxAge && NormalizeMaxAge(value).Some? {
        MaxAgeIsStable(value);
      }
  }

  lemma DefaultsAreSafe()
    ensures Safe(DEFAULTS)
  {
    hide Normalize, NormalizeMaxAge, ParseAllowedOrigins, AuditScope.ParseBoolLike;
    EmptyListReads();
    DefaultMaxAgeReads();
    BoolTextReads(false);
  }

  lemma EmptyListReads()
    ensures ParseAllowedOrigins("[]") == Some(NoOrigins) && Normalize("[]") == Some("[]")
  {
    SerializeParses(NoOrigins);
    assert Serialize(NoOrigins) == "[]";
  }

  lemma DefaultMaxAgeReads()
    ensures NormalizeMaxAge("3600") == Some("3600")
  {
    assert Print(3) == "3" && Print(36) == "36" && Print(360) == "360";
    assert Print(3600) == "3600";
    PrintThenParse(3600, U64_MAX);
  }

  /** From the defaults, every run of accepted and refused writes and removals stays safe. */
  lemma {:induction false} ReachableIsSafe(changes: seq<Change>)
    ensures Safe(Run(DEFAULTS, changes))
    decreases |changes|
  {
    hide Safe, Step;
    if changes == [] {
      DefaultsAreSafe();
    } else {
      var n := |changes| - 1;
      ReachableIsSafe(changes[..n]);
      StepIsSafe(Run(DEFAULTS, changes[..n]), changes[n]);
    }
  }

  lemma WildcardText()
    ensures Serialize(AnyOrigin) == "[\"*\"]" && ParseAllowedOrigins("[\"*\"]") == Some(AnyOrigin)
  {
    hide ParseAllowedOrigins;
    WildcardIsWritten();
    SerializeParses(AnyOrigin);
  }

  lemma WildcardIsWritten()
    ensures Serialize(AnyOrigin) == "[\"*\"]"
  {
    assert Json.EscapeAll("*") == "*" by { assert "*"[1..] == ""; }
    assert ["*"][1..] == [];
  }

  /** The law in the stored texts: in no reachable store do the wildcard list and switched-on
      credentials stand side by side, in whatever order they were written. */
  lemma NeverWildcardWithCredentials(changes: seq<Change>)
    ensures var s := Run(DEFAULTS, changes);
            && !(StoredOrigins(s) == Some(AnyOrigin) && Get(s, Credentials) == Some("true"))
            && !(Get(s, Origins) == Some("[\"*\"]") && Get(s, Credentials) == Some("true"))
  {
    hide Run, ParseAllowedOrigins, Normalize, AuditScope.ParseBoolLike, ParseBool, NormalizeMaxAge;
    ReachableIsSafe(changes);
    BoolTextReads(true);
    WildcardText();
  }

  /** What is admitted, exactly: a list if it parses and is not the wildcard beside switched-on
      credentials; credentials if they are a flag, the stored list parses, and they are not
      switched on beside the wildcard. */
  lemma AdmittedExactly(s: Store, value: string)
    ensures Admit(s, Origins, value) ==
            match ParseAllowedOrigins(value)
            case None => None
            case Some(o) => if o == AnyOrigin && StoredCredentials(s) then None else Some(Serialize(o))
    ensures Admit(s, Credentials, value) ==
            if StoredOrigins(s) == None || ParseBool(value) == None then None
            else if ParseBool(value) == Some(false) then Some("false")
            else if StoredOrigins(s) == Some(AnyOrigin) then None else Some("true")
    ensures Admit(s, Enabled, value) ==
            match ParseBool(value) case None => None case Some(b) => Some(if b then "true" else "false")
    ensures Admit(s, MaxAge, value) ==
            match ParseUnsigned(Trim(value), 18446744073709551615) case None => None case Some(n) => Some(Print(n))
  {
    hide ParseAllowedOrigins, Serialize, AuditScope.ParseBoolLike, ParseBool, Decimal.ParseUnsigned,
      Decimal.Print, Text.Trim;
    if Normalize(value).Some? {
      NormalFormIsStable(value);
    }
  }

  /** Which flags are switched on. */
  lemma FlagsRead(s: Store)
    ensures StoredCredentials(s) <==>
            Get(s, Credentials).Some? && LowerAll(Trim(s[Credentials])) in {"true", "1", "yes", "on"}
    ensures forall k :: ReadBool(s, k) <==> Get(s, k).Some? && Trim(s[k]) == "true"
    ensures forall v :: ParseBool(v) == Some(true) <==> Trim(v) == "true"
    ensures forall v :: ParseBool(v) == Some(false) <==> Trim(v) == "false"
    ensures ReadMaxAge(s) == match Get(s, MaxAge)
                             case None => 3600
                             case Some(v) => match ParseUnsigned(Trim(v), 18446744073709551615)
                                             case None => 3600 case Some(n) => n
  {
    hide Text.Trim, Text.LowerAll, Decimal.ParseUnsigned;
  }

  /** A write touches its own key only, and that only if it is admitted; a removal forgets the
      key and nothing else. */
  lemma StepTouchesOwn(s: Store, k: Key, value: string)
    ensures Get(Step(s, Remove(k)), k) == None
    ensures Get(Step(s, Write(k, value)), k) == if Admit(s, k, value).Some? then Admit(s, k, value) else Get(s, k)
    ensures forall other :: other != k ==>
              Get(Step(s, Remove(k)), other) == Get(s, other) == Get(Step(s, Write(k, value)), other)
  {
    hide Admit;
  }

  /** In a safe store every value would be admitted again, unchanged. */
  lemma StoredIsFixedPoint(s: Store, k: Key)
    requires Safe(s) && k in s
    ensures Admit(s, k, s[k]) == Some(s[k])
  {
    hide Normalize, NormalizeMaxAge, ParseAllowedOrigins, AuditScope.ParseBoolLike, ParseBool;
    BoolTextReads(true);
    BoolTextReads(false);
  }

  // ---- the runtime policy --------------------------------------------------------

  datatype Policy = Policy(enabled: bool, origins: AllowedOrigins, credentials: bool, maxAge: nat)

  function ReadBool(s: Store, k: Key): bool {
    match Get(s, k)
    case None => false
    case Some(raw) =>
      match ParseBool(raw)
      case Some(b) => b
      case None => false
  }

  function ReadMaxAge(s: Store): nat {
    match Get(s, MaxAge)
    case None => DEFAULT_MAX_AGE
    case Some(raw) =>
      match ParseUnsigned(Trim(raw), U64_MAX)
      case Some(n) => n
      case None => DEFAULT_MAX_AGE
  }

  /** `runtime_cors_policy`. */
  function RuntimePolicy(s: Store): Policy {
    if !ReadBool(s, Enabled) then Policy(false, NoOrigins, false, DEFAULT_MAX_AGE)
    else
      var origins := (match StoredOrigins(s) case Some(o) => o case None => NoOrigins);
      var credentials := ReadBool(s, Credentials);
      if Compatible(origins, credentials) then Policy(true, origins, credentials, ReadMaxAge(s))
      else Policy(true, NoOrigins, false, ReadMaxAge(s))
  }

  /** For arbitrary raw values the policy never pairs a wildcard with credentials, a disabled
      policy allows nothing, and an invalid or contradictory configuration allows no origin. */
  lemma PolicyFailsClosed(s: Store)
    ensures !(RuntimePolicy(s).origins == AnyOrigin && RuntimePolicy(s).credentials)
    ensures !RuntimePolicy(s).enabled ==> RuntimePolicy(s) == Policy(false, NoOrigins, false, 3600)
    ensures StoredOrigins(s).None? ==> RuntimePolicy(s).origins == NoOrigins
    ensures StoredOrigins(s) == Some(AnyOrigin) && ReadBool(s, Credentials) ==>
              RuntimePolicy(s).origins == NoOrigins && !RuntimePolicy(s).credentials
  {
    hide ParseAllowedOrigins, ParseBool, Decimal.ParseUnsigned;
  }

  /** On every reachable store with CORS enabled, the policy is what was written: the origins
      and the number the stored texts denote and the stored flag, with no fallback. */
  lemma PolicyReadsBack(changes: seq<Change>)
    ensures var s := Run(DEFAULTS, changes);
            Get(s, Enabled) == Some("true") ==>
              && StoredOrigins(s).Some?
              && (MaxAge in s ==> ParseUnsigned(Trim(s[MaxAge]), U64_MAX).Some?)
              && RuntimePolicy(s) == Policy(
                   true, StoredOrigins(s).value, Get(s, Credentials) == Some("true"),
                   if MaxAge in s then ParseUnsigned(Trim(s[MaxAge]), U64_MAX).value else DEFAULT_MAX_AGE)
  {
    hide Run, ParseAllowedOrigins, Normalize, AuditScope.ParseBoolLike, ParseBool, Decimal.ParseUnsigned, Text.Trim;
    ReachableIsSafe(changes);
    BoolTextReads(true);
    BoolTextReads(false);
  }

  /** After an accepted write to a reachable store, an enabled policy shows the value that was
      written, as its own parser reads the written text. */
  lemma WriteReadsBack(changes: seq<Change>, k: Key, value: string)
    requires Admit(Run(DEFAULTS, changes), k, value).Some?
    ensures var p := RuntimePolicy(Run(DEFAULTS, changes + [Write(k, value)]));
            && (k == Enabled ==> Some(p.enabled) == ParseBool(value))
            && (k == Origins && p.enabled ==> Some(p.origins) == ParseAllowedOrigins(value))
            && (k == Credentials && p.enabled ==> Some(p.credentials) == ParseBool(value))
            && (k == MaxAge && p.enabled ==> Some(p.maxAge) == ParseUnsigned(Trim(value), U64_MAX))
  {
    hide Run, ParseAllowedOrigins, Normalize, AuditScope.ParseBoolLike, ParseBool, Decimal.ParseUnsigned,
      Decimal.Print, Text.Trim;
    var s := Run(DEFAULTS, changes);
    RunSnoc(changes, Write(k, value));
    ReachableIsSafe(changes);
    StepIsSafe(s, Write(k, value));
    BoolTextReads(true);
    BoolTextReads(false);
    if k == Origins {
      NormalFormIsStable(value);
    }
    if k == MaxAge {
      PrintThenParse(ParseUnsigned(Trim(value), U64_MAX).value, U64_MAX);
    }
  }

  lemma RunSnoc(changes: seq<Change>, c: Change)
    ensures Run(DEFAULTS, changes + [c]) == Step(Run(DEFAULTS, changes), c)
  {
    hide Step;
    assert (changes + [c])[..|changes|] == changes;
  }

  /** The defaults: switched off; and switched on without anything else, no origin, no credentials
      and an hour. */
  lemma DefaultsDeny()
    ensures RuntimePolicy(DEFAULTS) == Policy(false, NoOrigins, false, 3600)
    ensures RuntimePolicy(DEFAULTS[Enabled := "true"]) == Policy(true, NoOrigins, false, 3600)
  {
    hide ParseAllowedOrigins, ParseBool, Decimal.ParseUnsigned, Decimal.Print, Text.Trim;
    EmptyListReads();
    HourReads();
    BoolTextReads(false);
    BoolTextReads(true);
  }

  lemma HourReads()
    ensures ParseUnsigned(Trim("3600"), U64_MAX) == Some(3600)
  {
    assert Print(3) == "3" && Print(36) == "36" && Print(360) == "360";
    assert Print(3600) == "3600";
    PrintThenParse(3600, U64_MAX);
  }
}
