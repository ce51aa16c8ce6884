/** Loading the static configuration: the default file on first start, and the backfill of
    generated secrets that must stay stable from then on. */
module Loader {
  import opened Text

  const SECRETS: seq<string> := [
    "jwt_secret", "share_cookie_secret", "direct_link_secret", "mfa_secret_key",
    "storage_credential_secret_key", "webdav_auth_cache_secret"
  ]

  type Table = map<string, string>

  /** The `auth` entry of the document; everything else is `rest`. */
  datatype Auth = Missing | AuthTable(keys: Table) | NotATable

  datatype Document = Document(auth: Auth, rest: string)

  /** What the file holds. */
  datatype Content = Malformed(text: string) | Toml(doc: Document)

  /** An empty file is a document without entries. */
  const EMPTY := Toml(Document(Missing, ""))

  predicate Unusable(c: Content) { c.Malformed? || c.doc.auth.NotATable? }

  function Upper(c: char): char {
    if 'a' <= c <= 'z' then (c as int - 32) as char else c
  }

  function EnvName(key: string): string {
    "ASTER__AUTH__" + seq(|key|, i requires 0 <= i < |key| => Upper(key[i]))
  }

  /** The generator's secret for each name. */
  type Generated = string -> string

  /** How `std::fs::write` ends. It truncates the file before it writes: a write that fails
      behind the truncation leaves whatever the characters written so far amount to. */
  datatype Write = Done | Refused | Torn(left: Content)

  /** The circumstances of one load: the environment, the generator's secrets for a default
      file and for the backfill, how creating and rewriting the file end, whether reading it
      fails, and whether the steps after the backfill (deserialising, paths, validation) succeed. */
  datatype Circumstances = Circumstances(
    env: set<string>, initial: Generated, generated: Generated, otherDefaults: Table, restDefaults: string,
    create: Write, readFails: bool, persist: Write, restSucceeds: bool)

  /** The default file has every secret. */
  function DefaultDocument(names: seq<string>, c: Circumstances): Document {
    Document(AuthTable(c.otherDefaults + map k | k in names :: c.initial(k)), c.restDefaults)
  }

  /** Which secrets the backfill has to add. */
  predicate Lacks(table: Table, env: set<string>, k: string) {
    k !in table && EnvName(k) !in env
  }

  function Backfilled(names: seq<string>, table: Table, env: set<string>, generated: Generated): Table {
    table + map k | k in names && Lacks(table, env, k) :: generated(k)
  }

  predicate Complete(names: seq<string>, table: Table, env: set<string>) {
    forall k :: k in names ==> !Lacks(table, env, k)
  }

  function TableOf(a: Auth): Table { if a.AuthTable? then a.keys else map[] }

  /** The backfill loop over the secrets, tracking whether anything was inserted. */
  method InsertMissing(names: seq<string>, table: Table, env: set<string>, generated: Generated)
      returns (updated: Table, changed: bool)
    ensures updated == Backfilled(names, table, env, generated)
    ensures changed <==> !Complete(names, table, env)
  {
    hide EnvName;
    updated, changed := table, false;
    for n := 0 to |names|
      invariant updated == Backfilled(names[..n], table, env, generated)
      invariant changed <==> !Complete(names[..n], table, env)
    {
      var key := names[n];
      assert names[..n + 1] == names[..n] + [key];
      BackfillStep(names[..n], key, table, env, generated);
      BackfillHas(names[..n], table, env, generated, key);
      CompleteStep(names[..n], key, table, env);
      if key !in updated && EnvName(key) !in env {
        updated := updated[key := generated(key)];
        changed := true;
      }
    }
    assert names[..|names|] == names;
  }

  lemma BackfillStep(names: seq<string>, key: string, table: Table, env: set<string>, generated: Generated)
    ensures var before := Backfilled(names, table, env, generated);
            Backfilled(names + [key], table, env, generated) ==
            if key !in before && EnvName(key) !in env then before[key := generated(key)] else before
  {
    hide EnvName;
    BackfillHas(names, table, env, generated, key);
    var before := Backfilled(names, table, env, generated);
    var after := Backfilled(names + [key], table, env, generated);
    var expected := if key !in before && EnvName(key) !in env then before[key := generated(key)] else before;
    forall k ensures (k in after <==> k in expected) && (k in after ==> after[k] == expected[k]) {
      BackfillHas(names, table, env, generated, k);
      BackfillHas(names + [key], table, env, generated, k);
    }
  }

  lemma BackfillHas(names: seq<string>, table: Table, env: set<string>, generated: Generated, k: string)
    ensures var t := Backfilled(names, table, env, generated);
            && (k in t <==> k in table || (k in names && EnvName(k) !in env))
            && (k in t ==> t[k] == if k in table then table[k] else generated(k))
  {
    hide EnvName;
  }

  lemma CompleteStep(names: seq<string>, key: string, table: Table, env: set<string>)
    ensures Complete(names + [key], table, env) <==> Complete(names, table, env) && !Lacks(table, env, key)
  {
    hide EnvName, Lacks;
    assert forall k :: k in names + [key] <==> k in names || k == key;
  }

  datatype Outcome = Outcome(ok: bool, created: bool, added: bool)

  /** The file behind `ensure_default_config_exists`. */
  function Started(names: seq<string>, file: Option<Content>, c: Circumstances): Option<Content> {
    if file.Some? then file
    else match c.create
      case Done => Some(Toml(DefaultDocument(names, c)))
      case Refused => None
      case Torn(left) => Some(left)
  }

  /** `load_from_path`, as far as it decides what the file becomes. */
  function Load(names: seq<string>, file: Option<Content>, c: Circumstances): (Option<Content>, Outcome) {
    var started := Started(names, file, c);
    var created := file.None? && c.create.Done?;
    if file.None? && !created then (started, Outcome(false, false, false))
    else
      var content := started.value;
      if c.readFails || Unusable(content) then (started, Outcome(false, created, false))
      else
        var table := TableOf(content.doc.auth);
        if Complete(names, table, c.env) then (started, Outcome(c.restSucceeds, created, false))
        else
          var doc := content.doc.(auth := AuthTable(Backfilled(names, table, c.env, c.generated)));
          match c.persist
          case Done => (Some(Toml(doc)), Outcome(c.restSucceeds, created, true))
          case Refused => (started, Outcome(false, created, false))
          case Torn(left) => (Some(left), Outcome(false, created, false))
  }

  /** The configuration file. */
  class ConfigFile {
    const names: seq<string>
    var content: Option<Content>

    constructor (initial: Option<Content>)
      ensures content == initial && names == SECRETS
    {
      names := SECRETS;
      content := initial;
    }

    /** `std::fs::write`. */
    method Rewrite(next: Content, write: Write) returns (ok: bool)
      modifies this
      ensures ok == write.Done?
      ensures content == match write
                         case Done => Some(next)
                         case Refused => old(content)
                         case Torn(left) => Some(left)
    {
      match write {
        case Done => content := Some(next);
        case Refused =>
        case Torn(left) => content := Some(left);
      }
      return write.Done?;
    }

    method EnsureDefaultExists(c: Circumstances) returns (ok: bool, created: bool)
      modifies this
      ensures ok <==> old(content).Some? || c.create.Done?
      ensures created <==> ok && old(content).None?
      ensures content == Started(names, old(content), c)
    {
      if content.Some? { return true, false; }
      ok := Rewrite(Toml(DefaultDocument(names, c)), c.create);
      return ok, ok;
    }

    method LoadFromPath(c: Circumstances) returns (r: Outcome)
      modifies this
      ensures (content, r) == Load(names, old(content), c)
    {
      hide EnvName, Backfilled, DefaultDocument, Complete;
      var ok, created := EnsureDefaultExists(c);
      if !ok { return Outcome(false, false, false); }
      var current := content.value;
      if c.readFails || Unusable(current) { return Outcome(false, created, false); }
      var updated, changed := InsertMissing(names, TableOf(current.doc.auth), c.env, c.generated);
      if changed {
        ok := Rewrite(Toml(current.doc.(auth := AuthTable(updated))), c.persist);
        if !ok { return Outcome(false, created, false); }
      }
      return Outcome(c.restSucceeds, created, changed);
    }
  }

  // ---- any sequence of loads -------------------------------------------------------

  function Run(names: seq<string>, file: Option<Content>, loads: seq<Circumstances>): Option<Content> {
    if loads == [] then file
    else Load(names, Run(names, file, loads[..|loads| - 1]), loads[|loads| - 1]).0
  }

  /** The later file has everything the earlier one had, unchanged; only secrets are new. */
  ghost predicate Grows(names: seq<string>, before: Option<Content>, after: Option<Content>) {
    before.Some? ==>
      && after.Some?
      && (Unusable(before.value) ==> after == before)
      && (!Unusable(before.value) ==>
            && !Unusable(after.value)
            && after.value.doc.rest == before.value.doc.rest
            && TableGrows(names, TableOf(before.value.doc.auth), TableOf(after.value.doc.auth)))
  }

  ghost predicate TableGrows(names: seq<string>, before: Table, after: Table) {
    && (forall k :: k in before ==> k in after && after[k] == before[k])
    && (forall k :: k in after && k !in before ==> k in names)
  }

  lemma BackfillGrows(names: seq<string>, table: Table, env: set<string>, generated: Generated)
    ensures TableGrows(names, table, Backfilled(names, table, env, generated))
  {
    hide EnvName;
  }

  /** The load comes to rewrite the file. */
  predicate Rewrites(names: seq<string>, file: Option<Content>, c: Circumstances) {
    var started := Started(names, file, c);
    && (file.Some? || c.create.Done?) && !c.readFails
    && !Unusable(started.value) && !Complete(names, TableOf(started.value.doc.auth), c.env)
  }

  /** The load rewrites the file and the write fails behind the truncation. */
  predicate Tears(names: seq<string>, file: Option<Content>, c: Circumstances) {
    Rewrites(names, file, c) && c.persist.Torn?
  }

  /** One load keeps everything and adds only secrets, unless its rewrite tears; then the file is
      what the torn write left. */
  lemma LoadGrows(names: seq<string>, file: Option<Content>, c: Circumstances)
    ensures !Tears(names, file, c) ==> Grows(names, file, Load(names, file, c).0)
    ensures Tears(names, file, c) ==> Load(names, file, c).0 == Some(c.persist.left)
  {
    hide EnvName, Lacks, Backfilled, Complete, DefaultDocument;
    if file.Some? && !Unusable(file.value) {
      BackfillGrows(names, TableOf(file.value.doc.auth), c.env, c.generated);
    }
  }

  /** A document without any entry or other text. */
  predicate HoldsNothing(content: Content) {
    content.Toml? && TableOf(content.doc.auth) == map[] && content.doc.rest == ""
  }

  /** A leftover that every torn rewrite can leave: nothing, right behind the truncation; and of a
      file that held nothing, the beginning of the table's name. */
  predicate CanLeave(content: Content, left: Content) {
    left == EMPTY || (HoldsNothing(content) && left == Malformed("[auth"))
  }

  predicate Plausible(content: Content, write: Write) {
    write.Torn? ==> CanLeave(content, write.left)
  }

  function WorstLeft(content: Content): (left: Content)
    ensures CanLeave(content, left)
  {
    if HoldsNothing(content) then Malformed("[auth") else EMPTY
  }

  lemma WorstLeftLoses(names: seq<string>, content: Content)
    requires !Unusable(content)
    ensures !Grows(names, Some(content), Some(WorstLeft(content)))
  {
    var table := TableOf(content.doc.auth);
    assert table != map[] ==> exists k :: k in table;
  }

  /** Under an environment every load keeps the file's content, whatever fails, if and only if
      there is nothing to backfill (or the file is refused before the backfill); then no fault
      changes it at all. */
  lemma SafeUnderEveryFault(names: seq<string>, content: Content, env: set<string>)
    ensures (forall c: Circumstances :: c.env == env && Plausible(content, c.persist) ==>
               Grows(names, Some(content), Load(names, Some(content), c).0))
            <==> Unusable(content) || Complete(names, TableOf(content.doc.auth), env)
    ensures Unusable(content) || Complete(names, TableOf(content.doc.auth), env) ==>
              forall c: Circumstances :: c.env == env ==> Load(names, Some(content), c).0 == Some(content)
  {
    hide EnvName, Lacks, Backfilled, Complete, DefaultDocument, Grows;
    GrowsIsReflexive(names, Some(content));
    if !Unusable(content) && !Complete(names, TableOf(content.doc.auth), env) {
      var torn := TornWrite(env, WorstLeft(content));
      assert Load(names, Some(content), torn).0 == Some(WorstLeft(content));
      WorstLeftLoses(names, content);
      assert torn.env == env && Plausible(content, torn.persist)
          && !Grows(names, Some(content), Load(names, Some(content), torn).0);
    }
  }

  /** A load whose rewrite tears. */
  function TornWrite(env: set<string>, left: Content): Circumstances {
    Circumstances(env, _ => "", _ => "", map[], "", Done, false, Torn(left), true)
  }

  /** No rewrite of the sequence tears. */
  ghost predicate Untorn(names: seq<string>, file: Option<Content>, loads: seq<Circumstances>) {
    forall i :: 0 <= i < |loads| ==> !Tears(names, Run(names, file, loads[..i]), loads[i])
  }

  lemma UntornInit(names: seq<string>, file: Option<Content>, loads: seq<Circumstances>, n: nat)
    requires Untorn(names, file, loads) && n + 1 == |loads|
    ensures Untorn(names, file, loads[..n]) && !Tears(names, Run(names, file, loads[..n]), loads[n])
  {
    hide Tears, Run;
    var init := loads[..n];
    forall i | 0 <= i < |init| ensures !Tears(names, Run(names, file, init[..i]), init[i]) {
      assert init[..i] == loads[..i] && init[i] == loads[i];
    }
  }

  /** Over any sequence of loads under any environments and failures in which no rewrite tears,
      whatever the file once held stays as it was; loads only ever add secrets. */
  lemma {:induction false} SecretsPersist(names: seq<string>, file: Option<Content>, loads: seq<Circumstances>)
    requires Untorn(names, file, loads)
    ensures Grows(names, file, Run(names, file, loads))
    decreases |loads|
  {
    hide Load, Tears, Grows, Untorn;
    if loads == [] {
      GrowsIsReflexive(names, file);
    } else {
      var n := |loads| - 1;
      UntornInit(names, file, loads, n);
      SecretsPersist(names, file, loads[..n]);
      LoadGrows(names, Run(names, file, loads[..n]), loads[n]);
      GrowsIsTransitive(names, file, Run(names, file, loads[..n]), Run(names, file, loads));
    }
  }

  lemma GrowsIsTransitive(names: seq<string>, a: Option<Content>, b: Option<Content>, c: Option<Content>)
    requires Grows(names, a, b) && Grows(names, b, c)
    ensures Grows(names, a, c)
  {
  }

  ghost predicate HoldsAll(names: seq<string>, content: Content) {
    !Unusable(content) && forall k :: k in names ==> k in TableOf(content.doc.auth)
  }

  /** A file with all secrets, or one that is refused, is never changed again: by no sequence of
      loads, under no environments and with no faults. */
  lemma {:induction false} NeverChanges(names: seq<string>, content: Content, loads: seq<Circumstances>)
    requires Unusable(content) || HoldsAll(names, content)
    ensures Run(names, Some(content), loads) == Some(content)
    decreases |loads|
  {
    hide EnvName, Backfilled, DefaultDocument;
    if loads != [] {
      NeverChanges(names, content, loads[..|loads| - 1]);
    }
  }

  /** Every torn rewrite of the sequence leaves something that it can leave. */
  ghost predicate AllPlausible(names: seq<string>, file: Option<Content>, loads: seq<Circumstances>) {
    forall i :: 0 <= i < |loads| ==>
      var before := Run(names, file, loads[..i]);
      before.Some? ==> Plausible(before.value, loads[i].persist)
  }

  /** Every sequence of loads keeps the file's content, whatever the environments and whatever
      fails, if and only if the file holds all secrets (or is refused). */
  lemma PersistExactly(names: seq<string>, content: Content)
    ensures (forall loads :: AllPlausible(names, Some(content), loads) ==>
               Grows(names, Some(content), Run(names, Some(content), loads)))
            <==> Unusable(content) || HoldsAll(names, content)
  {
    hide EnvName, Load, Grows, Plausible;
    if Unusable(content) || HoldsAll(names, content) {
      forall loads ensures Grows(names, Some(content), Run(names, Some(content), loads)) {
        NeverChanges(names, content, loads);
        GrowsIsReflexive(names, Some(content));
      }
    } else {
      var torn := TornWrite({}, WorstLeft(content));
      assert [torn][..0] == [];
      assert Run(names, Some(content), [torn]) == Load(names, Some(content), torn).0;
      assert AllPlausible(names, Some(content), [torn]) by { TornIsPlausible(content); }
      TearingLoses(names, content);
    }
  }

  lemma TornIsPlausible(content: Content)
    ensures Plausible(content, TornWrite({}, WorstLeft(content)).persist)
  {
  }

  lemma GrowsIsReflexive(names: seq<string>, file: Option<Content>)
    ensures Grows(names, file, file)
  {
  }

  lemma TearingLoses(names: seq<string>, content: Content)
    requires !Unusable(content) && !HoldsAll(names, content)
    ensures !Grows(names, Some(content), Load(names, Some(content), TornWrite({}, WorstLeft(content))).0)
  {
    hide EnvName, Backfilled, DefaultDocument, Grows;
    assert exists k :: k in names && Lacks(TableOf(content.doc.auth), {}, k);
    WorstLeftLoses(names, content);
  }

  /** What that means: a file that lacks one secret is truncated, and the next load, which
      succeeds, replaces every secret the file had. */
  lemma TruncationReplacesSecrets(names: seq<string>, content: Content, next: Circumstances)
    requires !Unusable(content) && !HoldsAll(names, content)
    requires next.env == {} && !next.readFails && next.persist.Done? && next.restSucceeds
    ensures var r := Run(names, Some(content), [TornWrite({}, EMPTY), next]);
            && r.Some? && !Unusable(r.value)
            && TableOf(r.value.doc.auth) == (map k | k in names :: next.generated(k))
            && Load(names, Some(EMPTY), next).1.ok
  {
    hide EnvName;
    var torn := TornWrite({}, EMPTY);
    assert [torn, next][..1] == [torn] && [torn][..0] == [];
    assert exists k :: k in names && Lacks(TableOf(content.doc.auth), {}, k);
    assert Load(names, Some(content), torn).0 == Some(EMPTY);
    assert Run(names, Some(content), [torn]) == Some(EMPTY);
    assert exists k :: k in names && Lacks(map[], {}, k);
    assert !Complete(names, map[], {});
  }

  // ---- secrets of the environment ----------------------------------------------------

  predicate Stores(file: Option<Content>, k: string) {
    file.Some? && !Unusable(file.value) && k in TableOf(file.value.doc.auth)
  }

  /** The backfill never adds a secret the environment supplies: after a load that does not tear,
      the file has it exactly if it had it when the backfill started. */
  lemma EnvironmentIsNotStored(names: seq<string>, file: Option<Content>, c: Circumstances, k: string)
    requires EnvName(k) in c.env && !Tears(names, file, c)
    ensures Stores(Load(names, file, c).0, k) <==> Stores(Started(names, file, c), k)
  {
    hide EnvName, Complete, DefaultDocument;
  }

  /** On a first start the default file has every secret, also those the environment supplies. */
  lemma FirstStartStores(names: seq<string>, c: Circumstances, k: string)
    requires k in names && c.create.Done?
    ensures Stores(Load(names, None, c).0, k)
    ensures Load(names, None, c).0 == Some(Toml(DefaultDocument(names, c)))
  {
    hide EnvName, Backfilled;
  }

  /** Over any sequence of loads whose environments all supply it, and in which no rewrite tears,
      an existing file has the secret exactly if it had it at the beginning. */
  lemma {:induction false} SuppliedIsNeverStored(
      names: seq<string>, file: Content, loads: seq<Circumstances>, k: string)
    requires forall i :: 0 <= i < |loads| ==> EnvName(k) in loads[i].env
    requires Untorn(names, Some(file), loads)
    ensures Run(names, Some(file), loads).Some?
    ensures Stores(Run(names, Some(file), loads), k) <==> Stores(Some(file), k)
    decreases |loads|
  {
    hide Load, EnvName, Tears, Stores, Untorn;
    if loads != [] {
      var n := |loads| - 1;
      UntornInit(names, Some(file), loads, n);
      SuppliedIsNeverStored(names, file, loads[..n], k);
      EnvironmentIsNotStored(names, Run(names, Some(file), loads[..n]), loads[n], k);
      LoadGrows(names, Run(names, Some(file), loads[..n]), loads[n]);
    }
  }

  // ---- after a successful load ---------------------------------------------------------

  lemma BackfillCompletes(names: seq<string>, table: Table, env: set<string>, generated: Generated)
    ensures Complete(names, Backfilled(names, table, env, generated), env)
  {
    hide EnvName;
  }

  /** After a successful load every secret is in the file or in the environment, and loading
      again under the same environment writes nothing, whatever fails. */
  lemma LoadSettles(names: seq<string>, file: Option<Content>, c: Circumstances, again: Circumstances)
    requires Load(names, file, c).1.ok && again.env == c.env
    ensures var after := Load(names, file, c).0;
            && after.Some? && !Unusable(after.value)
            && (forall k :: k in names ==> k in TableOf(after.value.doc.auth) || EnvName(k) in c.env)
            && Load(names, after, again) == (after, Outcome(!again.readFails && again.restSucceeds, false, false))
  {
    hide EnvName, Backfilled, DefaultDocument;
    var content := if file.None? then Toml(DefaultDocument(names, c)) else file.value;
    if !Unusable(content) {
      BackfillCompletes(names, TableOf(content.doc.auth), c.env, c.generated);
    }
  }

  // ---- by name -----------------------------------------------------------------------

  lemma UpperOf(key: string, name: string)
    requires |name| == |key|
    requires forall i :: 0 <= i < |key| ==>
               if 'a' <= key[i] <= 'z' then name[i] as int == key[i] as int - 32 else name[i] == key[i]
    ensures EnvName(key) == "ASTER__AUTH__" + name
  {
    var upper := seq(|key|, i requires 0 <= i < |key| => Upper(key[i]));
    assert upper == name;
  }

  /** The variables that supply the secrets. */
  lemma VariablesAre()
    ensures EnvName("jwt_secret") == "ASTER__AUTH__" + "JWT_SECRET"
    ensures EnvName("share_cookie_secret") == "ASTER__AUTH__" + "SHARE_COOKIE_SECRET"
    ensures EnvName("direct_link_secret") == "ASTER__AUTH__" + "DIRECT_LINK_SECRET"
    ensures EnvName("mfa_secret_key") == "ASTER__AUTH__" + "MFA_SECRET_KEY"
    ensures EnvName("storage_credential_secret_key") == "ASTER__AUTH__" + "STORAGE_CREDENTIAL_SECRET_KEY"
    ensures EnvName("webdav_auth_cache_secret") == "ASTER__AUTH__" + "WEBDAV_AUTH_CACHE_SECRET"
  {
    hide EnvName;
    JwtVariable();
    CookieVariable();
    LinkVariable();
    MfaVariable();
    StorageVariable();
    WebdavVariable();
  }

  lemma JwtVariable()
    ensures EnvName("jwt_secret") == "ASTER__AUTH__" + "JWT_SECRET"
  {
    hide EnvName;
    UpperOf("jwt_secret", "JWT_SECRET");
  }

  lemma CookieVariable()
    ensures EnvName("share_cookie_secret") == "ASTER__AUTH__" + "SHARE_COOKIE_SECRET"
  {
    hide EnvName;
    UpperOf("share_cookie_secret", "SHARE_COOKIE_SECRET");
  }

  lemma LinkVariable()
    ensures EnvName("direct_link_secret") == "ASTER__AUTH__" + "DIRECT_LINK_SECRET"
  {
    hide EnvName;
    UpperOf("direct_link_secret", "DIRECT_LINK_SECRET");
  }

  lemma MfaVariable()
    ensures EnvName("mfa_secret_key") == "ASTER__AUTH__" + "MFA_SECRET_KEY"
  {
    hide EnvName;
    UpperOf("mfa_secret_key", "MFA_SECRET_KEY");
  }

  lemma StorageVariable()
    ensures EnvName("storage_credential_secret_key") == "ASTER__AUTH__" + "STORAGE_CREDENTIAL_SECRET_KEY"
  {
    hide EnvName;
    UpperOf("storage_credential_secret_key", "STORAGE_CREDENTIAL_SECRET_KEY");
  }

  lemma WebdavVariable()
    ensures EnvName("webdav_auth_cache_secret") == "ASTER__AUTH__" + "WEBDAV_AUTH_CACHE_SECRET"
  {
    hide EnvName;
    UpperOf("webdav_auth_cache_secret", "WEBDAV_AUTH_CACHE_SECRET");
  }

  /** After a successful load each of the six secrets is in the file or supplied by its variable. */
  lemma SixSecretsAreThere(file: Option<Content>, c: Circumstances)
    requires Load(SECRETS, file, c).1.ok
    ensures var after := Load(SECRETS, file, c).0;
            && (Stores(after, "jwt_secret") || "ASTER__AUTH__" + "JWT_SECRET" in c.env)
            && (Stores(after, "share_cookie_secret") || "ASTER__AUTH__" + "SHARE_COOKIE_SECRET" in c.env)
            && (Stores(after, "direct_link_secret") || "ASTER__AUTH__" + "DIRECT_LINK_SECRET" in c.env)
            && (Stores(after, "mfa_secret_key") || "ASTER__AUTH__" + "MFA_SECRET_KEY" in c.env)
            && (Stores(after, "storage_credential_secret_key")
                || "ASTER__AUTH__" + "STORAGE_CREDENTIAL_SECRET_KEY" in c.env)
            && (Stores(after, "webdav_auth_cache_secret") || "ASTER__AUTH__" + "WEBDAV_AUTH_CACHE_SECRET" in c.env)
  {
    hide EnvName, Load;
    LoadSettles(SECRETS, file, c, c);
    VariablesAre();
    var names := SECRETS;
    assert names[0] in names && names[1] in names && names[2] in names;
    assert names[3] in names && names[4] in names && names[5] in names;
  }

  /** And only they are ever added. */
  lemma OnlySixSecrets(k: string)
    ensures k in SECRETS <==>
            k in {"jwt_secret", "share_cookie_secret", "direct_link_secret", "mfa_secret_key",
                  "storage_credential_secret_key", "webdav_auth_cache_secret"}
  {
  }

  /** What a first start writes: the generated secrets, the other defaults, the rest. */
  lemma FirstStartContents(names: seq<string>, c: Circumstances, k: string)
    requires c.create.Done?
    ensures var doc := DefaultDocument(names, c);
            && Load(names, None, c).0 == Some(Toml(doc)) && doc.rest == c.restDefaults
            && (k in names ==> k in TableOf(doc.auth) && TableOf(doc.auth)[k] == c.initial(k))
            && (k !in names ==> (k in TableOf(doc.auth) <==> k in c.otherDefaults))
            && (k !in names && k in c.otherDefaults ==> TableOf(doc.auth)[k] == c.otherDefaults[k])
  {
    hide EnvName, Backfilled;
  }

  /** What a load reports. */
  lemma LoadReports(names: seq<string>, file: Option<Content>, c: Circumstances)
    ensures var r := Load(names, file, c).1;
            && (r.created <==> file.None? && c.create.Done?)
            && (r.added <==> Rewrites(names, file, c) && c.persist.Done?)
            && (r.ok <==>
                  && c.restSucceeds && !c.readFails && (file.Some? || c.create.Done?)
                  && !Unusable(Started(names, file, c).value)
                  && (Rewrites(names, file, c) ==> c.persist.Done?))
  {
    hide EnvName, Backfilled, DefaultDocument, Complete;
  }

  /** A file that is no TOML, or in which `auth` is no table, fails the load and stays as it is. */
  lemma BadFilesFail(names: seq<string>, text: string, rest: string, c: Circumstances)
    ensures Load(names, Some(Malformed(text)), c) == (Some(Malformed(text)), Outcome(false, false, false))
    ensures var bad := Toml(Document(NotATable, rest));
            Load(names, Some(bad), c) == (Some(bad), Outcome(false, false, false))
  {
    hide EnvName, Backfilled, DefaultDocument, Complete;
  }
}
