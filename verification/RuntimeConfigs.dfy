/** The runtime configuration: a snapshot of stored values and, cached beside it, the audit
    settings compiled from that snapshot. */
module RuntimeConfigs {
  import opened Text
  import opened AuditScope

  datatype Model = Model(key: string, value: string)

  type Snapshot = map<string, Model>

  const ENABLED_KEY := "audit_log_enabled"
  const ACTIONS_KEY := "audit_log_recorded_actions"

  predicate IsAuditKey(key: string) { key == ENABLED_KEY || key == ACTIONS_KEY }

  /** `SyncConfigSnapshot::from_configs`: of equal keys the last one counts. */
  function FromConfigs(configs: seq<Model>): Snapshot {
    if configs == [] then map[]
    else
      var last := configs[|configs| - 1];
      FromConfigs(configs[..|configs| - 1])[last.key := last]
  }

  function Get(s: Snapshot, key: string): Option<string> {
    if key in s then Some(s[key].value) else None
  }

  /** `build_audit_log_settings`. */
  function Build(c: Catalog, s: Snapshot): Settings
    requires c.Valid()
  {
    FromRaw(c, Get(s, ENABLED_KEY), Get(s, ACTIONS_KEY))
  }

  /** What the default constructor caches beside an empty snapshot. */
  function DefaultSettings(c: Catalog): Settings
    requires c.Valid()
  {
    RuntimeActionsFit(c, None);
    Settings(ENABLED_BY_DEFAULT, FoldBits(EmptyMask(Words(|c.names|)), AllActions(c)))
  }

  // ---- one call after the other ---------------------------------------------

  /** The calls that change the configuration. The snapshot store decides whether it takes an
      applied model; restart-required ones it ignores. A reload may fail to read the table. */
  datatype Call =
    | Reload(fetched: Option<seq<Model>>)
    | Apply(model: Model, accepted: bool)
    | Remove(key: string)

  datatype State = State(snapshot: Snapshot, settings: Settings)

  function Initial(c: Catalog): State
    requires c.Valid()
  {
    State(map[], DefaultSettings(c))
  }

  function Step(c: Catalog, s: State, call: Call): State
    requires c.Valid()
  {
    match call
    case Reload(None) => s
    case Reload(Some(configs)) =>
      var next := FromConfigs(configs);
      State(next, Build(c, next))
    case Apply(model, accepted) =>
      var next := if accepted then s.snapshot[model.key := model] else s.snapshot;
      State(next, if accepted && IsAuditKey(model.key) then Build(c, next) else s.settings)
    case Remove(key) =>
      var next := s.snapshot - {key};
      State(next, if key in s.snapshot && IsAuditKey(key) then Build(c, next) else s.settings)
  }

  function Run(c: Catalog, s: State, calls: seq<Call>): State
    requires c.Valid()
  {
    if calls == [] then s
    else Step(c, Run(c, s, calls[..|calls| - 1]), calls[|calls| - 1])
  }

  ghost predicate Agrees(c: Catalog, s: State)
    requires c.Valid()
  {
    s.settings == Build(c, s.snapshot)
  }

  /** Every call keeps the cache equal to what the snapshot compiles to. */
  lemma StepAgrees(c: Catalog, s: State, call: Call)
    requires c.Valid() && Agrees(c, s)
    ensures Agrees(c, Step(c, s, call))
  {
    hide FromRaw, FromConfigs;
    match call
    case Reload(_) =>
    case Apply(model, accepted) =>
      OtherKeysDoNotMatter(c, s.snapshot, s.snapshot[model.key := model], model.key);
    case Remove(key) =>
      OtherKeysDoNotMatter(c, s.snapshot, s.snapshot - {key}, key);
      if key !in s.snapshot {
        assert s.snapshot - {key} == s.snapshot;
      }
  }

  lemma OtherKeysDoNotMatter(c: Catalog, s: Snapshot, t: Snapshot, key: string)
    requires c.Valid() && s - {key} == t - {key}
    ensures IsAuditKey(key) || Build(c, s) == Build(c, t)
  {
    hide FromRaw;
    forall k | k != key ensures Get(s, k) == Get(t, k) {
      assert k in s <==> k in s - {key};
      assert k in t <==> k in t - {key};
      if k in s {
        assert s[k] == (s - {key})[k] == (t - {key})[k] == t[k];
      }
    }
  }

  /** After any history of non-overlapping calls the cache agrees with the snapshot. */
  lemma {:induction false} HistoryAgrees(c: Catalog, calls: seq<Call>)
    requires c.Valid()
    ensures Agrees(c, Run(c, Initial(c), calls))
    decreases |calls|
  {
    hide Step, FoldBits, Ascending, Words, EnabledFrom;
    if calls == [] {
      InitialAgrees(c);
    } else {
      var n := |calls| - 1;
      HistoryAgrees(c, calls[..n]);
      StepAgrees(c, Run(c, Initial(c), calls[..n]), calls[n]);
    }
  }

  lemma InitialAgrees(c: Catalog)
    requires c.Valid()
    ensures Agrees(c, Initial(c))
  {
    hide FoldBits, Ascending, Words, ParseBoolLike;
    RuntimeActionsFit(c, None);
  }

  /** So each recording decision is the one the stored raw values call for. */
  lemma HistoryDecides(c: Catalog, calls: seq<Call>, action: nat)
    requires c.Valid() && action < |c.names|
    ensures var s := Run(c, Initial(c), calls);
            && |s.settings.mask| == Words(|c.names|)
            && (ShouldRecord(c, s.settings, action) <==>
                  && EnabledFrom(Get(s.snapshot, "audit_log_enabled"))
                  && !c.workspace[action]
                  && InScope(c, Get(s.snapshot, "audit_log_recorded_actions"), action))
  {
    hide Run, FromRaw, Words, ShouldRecord, InScope, EnabledFrom;
    HistoryAgrees(c, calls);
    var s := Run(c, Initial(c), calls);
    MaskRefinesSet(c, Get(s.snapshot, ENABLED_KEY), Get(s.snapshot, ACTIONS_KEY), action);
  }

  // ---- what the snapshot holds ------------------------------------------------

  /** Model number `i` is the last one with the key. */
  ghost predicate LastWith(configs: seq<Model>, k: string, i: nat) {
    i < |configs| && configs[i].key == k && forall j :: i < j < |configs| ==> configs[j].key != k
  }

  /** Of the fetched models with a key the last one counts. */
  lemma {:induction false} LastModelCounts(configs: seq<Model>, k: string, i: nat)
    requires LastWith(configs, k, i)
    ensures k in FromConfigs(configs) && FromConfigs(configs)[k] == configs[i]
    decreases |configs|
  {
    var n := |configs| - 1;
    if i < n {
      var init := configs[..n];
      assert forall j :: 0 <= j < n ==> init[j] == configs[j];
      LastModelCounts(init, k, i);
    }
  }

  /** A key is present exactly if some model has it. */
  lemma {:induction false} KeysOfModels(configs: seq<Model>, k: string)
    ensures k in FromConfigs(configs) <==> exists i :: 0 <= i < |configs| && configs[i].key == k
    decreases |configs|
  {
    if configs != [] {
      var n := |configs| - 1;
      KeysOfModels(configs[..n], k);
      assert configs == configs[..n] + [configs[n]];
    }
  }

  /** The calls that decide what is stored under a key. */
  predicate Concerns(call: Call, k: string) {
    match call
    case Reload(fetched) => fetched.Some?
    case Apply(model, accepted) => accepted && model.key == k
    case Remove(key) => key == k
  }

  /** Call number `n` is the last one that concerns the key. */
  ghost predicate LastConcern(calls: seq<Call>, k: string, n: nat) {
    n < |calls| && Concerns(calls[n], k) && forall j :: n < j < |calls| ==> !Concerns(calls[j], k)
  }

  ghost predicate NoConcern(calls: seq<Call>, k: string) {
    forall j :: 0 <= j < |calls| ==> !Concerns(calls[j], k)
  }

  /** What a call that concerns the key leaves there. */
  predicate Leaves(call: Call, k: string, stored: Option<string>)
    requires Concerns(call, k)
  {
    match call
    case Reload(fetched) => stored == Get(FromConfigs(fetched.value), k)
    case Apply(model, _) => stored == Some(model.value)
    case Remove(_) => stored == None
  }

  /** After any calls, what is stored under a key is decided by the last call that concerns it: a
      reload's last model with that key, an accepted model's value, or nothing behind a removal. */
  lemma {:induction false} LastCallDecides(c: Catalog, calls: seq<Call>, k: string, n: nat)
    requires c.Valid() && LastConcern(calls, k, n)
    ensures Leaves(calls[n], k, Get(Run(c, Initial(c), calls).snapshot, k))
    decreases |calls|
  {
    hide Step, DefaultSettings, Leaves, Concerns, Get;
    var m := |calls| - 1;
    var init := calls[..m];
    CallDecides(c, Run(c, Initial(c), init), calls[m], k);
    if n < m {
      assert forall j :: 0 <= j < m ==> init[j] == calls[j];
      LastCallDecides(c, init, k, n);
    }
  }

  /** Without such a call nothing is stored. */
  lemma {:induction false} NothingWithoutCall(c: Catalog, calls: seq<Call>, k: string)
    requires c.Valid() && NoConcern(calls, k)
    ensures Get(Run(c, Initial(c), calls).snapshot, k) == None
    decreases |calls|
  {
    hide Step, DefaultSettings, Leaves, Concerns;
    if calls != [] {
      var m := |calls| - 1;
      var init := calls[..m];
      assert forall j :: 0 <= j < m ==> init[j] == calls[j];
      NothingWithoutCall(c, init, k);
      CallDecides(c, Run(c, Initial(c), init), calls[m], k);
    }
  }

  /** One call stores what it is about and leaves every other key alone. */
  lemma CallDecides(c: Catalog, s: State, call: Call, k: string)
    requires c.Valid()
    ensures var stored := Get(Step(c, s, call).snapshot, k);
            if Concerns(call, k) then Leaves(call, k, stored) else stored == Get(s.snapshot, k)
  {
    hide FromRaw, FromConfigs;
  }

  /** The configuration object. */
  class RuntimeConfig {
    const catalog: Catalog
    var snapshot: Snapshot
    var settings: Settings

    ghost predicate Valid()
      reads this
    {
      catalog.Valid() && Agrees(catalog, State(snapshot, settings))
    }

    constructor (c: Catalog)
      requires c.Valid()
      ensures Valid() && catalog == c
      ensures snapshot == map[]
      ensures State(snapshot, settings) == Initial(c)
    {
      catalog := c;
      snapshot := map[];
      settings := DefaultSettings(c);
      InitialAgrees(c);
    }

    /** A failed read leaves everything as it was. */
    method Reload(fetched: Option<seq<Model>>) returns (ok: bool)
      requires Valid()
      modifies this
      ensures Valid() && ok == fetched.Some?
      ensures State(snapshot, settings) == Step(catalog, old(State(snapshot, settings)), Call.Reload(fetched))
      ensures !ok ==> snapshot == old(snapshot) && settings == old(settings)
      ensures ok ==> forall k :: k in snapshot <==> exists i :: 0 <= i < |fetched.value| && fetched.value[i].key == k
      ensures ok ==> forall i: nat :: i < |fetched.value| && LastWith(fetched.value, fetched.value[i].key, i) ==>
                fetched.value[i].key in snapshot && snapshot[fetched.value[i].key] == fetched.value[i]
    {
      hide FromRaw, FromConfigs;
      if fetched.None? { return false; }
      forall k: string
        ensures k in FromConfigs(fetched.value) <==> exists i :: 0 <= i < |fetched.value| && fetched.value[i].key == k
      {
        KeysOfModels(fetched.value, k);
      }
      forall i: nat | i < |fetched.value| && LastWith(fetched.value, fetched.value[i].key, i)
        ensures fetched.value[i].key in FromConfigs(fetched.value)
             && FromConfigs(fetched.value)[fetched.value[i].key] == fetched.value[i]
      {
        LastModelCounts(fetched.value, fetched.value[i].key, i);
      }
      var next := FromConfigs(fetched.value);
      var built := Build(catalog, next);
      snapshot := next;
      settings := built;
      return true;
    }

    method Apply(model: Model, accepted: bool)
      requires Valid()
      modifies this
      ensures Valid()
      ensures State(snapshot, settings) == Step(catalog, old(State(snapshot, settings)), Call.Apply(model, accepted))
      ensures accepted ==> model.key in snapshot && snapshot[model.key] == model
      ensures accepted ==> snapshot - {model.key} == old(snapshot) - {model.key}
      ensures !accepted ==> snapshot == old(snapshot)
    {
      hide FromRaw, FromConfigs;
      StepAgrees(catalog, State(snapshot, settings), Call.Apply(model, accepted));
      if accepted {
        snapshot := snapshot[model.key := model];
        if IsAuditKey(model.key) {
          settings := Build(catalog, snapshot);
        }
      }
    }

    method Remove(key: string)
      requires Valid()
      modifies this
      ensures Valid()
      ensures State(snapshot, settings) == Step(catalog, old(State(snapshot, settings)), Call.Remove(key))
      ensures key !in snapshot && snapshot == old(snapshot) - {key}
    {
      hide FromRaw, FromConfigs;
      StepAgrees(catalog, State(snapshot, settings), Call.Remove(key));
      var removed := key in snapshot;
      snapshot := snapshot - {key};
      if removed && IsAuditKey(key) {
        settings := Build(catalog, snapshot);
      }
    }

    method ShouldRecordAuditAction(action: nat) returns (r: bool)
      requires Valid() && action < |catalog.names|
      ensures r <==>
              && EnabledFrom(Get(snapshot, "audit_log_enabled"))
              && !catalog.workspace[action]
              && InScope(catalog, Get(snapshot, "audit_log_recorded_actions"), action)
    {
      hide FromRaw, Words, InScope, EnabledFrom;
      MaskRefinesSet(catalog, Get(snapshot, ENABLED_KEY), Get(snapshot, ACTIONS_KEY), action);
      return ShouldRecord(catalog, settings, action);
    }
  }
}
