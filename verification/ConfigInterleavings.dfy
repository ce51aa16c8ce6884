/** Concurrent `reload`, `apply` and `remove` calls, split into their atomic actions: the
    snapshot update, the read of the snapshot and the store of the settings are separate. */
module ConfigInterleavings {
  import opened Text
  import opened AuditScope
  import opened RuntimeConfigs

  /** Where a thread stands in its call. `own` is the position of the snapshot it installed,
      `from` that of the snapshot its settings were built from. */
  datatype Thread =
    | Idle
    | Fetched(next: Snapshot, built: Settings)
    | Installed(own: nat, built: Settings)
    | Changed(own: nat)
    | Rebuilt(own: nat, from: nat, built: Settings)

  /** `log` holds every snapshot that was ever current, the last one being current; the
      cached settings were built from the snapshot at position `source`. */
  datatype System = System(log: seq<Snapshot>, settings: Settings, source: nat, threads: seq<Thread>)

  /** The atomic actions. */
  datatype Event =
    | Fetch(configs: seq<Model>)
    | Replace
    | Update(model: Model, accepted: bool)
    | Delete(key: string)
    | Rebuild
    | Store

  function Start(c: Catalog, threads: nat): System
    requires c.Valid()
  {
    System([map[]], DefaultSettings(c), 0, seq(threads, _ => Idle))
  }

  /** The state after a thread installed a snapshot. */
  function Install(s: System, t: nat, next: Snapshot, thread: Thread): System
    requires t < |s.threads|
  {
    s.(log := s.log + [next], threads := s.threads[t := thread])
  }

  /** One action of one thread, if that thread is at a point to take it. */
  function Fire(c: Catalog, s: System, t: nat, e: Event): (r: Option<System>)
    requires c.Valid() && s.log != []
    ensures r.Some? ==> s.log <= r.value.log && |r.value.threads| == |s.threads|
  {
    if t >= |s.threads| then None
    else
      var current := s.log[|s.log| - 1];
      match (s.threads[t], e)
      case (Idle, Fetch(configs)) =>
        var next := FromConfigs(configs);
        Some(s.(threads := s.threads[t := Fetched(next, Build(c, next))]))
      case (Fetched(next, built), Replace) =>
        Some(Install(s, t, next, Installed(|s.log|, built)))
      case (Idle, Update(model, accepted)) =>
        if !accepted then Some(s)
        else Some(Install(s, t, current[model.key := model],
                          if IsAuditKey(model.key) then Changed(|s.log|) else Idle))
      case (Idle, Delete(key)) =>
        if key !in current then Some(s)
        else Some(Install(s, t, current - {key}, if IsAuditKey(key) then Changed(|s.log|) else Idle))
      case (Changed(own), Rebuild) =>
        Some(s.(threads := s.threads[t := Rebuilt(own, |s.log| - 1, Build(c, current))]))
      case (Installed(own, built), Store) =>
        Some(s.(settings := built, source := own, threads := s.threads[t := Idle]))
      case (Rebuilt(own, from, built), Store) =>
        Some(s.(settings := built, source := from, threads := s.threads[t := Idle]))
      case _ => None
  }

  /** What every thread carries was built from one snapshot that was really installed, or is
      about to be, no older than the thread's own change. */
  ghost predicate ThreadInv(c: Catalog, log: seq<Snapshot>, th: Thread)
    requires c.Valid()
  {
    match th
    case Idle => true
    case Fetched(next, built) => built == Build(c, next)
    case Installed(own, built) => own < |log| && built == Build(c, log[own])
    case Changed(own) => own < |log|
    case Rebuilt(own, from, built) => own <= from < |log| && built == Build(c, log[from])
  }

  /** No tearing: the cached settings are those of one installed snapshot. */
  ghost predicate NotTorn(c: Catalog, s: System)
    requires c.Valid()
  {
    s.source < |s.log| && s.settings == Build(c, s.log[s.source])
  }

  ghost predicate Inv(c: Catalog, s: System)
    requires c.Valid()
  {
    && NotTorn(c, s)
    && (forall t :: 0 <= t < |s.threads| ==> ThreadInv(c, s.log, s.threads[t]))
  }

  lemma FireKeepsInv(c: Catalog, s: System, t: nat, e: Event)
    requires c.Valid() && s.log != [] && Inv(c, s) && Fire(c, s, t, e).Some?
    ensures Inv(c, Fire(c, s, t, e).value)
    ensures s.log <= Fire(c, s, t, e).value.log
  {
    hide Build, FromConfigs;
    var s' := Fire(c, s, t, e).value;
    assert forall i :: 0 <= i < |s.log| ==> s'.log[i] == s.log[i];
    forall u | 0 <= u < |s'.threads| ensures ThreadInv(c, s'.log, s'.threads[u]) {
      assert ThreadInv(c, s.log, s.threads[u]);
    }
  }

  /** A schedule names at each step a thread and the action it takes. */
  type Schedule = seq<(nat, Event)>

  function Exec(c: Catalog, s: System, schedule: Schedule): (r: Option<System>)
    requires c.Valid() && s.log != []
    ensures r.Some? ==> s.log <= r.value.log && |r.value.threads| == |s.threads|
    decreases |schedule|
  {
    if schedule == [] then Some(s)
    else
      var (t, e) := schedule[0];
      match Fire(c, s, t, e)
      case None => None
      case Some(s') => Exec(c, s', schedule[1..])
  }

  /** In every interleaving of any number of calls by any number of threads the cached
      settings are those of one single snapshot that was really installed. */
  lemma {:induction false} NeverTorn(c: Catalog, s: System, schedule: Schedule)
    requires c.Valid() && s.log != [] && Inv(c, s) && Exec(c, s, schedule).Some?
    ensures Inv(c, Exec(c, s, schedule).value)
    ensures s.log <= Exec(c, s, schedule).value.log
    decreases |schedule|
  {
    hide Fire, Build, Inv;
    if schedule != [] {
      var (t, e) := schedule[0];
      var s' := Fire(c, s, t, e).value;
      FireKeepsInv(c, s, t, e);
      NeverTorn(c, s', schedule[1..]);
    }
  }

  lemma StartInv(c: Catalog, threads: nat)
    requires c.Valid()
    ensures Inv(c, Start(c, threads))
  {
    hide Build, DefaultSettings;
    InitialAgrees(c);
  }

  lemma EveryInterleavingIsWhole(c: Catalog, threads: nat, schedule: Schedule)
    requires c.Valid() && Exec(c, Start(c, threads), schedule).Some?
    ensures var s := Exec(c, Start(c, threads), schedule).value;
            exists k :: 0 <= k < |s.log| && s.settings == Build(c, s.log[k])
  {
    hide Exec, Build;
    StartInv(c, threads);
    NeverTorn(c, Start(c, threads), schedule);
  }

  /** A call that stores settings leaves the cache no older than its own change. */
  lemma StoreIsNoOlder(c: Catalog, s: System, t: nat)
    requires c.Valid() && s.log != [] && Inv(c, s) && t < |s.threads|
    requires s.threads[t].Installed? || s.threads[t].Rebuilt?
    ensures Fire(c, s, t, Store).Some?
    ensures s.threads[t].own <= Fire(c, s, t, Store).value.source
  {
    hide Build;
    assert ThreadInv(c, s.log, s.threads[t]);
  }

  // ---- when the cache is current --------------------------------------------

  lemma {:induction false} ExecSplits(c: Catalog, s: System, a: Schedule, b: Schedule)
    requires c.Valid() && s.log != []
    ensures Exec(c, s, a + b) == match Exec(c, s, a) case None => None case Some(s') => Exec(c, s', b)
    decreases |a|
  {
    hide Fire;
    if a == [] {
      assert a + b == b;
    } else {
      assert (a + b)[1..] == a[1..] + b;
      var (t, e) := a[0];
      if Fire(c, s, t, e).Some? {
        ExecSplits(c, Fire(c, s, t, e).value, a[1..], b);
      }
    }
  }

  predicate SameAudit(s: Snapshot, t: Snapshot) {
    Get(s, ENABLED_KEY) == Get(t, ENABLED_KEY) && Get(s, ACTIONS_KEY) == Get(t, ACTIONS_KEY)
  }

  /** From position `k` on no install changed the raw value of an audit key. */
  ghost predicate AuditQuiet(log: seq<Snapshot>, k: nat) {
    k < |log| && forall j :: k <= j < |log| ==> SameAudit(log[k], log[j])
  }

  lemma QuietSnoc(log: seq<Snapshot>, k: nat, next: Snapshot)
    requires AuditQuiet(log, k) && SameAudit(log[|log| - 1], next)
    ensures AuditQuiet(log + [next], k)
  {
    hide Get;
  }

  lemma SameAuditBuilds(c: Catalog, s: Snapshot, t: Snapshot)
    requires c.Valid() && SameAudit(s, t)
    ensures Build(c, s) == Build(c, t)
  {
    hide FromRaw, Get;
  }

  /** The exact condition, over every schedule: the cache is current if and only if the snapshot
      it was built from and the current one compile to the same settings; in particular, if no
      install changed an audit key since. */
  lemma CurrentExactly(c: Catalog, threads: nat, schedule: Schedule)
    requires c.Valid() && Exec(c, Start(c, threads), schedule).Some?
    ensures var r := Exec(c, Start(c, threads), schedule).value;
            var last := r.log[|r.log| - 1];
            && r.source < |r.log|
            && (r.settings == Build(c, last) <==> Build(c, r.log[r.source]) == Build(c, last))
            && (AuditQuiet(r.log, r.source) ==> r.settings == Build(c, last))
  {
    hide Exec, Build, AuditQuiet, DefaultSettings, ThreadInv;
    StartInv(c, threads);
    NeverTorn(c, Start(c, threads), schedule);
    var r := Exec(c, Start(c, threads), schedule).value;
    if AuditQuiet(r.log, r.source) {
      QuietIsCurrent(c, r);
    }
  }

  lemma QuietIsCurrent(c: Catalog, r: System)
    requires c.Valid() && NotTorn(c, r) && AuditQuiet(r.log, r.source)
    ensures r.settings == Build(c, r.log[|r.log| - 1])
  {
    hide Build, SameAudit;
    SameAuditBuilds(c, r.log[r.source], r.log[|r.log| - 1]);
  }

  /** What the raw values of a snapshot call for. */
  predicate Called(c: Catalog, s: Snapshot, action: nat)
    requires c.Valid() && action < |c.names|
  {
    EnabledFrom(Get(s, ENABLED_KEY)) && !c.workspace[action] && InScope(c, Get(s, ACTIONS_KEY), action)
  }

  /** And action by action: the cache answers what the raw values at its source call for. */
  lemma CacheDecides(c: Catalog, threads: nat, schedule: Schedule, action: nat)
    requires c.Valid() && Exec(c, Start(c, threads), schedule).Some? && action < |c.names|
    ensures var r := Exec(c, Start(c, threads), schedule).value;
            && r.source < |r.log| && |r.settings.mask| == Words(|c.names|)
            && (ShouldRecord(c, r.settings, action) <==> Called(c, r.log[r.source], action))
  {
    hide Exec, FromRaw, ShouldRecord, InScope, EnabledFrom, Words;
    StartInv(c, threads);
    NeverTorn(c, Start(c, threads), schedule);
    var r := Exec(c, Start(c, threads), schedule).value;
    var from := r.log[r.source];
    MaskRefinesSet(c, Get(from, ENABLED_KEY), Get(from, ACTIONS_KEY), action);
  }

  /** Staleness in raw values: over every schedule the cached decision on an action is not the one
      the current settings would give if and only if the raw values at the cache's source and
      those of the current snapshot call for different decisions. */
  lemma StaleExactly(c: Catalog, threads: nat, schedule: Schedule, action: nat)
    requires c.Valid() && Exec(c, Start(c, threads), schedule).Some? && action < |c.names|
    ensures var r := Exec(c, Start(c, threads), schedule).value;
            var last := r.log[|r.log| - 1];
            && r.source < |r.log|
            && |r.settings.mask| == |Build(c, last).mask| == Words(|c.names|)
            && (ShouldRecord(c, r.settings, action) != ShouldRecord(c, Build(c, last), action)
                <==> Called(c, r.log[r.source], action) != Called(c, last, action))
  {
    hide Exec, FromRaw, ShouldRecord, InScope, EnabledFrom, Words, DefaultSettings;
    CacheDecides(c, threads, schedule, action);
    var r := Exec(c, Start(c, threads), schedule).value;
    var last := r.log[|r.log| - 1];
    MaskRefinesSet(c, Get(last, ENABLED_KEY), Get(last, ACTIONS_KEY), action);
  }

  // ---- which snapshot that is -------------------------------------------------

  predicate NoStore(schedule: Schedule) {
    forall i :: 0 <= i < |schedule| ==> schedule[i].1 != Store
  }

  predicate NotBy(schedule: Schedule, t: nat) {
    forall i :: 0 <= i < |schedule| ==> schedule[i].0 != t
  }

  lemma {:induction false} NoStoreKeepsCache(c: Catalog, s: System, schedule: Schedule)
    requires c.Valid() && s.log != [] && NoStore(schedule) && Exec(c, s, schedule).Some?
    ensures var r := Exec(c, s, schedule).value; r.source == s.source && r.settings == s.settings
    decreases |schedule|
  {
    hide Build, FromConfigs;
    if schedule != [] {
      var (t, e) := schedule[0];
      assert e != Store;
      NoStoreKeepsCache(c, Fire(c, s, t, e).value, schedule[1..]);
    }
  }

  lemma {:induction false} OthersKeepThread(c: Catalog, s: System, schedule: Schedule, t: nat)
    requires c.Valid() && s.log != [] && NotBy(schedule, t) && Exec(c, s, schedule).Some? && t < |s.threads|
    ensures Exec(c, s, schedule).value.threads[t] == s.threads[t]
    decreases |schedule|
  {
    hide Build, FromConfigs;
    if schedule != [] {
      var (u, e) := schedule[0];
      assert u != t;
      OthersKeepThread(c, Fire(c, s, u, e).value, schedule[1..], t);
    }
  }

  /** The source is the snapshot that was current when the thread of the last store read it: at
      its rebuild, or at its own replacement for a reload. */
  lemma SourceIsLastRead(c: Catalog, s: System, t: nat, read: Event, mid: Schedule, post: Schedule)
    requires c.Valid() && s.log != [] && (read == Rebuild || read == Replace)
    requires NotBy(mid, t) && NoStore(post)
    requires Exec(c, s, [(t, read)] + (mid + ([(t, Store)] + post))).Some?
    ensures Fire(c, s, t, read).Some?
    ensures Exec(c, s, [(t, read)] + (mid + ([(t, Store)] + post))).value.source ==
            |Fire(c, s, t, read).value.log| - 1
  {
    hide Fire, Build, FromConfigs;
    ExecOne(c, s, t, read, mid + ([(t, Store)] + post));
    var s1 := Fire(c, s, t, read).value;
    ReadMarks(c, s, t, read);
    ExecSplits(c, s1, mid, [(t, Store)] + post);
    var s2 := Exec(c, s1, mid).value;
    OthersKeepThread(c, s1, mid, t);
    ExecOne(c, s2, t, Store, post);
    StoreMarks(c, s2, t);
    NoStoreKeepsCache(c, Fire(c, s2, t, Store).value, post);
  }

  /** From a new configuration: let `t` read after `pre` and make the last store. The cache is
      current if and only if the snapshot `t` read compiles to the current settings, and it is if
      no install behind that read changed an audit key. */
  lemma LastStoreDecides(c: Catalog, threads: nat, pre: Schedule, t: nat, read: Event, mid: Schedule, post: Schedule)
    requires c.Valid() && (read == Rebuild || read == Replace) && NotBy(mid, t) && NoStore(post)
    requires Exec(c, Start(c, threads), pre + ([(t, read)] + (mid + ([(t, Store)] + post)))).Some?
    ensures Exec(c, Start(c, threads), pre + [(t, read)]).Some?
    ensures var r := Exec(c, Start(c, threads), pre + ([(t, read)] + (mid + ([(t, Store)] + post)))).value;
            var k := |Exec(c, Start(c, threads), pre + [(t, read)]).value.log| - 1;
            var last := r.log[|r.log| - 1];
            && k < |r.log|
            && (r.settings == Build(c, last) <==> Build(c, r.log[k]) == Build(c, last))
            && (AuditQuiet(r.log, k) ==> r.settings == Build(c, last))
  {
    hide Exec, Build, AuditQuiet, DefaultSettings, Fire;
    var s0 := Start(c, threads);
    var rest := [(t, read)] + (mid + ([(t, Store)] + post));
    ExecSplits(c, s0, pre, rest);
    var s := Exec(c, s0, pre).value;
    SourceIsLastRead(c, s, t, read, mid, post);
    ExecSplits(c, s0, pre, [(t, read)]);
    assert [(t, read)] == [(t, read)] + [];
    ExecOne(c, s, t, read, []);
    ExecNone(c, Fire(c, s, t, read).value);
    CurrentExactly(c, threads, pre + rest);
  }

  /** Every schedule that can be run and has a store is of that shape. */
  lemma LastStoreShape(c: Catalog, threads: nat, schedule: Schedule)
      returns (pre: Schedule, t: nat, read: Event, mid: Schedule, post: Schedule)
    requires c.Valid() && Exec(c, Start(c, threads), schedule).Some? && !NoStore(schedule)
    ensures schedule == pre + ([(t, read)] + (mid + ([(t, Store)] + post)))
    ensures (read == Rebuild || read == Replace) && NotBy(mid, t) && NoStore(post)
  {
    hide Exec, Fire, DefaultSettings;
    var n := LastStore(schedule);
    var front := schedule[..n];
    t, post := schedule[n].0, schedule[n + 1..];
    assert schedule == front + ([(t, Store)] + post);
    ExecSplits(c, Start(c, threads), front, [(t, Store)] + post);
    var s := Exec(c, Start(c, threads), front).value;
    StoreWasPending(c, s, t, post);
    pre, read, mid := ReadBeforeStore(c, threads, front, t);
  }

  lemma {:induction false} LastStore(schedule: Schedule) returns (n: nat)
    requires !NoStore(schedule)
    ensures n < |schedule| && schedule[n].1 == Store && NoStore(schedule[n + 1..])
    decreases |schedule|
  {
    var k := |schedule| - 1;
    if schedule[k].1 == Store {
      n := k;
    } else {
      assert schedule == schedule[..k] + [schedule[k]];
      n := LastStore(schedule[..k]);
      assert schedule[n + 1..] == schedule[..k][n + 1..] + [schedule[k]];
    }
  }

  lemma StoreWasPending(c: Catalog, s: System, t: nat, post: Schedule)
    requires c.Valid() && s.log != [] && Exec(c, s, [(t, Store)] + post).Some?
    ensures t < |s.threads| && Pending(s.threads[t]).Some?
  {
    hide Build, FromConfigs;
    assert ([(t, Store)] + post)[0] == (t, Store);
    assert Fire(c, s, t, Store).Some?;
  }

  /** A thread that is about to store has read, and did nothing since. */
  lemma {:induction false} ReadBeforeStore(c: Catalog, threads: nat, front: Schedule, t: nat)
      returns (pre: Schedule, read: Event, mid: Schedule)
    requires c.Valid() && Exec(c, Start(c, threads), front).Some? && t < threads
    requires Pending(Exec(c, Start(c, threads), front).value.threads[t]).Some?
    ensures front == pre + ([(t, read)] + mid) && (read == Rebuild || read == Replace) && NotBy(mid, t)
    decreases |front|
  {
    hide Fire, DefaultSettings;
    assert front != [];
    var n := |front| - 1;
    var init := front[..n];
    var (u, e) := front[n];
    assert front == init + [(u, e)] && [(u, e)] == [(u, e)] + [];
    ExecSplits(c, Start(c, threads), init, [(u, e)]);
    var s := Exec(c, Start(c, threads), init).value;
    ExecFires(c, s, u, e);
    PendingFrom(c, s, u, e, t);
    if u == t {
      pre, read, mid := init, e, [];
    } else {
      pre, read, mid := ReadBeforeStore(c, threads, init, t);
      mid := mid + [(u, e)];
      assert front == pre + ([(t, read)] + mid);
    }
  }

  lemma ExecFires(c: Catalog, s: System, u: nat, e: Event)
    requires c.Valid() && s.log != []
    ensures Exec(c, s, [(u, e)]) == Fire(c, s, u, e)
  {
    hide Fire;
    if Fire(c, s, u, e).Some? {
      assert [(u, e)][1..] == [];
      ExecNone(c, Fire(c, s, u, e).value);
    }
  }

  /** A thread comes to a store only by reading; others leave it where it is. */
  lemma PendingFrom(c: Catalog, s: System, u: nat, e: Event, t: nat)
    requires c.Valid() && s.log != [] && t < |s.threads| && Fire(c, s, u, e).Some?
    requires Pending(Fire(c, s, u, e).value.threads[t]).Some?
    ensures if u == t then e == Rebuild || e == Replace else Pending(s.threads[t]).Some?
  {
    hide Build, FromConfigs;
  }

  lemma ReadMarks(c: Catalog, s: System, t: nat, read: Event)
    requires c.Valid() && s.log != [] && (read == Rebuild || read == Replace) && Fire(c, s, t, read).Some?
    ensures var s1 := Fire(c, s, t, read).value;
            t < |s1.threads| && Pending(s1.threads[t]) == Some(|s1.log| - 1)
  {
    hide Build, FromConfigs;
  }

  /** The position of the snapshot a thread is about to store the settings of. */
  function Pending(th: Thread): Option<nat> {
    match th
    case Installed(own, _) => Some(own)
    case Rebuilt(_, from, _) => Some(from)
    case _ => None
  }

  lemma StoreMarks(c: Catalog, s: System, t: nat)
    requires c.Valid() && s.log != [] && t < |s.threads| && Pending(s.threads[t]).Some?
    ensures Fire(c, s, t, Store).Some?
    ensures Some(Fire(c, s, t, Store).value.source) == Pending(s.threads[t])
  {
    hide Build, FromConfigs;
  }

  /** Without any store the source is the empty snapshot of the beginning. */
  lemma SourceWithoutStore(c: Catalog, threads: nat, schedule: Schedule)
    requires c.Valid() && NoStore(schedule) && Exec(c, Start(c, threads), schedule).Some?
    ensures Exec(c, Start(c, threads), schedule).value.source == 0
  {
    hide Exec, DefaultSettings;
    NoStoreKeepsCache(c, Start(c, threads), schedule);
  }

  /** A call that changes an audit key or reloads, in its three actions. */
  predicate Refreshes(s: System, e: Event)
    requires s.log != []
  {
    match e
    case Fetch(_) => true
    case Update(model, accepted) => accepted && IsAuditKey(model.key)
    case Delete(key) => key in s.log[|s.log| - 1] && IsAuditKey(key)
    case _ => false
  }

  function CallOf(t: nat, e: Event): Schedule {
    [(t, e), (t, if e.Fetch? then Replace else Rebuild), (t, Store)]
  }

  /** Such a call that runs alone to its store leaves the cache current, whatever came before. */
  lemma CallAloneRepairs(c: Catalog, threads: nat, pre: Schedule, t: nat, e: Event)
    requires c.Valid() && Exec(c, Start(c, threads), pre).Some?
    requires var s := Exec(c, Start(c, threads), pre).value;
             t < |s.threads| && s.threads[t].Idle? && Refreshes(s, e)
    ensures Exec(c, Start(c, threads), pre + CallOf(t, e)).Some?
    ensures var r := Exec(c, Start(c, threads), pre + CallOf(t, e)).value;
            r.settings == Build(c, r.log[|r.log| - 1])
  {
    hide Exec, Build, FromConfigs, DefaultSettings, Refreshes;
    var s := Exec(c, Start(c, threads), pre).value;
    ExecSplits(c, Start(c, threads), pre, CallOf(t, e));
    CallAlone(c, s, t, e);
  }

  lemma CallAlone(c: Catalog, s: System, t: nat, e: Event)
    requires c.Valid() && s.log != [] && t < |s.threads| && s.threads[t].Idle? && Refreshes(s, e)
    ensures Exec(c, s, CallOf(t, e)).Some?
    ensures var r := Exec(c, s, CallOf(t, e)).value; r.settings == Build(c, r.log[|r.log| - 1])
  {
    hide Exec, Build, FromConfigs;
    var read := if e.Fetch? then Replace else Rebuild;
    var s1 := Fire(c, s, t, e).value;
    var s2 := Fire(c, s1, t, read).value;
    var s3 := Fire(c, s2, t, Store).value;
    var r2: Schedule := [(t, Store)];
    var r1 := [(t, read)] + r2;
    assert CallOf(t, e) == [(t, e)] + r1 && r2 == [(t, Store)] + [];
    ExecOne(c, s, t, e, r1);
    ExecOne(c, s1, t, read, r2);
    ExecOne(c, s2, t, Store, []);
    ExecNone(c, s3);
  }

  // ---- calls that do not overlap --------------------------------------------

  ghost predicate AllIdle(s: System) {
    forall t :: 0 <= t < |s.threads| ==> s.threads[t].Idle?
  }

  /** At most one thread is inside a call. */
  ghost predicate Solo(s: System) {
    forall t, u :: 0 <= t < u < |s.threads| ==> s.threads[t].Idle? || s.threads[u].Idle?
  }

  /** A call starts only when no other is running. */
  ghost predicate SoloSchedule(c: Catalog, s: System, schedule: Schedule)
    requires c.Valid() && s.log != []
    decreases |schedule|
  {
    && Solo(s)
    && (schedule != [] ==>
          var (t, e) := schedule[0];
          match Fire(c, s, t, e)
          case None => true
          case Some(s') => SoloSchedule(c, s', schedule[1..]))
  }

  /** No audit key changed since the snapshot the cache, or the one running call, was built from. */
  ghost predicate QuietSoon(s: System) {
    && (forall t :: 0 <= t < |s.threads| ==>
          match s.threads[t]
          case Idle => true
          case Fetched(_, _) => AuditQuiet(s.log, s.source)
          case Installed(own, _) => AuditQuiet(s.log, own)
          case Changed(_) => true
          case Rebuilt(_, from, _) => AuditQuiet(s.log, from))
    && (AllIdle(s) ==> AuditQuiet(s.log, s.source))
  }

  lemma OtherKeysSameAudit(s: Snapshot, t: Snapshot, key: string)
    requires s - {key} == t - {key} && !IsAuditKey(key)
    ensures SameAudit(s, t)
  {
    forall k | k != key ensures Get(s, k) == Get(t, k) {
      assert k in s <==> k in s - {key};
      assert k in t <==> k in t - {key};
      if k in s {
        assert s[k] == (s - {key})[k] == (t - {key})[k] == t[k];
      }
    }
  }

  /** An install that changes no audit key keeps what is quiet. */
  lemma InstallKeepsQuiet(s: System, t: nat, next: Snapshot)
    requires s.log != [] && t < |s.threads| && s.threads[t].Idle? && QuietSoon(s)
    requires SameAudit(s.log[|s.log| - 1], next)
    ensures QuietSoon(Install(s, t, next, Idle))
  {
    hide AuditQuiet, SameAudit;
    var s' := Install(s, t, next, Idle);
    assert s'.threads == s.threads;
    forall k | AuditQuiet(s.log, k) ensures AuditQuiet(s'.log, k) {
      QuietSnoc(s.log, k, next);
    }
  }

  lemma FireKeepsQuiet(c: Catalog, s: System, t: nat, e: Event)
    requires c.Valid() && s.log != [] && QuietSoon(s) && Fire(c, s, t, e).Some?
    requires Solo(s) && Solo(Fire(c, s, t, e).value)
    ensures QuietSoon(Fire(c, s, t, e).value)
  {
    hide Build, FromConfigs, SameAudit, Get;
    var s' := Fire(c, s, t, e).value;
    var current := s.log[|s.log| - 1];
    assert forall u :: 0 <= u < |s.threads| && u != t ==> s'.threads[u] == s.threads[u];
    if e.Update? && e.accepted && !IsAuditKey(e.model.key) {
      OtherKeysSameAudit(current, current[e.model.key := e.model], e.model.key);
      InstallKeepsQuiet(s, t, current[e.model.key := e.model]);
    } else if e.Delete? && e.key in current && !IsAuditKey(e.key) {
      OtherKeysSameAudit(current, current - {e.key}, e.key);
      InstallKeepsQuiet(s, t, current - {e.key});
    } else if e.Update? || e.Delete? {
      assert s' == s || s'.threads[t].Changed?;
    } else {
      NewestIsQuiet(s'.log);
      if e.Fetch? {
        OthersIdle(s', t);
        assert AllIdle(s);
      }
      assert s'.threads[t].Idle? ==> AuditQuiet(s'.log, s'.source);
    }
  }

  lemma OthersIdle(s: System, t: nat)
    requires Solo(s) && t < |s.threads| && !s.threads[t].Idle?
    ensures forall u :: 0 <= u < |s.threads| && u != t ==> s.threads[u].Idle?
  {
    forall u | 0 <= u < |s.threads| && u != t ensures s.threads[u].Idle? {
      var x, y := s.threads[t], s.threads[u];
      if u < t {
        assert y.Idle? || x.Idle?;
      }
    }
  }

  lemma NewestIsQuiet(log: seq<Snapshot>)
    requires log != []
    ensures AuditQuiet(log, |log| - 1)
  {
  }

  lemma {:induction false} SoloStaysQuiet(c: Catalog, s: System, schedule: Schedule)
    requires c.Valid() && s.log != [] && QuietSoon(s)
    requires Exec(c, s, schedule).Some? && SoloSchedule(c, s, schedule)
    ensures QuietSoon(Exec(c, s, schedule).value)
    decreases |schedule|
  {
    hide Fire, QuietSoon;
    if schedule != [] {
      var (t, e) := schedule[0];
      var s' := Fire(c, s, t, e).value;
      assert Solo(s') by { assert SoloSchedule(c, s', schedule[1..]); }
      FireKeepsQuiet(c, s, t, e);
      SoloStaysQuiet(c, s', schedule[1..]);
    }
  }

  /** So calls that do not overlap leave the cache current whenever none is running. */
  lemma NonOverlappingFromStart(c: Catalog, threads: nat, schedule: Schedule)
    requires c.Valid() && Exec(c, Start(c, threads), schedule).Some? && SoloSchedule(c, Start(c, threads), schedule)
    ensures var r := Exec(c, Start(c, threads), schedule).value;
            AllIdle(r) ==> AuditQuiet(r.log, r.source) && r.settings == Build(c, r.log[|r.log| - 1])
  {
    hide Exec, SoloSchedule, Build, DefaultSettings, AuditQuiet;
    NewestIsQuiet([map[]]);
    SoloStaysQuiet(c, Start(c, threads), schedule);
    CurrentExactly(c, threads, schedule);
  }

  // ---- overlapping calls ----------------------------------------------------

  lemma ExecOne(c: Catalog, s: System, t: nat, e: Event, rest: Schedule)
    requires c.Valid() && s.log != [] && Fire(c, s, t, e).Some? && Fire(c, s, t, e).value.log != []
    ensures Exec(c, s, [(t, e)] + rest) == Exec(c, Fire(c, s, t, e).value, rest)
  {
    hide Fire;
    assert ([(t, e)] + rest)[1..] == rest;
  }

  lemma SwitchReads(c: Catalog, s: Snapshot)
    requires c.Valid()
    ensures !Build(c, s[ENABLED_KEY := Model(ENABLED_KEY, "false")]).enabled
    ensures Build(c, s[ENABLED_KEY := Model(ENABLED_KEY, "true")]).enabled
  {
    hide FoldBits, RuntimeActions, Words;
    TrimIdentity("false");
    TrimIdentity("true");
    assert LowerAll("false") == "false" && LowerAll("true") == "true";
  }

  /** Overlapping calls can leave the cache stale after all of them have returned: two
      threads switch the log off and on, and the later switch is stored first. */
  lemma OverlapCanLeaveStale(c: Catalog) returns (schedule: Schedule, end: System)
    requires c.Valid()
    ensures Exec(c, Start(c, 2), schedule) == Some(end)
    ensures AllIdle(end) && end.log != []
    ensures end.settings != Build(c, end.log[|end.log| - 1])
  {
    hide Build, DefaultSettings, FromConfigs, Exec;
    var off, on := Model(ENABLED_KEY, "false"), Model(ENABLED_KEY, "true");
    var s0 := Start(c, 2);
    var s1 := Fire(c, s0, 0, Update(off, true)).value;
    var s2 := Fire(c, s1, 0, Rebuild).value;
    var s3 := Fire(c, s2, 1, Update(on, true)).value;
    var s4 := Fire(c, s3, 1, Rebuild).value;
    var s5 := Fire(c, s4, 1, Store).value;
    end := Fire(c, s5, 0, Store).value;
    var r6: Schedule := [];
    var r5: Schedule := [(0, Store)] + r6;
    var r4 := [(1, Store)] + r5;
    var r3 := [(1, Rebuild)] + r4;
    var r2 := [(1, Update(on, true))] + r3;
    var r1 := [(0, Rebuild)] + r2;
    schedule := [(0, Update(off, true))] + r1;
    ExecOne(c, s0, 0, Update(off, true), r1);
    ExecOne(c, s1, 0, Rebuild, r2);
    ExecOne(c, s2, 1, Update(on, true), r3);
    ExecOne(c, s3, 1, Rebuild, r4);
    ExecOne(c, s4, 1, Store, r5);
    ExecOne(c, s5, 0, Store, r6);
    ExecNone(c, end);
    SwitchReads(c, map[]);
    SwitchReads(c, s1.log[1]);
  }

  lemma ExecNone(c: Catalog, s: System)
    requires c.Valid() && s.log != []
    ensures Exec(c, s, []) == Some(s)
  {
  }

  // ---- calls one after the other, in both models ----------------------------------------

  /** The actions of a call that runs alone, behind a given snapshot. */
  function Actions(current: Snapshot, t: nat, call: Call): Schedule {
    match call
    case Reload(None) => []
    case Reload(Some(configs)) => [(t, Fetch(configs)), (t, Replace), (t, Store)]
    case Apply(model, accepted) =>
      [(t, Update(model, accepted))] + if accepted && IsAuditKey(model.key) then [(t, Rebuild), (t, Store)] else []
    case Remove(key) =>
      [(t, Delete(key))] + if key in current && IsAuditKey(key) then [(t, Rebuild), (t, Store)] else []
  }

  /** The actions of a call that runs alone do to snapshot and cache what the call does. */
  lemma AloneIsStep(c: Catalog, s: System, t: nat, call: Call)
    requires c.Valid() && s.log != [] && t < |s.threads| && s.threads[t].Idle?
    ensures var current := s.log[|s.log| - 1];
            var r := Exec(c, s, Actions(current, t, call));
            && r.Some? && r.value.threads == s.threads
            && State(r.value.log[|r.value.log| - 1], r.value.settings) ==
               RuntimeConfigs.Step(c, State(current, s.settings), call)
  {
    hide Exec, Build, FromConfigs;
    var current := s.log[|s.log| - 1];
    match call
    case Reload(None) => ExecNone(c, s);
    case Reload(Some(configs)) => ThreeActions(c, s, t, Fetch(configs), Replace);
    case Apply(model, accepted) =>
      ThreeActions(c, s, t, Update(model, accepted), Rebuild);
      OneAction(c, s, t, Update(model, accepted));
    case Remove(key) =>
      ThreeActions(c, s, t, Delete(key), Rebuild);
      OneAction(c, s, t, Delete(key));
      assert key !in current ==> current - {key} == current;
  }

  lemma OneAction(c: Catalog, s: System, t: nat, e: Event)
    requires c.Valid() && s.log != []
    ensures Exec(c, s, [(t, e)] + []) == Fire(c, s, t, e)
  {
    hide Fire;
    assert [(t, e)] + [] == [(t, e)];
    ExecFires(c, s, t, e);
  }

  lemma ThreeActions(c: Catalog, s: System, t: nat, e: Event, read: Event)
    requires c.Valid() && s.log != []
    ensures var s1 := Fire(c, s, t, e);
            s1.Some? ==>
              var s2 := Fire(c, s1.value, t, read);
              s2.Some? ==>
                var s3 := Fire(c, s2.value, t, Store);
                s3.Some? ==>
                  && Exec(c, s, [(t, e), (t, read), (t, Store)]) == s3
                  && Exec(c, s, [(t, e)] + [(t, read), (t, Store)]) == s3
  {
    hide Exec, Fire;
    var s1 := Fire(c, s, t, e);
    if s1.Some? {
      var s2 := Fire(c, s1.value, t, read);
      if s2.Some? {
        var s3 := Fire(c, s2.value, t, Store);
        if s3.Some? {
          var r2: Schedule := [(t, Store)];
          var r1 := [(t, read)] + r2;
          assert [(t, e), (t, read), (t, Store)] == [(t, e)] + r1 && [(t, read), (t, Store)] == r1;
          ExecOne(c, s, t, e, r1);
          ExecOne(c, s1.value, t, read, r2);
          ExecFires(c, s2.value, t, Store);
        }
      }
    }
  }
}
