/** The responsibilities of a serving process: its health over any run, and which task
    definitions its background components register. */
module Role {
  datatype ServeRole = All | Api | Worker {
    predicate ConsumesTasks() { !Api? }
  }

  datatype Status = Status(running: bool, ready: bool)

  /** What a consumer's status promises: it is ready only while it runs. */
  predicate Coherent(s: Status) { s.ready ==> s.running }

  datatype Health = Health(role: ServeRole, consumers: seq<Status>, cancelled: bool, initialized: bool) {
    predicate Staffed() { !role.ConsumesTasks() || consumers != [] }

    predicate Ready() {
      initialized && Staffed() && !cancelled && forall i :: 0 <= i < |consumers| ==> consumers[i].ready
    }

    predicate Live() {
      initialized && (cancelled || (Staffed() && forall i :: 0 <= i < |consumers| ==> consumers[i].running))
    }
  }

  datatype Event = Initialize | Cancel | Report(consumer: nat, status: Status)

  function Step(h: Health, e: Event): Health {
    match e
    case Initialize => h.(initialized := true)
    case Cancel => h.(cancelled := true)
    case Report(i, s) => if i < |h.consumers| then h.(consumers := h.consumers[i := s]) else h
  }

  function Run(h: Health, events: seq<Event>): Health {
    if events == [] then h else Step(Run(h, events[..|events| - 1]), events[|events| - 1])
  }

  /** A process as it is assembled: not initialised, not cancelled. */
  function Assembled(role: ServeRole, consumers: seq<Status>): Health {
    Health(role, consumers, false, false)
  }

  /** What consumer `i` reported last, or how it started. */
  function LastReport(start: Status, events: seq<Event>, i: nat): Status {
    if events == [] then start
    else
      var e := events[|events| - 1];
      if e.Report? && e.consumer == i then e.status else LastReport(start, events[..|events| - 1], i)
  }

  /** What a run amounts to: the flags say which events occurred, and each consumer shows its last report. */
  lemma {:induction false} RunMeaning(h: Health, events: seq<Event>)
    ensures var r := Run(h, events);
            && r.role == h.role && |r.consumers| == |h.consumers|
            && (r.initialized <==> h.initialized || Initialize in events)
            && (r.cancelled <==> h.cancelled || Cancel in events)
            && (forall i :: 0 <= i < |h.consumers| ==> r.consumers[i] == LastReport(h.consumers[i], events, i))
    decreases |events|
  {
    if events != [] {
      var init, e := events[..|events| - 1], events[|events| - 1];
      RunMeaning(h, init);
      assert events == init + [e];
    }
  }

  /** Readiness and liveness of any run from assembly, decided by its events alone. In
      particular nothing is ready before initialisation, cancellation ends readiness for
      good, and an initialised process stays live once cancelled. */
  lemma HealthOfRun(role: ServeRole, consumers: seq<Status>, events: seq<Event>)
    ensures var r := Run(Assembled(role, consumers), events);
            var staffed := role == All || role == Worker ==> consumers != [];
            && (r.Ready() <==>
                && Initialize in events && Cancel !in events && staffed
                && (forall i :: 0 <= i < |consumers| ==> LastReport(consumers[i], events, i).ready))
            && (r.Live() <==>
                && Initialize in events
                && (Cancel in events
                    || (staffed && forall i :: 0 <= i < |consumers| ==> LastReport(consumers[i], events, i).running)))
  {
    RunMeaning(Assembled(role, consumers), events);
  }

  lemma {:induction false} LastReportIsCoherent(start: Status, events: seq<Event>, i: nat)
    requires Coherent(start)
    requires forall k :: 0 <= k < |events| && events[k].Report? ==> Coherent(events[k].status)
    ensures Coherent(LastReport(start, events, i))
    decreases |events|
  {
    if events != [] { LastReportIsCoherent(start, events[..|events| - 1], i); }
  }

  /** If consumers are ready only while running, ready implies live after every run. */
  lemma ReadyImpliesLive(role: ServeRole, consumers: seq<Status>, events: seq<Event>)
    requires forall i :: 0 <= i < |consumers| ==> Coherent(consumers[i])
    requires forall k :: 0 <= k < |events| && events[k].Report? ==> Coherent(events[k].status)
    ensures var r := Run(Assembled(role, consumers), events); r.Ready() ==> r.Live()
  {
    HealthOfRun(role, consumers, events);
    forall i | 0 <= i < |consumers| ensures Coherent(LastReport(consumers[i], events, i)) {
      LastReportIsCoherent(consumers[i], events, i);
    }
  }

  // ---- task definitions ------------------------------------------------------------

  datatype Kind = TaskCleanup | BackgroundTaskDispatch | Other(name: string)

  datatype Component = BackgroundTasks | TaskConsumers | TaskScheduler {
    /** The component's definition filter. */
    predicate Accepts(k: Kind) {
      match this
      case BackgroundTasks => k == TaskCleanup
      case TaskConsumers => k == BackgroundTaskDispatch
      case TaskScheduler => !(k.BackgroundTaskDispatch? || k.TaskCleanup?)
    }
  }

  function Components(role: ServeRole): seq<Component> {
    [BackgroundTasks] + if role.ConsumesTasks() then [TaskConsumers, TaskScheduler] else []
  }

  function Filtered(c: Component, catalogue: seq<Kind>): seq<Kind> {
    if catalogue == [] then []
    else (if c.Accepts(catalogue[0]) then [catalogue[0]] else []) + Filtered(c, catalogue[1..])
  }

  function Registered(components: seq<Component>, catalogue: seq<Kind>): seq<Kind> {
    if components == [] then [] else Filtered(components[0], catalogue) + Registered(components[1..], catalogue)
  }

  lemma {:induction false} FilteredCounts(c: Component, catalogue: seq<Kind>, k: Kind)
    ensures multiset(Filtered(c, catalogue))[k] == if c.Accepts(k) then multiset(catalogue)[k] else 0
  {
    if catalogue != [] {
      FilteredCounts(c, catalogue[1..], k);
      assert catalogue == [catalogue[0]] + catalogue[1..];
    }
  }

  /** For every catalogue, the three components of a task-consuming role together register
      each definition exactly as often as the catalogue lists it; an Api process registers
      the cleanup definitions and nothing else. */
  lemma RegisteredOnce(role: ServeRole, catalogue: seq<Kind>, k: Kind)
    ensures multiset(Registered(Components(role), catalogue))[k] ==
            if role == All || role == Worker || k == TaskCleanup then multiset(catalogue)[k] else 0
  {
    FilteredCounts(BackgroundTasks, catalogue, k);
    FilteredCounts(TaskConsumers, catalogue, k);
    FilteredCounts(TaskScheduler, catalogue, k);
    var rest := Registered(Components(role)[1..], catalogue);
    if role.ConsumesTasks() {
      assert Components(role)[1..] == [TaskConsumers, TaskScheduler];
      assert Components(role)[1..][1..] == [TaskScheduler];
      assert Registered([TaskScheduler], catalogue) == Filtered(TaskScheduler, catalogue) + [];
      assert rest == Filtered(TaskConsumers, catalogue) + Registered([TaskScheduler], catalogue);
    } else {
      assert rest == [];
    }
  }

  /** Which component registers what. */
  lemma ComponentsRegister(catalogue: seq<Kind>, k: Kind)
    ensures multiset(Filtered(BackgroundTasks, catalogue))[k] ==
            if k == TaskCleanup then multiset(catalogue)[k] else 0
    ensures multiset(Filtered(TaskConsumers, catalogue))[k] ==
            if k == BackgroundTaskDispatch then multiset(catalogue)[k] else 0
    ensures multiset(Filtered(TaskScheduler, catalogue))[k] ==
            if k != TaskCleanup && k != BackgroundTaskDispatch then multiset(catalogue)[k] else 0
    ensures Components(Api) == [BackgroundTasks]
    ensures Components(All) == Components(Worker) == [BackgroundTasks, TaskConsumers, TaskScheduler]
  {
    FilteredCounts(BackgroundTasks, catalogue, k);
    FilteredCounts(TaskConsumers, catalogue, k);
    FilteredCounts(TaskScheduler, catalogue, k);
  }
}
