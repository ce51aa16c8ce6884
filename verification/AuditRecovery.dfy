/** Saving unconfirmed audit records: write a temporary file, sync it, rename it. Every step
    can fail, and the process can stop between any two of them. */
module AuditRecovery {
  import opened Text

  /** Files of the recovery directory: an attempt with id `id` uses the first two. */
  datatype Path = Temporary(id: nat) | Published(id: nat) | Other(name: string)

  type Files = map<Path, string>

  /** How far an attempt got; `Done` is a returned attempt. `leftover` says that removing the
      temporary file failed. */
  datatype Phase =
    | Starting
    | DirectoryReady
    | Writing(written: nat)
    | Synced
    | Cleaning
    | Done(saved: bool, leftover: bool)

  /** The file-system operations with their outcome. */
  datatype Action =
    | CreateDirectory(ok: bool)
    | OpenNew(ok: bool)
    | Write(upTo: nat)
    | WriteFails
    | Sync(ok: bool)
    | Rename(ok: bool)
    | RemoveTemporary(ok: bool)

  /** One operation of an attempt, if the attempt is at the point to do it; opening succeeds
      only if the temporary file does not exist. */
  function Act(files: Files, id: nat, payload: string, phase: Phase, a: Action): Option<(Files, Phase)> {
    var tmp := Temporary(id);
    match (phase, a)
    case (Starting, CreateDirectory(ok)) =>
      Some((files, if ok then DirectoryReady else Done(false, false)))
    case (DirectoryReady, OpenNew(ok)) =>
      if !ok then Some((files, Done(false, false)))
      else if tmp in files then None
      else Some((files[tmp := ""], Writing(0)))
    case (Writing(n), Write(m)) =>
      if n <= m <= |payload| then Some((files[tmp := payload[..m]], Writing(m))) else None
    case (Writing(_), WriteFails) => Some((files, Cleaning))
    case (Writing(n), Sync(ok)) =>
      if n != |payload| then None else Some((files, if ok then Synced else Cleaning))
    case (Synced, Rename(ok)) =>
      if !ok then Some((files, Cleaning))
      else if tmp !in files then None
      else Some(((files - {tmp})[Published(id) := files[tmp]], Done(true, false)))
    case (Cleaning, RemoveTemporary(ok)) =>
      Some((if ok then files - {tmp} else files, Done(false, !ok)))
    case _ => None
  }

  // ---- any number of attempts, any schedule, any crash -------------------------

  datatype Attempt = Attempt(payload: string, phase: Phase)

  datatype System = System(files: Files, attempts: map<nat, Attempt>)

  /** An attempt begins under an id no attempt used, or an attempt takes its next step. A
      crashed attempt is one that takes no further step. */
  datatype Event = Begin(id: nat, payload: string) | Step(id: nat, action: Action)

  function Fire(s: System, e: Event): Option<System> {
    match e
    case Begin(id, payload) =>
      if id in s.attempts then None
      else Some(s.(attempts := s.attempts[id := Attempt(payload, Starting)]))
    case Step(id, action) =>
      if id !in s.attempts then None
      else match Act(s.files, id, s.attempts[id].payload, s.attempts[id].phase, action)
        case None => None
        case Some((files, phase)) =>
          Some(System(files, s.attempts[id := s.attempts[id].(phase := phase)]))
  }

  function Exec(s: System, events: seq<Event>): Option<System>
    decreases |events|
  {
    if events == [] then Some(s)
    else match Fire(s, events[0])
      case None => None
      case Some(s') => Exec(s', events[1..])
  }

  /** A path is as it was at the beginning. */
  predicate Same(before: Files, files: Files, p: Path) {
    (p in files <==> p in before) && (p in files ==> files[p] == before[p])
  }

  /** What the files of one attempt look like at each phase. */
  ghost predicate AttemptInv(before: Files, files: Files, id: nat, a: Attempt) {
    var tmp, final := Temporary(id), Published(id);
    && (a.phase.Done? && a.phase.saved
        ==> tmp !in files && tmp !in before && final in files && files[final] == a.payload)
    && (!(a.phase.Done? && a.phase.saved) ==> Same(before, files, final))
    && match a.phase
       case Writing(n) => tmp !in before && n <= |a.payload| && tmp in files && files[tmp] == a.payload[..n]
       case Synced => tmp !in before && tmp in files && files[tmp] == a.payload
       case Cleaning => tmp !in before && tmp in files
       case Done(_, leftover) => if leftover then tmp !in before else Same(before, files, tmp)
       case _ => Same(before, files, tmp)
  }

  /** All paths no attempt owns are untouched. */
  ghost predicate Inv(before: Files, s: System) {
    && (forall id :: id in s.attempts ==> AttemptInv(before, s.files, id, s.attempts[id]))
    && (forall id :: id !in s.attempts ==> Same(before, s.files, Temporary(id)) && Same(before, s.files, Published(id)))
    && (forall name :: Same(before, s.files, Other(name)))
  }

  lemma ActKeepsInv(before: Files, s: System, id: nat, action: Action)
    requires Inv(before, s) && Fire(s, Step(id, action)).Some?
    ensures Inv(before, Fire(s, Step(id, action)).value)
  {
    var s' := Fire(s, Step(id, action)).value;
    assert AttemptInv(before, s.files, id, s.attempts[id]);
    assert AttemptInv(before, s'.files, id, s'.attempts[id]) by {
      ActKeepsAttempt(before, s.files, id, s.attempts[id], action);
    }
    ActTouchesOwn(s.files, id, s.attempts[id], action);
    forall other | other in s'.attempts && other != id
      ensures AttemptInv(before, s'.files, other, s'.attempts[other])
    {
      assert AttemptInv(before, s.files, other, s.attempts[other]);
      assert Same(s.files, s'.files, Temporary(other)) && Same(s.files, s'.files, Published(other));
    }
    forall other | other !in s'.attempts
      ensures Same(before, s'.files, Temporary(other)) && Same(before, s'.files, Published(other))
    {
      assert Same(s.files, s'.files, Temporary(other)) && Same(s.files, s'.files, Published(other));
    }
    forall name ensures Same(before, s'.files, Other(name)) {
      assert Same(s.files, s'.files, Other(name)) && Same(before, s.files, Other(name));
    }
  }

  lemma ActTouchesOwn(files: Files, id: nat, a: Attempt, action: Action)
    requires Act(files, id, a.payload, a.phase, action).Some?
    ensures var files' := Act(files, id, a.payload, a.phase, action).value.0;
            forall p :: p != Temporary(id) && p != Published(id) ==> Same(files, files', p)
  {
  }

  lemma ActKeepsAttempt(before: Files, files: Files, id: nat, a: Attempt, action: Action)
    requires AttemptInv(before, files, id, a) && Act(files, id, a.payload, a.phase, action).Some?
    ensures var (files', phase') := Act(files, id, a.payload, a.phase, action).value;
            AttemptInv(before, files', id, a.(phase := phase'))
  {
    assert a.payload[..|a.payload|] == a.payload;
  }

  lemma {:induction false} ExecKeepsInv(before: Files, s: System, events: seq<Event>)
    requires Inv(before, s) && Exec(s, events).Some?
    ensures Inv(before, Exec(s, events).value)
    decreases |events|
  {
    hide Fire, Inv, AttemptInv;
    if events != [] {
      var s' := Fire(s, events[0]).value;
      assert Inv(before, s') by {
        if events[0].Step? {
          ActKeepsInv(before, s, events[0].id, events[0].action);
        } else {
          BeginKeepsInv(before, s, events[0].id, events[0].payload);
        }
      }
      ExecKeepsInv(before, s', events[1..]);
    }
  }

  lemma BeginKeepsInv(before: Files, s: System, id: nat, payload: string)
    requires Inv(before, s) && Fire(s, Begin(id, payload)).Some?
    ensures Inv(before, Fire(s, Begin(id, payload)).value)
  {
  }

  /** Over every schedule of attempts, faults and crashes: a published file is untouched or
      holds the complete payload of the attempt with its id, and a successful attempt has
      published; a path is altered only if an attempt reused the id of a published file; a
      returned attempt whose removal did not fail leaves no temporary file that was not there
      before. */
  lemma RecoveryIsSafe(before: Files, events: seq<Event>)
    requires Exec(System(before, map[]), events).Some?
    ensures var s := Exec(System(before, map[]), events).value;
            && (forall id :: Published(id) in s.files ==>
                  || (Published(id) in before && s.files[Published(id)] == before[Published(id)])
                  || (id in s.attempts && s.files[Published(id)] == s.attempts[id].payload))
            && (forall p :: p in before && (p.Published? ==> p.id !in s.attempts) ==>
                  p in s.files && s.files[p] == before[p])
            && (forall id :: id in s.attempts && s.attempts[id].phase == Done(true, false) ==>
                  Published(id) in s.files && s.files[Published(id)] == s.attempts[id].payload)
            && (forall id :: id in s.attempts && s.attempts[id].phase.Done? ==>
                  s.attempts[id].phase.leftover || (Temporary(id) in s.files ==> Temporary(id) in before))
  {
    hide Exec;
    var s := Exec(System(before, map[]), events).value;
    ExecKeepsInv(before, System(before, map[]), events);
    forall id | Published(id) in s.files
      ensures || (Published(id) in before && s.files[Published(id)] == before[Published(id)])
              || (id in s.attempts && s.files[Published(id)] == s.attempts[id].payload)
    {
      if id in s.attempts {
        assert AttemptInv(before, s.files, id, s.attempts[id]);
      } else {
        assert Same(before, s.files, Published(id));
      }
    }
    forall p | p in before && (p.Published? ==> p.id !in s.attempts)
      ensures p in s.files && s.files[p] == before[p]
    {
      PathIsKept(before, s, p);
    }
  }

  lemma PathIsKept(before: Files, s: System, p: Path)
    requires Inv(before, s) && p in before && (p.Published? ==> p.id !in s.attempts)
    ensures p in s.files && s.files[p] == before[p]
  {
    match p
    case Other(name) => assert Same(before, s.files, Other(name));
    case Published(id) => assert Same(before, s.files, Published(id));
    case Temporary(id) =>
      if id in s.attempts {
        assert AttemptInv(before, s.files, id, s.attempts[id]);
      } else {
        assert Same(before, s.files, Temporary(id));
      }
  }

  // ---- one attempt, as it is coded ----------------------------------------------

  /** Which operations of an attempt fail; a failing write stops after some characters. */
  datatype Faults = Faults(directory: bool, open: bool, write: Option<nat>, sync: bool, rename: bool, remove: bool)

  /** The operations of one attempt in order. */
  function ActAll(files: Files, id: nat, payload: string, phase: Phase, actions: seq<Action>): Option<(Files, Phase)>
    decreases |actions|
  {
    if actions == [] then Some((files, phase))
    else match Act(files, id, payload, phase, actions[0])
      case None => None
      case Some((files', phase')) => ActAll(files', id, payload, phase', actions[1..])
  }

  lemma ActAllSnoc(files: Files, id: nat, payload: string, phase: Phase, actions: seq<Action>, last: Action)
    requires ActAll(files, id, payload, phase, actions).Some?
    ensures var (files', phase') := ActAll(files, id, payload, phase, actions).value;
            ActAll(files, id, payload, phase, actions + [last]) == Act(files', id, payload, phase', last)
    decreases |actions|
  {
    hide Act;
    if actions == [] {
      assert [last][1..] == [];
    } else {
      var (f, ph) := Act(files, id, payload, phase, actions[0]).value;
      assert (actions + [last])[1..] == actions[1..] + [last];
      ActAllSnoc(f, id, payload, ph, actions[1..], last);
    }
  }

  /** A recovery directory. */
  class Disk {
    var files: Files

    constructor (initial: Files)
      ensures files == initial
    {
      files := initial;
    }

    /** `create_new` opening. */
    method CreateNew(p: Path, fault: bool) returns (ok: bool)
      modifies this
      ensures ok <==> !fault && p !in old(files)
      ensures files == if ok then old(files)[p := ""] else old(files)
    {
      ok := !fault && p !in files;
      if ok { files := files[p := ""]; }
    }

    /** `write_all`; a failing write leaves what it wrote before. */
    method WriteAll(p: Path, content: string, fault: Option<nat>) returns (ok: bool)
      requires p in files
      modifies this
      ensures ok <==> fault.None?
      ensures files == old(files)[p := content[..if ok then |content| else Reached(content, fault.value)]]
    {
      ok := fault.None?;
      var n := if ok then |content| else Reached(content, fault.value);
      files := files[p := content[..n]];
    }

    method Move(from: Path, to: Path, fault: bool) returns (ok: bool)
      requires from in files && from != to
      modifies this
      ensures ok == !fault
      ensures files == if ok then (old(files) - {from})[to := old(files)[from]] else old(files)
    {
      ok := !fault;
      if ok { files := (files - {from})[to := files[from]]; }
    }

    method Delete(p: Path, fault: bool)
      modifies this
      ensures files == if fault then old(files) else old(files) - {p}
    {
      if !fault { files := files - {p}; }
    }
  }

  function Reached(content: string, n: nat): (r: nat)
    ensures r <= |content|
  {
    if n <= |content| then n else |content|
  }

  /** Nothing changed, or only a temporary file whose removal failed is left behind. */
  ghost predicate OnlyLeftover(before: Files, files: Files, id: nat, f: Faults) {
    || files == before
    || (f.remove && Temporary(id) !in before && files - {Temporary(id)} == before)
  }

  ghost predicate LeftBehind(before: Files, files: Files, id: nat) {
    Temporary(id) in files && Temporary(id) !in before
  }

  /** Nothing the attempt does fails. */
  predicate Succeeds(before: Files, id: nat, f: Faults) {
    && !f.directory && !f.open && Temporary(id) !in before
    && f.write.None? && !f.sync && !f.rename
  }

  /** Creating, writing and syncing the temporary file. */
  method StageTemporary(disk: Disk, id: nat, payload: string, f: Faults)
      returns (ok: bool, ghost actions: seq<Action>)
    modifies disk
    ensures ok <==> !f.directory && !f.open && Temporary(id) !in old(disk.files) && f.write.None? && !f.sync
    ensures ok ==> disk.files == old(disk.files)[Temporary(id) := payload]
    ensures !ok ==> OnlyLeftover(old(disk.files), disk.files, id, f)
    ensures ActAll(old(disk.files), id, payload, Starting, actions) ==
            Some((disk.files, if ok then Synced else Done(false, LeftBehind(old(disk.files), disk.files, id))))
  {
    hide ActAll;
    ghost var start := disk.files;
    var tmp := Temporary(id);
    ActNone(start, id, payload);
    actions := Extend(start, id, payload, [], CreateDirectory(!f.directory));
    if f.directory { return false, actions; }
    ok := disk.CreateNew(tmp, f.open);
    actions := Extend(start, id, payload, actions, OpenNew(ok));
    if !ok { return; }
    ok := disk.WriteAll(tmp, payload, f.write);
    actions := Extend(start, id, payload, actions, Write(if ok then |payload| else Reached(payload, f.write.value)));
    assert payload[..|payload|] == payload;
    if ok {
      ok := !f.sync;
      actions := Extend(start, id, payload, actions, Sync(ok));
    } else {
      actions := Extend(start, id, payload, actions, WriteFails);
    }
    if !ok {
      disk.Delete(tmp, f.remove);
      actions := Extend(start, id, payload, actions, RemoveTemporary(!f.remove));
    }
  }

  /** The attempt as coded: it succeeds exactly when nothing fails and the temporary name is
      free; then the only change is the published file with the whole payload. A failed
      attempt changes nothing, unless the removal of its temporary file fails too. Its
      operations are a run of the step system above. */
  method PreserveUnconfirmed(disk: Disk, id: nat, payload: string, f: Faults)
      returns (path: Option<Path>, ghost actions: seq<Action>)
    modifies disk
    ensures path.Some? <==> Succeeds(old(disk.files), id, f)
    ensures path.Some? ==> path.value == Published(id) && disk.files == old(disk.files)[Published(id) := payload]
    ensures path.None? ==> OnlyLeftover(old(disk.files), disk.files, id, f)
    ensures ActAll(old(disk.files), id, payload, Starting, actions) ==
            Some((disk.files, Done(path.Some?, LeftBehind(old(disk.files), disk.files, id))))
  {
    hide ActAll;
    ghost var start := disk.files;
    var tmp, final := Temporary(id), Published(id);
    var staged;
    staged, actions := StageTemporary(disk, id, payload, f);
    if !staged { return None, actions; }
    var ok := disk.Move(tmp, final, f.rename);
    actions := Extend(start, id, payload, actions, Rename(ok));
    if !ok {
      disk.Delete(tmp, f.remove);
      actions := Extend(start, id, payload, actions, RemoveTemporary(!f.remove));
      return None, actions;
    }
    return Some(final), actions;
  }

  /** The operations of one attempt as steps of the system. */
  function StepsOf(id: nat, actions: seq<Action>): (r: seq<Event>)
    ensures |r| == |actions| && forall i :: 0 <= i < |actions| ==> r[i] == Step(id, actions[i])
  {
    seq(|actions|, i requires 0 <= i < |actions| => Step(id, actions[i]))
  }

  lemma {:induction false} StepsRun(s: System, id: nat, actions: seq<Action>)
    requires id in s.attempts
    requires ActAll(s.files, id, s.attempts[id].payload, s.attempts[id].phase, actions).Some?
    ensures var (files, phase) := ActAll(s.files, id, s.attempts[id].payload, s.attempts[id].phase, actions).value;
            Exec(s, StepsOf(id, actions)) == Some(System(files, s.attempts[id := s.attempts[id].(phase := phase)]))
    decreases |actions|
  {
    hide Act;
    if actions == [] {
      assert s.attempts[id := s.attempts[id]] == s.attempts;
    } else {
      var a := s.attempts[id];
      var (files, phase) := Act(s.files, id, a.payload, a.phase, actions[0]).value;
      var s' := System(files, s.attempts[id := a.(phase := phase)]);
      assert Fire(s, Step(id, actions[0])) == Some(s');
      assert StepsOf(id, actions)[1..] == StepsOf(id, actions[1..]);
      StepsRun(s', id, actions[1..]);
      var end := ActAll(files, id, a.payload, phase, actions[1..]).value.1;
      assert s'.attempts[id := s'.attempts[id].(phase := end)] == s.attempts[id := a.(phase := end)];
    }
  }

  /** A coded attempt is a run of the step system, begun in any state under a fresh id. */
  lemma AttemptRuns(s: System, id: nat, payload: string, actions: seq<Action>)
    requires id !in s.attempts && ActAll(s.files, id, payload, Starting, actions).Some?
    ensures var (files, phase) := ActAll(s.files, id, payload, Starting, actions).value;
            Exec(s, [Begin(id, payload)] + StepsOf(id, actions)) ==
            Some(System(files, s.attempts[id := Attempt(payload, phase)]))
  {
    hide ActAll;
    var events := [Begin(id, payload)] + StepsOf(id, actions);
    assert events[1..] == StepsOf(id, actions);
    var s' := s.(attempts := s.attempts[id := Attempt(payload, Starting)]);
    assert Fire(s, events[0]) == Some(s');
    StepsRun(s', id, actions);
    var phase := ActAll(s.files, id, payload, Starting, actions).value.1;
    assert s'.attempts[id := Attempt(payload, phase)] == s.attempts[id := Attempt(payload, phase)];
  }

  lemma {:induction false} ExecSplits(s: System, a: seq<Event>, b: seq<Event>)
    ensures Exec(s, a + b) == match Exec(s, a) case None => None case Some(s') => Exec(s', b)
    decreases |a|
  {
    hide Fire;
    if a == [] {
      assert a + b == b;
    } else {
      assert (a + b)[1..] == a[1..] + b;
      if Fire(s, a[0]).Some? {
        ExecSplits(Fire(s, a[0]).value, a[1..], b);
      }
    }
  }

  /** So safety over whole runs covers it: a coded attempt behind any run of attempts that failed,
      crashed or succeeded leads to a state that a run reaches. */
  lemma CodedAttemptIsReached(before: Files, earlier: seq<Event>, id: nat, payload: string, actions: seq<Action>)
    requires Exec(System(before, map[]), earlier).Some?
    requires var s := Exec(System(before, map[]), earlier).value;
             id !in s.attempts && ActAll(s.files, id, payload, Starting, actions).Some?
    ensures var s := Exec(System(before, map[]), earlier).value;
            var (files, phase) := ActAll(s.files, id, payload, Starting, actions).value;
            var all := earlier + ([Begin(id, payload)] + StepsOf(id, actions));
            && Exec(System(before, map[]), all) == Some(System(files, s.attempts[id := Attempt(payload, phase)]))
            && (forall p :: p in before && (p.Published? ==> p.id !in s.attempts && p.id != id) ==>
                  p in files && files[p] == before[p])
            && (phase == Done(true, false) ==> Published(id) in files && files[Published(id)] == payload)
  {
    hide Exec, ActAll;
    var s := Exec(System(before, map[]), earlier).value;
    var all := earlier + ([Begin(id, payload)] + StepsOf(id, actions));
    ExecSplits(System(before, map[]), earlier, [Begin(id, payload)] + StepsOf(id, actions));
    AttemptRuns(s, id, payload, actions);
    RecoveryIsSafe(before, all);
  }

  lemma ActNone(files: Files, id: nat, payload: string)
    ensures ActAll(files, id, payload, Starting, []) == Some((files, Starting))
  {
  }

  /** The trace with one more operation. */
  lemma Extend(start: Files, id: nat, payload: string, actions: seq<Action>, last: Action)
      returns (longer: seq<Action>)
    requires ActAll(start, id, payload, Starting, actions).Some?
    ensures longer == actions + [last]
    ensures var (files, phase) := ActAll(start, id, payload, Starting, actions).value;
            ActAll(start, id, payload, Starting, longer) == Act(files, id, payload, phase, last)
  {
    ActAllSnoc(start, id, payload, Starting, actions, last);
    longer := actions + [last];
  }
}
