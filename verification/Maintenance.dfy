/** The maintenance script: one lock, operations that run in steps, state that survives
    reboots, and power that may fail between any two steps. */
module Maintenance {
  import opened Text

  // ---------------------------------------------------------------- the state file

  /** A snapshot directory, named by the time it was taken. */
  type Id = nat

  /** The script's two keys of state.json. */
  datatype StateFile = StateFile(pending: Option<Id>, attempted: Option<string>)

  // ---------------------------------------------------------------- operations, step by step

  datatype Op = Health | Cleanup | OsUpdate | Reboot | BootCheck

  /** Where an invocation stands. From OsStart on it is past the lock. */
  datatype Pc =
    | Waiting
    | Skipped
    | Exited
    | PlainBody
    | OsStart
    | OsSetPending(id: Id)
    | OsSetAttempted
    | OsUpgrade
    | RebootNow
    | BcProbe
    | BcReadPending(healthy: bool)
    | BcUnsetPending
    | BcUnsetAttempted
    | BcRestart(pending: Option<Id>)
    | BcDecide(pending: Option<Id>)
    | BcRollback(id: Id)
    | BcSetAttempted(id: Id, reverted: bool)
    | BcAlert(id: Id, reverted: bool)
    | BcReboot(id: Id)
    | BcAlertOnly

  predicate InBody(pc: Pc) { !pc.Waiting? && !pc.Skipped? && !pc.Exited? }

  function BodyOf(op: Op): (pc: Pc)
    ensures InBody(pc)
  {
    match op
    case Health => PlainBody
    case Cleanup => PlainBody
    case OsUpdate => OsStart
    case Reboot => RebootNow
    case BootCheck => BcProbe
  }

  /** What the outside world answers to a step. */
  datatype Answer = Answer(
    works: bool,        // apt-get or the wait for the lock ends well
    planned: bool,      // the simulated upgrade names a package
    id: Id,             // the time, as the new snapshot's name
    healthy: bool,      // one of the 18 first probes succeeds
    recovered: bool,    // one of the 9 probes after the restart succeeds
    listed: bool,       // packages.txt is there
    reverted: bool)     // at least one package was downgraded

  datatype Proc = Proc(op: Op, pc: Pc)

  /** heartbeat: the copy of the file that the web application has read and not yet written
      back. reboots: the snapshot of each reboot that boot-check issued. scheduled: how many
      scheduled reboots were issued, and whether one ever was during an os-update. */
  datatype World = World(
    procs: seq<Proc>, lock: Option<nat>, file: StateFile, heartbeat: Option<StateFile>,
    snapshots: seq<Id>, reboots: seq<Id>, scheduled: nat, duringUpdate: bool)

  datatype Event =
    | Invoke(op: Op)
    | Go(proc: nat, answer: Answer)
    | Kill(proc: nat)
    | PowerLoss
    | HeartbeatLoad
    | HeartbeatSave

  function At(w: World, i: nat, pc: Pc): World
    requires i < |w.procs|
  {
    w.(procs := w.procs[i := w.procs[i].(pc := pc)])
  }

  predicate Updating(w: World) {
    exists i :: 0 <= i < |w.procs| && w.procs[i].op.OsUpdate? && InBody(w.procs[i].pc)
  }

  /** run_system_locked: take the free lock; a busy one turns the operation away, except that
      a scheduled reboot goes on waiting until it times out. */
  function TryLock(w: World, i: nat, a: Answer): World
    requires i < |w.procs|
  {
    if w.lock.None? then At(w, i, BodyOf(w.procs[i].op)).(lock := Some(i))
    else if w.procs[i].op.Reboot? && a.works then w
    else At(w, i, Skipped)
  }

  /** One step past the lock: where it leads (Exited lets go of the lock), the file after it,
      and the snapshot it records or the reboot it issues. */
  datatype Move = Move(pc: Pc, file: StateFile, snapshot: Option<Id>, reboot: Option<Id>)

  function To(pc: Pc, f: StateFile): Move { Move(pc, f, None, None) }

  function OsMove(pc: Pc, f: StateFile, a: Answer): Move {
    match pc
    case OsStart =>
      To(if !a.works then Exited else if a.planned then OsSetPending(a.id) else OsUpgrade, f)
    case OsSetPending(id) => Move(OsSetAttempted, f.(pending := Some(id)), Some(id), None)
    case OsSetAttempted => To(OsUpgrade, f.(attempted := Some("0")))
    case _ => To(Exited, f)
  }

  function BootCheckMove(pc: Pc, f: StateFile, a: Answer): Move {
    match pc
    case BcProbe => To(BcReadPending(a.healthy), f)
    case BcReadPending(healthy) =>
      To(if !healthy then BcRestart(f.pending) else if f.pending.Some? then BcUnsetPending else Exited, f)
    case BcUnsetPending => To(BcUnsetAttempted, f.(pending := None))
    case BcUnsetAttempted => To(Exited, f.(attempted := None))
    case BcRestart(pending) =>
      To(if !a.recovered then BcDecide(pending) else if pending.Some? then BcUnsetPending else Exited, f)
    case BcDecide(pending) =>
      To(if pending.Some? && f.attempted != Some("1") && a.listed then BcRollback(pending.value) else BcAlertOnly, f)
    case BcRollback(id) => To(BcSetAttempted(id, a.reverted), f)
    case BcSetAttempted(id, reverted) => To(BcAlert(id, reverted), f.(attempted := Some("1")))
    case BcAlert(id, reverted) => To(if reverted then BcReboot(id) else Exited, f)
    case BcReboot(id) => Move(Exited, f, None, Some(id))
    case _ => To(Exited, f)
  }

  function MoveOf(p: Proc, f: StateFile, a: Answer): Move {
    match p.op
    case OsUpdate => OsMove(p.pc, f, a)
    case BootCheck => BootCheckMove(p.pc, f, a)
    case _ => To(Exited, f)
  }

  function AsSeq(id: Option<Id>): seq<Id> { if id.Some? then [id.value] else [] }

  function GoStep(w: World, i: nat, a: Answer): World
    requires i < |w.procs|
  {
    var p := w.procs[i];
    if p.pc.Waiting? then TryLock(w, i, a)
    else if !InBody(p.pc) then w
    else
      var m := MoveOf(p, w.file, a);
      At(w, i, m.pc).(
        lock := if m.pc.Exited? then None else w.lock,
        file := m.file,
        snapshots := w.snapshots + AsSeq(m.snapshot),
        reboots := w.reboots + AsSeq(m.reboot),
        scheduled := if p.op.Reboot? then w.scheduled + 1 else w.scheduled,
        duringUpdate := w.duringUpdate || (p.op.Reboot? && Updating(w)))
  }

  function Happen(w: World, e: Event): World {
    match e
    case Invoke(op) => w.(procs := w.procs + [Proc(op, Waiting)])
    case Go(i, a) => if i < |w.procs| then GoStep(w, i, a) else w
    case Kill(i) =>
      if i < |w.procs| && InBody(w.procs[i].pc) then At(w, i, Exited).(lock := None)
      else if i < |w.procs| && w.procs[i].pc.Waiting? then At(w, i, Exited)
      else w
    case PowerLoss => w.(procs := [], lock := None, heartbeat := None)
    case HeartbeatLoad => w.(heartbeat := Some(w.file))
    case HeartbeatSave => if w.heartbeat.Some? then w.(file := w.heartbeat.value, heartbeat := None) else w
  }

  function Run(start: World, events: seq<Event>): World
  {
    if events == [] then start
    else Happen(Run(start, events[..|events| - 1]), events[|events| - 1])
  }

  /** A device on which nothing has happened yet. */
  const FACTORY := World([], None, StateFile(None, None), None, [], [], 0, false)

  // ---------------------------------------------------------------- one operation at a time

  /** An invocation runs its own operation's steps. */
  predicate OwnStep(p: Proc) {
    match p.pc
    case Waiting => true
    case Skipped => true
    case Exited => true
    case PlainBody => p.op.Health? || p.op.Cleanup?
    case OsStart => p.op.OsUpdate?
    case OsSetPending(_) => p.op.OsUpdate?
    case OsSetAttempted => p.op.OsUpdate?
    case OsUpgrade => p.op.OsUpdate?
    case RebootNow => p.op.Reboot?
    case _ => p.op.BootCheck?
  }

  /** Exactly the holder of the lock is past it. */
  predicate Exclusive(w: World) {
    && (forall i :: 0 <= i < |w.procs| ==> (InBody(w.procs[i].pc) <==> w.lock == Some(i)) && OwnStep(w.procs[i]))
    && (w.lock.Some? ==> w.lock.value < |w.procs|)
  }

  lemma MoveStaysOwn(p: Proc, f: StateFile, a: Answer)
    requires OwnStep(p) && InBody(p.pc)
    ensures var pc := MoveOf(p, f, a).pc; OwnStep(p.(pc := pc)) && (InBody(pc) || pc.Exited?)
  {
  }

  lemma ExclusiveAt(w: World, v: World, i: nat, pc: Pc)
    requires Exclusive(w) && i < |w.procs| && v.procs == w.procs[i := w.procs[i].(pc := pc)] && OwnStep(v.procs[i])
    requires InBody(pc) ==> v.lock == Some(i) && (w.lock == v.lock || w.lock.None?)
    requires !InBody(pc) ==> if InBody(w.procs[i].pc) then v.lock.None? else v.lock == w.lock
    ensures Exclusive(v)
  {
  }

  lemma StepKeepsExclusive(w: World, e: Event)
    requires Exclusive(w)
    ensures Exclusive(Happen(w, e))
    ensures Happen(w, e).duringUpdate ==> w.duringUpdate
  {
    match e {
      case Go(i, a) =>
        if i < |w.procs| {
          GoKeepsExclusive(w, i, a);
        }
      case Kill(i) =>
        if i < |w.procs| && (InBody(w.procs[i].pc) || w.procs[i].pc.Waiting?) {
          ExclusiveAt(w, Happen(w, e), i, Exited);
        }
      case _ =>
    }
  }

  lemma GoKeepsExclusive(w: World, i: nat, a: Answer)
    requires Exclusive(w) && i < |w.procs|
    ensures Exclusive(GoStep(w, i, a))
    ensures GoStep(w, i, a).duringUpdate ==> w.duringUpdate
  {
    var p, v := w.procs[i], GoStep(w, i, a);
    if p.pc.Waiting? {
      if v != w {
        ExclusiveAt(w, v, i, v.procs[i].pc);
      }
    } else if InBody(p.pc) {
      MoveStaysOwn(p, w.file, a);
      ExclusiveAt(w, v, i, MoveOf(p, w.file, a).pc);
      assert w.lock == Some(i);
      assert p.op.Reboot? ==> !Updating(w);
    }
  }

  /** For any number of invocations, under every order of steps, kills and power failures: no
      two are past the lock at once, and no scheduled reboot is issued during an os-update. */
  lemma {:induction false} OneAtATime(events: seq<Event>)
    ensures Exclusive(Run(FACTORY, events)) && !Run(FACTORY, events).duringUpdate
    ensures forall i, j :: 0 <= i < j < |Run(FACTORY, events).procs| ==>
              !(InBody(Run(FACTORY, events).procs[i].pc) && InBody(Run(FACTORY, events).procs[j].pc))
  {
    if events != [] {
      OneAtATime(events[..|events| - 1]);
      StepKeepsExclusive(Run(FACTORY, events[..|events| - 1]), events[|events| - 1]);
    }
  }

  /** An invocation that was turned away never gets past the lock. */
  lemma {:induction false} SkippedStaysOut(events: seq<Event>, more: seq<Event>, i: nat)
    requires i < |Run(FACTORY, events).procs| && Run(FACTORY, events).procs[i].pc.Skipped? && PowerLoss !in more
    ensures var v := Run(FACTORY, events + more); i < |v.procs| && v.procs[i] == Run(FACTORY, events).procs[i]
    decreases |more|
  {
    if more == [] {
      assert events + more == events;
    } else {
      var n := |more| - 1;
      assert (events + more)[..|events + more| - 1] == events + more[..n];
      SkippedStaysOut(events, more[..n], i);
    }
  }

  /** The events that are not steps or kills of invocation i. */
  function Without(events: seq<Event>, i: nat): seq<Event> {
    if events == [] then []
    else
      var n := |events| - 1;
      var mine := (events[n].Go? && events[n].proc == i) || (events[n].Kill? && events[n].proc == i);
      Without(events[..n], i) + if mine then [] else [events[n]]
  }

  predicate NotPastLock(pc: Pc) { pc.Waiting? || pc.Skipped? }

  lemma AtCommutes(w: World, i: nat, pc: Pc, j: nat, qc: Pc)
    requires i < |w.procs| && j < |w.procs| && i != j
    ensures At(At(w, i, pc), j, qc) == At(At(w, j, qc), i, pc)
  {
    assert At(At(w, i, pc), j, qc).procs == At(At(w, j, qc), i, pc).procs;
  }

  lemma UpdatingWithout(w: World, i: nat, pc: Pc)
    requires i < |w.procs| && w.procs[i].pc.Waiting? && NotPastLock(pc)
    ensures Updating(At(w, i, pc)) <==> Updating(w)
  {
    var v := At(w, i, pc);
    assert forall j :: 0 <= j < |w.procs| ==> (InBody(v.procs[j].pc) <==> InBody(w.procs[j].pc)) && v.procs[j].op == w.procs[j].op;
  }

  lemma OtherGo(w: World, i: nat, pc: Pc, j: nat, a: Answer)
    requires i < |w.procs| && w.procs[i].pc.Waiting? && NotPastLock(pc) && j != i && j < |w.procs|
    ensures GoStep(At(w, i, pc), j, a) == At(GoStep(w, j, a), i, pc) && GoStep(w, j, a).procs[i] == w.procs[i]
  {
    var p := w.procs[j];
    assert At(w, i, pc).procs[j] == p;
    UpdatingWithout(w, i, pc);
    if p.pc.Waiting? {
      AtCommutes(w, i, pc, j, BodyOf(p.op));
      AtCommutes(w, i, pc, j, Skipped);
    } else if InBody(p.pc) {
      AtCommutes(w, i, pc, j, MoveOf(p, w.file, a).pc);
    }
  }

  /** What others do does not depend on whether i waits or was turned away. */
  lemma OthersDoNotSee(w: World, i: nat, pc: Pc, e: Event)
    requires i < |w.procs| && w.procs[i].pc.Waiting? && NotPastLock(pc) && e != PowerLoss
    requires !(e.Go? && e.proc == i) && !(e.Kill? && e.proc == i)
    ensures i < |Happen(w, e).procs| && Happen(w, e).procs[i] == w.procs[i]
    ensures Happen(At(w, i, pc), e) == At(Happen(w, e), i, pc)
  {
    match e {
      case Go(j, a) =>
        if j < |w.procs| {
          OtherGo(w, i, pc, j, a);
        }
      case Kill(j) =>
        if j < |w.procs| {
          AtCommutes(w, i, pc, j, Exited);
        }
      case Invoke(op) =>
        assert Happen(At(w, i, pc), e).procs == At(Happen(w, e), i, pc).procs;
      case _ =>
    }
  }

  /** A step or kill of i itself: it waits on, is turned away, or gets somewhere else. */
  lemma OwnEvent(w: World, i: nat, e: Event)
    requires i < |w.procs| && ((e.Go? && e.proc == i) || (e.Kill? && e.proc == i))
    ensures |Happen(w, e).procs| == |w.procs|
    ensures NotPastLock(Happen(w, e).procs[i].pc) ==>
              NotPastLock(w.procs[i].pc) && Happen(w, e) == At(w, i, Happen(w, e).procs[i].pc)
  {
    assert w.procs[i := w.procs[i].(pc := w.procs[i].pc)] == w.procs;
    if e.Go? && InBody(w.procs[i].pc) {
      assert !NotPastLock(MoveOf(w.procs[i], w.file, e.answer).pc) by {
        MoveLeavesTheQueue(w.procs[i], w.file, e.answer);
      }
    }
  }

  lemma MoveLeavesTheQueue(p: Proc, f: StateFile, a: Answer)
    ensures !NotPastLock(MoveOf(p, f, a).pc)
  {
  }

  lemma OthersKeepPlace(w: World, i: nat, e: Event)
    requires i < |w.procs| && e != PowerLoss && !(e.Go? && e.proc == i) && !(e.Kill? && e.proc == i)
    ensures i < |Happen(w, e).procs| && Happen(w, e).procs[i] == w.procs[i]
  {
  }

  lemma AtTwice(w: World, i: nat, pc: Pc, qc: Pc)
    requires i < |w.procs|
    ensures At(At(w, i, pc), i, qc) == At(w, i, qc)
  {
    assert At(At(w, i, pc), i, qc).procs == At(w, i, qc).procs;
  }

  lemma {:induction false} TurnedAwayRun(w: World, events: seq<Event>, i: nat)
    requires i < |w.procs| && w.procs[i].pc.Waiting? && PowerLoss !in events
    ensures i < |Run(w, events).procs|
    ensures NotPastLock(Run(w, events).procs[i].pc) ==>
              var u := Run(w, Without(events, i));
              i < |u.procs| && u.procs[i].pc.Waiting? && Run(w, events) == At(u, i, Run(w, events).procs[i].pc)
  {
    if events != [] {
      var n := |events| - 1;
      var e, before, rest := events[n], Run(w, events[..n]), Without(events[..n], i);
      assert e in events;
      TurnedAwayRun(w, events[..n], i);
      if (e.Go? && e.proc == i) || (e.Kill? && e.proc == i) {
        OwnEvent(before, i, e);
        assert Without(events, i) == rest;
        if NotPastLock(before.procs[i].pc) {
          AtTwice(Run(w, rest), i, before.procs[i].pc, Happen(before, e).procs[i].pc);
        }
      } else {
        var all := Without(events, i);
        assert all == rest + [e] && all[..|all| - 1] == rest;
        assert Run(w, all) == Happen(Run(w, rest), e);
        OthersKeepPlace(before, i, e);
        if NotPastLock(before.procs[i].pc) {
          OthersDoNotSee(Run(w, rest), i, before.procs[i].pc, e);
        }
      }
    } else {
      assert w.procs[i := w.procs[i].(pc := w.procs[i].pc)] == w.procs;
    }
  }

  /** An invocation that was turned away runs no body: the whole run is the one without any of
      its steps, but for the note that it was turned away. */
  lemma TurnedAwayLeavesNoTrace(w: World, events: seq<Event>, i: nat)
    requires i < |w.procs| && w.procs[i].pc.Waiting? && PowerLoss !in events
    requires i < |Run(w, events).procs| && Run(w, events).procs[i].pc.Skipped?
    ensures i < |Run(w, Without(events, i)).procs|
    ensures Run(w, events) == At(Run(w, Without(events, i)), i, Skipped)
  {
    TurnedAwayRun(w, events, i);
  }

  // ---------------------------------------------------------------- one invocation, step after step

  /** A snapshot may still cause a reboot: it is pending and not marked as tried. */
  predicate Armed(f: StateFile) { f.pending.Some? && f.attempted != Some("1") }

  datatype End = End(pc: Pc, file: StateFile, snapshots: seq<Id>, reboots: seq<Id>)

  /** Running one operation for up to n steps with the same answers. */
  function MovesFrom(n: nat, p: Proc, f: StateFile, snapshots: seq<Id>, reboots: seq<Id>, a: Answer): End {
    if n == 0 || !InBody(p.pc) then End(p.pc, f, snapshots, reboots)
    else
      var m := MoveOf(p, f, a);
      MovesFrom(n - 1, p.(pc := m.pc), m.file, snapshots + AsSeq(m.snapshot), reboots + AsSeq(m.reboot), a)
  }

  lemma MovesOn(n: nat, p: Proc, f: StateFile, snapshots: seq<Id>, reboots: seq<Id>, a: Answer)
    requires n > 0 && InBody(p.pc)
    ensures var m := MoveOf(p, f, a);
            MovesFrom(n, p, f, snapshots, reboots, a) ==
            MovesFrom(n - 1, p.(pc := m.pc), m.file,
                      if m.snapshot.Some? then snapshots + [m.snapshot.value] else snapshots,
                      if m.reboot.Some? then reboots + [m.reboot.value] else reboots, a)
  {
    assert snapshots + [] == snapshots && reboots + [] == reboots;
  }

  // ---------------------------------------------------------------- the script itself, uninterrupted

  /** A saved package file: its name up to the underscore, and the version that it installs. */
  datatype Deb = Deb(name: string, version: string)

  /** What a snapshot directory holds: the lines of packages.txt and the copied package files. */
  datatype Backup = Backup(lines: seq<string>, debs: set<Deb>)

  /** ${text%%c*}: the text before the first c. */
  function Before(text: string, c: char): string { SplitOn(text, c)[0] }

  /** The name that a line's package file starts with: no version, no architecture. */
  function FileName(line: string): string { Before(Before(line, '='), ':') }

  /** The packages of a plan whose version is known, each as a line. */
  function LinesOf(plan: seq<string>, versions: map<string, string>): seq<string> {
    if plan == [] then []
    else
      var pkg := plan[|plan| - 1];
      LinesOf(plan[..|plan| - 1], versions) + (if pkg in versions then [pkg + "=" + versions[pkg]] else [])
  }

  /** The files of those packages that are in the package cache, whatever versions they have. */
  function DebsOf(plan: seq<string>, versions: map<string, string>, cached: set<Deb>): set<Deb> {
    set d | d in cached && exists i :: 0 <= i < |plan| && plan[i] in versions && Before(plan[i], ':') == d.name
  }

  /** The order in which find lists a directory: each file once. */
  predicate DirectoryOrder(order: seq<Deb>, debs: set<Deb>) {
    && (forall i, j :: 0 <= i < j < |order| ==> order[i] != order[j])
    && (forall d :: d in order ==> d in debs)
    && (forall d :: d in debs ==> d in order)
  }

  /** find -name "<name>_*.deb" | head -1. */
  function FirstFor(order: seq<Deb>, name: string): (r: Option<Deb>)
    ensures r.Some? ==> r.value in order && r.value.name == name
    ensures r.None? <==> forall d :: d in order ==> d.name != name
  {
    if order == [] then None
    else if order[0].name == name then Some(order[0])
    else FirstFor(order[1..], name)
  }

  datatype Unavailable = InstallFailed(line: string) | NoDeb(line: string)

  datatype Alert = Alert(afterUpdate: bool, reverted: seq<string>, unavailable: seq<Unavailable>)

  /** The line has a saved file, and the one that is found installs. */
  predicate Reverts(line: string, order: seq<Deb>, installs: set<Deb>) {
    line != "" && FirstFor(order, FileName(line)).Some? && FirstFor(order, FileName(line)).value in installs
  }

  function RevertedOf(lines: seq<string>, order: seq<Deb>, installs: set<Deb>): seq<string> {
    if lines == [] then []
    else
      var l := lines[|lines| - 1];
      RevertedOf(lines[..|lines| - 1], order, installs) + (if Reverts(l, order, installs) then [l] else [])
  }

  function UnavailableOf(lines: seq<string>, order: seq<Deb>, installs: set<Deb>): seq<Unavailable> {
    if lines == [] then []
    else
      var l := lines[|lines| - 1];
      UnavailableOf(lines[..|lines| - 1], order, installs)
      + (if l == "" || Reverts(l, order, installs) then []
         else if FirstFor(order, FileName(l)).None? then [NoDeb(l)]
         else [InstallFailed(l)])
  }

  /** The files that get installed, in order. */
  function InstalledOf(lines: seq<string>, order: seq<Deb>, installs: set<Deb>): seq<Deb> {
    if lines == [] then []
    else
      var l := lines[|lines| - 1];
      InstalledOf(lines[..|lines| - 1], order, installs) + (if Reverts(l, order, installs) then [FirstFor(order, FileName(l)).value] else [])
  }

  /** Each listed package ends in exactly one of the two lists. */
  lemma {:induction false} RollbackAccountsForAll(lines: seq<string>, order: seq<Deb>, installs: set<Deb>, l: string)
    requires l in lines && l != ""
    ensures l in RevertedOf(lines, order, installs) <==> Reverts(l, order, installs)
    ensures NoDeb(l) in UnavailableOf(lines, order, installs) <==> forall d :: d in order ==> d.name != FileName(l)
    ensures InstallFailed(l) in UnavailableOf(lines, order, installs) <==>
              (exists d :: d in order && d.name == FileName(l)) && !Reverts(l, order, installs)
  {
    var front := lines[..|lines| - 1];
    if l in front {
      RollbackAccountsForAll(front, order, installs, l);
    } else {
      assert lines[|lines| - 1] == l;
      NotListed(front, order, installs, l);
    }
  }

  lemma {:induction false} NotListed(lines: seq<string>, order: seq<Deb>, installs: set<Deb>, l: string)
    requires l !in lines
    ensures l !in RevertedOf(lines, order, installs)
    ensures NoDeb(l) !in UnavailableOf(lines, order, installs) && InstallFailed(l) !in UnavailableOf(lines, order, installs)
  {
    if lines != [] {
      NotListed(lines[..|lines| - 1], order, installs, l);
    }
  }

  /** Whatever a reported line says, the only file of its package that got installed is the first
      one that is found. */
  lemma {:induction false} InstalledIsFirstFound(lines: seq<string>, order: seq<Deb>, installs: set<Deb>)
    ensures forall l :: l in RevertedOf(lines, order, installs) ==>
              Reverts(l, order, installs) && FirstFor(order, FileName(l)).value in InstalledOf(lines, order, installs)
    ensures forall d :: d in InstalledOf(lines, order, installs) ==> FirstFor(order, d.name) == Some(d) && d in installs
  {
    if lines != [] {
      InstalledIsFirstFound(lines[..|lines| - 1], order, installs);
    }
  }

  lemma {:induction false} PlannedIsListed(plan: seq<string>, versions: map<string, string>, pkg: string)
    requires pkg in plan && pkg in versions
    ensures pkg + "=" + versions[pkg] in LinesOf(plan, versions)
  {
    var n := |plan| - 1;
    if plan[n] != pkg {
      PlannedIsListed(plan[..n], versions, pkg);
    }
  }

  lemma FileOfLine(pkg: string, version: string)
    requires '=' !in pkg
    ensures FileName(pkg + "=" + version) == Before(pkg, ':')
  {
    SplitOnStep(pkg, version, '=');
  }

  lemma SavedFiles(plan: seq<string>, versions: map<string, string>, cached: set<Deb>, pkg: string)
    requires pkg in plan && pkg in versions
    ensures forall d: Deb :: d.name == Before(pkg, ':') ==> (d in DebsOf(plan, versions, cached) <==> d in cached)
  {
    var i :| 0 <= i < |plan| && plan[i] == pkg;
  }

  /** What an update saves is what a rollback can put back: of each package in the plan, with its
      version known, a file that was still in the cache, if it installs. */
  lemma SavedIsRolledBack(plan: seq<string>, versions: map<string, string>, cached: set<Deb>, order: seq<Deb>, installs: set<Deb>, pkg: string)
    requires pkg in plan && pkg in versions && '=' !in pkg && DirectoryOrder(order, DebsOf(plan, versions, cached))
    ensures var lines, line, file := LinesOf(plan, versions), pkg + "=" + versions[pkg], FirstFor(order, Before(pkg, ':'));
      && (line in RevertedOf(lines, order, installs) <==> file.Some? && file.value in installs)
      && (file.Some? ==> file.value in cached)
      && (NoDeb(line) in UnavailableOf(lines, order, installs) <==> forall d :: d in cached ==> d.name != Before(pkg, ':'))
  {
    PlannedIsListed(plan, versions, pkg);
    FileOfLine(pkg, versions[pkg]);
    SavedFiles(plan, versions, cached, pkg);
    RollbackAccountsForAll(LinesOf(plan, versions), order, installs, pkg + "=" + versions[pkg]);
  }

  /** A package that is reported as reverted is back at the version that was replaced. */
  predicate ReportHolds(plan: seq<string>, versions: map<string, string>, order: seq<Deb>, installs: set<Deb>, pkg: string)
    requires pkg in versions
  {
    pkg + "=" + versions[pkg] in RevertedOf(LinesOf(plan, versions), order, installs) ==>
      forall d :: d in InstalledOf(LinesOf(plan, versions), order, installs) && d.name == Before(pkg, ':') ==> d.version == versions[pkg]
  }

  lemma ReportIsFirst(plan: seq<string>, versions: map<string, string>, cached: set<Deb>, order: seq<Deb>, installs: set<Deb>, pkg: string)
    requires pkg in plan && pkg in versions && '=' !in pkg && DirectoryOrder(order, DebsOf(plan, versions, cached))
    ensures ReportHolds(plan, versions, order, installs, pkg) <==>
              var file := FirstFor(order, Before(pkg, ':')); file.Some? && file.value in installs ==> file.value.version == versions[pkg]
  {
    SavedIsRolledBack(plan, versions, cached, order, installs, pkg);
    FileOfLine(pkg, versions[pkg]);
    InstalledIsFirstFound(LinesOf(plan, versions), order, installs);
  }

  lemma {:induction false} SomeOrder(debs: set<Deb>) returns (order: seq<Deb>)
    ensures DirectoryOrder(order, debs)
    decreases |debs|
  {
    if debs == {} {
      order := [];
    } else {
      var d :| d in debs;
      var rest := SomeOrder(debs - {d});
      order := [d] + rest;
    }
  }

  /** However the directory is listed, the report is true, exactly if no file of the package with
      another version was in the cache and installs. */
  lemma ReportHoldsIff(plan: seq<string>, versions: map<string, string>, cached: set<Deb>, installs: set<Deb>, pkg: string)
    requires pkg in plan && pkg in versions && '=' !in pkg
    ensures (forall order :: DirectoryOrder(order, DebsOf(plan, versions, cached)) ==> ReportHolds(plan, versions, order, installs, pkg))
            <==> forall d :: d in cached && d.name == Before(pkg, ':') && d in installs ==> d.version == versions[pkg]
  {
    var debs := DebsOf(plan, versions, cached);
    SavedFiles(plan, versions, cached, pkg);
    forall order | DirectoryOrder(order, debs)
      ensures ReportHolds(plan, versions, order, installs, pkg) <==>
                var file := FirstFor(order, Before(pkg, ':')); file.Some? && file.value in installs ==> file.value.version == versions[pkg]
    {
      ReportIsFirst(plan, versions, cached, order, installs, pkg);
    }
    if d :| d in cached && d.name == Before(pkg, ':') && d in installs && d.version != versions[pkg] {
      var rest := SomeOrder(debs - {d});
      var order := [d] + rest;
      assert DirectoryOrder(order, debs);
      assert FirstFor(order, Before(pkg, ':')) == Some(d);
    }
  }

  class Script {
    var pending: Option<Id>
    var attempted: Option<string>
    var alerts: seq<Alert>
    var snapshots: seq<Id>
    var backups: map<Id, Backup>
    var reboots: seq<Id>

    function File(): StateFile
      reads this
    {
      StateFile(pending, attempted)
    }

    /** The probe loop: up to as many tries as there are probes, stopping at the first success. */
    method Poll(probes: seq<bool>) returns (healthy: bool)
      ensures healthy <==> true in probes
    {
      healthy := false;
      for attempt := 0 to |probes|
        invariant !healthy && true !in probes[..attempt]
      {
        if probes[attempt] {
          return true;
        }
      }
      assert probes[..|probes|] == probes;
    }

    /** order: as find lists the snapshot's directory; installs: the files that apt-get installs. */
    method RollBack(b: Backup, order: seq<Deb>, installs: set<Deb>)
      returns (reverted: seq<string>, unavailable: seq<Unavailable>, installed: seq<Deb>)
      requires DirectoryOrder(order, b.debs)
      ensures reverted == RevertedOf(b.lines, order, installs)
      ensures unavailable == UnavailableOf(b.lines, order, installs)
      ensures installed == InstalledOf(b.lines, order, installs)
    {
      reverted, unavailable, installed := [], [], [];
      for i := 0 to |b.lines|
        invariant reverted == RevertedOf(b.lines[..i], order, installs)
        invariant unavailable == UnavailableOf(b.lines[..i], order, installs)
        invariant installed == InstalledOf(b.lines[..i], order, installs)
      {
        assert b.lines[..i + 1][..i] == b.lines[..i];
        var line := b.lines[i];
        if line == "" {
          continue;
        }
        var deb := FirstFor(order, FileName(line));
        if deb.Some? {
          if deb.value in installs {
            reverted := reverted + [line];
            installed := installed + [deb.value];
          } else {
            unavailable := unavailable + [InstallFailed(line)];
          }
        } else {
          unavailable := unavailable + [NoDeb(line)];
        }
      }
      assert b.lines[..|b.lines|] == b.lines;
    }

    /** boot-check from start to end: first and second are the probes before and after the
        restart; there says whether the pending snapshot's packages.txt still is, and order how its
        directory is listed. It ends as its steps do, and raises an alert exactly when nothing became healthy. */
    method BootCheck(first: seq<bool>, second: seq<bool>, there: bool, order: seq<Deb>, installs: set<Deb>)
      requires var b := Found(pending, backups, there); b.Some? ==> DirectoryOrder(order, b.value.debs)
      modifies this`pending, this`attempted, this`alerts, this`reboots
      ensures var b := Found(old(pending), old(backups), there);
              var reverted := if b.Some? then RevertedOf(b.value.lines, order, installs) else [];
              var answer := Answer(true, false, 0, true in first, true in second, b.Some?, reverted != []);
              && End(Exited, File(), snapshots, reboots) ==
                 MovesFrom(8, Proc(Op.BootCheck, BcProbe), old(File()), old(snapshots), old(reboots), answer)
              && alerts == old(alerts) +
                 (if true in first || true in second then []
                  else if Armed(old(File())) && b.Some? then [Alert(true, reverted, UnavailableOf(b.value.lines, order, installs))]
                  else [Alert(false, [], [])])
    {
      ghost var f, s, r := File(), snapshots, reboots;
      var found := Found(pending, backups, there);
      ghost var reverts := found.Some? && RevertedOf(found.value.lines, order, installs) != [];
      BootCheckOutcome(f, s, r, Answer(true, false, 0, true in first, true in second, found.Some?, reverts));
      var healthy := Poll(first);
      var last := pending;
      if healthy {
        if last.Some? {
          pending := None;
          attempted := None;
        }
        return;
      }
      var recovered := Poll(second);
      if recovered {
        if last.Some? {
          pending := None;
          attempted := None;
        }
        return;
      }
      if last.Some? && attempted != Some("1") && found.Some? {
        var reverted, unavailable, _ := RollBack(found.value, order, installs);
        attempted := Some("1");
        alerts := alerts + [Alert(true, reverted, unavailable)];
        if |reverted| > 0 {
          reboots := reboots + [last.value];
        }
      } else {
        alerts := alerts + [Alert(false, [], [])];
      }
    }

    /** The loop that saves what an update is about to replace. */
    method Snapshot(plan: seq<string>, versions: map<string, string>, cached: set<Deb>) returns (b: Backup)
      ensures b == Backup(LinesOf(plan, versions), DebsOf(plan, versions, cached))
    {
      b := Backup([], {});
      for i := 0 to |plan|
        invariant b == Backup(LinesOf(plan[..i], versions), DebsOf(plan[..i], versions, cached))
      {
        assert plan[..i + 1][..i] == plan[..i];
        DebsSnoc(plan, i, versions, cached);
        var pkg := plan[i];
        if pkg !in versions {
          continue;
        }
        b := b.(lines := b.lines + [pkg + "=" + versions[pkg]]);
        b := b.(debs := b.debs + set d | d in cached && d.name == Before(pkg, ':'));
      }
      assert plan[..|plan|] == plan;
    }

    /** os-update from start to end: whether the package lists update, the upgrade can be
        simulated, and the upgrade itself goes well; the plan is what the simulation names. After
        the upgrade the pinned Python packages are installed again, if the program's environment
        is there. */
    method OsUpdate(updates: bool, simulates: bool, upgrades: bool, venv: bool, synced: bool,
                    plan: seq<string>, versions: map<string, string>, cached: set<Deb>, id: Id)
      returns (rc: nat)
      modifies this`pending, this`attempted, this`snapshots, this`backups
      ensures rc == if updates && simulates && upgrades && (venv ==> synced) then 0 else 1
      ensures var works := updates && simulates;
              End(Exited, File(), snapshots, reboots) ==
              MovesFrom(4, Proc(Op.OsUpdate, OsStart), old(File()), old(snapshots), old(reboots), Answer(works, plan != [], id, false, false, false, false))
      ensures backups == if updates && simulates && plan != [] then old(backups)[id := Backup(LinesOf(plan, versions), DebsOf(plan, versions, cached))]
                         else old(backups)
    {
      OsUpdateOutcome(File(), snapshots, reboots, Answer(updates && simulates, plan != [], id, false, false, false, false));
      if !updates || !simulates {
        return 1;
      }
      if plan != [] {
        var b := Snapshot(plan, versions, cached);
        backups := backups[id := b];
        pending := Some(id);
        snapshots := snapshots + [id];
        attempted := Some("0");
      }
      if !upgrades {
        return 1;
      }
      var pipStatus := 0;
      if venv {
        if !synced {
          pipStatus := 1;
        }
      }
      return pipStatus;
    }
  }

  /** The pending snapshot, if its list is there. */
  function Found(pending: Option<Id>, backups: map<Id, Backup>, there: bool): Option<Backup> {
    if there && pending.Some? && pending.value in backups then Some(backups[pending.value]) else None
  }

  lemma DebsSnoc(plan: seq<string>, i: nat, versions: map<string, string>, cached: set<Deb>)
    requires i < |plan|
    ensures DebsOf(plan[..i + 1], versions, cached) ==
            DebsOf(plan[..i], versions, cached) + (if plan[i] in versions then set d | d in cached && d.name == Before(plan[i], ':') else {})
  {
    var shorter, longer := plan[..i], plan[..i + 1];
    assert forall k :: 0 <= k < i ==> longer[k] == shorter[k];
    assert longer[i] == plan[i];
  }

  /** What the steps of a boot-check come to. */
  lemma {:induction false} BootCheckOutcome(f: StateFile, s: seq<Id>, r: seq<Id>, a: Answer)
    ensures MovesFrom(8, Proc(BootCheck, BcProbe), f, s, r, a) ==
            if a.healthy || a.recovered then End(Exited, if f.pending.Some? then StateFile(None, None) else f, s, r)
            else if !(Armed(f) && a.listed) then End(Exited, f, s, r)
            else End(Exited, f.(attempted := Some("1")), s, if a.reverted then r + [f.pending.value] else r)
  {
    MovesOn(8, Proc(BootCheck, BcProbe), f, s, r, a);
    MovesOn(7, Proc(BootCheck, BcReadPending(a.healthy)), f, s, r, a);
    if a.healthy {
      Confirm(6, f, s, r, a);
    } else {
      MovesOn(6, Proc(BootCheck, BcRestart(f.pending)), f, s, r, a);
      if a.recovered {
        Confirm(5, f, s, r, a);
      } else {
        StillSick(f, s, r, a);
      }
    }
  }

  lemma StillSick(f: StateFile, s: seq<Id>, r: seq<Id>, a: Answer)
    ensures MovesFrom(5, Proc(BootCheck, BcDecide(f.pending)), f, s, r, a) ==
            if !(Armed(f) && a.listed) then End(Exited, f, s, r)
            else End(Exited, f.(attempted := Some("1")), s, if a.reverted then r + [f.pending.value] else r)
  {
    MovesOn(5, Proc(BootCheck, BcDecide(f.pending)), f, s, r, a);
    if Armed(f) && a.listed {
      TryRollback(f, s, r, a);
    } else {
      MovesOn(4, Proc(BootCheck, BcAlertOnly), f, s, r, a);
      assert MovesFrom(3, Proc(BootCheck, Exited), f, s, r, a) == End(Exited, f, s, r);
    }
  }

  lemma Confirm(n: nat, f: StateFile, s: seq<Id>, r: seq<Id>, a: Answer)
    requires n >= 2
    ensures MovesFrom(n, Proc(BootCheck, if f.pending.Some? then BcUnsetPending else Exited), f, s, r, a) ==
            End(Exited, if f.pending.Some? then StateFile(None, None) else f, s, r)
  {
    if f.pending.Some? {
      MovesOn(n, Proc(BootCheck, BcUnsetPending), f, s, r, a);
      MovesOn(n - 1, Proc(BootCheck, BcUnsetAttempted), f.(pending := None), s, r, a);
    }
  }

  lemma TryRollback(f: StateFile, s: seq<Id>, r: seq<Id>, a: Answer)
    requires f.pending.Some?
    ensures MovesFrom(4, Proc(BootCheck, BcRollback(f.pending.value)), f, s, r, a) ==
            End(Exited, f.(attempted := Some("1")), s, if a.reverted then r + [f.pending.value] else r)
  {
    var id, f1 := f.pending.value, f.(attempted := Some("1"));
    MovesOn(4, Proc(BootCheck, BcRollback(id)), f, s, r, a);
    MovesOn(3, Proc(BootCheck, BcSetAttempted(id, a.reverted)), f, s, r, a);
    MovesOn(2, Proc(BootCheck, BcAlert(id, a.reverted)), f1, s, r, a);
    if a.reverted {
      MovesOn(1, Proc(BootCheck, BcReboot(id)), f1, s, r, a);
    }
  }

  lemma OsUpdateOutcome(f: StateFile, s: seq<Id>, r: seq<Id>, a: Answer)
    ensures MovesFrom(4, Proc(OsUpdate, OsStart), f, s, r, a) ==
            if a.works && a.planned then End(Exited, StateFile(Some(a.id), Some("0")), s + [a.id], r) else End(Exited, f, s, r)
  {
    MovesOn(4, Proc(OsUpdate, OsStart), f, s, r, a);
    if a.works && a.planned {
      MovesOn(3, Proc(OsUpdate, OsSetPending(a.id)), f, s, r, a);
      MovesOn(2, Proc(OsUpdate, OsSetAttempted), f.(pending := Some(a.id)), s + [a.id], r, a);
      MovesOn(1, Proc(OsUpdate, OsUpgrade), StateFile(Some(a.id), Some("0")), s + [a.id], r, a);
    } else if a.works {
      MovesOn(3, Proc(OsUpdate, OsUpgrade), f, s, r, a);
    }
  }

  // ---------------------------------------------------------------- the reboot-loop guard

  // One update snapshot causes at most one reboot by boot-check, in every run with power loss
  // between any two steps; and exactly how the web application's rewriting of the shared state
  // file can break that.

  predicate NoDuplicates(ids: seq<Id>) { forall i, j :: 0 <= i < j < |ids| ==> ids[i] != ids[j] }

  // ---------------------------------------------------------------- what is dangerous

  /** The file would let boot-check roll back once more for a snapshot that it has already
      rebooted for. */
  predicate Rearmed(f: StateFile, reboots: seq<Id>) { Armed(f) && f.pending.value in reboots }

  /** Where the operation past the lock stands, together with the file, leads to that, or to
      a second reboot right away. */
  predicate LeadsAstray(pc: Pc, f: StateFile, reboots: seq<Id>) {
    match pc
    case OsSetAttempted => f.pending.Some? && f.pending.value in reboots
    case BcUnsetAttempted => f.pending.Some? && f.pending.value in reboots
    case BcRestart(pending) => pending.Some? && pending.value in reboots && f.attempted != Some("1")
    case BcDecide(pending) => pending.Some? && pending.value in reboots && f.attempted != Some("1")
    case BcRollback(id) => id in reboots
    case BcSetAttempted(id, reverted) => reverted && id in reboots
    case BcAlert(id, reverted) => reverted && (id in reboots || (Armed(f) && f.pending == Some(id)))
    case BcReboot(id) => id in reboots || (Armed(f) && f.pending == Some(id))
    case _ => false
  }

  predicate Dangerous(w: World) {
    || Rearmed(w.file, w.reboots)
    || (w.lock.Some? && w.lock.value < |w.procs| && LeadsAstray(w.procs[w.lock.value].pc, w.file, w.reboots))
  }

  // ---------------------------------------------------------------- runs

  /** A new snapshot gets a new name, and the application does not write back a copy of the
      file that is dangerous by then. */
  predicate Sane(w: World, e: Event) {
    match e
    case Go(i, a) =>
      i < |w.procs| && w.procs[i].op.OsUpdate? && w.procs[i].pc.OsStart? && a.planned ==> a.id !in w.snapshots
    case HeartbeatSave => !Dangerous(Happen(w, e))
    case _ => true
  }

  predicate AllSane(start: World, events: seq<Event>) {
    forall k :: 0 <= k < |events| ==> Sane(Run(start, events[..k]), events[k])
  }

  /** The ids in use are those of snapshots taken, save for the one about to be recorded. */
  predicate KnownIds(pc: Pc, snapshots: seq<Id>) {
    match pc
    case OsSetPending(id) => id !in snapshots
    case BcRestart(pending) => pending.Some? ==> pending.value in snapshots
    case BcDecide(pending) => pending.Some? ==> pending.value in snapshots
    case BcRollback(id) => id in snapshots
    case BcSetAttempted(id, _) => id in snapshots
    case BcAlert(id, _) => id in snapshots
    case BcReboot(id) => id in snapshots
    case _ => true
  }

  predicate KnownFile(f: StateFile, snapshots: seq<Id>) { f.pending.Some? ==> f.pending.value in snapshots }

  /** The records so far: no snapshot was rebooted for twice. */
  predicate Sound(w: World) {
    && Exclusive(w)
    && NoDuplicates(w.reboots) && (forall id :: id in w.reboots ==> id in w.snapshots)
    && KnownFile(w.file, w.snapshots) && (w.heartbeat.Some? ==> KnownFile(w.heartbeat.value, w.snapshots))
    && (w.lock.Some? ==> KnownIds(w.procs[w.lock.value].pc, w.snapshots))
  }

  predicate Safe(w: World) { Sound(w) && !Dangerous(w) }

  /** One step of the operation past the lock. */
  predicate SafeAt(pc: Pc, f: StateFile, snapshots: seq<Id>, reboots: seq<Id>) {
    && NoDuplicates(reboots) && (forall id :: id in reboots ==> id in snapshots)
    && KnownFile(f, snapshots) && KnownIds(pc, snapshots)
    && !Rearmed(f, reboots) && !LeadsAstray(pc, f, reboots)
  }

  lemma OsMoveSafe(pc: Pc, f: StateFile, a: Answer, snapshots: seq<Id>, reboots: seq<Id>)
    requires SafeAt(pc, f, snapshots, reboots) && (pc.OsStart? && a.planned ==> a.id !in snapshots)
    ensures var m := OsMove(pc, f, a); SafeAt(m.pc, m.file, snapshots + AsSeq(m.snapshot), reboots + AsSeq(m.reboot))
  {
  }

  lemma BootCheckMoveSafe(pc: Pc, f: StateFile, a: Answer, snapshots: seq<Id>, reboots: seq<Id>)
    requires SafeAt(pc, f, snapshots, reboots)
    ensures var m := BootCheckMove(pc, f, a); SafeAt(m.pc, m.file, snapshots + AsSeq(m.snapshot), reboots + AsSeq(m.reboot))
  {
  }

  lemma StepStaysSafe(w: World, e: Event)
    requires Safe(w) && Sane(w, e)
    ensures Safe(Happen(w, e))
  {
    StepKeepsExclusive(w, e);
    match e {
      case Go(i, a) =>
        if i < |w.procs| && InBody(w.procs[i].pc) {
          assert w.lock == Some(i);
          var pc := w.procs[i].pc;
          match w.procs[i].op {
            case OsUpdate => OsMoveSafe(pc, w.file, a, w.snapshots, w.reboots);
            case BootCheck => BootCheckMoveSafe(pc, w.file, a, w.snapshots, w.reboots);
            case _ =>
          }
          assert w.snapshots + [] == w.snapshots && w.reboots + [] == w.reboots;
        }
      case _ =>
    }
  }

  lemma {:induction false} RunStaysSafe(w: World, events: seq<Event>)
    requires Safe(w) && AllSane(w, events)
    ensures Safe(Run(w, events))
  {
    if events != [] {
      var n := |events| - 1;
      assert forall k :: 0 <= k < n ==> events[..n][..k] == events[..k];
      RunStaysSafe(w, events[..n]);
      StepStaysSafe(Run(w, events[..n]), events[n]);
    }
  }

  lemma {:induction false} DistinctFit(ids: seq<Id>, all: seq<Id>)
    requires NoDuplicates(ids) && forall id :: id in ids ==> id in all
    ensures |ids| <= |all|
  {
    if ids != [] {
      var n := |ids| - 1;
      assert ids[n] in all;
      var k :| 0 <= k < |all| && all[k] == ids[n];
      var rest := all[..k] + all[k + 1..];
      forall id | id in ids[..n] ensures id in rest {
        var i :| 0 <= i < n && ids[..n][i] == id;
        assert id == ids[i] && id in ids && id != all[k];
        var j :| 0 <= j < |all| && all[j] == id;
        assert rest[if j < k then j else j - 1] == id;
      }
      DistinctFit(ids[..n], rest);
    }
  }

  /** In every run, with power loss allowed between any two steps, boot-check reboots at most
      once for each update snapshot; so an update can start no reboot loop. */
  lemma OneRebootPerSnapshot(events: seq<Event>)
    requires AllSane(FACTORY, events)
    ensures Safe(Run(FACTORY, events)) && NoDuplicates(Run(FACTORY, events).reboots)
    ensures |Run(FACTORY, events).reboots| <= |Run(FACTORY, events).snapshots|
  {
    RunStaysSafe(FACTORY, events);
    DistinctFit(Run(FACTORY, events).reboots, Run(FACTORY, events).snapshots);
  }

  /** What a lock around the application's read and write would give: each write-back finds the
      file as it was read. */
  predicate Atomic(w: World, e: Event) {
    match e
    case HeartbeatSave => w.heartbeat.Some? ==> w.heartbeat.value == w.file
    case _ => Sane(w, e)
  }

  predicate AllAtomic(events: seq<Event>) {
    forall k :: 0 <= k < |events| ==> Atomic(Run(FACTORY, events[..k]), events[k])
  }

  lemma AtomicIsSane(w: World, e: Event)
    requires Safe(w) && Atomic(w, e)
    ensures Sane(w, e)
  {
    if e.HeartbeatSave? {
      assert Happen(w, e) == w.(heartbeat := None);
    }
  }

  /** With atomic write-backs, and new names for new snapshots, nothing more is needed: every
      such run is sane, so each snapshot causes at most one reboot. */
  lemma {:induction false} AtomicWritesSuffice(events: seq<Event>)
    requires AllAtomic(events)
    ensures AllSane(FACTORY, events) && NoDuplicates(Run(FACTORY, events).reboots)
  {
    if events != [] {
      var n := |events| - 1;
      assert forall k :: 0 <= k < n ==> events[..n][..k] == events[..k];
      AtomicWritesSuffice(events[..n]);
      OneRebootPerSnapshot(events[..n]);
      AtomicIsSane(Run(FACTORY, events[..n]), events[n]);
      SaneSnoc(events);
    }
    OneRebootPerSnapshot(events);
  }

  lemma SaneSnoc(events: seq<Event>)
    requires events != [] && AllSane(FACTORY, events[..|events| - 1])
    requires Sane(Run(FACTORY, events[..|events| - 1]), events[|events| - 1])
    ensures AllSane(FACTORY, events)
  {
    var n := |events| - 1;
    forall k | 0 <= k < |events| ensures Sane(Run(FACTORY, events[..k]), events[k]) {
      if k < n {
        assert events[..n][..k] == events[..k] && events[..n][k] == events[k];
      }
    }
  }

  // ---------------------------------------------------------------- why danger is exactly that

  function Times(n: nat, e: Event): seq<Event> {
    if n == 0 then [] else [e] + Times(n - 1, e)
  }

  lemma {:induction false} RunThen(w: World, a: seq<Event>, b: seq<Event>)
    ensures Run(w, a + b) == Run(Run(w, a), b)
  {
    if b == [] {
      assert a + b == a;
    } else {
      var n := |b| - 1;
      RunThen(w, a, b[..n]);
      assert (a + b)[..|a + b| - 1] == a + b[..n];
    }
  }

  lemma RunFirst(w: World, e: Event, rest: seq<Event>)
    ensures Run(w, [e] + rest) == Run(Happen(w, e), rest)
  {
    RunThen(w, [e], rest);
    assert [e][..0] == [];
  }

  /** Nothing works, but the snapshot's packages can be put back. */
  const SICK := Answer(true, false, 0, false, false, true, true)

  /** Some steps of one invocation that is past the lock are the operation's own moves. */
  lemma {:induction false} StepsAreMoves(w: World, i: nat, n: nat)
    requires i < |w.procs| && !w.procs[i].pc.Waiting? && OwnStep(w.procs[i])
    ensures var v, end := Run(w, Times(n, Go(i, SICK))), MovesFrom(n, w.procs[i], w.file, w.snapshots, w.reboots, SICK);
            v.file == end.file && v.reboots == end.reboots
    decreases n
  {
    if n > 0 {
      var p, v := w.procs[i], Happen(w, Go(i, SICK));
      RunFirst(w, Go(i, SICK), Times(n - 1, Go(i, SICK)));
      if InBody(p.pc) {
        MoveStaysOwn(p, w.file, SICK);
      }
      StepsAreMoves(v, i, n - 1);
    }
  }

  /** The power fails, and the next boot's boot-check finds the application sick. */
  function SickBoot(): seq<Event> { [PowerLoss] + ([Invoke(BootCheck)] + ([Go(0, SICK)] + Times(8, Go(0, SICK)))) }

  lemma SickBootReboots(w: World)
    requires Armed(w.file)
    ensures Run(w, SickBoot()).reboots == w.reboots + [w.file.pending.value]
  {
    var go := Go(0, SICK);
    var off := Happen(w, PowerLoss);
    var asked := Happen(off, Invoke(BootCheck));
    var begun := Happen(asked, go);
    RunFirst(w, PowerLoss, [Invoke(BootCheck)] + ([go] + Times(8, go)));
    RunFirst(off, Invoke(BootCheck), [go] + Times(8, go));
    RunFirst(asked, go, Times(8, go));
    assert begun.procs == [Proc(BootCheck, BcProbe)];
    StepsAreMoves(begun, 0, 8);
    BootCheckOutcome(w.file, w.snapshots, w.reboots, SICK);
  }

  lemma {:induction false} RebootsGrow(w: World, events: seq<Event>)
    ensures w.reboots <= Run(w, events).reboots
  {
    if events != [] {
      RebootsGrow(w, events[..|events| - 1]);
    }
  }

  /** What brings a danger out: let the operation past the lock go on, then a sick boot. */
  function Trouble(w: World): seq<Event> {
    (if Rearmed(w.file, w.reboots) || w.lock.None? then [] else Times(6, Go(w.lock.value, SICK))) + SickBoot()
  }

  /** The operation past the lock goes astray: a snapshot is rebooted for again, or armed again. */
  lemma AstrayMoves(p: Proc, f: StateFile, snapshots: seq<Id>, reboots: seq<Id>)
    requires OwnStep(p) && LeadsAstray(p.pc, f, reboots)
    ensures var end := MovesFrom(6, p, f, snapshots, reboots, SICK);
            !NoDuplicates(end.reboots) || Rearmed(end.file, end.reboots)
  {
    match p.pc {
      case OsSetAttempted =>
        MovesOn(6, p, f, snapshots, reboots, SICK);
        MovesOn(5, p.(pc := OsUpgrade), f.(attempted := Some("0")), snapshots, reboots, SICK);
      case BcUnsetAttempted =>
        MovesOn(6, p, f, snapshots, reboots, SICK);
      case BcRestart(pending) =>
        MovesOn(6, p, f, snapshots, reboots, SICK);
        MovesOn(5, p.(pc := BcDecide(pending)), f, snapshots, reboots, SICK);
        RolledBack(4, p.(pc := BcRollback(pending.value)), f, snapshots, reboots);
        SecondReboot(reboots, pending.value);
      case BcDecide(pending) =>
        MovesOn(6, p, f, snapshots, reboots, SICK);
        RolledBack(5, p.(pc := BcRollback(pending.value)), f, snapshots, reboots);
        SecondReboot(reboots, pending.value);
      case BcRollback(id) =>
        RolledBack(6, p, f, snapshots, reboots);
        SecondReboot(reboots, id);
      case BcSetAttempted(id, _) =>
        MovesOn(6, p, f, snapshots, reboots, SICK);
        Alerted(5, p.(pc := BcAlert(id, true)), f.(attempted := Some("1")), snapshots, reboots);
        SecondReboot(reboots, id);
      case BcAlert(id, _) =>
        Alerted(6, p, f, snapshots, reboots);
        SecondReboot(reboots, id);
      case BcReboot(id) =>
        MovesOn(6, p, f, snapshots, reboots, SICK);
        SecondReboot(reboots, id);
    }
  }

  lemma SecondReboot(reboots: seq<Id>, id: Id)
    ensures id in reboots ==> !NoDuplicates(reboots + [id])
    ensures id in reboots + [id]
  {
    if id in reboots {
      var i :| 0 <= i < |reboots| && reboots[i] == id;
      assert (reboots + [id])[i] == (reboots + [id])[|reboots|];
    }
  }

  lemma Alerted(n: nat, p: Proc, f: StateFile, snapshots: seq<Id>, reboots: seq<Id>)
    requires n >= 2 && OwnStep(p) && p.pc.BcAlert? && p.pc.reverted
    ensures MovesFrom(n, p, f, snapshots, reboots, SICK) == End(Exited, f, snapshots, reboots + [p.pc.id])
  {
    MovesOn(n, p, f, snapshots, reboots, SICK);
    MovesOn(n - 1, p.(pc := BcReboot(p.pc.id)), f, snapshots, reboots, SICK);
  }

  lemma RolledBack(n: nat, p: Proc, f: StateFile, snapshots: seq<Id>, reboots: seq<Id>)
    requires n >= 4 && OwnStep(p) && p.pc.BcRollback?
    ensures MovesFrom(n, p, f, snapshots, reboots, SICK).reboots == reboots + [p.pc.id]
  {
    MovesOn(n, p, f, snapshots, reboots, SICK);
    MovesOn(n - 1, p.(pc := BcSetAttempted(p.pc.id, true)), f, snapshots, reboots, SICK);
    Alerted(n - 2, p.(pc := BcAlert(p.pc.id, true)), f.(attempted := Some("1")), snapshots, reboots);
  }

  lemma DuplicatesStay(w: World, events: seq<Event>)
    requires !NoDuplicates(w.reboots)
    ensures !NoDuplicates(Run(w, events).reboots)
  {
    RebootsGrow(w, events);
    var i, j :| 0 <= i < j < |w.reboots| && w.reboots[i] == w.reboots[j];
    assert Run(w, events).reboots[i] == Run(w, events).reboots[j];
  }

  lemma TroubleComes(w: World)
    requires Sound(w) && Dangerous(w)
    ensures !NoDuplicates(Run(w, Trouble(w)).reboots)
  {
    if Rearmed(w.file, w.reboots) {
      assert [] + SickBoot() == SickBoot();
      SickBootReboots(w);
      SecondReboot(w.reboots, w.file.pending.value);
    } else {
      var i := w.lock.value;
      var steps := Times(6, Go(i, SICK));
      var mid := Run(w, steps);
      RunThen(w, steps, SickBoot());
      StepsAreMoves(w, i, 6);
      AstrayMoves(w.procs[i], w.file, w.snapshots, w.reboots);
      if NoDuplicates(mid.reboots) {
        SickBootReboots(mid);
        SecondReboot(mid.reboots, mid.file.pending.value);
      } else {
        DuplicatesStay(mid, SickBoot());
      }
    }
  }

  /** The application writes nothing, and no update starts anew. */
  predicate Plain(events: seq<Event>) {
    forall k :: 0 <= k < |events| ==> events[k] != HeartbeatSave && (events[k].Go? ==> !events[k].answer.planned)
  }

  lemma {:induction false} TimesPlain(n: nat, e: Event)
    requires Plain([e])
    ensures Plain(Times(n, e))
  {
    if n > 0 {
      TimesPlain(n - 1, e);
      PlainThen([e], Times(n - 1, e));
    }
  }

  lemma PlainThen(a: seq<Event>, b: seq<Event>)
    requires Plain(a) && Plain(b)
    ensures Plain(a + b)
  {
  }

  lemma TroubleIsPlain(w: World)
    ensures Plain(Trouble(w))
  {
    var go := Go(0, SICK);
    TimesPlain(8, go);
    PlainThen([go], Times(8, go));
    PlainThen([Invoke(BootCheck)], [go] + Times(8, go));
    PlainThen([PowerLoss], [Invoke(BootCheck)] + ([go] + Times(8, go)));
    if w.lock.Some? {
      TimesPlain(6, Go(w.lock.value, SICK));
      PlainThen(Times(6, Go(w.lock.value, SICK)), SickBoot());
    }
    assert [] + SickBoot() == SickBoot();
  }

  lemma PlainIsSane(w: World, events: seq<Event>)
    requires Plain(events)
    ensures AllSane(w, events)
  {
  }

  predicate Doomed(w: World, events: seq<Event>) {
    Plain(events) && AllSane(w, events) && !NoDuplicates(Run(w, events).reboots)
  }

  /** The condition is exact: from a state that it calls dangerous, and from no other, the
      device can come to reboot twice for one snapshot with nothing more going wrong. */
  lemma DangerIsExact(w: World)
    requires Sound(w)
    ensures Dangerous(w) <==> exists events :: Doomed(w, events)
  {
    if Dangerous(w) {
      TroubleComes(w);
      TroubleIsPlain(w);
      PlainIsSane(w, Trouble(w));
      assert Doomed(w, Trouble(w));
    }
    if events :| Doomed(w, events) {
      if !Dangerous(w) {
        RunStaysSafe(w, events);
        assert false;
      }
    }
  }

  /** A copy that is written back while the file is still as it was read is harmless; in
      general, writing a copy back is harmless exactly when no second reboot can follow. */
  lemma SaveIsHarmlessIff(w: World)
    requires Safe(w) && w.heartbeat.Some?
    ensures w.heartbeat == Some(w.file) ==> Sane(w, HeartbeatSave)
    ensures Sane(w, HeartbeatSave) <==> !exists events :: Doomed(Happen(w, HeartbeatSave), events)
  {
    StepKeepsExclusive(w, HeartbeatSave);
    DangerIsExact(Happen(w, HeartbeatSave));
  }

  /** A boot-check about to act for a snapshot, with the packages put back. */
  function Acting(id: Id, pc: Pc, f: StateFile, copy: Option<StateFile>): World {
    World([Proc(BootCheck, pc)], Some(0), f, copy, [id], [], 0, false)
  }

  lemma StaleSave(id: Id)
    ensures var f := StateFile(Some(id), Some("0"));
            Run(Acting(id, BcSetAttempted(id, true), f, None), [HeartbeatLoad, Go(0, SICK), HeartbeatSave]) == Acting(id, BcAlert(id, true), f, None)
  {
    var f := StateFile(Some(id), Some("0"));
    var start := Acting(id, BcSetAttempted(id, true), f, None);
    var read := Happen(start, HeartbeatLoad);
    var marked := Happen(read, Go(0, SICK));
    assert [HeartbeatLoad, Go(0, SICK), HeartbeatSave] == [HeartbeatLoad] + ([Go(0, SICK)] + ([HeartbeatSave] + []));
    RunFirst(start, HeartbeatLoad, [Go(0, SICK)] + ([HeartbeatSave] + []));
    RunFirst(read, Go(0, SICK), [HeartbeatSave] + []);
    RunFirst(marked, HeartbeatSave, []);
    assert [id] + [] == [id];
  }

  /** The application reads the file, boot-check marks its attempt, the application writes
      its copy back: then one snapshot can cause two reboots, though the start was safe. */
  lemma StaleCopyBreaksTheGuard(id: Id)
    ensures var start := Acting(id, BcSetAttempted(id, true), StateFile(Some(id), Some("0")), None);
      && Safe(start)
      && exists events :: Doomed(Run(start, [HeartbeatLoad, Go(0, SICK), HeartbeatSave]), events)
  {
    StaleSave(id);
    DangerIsExact(Acting(id, BcAlert(id, true), StateFile(Some(id), Some("0")), None));
  }
}
