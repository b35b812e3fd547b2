/** The heartbeat's downtime tracker: a file that survives reboots, memory that survives
    neither reboots nor restarts of the service, and a clock that cannot be trusted until
    it is synchronized. Times are in microseconds. */
module Downtime {
  import opened Text

  type Time = int

  /** The tracker's keys of state.json. */
  datatype Saved = Saved(bootTime: Option<Time>, lastSeen: Option<Time>, downtime: Option<Time>)

  datatype Memory = Memory(downtime: Option<Time>, compared: bool)

  const FRESH := Memory(None, false)

  /** One heartbeat with a trusted clock. */
  function Tick(file: Saved, m: Memory, now: Time, bootTime: Time): (Saved, Memory) {
    if m.compared then (file.(lastSeen := Some(now)), m)
    else if file.bootTime.None? then
      (Saved(Some(bootTime), Some(now), None), Memory(None, true))
    else if bootTime != file.bootTime.value && file.lastSeen.Some? then
      var outage := if now - file.lastSeen.value > 0 then now - file.lastSeen.value else 0;
      (Saved(Some(bootTime), Some(now), Some(outage)), Memory(Some(outage), true))
    else
      (Saved(Some(bootTime), Some(now), file.downtime), Memory(file.downtime, true))
  }

  class Heartbeat {
    // The file.
    var bootTime: Option<Time>
    var lastSeen: Option<Time>
    var savedDowntime: Option<Time>
    // The service's memory.
    var lastDowntime: Option<Time>
    var compared: bool

    function File(): Saved
      reads this
    {
      Saved(bootTime, lastSeen, savedDowntime)
    }

    function Mem(): Memory
      reads this
    {
      Memory(lastDowntime, compared)
    }

    /** _heartbeat_tick: synced says whether the clock can be trusted yet. */
    method HeartbeatTick(synced: bool, now: Time, currentBootTime: Time)
      modifies this
      ensures if synced then (File(), Mem()) == Tick(old(File()), old(Mem()), now, currentBootTime)
              else File() == old(File()) && Mem() == old(Mem())
    {
      if !synced {
        return;
      }
      if !compared {
        if bootTime.None? {
          lastDowntime := None;
          savedDowntime := None;
        } else if currentBootTime != bootTime.value && lastSeen.Some? {
          var outage := now - lastSeen.value;
          if outage < 0 {
            outage := 0;
          }
          lastDowntime := Some(outage);
          savedDowntime := lastDowntime;
        } else {
          lastDowntime := savedDowntime;
        }
        bootTime := Some(currentBootTime);
        compared := true;
      }
      lastSeen := Some(now);
    }
  }

  // ---------------------------------------------------------------- runs of a device

  /** A boot is counted from 0; bootTimes gives each one's reading of the boot time once the
      clock is right. The maintenance script changes keys of its own by reading the whole file
      and writing it back, and its process does not survive a reboot. */
  datatype Event =
    | Reboot
    | ServiceBounce
    | ClockSync
    | Beat(now: Time)
    | ScriptReads
    | ScriptWrites

  datatype World = World(
    file: Saved, memory: Memory, boot: nat, synced: bool,
    copy: Option<Saved>,          // what the script has read and not yet written back
    ticks: seq<(nat, Time)>,      // the boot and the time of every heartbeat that counted
    windows: seq<(Time, Time)>)   // the outages that were measured, from and to

  const EMPTY := Saved(None, None, None)

  const START := World(EMPTY, FRESH, 0, false, None, [], [])

  /** Did this heartbeat measure an outage? */
  predicate Measures(w: World, bootTime: Time) {
    !w.memory.compared && w.file.bootTime.Some? && bootTime != w.file.bootTime.value && w.file.lastSeen.Some?
  }

  function Happen(w: World, e: Event, bootTimes: nat -> Time): World {
    match e
    case Reboot => w.(memory := FRESH, boot := w.boot + 1, synced := false, copy := None)
    case ScriptReads => w.(copy := Some(w.file))
    case ScriptWrites => if w.copy.Some? then w.(file := w.copy.value, copy := None) else w
    case ServiceBounce => w.(memory := FRESH)
    case ClockSync => w.(synced := true)
    case Beat(now) =>
      if !w.synced then w
      else
        var (file, memory) := Tick(w.file, w.memory, now, bootTimes(w.boot));
        w.(file := file, memory := memory, ticks := w.ticks + [(w.boot, now)],
           windows := if Measures(w, bootTimes(w.boot)) then w.windows + [(w.file.lastSeen.value, now)] else w.windows)
  }

  function RunFrom(w: World, events: seq<Event>, bootTimes: nat -> Time): World {
    if events == [] then w
    else Happen(RunFrom(w, events[..|events| - 1], bootTimes), events[|events| - 1], bootTimes)
  }

  function Run(events: seq<Event>, bootTimes: nat -> Time): World { RunFrom(START, events, bootTimes) }

  /** Every write-back finds the file as the script has read it. */
  predicate Atomic(events: seq<Event>, bootTimes: nat -> Time) {
    forall k :: 0 <= k < |events| && events[k].ScriptWrites? ==>
      var w := Run(events[..k], bootTimes); w.copy.Some? ==> w.copy.value == w.file
  }

  /** The synchronized clock does not run backwards. */
  predicate Forwards(events: seq<Event>, bootTimes: nat -> Time) {
    var ticks := Run(events, bootTimes).ticks;
    forall i, j :: 0 <= i < j < |ticks| ==> ticks[i].1 <= ticks[j].1
  }

  /** Different boots have different boot times. */
  ghost predicate TellsBootsApart(bootTimes: nat -> Time) {
    forall i: nat, j: nat :: i != j ==> bootTimes(i) != bootTimes(j)
  }

  // ---------------------------------------------------------------- what should be measured

  /** The outages of a device, from its heartbeats alone: between two heartbeats in a row that
      belong to different boots. */
  function Outages(ticks: seq<(nat, Time)>): seq<(Time, Time)> {
    if |ticks| < 2 then []
    else
      var n := |ticks|;
      Outages(ticks[..n - 1])
      + (if ticks[n - 2].0 != ticks[n - 1].0 then [(ticks[n - 2].1, ticks[n - 1].1)] else [])
  }

  /** The figure that the last outage gives; none before the first. */
  function Figure(windows: seq<(Time, Time)>): Option<Time> {
    if windows == [] then None else Some(windows[|windows| - 1].1 - windows[|windows| - 1].0)
  }

  ghost predicate Tracks(w: World, bootTimes: nat -> Time) {
    && w.windows == Outages(w.ticks)
    && w.file.downtime == Figure(w.windows)
    && (w.ticks == [] ==> w.file == Saved(None, None, None) && !w.memory.compared)
    && (w.ticks != [] ==>
          var last := w.ticks[|w.ticks| - 1];
          && last.0 <= w.boot
          && w.file.bootTime == Some(bootTimes(last.0)) && w.file.lastSeen == Some(last.1)
          && (w.memory.compared ==> last.0 == w.boot && w.memory.downtime == w.file.downtime))
    && (!w.memory.compared ==> w.memory == FRESH)
    && (w.copy.Some? ==> CopyFits(w, w.copy.value, bootTimes(w.boot))
                         && (w.copy.value.bootTime.Some? ==> OfSomeBoot(w.copy.value, w.boot, bootTimes)))
  }

  /** The boot time is that of the given boot or one before. */
  ghost predicate OfSomeBoot(file: Saved, boot: nat, bootTimes: nat -> Time) {
    exists b: nat :: b <= boot && file.bootTime == Some(bootTimes(b))
  }

  /** What the script has read in this boot: nothing yet, as when there was no heartbeat ever; an
      earlier boot's keys; or this boot's, with the figure that the file still has. */
  predicate CopyFits(w: World, c: Saved, bootTime: Time) {
    if c.bootTime.None? then c == EMPTY && w.file.downtime.None? && (w.file.bootTime.None? || w.file.bootTime == Some(bootTime))
    else c.lastSeen.Some? && (c.bootTime == Some(bootTime) ==> w.file.bootTime == Some(bootTime) && c.downtime == w.file.downtime)
  }

  lemma OutagesSnoc(ticks: seq<(nat, Time)>, t: (nat, Time))
    ensures Outages(ticks + [t]) ==
            if ticks != [] && ticks[|ticks| - 1].0 != t.0 then Outages(ticks) + [(ticks[|ticks| - 1].1, t.1)] else Outages(ticks)
  {
    assert (ticks + [t])[..|ticks|] == ticks;
  }

  lemma StepTracks(w: World, e: Event, bootTimes: nat -> Time)
    requires Tracks(w, bootTimes) && TellsBootsApart(bootTimes)
    requires e.ScriptWrites? && w.copy.Some? ==> w.copy.value == w.file
    requires e.Beat? && w.ticks != [] ==> w.ticks[|w.ticks| - 1].1 <= e.now
    ensures Tracks(Happen(w, e, bootTimes), bootTimes)
  {
    if e.Beat? {
      OutagesSnoc(w.ticks, (w.boot, e.now));
    } else if e.ScriptReads? && w.ticks != [] {
      assert OfSomeBoot(w.file, w.boot, bootTimes);
    }
  }

  lemma EarlierForwards(events: seq<Event>, bootTimes: nat -> Time)
    requires events != [] && Forwards(events, bootTimes) && Atomic(events, bootTimes)
    ensures Forwards(events[..|events| - 1], bootTimes) && Atomic(events[..|events| - 1], bootTimes)
    ensures var before, e := Run(events[..|events| - 1], bootTimes), events[|events| - 1];
            e.Beat? && before.synced && before.ticks != [] ==> before.ticks[|before.ticks| - 1].1 <= e.now
  {
    var before, after := Run(events[..|events| - 1], bootTimes), Run(events, bootTimes);
    assert forall i :: 0 <= i < |before.ticks| ==> after.ticks[i] == before.ticks[i];
    assert forall k :: 0 <= k < |events| - 1 ==> events[..|events| - 1][..k] == events[..k];
    var e := events[|events| - 1];
    if e.Beat? && before.synced && before.ticks != [] {
      assert after.ticks[|before.ticks|] == (before.boot, e.now);
      assert after.ticks[|before.ticks| - 1].1 <= after.ticks[|before.ticks|].1;
    }
  }

  /** In every run of reboots, restarts, clock syncs, heartbeats and changes by the script that no
      heartbeat comes between: exactly the outages between boots are measured, the file holds the
      last one's length, and memory agrees with the file from the service's first counted
      heartbeat on. */
  lemma {:induction false} EveryRunTracks(events: seq<Event>, bootTimes: nat -> Time)
    requires TellsBootsApart(bootTimes) && Forwards(events, bootTimes) && Atomic(events, bootTimes)
    ensures Tracks(Run(events, bootTimes), bootTimes)
  {
    if events != [] {
      var before, e := Run(events[..|events| - 1], bootTimes), events[|events| - 1];
      EarlierForwards(events, bootTimes);
      EveryRunTracks(events[..|events| - 1], bootTimes);
      assert e.ScriptWrites? && before.copy.Some? ==> before.copy.value == before.file;
      if e.Beat? && !before.synced {
        assert Happen(before, e, bootTimes) == before;
      } else {
        StepTracks(before, e, bootTimes);
      }
    }
  }

  // ---------------------------------------------------------------- consequences

  /** The file's keys give the figure, for this boot. */
  predicate Gives(file: Saved, figure: Option<Time>, bootTime: Time) {
    file.downtime == figure && (file.bootTime == Some(bootTime) || (file.bootTime.None? && figure.None?))
  }

  /** So do the file, the script's copy and the service's memory. */
  predicate Steady(w: World, figure: Option<Time>, bootTime: Time) {
    && Gives(w.file, figure, bootTime) && (w.copy.Some? ==> Gives(w.copy.value, figure, bootTime))
    && (w.memory.compared ==> w.memory.downtime == figure)
  }

  predicate NoReboot(events: seq<Event>) { forall e :: e in events ==> !e.Reboot? }

  /** Then nothing but a reboot changes that or measures an outage. */
  lemma {:induction false} SteadyStays(w: World, more: seq<Event>, figure: Option<Time>, bootTimes: nat -> Time)
    requires Steady(w, figure, bootTimes(w.boot)) && NoReboot(more)
    ensures var v := RunFrom(w, more, bootTimes);
      && v.boot == w.boot && Steady(v, figure, bootTimes(w.boot)) && v.windows == w.windows
      && |w.ticks| <= |v.ticks| && v.ticks[..|w.ticks|] == w.ticks
      && forall i :: |w.ticks| <= i < |v.ticks| ==> v.ticks[i].0 == w.boot
  {
    if more != [] {
      var n := |more| - 1;
      assert more[n] in more;
      SteadyStays(w, more[..n], figure, bootTimes);
    }
  }

  /** This boot has had a counted heartbeat. */
  predicate Counted(w: World) { w.ticks != [] && w.ticks[|w.ticks| - 1].0 == w.boot }

  /** The script holds no copy from before this boot's first counted heartbeat, unless that was the
      first one ever. */
  predicate CopyIsOfThisBoot(w: World, bootTime: Time) {
    w.copy.Some? ==> w.copy.value.bootTime.None? || w.copy.value.bootTime == Some(bootTime)
  }

  lemma TrackedIsSteady(w: World, bootTimes: nat -> Time)
    requires Tracks(w, bootTimes) && Counted(w) && CopyIsOfThisBoot(w, bootTimes(w.boot))
    ensures Steady(w, w.file.downtime, bootTimes(w.boot))
  {
  }

  /** Once a heartbeat of this boot has counted, nothing but a reboot changes the figure or
      measures an outage, however often the service restarts and the script rewrites the file in
      whatever order: each restarted service comes back to the same figure. */
  lemma BouncesKeepFigure(events: seq<Event>, more: seq<Event>, bootTimes: nat -> Time)
    requires TellsBootsApart(bootTimes) && Forwards(events, bootTimes) && Atomic(events, bootTimes)
    requires NoReboot(more) && Counted(Run(events, bootTimes))
    requires CopyIsOfThisBoot(Run(events, bootTimes), bootTimes(Run(events, bootTimes).boot))
    ensures var w := Run(events, bootTimes);
            var v := RunFrom(w, more, bootTimes);
      && v.boot == w.boot && Counted(v)
      && v.windows == w.windows && v.file.downtime == w.file.downtime
      && (v.memory.compared ==> v.memory.downtime == w.file.downtime)
  {
    var w := Run(events, bootTimes);
    EveryRunTracks(events, bootTimes);
    TrackedIsSteady(w, bootTimes);
    SteadyStays(w, more, w.file.downtime, bootTimes);
  }

  // ---------------------------------------------------------------- write-backs that a heartbeat came before

  /** What is shown and saved until the next reboot is the figure. */
  ghost predicate KeepsFigure(w: World, figure: Option<Time>, bootTimes: nat -> Time) {
    forall more :: NoReboot(more) && Ascending(RunFrom(w, more, bootTimes).ticks) ==> Shows(RunFrom(w, more, bootTimes), figure)
  }

  predicate Shows(w: World, figure: Option<Time>) {
    w.file.downtime == figure && (w.memory.compared ==> w.memory.downtime == figure)
  }

  /** Over every run: a write-back by the script leaves the figure alone until the next reboot
      exactly if its copy was read after this boot's first counted heartbeat, or before the
      device's first one. */
  lemma WriteBackKeepsFigureIff(events: seq<Event>, bootTimes: nat -> Time)
    requires TellsBootsApart(bootTimes) && Forwards(events, bootTimes) && Atomic(events, bootTimes)
    requires Counted(Run(events, bootTimes)) && Run(events, bootTimes).copy.Some? && Run(events, bootTimes).synced
    ensures var w := Run(events, bootTimes);
            KeepsFigure(Happen(w, ScriptWrites, bootTimes), w.file.downtime, bootTimes) <==> CopyIsOfThisBoot(w, bootTimes(w.boot))
  {
    var w := Run(events, bootTimes);
    var v, figure := Happen(w, ScriptWrites, bootTimes), w.file.downtime;
    EveryRunTracks(events, bootTimes);
    if CopyIsOfThisBoot(w, bootTimes(w.boot)) {
      TrackedIsSteady(w, bootTimes);
      forall more | NoReboot(more) ensures Shows(RunFrom(v, more, bootTimes), figure) {
        SteadyStays(v, more, figure, bootTimes);
      }
    } else {
      var now := RestartMeasures(v, figure, bootTimes);
      assert NoReboot([ServiceBounce, Beat(now)]);
    }
  }

  lemma TwoEvents(w: World, a: Event, b: Event, bootTimes: nat -> Time)
    ensures RunFrom(w, [a, b], bootTimes) == Happen(Happen(w, a, bootTimes), b, bootTimes)
  {
    assert [a, b][..1] == [a] && [a][..0] == [];
    assert RunFrom(w, [a], bootTimes) == Happen(RunFrom(w, [], bootTimes), a, bootTimes);
  }

  lemma AscendingSnoc(ticks: seq<(nat, Time)>, t: (nat, Time))
    requires Ascending(ticks) && (ticks != [] ==> ticks[|ticks| - 1].1 <= t.1)
    ensures Ascending(ticks + [t])
  {
  }

  /** Over an earlier boot's file the next restart of the service counts the time since as outage,
      though the device was up. */
  lemma RestartMeasures(w: World, figure: Option<Time>, bootTimes: nat -> Time) returns (now: Time)
    requires w.synced && w.ticks != [] && Ascending(w.ticks)
    requires w.file.bootTime.Some? && w.file.bootTime != Some(bootTimes(w.boot)) && w.file.lastSeen.Some?
    ensures var v := RunFrom(w, [ServiceBounce, Beat(now)], bootTimes);
            v.ticks == w.ticks + [(w.boot, now)] && Ascending(v.ticks) && !Shows(v, figure)
  {
    var last, seen := w.ticks[|w.ticks| - 1].1, w.file.lastSeen.value;
    now := (if last > seen then last else seen) + (if figure.Some? && figure.value >= 0 then figure.value else 0) + 1;
    TwoEvents(w, ServiceBounce, Beat(now), bootTimes);
    AscendingSnoc(w.ticks, (w.boot, now));
  }

  /** The time since a copy was made, as when the state before a boot's first heartbeat is put back
      at once. */
  lemma StaleFileStretchesOutage(stale: Saved, seen: Time, first: Time, later: Time, bootTime: Time)
    requires stale.bootTime.Some? && stale.bootTime.value != bootTime && stale.lastSeen == Some(seen) && seen <= first < later
    ensures Tick(stale, FRESH, first, bootTime).0.downtime == Some(first - seen)
    ensures Tick(stale, FRESH, later, bootTime).0.downtime == Some(later - seen)
    ensures Tick(Tick(stale, FRESH, first, bootTime).0, FRESH, later, bootTime).0.downtime == Some(first - seen)
  {
  }

  /** Whatever happens, reboots included, and whatever the times, the same is shown. */
  ghost predicate NeverTold(v: World, w: World, bootTimes: nat -> Time) {
    forall more :: Ascending(RunFrom(w, more, bootTimes).ticks) ==>
      RunFrom(v, more, bootTimes).file.downtime == RunFrom(w, more, bootTimes).file.downtime
      && RunFrom(v, more, bootTimes).memory == RunFrom(w, more, bootTimes).memory
  }

  /** Over every run: a write-back can never be told from the script doing nothing, by any figure
      after it, exactly if it finds the file as it was read. So a copy of this boot that a heartbeat
      has overtaken still makes the next outage longer, if the device goes down before the next
      heartbeat. */
  lemma WriteBackIsInvisibleIff(events: seq<Event>, bootTimes: nat -> Time)
    requires TellsBootsApart(bootTimes) && Forwards(events, bootTimes) && Atomic(events, bootTimes)
    requires Counted(Run(events, bootTimes)) && Run(events, bootTimes).copy.Some? && Run(events, bootTimes).synced
    ensures var w := Run(events, bootTimes);
            NeverTold(Happen(w, ScriptWrites, bootTimes), w.(copy := None), bootTimes) <==> w.copy.value == w.file
  {
    var w := Run(events, bootTimes);
    var v, u := Happen(w, ScriptWrites, bootTimes), w.(copy := None);
    EveryRunTracks(events, bootTimes);
    if v.file != w.file {
      if v.file.bootTime.Some? && v.file.lastSeen == w.file.lastSeen {
        assert v.file.bootTime != Some(bootTimes(w.boot));
        var now := RestartMeasures(v, w.file.downtime, bootTimes);
        RestartKeeps(u, now, bootTimes);
        assert RunFrom(v, [ServiceBounce, Beat(now)], bootTimes).ticks == RunFrom(u, [ServiceBounce, Beat(now)], bootTimes).ticks;
      } else {
        var now := RebootTells(v, u, bootTimes);
      }
    }
  }

  lemma RestartKeeps(u: World, now: Time, bootTimes: nat -> Time)
    requires u.file.bootTime == Some(bootTimes(u.boot)) && u.synced
    ensures RunFrom(u, [ServiceBounce, Beat(now)], bootTimes).file.downtime == u.file.downtime
    ensures RunFrom(u, [ServiceBounce, Beat(now)], bootTimes).memory == Memory(u.file.downtime, true)
    ensures RunFrom(u, [ServiceBounce, Beat(now)], bootTimes).ticks == u.ticks + [(u.boot, now)]
  {
    TwoEvents(u, ServiceBounce, Beat(now), bootTimes);
  }

  lemma RebootTells(v: World, u: World, bootTimes: nat -> Time) returns (now: Time)
    requires TellsBootsApart(bootTimes) && v == u.(file := v.file) && u.ticks != [] && Ascending(u.ticks)
    requires u.file.bootTime == Some(bootTimes(u.boot)) && u.file.lastSeen.Some?
    requires v.file == EMPTY || (v.file.lastSeen.Some? && v.file.lastSeen != u.file.lastSeen && OfSomeBoot(v.file, u.boot, bootTimes))
    ensures !NeverTold(v, u, bootTimes)
  {
    var last, seen := u.ticks[|u.ticks| - 1].1, u.file.lastSeen.value;
    var other := if v.file.lastSeen.Some? then v.file.lastSeen.value else seen;
    now := if last > seen then last else seen;
    if other > now {
      now := other;
    }
    var events := [Reboot, ClockSync, Beat(now)];
    ThreeEvents(u, Reboot, ClockSync, Beat(now), bootTimes);
    ThreeEvents(v, Reboot, ClockSync, Beat(now), bootTimes);
    AscendingSnoc(u.ticks, (u.boot + 1, now));
    assert bootTimes(u.boot) != bootTimes(u.boot + 1);
    assert RunFrom(u, events, bootTimes).ticks == u.ticks + [(u.boot + 1, now)];
    assert RunFrom(u, events, bootTimes).file.downtime == Some(now - seen);
    var restarted := v.(memory := FRESH, boot := v.boot + 1, synced := true, copy := None);
    if v.file != EMPTY {
      var b: nat :| b <= u.boot && v.file.bootTime == Some(bootTimes(b));
      assert bootTimes(b) != bootTimes(u.boot + 1);
    }
    assert RunFrom(v, events, bootTimes).file == Tick(restarted.file, FRESH, now, bootTimes(v.boot + 1)).0;
    assert RunFrom(v, events, bootTimes).file.downtime != Some(now - seen);
  }

  lemma ThreeEvents(w: World, a: Event, b: Event, c: Event, bootTimes: nat -> Time)
    ensures RunFrom(w, [a, b, c], bootTimes) == Happen(Happen(Happen(w, a, bootTimes), b, bootTimes), c, bootTimes)
  {
    TwoEvents(w, a, b, bootTimes);
    assert [a, b, c][..2] == [a, b];
  }

  function Sum(windows: seq<(Time, Time)>): Time {
    if windows == [] then 0 else Sum(windows[..|windows| - 1]) + (windows[|windows| - 1].1 - windows[|windows| - 1].0)
  }

  lemma SumSnoc(windows: seq<(Time, Time)>, w: (Time, Time))
    ensures Sum(windows + [w]) == Sum(windows) + (w.1 - w.0)
  {
    assert (windows + [w])[..|windows|] == windows;
  }

  predicate Ascending(ticks: seq<(nat, Time)>) {
    forall i, j :: 0 <= i < j < |ticks| ==> ticks[i].1 <= ticks[j].1
  }

  lemma LastTwoAscend(ticks: seq<(nat, Time)>)
    requires Ascending(ticks) && |ticks| >= 2
    ensures ticks[0].1 <= ticks[|ticks| - 2].1 <= ticks[|ticks| - 1].1
  {
    if |ticks| > 2 {
      assert ticks[0].1 <= ticks[|ticks| - 2].1;
    }
  }

  /** Windows in order, none overlapping the next, all between two moments. */
  predicate Within(windows: seq<(Time, Time)>, from: Time, to: Time) {
    && (forall i :: 0 <= i < |windows| ==> from <= windows[i].0 <= windows[i].1 <= to)
    && (forall i, j :: 0 <= i < j < |windows| ==> windows[i].1 <= windows[j].0)
  }

  lemma OneMoreWindow(windows: seq<(Time, Time)>, from: Time, mid: Time, to: Time)
    requires Within(windows, from, mid) && from <= mid <= to
    ensures Within(windows, from, to) && Within(windows + [(mid, to)], from, to)
  {
  }

  lemma {:induction false} OutagesDisjoint(ticks: seq<(nat, Time)>)
    requires Ascending(ticks)
    ensures if ticks == [] then Outages(ticks) == [] else Within(Outages(ticks), ticks[0].1, ticks[|ticks| - 1].1)
  {
    if |ticks| >= 2 {
      var n := |ticks|;
      var before := ticks[..n - 1];
      assert forall i :: 0 <= i < |before| ==> before[i] == ticks[i];
      OutagesDisjoint(before);
      LastTwoAscend(ticks);
      OneMoreWindow(Outages(before), ticks[0].1, ticks[n - 2].1, ticks[n - 1].1);
    }
  }

  lemma {:induction false} OutagesFit(ticks: seq<(nat, Time)>)
    requires Ascending(ticks)
    ensures Sum(Outages(ticks)) <= if ticks == [] then 0 else ticks[|ticks| - 1].1 - ticks[0].1
  {
    if |ticks| >= 2 {
      var n := |ticks|;
      var before, t := ticks[..n - 1], ticks[n - 1];
      assert forall i :: 0 <= i < |before| ==> before[i] == ticks[i];
      OutagesFit(before);
      LastTwoAscend(ticks);
      assert before + [t] == ticks;
      OutagesSnoc(before, t);
      SumSnoc(Outages(before), (before[n - 2].1, t.1));
    }
  }

  /** The measured windows do not overlap, and all the downtime ever recorded fits into the
      time between the first and the last counted heartbeat. */
  lemma RecordedDowntimeFits(events: seq<Event>, bootTimes: nat -> Time)
    requires TellsBootsApart(bootTimes) && Forwards(events, bootTimes) && Atomic(events, bootTimes)
    ensures var w := Run(events, bootTimes);
      && (if w.ticks == [] then w.windows == [] else Within(w.windows, w.ticks[0].1, w.ticks[|w.ticks| - 1].1))
      && Sum(w.windows) <= if w.ticks == [] then 0 else w.ticks[|w.ticks| - 1].1 - w.ticks[0].1
  {
    EveryRunTracks(events, bootTimes);
    OutagesDisjoint(Run(events, bootTimes).ticks);
    OutagesFit(Run(events, bootTimes).ticks);
  }
}
