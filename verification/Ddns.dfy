/** Dynamic DNS: devices that look a record up, and then write it, against one shared zone.
    Each device has record names of its own and runs one update at a time. */
module Ddns {
  datatype Kind = A | AAAA

  /** What a record is about. */
  datatype Slot = Slot(name: string, kind: Kind)

  datatype Record = Record(slot: Slot, content: string)

  /** The zone: records by id. */
  type Zone = map<nat, Record>

  // ---------------------------------------------------------------- one upsert

  /** What the lookup told the script. */
  datatype Found = Failed | New | Existing(id: nat, content: string)

  /** The answer to a lookup: failed says the request did; pick chooses the record that the
      service lists first, when there is one. */
  function LookUp(zone: Zone, slot: Slot, failed: bool, pick: nat): Found {
    if failed then Failed
    else if pick in zone && zone[pick].slot == slot then Existing(pick, zone[pick].content)
    else New
  }

  /** A truthful lookup: it names some record of the slot if there is one. */
  predicate Truthful(zone: Zone, slot: Slot, failed: bool, pick: nat) {
    failed || (pick in zone && zone[pick].slot == slot) || forall id :: id in zone ==> zone[id].slot != slot
  }

  datatype Write = NoWrite | Create(content: string) | Update(id: nat, content: string) | Delete(id: nat)

  /** What the script decides to write; an empty address means there is none. */
  function Decide(found: Found, ip: string): Write {
    match found
    case Failed => NoWrite
    case New => if ip == "" then NoWrite else Create(ip)
    case Existing(id, content) =>
      if content == ip then NoWrite
      else if ip == "" then Delete(id)
      else Update(id, ip)
  }

  /** The service carries a write out; a new record gets a new id. */
  function Carry(zone: Zone, slot: Slot, w: Write, newId: nat): Zone {
    match w
    case NoWrite => zone
    case Create(content) => zone[newId := Record(slot, content)]
    case Update(id, content) => if id in zone then zone[id := zone[id].(content := content)] else zone
    case Delete(id) => zone - {id}
  }

  predicate SingleRecords(zone: Zone) {
    forall i, j :: i in zone && j in zone && zone[i].slot == zone[j].slot ==> i == j
  }

  /** The address that the zone gives for a slot, or none. */
  ghost predicate Says(zone: Zone, slot: Slot, ip: string) {
    if ip == "" then forall id :: id in zone ==> zone[id].slot != slot
    else exists id :: id in zone && zone[id] == Record(slot, ip)
  }

  /** How a write request ends: not carried out, carried out and answered, or carried out with
      the answer lost. */
  datatype Outcome = Rejected | Heard | Unheard

  class Service {
    var zone: Zone

    /** _cf_upsert with nobody else at work on the slot; logged says whether it reports success
        or has nothing to do. */
    method Upsert(slot: Slot, ip: string, failed: bool, pick: nat, outcome: Outcome, newId: nat) returns (wrote: Write, logged: bool)
      requires Truthful(zone, slot, failed, pick) && SingleRecords(zone) && newId !in zone
      requires forall id :: id in zone ==> zone[id].content != ""
      modifies this
      ensures zone == if outcome.Rejected? then old(zone) else Carry(old(zone), slot, wrote, newId)
      ensures SingleRecords(zone) && forall id :: id in zone ==> zone[id].content != ""
      ensures forall id :: id in old(zone) && old(zone)[id].slot != slot ==> id in zone && zone[id] == old(zone)[id]
      ensures !failed && (!outcome.Rejected? || wrote == NoWrite) ==> Says(zone, slot, ip)
      ensures logged <==> !failed && (outcome.Heard? || wrote == NoWrite)
      ensures !failed ==> (wrote == NoWrite <==> Says(old(zone), slot, ip))
      ensures failed ==> wrote == NoWrite
    {
      var found := LookUp(zone, slot, failed, pick);
      wrote, logged := NoWrite, false;
      match found {
        case Failed =>
          return;
        case New =>
          if ip == "" {
            return NoWrite, true;
          }
          wrote := Create(ip);
          if !outcome.Rejected? {
            zone := zone[newId := Record(slot, ip)];
            assert zone[newId] == Record(slot, ip);
          }
        case Existing(id, content) =>
          if content == ip {
            assert zone[id] == Record(slot, ip);
            return NoWrite, true;
          }
          if ip == "" {
            wrote := Delete(id);
            if !outcome.Rejected? {
              zone := zone - {id};
            }
          } else {
            wrote := Update(id, ip);
            if !outcome.Rejected? {
              zone := zone[id := zone[id].(content := ip)];
              assert zone[id] == Record(slot, ip);
            }
          }
      }
      logged := outcome.Heard?;
    }
  }

  // ---------------------------------------------------------------- many devices at once

  /** Where a device is: between updates, or with a lookup's answer it is about to act on. */
  datatype Phase = Idle | Deciding(slot: Slot, ip: string, found: Found)

  /** said: what each slot's last upsert that took effect set it to, "" for removed. logged: the
      same by the devices' logs, which miss an upsert whose answer was lost. doubt: the slots
      of which that was the last and it set another address than was logged. */
  datatype World = World(zone: Zone, phases: seq<Phase>, said: map<Slot, string>, logged: map<Slot, string>, doubt: set<Slot>)

  function Start(zone: Zone, devices: nat): World { World(zone, seq(devices, _ => Idle), map[], map[], {}) }

  datatype Event =
    | Begin(device: nat, slot: Slot, ip: string, failed: bool, pick: nat)
    | Send(device: nat, outcome: Outcome, newId: nat)

  /** An upsert takes effect when its lookup works and its write, if it needs one, is carried out. */
  predicate TakesEffect(p: Phase, outcome: Outcome)
    requires p.Deciding?
  {
    !p.found.Failed? && (!outcome.Rejected? || Decide(p.found, p.ip) == NoWrite)
  }

  predicate Lost(p: Phase, outcome: Outcome)
    requires p.Deciding?
  {
    outcome.Unheard? && Decide(p.found, p.ip) != NoWrite
  }

  /** The log's last line for the slot names the address. */
  predicate LogSays(logged: map<Slot, string>, slot: Slot, ip: string) { slot in logged && logged[slot] == ip }

  function Happen(w: World, e: Event): World {
    match e
    case Begin(d, slot, ip, failed, pick) =>
      if d < |w.phases| && w.phases[d].Idle? then
        w.(phases := w.phases[d := Deciding(slot, ip, LookUp(w.zone, slot, failed, pick))])
      else w
    case Send(d, outcome, newId) =>
      if d < |w.phases| && w.phases[d].Deciding? then
        var p := w.phases[d];
        if TakesEffect(p, outcome) then
          World(Carry(w.zone, p.slot, Decide(p.found, p.ip), newId), w.phases[d := Idle], w.said[p.slot := p.ip],
                if Lost(p, outcome) then w.logged else w.logged[p.slot := p.ip],
                if Lost(p, outcome) && !LogSays(w.logged, p.slot, p.ip) then w.doubt + {p.slot} else w.doubt - {p.slot})
        else w.(phases := w.phases[d := Idle])
      else w
  }

  /** owner: whose name each name is. Devices touch their own names only, lookups tell the
      truth, and the service gives new records new ids. */
  predicate Fair(w: World, owner: string -> nat, e: Event) {
    match e
    case Begin(d, slot, _, failed, pick) => owner(slot.name) == d && Truthful(w.zone, slot, failed, pick)
    case Send(_, _, newId) => newId !in w.zone
  }

  function Run(start: World, events: seq<Event>): World {
    if events == [] then start
    else Happen(Run(start, events[..|events| - 1]), events[|events| - 1])
  }

  predicate AllFair(start: World, owner: string -> nat, events: seq<Event>) {
    forall k :: 0 <= k < |events| ==> Fair(Run(start, events[..k]), owner, events[k])
  }

  /** What a lookup answered is still so. */
  predicate Current(zone: Zone, p: Phase) {
    match p
    case Idle => true
    case Deciding(slot, ip, found) =>
      match found
      case Failed => true
      case New => forall id :: id in zone ==> zone[id].slot != slot
      case Existing(id, content) => id in zone && zone[id] == Record(slot, content)
  }

  /** What each device is about to act on is so, and about a name of its own. */
  predicate PhasesFit(zone: Zone, phases: seq<Phase>, owner: string -> nat) {
    forall d :: 0 <= d < |phases| ==> Current(zone, phases[d]) && (phases[d].Deciding? ==> owner(phases[d].slot.name) == d)
  }

  ghost predicate AllSaid(zone: Zone, said: map<Slot, string>) {
    forall slot :: slot in said ==> Says(zone, slot, said[slot])
  }

  /** The logs are right exactly for the slots that are not in doubt. */
  predicate LogsFit(said: map<Slot, string>, logged: map<Slot, string>, doubt: set<Slot>) {
    && (forall slot :: slot in said ==> (slot in doubt <==> !LogSays(logged, slot, said[slot])))
    && (forall slot :: slot in logged ==> slot in said)
    && (forall slot :: slot in doubt ==> slot in said)
  }

  ghost predicate Good(w: World, owner: string -> nat) {
    && SingleRecords(w.zone) && (forall id :: id in w.zone ==> w.zone[id].content != "")
    && PhasesFit(w.zone, w.phases, owner) && AllSaid(w.zone, w.said) && LogsFit(w.said, w.logged, w.doubt)
  }

  /** The records that both zones have of a slot are the same ones. */
  ghost predicate SameRecords(before: Zone, after: Zone, slot: Slot) {
    && (forall id :: id in before && before[id].slot == slot ==> id in after && after[id] == before[id])
    && (forall id :: id in after && after[id].slot == slot ==> id in before && before[id] == after[id])
  }

  /** Acting on an answer for one slot changes nothing of another. */
  lemma CarryElsewhere(zone: Zone, p: Phase, newId: nat, other: Slot)
    requires p.Deciding? && Current(zone, p) && newId !in zone && other != p.slot
    ensures var after := Carry(zone, p.slot, Decide(p.found, p.ip), newId);
            SameRecords(zone, after, other)
  {
  }

  lemma CarryKeepsSingle(zone: Zone, p: Phase, newId: nat)
    requires p.Deciding? && Current(zone, p) && newId !in zone && SingleRecords(zone)
    requires forall id :: id in zone ==> zone[id].content != ""
    ensures var after := Carry(zone, p.slot, Decide(p.found, p.ip), newId);
            SingleRecords(after) && forall id :: id in after ==> after[id].content != ""
    ensures !p.found.Failed? ==> Says(Carry(zone, p.slot, Decide(p.found, p.ip), newId), p.slot, p.ip)
  {
    var after := Carry(zone, p.slot, Decide(p.found, p.ip), newId);
    match p.found {
      case Failed =>
      case New => if p.ip != "" { assert after[newId] == Record(p.slot, p.ip); }
      case Existing(id, _) => if p.ip != "" { assert after[id] == Record(p.slot, p.ip); }
    }
  }

  lemma SaysElsewhere(zone: Zone, p: Phase, newId: nat, other: Slot, ip: string)
    requires p.Deciding? && Current(zone, p) && newId !in zone && other != p.slot && Says(zone, other, ip)
    ensures Says(Carry(zone, p.slot, Decide(p.found, p.ip), newId), other, ip)
  {
    CarryElsewhere(zone, p, newId, other);
    if ip != "" {
      var id :| id in zone && zone[id] == Record(other, ip);
      assert Carry(zone, p.slot, Decide(p.found, p.ip), newId)[id] == Record(other, ip);
    }
  }

  /** The zone after device d has acted. */
  function Acted(w: World, d: nat, newId: nat): Zone
    requires d < |w.phases| && w.phases[d].Deciding?
  {
    Carry(w.zone, w.phases[d].slot, Decide(w.phases[d].found, w.phases[d].ip), newId)
  }

  lemma PhasesStayFit(w: World, owner: string -> nat, d: nat, newId: nat)
    requires PhasesFit(w.zone, w.phases, owner) && d < |w.phases| && w.phases[d].Deciding? && newId !in w.zone
    ensures PhasesFit(Acted(w, d, newId), w.phases[d := Idle], owner)
  {
    var p, after := w.phases[d], w.phases[d := Idle];
    forall k | 0 <= k < |after| ensures Current(Acted(w, d, newId), after[k]) && (after[k].Deciding? ==> owner(after[k].slot.name) == k) {
      if k != d && w.phases[k].Deciding? {
        assert w.phases[k].slot != p.slot;
        CarryElsewhere(w.zone, p, newId, w.phases[k].slot);
      }
    }
  }

  lemma AllStaySaid(w: World, d: nat, newId: nat)
    requires AllSaid(w.zone, w.said) && d < |w.phases| && w.phases[d].Deciding? && Current(w.zone, w.phases[d]) && newId !in w.zone
    requires Says(Acted(w, d, newId), w.phases[d].slot, w.phases[d].ip)
    ensures AllSaid(Acted(w, d, newId), w.said[w.phases[d].slot := w.phases[d].ip])
    ensures forall slot :: slot != w.phases[d].slot ==> SameRecords(w.zone, Acted(w, d, newId), slot)
  {
    var p := w.phases[d];
    forall slot | slot in w.said && slot != p.slot ensures Says(Acted(w, d, newId), slot, w.said[slot]) {
      SaysElsewhere(w.zone, p, newId, slot, w.said[slot]);
    }
    forall slot | slot != p.slot ensures SameRecords(w.zone, Acted(w, d, newId), slot) {
      CarryElsewhere(w.zone, p, newId, slot);
    }
  }

  lemma LogsStayFit(said: map<Slot, string>, logged: map<Slot, string>, doubt: set<Slot>, slot: Slot, ip: string, lost: bool)
    requires LogsFit(said, logged, doubt)
    ensures LogsFit(said[slot := ip], if lost then logged else logged[slot := ip],
                    if lost && !LogSays(logged, slot, ip) then doubt + {slot} else doubt - {slot})
  {
  }

  lemma StepStaysGood(w: World, owner: string -> nat, e: Event)
    requires Good(w, owner) && Fair(w, owner, e)
    ensures Good(Happen(w, e), owner)
    ensures forall slot :: slot in w.said ==> slot in Happen(w, e).said
    ensures forall slot :: slot !in Happen(w, e).said ==> SameRecords(w.zone, Happen(w, e).zone, slot)
  {
    if e.Send? && e.device < |w.phases| && w.phases[e.device].Deciding? && TakesEffect(w.phases[e.device], e.outcome) {
      var p := w.phases[e.device];
      CarryKeepsSingle(w.zone, p, e.newId);
      PhasesStayFit(w, owner, e.device, e.newId);
      AllStaySaid(w, e.device, e.newId);
      LogsStayFit(w.said, w.logged, w.doubt, p.slot, p.ip, Lost(p, e.outcome));
    }
  }

  /** Under every interleaving of lookups and writes from any number of devices: never two
      records for one name and type, and each slot says what the last upsert of its own device
      that took effect set it to, or nothing after an empty address. So does the log, exactly
      unless the slot is in doubt: that one's answer was lost and it set another address than the
      log names. A slot that no upsert took effect on has the records it began
      with. */
  lemma {:induction false} EveryRunStaysGood(zone: Zone, devices: nat, owner: string -> nat, events: seq<Event>)
    requires SingleRecords(zone) && forall id :: id in zone ==> zone[id].content != ""
    requires AllFair(Start(zone, devices), owner, events)
    ensures var end := Run(Start(zone, devices), events);
            Good(end, owner) && forall slot :: slot !in end.said ==> SameRecords(zone, end.zone, slot)
  {
    var start := Start(zone, devices);
    if events != [] {
      var n := |events| - 1;
      assert forall k :: 0 <= k < n ==> events[..n][..k] == events[..k];
      EveryRunStaysGood(zone, devices, owner, events[..n]);
      StepStaysGood(Run(start, events[..n]), owner, events[n]);
    }
  }

  /** After any such run, an upsert of the address that the last one set decides on no write. */
  lemma UnchangedWritesNothing(zone: Zone, devices: nat, owner: string -> nat, events: seq<Event>, slot: Slot, failed: bool, pick: nat)
    requires SingleRecords(zone) && forall id :: id in zone ==> zone[id].content != ""
    requires AllFair(Start(zone, devices), owner, events)
    requires var end := Run(Start(zone, devices), events);
             slot in end.said && Truthful(end.zone, slot, failed, pick)
    ensures var end := Run(Start(zone, devices), events);
            Decide(LookUp(end.zone, slot, failed, pick), end.said[slot]) == NoWrite
  {
    var end := Run(Start(zone, devices), events);
    EveryRunStaysGood(zone, devices, owner, events);
    var ip := end.said[slot];
    assert Says(end.zone, slot, ip);
    if ip != "" {
      var id :| id in end.zone && end.zone[id] == Record(slot, ip);
      assert end.zone[id].slot == slot;
    }
  }

  /** The log can mislead: a lost answer leaves the record ahead of what was logged last. */
  lemma LostAnswersMislead(slot: Slot, a: string, b: string, owner: string -> nat)
    requires a != "" && b != "" && a != b && owner(slot.name) == 0
    ensures exists events :: AllFair(Start(map[], 1), owner, events)
              && var end := Run(Start(map[], 1), events);
                 slot in end.logged && end.logged[slot] == a && Says(end.zone, slot, b)
  {
    var start := Start(map[], 1);
    var e0, e1, e2, e3 := Begin(0, slot, a, false, 0), Send(0, Heard, 0), Begin(0, slot, b, false, 0), Send(0, Unheard, 1);
    var events := [e0, e1, e2, e3];
    var w1 := Happen(start, e0);
    var w2 := Happen(w1, e1);
    var w3 := Happen(w2, e2);
    var w4 := Happen(w3, e3);
    assert events[..0] == [] && events[..1] == [e0] && events[..2] == [e0, e1] && events[..3] == [e0, e1, e2];
    assert [e0][..0] == [] && [e0, e1][..1] == [e0] && [e0, e1, e2][..2] == [e0, e1];
    assert Run(start, events[..1]) == w1 && Run(start, events[..2]) == w2 && Run(start, events[..3]) == w3 && Run(start, events) == w4;
    assert w2.zone == map[0 := Record(slot, a)];
    assert w4.zone[0] == Record(slot, b);
    assert AllFair(start, owner, events);
  }
}
