/** Any number of helper commands at once: the event loop may switch between them at each
    await and nowhere else. */
module HelperTasks {
  import opened Text
  import opened WgKey
  import opened ConfText
  import opened ConfInfo
  import opened IpText
  import opened Entries
  import opened Helper

  datatype Phase =
    | Ready
    | Waiting(effect: Effect)
    | Landed(rc: bool)
    | Finished(error: Option<HelperError>)

  /** One entry per command that has passed the point where it reads, checks and writes its
      file: which command, and whether it was refused there. */
  datatype Commit = Commit(task: nat, refused: Option<HelperError>)

  datatype World = World(store: Store, phases: seq<Phase>, log: seq<Commit>)

  /** The turn that starts a command, with its first piece already worked out. */
  function StartTurn(c: Command, w: World, i: nat, s: Store, next: Next): (v: World)
    requires i < |w.phases|
    ensures |v.phases| == |w.phases|
  {
    match next
    case Refuse(error) => World(s, w.phases[i := Finished(Some(error))], w.log + [Commit(i, Some(error))])
    case Finish => World(s, w.phases[i := Finished(None)], w.log + [Commit(i, None)])
    case Await(effect) =>
      World(s, w.phases[i := Waiting(effect)], if c.DeleteTunnel? then w.log else w.log + [Commit(i, None)])
  }

  /** One turn of the event loop: task i goes on to its next await, or the program it waits
      for takes effect (ok says how that ends). */
  function Step(cmds: seq<Command>, w: World, i: nat, ok: bool): (v: World)
    requires i < |cmds| == |w.phases|
    ensures |v.phases| == |w.phases|
  {
    match w.phases[i]
    case Ready =>
      var (s, next) := FirstPiece(cmds[i], w.store);
      StartTurn(cmds[i], w, i, s, next)
    case Waiting(effect) =>
      var (s, rc) := Land(effect, w.store, ok);
      World(s, w.phases[i := Landed(rc)], w.log)
    case Landed(rc) =>
      var (s, error) := LastPiece(cmds[i], w.store, rc);
      World(s, w.phases[i := Finished(error)], if cmds[i].DeleteTunnel? then w.log + [Commit(i, None)] else w.log)
    case Finished(_) => w
  }

  datatype Turn = Turn(task: nat, ok: bool)

  predicate ValidTurns(cmds: seq<Command>, turns: seq<Turn>) {
    forall k :: 0 <= k < |turns| ==> turns[k].task < |cmds|
  }

  /** The state after a schedule; the last turn is the latest. */
  function Run(cmds: seq<Command>, start: World, turns: seq<Turn>): (w: World)
    requires |start.phases| == |cmds| && ValidTurns(cmds, turns)
    ensures |w.phases| == |cmds|
    decreases |turns|
  {
    if turns == [] then start
    else
      var last := turns[|turns| - 1];
      Step(cmds, Run(cmds, start, turns[..|turns| - 1]), last.task, last.ok)
  }

  function Initial(cmds: seq<Command>, store: Store): (w: World)
    ensures |w.phases| == |cmds|
  {
    World(store, seq(|cmds|, _ => Ready), [])
  }

  // ---------------------------------------------------------------- the files: some serial order

  /** What a command does to the files when it runs alone, and whether it is refused. */
  function Alone(c: Command, files: Files): (Files, Option<HelperError>) {
    if Check(c).Some? then (files, Check(c))
    else match c
      case CreateTunnel(name, privateKey, address, port) =>
        if name in files then (files, Some(TunnelExists))
        else (files[name := TunnelConf(privateKey, InterfaceText(address), port)], None)
      case DeleteTunnel(name) => (files - {name}, None)
      case AddPeer(name, _, _, _, _) =>
        if name !in files then (files, Some(TunnelNotFound))
        else
          var edited := AddPeerText(files[name], PeerOf(c));
          if edited.Err? then (files, Some(DuplicatePeer)) else (files[name := edited.value], None)
      case RemovePeer(name, key) =>
        if name !in files then (files, Some(TunnelNotFound))
        else (files[name := RemovePeerText(files[name], key)], None)
      case SetTunnelState(name, _) => (files, if name in files then None else Some(TunnelNotFound))
  }

  /** The files after the commands ran one after another in a given order, none overlapping. */
  function Serial(cmds: seq<Command>, files: Files, log: seq<Commit>): Files
    requires forall k :: 0 <= k < |log| ==> log[k].task < |cmds|
  {
    if log == [] then files
    else Alone(cmds[log[|log| - 1].task], Serial(cmds, files, log[..|log| - 1])).0
  }

  /** Each command was refused exactly if it is refused in that serial run. */
  predicate SameVerdicts(cmds: seq<Command>, files: Files, log: seq<Commit>)
    requires forall k :: 0 <= k < |log| ==> log[k].task < |cmds|
  {
    forall k :: 0 <= k < |log| ==> log[k].refused == Alone(cmds[log[k].task], Serial(cmds, files, log[..k])).1
  }

  predicate Committed(c: Command, p: Phase) {
    p.Finished? || (!p.Ready? && !c.DeleteTunnel?)
  }

  predicate Listed(log: seq<Commit>, i: nat) { exists k :: 0 <= k < |log| && log[k].task == i }

  /** The order lists every command that has touched its file, once. */
  predicate Ordered(cmds: seq<Command>, w: World)
    requires |w.phases| == |cmds|
  {
    && (forall k :: 0 <= k < |w.log| ==> w.log[k].task < |cmds|)
    && (forall j, k :: 0 <= j < k < |w.log| ==> w.log[j].task != w.log[k].task)
    && (forall i :: 0 <= i < |cmds| ==> (Committed(cmds[i], w.phases[i]) <==> Listed(w.log, i)))
    && (forall i :: 0 <= i < |cmds| && cmds[i].DeleteTunnel? && (w.phases[i].Waiting? || w.phases[i].Landed?) ==> Check(cmds[i]).None?)
  }

  predicate Linear(cmds: seq<Command>, files: Files, w: World)
    requires |w.phases| == |cmds|
  {
    && Ordered(cmds, w)
    && w.store.files == Serial(cmds, files, w.log)
    && SameVerdicts(cmds, files, w.log)
  }

  lemma LogGrows(cmds: seq<Command>, files: Files, log: seq<Commit>, c: Commit)
    requires (forall k :: 0 <= k < |log| ==> log[k].task < |cmds|) && c.task < |cmds|
    ensures Serial(cmds, files, log + [c]) == Alone(cmds[c.task], Serial(cmds, files, log)).0
    ensures SameVerdicts(cmds, files, log) && c.refused == Alone(cmds[c.task], Serial(cmds, files, log)).1
            ==> SameVerdicts(cmds, files, log + [c])
  {
    var more := log + [c];
    assert more[..|log|] == log;
    forall k | 0 <= k < |log| ensures more[..k] == log[..k] {
    }
  }

  lemma OrderedAfter(cmds: seq<Command>, w: World, i: nat, phase: Phase, store: Store, c: Commit)
    requires i < |cmds| == |w.phases| && Ordered(cmds, w) && c.task == i
    requires !Committed(cmds[i], w.phases[i]) && Committed(cmds[i], phase) && (cmds[i].DeleteTunnel? ==> phase.Finished?)
    ensures Ordered(cmds, World(store, w.phases[i := phase], w.log + [c]))
  {
    var v := World(store, w.phases[i := phase], w.log + [c]);
    assert v.log[|w.log|] == c;
    forall j | 0 <= j < |cmds|
      ensures Committed(cmds[j], v.phases[j]) <==> Listed(v.log, j)
    {
      assert forall k :: 0 <= k < |w.log| ==> v.log[k] == w.log[k];
      assert j == i ==> v.log[|w.log|].task == j;
    }
  }

  lemma OrderedSame(cmds: seq<Command>, w: World, i: nat, phase: Phase, store: Store)
    requires i < |cmds| == |w.phases| && Ordered(cmds, w)
    requires Committed(cmds[i], w.phases[i]) <==> Committed(cmds[i], phase)
    requires cmds[i].DeleteTunnel? && (phase.Waiting? || phase.Landed?) ==> Check(cmds[i]).None?
    ensures Ordered(cmds, World(store, w.phases[i := phase], w.log))
  {
  }

  /** How a command's first piece relates to the command alone. */
  predicate PieceOf(c: Command, s: Store, s1: Store, next: Next) {
    var (files, error) := Alone(c, s.files);
    match next
    case Refuse(e) => s1.files == files && error == Some(e)
    case Finish => s1.files == files && error.None? && !c.DeleteTunnel?
    case Await(_) => if c.DeleteTunnel? then Check(c).None? && s1.files == s.files else s1.files == files && error.None?
  }

  lemma FirstPieceIsAlone(c: Command, s: Store)
    ensures PieceOf(c, s, FirstPiece(c, s).0, FirstPiece(c, s).1)
  {
  }

  lemma StartStaysLinear(cmds: seq<Command>, files: Files, w: World, i: nat, s: Store, next: Next)
    requires i < |cmds| == |w.phases| && Linear(cmds, files, w) && w.phases[i].Ready?
    requires PieceOf(cmds[i], w.store, s, next)
    ensures Linear(cmds, files, StartTurn(cmds[i], w, i, s, next))
  {
    match next {
      case Refuse(error) =>
        LogGrows(cmds, files, w.log, Commit(i, Some(error)));
        OrderedAfter(cmds, w, i, Finished(Some(error)), s, Commit(i, Some(error)));
      case Finish =>
        LogGrows(cmds, files, w.log, Commit(i, None));
        OrderedAfter(cmds, w, i, Finished(None), s, Commit(i, None));
      case Await(effect) =>
        if cmds[i].DeleteTunnel? {
          OrderedSame(cmds, w, i, Waiting(effect), s);
        } else {
          LogGrows(cmds, files, w.log, Commit(i, None));
          OrderedAfter(cmds, w, i, Waiting(effect), s, Commit(i, None));
        }
    }
  }

  lemma LandKeepsFiles(e: Effect, s: Store, ok: bool)
    ensures Land(e, s, ok).0.files == s.files
  {
  }

  lemma LastPieceIsAlone(c: Command, s: Store, rc: bool)
    ensures !c.DeleteTunnel? ==> LastPiece(c, s, rc).0.files == s.files
    ensures c.DeleteTunnel? && Check(c).None? ==>
              LastPiece(c, s, rc).0.files == Alone(c, s.files).0 && LastPiece(c, s, rc).1.None? && Alone(c, s.files).1.None?
  {
  }

  /** Running alone, a command leaves these files, and it is refused exactly then. */
  lemma AloneIsRunAlone(c: Command, s: Store, ok: bool)
    ensures RunAlone(c, s, ok).0.files == Alone(c, s.files).0
    ensures Alone(c, s.files).1.Some? ==> RunAlone(c, s, ok).1 == Alone(c, s.files).1
    ensures Alone(c, s.files).1.None? ==> RunAlone(c, s, ok).1 in {None, Some(ProgramFailed)}
  {
    var (s1, next) := FirstPiece(c, s);
    FirstPieceIsAlone(c, s);
    if next.Await? {
      LandKeepsFiles(next.effect, s1, ok);
      LastPieceIsAlone(c, Land(next.effect, s1, ok).0, Land(next.effect, s1, ok).1);
    }
  }

  lemma EndStaysLinear(cmds: seq<Command>, files: Files, w: World, i: nat, rc: bool)
    requires i < |cmds| == |w.phases| && Linear(cmds, files, w) && w.phases[i] == Landed(rc)
    ensures Linear(cmds, files, Step(cmds, w, i, true))
  {
    var (s, error) := LastPiece(cmds[i], w.store, rc);
    LastPieceIsAlone(cmds[i], w.store, rc);
    if cmds[i].DeleteTunnel? {
      LogGrows(cmds, files, w.log, Commit(i, None));
      OrderedAfter(cmds, w, i, Finished(error), s, Commit(i, None));
    } else {
      OrderedSame(cmds, w, i, Finished(error), s);
    }
  }

  lemma StepStaysLinear(cmds: seq<Command>, files: Files, w: World, turn: Turn)
    requires turn.task < |cmds| == |w.phases| && Linear(cmds, files, w)
    ensures Linear(cmds, files, Step(cmds, w, turn.task, turn.ok))
  {
    var i := turn.task;
    match w.phases[i] {
      case Ready =>
        FirstPieceIsAlone(cmds[i], w.store);
        StartStaysLinear(cmds, files, w, i, FirstPiece(cmds[i], w.store).0, FirstPiece(cmds[i], w.store).1);
      case Waiting(effect) =>
        LandKeepsFiles(effect, w.store, turn.ok);
        OrderedSame(cmds, w, i, Landed(Land(effect, w.store, turn.ok).1), Land(effect, w.store, turn.ok).0);
      case Landed(rc) =>
        EndStaysLinear(cmds, files, w, i, rc);
      case Finished(_) =>
    }
  }

  /** Under every schedule the files are at all times those of the commands run one by one
      in the order of the log, and every command was refused exactly if it is refused there. */
  lemma {:induction false} FilesAreSerial(cmds: seq<Command>, store: Store, turns: seq<Turn>)
    requires ValidTurns(cmds, turns)
    ensures Linear(cmds, store.files, Run(cmds, Initial(cmds, store), turns))
    decreases |turns|
  {
    if turns != [] {
      var n := |turns| - 1;
      FilesAreSerial(cmds, store, turns[..n]);
      StepStaysLinear(cmds, store.files, Run(cmds, Initial(cmds, store), turns[..n]), turns[n]);
    }
  }

  /** When every command has finished, that order holds each of them exactly once. */
  lemma FinishedOrderIsPermutation(cmds: seq<Command>, store: Store, turns: seq<Turn>)
    requires ValidTurns(cmds, turns)
    requires var w := Run(cmds, Initial(cmds, store), turns); forall i :: 0 <= i < |cmds| ==> w.phases[i].Finished?
    ensures var w := Run(cmds, Initial(cmds, store), turns);
      && (forall k :: 0 <= k < |w.log| ==> w.log[k].task < |cmds|)
      && (forall j, k :: 0 <= j < k < |w.log| ==> w.log[j].task != w.log[k].task)
      && (forall i :: 0 <= i < |cmds| ==> Listed(w.log, i))
      && w.store.files == Serial(cmds, store.files, w.log)
  {
    FilesAreSerial(cmds, store, turns);
  }

  // ---------------------------------------------------------------- the live peers: what the files say

  /** Command i waits for a program that works on the tunnel. */
  predicate InFlight(w: World, t: string, i: nat) {
    i < |w.phases| && w.phases[i].Waiting? && w.phases[i].effect.name == t
  }

  /** No command stops, starts or deletes the tunnel. */
  predicate PeersOnly(cmds: seq<Command>, t: string) {
    forall i :: 0 <= i < |cmds| && cmds[i].name == t ==> cmds[i].AddPeer? || cmds[i].RemovePeer? || cmds[i].CreateTunnel?
  }

  /** The key that a program works on. */
  function KeyOf(e: Effect): string {
    match e
    case PutPeer(_, key, _) => key
    case DropPeer(_, key) => key
    case _ => ""
  }

  predicate KeyInFlight(w: World, t: string, key: string) {
    exists j :: 0 <= j < |w.phases| && InFlight(w, t, j) && KeyOf(w.phases[j].effect) == key
  }

  /** No other key of the tunnel has the range, in the file or live. */
  predicate RangeFree(s: Store, t: string, key: string, r: Range) {
    && (t in s.files ==> forall i :: 0 <= i < |Blocks(s.files[t])| ==>
          KeyOfBlock(Blocks(s.files[t])[i]) == Some(key) || r !in RangeSet(RangesOfBlock(Blocks(s.files[t])[i])))
    && (t in s.live ==> forall k :: k in s.live[t] && k != key ==> r !in s.live[t][k])
  }

  /** A peer command may start: its key is that of no program in flight, and an added range
      is free and keeps no scope id that its line in the file could not carry. */
  predicate MayStart(c: Command, t: string, w: World) {
    && (c.AddPeer? || c.RemovePeer? ==> '\n' !in c.key && !KeyInFlight(w, t, c.key))
    && (c.AddPeer? ==> CleanScopes(c) && forall r :: r in RangeSet(PeerOf(c).ranges) ==> RangeFree(w.store, t, c.key, r))
  }

  /** A turn that starts only what may start, and whose program succeeds. */
  predicate Careful(cmds: seq<Command>, t: string, w: World, turn: Turn)
    requires turn.task < |cmds| == |w.phases|
  {
    cmds[turn.task].name == t ==>
      && (w.phases[turn.task].Ready? ==> MayStart(cmds[turn.task], t, w))
      && (w.phases[turn.task].Waiting? ==> turn.ok)
  }

  predicate AllCareful(cmds: seq<Command>, t: string, start: World, turns: seq<Turn>)
    requires |start.phases| == |cmds| && ValidTurns(cmds, turns)
  {
    forall k :: 0 <= k < |turns| ==> Careful(cmds, t, Run(cmds, start, turns[..k]), turns[k])
  }

  /** The tunnel is up, and its file holds peers with distinct keys and ranges. */
  predicate FileIs(s: Store, t: string, header: string, peers: seq<Peer>) {
    && t in s.files && t in s.live
    && Represents(s.files[t], header, peers) && Apart(peers) && BareKeys(peers)
  }

  /** What one program in flight is about to do fits the file. */
  predicate EffectFits(e: Effect, live: Live, expected: Live) {
    match e
    case PutPeer(_, key, ranges) =>
      && '\n' !in key && key in expected && expected[key] == ranges
      && forall k :: k in live && k != key ==> live[k] !! ranges
    case DropPeer(_, key) => '\n' !in key && key !in expected
    case _ => false
  }

  predicate EffectsFit(w: World, t: string, live: Live, expected: Live) {
    forall j :: 0 <= j < |w.phases| && InFlight(w, t, j) ==> EffectFits(w.phases[j].effect, live, expected)
  }

  predicate KeysApart(w: World, t: string) {
    forall i, j :: 0 <= i < j < |w.phases| && InFlight(w, t, i) && InFlight(w, t, j) ==>
      KeyOf(w.phases[i].effect) != KeyOf(w.phases[j].effect)
  }

  ghost predicate SettledAgree(w: World, t: string, live: Live, expected: Live) {
    forall k :: !KeyInFlight(w, t, k) ==> (k in live <==> k in expected) && (k in live ==> live[k] == expected[k])
  }

  /** Once the programs in flight are done, the live peers are those of the file. */
  ghost predicate Converging(w: World, t: string, header: string, peers: seq<Peer>) {
    && FileIs(w.store, t, header, peers)
    && EffectsFit(w, t, w.store.live[t], PeerMap(peers))
    && KeysApart(w, t)
    && SettledAgree(w, t, w.store.live[t], PeerMap(peers))
  }

  // Each kind of turn.

  lemma FlightOf(w: World, v: World, t: string, i: nat, phase: Phase)
    requires i < |w.phases| && v.phases == w.phases[i := phase]
    ensures forall j: nat :: j != i ==> (InFlight(v, t, j) <==> InFlight(w, t, j))
    ensures forall j: nat :: j != i && InFlight(w, t, j) ==> v.phases[j] == w.phases[j]
  {
  }

  /** A turn that leaves the tunnel and its programs in flight alone. */
  lemma QuietTurn(w: World, v: World, t: string, i: nat, phase: Phase, header: string, peers: seq<Peer>)
    requires Converging(w, t, header, peers)
    requires i < |w.phases| && v.phases == w.phases[i := phase] && !InFlight(w, t, i) && !InFlight(v, t, i)
    requires t in v.store.files && v.store.files[t] == w.store.files[t]
    requires t in v.store.live && v.store.live[t] == w.store.live[t]
    ensures Converging(v, t, header, peers)
  {
    QuietFlight(w, v, t, i, phase);
  }

  lemma QuietFlight(w: World, v: World, t: string, i: nat, phase: Phase)
    requires i < |w.phases| && v.phases == w.phases[i := phase] && !InFlight(w, t, i) && !InFlight(v, t, i)
    ensures forall k :: KeyInFlight(v, t, k) <==> KeyInFlight(w, t, k)
    ensures forall j :: 0 <= j < |v.phases| && InFlight(v, t, j) ==> InFlight(w, t, j) && v.phases[j] == w.phases[j]
  {
    FlightOf(w, v, t, i, phase);
    forall k ensures KeyInFlight(v, t, k) <==> KeyInFlight(w, t, k) {
      if KeyInFlight(w, t, k) {
        var j :| 0 <= j < |w.phases| && InFlight(w, t, j) && KeyOf(w.phases[j].effect) == k;
        assert InFlight(v, t, j) && v.phases[j] == w.phases[j];
      }
      if KeyInFlight(v, t, k) {
        var j :| 0 <= j < |v.phases| && InFlight(v, t, j) && KeyOf(v.phases[j].effect) == k;
        assert InFlight(w, t, j);
      }
    }
  }

  /** A program has just been started. */
  lemma FlightStarts(w: World, v: World, t: string, i: nat, e: Effect)
    requires i < |w.phases| && v.phases == w.phases[i := Waiting(e)] && !w.phases[i].Waiting? && e.name == t
    requires KeysApart(w, t) && !KeyInFlight(w, t, KeyOf(e))
    ensures KeysApart(v, t)
    ensures forall k :: KeyInFlight(v, t, k) <==> KeyInFlight(w, t, k) || k == KeyOf(e)
    ensures forall j :: 0 <= j < |v.phases| && InFlight(v, t, j) ==> v.phases[j].effect == e || (InFlight(w, t, j) && v.phases[j] == w.phases[j] && KeyOf(v.phases[j].effect) != KeyOf(e))
  {
    FlightOf(w, v, t, i, Waiting(e));
    assert InFlight(v, t, i);
    forall k ensures KeyInFlight(v, t, k) <==> KeyInFlight(w, t, k) || k == KeyOf(e) {
      if KeyInFlight(w, t, k) {
        var j :| 0 <= j < |w.phases| && InFlight(w, t, j) && KeyOf(w.phases[j].effect) == k;
        assert InFlight(v, t, j) && v.phases[j] == w.phases[j];
      }
      if KeyInFlight(v, t, k) {
        var j :| 0 <= j < |v.phases| && InFlight(v, t, j) && KeyOf(v.phases[j].effect) == k;
        assert j != i ==> InFlight(w, t, j);
      }
    }
  }

  /** A program is done. */
  lemma FlightEnds(w: World, v: World, t: string, i: nat, phase: Phase)
    requires InFlight(w, t, i) && v.phases == w.phases[i := phase] && !phase.Waiting?
    requires KeysApart(w, t)
    ensures KeysApart(v, t)
    ensures forall k :: KeyInFlight(w, t, k) <==> KeyInFlight(v, t, k) || k == KeyOf(w.phases[i].effect)
    ensures !KeyInFlight(v, t, KeyOf(w.phases[i].effect))
    ensures forall j :: 0 <= j < |v.phases| && InFlight(v, t, j) ==> InFlight(w, t, j) && v.phases[j] == w.phases[j] && KeyOf(v.phases[j].effect) != KeyOf(w.phases[i].effect)
  {
    FlightOf(w, v, t, i, phase);
    forall k ensures KeyInFlight(w, t, k) <==> KeyInFlight(v, t, k) || k == KeyOf(w.phases[i].effect) {
      if KeyInFlight(w, t, k) && k != KeyOf(w.phases[i].effect) {
        var j :| 0 <= j < |w.phases| && InFlight(w, t, j) && KeyOf(w.phases[j].effect) == k;
        assert InFlight(v, t, j);
      }
      if KeyInFlight(v, t, k) {
        var j :| 0 <= j < |v.phases| && InFlight(v, t, j) && KeyOf(v.phases[j].effect) == k;
        assert InFlight(w, t, j);
      }
    }
  }

  lemma ApartSnoc(peers: seq<Peer>, p: Peer)
    requires Apart(peers) && !HasKey(peers, p.key)
    requires forall i :: 0 <= i < |peers| ==> !Overlap(peers[i], p)
    ensures Apart(peers + [p])
  {
  }

  lemma FreeRangesDoNotOverlap(s: Store, t: string, header: string, peers: seq<Peer>, p: Peer)
    requires FileIs(s, t, header, peers) && !HasKey(peers, p.key) && '\n' !in p.key
    requires forall r :: r in RangeSet(p.ranges) ==> RangeFree(s, t, p.key, r)
    ensures forall i :: 0 <= i < |peers| ==> !Overlap(peers[i], p)
  {
    PartsOfRepresented(s.files[t], header, peers);
    forall i | 0 <= i < |peers| ensures !Overlap(peers[i], p) {
      BlockGivesKey(peers[i]);
      BlockReadsBack(peers[i]);
      BareIsSame(p.key);
      assert Blocks(s.files[t])[i] == Block(peers[i]);
    }
  }

  /** An added peer: expected now, live once its program has run. */
  lemma AddFits(w: World, v: World, t: string, i: nat, e: Effect, live: Live, expected: Live)
    requires i < |w.phases| && w.phases[i].Ready? && v.phases == w.phases[i := Waiting(e)]
    requires e.PutPeer? && e.name == t && '\n' !in e.key && e.key !in expected && !KeyInFlight(w, t, e.key)
    requires forall k :: k in live && k != e.key ==> live[k] !! e.ranges
    requires EffectsFit(w, t, live, expected) && KeysApart(w, t) && SettledAgree(w, t, live, expected)
    ensures EffectsFit(v, t, live, expected[e.key := e.ranges]) && KeysApart(v, t)
    ensures SettledAgree(v, t, live, expected[e.key := e.ranges])
  {
    FlightStarts(w, v, t, i, e);
    forall j | 0 <= j < |v.phases| && InFlight(v, t, j) ensures EffectFits(v.phases[j].effect, live, expected[e.key := e.ranges]) {
      if v.phases[j].effect != e {
        assert EffectFits(w.phases[j].effect, live, expected);
      }
    }
  }

  lemma AddTurn(w: World, v: World, t: string, i: nat, header: string, peers: seq<Peer>, p: Peer)
    requires Converging(w, t, header, peers) && ValidPeer(p) && '\n' !in p.key
    requires i < |w.phases| && w.phases[i].Ready? && v.phases == w.phases[i := Waiting(PutPeer(t, p.key, RangeSet(p.ranges)))]
    requires !KeyInFlight(w, t, p.key) && forall r :: r in RangeSet(p.ranges) ==> RangeFree(w.store, t, p.key, r)
    requires AddPeerText(w.store.files[t], p).Ok?
    requires v.store == w.store.(files := w.store.files[t := AddPeerText(w.store.files[t], p).value])
    ensures Converging(v, t, header, peers + [p])
  {
    var e, live, expected := PutPeer(t, p.key, RangeSet(p.ranges)), w.store.live[t], PeerMap(peers);
    AddedFileIs(w.store, v.store, t, header, peers, p);
    NotExpected(peers, p.key);
    PeerMapSnoc(peers, p);
    assert forall k :: k in live && k != p.key ==> live[k] !! RangeSet(p.ranges);
    AddFits(w, v, t, i, e, live, expected);
  }

  lemma PeerMapSnoc(peers: seq<Peer>, p: Peer)
    requires '\n' !in p.key
    ensures PeerMap(peers + [p]) == PeerMap(peers)[p.key := RangeSet(p.ranges)]
  {
    BareIsSame(p.key);
    assert (peers + [p])[..|peers|] == peers;
  }

  lemma AddedFileIs(s: Store, after: Store, t: string, header: string, peers: seq<Peer>, p: Peer)
    requires FileIs(s, t, header, peers) && ValidPeer(p) && '\n' !in p.key
    requires forall r :: r in RangeSet(p.ranges) ==> RangeFree(s, t, p.key, r)
    requires AddPeerText(s.files[t], p).Ok?
    requires after == s.(files := s.files[t := AddPeerText(s.files[t], p).value])
    ensures FileIs(after, t, header, peers + [p]) && !HasKey(peers, p.key)
  {
    AddRefines(s.files[t], header, peers, p);
    FreeRangesDoNotOverlap(s, t, header, peers, p);
    ApartSnoc(peers, p);
  }

  lemma RemoveTurn(w: World, v: World, t: string, i: nat, header: string, peers: seq<Peer>, key: string)
    requires Converging(w, t, header, peers) && Accepts(key) && '\n' !in key && !KeyInFlight(w, t, key)
    requires i < |w.phases| && w.phases[i].Ready? && v.phases == w.phases[i := Waiting(DropPeer(t, key))]
    requires v.store == w.store.(files := w.store.files[t := RemovePeerText(w.store.files[t], key)])
    ensures Converging(v, t, header, Without(peers, key))
  {
    var e, live, expected := DropPeer(t, key), w.store.live[t], PeerMap(peers);
    RemoveRefines(w.store.files[t], header, peers, key);
    PeerMapWithout(peers, key);
    FlightStarts(w, v, t, i, e);
    forall j | 0 <= j < |v.phases| && InFlight(v, t, j) ensures EffectFits(v.phases[j].effect, live, expected - {key}) {
      if v.phases[j].effect != e {
        assert EffectFits(w.phases[j].effect, live, expected);
      }
    }
  }

  lemma PutFits(w: World, v: World, t: string, i: nat, phase: Phase, live: Live, expected: Live)
    requires InFlight(w, t, i) && w.phases[i].effect.PutPeer? && !phase.Waiting? && v.phases == w.phases[i := phase]
    requires EffectsFit(w, t, live, expected) && KeysApart(w, t) && SettledAgree(w, t, live, expected)
    requires forall k, m :: k in expected && m in expected && k != m ==> expected[k] !! expected[m]
    ensures var after := PutLive(live, w.phases[i].effect.key, w.phases[i].effect.ranges);
            EffectsFit(v, t, after, expected) && KeysApart(v, t) && SettledAgree(v, t, after, expected)
  {
    var e := w.phases[i].effect;
    var after := PutLive(live, e.key, e.ranges);
    assert EffectFits(e, live, expected);
    assert forall k :: k in live && k != e.key ==> after[k] == live[k];
    FlightEnds(w, v, t, i, phase);
    forall j | 0 <= j < |v.phases| && InFlight(v, t, j) ensures EffectFits(v.phases[j].effect, after, expected) {
      assert EffectFits(w.phases[j].effect, live, expected);
    }
  }

  lemma PutLands(w: World, v: World, t: string, i: nat, header: string, peers: seq<Peer>, phase: Phase)
    requires Converging(w, t, header, peers) && InFlight(w, t, i) && w.phases[i].effect.PutPeer?
    requires !phase.Waiting? && v.phases == w.phases[i := phase]
    requires var e := w.phases[i].effect;
             v.store == w.store.(live := w.store.live[t := PutLive(w.store.live[t], e.key, e.ranges)])
    ensures Converging(v, t, header, peers)
  {
    PeerMapKeys(peers);
    PutFits(w, v, t, i, phase, w.store.live[t], PeerMap(peers));
  }

  lemma DropLands(w: World, v: World, t: string, i: nat, header: string, peers: seq<Peer>, phase: Phase)
    requires Converging(w, t, header, peers) && InFlight(w, t, i) && w.phases[i].effect.DropPeer?
    requires !phase.Waiting? && v.phases == w.phases[i := phase]
    requires v.store == w.store.(live := w.store.live[t := DropLive(w.store.live[t], w.phases[i].effect.key)])
    ensures Converging(v, t, header, peers)
  {
    var e, live, expected := w.phases[i].effect, w.store.live[t], PeerMap(peers);
    assert EffectFits(e, live, expected);
    FlightEnds(w, v, t, i, phase);
    forall j | 0 <= j < |v.phases| && InFlight(v, t, j) ensures EffectFits(v.phases[j].effect, DropLive(live, e.key), expected) {
      assert EffectFits(w.phases[j].effect, live, expected);
    }
  }

  /** A command waits only for programs on its own tunnel. */
  predicate OwnEffects(cmds: seq<Command>, w: World)
    requires |cmds| == |w.phases|
  {
    forall i :: 0 <= i < |cmds| && w.phases[i].Waiting? ==> w.phases[i].effect.name == cmds[i].name
  }

  lemma StepKeepsOwnEffects(cmds: seq<Command>, w: World, i: nat, ok: bool)
    requires i < |cmds| == |w.phases| && OwnEffects(cmds, w)
    ensures OwnEffects(cmds, Step(cmds, w, i, ok))
  {
  }

  /** A turn for another tunnel's command does nothing to this one. */
  lemma OtherTunnelTurn(cmds: seq<Command>, w: World, t: string, turn: Turn)
    requires turn.task < |cmds| == |w.phases| && OwnEffects(cmds, w) && cmds[turn.task].name != t
    ensures var v := Step(cmds, w, turn.task, turn.ok);
      && (t in v.store.files <==> t in w.store.files) && (t in v.store.live <==> t in w.store.live)
      && (t in w.store.files ==> v.store.files[t] == w.store.files[t])
      && (t in w.store.live ==> v.store.live[t] == w.store.live[t])
      && !InFlight(w, t, turn.task) && !InFlight(v, t, turn.task)
      && v.phases == w.phases[turn.task := v.phases[turn.task]]
  {
    var v := Step(cmds, w, turn.task, turn.ok);
    StepElsewhere(cmds, w, turn);
    StepKeepsOwnEffects(cmds, w, turn.task, turn.ok);
    SameElsewhere(w.store.files, v.store.files, cmds[turn.task].name, t);
    SameElsewhere(w.store.live, v.store.live, cmds[turn.task].name, t);
  }

  lemma StepElsewhere(cmds: seq<Command>, w: World, turn: Turn)
    requires turn.task < |cmds| == |w.phases| && OwnEffects(cmds, w)
    ensures Elsewhere(w.store, Step(cmds, w, turn.task, turn.ok).store, cmds[turn.task].name)
    ensures var v := Step(cmds, w, turn.task, turn.ok); v.phases == w.phases[turn.task := v.phases[turn.task]]
  {
    var c := cmds[turn.task];
    match w.phases[turn.task] {
      case Ready => FirstPieceElsewhere(c, w.store);
      case Waiting(e) => LandElsewhere(e, w.store, turn.ok);
      case Landed(rc) => LastPieceElsewhere(c, w.store, rc);
      case Finished(_) =>
    }
  }

  lemma AddStep(cmds: seq<Command>, w: World, i: nat, ok: bool)
    requires i < |cmds| == |w.phases| && w.phases[i].Ready? && cmds[i].AddPeer? && Check(cmds[i]).None?
    requires cmds[i].name in w.store.files && cmds[i].name in w.store.live
    ensures var c, v := cmds[i], Step(cmds, w, i, ok);
            var edited := AddPeerText(w.store.files[c.name], PeerOf(c));
            if edited.Err? then v.store == w.store && v.phases == w.phases[i := Finished(Some(DuplicatePeer))]
            else v.store == w.store.(files := w.store.files[c.name := edited.value])
                 && v.phases == w.phases[i := Waiting(PutPeer(c.name, c.key, RangeSet(PeerOf(c).ranges)))]
  {
  }

  lemma RemoveStep(cmds: seq<Command>, w: World, i: nat, ok: bool)
    requires i < |cmds| == |w.phases| && w.phases[i].Ready? && cmds[i].RemovePeer? && Check(cmds[i]).None?
    requires cmds[i].name in w.store.files && cmds[i].name in w.store.live
    ensures var c, v := cmds[i], Step(cmds, w, i, ok);
            v.store == w.store.(files := w.store.files[c.name := RemovePeerText(w.store.files[c.name], c.key)])
            && v.phases == w.phases[i := Waiting(DropPeer(c.name, c.key))]
  {
  }

  lemma FirstTurn(cmds: seq<Command>, w: World, t: string, turn: Turn, header: string, peers: seq<Peer>) returns (after: seq<Peer>)
    requires turn.task < |cmds| == |w.phases| && PeersOnly(cmds, t) && w.phases[turn.task].Ready?
    requires Converging(w, t, header, peers) && Careful(cmds, t, w, turn) && cmds[turn.task].name == t
    ensures Converging(Step(cmds, w, turn.task, turn.ok), t, header, after)
  {
    var i, c := turn.task, cmds[turn.task];
    var v := Step(cmds, w, i, turn.ok);
    after := peers;
    if Check(c).Some? || c.CreateTunnel? {
      QuietTurn(w, v, t, i, v.phases[i], header, peers);
    } else if c.AddPeer? {
      CheckedPeerIsValid(c);
      AddStep(cmds, w, i, turn.ok);
      if AddPeerText(w.store.files[t], PeerOf(c)).Err? {
        QuietTurn(w, v, t, i, v.phases[i], header, peers);
      } else {
        AddTurn(w, v, t, i, header, peers, PeerOf(c));
        after := peers + [PeerOf(c)];
      }
    } else {
      RemoveStep(cmds, w, i, turn.ok);
      RemoveTurn(w, v, t, i, header, peers, c.key);
      after := Without(peers, c.key);
    }
  }

  lemma PeerTurn(cmds: seq<Command>, w: World, t: string, turn: Turn, header: string, peers: seq<Peer>) returns (after: seq<Peer>)
    requires turn.task < |cmds| == |w.phases| && OwnEffects(cmds, w) && PeersOnly(cmds, t)
    requires Converging(w, t, header, peers) && Careful(cmds, t, w, turn) && cmds[turn.task].name == t
    ensures Converging(Step(cmds, w, turn.task, turn.ok), t, header, after)
  {
    var i := turn.task;
    var v := Step(cmds, w, i, turn.ok);
    after := peers;
    match w.phases[i] {
      case Ready => after := FirstTurn(cmds, w, t, turn, header, peers);
      case Waiting(e) =>
        assert InFlight(w, t, i) && EffectFits(e, w.store.live[t], PeerMap(peers));
        if e.PutPeer? {
          PutLands(w, v, t, i, header, peers, v.phases[i]);
        } else {
          DropLands(w, v, t, i, header, peers, v.phases[i]);
        }
      case Landed(_) =>
        QuietTurn(w, v, t, i, v.phases[i], header, peers);
      case Finished(_) =>
    }
  }

  /** Every careful schedule keeps the live peers converging to the file. */
  lemma {:induction false} CarefulRunsConverge(cmds: seq<Command>, t: string, store: Store, turns: seq<Turn>, header: string, peers: seq<Peer>)
    returns (after: seq<Peer>)
    requires ValidTurns(cmds, turns) && PeersOnly(cmds, t)
    requires AllCareful(cmds, t, Initial(cmds, store), turns)
    requires FileIs(store, t, header, peers) && store.live[t] == PeerMap(peers)
    ensures OwnEffects(cmds, Run(cmds, Initial(cmds, store), turns))
    ensures Converging(Run(cmds, Initial(cmds, store), turns), t, header, after)
    decreases |turns|
  {
    if turns == [] {
      after := peers;
    } else {
      var n := |turns| - 1;
      PrefixCareful(cmds, t, Initial(cmds, store), turns, n);
      after := CarefulRunsConverge(cmds, t, store, turns[..n], header, peers);
      after := AnyTurn(cmds, Run(cmds, Initial(cmds, store), turns[..n]), t, turns[n], header, after);
    }
  }

  lemma PrefixCareful(cmds: seq<Command>, t: string, start: World, turns: seq<Turn>, n: nat)
    requires |start.phases| == |cmds| && ValidTurns(cmds, turns) && AllCareful(cmds, t, start, turns) && n <= |turns|
    ensures AllCareful(cmds, t, start, turns[..n])
  {
    assert forall k :: 0 <= k < n ==> turns[..n][..k] == turns[..k];
  }

  lemma AnyTurn(cmds: seq<Command>, w: World, t: string, turn: Turn, header: string, peers: seq<Peer>) returns (after: seq<Peer>)
    requires turn.task < |cmds| == |w.phases| && OwnEffects(cmds, w) && PeersOnly(cmds, t)
    requires Converging(w, t, header, peers) && Careful(cmds, t, w, turn)
    ensures OwnEffects(cmds, Step(cmds, w, turn.task, turn.ok))
    ensures Converging(Step(cmds, w, turn.task, turn.ok), t, header, after)
  {
    StepKeepsOwnEffects(cmds, w, turn.task, turn.ok);
    if cmds[turn.task].name == t {
      after := PeerTurn(cmds, w, t, turn, header, peers);
    } else {
      var v := Step(cmds, w, turn.task, turn.ok);
      OtherTunnelTurn(cmds, w, t, turn);
      QuietTurn(w, v, t, turn.task, v.phases[turn.task], header, peers);
      after := peers;
    }
  }

  /** Once every command has finished, the live peers of a tunnel that stayed up are exactly
      those that its file would bring up: after any careful schedule of any commands. */
  lemma LiveEndsAsFile(cmds: seq<Command>, t: string, store: Store, turns: seq<Turn>, header: string, peers: seq<Peer>)
    requires ValidTurns(cmds, turns) && PeersOnly(cmds, t)
    requires AllCareful(cmds, t, Initial(cmds, store), turns)
    requires FileIs(store, t, header, peers) && store.live[t] == PeerMap(peers)
    requires forall i :: 0 <= i < |cmds| ==> Run(cmds, Initial(cmds, store), turns).phases[i].Finished?
    ensures var end := Run(cmds, Initial(cmds, store), turns).store;
            t in end.files && t in end.live && end.live[t] == LiveOf(end.files[t])
  {
    var after := CarefulRunsConverge(cmds, t, store, turns, header, peers);
    SettledIsFile(Run(cmds, Initial(cmds, store), turns), t, header, after);
  }

  lemma SettledIsFile(w: World, t: string, header: string, peers: seq<Peer>)
    requires Converging(w, t, header, peers) && forall i :: 0 <= i < |w.phases| ==> w.phases[i].Finished?
    ensures w.store.live[t] == LiveOf(w.store.files[t])
  {
    assert forall k :: !KeyInFlight(w, t, k);
    assert w.store.live[t] == PeerMap(peers);
    UpGivesPeerMap(w.store.files[t], header, peers);
  }

  // ---------------------------------------------------------------- the live keys, whatever ranges are asked for

  /** A turn that starts no peer command whose key is in flight or whose scope ids do not fit the
      file, and whose program succeeds. */
  predicate KeyCareful(cmds: seq<Command>, t: string, w: World, turn: Turn)
    requires turn.task < |cmds| == |w.phases|
  {
    var c := cmds[turn.task];
    c.name == t ==>
      && (w.phases[turn.task].Ready? && (c.AddPeer? || c.RemovePeer?) ==> '\n' !in c.key && !KeyInFlight(w, t, c.key))
      && (w.phases[turn.task].Ready? && c.AddPeer? ==> CleanScopes(c))
      && (w.phases[turn.task].Waiting? ==> turn.ok)
  }

  predicate AllKeyCareful(cmds: seq<Command>, t: string, start: World, turns: seq<Turn>)
    requires |start.phases| == |cmds| && ValidTurns(cmds, turns)
  {
    forall k :: 0 <= k < |turns| ==> KeyCareful(cmds, t, Run(cmds, start, turns[..k]), turns[k])
  }

  // ---------------------------------------------------------------- keys on their way

  /** The tunnel is up, and its file holds peers with distinct keys. */
  predicate KeysFile(s: Store, t: string, header: string, peers: seq<Peer>) {
    && t in s.files && t in s.live && Represents(s.files[t], header, peers) && BareKeys(peers)
  }

  predicate KeyFits(e: Effect, keys: set<string>) {
    match e
    case PutPeer(_, key, _) => '\n' !in key && key in keys
    case DropPeer(_, key) => '\n' !in key && key !in keys
    case _ => false
  }

  /** The live keys are those of the file, but for the keys that a program is working on. */
  ghost predicate KeysConverge(w: World, t: string, header: string, peers: seq<Peer>) {
    && KeysFile(w.store, t, header, peers) && KeysApart(w, t)
    && (forall j :: 0 <= j < |w.phases| && InFlight(w, t, j) ==> KeyFits(w.phases[j].effect, PeerKeys(peers)))
    && (forall k :: !KeyInFlight(w, t, k) ==> (k in w.store.live[t] <==> k in PeerKeys(peers)))
  }

  lemma QuietKeys(w: World, v: World, t: string, i: nat, phase: Phase, header: string, peers: seq<Peer>)
    requires KeysConverge(w, t, header, peers)
    requires i < |w.phases| && v.phases == w.phases[i := phase] && !InFlight(w, t, i) && !InFlight(v, t, i)
    requires t in v.store.files && v.store.files[t] == w.store.files[t]
    requires t in v.store.live && v.store.live[t] == w.store.live[t]
    ensures KeysConverge(v, t, header, peers)
  {
    QuietFlight(w, v, t, i, phase);
  }

  lemma StartedKeys(w: World, v: World, t: string, i: nat, e: Effect, header: string, peers: seq<Peer>, after: seq<Peer>)
    requires KeysConverge(w, t, header, peers) && KeysFile(v.store, t, header, after)
    requires i < |w.phases| && w.phases[i].Ready? && v.phases == w.phases[i := Waiting(e)] && e.name == t
    requires v.store.live == w.store.live && !KeyInFlight(w, t, KeyOf(e)) && KeyFits(e, PeerKeys(after))
    requires forall k :: k != KeyOf(e) ==> (k in PeerKeys(after) <==> k in PeerKeys(peers))
    ensures KeysConverge(v, t, header, after)
  {
    FlightStarts(w, v, t, i, e);
    forall j | 0 <= j < |v.phases| && InFlight(v, t, j) ensures KeyFits(v.phases[j].effect, PeerKeys(after)) {
      if v.phases[j].effect != e {
        assert KeyFits(w.phases[j].effect, PeerKeys(peers));
      }
    }
  }

  lemma LandedKeys(w: World, v: World, t: string, i: nat, phase: Phase, header: string, peers: seq<Peer>)
    requires KeysConverge(w, t, header, peers) && InFlight(w, t, i) && !phase.Waiting? && v.phases == w.phases[i := phase]
    requires v.store.files == w.store.files && t in v.store.live
    requires var e := w.phases[i].effect; v.store.live[t].Keys == if e.PutPeer? then w.store.live[t].Keys + {e.key} else w.store.live[t].Keys - {KeyOf(e)}
    ensures KeysConverge(v, t, header, peers)
  {
    assert KeyFits(w.phases[i].effect, PeerKeys(peers));
    FlightEnds(w, v, t, i, phase);
    forall k | !KeyInFlight(v, t, k) ensures k in v.store.live[t] <==> k in PeerKeys(peers) {
      if k != KeyOf(w.phases[i].effect) {
        assert !KeyInFlight(w, t, k);
      }
    }
  }

  lemma AddStarts(w: World, v: World, t: string, i: nat, header: string, peers: seq<Peer>, p: Peer)
    requires KeysConverge(w, t, header, peers) && ValidPeer(p) && '\n' !in p.key && !KeyInFlight(w, t, p.key)
    requires i < |w.phases| && w.phases[i].Ready? && v.phases == w.phases[i := Waiting(PutPeer(t, p.key, RangeSet(p.ranges)))]
    requires AddPeerText(w.store.files[t], p).Ok?
    requires v.store == w.store.(files := w.store.files[t := AddPeerText(w.store.files[t], p).value])
    ensures KeysConverge(v, t, header, peers + [p])
  {
    AddRefines(w.store.files[t], header, peers, p);
    PeerKeysSnoc(peers, p);
    StartedKeys(w, v, t, i, PutPeer(t, p.key, RangeSet(p.ranges)), header, peers, peers + [p]);
  }

  lemma RemoveStarts(w: World, v: World, t: string, i: nat, header: string, peers: seq<Peer>, key: string)
    requires KeysConverge(w, t, header, peers) && Accepts(key) && '\n' !in key && !KeyInFlight(w, t, key)
    requires i < |w.phases| && w.phases[i].Ready? && v.phases == w.phases[i := Waiting(DropPeer(t, key))]
    requires v.store == w.store.(files := w.store.files[t := RemovePeerText(w.store.files[t], key)])
    ensures KeysConverge(v, t, header, Without(peers, key))
  {
    RemoveRefines(w.store.files[t], header, peers, key);
    WithoutKeepsBare(peers, key);
    PeerKeysWithout(peers, key);
    StartedKeys(w, v, t, i, DropPeer(t, key), header, peers, Without(peers, key));
  }

  lemma OwnFirstTurn(cmds: seq<Command>, w: World, t: string, turn: Turn, header: string, peers: seq<Peer>) returns (after: seq<Peer>)
    requires turn.task < |cmds| == |w.phases| && PeersOnly(cmds, t) && w.phases[turn.task].Ready?
    requires KeysConverge(w, t, header, peers) && KeyCareful(cmds, t, w, turn) && cmds[turn.task].name == t
    ensures KeysConverge(Step(cmds, w, turn.task, turn.ok), t, header, after)
  {
    var i, c := turn.task, cmds[turn.task];
    var v := Step(cmds, w, i, turn.ok);
    after := peers;
    if Check(c).Some? || c.CreateTunnel? {
      QuietKeys(w, v, t, i, v.phases[i], header, peers);
    } else if c.AddPeer? {
      CheckedPeerIsValid(c);
      if AddPeerText(w.store.files[t], PeerOf(c)).Err? {
        QuietKeys(w, v, t, i, v.phases[i], header, peers);
      } else {
        AddStarts(w, v, t, i, header, peers, PeerOf(c));
        after := peers + [PeerOf(c)];
      }
    } else {
      RemoveStarts(w, v, t, i, header, peers, c.key);
      after := Without(peers, c.key);
    }
  }

  lemma OwnTurn(cmds: seq<Command>, w: World, t: string, turn: Turn, header: string, peers: seq<Peer>) returns (after: seq<Peer>)
    requires turn.task < |cmds| == |w.phases| && OwnEffects(cmds, w) && PeersOnly(cmds, t)
    requires KeysConverge(w, t, header, peers) && KeyCareful(cmds, t, w, turn) && cmds[turn.task].name == t
    ensures KeysConverge(Step(cmds, w, turn.task, turn.ok), t, header, after)
  {
    var i := turn.task;
    var v := Step(cmds, w, i, turn.ok);
    after := peers;
    match w.phases[i] {
      case Ready => after := OwnFirstTurn(cmds, w, t, turn, header, peers);
      case Waiting(e) =>
        assert InFlight(w, t, i) && KeyFits(e, PeerKeys(peers));
        LandedKeys(w, v, t, i, v.phases[i], header, peers);
      case Landed(_) =>
        QuietKeys(w, v, t, i, v.phases[i], header, peers);
      case Finished(_) =>
    }
  }

  lemma PrefixKeyCareful(cmds: seq<Command>, t: string, start: World, turns: seq<Turn>, n: nat)
    requires |start.phases| == |cmds| && ValidTurns(cmds, turns) && AllKeyCareful(cmds, t, start, turns) && n <= |turns|
    ensures AllKeyCareful(cmds, t, start, turns[..n])
  {
    assert forall k :: 0 <= k < n ==> turns[..n][..k] == turns[..k];
  }

  lemma AnyKeyTurn(cmds: seq<Command>, w: World, t: string, turn: Turn, header: string, peers: seq<Peer>) returns (after: seq<Peer>)
    requires turn.task < |cmds| == |w.phases| && OwnEffects(cmds, w) && PeersOnly(cmds, t)
    requires KeysConverge(w, t, header, peers) && KeyCareful(cmds, t, w, turn)
    ensures OwnEffects(cmds, Step(cmds, w, turn.task, turn.ok))
    ensures KeysConverge(Step(cmds, w, turn.task, turn.ok), t, header, after)
  {
    StepKeepsOwnEffects(cmds, w, turn.task, turn.ok);
    if cmds[turn.task].name == t {
      after := OwnTurn(cmds, w, t, turn, header, peers);
    } else {
      var v := Step(cmds, w, turn.task, turn.ok);
      OtherTunnelTurn(cmds, w, t, turn);
      QuietKeys(w, v, t, turn.task, v.phases[turn.task], header, peers);
      after := peers;
    }
  }

  lemma {:induction false} RunsKeepConverging(cmds: seq<Command>, t: string, store: Store, turns: seq<Turn>, header: string, peers: seq<Peer>)
    returns (after: seq<Peer>)
    requires ValidTurns(cmds, turns) && PeersOnly(cmds, t) && AllKeyCareful(cmds, t, Initial(cmds, store), turns)
    requires KeysFile(store, t, header, peers) && store.live[t].Keys == PeerKeys(peers)
    ensures OwnEffects(cmds, Run(cmds, Initial(cmds, store), turns))
    ensures KeysConverge(Run(cmds, Initial(cmds, store), turns), t, header, after)
    decreases |turns|
  {
    if turns == [] {
      after := peers;
    } else {
      var n := |turns| - 1;
      PrefixKeyCareful(cmds, t, Initial(cmds, store), turns, n);
      after := RunsKeepConverging(cmds, t, store, turns[..n], header, peers);
      after := AnyKeyTurn(cmds, Run(cmds, Initial(cmds, store), turns[..n]), t, turns[n], header, after);
    }
  }

  lemma PutLiveKeys(live: Live, key: string, ranges: set<Range>)
    ensures PutLive(live, key, ranges).Keys == live.Keys + {key}
  {
  }

  lemma OneMoreKey(peers: seq<Peer>, p: Peer)
    requires ValidPeer(p) && '\n' !in p.key
    ensures LiveOfBlocks(BlocksOf(peers + [p])).Keys == LiveOfBlocks(BlocksOf(peers)).Keys + {p.key}
  {
    LiveOfLast(peers, p);
    BareIsSame(p.key);
    PutLiveKeys(LiveOfBlocks(BlocksOf(peers)), p.key, RangeSet(p.ranges));
  }

  lemma {:induction false} KeysOfPrinted(peers: seq<Peer>)
    requires BareKeys(peers) && forall i :: 0 <= i < |peers| ==> ValidPeer(peers[i])
    ensures LiveOfBlocks(BlocksOf(peers)).Keys == PeerKeys(peers)
  {
    if peers == [] {
      assert BlocksOf(peers) == [];
    } else {
      var front, last := peers[..|peers| - 1], peers[|peers| - 1];
      assert peers == front + [last] && forall i :: 0 <= i < |front| ==> front[i] == peers[i];
      KeysOfPrinted(front);
      OneMoreKey(front, last);
      PeerKeysSnoc(front, last);
    }
  }

  /** Once every command has finished, exactly the keys of the file are live, even where commands
      took ranges from each other. */
  lemma LiveKeysEndAsFile(cmds: seq<Command>, t: string, store: Store, turns: seq<Turn>, header: string, peers: seq<Peer>)
    requires ValidTurns(cmds, turns) && PeersOnly(cmds, t) && AllKeyCareful(cmds, t, Initial(cmds, store), turns)
    requires KeysFile(store, t, header, peers) && store.live[t].Keys == PeerKeys(peers)
    requires forall i :: 0 <= i < |cmds| ==> Run(cmds, Initial(cmds, store), turns).phases[i].Finished?
    ensures var end := Run(cmds, Initial(cmds, store), turns).store;
            t in end.files && t in end.live && end.live[t].Keys == LiveOf(end.files[t]).Keys
  {
    var after := RunsKeepConverging(cmds, t, store, turns, header, peers);
    var w := Run(cmds, Initial(cmds, store), turns);
    PartsOfRepresented(w.store.files[t], header, after);
    KeysOfPrinted(after);
    assert forall k :: !KeyInFlight(w, t, k);
  }
}
