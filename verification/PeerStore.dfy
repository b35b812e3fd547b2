/** The web application's side: metadata with auto-assigned addresses, kept in step with
    the daemon's files and the live peers by a series of calls that can be cut off. */
module PeerStore {
  import opened Text
  import opened WgKey
  import opened ConfText
  import opened ConfInfo
  import opened Ipv4
  import opened Helper
  import opened IpText
  import opened Entries
  import opened ClientTests
  import Allocator
  import LanGuard

  // ---------------------------------------------------------------- metadata

  datatype PeerMeta = PeerMeta(id: string, address: nat, key: string)

  datatype TunnelMeta = TunnelMeta(server: Iface, endpoint: Option<string>, port: nat, peers: seq<PeerMeta>)

  type Metadata = map<string, TunnelMeta>

  datatype Web = Web(meta: Metadata, store: Store)

  function Addresses(peers: seq<PeerMeta>): (r: seq<nat>)
    ensures |r| == |peers| && forall i :: 0 <= i < |peers| ==> r[i] == peers[i].address
  {
    seq(|peers|, i requires 0 <= i < |peers| => peers[i].address)
  }

  function FindId(peers: seq<PeerMeta>, id: string): Option<PeerMeta> {
    if peers == [] then None
    else if peers[0].id == id then Some(peers[0])
    else FindId(peers[1..], id)
  }

  function WithoutId(peers: seq<PeerMeta>, id: string): seq<PeerMeta> {
    if peers == [] then []
    else if peers[0].id == id then WithoutId(peers[1..], id)
    else [peers[0]] + WithoutId(peers[1..], id)
  }

  // ---------------------------------------------------------------- requests

  type ServerIface = i: Iface | ValidIface(i) witness Iface(0, 0)

  type SystemView = s: seq<LanGuard.SystemIface> | LanGuard.ValidSystem(s) witness []

  /** A request, with the values that the program generates for it, keys and ids, and with the
      system's interfaces as it finds them. */
  datatype Request =
    | NewTunnel(name: string, server: ServerIface, port: nat, endpoint: Option<string>, privateKey: string, force: bool, system: SystemView)
    | EndTunnel(name: string)
    | SetState(name: string, action: Action, force: bool, system: SystemView)
    | NewPeer(name: string, id: string, key: string, psk: Option<string>, keepalive: Option<int>)
    | EndPeer(name: string, id: string)

  datatype Reply = Done | NotFound | Refused | HelperFailed | Crashed

  function TunnelCommand(r: Request): Command
    requires r.NewTunnel?
  {
    CreateTunnel(r.name, r.privateKey, Str(IfaceText(r.server)), r.port)
  }

  function PeerCommand(r: Request, address: nat): Command
    requires r.NewPeer?
  {
    AddPeer(r.name, r.key, [Str(HostText(address))], r.psk, if r.keepalive.Some? then Some(Count(r.keepalive.value)) else None)
  }

  function Save(w: Web, s: Store, name: string, meta: TunnelMeta): Web { Web(w.meta[name := meta], s) }

  /** The check before an activation: the program fails on a server address that is none. */
  function Gate(conf: string, system: SystemView): Reply {
    var candidates := LanGuard.Candidates(InfoOf(conf));
    if candidates.None? then Crashed
    else if LanGuard.Conflicts(candidates.value, system) != [] then Refused
    else Done
  }

  /** One request from start to end; every program the daemon runs succeeds. */
  function Handle(r: Request, w: Web): (Web, Reply)
    requires ValidMeta(w.meta)
  {
    match r
    case NewTunnel(name, server, port, endpoint, privateKey, force, system) =>
      if !force && LanGuard.Conflicts([V4(NetworkOf(server))], system) != [] then (w, Refused)
      else
        var (s, error) := RunAlone(TunnelCommand(r), w.store, true);
        if error.Some? then (Web(w.meta, s), HelperFailed)
        else (Save(w, s, name, TunnelMeta(server, endpoint, port, [])), Done)
    case EndTunnel(name) =>
      var (s, error) := RunAlone(DeleteTunnel(name), w.store, true);
      if error.Some? then (Web(w.meta, s), HelperFailed)
      else (Web(w.meta - {name}, s), Done)
    case SetState(name, action, force, system) =>
      if !ValidName(name) then (w, HelperFailed)
      else if name !in w.store.files then (w, NotFound)
      else if action.Activate? && !force && Gate(w.store.files[name], system) != Done then
        (w, Gate(w.store.files[name], system))
      else
        var (s, error) := RunAlone(SetTunnelState(name, action), w.store, true);
        (Web(w.meta, s), if error.Some? then HelperFailed else Done)
    case NewPeer(name, id, key, psk, keepalive) =>
      if name !in w.meta then (w, NotFound)
      else if !ValidName(name) then (w, HelperFailed)
      else if name !in w.store.files || name !in w.store.live then (w, Refused)
      else
        var address := Allocator.NextAddress(w.meta[name].server, Addresses(w.meta[name].peers));
        if address.None? then (w, Refused)
        else
          var (s, error) := RunAlone(PeerCommand(r, address.value), w.store, true);
          if error.Some? then (Web(w.meta, s), HelperFailed)
          else (Save(w, s, name, w.meta[name].(peers := w.meta[name].peers + [PeerMeta(id, address.value, key)])), Done)
    case EndPeer(name, id) =>
      if name !in w.meta then (w, NotFound)
      else
        var peer := FindId(w.meta[name].peers, id);
        if peer.None? then (w, NotFound)
        else
          var (s, error) := RunAlone(RemovePeer(name, peer.value.key), w.store, true);
          if error.Some? then (Web(w.meta, s), HelperFailed)
          else (Save(w, s, name, w.meta[name].(peers := WithoutId(w.meta[name].peers, id))), Done)
  }

  predicate ValidMeta(meta: Metadata) { forall name :: name in meta ==> ValidIface(meta[name].server) }

  /** What the generators guarantee: keys and ids that no peer has. */
  predicate WellFormed(r: Request, w: Web) {
    match r
    case NewPeer(name, id, key, psk, _) =>
      && MatchesBody(key)
      && (name in w.meta ==> forall i :: 0 <= i < |w.meta[name].peers| ==>
            w.meta[name].peers[i].key != key && w.meta[name].peers[i].id != id)
    case _ => true
  }

  // ---------------------------------------------------------------- the application

  class WebApp {
    var meta: Metadata
    const daemon: Daemon

    constructor (daemon: Daemon, meta: Metadata)
      ensures this.daemon == daemon && this.meta == meta
    {
      this.daemon := daemon;
      this.meta := meta;
    }

    function State(): Web
      reads this, daemon
    {
      Web(meta, daemon.State())
    }

    method CreateTunnelRequest(r: Request) returns (reply: Reply)
      requires r.NewTunnel? && ValidMeta(meta)
      modifies this, daemon
      ensures (State(), reply) == Handle(r, old(State()))
    {
      if !r.force {
        var conflicts := LanGuard.OverlappingLocalSubnets([V4(NetworkOf(r.server))], r.system);
        if conflicts != [] {
          return Refused;
        }
      }
      var error := daemon.CmdCreateTunnel(TunnelCommand(r), true);
      if error.Some? {
        return HelperFailed;
      }
      meta := meta[r.name := TunnelMeta(r.server, r.endpoint, r.port, [])];
      return Done;
    }

    method DeleteTunnelRequest(r: Request) returns (reply: Reply)
      requires r.EndTunnel? && ValidMeta(meta)
      modifies this, daemon
      ensures (State(), reply) == Handle(r, old(State()))
    {
      var error := daemon.CmdDeleteTunnel(DeleteTunnel(r.name), true);
      if error.Some? {
        return HelperFailed;
      }
      meta := meta - {r.name};
      return Done;
    }

    method SetTunnelStateRequest(r: Request) returns (reply: Reply)
      requires r.SetState? && ValidMeta(meta)
      modifies this, daemon
      ensures (State(), reply) == Handle(r, old(State()))
    {
      if !ValidName(r.name) {
        return HelperFailed;
      }
      if r.name !in daemon.files {
        return NotFound;
      }
      if r.action.Activate? && !r.force {
        var info := ParseConfInfo(daemon.files[r.name]);
        var candidates := LanGuard.CandidatesOf(info);
        if candidates.None? {
          return Crashed;
        }
        var conflicts := LanGuard.OverlappingLocalSubnets(candidates.value, r.system);
        if conflicts != [] {
          return Refused;
        }
      }
      var error := daemon.CmdSetTunnelState(SetTunnelState(r.name, r.action), true);
      return if error.Some? then HelperFailed else Done;
    }

    method CreatePeerRequest(r: Request) returns (reply: Reply)
      requires r.NewPeer? && ValidMeta(meta)
      modifies this, daemon
      ensures (State(), reply) == Handle(r, old(State()))
    {
      if r.name !in meta {
        return NotFound;
      }
      if !ValidName(r.name) {
        return HelperFailed;
      }
      if r.name !in daemon.files || r.name !in daemon.live {
        return Refused;
      }
      var tunnel := meta[r.name];
      var address := Allocator.AllocatePeerAddress(tunnel.server, Addresses(tunnel.peers));
      if address.None? {
        return Refused;
      }
      var error := daemon.CmdAddPeer(PeerCommand(r, address.value), true, true);
      if error.Some? {
        return HelperFailed;
      }
      meta := meta[r.name := tunnel.(peers := tunnel.peers + [PeerMeta(r.id, address.value, r.key)])];
      return Done;
    }

    method DeletePeerRequest(r: Request) returns (reply: Reply)
      requires r.EndPeer? && ValidMeta(meta)
      modifies this, daemon
      ensures (State(), reply) == Handle(r, old(State()))
    {
      if r.name !in meta {
        return NotFound;
      }
      var tunnel := meta[r.name];
      var peer := FindId(tunnel.peers, r.id);
      if peer.None? {
        return NotFound;
      }
      var error := daemon.CmdRemovePeer(RemovePeer(r.name, peer.value.key), true, true);
      if error.Some? {
        return HelperFailed;
      }
      meta := meta[r.name := tunnel.(peers := WithoutId(tunnel.peers, r.id))];
      return Done;
    }
  }

  // ---------------------------------------------------------------- what replies mean

  lemma RefusedChangesNothing(c: Command, s: Store)
    requires c.AddPeer? || c.RemovePeer? ==> '\n' !in c.key
    ensures RunAlone(c, s, true).1.Some? ==> RunAlone(c, s, true).0 == s
  {
  }

  predicate BareMeta(meta: Metadata) {
    forall name, m :: name in meta && m in meta[name].peers ==> MatchesBody(m.key)
  }

  /** With the daemon's programs at work, a request that is not done has changed nothing. */
  lemma UndoneChangesNothing(r: Request, w: Web)
    requires ValidMeta(w.meta) && BareMeta(w.meta) && WellFormed(r, w)
    ensures Handle(r, w).1 != Done ==> Handle(r, w).0 == w
  {
    match r {
      case NewTunnel(_, _, _, _, _, _, _) => RefusedChangesNothing(TunnelCommand(r), w.store);
      case EndTunnel(name) => RefusedChangesNothing(DeleteTunnel(name), w.store);
      case SetState(name, action, _, _) => RefusedChangesNothing(SetTunnelState(name, action), w.store);
      case NewPeer(name, _, key, _, _) =>
        BareOfBody(key);
        if name in w.meta {
          var address := Allocator.NextAddress(w.meta[name].server, Addresses(w.meta[name].peers));
          if address.Some? {
            RefusedChangesNothing(PeerCommand(r, address.value), w.store);
          }
        }
      case EndPeer(name, id) =>
        if name in w.meta && FindId(w.meta[name].peers, id).Some? {
          var peer := FindId(w.meta[name].peers, id).value;
          FindIdMember(w.meta[name].peers, id);
          BareOfBody(peer.key);
          RefusedChangesNothing(RemovePeer(name, peer.key), w.store);
        }
    }
  }

  /** What a request that reports success has brought about. */
  ghost predicate Achieved(r: Request, w: Web, v: Web)
    requires ValidMeta(w.meta)
  {
    match r
    case NewTunnel(name, _, _, _, _, _, _) =>
      && name !in w.store.files && name in v.store.files && name in v.meta && v.meta[name].peers == []
      && v.store.live == w.store.live
    case EndTunnel(name) => name !in v.meta && name !in v.store.files && name !in v.store.live
    case SetState(name, action, _, _) =>
      v.meta == w.meta && v.store.files == w.store.files && (name in v.store.live <==> action.Activate?)
    case NewPeer(name, id, key, _, _) =>
      && name in w.meta && name in v.meta && |v.meta[name].peers| == |w.meta[name].peers| + 1
      && (forall m :: m in w.meta[name].peers ==> m in v.meta[name].peers)
      && (var m := v.meta[name].peers[|w.meta[name].peers|];
          && m.id == id && m.key == key
          && Allocator.Usable(m.address, NetworkOf(w.meta[name].server)) && m.address != w.meta[name].server.ip
          && (forall n :: n in w.meta[name].peers ==> n.address != m.address)
          && name in v.store.live && Bare(key) in v.store.live[name] && v.store.live[name][Bare(key)] == {HostRange(m.address)})
    case EndPeer(name, id) =>
      && name in w.meta && name in v.meta
      && (forall m :: m in v.meta[name].peers <==> m in w.meta[name].peers && m.id != id)
      && (exists m :: m in w.meta[name].peers && m.id == id
            && (name in v.store.live ==> Bare(m.key) !in v.store.live[name]))
  }

  lemma DoneIsAchieved(r: Request, w: Web)
    requires ValidMeta(w.meta) && Handle(r, w).1 == Done
    ensures Achieved(r, w, Handle(r, w).0)
  {
    match r {
      case NewPeer(_, _, _, _, _) => NewPeerAchieved(r, w);
      case EndPeer(_, _) => EndPeerAchieved(r, w);
      case _ =>
    }
  }

  lemma EndPeerAchieved(r: Request, w: Web)
    requires r.EndPeer? && ValidMeta(w.meta) && Handle(r, w).1 == Done
    ensures Achieved(r, w, Handle(r, w).0)
  {
    WithoutIdMembers(w.meta[r.name].peers, r.id);
    FindIdMember(w.meta[r.name].peers, r.id);
  }

  lemma AddressIsNew(server: Iface, peers: seq<PeerMeta>)
    requires ValidIface(server)
    ensures var next := Allocator.NextAddress(server, Addresses(peers));
            next.Some? ==> Allocator.Usable(next.value, NetworkOf(server)) && next.value != server.ip && next.value < ADDRESSES
                           && forall n :: n in peers ==> n.address != next.value
  {
    Allocator.NextIsLowestFree(server, Addresses(peers));
    var next := Allocator.NextAddress(server, Addresses(peers));
    if next.Some? {
      Allocator.UsableIsAddress(next.value, NetworkOf(server));
    }
    forall n | n in peers ensures n.address in Addresses(peers) {
      var k :| 0 <= k < |peers| && peers[k] == n;
      assert Addresses(peers)[k] == n.address;
    }
  }

  lemma NewPeerAchieved(r: Request, w: Web)
    requires ValidMeta(w.meta) && r.NewPeer? && Handle(r, w).1 == Done
    ensures Achieved(r, w, Handle(r, w).0)
  {
    var tunnel := w.meta[r.name];
    var address := Allocator.NextAddress(tunnel.server, Addresses(tunnel.peers)).value;
    AddressIsNew(tunnel.server, tunnel.peers);
    NewPeerPrints(r, address);
    AddedGoesLive(PeerCommand(r, address), w.store);
  }

  lemma NewPeerPrints(r: Request, address: nat)
    requires r.NewPeer? && address < ADDRESSES
    ensures var p := PeerOf(PeerCommand(r, address));
            p.key == r.key && p.ranges == [HostText(address)] && RangeSet(p.ranges) == {HostRange(address)}
  {
    HostPrints(address);
    OneNetworkText(Str(HostText(address)));
    HostRangeOnly(address);
  }

  /** An assigned address has no scope id. */
  lemma NewPeerIsClean(r: Request, address: nat)
    requires r.NewPeer? && address < ADDRESSES
    ensures CleanScopes(PeerCommand(r, address))
  {
    HostPrints(address);
    ContainsNothingInEmpty(KEY_NAME);
  }

  lemma AddedGoesLive(c: Command, s: Store)
    requires c.AddPeer? && c.name in s.live && RunAlone(c, s, true).1.None?
    ensures var live := RunAlone(c, s, true).0.live;
            c.name in live && Bare(c.key) in live[c.name] && live[c.name][Bare(c.key)] == RangeSet(PeerOf(c).ranges)
  {
  }

  // ---------------------------------------------------------------- three-way agreement

  predicate Differ(a: PeerMeta, b: PeerMeta) { a.key != b.key && a.id != b.id && a.address != b.address }

  predicate SoundPeer(server: Iface, p: PeerMeta)
    requires ValidIface(server)
  {
    MatchesBody(p.key) && Allocator.Usable(p.address, NetworkOf(server)) && p.address != server.ip
  }

  /** Keys, ids and addresses are distinct, the addresses usable and none the server's. */
  predicate SoundMeta(tunnel: TunnelMeta) {
    && ValidIface(tunnel.server)
    && (forall i :: 0 <= i < |tunnel.peers| ==> SoundPeer(tunnel.server, tunnel.peers[i]))
    && (forall i, j :: 0 <= i < j < |tunnel.peers| ==> Differ(tunnel.peers[i], tunnel.peers[j]))
  }

  lemma SoundIsGood(tunnel: TunnelMeta)
    requires SoundMeta(tunnel)
    ensures Allocator.Good(tunnel.server, Addresses(tunnel.peers))
  {
    var a := Addresses(tunnel.peers);
    forall i, j | 0 <= i < j < |a| ensures a[i] != a[j] {
      assert Differ(tunnel.peers[i], tunnel.peers[j]);
    }
    forall i | 0 <= i < |a| ensures Allocator.Usable(a[i], NetworkOf(tunnel.server)) && a[i] != tunnel.server.ip {
      assert SoundPeer(tunnel.server, tunnel.peers[i]);
    }
  }

  function HostRange(address: nat): Range { V4(Net(address, 32)) }

  predicate Mirror(p: Peer, m: PeerMeta) { p.key == m.key && m.address < ADDRESSES && p.ranges == [HostText(m.address)] }

  lemma HostRangeOnly(address: nat)
    requires address < ADDRESSES
    ensures RangeSet([HostText(address)]) == {HostRange(address)}
  {
    HostReadsBack(address);
    var ranges := [HostText(address)];
    assert ranges[0] in ranges;
  }

  /** The printed peers are those of the metadata, each with its own address only. */
  predicate Mirrors(peers: seq<Peer>, metas: seq<PeerMeta>) {
    |peers| == |metas| && forall i :: 0 <= i < |peers| ==> Mirror(peers[i], metas[i])
  }

  ghost predicate TunnelAgrees(tunnel: TunnelMeta, s: Store, name: string, header: string, peers: seq<Peer>) {
    && SoundMeta(tunnel)
    && name in s.files && Represents(s.files[name], header, peers) && Mirrors(peers, tunnel.peers)
    && (name in s.live ==> s.live[name] == PeerMap(peers))
  }

  ghost predicate NameAgrees(w: Web, name: string) {
    name in w.meta ==> exists header, peers :: TunnelAgrees(w.meta[name], w.store, name, header, peers)
  }

  /** Every tunnel with metadata has it in step with its file and, when up, its live peers. */
  ghost predicate Agrees(w: Web) {
    && (forall name :: name in w.store.live ==> name in w.store.files)
    && (forall name :: NameAgrees(w, name))
  }

  lemma BareOfBody(key: string)
    requires MatchesBody(key)
    ensures Bare(key) == key && Accepts(key) && '\n' !in key
  {
    assert key[43] == '=';
    BareOfAccepted(key);
  }

  /** Distinct keys and addresses make peers that do not take ranges from each other. */
  lemma MirrorsApart(peers: seq<Peer>, tunnel: TunnelMeta)
    requires SoundMeta(tunnel) && Mirrors(peers, tunnel.peers)
    ensures Apart(peers) && BareKeys(peers)
  {
    forall i | 0 <= i < |peers| ensures '\n' !in peers[i].key && Bare(peers[i].key) == peers[i].key {
      assert SoundPeer(tunnel.server, tunnel.peers[i]) && Mirror(peers[i], tunnel.peers[i]);
      BareOfBody(peers[i].key);
    }
    forall i, j | 0 <= i < j < |peers| ensures !SameKey(peers[i].key, peers[j].key) && !Overlap(peers[i], peers[j]) {
      assert Differ(tunnel.peers[i], tunnel.peers[j]);
      assert Mirror(peers[i], tunnel.peers[i]) && Mirror(peers[j], tunnel.peers[j]);
      HostRangeOnly(tunnel.peers[i].address);
      HostRangeOnly(tunnel.peers[j].address);
    }
  }

  // Deleting by id.

  lemma {:induction false} FindIdMember(peers: seq<PeerMeta>, id: string)
    ensures var p := FindId(peers, id); p.Some? ==> p.value in peers && p.value.id == id
    ensures FindId(peers, id).None? ==> forall p :: p in peers ==> p.id != id
  {
    if peers != [] && peers[0].id != id {
      FindIdMember(peers[1..], id);
    }
  }

  lemma {:induction false} WithoutIdMembers(metas: seq<PeerMeta>, id: string)
    ensures forall m :: m in WithoutId(metas, id) <==> m in metas && m.id != id
  {
    if metas != [] {
      WithoutIdMembers(metas[1..], id);
    }
  }

  lemma {:induction false} WithoutIdSound(tunnel: TunnelMeta, id: string)
    requires SoundMeta(tunnel)
    ensures SoundMeta(tunnel.(peers := WithoutId(tunnel.peers, id)))
    decreases |tunnel.peers|
  {
    var metas := tunnel.peers;
    if metas != [] {
      var rest := metas[1..];
      assert forall i :: 0 <= i < |rest| ==> rest[i] == metas[i + 1];
      WithoutIdSound(tunnel.(peers := rest), id);
      WithoutIdMembers(rest, id);
      var kept := WithoutId(rest, id);
      forall i | 0 <= i < |kept| ensures Differ(metas[0], kept[i]) {
        assert kept[i] in rest;
        var k :| 0 <= k < |rest| && rest[k] == kept[i];
        assert Differ(metas[0], metas[k + 1]);
      }
    }
  }

  lemma MirrorsCons(p: Peer, m: PeerMeta, peers: seq<Peer>, metas: seq<PeerMeta>)
    requires Mirror(p, m) && Mirrors(peers, metas)
    ensures Mirrors([p] + peers, [m] + metas)
  {
  }

  /** Dropping the one peer with an id is dropping the one with its key. */
  lemma {:induction false} WithoutIdMirrors(peers: seq<Peer>, metas: seq<PeerMeta>, id: string, key: string)
    requires Mirrors(peers, metas) && MatchesBody(key)
    requires forall i :: 0 <= i < |metas| ==> MatchesBody(metas[i].key) && (metas[i].id == id <==> metas[i].key == key)
    ensures Mirrors(Without(peers, key), WithoutId(metas, id))
  {
    if peers != [] {
      BareOfBody(key);
      BareOfBody(metas[0].key);
      var restPeers, restMetas := peers[1..], metas[1..];
      assert Mirror(peers[0], metas[0]);
      assert forall i :: 0 <= i < |restMetas| ==> restMetas[i] == metas[i + 1] && restPeers[i] == peers[i + 1];
      WithoutIdMirrors(restPeers, restMetas, id, key);
      assert SameKey(peers[0].key, key) <==> metas[0].id == id;
      if metas[0].id != id {
        MirrorsCons(peers[0], metas[0], Without(restPeers, key), WithoutId(restMetas, id));
      }
    }
  }

  lemma IdMeansKey(tunnel: TunnelMeta, peer: PeerMeta)
    requires SoundMeta(tunnel) && peer in tunnel.peers
    ensures MatchesBody(peer.key)
    ensures forall i :: 0 <= i < |tunnel.peers| ==> MatchesBody(tunnel.peers[i].key) && (tunnel.peers[i].id == peer.id <==> tunnel.peers[i].key == peer.key)
  {
    var k :| 0 <= k < |tunnel.peers| && tunnel.peers[k] == peer;
    assert SoundPeer(tunnel.server, tunnel.peers[k]);
    forall i | 0 <= i < |tunnel.peers|
      ensures MatchesBody(tunnel.peers[i].key) && (tunnel.peers[i].id == peer.id <==> tunnel.peers[i].key == peer.key)
    {
      assert SoundPeer(tunnel.server, tunnel.peers[i]);
      if i < k {
        assert Differ(tunnel.peers[i], tunnel.peers[k]);
      } else if k < i {
        assert Differ(tunnel.peers[k], tunnel.peers[i]);
      }
    }
  }

  // What the daemon's commands do to one tunnel's file and live peers.

  lemma RunAloneElsewhere(c: Command, s: Store)
    ensures Elsewhere(s, RunAlone(c, s, true).0, c.name)
  {
    var (t, next) := FirstPiece(c, s);
    FirstPieceElsewhere(c, s);
    if next.Await? {
      LandElsewhere(next.effect, t, true);
    }
  }

  lemma AddPeerAlone(c: Command, s: Store, header: string, peers: seq<Peer>)
    requires c.AddPeer? && Check(c).None? && MatchesBody(c.key) && CleanScopes(c)
    requires c.name in s.files && Represents(s.files[c.name], header, peers) && !HasKey(peers, c.key)
    ensures ValidPeer(PeerOf(c)) && AddPeerText(s.files[c.name], PeerOf(c)).Ok?
    ensures var (t, error) := RunAlone(c, s, true);
      && error.None?
      && t.files == s.files[c.name := AddPeerText(s.files[c.name], PeerOf(c)).value]
      && t.live == (if c.name in s.live then s.live[c.name := PutLive(s.live[c.name], c.key, RangeSet(PeerOf(c).ranges))] else s.live)
  {
    CheckedPeerIsValid(c);
    BareOfBody(c.key);
    AddRefines(s.files[c.name], header, peers, PeerOf(c));
  }

  lemma RemovePeerAlone(c: Command, s: Store)
    requires c.RemovePeer? && Check(c).None? && MatchesBody(c.key) && c.name in s.files
    ensures var (t, error) := RunAlone(c, s, true);
      && error.None?
      && t.files == s.files[c.name := RemovePeerText(s.files[c.name], c.key)]
      && t.live == (if c.name in s.live then s.live[c.name := DropLive(s.live[c.name], c.key)] else s.live)
  {
    BareOfBody(c.key);
  }

  lemma CheckFailsAlone(c: Command, s: Store)
    requires Check(c).Some?
    ensures RunAlone(c, s, true) == (s, Check(c))
  {
  }

  // Each request keeps the agreement.

  lemma AgreesFrom(w: Web, v: Web, name: string)
    requires Agrees(w) && Elsewhere(w.store, v.store, name) && v.meta - {name} == w.meta - {name}
    requires NameAgrees(v, name) && (name in v.store.live ==> name in v.store.files)
    ensures Agrees(v)
  {
    forall n ensures NameAgrees(v, n) && (n in v.store.live ==> n in v.store.files) {
      if n != name {
        SameElsewhere(w.store.files, v.store.files, name, n);
        SameElsewhere(w.store.live, v.store.live, name, n);
        SameElsewhere(w.meta, v.meta, name, n);
        assert NameAgrees(w, n);
        if n in v.meta {
          var header: string, peers: seq<Peer> :| TunnelAgrees(w.meta[n], w.store, n, header, peers);
          assert TunnelAgrees(v.meta[n], v.store, n, header, peers);
        }
      }
    }
  }

  /** A request changes nothing outside the tunnel it names. */
  lemma HandleStaysLocal(r: Request, w: Web)
    requires ValidMeta(w.meta)
    ensures Elsewhere(w.store, Handle(r, w).0.store, r.name)
    ensures Handle(r, w).0.meta - {r.name} == w.meta - {r.name}
  {
    MetaStaysLocal(r, w);
    match r {
      case NewTunnel(_, _, _, _, _, _, _) => RunAloneElsewhere(TunnelCommand(r), w.store);
      case EndTunnel(name) => RunAloneElsewhere(DeleteTunnel(name), w.store);
      case SetState(name, action, _, _) => RunAloneElsewhere(SetTunnelState(name, action), w.store);
      case NewPeer(name, _, _, _, _) =>
        if name in w.meta {
          var next := Allocator.NextAddress(w.meta[name].server, Addresses(w.meta[name].peers));
          if next.Some? {
            RunAloneElsewhere(PeerCommand(r, next.value), w.store);
          }
        }
      case EndPeer(name, id) =>
        if name in w.meta && FindId(w.meta[name].peers, id).Some? {
          RunAloneElsewhere(RemovePeer(name, FindId(w.meta[name].peers, id).value.key), w.store);
        }
    }
  }

  lemma MetaStaysLocal(r: Request, w: Web)
    requires ValidMeta(w.meta)
    ensures Handle(r, w).0.meta - {r.name} == w.meta - {r.name}
  {
  }

  lemma AgreesAgain(w: Web, v: Web, name: string, header: string, peers: seq<Peer>)
    requires Agrees(w) && Elsewhere(w.store, v.store, name) && v.meta - {name} == w.meta - {name}
    requires name in v.meta && TunnelAgrees(v.meta[name], v.store, name, header, peers)
    ensures Agrees(v)
  {
    AgreesFrom(w, v, name);
  }

  lemma CreateTunnelAlone(c: Command, s: Store)
    requires c.CreateTunnel? && RunAlone(c, s, true).1.None?
    ensures Accepts(c.privateKey) && Usable(c.address) && c.port >= 0 && c.name !in s.files
    ensures RunAlone(c, s, true).0 == s.(files := s.files[c.name := TunnelConf(c.privateKey, InterfaceText(c.address), c.port)])
  {
  }

  lemma NewTunnelGoes(r: Request, w: Web, s: Store)
    requires r.NewTunnel? && Agrees(w) && ValidIface(r.server)
    requires RunAlone(TunnelCommand(r), w.store, true) == (s, None)
    ensures TunnelAgrees(TunnelMeta(r.server, r.endpoint, r.port, []), s, r.name, TunnelConf(r.privateKey, IfaceText(r.server), r.port), [])
  {
    IfaceTextIsRange(r.server);
    RangeIsClean(IfaceText(r.server));
    InlineHasNoCut(IfaceText(r.server));
    IfacePrints(r.server);
    CreateTunnelAlone(TunnelCommand(r), w.store);
    TunnelConfRepresents(r.privateKey, IfaceText(r.server), r.port);
    assert r.name !in w.store.live;
  }

  lemma NewTunnelAgrees(r: Request, w: Web)
    requires r.NewTunnel? && Agrees(w) && ValidMeta(w.meta) && WellFormed(r, w)
    ensures Agrees(Handle(r, w).0)
  {
    var v := Handle(r, w).0;
    var (s, error) := RunAlone(TunnelCommand(r), w.store, true);
    HandleStaysLocal(r, w);
    if Handle(r, w).1 == Done {
      NewTunnelGoes(r, w, s);
      AgreesAgain(w, v, r.name, TunnelConf(r.privateKey, IfaceText(r.server), r.port), []);
    } else if error.Some? {
      RefusedChangesNothing(TunnelCommand(r), w.store);
    }
  }

  lemma EndTunnelAgrees(r: Request, w: Web)
    requires r.EndTunnel? && Agrees(w) && ValidMeta(w.meta)
    ensures Agrees(Handle(r, w).0) && ValidMeta(Handle(r, w).0.meta)
  {
    var v := Handle(r, w).0;
    RunAloneElsewhere(DeleteTunnel(r.name), w.store);
    if RunAlone(DeleteTunnel(r.name), w.store, true).1.Some? {
      RefusedChangesNothing(DeleteTunnel(r.name), w.store);
    } else {
      AgreesFrom(w, v, r.name);
    }
  }

  lemma SetStateAlone(name: string, action: Action, s: Store)
    requires name in s.files
    ensures var t := RunAlone(SetTunnelState(name, action), s, true).0;
      && t.files == s.files
      && (name in t.live ==> t.live[name] == if name in s.live then s.live[name] else LiveOf(s.files[name]))
  {
  }

  lemma SetStateAgrees(r: Request, w: Web)
    requires r.SetState? && Agrees(w) && ValidMeta(w.meta)
    ensures Agrees(Handle(r, w).0) && ValidMeta(Handle(r, w).0.meta)
  {
    var v, name := Handle(r, w).0, r.name;
    HandleStaysLocal(r, w);
    if v.store != w.store {
      SetStateAlone(name, r.action, w.store);
      assert NameAgrees(w, name);
      if name in w.meta {
        var header: string, peers: seq<Peer> :| TunnelAgrees(w.meta[name], w.store, name, header, peers);
        MirrorsApart(peers, w.meta[name]);
        UpGivesPeerMap(w.store.files[name], header, peers);
        AgreesAgain(w, v, name, header, peers);
      } else {
        AgreesFrom(w, v, name);
      }
    }
  }

  lemma SoundWithNew(tunnel: TunnelMeta, id: string, key: string, address: nat)
    requires SoundMeta(tunnel) && MatchesBody(key)
    requires forall i :: 0 <= i < |tunnel.peers| ==> tunnel.peers[i].key != key && tunnel.peers[i].id != id
    requires Allocator.NextAddress(tunnel.server, Addresses(tunnel.peers)) == Some(address)
    ensures SoundMeta(tunnel.(peers := tunnel.peers + [PeerMeta(id, address, key)]))
  {
    var used := Allocator.Used(tunnel.server, Addresses(tunnel.peers));
    assert address !in used && tunnel.server.ip in used;
    forall i | 0 <= i < |tunnel.peers| ensures tunnel.peers[i].address != address {
      assert Addresses(tunnel.peers)[i] in used;
    }
  }

  lemma FreshKeyIsNew(peers: seq<Peer>, tunnel: TunnelMeta, key: string)
    requires SoundMeta(tunnel) && Mirrors(peers, tunnel.peers) && MatchesBody(key)
    requires forall i :: 0 <= i < |tunnel.peers| ==> tunnel.peers[i].key != key
    ensures !HasKey(peers, key)
  {
    BareOfBody(key);
    forall i | 0 <= i < |peers| ensures !SameKey(peers[i].key, key) {
      assert Mirror(peers[i], tunnel.peers[i]) && SoundPeer(tunnel.server, tunnel.peers[i]);
      BareOfBody(peers[i].key);
    }
  }

  lemma OneNetworkText(e: Entry)
    requires Usable(e)
    ensures NetworkTexts([e]) == [NetworkText(e)]
  {
    assert [e][1..] == [];
  }

  lemma NewPeerAgrees(r: Request, w: Web)
    requires r.NewPeer? && Agrees(w) && ValidMeta(w.meta) && WellFormed(r, w)
    ensures Agrees(Handle(r, w).0)
  {
    var name := r.name;
    assert NameAgrees(w, name);
    if name in w.meta && ValidName(name) && name in w.store.files && name in w.store.live {
      var tunnel := w.meta[name];
      var next := Allocator.NextAddress(tunnel.server, Addresses(tunnel.peers));
      if next.Some? {
        var header: string, peers: seq<Peer> :| TunnelAgrees(tunnel, w.store, name, header, peers);
        NewPeerTried(r, w, header, peers, next.value);
      }
    }
  }

  lemma NewPeerTried(r: Request, w: Web, header: string, peers: seq<Peer>, address: nat)
    requires r.NewPeer? && Agrees(w) && ValidMeta(w.meta) && WellFormed(r, w) && r.name in w.meta && r.name in w.store.live
    requires TunnelAgrees(w.meta[r.name], w.store, r.name, header, peers)
    requires Allocator.NextAddress(w.meta[r.name].server, Addresses(w.meta[r.name].peers)) == Some(address)
    ensures Agrees(Handle(r, w).0)
  {
    var c := PeerCommand(r, address);
    if Check(c).Some? {
      CheckFailsAlone(c, w.store);
    } else {
      NewPeerGoes(r, w, header, peers, address);
      HandleStaysLocal(r, w);
      var v, after := Handle(r, w).0, peers + [PeerOf(c)];
      assert r.name in v.meta && TunnelAgrees(v.meta[r.name], v.store, r.name, header, after);
      AgreesAgain(w, v, r.name, header, after);
    }
  }

  /** The file and the live peers after a successful add. */
  lemma AddedAgrees(tunnel: TunnelMeta, s: Store, header: string, peers: seq<Peer>, c: Command, meta: PeerMeta)
    requires c.AddPeer? && Check(c).None? && CleanScopes(c) && TunnelAgrees(tunnel, s, c.name, header, peers)
    requires SoundMeta(tunnel.(peers := tunnel.peers + [meta])) && Mirror(PeerOf(c), meta) && !HasKey(peers, c.key)
    ensures RunAlone(c, s, true).1.None?
    ensures TunnelAgrees(tunnel.(peers := tunnel.peers + [meta]), RunAlone(c, s, true).0, c.name, header, peers + [PeerOf(c)])
  {
    var more, p := tunnel.(peers := tunnel.peers + [meta]), PeerOf(c);
    assert SoundPeer(more.server, more.peers[|tunnel.peers|]);
    AddPeerAlone(c, s, header, peers);
    AddRefines(s.files[c.name], header, peers, p);
    MirrorsApart(peers + [p], more);
    BareOfBody(c.key);
    PutIntoApart(peers, p);
  }

  lemma NewPeerGoes(r: Request, w: Web, header: string, peers: seq<Peer>, address: nat)
    requires r.NewPeer? && ValidMeta(w.meta) && WellFormed(r, w) && r.name in w.meta && r.name in w.store.live
    requires TunnelAgrees(w.meta[r.name], w.store, r.name, header, peers)
    requires Allocator.NextAddress(w.meta[r.name].server, Addresses(w.meta[r.name].peers)) == Some(address)
    requires Check(PeerCommand(r, address)).None?
    ensures Handle(r, w).1 == Done
    ensures TunnelAgrees(Handle(r, w).0.meta[r.name], Handle(r, w).0.store, r.name, header, peers + [PeerOf(PeerCommand(r, address))])
  {
    var tunnel, c := w.meta[r.name], PeerCommand(r, address);
    AddressIsNew(tunnel.server, tunnel.peers);
    NewPeerPrints(r, address);
    NewPeerIsClean(r, address);
    FreshKeyIsNew(peers, tunnel, r.key);
    SoundWithNew(tunnel, r.id, r.key, address);
    AddedAgrees(tunnel, w.store, header, peers, c, PeerMeta(r.id, address, r.key));
  }

  lemma EndPeerAgrees(r: Request, w: Web)
    requires r.EndPeer? && Agrees(w) && ValidMeta(w.meta)
    ensures Agrees(Handle(r, w).0)
  {
    assert NameAgrees(w, r.name);
    if r.name in w.meta {
      var tunnel := w.meta[r.name];
      var found := FindId(tunnel.peers, r.id);
      if found.Some? {
        var header: string, peers: seq<Peer> :| TunnelAgrees(tunnel, w.store, r.name, header, peers);
        EndPeerTried(r, w, header, peers, found.value);
      }
    }
  }

  lemma EndPeerTried(r: Request, w: Web, header: string, peers: seq<Peer>, peer: PeerMeta)
    requires r.EndPeer? && Agrees(w) && ValidMeta(w.meta) && r.name in w.meta
    requires TunnelAgrees(w.meta[r.name], w.store, r.name, header, peers)
    requires FindId(w.meta[r.name].peers, r.id) == Some(peer)
    ensures Agrees(Handle(r, w).0)
  {
    var c := RemovePeer(r.name, peer.key);
    if Check(c).Some? {
      CheckFailsAlone(c, w.store);
    } else {
      EndPeerGoes(r, w, header, peers, peer);
      HandleStaysLocal(r, w);
      AgreesAgain(w, Handle(r, w).0, r.name, header, Without(peers, peer.key));
    }
  }

  lemma EndPeerGoes(r: Request, w: Web, header: string, peers: seq<Peer>, peer: PeerMeta)
    requires r.EndPeer? && ValidMeta(w.meta) && r.name in w.meta
    requires TunnelAgrees(w.meta[r.name], w.store, r.name, header, peers)
    requires FindId(w.meta[r.name].peers, r.id) == Some(peer) && Check(RemovePeer(r.name, peer.key)).None?
    ensures Handle(r, w).1 == Done
    ensures TunnelAgrees(Handle(r, w).0.meta[r.name], Handle(r, w).0.store, r.name, header, Without(peers, peer.key))
  {
    var name, tunnel := r.name, w.meta[r.name];
    FindIdMember(tunnel.peers, r.id);
    IdMeansKey(tunnel, peer);
    BareOfBody(peer.key);
    RemovePeerAlone(RemovePeer(name, peer.key), w.store);
    RemoveRefines(w.store.files[name], header, peers, peer.key);
    WithoutIdSound(tunnel, r.id);
    WithoutIdMirrors(peers, tunnel.peers, r.id, peer.key);
    MirrorsApart(peers, tunnel);
    PeerMapWithout(peers, peer.key);
  }

  lemma RequestKeepsAgreement(r: Request, w: Web)
    requires Agrees(w) && ValidMeta(w.meta) && WellFormed(r, w)
    ensures Agrees(Handle(r, w).0) && ValidMeta(Handle(r, w).0.meta)
  {
    HandleKeepsValidMeta(r, w);
    match r {
      case NewTunnel(_, _, _, _, _, _, _) => NewTunnelAgrees(r, w);
      case EndTunnel(_) => EndTunnelAgrees(r, w);
      case SetState(_, _, _, _) => SetStateAgrees(r, w);
      case NewPeer(_, _, _, _, _) => NewPeerAgrees(r, w);
      case EndPeer(_, _) => EndPeerAgrees(r, w);
    }
  }

  /** The state after a series of requests; the last is the latest. */
  function HandleAll(requests: seq<Request>, w: Web): Web
    requires ValidMeta(w.meta) && AllWellFormed(requests, w)
    ensures ValidMeta(HandleAll(requests, w).meta)
    decreases |requests|, 1
  {
    if requests == [] then w
    else
      var before := HandleAll(requests[..|requests| - 1], w);
      var after := Handle(requests[|requests| - 1], before).0;
      HandleKeepsValidMeta(requests[|requests| - 1], before);
      after
  }

  predicate AllWellFormed(requests: seq<Request>, w: Web)
    requires ValidMeta(w.meta)
    decreases |requests|, 0
  {
    requests != [] ==>
      && AllWellFormed(requests[..|requests| - 1], w)
      && WellFormed(requests[|requests| - 1], HandleAll(requests[..|requests| - 1], w))
  }

  lemma HandleKeepsValidMeta(r: Request, w: Web)
    requires ValidMeta(w.meta) && WellFormed(r, w)
    ensures ValidMeta(Handle(r, w).0.meta)
  {
  }

  /** Over every series of requests the three copies of each tunnel's peers stay in step. */
  lemma {:induction false} EveryRunAgrees(requests: seq<Request>, w: Web)
    requires ValidMeta(w.meta) && AllWellFormed(requests, w) && Agrees(w)
    ensures Agrees(HandleAll(requests, w))
  {
    if requests != [] {
      EveryRunAgrees(requests[..|requests| - 1], w);
      RequestKeepsAgreement(requests[|requests| - 1], HandleAll(requests[..|requests| - 1], w));
    }
  }

  lemma PrintedPeerReadsBack(p: Peer, m: PeerMeta)
    requires Mirror(p, m) && ValidPeer(p) && '\n' !in p.key
    ensures KeyOfBlock(Block(p)) == Some(m.key) && RangesOfBlock(Block(p)) == [HostText(m.address)]
    ensures RangeSet(p.ranges) == {HostRange(m.address)}
  {
    BareIsSame(p.key);
    BlockGivesKey(p);
    BlockReadsBack(p);
    HostRangeOnly(m.address);
  }

  lemma LivePeerReadsBack(peers: seq<Peer>, m: PeerMeta, i: nat)
    requires Apart(peers) && BareKeys(peers) && i < |peers| && Mirror(peers[i], m)
    ensures m.key in PeerMap(peers) && PeerMap(peers)[m.key] == {HostRange(m.address)}
  {
    PeerAt(peers, i);
    HostRangeOnly(m.address);
  }

  lemma LivePeersReadBack(peers: seq<Peer>, tunnel: TunnelMeta)
    requires SoundMeta(tunnel) && Mirrors(peers, tunnel.peers) && Apart(peers) && BareKeys(peers)
    ensures forall k :: k in PeerMap(peers) ==> exists i :: 0 <= i < |tunnel.peers| && tunnel.peers[i].key == k
    ensures forall i :: 0 <= i < |peers| ==>
              tunnel.peers[i].key in PeerMap(peers) && PeerMap(peers)[tunnel.peers[i].key] == {HostRange(tunnel.peers[i].address)}
  {
    forall k | k in PeerMap(peers) ensures exists i :: 0 <= i < |tunnel.peers| && tunnel.peers[i].key == k {
      var i := FindPeer(peers, k);
      assert Mirror(peers[i], tunnel.peers[i]);
    }
    forall i | 0 <= i < |peers|
      ensures tunnel.peers[i].key in PeerMap(peers) && PeerMap(peers)[tunnel.peers[i].key] == {HostRange(tunnel.peers[i].address)}
    {
      assert Mirror(peers[i], tunnel.peers[i]);
      LivePeerReadsBack(peers, tunnel.peers[i], i);
    }
  }

  /** What the agreement says in terms of the text and the live table: block i of the file
      gives back key i and its one address, and the live peers are the same keys, each with
      that one address. */
  lemma AgreementReadsBack(w: Web, name: string)
    requires Agrees(w) && name in w.meta
    ensures name in w.store.files
    ensures var blocks, metas := Blocks(w.store.files[name]), w.meta[name].peers;
      && |blocks| == |metas|
      && forall i :: 0 <= i < |metas| ==>
           KeyOfBlock(blocks[i]) == Some(metas[i].key) && RangesOfBlock(blocks[i]) == [HostText(metas[i].address)]
    ensures name in w.store.live ==>
      var live, metas := w.store.live[name], w.meta[name].peers;
      && (forall k :: k in live ==> exists i :: 0 <= i < |metas| && metas[i].key == k)
      && forall i :: 0 <= i < |metas| ==> metas[i].key in live && live[metas[i].key] == {HostRange(metas[i].address)}
  {
    assert NameAgrees(w, name);
    var tunnel := w.meta[name];
    var header: string, peers: seq<Peer> :| TunnelAgrees(tunnel, w.store, name, header, peers);
    PartsOfRepresented(w.store.files[name], header, peers);
    MirrorsApart(peers, tunnel);
    LivePeersReadBack(peers, tunnel);
    forall i | 0 <= i < |peers|
      ensures KeyOfBlock(BlocksOf(peers)[i]) == Some(tunnel.peers[i].key) && RangesOfBlock(BlocksOf(peers)[i]) == [HostText(tunnel.peers[i].address)]
    {
      PrintedPeerReadsBack(peers[i], tunnel.peers[i]);
    }
  }

  // ---------------------------------------------------------------- requests that are cut off

  /** The daemon's command, stopped after so many of its steps: the file change, then the
      program's effect. */
  function Partly(c: Command, s: Store, steps: nat): Store {
    var (s1, next) := FirstPiece(c, s);
    if steps == 0 then s
    else if steps == 1 || !next.Await? then s1
    else Land(next.effect, s1, true).0
  }

  /** A peer request that stops after so many steps; with three it has also saved the
      metadata and is complete. A request whose program fails is one that stops there. */
  function HandleCut(r: Request, w: Web, steps: nat): Web
    requires ValidMeta(w.meta)
  {
    if steps >= 3 then Handle(r, w).0
    else match r
      case NewPeer(name, _, _, _, _) =>
        if name !in w.meta || !ValidName(name) || name !in w.store.files || name !in w.store.live then w
        else
          var address := Allocator.NextAddress(w.meta[name].server, Addresses(w.meta[name].peers));
          if address.None? then w else Web(w.meta, Partly(PeerCommand(r, address.value), w.store, steps))
      case EndPeer(name, id) =>
        if name !in w.meta || FindId(w.meta[name].peers, id).None? then w
        else Web(w.meta, Partly(RemovePeer(name, FindId(w.meta[name].peers, id).value.key), w.store, steps))
      case _ => w
  }

  /** The keys that a file's blocks give back. */
  function FileKeys(conf: string): set<string> {
    set i | 0 <= i < |Blocks(conf)| && KeyOfBlock(Blocks(conf)[i]).Some? :: KeyOfBlock(Blocks(conf)[i]).value
  }

  function MetaKeys(metas: seq<PeerMeta>): set<string> { set i | 0 <= i < |metas| :: metas[i].key }

  /** Keys in exactly one of the file and the metadata. */
  function Strays(w: Web, t: string): set<string>
    requires t in w.meta && t in w.store.files
  {
    var f, m := FileKeys(w.store.files[t]), MetaKeys(w.meta[t].peers);
    (f - m) + (m - f)
  }

  /** A tunnel of ours, whatever was cut off before. */
  ghost predicate Ours(w: Web, t: string, header: string, peers: seq<Peer>) {
    && ValidMeta(w.meta) && t in w.meta && t in w.store.files
    && SoundMeta(w.meta[t])
    && Represents(w.store.files[t], header, peers) && BareKeys(peers)
  }

  lemma FileKeysArePeerKeys(conf: string, header: string, peers: seq<Peer>)
    requires Represents(conf, header, peers) && BareKeys(peers)
    ensures FileKeys(conf) == PeerKeys(peers)
  {
    PartsOfRepresented(conf, header, peers);
    forall i | 0 <= i < |peers| ensures KeyOfBlock(Blocks(conf)[i]) == Some(peers[i].key) {
      BareIsSame(peers[i].key);
      BlockGivesKey(peers[i]);
    }
  }

  lemma MetaKeysWithoutId(tunnel: TunnelMeta, peer: PeerMeta)
    requires SoundMeta(tunnel) && peer in tunnel.peers
    ensures MetaKeys(WithoutId(tunnel.peers, peer.id)) == MetaKeys(tunnel.peers) - {peer.key}
  {
    var metas, rest := tunnel.peers, WithoutId(tunnel.peers, peer.id);
    WithoutIdMembers(metas, peer.id);
    IdMeansKey(tunnel, peer);
    forall k | k in MetaKeys(rest) ensures k in MetaKeys(metas) - {peer.key} {
      var j :| 0 <= j < |rest| && rest[j].key == k;
      assert rest[j] in metas;
      var i :| 0 <= i < |metas| && metas[i] == rest[j];
    }
    forall k | k in MetaKeys(metas) && k != peer.key ensures k in MetaKeys(rest) {
      var i :| 0 <= i < |metas| && metas[i].key == k;
      assert metas[i] in rest;
    }
  }

  /** The key a request is about, when it gets as far as calling the daemon. */
  function KeyOfRequest(r: Request, w: Web): string {
    match r
    case NewPeer(_, _, key, _, _) => key
    case EndPeer(name, id) =>
      if name in w.meta && FindId(w.meta[name].peers, id).Some? then FindId(w.meta[name].peers, id).value.key else ""
    case _ => ""
  }

  /** A whole request changed nothing, or added or removed its key on both sides. */
  predicate Complete(r: Request, w: Web, v: Web, t: string)
    requires t in w.meta && t in w.store.files && t in v.meta && t in v.store.files
  {
    var f, m := FileKeys(w.store.files[t]), MetaKeys(w.meta[t].peers);
    var g, n := FileKeys(v.store.files[t]), MetaKeys(v.meta[t].peers);
    var k := KeyOfRequest(r, w);
    || (g == f && n == m)
    || (k !in f && k !in m && g == f + {k} && n == m + {k})
    || (g == f - {k} && n == m - {k})
  }

  /** Generated keys are in no file entry either. */
  predicate Fresh(r: Request, w: Web) {
    WellFormed(r, w) && (r.NewPeer? && r.name in w.store.files ==> r.key !in FileKeys(w.store.files[r.name]))
  }

  lemma FreshInFile(peers: seq<Peer>, key: string)
    requires BareKeys(peers) && MatchesBody(key) && key !in PeerKeys(peers)
    ensures !HasKey(peers, key)
  {
    BareOfBody(key);
    forall i | 0 <= i < |peers| ensures !SameKey(peers[i].key, key) {
      BareIsSame(peers[i].key);
    }
  }

  lemma MetaKeysSnoc(metas: seq<PeerMeta>, m: PeerMeta)
    ensures MetaKeys(metas + [m]) == MetaKeys(metas) + {m.key}
  {
    var more := metas + [m];
    forall k | k in MetaKeys(metas) + {m.key} ensures k in MetaKeys(more) {
      if k in MetaKeys(metas) {
        var i :| 0 <= i < |metas| && metas[i].key == k;
        assert more[i].key == k;
      } else {
        assert more[|metas|].key == k;
      }
    }
  }

  // The file after some steps of a command.

  lemma AddPartly(c: Command, s: Store, steps: nat, header: string, peers: seq<Peer>) returns (after: seq<Peer>)
    requires c.AddPeer? && MatchesBody(c.key) && c.name in s.files && Represents(s.files[c.name], header, peers)
    requires BareKeys(peers) && !HasKey(peers, c.key) && CleanScopes(c)
    ensures var f := Partly(c, s, steps).files; c.name in f && Represents(f[c.name], header, after)
    ensures after == peers || (BareKeys(after) && ValidPeer(PeerOf(c)) && after == peers + [PeerOf(c)])
  {
    after := peers;
    BareOfBody(c.key);
    if Check(c).None? {
      AddPeerAlone(c, s, header, peers);
      AddRefines(s.files[c.name], header, peers, PeerOf(c));
      if steps > 0 {
        after := peers + [PeerOf(c)];
      }
    }
  }

  lemma RemovePartly(c: Command, s: Store, steps: nat, header: string, peers: seq<Peer>) returns (after: seq<Peer>)
    requires c.RemovePeer? && MatchesBody(c.key) && c.name in s.files && Represents(s.files[c.name], header, peers)
    requires BareKeys(peers)
    ensures var f := Partly(c, s, steps).files; c.name in f && Represents(f[c.name], header, after)
    ensures BareKeys(after) && (after == peers || after == Without(peers, c.key))
  {
    after := peers;
    BareOfBody(c.key);
    if Check(c).None? && steps > 0 {
      assert Partly(c, s, steps).files == s.files[c.name := RemovePeerText(s.files[c.name], c.key)];
      RemoveRefines(s.files[c.name], header, peers, c.key);
      WithoutKeepsBare(peers, c.key);
      after := Without(peers, c.key);
    }
  }

  lemma PartlyElsewhere(c: Command, s: Store, steps: nat)
    ensures Elsewhere(s, Partly(c, s, steps), c.name)
  {
    var (t, next) := FirstPiece(c, s);
    FirstPieceElsewhere(c, s);
    if next.Await? {
      LandElsewhere(next.effect, t, true);
    }
  }

  // Whole requests on a tunnel with strays.

  lemma NewPeerWhole(r: Request, w: Web, t: string, header: string, peers: seq<Peer>, address: nat) returns (after: seq<Peer>)
    requires r.NewPeer? && r.name == t && Ours(w, t, header, peers) && Fresh(r, w) && ValidName(t) && t in w.store.live
    requires Allocator.NextAddress(w.meta[t].server, Addresses(w.meta[t].peers)) == Some(address)
    ensures Ours(Handle(r, w).0, t, header, after) && Complete(r, w, Handle(r, w).0, t)
  {
    var c := PeerCommand(r, address);
    after := peers;
    FileKeysArePeerKeys(w.store.files[t], header, peers);
    if Check(c).Some? {
      CheckFailsAlone(c, w.store);
    } else {
      FreshInFile(peers, r.key);
      AddressIsNew(w.meta[t].server, w.meta[t].peers);
      NewPeerIsClean(r, address);
      AddPeerAlone(c, w.store, header, peers);
      AddRefines(w.store.files[t], header, peers, PeerOf(c));
      SoundWithNew(w.meta[t], r.id, r.key, address);
      BareOfBody(r.key);
      after := peers + [PeerOf(c)];
      FileKeysArePeerKeys(Handle(r, w).0.store.files[t], header, after);
      PeerKeysSnoc(peers, PeerOf(c));
      MetaKeysSnoc(w.meta[t].peers, PeerMeta(r.id, address, r.key));
      FreshInMeta(w.meta[t].peers, r.key);
    }
  }

  lemma FreshInMeta(metas: seq<PeerMeta>, key: string)
    requires forall i :: 0 <= i < |metas| ==> metas[i].key != key
    ensures key !in MetaKeys(metas)
  {
  }

  lemma EndPeerWhole(r: Request, w: Web, t: string, header: string, peers: seq<Peer>, peer: PeerMeta) returns (after: seq<Peer>)
    requires r.EndPeer? && r.name == t && Ours(w, t, header, peers)
    requires FindId(w.meta[t].peers, r.id) == Some(peer)
    ensures Ours(Handle(r, w).0, t, header, after) && Complete(r, w, Handle(r, w).0, t)
  {
    var c := RemovePeer(t, peer.key);
    after := peers;
    FindIdMember(w.meta[t].peers, r.id);
    IdMeansKey(w.meta[t], peer);
    FileKeysArePeerKeys(w.store.files[t], header, peers);
    if Check(c).Some? {
      CheckFailsAlone(c, w.store);
    } else {
      BareOfBody(peer.key);
      RemovePeerAlone(c, w.store);
      RemoveRefines(w.store.files[t], header, peers, peer.key);
      WithoutKeepsBare(peers, peer.key);
      WithoutIdSound(w.meta[t], r.id);
      after := Without(peers, peer.key);
      FileKeysArePeerKeys(Handle(r, w).0.store.files[t], header, after);
      PeerKeysWithout(peers, peer.key);
      MetaKeysWithoutId(w.meta[t], peer);
    }
  }

  predicate PeerRequest(r: Request) { r.NewPeer? || r.EndPeer? }

  lemma OtherTunnelStays(w: Web, v: Web, name: string, t: string, header: string, peers: seq<Peer>)
    requires Ours(w, t, header, peers) && name != t && ValidMeta(v.meta)
    requires Elsewhere(w.store, v.store, name) && v.meta - {name} == w.meta - {name}
    ensures Ours(v, t, header, peers) && v.meta[t] == w.meta[t] && v.store.files[t] == w.store.files[t]
  {
    SameElsewhere(w.store.files, v.store.files, name, t);
    SameElsewhere(w.meta, v.meta, name, t);
  }

  lemma CompleteRequest(r: Request, w: Web, t: string, header: string, peers: seq<Peer>) returns (after: seq<Peer>)
    requires PeerRequest(r) && Ours(w, t, header, peers) && Fresh(r, w)
    ensures Ours(Handle(r, w).0, t, header, after) && Complete(r, w, Handle(r, w).0, t)
  {
    after := peers;
    if r.name != t {
      HandleStaysLocal(r, w);
      HandleKeepsValidMeta(r, w);
      OtherTunnelStays(w, Handle(r, w).0, r.name, t, header, peers);
    } else if r.NewPeer? {
      var next := Allocator.NextAddress(w.meta[t].server, Addresses(w.meta[t].peers));
      if ValidName(t) && t in w.store.live && next.Some? {
        after := NewPeerWhole(r, w, t, header, peers, next.value);
      }
    } else {
      var found := FindId(w.meta[t].peers, r.id);
      if found.Some? {
        after := EndPeerWhole(r, w, t, header, peers, found.value);
      }
    }
  }

  lemma CutRequest(r: Request, w: Web, steps: nat, t: string, header: string, peers: seq<Peer>) returns (after: seq<Peer>)
    requires PeerRequest(r) && Ours(w, t, header, peers) && Fresh(r, w) && steps < 3
    ensures Ours(HandleCut(r, w, steps), t, header, after)
    ensures HandleCut(r, w, steps).meta == w.meta
    ensures var f, g := FileKeys(w.store.files[t]), FileKeys(HandleCut(r, w, steps).store.files[t]);
            g == f || g == f + {KeyOfRequest(r, w)} || g == f - {KeyOfRequest(r, w)}
  {
    after := peers;
    FileKeysArePeerKeys(w.store.files[t], header, peers);
    var v := HandleCut(r, w, steps);
    if r.NewPeer? {
      if r.name in w.meta && ValidName(r.name) && r.name in w.store.files && r.name in w.store.live {
        var next := Allocator.NextAddress(w.meta[r.name].server, Addresses(w.meta[r.name].peers));
        if next.Some? {
          var c := PeerCommand(r, next.value);
          PartlyElsewhere(c, w.store, steps);
          if r.name == t {
            FreshInFile(peers, r.key);
            AddressIsNew(w.meta[t].server, w.meta[t].peers);
            NewPeerIsClean(r, next.value);
            after := AddPartly(c, w.store, steps, header, peers);
            PeerKeysSnoc(peers, PeerOf(c));
          } else {
            OtherTunnelStays(w, v, r.name, t, header, peers);
          }
          FileKeysArePeerKeys(v.store.files[t], header, after);
        }
      }
    } else if r.name in w.meta && FindId(w.meta[r.name].peers, r.id).Some? {
      var peer := FindId(w.meta[r.name].peers, r.id).value;
      var c := RemovePeer(r.name, peer.key);
      PartlyElsewhere(c, w.store, steps);
      if r.name == t {
        FindIdMember(w.meta[t].peers, r.id);
        IdMeansKey(w.meta[t], peer);
        BareOfBody(peer.key);
        after := RemovePartly(c, w.store, steps, header, peers);
        PeerKeysWithout(peers, peer.key);
      } else {
        OtherTunnelStays(w, v, r.name, t, header, peers);
      }
      FileKeysArePeerKeys(v.store.files[t], header, after);
    }
  }

  // Counting.

  lemma OneMoreStray(f: set<string>, g: set<string>, m: set<string>, k: string)
    requires g == f || g == f + {k} || g == f - {k}
    ensures |(g - m) + (m - g)| <= |(f - m) + (m - f)| + 1
  {
    Allocator.SubsetCard((g - m) + (m - g), (f - m) + (m - f) + {k});
  }

  lemma NoMoreStrays(f: set<string>, g: set<string>, m: set<string>, n: set<string>, k: string)
    requires (g == f && n == m) || (k !in f && k !in m && g == f + {k} && n == m + {k}) || (g == f - {k} && n == m - {k})
    ensures |(g - n) + (n - g)| <= |(f - m) + (m - f)|
  {
    Allocator.SubsetCard((g - n) + (n - g), (f - m) + (m - f));
  }

  /** A request and how many of its steps happened; three or more is all of them. */
  datatype CutStep = CutStep(request: Request, steps: nat)

  function CutRun(run: seq<CutStep>, w: Web): Web
    requires ValidMeta(w.meta) && CutRunFresh(run, w)
    ensures ValidMeta(CutRun(run, w).meta)
    decreases |run|, 1
  {
    if run == [] then w
    else
      var last := run[|run| - 1];
      var before := CutRun(run[..|run| - 1], w);
      HandleKeepsValidMeta(last.request, before);
      HandleCut(last.request, before, last.steps)
  }

  predicate CutRunFresh(run: seq<CutStep>, w: Web)
    requires ValidMeta(w.meta)
    decreases |run|, 0
  {
    run != [] ==>
      && CutRunFresh(run[..|run| - 1], w)
      && PeerRequest(run[|run| - 1].request)
      && Fresh(run[|run| - 1].request, CutRun(run[..|run| - 1], w))
  }

  function CutCount(run: seq<CutStep>): nat {
    if run == [] then 0
    else CutCount(run[..|run| - 1]) + (if run[|run| - 1].steps < 3 then 1 else 0)
  }

  /** Over every run of peer requests, the keys in exactly one of a tunnel's file and its
      metadata are never more than the requests that were cut off. */
  lemma {:induction false} StraysBounded(run: seq<CutStep>, w: Web, t: string, header: string, peers: seq<Peer>) returns (after: seq<Peer>)
    requires ValidMeta(w.meta) && CutRunFresh(run, w)
    requires Ours(w, t, header, peers) && Strays(w, t) == {}
    ensures Ours(CutRun(run, w), t, header, after)
    ensures |Strays(CutRun(run, w), t)| <= CutCount(run)
    decreases |run|
  {
    if run == [] {
      after := peers;
    } else {
      var n := |run| - 1;
      var before := CutRun(run[..n], w);
      after := StraysBounded(run[..n], w, t, header, peers);
      after := StrayStep(run[n], before, t, header, after);
    }
  }

  lemma StrayStep(step: CutStep, w: Web, t: string, header: string, peers: seq<Peer>) returns (after: seq<Peer>)
    requires Ours(w, t, header, peers) && PeerRequest(step.request) && Fresh(step.request, w)
    ensures Ours(HandleCut(step.request, w, step.steps), t, header, after)
    ensures |Strays(HandleCut(step.request, w, step.steps), t)| <= |Strays(w, t)| + (if step.steps < 3 then 1 else 0)
  {
    var v := HandleCut(step.request, w, step.steps);
    var f, m := FileKeys(w.store.files[t]), MetaKeys(w.meta[t].peers);
    if step.steps < 3 {
      after := CutRequest(step.request, w, step.steps, t, header, peers);
      OneMoreStray(f, FileKeys(v.store.files[t]), m, KeyOfRequest(step.request, w));
    } else {
      after := CompleteRequest(step.request, w, t, header, peers);
      NoMoreStrays(f, FileKeys(v.store.files[t]), m, MetaKeys(v.meta[t].peers), KeyOfRequest(step.request, w));
    }
  }

  /** Issuing a cut-off deletion again reaches the very state of one that was not cut off. */
  lemma ReissuedDeletion(r: Request, w: Web, steps: nat)
    requires r.EndPeer? && ValidMeta(w.meta) && steps < 3
    requires r.name in w.meta ==> forall i :: 0 <= i < |w.meta[r.name].peers| ==> MatchesBody(w.meta[r.name].peers[i].key)
    ensures Handle(r, HandleCut(r, w, steps)).0 == Handle(r, w).0
  {
    if r.name in w.meta && FindId(w.meta[r.name].peers, r.id).Some? {
      var peer := FindId(w.meta[r.name].peers, r.id).value;
      FindIdMember(w.meta[r.name].peers, r.id);
      var i :| 0 <= i < |w.meta[r.name].peers| && w.meta[r.name].peers[i] == peer;
      BareOfBody(peer.key);
      RemoveAgain(RemovePeer(r.name, peer.key), w.store, steps);
    }
  }

  lemma RemoveAgain(c: Command, s: Store, steps: nat)
    requires c.RemovePeer? && MatchesBody(c.key)
    ensures RunAlone(c, Partly(c, s, steps), true) == RunAlone(c, s, true)
  {
    BareOfBody(c.key);
    if Check(c).None? && c.name in s.files {
      RemoveTwice(s.files[c.name], c.key);
      RemovePeerAlone(c, s);
      var p := Partly(c, s, steps);
      var text := RemovePeerText(s.files[c.name], c.key);
      RemovePeerAlone(c, p);
      assert s.files[c.name := text][c.name := text] == s.files[c.name := text];
      assert RunAlone(c, p, true).0.files == s.files[c.name := text];
      if c.name in s.live {
        var live := DropLive(s.live[c.name], c.key);
        DropTwice(s.live[c.name], c.key);
        assert s.live[c.name := live][c.name := live] == s.live[c.name := live];
        assert RunAlone(c, p, true).0.live == s.live[c.name := live];
      }
    }
  }

  lemma DropTwice(live: Live, key: string)
    ensures DropLive(DropLive(live, key), key) == DropLive(live, key)
  {
  }

  // ---------------------------------------------------------------- how many peers fit

  /** A tunnel that is up turns a new peer away exactly if it is full. */
  lemma RefusedIffFull(r: Request, w: Web)
    requires r.NewPeer? && ValidMeta(w.meta) && r.name in w.meta && SoundMeta(w.meta[r.name])
    requires ValidName(r.name) && r.name in w.store.files && r.name in w.store.live
    ensures var tunnel := w.meta[r.name];
      && |tunnel.peers| <= Allocator.Capacity(tunnel.server)
      && (Handle(r, w).1 == Refused <==> |tunnel.peers| == Allocator.Capacity(tunnel.server))
  {
    SoundIsGood(w.meta[r.name]);
    Allocator.FailsExactlyWhenFull(w.meta[r.name].server, Addresses(w.meta[r.name].peers));
  }

  /** So in every run of the application. */
  lemma RunsFillExactly(requests: seq<Request>, w: Web, r: Request)
    requires ValidMeta(w.meta) && AllWellFormed(requests, w) && Agrees(w)
    requires var v := HandleAll(requests, w); r.NewPeer? && ValidName(r.name) && r.name in v.meta && r.name in v.store.live
    ensures var v := HandleAll(requests, w);
            Handle(r, v).1 == Refused <==> |v.meta[r.name].peers| == Allocator.Capacity(v.meta[r.name].server)
  {
    var v := HandleAll(requests, w);
    EveryRunAgrees(requests, w);
    assert NameAgrees(v, r.name);
    RefusedIffFull(r, v);
  }

  /** And in every run of peer requests that were cut off anywhere. */
  lemma CutRunsFillExactly(run: seq<CutStep>, w: Web, header: string, peers: seq<Peer>, r: Request)
    requires ValidMeta(w.meta) && CutRunFresh(run, w) && r.NewPeer?
    requires Ours(w, r.name, header, peers) && Strays(w, r.name) == {}
    requires ValidName(r.name) && r.name in CutRun(run, w).store.live
    ensures var v := CutRun(run, w);
            r.name in v.meta && (Handle(r, v).1 == Refused <==> |v.meta[r.name].peers| == Allocator.Capacity(v.meta[r.name].server))
  {
    var _ := StraysBounded(run, w, r.name, header, peers);
    RefusedIffFull(r, CutRun(run, w));
  }

  lemma {:induction false} WithoutIdAt(peers: seq<PeerMeta>, i: nat)
    requires i < |peers| && forall j, k :: 0 <= j < k < |peers| ==> peers[j].id != peers[k].id
    ensures WithoutId(peers, peers[i].id) == peers[..i] + peers[i + 1..]
  {
    var rest := peers[1..];
    assert forall j :: 0 <= j < |rest| ==> rest[j] == peers[j + 1];
    if i == 0 {
      WithoutAbsentId(rest, peers[0].id);
    } else {
      WithoutIdAt(rest, i - 1);
      assert peers[..i] == [peers[0]] + rest[..i - 1];
    }
  }

  lemma {:induction false} WithoutAbsentId(peers: seq<PeerMeta>, id: string)
    requires forall p :: p in peers ==> p.id != id
    ensures WithoutId(peers, id) == peers
  {
    if peers != [] {
      assert peers[0] in peers && forall p :: p in peers[1..] ==> p in peers;
      WithoutAbsentId(peers[1..], id);
    }
  }

  lemma FreedAddress(tunnel: TunnelMeta, i: nat)
    requires SoundMeta(tunnel) && i < |tunnel.peers| == Allocator.Capacity(tunnel.server)
    ensures Allocator.NextAddress(tunnel.server, Addresses(WithoutId(tunnel.peers, tunnel.peers[i].id))) == Some(tunnel.peers[i].address)
  {
    var peers := tunnel.peers;
    assert forall j, k :: 0 <= j < k < |peers| ==> Differ(peers[j], peers[k]);
    WithoutIdAt(peers, i);
    AddressesWithout(peers, i);
    SoundIsGood(tunnel);
    Allocator.DeletionMakesRoom(tunnel.server, Addresses(peers), i);
  }

  lemma AddressesWithout(peers: seq<PeerMeta>, i: nat)
    requires i < |peers|
    ensures Addresses(peers[..i] + peers[i + 1..]) == Addresses(peers)[..i] + Addresses(peers)[i + 1..]
  {
  }

  /** After a deletion from a full tunnel, the next address to be given is the freed one. */
  lemma FreedAddressIsNext(d: Request, w: Web, i: nat)
    requires d.EndPeer? && ValidMeta(w.meta) && d.name in w.meta && SoundMeta(w.meta[d.name])
    requires i < |w.meta[d.name].peers| == Allocator.Capacity(w.meta[d.name].server) && w.meta[d.name].peers[i].id == d.id
    requires Handle(d, w).1 == Done
    ensures d.name in Handle(d, w).0.meta && Handle(d, w).0.meta[d.name].server == w.meta[d.name].server
    ensures var after := Handle(d, w).0.meta[d.name].peers;
            Allocator.NextAddress(w.meta[d.name].server, Addresses(after)) == Some(w.meta[d.name].peers[i].address)
  {
    FreedAddress(w.meta[d.name], i);
  }
}
