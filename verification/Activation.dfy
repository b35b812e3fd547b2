/** What the overlap check before an activation is worth: the tunnels it lets through are those
    that the guard leaves alone. */
module Activation {
  import opened Text
  import opened WgKey
  import opened ConfText
  import opened ConfInfo
  import opened Ipv4
  import opened IpText
  import opened Entries
  import opened ClientTests
  import opened Helper
  import opened LanGuard
  import HelperTasks
  import Scopes
  import Allocator
  import PeerStore

  // ---------------------------------------------------------------- new tunnels

  /** The system has an interface address whose subnet overlaps the network. */
  ghost predicate Crowded(net: Net, system: seq<SystemIface>)
    requires ValidNet(net) && ValidSystem(system)
  {
    exists i, j :: 0 <= i < |system| && 0 <= j < |system[i].addresses| && system[i].addresses[j].Some?
      && Overlaps(net, NetworkOf(system[i].addresses[j].value))
  }

  lemma ConflictMeansCrowded(net: Net, system: seq<SystemIface>, c: Conflict)
    requires ValidNet(net) && ValidSystem(system) && Justified(c, [V4(net)], system)
    ensures Crowded(net, system)
  {
    var i, j, k :| 0 <= i < |system| && 0 <= j < |system[i].addresses| && 0 <= k < |[V4(net)]|
      && system[i].addresses[j].Some?
      && c == Conflict([V4(net)][k], system[i].name, NetworkOf(system[i].addresses[j].value))
      && Clashes([V4(net)][k], NetworkOf(system[i].addresses[j].value));
    assert Overlaps(net, NetworkOf(system[i].addresses[j].value));
  }

  lemma CrowdedMeansConflict(net: Net, system: seq<SystemIface>) returns (c: Conflict)
    requires ValidNet(net) && ValidSystem(system) && Crowded(net, system)
    ensures Justified(c, [V4(net)], system)
  {
    var i, j :| 0 <= i < |system| && 0 <= j < |system[i].addresses| && system[i].addresses[j].Some?
      && Overlaps(net, NetworkOf(system[i].addresses[j].value));
    c := Conflict([V4(net)][0], system[i].name, NetworkOf(system[i].addresses[j].value));
  }

  lemma ConflictIffCrowded(net: Net, system: seq<SystemIface>)
    requires ValidNet(net) && ValidSystem(system)
    ensures Conflicts([V4(net)], system) != [] <==> Crowded(net, system)
  {
    var conflicts := Conflicts([V4(net)], system);
    if conflicts != [] {
      GateIsExact([V4(net)], system, conflicts[0]);
      ConflictMeansCrowded(net, system, conflicts[0]);
    }
    if Crowded(net, system) {
      var c := CrowdedMeansConflict(net, system);
      GateIsExact([V4(net)], system, c);
    }
  }

  /** A tunnel is refused exactly if it would overlap a local subnet and the request does not
      force it. */
  lemma TunnelRefusedIff(r: PeerStore.Request, w: PeerStore.Web)
    requires r.NewTunnel? && PeerStore.ValidMeta(w.meta)
    ensures PeerStore.Handle(r, w).1 == PeerStore.Refused <==> !r.force && Crowded(NetworkOf(r.server), r.system)
  {
    ConflictIffCrowded(NetworkOf(r.server), r.system);
  }

  // ---------------------------------------------------------------- activations

  /** What comes live with a file are networks of its ranges. */
  lemma {:induction false} LiveComesFromRanges(blocks: seq<string>, k: string)
    requires k in LiveOfBlocks(blocks)
    ensures LiveOfBlocks(blocks)[k] <= RangeSet(RangesOfBlocks(blocks))
  {
    var n := |blocks| - 1;
    var front := blocks[..n];
    var last := RangesOfBlock(blocks[n]);
    if k in LiveOfBlocks(front) {
      LiveComesFromRanges(front, k);
    }
    RangeSetAppend(RangesOfBlocks(front), last);
  }

  lemma RangeSetAppend(a: seq<string>, b: seq<string>)
    ensures RangeSet(a) <= RangeSet(a + b) && RangeSet(b) <= RangeSet(a + b)
  {
    assert forall r :: r in a ==> r in a + b;
    assert forall r :: r in b ==> r in a + b;
  }

  /** No range that comes live with a client's file clashes with a subnet, once the check has
      found no conflict. */
  lemma CheckedRangesAreClear(conf: string, system: seq<SystemIface>, local: seq<Net>, k: string, r: Range)
    requires ValidSystem(system) && ValidNets(local) && forall l :: l in local ==> GateSees(system, l)
    requires InfoOf(conf).client && Conflicts(NetworksOf(InfoOf(conf).ranges), system) == []
    requires k in LiveOf(conf) && r in LiveOf(conf)[k]
    ensures ValidRange(r) && !AnyClash(r, local)
  {
    var ranges := NetworksOf(InfoOf(conf).ranges);
    LiveComesFromRanges(Blocks(conf), k);
    var texts := InfoOf(conf).ranges;
    var t :| 0 <= t < |texts| && ParseRange(texts[t]) == Some(r);
    assert ParseAll(texts)[t] == Some(r);
    ParsedMembers(ParseAll(texts), r);
    var i :| 0 <= i < |ranges| && ranges[i] == r;
    PassedGateNothingToDrop(ranges, local, system);
    SelectMembers(ranges, local, false);
  }

  /** The peers that the kernel lists for a tunnel that has just come up, unforced. */
  predicate JustActivated(r: PeerStore.Request, w: PeerStore.Web, listed: seq<LivePeer>) {
    && r.SetState? && r.action.Activate? && !r.force && PeerStore.ValidMeta(w.meta)
    && PeerStore.Handle(r, w).1 == PeerStore.Done && r.name in w.store.files && r.name !in w.store.live
    && r.name in PeerStore.Handle(r, w).0.store.live && Lists(listed, PeerStore.Handle(r, w).0.store.live[r.name])
  }

  lemma ActivatedComesFromFile(r: PeerStore.Request, w: PeerStore.Web, listed: seq<LivePeer>)
    requires JustActivated(r, w, listed)
    ensures PeerStore.Handle(r, w).0.store.live[r.name] == LiveOf(w.store.files[r.name])
    ensures InfoOf(w.store.files[r.name]).client ==> Conflicts(NetworksOf(InfoOf(w.store.files[r.name]).ranges), r.system) == []
  {
  }

  /** Of a client tunnel that passed the check, unforced, the guard trims nothing: each listed
      range stays, if the check saw the subnets that the guard looks at. */
  lemma CheckedActivationIsKept(r: PeerStore.Request, w: PeerStore.Web, listed: seq<LivePeer>, local: seq<Net>)
    requires JustActivated(r, w, listed) && InfoOf(w.store.files[r.name]).client
    requires ValidNets(local) && forall l :: l in local ==> GateSees(r.system, l)
    ensures ValidPeers(listed) && TrimPeers(listed, local) == listed
    ensures forall net :: !DropsRoute(listed, local, net)
  {
    var conf := w.store.files[r.name];
    ActivatedComesFromFile(r, w, listed);
    forall i | 0 <= i < |listed|
      ensures ValidRanges(listed[i].ranges) && Kept(listed[i].ranges, local) == listed[i].ranges && Dropped(listed[i].ranges, local) == []
    {
      var ranges := listed[i].ranges;
      forall x | x in ranges ensures ValidRange(x) && !AnyClash(x, local) {
        assert x in RangesIn(ranges);
        CheckedRangesAreClear(conf, r.system, local, listed[i].key, x);
      }
      KeepOfKept(ranges, local);
    }
  }

  /** Every directly connected destination outside the tunnels is a network. */
  predicate RowsParse(tunnels: seq<string>, rows: seq<LinkRoute>) {
    forall i :: 0 <= i < |rows| && rows[i].dev !in tunnels ==> rows[i].net.Some?
  }

  /** A listed range overlaps one of them. */
  ghost predicate ListedClash(listed: seq<LivePeer>, tunnels: seq<string>, rows: seq<LinkRoute>)
    requires ValidPeers(listed) && ValidRows(rows)
  {
    exists i, x, j :: 0 <= i < |listed| && x in listed[i].ranges && 0 <= j < |rows| && rows[j].dev !in tunnels
      && rows[j].net.Some? && ValidRange(x) && Clashes(x, rows[j].net.value)
  }

  lemma ClashIsAnyClash(listed: seq<LivePeer>, tunnels: seq<string>, rows: seq<LinkRoute>)
    requires ValidPeers(listed) && ValidRows(rows) && LocalNets(tunnels, rows).Some?
    ensures ValidNets(LocalNets(tunnels, rows).value)
    ensures ListedClash(listed, tunnels, rows) <==>
              exists i, x :: 0 <= i < |listed| && x in listed[i].ranges && ValidRange(x) && AnyClash(x, LocalNets(tunnels, rows).value)
  {
    LocalNetsMembers(tunnels, rows);
    var local := LocalNets(tunnels, rows).value;
    if ListedClash(listed, tunnels, rows) {
      var i, x, j :| 0 <= i < |listed| && x in listed[i].ranges && 0 <= j < |rows| && rows[j].dev !in tunnels
        && rows[j].net.Some? && ValidRange(x) && Clashes(x, rows[j].net.value);
      assert rows[j].net.value in local;
      assert AnyClash(x, local);
    }
    if i, x :| 0 <= i < |listed| && x in listed[i].ranges && ValidRange(x) && AnyClash(x, local) {
      var k :| 0 <= k < |local| && Clashes(x, local[k]);
      assert local[k] in local;
    }
  }

  /** Trimming leaves a listing alone exactly if none of its ranges clashes. */
  lemma TrimsIff(listed: seq<LivePeer>, local: seq<Net>)
    requires ValidPeers(listed) && ValidNets(local)
    ensures TrimPeers(listed, local) != listed <==>
              exists i, x :: 0 <= i < |listed| && x in listed[i].ranges && ValidRange(x) && AnyClash(x, local)
  {
    forall i | 0 <= i < |listed|
      ensures Kept(listed[i].ranges, local) == listed[i].ranges <==> forall x :: x in listed[i].ranges ==> ValidRange(x) && !AnyClash(x, local)
    {
      var ranges := listed[i].ranges;
      SelectMembers(ranges, local, false);
      assert forall x :: x in ranges ==> ValidRange(x);
      if forall x :: x in ranges ==> !AnyClash(x, local) {
        KeepOfKept(ranges, local);
      }
    }
    if TrimPeers(listed, local) != listed {
      var i :| 0 <= i < |listed| && TrimPeers(listed, local)[i] != listed[i];
      assert Kept(listed[i].ranges, local) != listed[i].ranges;
    }
    if i, x :| 0 <= i < |listed| && x in listed[i].ranges && ValidRange(x) && AnyClash(x, local) {
      assert TrimPeers(listed, local)[i] == TrimPeer(listed[i], local);
    }
  }

  /** A guard run changes the live peers of a tunnel exactly if it takes it for a client, all its
      rows parse, and a listed range clashes. */
  lemma GuardChangesIff(live: map<string, seq<LivePeer>>, conf: map<string, string>, tunnels: seq<string>, rows: seq<LinkRoute>, name: string)
    requires name in live && ValidLive(live) && ValidRows(rows)
    ensures LiveAfter(live, conf, tunnels, rows)[name] != live[name] <==>
              IsClient(conf, name) && RowsParse(tunnels, rows) && ListedClash(live[name], tunnels, rows)
  {
    LocalNetsMembers(tunnels, rows);
    var local := LocalNets(tunnels, rows);
    if local.Some? {
      ClashIsAnyClash(live[name], tunnels, rows);
      TrimsIff(live[name], local.value);
    }
  }

  /** The next guard run changes an unforced activation exactly if only the guard takes the file for
      a client, every row parses and a listed range clashes; ClientTestsAgree says which files the
      two tests disagree on. */
  lemma ActivationSurvivesTheGuard(r: PeerStore.Request, w: PeerStore.Web, live: map<string, seq<LivePeer>>, routes: set<Route>,
                                   conf: map<string, string>, tunnels: seq<string>, rows: seq<LinkRoute>)
    requires r.name in live && JustActivated(r, w, live[r.name]) && ValidLive(live) && ValidRows(rows)
    requires r.name in conf && conf[r.name] == w.store.files[r.name]
    requires forall i :: 0 <= i < |rows| && rows[i].dev !in tunnels && rows[i].net.Some? ==> GateSees(r.system, rows[i].net.value)
    ensures LiveAfter(live, conf, tunnels, rows)[r.name] != live[r.name] <==>
              && GuardSaysClient(conf[r.name]) && !InfoOf(conf[r.name]).client
              && RowsParse(tunnels, rows) && ListedClash(live[r.name], tunnels, rows)
    ensures LiveAfter(live, conf, tunnels, rows)[r.name] == live[r.name] ==>
              forall q: Route :: q in routes && q.dev == r.name ==> q in RoutesAfter(routes, live, conf, tunnels, rows)
  {
    GuardChangesIff(live, conf, tunnels, rows, r.name);
    if InfoOf(conf[r.name]).client {
      CheckedStaysLive(r, w, live, conf, tunnels, rows);
    }
    if LiveAfter(live, conf, tunnels, rows)[r.name] == live[r.name] {
      UnchangedKeepsRoutes(live, routes, conf, tunnels, rows, r.name);
    }
  }

  lemma CheckedStaysLive(r: PeerStore.Request, w: PeerStore.Web, live: map<string, seq<LivePeer>>,
                         conf: map<string, string>, tunnels: seq<string>, rows: seq<LinkRoute>)
    requires r.name in live && JustActivated(r, w, live[r.name]) && ValidLive(live) && ValidRows(rows)
    requires InfoOf(w.store.files[r.name]).client
    requires forall i :: 0 <= i < |rows| && rows[i].dev !in tunnels && rows[i].net.Some? ==> GateSees(r.system, rows[i].net.value)
    ensures LiveAfter(live, conf, tunnels, rows)[r.name] == live[r.name]
  {
    LocalNetsMembers(tunnels, rows);
    var local := LocalNets(tunnels, rows);
    if local.Some? {
      CheckedActivationIsKept(r, w, live[r.name], local.value);
    }
  }

  lemma UnchangedKeepsRoutes(live: map<string, seq<LivePeer>>, routes: set<Route>, conf: map<string, string>,
                             tunnels: seq<string>, rows: seq<LinkRoute>, name: string)
    requires name in live && ValidLive(live) && ValidRows(rows) && LiveAfter(live, conf, tunnels, rows)[name] == live[name]
    ensures forall q: Route :: q in routes && q.dev == name ==> q in RoutesAfter(routes, live, conf, tunnels, rows)
  {
    LocalNetsMembers(tunnels, rows);
    var local := LocalNets(tunnels, rows);
    if local.Some? && IsClient(conf, name) {
      UntrimmedKeepsRoutes(live[name], local.value);
    }
  }

  lemma UntrimmedKeepsRoutes(listed: seq<LivePeer>, local: seq<Net>)
    requires ValidPeers(listed) && ValidNets(local) && TrimPeers(listed, local) == listed
    ensures forall net :: !DropsRoute(listed, local, net)
  {
    forall i | 0 <= i < |listed| ensures Dropped(listed[i].ranges, local) == [] {
      assert TrimPeers(listed, local)[i] == TrimPeer(listed[i], local);
      SelectMembers(listed[i].ranges, local, false);
      KeepOfKept(listed[i].ranges, local);
    }
  }

  // ---------------------------------------------------------------- an activation that does not survive

  /** A tunnel with one peer, whose Endpoint line has lost its value. */
  function ValuelessRest(a: nat): string { Setting("AllowedIPs", HostText(a)) + (VALUELESS + "\n") }

  function ValuelessBody(key: string, a: nat): string { Setting("PublicKey", key) + ValuelessRest(a) }

  function ValuelessConf(key: string, a: nat): string { INTERFACE_TAG + "\n" + (PEER_TAG + "\n" + ValuelessBody(key, a)) }

  lemma ValuelessLineHas(name: string)
    requires PeerSetting(name)
    ensures Matches(VALUELESS + "\n", name, true) == []
  {
    var line := VALUELESS;
    if name == "Endpoint" {
      ValuelessKinds();
      MatchesNewline(line, name, true);
    } else {
      assert line[0] == 'E' && line[1] == 'n' && '\n' !in line;
      OtherLine(line, "", name);
      NoMatchesInEmpty(name);
      assert line + "\n" + "" == line + "\n";
    }
  }

  lemma ValuelessSetting(key: string, a: nat, name: string)
    requires MatchesBody(key) && PeerSetting(name)
    ensures Matches(ValuelessBody(key, a), name, true) == KeyValues(key, None, [HostText(a)], name)
  {
    var ranges := [HostText(a)];
    HostTextIsRange(a);
    RangesAreListable(ranges);
    assert CommaJoin(ranges) == HostText(a);
    ValuelessLineHas(name);
    RangesLineHas(ranges, VALUELESS + "\n", name);
    KeySettingHas("PublicKey", key, ValuelessRest(a), name);
  }

  lemma ValuelessBlock(key: string, a: nat)
    requires MatchesBody(key)
    ensures var block := PEER_TAG + "\n" + ValuelessBody(key, a);
            KeyOfBlock(block) == Some(key) && RangesOfBlock(block) == [HostText(a)]
    ensures Matches(ValuelessBody(key, a), "Endpoint", true) == []
  {
    var text := HostText(a);
    BareOfAccepted(key);
    ValuelessSetting(key, a, "PublicKey");
    ValuelessSetting(key, a, "AllowedIPs");
    ValuelessSetting(key, a, "Endpoint");
    OtherLine(PEER_TAG, ValuelessBody(key, a), "PublicKey");
    OtherLine(PEER_TAG, ValuelessBody(key, a), "AllowedIPs");
    HostTextIsRange(a);
    RangesAreListable([text]);
    RangesOfOne(text);
    RangesRoundTrip([text]);
    assert CommaJoin([text]) == text;
  }

  lemma OneLivePeer(block: string, key: string, a: nat)
    requires KeyOfBlock(block) == Some(key) && RangesOfBlock(block) == [HostText(a)] && a < ADDRESSES
    ensures LiveOfBlocks([block]) == map[key := {V4(Net(a, 32))}]
  {
    PeerStore.HostRangeOnly(a);
    assert [block][..0] == [] && LiveOfBlocks([]) == map[];
    assert PutLive(map[], key, {V4(Net(a, 32))}) == map[key := {V4(Net(a, 32))}];
  }

  lemma ValuelessParts(key: string, a: nat)
    requires MatchesBody(key) && a < ADDRESSES
    ensures var conf := ValuelessConf(key, a);
            !InfoOf(conf).client && InfoOf(conf).address.None? && LiveOf(conf) == map[key := {V4(Net(a, 32))}]
  {
    var body := ValuelessBody(key, a);
    ValuelessHasNoBracket(key, a);
    ValuelessBlock(key, a);
    OnePeerParts(body);
    OnePeerClient(body);
    NoAddressInTag();
    OneLivePeer(PEER_TAG + "\n" + body, key, a);
    assert Blocks(ValuelessConf(key, a)) == [PEER_TAG + "\n" + body];
  }

  lemma NoAddressInTag()
    ensures Matches(INTERFACE_TAG, "Address", true) == []
  {
    NoMatchesInEmpty("Address");
    OtherLine(INTERFACE_TAG, "", "Address");
    assert INTERFACE_TAG + "\n" + "" == INTERFACE_TAG + "\n";
    MatchesNewline(INTERFACE_TAG, "Address", true);
  }

  lemma ValuelessHasNoBracket(key: string, a: nat)
    requires MatchesBody(key)
    ensures '[' !in ValuelessBody(key, a)
  {
    BareOfAccepted(key);
    KeyHasNoBracket(key);
    SettingHasNo("PublicKey", key, '[');
    HostTextIsRange(a);
    SettingHasNo("AllowedIPs", HostText(a), '[');
    assert '[' !in VALUELESS + "\n";
    assert '[' !in ValuelessRest(a);
  }

  lemma ValuelessGrep(key: string, a: nat)
    ensures GuardSaysClient(ValuelessConf(key, a))
  {
    ValuelessLineIsFound();
    GrepOfAnySetting("AllowedIPs", HostText(a), VALUELESS + "\n");
    GrepOfAnySetting("PublicKey", key, ValuelessRest(a));
    OnePeerGrep(ValuelessBody(key, a));
  }

  lemma ValuelessLineIsFound()
    ensures GrepEndpoint(VALUELESS + "\n", true)
  {
    ValuelessKinds();
    GrepOfLines(VALUELESS, "", true);
    assert VALUELESS + "\n" + "" == VALUELESS + "\n";
  }

  /** Both the peer that comes live with the file and its listing. */
  function OnePeer(key: string, a: nat): seq<LivePeer> { [LivePeer(key, [V4(Net(a, 32))])] }

  lemma OnePeerLists(key: string, a: nat)
    ensures Lists(OnePeer(key, a), map[key := {V4(Net(a, 32))}])
  {
    var ranges := [V4(Net(a, 32))];
    assert ranges[0] in ranges && RangesIn(ranges) == {V4(Net(a, 32))};
    assert OnePeer(key, a)[0].key == key && Listed(OnePeer(key, a), key);
  }

  /** With that file the check finds a server without an address and lets the activation through,
      whatever subnets there are; a guard run then takes the peer's range away. */
  lemma ValuelessIsTrimmed(r: PeerStore.Request, w: PeerStore.Web, key: string, a: nat, dev: string)
    requires MatchesBody(key) && a < ADDRESSES && dev != r.name
    requires r.SetState? && r.action.Activate? && !r.force && ValidName(r.name) && PeerStore.ValidMeta(w.meta)
    requires r.name in w.store.files && r.name !in w.store.live && w.store.files[r.name] == ValuelessConf(key, a)
    ensures ValidNet(Net(a, 32)) && JustActivated(r, w, OnePeer(key, a))
    ensures LiveAfter(map[r.name := OnePeer(key, a)], w.store.files, [r.name], [LinkRoute(dev, Some(Net(a, 32)))])[r.name]
            == [LivePeer(key, [])]
  {
    ValuelessParts(key, a);
    ValuelessGrep(key, a);
    OnePeerLists(key, a);
    ValuelessActivates(r, w, key, a);
    WholeAddress(a);
    OneRowTrims(key, a, dev, r.name);
  }

  lemma ValuelessActivates(r: PeerStore.Request, w: PeerStore.Web, key: string, a: nat)
    requires r.SetState? && r.action.Activate? && !r.force && ValidName(r.name) && PeerStore.ValidMeta(w.meta)
    requires r.name in w.store.files && r.name !in w.store.live
    requires var info := InfoOf(w.store.files[r.name]); !info.client && info.address.None?
    ensures PeerStore.Handle(r, w).1 == PeerStore.Done && r.name in PeerStore.Handle(r, w).0.store.live
    ensures PeerStore.Handle(r, w).0.store.live[r.name] == LiveOf(w.store.files[r.name])
  {
    NoConflicts(r.system);
  }

  lemma NoConflicts(system: seq<SystemIface>)
    requires ValidSystem(system)
    ensures Conflicts([], system) == []
  {
    if Conflicts([], system) != [] {
      GateIsExact([], system, Conflicts([], system)[0]);
    }
  }

  lemma OneRowTrims(key: string, a: nat, dev: string, name: string)
    requires a < ADDRESSES && ValidNet(Net(a, 32)) && dev != name
    ensures var net := Net(a, 32);
      && LocalNets([name], [LinkRoute(dev, Some(net))]) == Some([net])
      && TrimPeers(OnePeer(key, a), [net]) == [LivePeer(key, [])]
  {
    var net := Net(a, 32);
    var rows, ranges := [LinkRoute(dev, Some(net))], [V4(net)];
    assert rows[..0] == [] && ranges[..0] == [];
    assert LocalNets([name], rows[..0]) == Some([]) && [] + [net] == [net];
    WholeAddress(a);
    assert In(a, net) && Overlaps(net, net);
    assert Clashes(V4(net), [net][0]) && AnyClash(V4(net), [net]);
    assert Select(ranges[..0], [net], false) == [];
    assert Kept(ranges, [net]) == [];
  }

  // ---------------------------------------------------------------- an address that is none

  /** An unforced activation of a server whose Address line is not one address fails inside the
      program, and only that does. */
  lemma CrashesIff(r: PeerStore.Request, w: PeerStore.Web)
    requires PeerStore.ValidMeta(w.meta)
    ensures PeerStore.Handle(r, w).1 == PeerStore.Crashed <==>
              && r.SetState? && r.action.Activate? && !r.force && ValidName(r.name) && r.name in w.store.files
              && var info := InfoOf(w.store.files[r.name]);
                 !info.client && info.address.Some? && ParseAddress(info.address.value) == None
    ensures PeerStore.Handle(r, w).1 == PeerStore.Crashed ==> PeerStore.Handle(r, w).0 == w
  {
  }

  /** A server's file with the given value in its Address line. */
  function ServerConf(address: string): string { INTERFACE_TAG + "\n" + Setting("Address", address) }

  /** As when an operator gives an interface two addresses on one line: whatever they are, the
      tunnel can be brought up by a forced activation only. */
  lemma TwoAddressesCrash(r: PeerStore.Request, w: PeerStore.Web, a: string, b: string, c: string)
    requires Visible(a + "/" + (b + "/" + c)) && '/' !in a && '/' !in b && '[' !in a + "/" + (b + "/" + c)
    requires PeerStore.ValidMeta(w.meta) && r.SetState? && r.action.Activate? && ValidName(r.name)
    requires r.name in w.store.files && w.store.files[r.name] == ServerConf(a + "/" + (b + "/" + c))
    ensures !r.force ==> PeerStore.Handle(r, w) == (w, PeerStore.Crashed)
    ensures r.force ==> PeerStore.Handle(r, w).1 == PeerStore.Done && r.name in PeerStore.Handle(r, w).0.store.live
  {
    NoCandidates(a, b, c);
  }

  lemma NoCandidates(a: string, b: string, c: string)
    requires Visible(a + "/" + (b + "/" + c)) && '/' !in a && '/' !in b && '[' !in a + "/" + (b + "/" + c)
    ensures Candidates(InfoOf(ServerConf(a + "/" + (b + "/" + c)))) == None
  {
    var value := a + "/" + (b + "/" + c);
    var line := Setting("Address", value);
    var conf := INTERFACE_TAG + "\n" + line;
    SettingHasNo("Address", value, '[');
    NoCutInInterface(line);
    SplitNoCut(conf);
    OneLineHas("Address", value, "", "Address");
    NoMatchesInEmpty("Address");
    assert line + "" == line;
    OtherLine(INTERFACE_TAG, line, "Address");
    TwoAddressesAreNone(a, b, c);
  }

  // ---------------------------------------------------------------- tunnels of our own

  /** No scope id that the command leaves in a file has an Endpoint line inside. */
  predicate QuietScopes(c: Command) {
    match c
    case CreateTunnel(_, _, address, _) => !GrepEndpoint(InterfaceScope(address), false)
    case AddPeer(_, _, ranges, _, _) => forall i :: 0 <= i < |ranges| ==> !GrepEndpoint(NetworkScope(ranges[i]), false)
    case _ => true
  }

  /** Such a command makes no client, as the guard sees it, of a tunnel that was none. */
  lemma CommandKeepsServer(c: Command, s: Store, name: string)
    requires (name in s.files ==> !GuardSaysClient(s.files[name])) && QuietScopes(c)
    ensures var files := RunAlone(c, s, true).0.files; name in files ==> !GuardSaysClient(files[name])
  {
    HelperTasks.AloneIsRunAlone(c, s, true);
    if name == c.name && Check(c).None? {
      match c {
        case CreateTunnel(_, _, _, _) =>
          if Scopes.Writes(c, s) {
            Scopes.NewTunnelIff(c, s);
          }
        case AddPeer(_, _, _, _, _) =>
          if Scopes.Writes(c, s) {
            Scopes.AddRoleIff(c, s);
          }
        case RemovePeer(_, key) =>
          if name in s.files {
            RemoveKeepsServer(s.files[name], key);
          }
        case _ =>
      }
    }
  }

  lemma RequestKeepsServer(r: PeerStore.Request, w: PeerStore.Web, name: string)
    requires PeerStore.ValidMeta(w.meta) && (name in w.store.files ==> !GuardSaysClient(w.store.files[name]))
    ensures var files := PeerStore.Handle(r, w).0.store.files; name in files ==> !GuardSaysClient(files[name])
  {
    match r {
      case NewTunnel(_, server, _, _, _, _, _) =>
        IfacePrints(server);
        CommandKeepsServer(PeerStore.TunnelCommand(r), w.store, name);
      case EndTunnel(n) => CommandKeepsServer(DeleteTunnel(n), w.store, name);
      case SetState(n, action, _, _) => CommandKeepsServer(SetTunnelState(n, action), w.store, name);
      case NewPeer(n, _, _, _, _) =>
        if n in w.meta {
          var address := Allocator.NextAddress(w.meta[n].server, PeerStore.Addresses(w.meta[n].peers));
          if address.Some? {
            PeerStore.AddressIsNew(w.meta[n].server, w.meta[n].peers);
            HostPrints(address.value);
            CommandKeepsServer(PeerStore.PeerCommand(r, address.value), w.store, name);
          }
        }
      case EndPeer(n, id) =>
        if n in w.meta && PeerStore.FindId(w.meta[n].peers, id).Some? {
          CommandKeepsServer(RemovePeer(n, PeerStore.FindId(w.meta[n].peers, id).value.key), w.store, name);
        }
    }
  }

  /** A guard run changes no live peer and no route of the tunnel. */
  ghost predicate SparedBy(live: map<string, seq<LivePeer>>, routes: set<Route>, files: map<string, string>, tunnels: seq<string>, rows: seq<LinkRoute>, name: string)
    requires ValidLive(live) && ValidRows(rows) && name in live
  {
    && name in LiveAfter(live, files, tunnels, rows) && LiveAfter(live, files, tunnels, rows)[name] == live[name]
    && forall r: Route :: r.dev == name ==> (r in RoutesAfter(routes, live, files, tunnels, rows) <==> r in routes)
  }

  ghost predicate Spared(files: map<string, string>, name: string) {
    forall live: map<string, seq<LivePeer>>, routes: set<Route>, tunnels: seq<string>, rows: seq<LinkRoute> ::
      ValidLive(live) && ValidRows(rows) && name in live ==> SparedBy(live, routes, files, tunnels, rows, name)
  }

  lemma ServersAreSpared(files: map<string, string>, name: string)
    requires name in files ==> !GuardSaysClient(files[name])
    ensures Spared(files, name)
  {
    forall live: map<string, seq<LivePeer>>, routes: set<Route>, tunnels: seq<string>, rows: seq<LinkRoute> |
      ValidLive(live) && ValidRows(rows) && name in live
      ensures SparedBy(live, routes, files, tunnels, rows, name)
    {
      ServersUntouched(live, routes, files, tunnels, rows, name);
    }
  }

  /** Over every run of the application, a tunnel that is no client for the guard, or that is yet
      to be made, never becomes one: the guard leaves its peers and routes alone. */
  lemma {:induction false} OwnTunnelsAreSpared(requests: seq<PeerStore.Request>, w: PeerStore.Web, name: string)
    requires PeerStore.ValidMeta(w.meta) && PeerStore.AllWellFormed(requests, w)
    requires name in w.store.files ==> !GuardSaysClient(w.store.files[name])
    ensures var files := PeerStore.HandleAll(requests, w).store.files;
            (name in files ==> !GuardSaysClient(files[name])) && Spared(files, name)
    decreases |requests|
  {
    if requests != [] {
      var n := |requests| - 1;
      OwnTunnelsAreSpared(requests[..n], w, name);
      RequestKeepsServer(requests[n], PeerStore.HandleAll(requests[..n], w), name);
    }
    ServersAreSpared(PeerStore.HandleAll(requests, w).store.files, name);
  }
}
