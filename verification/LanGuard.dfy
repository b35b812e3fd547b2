/** Two checks that keep a tunnel from claiming the local network: the web application's
    gate before an activation, and the guard that trims live client tunnels afterwards. */
module LanGuard {
  import opened Text
  import opened Ipv4
  import opened IpText
  import opened ClientTests
  import Helper
  import opened ConfText
  import opened ConfInfo

  predicate Clashes(r: Range, local: Net)
    requires ValidRange(r) && ValidNet(local)
  {
    r.V4? && Overlaps(r.net, local)
  }

  predicate Covers(r: Range, address: nat)
    requires ValidRange(r)
  {
    r.V4? && In(address, r.net)
  }

  predicate ValidRanges(ranges: seq<Range>) { forall i :: 0 <= i < |ranges| ==> ValidRange(ranges[i]) }

  predicate ValidNets(nets: seq<Net>) { forall i :: 0 <= i < |nets| ==> ValidNet(nets[i]) }

  // ---------------------------------------------------------------- the web gate

  /** A system interface with its addresses; None is one that the gate skips: another
      family, no netmask, or not an address. */
  datatype SystemIface = SystemIface(name: string, addresses: seq<Option<Iface>>)

  predicate ValidSystem(system: seq<SystemIface>) {
    forall i, j :: 0 <= i < |system| && 0 <= j < |system[i].addresses| && system[i].addresses[j].Some?
      ==> ValidIface(system[i].addresses[j].value)
  }

  datatype Conflict = Conflict(candidate: Range, iface: string, local: Net)

  /** The conflict comes from the interface. */
  ghost predicate JustifiedBy(c: Conflict, candidates: seq<Range>, iface: SystemIface)
    requires ValidRanges(candidates)
    requires forall j :: 0 <= j < |iface.addresses| && iface.addresses[j].Some? ==> ValidIface(iface.addresses[j].value)
  {
    exists j, k ::
      && 0 <= j < |iface.addresses| && 0 <= k < |candidates| && iface.addresses[j].Some?
      && Clashes(candidates[k], NetworkOf(iface.addresses[j].value))
      && c == Conflict(candidates[k], iface.name, NetworkOf(iface.addresses[j].value))
  }

  /** The conflict is there for a reason: the candidate was asked about, the subnet belongs
      to an address of the interface, and the two overlap. */
  ghost predicate Justified(c: Conflict, candidates: seq<Range>, system: seq<SystemIface>)
    requires ValidRanges(candidates) && ValidSystem(system)
  {
    exists i :: 0 <= i < |system| && JustifiedBy(c, candidates, system[i])
  }

  function ConflictsWith(candidates: seq<Range>, name: string, local: Net): seq<Conflict>
    requires ValidRanges(candidates) && ValidNet(local)
  {
    if candidates == [] then []
    else
      ConflictsWith(candidates[..|candidates| - 1], name, local)
      + (var c := candidates[|candidates| - 1]; if Clashes(c, local) then [Conflict(c, name, local)] else [])
  }

  function ConflictsOfAddresses(candidates: seq<Range>, name: string, addresses: seq<Option<Iface>>): seq<Conflict>
    requires ValidRanges(candidates)
    requires forall j :: 0 <= j < |addresses| && addresses[j].Some? ==> ValidIface(addresses[j].value)
  {
    if addresses == [] then []
    else
      ConflictsOfAddresses(candidates, name, addresses[..|addresses| - 1])
      + (var a := addresses[|addresses| - 1]; if a.Some? then ConflictsWith(candidates, name, NetworkOf(a.value)) else [])
  }

  function Conflicts(candidates: seq<Range>, system: seq<SystemIface>): seq<Conflict>
    requires ValidRanges(candidates) && ValidSystem(system)
  {
    if system == [] then []
    else
      var last := system[|system| - 1];
      Conflicts(candidates, system[..|system| - 1]) + ConflictsOfAddresses(candidates, last.name, last.addresses)
  }

  method OverlapsOfAddress(before: seq<Conflict>, candidates: seq<Range>, name: string, local: Net) returns (conflicts: seq<Conflict>)
    requires ValidRanges(candidates) && ValidNet(local)
    ensures conflicts == before + ConflictsWith(candidates, name, local)
  {
    conflicts := before;
    for k := 0 to |candidates|
      invariant conflicts == before + ConflictsWith(candidates[..k], name, local)
    {
      assert candidates[..k + 1][..k] == candidates[..k];
      if Clashes(candidates[k], local) {
        conflicts := conflicts + [Conflict(candidates[k], name, local)];
      }
    }
    assert candidates[..|candidates|] == candidates;
  }

  method OverlapsOfInterface(before: seq<Conflict>, candidates: seq<Range>, iface: SystemIface) returns (conflicts: seq<Conflict>)
    requires ValidRanges(candidates)
    requires forall j :: 0 <= j < |iface.addresses| && iface.addresses[j].Some? ==> ValidIface(iface.addresses[j].value)
    ensures conflicts == before + ConflictsOfAddresses(candidates, iface.name, iface.addresses)
  {
    conflicts := before;
    var addresses := iface.addresses;
    for j := 0 to |addresses|
      invariant conflicts == before + ConflictsOfAddresses(candidates, iface.name, addresses[..j])
    {
      assert addresses[..j + 1][..j] == addresses[..j];
      if addresses[j].Some? {
        conflicts := OverlapsOfAddress(conflicts, candidates, iface.name, NetworkOf(addresses[j].value));
      }
    }
    assert addresses[..|addresses|] == addresses;
  }

  method OverlappingLocalSubnets(candidates: seq<Range>, system: seq<SystemIface>) returns (conflicts: seq<Conflict>)
    requires ValidRanges(candidates) && ValidSystem(system)
    ensures conflicts == Conflicts(candidates, system)
  {
    conflicts := [];
    for i := 0 to |system|
      invariant conflicts == Conflicts(candidates, system[..i])
    {
      assert system[..i + 1][..i] == system[..i];
      conflicts := OverlapsOfInterface(conflicts, candidates, system[i]);
    }
    assert system[..|system|] == system;
  }

  lemma {:induction false} ConflictsWithMembers(candidates: seq<Range>, name: string, local: Net)
    requires ValidRanges(candidates) && ValidNet(local)
    ensures forall c :: c in ConflictsWith(candidates, name, local) <==>
              exists k :: 0 <= k < |candidates| && Clashes(candidates[k], local) && c == Conflict(candidates[k], name, local)
  {
    if candidates != [] {
      var n := |candidates| - 1;
      ConflictsWithMembers(candidates[..n], name, local);
      assert forall k :: 0 <= k < n ==> candidates[..n][k] == candidates[k];
    }
  }

  lemma {:induction false} ConflictsOfAddressesMembers(candidates: seq<Range>, name: string, addresses: seq<Option<Iface>>, c: Conflict)
    requires ValidRanges(candidates)
    requires forall j :: 0 <= j < |addresses| && addresses[j].Some? ==> ValidIface(addresses[j].value)
    ensures c in ConflictsOfAddresses(candidates, name, addresses) <==>
              exists j, k :: 0 <= j < |addresses| && 0 <= k < |candidates| && addresses[j].Some?
                && Clashes(candidates[k], NetworkOf(addresses[j].value)) && c == Conflict(candidates[k], name, NetworkOf(addresses[j].value))
  {
    if addresses != [] {
      var n := |addresses| - 1;
      ConflictsOfAddressesMembers(candidates, name, addresses[..n], c);
      assert forall j :: 0 <= j < n ==> addresses[..n][j] == addresses[j];
      if addresses[n].Some? {
        ConflictsWithMembers(candidates, name, NetworkOf(addresses[n].value));
      }
    }
  }

  lemma InterfaceIsExact(candidates: seq<Range>, iface: SystemIface, c: Conflict)
    requires ValidRanges(candidates)
    requires forall j :: 0 <= j < |iface.addresses| && iface.addresses[j].Some? ==> ValidIface(iface.addresses[j].value)
    ensures c in ConflictsOfAddresses(candidates, iface.name, iface.addresses) <==> JustifiedBy(c, candidates, iface)
  {
    ConflictsOfAddressesMembers(candidates, iface.name, iface.addresses, c);
  }

  lemma OneMoreInterface(candidates: seq<Range>, system: seq<SystemIface>, iface: SystemIface, c: Conflict)
    requires ValidRanges(candidates) && ValidSystem(system) && ValidSystem(system + [iface])
    requires forall j :: 0 <= j < |iface.addresses| && iface.addresses[j].Some? ==> ValidIface(iface.addresses[j].value)
    ensures Justified(c, candidates, system + [iface]) <==> Justified(c, candidates, system) || JustifiedBy(c, candidates, iface)
  {
    var all := system + [iface];
    assert all[|system|] == iface && forall i :: 0 <= i < |system| ==> all[i] == system[i];
  }

  /** The gate reports exactly the justified conflicts. */
  lemma {:induction false} GateIsExact(candidates: seq<Range>, system: seq<SystemIface>, c: Conflict)
    requires ValidRanges(candidates) && ValidSystem(system)
    ensures c in Conflicts(candidates, system) <==> Justified(c, candidates, system)
  {
    if system != [] {
      var front, last := system[..|system| - 1], system[|system| - 1];
      assert front + [last] == system && forall i :: 0 <= i < |front| ==> front[i] == system[i];
      GateIsExact(candidates, front, c);
      InterfaceIsExact(candidates, last, c);
      OneMoreInterface(candidates, front, last, c);
    }
  }

  // ---------------------------------------------------------------- what the gate is asked about

  /** The networks that an activation would bring in: a client's ranges, without the ones that
      are no network; a server's own network. None if the server's address is no address, which
      the program does not expect. */
  function Candidates(info: Info): (r: Option<seq<Range>>)
    ensures r.Some? ==> ValidRanges(r.value)
  {
    if info.client then Some(NetworksOf(info.ranges))
    else if info.address.None? then Some([])
    else
      var a := ParseAddress(info.address.value);
      if a.Some? then Some([RangeOf(a.value)]) else None
  }

  function ParseAll(texts: seq<string>): (args: seq<Option<Range>>)
    ensures |args| == |texts| && forall i :: 0 <= i < |texts| ==> args[i] == ParseRange(texts[i])
    ensures ValidArgs(args)
  {
    seq(|texts|, i requires 0 <= i < |texts| => ParseRange(texts[i]))
  }

  /** The texts that are networks, in order. */
  function NetworksOf(texts: seq<string>): (r: seq<Range>)
    ensures ValidRanges(r)
  {
    ParsedValid(ParseAll(texts));
    Parsed(ParseAll(texts))
  }

  lemma {:induction false} ParsedMembers(args: seq<Option<Range>>, r: Range)
    ensures r in Parsed(args) <==> Some(r) in args
  {
    if args != [] {
      var n := |args| - 1;
      ParsedMembers(args[..n], r);
      assert args == args[..n] + [args[n]];
    }
  }

  method NetworksIn(texts: seq<string>) returns (networks: seq<Range>)
    ensures networks == NetworksOf(texts)
  {
    networks := [];
    for i := 0 to |texts|
      invariant networks == Parsed(ParseAll(texts)[..i])
    {
      ParsedSnoc(ParseAll(texts), i);
      var net := ParseRange(texts[i]);
      if net.Some? {
        networks := networks + [net.value];
      }
    }
    assert ParseAll(texts)[..|texts|] == ParseAll(texts);
  }

  method CandidatesOf(info: Info) returns (candidates: Option<seq<Range>>)
    ensures candidates == Candidates(info)
  {
    if info.client {
      var networks := NetworksIn(info.ranges);
      return Some(networks);
    }
    if info.address.None? {
      return Some([]);
    }
    var a := ParseAddress(info.address.value);
    return if a.Some? then Some([RangeOf(a.value)]) else None;
  }

  // ---------------------------------------------------------------- the guard's split

  predicate AnyClash(r: Range, local: seq<Net>)
    requires ValidRange(r) && ValidNets(local)
  {
    exists i :: 0 <= i < |local| && Clashes(r, local[i])
  }

  /** The arguments that parse, in order; the others are skipped. */
  function Parsed(args: seq<Option<Range>>): seq<Range> {
    if args == [] then []
    else Parsed(args[..|args| - 1]) + (if args[|args| - 1].Some? then [args[|args| - 1].value] else [])
  }

  function Select(ranges: seq<Range>, local: seq<Net>, clashing: bool): seq<Range>
    requires ValidRanges(ranges) && ValidNets(local)
  {
    if ranges == [] then []
    else
      Select(ranges[..|ranges| - 1], local, clashing)
      + (if AnyClash(ranges[|ranges| - 1], local) == clashing then [ranges[|ranges| - 1]] else [])
  }

  function Kept(ranges: seq<Range>, local: seq<Net>): seq<Range>
    requires ValidRanges(ranges) && ValidNets(local)
  {
    Select(ranges, local, false)
  }

  function Dropped(ranges: seq<Range>, local: seq<Net>): seq<Range>
    requires ValidRanges(ranges) && ValidNets(local)
  {
    Select(ranges, local, true)
  }

  predicate ValidArgs(args: seq<Option<Range>>) {
    forall i :: 0 <= i < |args| && args[i].Some? ==> ValidRange(args[i].value)
  }

  lemma {:induction false} ParsedValid(args: seq<Option<Range>>)
    requires ValidArgs(args)
    ensures ValidRanges(Parsed(args))
  {
    if args != [] {
      ParsedValid(args[..|args| - 1]);
    }
  }

  lemma ParsedSnoc(args: seq<Option<Range>>, i: nat)
    requires i < |args| && ValidArgs(args)
    ensures Parsed(args[..i + 1]) == if args[i].Some? then Parsed(args[..i]) + [args[i].value] else Parsed(args[..i])
    ensures ValidRanges(Parsed(args[..i])) && ValidRanges(Parsed(args[..i + 1]))
  {
    assert args[..i + 1][..i] == args[..i];
    ParsedValid(args[..i]);
    ParsedValid(args[..i + 1]);
  }

  method SplitRanges(local: seq<Net>, args: seq<Option<Range>>) returns (keep: seq<Range>, drop: seq<Range>)
    requires ValidNets(local) && ValidArgs(args)
    ensures ValidRanges(Parsed(args))
    ensures keep == Kept(Parsed(args), local) && drop == Dropped(Parsed(args), local)
  {
    ParsedValid(args);
    keep, drop := [], [];
    for i := 0 to |args|
      invariant ValidRanges(Parsed(args[..i]))
      invariant keep == Kept(Parsed(args[..i]), local) && drop == Dropped(Parsed(args[..i]), local)
    {
      ParsedSnoc(args, i);
      if args[i].Some? {
        var net := args[i].value;
        SelectSnoc(Parsed(args[..i]), net, local, false);
        SelectSnoc(Parsed(args[..i]), net, local, true);
        var clash := AnyClash(net, local);
        if clash {
          drop := drop + [net];
        } else {
          keep := keep + [net];
        }
      }
    }
    assert args[..|args|] == args;
  }

  lemma SelectSnoc(ranges: seq<Range>, r: Range, local: seq<Net>, clashing: bool)
    requires ValidRanges(ranges) && ValidRange(r) && ValidNets(local)
    ensures Select(ranges + [r], local, clashing) ==
            Select(ranges, local, clashing) + (if AnyClash(r, local) == clashing then [r] else [])
  {
    assert (ranges + [r])[..|ranges|] == ranges;
  }

  lemma {:induction false} SelectMembers(ranges: seq<Range>, local: seq<Net>, clashing: bool)
    requires ValidRanges(ranges) && ValidNets(local)
    ensures forall r :: r in Select(ranges, local, clashing) <==> r in ranges && ValidRange(r) && AnyClash(r, local) == clashing
    ensures ValidRanges(Select(ranges, local, clashing))
  {
    if ranges != [] {
      SelectMembers(ranges[..|ranges| - 1], local, clashing);
    }
  }

  /** whole is a and b merged, each in its own order. */
  predicate Merges(whole: seq<Range>, a: seq<Range>, b: seq<Range>) {
    if whole == [] then a == [] && b == []
    else
      var n := |whole| - 1;
      || (a != [] && a[|a| - 1] == whole[n] && Merges(whole[..n], a[..|a| - 1], b))
      || (b != [] && b[|b| - 1] == whole[n] && Merges(whole[..n], a, b[..|b| - 1]))
  }

  /** Keep and drop partition the ranges, in order. */
  lemma {:induction false} SplitPartitions(ranges: seq<Range>, local: seq<Net>)
    requires ValidRanges(ranges) && ValidNets(local)
    ensures Merges(ranges, Kept(ranges, local), Dropped(ranges, local))
  {
    if ranges != [] {
      var n := |ranges| - 1;
      SplitPartitions(ranges[..n], local);
      var keep, drop := Kept(ranges, local), Dropped(ranges, local);
      if AnyClash(ranges[n], local) {
        assert drop[..|drop| - 1] == Dropped(ranges[..n], local);
        assert keep == Kept(ranges[..n], local);
      } else {
        assert keep[..|keep| - 1] == Kept(ranges[..n], local);
        assert drop == Dropped(ranges[..n], local);
      }
    }
  }

  predicate Sublist(a: seq<Range>, whole: seq<Range>) {
    if a == [] then true
    else if whole == [] then false
    else if a[|a| - 1] == whole[|whole| - 1] && Sublist(a[..|a| - 1], whole[..|whole| - 1]) then true
    else Sublist(a, whole[..|whole| - 1])
  }

  /** Any sublist without a clash is a sublist of what is kept: keep is the largest. */
  lemma {:induction false} KeepIsLargest(a: seq<Range>, ranges: seq<Range>, local: seq<Net>)
    requires ValidRanges(ranges) && ValidNets(local) && Sublist(a, ranges)
    requires forall r :: r in a ==> ValidRange(r) && !AnyClash(r, local)
    ensures Sublist(a, Kept(ranges, local))
  {
    if a != [] {
      var n, m := |ranges| - 1, |a| - 1;
      var keep := Kept(ranges, local);
      if a[m] == ranges[n] && Sublist(a[..m], ranges[..n]) {
        KeepIsLargest(a[..m], ranges[..n], local);
        assert a[m] in a;
        assert keep[..|keep| - 1] == Kept(ranges[..n], local);
      } else {
        KeepIsLargest(a, ranges[..n], local);
        if keep != Kept(ranges[..n], local) {
          assert keep[..|keep| - 1] == Kept(ranges[..n], local);
        }
      }
    }
  }

  lemma {:induction false} KeepOfKept(ranges: seq<Range>, local: seq<Net>)
    requires ValidRanges(ranges) && ValidNets(local)
    requires forall r :: r in ranges ==> ValidRange(r) && !AnyClash(r, local)
    ensures Kept(ranges, local) == ranges && Dropped(ranges, local) == []
  {
    if ranges != [] {
      var n := |ranges| - 1;
      assert ranges[n] in ranges;
      KeepOfKept(ranges[..n], local);
      assert ranges[..n] + [ranges[n]] == ranges;
    }
  }

  lemma {:induction false} NoDropMeansAllKept(ranges: seq<Range>, local: seq<Net>)
    requires ValidRanges(ranges) && ValidNets(local) && Dropped(ranges, local) == []
    ensures Kept(ranges, local) == ranges
  {
    if ranges != [] {
      var n := |ranges| - 1;
      NoDropMeansAllKept(ranges[..n], local);
      assert ranges[..n] + [ranges[n]] == ranges;
    }
  }

  // ---------------------------------------------------------------- the two checks agree

  /** The directly connected subnets that the gate looks at. */
  ghost predicate GateSees(system: seq<SystemIface>, local: Net)
    requires ValidSystem(system)
  {
    exists i, j :: 0 <= i < |system| && 0 <= j < |system[i].addresses|
      && system[i].addresses[j].Some? && NetworkOf(system[i].addresses[j].value) == local
  }

  /** Every range that the guard would drop is among the gate's conflicts, as long as the
      gate sees the guard's subnets. */
  lemma DropsAreConflicts(ranges: seq<Range>, local: seq<Net>, system: seq<SystemIface>, r: Range)
    requires ValidRanges(ranges) && ValidNets(local) && ValidSystem(system)
    requires forall i :: 0 <= i < |local| ==> GateSees(system, local[i])
    requires r in Dropped(ranges, local)
    ensures exists c :: c in Conflicts(ranges, system) && c.candidate == r
  {
    SelectMembers(ranges, local, true);
    var i :| 0 <= i < |local| && Clashes(r, local[i]);
    var k :| 0 <= k < |ranges| && ranges[k] == r;
    var m, j :| 0 <= m < |system| && 0 <= j < |system[m].addresses|
      && system[m].addresses[j].Some? && NetworkOf(system[m].addresses[j].value) == local[i];
    var c := Conflict(ranges[k], system[m].name, NetworkOf(system[m].addresses[j].value));
    assert Justified(c, ranges, system);
    GateIsExact(ranges, system, c);
  }

  /** What passes the gate, the guard leaves whole. */
  lemma PassedGateNothingToDrop(ranges: seq<Range>, local: seq<Net>, system: seq<SystemIface>)
    requires ValidRanges(ranges) && ValidNets(local) && ValidSystem(system)
    requires forall i :: 0 <= i < |local| ==> GateSees(system, local[i])
    requires Conflicts(ranges, system) == []
    ensures Dropped(ranges, local) == [] && Kept(ranges, local) == ranges
  {
    var drop := Dropped(ranges, local);
    if drop != [] {
      DropsAreConflicts(ranges, local, system, drop[0]);
      assert false;
    }
    NoDropMeansAllKept(ranges, local);
  }

  // ---------------------------------------------------------------- the guard on the live system

  datatype LivePeer = LivePeer(key: string, ranges: seq<Range>)

  /** A row of the main routing table. */
  datatype Route = Route(net: Range, dev: string)

  /** A row of `ip -4 route show scope link`; a destination such as "default" does not parse. */
  datatype LinkRoute = LinkRoute(dev: string, net: Option<Net>)

  /** The destinations whose device is no WireGuard interface; none if one does not parse,
      for then the splitting program fails and the guard skips every peer. */
  function LocalNets(tunnels: seq<string>, rows: seq<LinkRoute>): Option<seq<Net>> {
    if rows == [] then Some([])
    else
      var row := rows[|rows| - 1];
      var earlier := LocalNets(tunnels, rows[..|rows| - 1]);
      if row.dev in tunnels then earlier
      else if earlier.None? || row.net.None? then None
      else Some(earlier.value + [row.net.value])
  }

  predicate ValidRows(rows: seq<LinkRoute>) {
    forall i :: 0 <= i < |rows| && rows[i].net.Some? ==> ValidNet(rows[i].net.value)
  }

  lemma {:induction false} LocalNetsMembers(tunnels: seq<string>, rows: seq<LinkRoute>)
    requires ValidRows(rows)
    ensures var local := LocalNets(tunnels, rows);
      && (local.None? <==> exists i :: 0 <= i < |rows| && rows[i].dev !in tunnels && rows[i].net.None?)
      && (local.Some? ==> ValidNets(local.value))
      && (local.Some? ==> forall n :: n in local.value <==>
            exists i :: 0 <= i < |rows| && rows[i].dev !in tunnels && rows[i].net == Some(n))
  {
    if rows != [] {
      var m := |rows| - 1;
      LocalNetsMembers(tunnels, rows[..m]);
      assert forall i :: 0 <= i < m ==> rows[..m][i] == rows[i];
    }
  }

  /** The interfaces that the guard touches. */
  predicate IsClient(conf: map<string, string>, tunnel: string) {
    tunnel in conf && GuardSaysClient(conf[tunnel])
  }

  predicate ValidPeers(peers: seq<LivePeer>) { forall i :: 0 <= i < |peers| ==> ValidRanges(peers[i].ranges) }

  predicate ValidLive(live: map<string, seq<LivePeer>>) { forall t :: t in live ==> ValidPeers(live[t]) }

  /** The kernel gives a range to one peer of an interface at a time, and keys differ. */
  predicate Exclusive(peers: seq<LivePeer>) {
    forall i, j :: 0 <= i < |peers| && 0 <= j < |peers| && i != j ==>
      peers[i].key != peers[j].key && forall r :: r in peers[i].ranges ==> r !in peers[j].ranges
  }

  function RemoveAll(ranges: seq<Range>, taken: seq<Range>): seq<Range> {
    if ranges == [] then []
    else RemoveAll(ranges[..|ranges| - 1], taken) + (if ranges[|ranges| - 1] in taken then [] else [ranges[|ranges| - 1]])
  }

  predicate Listed(peers: seq<LivePeer>, key: string) { exists i :: 0 <= i < |peers| && peers[i].key == key }

  /** wg set tunnel peer key allowed-ips ranges: the peer gets exactly these, others lose them. */
  function SetRanges(peers: seq<LivePeer>, key: string, ranges: seq<Range>): (r: seq<LivePeer>)
    ensures Listed(peers, key) ==> |r| == |peers|
  {
    seq(|peers|, i requires 0 <= i < |peers| =>
      if peers[i].key == key then LivePeer(key, ranges)
      else LivePeer(peers[i].key, RemoveAll(peers[i].ranges, ranges)))
    + if Listed(peers, key) then [] else [LivePeer(key, ranges)]
  }

  lemma {:induction false} RemoveAllMembers(ranges: seq<Range>, taken: seq<Range>)
    ensures forall r :: r in RemoveAll(ranges, taken) <==> r in ranges && r !in taken
  {
    if ranges != [] {
      RemoveAllMembers(ranges[..|ranges| - 1], taken);
    }
  }

  function RangesIn(ranges: seq<Range>): set<Range> { set r | r in ranges }

  /** A listing of the live peers: each once, with its ranges in some order. */
  predicate Lists(listed: seq<LivePeer>, live: Helper.Live) {
    && (forall i, j :: 0 <= i < j < |listed| ==> listed[i].key != listed[j].key)
    && (forall i :: 0 <= i < |listed| ==> listed[i].key in live && RangesIn(listed[i].ranges) == live[listed[i].key])
    && (forall k :: k in live ==> Listed(listed, k))
  }

  lemma SetKeysDiffer(listed: seq<LivePeer>, key: string, ranges: seq<Range>)
    requires forall i, j :: 0 <= i < j < |listed| ==> listed[i].key != listed[j].key
    ensures var after := SetRanges(listed, key, ranges);
      && (forall i, j :: 0 <= i < j < |after| ==> after[i].key != after[j].key)
      && forall k :: Listed(after, k) <==> Listed(listed, k) || k == key
  {
    var after := SetRanges(listed, key, ranges);
    forall k ensures Listed(after, k) <==> Listed(listed, k) || k == key {
      if Listed(listed, k) {
        var i :| 0 <= i < |listed| && listed[i].key == k;
        assert after[i].key == k;
      } else if k == key {
        assert after[|listed|].key == key;
      }
    }
  }

  /** On a listing, `wg set` does what it does to the live peers. */
  lemma SetRangesIsPutLive(listed: seq<LivePeer>, live: Helper.Live, key: string, ranges: seq<Range>)
    requires Lists(listed, live)
    ensures Lists(SetRanges(listed, key, ranges), Helper.PutLive(live, key, RangesIn(ranges)))
  {
    var after, put := SetRanges(listed, key, ranges), Helper.PutLive(live, key, RangesIn(ranges));
    SetKeysDiffer(listed, key, ranges);
    forall i | 0 <= i < |after| ensures after[i].key in put && RangesIn(after[i].ranges) == put[after[i].key] {
      if i < |listed| {
        RemoveAllMembers(listed[i].ranges, ranges);
      }
    }
  }

  function TrimPeer(p: LivePeer, local: seq<Net>): LivePeer
    requires ValidRanges(p.ranges) && ValidNets(local)
  {
    LivePeer(p.key, Kept(p.ranges, local))
  }

  function TrimPeers(peers: seq<LivePeer>, local: seq<Net>): (r: seq<LivePeer>)
    requires ValidPeers(peers) && ValidNets(local)
    ensures |r| == |peers| && forall i :: 0 <= i < |peers| ==> r[i] == TrimPeer(peers[i], local)
  {
    seq(|peers|, i requires 0 <= i < |peers| => TrimPeer(peers[i], local))
  }

  function TrimLive(live: map<string, seq<LivePeer>>, conf: map<string, string>, local: seq<Net>, done: set<string>): map<string, seq<LivePeer>>
    requires ValidLive(live) && ValidNets(local)
  {
    map t | t in live :: if t in done && IsClient(conf, t) then TrimPeers(live[t], local) else live[t]
  }

  /** The routes that the guard deletes: dropped ranges of the given peers. */
  predicate DropsRoute(peers: seq<LivePeer>, local: seq<Net>, net: Range)
    requires ValidPeers(peers) && ValidNets(local)
  {
    exists i :: 0 <= i < |peers| && net in Dropped(peers[i].ranges, local)
  }

  function TrimRoutes(routes: set<Route>, live: map<string, seq<LivePeer>>, conf: map<string, string>, local: seq<Net>, done: set<string>): set<Route>
    requires ValidLive(live) && ValidNets(local)
  {
    set r | r in routes && !(r.dev in live && r.dev in done && IsClient(conf, r.dev) && DropsRoute(live[r.dev], local, r.net))
  }

  /** The live peers after the guard has run. */
  function LiveAfter(live: map<string, seq<LivePeer>>, conf: map<string, string>, tunnels: seq<string>, rows: seq<LinkRoute>): map<string, seq<LivePeer>>
    requires ValidLive(live) && ValidRows(rows)
  {
    LocalNetsMembers(tunnels, rows);
    var local := LocalNets(tunnels, rows);
    if local.None? then live else TrimLive(live, conf, local.value, live.Keys)
  }

  /** The routes after the guard has run. */
  function RoutesAfter(routes: set<Route>, live: map<string, seq<LivePeer>>, conf: map<string, string>, tunnels: seq<string>, rows: seq<LinkRoute>): set<Route>
    requires ValidLive(live) && ValidRows(rows)
  {
    LocalNetsMembers(tunnels, rows);
    var local := LocalNets(tunnels, rows);
    if local.None? then routes else TrimRoutes(routes, live, conf, local.value, live.Keys)
  }

  lemma {:induction false} RemoveAllDisjoint(ranges: seq<Range>, taken: seq<Range>)
    requires forall r :: r in ranges ==> r !in taken
    ensures RemoveAll(ranges, taken) == ranges
  {
    if ranges != [] {
      RemoveAllDisjoint(ranges[..|ranges| - 1], taken);
      assert ranges[|ranges| - 1] in ranges;
      assert ranges[..|ranges| - 1] + [ranges[|ranges| - 1]] == ranges;
    }
  }

  /** Giving a peer a part of its own ranges takes nothing from the others. */
  lemma SetOwnRanges(peers: seq<LivePeer>, i: nat, ranges: seq<Range>)
    requires i < |peers| && Exclusive(peers)
    requires forall r :: r in ranges ==> r in peers[i].ranges
    ensures SetRanges(peers, peers[i].key, ranges) == peers[i := LivePeer(peers[i].key, ranges)]
  {
    assert Listed(peers, peers[i].key);
    forall j | 0 <= j < |peers| && j != i ensures RemoveAll(peers[j].ranges, ranges) == peers[j].ranges {
      RemoveAllDisjoint(peers[j].ranges, ranges);
    }
  }

  lemma TrimmedStayExclusive(peers: seq<LivePeer>, i: nat, ranges: seq<Range>)
    requires i < |peers| && Exclusive(peers)
    requires forall r :: r in ranges ==> r in peers[i].ranges
    ensures Exclusive(peers[i := LivePeer(peers[i].key, ranges)])
  {
  }

  /** What is left of the table once the device's routes to the peers' dropped ranges are gone. */
  function RoutesLeft(routes: set<Route>, dev: string, peers: seq<LivePeer>, local: seq<Net>): set<Route>
    requires ValidPeers(peers) && ValidNets(local)
  {
    set r | r in routes && !(r.dev == dev && DropsRoute(peers, local, r.net))
  }

  lemma RoutesLeftSnoc(routes: set<Route>, dev: string, listed: seq<LivePeer>, i: nat, local: seq<Net>)
    requires i < |listed| && ValidPeers(listed) && ValidNets(local)
    ensures RoutesLeft(routes, dev, listed[..i + 1], local) ==
            set r | r in RoutesLeft(routes, dev, listed[..i], local) && !(r.dev == dev && r.net in Dropped(listed[i].ranges, local))
  {
    DropsRouteSnoc(listed[..i], listed[i], local);
    assert listed[..i + 1] == listed[..i] + [listed[i]];
  }

  /** What the kernel keeps of one interface's peers. */
  predicate ValidTunnel(peers: seq<LivePeer>) { ValidPeers(peers) && Exclusive(peers) }

  /** Setting a listed peer to its kept ranges trims that peer only. */
  lemma TrimInPeers(peers: seq<LivePeer>, i: nat, local: seq<Net>)
    requires ValidTunnel(peers) && i < |peers| && ValidNets(local)
    ensures SetRanges(peers, peers[i].key, Kept(peers[i].ranges, local)) == peers[i := TrimPeer(peers[i], local)]
    ensures ValidTunnel(peers[i := TrimPeer(peers[i], local)])
  {
    var p := peers[i];
    SelectMembers(p.ranges, local, false);
    SetOwnRanges(peers, i, Kept(p.ranges, local));
    TrimmedStayExclusive(peers, i, Kept(p.ranges, local));
  }

  lemma SetRangesMeans(peers: seq<LivePeer>, key: string, ranges: seq<Range>)
    ensures var after := SetRanges(peers, key, ranges);
      && Listed(after, key) && |peers| <= |after|
      && (forall i :: 0 <= i < |after| && after[i].key == key ==> after[i].ranges == ranges)
      && (forall i :: 0 <= i < |peers| ==> after[i].key == peers[i].key)
      && (forall i :: 0 <= i < |peers| && peers[i].key != key ==>
            forall r :: r in after[i].ranges <==> r in peers[i].ranges && r !in ranges)
  {
    var after := SetRanges(peers, key, ranges);
    forall i | 0 <= i < |peers| && peers[i].key != key
      ensures forall r :: r in after[i].ranges <==> r in peers[i].ranges && r !in ranges
    {
      RemoveAllMembers(peers[i].ranges, ranges);
      assert after[i].ranges == RemoveAll(peers[i].ranges, ranges);
    }
    if Listed(peers, key) {
      var i :| 0 <= i < |peers| && peers[i].key == key;
      assert after[i].key == key;
    } else {
      assert after[|peers|].key == key;
    }
  }

  class Kernel {
    /** Live peers per WireGuard interface. */
    var live: map<string, seq<LivePeer>>
    /** The main routing table. */
    var routes: set<Route>

    predicate Valid()
      reads this
    {
      forall t :: t in live ==> ValidTunnel(live[t])
    }

    method WgSet(tunnel: string, key: string, ranges: seq<Range>)
      requires tunnel in live
      modifies this`live
      ensures live == old(live)[tunnel := SetRanges(old(live)[tunnel], key, ranges)]
      ensures Listed(live[tunnel], key)
      ensures forall i :: 0 <= i < |live[tunnel]| && live[tunnel][i].key == key ==> live[tunnel][i].ranges == ranges
      ensures forall i :: 0 <= i < |old(live)[tunnel]| && old(live)[tunnel][i].key != key ==>
                forall r :: r in live[tunnel][i].ranges <==> r in old(live)[tunnel][i].ranges && r !in ranges
    {
      SetRangesMeans(live[tunnel], key, ranges);
      live := live[tunnel := SetRanges(live[tunnel], key, ranges)];
    }

    method DeleteRoutes(tunnel: string, drop: seq<Range>)
      modifies this`routes
      ensures routes == set r | r in old(routes) && !(r.dev == tunnel && r.net in drop)
    {
      for k := 0 to |drop|
        invariant routes == set r | r in old(routes) && !(r.dev == tunnel && r.net in drop[..k])
      {
        assert forall x :: x in drop[..k + 1] <==> x in drop[..k] || x == drop[k];
        routes := routes - {Route(drop[k], tunnel)};
      }
      assert drop[..|drop|] == drop;
    }

    /** One round of the guard's inner loop: trim the peer at place i. */
    method TrimOne(tunnel: string, peer: LivePeer, ghost i: nat, local: seq<Net>)
      requires tunnel in live && ValidTunnel(live[tunnel]) && ValidNets(local)
      requires i < |live[tunnel]| && live[tunnel][i] == peer
      modifies this
      ensures ValidRanges(peer.ranges)
      ensures live == old(live)[tunnel := old(live)[tunnel][i := TrimPeer(peer, local)]]
      ensures ValidTunnel(live[tunnel])
      ensures routes == set r | r in old(routes) && !(r.dev == tunnel && r.net in Dropped(peer.ranges, local))
    {
      var keep, drop := SplitRanges(local, ArgsOf(peer.ranges));
      ParsedArgs(peer.ranges);
      if drop == [] {
        NoDropMeansAllKept(peer.ranges, local);
        assert live[tunnel][i := TrimPeer(peer, local)] == live[tunnel];
        return;
      }
      TrimInPeers(live[tunnel], i, local);
      WgSet(tunnel, peer.key, keep);
      DeleteRoutes(tunnel, drop);
    }

    /** The guard's loop over one client tunnel's peers, as `wg show` listed them at its start. */
    method TrimTunnel(tunnel: string, local: seq<Net>)
      requires tunnel in live && ValidTunnel(live[tunnel]) && ValidNets(local)
      modifies this
      ensures live == old(live)[tunnel := TrimPeers(old(live)[tunnel], local)]
      ensures ValidTunnel(live[tunnel])
      ensures routes == RoutesLeft(old(routes), tunnel, old(live)[tunnel], local)
    {
      var listed := live[tunnel];
      ghost var before, table, goal := live, routes, TrimPeers(listed, local);
      NoRoutesLeft(routes, tunnel, local);
      for i := 0 to |listed|
        invariant tunnel in live && ValidTunnel(live[tunnel])
        invariant live == before[tunnel := live[tunnel]] && live[tunnel] == goal[..i] + listed[i..]
        invariant routes == RoutesLeft(table, tunnel, listed[..i], local)
      {
        NextPeer(listed, goal, i);
        RoutesLeftSnoc(table, tunnel, listed, i, local);
        TrimOne(tunnel, listed[i], i, local);
        assert goal[i] == TrimPeer(listed[i], local);
      }
      assert goal[..|listed|] + listed[|listed|..] == goal && listed[..|listed|] == listed;
    }

    /** The whole guard: tunnels is what `wg show interfaces` prints. */
    method WgGuard(tunnels: seq<string>, rows: seq<LinkRoute>, conf: map<string, string>)
      requires Valid() && ValidRows(rows)
      requires forall t :: t in live <==> t in tunnels
      requires forall i, j :: 0 <= i < j < |tunnels| ==> tunnels[i] != tunnels[j]
      modifies this
      ensures Valid()
      ensures live == LiveAfter(old(live), conf, tunnels, rows)
      ensures routes == RoutesAfter(old(routes), old(live), conf, tunnels, rows)
    {
      LocalNetsMembers(tunnels, rows);
      var parsed := LocalNets(tunnels, rows);
      if parsed.Some? {
        TrimAll(tunnels, parsed.value, conf);
      }
    }

    /** The guard's loop over the tunnels. */
    method TrimAll(tunnels: seq<string>, local: seq<Net>, conf: map<string, string>)
      requires Valid() && ValidNets(local)
      requires forall t :: t in live <==> t in tunnels
      requires forall i, j :: 0 <= i < j < |tunnels| ==> tunnels[i] != tunnels[j]
      modifies this
      ensures Valid()
      ensures live == TrimLive(old(live), conf, local, old(live).Keys)
      ensures routes == TrimRoutes(old(routes), old(live), conf, local, old(live).Keys)
    {
      ghost var before, table, done := live, routes, {};
      for i := 0 to |tunnels|
        invariant Valid()
        invariant forall t :: t in done <==> t in tunnels[..i]
        invariant live == TrimLive(before, conf, local, done)
        invariant routes == TrimRoutes(table, before, conf, local, done)
      {
        var t := tunnels[i];
        assert t in tunnels && t !in tunnels[..i];
        TrimStep(before, table, conf, local, done, t);
        TrimIfClient(t, local, conf);
        done := done + {t};
      }
      assert done == before.Keys;
    }

    method TrimIfClient(tunnel: string, local: seq<Net>, conf: map<string, string>)
      requires Valid() && tunnel in live && ValidNets(local)
      modifies this
      ensures Valid()
      ensures live == if IsClient(conf, tunnel) then old(live)[tunnel := TrimPeers(old(live)[tunnel], local)] else old(live)
      ensures routes == if IsClient(conf, tunnel) then RoutesLeft(old(routes), tunnel, old(live)[tunnel], local) else old(routes)
    {
      if IsClient(conf, tunnel) {
        TrimTunnel(tunnel, local);
      }
    }
  }

  /** Trimming one more tunnel. */
  lemma TrimStep(live: map<string, seq<LivePeer>>, routes: set<Route>, conf: map<string, string>, local: seq<Net>, done: set<string>, t: string)
    requires ValidLive(live) && ValidNets(local) && t in live && t !in done
    ensures var before, after := TrimLive(live, conf, local, done), TrimLive(live, conf, local, done + {t});
            before[t] == live[t] && after == if IsClient(conf, t) then before[t := TrimPeers(live[t], local)] else before
    ensures var before, after := TrimRoutes(routes, live, conf, local, done), TrimRoutes(routes, live, conf, local, done + {t});
            after == if IsClient(conf, t) then RoutesLeft(before, t, live[t], local) else before
  {
  }

  /** The words of one `wg show allowed-ips` line after the key: a peer without ranges prints
      "(none)", which does not parse. */
  function ArgsOf(ranges: seq<Range>): (args: seq<Option<Range>>)
    ensures ValidRanges(ranges) ==> ValidArgs(args)
  {
    if ranges == [] then [None] else seq(|ranges|, i requires 0 <= i < |ranges| => Some(ranges[i]))
  }

  lemma {:induction false} ParsedAll(ranges: seq<Range>)
    ensures Parsed(seq(|ranges|, i requires 0 <= i < |ranges| => Some(ranges[i]))) == ranges
  {
    if ranges != [] {
      var n := |ranges| - 1;
      var args := seq(|ranges|, i requires 0 <= i < |ranges| => Some(ranges[i]));
      ParsedAll(ranges[..n]);
      assert args[..n] == seq(n, i requires 0 <= i < n => Some(ranges[..n][i]));
      assert ranges[..n] + [ranges[n]] == ranges;
    }
  }

  lemma ParsedArgs(ranges: seq<Range>)
    ensures Parsed(ArgsOf(ranges)) == ranges
  {
    if ranges == [] {
      assert ArgsOf(ranges)[..0] == [];
    } else {
      ParsedAll(ranges);
    }
  }

  lemma DropsRouteSnoc(peers: seq<LivePeer>, p: LivePeer, local: seq<Net>)
    requires ValidPeers(peers) && ValidRanges(p.ranges) && ValidNets(local)
    ensures forall net :: DropsRoute(peers + [p], local, net) <==> DropsRoute(peers, local, net) || net in Dropped(p.ranges, local)
  {
    forall net ensures DropsRoute(peers + [p], local, net) <==> DropsRoute(peers, local, net) || net in Dropped(p.ranges, local) {
      var all := peers + [p];
      assert all[|peers|] == p && forall i :: 0 <= i < |peers| ==> all[i] == peers[i];
    }
  }

  lemma NoRoutesLeft(routes: set<Route>, dev: string, local: seq<Net>)
    requires ValidNets(local)
    ensures RoutesLeft(routes, dev, [], local) == routes
  {
  }

  /** One more place of a list taken from another. */
  lemma NextPeer(listed: seq<LivePeer>, goal: seq<LivePeer>, i: nat)
    requires i < |listed| == |goal|
    ensures (goal[..i] + listed[i..])[i] == listed[i]
    ensures (goal[..i] + listed[i..])[i := goal[i]] == goal[..i + 1] + listed[i + 1..]
  {
  }

  // ---------------------------------------------------------------- what the guard achieves

  predicate HasRange(peers: seq<LivePeer>, r: Range) {
    exists i :: 0 <= i < |peers| && r in peers[i].ranges
  }

  /** One main-table route per live range: every route over a client tunnel's device is for
      one of its ranges. */
  predicate RoutesFollowRanges(live: map<string, seq<LivePeer>>, routes: set<Route>, conf: map<string, string>) {
    forall r :: r in routes && r.dev in live && IsClient(conf, r.dev) ==> HasRange(live[r.dev], r.net)
  }

  lemma LiveRangeIsClear(peers: seq<LivePeer>, local: seq<Net>, r: Range, address: nat, l: Net)
    requires ValidPeers(peers) && ValidNets(local) && l in local && In(address, l)
    requires HasRange(TrimPeers(peers, local), r)
    ensures ValidRange(r) && !Covers(r, address)
  {
    var after := TrimPeers(peers, local);
    var i :| 0 <= i < |after| && r in after[i].ranges;
    SelectMembers(peers[i].ranges, local, false);
    var k :| 0 <= k < |local| && local[k] == l;
    assert !Clashes(r, local[k]);
    if r.V4? {
      OverlapIffShared(r.net, l);
    }
  }

  lemma RouteIsClear(peers: seq<LivePeer>, local: seq<Net>, r: Range, address: nat, l: Net)
    requires ValidPeers(peers) && ValidNets(local) && l in local && In(address, l)
    requires HasRange(peers, r) && !DropsRoute(peers, local, r)
    ensures ValidRange(r) && !Covers(r, address)
  {
    var i :| 0 <= i < |peers| && r in peers[i].ranges;
    var ranges := peers[i].ranges;
    SelectMembers(ranges, local, true);
    SelectMembers(ranges, local, false);
    assert r !in Dropped(ranges, local);
    assert r in TrimPeers(peers, local)[i].ranges;
    LiveRangeIsClear(peers, local, r, address, l);
  }

  ghost predicate RangesFree(live: map<string, seq<LivePeer>>, conf: map<string, string>, address: nat) {
    forall t: string :: t in live && IsClient(conf, t) ==> PeersFree(live[t], address)
  }

  ghost predicate RoutesFree(devs: set<string>, routes: set<Route>, conf: map<string, string>, address: nat) {
    forall r: Route :: r in routes && r.dev in devs && IsClient(conf, r.dev) ==> ValidRange(r.net) && !Covers(r.net, address)
  }

  /** No live range of a client tunnel, and no route into one, covers the address. */
  ghost predicate Free(live: map<string, seq<LivePeer>>, routes: set<Route>, conf: map<string, string>, address: nat) {
    RangesFree(live, conf, address) && RoutesFree(live.Keys, routes, conf, address)
  }

  lemma TrimFreesRanges(live: map<string, seq<LivePeer>>, conf: map<string, string>, local: seq<Net>, address: nat, l: Net)
    requires ValidLive(live) && ValidNets(local) && l in local && In(address, l)
    ensures RangesFree(TrimLive(live, conf, local, live.Keys), conf, address)
  {
    var after := TrimLive(live, conf, local, live.Keys);
    forall t: string | t in after && IsClient(conf, t) ensures PeersFree(after[t], address) {
      assert after[t] == TrimPeers(live[t], local);
      TrimFreesPeers(live[t], local, address, l);
    }
  }

  ghost predicate PeersFree(peers: seq<LivePeer>, address: nat) {
    forall r: Range :: HasRange(peers, r) ==> ValidRange(r) && !Covers(r, address)
  }

  lemma TrimFreesPeers(peers: seq<LivePeer>, local: seq<Net>, address: nat, l: Net)
    requires ValidPeers(peers) && ValidNets(local) && l in local && In(address, l)
    ensures PeersFree(TrimPeers(peers, local), address)
  {
    forall r: Range | HasRange(TrimPeers(peers, local), r) ensures ValidRange(r) && !Covers(r, address) {
      LiveRangeIsClear(peers, local, r, address, l);
    }
  }

  lemma TrimFreesRoutes(live: map<string, seq<LivePeer>>, routes: set<Route>, conf: map<string, string>, local: seq<Net>, address: nat, l: Net)
    requires ValidLive(live) && ValidNets(local) && RoutesFollowRanges(live, routes, conf)
    requires l in local && In(address, l)
    ensures RoutesFree(live.Keys, TrimRoutes(routes, live, conf, local, live.Keys), conf, address)
  {
    var left := TrimRoutes(routes, live, conf, local, live.Keys);
    forall r: Route | r in left && r.dev in live.Keys && IsClient(conf, r.dev) ensures ValidRange(r.net) && !Covers(r.net, address) {
      RouteIsClear(live[r.dev], local, r.net, address, l);
    }
  }

  /** The row is of a directly connected subnet outside WireGuard that holds the address. */
  predicate Connects(row: LinkRoute, tunnels: seq<string>, address: nat)
    requires row.net.Some? ==> ValidNet(row.net.value)
  {
    row.dev !in tunnels && row.net.Some? && In(address, row.net.value)
  }

  /** Every address of every directly connected subnet is free of client tunnels. */
  ghost predicate LanFree(live: map<string, seq<LivePeer>>, routes: set<Route>, conf: map<string, string>, tunnels: seq<string>, rows: seq<LinkRoute>)
    requires ValidRows(rows)
  {
    forall address: nat, i :: 0 <= i < |rows| && Connects(rows[i], tunnels, address) ==> Free(live, routes, conf, address)
  }

  /** Every row outside WireGuard has a destination that parses. */
  predicate AllParse(tunnels: seq<string>, rows: seq<LinkRoute>) {
    forall i :: 0 <= i < |rows| && rows[i].dev !in tunnels ==> rows[i].net.Some?
  }

  /** After the guard no client tunnel covers any address of a directly connected subnet,
      exactly if every such route parses or none was covered before. */
  lemma GuardFreesTheLan(live: map<string, seq<LivePeer>>, routes: set<Route>, conf: map<string, string>, tunnels: seq<string>, rows: seq<LinkRoute>)
    requires ValidLive(live) && ValidRows(rows) && RoutesFollowRanges(live, routes, conf)
    ensures LanFree(LiveAfter(live, conf, tunnels, rows), RoutesAfter(routes, live, conf, tunnels, rows), conf, tunnels, rows)
            <==> AllParse(tunnels, rows) || LanFree(live, routes, conf, tunnels, rows)
  {
    LocalNetsMembers(tunnels, rows);
    var local := LocalNets(tunnels, rows);
    if local.Some? {
      forall address: nat, i | 0 <= i < |rows| && Connects(rows[i], tunnels, address)
        ensures Free(LiveAfter(live, conf, tunnels, rows), RoutesAfter(routes, live, conf, tunnels, rows), conf, address)
      {
        assert rows[i].net.value in local.value;
        TrimFreesRanges(live, conf, local.value, address, rows[i].net.value);
        TrimFreesRoutes(live, routes, conf, local.value, address, rows[i].net.value);
      }
    }
  }

  /** A point-to-point link with a default route is enough: the home network, which the client
      tunnel takes, stays taken. */
  lemma GuardCanBeSwitchedOff(conf: map<string, string>, key: string)
    requires IsClient(conf, "wg0")
    ensures var home := Net(0xC0A8_0100, 24);
            var rows := [LinkRoute("eth0", Some(home)), LinkRoute("ppp0", None)];
            var live, routes := map["wg0" := [LivePeer(key, [V4(home)])]], {Route(V4(home), "wg0")};
      && ValidLive(live) && ValidRows(rows) && RoutesFollowRanges(live, routes, conf)
      && !LanFree(LiveAfter(live, conf, ["wg0"], rows), RoutesAfter(routes, live, conf, ["wg0"], rows), conf, ["wg0"], rows)
  {
    var home := Net(0xC0A8_0100, 24);
    assert Size(24) == 256 by { assert Pow2(8) == 256; }
    var rows := [LinkRoute("eth0", Some(home)), LinkRoute("ppp0", None)];
    var peers: seq<LivePeer> := [LivePeer(key, [V4(home)])];
    var live: map<string, seq<LivePeer>> := map["wg0" := peers];
    var routes := {Route(V4(home), "wg0")};
    assert ValidNet(home);
    InIsInterval(0xC0A8_0100, home);
    assert V4(home) in peers[0].ranges && HasRange(peers, V4(home));
    assert !Free(live, routes, conf, 0xC0A8_0100);
    assert Connects(rows[0], ["wg0"], 0xC0A8_0100);
    assert !LanFree(live, routes, conf, ["wg0"], rows);
    assert rows[1].dev !in ["wg0"] && rows[1].net.None?;
    GuardFreesTheLan(live, routes, conf, ["wg0"], rows);
  }

  function Length(r: Range): nat { if r.V4? then r.net.len else 0 }

  /** Longest-prefix choice: the routes that match an address with no longer match beside them. */
  function BestRoutes(routes: set<Route>, address: nat): set<Route>
    requires forall r :: r in routes ==> ValidRange(r.net)
  {
    set r | r in routes && Covers(r.net, address)
      && forall q :: q in routes && Covers(q.net, address) ==> Length(q.net) <= Length(r.net)
  }

  /** Addresses outside the dropped ranges route as before. */
  lemma OtherTrafficUnmoved(live: map<string, seq<LivePeer>>, routes: set<Route>, conf: map<string, string>, local: seq<Net>, address: nat)
    requires ValidLive(live) && ValidNets(local)
    requires forall r :: r in routes ==> ValidRange(r.net)
    requires forall t: string, r: Range :: t in live && IsClient(conf, t) && DropsRoute(live[t], local, r)
               ==> ValidRange(r) && !Covers(r, address)
    ensures BestRoutes(TrimRoutes(routes, live, conf, local, live.Keys), address) == BestRoutes(routes, address)
  {
    var after := TrimRoutes(routes, live, conf, local, live.Keys);
    assert forall r :: r in routes && Covers(r.net, address) ==> r in after;
  }

  /** Tunnels that the guard does not take for clients keep every range and route. */
  lemma ServersUntouched(live: map<string, seq<LivePeer>>, routes: set<Route>, conf: map<string, string>, tunnels: seq<string>, rows: seq<LinkRoute>, t: string)
    requires ValidLive(live) && ValidRows(rows) && t in live && !IsClient(conf, t)
    ensures LiveAfter(live, conf, tunnels, rows)[t] == live[t]
    ensures forall r: Route :: r.dev == t ==> (r in RoutesAfter(routes, live, conf, tunnels, rows) <==> r in routes)
  {
    LocalNetsMembers(tunnels, rows);
  }

  /** A second run, with the same directly connected subnets, finds nothing to change. */
  lemma GuardTwice(live: map<string, seq<LivePeer>>, routes: set<Route>, conf: map<string, string>, tunnels: seq<string>, rows: seq<LinkRoute>)
    requires ValidLive(live) && ValidRows(rows)
    ensures var after, left := LiveAfter(live, conf, tunnels, rows), RoutesAfter(routes, live, conf, tunnels, rows);
      && ValidLive(after)
      && LiveAfter(after, conf, tunnels, rows) == after
      && RoutesAfter(left, after, conf, tunnels, rows) == left
  {
    LocalNetsMembers(tunnels, rows);
    var after := LiveAfter(live, conf, tunnels, rows);
    forall t: string | t in live && LocalNets(tunnels, rows).Some?
      ensures ValidPeers(after[t])
      ensures var local := LocalNets(tunnels, rows).value;
              IsClient(conf, t) ==> TrimPeers(after[t], local) == after[t] && forall r: Range :: !DropsRoute(after[t], local, r)
    {
      if IsClient(conf, t) {
        TrimPeersTwice(live[t], LocalNets(tunnels, rows).value);
      }
    }
  }

  lemma TrimPeersTwice(peers: seq<LivePeer>, local: seq<Net>)
    requires ValidPeers(peers) && ValidNets(local)
    ensures ValidPeers(TrimPeers(peers, local))
    ensures TrimPeers(TrimPeers(peers, local), local) == TrimPeers(peers, local)
    ensures forall r: Range :: !DropsRoute(TrimPeers(peers, local), local, r)
  {
    var after := TrimPeers(peers, local);
    forall i | 0 <= i < |after|
      ensures ValidRanges(after[i].ranges)
      ensures TrimPeer(after[i], local) == after[i] && Dropped(after[i].ranges, local) == []
    {
      SelectMembers(peers[i].ranges, local, false);
      KeepOfKept(Kept(peers[i].ranges, local), local);
    }
  }
}
