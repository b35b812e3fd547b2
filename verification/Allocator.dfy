/** How a new peer gets its tunnel address: the first host of the tunnel's subnet that
    neither the server nor another peer uses. */
module Allocator {
  import opened Text
  import opened Ipv4

  // ---------------------------------------------------------------- the usable hosts

  /** network.hosts() runs from here ... */
  function FirstHost(n: Net): nat { if n.len >= 31 then n.base else n.base + 1 }

  /** ... up to, but not including, here. */
  function HostsEnd(n: Net): nat
    requires n.len <= 32
    ensures FirstHost(n) <= HostsEnd(n)
  {
    PrefixHasHosts(n.len);
    if n.len >= 31 then n.base + Size(n.len) else Broadcast(n)
  }

  lemma PrefixHasHosts(len: nat)
    requires len <= 32
    ensures len == 31 ==> Size(len) == 2
    ensures len == 32 ==> Size(len) == 1
    ensures len <= 30 ==> Size(len) >= 4
  {
    if len <= 30 {
      Pow2Sum(30 - len, 2);
      assert Pow2(2) == 4;
    }
  }

  predicate Usable(address: nat, n: Net)
    requires n.len <= 32
  {
    FirstHost(n) <= address < HostsEnd(n)
  }

  lemma UsableIsAddress(address: nat, n: Net)
    requires ValidNet(n) && Usable(address, n)
    ensures address < ADDRESSES
  {
    NetFits(n);
  }

  // ---------------------------------------------------------------- the scan

  /** The first host not in use, or none. */
  function FirstFree(from: nat, end: nat, used: set<nat>): (r: Option<nat>)
    requires from <= end
    ensures r.Some? ==> from <= r.value < end && r.value !in used
    decreases end - from
  {
    if from == end then None
    else if from !in used then Some(from)
    else FirstFree(from + 1, end, used)
  }

  lemma {:induction false} FirstFreeIsLowest(from: nat, end: nat, used: set<nat>)
    requires from <= end
    ensures forall h :: from <= h < (if FirstFree(from, end, used).Some? then FirstFree(from, end, used).value else end) ==> h in used
    decreases end - from
  {
    if from < end && from in used {
      FirstFreeIsLowest(from + 1, end, used);
    }
  }

  function Used(server: Iface, peers: seq<nat>): set<nat> {
    {server.ip} + set i | 0 <= i < |peers| :: peers[i]
  }

  function NextAddress(server: Iface, peers: seq<nat>): Option<nat>
    requires ValidIface(server)
  {
    var n := NetworkOf(server);
    FirstFree(FirstHost(n), HostsEnd(n), Used(server, peers))
  }

  /** The address given is a usable host that nobody has, and the lowest one. */
  lemma NextIsLowestFree(server: Iface, peers: seq<nat>)
    requires ValidIface(server)
    ensures var n, next := NetworkOf(server), NextAddress(server, peers);
      && (next.Some? ==> Usable(next.value, n) && next.value != server.ip && next.value !in peers)
      && (forall h: nat :: Usable(h, n) && (next.Some? ==> h < next.value) ==> h == server.ip || h in peers)
  {
    var n := NetworkOf(server);
    FirstFreeIsLowest(FirstHost(n), HostsEnd(n), Used(server, peers));
    assert forall h :: h in Used(server, peers) <==> h == server.ip || h in peers;
  }

  method AllocatePeerAddress(server: Iface, peers: seq<nat>) returns (r: Option<nat>)
    requires ValidIface(server)
    ensures r == NextAddress(server, peers)
  {
    var network := NetworkOf(server);
    var used := Used(server, peers);
    var host, end := FirstHost(network), HostsEnd(network);
    while host < end
      invariant FirstHost(network) <= host <= end
      invariant FirstFree(FirstHost(network), end, used) == FirstFree(host, end, used)
    {
      if host !in used {
        return Some(host);
      }
      host := host + 1;
    }
    return None;
  }

  // ---------------------------------------------------------------- what every run keeps

  predicate Distinct(peers: seq<nat>) {
    forall i, j :: 0 <= i < j < |peers| ==> peers[i] != peers[j]
  }

  /** Distinct usable hosts of the subnet, none the server's own. */
  predicate Good(server: Iface, peers: seq<nat>)
    requires ValidIface(server)
  {
    && Distinct(peers)
    && forall i :: 0 <= i < |peers| ==> Usable(peers[i], NetworkOf(server)) && peers[i] != server.ip
  }

  datatype Request = AddPeer | RemovePeer(index: nat)

  function Apply(server: Iface, peers: seq<nat>, r: Request): seq<nat>
    requires ValidIface(server)
  {
    match r
    case AddPeer =>
      var next := NextAddress(server, peers);
      if next.Some? then peers + [next.value] else peers
    case RemovePeer(i) =>
      if i < |peers| then peers[..i] + peers[i + 1..] else peers
  }

  function ApplyAll(server: Iface, peers: seq<nat>, requests: seq<Request>): seq<nat>
    requires ValidIface(server)
    decreases |requests|
  {
    if requests == [] then peers
    else ApplyAll(server, Apply(server, peers, requests[0]), requests[1..])
  }

  lemma ApplyKeepsGood(server: Iface, peers: seq<nat>, r: Request)
    requires ValidIface(server) && Good(server, peers)
    ensures Good(server, Apply(server, peers, r))
  {
    var after := Apply(server, peers, r);
    match r {
      case AddPeer =>
        if NextAddress(server, peers).Some? {
          var a := NextAddress(server, peers).value;
          assert a !in Used(server, peers);
          forall i | 0 <= i < |peers| ensures peers[i] != a {
            assert peers[i] in Used(server, peers);
          }
        }
      case RemovePeer(i) =>
        forall j | 0 <= j < |after| ensures after[j] == peers[if i < |peers| && i <= j then j + 1 else j] {
        }
    }
  }

  /** Over every series of requests the addresses stay distinct usable hosts. */
  lemma {:induction false} RunsStayGood(server: Iface, peers: seq<nat>, requests: seq<Request>)
    requires ValidIface(server) && Good(server, peers)
    ensures Good(server, ApplyAll(server, peers, requests))
    decreases |requests|
  {
    if requests != [] {
      ApplyKeepsGood(server, peers, requests[0]);
      RunsStayGood(server, Apply(server, peers, requests[0]), requests[1..]);
    }
  }

  // ---------------------------------------------------------------- capacity

  function Interval(from: nat, end: nat): (r: set<nat>)
    requires from <= end
    ensures forall h :: h in r <==> from <= h < end
    ensures |r| == end - from
    decreases end - from
  {
    if from == end then {} else {from} + Interval(from + 1, end)
  }

  function Members(peers: seq<nat>): set<nat> { set i | 0 <= i < |peers| :: peers[i] }

  lemma {:induction false} MembersCard(peers: seq<nat>)
    requires Distinct(peers)
    ensures |Members(peers)| == |peers|
  {
    if peers != [] {
      var n := |peers| - 1;
      MembersCard(peers[..n]);
      assert Members(peers) == Members(peers[..n]) + {peers[n]} by {
        forall x | x in Members(peers) ensures x in Members(peers[..n]) + {peers[n]} {
          var i :| 0 <= i < |peers| && peers[i] == x;
          if i < n {
            assert peers[..n][i] == x;
          }
        }
        forall x | x in Members(peers[..n]) ensures x in Members(peers) {
          var i :| 0 <= i < n && peers[..n][i] == x;
          assert peers[i] == x;
        }
      }
      assert peers[n] !in Members(peers[..n]);
    }
  }

  lemma SubsetCard<T>(a: set<T>, b: set<T>)
    requires a <= b
    ensures |a| <= |b| && (|a| == |b| ==> a == b)
  {
    assert b == a + (b - a);
  }

  /** How many peers a tunnel can hold: its hosts, less the server's if that is one of them. */
  function Capacity(server: Iface): nat
    requires ValidIface(server)
  {
    var n := NetworkOf(server);
    HostsEnd(n) - FirstHost(n) - (if Usable(server.ip, n) then 1 else 0)
  }

  /** An allocation fails exactly when the tunnel is full, and it is never overfull. */
  lemma FailsExactlyWhenFull(server: Iface, peers: seq<nat>)
    requires ValidIface(server) && Good(server, peers)
    ensures |peers| <= Capacity(server)
    ensures NextAddress(server, peers).None? <==> |peers| == Capacity(server)
  {
    var n := NetworkOf(server);
    var hosts := Interval(FirstHost(n), HostsEnd(n));
    var own := if Usable(server.ip, n) then {server.ip} else {};
    var taken := Members(peers) + own;
    MembersCard(peers);
    assert server.ip !in Members(peers);
    assert |taken| == |peers| + |own|;
    assert taken <= hosts;
    SubsetCard(taken, hosts);
    FirstFreeIsLowest(FirstHost(n), HostsEnd(n), Used(server, peers));
    if NextAddress(server, peers).None? {
      forall h | h in hosts ensures h in taken {
        assert h in Used(server, peers);
      }
      assert taken == hosts;
    }
    if |peers| == Capacity(server) {
      assert taken == hosts;
      assert forall h :: h in hosts ==> h in Used(server, peers);
    }
  }

  /** A full tunnel has room again after any deletion, and the freed address is the next one given. */
  lemma DeletionMakesRoom(server: Iface, peers: seq<nat>, i: nat)
    requires ValidIface(server) && Good(server, peers) && |peers| == Capacity(server) && i < |peers|
    ensures NextAddress(server, Apply(server, peers, RemovePeer(i))) == Some(peers[i])
  {
    var after := Apply(server, peers, RemovePeer(i));
    var n := NetworkOf(server);
    ApplyKeepsGood(server, peers, RemovePeer(i));
    FailsExactlyWhenFull(server, peers);
    FailsExactlyWhenFull(server, after);
    var a := NextAddress(server, after).value;
    FirstFreeIsLowest(FirstHost(n), HostsEnd(n), Used(server, peers));
    assert a in Used(server, peers);
    assert server.ip in Used(server, after);
    forall j | 0 <= j < |peers| && j != i ensures peers[j] in Used(server, after) {
      assert after[if j < i then j else j - 1] == peers[j];
    }
  }

  /** In every series of requests from an empty tunnel: the count never passes the capacity,
      and the next allocation fails exactly at the capacity; up to /30, with a usable server
      address, that is the subnet's size less three. */
  lemma RunsFillExactly(server: Iface, requests: seq<Request>)
    requires ValidIface(server)
    ensures var peers := ApplyAll(server, [], requests);
            && Good(server, peers) && |peers| <= Capacity(server)
            && (NextAddress(server, peers).None? <==> |peers| == Capacity(server))
    ensures server.len <= 30 && Usable(server.ip, NetworkOf(server)) ==> Capacity(server) == Pow2(32 - server.len) - 3
  {
    RunsStayGood(server, [], requests);
    FailsExactlyWhenFull(server, ApplyAll(server, [], requests));
  }
}
