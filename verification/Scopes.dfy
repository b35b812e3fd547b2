/** The scope id of an IPv6 address may hold any character but % and /, and the library prints it
    back. What that does to a tunnel's file: for every command that passes the daemon's checks,
    exactly which scope ids keep the file as it is meant. */
module Scopes {
  import opened Text
  import opened WgKey
  import opened ConfText
  import opened ConfInfo
  import opened IpText
  import opened Entries
  import opened ClientTests
  import opened Helper

  // ---------------------------------------------------------------- adding a peer

  /** The command has been let through and has written the tunnel's file. */
  predicate Writes(c: Command, s: Store) {
    (c.AddPeer? || c.CreateTunnel?) && !FirstPiece(c, s).1.Refuse?
  }

  function Written(c: Command, s: Store): string
    requires Writes(c, s)
  {
    FirstPiece(c, s).0.files[c.name]
  }

  lemma WrittenIsAdd(c: Command, s: Store)
    requires c.AddPeer? && Writes(c, s)
    ensures Check(c).None? && c.name in s.files && AddPeerText(s.files[c.name], PeerOf(c)) == Ok(Written(c, s))
  {
  }

  lemma AddedBlocks(text: string, p: Peer)
    requires PrintedPeer(p) && AddPeerText(text, p).Ok?
    ensures var added := AddPeerText(text, p).value;
            Header(added) == Norm(Header(text)) && Blocks(added) == NormAll(Blocks(text)) + Split(Block(p))
    ensures if NoCut(Block(p)) then Split(Block(p)) == [Block(p)] else |Split(Block(p))| > 1
  {
    SplitAfterAdd(text, p);
    var parts := NormAll(Split(text));
    assert (parts + Split(Block(p)))[1..] == parts[1..] + Split(Block(p));
    assert parts[1..] == NormAll(Blocks(text));
    OneBlockIff(Block(p));
  }

  /** Exactly one block is new, if and only if no scope id holds a newline with a peer tag after
      it; otherwise there are more. */
  lemma AddIsOneBlockIff(c: Command, s: Store)
    requires c.AddPeer? && Writes(c, s)
    ensures var before, after := s.files[c.name], Written(c, s);
            var clean := forall i :: 0 <= i < |c.ranges| ==> !Contains(NetworkScope(c.ranges[i]), CUT);
      && Header(after) == Norm(Header(before))
      && (Blocks(after) == NormAll(Blocks(before)) + [Block(PeerOf(c))] <==> clean)
      && (|Blocks(after)| > |Blocks(before)| + 1 <==> !clean)
  {
    WrittenIsAdd(c, s);
    CheckedPeerIsValid(c);
    AddedBlocks(s.files[c.name], PeerOf(c));
  }

  /** The daemon reports the peer's ranges as they were printed, and nothing else that is new, if
      and only if no scope id holds a newline or a comma. */
  lemma AddReportsIff(c: Command, s: Store)
    requires c.AddPeer? && Writes(c, s)
    ensures var before := InfoOf(s.files[c.name]);
            InfoOf(Written(c, s)) == before.(ranges := before.ranges + PeerOf(c).ranges)
            <==> forall i :: 0 <= i < |c.ranges| ==> Inline(NetworkScope(c.ranges[i]))
  {
    CheckedPeerIsValid(c);
    AddPeerReport(s.files[c.name], PeerOf(c));
  }

  lemma GrepOfText(p: Printed)
    requires Based(p)
    ensures GrepEndpoint(TextOf(p), false) <==> GrepEndpoint(p.scope, false)
  {
    var digits := Decimal(p.len);
    var front := p.base + (if p.scope != "" then "%" + p.scope else "");
    NothingWithinALine(digits);
    GrepOfPieces(front, '/', digits, false);
    assert front + ['/'] + digits == TextOf(p);
    if p.scope != "" {
      GrepBehind(p.base + "%", p.scope);
      assert p.base + "%" + p.scope == front;
    } else {
      NothingWithinALine(p.base);
      assert front == p.base;
    }
  }

  /** The guard takes the tunnel for what it was, or for a client if a scope id has an Endpoint
      line inside. */
  lemma AddRoleIff(c: Command, s: Store)
    requires c.AddPeer? && Writes(c, s)
    ensures GuardSaysClient(Written(c, s)) <==>
              GuardSaysClient(s.files[c.name]) || exists i :: 0 <= i < |c.ranges| && GrepEndpoint(NetworkScope(c.ranges[i]), false)
  {
    var texts := PeerOf(c).ranges;
    CheckedPeerIsPrinted(c);
    AddKeepsRole(s.files[c.name], PeerOf(c));
    forall i | 0 <= i < |texts|
      ensures GrepEndpoint(texts[i], false) <==> GrepEndpoint(NetworkScope(c.ranges[i]), false)
    {
      PrintedIsBased(c.ranges[i]);
      GrepOfText(PrintedNetwork(AddressOf(c.ranges[i]).value));
    }
  }

  // ---------------------------------------------------------------- creating a tunnel

  /** A new tunnel's file reads back as it is meant if and only if its address keeps no newline; it
      has no peer section, and is a server's for the guard, exactly if the scope id allows it. */
  lemma NewTunnelIff(c: Command, s: Store)
    requires c.CreateTunnel? && Writes(c, s)
    ensures Usable(c.address)
    ensures var text, scope := Written(c, s), InterfaceScope(c.address);
      && (InfoOf(text) == Info(false, Some(InterfaceText(c.address)), None, []) <==> '\n' !in scope)
      && (Blocks(text) == [] <==> !Contains(scope, CUT))
      && (GuardSaysClient(text) <==> GrepEndpoint(scope, false))
  {
    var p := PrintedInterface(AddressOf(c.address).value);
    PrintedIsBased(c.address);
    TextIsSafeIff(p);
    TextHasChar(p, '\n');
    GrepOfText(p);
    TunnelConfReadsBack(c.privateKey, InterfaceText(c.address), c.port);
    TunnelConfRepresents(c.privateKey, InterfaceText(c.address), c.port);
    NewTunnelIsServer(c.privateKey, InterfaceText(c.address), c.port);
  }

  // ---------------------------------------------------------------- requests for which it fails

  const TAG_SCOPE := "a" + CUT

  const ENDPOINT_SCOPE := "a\n" + "Endpoint = b"

  /** Any IPv6 address in full length may have such a scope id. */
  lemma ScopesAreKept(ip: nat)
    requires ip < Top(8)
    ensures Usable(HostEntry(ip, TAG_SCOPE)) && NetworkScope(HostEntry(ip, TAG_SCOPE)) == TAG_SCOPE == InterfaceScope(HostEntry(ip, TAG_SCOPE))
    ensures Usable(HostEntry(ip, ENDPOINT_SCOPE))
    ensures NetworkScope(HostEntry(ip, ENDPOINT_SCOPE)) == ENDPOINT_SCOPE == InterfaceScope(HostEntry(ip, ENDPOINT_SCOPE))
  {
    assert '%' !in TAG_SCOPE && '/' !in TAG_SCOPE && '\r' !in TAG_SCOPE;
    assert '%' !in ENDPOINT_SCOPE && '/' !in ENDPOINT_SCOPE && '\r' !in ENDPOINT_SCOPE;
    ScopeIsKept(ip, TAG_SCOPE);
    ScopeIsKept(ip, ENDPOINT_SCOPE);
    PlainLineEnds(TAG_SCOPE);
    PlainLineEnds(ENDPOINT_SCOPE);
  }

  lemma TagScopeIsCut()
    ensures Contains(TAG_SCOPE, CUT)
  {
    assert TAG_SCOPE[1..1 + |CUT|] == CUT;
    assert OccursAt(TAG_SCOPE, CUT, 1);
  }

  lemma EndpointScopeIsNotCut()
    ensures !Contains(ENDPOINT_SCOPE, CUT) && GrepEndpoint(ENDPOINT_SCOPE, false)
  {
    var s := ENDPOINT_SCOPE;
    NoCutIsNoOccurrence(s);
    assert s[2..] == "Endpoint = b";
    forall i | 0 <= i < |s| ensures !CutAt(s, i) {
      if i == 1 {
        assert s[2..][0] == 'E';
      }
    }
    EndpointLine("b");
    GrepFindsKinds("Endpoint = " + "b", true);
    GrepOfLines("a", "Endpoint = " + "b", false);
    assert "a" + "\n" + ("Endpoint = " + "b") == s;
  }

  lemma EndpointLine(v: string)
    ensures StartsAs("Endpoint = " + v, Valued)
  {
    var s := "Endpoint = " + v;
    assert SkipBlank(s) == s && "Endpoint" <= s;
    assert s[8..] == " = " + v && (" = " + v)[1..] == "= " + v && ("= " + v)[1..] == " " + v;
    assert SkipBlank(s[8..]) == "= " + v;
    assert AfterEquals(s) == " " + v && ' ' in " " + v;
  }

  /** A new peer for an existing tunnel, with one range and nothing else. */
  predicate PlainAdd(c: Command, s: Store, e: Entry) {
    && c.AddPeer? && c.ranges == [e] && ValidName(c.name) && Accepts(c.key) && c.psk.None? && c.keepalive.None?
    && c.name in s.files && !AnyNames(Blocks(s.files[c.name]), c.key)
  }

  lemma PlainAddWrites(c: Command, s: Store, e: Entry)
    requires PlainAdd(c, s, e) && Usable(e)
    ensures Writes(c, s)
  {
  }

  /** One accepted range, more than one new block. */
  lemma TagInAScope(c: Command, s: Store, ip: nat)
    requires ip < Top(8) && PlainAdd(c, s, HostEntry(ip, TAG_SCOPE))
    ensures Writes(c, s) && |Blocks(Written(c, s))| > |Blocks(s.files[c.name])| + 1
  {
    ScopesAreKept(ip);
    TagScopeIsCut();
    PlainAddWrites(c, s, HostEntry(ip, TAG_SCOPE));
    AddIsOneBlockIff(c, s);
    assert Contains(NetworkScope(c.ranges[0]), CUT);
  }

  lemma {:induction false} LaterLine(a: string, b: string, lineStart: bool, kind: Kind)
    requires SomeLine(b, true, kind)
    ensures SomeLine(a + "\n" + b, lineStart, kind)
    decreases |a|
  {
    var s := a + "\n" + b;
    if a == "" {
      assert s[1..] == b;
    } else {
      assert s[1..] == a[1..] + "\n" + b;
      LaterLine(a[1..], b, a[0] == '\n', kind);
    }
  }

  lemma BlockWithEndpoint(p: Peer, base: string, rest: string)
    requires CommaJoin(p.ranges) == base + ("%" + ENDPOINT_SCOPE) + rest
    ensures Matches(Block(p), "Endpoint", true) != []
  {
    var front, line := BlockFront(p) + (base + "%a"), "Endpoint = " + ("b" + rest + BlockBack(p));
    BlockInPieces(p);
    assert base + ("%" + ENDPOINT_SCOPE) + rest == base + "%a" + "\n" + ("Endpoint = " + ("b" + rest));
    Rejoin(BlockFront(p), base + "%a", "\n", "Endpoint = ", "b" + rest, BlockBack(p));
    EndpointLine("b" + rest + BlockBack(p));
    LaterLine(front, line, true, Valued);
    PatternFindsKinds(Block(p), true);
  }

  lemma Rejoin(a: string, b: string, c: string, d: string, e: string, f: string)
    ensures a + (b + c + (d + e)) + f == a + b + c + (d + (e + f))
  {
    assert b + c + (d + e) == b + (c + (d + e));
    assert a + (b + (c + (d + e))) + f == a + b + (c + (d + e)) + f;
    assert a + b + (c + (d + e)) + f == a + b + c + (d + e) + f;
    assert a + b + c + (d + e) + f == a + b + c + (d + e + f);
  }

  /** One accepted range, and any server's file becomes a client's, for the guard and the daemon. */
  lemma EndpointInAScope(c: Command, s: Store, ip: nat)
    requires ip < Top(8) && PlainAdd(c, s, HostEntry(ip, ENDPOINT_SCOPE))
    ensures Writes(c, s) && GuardSaysClient(Written(c, s)) && InfoOf(Written(c, s)).client
  {
    var e := HostEntry(ip, ENDPOINT_SCOPE);
    ScopesAreKept(ip);
    PlainAddWrites(c, s, e);
    EndpointForTheGuard(c, s, e);
    EndpointForTheDaemon(c, s, e);
  }

  lemma EndpointForTheGuard(c: Command, s: Store, e: Entry)
    requires c.AddPeer? && c.ranges == [e] && Writes(c, s) && Usable(e) && NetworkScope(e) == ENDPOINT_SCOPE
    ensures GuardSaysClient(Written(c, s))
  {
    EndpointScopeIsNotCut();
    AddRoleIff(c, s);
    assert GrepEndpoint(NetworkScope(c.ranges[0]), false);
  }

  lemma EndpointForTheDaemon(c: Command, s: Store, e: Entry)
    requires c.AddPeer? && c.ranges == [e] && Writes(c, s) && Usable(e) && NetworkScope(e) == ENDPOINT_SCOPE
    ensures InfoOf(Written(c, s)).client
  {
    EndpointScopeIsNotCut();
    AddIsOneBlockIff(c, s);
    OneRangePrints(c, e);
    OneEndpointInside(PeerOf(c), PrintedNetwork(AddressOf(e).value));
    var n := |Blocks(s.files[c.name])|;
    assert Blocks(Written(c, s)) == NormAll(Blocks(s.files[c.name])) + [Block(PeerOf(c))];
    LastBlockEndpoint(Written(c, s), n, PeerOf(c));
  }

  lemma OneRangePrints(c: Command, e: Entry)
    requires c.AddPeer? && c.ranges == [e] && Usable(e)
    ensures PeerOf(c).ranges == [NetworkText(e)]
  {
    NetworkTextsAt(c.ranges);
  }

  lemma LastBlockEndpoint(text: string, n: nat, p: Peer)
    requires n < |Blocks(text)| && Blocks(text)[n] == Block(p) && Matches(Block(p), "Endpoint", true) != []
    ensures InfoOf(text).client
  {
    EndpointOfBlocksSome(Blocks(text));
  }

  lemma OneEndpointInside(p: Peer, printed: Printed)
    requires p.ranges == [TextOf(printed)] && printed.scope == ENDPOINT_SCOPE
    ensures Matches(Block(p), "Endpoint", true) != []
  {
    var digits := "/" + Decimal(printed.len);
    assert CommaJoin(p.ranges) == TextOf(printed) == printed.base + ("%" + ENDPOINT_SCOPE) + digits;
    BlockWithEndpoint(p, printed.base, digits);
  }

  /** A new tunnel with a peer section that nobody added, or a client's for the guard. */
  lemma ScopeInAnAddress(c: Command, s: Store, ip: nat)
    requires ip < Top(8) && c.CreateTunnel? && ValidName(c.name) && Accepts(c.privateKey) && 1024 <= c.port <= 65535 && c.name !in s.files
    ensures c.address == HostEntry(ip, TAG_SCOPE) ==> Writes(c, s) && Blocks(Written(c, s)) != []
    ensures c.address == HostEntry(ip, ENDPOINT_SCOPE) ==> Writes(c, s) && GuardSaysClient(Written(c, s))
  {
    ScopesAreKept(ip);
    TagScopeIsCut();
    EndpointScopeIsNotCut();
    if Writes(c, s) {
      NewTunnelIff(c, s);
    }
  }

  /** A keepalive of true passes the check and is printed as True. */
  lemma TrueIsAKeepalive(c: Command, s: Store)
    requires c.AddPeer? && Writes(c, s) && c.keepalive == Some(Truth(true)) && CleanScopes(c)
    ensures Matches(Block(PeerOf(c)), "PersistentKeepalive", true) == ["True"]
    ensures Block(PeerOf(c)) in Blocks(Written(c, s))
  {
    WrittenIsAdd(c, s);
    CheckedPeerIsValid(c);
    TrueInABlock(PeerOf(c));
    AddedBlocks(s.files[c.name], PeerOf(c));
    assert Block(PeerOf(c)) in Split(Block(PeerOf(c)));
  }

  lemma TrueInABlock(p: Peer)
    requires ValidPeer(p) && p.keepalive == "True"
    ensures NoCut(Block(p)) && Matches(Block(p), "PersistentKeepalive", true) == ["True"]
  {
    BlockShape(p);
    BlockSettings(p, "PersistentKeepalive");
  }
}
