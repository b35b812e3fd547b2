/** The privileged helper daemon: .conf files on one side, live kernel peers on the other.
    Each command runs up to its first await in one piece, then an external program takes
    effect, then the rest of the command runs. */
module Helper {
  import opened Text
  import opened WgKey
  import opened ConfText
  import opened ConfInfo
  import opened IpText
  import opened Entries

  // ---------------------------------------------------------------- live peers

  /** The ranges of each live peer of one interface. */
  type Live = map<string, set<Range>>

  /** The networks that range texts stand for. */
  function RangeSet(ranges: seq<string>): set<Range> {
    set r | r in ranges && ParseRange(r).Some? :: ParseRange(r).value
  }

  /** wg set: the peer gets exactly these ranges, and every other peer loses them. */
  function PutLive(live: Live, key: string, ranges: set<Range>): Live {
    (map k | k in live :: live[k] - ranges)[key := ranges]
  }

  /** wg set ... remove. */
  function DropLive(live: Live, key: string): Live { live - {key} }

  /** Bringing an interface up configures the peers of its file in order. */
  function LiveOfBlocks(blocks: seq<string>): Live {
    if blocks == [] then map[]
    else
      var last := blocks[|blocks| - 1];
      var earlier := LiveOfBlocks(blocks[..|blocks| - 1]);
      var key := KeyOfBlock(last);
      if key.Some? then PutLive(earlier, key.value, RangeSet(RangesOfBlock(last))) else earlier
  }

  function LiveOf(conf: string): Live { LiveOfBlocks(Blocks(conf)) }

  // ---------------------------------------------------------------- what live peers should be

  function PeerMap(peers: seq<Peer>): Live {
    if peers == [] then map[]
    else PeerMap(peers[..|peers| - 1])[Bare(peers[|peers| - 1].key) := RangeSet(peers[|peers| - 1].ranges)]
  }

  /** Some range of one peer stands for the same network as one of the other. */
  predicate Overlap(p: Peer, q: Peer) { exists r :: r in RangeSet(p.ranges) && r in RangeSet(q.ranges) }

  /** Keys differ, and no two peers hold the same range. */
  predicate Apart(peers: seq<Peer>) {
    forall i, j :: 0 <= i < j < |peers| ==> !SameKey(peers[i].key, peers[j].key) && !Overlap(peers[i], peers[j])
  }

  lemma {:induction false} PeerMapAt(peers: seq<Peer>)
    requires Apart(peers)
    ensures forall k :: k in PeerMap(peers) <==> exists i :: 0 <= i < |peers| && Bare(peers[i].key) == k
    ensures forall i :: 0 <= i < |peers| ==> Bare(peers[i].key) in PeerMap(peers) && PeerMap(peers)[Bare(peers[i].key)] == RangeSet(peers[i].ranges)
  {
    if peers != [] {
      var n := |peers| - 1;
      var before, last := peers[..n], peers[n];
      assert forall i :: 0 <= i < n ==> before[i] == peers[i];
      PeerMapAt(before);
      var m := PeerMap(before);
      assert PeerMap(peers) == m[Bare(last.key) := RangeSet(last.ranges)];
      forall k ensures k in PeerMap(peers) <==> exists i :: 0 <= i < |peers| && Bare(peers[i].key) == k {
        if k in m {
          var i :| 0 <= i < |before| && Bare(before[i].key) == k;
          assert Bare(peers[i].key) == k;
        }
      }
      forall i | 0 <= i < |peers|
        ensures Bare(peers[i].key) in PeerMap(peers) && PeerMap(peers)[Bare(peers[i].key)] == RangeSet(peers[i].ranges)
      {
        if i < n {
          assert !SameKey(peers[i].key, last.key);
          assert Bare(before[i].key) in m;
        }
      }
    }
  }

  lemma PutIntoApart(peers: seq<Peer>, p: Peer)
    requires Apart(peers + [p])
    ensures PutLive(PeerMap(peers), Bare(p.key), RangeSet(p.ranges)) == PeerMap(peers + [p])
  {
    var all := peers + [p];
    assert all[..|peers|] == peers;
    assert Apart(peers) by {
      assert forall i :: 0 <= i < |peers| ==> all[i] == peers[i];
    }
    var m := PeerMap(peers);
    forall k | k in m && k != Bare(p.key) ensures m[k] - RangeSet(p.ranges) == m[k] {
      PeerMapAt(peers);
      var i :| 0 <= i < |peers| && Bare(peers[i].key) == k;
      assert all[i] == peers[i] && !Overlap(all[i], all[|peers|]);
    }
    assert PeerMap(all) == m[Bare(p.key) := RangeSet(p.ranges)];
  }

  /** An interface that comes up with a file of ours gives each peer its own ranges. */
  lemma {:induction false} UpGivesPeerMap(conf: string, header: string, peers: seq<Peer>)
    requires Represents(conf, header, peers) && Apart(peers)
    ensures LiveOf(conf) == PeerMap(peers)
  {
    PartsOfRepresented(conf, header, peers);
    LiveOfPrinted(peers);
  }

  lemma {:induction false} LiveOfPrinted(peers: seq<Peer>)
    requires Apart(peers) && forall i :: 0 <= i < |peers| ==> ValidPeer(peers[i])
    ensures LiveOfBlocks(BlocksOf(peers)) == PeerMap(peers)
  {
    if peers == [] {
      assert BlocksOf(peers) == [];
    } else {
      var front, last := peers[..|peers| - 1], peers[|peers| - 1];
      LiveOfPrinted(front);
      assert front + [last] == peers;
      OneMoreLive(front, last);
    }
  }

  lemma OneMoreLive(peers: seq<Peer>, p: Peer)
    requires Apart(peers + [p]) && ValidPeer(p) && LiveOfBlocks(BlocksOf(peers)) == PeerMap(peers)
    ensures LiveOfBlocks(BlocksOf(peers + [p])) == PeerMap(peers + [p])
  {
    LiveOfLast(peers, p);
    PutIntoApart(peers, p);
  }

  lemma LiveOfLast(peers: seq<Peer>, p: Peer)
    requires ValidPeer(p)
    ensures LiveOfBlocks(BlocksOf(peers + [p])) == PutLive(LiveOfBlocks(BlocksOf(peers)), Bare(p.key), RangeSet(p.ranges))
  {
    var blocks := BlocksOf(peers + [p]);
    assert blocks[..|peers|] == BlocksOf(peers) && blocks[|peers|] == Block(p);
    BlockGivesKey(p);
    BlockReadsBack(p);
  }

  // Peers whose keys have no trailing newline.

  predicate BareKeys(peers: seq<Peer>) { forall i :: 0 <= i < |peers| ==> '\n' !in peers[i].key }

  lemma BareIsSame(key: string)
    requires '\n' !in key
    ensures Bare(key) == key
  {
  }

  lemma PeerMapKeys(peers: seq<Peer>)
    requires Apart(peers) && BareKeys(peers)
    ensures forall k :: k in PeerMap(peers) <==> HasKey(peers, k) && '\n' !in k
    ensures forall i :: 0 <= i < |peers| ==> peers[i].key in PeerMap(peers) && PeerMap(peers)[peers[i].key] == RangeSet(peers[i].ranges)
    ensures forall k, m :: k in PeerMap(peers) && m in PeerMap(peers) && k != m ==> PeerMap(peers)[k] !! PeerMap(peers)[m]
  {
    PeerMapAt(peers);
    forall i | 0 <= i < |peers| ensures Bare(peers[i].key) == peers[i].key {
      BareIsSame(peers[i].key);
    }
    forall k ensures k in PeerMap(peers) <==> HasKey(peers, k) && '\n' !in k {
      if '\n' !in k {
        BareIsSame(k);
      }
    }
    forall k, m | k in PeerMap(peers) && m in PeerMap(peers) && k != m ensures PeerMap(peers)[k] !! PeerMap(peers)[m] {
      var i :| 0 <= i < |peers| && peers[i].key == k;
      var j :| 0 <= j < |peers| && peers[j].key == m;
      if i < j {
        assert !Overlap(peers[i], peers[j]);
      } else {
        assert !Overlap(peers[j], peers[i]);
      }
    }
  }

  lemma {:induction false} WithoutApart(peers: seq<Peer>, key: string)
    requires Apart(peers)
    ensures Apart(Without(peers, key))
  {
    if peers != [] {
      var rest := peers[1..];
      assert forall i :: 0 <= i < |rest| ==> rest[i] == peers[i + 1];
      WithoutApart(rest, key);
      WithoutMembers(rest, key);
      var kept := Without(rest, key);
      forall i | 0 <= i < |kept| ensures !SameKey(peers[0].key, kept[i].key) && !Overlap(peers[0], kept[i]) {
        assert kept[i] in rest;
        var j :| 0 <= j < |rest| && rest[j] == kept[i];
        assert !SameKey(peers[0].key, peers[j + 1].key);
      }
    }
  }

  lemma WithoutKeepsBare(peers: seq<Peer>, key: string)
    requires BareKeys(peers)
    ensures BareKeys(Without(peers, key))
  {
    WithoutMembers(peers, key);
    var rest := Without(peers, key);
    forall i | 0 <= i < |rest| ensures '\n' !in rest[i].key {
      assert rest[i] in peers;
    }
  }

  lemma FindPeer(peers: seq<Peer>, k: string) returns (i: nat)
    requires Apart(peers) && BareKeys(peers) && k in PeerMap(peers)
    ensures i < |peers| && peers[i].key == k && PeerMap(peers)[k] == RangeSet(peers[i].ranges)
  {
    PeerMapAt(peers);
    i :| 0 <= i < |peers| && Bare(peers[i].key) == k;
    BareIsSame(peers[i].key);
  }

  lemma PeerAt(peers: seq<Peer>, i: nat)
    requires Apart(peers) && BareKeys(peers) && i < |peers|
    ensures peers[i].key in PeerMap(peers) && PeerMap(peers)[peers[i].key] == RangeSet(peers[i].ranges)
  {
    PeerMapAt(peers);
    BareIsSame(peers[i].key);
  }

  lemma NotExpected(peers: seq<Peer>, key: string)
    requires Apart(peers) && BareKeys(peers) && '\n' !in key && !HasKey(peers, key)
    ensures key !in PeerMap(peers)
  {
    if key in PeerMap(peers) {
      var i := FindPeer(peers, key);
      assert SameKey(peers[i].key, key);
    }
  }

  lemma KeptPeer(peers: seq<Peer>, key: string, k: string)
    requires Apart(peers) && BareKeys(peers) && Apart(Without(peers, key)) && BareKeys(Without(peers, key))
    requires '\n' !in key && k in PeerMap(peers) && k != key
    ensures k in PeerMap(Without(peers, key)) && PeerMap(Without(peers, key))[k] == PeerMap(peers)[k]
  {
    var i := FindPeer(peers, k);
    BareIsSame(k);
    BareIsSame(key);
    WithoutMembers(peers, key);
    assert peers[i] in Without(peers, key);
    var j :| 0 <= j < |Without(peers, key)| && Without(peers, key)[j] == peers[i];
    PeerAt(Without(peers, key), j);
  }

  lemma GonePeer(peers: seq<Peer>, key: string, k: string)
    requires Apart(peers) && BareKeys(peers) && Apart(Without(peers, key)) && BareKeys(Without(peers, key))
    requires '\n' !in key && k in PeerMap(Without(peers, key))
    ensures k in PeerMap(peers) && k != key
  {
    var j := FindPeer(Without(peers, key), k);
    WithoutMembers(peers, key);
    assert Without(peers, key)[j] in peers;
    var i :| 0 <= i < |peers| && peers[i] == Without(peers, key)[j];
    PeerAt(peers, i);
  }

  lemma PeerMapWithout(peers: seq<Peer>, key: string)
    requires Apart(peers) && BareKeys(peers) && '\n' !in key
    ensures Apart(Without(peers, key)) && BareKeys(Without(peers, key))
    ensures PeerMap(Without(peers, key)) == PeerMap(peers) - {key}
  {
    WithoutApart(peers, key);
    WithoutKeepsBare(peers, key);
    forall k | k in PeerMap(peers) && k != key
      ensures k in PeerMap(Without(peers, key)) && PeerMap(Without(peers, key))[k] == PeerMap(peers)[k]
    {
      KeptPeer(peers, key, k);
    }
    forall k | k in PeerMap(Without(peers, key)) ensures k in PeerMap(peers) && k != key {
      GonePeer(peers, key, k);
    }
  }

  // The keys alone.

  function PeerKeys(peers: seq<Peer>): set<string> { set i | 0 <= i < |peers| :: peers[i].key }

  lemma PeerKeysWithout(peers: seq<Peer>, key: string)
    requires BareKeys(peers) && '\n' !in key
    ensures PeerKeys(Without(peers, key)) == PeerKeys(peers) - {key}
  {
    var rest := Without(peers, key);
    WithoutMembers(peers, key);
    BareIsSame(key);
    forall i | 0 <= i < |peers| ensures Bare(peers[i].key) == peers[i].key {
      BareIsSame(peers[i].key);
    }
    forall k | k in PeerKeys(rest) ensures k in PeerKeys(peers) - {key} {
      var j :| 0 <= j < |rest| && rest[j].key == k;
      assert rest[j] in peers;
    }
    forall k | k in PeerKeys(peers) && k != key ensures k in PeerKeys(rest) {
      var i :| 0 <= i < |peers| && peers[i].key == k;
      assert peers[i] in rest;
    }
  }

  lemma PeerKeysSnoc(peers: seq<Peer>, p: Peer)
    ensures PeerKeys(peers + [p]) == PeerKeys(peers) + {p.key}
  {
    var more := peers + [p];
    forall k | k in PeerKeys(peers) + {p.key} ensures k in PeerKeys(more) {
      if k in PeerKeys(peers) {
        var i :| 0 <= i < |peers| && peers[i].key == k;
        assert more[i].key == k;
      } else {
        assert more[|peers|].key == k;
      }
    }
  }

  // ---------------------------------------------------------------- requests

  datatype Action = Activate | Deactivate | Disconnect | UnknownAction

  /** A keepalive as JSON brings it. */
  datatype Keepalive = Count(n: int) | Truth(b: bool) | NoNumber

  /** A request as received. */
  datatype Command =
    | CreateTunnel(name: string, privateKey: string, address: Entry, port: int)
    | DeleteTunnel(name: string)
    | AddPeer(name: string, key: string, ranges: seq<Entry>, psk: Option<string>, keepalive: Option<Keepalive>)
    | RemovePeer(name: string, key: string)
    | SetTunnelState(name: string, action: Action)

  datatype HelperError =
    | InvalidName | InvalidPrivateKey | InvalidAddress | InvalidPort | TunnelExists | InvalidPublicKey
    | InvalidRanges | InvalidPsk | InvalidKeepalive | TunnelNotFound | DuplicatePeer | InvalidAction | ProgramFailed | WriteFailed

  predicate NameChar(c: char) {
    'A' <= c <= 'Z' || 'a' <= c <= 'z' || '0' <= c <= '9' || c == '_' || c == '-'
  }

  /** ^[a-zA-Z0-9_-]{1,15}$, with the final newline that `$` lets through. */
  predicate ValidName(s: string) {
    var body := if s != "" && s[|s| - 1] == '\n' then s[..|s| - 1] else s;
    1 <= |body| <= 15 && forall c :: c in body ==> NameChar(c)
  }

  /** The networks as they are printed. */
  function NetworkTexts(ranges: seq<Entry>): seq<string> {
    if ranges == [] then []
    else (if Usable(ranges[0]) then [NetworkText(ranges[0])] else []) + NetworkTexts(ranges[1..])
  }

  predicate AllUsable(ranges: seq<Entry>) { forall i :: 0 <= i < |ranges| ==> Usable(ranges[i]) }

  /** isinstance(keepalive, int) and 0 <= keepalive <= 3600: a truth value is an int. */
  predicate KeepaliveInRange(k: Keepalive) {
    match k
    case Count(n) => 0 <= n <= 3600
    case Truth(_) => true
    case NoNumber => false
  }

  /** What is printed for a keepalive; nothing for none, 0 and False. */
  function PrintedKeepalive(k: Option<Keepalive>): (s: string)
    ensures IsKeepalive(s)
  {
    if k.None? then ""
    else match k.value
      case Count(n) => if n > 0 then KeepaliveText(n) else ""
      case Truth(b) => if b then "True" else ""
      case NoNumber => ""
  }

  function PeerOf(c: Command): Peer
    requires c.AddPeer?
  {
    Peer(c.key, c.psk, NetworkTexts(c.ranges), PrintedKeepalive(c.keepalive))
  }

  /** The checks that a command makes before it looks at any file, in their order. */
  function Check(c: Command): Option<HelperError> {
    if !ValidName(c.name) then Some(InvalidName)
    else match c
      case CreateTunnel(_, privateKey, address, port) =>
        if !Accepts(privateKey) then Some(InvalidPrivateKey)
        else if !Usable(address) then Some(InvalidAddress)
        else if !(1024 <= port <= 65535) then Some(InvalidPort)
        else None
      case DeleteTunnel(_) => None
      case AddPeer(_, key, ranges, psk, keepalive) =>
        if !Accepts(key) then Some(InvalidPublicKey)
        else if ranges == [] || !AllUsable(ranges) then Some(InvalidRanges)
        else if psk.Some? && !Accepts(psk.value) then Some(InvalidPsk)
        else if keepalive.Some? && !KeepaliveInRange(keepalive.value) then Some(InvalidKeepalive)
        else None
      case RemovePeer(_, key) => if !Accepts(key) then Some(InvalidPublicKey) else None
      case SetTunnelState(_, action) => if action.UnknownAction? then Some(InvalidAction) else None
  }

  lemma {:induction false} NetworkTextsAt(ranges: seq<Entry>)
    requires AllUsable(ranges)
    ensures |NetworkTexts(ranges)| == |ranges| && forall i :: 0 <= i < |ranges| ==> NetworkTexts(ranges)[i] == NetworkText(ranges[i])
  {
    if ranges != [] {
      assert AllUsable(ranges[1..]);
      NetworkTextsAt(ranges[1..]);
    }
  }

  /** What passes the checks prints each range as the text of its network, and the live peer is
      given exactly the networks that were asked for. */
  lemma CheckedPeerIsPrinted(c: Command)
    requires c.AddPeer? && Check(c).None?
    ensures PrintedPeer(PeerOf(c)) && |PeerOf(c).ranges| == |c.ranges|
    ensures forall i :: 0 <= i < |c.ranges| ==> Usable(c.ranges[i]) && PeerOf(c).ranges[i] == NetworkText(c.ranges[i])
    ensures forall r :: r in RangeSet(PeerOf(c).ranges) <==> AsksFor(c.ranges, r)
  {
    NetworkTextsAt(c.ranges);
    var texts := NetworkTexts(c.ranges);
    forall i | 0 <= i < |texts| ensures Edged(texts[i]) {
      NetworkIsSafeIff(c.ranges[i]);
    }
    PrintedAreAsked(c.ranges);
  }

  /** One of the entries stands for the network. */
  predicate AsksFor(ranges: seq<Entry>, r: Range) {
    exists i :: 0 <= i < |ranges| && Usable(ranges[i]) && RangeOf(AddressOf(ranges[i]).value) == r
  }

  lemma PrintedAreAsked(ranges: seq<Entry>)
    requires AllUsable(ranges)
    ensures forall r :: r in RangeSet(NetworkTexts(ranges)) <==> AsksFor(ranges, r)
  {
    var texts := NetworkTexts(ranges);
    NetworkTextsAt(ranges);
    forall i | 0 <= i < |texts| ensures texts[i] in texts && ParseRange(texts[i]) == Some(RangeOf(AddressOf(ranges[i]).value)) {
      NetworkReadsBack(ranges[i]);
    }
  }

  /** The scope ids that stay in the printed ranges are in one line, without a comma, and hold no
      key's name. */
  predicate CleanScopes(c: Command)
    requires c.AddPeer?
  {
    forall i :: 0 <= i < |c.ranges| ==> Inline(NetworkScope(c.ranges[i])) && !Contains(NetworkScope(c.ranges[i]), KEY_NAME)
  }

  /** What passes the checks prints as one block, with ranges that read back, and in which no
      other key is found: each exactly if the scope ids allow it. */
  lemma CheckedPeerIsValid(c: Command)
    requires c.AddPeer? && Check(c).None?
    ensures PrintedPeer(PeerOf(c)) && (ValidPeer(PeerOf(c)) <==> CleanScopes(c))
    ensures NoCut(Block(PeerOf(c))) <==> forall i :: 0 <= i < |c.ranges| ==> !Contains(NetworkScope(c.ranges[i]), CUT)
    ensures Listable(PeerOf(c).ranges) <==> forall i :: 0 <= i < |c.ranges| ==> Inline(NetworkScope(c.ranges[i]))
  {
    CheckedPeerIsPrinted(c);
    BlockNoCutIff(PeerOf(c));
    TextsAreWholeIff(c.ranges);
    TextsAreInlineIff(c.ranges);
    TextsAreCleanIff(c.ranges);
  }

  lemma TextsAreWholeIff(ranges: seq<Entry>)
    requires AllUsable(ranges)
    ensures (forall r :: r in NetworkTexts(ranges) ==> NoCut(r)) <==> forall i :: 0 <= i < |ranges| ==> !Contains(NetworkScope(ranges[i]), CUT)
  {
    NetworkTextsAt(ranges);
    var texts := NetworkTexts(ranges);
    forall i | 0 <= i < |texts| ensures texts[i] in texts && (NoCut(texts[i]) <==> !Contains(NetworkScope(ranges[i]), CUT)) {
      NetworkIsSafeIff(ranges[i]);
    }
  }

  lemma TextsAreInlineIff(ranges: seq<Entry>)
    requires AllUsable(ranges)
    ensures (forall r :: r in NetworkTexts(ranges) ==> Edged(r) && Inline(r)) <==> forall i :: 0 <= i < |ranges| ==> Inline(NetworkScope(ranges[i]))
  {
    NetworkTextsAt(ranges);
    var texts := NetworkTexts(ranges);
    forall i | 0 <= i < |texts| ensures texts[i] in texts && Edged(texts[i]) && (Inline(texts[i]) <==> Inline(NetworkScope(ranges[i]))) {
      NetworkIsSafeIff(ranges[i]);
    }
  }

  lemma TextsAreCleanIff(ranges: seq<Entry>)
    requires AllUsable(ranges)
    ensures (forall r :: r in NetworkTexts(ranges) ==> Clean(r)) <==>
              forall i :: 0 <= i < |ranges| ==> Inline(NetworkScope(ranges[i])) && !Contains(NetworkScope(ranges[i]), KEY_NAME)
  {
    NetworkTextsAt(ranges);
    var texts := NetworkTexts(ranges);
    forall i | 0 <= i < |texts|
      ensures texts[i] in texts
      ensures Clean(texts[i]) <==> Inline(NetworkScope(ranges[i])) && !Contains(NetworkScope(ranges[i]), KEY_NAME)
    {
      NetworkIsSafeIff(ranges[i]);
    }
  }

  // ---------------------------------------------------------------- a command in pieces

  type Files = map<string, string>

  datatype Store = Store(files: Files, live: map<string, Live>)

  /** What the external program, that a command waits for, will do. */
  datatype Effect =
    | StopUnit(name: string)
    | StartUnit(name: string)
    | PutPeer(name: string, key: string, ranges: set<Range>)
    | DropPeer(name: string, key: string)

  datatype Next = Refuse(error: HelperError) | Finish | Await(effect: Effect)

  /** From the start of a command to its first await: checks, and all file changes but one. */
  function FirstPiece(c: Command, s: Store): (Store, Next) {
    if Check(c).Some? then (s, Refuse(Check(c).value))
    else match c
      case CreateTunnel(name, privateKey, address, port) =>
        if name in s.files then (s, Refuse(TunnelExists))
        else (s.(files := s.files[name := TunnelConf(privateKey, InterfaceText(address), port)]), Finish)
      case DeleteTunnel(name) => (s, Await(StopUnit(name)))
      case AddPeer(name, key, _, _, _) =>
        if name !in s.files then (s, Refuse(TunnelNotFound))
        else
          var edited := AddPeerText(s.files[name], PeerOf(c));
          if edited.Err? then (s, Refuse(DuplicatePeer))
          else (s.(files := s.files[name := edited.value]),
                if name in s.live then Await(PutPeer(name, key, RangeSet(PeerOf(c).ranges))) else Finish)
      case RemovePeer(name, key) =>
        if name !in s.files then (s, Refuse(TunnelNotFound))
        else (s.(files := s.files[name := RemovePeerText(s.files[name], key)]),
              if name in s.live then Await(DropPeer(name, key)) else Finish)
      case SetTunnelState(name, action) =>
        if name !in s.files then (s, Refuse(TunnelNotFound))
        else (s, Await(if action.Activate? then StartUnit(name) else StopUnit(name)))
  }

  /** The external program takes effect, or fails; wg itself refuses a key with a newline. */
  function Land(e: Effect, s: Store, ok: bool): (Store, bool) {
    if !ok then (s, false)
    else match e
      case StopUnit(name) => (s.(live := s.live - {name}), true)
      case StartUnit(name) =>
        if name in s.live then (s, true)
        else if name in s.files then (s.(live := s.live[name := LiveOf(s.files[name])]), true)
        else (s, false)
      case PutPeer(name, key, ranges) =>
        if name in s.live && '\n' !in key then (s.(live := s.live[name := PutLive(s.live[name], key, ranges)]), true)
        else (s, false)
      case DropPeer(name, key) =>
        if name in s.live && '\n' !in key then (s.(live := s.live[name := DropLive(s.live[name], key)]), true)
        else (s, false)
  }

  /** After the await: only delete_tunnel still changes a file, whatever the program returned. */
  function LastPiece(c: Command, s: Store, ok: bool): (Store, Option<HelperError>) {
    if c.DeleteTunnel? then (s.(files := s.files - {c.name}), None)
    else (s, if ok then None else Some(ProgramFailed))
  }

  /** A command that nothing interrupts. */
  function RunAlone(c: Command, s: Store, ok: bool): (Store, Option<HelperError>) {
    var (s1, next) := FirstPiece(c, s);
    match next
    case Refuse(error) => (s1, Some(error))
    case Finish => (s1, None)
    case Await(effect) =>
      var (s2, rc) := Land(effect, s1, ok);
      LastPiece(c, s2, rc)
  }

  /** Everything but one tunnel is as it was. */
  predicate Elsewhere(s: Store, t: Store, name: string) {
    && t.files - {name} == s.files - {name}
    && t.live - {name} == s.live - {name}
  }

  lemma SameElsewhere<T>(a: map<string, T>, b: map<string, T>, name: string, n: string)
    requires a - {name} == b - {name} && n != name
    ensures n in a <==> n in b
    ensures n in a ==> a[n] == b[n]
  {
    assert n in a ==> n in a - {name} && (a - {name})[n] == a[n];
    assert n in b ==> n in b - {name} && (b - {name})[n] == b[n];
  }

  lemma FirstPieceElsewhere(c: Command, s: Store)
    ensures var (t, next) := FirstPiece(c, s);
            Elsewhere(s, t, c.name) && (next.Await? ==> next.effect.name == c.name)
  {
  }

  lemma LandElsewhere(e: Effect, s: Store, ok: bool)
    ensures Elsewhere(s, Land(e, s, ok).0, e.name)
  {
  }

  lemma LastPieceElsewhere(c: Command, s: Store, rc: bool)
    ensures Elsewhere(s, LastPiece(c, s, rc).0, c.name)
  {
  }

  /** The same when the file may turn out not to be writable: then there is nothing left of it. */
  function RunOnDisk(c: Command, s: Store, ok: bool, written: bool): (Store, Option<HelperError>) {
    if !written && !FirstPiece(c, s).1.Refuse? then (s, Some(WriteFailed)) else RunAlone(c, s, ok)
  }

  // ---------------------------------------------------------------- the daemon

  class Daemon {
    var files: Files
    var live: map<string, Live>

    function State(): Store
      reads this
    {
      Store(files, live)
    }

    /** The program that a command waits for; ok says whether it succeeds. */
    method RunProgram(effect: Effect, ok: bool) returns (rc: bool)
      modifies this`live
      ensures (State(), rc) == Land(effect, old(State()), ok)
    {
      if !ok {
        return false;
      }
      match effect {
        case StopUnit(name) =>
          live := live - {name};
          return true;
        case StartUnit(name) =>
          if name !in live {
            if name !in files {
              return false;
            }
            live := live[name := LiveOf(files[name])];
          }
          return true;
        case PutPeer(name, key, ranges) =>
          if name !in live || '\n' in key {
            return false;
          }
          live := live[name := PutLive(live[name], key, ranges)];
          return true;
        case DropPeer(name, key) =>
          if name !in live || '\n' in key {
            return false;
          }
          live := live[name := DropLive(live[name], key)];
          return true;
      }
    }

    method CmdCreateTunnel(c: Command, written: bool) returns (error: Option<HelperError>)
      requires c.CreateTunnel?
      modifies this
      ensures (State(), error) == RunOnDisk(c, old(State()), true, written)
    {
      if Check(c).Some? {
        return Check(c);
      }
      if c.name in files {
        return Some(TunnelExists);
      }
      files := files[c.name := ""];
      if !written {
        files := files - {c.name};
        assert files == old(files);
        return Some(WriteFailed);
      }
      files := files[c.name := TunnelConf(c.privateKey, InterfaceText(c.address), c.port)];
      assert files == old(files)[c.name := TunnelConf(c.privateKey, InterfaceText(c.address), c.port)];
      return None;
    }

    method CmdDeleteTunnel(c: Command, ok: bool) returns (error: Option<HelperError>)
      requires c.DeleteTunnel?
      modifies this
      ensures (State(), error) == RunAlone(c, old(State()), ok)
    {
      if Check(c).Some? {
        return Check(c);
      }
      var _ := RunProgram(StopUnit(c.name), ok);
      files := files - {c.name};
      return None;
    }

    method CmdAddPeer(c: Command, ok: bool, written: bool) returns (error: Option<HelperError>)
      requires c.AddPeer?
      modifies this
      ensures (State(), error) == RunOnDisk(c, old(State()), ok, written)
    {
      if Check(c).Some? {
        return Check(c);
      }
      if c.name !in files {
        return Some(TunnelNotFound);
      }
      var header, blocks := Header(files[c.name]), Blocks(files[c.name]);
      if AnyNames(blocks, c.key) {
        return Some(DuplicatePeer);
      }
      var text := RebuildConf(header, blocks + [Block(PeerOf(c))]);
      if !written {
        return Some(WriteFailed);
      }
      files := files[c.name := text];
      if c.name in live {
        var rc := RunProgram(PutPeer(c.name, c.key, RangeSet(PeerOf(c).ranges)), ok);
        if !rc {
          return Some(ProgramFailed);
        }
      }
      return None;
    }

    method CmdRemovePeer(c: Command, ok: bool, written: bool) returns (error: Option<HelperError>)
      requires c.RemovePeer?
      modifies this
      ensures (State(), error) == RunOnDisk(c, old(State()), ok, written)
    {
      if Check(c).Some? {
        return Check(c);
      }
      if c.name !in files {
        return Some(TunnelNotFound);
      }
      var text := RebuildConf(Header(files[c.name]), Keep(Blocks(files[c.name]), c.key));
      if !written {
        return Some(WriteFailed);
      }
      files := files[c.name := text];
      if c.name in live {
        var rc := RunProgram(DropPeer(c.name, c.key), ok);
        if !rc {
          return Some(ProgramFailed);
        }
      }
      return None;
    }

    method CmdSetTunnelState(c: Command, ok: bool) returns (error: Option<HelperError>)
      requires c.SetTunnelState?
      modifies this
      ensures (State(), error) == RunAlone(c, old(State()), ok)
    {
      if Check(c).Some? {
        return Check(c);
      }
      if c.name !in files {
        return Some(TunnelNotFound);
      }
      var rc := RunProgram(if c.action.Activate? then StartUnit(c.name) else StopUnit(c.name), ok);
      return if rc then None else Some(ProgramFailed);
    }
  }
}
