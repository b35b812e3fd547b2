/** Two tests for a client tunnel: the guard greps the file line by line, the daemon searches
    the peer blocks with a pattern whose white space may run over the end of a line. */
module ClientTests {
  import opened Text
  import opened WgKey
  import opened ConfText
  import opened ConfInfo

  // ---------------------------------------------------------------- the guard's grep

  /** [[:space:]] within a line. */
  predicate IsBlank(c: char) { c == ' ' || ('\t' <= c <= '\r' && c != '\n') }

  function SkipBlank(s: string): (r: string)
    ensures |r| <= |s|
    ensures r == "" || !IsBlank(r[0])
  {
    if s != "" && IsBlank(s[0]) then SkipBlank(s[1..]) else s
  }

  /** ^[[:space:]]*Endpoint[[:space:]]*= at the start of one line. */
  predicate EndpointLineAt(s: string) {
    var t := SkipBlank(s);
    "Endpoint" <= t && (var u := SkipBlank(t[8..]); u != "" && u[0] == '=')
  }

  /** grep -q over the lines of a text. */
  predicate GrepEndpoint(s: string, lineStart: bool)
    decreases |s|
  {
    || (lineStart && EndpointLineAt(s))
    || (s != "" && GrepEndpoint(s[1..], s[0] == '\n'))
  }

  /** The guard's test for a client tunnel. */
  predicate GuardSaysClient(conf: string) { GrepEndpoint(conf, true) }

  // ---------------------------------------------------------------- the three kinds of Endpoint

  predicate OnlyNewlines(s: string) { forall c :: c in s ==> c == '\n' }

  /** What follows the equals sign of an Endpoint line. */
  function AfterEquals(s: string): string
    requires EndpointLineAt(s)
  {
    SkipBlank(SkipBlank(s)[8..])[1..]
  }

  /** An Endpoint line with some value after it; one with none to the end of the text; and an
      Endpoint with a value that grep does not see, for its parts are spread over lines or set
      apart by white space that is no POSIX blank. */
  datatype Kind = Valued | Valueless | Spread

  /** The kind of the text at the start of a line. */
  predicate StartsAs(s: string, kind: Kind) {
    match kind
    case Valued => EndpointLineAt(s) && !OnlyNewlines(AfterEquals(s))
    case Valueless => EndpointLineAt(s) && OnlyNewlines(AfterEquals(s))
    case Spread =>
      && !EndpointLineAt(s)
      && var t := SkipSpace(s);
         "Endpoint" <= t && var u := SkipSpace(t[8..]); u != "" && u[0] == '=' && !OnlyNewlines(u[1..])
  }

  predicate SomeLine(s: string, lineStart: bool, kind: Kind)
    decreases |s|
  {
    || (lineStart && StartsAs(s, kind))
    || (s != "" && SomeLine(s[1..], s[0] == '\n', kind))
  }

  lemma {:induction false} GrepFindsKinds(s: string, lineStart: bool)
    ensures GrepEndpoint(s, lineStart) <==> SomeLine(s, lineStart, Valued) || SomeLine(s, lineStart, Valueless)
    decreases |s|
  {
    if s != "" {
      GrepFindsKinds(s[1..], s[0] == '\n');
    }
  }

  lemma {:induction false} SkipBlankThenSpace(s: string)
    ensures SkipBlank(s) == "" || !IsSpace(SkipBlank(s)[0]) ==> SkipSpace(s) == SkipBlank(s)
  {
    if s != "" && IsBlank(s[0]) {
      SkipBlankThenSpace(s[1..]);
    }
  }

  lemma {:induction false} AllSpace(s: string)
    requires SkipSpace(s) != ""
    ensures !OnlyNewlines(s)
  {
    if IsSpace(s[0]) {
      AllSpace(s[1..]);
      assert forall c :: c in s[1..] ==> c in s;
    } else {
      assert s[0] in s;
    }
  }

  lemma {:induction false} SomethingVisible(s: string)
    ensures LastVisible(s).Match? <==> !OnlyNewlines(s)
  {
    if s != "" {
      var front, last := s[..|s| - 1], s[|s| - 1];
      assert s == front + [last];
      assert last in s && forall c :: c in s <==> c in front || c == last;
      if last == '\n' {
        SomethingVisible(front);
      }
    }
  }

  /** The pattern finds a value exactly if something but newlines follows the equals sign. */
  lemma ValueIff(s: string)
    ensures ValueAt(s).Match? <==> !OnlyNewlines(s)
  {
    if SkipSpace(s) != "" {
      AllSpace(s);
    } else {
      SomethingVisible(s);
    }
  }

  lemma PatternStarts(s: string)
    ensures MatchAt(s, "Endpoint").Match? <==> StartsAs(s, Valued) || StartsAs(s, Spread)
  {
    var t := SkipSpace(s);
    if EndpointLineAt(s) {
      SkipBlankThenSpace(s);
      SkipBlankThenSpace(t[8..]);
      ValueIff(AfterEquals(s));
    } else if "Endpoint" <= t {
      var u := SkipSpace(t[8..]);
      if u != "" && u[0] == '=' {
        ValueIff(u[1..]);
      }
    }
  }

  lemma {:induction false} PatternFindsKinds(s: string, lineStart: bool)
    ensures Matches(s, "Endpoint", lineStart) != [] <==> SomeLine(s, lineStart, Valued) || SomeLine(s, lineStart, Spread)
    decreases |s|
  {
    PatternStarts(s);
    if s != "" && !(lineStart && MatchAt(s, "Endpoint").Match?) {
      PatternFindsKinds(s[1..], s[0] == '\n');
    }
  }

  // ---------------------------------------------------------------- lines and parts

  /** A character that no Endpoint line has before its value. */
  predicate Stops(c: char) { !IsBlank(c) && c != '=' && c !in "Endpoint" }

  lemma {:induction false} EndpointLineStops(a: string, c: char, b: string)
    requires Stops(c)
    ensures EndpointLineAt(a + [c] + b) <==> EndpointLineAt(a)
  {
    BlankStops(a, c, b);
    var t := SkipBlank(a);
    var s := t + [c] + b;
    if "Endpoint" <= t {
      assert s[8..] == t[8..] + [c] + b;
      assert s[..8] == t[..8];
      BlankStops(t[8..], c, b);
    } else if |t| < 8 {
      assert s[|t|] == c && "Endpoint"[|t|] in "Endpoint";
    } else {
      assert s[..8] == t[..8];
    }
  }

  lemma {:induction false} BlankStops(a: string, c: char, b: string)
    requires Stops(c)
    ensures SkipBlank(a + [c] + b) == SkipBlank(a) + [c] + b
  {
    if a != "" && IsBlank(a[0]) {
      BlankStops(a[1..], c, b);
      assert (a + [c] + b)[1..] == a[1..] + [c] + b;
    } else if a != "" {
      assert (a + [c] + b)[0] == a[0];
    }
  }

  /** Such a character cuts a text into pieces that grep can look at one by one. */
  lemma {:induction false} GrepOfPieces(a: string, c: char, b: string, lineStart: bool)
    requires Stops(c)
    ensures GrepEndpoint(a + [c] + b, lineStart) <==> GrepEndpoint(a, lineStart) || GrepEndpoint(b, c == '\n')
    decreases |a|
  {
    var s := a + [c] + b;
    EndpointLineStops(a, c, b);
    if a == "" {
      assert s[1..] == b;
      assert !EndpointLineAt("");
    } else {
      assert s[1..] == a[1..] + [c] + b;
      GrepOfPieces(a[1..], c, b, a[0] == '\n');
    }
  }

  lemma GrepOfLines(a: string, b: string, lineStart: bool)
    ensures GrepEndpoint(a + "\n" + b, lineStart) <==> GrepEndpoint(a, lineStart) || GrepEndpoint(b, true)
  {
    GrepOfPieces(a, '\n', b, lineStart);
    assert a + ['\n'] + b == a + "\n" + b;
  }

  lemma {:induction false} GrepOfParts(parts: seq<string>)
    requires |parts| >= 1
    ensures GrepEndpoint(Join(parts), true) <==> exists i :: 0 <= i < |parts| && GrepEndpoint(parts[i], true)
  {
    if |parts| > 1 {
      var rest := parts[1..];
      GrepOfLines(parts[0], Join(rest), true);
      GrepOfParts(rest);
      assert forall i :: 0 <= i < |rest| ==> rest[i] == parts[i + 1];
      if i :| 0 <= i < |parts| && GrepEndpoint(parts[i], true) {
        if i > 0 {
          assert GrepEndpoint(rest[i - 1], true);
        }
      }
    }
  }

  lemma {:induction false} EndpointOfBlocksSome(blocks: seq<string>)
    ensures EndpointOfBlocks(blocks).Some? <==> exists i :: 0 <= i < |blocks| && Matches(blocks[i], "Endpoint", true) != []
  {
    if blocks != [] {
      var n := |blocks| - 1;
      EndpointOfBlocksSome(blocks[..n]);
      assert forall i :: 0 <= i < n ==> blocks[..n][i] == blocks[i];
    }
  }

  // ---------------------------------------------------------------- when the tests agree

  predicate InBlocks(conf: string, kind: Kind) {
    exists i :: 0 <= i < |Blocks(conf)| && SomeLine(Blocks(conf)[i], true, kind)
  }

  lemma BlocksByKind(conf: string)
    ensures GuardSaysClient(conf) <==> GrepEndpoint(Header(conf), true) || InBlocks(conf, Valued) || InBlocks(conf, Valueless)
    ensures InfoOf(conf).client <==> InBlocks(conf, Valued) || InBlocks(conf, Spread)
  {
    var parts, blocks := Split(conf), Blocks(conf);
    JoinSplit(conf);
    GrepOfParts(parts);
    EndpointOfBlocksSome(blocks);
    forall i | 0 <= i < |blocks|
      ensures GrepEndpoint(parts[i + 1], true) <==> SomeLine(blocks[i], true, Valued) || SomeLine(blocks[i], true, Valueless)
      ensures Matches(blocks[i], "Endpoint", true) != [] <==> SomeLine(blocks[i], true, Valued) || SomeLine(blocks[i], true, Spread)
    {
      assert blocks[i] == parts[i + 1];
      GrepFindsKinds(blocks[i], true);
      PatternFindsKinds(blocks[i], true);
    }
    if i :| 0 <= i < |parts| && GrepEndpoint(parts[i], true) {
      assert i == 0 || blocks[i - 1] == parts[i];
    }
  }

  /** For every file: the two tests disagree exactly if no peer block has an Endpoint line with a
      value and either only the guard finds one, in the header or without a value, or only the
      daemon does, spread out. */
  lemma ClientTestsAgree(conf: string)
    ensures var header := GrepEndpoint(Header(conf), true);
      && (GuardSaysClient(conf) && !InfoOf(conf).client <==>
            !InBlocks(conf, Valued) && !InBlocks(conf, Spread) && (header || InBlocks(conf, Valueless)))
      && (!GuardSaysClient(conf) && InfoOf(conf).client <==>
            !InBlocks(conf, Valued) && InBlocks(conf, Spread) && !header && !InBlocks(conf, Valueless))
  {
    BlocksByKind(conf);
  }

  // ---------------------------------------------------------------- a file for each disagreement

  lemma {:induction false} NothingWithinALine(line: string)
    requires '\n' !in line
    ensures !GrepEndpoint(line, false)
  {
    if line != "" {
      assert line[0] in line;
      NothingWithinALine(line[1..]);
    }
  }

  /** A line that visibly starts with another letter. */
  lemma NotAnEndpointLine(line: string)
    requires '\n' !in line && line != "" && !IsBlank(line[0]) && line[0] != 'E'
    ensures !GrepEndpoint(line, true)
  {
    NothingWithinALine(line[1..]);
  }

  lemma OnePeerParts(body: string)
    requires '[' !in body
    ensures Split(INTERFACE_TAG + "\n" + (PEER_TAG + "\n" + body)) == [INTERFACE_TAG, PEER_TAG + "\n" + body]
  {
    var block := PEER_TAG + "\n" + body;
    NoCutWithoutBracket(body);
    NoCutInInterface("");
    NoCutPrefix(INTERFACE_TAG + "\n" + "", INTERFACE_TAG);
    SplitStep(INTERFACE_TAG, block);
    SplitNoCut(block);
  }

  lemma OnePeerGrep(body: string)
    ensures GuardSaysClient(INTERFACE_TAG + "\n" + (PEER_TAG + "\n" + body)) <==> GrepEndpoint(body, true)
  {
    NotAnEndpointLine(PEER_TAG);
    GrepOfLines(PEER_TAG, body, true);
    NotAnEndpointLine(INTERFACE_TAG);
    GrepOfLines(INTERFACE_TAG, PEER_TAG + "\n" + body, true);
  }

  lemma OnePeerClient(body: string)
    requires '[' !in body
    ensures InfoOf(INTERFACE_TAG + "\n" + (PEER_TAG + "\n" + body)).client <==> Matches(body, "Endpoint", true) != []
  {
    var block := PEER_TAG + "\n" + body;
    OnePeerParts(body);
    OtherLine(PEER_TAG, body, "Endpoint");
    EndpointOfBlocksSome([block]);
  }

  const VALUELESS := "Endpoint" + " ="

  const NEXT_LINE := "Endpoint" + ("\n" + "= vpn:51820")

  lemma ValuelessKinds()
    ensures GrepEndpoint(VALUELESS, true) && Matches(VALUELESS, "Endpoint", true) == []
  {
    var line := VALUELESS;
    assert line[..8] == "Endpoint" && line[8..] == " =" && " ="[1..] == "=" && "="[1..] == "";
    assert StartsAs(line, Valueless);
    NothingElse(line[1..]);
    PatternFindsKinds(line, true);
  }

  lemma NameAloneOnALine(rest: string)
    requires rest != "" && rest[0] == '=' && '\n' !in rest
    ensures !GrepEndpoint("Endpoint" + "\n" + rest, true)
  {
    NotAnEndpointLine(rest);
    NothingWithinALine("Endpoint"[1..]);
    assert !EndpointLineAt("Endpoint") by { assert "Endpoint"[8..] == ""; }
    GrepOfLines("Endpoint", rest, true);
  }

  lemma SpreadIsFound(rest: string)
    requires |rest| >= 2 && rest[0] == '=' && '\n' !in rest
    ensures Matches("Endpoint" + "\n" + rest, "Endpoint", true) != []
  {
    var s, u := "Endpoint" + "\n" + rest, "\n" + rest;
    assert s == "Endpoint" + u;
    NameFirst(u);
    assert u[1..] == rest;
    assert SkipSpace(u) == rest;
    assert rest[1..][0] in rest[1..] && rest[1..][0] in rest;
    ValueIff(rest[1..]);
  }

  lemma NameFirst(u: string)
    ensures var s := "Endpoint" + u; "Endpoint" <= s && s[8..] == u && SkipSpace(s) == s
  {
  }

  lemma NextLineKinds()
    ensures !GrepEndpoint(NEXT_LINE, true) && Matches(NEXT_LINE, "Endpoint", true) != []
  {
    var rest := "= vpn:51820";
    NameAloneOnALine(rest);
    SpreadIsFound(rest);
    assert "Endpoint" + "\n" + rest == NEXT_LINE;
  }

  /** A peer's Endpoint without a value makes a client for the guard only; one whose equals sign
      is on the next line, for the daemon only. */
  lemma ClientTestsCanDiffer()
    ensures var conf := INTERFACE_TAG + "\n" + (PEER_TAG + "\n" + VALUELESS);
            GuardSaysClient(conf) && !InfoOf(conf).client
    ensures var conf := INTERFACE_TAG + "\n" + (PEER_TAG + "\n" + NEXT_LINE);
            !GuardSaysClient(conf) && InfoOf(conf).client
  {
    assert '[' !in VALUELESS && '[' !in NEXT_LINE;
    OnePeerGrep(VALUELESS);
    OnePeerClient(VALUELESS);
    ValuelessKinds();
    OnePeerGrep(NEXT_LINE);
    OnePeerClient(NEXT_LINE);
    NextLineKinds();
  }

  lemma {:induction false} NothingElse(line: string)
    requires '\n' !in line
    ensures forall kind :: !SomeLine(line, false, kind)
  {
    if line != "" {
      assert line[0] in line;
      NothingElse(line[1..]);
    }
  }

  // ---------------------------------------------------------------- what printed text adds

  /** Behind the start of a line, grep finds only what begins on a later line. */
  lemma {:induction false} GrepBehind(a: string, b: string)
    requires '\n' !in a
    ensures GrepEndpoint(a + b, false) <==> GrepEndpoint(b, false)
  {
    if a == "" {
      assert a + b == b;
    } else {
      assert a[0] in a;
      assert (a + b)[1..] == a[1..] + b;
      GrepBehind(a[1..], b);
    }
  }

  /** One setting, whose value may go over several lines. */
  lemma GrepOfAnySetting(name: string, value: string, rest: string)
    requires name != "" && !IsBlank(name[0]) && name[0] != 'E' && '\n' !in name
    ensures GrepEndpoint(Setting(name, value) + rest, true) <==> GrepEndpoint(value, false) || GrepEndpoint(rest, true)
  {
    var line := name + " = " + value;
    GrepOfOtherName(name + " = ", value);
    GrepOfLines(line, rest, true);
    assert Setting(name, value) + rest == line + "\n" + rest;
  }

  lemma GrepOfOtherName(front: string, value: string)
    requires front != "" && !IsBlank(front[0]) && front[0] != 'E' && '\n' !in front
    ensures GrepEndpoint(front + value, true) <==> GrepEndpoint(value, false)
  {
    var more := front[1..];
    assert front + value == [front[0]] + (more + value);
    assert front[0] in front;
    OtherStart(front[0], more + value);
    GrepBehind(more, value);
  }

  lemma OtherStart(c: char, rest: string)
    requires !IsBlank(c) && c != 'E' && c != '\n'
    ensures GrepEndpoint([c] + rest, true) <==> GrepEndpoint(rest, false)
  {
    var line := [c] + rest;
    assert line[1..] == rest;
    assert SkipBlank(line) == line && !EndpointLineAt(line);
  }

  lemma {:induction false} GrepOfCommaJoin(ranges: seq<string>)
    ensures GrepEndpoint(CommaJoin(ranges), false) <==> exists i :: 0 <= i < |ranges| && GrepEndpoint(ranges[i], false)
  {
    if |ranges| > 1 {
      var rest := ranges[1..];
      GrepOfPieces(ranges[0], ',', " " + CommaJoin(rest), false);
      assert CommaJoin(ranges) == ranges[0] + [','] + (" " + CommaJoin(rest));
      GrepBehind(" ", CommaJoin(rest));
      GrepOfCommaJoin(rest);
      assert forall i :: 0 <= i < |rest| ==> rest[i] == ranges[i + 1];
      if i :| 0 <= i < |ranges| && GrepEndpoint(ranges[i], false) {
        assert i > 0 ==> GrepEndpoint(rest[i - 1], false);
      }
    }
  }

  // ---------------------------------------------------------------- server tunnels stay servers

  lemma GrepOfNorm(part: string)
    ensures GrepEndpoint(Norm(part), true) <==> GrepEndpoint(part, true)
  {
    var stripped := StripNewlines(part);
    GrepOfStripped(part);
    GrepOfLines(stripped, "", true);
    assert stripped + "\n" + "" == Norm(part);
    assert !GrepEndpoint("", true);
  }

  lemma {:induction false} GrepOfStripped(part: string)
    ensures GrepEndpoint(StripNewlines(part), true) <==> GrepEndpoint(part, true)
  {
    if part != "" && part[|part| - 1] == '\n' {
      var front := part[..|part| - 1];
      GrepOfStripped(front);
      GrepOfLines(front, "", true);
      assert front + "\n" + "" == part;
      assert !GrepEndpoint("", true);
    }
  }

  /** Nothing is found in an accepted key: at most a newline follows its one line. */
  lemma GrepOfKey(key: string)
    requires Accepts(key)
    ensures !GrepEndpoint(key, false)
  {
    BareOfAccepted(key);
    NothingWithinALine(Bare(key));
    if key != Bare(key) {
      GrepBehind(Bare(key), "\n");
      assert "\n"[1..] == "" && !GrepEndpoint("", true) && !GrepEndpoint("\n", false);
      assert key == Bare(key) + "\n";
    }
  }

  lemma GrepOfTail(p: Peer)
    requires PrintedPeer(p)
    ensures GrepEndpoint(Tail(p), true) <==> GrepEndpoint(CommaJoin(p.ranges), false)
  {
    assert !GrepEndpoint("", true);
    if p.keepalive != "" {
      assert '\n' !in p.keepalive;
      NothingWithinALine(p.keepalive);
      GrepOfAnySetting("PersistentKeepalive", p.keepalive, "");
      assert KeepaliveLine(p) + "" == KeepaliveLine(p);
    }
    GrepOfAnySetting("AllowedIPs", CommaJoin(p.ranges), KeepaliveLine(p));
  }

  /** In a printed block grep finds exactly what it finds inside the ranges. */
  lemma GrepOfBlock(p: Peer)
    requires PrintedPeer(p)
    ensures GrepEndpoint(Block(p), true) <==> exists i :: 0 <= i < |p.ranges| && GrepEndpoint(p.ranges[i], false)
  {
    var rest := PskLine(p) + Tail(p);
    GrepOfTail(p);
    GrepOfCommaJoin(p.ranges);
    if p.psk.Some? {
      GrepOfKey(p.psk.value);
      GrepOfAnySetting("PresharedKey", p.psk.value, Tail(p));
    } else {
      assert rest == Tail(p);
    }
    GrepOfKey(p.key);
    GrepOfAnySetting("PublicKey", p.key, rest);
    NotAnEndpointLine(PEER_TAG);
    GrepOfLines(PEER_TAG, Body(p), true);
  }

  /** Adding a server-side peer to any file changes what the guard takes it for exactly if a
      range has an Endpoint line inside. */
  lemma AddKeepsRole(text: string, p: Peer)
    requires PrintedPeer(p) && AddPeerText(text, p).Ok?
    ensures GuardSaysClient(AddPeerText(text, p).value) <==>
              GuardSaysClient(text) || exists i :: 0 <= i < |p.ranges| && GrepEndpoint(p.ranges[i], false)
  {
    var parts := Split(text);
    var after := NormAll(parts) + [Block(p)];
    AddedText(text, p);
    JoinSplit(text);
    GrepOfParts(parts);
    GrepOfParts(after);
    GrepOfBlock(p);
    forall i | 0 <= i < |parts| ensures GrepEndpoint(after[i], true) <==> GrepEndpoint(parts[i], true) {
      GrepOfNorm(parts[i]);
    }
    assert after[|parts|] == Block(p);
  }

  /** Removing a peer never makes a client of a tunnel that was none. */
  lemma RemoveKeepsServer(text: string, key: string)
    requires !GuardSaysClient(text)
    ensures !GuardSaysClient(RemovePeerText(text, key))
  {
    var removed, parts := RemovePeerText(text, key), Split(text);
    var kept := Keep(Blocks(text), key);
    var after := [Norm(Header(text))] + NormAll(kept);
    SplitAfterRemove(text, key);
    JoinSplit(text);
    JoinSplit(removed);
    GrepOfParts(parts);
    GrepOfParts(after);
    forall i | 0 <= i < |after| ensures !GrepEndpoint(after[i], true) {
      if i == 0 {
        GrepOfNorm(parts[0]);
      } else {
        KeptIsPart(text, key, i - 1);
        GrepOfNorm(kept[i - 1]);
      }
    }
  }

  lemma KeptIsPart(text: string, key: string, i: nat)
    requires i < |Keep(Blocks(text), key)|
    ensures exists j :: 0 <= j < |Split(text)| && Split(text)[j] == Keep(Blocks(text), key)[i]
  {
    var block := Keep(Blocks(text), key)[i];
    KeepIsSublist(Blocks(text), key);
    assert block in Blocks(text);
    var j :| 0 <= j < |Blocks(text)| && Blocks(text)[j] == block;
    assert Split(text)[j + 1] == block;
  }

  /** A new tunnel's file is a server's for the guard exactly if its address has no Endpoint line
      inside. */
  lemma NewTunnelIsServer(privateKey: string, address: string, port: nat)
    requires Accepts(privateKey)
    ensures GuardSaysClient(TunnelConf(privateKey, address, port)) <==> GrepEndpoint(address, false)
  {
    var last := Setting("ListenPort", Decimal(port));
    NothingWithinALine(Decimal(port));
    GrepOfAnySetting("ListenPort", Decimal(port), "");
    assert last + "" == last && !GrepEndpoint("", true);
    GrepOfAnySetting("Address", address, last);
    GrepOfKey(privateKey);
    GrepOfAnySetting("PrivateKey", privateKey, Setting("Address", address) + last);
    NotAnEndpointLine(INTERFACE_TAG);
    GrepOfLines(INTERFACE_TAG, TunnelBody(privateKey, address, port), true);
  }
}
