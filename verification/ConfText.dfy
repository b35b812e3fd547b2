/** The text of a tunnel's .conf file: how the helper daemon cuts it into a header and
    peer blocks, prints it back, and edits peers by searching for a key in the text. */
module ConfText {
  import opened Text
  import opened WgKey

  const PEER_TAG := "[Peer]"

  // ---------------------------------------------------------------- cutting

  /** A newline at position i that the next section header follows directly. */
  predicate CutAt(s: string, i: int) {
    0 <= i < |s| && s[i] == '\n' && PEER_TAG <= s[i + 1..]
  }

  predicate NoCut(s: string) {
    forall i :: 0 <= i < |s| ==> !CutAt(s, i)
  }

  const CUT := "\n[Peer]"

  lemma CutIsOccurrence(s: string, i: int)
    ensures CutAt(s, i) <==> OccursAt(s, CUT, i)
  {
    if 0 <= i <= |s| - |CUT| {
      assert s[i + 1..][..|PEER_TAG|] == s[i..i + |CUT|][1..];
      assert CUT[1..] == PEER_TAG;
    }
  }

  lemma NoCutIsNoOccurrence(s: string)
    ensures NoCut(s) <==> !Contains(s, CUT)
  {
    forall i ensures CutAt(s, i) <==> OccursAt(s, CUT, i) {
      CutIsOccurrence(s, i);
    }
  }

  /** re.split(r"\n(?=\[Peer\])", s). */
  function Split(s: string): (parts: seq<string>)
    ensures |parts| >= 1
  {
    if s == "" then [""]
    else
      var rest := Split(s[1..]);
      if CutAt(s, 0) then [""] + rest else [[s[0]] + rest[0]] + rest[1..]
  }

  function Header(s: string): string { Split(s)[0] }

  function Blocks(s: string): seq<string> { Split(s)[1..] }

  /** The parts put back together with the newlines that the split removed. */
  function Join(parts: seq<string>): string
    requires |parts| >= 1
  {
    if |parts| == 1 then parts[0] else parts[0] + "\n" + Join(parts[1..])
  }

  /** What a list of parts looks like when it came from a split. */
  predicate WellCut(parts: seq<string>) {
    && |parts| >= 1
    && (forall i :: 0 <= i < |parts| ==> NoCut(parts[i]))
    && (forall i :: 1 <= i < |parts| ==> PEER_TAG <= parts[i])
  }

  /** Splitting loses no character. */
  lemma {:induction false} JoinSplit(s: string)
    ensures Join(Split(s)) == s
  {
    if s != "" {
      JoinSplit(s[1..]);
      var rest := Split(s[1..]);
      assert s == [s[0]] + s[1..];
      if CutAt(s, 0) {
        assert ([""] + rest)[1..] == rest;
      } else if |rest| > 1 {
        assert ([[s[0]] + rest[0]] + rest[1..])[1..] == rest[1..];
      }
    }
  }

  lemma CutMovesAlong(c: char, s: string, i: int)
    requires 0 <= i < |s|
    ensures CutAt([c] + s, i + 1) <==> CutAt(s, i)
  {
    assert ([c] + s)[i + 2..] == s[i + 1..];
  }

  /** A character in front of a cut-free text brings in at most a cut at the front. */
  lemma NoCutCons(c: char, s: string)
    requires NoCut(s) && (c != '\n' || !(PEER_TAG <= s))
    ensures NoCut([c] + s)
  {
    forall i | 0 <= i < |[c] + s| ensures !CutAt([c] + s, i) {
      if i == 0 {
        assert ([c] + s)[1..] == s;
      } else {
        CutMovesAlong(c, s, i - 1);
      }
    }
  }

  lemma NewlineBreaksTag(s: string, k: nat)
    requires k < |PEER_TAG| && k < |s| && s[k] == '\n'
    ensures !(PEER_TAG <= s)
  {
    assert PEER_TAG[k] != '\n';
  }

  /** Text that follows a part on its own line makes no new cut inside the part. */
  lemma CutStaysInside(p: string, rest: string, i: nat)
    requires i < |p|
    ensures CutAt(p + "\n" + rest, i) <==> CutAt(p, i)
  {
    var s := p + "\n" + rest;
    var k := |p| - i - 1;
    if k < |PEER_TAG| {
      assert s[i + 1..][k] == '\n';
      NewlineBreaksTag(s[i + 1..], k);
    } else {
      assert s[i + 1..][..|PEER_TAG|] == p[i + 1..][..|PEER_TAG|];
    }
  }

  /** The first part of a split is a prefix of the text, so it shows what the text starts with. */
  lemma {:induction false} FirstPartIsPrefix(s: string)
    ensures Split(s)[0] <= s
    ensures PEER_TAG <= Split(s)[0] <==> PEER_TAG <= s
  {
    JoinSplit(s);
    var parts := Split(s);
    if |parts| > 1 {
      assert s[|parts[0]|] == '\n';
      if |parts[0]| < |PEER_TAG| {
        NewlineBreaksTag(s, |parts[0]|);
      } else {
        assert s[..|PEER_TAG|] == parts[0][..|PEER_TAG|];
      }
    }
  }

  /** Every part is free of cuts, and every part after the first starts a peer section. */
  lemma {:induction false} SplitWellCut(s: string)
    ensures WellCut(Split(s))
  {
    if s != "" {
      SplitWellCut(s[1..]);
      FirstPartIsPrefix(s[1..]);
      var rest := Split(s[1..]);
      if !CutAt(s, 0) {
        NoCutCons(s[0], rest[0]);
      }
    }
  }

  lemma {:induction false} SplitStep(p: string, rest: string)
    requires NoCut(p) && PEER_TAG <= rest
    ensures Split(p + "\n" + rest) == [p] + Split(rest)
  {
    var s := p + "\n" + rest;
    if p == "" {
      assert s[1..] == rest;
      assert CutAt(s, 0);
    } else {
      assert s[1..] == p[1..] + "\n" + rest;
      forall i | 0 <= i < |p[1..]| ensures !CutAt(p[1..], i) {
        CutMovesAlong(p[0], p[1..], i);
        assert [p[0]] + p[1..] == p;
      }
      CutStaysInside(p, rest, 0);
      SplitStep(p[1..], rest);
      assert [p[0]] + p[1..] == p;
    }
  }

  lemma {:induction false} SplitNoCut(p: string)
    requires NoCut(p)
    ensures Split(p) == [p]
  {
    if p != "" {
      forall i | 0 <= i < |p[1..]| ensures !CutAt(p[1..], i) {
        CutMovesAlong(p[0], p[1..], i);
        assert [p[0]] + p[1..] == p;
      }
      assert !CutAt(p, 0);
      SplitNoCut(p[1..]);
      assert [p[0]] + p[1..] == p;
    }
  }

  lemma JoinStartsLikeFirst(parts: seq<string>)
    requires |parts| >= 1
    ensures parts[0] <= Join(parts)
  {
  }

  /** Well-cut parts with any peer section behind them: only that one may be cut further. */
  lemma {:induction false} SplitJoinLast(parts: seq<string>, last: string)
    requires WellCut(parts) && PEER_TAG <= last
    ensures Split(Join(parts + [last])) == parts + Split(last)
  {
    var rest := parts[1..];
    assert (parts + [last])[1..] == rest + [last];
    if rest == [] {
      assert Join([last]) == last;
      SplitStep(parts[0], last);
    } else {
      assert WellCut(rest) by {
        assert forall i :: 0 <= i < |rest| ==> rest[i] == parts[i + 1];
      }
      SplitJoinLast(rest, last);
      JoinStartsLikeFirst(rest + [last]);
      SplitStep(parts[0], Join(rest + [last]));
    }
  }

  /** Splitting is the only way to cut: any well-cut list comes back from its joined text. */
  lemma SplitJoin(parts: seq<string>)
    requires WellCut(parts)
    ensures Split(Join(parts)) == parts
  {
    var front, last := parts[..|parts| - 1], parts[|parts| - 1];
    assert NoCut(last);
    SplitNoCut(last);
    if front == [] {
      assert parts == [last];
    } else {
      assert parts == front + [last] && WellCut(front);
      SplitJoinLast(front, last);
    }
  }

  // ---------------------------------------------------------------- printing

  /** A part as it is printed: exactly one newline at the end. */
  function Norm(part: string): string { StripNewlines(part) + "\n" }

  function NormAll(parts: seq<string>): (r: seq<string>)
    ensures |r| == |parts| && forall i :: 0 <= i < |parts| ==> r[i] == Norm(parts[i])
  {
    seq(|parts|, i requires 0 <= i < |parts| => Norm(parts[i]))
  }

  /** The text that a header and peer blocks are rebuilt into. */
  function Rebuild(header: string, blocks: seq<string>): string {
    Join(NormAll([header] + blocks))
  }

  lemma JoinAppend(parts: seq<string>, last: string)
    requires |parts| >= 1
    ensures Join(parts + [last]) == Join(parts) + "\n" + last
  {
    if |parts| > 1 {
      JoinAppend(parts[1..], last);
      assert (parts + [last])[1..] == parts[1..] + [last];
    } else {
      assert (parts + [last])[1..] == [last];
    }
  }

  /** "".join(out): the list of pieces that the printing loop collects, as one text. */
  function Concat(pieces: seq<string>): string {
    if pieces == [] then "" else Concat(pieces[..|pieces| - 1]) + pieces[|pieces| - 1]
  }

  method RebuildConf(header: string, peerBlocks: seq<string>) returns (text: string)
    ensures text == Rebuild(header, peerBlocks)
  {
    var out := [StripNewlines(header) + "\n"];
    assert Concat(out) == Norm(header) by { assert out[..0] == []; }
    assert NormAll([header] + peerBlocks[..0]) == [Norm(header)];
    for i := 0 to |peerBlocks|
      invariant Concat(out) == Rebuild(header, peerBlocks[..i])
    {
      var piece := "\n" + StripNewlines(peerBlocks[i]) + "\n";
      assert (out + [piece])[..|out + [piece]| - 1] == out;
      assert NormAll([header] + peerBlocks[..i + 1]) ==
             NormAll([header] + peerBlocks[..i]) + [Norm(peerBlocks[i])];
      JoinAppend(NormAll([header] + peerBlocks[..i]), Norm(peerBlocks[i]));
      out := out + [piece];
    }
    assert peerBlocks[..|peerBlocks|] == peerBlocks;
    text := Concat(out);
  }

  lemma NormTwice(part: string)
    ensures Norm(Norm(part)) == Norm(part)
  {
    StripNewlinesOfTerminated(StripNewlines(part));
  }

  lemma NoCutPrefix(p: string, q: string)
    requires NoCut(p) && q <= p
    ensures NoCut(q)
  {
    forall i | 0 <= i < |q| ensures !CutAt(q, i) {
      assert !CutAt(p, i);
      assert q[i + 1..] <= p[i + 1..];
    }
  }

  lemma NormKeepsShape(part: string)
    requires NoCut(part)
    ensures NoCut(Norm(part))
    ensures PEER_TAG <= part ==> PEER_TAG <= Norm(part)
  {
    var q := StripNewlines(part);
    NoCutPrefix(part, q);
    forall i | 0 <= i < |Norm(part)| ensures !CutAt(Norm(part), i) {
      if i < |q| {
        CutStaysInside(q, "", i);
        assert q + "\n" + "" == Norm(part);
      }
    }
    StripNewlinesDropsOnlyNewlines(part);
    if |q| >= |PEER_TAG| {
      assert Norm(part)[..|PEER_TAG|] == part[..|PEER_TAG|];
    } else if |part| >= |PEER_TAG| {
      assert part[|q|] == '\n';
      NewlineBreaksTag(part, |q|);
    }
  }

  /** What was printed is read back: the same header and blocks up to trailing newlines. */
  lemma SplitRebuild(header: string, blocks: seq<string>)
    requires WellCut([header] + blocks)
    ensures Split(Rebuild(header, blocks)) == [Norm(header)] + NormAll(blocks)
  {
    var parts := [header] + blocks;
    NormsWellCut(parts);
    SplitJoin(NormAll(parts));
    assert NormAll(parts) == [Norm(header)] + NormAll(blocks);
  }

  /** Reading a file and printing it back without a change. */
  function Normalise(s: string): string { Rebuild(Header(s), Blocks(s)) }

  lemma SplitNormalise(s: string)
    ensures Split(Normalise(s)) == NormAll(Split(s))
  {
    SplitWellCut(s);
    var parts := Split(s);
    HeadAndRest(parts);
    SplitRebuild(parts[0], parts[1..]);
  }

  lemma HeadAndRest(parts: seq<string>)
    requires parts != []
    ensures [parts[0]] + parts[1..] == parts && [Norm(parts[0])] + NormAll(parts[1..]) == NormAll(parts)
  {
  }

  lemma NormAllTwice(parts: seq<string>)
    ensures NormAll(NormAll(parts)) == NormAll(parts)
  {
    forall i | 0 <= i < |parts| ensures Norm(Norm(parts[i])) == Norm(parts[i]) {
      NormTwice(parts[i]);
    }
  }

  /** Reprinting settles after one round. */
  lemma NormaliseTwice(s: string)
    ensures Normalise(Normalise(s)) == Normalise(s)
  {
    SplitNormalise(s);
    var parts := Split(s);
    NormAllTwice(parts);
    assert [parts[0]] + parts[1..] == parts;
    var again := NormAll(parts);
    assert [again[0]] + again[1..] == again;
  }

  // ---------------------------------------------------------------- peers

  /** What str() of an IP network is made of, but for an IPv6 scope id, which may hold anything. */
  predicate RangeChar(c: char) {
    '0' <= c <= '9' || 'a' <= c <= 'f' || c == '.' || c == ':' || c == '/'
  }

  predicate IsRange(s: string) {
    s != "" && forall c :: c in s ==> RangeChar(c)
  }

  /** A network's text, whatever scope id it has inside: it starts and ends like a range. */
  predicate Edged(s: string) {
    s != "" && RangeChar(s[0]) && RangeChar(s[|s| - 1])
  }

  /** A text that a line and a comma list can carry. */
  predicate Inline(s: string) { '\n' !in s && ',' !in s }

  const KEY_NAME := "PublicKey = "

  /** A network's text that the file can hold without being taken for something else. */
  predicate Clean(s: string) { Edged(s) && Inline(s) && !Contains(s, KEY_NAME) }

  lemma RangeIsClean(s: string)
    requires IsRange(s)
    ensures Clean(s)
  {
    assert forall k :: 0 <= k < |s| ==> RangeChar(s[k]);
    if i :| 0 <= i <= |s| && OccursAt(s, KEY_NAME, i) {
      OccursAtChar(s, KEY_NAME, i, 0);
    }
  }

  /** What `if keepalive:` and its f-string make of a keepalive: nothing, a number or a True. */
  predicate IsKeepalive(s: string) { s == "True" || AllDigits(s) }

  /** A peer as add_peer prints it. */
  datatype Peer = Peer(key: string, psk: Option<string>, ranges: seq<string>, keepalive: string)

  predicate PrintedPeer(p: Peer) {
    && Accepts(p.key)
    && (p.psk.Some? ==> Accepts(p.psk.value))
    && p.ranges != [] && (forall r :: r in p.ranges ==> Edged(r))
    && IsKeepalive(p.keepalive)
  }

  predicate ValidPeer(p: Peer) {
    PrintedPeer(p) && forall r :: r in p.ranges ==> Clean(r)
  }

  /** ", ".join(ranges). */
  function CommaJoin(ranges: seq<string>): string {
    if ranges == [] then ""
    else if |ranges| == 1 then ranges[0]
    else ranges[0] + ", " + CommaJoin(ranges[1..])
  }

  /** One line of a section. */
  function Setting(name: string, value: string): string { name + " = " + value + "\n" }

  function PskLine(p: Peer): string {
    if p.psk.Some? then Setting("PresharedKey", p.psk.value) else ""
  }

  function KeepaliveLine(p: Peer): string {
    if p.keepalive != "" then Setting("PersistentKeepalive", p.keepalive) else ""
  }

  function Tail(p: Peer): string { Setting("AllowedIPs", CommaJoin(p.ranges)) + KeepaliveLine(p) }

  /** What follows the tag in a peer's block. */
  function Body(p: Peer): string { Setting("PublicKey", p.key) + (PskLine(p) + Tail(p)) }

  function Block(p: Peer): string { PEER_TAG + "\n" + Body(p) }

  function BlocksOf(peers: seq<Peer>): (r: seq<string>)
    ensures |r| == |peers| && forall i :: 0 <= i < |peers| ==> r[i] == Block(peers[i])
  {
    seq(|peers|, i requires 0 <= i < |peers| => Block(peers[i]))
  }

  /** The substring that add_peer and remove_peer look for in a block. */
  function Needle(key: string): string { "PublicKey = " + key }

  predicate Names(block: string, key: string) { Contains(block, Needle(key)) }

  // ---------------------------------------------------------------- the search finds exactly the key

  lemma {:induction false} CommaJoinChars(ranges: seq<string>, c: char)
    requires c != ',' && c != ' '
    ensures c in CommaJoin(ranges) <==> exists i :: 0 <= i < |ranges| && c in ranges[i]
  {
    if |ranges| > 1 {
      CommaJoinChars(ranges[1..], c);
      assert forall i :: 0 <= i < |ranges[1..]| ==> ranges[1..][i] == ranges[i + 1];
      if i :| 0 <= i < |ranges| && c in ranges[i] {
        assert i > 0 ==> c in ranges[1..][i - 1];
      }
    }
  }

  lemma {:induction false} CommaJoinEdged(ranges: seq<string>)
    requires ranges != [] && forall r :: r in ranges ==> Edged(r)
    ensures Edged(CommaJoin(ranges))
  {
    assert ranges[0] in ranges;
    if |ranges| > 1 {
      CommaJoinEdged(ranges[1..]);
    }
  }

  /** Neither commas nor spaces can bring in a needle that does not begin with a space. */
  lemma {:induction false} CommaJoinContains(ranges: seq<string>, needle: string)
    requires needle != "" && ',' !in needle && needle[0] != ' '
    ensures Contains(CommaJoin(ranges), needle) <==> exists i :: 0 <= i < |ranges| && Contains(ranges[i], needle)
  {
    if |ranges| == 0 {
      ContainsNothingInEmpty(needle);
    } else if |ranges| > 1 {
      var rest := ranges[1..];
      assert CommaJoin(ranges) == ranges[0] + [','] + (" " + CommaJoin(rest));
      ContainsSplitsAt(ranges[0], ',', " " + CommaJoin(rest), needle);
      ContainsAfter(" ", CommaJoin(rest), needle);
      CommaJoinContains(rest, needle);
      assert forall i :: 0 <= i < |rest| ==> rest[i] == ranges[i + 1];
      if i :| 0 <= i < |ranges| && Contains(ranges[i], needle) {
        assert i > 0 ==> Contains(rest[i - 1], needle);
      }
    }
  }

  lemma PresharedLineIsNoKey(psk: string, key: string)
    requires MatchesBody(key) && MatchesBody(psk)
    ensures !Contains("PresharedKey" + " = " + psk, Needle(key))
  {
    var line, needle := "PresharedKey" + " = " + psk, Needle(key);
    assert |line| == 59 && |needle| == 56;
    if i :| 0 <= i <= |line| && OccursAt(line, needle, i) {
      OccursAtChar(line, needle, i, 0);
      OccursAtChar(line, needle, i, 1);
      assert false;
    }
  }

  lemma KeyLineNamesItsKey(own: string, key: string)
    requires MatchesBody(key) && MatchesBody(own)
    ensures Contains("PublicKey" + " = " + own, Needle(key)) <==> own == key
  {
    var line := "PublicKey" + " = " + own;
    assert line == Needle(own);
    if i :| 0 <= i <= |line| && OccursAt(line, Needle(key), i) {
      assert i == 0 && line[0..|line|] == line;
      assert own == line[12..] && key == Needle(key)[12..];
    }
    if own == key {
      assert line[0..|line|] == line;
      assert OccursAt(line, Needle(key), 0);
    }
  }

  lemma NeedleHasNoNewline(key: string)
    requires MatchesBody(key)
    ensures '\n' !in Needle(key) && |Needle(key)| == 56
  {
    BareOfAccepted(key);
  }

  /** A line in front of more text. */
  lemma ContainsInSetting(name: string, value: string, rest: string, needle: string)
    requires needle != "" && '\n' !in needle
    ensures Contains(Setting(name, value) + rest, needle) <==> Contains(name + " = " + value, needle) || Contains(rest, needle)
  {
    ContainsSplitsAtNewline(name + " = " + value, rest, needle);
    assert Setting(name, value) + rest == (name + " = " + value) + "\n" + rest;
  }

  /** The same for a key value, whose own newline leaves nothing more to find. */
  lemma ContainsInKeySetting(name: string, value: string, rest: string, needle: string)
    requires Accepts(value) && needle != "" && '\n' !in needle
    ensures Contains(Setting(name, value) + rest, needle) <==> Contains(name + " = " + Bare(value), needle) || Contains(rest, needle)
  {
    BareOfAccepted(value);
    if value == Bare(value) {
      ContainsInSetting(name, value, rest, needle);
    } else {
      ContainsInSetting(name, Bare(value), "\n" + rest, needle);
      ContainsSplitsAtNewline("", rest, needle);
      ContainsNothingInEmpty(needle);
      assert "" + "\n" + rest == "\n" + rest;
      assert Setting(name, value) + rest == Setting(name, Bare(value)) + ("\n" + rest);
    }
  }

  /** In the line of a peer's ranges a key's name is in one of the ranges. */
  lemma RangesLineNames(ranges: seq<string>)
    ensures Contains("AllowedIPs" + " = " + CommaJoin(ranges), KEY_NAME) <==> exists i :: 0 <= i < |ranges| && Contains(ranges[i], KEY_NAME)
  {
    AllowedName(CommaJoin(ranges));
    CommaJoinContains(ranges, KEY_NAME);
  }

  lemma AllowedName(value: string)
    ensures Contains("AllowedIPs" + " = " + value, KEY_NAME) <==> Contains(value, KEY_NAME)
  {
    NameWithS("AllowedIP", "", value);
    assert "AllowedIP" + "s" + "" == "AllowedIPs";
  }

  /** A setting whose own name has an s, which the other name has not. */
  lemma NameWithS(a: string, b: string, value: string)
    requires |a| < |KEY_NAME| && 'P' !in b
    ensures Contains(a + "s" + b + " = " + value, KEY_NAME) <==> Contains(value, KEY_NAME)
  {
    var front := b + " = ";
    ContainsSplitsAt(a, 's', front + value, KEY_NAME);
    ContainsAfter(front, value, KEY_NAME);
    assert a + ['s'] + (front + value) == a + "s" + b + " = " + value;
  }

  lemma KeepaliveLineNames(keepalive: string)
    requires IsKeepalive(keepalive)
    ensures !Contains("PersistentKeepalive" + " = " + keepalive, KEY_NAME)
  {
    NameWithS("Per", "istentKeepalive", keepalive);
    assert "Per" + "s" + "istentKeepalive" == "PersistentKeepalive";
    ContainsAfter(keepalive, "", KEY_NAME);
    assert keepalive + "" == keepalive;
  }

  /** No key's name behind the key lines. */
  lemma TailIsNoKey(p: Peer, key: string)
    requires ValidPeer(p) && MatchesBody(key)
    ensures !Contains(Tail(p), Needle(key))
  {
    ContainsNothingInEmpty(KEY_NAME);
    RangesLineNames(p.ranges);
    assert forall i :: 0 <= i < |p.ranges| ==> p.ranges[i] in p.ranges;
    ContainsInSetting("AllowedIPs", CommaJoin(p.ranges), KeepaliveLine(p), KEY_NAME);
    if p.keepalive != "" {
      KeepaliveLineNames(p.keepalive);
      ContainsInSetting("PersistentKeepalive", p.keepalive, "", KEY_NAME);
      assert KeepaliveLine(p) == KeepaliveLine(p) + "";
    }
    assert Needle(key)[..12] == KEY_NAME;
    if Contains(Tail(p), Needle(key)) {
      ContainsShorter(Tail(p), Needle(key), 12);
    }
  }

  lemma MiddleIsNoKey(p: Peer, key: string)
    requires ValidPeer(p) && MatchesBody(key)
    ensures !Contains(PskLine(p) + Tail(p), Needle(key))
  {
    TailIsNoKey(p, key);
    NeedleHasNoNewline(key);
    if p.psk.Some? {
      BareOfAccepted(p.psk.value);
      PresharedLineIsNoKey(Bare(p.psk.value), key);
      ContainsInKeySetting("PresharedKey", p.psk.value, Tail(p), Needle(key));
    } else {
      assert PskLine(p) + Tail(p) == Tail(p);
    }
  }

  lemma BlockNamesBareKey(p: Peer, key: string)
    requires ValidPeer(p) && MatchesBody(key)
    ensures Names(Block(p), key) <==> Bare(p.key) == key
  {
    var middle := PskLine(p) + Tail(p);
    NeedleHasNoNewline(key);
    BareOfAccepted(p.key);
    MiddleIsNoKey(p, key);
    KeyLineNamesItsKey(Bare(p.key), key);
    ContainsInKeySetting("PublicKey", p.key, middle, Needle(key));
    ContainsSplitsAtNewline(PEER_TAG, Body(p), Needle(key));
  }

  /** In a printed block the substring search answers key equality, for every pair of
      keys that the daemon accepts. */
  lemma BlockNamesExactlyItsKey(p: Peer, key: string)
    requires ValidPeer(p) && Accepts(key)
    ensures Names(Block(p), key) <==> SameKey(p.key, key)
  {
    BareOfAccepted(key);
    BareOfAccepted(p.key);
    BlockNamesBareKey(p, Bare(key));
    if key != Bare(key) {
      var block := Block(p);
      if Names(block, key) {
        ContainsShorter(block, Needle(key), 56);
        assert Needle(key)[..56] == Needle(Bare(key));
      }
      if SameKey(p.key, key) {
        assert block[..7] == "[Peer]\n" && block[7..] == Body(p);
        assert Body(p)[..57] == Setting("PublicKey", p.key)[..57] == Needle(key);
        assert block[7..7 + 57] == Body(p)[..57];
        assert OccursAt(block, Needle(key), 7);
      }
    }
  }

  // ---------------------------------------------------------------- editing

  datatype EditError = PeerExists

  predicate AnyNames(blocks: seq<string>, key: string) {
    exists i :: 0 <= i < |blocks| && Names(blocks[i], key)
  }

  function Keep(blocks: seq<string>, key: string): (kept: seq<string>)
  {
    if blocks == [] then []
    else if Names(blocks[0], key) then Keep(blocks[1..], key)
    else [blocks[0]] + Keep(blocks[1..], key)
  }

  function AddPeerText(text: string, p: Peer): Result<string, EditError> {
    if AnyNames(Blocks(text), p.key) then Err(PeerExists)
    else Ok(Rebuild(Header(text), Blocks(text) + [Block(p)]))
  }

  function RemovePeerText(text: string, key: string): string {
    Rebuild(Header(text), Keep(Blocks(text), key))
  }

  lemma {:induction false} KeepIsSublist(blocks: seq<string>, key: string)
    ensures forall b :: b in Keep(blocks, key) ==> b in blocks && !Names(b, key)
  {
    if blocks != [] {
      KeepIsSublist(blocks[1..], key);
    }
  }

  lemma {:induction false} KeepAll(blocks: seq<string>, key: string)
    requires !AnyNames(blocks, key)
    ensures Keep(blocks, key) == blocks
  {
    if blocks != [] {
      assert !Names(blocks[0], key);
      forall i | 0 <= i < |blocks[1..]| ensures !Names(blocks[1..][i], key) {
        assert blocks[1..][i] == blocks[i + 1];
      }
      KeepAll(blocks[1..], key);
    }
  }

  lemma {:induction false} KeepAppend(a: seq<string>, b: seq<string>, key: string)
    ensures Keep(a + b, key) == Keep(a, key) + Keep(b, key)
  {
    if a == [] {
      assert a + b == b;
    } else {
      assert (a + b)[1..] == a[1..] + b;
      KeepAppend(a[1..], b, key);
    }
  }

  lemma KeepTwice(blocks: seq<string>, key: string)
    ensures Keep(Keep(blocks, key), key) == Keep(blocks, key)
  {
    KeepIsSublist(blocks, key);
    KeepAll(Keep(blocks, key), key);
  }

  lemma NormNames(block: string, key: string)
    requires MatchesBody(key)
    ensures Names(Norm(block), key) <==> Names(block, key)
  {
    NeedleHasNoNewline(key);
    ContainsIgnoresTrailingNewlines(block, Needle(key));
    ContainsIgnoresTrailingNewlines(Norm(block), Needle(key));
    StripNewlinesOfTerminated(StripNewlines(block));
  }

  lemma {:induction false} KeepNormAll(blocks: seq<string>, key: string)
    requires MatchesBody(key)
    ensures Keep(NormAll(blocks), key) == NormAll(Keep(blocks, key))
  {
    if blocks != [] {
      NormNames(blocks[0], key);
      KeepNormAll(blocks[1..], key);
      assert NormAll(blocks)[1..] == NormAll(blocks[1..]);
      var kept := Keep(blocks[1..], key);
      assert NormAll([blocks[0]] + kept) == [Norm(blocks[0])] + NormAll(kept);
    }
  }

  lemma KeepWellCut(header: string, blocks: seq<string>, key: string)
    requires WellCut([header] + blocks)
    ensures WellCut([header] + Keep(blocks, key))
  {
    KeepIsSublist(blocks, key);
    var parts, kept := [header] + blocks, [header] + Keep(blocks, key);
    assert NoCut(parts[0]);
    forall i | 1 <= i < |kept| ensures NoCut(kept[i]) && PEER_TAG <= kept[i] {
      assert kept[i] in blocks;
      var j :| 0 <= j < |blocks| && blocks[j] == kept[i];
      assert parts[j + 1] == kept[i];
    }
  }

  lemma SplitOfParts(text: string)
    ensures WellCut([Header(text)] + Blocks(text))
  {
    SplitWellCut(text);
    assert [Header(text)] + Blocks(text) == Split(text);
  }

  lemma {:induction false} KeyHasNoBracket(s: string)
    requires Accepts(s)
    ensures '[' !in s
  {
    BareOfAccepted(s);
    var b := Bare(s);
    forall c | c in b ensures c != '[' {
      var i :| 0 <= i < |b| && b[i] == c;
      if i == 42 {
        LastCharsAreMultiplesOfFour(c);
      }
    }
  }

  lemma SettingHasNo(name: string, value: string, c: char)
    requires c !in name && c !in value && c !in " = " && c != '\n'
    ensures c !in Setting(name, value)
  {
  }

  /** Where no other bracket is near, a text is cut exactly where its middle is. */
  lemma NoCutAround(a: string, middle: string, b: string)
    requires a != "" && '[' !in a[1..] && middle != "" && middle[0] != '[' && b != "" && b[0] == '\n' && '[' !in b
    ensures NoCut(a + middle + b) <==> NoCut(middle)
  {
    var s := a + middle + b;
    forall i | 0 <= i < |middle| ensures CutAt(s, |a| + i) <==> CutAt(middle, i) {
      CutInMiddle(a, middle, b, i);
    }
    forall i | 0 <= i < |a| || |a| + |middle| <= i < |s| ensures !CutAt(s, i) {
      if i + 1 < |s| {
        assert s[i + 1] == if i + 1 < |a| then a[1..][i] else if i + 1 == |a| then middle[0] else b[i + 1 - |a| - |middle|];
        assert s[i + 1..][0] == s[i + 1] != '[';
      }
    }
    if i :| 0 <= i < |s| && CutAt(s, i) {
      assert CutAt(middle, i - |a|);
    }
  }

  lemma CutInMiddle(a: string, middle: string, b: string, i: nat)
    requires i < |middle| && b != "" && b[0] == '\n'
    ensures CutAt(a + middle + b, |a| + i) <==> CutAt(middle, i)
  {
    var rest := b[1..];
    CutStaysInside(middle, rest, i);
    assert middle + "\n" + rest == middle + b;
    assert (a + middle + b)[|a| + i + 1..] == (middle + b)[i + 1..];
  }

  lemma {:induction false} NoCutInCommaJoin(ranges: seq<string>)
    ensures NoCut(CommaJoin(ranges)) <==> forall i :: 0 <= i < |ranges| ==> NoCut(ranges[i])
  {
    CommaJoinContains(ranges, CUT);
    NoCutIsNoOccurrence(CommaJoin(ranges));
    forall i | 0 <= i < |ranges| ensures NoCut(ranges[i]) <==> !Contains(ranges[i], CUT) {
      NoCutIsNoOccurrence(ranges[i]);
    }
  }

  /** A printed block up to its ranges, and from there on. */
  function BlockFront(p: Peer): string {
    PEER_TAG + "\n" + (Setting("PublicKey", p.key) + (PskLine(p) + "AllowedIPs = "))
  }

  function BlockBack(p: Peer): string { "\n" + KeepaliveLine(p) }

  lemma BlockInPieces(p: Peer)
    ensures Block(p) == BlockFront(p) + CommaJoin(p.ranges) + BlockBack(p)
  {
    assert Tail(p) == "AllowedIPs = " + CommaJoin(p.ranges) + BlockBack(p);
    Regrouped(PEER_TAG + "\n", Setting("PublicKey", p.key), PskLine(p), "AllowedIPs = ", CommaJoin(p.ranges), BlockBack(p));
  }

  lemma Regrouped(a: string, b: string, c: string, d: string, e: string, f: string)
    ensures a + (b + (c + (d + e + f))) == a + (b + (c + d)) + e + f
  {
    assert c + (d + e + f) == (c + d) + e + f;
    assert b + (c + (d + e + f)) == (b + (c + d)) + e + f;
  }

  lemma PskLineHasNoBracket(p: Peer)
    requires PrintedPeer(p)
    ensures '[' !in PskLine(p)
  {
    if p.psk.Some? {
      KeyHasNoBracket(p.psk.value);
      SettingHasNo("PresharedKey", p.psk.value, '[');
    }
  }

  lemma TailOfTwo(a: string, b: string)
    requires a != ""
    ensures (a + b)[1..] == a[1..] + b
  {
  }

  lemma BlockPiecesHaveNoBracket(p: Peer)
    requires PrintedPeer(p)
    ensures '[' !in BlockFront(p)[1..] && '[' !in BlockBack(p)
  {
    var key, last := Setting("PublicKey", p.key), PskLine(p) + "AllowedIPs = ";
    KeyHasNoBracket(p.key);
    SettingHasNo("PublicKey", p.key, '[');
    PskLineHasNoBracket(p);
    assert '[' !in last;
    assert (PEER_TAG + "\n")[1..] == "Peer]\n";
    TailOfTwo(PEER_TAG + "\n", key + last);
    if p.keepalive != "" {
      SettingHasNo("PersistentKeepalive", p.keepalive, '[');
    }
  }

  /** A printed block is one block exactly if none of its ranges can be cut. */
  lemma BlockNoCutIff(p: Peer)
    requires PrintedPeer(p)
    ensures NoCut(Block(p)) <==> forall r :: r in p.ranges ==> NoCut(r)
  {
    BlockInPieces(p);
    BlockPiecesHaveNoBracket(p);
    CommaJoinEdged(p.ranges);
    NoCutAround(BlockFront(p), CommaJoin(p.ranges), BlockBack(p));
    NoCutInCommaJoin(p.ranges);
    assert forall i :: 0 <= i < |p.ranges| ==> p.ranges[i] in p.ranges;
  }

  /** A tag and a body without brackets cannot be cut. */
  lemma NoCutWithoutBracket(body: string)
    requires '[' !in body
    ensures NoCut(PEER_TAG + "\n" + body)
  {
    var block := PEER_TAG + "\n" + body;
    forall i | 0 <= i < |block| ensures !CutAt(block, i) {
      if 6 <= i < |block| - 1 {
        assert block[i + 1..][0] == body[i + 1 - 7];
        assert body[i + 1 - 7] in body;
      }
    }
  }

  /** A block without a newline in its ranges is one block, and ends in one newline. */
  lemma BlockShape(p: Peer)
    requires ValidPeer(p)
    ensures NoCut(Block(p)) && PEER_TAG <= Block(p) && Norm(Block(p)) == Block(p)
  {
    BlockNoCutIff(p);
    forall r | r in p.ranges ensures NoCut(r) {
      InlineHasNoCut(r);
    }
    BlockEnd(p);
  }

  lemma InlineHasNoCut(s: string)
    requires '\n' !in s
    ensures NoCut(s)
  {
  }

  /** Text in front of a printed text changes nothing at its end. */
  lemma NormBehind(front: string, t: string)
    requires Norm(t) == t && |t| > 1
    ensures Norm(front + t) == front + t
  {
    var u := StripNewlines(t);
    StripNewlinesOfTerminated(front + u);
    assert front + t == (front + u) + "\n";
  }

  lemma NormOfSetting(name: string, value: string)
    requires value != "" && value[|value| - 1] != '\n'
    ensures Norm(Setting(name, value)) == Setting(name, value)
  {
    StripNewlinesOfTerminated(name + " = " + value);
  }

  lemma TailEnd(p: Peer)
    requires PrintedPeer(p)
    ensures Norm(Tail(p)) == Tail(p) && |Tail(p)| > 1
  {
    var line := Setting("AllowedIPs", CommaJoin(p.ranges));
    CommaJoinEdged(p.ranges);
    NormOfSetting("AllowedIPs", CommaJoin(p.ranges));
    if p.keepalive == "" {
      assert Tail(p) == line;
    } else {
      assert p.keepalive[|p.keepalive| - 1] in p.keepalive;
      NormOfSetting("PersistentKeepalive", p.keepalive);
      NormBehind(line, KeepaliveLine(p));
    }
  }

  lemma BlockEnd(p: Peer)
    requires PrintedPeer(p)
    ensures Norm(Block(p)) == Block(p)
  {
    TailEnd(p);
    NormBehind(PskLine(p), Tail(p));
    NormBehind(Setting("PublicKey", p.key), PskLine(p) + Tail(p));
    NormBehind(PEER_TAG + "\n", Body(p));
  }

  /** After a successful add the file reads back as before, reprinted, and then as what the
      printed block splits into; that is the one new block exactly if no range can be cut. */
  lemma SplitAfterAdd(text: string, p: Peer)
    requires PrintedPeer(p) && AddPeerText(text, p).Ok?
    ensures Split(AddPeerText(text, p).value) == NormAll(Split(text)) + Split(Block(p))
    ensures Split(AddPeerText(text, p).value) == NormAll(Split(text)) + [Block(p)] <==> forall r :: r in p.ranges ==> NoCut(r)
  {
    AddedText(text, p);
    SplitWellCut(text);
    NormsWellCut(Split(text));
    SplitJoinLast(NormAll(Split(text)), Block(p));
    BlockNoCutIff(p);
    OneBlockIff(Block(p));
    SameEnds(NormAll(Split(text)), Split(Block(p)), [Block(p)]);
  }

  /** The text after an add: the old parts, reprinted, and the printed block. */
  lemma AddedText(text: string, p: Peer)
    requires PrintedPeer(p) && AddPeerText(text, p).Ok?
    ensures AddPeerText(text, p).value == Join(NormAll(Split(text)) + [Block(p)])
  {
    BlockEnd(p);
    assert NormAll([Header(text)] + (Blocks(text) + [Block(p)])) == NormAll(Split(text)) + [Block(p)];
  }

  lemma OneBlockIff(block: string)
    ensures Split(block) == [block] <==> NoCut(block)
    ensures !NoCut(block) ==> |Split(block)| > 1
  {
    JoinSplit(block);
    SplitWellCut(block);
    if NoCut(block) {
      SplitNoCut(block);
    }
  }

  lemma SameEnds(front: seq<string>, a: seq<string>, b: seq<string>)
    ensures front + a == front + b <==> a == b
  {
    assert (front + a)[|front|..] == a && (front + b)[|front|..] == b;
  }

  lemma NormsWellCut(parts: seq<string>)
    requires WellCut(parts)
    ensures WellCut(NormAll(parts))
  {
    forall i | 0 <= i < |parts| ensures NoCut(Norm(parts[i])) && (i >= 1 ==> PEER_TAG <= Norm(parts[i])) {
      NormKeepsShape(parts[i]);
    }
  }

  lemma SplitAfterRemove(text: string, key: string)
    ensures Split(RemovePeerText(text, key)) == [Norm(Header(text))] + NormAll(Keep(Blocks(text), key))
  {
    SplitOfParts(text);
    KeepWellCut(Header(text), Blocks(text), key);
    SplitRebuild(Header(text), Keep(Blocks(text), key));
  }

  lemma {:induction false} KeepShorter(blocks: seq<string>, key: string)
    ensures |Keep(blocks, key)| <= |blocks|
    ensures AnyNames(blocks, key) ==> |Keep(blocks, key)| < |blocks|
  {
    if blocks != [] {
      KeepShorter(blocks[1..], key);
      if AnyNames(blocks, key) && !Names(blocks[0], key) {
        var i :| 0 <= i < |blocks| && Names(blocks[i], key);
        assert blocks[1..][i - 1] == blocks[i];
      }
    }
  }

  /** A block is found by its own key, whatever its ranges hold. */
  lemma OwnKeyIsNamed(p: Peer)
    ensures Names(Block(p), p.key)
  {
    var block, n := Block(p), |Needle(p.key)|;
    assert block[..7] == "[Peer]\n" && block[7..] == Body(p);
    assert Body(p)[..n] == Needle(p.key);
    assert block[7..7 + n] == Body(p)[..n];
    assert OccursAt(block, Needle(p.key), 7);
  }

  lemma RemoveAfterAdd(text: string, p: Peer)
    requires PrintedPeer(p) && (forall r :: r in p.ranges ==> NoCut(r)) && AddPeerText(text, p).Ok?
    ensures var added := AddPeerText(text, p).value;
            Header(added) == Norm(Header(text)) && Keep(Blocks(added), p.key) == Keep(NormAll(Blocks(text)), p.key)
  {
    var added := AddPeerText(text, p).value;
    SplitAfterAdd(text, p);
    var before := NormAll(Blocks(text));
    assert Blocks(added) == before + [Block(p)];
    OwnKeyIsNamed(p);
    assert Keep([Block(p)], p.key) == [];
    KeepAppend(before, [Block(p)], p.key);
  }

  /** Adding one block to any file and removing it again gives the file back, reprinted, exactly
      if the key is in none of the reprinted blocks; a key without a newline never is. */
  lemma AddThenRemove(text: string, p: Peer)
    requires PrintedPeer(p) && (forall r :: r in p.ranges ==> NoCut(r)) && AddPeerText(text, p).Ok?
    ensures RemovePeerText(AddPeerText(text, p).value, p.key) == Normalise(text) <==> !AnyNames(NormAll(Blocks(text)), p.key)
    ensures '\n' !in p.key ==> RemovePeerText(AddPeerText(text, p).value, p.key) == Normalise(text)
  {
    var added, before := AddPeerText(text, p).value, NormAll(Blocks(text));
    RemoveAfterAdd(text, p);
    if AnyNames(before, p.key) {
      KeepShorter(before, p.key);
      SplitAfterRemove(added, p.key);
      SplitNormalise(text);
      assert |Split(RemovePeerText(added, p.key))| < |Split(Normalise(text))|;
    } else {
      KeepAll(before, p.key);
      RebuildOfNorms(Header(text), Blocks(text));
    }
    if '\n' !in p.key {
      BareOfAccepted(p.key);
      KeepAll(Blocks(text), p.key);
      KeepNormAll(Blocks(text), p.key);
      KeepShorter(before, p.key);
    }
  }

  /** A peer section as an operator may write it, ending without a newline. */
  function BareSection(key: string): string { PEER_TAG + "\n" + Needle(Bare(key)) }

  lemma BareSectionNames(key: string)
    requires Accepts(key) && key != Bare(key)
    ensures !Names(BareSection(key), key) && Names(Norm(BareSection(key)), key)
  {
    BareOfAccepted(key);
    var b, block := Bare(key), BareSection(key);
    NeedleHasNoNewline(b);
    assert forall k :: 0 <= k < |block| ==> block[k] == if k < 6 then PEER_TAG[k] else if k == 6 then '\n' else Needle(b)[k - 7];
    forall i | 0 <= i <= |block| ensures !OccursAt(block, Needle(key), i) {
      if i + 57 <= |block| {
        assert Needle(b)[i + 49] in Needle(b);
        assert block[i..i + 57][56] != Needle(key)[56];
      }
    }
    assert block[|block| - 1] == Needle(b)[55] && Needle(b)[55] in Needle(b);
    assert Norm(block) == block + "\n";
    assert Norm(block)[7..7 + 57] == Needle(key);
    assert OccursAt(Norm(block), Needle(key), 7);
  }

  /** With the newline that the key check tolerates, a key can be in a reprinted block and not
      in the block as it stood: the removal then takes a peer that was there before. */
  lemma AddThenRemoveCanLoseAPeer(p: Peer)
    requires PrintedPeer(p) && (forall r :: r in p.ranges ==> NoCut(r)) && p.key != Bare(p.key)
    ensures var text := "[Interface]" + "\n" + BareSection(p.key);
            AddPeerText(text, p).Ok? && RemovePeerText(AddPeerText(text, p).value, p.key) != Normalise(text)
  {
    var block := BareSection(p.key);
    var text := "[Interface]" + "\n" + block;
    BareOfAccepted(p.key);
    KeyHasNoBracket(p.key);
    NoCutWithoutBracket(Needle(Bare(p.key)));
    SplitStep("[Interface]", block);
    SplitNoCut(block);
    assert Blocks(text) == [block];
    BareSectionNames(p.key);
    assert Names(NormAll(Blocks(text))[0], p.key);
    AddThenRemove(text, p);
  }

  lemma RebuildOfNorms(header: string, blocks: seq<string>)
    ensures Rebuild(Norm(header), NormAll(blocks)) == Rebuild(header, blocks)
  {
    NormAllTwice([header] + blocks);
    assert NormAll([header] + blocks) == [Norm(header)] + NormAll(blocks);
  }

  /** A second removal of the same key finds nothing left to do, exactly if the key is in none
      of the kept blocks as they are reprinted; a key without a newline never is. */
  lemma RemoveTwice(text: string, key: string)
    ensures RemovePeerText(RemovePeerText(text, key), key) == RemovePeerText(text, key)
            <==> !AnyNames(NormAll(Keep(Blocks(text), key)), key)
    ensures MatchesBody(key) ==> RemovePeerText(RemovePeerText(text, key), key) == RemovePeerText(text, key)
  {
    var once, kept := RemovePeerText(text, key), NormAll(Keep(Blocks(text), key));
    SplitAfterRemove(text, key);
    assert Header(once) == Norm(Header(text)) && Blocks(once) == kept;
    if AnyNames(kept, key) {
      KeepShorter(kept, key);
      SplitAfterRemove(once, key);
      assert |Split(RemovePeerText(once, key))| < |Split(once)|;
    } else {
      KeepAll(kept, key);
      RebuildOfNorms(Header(text), Keep(Blocks(text), key));
    }
    if MatchesBody(key) {
      KeepNormAll(Keep(Blocks(text), key), key);
      KeepTwice(Blocks(text), key);
      KeepShorter(kept, key);
    }
  }

  // ---------------------------------------------------------------- any number of edits

  datatype Edit = AddEdit(peer: Peer) | RemoveEdit(key: string)

  predicate PrintedEdit(e: Edit) { e.AddEdit? ==> PrintedPeer(e.peer) }

  /** A refused edit leaves the file alone. */
  function ApplyEdit(text: string, e: Edit): string {
    match e
    case AddEdit(p) => var r := AddPeerText(text, p); if r.Ok? then r.value else text
    case RemoveEdit(key) => RemovePeerText(text, key)
  }

  function ApplyEdits(text: string, edits: seq<Edit>): string
    decreases |edits|
  {
    if edits == [] then text else ApplyEdits(ApplyEdit(text, edits[0]), edits[1..])
  }

  /** What an operator wrote above the first peer survives every series of peer edits. */
  lemma {:induction false} HeaderSurvivesEdits(text: string, edits: seq<Edit>)
    requires forall e :: e in edits ==> PrintedEdit(e)
    ensures StripNewlines(Header(ApplyEdits(text, edits))) == StripNewlines(Header(text))
    decreases |edits|
  {
    if edits != [] {
      var e := edits[0];
      assert PrintedEdit(e);
      var next := ApplyEdit(text, e);
      match e {
        case AddEdit(p) =>
          if AddPeerText(text, p).Ok? {
            SplitAfterAdd(text, p);
          }
        case RemoveEdit(key) =>
          SplitAfterRemove(text, key);
      }
      assert Header(next) == Header(text) || Header(next) == Norm(Header(text));
      StripNewlinesOfTerminated(StripNewlines(Header(text)));
      HeaderSurvivesEdits(next, edits[1..]);
    }
  }

  // ---------------------------------------------------------------- the file as a list of peers

  /** A file that this program's own edits could have produced: any header, printed peers. */
  predicate Represents(text: string, header: string, peers: seq<Peer>) {
    && NoCut(header)
    && (forall i :: 0 <= i < |peers| ==> ValidPeer(peers[i]))
    && text == Rebuild(header, BlocksOf(peers))
  }

  predicate HasKey(peers: seq<Peer>, key: string) {
    exists i :: 0 <= i < |peers| && SameKey(peers[i].key, key)
  }

  function Without(peers: seq<Peer>, key: string): seq<Peer> {
    if peers == [] then []
    else if SameKey(peers[0].key, key) then Without(peers[1..], key)
    else [peers[0]] + Without(peers[1..], key)
  }

  lemma {:induction false} WithoutMembers(peers: seq<Peer>, key: string)
    ensures forall p :: p in Without(peers, key) <==> p in peers && !SameKey(p.key, key)
  {
    if peers != [] {
      WithoutMembers(peers[1..], key);
    }
  }

  lemma PartsOfRepresented(text: string, header: string, peers: seq<Peer>)
    requires Represents(text, header, peers)
    ensures Header(text) == Norm(header) && Blocks(text) == BlocksOf(peers)
  {
    PrintedBlocksWellCut(header, peers);
    SplitRebuild(header, BlocksOf(peers));
  }

  lemma PrintedBlocksWellCut(header: string, peers: seq<Peer>)
    requires NoCut(header) && forall i :: 0 <= i < |peers| ==> ValidPeer(peers[i])
    ensures WellCut([header] + BlocksOf(peers)) && NormAll(BlocksOf(peers)) == BlocksOf(peers)
  {
    var blocks := BlocksOf(peers);
    forall i | 0 <= i < |peers| ensures NoCut(blocks[i]) && PEER_TAG <= blocks[i] && Norm(blocks[i]) == blocks[i] {
      BlockShape(peers[i]);
    }
    WellCutParts(header, blocks);
  }

  lemma WellCutParts(header: string, blocks: seq<string>)
    requires NoCut(header) && forall i :: 0 <= i < |blocks| ==> NoCut(blocks[i]) && PEER_TAG <= blocks[i]
    ensures WellCut([header] + blocks)
  {
  }

  lemma {:induction false} KeepIsWithout(peers: seq<Peer>, key: string)
    requires Accepts(key) && forall i :: 0 <= i < |peers| ==> ValidPeer(peers[i])
    ensures Keep(BlocksOf(peers), key) == BlocksOf(Without(peers, key))
  {
    if peers == [] {
      assert BlocksOf(peers) == [];
    } else {
      var p, rest := peers[0], peers[1..];
      assert ValidPeer(p) && forall i :: 0 <= i < |rest| ==> rest[i] == peers[i + 1];
      KeepIsWithout(rest, key);
      BlocksOfCons(p, rest);
      BlocksOfCons(p, Without(rest, key));
      KeepCons(Block(p), BlocksOf(rest), key);
      BlockNamesExactlyItsKey(p, key);
      assert [p] + rest == peers;
    }
  }

  lemma KeepCons(block: string, rest: seq<string>, key: string)
    ensures Keep([block] + rest, key) == (if Names(block, key) then [] else [block]) + Keep(rest, key)
  {
    assert ([block] + rest)[1..] == rest;
  }

  lemma BlocksOfCons(p: Peer, rest: seq<Peer>)
    ensures BlocksOf([p] + rest) == [Block(p)] + BlocksOf(rest)
  {
  }

  lemma AnyNamesIsHasKey(peers: seq<Peer>, key: string)
    requires Accepts(key) && forall i :: 0 <= i < |peers| ==> ValidPeer(peers[i])
    ensures AnyNames(BlocksOf(peers), key) <==> HasKey(peers, key)
  {
    forall i | 0 <= i < |peers| ensures Names(BlocksOf(peers)[i], key) <==> SameKey(peers[i].key, key) {
      BlockNamesExactlyItsKey(peers[i], key);
    }
  }

  /** On the text, add_peer does what appending to a list without a duplicate does. */
  lemma AddRefines(text: string, header: string, peers: seq<Peer>, p: Peer)
    requires Represents(text, header, peers) && ValidPeer(p)
    ensures AddPeerText(text, p).Err? <==> HasKey(peers, p.key)
    ensures !HasKey(peers, p.key) ==> Represents(AddPeerText(text, p).value, header, peers + [p])
  {
    PartsOfRepresented(text, header, peers);
    AnyNamesIsHasKey(peers, p.key);
    if !HasKey(peers, p.key) {
      assert BlocksOf(peers + [p]) == BlocksOf(peers) + [Block(p)];
      RebuildNormHeader(header, BlocksOf(peers + [p]));
    }
  }

  lemma RebuildNormHeader(header: string, blocks: seq<string>)
    ensures Rebuild(Norm(header), blocks) == Rebuild(header, blocks)
  {
    NormTwice(header);
    assert NormAll([Norm(header)] + blocks) == NormAll([header] + blocks);
  }

  /** On the text, remove_peer does what filtering the list by key does. */
  lemma RemoveRefines(text: string, header: string, peers: seq<Peer>, key: string)
    requires Represents(text, header, peers) && Accepts(key)
    ensures Represents(RemovePeerText(text, key), header, Without(peers, key))
  {
    PartsOfRepresented(text, header, peers);
    KeepIsWithout(peers, key);
    RebuildNormHeader(header, BlocksOf(Without(peers, key)));
    WithoutMembers(peers, key);
    var rest := Without(peers, key);
    forall i | 0 <= i < |rest| ensures ValidPeer(rest[i]) {
      assert rest[i] in peers;
    }
  }
}
