/** What a tunnel's .conf text says: the daemon's multi-line pattern search, with the
    exact reach of \s (it may cross line ends), and the role, address, endpoint and
    ranges that it reports. */
module ConfInfo {
  import opened Text
  import opened WgKey
  import opened ConfText

  // ---------------------------------------------------------------- the pattern search

  /** What \s and str.strip() treat as white space. */
  predicate IsSpace(c: char) {
    var n := c as int;
    || 9 <= n <= 13 || 28 <= n <= 32 || n == 0x85 || n == 0xA0 || n == 0x1680
    || 0x2000 <= n <= 0x200A || n == 0x2028 || n == 0x2029 || n == 0x202F || n == 0x205F || n == 0x3000
  }

  function SkipSpace(s: string): (r: string)
    ensures |r| <= |s|
    ensures r == "" || !IsSpace(r[0])
  {
    if s != "" && IsSpace(s[0]) then SkipSpace(s[1..]) else s
  }

  function TrimEnd(s: string): string {
    if s != "" && IsSpace(s[|s| - 1]) then TrimEnd(s[..|s| - 1]) else s
  }

  /** str.strip(). */
  function Trim(s: string): string { TrimEnd(SkipSpace(s)) }

  function FirstLine(s: string): (line: string)
    ensures |line| <= |s| && '\n' !in line
    ensures s != "" && s[0] != '\n' ==> line != ""
  {
    if s == "" || s[0] == '\n' then "" else [s[0]] + FirstLine(s[1..])
  }

  datatype Match = NoMatch | Match(value: string, rest: string)

  /** The last character that . can match, for a value that is nothing but white space. */
  function LastVisible(s: string): Match {
    if s == "" then NoMatch
    else if s[|s| - 1] == '\n' then LastVisible(s[..|s| - 1])
    else Match([s[|s| - 1]], "")
  }

  /** \s*(.+?)\s*$ after the equals sign: the first text found, up to its line's end. */
  function ValueAt(s: string): (m: Match)
    ensures m.Match? ==> |m.rest| < |s|
  {
    var r := SkipSpace(s);
    if r != "" then
      assert r[0] != '\n';
      Match(TrimEnd(FirstLine(r)), r[|FirstLine(r)|..])
    else
      var m := LastVisible(s);
      if m.Match? then Match(m.value, "") else NoMatch
  }

  /** ^\s*name\s*=\s*(.+?)\s*$ tried at one place. */
  function MatchAt(s: string, name: string): (m: Match)
    ensures m.Match? ==> |m.rest| < |s|
  {
    var t := SkipSpace(s);
    if !(name <= t) then NoMatch
    else
      var u := SkipSpace(t[|name|..]);
      if u == "" || u[0] != '=' then NoMatch else ValueAt(u[1..])
  }

  /** The values of all matches in order, scanning from a place that is or is not at the
      beginning of a line. */
  function Matches(s: string, name: string, lineStart: bool): seq<string>
    decreases |s|
  {
    var m := if lineStart then MatchAt(s, name) else NoMatch;
    if m.Match? then [m.value] + Matches(m.rest, name, false)
    else if s == "" then []
    else Matches(s[1..], name, s[0] == '\n')
  }

  // ---------------------------------------------------------------- the report

  datatype Info = Info(client: bool, address: Option<string>, endpoint: Option<string>, ranges: seq<string>)

  function First(values: seq<string>): Option<string> {
    if values == [] then None else Some(values[0])
  }

  function NonEmptyTrimmed(parts: seq<string>): seq<string> {
    if parts == [] then []
    else if Trim(parts[0]) == "" then NonEmptyTrimmed(parts[1..])
    else [Trim(parts[0])] + NonEmptyTrimmed(parts[1..])
  }

  /** The entries of one AllowedIPs value. */
  function RangesOfValue(value: string): seq<string> { NonEmptyTrimmed(SplitOn(value, ',')) }

  function RangesOfValues(values: seq<string>): seq<string> {
    if values == [] then []
    else RangesOfValues(values[..|values| - 1]) + RangesOfValue(values[|values| - 1])
  }

  function RangesOfBlock(block: string): seq<string> { RangesOfValues(Matches(block, "AllowedIPs", true)) }

  function RangesOfBlocks(blocks: seq<string>): seq<string> {
    if blocks == [] then []
    else RangesOfBlocks(blocks[..|blocks| - 1]) + RangesOfBlock(blocks[|blocks| - 1])
  }

  function EndpointOfBlock(block: string): Option<string> { First(Matches(block, "Endpoint", true)) }

  function EndpointOfBlocks(blocks: seq<string>): Option<string> {
    if blocks == [] then None
    else
      var earlier := EndpointOfBlocks(blocks[..|blocks| - 1]);
      if earlier.Some? then earlier else EndpointOfBlock(blocks[|blocks| - 1])
  }

  function Report(header: string, blocks: seq<string>): Info {
    var endpoint := EndpointOfBlocks(blocks);
    Info(endpoint.Some?, First(Matches(header, "Address", true)), endpoint, RangesOfBlocks(blocks))
  }

  function InfoOf(content: string): Info { Report(Header(content), Blocks(content)) }

  lemma RangesOfBlocksSnoc(blocks: seq<string>, i: nat)
    requires i < |blocks|
    ensures RangesOfBlocks(blocks[..i + 1]) == RangesOfBlocks(blocks[..i]) + RangesOfBlock(blocks[i])
  {
    assert blocks[..i + 1][..i] == blocks[..i];
  }

  lemma EndpointOfBlocksSnoc(blocks: seq<string>, i: nat)
    requires i < |blocks|
    ensures EndpointOfBlocks(blocks[..i + 1]) ==
            if EndpointOfBlocks(blocks[..i]).Some? then EndpointOfBlocks(blocks[..i]) else EndpointOfBlock(blocks[i])
  {
    assert blocks[..i + 1][..i] == blocks[..i];
  }

  lemma RangesOfValuesSnoc(values: seq<string>, j: nat)
    requires j < |values|
    ensures RangesOfValues(values[..j + 1]) == RangesOfValues(values[..j]) + RangesOfValue(values[j])
  {
    assert values[..j + 1][..j] == values[..j];
  }

  /** The inner loop: every AllowedIPs line of a block extends the list. */
  method ExtendRanges(before: seq<string>, block: string) returns (ranges: seq<string>)
    ensures ranges == before + RangesOfBlock(block)
  {
    ranges := before;
    var lines := Matches(block, "AllowedIPs", true);
    assert lines[..0] == [] && before + [] == before;
    for j := 0 to |lines|
      invariant ranges == before + RangesOfValues(lines[..j])
    {
      var found := RangesOfValue(lines[j]);
      RangesOfValuesSnoc(lines, j);
      assert before + RangesOfValues(lines[..j]) + found == before + (RangesOfValues(lines[..j]) + found);
      ranges := ranges + found;
    }
    assert lines[..|lines|] == lines;
  }

  method ParseConfInfo(content: string) returns (info: Info)
    ensures info == InfoOf(content)
  {
    var header, peerBlocks := Header(content), Blocks(content);
    var addresses := Matches(header, "Address", true);
    var endpoint: Option<string> := None;
    var ranges: seq<string> := [];
    for i := 0 to |peerBlocks|
      invariant endpoint == EndpointOfBlocks(peerBlocks[..i])
      invariant ranges == RangesOfBlocks(peerBlocks[..i])
    {
      EndpointOfBlocksSnoc(peerBlocks, i);
      RangesOfBlocksSnoc(peerBlocks, i);
      var found := Matches(peerBlocks[i], "Endpoint", true);
      if found != [] && endpoint.None? {
        endpoint := Some(found[0]);
      }
      ranges := ExtendRanges(ranges, peerBlocks[i]);
    }
    assert peerBlocks[..|peerBlocks|] == peerBlocks;
    info := Info(endpoint.Some?, First(addresses), endpoint, ranges);
  }

  // ---------------------------------------------------------------- reading lines

  lemma {:induction false} SkipLine(line: string, rest: string, name: string)
    requires '\n' !in line
    ensures Matches(line + "\n" + rest, name, false) == Matches(rest, name, true)
  {
    var s := line + "\n" + rest;
    if line == "" {
      assert s[1..] == rest;
    } else {
      assert line[0] in line;
      assert s[1..] == line[1..] + "\n" + rest;
      SkipLine(line[1..], rest, name);
    }
  }

  lemma BlankLine(rest: string, name: string)
    ensures Matches("\n" + rest, name, true) == Matches(rest, name, true)
  {
    var s := "\n" + rest;
    assert s[1..] == rest;
    assert SkipSpace(s) == SkipSpace(rest);
    assert MatchAt(s, name) == MatchAt(rest, name);
  }

  /** A line that visibly starts with another word. */
  predicate Unlike(line: string, name: string) {
    2 <= |line| && 2 <= |name| && !IsSpace(line[0]) && (line[0] != name[0] || line[1] != name[1])
  }

  /** Such a line is passed over. */
  lemma OtherLine(line: string, rest: string, name: string)
    requires Unlike(line, name) && '\n' !in line
    ensures Matches(line + "\n" + rest, name, true) == Matches(rest, name, true)
  {
    var s := line + "\n" + rest;
    assert s[0] == line[0] && s[1] == line[1];
    assert SkipSpace(s) == s;
    assert s[1..] == line[1..] + "\n" + rest;
    SkipLine(line[1..], rest, name);
  }

  /** A value that a line can carry whole. */
  predicate Visible(v: string) {
    v != "" && !IsSpace(v[0]) && !IsSpace(v[|v| - 1]) && '\n' !in v
  }

  lemma {:induction false} FirstLineIs(v: string, rest: string)
    requires '\n' !in v
    ensures FirstLine(v + "\n" + rest) == v
  {
    var s := v + "\n" + rest;
    if v != "" {
      assert v[0] in v;
      assert s[1..] == v[1..] + "\n" + rest;
      FirstLineIs(v[1..], rest);
      assert v == [v[0]] + v[1..];
    }
  }

  lemma NameThenEquals(name: string, after: string)
    requires name != "" && !IsSpace(name[0])
    ensures MatchAt(name + (" = " + after), name) == ValueAt(" " + after)
  {
    var s, u := name + (" = " + after), "= " + after;
    assert s[0] == name[0] && SkipSpace(s) == s && s[|name|..] == " = " + after;
    SkipOneSpace(u);
    assert " = " + after == " " + u;
    assert u[1..] == " " + after;
  }

  lemma MatchOwnLine(name: string, v: string, rest: string)
    requires name != "" && !IsSpace(name[0]) && Visible(v)
    ensures MatchAt(Setting(name, v) + rest, name) == Match(v, "\n" + rest)
  {
    var s := Setting(name, v) + rest;
    var after := v + "\n" + rest;
    assert s == name + (" = " + after);
    NameThenEquals(name, after);
    assert after[0] == v[0];
    SkipOneSpace(after);
    FirstLineIs(v, rest);
    assert after[|v|..] == "\n" + rest;
  }

  lemma SkipOneSpace(s: string)
    requires s != "" && !IsSpace(s[0])
    ensures SkipSpace(" " + s) == s
  {
    assert (" " + s)[1..] == s;
  }

  /** A line "name = value" is found, and the search goes on after it. */
  lemma OwnLine(name: string, v: string, rest: string)
    requires name != "" && !IsSpace(name[0]) && Visible(v)
    ensures Matches(Setting(name, v) + rest, name, true) == [v] + Matches(rest, name, true)
  {
    MatchOwnLine(name, v, rest);
    SkipLine("", rest, name);
    assert "" + "\n" + rest == "\n" + rest;
  }

  // ---------------------------------------------------------------- trailing newlines do not matter

  lemma {:induction false} SkipSpaceNewline(s: string)
    ensures SkipSpace(s + "\n") == if SkipSpace(s) == "" then "" else SkipSpace(s) + "\n"
  {
    if s == "" {
      assert (s + "\n")[1..] == "";
    } else if IsSpace(s[0]) {
      SkipSpaceNewline(s[1..]);
      assert (s + "\n")[1..] == s[1..] + "\n";
    }
  }

  lemma {:induction false} FirstLineNewline(s: string)
    ensures FirstLine(s + "\n") == FirstLine(s)
    ensures (s + "\n")[|FirstLine(s)|..] == s[|FirstLine(s)|..] + "\n"
  {
    if s != "" && s[0] != '\n' {
      FirstLineNewline(s[1..]);
      assert (s + "\n")[1..] == s[1..] + "\n";
    }
  }

  lemma LastVisibleNewline(s: string)
    ensures LastVisible(s + "\n") == LastVisible(s)
  {
    assert (s + "\n")[..|s + "\n"| - 1] == s;
  }

  /** A match is the same with one more newline at the end, and what follows it differs by at most that. */
  predicate SameButEnd(m: Match, n: Match) {
    match m
    case NoMatch => n.NoMatch?
    case Match(v, rest) => n.Match? && n.value == v && (n.rest == rest + "\n" || (n.rest == "" && rest == ""))
  }

  lemma ValueAtNewline(s: string)
    ensures SameButEnd(ValueAt(s), ValueAt(s + "\n"))
  {
    SkipSpaceNewline(s);
    var r := SkipSpace(s);
    if r != "" {
      FirstLineNewline(r);
    } else {
      LastVisibleNewline(s);
    }
  }

  lemma MatchAtNewline(s: string, name: string)
    requires name != "" && '\n' !in name
    ensures SameButEnd(MatchAt(s, name), MatchAt(s + "\n", name))
  {
    SkipSpaceNewline(s);
    var t := SkipSpace(s);
    PrefixNewline(name, t);
    if name <= t {
      assert (t + "\n")[|name|..] == t[|name|..] + "\n";
      SkipSpaceNewline(t[|name|..]);
      var u := SkipSpace(t[|name|..]);
      if u != "" {
        assert (u + "\n")[1..] == u[1..] + "\n";
        ValueAtNewline(u[1..]);
      }
    }
  }

  lemma PrefixNewline(name: string, t: string)
    requires '\n' !in name
    ensures name <= t + "\n" <==> name <= t
  {
    if |name| == |t| + 1 {
      assert name[|t|] in name;
    } else if |name| <= |t| {
      assert (t + "\n")[..|name|] == t[..|name|];
    }
  }

  lemma {:induction false} MatchesNewline(s: string, name: string, lineStart: bool)
    requires name != "" && '\n' !in name
    ensures Matches(s + "\n", name, lineStart) == Matches(s, name, lineStart)
    decreases |s|
  {
    MatchAtNewline(s, name);
    var m := if lineStart then MatchAt(s, name) else NoMatch;
    if m.Match? {
      var n := MatchAt(s + "\n", name);
      if n.rest == m.rest + "\n" {
        MatchesNewline(m.rest, name, false);
      }
    } else if s == "" {
      assert (s + "\n")[1..] == "";
      assert MatchAt("", name) == NoMatch;
    } else {
      assert (s + "\n")[1..] == s[1..] + "\n";
      MatchesNewline(s[1..], name, s[0] == '\n');
    }
  }

  lemma {:induction false} MatchesStrip(s: string, name: string)
    requires name != "" && '\n' !in name
    ensures Matches(StripNewlines(s), name, true) == Matches(s, name, true)
  {
    if s != "" && s[|s| - 1] == '\n' {
      var t := s[..|s| - 1];
      assert s == t + "\n";
      MatchesNewline(t, name, true);
      MatchesStrip(t, name);
    }
  }

  /** The search reads a part the same before and after it was reprinted. */
  lemma MatchesNorm(part: string, name: string)
    requires name != "" && '\n' !in name
    ensures Matches(Norm(part), name, true) == Matches(part, name, true)
  {
    MatchesStrip(part, name);
    MatchesNewline(StripNewlines(part), name, true);
  }

  // ---------------------------------------------------------------- comma lists

  lemma RangeCharsVisible(r: string)
    requires IsRange(r)
    ensures Visible(r) && ',' !in r
  {
    assert forall c :: c in r ==> RangeChar(c);
    assert r[0] in r && r[|r| - 1] in r;
  }

  /** Ranges that a comma list on one line gives back. */
  predicate Listable(ranges: seq<string>) {
    ranges != [] && forall r :: r in ranges ==> Edged(r) && Inline(r)
  }

  lemma EdgedVisible(r: string)
    requires Edged(r) && '\n' !in r
    ensures Visible(r)
  {
  }

  lemma RangesAreListable(ranges: seq<string>)
    requires ranges != [] && forall r :: r in ranges ==> IsRange(r)
    ensures Listable(ranges)
  {
    forall r | r in ranges ensures Clean(r) {
      RangeIsClean(r);
    }
  }

  lemma TrimVisible(r: string)
    requires Visible(r)
    ensures Trim(r) == r && Trim(" " + r) == r
  {
    assert (" " + r)[1..] == r;
  }

  lemma SplitOnPrefix(s: string)
    ensures SplitOn(" " + s, ',') == [" " + SplitOn(s, ',')[0]] + SplitOn(s, ',')[1..]
  {
    assert (" " + s)[1..] == s;
  }

  /** Reading a printed list of ranges gives the list. */
  lemma {:induction false} RangesRoundTrip(ranges: seq<string>)
    requires Listable(ranges)
    ensures RangesOfValue(CommaJoin(ranges)) == ranges
    ensures RangesOfValue(" " + CommaJoin(ranges)) == ranges
  {
    var r := ranges[0];
    assert r in ranges;
    EdgedVisible(r);
    TrimVisible(r);
    if |ranges| == 1 {
      SplitOnToken(r, ',');
      SplitOnPrefix(r);
      assert NonEmptyTrimmed([r]) == [r];
      assert SplitOn(" " + r, ',') == [" " + r];
      assert Trim([" " + r][0]) == r;
      assert NonEmptyTrimmed([" " + r]) == [r];
    } else {
      var rest := CommaJoin(ranges[1..]);
      RangesRoundTrip(ranges[1..]);
      SplitOnStep(r, " " + rest, ',');
      assert CommaJoin(ranges) == r + "," + (" " + rest);
      var parts := SplitOn(" " + rest, ',');
      assert SplitOn(CommaJoin(ranges), ',') == [r] + parts;
      SplitOnPrefix(CommaJoin(ranges));
      assert ([r] + parts)[1..] == parts && ([" " + r] + parts)[1..] == parts;
      assert [r] + ranges[1..] == ranges;
    }
  }

  lemma CommaJoinVisible(ranges: seq<string>)
    requires Listable(ranges)
    ensures Visible(CommaJoin(ranges))
  {
    CommaJoinChars(ranges, '\n');
    assert forall i :: 0 <= i < |ranges| ==> ranges[i] in ranges;
    CommaJoinEdged(ranges);
    EdgedVisible(CommaJoin(ranges));
  }

  // Nothing that is read from a list holds a newline or a comma.

  lemma {:induction false} TrimEndChars(s: string)
    ensures forall c :: c in TrimEnd(s) ==> c in s
  {
    if s != "" && IsSpace(s[|s| - 1]) {
      TrimEndChars(s[..|s| - 1]);
    }
  }

  lemma {:induction false} TrimChars(s: string)
    ensures forall c :: c in Trim(s) ==> c in s
  {
    TrimEndChars(SkipSpace(s));
    SkipSpaceChars(s);
  }

  lemma {:induction false} SkipSpaceChars(s: string)
    ensures forall c :: c in SkipSpace(s) ==> c in s
  {
    if s != "" && IsSpace(s[0]) {
      SkipSpaceChars(s[1..]);
    }
  }

  lemma {:induction false} LastVisibleIsOneChar(s: string)
    ensures LastVisible(s).Match? ==> '\n' !in LastVisible(s).value
  {
    if s != "" && s[|s| - 1] == '\n' {
      LastVisibleIsOneChar(s[..|s| - 1]);
    }
  }

  lemma ValueIsOneLine(s: string)
    ensures ValueAt(s).Match? ==> '\n' !in ValueAt(s).value
  {
    if SkipSpace(s) != "" {
      TrimEndChars(FirstLine(SkipSpace(s)));
    } else {
      LastVisibleIsOneChar(s);
    }
  }

  lemma {:induction false} MatchesAreLines(s: string, name: string, lineStart: bool)
    ensures forall v :: v in Matches(s, name, lineStart) ==> '\n' !in v
    decreases |s|
  {
    var m := if lineStart then MatchAt(s, name) else NoMatch;
    if m.Match? {
      ValueIsOneLine(SkipSpace(SkipSpace(s)[|name|..])[1..]);
      MatchesAreLines(m.rest, name, false);
    } else if s != "" {
      MatchesAreLines(s[1..], name, s[0] == '\n');
    }
  }

  lemma {:induction false} TrimmedAreInline(parts: seq<string>)
    requires forall i :: 0 <= i < |parts| ==> Inline(parts[i])
    ensures forall r :: r in NonEmptyTrimmed(parts) ==> Inline(r)
  {
    if parts != [] {
      TrimChars(parts[0]);
      TrimmedAreInline(parts[1..]);
    }
  }

  lemma {:induction false} ReadValuesAreInline(values: seq<string>)
    requires forall v :: v in values ==> '\n' !in v
    ensures forall r :: r in RangesOfValues(values) ==> Inline(r)
  {
    if values != [] {
      var last := values[|values| - 1];
      ReadValuesAreInline(values[..|values| - 1]);
      assert last in values;
      PartsHaveNo(last, ',');
      TrimmedAreInline(SplitOn(last, ','));
    }
  }

  lemma ReadRangesAreInline(block: string)
    ensures forall r :: r in RangesOfBlock(block) ==> Inline(r)
  {
    MatchesAreLines(block, "AllowedIPs", true);
    ReadValuesAreInline(Matches(block, "AllowedIPs", true));
  }

  lemma {:induction false} ReportedRangesAreInline(blocks: seq<string>)
    ensures forall r :: r in RangesOfBlocks(blocks) ==> Inline(r)
  {
    if blocks != [] {
      ReportedRangesAreInline(blocks[..|blocks| - 1]);
      ReadRangesAreInline(blocks[|blocks| - 1]);
    }
  }

  lemma RangesOfOne(value: string)
    ensures RangesOfValues([value]) == RangesOfValue(value)
  {
    assert [value][..0] == [];
  }

  // ---------------------------------------------------------------- printed peer blocks

  lemma KeyVisible(k: string)
    requires MatchesBody(k)
    ensures Visible(k)
  {
    BareOfAccepted(k);
  }

  lemma DecimalVisible(n: nat)
    ensures Visible(Decimal(n))
  {
    var s := Decimal(n);
    assert s[0] in s && s[|s| - 1] in s;
  }

  /** The name of a setting. */
  predicate Word(s: string) { s != "" && !IsSpace(s[0]) && '\n' !in s }

  /** A line "name = value"; an accepted key may bring one newline at its end. */
  lemma SettingHas(setting: string, value: string, rest: string, name: string)
    requires Word(setting) && (setting == name || Unlike(setting, name)) && Visible(Bare(value))
    ensures Matches(Setting(setting, value) + rest, name, true) ==
            (if setting == name then [Bare(value)] else []) + Matches(rest, name, true)
  {
    var bare := Bare(value);
    if value == bare {
      OneLineHas(setting, bare, rest, name);
    } else {
      assert value == bare + "\n";
      OneLineHas(setting, bare, "\n" + rest, name);
      BlankLine(rest, name);
      SettingOfTwoLines(setting, bare, rest);
    }
  }

  lemma OneLineHas(setting: string, value: string, rest: string, name: string)
    requires Word(setting) && (setting == name || Unlike(setting, name)) && Visible(value)
    ensures Matches(Setting(setting, value) + rest, name, true) ==
            (if setting == name then [value] else []) + Matches(rest, name, true)
  {
    if setting == name {
      OwnLine(name, value, rest);
    } else {
      var line := setting + " = " + value;
      assert line[0] == setting[0] && line[1] == setting[1];
      OtherLine(line, rest, name);
      assert Setting(setting, value) + rest == line + "\n" + rest;
    }
  }

  lemma SettingOfTwoLines(name: string, v: string, rest: string)
    ensures Setting(name, v + "\n") + rest == Setting(name, v) + ("\n" + rest)
  {
  }

  lemma BareOfVisible(v: string)
    requires Visible(v)
    ensures Bare(v) == v
  {
    assert v[|v| - 1] in v;
  }

  lemma NoMatchesInEmpty(name: string)
    requires name != ""
    ensures Matches("", name, true) == []
  {
    assert MatchAt("", name) == NoMatch;
  }

  /** The settings of a peer section. */
  predicate PeerSetting(name: string) {
    name in {"PublicKey", "PresharedKey", "AllowedIPs", "Endpoint", "PersistentKeepalive"}
  }

  lemma PeerSettings(a: string, b: string)
    requires PeerSetting(a) && PeerSetting(b)
    ensures Word(a) && (a == b || Unlike(a, b))
  {
  }

  /** What a section gives for a key, a preshared key and ranges. */
  function KeyValues(key: string, psk: Option<string>, ranges: seq<string>, name: string): seq<string> {
    if name == "PublicKey" then [Bare(key)]
    else if name == "PresharedKey" then if psk.Some? then [Bare(psk.value)] else []
    else if name == "AllowedIPs" then [CommaJoin(ranges)]
    else []
  }

  function KeepaliveValues(keepalive: string, name: string): seq<string> {
    if name == "PersistentKeepalive" && keepalive != "" then [keepalive] else []
  }

  /** A keepalive of 0 prints like none. */
  function KeepaliveText(keepalive: nat): string { if keepalive != 0 then Decimal(keepalive) else "" }

  lemma KeySettingHas(setting: string, key: string, rest: string, name: string)
    requires Accepts(key) && PeerSetting(setting) && PeerSetting(name)
    ensures Matches(Setting(setting, key) + rest, name, true) == (if setting == name then [Bare(key)] else []) + Matches(rest, name, true)
  {
    BareOfAccepted(key);
    KeyVisible(Bare(key));
    PeerSettings(setting, name);
    SettingHas(setting, key, rest, name);
  }

  lemma PskTextHas(psk: Option<string>, text: string, rest: string, name: string)
    requires (psk.Some? ==> Accepts(psk.value)) && text == (if psk.Some? then Setting("PresharedKey", psk.value) else "") && PeerSetting(name)
    ensures Matches(text + rest, name, true) ==
            (if name == "PresharedKey" && psk.Some? then [Bare(psk.value)] else []) + Matches(rest, name, true)
  {
    if psk.Some? {
      KeySettingHas("PresharedKey", psk.value, rest, name);
    } else {
      assert text + rest == rest;
    }
  }

  lemma RangesLineHas(ranges: seq<string>, rest: string, name: string)
    requires Listable(ranges) && PeerSetting(name)
    ensures Matches(Setting("AllowedIPs", CommaJoin(ranges)) + rest, name, true) ==
            (if name == "AllowedIPs" then [CommaJoin(ranges)] else []) + Matches(rest, name, true)
  {
    CommaJoinVisible(ranges);
    BareOfVisible(CommaJoin(ranges));
    PeerSettings("AllowedIPs", name);
    SettingHas("AllowedIPs", CommaJoin(ranges), rest, name);
  }

  lemma KeyLinesHave(key: string, psk: Option<string>, ranges: seq<string>, pskText: string, rest: string, name: string)
    requires Accepts(key) && (psk.Some? ==> Accepts(psk.value)) && PeerSetting(name)
    requires Listable(ranges)
    requires pskText == if psk.Some? then Setting("PresharedKey", psk.value) else ""
    ensures Matches(Setting("PublicKey", key) + (pskText + (Setting("AllowedIPs", CommaJoin(ranges)) + rest)), name, true) ==
            KeyValues(key, psk, ranges, name) + Matches(rest, name, true)
  {
    var last := Setting("AllowedIPs", CommaJoin(ranges)) + rest;
    RangesLineHas(ranges, rest, name);
    PskTextHas(psk, pskText, last, name);
    KeySettingHas("PublicKey", key, pskText + last, name);
    var found := Matches(rest, name, true);
    assert [] + found == found;
  }

  lemma KeepaliveVisible(keepalive: string)
    requires IsKeepalive(keepalive) && keepalive != ""
    ensures Visible(keepalive) && Bare(keepalive) == keepalive
  {
    assert keepalive[0] in keepalive && keepalive[|keepalive| - 1] in keepalive;
    BareOfVisible(keepalive);
  }

  lemma KeepaliveTextHas(keepalive: string, text: string, name: string)
    requires text == (if keepalive != "" then Setting("PersistentKeepalive", keepalive) else "") && PeerSetting(name)
    requires IsKeepalive(keepalive)
    ensures Matches(text, name, true) == KeepaliveValues(keepalive, name)
  {
    NoMatchesInEmpty(name);
    if keepalive != "" {
      KeepaliveVisible(keepalive);
      PeerSettings("PersistentKeepalive", name);
      SettingHas("PersistentKeepalive", keepalive, "", name);
      assert text == text + "";
    }
  }

  /** A printed server-side block gives back each setting, and none that it was not given. */
  lemma BlockSettings(p: Peer, name: string)
    requires PrintedPeer(p) && Listable(p.ranges) && PeerSetting(name)
    ensures Matches(Block(p), name, true) == KeyValues(p.key, p.psk, p.ranges, name) + KeepaliveValues(p.keepalive, name)
  {
    OtherLine(PEER_TAG, Body(p), name);
    KeyLinesHave(p.key, p.psk, p.ranges, PskLine(p), KeepaliveLine(p), name);
    KeepaliveTextHas(p.keepalive, KeepaliveLine(p), name);
  }

  /** Exactly if no range holds a newline or a comma, it gives the peer's ranges, and then it has
      no endpoint. */
  lemma BlockReadsBack(p: Peer)
    requires PrintedPeer(p)
    ensures RangesOfBlock(Block(p)) == p.ranges <==> Listable(p.ranges)
    ensures Listable(p.ranges) ==> EndpointOfBlock(Block(p)) == None
  {
    ReadRangesAreInline(Block(p));
    if Listable(p.ranges) {
      BlockSettings(p, "AllowedIPs");
      BlockSettings(p, "Endpoint");
      RangesOfOne(CommaJoin(p.ranges));
      RangesRoundTrip(p.ranges);
    }
  }

  function KeyOfBlock(block: string): Option<string> { First(Matches(block, "PublicKey", true)) }

  /** A printed block gives its key back, without the newline that the check tolerates. */
  lemma BlockGivesKey(p: Peer)
    requires PrintedPeer(p) && Listable(p.ranges)
    ensures KeyOfBlock(Block(p)) == Some(Bare(p.key))
  {
    BlockSettings(p, "PublicKey");
  }

  // ---------------------------------------------------------------- edits and the report

  lemma {:induction false} RangesOfNormBlocks(blocks: seq<string>)
    ensures RangesOfBlocks(NormAll(blocks)) == RangesOfBlocks(blocks)
  {
    if blocks != [] {
      var n := |blocks| - 1;
      assert NormAll(blocks)[..n] == NormAll(blocks[..n]);
      RangesOfNormBlocks(blocks[..n]);
      MatchesNorm(blocks[n], "AllowedIPs");
    }
  }

  lemma {:induction false} EndpointOfNormBlocks(blocks: seq<string>)
    ensures EndpointOfBlocks(NormAll(blocks)) == EndpointOfBlocks(blocks)
  {
    if blocks != [] {
      var n := |blocks| - 1;
      assert NormAll(blocks)[..n] == NormAll(blocks[..n]);
      EndpointOfNormBlocks(blocks[..n]);
      MatchesNorm(blocks[n], "Endpoint");
    }
  }

  /** Adding a server-side peer to any file whatsoever appends exactly its ranges to the report
      and changes neither role, address nor endpoint, if and only if no range holds a newline or
      a comma. */
  lemma AddPeerReport(text: string, p: Peer)
    requires PrintedPeer(p) && AddPeerText(text, p).Ok?
    ensures InfoOf(AddPeerText(text, p).value) == InfoOf(text).(ranges := InfoOf(text).ranges + p.ranges) <==> Listable(p.ranges)
  {
    var added := AddPeerText(text, p).value;
    ReportedRangesAreInline(Blocks(added));
    assert forall r :: r in p.ranges ==> r in InfoOf(text).ranges + p.ranges;
    if Listable(p.ranges) {
      ListableReport(text, p);
    }
  }

  lemma ListableReport(text: string, p: Peer)
    requires PrintedPeer(p) && AddPeerText(text, p).Ok? && Listable(p.ranges)
    ensures InfoOf(AddPeerText(text, p).value) == InfoOf(text).(ranges := InfoOf(text).ranges + p.ranges)
  {
    var added := AddPeerText(text, p).value;
    SplitAfterAdd(text, p);
    forall r | r in p.ranges ensures NoCut(r) {
      InlineHasNoCut(r);
    }
    assert Header(added) == Norm(Header(text)) && Blocks(added) == NormAll(Blocks(text)) + [Block(p)];
    ReportOfNorms(Header(text), Blocks(text));
    BlocksReportSnoc(NormAll(Blocks(text)), p);
  }

  lemma ReportOfNorms(header: string, blocks: seq<string>)
    ensures Report(Norm(header), NormAll(blocks)) == Report(header, blocks)
  {
    MatchesNorm(header, "Address");
    RangesOfNormBlocks(blocks);
    EndpointOfNormBlocks(blocks);
  }

  lemma BlocksReportSnoc(blocks: seq<string>, p: Peer)
    requires PrintedPeer(p) && Listable(p.ranges)
    ensures RangesOfBlocks(blocks + [Block(p)]) == RangesOfBlocks(blocks) + p.ranges
    ensures EndpointOfBlocks(blocks + [Block(p)]) == EndpointOfBlocks(blocks)
  {
    var block := Block(p);
    BlockReadsBack(p);
    assert (blocks + [block])[..|blocks|] == blocks && (blocks + [block])[|blocks|] == block;
  }

  /** After a removal the report is that of the header and the blocks that were kept. */
  lemma RemovePeerReport(text: string, key: string)
    ensures InfoOf(RemovePeerText(text, key)) ==
            var endpoint := EndpointOfBlocks(Keep(Blocks(text), key));
            Info(endpoint.Some?, InfoOf(text).address, endpoint, RangesOfBlocks(Keep(Blocks(text), key)))
  {
    SplitAfterRemove(text, key);
    ReportOfNorms(Header(text), Keep(Blocks(text), key));
  }

  // ---------------------------------------------------------------- the file create_tunnel writes

  const INTERFACE_TAG := "[Interface]"

  function TunnelConf(privateKey: string, address: string, port: nat): string {
    INTERFACE_TAG + "\n" + TunnelBody(privateKey, address, port)
  }

  function TunnelBody(privateKey: string, address: string, port: nat): string {
    Setting("PrivateKey", privateKey) + (Setting("Address", address) + Setting("ListenPort", Decimal(port)))
  }

  /** No bracket after the interface tag, hence no peer section. */
  lemma NoCutInInterface(body: string)
    requires '[' !in body
    ensures NoCut(INTERFACE_TAG + "\n" + body)
  {
    var s := INTERFACE_TAG + "\n" + body;
    forall i | 0 <= i < |s| ensures !CutAt(s, i) {
      if 11 <= i < |s| - 1 {
        assert s[i + 1..][0] == body[i + 1 - 12];
        assert body[i + 1 - 12] in body;
      }
    }
  }

  lemma TunnelConfNoCutIff(privateKey: string, address: string, port: nat)
    requires Accepts(privateKey) && Edged(address)
    ensures NoCut(TunnelConf(privateKey, address, port)) <==> NoCut(address)
  {
    var keyLine, portLine := Setting("PrivateKey", privateKey), Setting("ListenPort", Decimal(port));
    var front, back := INTERFACE_TAG + "\n" + (keyLine + "Address = "), "\n" + portLine;
    KeyHasNoBracket(privateKey);
    SettingHasNo("PrivateKey", privateKey, '[');
    SettingHasNo("ListenPort", Decimal(port), '[');
    assert front[1..] == "Interface]\n" + (keyLine + "Address = ");
    assert '[' !in keyLine + "Address = ";
    NoCutAround(front, address, back);
    assert Setting("Address", address) + portLine == "Address = " + address + back;
    Rejoined(INTERFACE_TAG + "\n", keyLine, "Address = ", address, back);
  }

  lemma Rejoined(a: string, b: string, c: string, d: string, e: string)
    ensures a + (b + (c + d + e)) == a + (b + c) + d + e
  {
    assert b + (c + d + e) == (b + c) + d + e;
  }

  predicate InterfaceSetting(name: string) { name in {"PrivateKey", "Address", "ListenPort"} }

  lemma InterfaceSettings(a: string, b: string)
    requires InterfaceSetting(a) && InterfaceSetting(b)
    ensures Word(a) && (a == b || Unlike(a, b)) && Unlike(INTERFACE_TAG, b)
  {
  }

  lemma AddressLineHas(address: string, rest: string, name: string)
    requires Visible(address) && InterfaceSetting(name)
    ensures Matches(Setting("Address", address) + rest, name, true) == (if name == "Address" then [address] else []) + Matches(rest, name, true)
  {
    BareOfVisible(address);
    InterfaceSettings("Address", name);
    SettingHas("Address", address, rest, name);
  }

  lemma TagLine(rest: string, name: string)
    requires InterfaceSetting(name)
    ensures Matches(INTERFACE_TAG + "\n" + rest, name, true) == Matches(rest, name, true)
  {
    InterfaceSettings("Address", name);
    OtherLine(INTERFACE_TAG, rest, name);
  }

  lemma InterfaceHas(privateKey: string, address: string, rest: string, name: string)
    requires Accepts(privateKey) && Visible(address) && InterfaceSetting(name)
    ensures Matches(INTERFACE_TAG + "\n" + (Setting("PrivateKey", privateKey) + (Setting("Address", address) + rest)), name, true)
            == (if name == "PrivateKey" then [Bare(privateKey)] else if name == "Address" then [address] else []) + Matches(rest, name, true)
  {
    BareOfAccepted(privateKey);
    KeyVisible(Bare(privateKey));
    InterfaceSettings("PrivateKey", name);
    AddressLineHas(address, rest, name);
    var tail := Setting("Address", address) + rest;
    SettingHas("PrivateKey", privateKey, tail, name);
    TagLine(Setting("PrivateKey", privateKey) + tail, name);
  }

  lemma ListenPortHas(port: nat, name: string)
    requires InterfaceSetting(name)
    ensures Matches(Setting("ListenPort", Decimal(port)), name, true) == if name == "ListenPort" then [Decimal(port)] else []
  {
    var text := Setting("ListenPort", Decimal(port));
    DecimalVisible(port);
    BareOfVisible(Decimal(port));
    InterfaceSettings("ListenPort", name);
    SettingHas("ListenPort", Decimal(port), "", name);
    NoMatchesInEmpty(name);
    assert text + "" == text;
  }

  /** A new tunnel reads back as a server with its own address and no peers exactly if that
      address holds no newline, and then its file gives the key and the port it was made with. */
  lemma TunnelConfReadsBack(privateKey: string, address: string, port: nat)
    requires Accepts(privateKey) && Edged(address)
    ensures InfoOf(TunnelConf(privateKey, address, port)) == Info(false, Some(address), None, []) <==> '\n' !in address
    ensures '\n' !in address ==>
              && Matches(TunnelConf(privateKey, address, port), "PrivateKey", true) == [Bare(privateKey)]
              && Matches(TunnelConf(privateKey, address, port), "ListenPort", true) == [Decimal(port)]
  {
    MatchesAreLines(Header(TunnelConf(privateKey, address, port)), "Address", true);
    if '\n' !in address {
      OneLineAddressReadsBack(privateKey, address, port);
    }
  }

  lemma OneLineAddressReadsBack(privateKey: string, address: string, port: nat)
    requires Accepts(privateKey) && Edged(address) && '\n' !in address
    ensures var text := TunnelConf(privateKey, address, port);
      && InfoOf(text) == Info(false, Some(address), None, [])
      && Matches(text, "PrivateKey", true) == [Bare(privateKey)]
      && Matches(text, "ListenPort", true) == [Decimal(port)]
  {
    var text, last := TunnelConf(privateKey, address, port), Setting("ListenPort", Decimal(port));
    EdgedVisible(address);
    InlineHasNoCut(address);
    TunnelConfNoCutIff(privateKey, address, port);
    SplitNoCut(text);
    InterfaceHas(privateKey, address, last, "Address");
    InterfaceHas(privateKey, address, last, "PrivateKey");
    InterfaceHas(privateKey, address, last, "ListenPort");
    ListenPortHas(port, "Address");
    ListenPortHas(port, "PrivateKey");
    ListenPortHas(port, "ListenPort");
    assert Blocks(text) == [] && Header(text) == text;
  }

  /** The file of a new tunnel is already in printed form, and it holds no peer section exactly if
      its address cannot be cut. */
  lemma TunnelConfRepresents(privateKey: string, address: string, port: nat)
    requires Accepts(privateKey) && Edged(address)
    ensures Represents(TunnelConf(privateKey, address, port), TunnelConf(privateKey, address, port), []) <==> NoCut(address)
    ensures Blocks(TunnelConf(privateKey, address, port)) == [] <==> NoCut(address)
  {
    var text, digits := TunnelConf(privateKey, address, port), Decimal(port);
    TunnelConfNoCutIff(privateKey, address, port);
    if NoCut(text) {
      SplitNoCut(text);
    } else {
      SplitWellCut(text);
      JoinSplit(text);
    }
    assert digits[|digits| - 1] in digits;
    NormOfSetting("ListenPort", digits);
    NormBehind(Setting("Address", address), Setting("ListenPort", digits));
    NormBehind(Setting("PrivateKey", privateKey), Setting("Address", address) + Setting("ListenPort", digits));
    NormBehind(INTERFACE_TAG + "\n", TunnelBody(privateKey, address, port));
    assert NormAll([text] + BlocksOf([])) == [text];
  }

  // ---------------------------------------------------------------- the file a new peer downloads

  predicate HostChar(c: char) {
    'A' <= c <= 'Z' || 'a' <= c <= 'z' || '0' <= c <= '9' || c == '.' || c == '-'
  }

  /** The pattern that the request model puts on a tunnel's endpoint. */
  predicate IsHost(s: string) {
    1 <= |s| <= 255 && forall c :: c in s ==> HostChar(c)
  }

  datatype ClientRequest = ClientRequest(
    privateKey: string, address: string, serverKey: string, psk: Option<string>,
    ranges: seq<string>, endpoint: Option<string>, port: nat, keepalive: nat)

  predicate ValidClient(r: ClientRequest) {
    && MatchesBody(r.privateKey) && MatchesBody(r.serverKey)
    && (r.psk.Some? ==> MatchesBody(r.psk.value))
    && IsRange(r.address)
    && r.ranges != [] && (forall x :: x in r.ranges ==> IsRange(x))
    && (r.endpoint.Some? ==> IsHost(r.endpoint.value))
  }

  /** "\n".join(lines) + "\n". */
  function Unlines(lines: seq<string>): string {
    if lines == [] then "" else lines[0] + "\n" + Unlines(lines[1..])
  }

  // In pieces, for the verifier looks into short literals only.
  const PLACEHOLDER := "# Endpoint = " + ("<this server's " + "reachable address>:")

  function EndpointLine(r: ClientRequest): string {
    if r.endpoint.Some? then "Endpoint = " + (r.endpoint.value + ":" + Decimal(r.port))
    else PLACEHOLDER + Decimal(r.port)
  }

  /** The lines after the server's key. */
  function ClientLines(r: ClientRequest): seq<string> {
    (if r.psk.Some? then ["PresharedKey" + " = " + r.psk.value] else [])
    + (["AllowedIPs" + " = " + CommaJoin(r.ranges)]
    + ([EndpointLine(r)]
    + (if r.keepalive != 0 then ["PersistentKeepalive" + " = " + Decimal(r.keepalive)] else [])))
  }

  function ClientConf(r: ClientRequest): string {
    Unlines([INTERFACE_TAG] + (["PrivateKey" + " = " + r.privateKey] + (["Address" + " = " + r.address] + ([""]
    + ([PEER_TAG] + (["PublicKey" + " = " + r.serverKey] + ClientLines(r)))))))
  }

  lemma UnlinesCons(line: string, lines: seq<string>)
    ensures Unlines([line] + lines) == line + "\n" + Unlines(lines)
  {
    assert ([line] + lines)[1..] == lines;
  }

  // The same text, as its sections are read.

  function ClientHeader(r: ClientRequest): string {
    INTERFACE_TAG + "\n" + (Setting("PrivateKey", r.privateKey) + (Setting("Address", r.address) + ""))
  }

  function ClientKeepalive(r: ClientRequest): string {
    if KeepaliveText(r.keepalive) != "" then Setting("PersistentKeepalive", KeepaliveText(r.keepalive)) else ""
  }

  function ClientPsk(r: ClientRequest): string {
    if r.psk.Some? then Setting("PresharedKey", r.psk.value) else ""
  }

  function ClientTail(r: ClientRequest): string {
    Setting("AllowedIPs", CommaJoin(r.ranges)) + (EndpointLine(r) + "\n" + ClientKeepalive(r))
  }

  function ClientBody(r: ClientRequest): string {
    Setting("PublicKey", r.serverKey) + (ClientPsk(r) + ClientTail(r))
  }

  lemma ClientLinesText(r: ClientRequest)
    ensures Unlines(ClientLines(r)) == ClientPsk(r) + ClientTail(r)
  {
    var last := if r.keepalive != 0 then ["PersistentKeepalive" + " = " + Decimal(r.keepalive)] else [];
    if r.keepalive != 0 {
      UnlinesCons(last[0], []);
      assert last == [last[0]] + [];
    }
    assert Unlines(last) == ClientKeepalive(r);
    UnlinesCons(EndpointLine(r), last);
    var ranges := "AllowedIPs" + " = " + CommaJoin(r.ranges);
    UnlinesCons(ranges, [EndpointLine(r)] + last);
    assert Unlines([ranges] + ([EndpointLine(r)] + last)) == ClientTail(r);
    if r.psk.Some? {
      UnlinesCons("PresharedKey" + " = " + r.psk.value, [ranges] + ([EndpointLine(r)] + last));
    } else {
      assert ClientLines(r) == [ranges] + ([EndpointLine(r)] + last);
      assert "" + ClientTail(r) == ClientTail(r);
    }
  }

  lemma ClientConfText(r: ClientRequest)
    ensures ClientConf(r) == ClientHeader(r) + "\n" + (PEER_TAG + "\n" + ClientBody(r))
  {
    var l6 := ["PublicKey" + " = " + r.serverKey] + ClientLines(r);
    ClientLinesText(r);
    UnlinesCons("PublicKey" + " = " + r.serverKey, ClientLines(r));
    assert Unlines(l6) == ClientBody(r);
    UnlinesCons(PEER_TAG, l6);
    var l5 := [PEER_TAG] + l6;
    var block := PEER_TAG + "\n" + ClientBody(r);
    assert Unlines(l5) == block;
    UnlinesCons("", l5);
    var l4 := [""] + l5;
    assert Unlines(l4) == "\n" + block;
    UnlinesCons("Address" + " = " + r.address, l4);
    var l3 := ["Address" + " = " + r.address] + l4;
    assert Unlines(l3) == Setting("Address", r.address) + ("\n" + block);
    UnlinesCons("PrivateKey" + " = " + r.privateKey, l3);
    var l2 := ["PrivateKey" + " = " + r.privateKey] + l3;
    assert Unlines(l2) == Setting("PrivateKey", r.privateKey) + Unlines(l3);
    UnlinesCons(INTERFACE_TAG, l2);
    Regroup(INTERFACE_TAG + "\n", Setting("PrivateKey", r.privateKey), Setting("Address", r.address), "\n", block);
  }

  lemma Regroup(a: string, b: string, c: string, d: string, e: string)
    ensures a + (b + (c + (d + e))) == a + (b + (c + "")) + d + e
  {
    assert b + (c + (d + e)) == b + (c + "") + d + e;
  }

  lemma ClientBodyHasNoBracket(r: ClientRequest)
    requires ValidClient(r)
    ensures '[' !in ClientBody(r)
  {
    KeyHasNoBracket(r.serverKey);
    SettingHasNo("PublicKey", r.serverKey, '[');
    if r.psk.Some? {
      KeyHasNoBracket(r.psk.value);
      SettingHasNo("PresharedKey", r.psk.value, '[');
    }
    CommaJoinChars(r.ranges, '[');
    assert forall i :: 0 <= i < |r.ranges| ==> r.ranges[i] in r.ranges;
    SettingHasNo("AllowedIPs", CommaJoin(r.ranges), '[');
    if r.keepalive != 0 {
      SettingHasNo("PersistentKeepalive", Decimal(r.keepalive), '[');
    }
    EndpointLineChars(r);
    assert '[' !in EndpointLine(r) + "\n" + ClientKeepalive(r);
    assert '[' !in ClientTail(r);
    assert '[' !in ClientPsk(r) + ClientTail(r);
  }

  lemma EndpointLineChars(r: ClientRequest)
    requires ValidClient(r)
    ensures '[' !in EndpointLine(r) && '\n' !in EndpointLine(r)
  {
    if r.endpoint.Some? {
      var value := r.endpoint.value + ":" + Decimal(r.port);
      assert '[' !in value && '\n' !in value;
    } else {
      assert '[' !in PLACEHOLDER && '\n' !in PLACEHOLDER;
    }
  }

  lemma ClientConfParts(r: ClientRequest)
    requires ValidClient(r)
    ensures Split(ClientConf(r)) == [ClientHeader(r), PEER_TAG + "\n" + ClientBody(r)]
  {
    ClientBodyHasNoBracket(r);
    NoCutWithoutBracket(ClientBody(r));
    KeyHasNoBracket(r.privateKey);
    SettingHasNo("PrivateKey", r.privateKey, '[');
    SettingHasNo("Address", r.address, '[');
    NoCutInInterface(Setting("PrivateKey", r.privateKey) + (Setting("Address", r.address) + ""));
    SplitStep(ClientHeader(r), PEER_TAG + "\n" + ClientBody(r));
    SplitNoCut(PEER_TAG + "\n" + ClientBody(r));
    ClientConfText(r);
  }

  lemma HostVisible(host: string, port: nat)
    requires IsHost(host)
    ensures Visible(host + ":" + Decimal(port))
  {
    DecimalVisible(port);
    assert host[0] in host;
    assert '\n' !in host;
  }

  function EndpointText(r: ClientRequest): Option<string> {
    if r.endpoint.Some? then Some(r.endpoint.value + ":" + Decimal(r.port)) else None
  }

  /** The placeholder comment is not read as any setting, a real endpoint line is. */
  lemma EndpointLineHas(r: ClientRequest, rest: string, name: string)
    requires ValidClient(r) && PeerSetting(name)
    ensures Matches(EndpointLine(r) + "\n" + rest, name, true) ==
            (if name == "Endpoint" && r.endpoint.Some? then [EndpointText(r).value] else []) + Matches(rest, name, true)
  {
    EndpointLineChars(r);
    if r.endpoint.Some? {
      var v := EndpointText(r).value;
      HostVisible(r.endpoint.value, r.port);
      PeerSettings("Endpoint", name);
      OneLineHas("Endpoint", v, rest, name);
      assert EndpointLine(r) + "\n" == Setting("Endpoint", v);
    } else {
      assert EndpointLine(r)[0] == '#';
      OtherLine(EndpointLine(r), rest, name);
    }
  }

  function EndpointValues(r: ClientRequest, name: string): seq<string> {
    if name == "Endpoint" && r.endpoint.Some? then [EndpointText(r).value] else []
  }

  /** The peer section of a downloaded config gives back each setting, and no other. */
  lemma ClientSettings(r: ClientRequest, name: string)
    requires ValidClient(r) && PeerSetting(name)
    ensures Matches(PEER_TAG + "\n" + ClientBody(r), name, true) ==
            KeyValues(r.serverKey, r.psk, r.ranges, name) + (EndpointValues(r, name) + KeepaliveValues(KeepaliveText(r.keepalive), name))
  {
    RangesAreListable(r.ranges);
    OtherLine(PEER_TAG, ClientBody(r), name);
    KeyLinesHave(r.serverKey, r.psk, r.ranges, ClientPsk(r), EndpointLine(r) + "\n" + ClientKeepalive(r), name);
    EndpointLineHas(r, ClientKeepalive(r), name);
    KeepaliveTextHas(KeepaliveText(r.keepalive), ClientKeepalive(r), name);
  }

  lemma OneBlock(block: string)
    ensures RangesOfBlocks([block]) == RangesOfBlock(block) && EndpointOfBlocks([block]) == EndpointOfBlock(block)
  {
    assert [block][..0] == [];
  }

  /** A downloaded config reads back as it was meant: the allocated address, the requested
      ranges in order, and the role of a client exactly when the tunnel has an endpoint. */
  lemma ClientConfReadsBack(r: ClientRequest)
    requires ValidClient(r)
    ensures InfoOf(ClientConf(r)) == Info(r.endpoint.Some?, Some(r.address), EndpointText(r), r.ranges)
  {
    var block := PEER_TAG + "\n" + ClientBody(r);
    ClientConfParts(r);
    assert Blocks(ClientConf(r)) == [block];
    OneBlock(block);
    ClientSettings(r, "AllowedIPs");
    ClientSettings(r, "Endpoint");
    RangesOfOne(CommaJoin(r.ranges));
    RangesAreListable(r.ranges);
    RangesRoundTrip(r.ranges);
    RangeCharsVisible(r.address);
    InterfaceHas(r.privateKey, r.address, "", "Address");
    NoMatchesInEmpty("Address");
  }

  /** And it holds the keys it was made with: the peer's own, the server's and the preshared. */
  lemma ClientConfKeys(r: ClientRequest)
    requires ValidClient(r)
    ensures Split(ClientConf(r)) == [ClientHeader(r), PEER_TAG + "\n" + ClientBody(r)]
    ensures Matches(Header(ClientConf(r)), "PrivateKey", true) == [r.privateKey]
    ensures Matches(Blocks(ClientConf(r))[0], "PublicKey", true) == [r.serverKey]
    ensures Matches(Blocks(ClientConf(r))[0], "PresharedKey", true) == if r.psk.Some? then [r.psk.value] else []
    ensures Matches(Blocks(ClientConf(r))[0], "PersistentKeepalive", true) == if r.keepalive != 0 then [Decimal(r.keepalive)] else []
  {
    ClientConfParts(r);
    ClientSettings(r, "PublicKey");
    ClientSettings(r, "PresharedKey");
    ClientSettings(r, "PersistentKeepalive");
    RangeCharsVisible(r.address);
    InterfaceHas(r.privateKey, r.address, "", "PrivateKey");
    NoMatchesInEmpty("PrivateKey");
    BareOfAccepted(r.privateKey);
    BareOfAccepted(r.serverKey);
    if r.psk.Some? {
      BareOfAccepted(r.psk.value);
    }
  }
}
