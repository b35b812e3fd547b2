/** The addresses and networks of a request, which JSON may bring as text, number or anything
    else, and the text that the daemon prints for them with str(). */
module Entries {
  import opened Text
  import opened ConfText
  import opened Ipv4
  import opened IpText

  /** A text, a number (True counts as 1), or a value that no address can be made of. */
  datatype Entry = Str(text: string) | Number(n: int) | Other

  /** ip_interface(e), and ip_network(e, strict=False) before the host bits are cleared. */
  function AddressOf(e: Entry): (r: Option<Address>)
    ensures r.Some? ==> ValidAddress(r.value)
  {
    match e
    case Str(s) => ParseAddress(s)
    case Number(n) =>
      if 0 <= n < ADDRESSES then Some(V4Address(Iface(n, 32)))
      else if 0 <= n < Top(8) then Some(V6Address(n, 128, ""))
      else None
    case Other => None
  }

  // ---------------------------------------------------------------- str() of an IPv6 address

  /** How many values k groups of 16 bits have. */
  function Top(k: nat): nat { if k == 0 then 1 else 0x1_0000 * Top(k - 1) }

  predicate LowerHex(c: char) { '0' <= c <= '9' || 'a' <= c <= 'f' }

  function HexDigitOf(d: nat): (c: char)
    requires d < 16
    ensures LowerHex(c) && HexDigit(c) == d
  {
    if d < 10 then (('0' as int) + d) as char else (('a' as int) + d - 10) as char
  }

  /** '%x' % n. */
  function HexText(n: nat): (s: string)
    ensures s != "" && forall c :: c in s ==> LowerHex(c)
  {
    if n < 16 then [HexDigitOf(n)] else HexText(n / 16) + [HexDigitOf(n % 16)]
  }

  /** The last so many 16-bit groups of a number. */
  function Hextets(n: nat, count: nat): (r: seq<nat>)
    ensures |r| == count && forall i :: 0 <= i < count ==> r[i] < 0x1_0000
  {
    if count == 0 then [] else Hextets(n / 0x1_0000, count - 1) + [n % 0x1_0000]
  }

  /** How many groups from i on are zero. */
  function Zeros(groups: seq<nat>, i: nat): (r: nat)
    ensures i <= |groups| ==> i + r <= |groups| && forall j :: i <= j < i + r ==> groups[j] == 0
    decreases |groups| - i
  {
    if i >= |groups| || groups[i] != 0 then 0 else 1 + Zeros(groups, i + 1)
  }

  /** Where the longest row of zeros begins, the first one if there are several. */
  function Longest(groups: seq<nat>, i: nat, best: nat): (r: nat)
    requires best < |groups|
    ensures r < |groups|
    decreases |groups| - i
  {
    if i >= |groups| then best
    else Longest(groups, i + 1, if Zeros(groups, i) > Zeros(groups, best) then i else best)
  }

  function ColonJoin(groups: seq<nat>): string {
    if groups == [] then ""
    else if |groups| == 1 then HexText(groups[0])
    else HexText(groups[0]) + ":" + ColonJoin(groups[1..])
  }

  /** The longest row of two or more zeros becomes a double colon. */
  function GroupsText(groups: seq<nat>): string
    requires groups != []
  {
    var start := Longest(groups, 0, 0);
    var row := Zeros(groups, start);
    if row < 2 then ColonJoin(groups) else DoubleColon(groups[..start], groups[start + row..])
  }

  function DoubleColon(front: seq<nat>, back: seq<nat>): string { ColonJoin(front) + ":" + (":" + ColonJoin(back)) }

  function V6Text(ip: nat): string { GroupsText(Hextets(ip, 8)) }

  lemma {:induction false} ColonJoinChars(groups: seq<nat>)
    ensures forall c :: c in ColonJoin(groups) ==> LowerHex(c) || c == ':'
    ensures groups != [] ==> ColonJoin(groups) != ""
  {
    if |groups| > 1 {
      ColonJoinChars(groups[1..]);
    }
  }

  lemma V6TextIsRange(ip: nat)
    ensures IsRange(V6Text(ip)) && '/' !in V6Text(ip) && '%' !in V6Text(ip) && '.' !in V6Text(ip)
  {
    var groups := Hextets(ip, 8);
    var start := Longest(groups, 0, 0);
    ColonJoinChars(groups);
    ColonJoinChars(groups[..start]);
    ColonJoinChars(groups[start + Zeros(groups, start)..]);
    assert forall c :: c in V6Text(ip) ==> LowerHex(c) || c == ':';
  }

  // ---------------------------------------------------------------- what is printed

  /** Text written to a file and read again: \r and \r\n come back as \n. */
  function LineEnds(s: string): (r: string)
    ensures '\r' !in r && (r == "" <==> s == "")
    ensures forall c :: c in r ==> c in s || c == '\n'
  {
    if s == "" then ""
    else if s[0] != '\r' then [s[0]] + LineEnds(s[1..])
    else "\n" + LineEnds(if |s| > 1 && s[1] == '\n' then s[2..] else s[1..])
  }

  /** The parts of a printed address or network; an empty scope stands for none. */
  datatype Printed = Printed(base: string, scope: string, len: nat)

  function TextOf(p: Printed): string {
    p.base + (if p.scope != "" then "%" + p.scope else "") + "/" + Decimal(p.len)
  }

  /** str(ip_interface(...)) keeps the scope id. */
  function PrintedInterface(a: Address): Printed {
    match a
    case V4Address(iface) => Printed(AddressText(iface.ip), "", iface.len)
    case V6Address(ip, len, scope) => Printed(V6Text(ip), LineEnds(scope), len)
  }

  /** str(ip_network(..., strict=False)) keeps it exactly if no host bit had to be cleared. */
  function PrintedNetwork(a: Address): Printed
    requires ValidAddress(a)
  {
    match RangeOf(a)
    case V4(net) => Printed(AddressText(net.base), "", net.len)
    case V6(base, len) => Printed(V6Text(base), if base == a.ip then LineEnds(a.scope) else "", len)
  }

  predicate Usable(e: Entry) { AddressOf(e).Some? }

  function NetworkText(e: Entry): string
    requires Usable(e)
  {
    TextOf(PrintedNetwork(AddressOf(e).value))
  }

  function InterfaceText(e: Entry): string
    requires Usable(e)
  {
    TextOf(PrintedInterface(AddressOf(e).value))
  }

  /** The scope id that stays in a network's text. */
  function NetworkScope(e: Entry): string { if Usable(e) then PrintedNetwork(AddressOf(e).value).scope else "" }

  function InterfaceScope(e: Entry): string { if Usable(e) then PrintedInterface(AddressOf(e).value).scope else "" }

  // ---------------------------------------------------------------- what a printed text holds

  predicate Based(p: Printed) { IsRange(p.base) && '/' !in p.base }

  lemma PrintedIsBased(e: Entry)
    requires Usable(e)
    ensures Based(PrintedNetwork(AddressOf(e).value)) && Based(PrintedInterface(AddressOf(e).value))
  {
    var a := AddressOf(e).value;
    match a {
      case V4Address(iface) =>
        AddressTextIsRange(iface.ip);
        AddressTextIsRange(NetworkOf(iface).base);
      case V6Address(ip, _, _) =>
        V6TextIsRange(ip);
        V6TextIsRange(RangeOf(a).base);
    }
  }

  lemma TextIsEdged(p: Printed)
    requires Based(p)
    ensures Edged(TextOf(p))
  {
    var text, digits := TextOf(p), Decimal(p.len);
    assert p.base[0] in p.base && digits[|digits| - 1] in digits;
    assert text[0] == p.base[0] && text[|text| - 1] == digits[|digits| - 1];
  }

  lemma TextHasChar(p: Printed, c: char)
    requires Based(p) && !RangeChar(c) && c != '%'
    ensures c in TextOf(p) <==> c in p.scope
  {
    assert c !in p.base && c !in Decimal(p.len);
  }

  lemma RangeTextHasNo(s: string, needle: string)
    requires (forall c :: c in s ==> RangeChar(c)) && needle != "" && !RangeChar(needle[0])
    ensures !Contains(s, needle)
  {
    assert forall k :: 0 <= k < |s| ==> RangeChar(s[k]);
    if i :| 0 <= i <= |s| && OccursAt(s, needle, i) {
      OccursAtChar(s, needle, i, 0);
    }
  }

  /** What begins with a character that no address has, and crosses no separator, is in the
      text exactly if it is in the scope id. */
  lemma TextHas(p: Printed, needle: string)
    requires Based(p) && needle != "" && !RangeChar(needle[0]) && '%' !in needle && '/' !in needle
    ensures Contains(TextOf(p), needle) <==> Contains(p.scope, needle)
  {
    var digits := Decimal(p.len);
    RangeTextHasNo(p.base, needle);
    RangeTextHasNo(digits, needle);
    ContainsNothingInEmpty(needle);
    var front := p.base + (if p.scope != "" then "%" + p.scope else "");
    ContainsSplitsAt(front, '/', digits, needle);
    assert front + ['/'] + digits == TextOf(p);
    if p.scope != "" {
      ContainsSplitsAt(p.base, '%', p.scope, needle);
      assert p.base + ['%'] + p.scope == front;
    }
  }

  /** What the file makes of a printed text is decided by its scope id alone. */
  lemma TextIsSafeIff(p: Printed)
    requires Based(p)
    ensures Edged(TextOf(p))
    ensures NoCut(TextOf(p)) <==> !Contains(p.scope, CUT)
    ensures Inline(TextOf(p)) <==> Inline(p.scope)
    ensures Clean(TextOf(p)) <==> Inline(p.scope) && !Contains(p.scope, KEY_NAME)
  {
    TextIsEdged(p);
    NoCutIsNoOccurrence(TextOf(p));
    TextHas(p, CUT);
    TextHas(p, KEY_NAME);
    TextHasChar(p, '\n');
    TextHasChar(p, ',');
  }

  lemma NetworkIsSafeIff(e: Entry)
    requires Usable(e)
    ensures Edged(NetworkText(e))
    ensures NoCut(NetworkText(e)) <==> !Contains(NetworkScope(e), CUT)
    ensures Inline(NetworkText(e)) <==> Inline(NetworkScope(e))
    ensures Clean(NetworkText(e)) <==> Inline(NetworkScope(e)) && !Contains(NetworkScope(e), KEY_NAME)
  {
    PrintedIsBased(e);
    TextIsSafeIff(PrintedNetwork(AddressOf(e).value));
  }

  // ---------------------------------------------------------------- an IPv6 address reads back

  /** What the groups of an address amount to, going on from a value. */
  function FoldOf(groups: seq<nat>, before: nat): nat {
    if groups == [] then before else FoldOf(groups[1..], before * 0x1_0000 + groups[0])
  }

  function Values(groups: seq<nat>): (r: seq<Group>)
    ensures |r| == |groups| && forall i :: 0 <= i < |r| ==> r[i] == Value(groups[i])
  {
    seq(|groups|, i requires 0 <= i < |groups| => Value(groups[i]))
  }

  lemma {:induction false} FoldOfValues(groups: seq<nat>, before: nat)
    ensures Fold(Values(groups), before) == Some(FoldOf(groups, before))
  {
    if groups != [] {
      assert Values(groups)[1..] == Values(groups[1..]);
      FoldOfValues(groups[1..], before * 0x1_0000 + groups[0]);
    }
  }

  lemma {:induction false} FoldOfTwo(a: seq<nat>, b: seq<nat>, before: nat)
    ensures FoldOf(a + b, before) == FoldOf(b, FoldOf(a, before))
  {
    if a == [] {
      assert a + b == b;
    } else {
      assert (a + b)[1..] == a[1..] + b;
      FoldOfTwo(a[1..], b, before * 0x1_0000 + a[0]);
    }
  }

  lemma {:induction false} FoldOfZeros(zeros: seq<nat>, before: nat)
    requires forall i :: 0 <= i < |zeros| ==> zeros[i] == 0
    ensures FoldOf(zeros, before) == Shift(before, |zeros|)
  {
    if zeros != [] {
      FoldOfZeros(zeros[1..], before * 0x1_0000);
    }
  }

  lemma {:induction false} HextetsReadBack(n: nat, count: nat)
    requires n < Top(count)
    ensures FoldOf(Hextets(n, count), 0) == n
  {
    if count > 0 {
      HextetsReadBack(n / 0x1_0000, count - 1);
      FoldOfTwo(Hextets(n / 0x1_0000, count - 1), [n % 0x1_0000], 0);
      assert [n % 0x1_0000][1..] == [];
    }
  }

  lemma {:induction false} HexReadsBack(n: nat)
    ensures HexValue(HexText(n)) == n
  {
    var s := HexText(n);
    if n < 16 {
      assert s[..|s| - 1] == "";
      assert HexValue("") == 0;
    } else {
      HexReadsBack(n / 16);
      assert s[..|s| - 1] == HexText(n / 16);
    }
  }

  lemma HexIsLonger(n: nat)
    requires n >= 16
    ensures |HexText(n)| == |HexText(n / 16)| + 1
  {
  }

  lemma HexIsShort(n: nat)
    requires n < 0x1_0000
    ensures |HexText(n)| <= 4
  {
    if n >= 16 {
      HexIsLonger(n);
      if n >= 0x100 {
        HexIsLonger(n / 16);
        if n >= 0x1000 {
          HexIsLonger(n / 16 / 16);
        }
      }
    }
  }

  lemma GroupReadsBack(n: nat)
    requires n < 0x1_0000
    ensures GroupOf(HexText(n)) == Value(n)
  {
    HexReadsBack(n);
    HexIsShort(n);
  }

  /** The parts of a colon-joined text; an empty text is one empty part. */
  function PartsOf(groups: seq<nat>): (r: seq<string>)
    ensures r != []
  {
    if groups == [] then [""] else HexTexts(groups)
  }

  function HexTexts(groups: seq<nat>): (r: seq<string>)
    ensures |r| == |groups| && forall i :: 0 <= i < |r| ==> r[i] == HexText(groups[i])
  {
    seq(|groups|, i requires 0 <= i < |groups| => HexText(groups[i]))
  }

  lemma {:induction false} ColonJoinSplits(groups: seq<nat>)
    ensures SplitOn(ColonJoin(groups), ':') == PartsOf(groups)
  {
    if |groups| == 1 {
      SplitOnToken(HexText(groups[0]), ':');
    } else if |groups| > 1 {
      ColonJoinSplits(groups[1..]);
      SplitOnStep(HexText(groups[0]), ColonJoin(groups[1..]), ':');
      assert HexTexts(groups) == [HexText(groups[0])] + HexTexts(groups[1..]);
    }
  }

  lemma {:induction false} SplitOnJoin(a: string, b: string, c: char)
    ensures SplitOn(a + [c] + b, c) == SplitOn(a, c) + SplitOn(b, c)
  {
    var s := a + [c] + b;
    if a == "" {
      assert s[1..] == b;
    } else {
      assert s[1..] == a[1..] + [c] + b;
      SplitOnJoin(a[1..], b, c);
      PartInFront(a[0], c, SplitOn(a[1..], c), SplitOn(b, c));
    }
  }

  lemma PartInFront(first: char, c: char, parts: seq<string>, more: seq<string>)
    requires parts != []
    ensures (if first == c then [""] + (parts + more) else [[first] + (parts + more)[0]] + (parts + more)[1..])
            == (if first == c then [""] + parts else [[first] + parts[0]] + parts[1..]) + more
  {
    assert (parts + more)[0] == parts[0] && (parts + more)[1..] == parts[1..] + more;
  }

  lemma DoubleColonSplits(front: seq<nat>, back: seq<nat>)
    ensures SplitOn(DoubleColon(front, back), ':') == PartsOf(front) + ([""] + PartsOf(back))
  {
    ColonJoinSplits(front);
    ColonJoinSplits(back);
    SplitOnJoin("", ColonJoin(back), ':');
    assert "" + [':'] + ColonJoin(back) == ":" + ColonJoin(back);
    SplitOnJoin(ColonJoin(front), ":" + ColonJoin(back), ':');
    assert SplitOn("", ':') == [""];
  }

  /** The groups that stand on one side of a double colon. */
  function Side(groups: seq<nat>): (r: seq<Group>)
    ensures r != []
  {
    if groups == [] then [Empty] else Values(groups)
  }

  lemma PartsAreSides(groups: seq<nat>)
    requires forall i :: 0 <= i < |groups| ==> groups[i] < 0x1_0000
    ensures |PartsOf(groups)| == |Side(groups)|
    ensures forall i :: 0 <= i < |PartsOf(groups)| ==> '.' !in PartsOf(groups)[i] && GroupOf(PartsOf(groups)[i]) == Side(groups)[i]
  {
    forall i | 0 <= i < |groups| ensures GroupOf(HexText(groups[i])) == Value(groups[i]) {
      GroupReadsBack(groups[i]);
    }
  }

  lemma {:induction false} OneGap(groups: seq<Group>, gap: nat, i: nat)
    requires 1 <= i <= gap < |groups| - 1
    requires forall j :: i <= j < |groups| - 1 ==> (groups[j].Empty? <==> j == gap)
    ensures Gaps(groups, i) == [gap]
    decreases gap - i
  {
    if i < gap {
      OneGap(groups, gap, i + 1);
    } else {
      NoGaps(groups, gap + 1);
    }
  }

  lemma {:induction false} NoGaps(groups: seq<Group>, i: nat)
    requires forall j :: i <= j < |groups| - 1 ==> !groups[j].Empty?
    ensures Gaps(groups, i) == []
    decreases |groups| - i
  {
    if i + 1 < |groups| {
      NoGaps(groups, i + 1);
    }
  }

  lemma HighSide(front: seq<nat>, back: seq<nat>)
    ensures High(Side(front) + ([Empty] + Side(back)), |Side(front)|) == Values(front)
    ensures (Side(front) + ([Empty] + Side(back)))[0].Empty? <==> front == []
  {
    var groups, gap := Side(front) + ([Empty] + Side(back)), |Side(front)|;
    if front == [] {
      assert groups[1..gap] == [];
    } else {
      assert groups[0] == Values(front)[0] && groups[..gap] == Values(front);
    }
  }

  lemma LowSide(front: seq<nat>, back: seq<nat>)
    ensures Low(Side(front) + ([Empty] + Side(back)), |Side(front)|) == Values(back)
    ensures (Side(front) + ([Empty] + Side(back)))[|Side(front)| + |Side(back)|].Empty? <==> back == []
  {
    var groups, gap := Side(front) + ([Empty] + Side(back)), |Side(front)|;
    var n := |groups|;
    if back == [] {
      assert groups[gap + 1..n - 1] == [];
    } else {
      assert Side(back) == Values(back) && groups[n - 1] == Value(back[|back| - 1]);
      assert groups[gap + 1..] == Values(back);
    }
  }

  lemma AroundValues(front: seq<nat>, back: seq<nat>, row: nat)
    requires |front| + row + |back| == 8 && row >= 2
    ensures AroundGap(Values(front), Values(back)) == Some(FoldOf(back, Shift(FoldOf(front, 0), row)))
  {
    assert 8 - |Values(front)| - |Values(back)| == row;
    FoldOfValues(front, 0);
    FoldOfValues(back, Shift(FoldOf(front, 0), row));
  }

  lemma DoubleColonValue(front: seq<nat>, back: seq<nat>, row: nat)
    requires |front| + row + |back| == 8 && row >= 2
    ensures GroupsValue(Side(front) + ([Empty] + Side(back))) == Some(FoldOf(back, Shift(FoldOf(front, 0), row)))
  {
    var groups, gap := Side(front) + ([Empty] + Side(back)), |Side(front)|;
    OneGap(groups, gap, 1);
    HighSide(front, back);
    LowSide(front, back);
    AroundValues(front, back, row);
  }

  lemma PlainValue(groups: seq<nat>)
    requires |groups| == 8
    ensures GroupsValue(Values(groups)) == Some(FoldOf(groups, 0))
  {
    NoGaps(Values(groups), 1);
    FoldOfValues(groups, 0);
  }

  lemma GroupsOfParts(parts: seq<string>, groups: seq<Group>)
    requires parts != [] && |parts| == |groups|
    requires forall i :: 0 <= i < |parts| ==> '.' !in parts[i] && GroupOf(parts[i]) == groups[i]
    ensures GroupsOf(parts) == groups
  {
  }

  lemma FoldOfRow(groups: seq<nat>, start: nat, row: nat)
    requires start + row <= |groups| && forall j :: start <= j < start + row ==> groups[j] == 0
    ensures FoldOf(groups, 0) == FoldOf(groups[start + row..], Shift(FoldOf(groups[..start], 0), row))
  {
    var zeros := groups[start..start + row];
    FoldOfTwo(groups[..start], zeros + groups[start + row..], 0);
    FoldOfTwo(zeros, groups[start + row..], FoldOf(groups[..start], 0));
    FoldOfZeros(zeros, FoldOf(groups[..start], 0));
    assert groups == groups[..start] + (zeros + groups[start + row..]);
  }

  /** The text of an address with this value. */
  predicate ReadsAs(text: string, value: nat) {
    var parts := SplitOn(text, ':');
    |parts| >= 3 && GroupsValue(GroupsOf(parts)) == Some(value)
  }

  lemma DoubleColonReadsBack(front: seq<nat>, back: seq<nat>, row: nat)
    requires |front| + row + |back| == 8 && row >= 2
    requires (forall i :: 0 <= i < |front| ==> front[i] < 0x1_0000) && forall i :: 0 <= i < |back| ==> back[i] < 0x1_0000
    ensures ReadsAs(DoubleColon(front, back), FoldOf(back, Shift(FoldOf(front, 0), row)))
  {
    DoubleColonSplits(front, back);
    PartsAreSides(front);
    PartsAreSides(back);
    GroupsOfParts(PartsOf(front) + ([""] + PartsOf(back)), Side(front) + ([Empty] + Side(back)));
    DoubleColonValue(front, back, row);
  }

  lemma ColonsReadBack(groups: seq<nat>)
    requires |groups| == 8 && forall i :: 0 <= i < 8 ==> groups[i] < 0x1_0000
    ensures ReadsAs(ColonJoin(groups), FoldOf(groups, 0))
  {
    ColonJoinSplits(groups);
    PartsAreSides(groups);
    GroupsOfParts(PartsOf(groups), Values(groups));
    PlainValue(groups);
  }

  lemma GroupsTextReadsBack(groups: seq<nat>)
    requires |groups| == 8 && forall i :: 0 <= i < 8 ==> groups[i] < 0x1_0000
    ensures ReadsAs(GroupsText(groups), FoldOf(groups, 0))
  {
    var start := Longest(groups, 0, 0);
    var row := Zeros(groups, start);
    if row < 2 {
      ColonsReadBack(groups);
    } else {
      FoldOfRow(groups, start, row);
      DoubleColonReadsBack(groups[..start], groups[start + row..], row);
    }
  }

  /** An address text, with any scope id behind it. */
  function Scoped(ip: nat, scope: string): string { V6Text(ip) + (if scope != "" then "%" + scope else "") }

  lemma ScopedReadsBack(ip: nat, scope: string)
    requires ip < Top(8) && '%' !in scope
    ensures ParseIpv6(Scoped(ip, scope)) == Some(ip) && ScopeOf(Scoped(ip, scope)) == scope
  {
    V6TextIsRange(ip);
    if scope == "" {
      assert Scoped(ip, scope) == V6Text(ip);
      SplitOnToken(V6Text(ip), '%');
    } else {
      SplitOnStep(V6Text(ip), scope, '%');
      assert Scoped(ip, scope) == V6Text(ip) + ['%'] + scope;
      SplitOnToken(scope, '%');
    }
    GroupsTextReadsBack(Hextets(ip, 8));
    HextetsReadBack(ip, 8);
  }

  lemma {:induction false} FirstPart(a: string, b: string, c: char)
    requires c !in a
    ensures SplitOn(a + b, c)[0] == a + SplitOn(b, c)[0]
  {
    if a == "" {
      assert a + b == b;
    } else {
      assert a[0] in a;
      assert (a + b)[1..] == a[1..] + b;
      FirstPart(a[1..], b, c);
    }
  }

  /** No text of an IPv6 address is one of an IPv4 address. */
  lemma ScopedIsNotIpv4(ip: nat, scope: string)
    ensures ParseIpv4(Scoped(ip, scope)) == None
  {
    V6TextIsRange(ip);
    GroupsTextReadsBack(Hextets(ip, 8));
    if ':' !in V6Text(ip) {
      SplitOnToken(V6Text(ip), ':');
    }
    var rest := if scope != "" then "%" + scope else "";
    FirstPart(V6Text(ip), rest, '.');
    assert ':' in SplitOn(Scoped(ip, scope), '.')[0];
  }

  lemma ScopedNetworkReadsBack(ip: nat, scope: string, len: nat)
    requires ip < Top(8) && '%' !in scope && '/' !in scope && len <= 128
    ensures ParseAddress(TextOf(Printed(V6Text(ip), scope, len))) == Some(V6Address(ip, len, scope))
  {
    V6TextIsRange(ip);
    ScopedIsNotIpv4(ip, scope);
    ScopedReadsBack(ip, scope);
    WithPrefixReadsBack(Scoped(ip, scope), ip, len);
  }

  lemma WithPrefixReadsBack(front: string, ip: nat, len: nat)
    requires '/' !in front && ParseIpv4(front) == None && ParseIpv6(front) == Some(ip) && len <= 128
    ensures ParseAddress(front + "/" + Decimal(len)) == Some(V6Address(ip, len, ScopeOf(front)))
  {
    DecimalIsRange(len);
    SplitOnStep(front, Decimal(len), '/');
    SplitOnToken(Decimal(len), '/');
    PrefixReadsBack(len, 128);
  }

  // ---------------------------------------------------------------- so does whatever a request may bring

  lemma {:induction false} TopSum(a: nat, b: nat)
    ensures Top(a + b) == Top(a) * Top(b) && Top(a) >= 1
  {
    if a > 0 {
      TopSum(a - 1, b);
      assert 0x1_0000 * Top(a - 1) * Top(b) == 0x1_0000 * (Top(a - 1) * Top(b));
    }
  }

  lemma {:induction false} ShiftIsProduct(v: nat, k: nat)
    ensures Shift(v, k) == v * Top(k)
    decreases k
  {
    if k > 0 {
      ShiftIsProduct(v * 0x1_0000, k - 1);
      assert v * 0x1_0000 * Top(k - 1) == v * (0x1_0000 * Top(k - 1));
    }
  }

  predicate Small(groups: seq<Group>) { forall i :: 0 <= i < |groups| && groups[i].Value? ==> groups[i].value < 0x1_0000 }

  lemma {:induction false} FoldBound(groups: seq<Group>, before: nat)
    requires Small(groups) && Fold(groups, before).Some?
    ensures Fold(groups, before).value < (before + 1) * Top(|groups|)
  {
    if groups != [] {
      var next := before * 0x1_0000 + groups[0].value;
      FoldBound(groups[1..], next);
      var top := Top(|groups| - 1);
      TopSum(|groups| - 1, 0);
      AtMostTimes(next + 1, (before + 1) * 0x1_0000, top);
      assert (before + 1) * 0x1_0000 * top == (before + 1) * (0x1_0000 * top);
    }
  }

  lemma AtMostTimes(a: nat, b: nat, k: nat)
    requires a <= b
    ensures a * k <= b * k
  {
  }

  lemma AroundGapBound(hi: seq<Group>, lo: seq<Group>)
    requires Small(hi) && Small(lo) && AroundGap(hi, lo).Some?
    ensures AroundGap(hi, lo).value < Top(8)
  {
    var high, m := Fold(hi, 0).value, 8 - |hi| - |lo|;
    FoldBound(hi, 0);
    ShiftIsProduct(high, m);
    FoldBound(lo, high * Top(m));
    TopSum(m, 0);
    RoomFor(high, Top(|hi|), Top(m), Top(|lo|));
    TopSum(|hi|, m);
    TopSum(|hi| + m, |lo|);
  }

  lemma RoomFor(high: nat, top: nat, middle: nat, low: nat)
    requires high < top && middle >= 1
    ensures (high * middle + 1) * low <= top * middle * low
  {
    AtMostTimes(high + 1, top, middle);
    assert (high + 1) * middle == high * middle + middle;
    AtMostTimes(high * middle + 1, top * middle, low);
  }

  lemma GroupsValueBound(groups: seq<Group>)
    requires Small(groups) && GroupsValue(groups).Some?
    ensures GroupsValue(groups).value < Top(8)
  {
    var gaps := Gaps(groups, 1);
    if gaps == [] {
      FoldBound(groups, 0);
    } else {
      AroundGapBound(High(groups, gaps[0]), Low(groups, gaps[0]));
    }
  }

  lemma {:induction false} HexValueBound(s: string)
    requires forall c :: c in s ==> HexChar(c)
    ensures HexValue(s) < Pow2(4 * |s|)
  {
    if s != "" {
      HexValueBound(s[..|s| - 1]);
      var n := 4 * (|s| - 1);
      assert Pow2(n + 4) == 2 * Pow2(n + 3) && Pow2(n + 3) == 2 * Pow2(n + 2) && Pow2(n + 2) == 2 * Pow2(n + 1);
      assert Pow2(n + 4) == 16 * Pow2(n) && 4 * |s| == n + 4;
      assert s[|s| - 1] in s;
    }
  }

  lemma GroupBound(s: string)
    ensures GroupOf(s).Value? ==> GroupOf(s).value < 0x1_0000
  {
    if GroupOf(s).Value? {
      HexValueBound(s);
      assert Pow2(4) == 16;
      Pow2Sum(4, 4);
      Pow2Sum(8, 4);
      Pow2Sum(8, 8);
    }
  }

  lemma GroupsBound(parts: seq<string>)
    requires parts != []
    ensures Small(GroupsOf(parts))
  {
    var groups, n := GroupsOf(parts), |parts| - 1;
    GroupBound(parts[n]);
    forall i | 0 <= i < n ensures groups[i] == GroupOf(parts[i]) && (groups[i].Value? ==> groups[i].value < 0x1_0000) {
      GroupBound(parts[i]);
    }
  }

  /** What an IPv6 address is made of, once it has been read. */
  predicate WellScoped(a: Address) {
    a.V6Address? ==> a.ip < Top(8) && '%' !in a.scope && '/' !in a.scope
  }

  lemma ParsedIsWellScoped(s: string)
    requires ParseAddress(s).Some?
    ensures WellScoped(ParseAddress(s).value)
  {
    if ParseAddress(s).value.V6Address? {
      var parts := SplitOn(s, '/');
      var scoped := SplitOn(parts[0], '%');
      PartsHaveNo(s, '/');
      PartsHaveNo(parts[0], '%');
      assert scoped[|scoped| - 1] == scoped[|scoped| - 1];
      var groups := GroupsOf(SplitOn(scoped[0], ':'));
      GroupsBound(SplitOn(scoped[0], ':'));
      GroupsValueBound(groups);
    }
  }

  lemma EntryIsWellScoped(e: Entry)
    requires Usable(e)
    ensures WellScoped(AddressOf(e).value)
  {
    if e.Str? {
      ParsedIsWellScoped(e.text);
    }
  }

  lemma AlignedNetwork(ip: nat, size: nat)
    requires size >= 1
    ensures ip % size <= ip && (ip - ip % size) % size == 0
  {
    ModAtMost(ip, size);
    AlignedDown(ip, size);
  }

  /** The network that is printed for an entry is read back as the entry's own. */
  lemma NetworkReadsBack(e: Entry)
    requires Usable(e)
    ensures ParseRange(NetworkText(e)) == Some(RangeOf(AddressOf(e).value))
  {
    EntryIsWellScoped(e);
    if AddressOf(e).value.V4Address? {
      V4NetworkReadsBack(AddressOf(e).value.iface);
    } else {
      V6NetworkReadsBack(AddressOf(e).value);
    }
  }

  lemma V4NetworkReadsBack(iface: Iface)
    requires ValidIface(iface)
    ensures ParseRange(TextOf(PrintedNetwork(V4Address(iface)))) == Some(V4(NetworkOf(iface)))
  {
    var net := NetworkOf(iface);
    IfaceReadsBack(Iface(net.base, net.len));
    assert TextOf(PrintedNetwork(V4Address(iface))) == IfaceText(Iface(net.base, net.len));
    AlignedIsMasked(net);
  }

  lemma V6NetworkReadsBack(a: Address)
    requires a.V6Address? && ValidAddress(a) && WellScoped(a)
    ensures ParseRange(TextOf(PrintedNetwork(a))) == Some(RangeOf(a))
  {
    var base, scope := RangeOf(a).base, PrintedNetwork(a).scope;
    AlignedNetwork(a.ip, Pow2(128 - a.len));
    assert RangeOf(a) == V6(base, a.len) && PrintedNetwork(a) == Printed(V6Text(base), scope, a.len);
    AlignedReadsBack(base, a.len, scope);
  }

  lemma AlignedReadsBack(base: nat, len: nat, scope: string)
    requires base < Top(8) && '%' !in scope && '/' !in scope && len <= 128 && base % Pow2(128 - len) == 0
    ensures ParseRange(TextOf(Printed(V6Text(base), scope, len))) == Some(V6(base, len))
  {
    ScopedNetworkReadsBack(base, scope, len);
    AlignedIsItsRange(base, len, scope);
  }

  lemma AlignedIsItsRange(base: nat, len: nat, scope: string)
    requires len <= 128 && base % Pow2(128 - len) == 0
    ensures RangeOf(V6Address(base, len, scope)) == V6(base, len)
  {
  }

  lemma AlignedIsMasked(net: Net)
    requires ValidNet(net)
    ensures NetworkOf(Iface(net.base, net.len)) == net
  {
  }

  /** An interface address keeps its host bits and its scope id, up to the scope's line ends. */
  lemma InterfaceReadsBack(e: Entry)
    requires Usable(e)
    ensures var a := AddressOf(e).value;
            ParseAddress(InterfaceText(e)) == Some(if a.V4Address? then a else a.(scope := LineEnds(a.scope)))
  {
    var a := AddressOf(e).value;
    EntryIsWellScoped(e);
    match a {
      case V4Address(iface) =>
        IfaceReadsBack(iface);
        assert InterfaceText(e) == IfaceText(iface);
      case V6Address(ip, len, scope) =>
        ScopedNetworkReadsBack(ip, LineEnds(scope), len);
    }
  }

  /** An IPv6 address with all its bits in the prefix: whatever scope id it has is kept. */
  function HostEntry(ip: nat, scope: string): Entry { Str(TextOf(Printed(V6Text(ip), scope, 128))) }

  lemma ScopeIsKept(ip: nat, scope: string)
    requires ip < Top(8) && '%' !in scope && '/' !in scope
    ensures Usable(HostEntry(ip, scope))
    ensures NetworkScope(HostEntry(ip, scope)) == LineEnds(scope) == InterfaceScope(HostEntry(ip, scope))
  {
    ScopedNetworkReadsBack(ip, scope, 128);
    assert Pow2(128 - 128) == 1 && ip % 1 == 0;
  }

  lemma {:induction false} PlainLineEnds(s: string)
    requires '\r' !in s
    ensures LineEnds(s) == s
  {
    if s != "" {
      assert s[0] in s;
      PlainLineEnds(s[1..]);
      assert [s[0]] + s[1..] == s;
    }
  }

  // ---------------------------------------------------------------- what the web application sends

  /** An IPv4 interface address prints as it was sent, and keeps no scope id. */
  lemma IfacePrints(i: Iface)
    requires ValidIface(i)
    ensures Usable(Str(IfaceText(i))) && InterfaceText(Str(IfaceText(i))) == IfaceText(i) && InterfaceScope(Str(IfaceText(i))) == ""
  {
    IfaceReadsBack(i);
  }

  /** So does a single address. */
  lemma HostPrints(a: nat)
    requires a < ADDRESSES
    ensures Usable(Str(HostText(a))) && NetworkText(Str(HostText(a))) == HostText(a) && NetworkScope(Str(HostText(a))) == ""
  {
    HostReadsBack(a);
    ThirtyTwo();
    assert HostText(a) == IfaceText(Iface(a, 32));
    IfaceReadsBack(Iface(a, 32));
    WholeAddress(a);
  }
}
