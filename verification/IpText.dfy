/** Address and network texts, as Python's ipaddress library reads and prints them. */
module IpText {
  import opened Text
  import opened ConfText
  import opened Ipv4

  // ---------------------------------------------------------------- IPv4

  /** One octet: up to three ASCII digits without a leading zero, at most 255. */
  function ParseOctet(s: string): Option<nat> {
    if s != "" && AllDigits(s) && |s| <= 3 && (s == "0" || s[0] != '0') then
      var v := DecimalValue(s);
      if 0 <= v <= 255 then Some(v) else None
    else None
  }

  function ParseIpv4(s: string): (r: Option<nat>)
    ensures r.Some? ==> r.value < ADDRESSES
  {
    var parts := SplitOn(s, '.');
    if |parts| != 4 then None
    else
      var a, b, c, d := ParseOctet(parts[0]), ParseOctet(parts[1]), ParseOctet(parts[2]), ParseOctet(parts[3]);
      if a.Some? && b.Some? && c.Some? && d.Some? then
        Combine(a.value, b.value, c.value, d.value)
      else None
  }

  function Combine(a: nat, b: nat, c: nat, d: nat): (r: Option<nat>)
    ensures r.Some? ==> r.value < ADDRESSES
    ensures a < 0x100 && b < 0x100 && c < 0x100 && d < 0x100 ==> r == Some(a * 0x100_0000 + b * 0x1_0000 + c * 0x100 + d)
  {
    if a < 0x100 && b < 0x100 && c < 0x100 && d < 0x100 then Some(a * 0x100_0000 + b * 0x1_0000 + c * 0x100 + d) else None
  }

  function PrefixLength(s: string, max: nat): (r: Option<nat>)
    ensures r.Some? ==> r.value <= max
  {
    if s != "" && AllDigits(s) then
      var v := DecimalValue(s);
      if 0 <= v <= max then Some(v) else None
    else None
  }

  /** The prefix length whose netmask this is. */
  function MaskLength(mask: nat, len: nat): (r: Option<nat>)
    requires len <= 33
    ensures r.Some? ==> len <= r.value <= 32 && mask == ADDRESSES - Size(r.value)
    decreases 33 - len
  {
    if len == 33 then None
    else if mask == ADDRESSES - Size(len) then Some(len)
    else MaskLength(mask, len + 1)
  }

  /** After the slash: a prefix length, a netmask or a host mask. */
  function ParseMask(s: string): (r: Option<nat>)
    ensures r.Some? ==> r.value <= 32
  {
    var len := PrefixLength(s, 32);
    if len.Some? then len
    else
      var mask := ParseIpv4(s);
      if mask.None? then None
      else
        var net := MaskLength(mask.value, 0);
        if net.Some? then net else MaskLength(ADDRESSES - 1 - mask.value, 0)
  }

  function ParseIface4(s: string): (r: Option<Iface>)
    ensures r.Some? ==> ValidIface(r.value)
  {
    var parts := SplitOn(s, '/');
    var ip := ParseIpv4(parts[0]);
    if ip.None? || |parts| > 2 then None
    else if |parts| == 1 then Some(Iface(ip.value, 32))
    else
      var len := ParseMask(parts[1]);
      if len.Some? then Some(Iface(ip.value, len.value)) else None
  }

  // ---------------------------------------------------------------- IPv6

  /** What stands between two colons. */
  datatype Group = Empty | Bad | Value(value: nat)

  predicate HexChar(c: char) { '0' <= c <= '9' || 'a' <= c <= 'f' || 'A' <= c <= 'F' }

  function HexDigit(c: char): nat
    requires HexChar(c)
  {
    if c <= '9' then c as int - '0' as int
    else if c <= 'F' then c as int - 'A' as int + 10
    else c as int - 'a' as int + 10
  }

  function HexValue(s: string): nat
    requires forall c :: c in s ==> HexChar(c)
  {
    if s == "" then 0
    else
      assert s[|s| - 1] in s;
      HexValue(s[..|s| - 1]) * 16 + HexDigit(s[|s| - 1])
  }

  function GroupOf(s: string): Group {
    if s == "" then Empty
    else if |s| <= 4 && forall c :: c in s ==> HexChar(c) then Value(HexValue(s))
    else Bad
  }

  /** The groups of an address; a last one with dots is an IPv4 address and counts for two. */
  function GroupsOf(parts: seq<string>): seq<Group>
    requires parts != []
  {
    var n := |parts| - 1;
    var front := seq(n, i requires 0 <= i < n => GroupOf(parts[i]));
    if '.' in parts[n] then
      var v4 := ParseIpv4(parts[n]);
      front + (if v4.Some? then [Value(v4.value / 0x1_0000), Value(v4.value % 0x1_0000)] else [Bad])
    else front + [GroupOf(parts[n])]
  }

  function Fold(groups: seq<Group>, before: nat): Option<nat> {
    if groups == [] then Some(before)
    else if groups[0].Value? then Fold(groups[1..], before * 0x1_0000 + groups[0].value)
    else None
  }

  /** The places, from i on, of empty groups before the last one. */
  function Gaps(groups: seq<Group>, i: nat): (r: seq<nat>)
    ensures forall k :: 0 <= k < |r| ==> i <= r[k] < |groups| - 1
    decreases |groups| - i
  {
    if i + 1 >= |groups| then []
    else (if groups[i].Empty? then [i] else []) + Gaps(groups, i + 1)
  }

  function Shift(v: nat, groups: nat): nat
    decreases groups
  {
    if groups == 0 then v else Shift(v * 0x1_0000, groups - 1)
  }

  /** The groups before and after a double colon; one at an end of the text adds an empty group there. */
  function High(groups: seq<Group>, gap: nat): seq<Group>
    requires 1 <= gap < |groups| - 1
  {
    if groups[0].Empty? then groups[1..gap] else groups[..gap]
  }

  function Low(groups: seq<Group>, gap: nat): seq<Group>
    requires 1 <= gap < |groups| - 1
  {
    if groups[|groups| - 1].Empty? then groups[gap + 1..|groups| - 1] else groups[gap + 1..]
  }

  function AroundGap(hi: seq<Group>, lo: seq<Group>): Option<nat> {
    if |hi| + |lo| > 7 then None
    else
      var high := Fold(hi, 0);
      if high.None? then None else Fold(lo, Shift(high.value, 8 - |hi| - |lo|))
  }

  /** The value of an address: eight groups, or fewer around one double colon. */
  function GroupsValue(groups: seq<Group>): Option<nat> {
    var n, gaps := |groups|, Gaps(groups, 1);
    if n > 9 || |gaps| > 1 then None
    else if gaps == [] then if n == 8 then Fold(groups, 0) else None
    else
      var hi, lo := High(groups, gaps[0]), Low(groups, gaps[0]);
      if (groups[0].Empty? && hi != []) || (groups[n - 1].Empty? && lo != []) then None else AroundGap(hi, lo)
  }

  /** An address, possibly with a nonempty scope after a percent sign. */
  function ParseIpv6(s: string): Option<nat> {
    var scoped := SplitOn(s, '%');
    var parts := SplitOn(scoped[0], ':');
    if |scoped| > 2 || (|scoped| == 2 && scoped[1] == "") || |parts| < 3 then None
    else GroupsValue(GroupsOf(parts))
  }

  /** What follows the percent sign; nothing does if there is none. */
  function ScopeOf(s: string): string {
    var scoped := SplitOn(s, '%');
    if |scoped| > 1 then scoped[1] else ""
  }

  /** An address with a prefix length; an IPv6 one may have a scope id. */
  datatype Address = V4Address(iface: Iface) | V6Address(ip: nat, len: nat, scope: string)

  predicate ValidAddress(a: Address) {
    if a.V4Address? then ValidIface(a.iface) else a.len <= 128
  }

  /** ip_interface(s): IPv4 if it can be, else IPv6, else an error. */
  function ParseAddress(s: string): (r: Option<Address>)
    ensures r.Some? ==> ValidAddress(r.value)
  {
    var v4 := ParseIface4(s);
    if v4.Some? then Some(V4Address(v4.value))
    else
      var parts := SplitOn(s, '/');
      var ip := ParseIpv6(parts[0]);
      if ip.None? || |parts| > 2 then None
      else if |parts| == 1 then Some(V6Address(ip.value, 128, ScopeOf(parts[0])))
      else
        var len := PrefixLength(parts[1], 128);
        if len.Some? then Some(V6Address(ip.value, len.value, ScopeOf(parts[0]))) else None
  }

  // ---------------------------------------------------------------- ranges

  /** A routed range: an IPv4 network, or an IPv6 one, which no IPv4 network overlaps. */
  datatype Range = V4(net: Net) | V6(base: nat, len: nat)

  predicate ValidRange(r: Range) { r.V4? ==> ValidNet(r.net) }

  /** The network of an address: its host bits cleared. */
  function RangeOf(a: Address): (r: Range)
    requires ValidAddress(a)
    ensures ValidRange(r)
  {
    match a
    case V4Address(iface) => V4(NetworkOf(iface))
    case V6Address(ip, len, _) =>
      var size := Pow2(128 - len);
      ModAtMost(ip, size);
      V6(ip - ip % size, len)
  }

  /** ip_network(s, strict=False). */
  function ParseRange(s: string): (r: Option<Range>)
    ensures r.Some? ==> ValidRange(r.value)
  {
    var a := ParseAddress(s);
    if a.Some? then Some(RangeOf(a.value)) else None
  }

  // ---------------------------------------------------------------- what is printed reads back

  lemma OctetReadsBack(n: nat)
    requires n < 0x100
    ensures ParseOctet(Decimal(n)) == Some(n)
  {
    DecimalRoundTrip(n);
    if n >= 10 {
      assert Decimal(n) == Decimal(n / 10) + [DigitChar(n % 10)];
      if n >= 100 {
        assert Decimal(n / 10) == Decimal(n / 100) + [DigitChar(n / 10 % 10)];
      }
    }
  }

  lemma AddressReadsBack(a: nat)
    requires a < ADDRESSES
    ensures ParseIpv4(AddressText(a)) == Some(a)
  {
    AddressParts(a);
    OctetReadsBack(a / 0x100_0000);
    OctetReadsBack(a / 0x1_0000 % 0x100);
    OctetReadsBack(a / 0x100 % 0x100);
    OctetReadsBack(a % 0x100);
    BytesOf(a);
  }

  lemma PrefixReadsBack(len: nat, max: nat)
    requires len <= max
    ensures PrefixLength(Decimal(len), max) == Some(len)
  {
    DecimalRoundTrip(len);
  }

  lemma SlashSplits(a: nat, len: nat)
    ensures SplitOn(AddressText(a) + "/" + Decimal(len), '/') == [AddressText(a), Decimal(len)]
  {
    AddressTextIsRange(a);
    DecimalIsRange(len);
    SplitOnStep(AddressText(a), Decimal(len), '/');
    SplitOnToken(Decimal(len), '/');
  }

  /** An interface address reads back as it was printed. */
  lemma IfaceReadsBack(i: Iface)
    requires ValidIface(i)
    ensures ParseAddress(IfaceText(i)) == Some(V4Address(i))
  {
    SlashSplits(i.ip, i.len);
    AddressReadsBack(i.ip);
    PrefixReadsBack(i.len, 32);
  }

  lemma ThirtyTwo()
    ensures Decimal(32) == "32"
  {
    assert Decimal(3) == "3";
  }

  /** A single-address range reads back as the network of that address alone. */
  lemma HostReadsBack(a: nat)
    requires a < ADDRESSES
    ensures ParseRange(HostText(a)) == Some(V4(Net(a, 32)))
  {
    ThirtyTwo();
    IfaceReadsBack(Iface(a, 32));
    assert HostText(a) == IfaceText(Iface(a, 32));
    WholeAddress(a);
    assert NetworkOf(Iface(a, 32)) == Net(a, 32);
  }

  lemma WholeAddress(a: nat)
    ensures Masked(a, 32) == a
  {
    var size := Size(32);
    assert size == 1;
    assert a % 1 == 0;
  }

  /** Two addresses in one text, each with its prefix, are not an address. */
  lemma TwoAddressesAreNone(a: string, b: string, c: string)
    requires '/' !in a && '/' !in b
    ensures ParseAddress(a + "/" + (b + "/" + c)) == None
  {
    SplitOnStep(a, b + "/" + c, '/');
    SplitOnStep(b, c, '/');
  }
}
