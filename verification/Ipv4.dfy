/** IPv4 networks as Python's ipaddress library computes with them, and what overlap
    means (section 3.1 of RFC 4632). */
module Ipv4 {
  import opened Text
  import opened ConfText

  const ADDRESSES := 0x1_0000_0000

  function Pow2(n: nat): (r: nat)
    ensures r >= 1
  {
    if n == 0 then 1 else 2 * Pow2(n - 1)
  }

  /** The number of addresses behind a prefix of the given length. */
  function Size(len: nat): (r: nat)
    requires len <= 32
    ensures r >= 1
  {
    Pow2(32 - len)
  }

  datatype Net = Net(base: nat, len: nat)

  predicate ValidNet(n: Net) {
    n.len <= 32 && n.base < ADDRESSES && n.base % Size(n.len) == 0
  }

  lemma ModAtMost(a: nat, m: nat)
    requires m >= 1
    ensures 0 <= a % m <= a
  {
    var q := a / m;
    assert a == q * m + a % m;
    assert q * m >= 0;
  }

  /** An address with the bits after the prefix cleared. */
  function Masked(address: nat, len: nat): (r: nat)
    requires len <= 32
    ensures r <= address
  {
    var size := Size(len);
    ModAtMost(address, size);
    address - address % size
  }

  /** `address in network`: the masked address is the network's own. */
  predicate In(address: nat, n: Net)
    requires n.len <= 32
  {
    Masked(address, n.len) == n.base
  }

  function Broadcast(n: Net): nat
    requires n.len <= 32
  {
    n.base + Size(n.len) - 1
  }

  /** network.overlaps(other): one of the four end points lies in the other network. */
  predicate Overlaps(a: Net, b: Net)
    requires a.len <= 32 && b.len <= 32
  {
    In(a.base, b) || In(Broadcast(a), b) || In(b.base, a) || In(Broadcast(b), a)
  }

  // ---------------------------------------------------------------- powers of two

  lemma {:induction false} Pow2Sum(m: nat, n: nat)
    ensures Pow2(m + n) == Pow2(m) * Pow2(n)
  {
    if m > 0 {
      Pow2Sum(m - 1, n);
      assert 2 * Pow2(m - 1) * Pow2(n) == 2 * (Pow2(m - 1) * Pow2(n));
    }
  }

  lemma Pow2Of32()
    ensures Pow2(32) == ADDRESSES
  {
    assert Pow2(8) == 256;
    Pow2Sum(8, 8);
    Pow2Sum(16, 16);
  }

  /** A network's addresses are all below 2 to the 32. */
  lemma NetFits(n: Net)
    requires ValidNet(n)
    ensures n.base + Size(n.len) <= ADDRESSES
  {
    var size, count := Size(n.len), Pow2(n.len);
    Pow2Sum(n.len, 32 - n.len);
    Pow2Of32();
    var q := WholeMultiple(n.base, size);
    MultipleBelow(q, count, size);
    MultipleUpTo(q + 1, count, size);
    assert (q + 1) * size == q * size + size;
  }

  /** A shorter prefix is a whole number of longer ones. */
  lemma SizesNest(short: nat, long: nat) returns (factor: nat)
    requires short <= long <= 32
    ensures factor >= 1 && Size(short) == factor * Size(long)
  {
    Pow2Sum(long - short, 32 - long);
    factor := Pow2(long - short);
  }

  lemma MultipleBelow(a: int, b: int, k: int)
    requires k > 0 && a * k < b * k
    ensures a < b
  {
    assert (b - a) * k > 0;
  }

  lemma WholeMultiple(x: nat, k: nat) returns (q: nat)
    requires k > 0 && x % k == 0
    ensures x == q * k
  {
    q := x / k;
  }

  lemma DivMod(x: nat, k: nat)
    requires k > 0
    ensures x == x / k * k + x % k
  {
  }

  lemma RemainderOf(q: nat, k: nat, r: nat)
    requires r < k
    ensures (q * k + r) % k == r
  {
    var x := q * k + r;
    var m, rem := x / k, x % k;
    DivMod(x, k);
    assert (q + 1) * k == q * k + k && (m + 1) * k == m * k + k;
    MultipleBelow(m, q + 1, k);
    MultipleBelow(q, m + 1, k);
  }

  /** Aligned blocks that share x: the smaller lies inside the larger. */
  lemma BlocksNest(j: int, c: int, i: int, k: int, x: int)
    requires k > 0 && j * (c * k) <= x < j * (c * k) + c * k && i * k <= x < i * k + k
    ensures j * (c * k) <= i * k && i * k + k <= j * (c * k) + c * k
  {
    var first := j * c;
    Regroup(j, c, k);
    assert (i + 1) * k == i * k + k && (first + c) * k == first * k + c * k;
    MultipleBelow(first, i + 1, k);
    MultipleBelow(i, first + c, k);
    MultipleUpTo(first, i, k);
    MultipleUpTo(i + 1, first + c, k);
  }

  lemma Regroup(j: int, c: int, k: int)
    ensures j * (c * k) == (j * c) * k
  {
  }

  lemma MultipleUpTo(a: int, b: int, k: int)
    requires k > 0 && a <= b
    ensures a * k <= b * k
  {
    assert (b - a) * k >= 0;
  }

  // ---------------------------------------------------------------- what a network holds

  /** The masked test holds on exactly the addresses from the base to the broadcast. */
  lemma InIsInterval(address: nat, n: Net)
    requires ValidNet(n)
    ensures In(address, n) <==> n.base <= address <= Broadcast(n)
  {
    var k := Size(n.len);
    if n.base <= address <= Broadcast(n) {
      var q := WholeMultiple(n.base, k);
      RemainderOf(q, k, address - n.base);
    }
  }

  /** If two networks share an address, the longer prefix lies inside the shorter. */
  lemma SharedMeansNested(a: Net, b: Net, x: nat)
    requires ValidNet(a) && ValidNet(b) && a.len <= b.len
    requires In(x, a) && In(x, b)
    ensures a.base <= b.base && Broadcast(b) <= Broadcast(a)
  {
    InIsInterval(x, a);
    InIsInterval(x, b);
    var k := Size(b.len);
    var c := SizesNest(a.len, b.len);
    var i := WholeMultiple(b.base, k);
    var j := WholeMultiple(a.base, Size(a.len));
    assert a.base == j * (c * k);
    BlocksNest(j, c, i, k, x);
  }

  /** Two networks overlap exactly when some address lies in both. */
  lemma OverlapIffShared(a: Net, b: Net)
    requires ValidNet(a) && ValidNet(b)
    ensures Overlaps(a, b) <==> exists x :: 0 <= x && In(x, a) && In(x, b)
  {
    InIsInterval(a.base, a);
    InIsInterval(Broadcast(a), a);
    InIsInterval(b.base, b);
    InIsInterval(Broadcast(b), b);
    if x :| 0 <= x && In(x, a) && In(x, b) {
      if a.len <= b.len {
        SharedMeansNested(a, b, x);
        InIsInterval(b.base, a);
      } else {
        SharedMeansNested(b, a, x);
        InIsInterval(a.base, b);
      }
    }
  }

  /** Equivalently, when the longer prefix extends the shorter: its base masked to the
      shorter length is the shorter network's base, and then all of it lies inside. */
  lemma OverlapIffPrefix(a: Net, b: Net)
    requires ValidNet(a) && ValidNet(b) && a.len <= b.len
    ensures Overlaps(a, b) <==> Masked(b.base, a.len) == a.base
    ensures Overlaps(a, b) <==> forall x: nat :: In(x, b) ==> In(x, a)
  {
    OverlapIffShared(a, b);
    InIsInterval(b.base, b);
    if Overlaps(a, b) {
      var x :| 0 <= x && In(x, a) && In(x, b);
      SharedMeansNested(a, b, x);
      InIsInterval(b.base, a);
      forall y: nat | In(y, b) ensures In(y, a) {
        InIsInterval(y, b);
        InIsInterval(y, a);
      }
    }
    assert (forall x: nat :: In(x, b) ==> In(x, a)) ==> In(b.base, a);
  }

  // ---------------------------------------------------------------- interfaces

  /** An address together with its prefix length, as ip_interface holds it. */
  datatype Iface = Iface(ip: nat, len: nat)

  predicate ValidIface(i: Iface) { i.ip < ADDRESSES && i.len <= 32 }

  function NetworkOf(i: Iface): (n: Net)
    requires ValidIface(i)
    ensures ValidNet(n) && In(i.ip, n)
  {
    MaskedIsAligned(i.ip, i.len);
    Net(Masked(i.ip, i.len), i.len)
  }

  lemma MaskedIsAligned(address: nat, len: nat)
    requires len <= 32
    ensures Masked(address, len) % Size(len) == 0
  {
    AlignedDown(address, Size(len));
  }

  lemma AlignedDown(x: nat, k: nat)
    requires k > 0
    ensures (x - x % k) % k == 0
  {
    DivMod(x, k);
    var q := x / k;
    assert x - x % k == q * k + 0;
    RemainderOf(q, k, 0);
  }

  // ---------------------------------------------------------------- printing

  /** str() of an IPv4 address. */
  function AddressText(a: nat): string {
    Decimal(a / 0x100_0000) + "." + (Decimal(a / 0x1_0000 % 0x100) + "." + (Decimal(a / 0x100 % 0x100) + "." + Decimal(a % 0x100)))
  }

  /** The single-address range that a peer is given. */
  function HostText(a: nat): string { AddressText(a) + "/32" }

  function IfaceText(i: Iface): string { AddressText(i.ip) + "/" + Decimal(i.len) }

  lemma DecimalIsRange(n: nat)
    ensures IsRange(Decimal(n)) && '.' !in Decimal(n) && '/' !in Decimal(n)
  {
  }

  lemma RangeOfTwo(a: string, b: string, c: char)
    requires IsRange(a) && IsRange(b) && RangeChar(c)
    ensures IsRange(a + [c] + b)
  {
  }

  lemma AddressTextIsRange(a: nat)
    ensures IsRange(AddressText(a)) && '/' !in AddressText(a)
  {
    var d0, d1, d2, d3 := Decimal(a / 0x100_0000), Decimal(a / 0x1_0000 % 0x100), Decimal(a / 0x100 % 0x100), Decimal(a % 0x100);
    DecimalIsRange(a / 0x100_0000);
    DecimalIsRange(a / 0x1_0000 % 0x100);
    DecimalIsRange(a / 0x100 % 0x100);
    DecimalIsRange(a % 0x100);
    RangeOfTwo(d2, d3, '.');
    assert '/' !in d2 + "." + d3;
    assert d2 + "." + d3 == d2 + ("." + d3);
    RangeOfTwo(d1, d2 + "." + d3, '.');
    assert '/' !in d1 + "." + (d2 + "." + d3);
    RangeOfTwo(d0, d1 + "." + (d2 + "." + d3), '.');
  }

  lemma HostTextIsRange(a: nat)
    ensures IsRange(HostText(a))
  {
    AddressTextIsRange(a);
    assert IsRange("32");
    RangeOfTwo(AddressText(a), "32", '/');
    assert HostText(a) == AddressText(a) + ['/'] + "32";
  }

  lemma IfaceTextIsRange(i: Iface)
    ensures IsRange(IfaceText(i))
  {
    AddressTextIsRange(i.ip);
    DecimalIsRange(i.len);
    RangeOfTwo(AddressText(i.ip), Decimal(i.len), '/');
  }

  lemma DecimalInjective(a: nat, b: nat)
    requires Decimal(a) == Decimal(b)
    ensures a == b
  {
    DecimalRoundTrip(a);
    DecimalRoundTrip(b);
  }

  /** No two addresses print alike. */
  lemma HostTextInjective(a: nat, b: nat)
    requires HostText(a) == HostText(b)
    ensures a == b
  {
    assert AddressText(a) == HostText(a)[..|HostText(a)| - 3];
    assert AddressText(b) == HostText(b)[..|HostText(b)| - 3];
    AddressParts(a);
    AddressParts(b);
    var parts := SplitOn(AddressText(a), '.');
    assert parts[0] == Decimal(a / 0x100_0000) == Decimal(b / 0x100_0000);
    assert parts[1] == Decimal(a / 0x1_0000 % 0x100) == Decimal(b / 0x1_0000 % 0x100);
    assert parts[2] == Decimal(a / 0x100 % 0x100) == Decimal(b / 0x100 % 0x100);
    assert parts[3] == Decimal(a % 0x100) == Decimal(b % 0x100);
    DecimalInjective(a / 0x100_0000, b / 0x100_0000);
    DecimalInjective(a / 0x1_0000 % 0x100, b / 0x1_0000 % 0x100);
    DecimalInjective(a / 0x100 % 0x100, b / 0x100 % 0x100);
    DecimalInjective(a % 0x100, b % 0x100);
    BytesDetermine(a, b);
  }

  lemma AddressParts(a: nat)
    ensures SplitOn(AddressText(a), '.') ==
            [Decimal(a / 0x100_0000), Decimal(a / 0x1_0000 % 0x100), Decimal(a / 0x100 % 0x100), Decimal(a % 0x100)]
  {
    DecimalIsRange(a / 0x100_0000);
    DecimalIsRange(a / 0x1_0000 % 0x100);
    DecimalIsRange(a / 0x100 % 0x100);
    DecimalIsRange(a % 0x100);
    FourParts(Decimal(a / 0x100_0000), Decimal(a / 0x1_0000 % 0x100), Decimal(a / 0x100 % 0x100), Decimal(a % 0x100));
  }

  lemma FourParts(d0: string, d1: string, d2: string, d3: string)
    requires '.' !in d0 && '.' !in d1 && '.' !in d2 && '.' !in d3
    ensures SplitOn(d0 + "." + (d1 + "." + (d2 + "." + d3)), '.') == [d0, d1, d2, d3]
  {
    var tail2 := d2 + "." + d3;
    var tail1 := d1 + "." + tail2;
    SplitOnToken(d3, '.');
    SplitOnStep(d2, d3, '.');
    SplitOnStep(d1, tail2, '.');
    SplitOnStep(d0, tail1, '.');
  }

  lemma BytesDetermine(a: nat, b: nat)
    requires a / 0x100_0000 == b / 0x100_0000 && a / 0x1_0000 % 0x100 == b / 0x1_0000 % 0x100
    requires a / 0x100 % 0x100 == b / 0x100 % 0x100 && a % 0x100 == b % 0x100
    ensures a == b
  {
    BytesOf(a);
    BytesOf(b);
  }

  lemma BytesOf(a: nat)
    ensures a == a / 0x100_0000 * 0x100_0000 + a / 0x1_0000 % 0x100 * 0x1_0000 + a / 0x100 % 0x100 * 0x100 + a % 0x100
  {
    assert a / 0x1_0000 == a / 0x100 / 0x100;
    assert a / 0x100_0000 == a / 0x1_0000 / 0x100;
  }
}
