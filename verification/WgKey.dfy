/** WireGuard keys as the helper daemon validates them: a pattern over text on
    one side, 32 bytes in base64 (RFC 4648, sections 3.5 and 4) on the other. */
module WgKey {

  // ---------------------------------------------------------------- the daemon's pattern

  /** The character class [A-Za-z0-9+/]. */
  predicate KeyChar(c: char) {
    'A' <= c <= 'Z' || 'a' <= c <= 'z' || '0' <= c <= '9' || c == '+' || c == '/'
  }

  const LAST_CHARS := "AEIMQUYcgkosw048"

  /** The pattern between ^ and $: 42 key characters, one of the 16 last ones, a pad. */
  predicate MatchesBody(s: string) {
    && |s| == 44
    && (forall i :: 0 <= i < 42 ==> KeyChar(s[i]))
    && s[42] in LAST_CHARS
    && s[43] == '='
  }

  /** Python's `$` also matches just before one final newline, so the check lets that through. */
  predicate Accepts(s: string) {
    MatchesBody(s) || (s != "" && s[|s| - 1] == '\n' && MatchesBody(s[..|s| - 1]))
  }

  /** The key itself, without the newline the check tolerates. */
  function Bare(s: string): string {
    if s != "" && s[|s| - 1] == '\n' then s[..|s| - 1] else s
  }

  predicate SameKey(a: string, b: string) { Bare(a) == Bare(b) }

  lemma BareOfAccepted(s: string)
    requires Accepts(s)
    ensures MatchesBody(Bare(s)) && (s == Bare(s) || s == Bare(s) + "\n")
    ensures '\n' !in Bare(s) && ' ' !in Bare(s)
  {
    var b := Bare(s);
    assert MatchesBody(b);
    forall c | c in b ensures c != '\n' && c != ' ' {
      var i :| 0 <= i < |b| && b[i] == c;
      if i == 42 {
        LastCharsAreMultiplesOfFour(c);
      }
    }
  }

  // ---------------------------------------------------------------- base64 of RFC 4648

  type Byte = b: int | 0 <= b < 256

  /** Table 1 of RFC 4648: the character of a six-bit value. */
  function Digit(v: nat): (c: char)
    requires v < 64
    ensures KeyChar(c) && DigitValue(c) == v
  {
    if v < 26 then ('A' as int + v) as char
    else if v < 52 then ('a' as int + v - 26) as char
    else if v < 62 then ('0' as int + v - 52) as char
    else if v == 62 then '+' else '/'
  }

  function DigitValue(c: char): (v: nat)
    requires KeyChar(c)
    ensures v < 64
  {
    if 'A' <= c <= 'Z' then c as int - 'A' as int
    else if 'a' <= c <= 'z' then c as int - 'a' as int + 26
    else if '0' <= c <= '9' then c as int - '0' as int + 52
    else if c == '+' then 62 else 63
  }

  lemma DigitOfValue(c: char)
    requires KeyChar(c)
    ensures Digit(DigitValue(c)) == c
  {
  }

  /** Three bytes as four characters. */
  function Group(a: Byte, b: Byte, c: Byte): (s: string)
    ensures |s| == 4 && KeyChar(s[0]) && KeyChar(s[1]) && KeyChar(s[2]) && KeyChar(s[3])
    ensures Ungroup(s[0], s[1], s[2], s[3]) == [a, b, c]
  {
    [Digit(a / 4), Digit(a % 4 * 16 + b / 16), Digit(b % 16 * 4 + c / 64), Digit(c % 64)]
  }

  function Ungroup(c0: char, c1: char, c2: char, c3: char): (bytes: seq<Byte>)
    requires KeyChar(c0) && KeyChar(c1) && KeyChar(c2) && KeyChar(c3)
    ensures |bytes| == 3
  {
    var v0, v1, v2, v3 := DigitValue(c0), DigitValue(c1), DigitValue(c2), DigitValue(c3);
    [v0 * 4 + v1 / 16, v1 % 16 * 16 + v2 / 4, v2 % 4 * 64 + v3]
  }

  lemma GroupDigits(a: Byte, b: Byte, c: Byte, v0: nat, v1: nat, v2: nat, v3: nat)
    requires v0 < 64 && v1 < 64 && v2 < 64 && v3 < 64
    requires a / 4 == v0 && a % 4 * 16 + b / 16 == v1 && b % 16 * 4 + c / 64 == v2 && c % 64 == v3
    ensures Group(a, b, c) == [Digit(v0), Digit(v1), Digit(v2), Digit(v3)]
  {
  }

  lemma GroupOfUngroup(c0: char, c1: char, c2: char, c3: char)
    requires KeyChar(c0) && KeyChar(c1) && KeyChar(c2) && KeyChar(c3)
    ensures var bytes := Ungroup(c0, c1, c2, c3); Group(bytes[0], bytes[1], bytes[2]) == [c0, c1, c2, c3]
  {
    var bytes := Ungroup(c0, c1, c2, c3);
    var v0, v1, v2, v3 := DigitValue(c0), DigitValue(c1), DigitValue(c2), DigitValue(c3);
    Regroup(v0, v1, v2, v3);
    GroupDigits(bytes[0], bytes[1], bytes[2], v0, v1, v2, v3);
    DigitOfValue(c0);
    DigitOfValue(c1);
    DigitOfValue(c2);
    DigitOfValue(c3);
  }

  /** Four six-bit values packed into three bytes come apart again. */
  lemma Regroup(v0: nat, v1: nat, v2: nat, v3: nat)
    requires v0 < 64 && v1 < 64 && v2 < 64 && v3 < 64
    ensures var a, b, c := v0 * 4 + v1 / 16, v1 % 16 * 16 + v2 / 4, v2 % 4 * 64 + v3;
            a / 4 == v0 && a % 4 * 16 + b / 16 == v1 && b % 16 * 4 + c / 64 == v2 && c % 64 == v3
  {
  }

  /** A final group of two bytes: three characters and one pad. */
  function LastGroup(a: Byte, b: Byte): (s: string)
    ensures |s| == 4 && KeyChar(s[0]) && KeyChar(s[1]) && KeyChar(s[2]) && s[3] == '='
    ensures DigitValue(s[2]) % 4 == 0
    ensures UngroupLast(s[0], s[1], s[2]) == [a, b]
  {
    [Digit(a / 4), Digit(a % 4 * 16 + b / 16), Digit(b % 16 * 4), '=']
  }

  function UngroupLast(c0: char, c1: char, c2: char): (bytes: seq<Byte>)
    requires KeyChar(c0) && KeyChar(c1) && KeyChar(c2)
    ensures |bytes| == 2
  {
    var v0, v1, v2 := DigitValue(c0), DigitValue(c1), DigitValue(c2);
    [v0 * 4 + v1 / 16, v1 % 16 * 16 + v2 / 4]
  }

  lemma LastGroupOfUngroup(c0: char, c1: char, c2: char)
    requires KeyChar(c0) && KeyChar(c1) && KeyChar(c2) && DigitValue(c2) % 4 == 0
    ensures var bytes := UngroupLast(c0, c1, c2); LastGroup(bytes[0], bytes[1]) == [c0, c1, c2, '=']
  {
    var bytes := UngroupLast(c0, c1, c2);
    var v0, v1, v2 := DigitValue(c0), DigitValue(c1), DigitValue(c2);
    Regroup(v0, v1, v2, 0);
    LastDigits(bytes[0], bytes[1], v0, v1, v2);
    DigitOfValue(c0);
    DigitOfValue(c1);
    DigitOfValue(c2);
  }

  lemma LastDigits(a: Byte, b: Byte, v0: nat, v1: nat, v2: nat)
    requires v0 < 64 && v1 < 64 && v2 < 64
    requires a / 4 == v0 && a % 4 * 16 + b / 16 == v1 && b % 16 * 4 == v2
    ensures LastGroup(a, b) == [Digit(v0), Digit(v1), Digit(v2), '=']
  {
  }

  /** The lengths 2, 5, 8, and so on, among them 32. */
  predicate TwoMore(n: nat) { n == 2 || (n > 4 && TwoMore(n - 3)) }

  function TextLength(n: nat): nat
    requires TwoMore(n)
  {
    if n == 2 then 4 else 4 + TextLength(n - 3)
  }

  lemma {:induction false} LengthsMatch(n: nat)
    requires TwoMore(n)
    ensures TextLength(n) * 3 == (n + 1) * 4
  {
    if n != 2 {
      LengthsMatch(n - 3);
    }
  }

  lemma ThirtyTwoBytes()
    ensures TwoMore(32) && TextLength(32) == 44
  {
    assert TwoMore(5) && TwoMore(8) && TwoMore(11) && TwoMore(14);
    assert TwoMore(17) && TwoMore(20) && TwoMore(23) && TwoMore(26);
    assert TwoMore(29);
    LengthsMatch(32);
  }

  /** Base64 of a byte string whose length is 2 more than a multiple of 3, as 32 is. */
  function Encode(bytes: seq<Byte>): (s: string)
    requires TwoMore(|bytes|)
    ensures |s| == TextLength(|bytes|)
  {
    if |bytes| == 2 then LastGroup(bytes[0], bytes[1])
    else Group(bytes[0], bytes[1], bytes[2]) + Encode(bytes[3..])
  }

  /** Text that ends in a group with one pad and no stray bits before the pad. */
  predicate Padded(s: string) {
    && |s| >= 4 && |s| % 4 == 0
    && (forall i :: 0 <= i < |s| - 1 ==> KeyChar(s[i]))
    && DigitValue(s[|s| - 2]) % 4 == 0
    && s[|s| - 1] == '='
  }

  lemma PaddedStep(group: string, s: string)
    requires |group| == 4 && Padded(s)
    requires KeyChar(group[0]) && KeyChar(group[1]) && KeyChar(group[2]) && KeyChar(group[3])
    ensures Padded(group + s)
  {
    var t := group + s;
    forall i | 0 <= i < |t| - 1 ensures KeyChar(t[i]) {
      if i >= 4 {
        assert t[i] == s[i - 4];
      }
    }
  }

  function Decode(s: string): (bytes: seq<Byte>)
    requires Padded(s)
    ensures TwoMore(|bytes|) && TextLength(|bytes|) == |s|
  {
    if |s| == 4 then UngroupLast(s[0], s[1], s[2])
    else
      assert Padded(s[4..]);
      Ungroup(s[0], s[1], s[2], s[3]) + Decode(s[4..])
  }

  lemma DecodeText(group: string, s: string)
    requires |group| == 4 && Padded(s)
    requires KeyChar(group[0]) && KeyChar(group[1]) && KeyChar(group[2]) && KeyChar(group[3])
    ensures Padded(group + s) && Decode(group + s) == Ungroup(group[0], group[1], group[2], group[3]) + Decode(s)
  {
    PaddedStep(group, s);
    var t := group + s;
    assert t[0] == group[0] && t[1] == group[1] && t[2] == group[2] && t[3] == group[3];
    assert t[4..] == s;
  }

  lemma EncodeGroup(bytes: seq<Byte>, rest: seq<Byte>)
    requires |bytes| == 3 && TwoMore(|rest|)
    ensures TwoMore(|bytes + rest|) && Encode(bytes + rest) == Group(bytes[0], bytes[1], bytes[2]) + Encode(rest)
  {
    var all := bytes + rest;
    assert all[0] == bytes[0] && all[1] == bytes[1] && all[2] == bytes[2] && all[3..] == rest;
  }

  lemma DecodeEncodeStep(bytes: seq<Byte>, rest: seq<Byte>, code: string)
    requires |bytes| == 3 && TwoMore(|rest|) && code == Encode(rest) && Padded(code) && Decode(code) == rest
    ensures TwoMore(|bytes + rest|) && Padded(Encode(bytes + rest)) && Decode(Encode(bytes + rest)) == bytes + rest
  {
    var group := Group(bytes[0], bytes[1], bytes[2]);
    EncodeGroup(bytes, rest);
    DecodeText(group, code);
    assert bytes == [bytes[0], bytes[1], bytes[2]];
  }

  lemma {:induction false} DecodeEncode(bytes: seq<Byte>)
    requires TwoMore(|bytes|)
    ensures Padded(Encode(bytes)) && Decode(Encode(bytes)) == bytes
  {
    if |bytes| > 2 {
      DecodeEncode(bytes[3..]);
      DecodeEncodeStep(bytes[..3], bytes[3..], Encode(bytes[3..]));
      assert bytes[..3] + bytes[3..] == bytes;
    } else {
      assert bytes == [bytes[0], bytes[1]];
    }
  }

  lemma EncodeDecodeStep(group: string, s: string, rest: seq<Byte>)
    requires |group| == 4 && Padded(s) && rest == Decode(s) && Encode(rest) == s
    requires KeyChar(group[0]) && KeyChar(group[1]) && KeyChar(group[2]) && KeyChar(group[3])
    ensures Padded(group + s) && Encode(Decode(group + s)) == group + s
  {
    var bytes := Ungroup(group[0], group[1], group[2], group[3]);
    DecodeText(group, s);
    GroupText(group);
    EncodeGroup(bytes, rest);
  }

  lemma GroupText(group: string)
    requires |group| == 4 && KeyChar(group[0]) && KeyChar(group[1]) && KeyChar(group[2]) && KeyChar(group[3])
    ensures var bytes := Ungroup(group[0], group[1], group[2], group[3]); Group(bytes[0], bytes[1], bytes[2]) == group
  {
    GroupOfUngroup(group[0], group[1], group[2], group[3]);
    assert group == [group[0], group[1], group[2], group[3]];
  }

  lemma {:induction false} EncodeDecode(s: string)
    requires Padded(s)
    ensures Encode(Decode(s)) == s
  {
    if |s| == 4 {
      LastGroupOfUngroup(s[0], s[1], s[2]);
      assert s == [s[0], s[1], s[2], '='];
    } else {
      assert Padded(s[4..]);
      EncodeDecode(s[4..]);
      EncodeDecodeStep(s[..4], s[4..], Decode(s[4..]));
      assert s[..4] + s[4..] == s;
    }
  }

  // ---------------------------------------------------------------- the two agree

  lemma LastCharAt(q: nat)
    requires q < 16
    ensures LAST_CHARS[q] == Digit(4 * q)
  {
  }

  /** The 16 characters allowed before the pad are those whose two low bits are zero. */
  lemma LastCharsAreMultiplesOfFour(c: char)
    ensures c in LAST_CHARS <==> KeyChar(c) && DigitValue(c) % 4 == 0
  {
    if c in LAST_CHARS {
      var i :| 0 <= i < |LAST_CHARS| && LAST_CHARS[i] == c;
      LastCharAt(i);
    }
    if KeyChar(c) && DigitValue(c) % 4 == 0 {
      var q := DigitValue(c) / 4;
      DigitOfValue(c);
      LastCharAt(q);
      assert c == LAST_CHARS[q];
    }
  }

  /** A WireGuard key: 32 bytes. */
  type Key = bytes: seq<Byte> | |bytes| == 32 witness seq(32, _ => 0)

  function EncodeKey(key: Key): (s: string)
    ensures |s| == 44 && Padded(s)
  {
    ThirtyTwoBytes();
    DecodeEncode(key);
    Encode(key)
  }

  function DecodeKey(s: string): Key
    requires Padded(s) && |s| == 44
  {
    LengthsMatch(|Decode(s)|);
    Decode(s)
  }

  lemma KeyRoundTrips(key: Key, s: string)
    requires Padded(s) && |s| == 44
    ensures DecodeKey(EncodeKey(key)) == key && EncodeKey(DecodeKey(s)) == s
  {
    ThirtyTwoBytes();
    DecodeEncode(key);
    EncodeDecode(s);
  }

  lemma BodyIsPadded(s: string)
    ensures MatchesBody(s) <==> |s| == 44 && Padded(s)
  {
    if |s| == 44 {
      LastCharsAreMultiplesOfFour(s[42]);
    }
  }

  /** The check accepts exactly the base64 encodings of 32-byte values, each either
      bare or followed by one newline. */
  lemma AcceptsExactlyEncodings(s: string)
    ensures Accepts(s) <==> exists key: Key :: s == EncodeKey(key) || s == EncodeKey(key) + "\n"
  {
    if Accepts(s) {
      BareOfAccepted(s);
      var b := Bare(s);
      BodyIsPadded(b);
      KeyRoundTrips(DecodeKey(b), b);
      assert b == EncodeKey(DecodeKey(b));
    }
    if key: Key :| s == EncodeKey(key) || s == EncodeKey(key) + "\n" {
      EncodingAccepted(key);
    }
  }

  lemma EncodingAccepted(key: Key)
    ensures Accepts(EncodeKey(key)) && Accepts(EncodeKey(key) + "\n")
  {
    var s := EncodeKey(key);
    BodyIsPadded(s);
    assert (s + "\n")[..|s + "\n"| - 1] == s;
  }

  lemma AcceptedBare(s: string)
    requires Accepts(s) && '\n' !in s
    ensures Padded(s) && |s| == 44
  {
    assert s[|s| - 1] in s;
    BodyIsPadded(s);
  }

  /** On text without a newline the check is exact: it accepts a string exactly when the
      string is some 32-byte value's encoding, and no two values share one. */
  lemma KeysAreBijective(s: string)
    requires '\n' !in s
    ensures Accepts(s) <==> exists key: Key :: s == EncodeKey(key)
    ensures forall a: Key, b: Key :: EncodeKey(a) == s && EncodeKey(b) == s ==> a == b
  {
    if Accepts(s) {
      AcceptedBare(s);
      KeyRoundTrips(DecodeKey(s), s);
      assert s == EncodeKey(DecodeKey(s));
    }
    if key: Key :| s == EncodeKey(key) {
      EncodingAccepted(key);
    }
    forall a: Key, b: Key | EncodeKey(a) == s && EncodeKey(b) == s ensures a == b {
      KeyRoundTrips(a, s);
      KeyRoundTrips(b, s);
    }
  }

  /** An accepted string is a canonical encoding exactly when it does not end in a newline. */
  lemma AcceptedIsCanonicalIff(s: string)
    requires Accepts(s)
    ensures (exists key: Key :: s == EncodeKey(key)) <==> s[|s| - 1] != '\n'
  {
    BareOfAccepted(s);
    if s[|s| - 1] != '\n' {
      BodyIsPadded(s);
      KeyRoundTrips(DecodeKey(s), s);
      assert s == EncodeKey(DecodeKey(s));
    }
  }

  /** One value, two accepted spellings: the pattern alone does not tell them apart. */
  lemma AcceptedTwice(key: Key)
    ensures Accepts(EncodeKey(key)) && Accepts(EncodeKey(key) + "\n") && EncodeKey(key) != EncodeKey(key) + "\n"
  {
    EncodingAccepted(key);
    assert |EncodeKey(key) + "\n"| == |EncodeKey(key)| + 1;
  }
}
