/** Strings as the helper daemon and the web application handle them: the few
    Python string operations that the other modules need, and their laws. */
module Text {

  datatype Option<+T> = None | Some(value: T)

  datatype Result<+T, +E> = Ok(value: T) | Err(error: E)

  // ---------------------------------------------------------------- trailing newlines

  /** Python's s.rstrip("\n"). */
  function StripNewlines(s: string): (r: string)
    ensures r <= s
    ensures r == "" || r[|r| - 1] != '\n'
  {
    if s != "" && s[|s| - 1] == '\n' then StripNewlines(s[..|s| - 1]) else s
  }

  lemma {:induction false} StripNewlinesDropsOnlyNewlines(s: string)
    ensures forall i :: |StripNewlines(s)| <= i < |s| ==> s[i] == '\n'
  {
    if s != "" && s[|s| - 1] == '\n' {
      StripNewlinesDropsOnlyNewlines(s[..|s| - 1]);
    }
  }

  lemma StripNewlinesOfTerminated(s: string)
    requires s == "" || s[|s| - 1] != '\n'
    ensures StripNewlines(s + "\n") == s
  {
    assert (s + "\n")[..|s + "\n"| - 1] == s;
  }

  // ---------------------------------------------------------------- substrings

  predicate OccursAt(hay: string, needle: string, i: int) {
    0 <= i <= |hay| - |needle| && hay[i..i + |needle|] == needle
  }

  /** Python's `needle in hay`. */
  predicate Contains(hay: string, needle: string) {
    exists i :: 0 <= i <= |hay| && OccursAt(hay, needle, i)
  }

  lemma OccursAtChar(hay: string, needle: string, i: int, k: int)
    requires OccursAt(hay, needle, i) && 0 <= k < |needle|
    ensures hay[i + k] == needle[k]
  {
    assert hay[i..i + |needle|][k] == hay[i + k];
  }

  lemma PrefixSlice(a: string, rest: string, i: int, j: int)
    requires 0 <= i <= j <= |a|
    ensures (a + rest)[i..j] == a[i..j]
  {
  }

  lemma SuffixSlice(p: string, b: string, i: int, j: int)
    requires 0 <= i <= j <= |b|
    ensures (p + b)[|p| + i..|p| + j] == b[i..j]
  {
  }

  lemma NoNeedleAcross(a: string, c: char, b: string, needle: string, i: int)
    requires 0 <= i <= |a| < i + |needle| && c !in needle
    ensures !OccursAt(a + [c] + b, needle, i)
  {
    var s := a + [c] + b;
    if i + |needle| <= |s| {
      assert s[i..i + |needle|][|a| - i] == s[|a|] == c;
      assert needle[|a| - i] in needle;
    }
  }

  /** A needle without some character lies on one side of it. */
  lemma ContainsSplitsAt(a: string, c: char, b: string, needle: string)
    requires needle != "" && c !in needle
    ensures Contains(a + [c] + b, needle) <==> Contains(a, needle) || Contains(b, needle)
  {
    var s := a + [c] + b;
    if Contains(s, needle) {
      var i :| 0 <= i <= |s| && OccursAt(s, needle, i);
      if i + |needle| <= |a| {
        PrefixSlice(a + [c], b, i, i + |needle|);
        PrefixSlice(a, [c], i, i + |needle|);
        assert OccursAt(a, needle, i);
      } else if i <= |a| {
        NoNeedleAcross(a, c, b, needle, i);
        assert false;
      } else {
        var j := i - |a| - 1;
        SuffixSlice(a + [c], b, j, j + |needle|);
        assert OccursAt(b, needle, j);
      }
    }
    if Contains(a, needle) {
      var i :| 0 <= i <= |a| && OccursAt(a, needle, i);
      PrefixSlice(a + [c], b, i, i + |needle|);
      PrefixSlice(a, [c], i, i + |needle|);
      assert OccursAt(s, needle, i);
    }
    if Contains(b, needle) {
      var i :| 0 <= i <= |b| && OccursAt(b, needle, i);
      var j := i + |a| + 1;
      SuffixSlice(a + [c], b, i, i + |needle|);
      assert OccursAt(s, needle, j);
    }
  }

  /** So a needle without a newline lies within one line. */
  lemma ContainsSplitsAtNewline(a: string, b: string, needle: string)
    requires needle != "" && '\n' !in needle
    ensures Contains(a + "\n" + b, needle) <==> Contains(a, needle) || Contains(b, needle)
  {
    ContainsSplitsAt(a, '\n', b, needle);
    assert a + ['\n'] + b == a + "\n" + b;
  }

  /** A text whose characters do not begin the needle, in front of another. */
  lemma ContainsAfter(a: string, b: string, needle: string)
    requires needle != "" && needle[0] !in a
    ensures Contains(a + b, needle) <==> Contains(b, needle)
  {
    if i :| 0 <= i <= |a + b| && OccursAt(a + b, needle, i) {
      OccursAtChar(a + b, needle, i, 0);
      assert forall k :: 0 <= k < |a| ==> (a + b)[k] == a[k] && a[k] in a;
      SuffixSlice(a, b, i - |a|, i - |a| + |needle|);
      assert OccursAt(b, needle, i - |a|);
    }
    if i :| 0 <= i <= |b| && OccursAt(b, needle, i) {
      SuffixSlice(a, b, i, i + |needle|);
      assert OccursAt(a + b, needle, i + |a|);
    }
  }

  lemma ContainsNothingInEmpty(needle: string)
    requires needle != ""
    ensures !Contains("", needle)
  {
  }

  /** Adding or removing trailing newlines hides no occurrence of a needle without one. */
  lemma {:induction false} ContainsIgnoresTrailingNewlines(s: string, needle: string)
    requires needle != "" && '\n' !in needle
    ensures Contains(StripNewlines(s), needle) <==> Contains(s, needle)
  {
    if s != "" && s[|s| - 1] == '\n' {
      var t := s[..|s| - 1];
      assert s == t + "\n" + "";
      ContainsSplitsAtNewline(t, "", needle);
      ContainsNothingInEmpty(needle);
      ContainsIgnoresTrailingNewlines(t, needle);
    }
  }

  lemma ContainsShorter(hay: string, needle: string, n: nat)
    requires n <= |needle| && Contains(hay, needle)
    ensures Contains(hay, needle[..n])
  {
    var i :| 0 <= i <= |hay| && OccursAt(hay, needle, i);
    assert hay[i..i + n] == hay[i..i + |needle|][..n];
    assert OccursAt(hay, needle[..n], i);
  }

  // ---------------------------------------------------------------- split and join on one character

  /** Python's s.split(c) for a single character. */
  function SplitOn(s: string, c: char): (parts: seq<string>)
    ensures |parts| >= 1
  {
    if s == "" then [""]
    else
      var rest := SplitOn(s[1..], c);
      if s[0] == c then [""] + rest else [[s[0]] + rest[0]] + rest[1..]
  }

  lemma {:induction false} SplitOnToken(a: string, c: char)
    requires c !in a
    ensures SplitOn(a, c) == [a]
  {
    if a != "" {
      SplitOnToken(a[1..], c);
      assert a[0] in a;
      assert [a[0]] + a[1..] == a;
    }
  }

  lemma {:induction false} SplitOnStep(a: string, b: string, c: char)
    requires c !in a
    ensures SplitOn(a + [c] + b, c) == [a] + SplitOn(b, c)
  {
    var s := a + [c] + b;
    if a == "" {
      assert s[1..] == b;
    } else {
      assert a[0] in a;
      SplitOnStep(a[1..], b, c);
      assert s[1..] == a[1..] + [c] + b;
      assert [a[0]] + a[1..] == a;
    }
  }

  lemma {:induction false} PartsHaveNo(s: string, c: char)
    ensures forall i :: 0 <= i < |SplitOn(s, c)| ==> c !in SplitOn(s, c)[i] && forall x :: x in SplitOn(s, c)[i] ==> x in s
  {
    if s != "" {
      PartsHaveNo(s[1..], c);
    }
  }

  // ---------------------------------------------------------------- decimal numbers

  function DigitChar(d: nat): (c: char)
    requires d < 10
    ensures '0' <= c <= '9'
  {
    (('0' as int) + d) as char
  }

  predicate AllDigits(s: string) {
    forall c :: c in s ==> '0' <= c <= '9'
  }

  /** str(n) for a natural number. */
  function Decimal(n: nat): (s: string)
    ensures s != "" && AllDigits(s)
  {
    if n < 10 then [DigitChar(n)] else Decimal(n / 10) + [DigitChar(n % 10)]
  }

  function DecimalValue(s: string): int {
    if s == "" then 0 else DecimalValue(s[..|s| - 1]) * 10 + (s[|s| - 1] as int - '0' as int)
  }

  /** Reading a printed number back gives the number, so no two numbers print alike. */
  lemma {:induction false} DecimalRoundTrip(n: nat)
    ensures DecimalValue(Decimal(n)) == n
  {
    var s := Decimal(n);
    if n < 10 {
      assert s[..|s| - 1] == "";
      assert DecimalValue("") == 0;
    } else {
      DecimalRoundTrip(n / 10);
      assert s[..|s| - 1] == Decimal(n / 10);
    }
  }
}
