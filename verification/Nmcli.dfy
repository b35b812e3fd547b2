/** nmcli's terse output: fields joined by colons, with a backslash before each colon or
    backslash inside a field, and the two-pass way the application takes it apart. */
module Nmcli {
  // ---------------------------------------------------------------- what nmcli prints

  function EscapeChar(c: char): string {
    if c == ':' || c == '\\' then ['\\', c] else [c]
  }

  /** A field as nmcli -t prints it. */
  function Escape(f: string): string {
    if f == "" then "" else EscapeChar(f[0]) + Escape(f[1..])
  }

  /** A row of at least one field. */
  function PrintRow(row: seq<string>): string
    requires row != []
  {
    if |row| == 1 then Escape(row[0]) else Escape(row[0]) + ":" + PrintRow(row[1..])
  }

  function Print(rows: seq<seq<string>>): string
    requires forall i :: 0 <= i < |rows| ==> rows[i] != []
  {
    if rows == [] then "" else PrintRow(rows[0]) + "\n" + Print(rows[1..])
  }

  // ---------------------------------------------------------------- what the application reads

  /** The characters at which str.splitlines ends a line. */
  predicate IsLineBreak(c: char) {
    var n := c as int;
    10 <= n <= 13 || 28 <= n <= 30 || n == 0x85 || n == 0x2028 || n == 0x2029
  }

  /** The lines of a text; a last line that is empty does not matter, for empty lines are skipped. */
  function Lines(s: string): (lines: seq<string>)
    ensures |lines| >= 1
  {
    if s == "" then [""]
    else
      var rest := Lines(s[1..]);
      if IsLineBreak(s[0]) then [""] + rest else [[s[0]] + rest[0]] + rest[1..]
  }

  /** re.split(r"(?<!\\):", line), with the character before the text at hand. */
  function SplitFields(s: string, before: char): (fields: seq<string>)
    ensures |fields| >= 1
  {
    if s == "" then [""]
    else
      var rest := SplitFields(s[1..], s[0]);
      if s[0] == ':' && before != '\\' then [""] + rest else [[s[0]] + rest[0]] + rest[1..]
  }

  /** f.replace(two characters, one character), leftmost first. */
  function Replace(s: string, a: char, b: char, c: char): string {
    if |s| < 2 then s
    else if s[0] == a && s[1] == b then [c] + Replace(s[2..], a, b, c)
    else [s[0]] + Replace(s[1..], a, b, c)
  }

  /** The two passes: first the colons, then the backslashes. */
  function Unescape(f: string): string { Replace(Replace(f, '\\', ':', ':'), '\\', '\\', '\\') }

  function UnescapeAll(fields: seq<string>): (r: seq<string>)
    ensures |r| == |fields|
  {
    seq(|fields|, i requires 0 <= i < |fields| => Unescape(fields[i]))
  }

  function ParseRow(line: string): seq<string> { UnescapeAll(SplitFields(line, ' ')) }

  function ParseLines(lines: seq<string>): seq<seq<string>> {
    if lines == [] then []
    else ParseLines(lines[..|lines| - 1]) + (if lines[|lines| - 1] == "" then [] else [ParseRow(lines[|lines| - 1])])
  }

  function Parse(output: string): seq<seq<string>> { ParseLines(Lines(output)) }

  method ParseNmcliTerse(output: string) returns (rows: seq<seq<string>>)
    ensures rows == Parse(output)
  {
    rows := [];
    var lines := Lines(output);
    for i := 0 to |lines|
      invariant rows == ParseLines(lines[..i])
    {
      assert lines[..i + 1][..i] == lines[..i];
      if lines[i] == "" {
        continue;
      }
      var fields := SplitFields(lines[i], ' ');
      rows := rows + [UnescapeAll(fields)];
    }
    assert lines[..|lines|] == lines;
  }

  // ---------------------------------------------------------------- one field, there and back

  /** After the first pass only the backslashes are still doubled. */
  function Doubled(f: string): string {
    if f == "" then "" else (if f[0] == '\\' then ['\\', '\\'] else [f[0]]) + Doubled(f[1..])
  }

  lemma EscapeStart(f: string)
    ensures Escape(f) == "" || Escape(f)[0] != ':'
  {
  }

  lemma {:induction false} FirstPassStep(c: char, e: string)
    requires e == "" || e[0] != ':'
    ensures Replace(EscapeChar(c) + e, '\\', ':', ':') == (if c == '\\' then ['\\', '\\'] else [c]) + Replace(e, '\\', ':', ':')
  {
    var s := EscapeChar(c) + e;
    if c == ':' {
      assert s[0] == '\\' && s[1] == ':' && s[2..] == e;
    } else if c == '\\' {
      var t := ['\\'] + e;
      assert s[0] == '\\' && s[1] == '\\' && s[1..] == t && t[1..] == e;
      KeptChar('\\', e);
      KeptChar('\\', t);
    } else {
      KeptChar(c, e);
    }
  }

  /** The first pass keeps a character that does not begin an escaped colon. */
  lemma KeptChar(c: char, e: string)
    requires c != '\\' || e == "" || e[0] != ':'
    ensures Replace([c] + e, '\\', ':', ':') == [c] + Replace(e, '\\', ':', ':')
  {
    var s := [c] + e;
    assert s[1..] == e;
  }

  lemma {:induction false} FirstPass(f: string)
    ensures Replace(Escape(f), '\\', ':', ':') == Doubled(f)
  {
    if f != "" {
      FirstPass(f[1..]);
      EscapeStart(f[1..]);
      FirstPassStep(f[0], Escape(f[1..]));
    }
  }

  lemma {:induction false} SecondPass(f: string)
    ensures Replace(Doubled(f), '\\', '\\', '\\') == f
  {
    if f != "" {
      SecondPass(f[1..]);
      if f[0] == '\\' {
        assert Doubled(f)[2..] == Doubled(f[1..]);
      } else {
        assert Doubled(f)[1..] == Doubled(f[1..]);
      }
      assert [f[0]] + f[1..] == f;
    }
  }

  /** The two passes undo the escaping of every field. */
  lemma UnescapeEscape(f: string)
    ensures Unescape(Escape(f)) == f
  {
    FirstPass(f);
    SecondPass(f);
  }

  // ---------------------------------------------------------------- where fields are cut

  /** The last character of a field, or what stood before an empty one. */
  function LastOf(f: string, before: char): char {
    if f == "" then before else f[|f| - 1]
  }

  /** The text up to the first cut grows at the front. */
  function Prefixed(p: string, fields: seq<string>): seq<string>
    requires fields != []
  {
    [p + fields[0]] + fields[1..]
  }

  lemma PrefixedTwice(p: string, q: string, fields: seq<string>)
    requires fields != []
    ensures Prefixed(p, Prefixed(q, fields)) == Prefixed(p + q, fields)
  {
    assert p + (q + fields[0]) == p + q + fields[0];
  }

  lemma NoCutHere(c: char, s: string, before: char)
    requires c != ':' || before == '\\'
    ensures SplitFields([c] + s, before) == Prefixed([c], SplitFields(s, c))
  {
    assert ([c] + s)[1..] == s;
  }

  lemma EscapedCharStaysWhole(c: char, s: string, before: char)
    ensures SplitFields(EscapeChar(c) + s, before) == Prefixed(EscapeChar(c), SplitFields(s, c))
  {
    if c == ':' || c == '\\' {
      NoCutHere('\\', [c] + s, before);
      NoCutHere(c, s, '\\');
      PrefixedTwice(['\\'], [c], SplitFields(s, c));
      assert EscapeChar(c) + s == ['\\'] + ([c] + s);
      assert EscapeChar(c) == ['\\'] + [c];
    } else {
      NoCutHere(c, s, before);
    }
  }

  /** Inside an escaped field nothing is cut: its colons all follow a backslash. */
  lemma {:induction false} EscapedFieldStaysWhole(f: string, rest: string, before: char)
    ensures SplitFields(Escape(f) + rest, before) == Prefixed(Escape(f), SplitFields(rest, LastOf(f, before)))
  {
    if f == "" {
      var fields := SplitFields(rest, before);
      assert Escape(f) + rest == rest && "" + fields[0] == fields[0];
      assert [fields[0]] + fields[1..] == fields;
    } else {
      var c, e := f[0], Escape(f[1..]);
      EscapedFieldStaysWhole(f[1..], rest, c);
      EscapedCharStaysWhole(c, e + rest, before);
      PrefixedTwice(EscapeChar(c), e, SplitFields(rest, LastOf(f, before)));
      assert Escape(f) + rest == EscapeChar(c) + (e + rest);
    }
  }

  /** A field before a separator is cut off there exactly if it does not end in a backslash. */
  lemma FieldThenSeparator(f: string, rest: string, before: char)
    requires f != "" || before != '\\'
    ensures f == "" || f[|f| - 1] != '\\' ==> SplitFields(Escape(f) + ":" + rest, before) == [Escape(f)] + SplitFields(rest, ':')
    ensures f != "" && f[|f| - 1] == '\\' ==> |SplitFields(Escape(f) + ":" + rest, before)| == |SplitFields(rest, ':')|
  {
    EscapedFieldStaysWhole(f, ":" + rest, before);
    assert Escape(f) + ":" + rest == Escape(f) + (":" + rest);
    assert (":" + rest)[1..] == rest;
    assert Escape(f) + "" == Escape(f);
  }

  predicate EndsInBackslash(f: string) { f != "" && f[|f| - 1] == '\\' }

  /** The row is one that the application reads right. */
  predicate Readable(row: seq<string>) {
    forall i :: 0 <= i < |row| - 1 ==> !EndsInBackslash(row[i])
  }

  function EscapeAll(row: seq<string>): (r: seq<string>)
    ensures |r| == |row|
  {
    seq(|row|, i requires 0 <= i < |row| => Escape(row[i]))
  }

  lemma {:induction false} RowCutAtSeparators(row: seq<string>, before: char)
    requires row != [] && before != '\\' && Readable(row)
    ensures SplitFields(PrintRow(row), before) == EscapeAll(row)
  {
    if |row| == 1 {
      EscapedFieldStaysWhole(row[0], "", before);
      assert Escape(row[0]) + "" == Escape(row[0]);
    } else {
      assert forall i :: 0 <= i < |row[1..]| - 1 ==> row[1..][i] == row[i + 1];
      assert !EndsInBackslash(row[0]);
      FieldThenSeparator(row[0], PrintRow(row[1..]), before);
      RowCutAtSeparators(row[1..], ':');
      assert EscapeAll(row) == [Escape(row[0])] + EscapeAll(row[1..]);
    }
  }

  /** Each backslash before a separator costs a field. */
  lemma {:induction false} FieldsFound(row: seq<string>, before: char)
    requires row != [] && before != '\\'
    ensures |SplitFields(PrintRow(row), before)| <= |row|
    ensures !Readable(row) ==> |SplitFields(PrintRow(row), before)| < |row|
  {
    if |row| == 1 {
      EscapedFieldStaysWhole(row[0], "", before);
      assert Escape(row[0]) + "" == Escape(row[0]);
    } else {
      FieldThenSeparator(row[0], PrintRow(row[1..]), before);
      FieldsFound(row[1..], ':');
      if Readable(row[1..]) && !EndsInBackslash(row[0]) {
        assert forall i :: 1 <= i < |row| - 1 ==> row[i] == row[1..][i - 1];
      }
    }
  }

  /** A printed row reads back as it was exactly when no field but the last ends in a backslash. */
  lemma RowReadsBackIff(row: seq<string>)
    requires row != []
    ensures ParseRow(PrintRow(row)) == row <==> Readable(row)
  {
    FieldsFound(row, ' ');
    if Readable(row) {
      RowCutAtSeparators(row, ' ');
      forall i | 0 <= i < |row| ensures Unescape(EscapeAll(row)[i]) == row[i] {
        UnescapeEscape(row[i]);
      }
    }
  }

  // ---------------------------------------------------------------- whole outputs

  predicate NoBreaks(s: string) { forall c :: c in s ==> !IsLineBreak(c) }

  predicate OneLine(row: seq<string>) { forall i :: 0 <= i < |row| ==> NoBreaks(row[i]) }

  lemma {:induction false} LineEnds(line: string, rest: string)
    requires NoBreaks(line)
    ensures Lines(line + "\n" + rest) == [line] + Lines(rest)
  {
    var s := line + "\n" + rest;
    if line == "" {
      assert s[1..] == rest;
    } else {
      assert line[0] in line;
      LineEnds(line[1..], rest);
      assert s[1..] == line[1..] + "\n" + rest;
      assert [line[0]] + line[1..] == line;
    }
  }

  lemma {:induction false} EscapeNoBreaks(f: string)
    requires NoBreaks(f)
    ensures NoBreaks(Escape(f))
  {
    if f != "" {
      assert f[0] in f;
      EscapeNoBreaks(f[1..]);
    }
  }

  lemma {:induction false} PrintRowNoBreaks(row: seq<string>)
    requires row != [] && OneLine(row)
    ensures NoBreaks(PrintRow(row))
  {
    EscapeNoBreaks(row[0]);
    if |row| > 1 {
      assert forall i :: 0 <= i < |row[1..]| ==> row[1..][i] == row[i + 1];
      PrintRowNoBreaks(row[1..]);
    }
  }

  lemma {:induction false} ParseLinesCons(line: string, lines: seq<string>)
    ensures ParseLines([line] + lines) == (if line == "" then [] else [ParseRow(line)]) + ParseLines(lines)
  {
    var all := [line] + lines;
    if lines == [] {
      assert all[..0] == [];
    } else {
      var n := |lines| - 1;
      ParseLinesCons(line, lines[..n]);
      assert all[..|all| - 1] == [line] + lines[..n];
    }
  }

  /** Whatever nmcli prints for rows of two or more fields without line breaks is read as one row
      for each, and reads back exactly if no field but a row's last ends in a backslash. */
  lemma {:induction false} OutputReadsBack(rows: seq<seq<string>>)
    requires forall i :: 0 <= i < |rows| ==> |rows[i]| >= 2 && OneLine(rows[i])
    ensures |Parse(Print(rows))| == |rows|
    ensures Parse(Print(rows)) == rows <==> forall i :: 0 <= i < |rows| ==> Readable(rows[i])
  {
    if rows == [] {
      assert Lines("")[..0] == [];
    } else {
      var line, rest := PrintRow(rows[0]), rows[1..];
      assert forall i :: 0 <= i < |rest| ==> rest[i] == rows[i + 1];
      OutputReadsBack(rest);
      PrintRowNoBreaks(rows[0]);
      LineEnds(line, Print(rest));
      ParseLinesCons(line, Lines(Print(rest)));
      RowReadsBackIff(rows[0]);
      assert Parse(Print(rows)) == [ParseRow(line)] + Parse(Print(rest));
      SameRows(ParseRow(line), Parse(Print(rest)), rows);
      assert forall i :: 1 <= i < |rows| ==> rows[i] == rest[i - 1];
    }
  }

  lemma SameRows(first: seq<string>, more: seq<seq<string>>, rows: seq<seq<string>>)
    requires rows != []
    ensures [first] + more == rows <==> first == rows[0] && more == rows[1..]
  {
    assert [rows[0]] + rows[1..] == rows;
    assert ([first] + more)[0] == first && ([first] + more)[1..] == more;
  }
}
