/**
 * CSV fields, lines and documents as the node export writes them and the import reads
 * them; quoting as in section 2 of RFC 4180.
 */
module Csv {
  import opened Sequences
  import opened Strings

  const QUOTE := '"'
  const COMMA := ','
  const CR := '\r'
  const LF := '\n'

  // ---------------------------------------------------------------- escaping

  predicate NeedsQuotes(value: string) {
    COMMA in value || QUOTE in value || LF in value || CR in value
  }

  /** `value.replace(/"/g, '""')`. */
  function DoubleQuotes(value: string): string {
    if value == "" then ""
    else (if value[0] == QUOTE then [QUOTE, QUOTE] else [value[0]]) + DoubleQuotes(value[1..])
  }

  function EscapeCsvField(value: string): string {
    if NeedsQuotes(value) then [QUOTE] + DoubleQuotes(value) + [QUOTE] else value
  }

  function Escaped(fields: seq<string>): (r: seq<string>)
    ensures |r| == |fields| && forall i | 0 <= i < |fields| :: r[i] == EscapeCsvField(fields[i])
  {
    if fields == [] then [] else [EscapeCsvField(fields[0])] + Escaped(fields[1..])
  }

  function CsvLine(fields: seq<string>): string {
    Join(Escaped(fields), COMMA)
  }

  // ---------------------------------------------------------------- parsing

  /** The fields of the rest of a line, from the parser's state in front of it. */
  function Parse(line: string, current: string, inQuotes: bool): seq<string>
    decreases |line|
  {
    if line == "" then [current]
    else if inQuotes then
      if line[0] == QUOTE then
        if |line| > 1 && line[1] == QUOTE then Parse(line[2..], current + [QUOTE], true)
        else Parse(line[1..], current, false)
      else Parse(line[1..], current + [line[0]], true)
    else if line[0] == QUOTE then Parse(line[1..], current, true)
    else if line[0] == COMMA then [current] + Parse(line[1..], "", false)
    else Parse(line[1..], current + [line[0]], false)
  }

  /** `parseCsvLine`: one pass over the line with an accumulator and a quote flag. */
  method ParseCsvLine(line: string) returns (fields: seq<string>)
    ensures fields == Parse(line, "", false)
  {
    fields := [];
    var current := "";
    var inQuotes := false;
    var i := 0;
    while i < |line|
      invariant 0 <= i <= |line|
      invariant fields + Parse(line[i..], current, inQuotes) == Parse(line, "", false)
    {
      ghost var rest := line[i..];
      var c := line[i];
      if inQuotes {
        if c == QUOTE {
          if i + 1 < |line| && line[i + 1] == QUOTE {
            assert rest[2..] == line[i + 2..];
            current := current + [QUOTE];
            i := i + 2;
          } else {
            assert rest[1..] == line[i + 1..];
            inQuotes := false;
            i := i + 1;
          }
        } else {
          assert rest[1..] == line[i + 1..];
          current := current + [c];
          i := i + 1;
        }
      } else {
        assert rest[1..] == line[i + 1..];
        if c == QUOTE {
          inQuotes := true;
          i := i + 1;
        } else if c == COMMA {
          ghost var more := Parse(rest[1..], "", false);
          assert (fields + [current]) + more == fields + ([current] + more);
          fields := fields + [current];
          current := "";
          i := i + 1;
        } else {
          current := current + [c];
          i := i + 1;
        }
      }
    }
    fields := fields + [current];
  }

  // ---------------------------------------------------------------- one line

  lemma {:induction false} ParsePlain(value: string, rest: string, current: string)
    requires !NeedsQuotes(value)
    ensures Parse(value + rest, current, false) == Parse(rest, current + value, false)
    decreases |value|
  {
    var line := value + rest;
    if value == "" {
      assert line == rest && current + value == current;
    } else {
      assert line[0] == value[0] && line[1..] == value[1..] + rest;
      ParsePlain(value[1..], rest, current + [value[0]]);
      assert current + [value[0]] + value[1..] == current + value;
    }
  }

  lemma {:induction false} ParseQuoted(value: string, rest: string, current: string)
    requires rest == "" || rest[0] != QUOTE
    ensures Parse(DoubleQuotes(value) + [QUOTE] + rest, current, true) == Parse(rest, current + value, false)
    decreases |value|
  {
    var line := DoubleQuotes(value) + [QUOTE] + rest;
    if value == "" {
      assert line == [QUOTE] + rest && current + value == current;
    } else {
      ParseQuoted(value[1..], rest, current + [value[0]]);
      assert current + [value[0]] + value[1..] == current + value;
      var more := DoubleQuotes(value[1..]) + [QUOTE] + rest;
      if value[0] == QUOTE {
        assert line == [QUOTE, QUOTE] + more;
        assert line[2..] == more;
      } else {
        assert line == [value[0]] + more;
        assert line[1..] == more;
      }
    }
  }

  lemma QuotedShape(value: string, rest: string)
    requires NeedsQuotes(value)
    ensures EscapeCsvField(value) + rest == [QUOTE] + (DoubleQuotes(value) + [QUOTE] + rest)
  {
    var inner := DoubleQuotes(value) + [QUOTE];
    assert EscapeCsvField(value) == [QUOTE] + inner;
    Associative([QUOTE], inner, rest);
  }

  lemma ParseField(value: string, rest: string)
    requires rest == "" || rest[0] != QUOTE
    ensures Parse(EscapeCsvField(value) + rest, "", false) == Parse(rest, value, false)
  {
    if NeedsQuotes(value) {
      var inner := DoubleQuotes(value) + [QUOTE] + rest;
      QuotedShape(value, rest);
      assert ([QUOTE] + inner)[1..] == inner;
      ParseQuoted(value, rest, "");
      assert "" + value == value;
    } else {
      ParsePlain(value, rest, "");
      assert "" + value == value;
    }
  }

  /** Parsing a written line gives back its fields, for any non-empty list of any strings. */
  lemma {:induction false} ParseInvertsLine(fields: seq<string>)
    requires fields != []
    ensures Parse(CsvLine(fields), "", false) == fields
    decreases |fields|
  {
    var first := EscapeCsvField(fields[0]);
    if |fields| == 1 {
      assert Escaped(fields) == [first] && first + "" == first;
      ParseField(fields[0], "");
    } else {
      var more := CsvLine(fields[1..]);
      assert Escaped(fields)[1..] == Escaped(fields[1..]);
      assert CsvLine(fields) == first + ([COMMA] + more);
      ParseField(fields[0], [COMMA] + more);
      assert ([COMMA] + more)[1..] == more;
      ParseInvertsLine(fields[1..]);
      assert fields == [fields[0]] + fields[1..];
    }
  }

  // ---------------------------------------------------------------- documents

  function WithoutCr(s: string): string {
    if s != "" && s[|s| - 1] == CR then s[..|s| - 1] else s
  }

  /** `text.split(/\r?\n/)`. */
  function SplitLines(text: string): (lines: seq<string>)
    ensures lines != []
    decreases |text|
  {
    var i := IndexOf(text, LF);
    if i == |text| then [text] else [WithoutCr(text[..i])] + SplitLines(text[i + 1..])
  }

  /** `lines.filter((l) => l.trim())`. */
  function NonBlank(lines: seq<string>): seq<string> {
    if lines == [] then []
    else (if Trim(lines[0]) == "" then [] else [lines[0]]) + NonBlank(lines[1..])
  }

  function ParseAll(lines: seq<string>): (rows: seq<seq<string>>)
    ensures |rows| == |lines|
  {
    if lines == [] then [] else [Parse(lines[0], "", false)] + ParseAll(lines[1..])
  }

  function LinesOf(rows: seq<seq<string>>): (lines: seq<string>)
    ensures |lines| == |rows| && forall i | 0 <= i < |rows| :: lines[i] == CsvLine(rows[i])
  {
    if rows == [] then [] else [CsvLine(rows[0])] + LinesOf(rows[1..])
  }

  /** The document of a header and its rows. */
  function Document(rows: seq<seq<string>>): string {
    Join(LinesOf(rows), LF)
  }

  function ReadDocument(text: string): seq<seq<string>> {
    ParseAll(NonBlank(SplitLines(text)))
  }

  /** The export loop: lines are collected and joined. */
  method ExportDocument(header: seq<string>, rows: seq<seq<string>>) returns (csv: string)
    ensures csv == Document([header] + rows)
  {
    var csvLines := [CsvLine(header)];
    for k := 0 to |rows|
      invariant csvLines == LinesOf([header] + rows[..k])
    {
      csvLines := csvLines + [CsvLine(rows[k])];
      PrefixSnoc(rows, k);
      LinesOfSnoc([header] + rows[..k], rows[k]);
      assert [header] + rows[..k + 1] == [header] + rows[..k] + [rows[k]];
    }
    assert rows[..|rows|] == rows;
    return Join(csvLines, LF);
  }

  lemma LinesOfSnoc(rows: seq<seq<string>>, row: seq<string>)
    ensures LinesOf(rows + [row]) == LinesOf(rows) + [CsvLine(row)]
  {
  }

  /** The import loop: every non-blank line is parsed on its own. */
  method ImportDocument(csvContent: string) returns (rows: seq<seq<string>>)
    ensures rows == ReadDocument(csvContent)
  {
    var lines := NonBlank(SplitLines(csvContent));
    rows := [];
    for i := 0 to |lines|
      invariant rows + ParseAll(lines[i..]) == ParseAll(lines)
    {
      assert lines[i..][0] == lines[i] && lines[i..][1..] == lines[i + 1..];
      var fields := ParseCsvLine(lines[i]);
      assert (rows + [fields]) + ParseAll(lines[i + 1..]) == rows + ([fields] + ParseAll(lines[i + 1..]));
      rows := rows + [fields];
    }
  }

  // ---------------------------------------------------------------- lines of a document

  /** A character that trimming never removes. */
  predicate Visible(s: string) {
    exists i | 0 <= i < |s| :: !IsSpace(s[i])
  }

  lemma {:induction false} VisibleIsNonBlank(s: string)
    requires Visible(s)
    ensures Trim(s) != ""
  {
    var i :| 0 <= i < |s| && !IsSpace(s[i]);
    LeftKeeps(s, i);
    var t := TrimLeft(s);
    var j :| 0 <= j < |t| && !IsSpace(t[j]);
    RightKeeps(t, j);
  }

  lemma {:induction false} LeftKeeps(s: string, i: nat)
    requires i < |s| && !IsSpace(s[i])
    ensures Visible(TrimLeft(s))
    decreases |s|
  {
    if IsSpace(s[0]) {
      LeftKeeps(s[1..], i - 1);
    }
  }

  lemma {:induction false} RightKeeps(s: string, i: nat)
    requires i < |s| && !IsSpace(s[i])
    ensures TrimRight(s) != ""
    decreases |s|
  {
    if IsSpace(s[|s| - 1]) {
      RightKeeps(s[..|s| - 1], i);
    }
  }

  /** Text with something visible has a non-blank line. */
  lemma {:induction false} VisibleHasLine(text: string, v: nat)
    requires v < |text| && !IsSpace(text[v])
    ensures NonBlank(SplitLines(text)) != []
    decreases |text|
  {
    var i := IndexOf(text, LF);
    if i == |text| {
      VisibleIsNonBlank(text);
    } else if v < i {
      var line := WithoutCr(text[..i]);
      assert line[v] == text[v];
      VisibleIsNonBlank(line);
    } else {
      assert text[i + 1..][v - i - 1] == text[v];
      VisibleHasLine(text[i + 1..], v - i - 1);
    }
  }

  lemma NonBlankAppend(a: seq<string>, b: seq<string>)
    ensures NonBlank(a + b) == NonBlank(a) + NonBlank(b)
  {
    if a == [] {
      assert a + b == b;
    } else {
      assert (a + b)[1..] == a[1..] + b;
      NonBlankAppend(a[1..], b);
    }
  }

  lemma FirstBreak(head: string, rest: string)
    requires LF !in head
    ensures SplitLines(head + [LF] + rest) == [WithoutCr(head)] + SplitLines(rest)
  {
    var s := head + [LF] + rest;
    assert s[|head|] == LF;
    assert forall k | 0 <= k < |head| :: s[k] == head[k];
    assert IndexOf(s, LF) == |head|;
    assert s[..|head|] == head && s[|head| + 1..] == rest;
  }

  lemma Regroup(head: string, tail: string, b: string)
    ensures (head + [LF] + tail) + [LF] + b == head + [LF] + (tail + [LF] + b)
  {
    Associative(head + [LF], tail, [LF]);
    Associative(head + [LF], tail + [LF], b);
  }

  /** A line break between two texts, the first not ending in CR, separates their lines. */
  lemma {:induction false} SplitAppend(a: string, b: string)
    requires a == "" || a[|a| - 1] != CR
    ensures SplitLines(a + [LF] + b) == SplitLines(a) + SplitLines(b)
    decreases |a|
  {
    var i := IndexOf(a, LF);
    if i == |a| {
      FirstBreak(a, b);
    } else {
      var head, tail := a[..i], a[i + 1..];
      SplitAt(a, i);
      Regroup(head, tail, b);
      FirstBreak(head, tail + [LF] + b);
      SplitAppend(tail, b);
      assert SplitLines(a) == [WithoutCr(head)] + SplitLines(tail);
      Associative([WithoutCr(head)], SplitLines(tail), SplitLines(b));
    }
  }

  // ---------------------------------------------------------------- lines of a row

  predicate HasBreak(fields: seq<string>) {
    exists f | f in fields :: LF in f
  }

  lemma {:induction false} DoubleKeepsFree(value: string, c: char)
    requires c != QUOTE
    ensures c in DoubleQuotes(value) <==> c in value
    decreases |value|
  {
    if value != "" {
      DoubleKeepsFree(value[1..], c);
    }
  }

  lemma EscapeKeepsBreaks(value: string)
    ensures LF in EscapeCsvField(value) <==> LF in value
  {
    DoubleKeepsFree(value, LF);
  }

  /** A written line never ends in CR. */
  lemma {:induction false} LineEnd(fields: seq<string>)
    requires fields != []
    ensures var t := CsvLine(fields); t == "" || t[|t| - 1] != CR
    decreases |fields|
  {
    if |fields| > 1 {
      LineEnd(fields[1..]);
      assert Escaped(fields)[1..] == Escaped(fields[1..]);
    }
  }

  lemma {:induction false} LineFreeOfBreaks(fields: seq<string>)
    requires fields != [] && !HasBreak(fields)
    ensures LF !in CsvLine(fields)
    decreases |fields|
  {
    assert fields[0] in fields;
    EscapeKeepsBreaks(fields[0]);
    if |fields| > 1 {
      assert Escaped(fields)[1..] == Escaped(fields[1..]);
      LineFreeOfBreaks(fields[1..]);
    }
  }

  lemma StartsWithFirst(fields: seq<string>)
    requires fields != []
    ensures EscapeCsvField(fields[0]) <= CsvLine(fields)
  {
  }

  lemma ShiftIndex(first: string, more: string)
    requires LF !in first
    ensures IndexOf(first + [COMMA] + more, LF) == |first| + 1 + IndexOf(more, LF)
    decreases |first|
  {
    var t := first + [COMMA] + more;
    if first == "" {
      assert t == [COMMA] + more && t[1..] == more;
    } else {
      assert t[0] == first[0] && t[1..] == first[1..] + [COMMA] + more;
      ShiftIndex(first[1..], more);
    }
  }

  /** The first line break of `t` is at `i`, with visible characters at `v` before it and `w` after it. */
  predicate BreakAt(t: string, v: nat, i: nat, w: nat) {
    v < i < w < |t| && i == IndexOf(t, LF) && !IsSpace(t[v]) && !IsSpace(t[w])
  }

  /** Around the first line break of a row there is something visible on both sides. */
  lemma {:induction false} BreakIsInside(fields: seq<string>) returns (v: nat, i: nat, w: nat)
    requires fields != [] && HasBreak(fields)
    ensures BreakAt(CsvLine(fields), v, i, w)
    decreases |fields|
  {
    if LF in fields[0] {
      StartsWithFirst(fields);
      v, i, w := BreakInFirst(fields[0], CsvLine(fields));
    } else {
      LaterBreak(fields);
      var v', i', w' := BreakIsInside(fields[1..]);
      v, i, w := BreakBehind(fields[0], CsvLine(fields[1..]), v', i', w');
    }
  }

  lemma BreakInFirst(value: string, t: string) returns (v: nat, i: nat, w: nat)
    requires LF in value && EscapeCsvField(value) <= t
    ensures BreakAt(t, v, i, w)
  {
    var first := EscapeCsvField(value);
    EscapeKeepsBreaks(value);
    BreakInQuotes(first, t);
    v, i, w := 0, IndexOf(t, LF), |first| - 1;
  }

  lemma AfterComma(first: string, more: string, k: nat)
    requires k < |more|
    ensures (first + [COMMA] + more)[|first|] == COMMA && (first + [COMMA] + more)[|first| + 1 + k] == more[k]
  {
  }

  lemma BreakShifts(first: string, more: string, v': nat, i': nat, w': nat)
    requires LF !in first && BreakAt(more, v', i', w')
    ensures BreakAt(first + [COMMA] + more, |first|, |first| + 1 + i', |first| + 1 + w')
  {
    ShiftIndex(first, more);
    AfterComma(first, more, w');
    assert !IsSpace(COMMA);
  }

  lemma BreakBehind(value: string, more: string, v': nat, i': nat, w': nat) returns (v: nat, i: nat, w: nat)
    requires LF !in value && BreakAt(more, v', i', w')
    ensures BreakAt(EscapeCsvField(value) + [COMMA] + more, v, i, w)
  {
    var first := EscapeCsvField(value);
    EscapeKeepsBreaks(value);
    BreakShifts(first, more, v', i', w');
    v, i, w := |first|, |first| + 1 + i', |first| + 1 + w';
  }

  lemma BreakInQuotes(first: string, t: string)
    requires first <= t && LF in first && first[0] == QUOTE && first[|first| - 1] == QUOTE
    ensures 0 < IndexOf(t, LF) < |first| - 1
    ensures t[0] == QUOTE && t[|first| - 1] == QUOTE
  {
    assert t[..|first|] == first;
    var k :| 0 <= k < |first| && first[k] == LF;
    assert t[k] == LF;
  }

  lemma LaterBreak(fields: seq<string>)
    requires fields != [] && HasBreak(fields) && LF !in fields[0]
    ensures |fields| > 1 && HasBreak(fields[1..])
    ensures CsvLine(fields) == EscapeCsvField(fields[0]) + [COMMA] + CsvLine(fields[1..])
  {
    var f :| f in fields && LF in f;
    assert f in fields[1..];
    assert Escaped(fields)[1..] == Escaped(fields[1..]);
  }

  function RowLines(fields: seq<string>): seq<string> {
    NonBlank(SplitLines(CsvLine(fields)))
  }

  /** A row of at least two fields is one non-blank line if no field has a line break, and more otherwise. */
  lemma RowIsOneLine(fields: seq<string>)
    requires |fields| >= 2
    ensures !HasBreak(fields) ==> RowLines(fields) == [CsvLine(fields)]
    ensures HasBreak(fields) ==> |RowLines(fields)| >= 2
  {
    var t := CsvLine(fields);
    if HasBreak(fields) {
      var v, i, w := BreakIsInside(fields);
      TwoLines(t, v, i, w);
    } else {
      LineFreeOfBreaks(fields);
      assert Escaped(fields)[1..] == Escaped(fields[1..]);
      assert t == Escaped(fields)[0] + [COMMA] + CsvLine(fields[1..]);
      OneLine(t, |Escaped(fields)[0]|);
    }
  }

  lemma SplitAtBreak(t: string, i: nat)
    requires i < |t| && i == IndexOf(t, LF)
    ensures SplitLines(t) == [WithoutCr(t[..i])] + SplitLines(t[i + 1..])
  {
  }

  lemma VisibleHead(t: string, v: nat, i: nat)
    requires v < i < |t| && !IsSpace(t[v])
    ensures NonBlank([WithoutCr(t[..i])]) != []
  {
    var head := WithoutCr(t[..i]);
    assert v < |head| && head[v] == t[v];
    VisibleIsNonBlank(head);
  }

  lemma TwoLines(t: string, v: nat, i: nat, w: nat)
    requires BreakAt(t, v, i, w)
    ensures |NonBlank(SplitLines(t))| >= 2
  {
    var head, rest := WithoutCr(t[..i]), t[i + 1..];
    SplitAtBreak(t, i);
    VisibleHead(t, v, i);
    assert rest[w - i - 1] == t[w];
    VisibleHasLine(rest, w - i - 1);
    NonBlankAppend([head], SplitLines(rest));
  }

  lemma OneLine(t: string, v: nat)
    requires LF !in t && v < |t| && !IsSpace(t[v])
    ensures NonBlank(SplitLines(t)) == [t]
  {
    VisibleIsNonBlank(t);
    assert SplitLines(t) == [t];
    assert [t][1..] == [];
  }

  // ---------------------------------------------------------------- round trip of a document

  function AllRowLines(rows: seq<seq<string>>): seq<string> {
    if rows == [] then [] else RowLines(rows[0]) + AllRowLines(rows[1..])
  }

  lemma {:induction false} DocumentLines(rows: seq<seq<string>>)
    requires rows != [] && forall r | r in rows :: |r| >= 2
    ensures NonBlank(SplitLines(Document(rows))) == AllRowLines(rows)
    decreases |rows|
  {
    assert rows[0] in rows;
    if |rows| == 1 {
      assert LinesOf(rows) == [CsvLine(rows[0])];
      assert rows[1..] == [];
    } else {
      var first, more := CsvLine(rows[0]), Document(rows[1..]);
      assert LinesOf(rows)[1..] == LinesOf(rows[1..]);
      assert Document(rows) == first + [LF] + more;
      LineEnd(rows[0]);
      SplitAppend(first, more);
      NonBlankAppend(SplitLines(first), SplitLines(more));
      DocumentLines(rows[1..]);
    }
  }

  lemma {:induction false} RowLinesCount(rows: seq<seq<string>>)
    requires forall r | r in rows :: |r| >= 2
    ensures |AllRowLines(rows)| >= |rows|
    ensures (exists r | r in rows :: HasBreak(r)) ==> |AllRowLines(rows)| > |rows|
    decreases |rows|
  {
    if rows != [] {
      assert rows[0] in rows;
      RowIsOneLine(rows[0]);
      RowLinesCount(rows[1..]);
      if r :| r in rows && HasBreak(r) && !HasBreak(rows[0]) {
        assert r in rows[1..];
      }
    }
  }

  lemma {:induction false} RowLinesParse(rows: seq<seq<string>>)
    requires forall r | r in rows :: |r| >= 2 && !HasBreak(r)
    ensures ParseAll(AllRowLines(rows)) == rows
    decreases |rows|
  {
    if rows != [] {
      assert rows[0] in rows;
      RowIsOneLine(rows[0]);
      ParseInvertsLine(rows[0]);
      RowLinesParse(rows[1..]);
      var lines := AllRowLines(rows);
      assert lines == [CsvLine(rows[0])] + AllRowLines(rows[1..]);
      assert lines[1..] == AllRowLines(rows[1..]);
    }
  }

  /**
   * Importing an exported document gives back the header and exactly the exported rows
   * if and only if no field contains a line feed. (Lone carriage returns are harmless.)
   */
  lemma DocumentRoundTrip(rows: seq<seq<string>>)
    requires forall r | r in rows :: |r| >= 2
    ensures ReadDocument(Document(rows)) == rows <==> forall r | r in rows :: !HasBreak(r)
  {
    if rows == [] {
      assert Document(rows) == "" && SplitLines("") == [""] && Trim("") == "";
      assert [""][1..] == [];
    } else {
      DocumentLines(rows);
      if forall r | r in rows :: !HasBreak(r) {
        RowLinesParse(rows);
      } else {
        RowLinesCount(rows);
      }
    }
  }
  // ---------------------------------------------------------------- the text form, character by character

  /** A field is written as it is exactly when it holds no comma, quote, line feed or carriage return. */
  lemma WrittenAsIs(value: string)
    ensures EscapeCsvField(value) == value <==> ',' !in value && '"' !in value && '\n' !in value && '\r' !in value
    ensures EscapeCsvField(value) != value ==> EscapeCsvField(value) == "\"" + DoubleQuotes(value) + "\""
  {
    if NeedsQuotes(value) {
      DoubleIsLonger(value);
    }
  }

  lemma {:induction false} DoubleIsLonger(value: string)
    ensures |DoubleQuotes(value)| >= |value|
  {
    if value != "" {
      DoubleIsLonger(value[1..]);
    }
  }

  /** Inside quotes each quote is doubled, and everything else stays. */
  lemma {:induction false} QuotesAreDoubled(a: string, c: char, b: string)
    ensures DoubleQuotes(a + [c] + b) == DoubleQuotes(a) + (if c == '"' then "\"\"" else [c]) + DoubleQuotes(b)
    ensures DoubleQuotes("") == ""
    decreases |a|
  {
    var s := a + [c] + b;
    if a == "" {
      assert s == [c] + b && s[1..] == b;
    } else {
      assert s[0] == a[0] && s[1..] == a[1..] + [c] + b;
      QuotesAreDoubled(a[1..], c, b);
    }
  }

  /** Fields are separated by commas and lines by line feeds; nothing ends the last line. */
  lemma SeparatorsAre(fields: seq<string>, rows: seq<seq<string>>)
    ensures CsvLine(fields) == Join(Escaped(fields), ',')
    ensures Document(rows) == Join(LinesOf(rows), '\n')
  {
  }

  /** Quoted and plain pieces make up one field, wherever the quotes stand; a comma ends it. */
  lemma PiecesMakeField(a: string, v: string, b: string, rest: string)
    requires !NeedsQuotes(a) && !NeedsQuotes(b)
    ensures Parse(a + "\"" + DoubleQuotes(v) + "\"" + b, "", false) == [a + v + b]
    ensures Parse(a + "\"" + DoubleQuotes(v) + "\"" + b + "," + rest, "", false) == [a + v + b] + Parse(rest, "", false)
  {
    ParsePieces(a, v, b, "");
    assert b + "" == b;
    assert a + "\"" + DoubleQuotes(v) + "\"" + b + "" == a + "\"" + DoubleQuotes(v) + "\"" + b;
    ParsePieces(a, v, b, "," + rest);
    assert a + "\"" + DoubleQuotes(v) + "\"" + b + ("," + rest) == a + "\"" + DoubleQuotes(v) + "\"" + b + "," + rest;
    assert ("," + rest)[1..] == rest;
  }

  lemma ParsePieces(a: string, v: string, b: string, tail: string)
    requires !NeedsQuotes(a) && !NeedsQuotes(b) && (tail == "" || tail[0] == ',')
    ensures Parse(a + "\"" + DoubleQuotes(v) + "\"" + b + tail, "", false) == Parse(tail, a + v + b, false)
  {
    var quoted := DoubleQuotes(v) + [QUOTE] + (b + tail);
    assert a + "\"" + DoubleQuotes(v) + "\"" + b + tail == a + ([QUOTE] + quoted);
    ParsePlain(a, [QUOTE] + quoted, "");
    assert ([QUOTE] + quoted)[1..] == quoted && "" + a == a;
    ParseQuoted(v, b + tail, a);
    ParsePlain(b, tail, a + v);
  }

  /** A quote that is never closed takes in the rest of the line, commas included. */
  lemma {:induction false} UnclosedQuote(v: string, current: string)
    requires '"' !in v
    ensures Parse(v, current, true) == [current + v]
    ensures Parse("\"" + v, current, false) == [current + v]
    decreases |v|
  {
    assert ("\"" + v)[1..] == v;
    if v == "" {
      assert current + v == current;
    } else {
      UnclosedQuote(v[1..], current + [v[0]]);
      assert current + [v[0]] + v[1..] == current + v;
    }
  }

  /** These lines with these breaks between them, each a line feed or a carriage return and a line feed. */
  function Broken(lines: seq<string>, crlf: seq<bool>): string
    requires |lines| == |crlf| + 1
  {
    if crlf == [] then lines[0]
    else lines[0] + (if crlf[0] then "\r\n" else "\n") + Broken(lines[1..], crlf[1..])
  }

  lemma OneBreak(line: string, crlf: bool, more: string)
    requires '\n' !in line && (line == "" || line[|line| - 1] != '\r')
    ensures SplitLines(line + (if crlf then "\r\n" else "\n") + more) == [line] + SplitLines(more)
  {
    var head := line + if crlf then "\r" else "";
    assert line + (if crlf then "\r\n" else "\n") + more == head + [LF] + more;
    FirstBreak(head, more);
    assert WithoutCr(head) == line;
  }

  /** Both line breaks separate lines. */
  lemma {:induction false} BothBreaksSplit(lines: seq<string>, crlf: seq<bool>)
    requires |lines| == |crlf| + 1
    requires forall l | l in lines :: '\n' !in l && (l == "" || l[|l| - 1] != '\r')
    ensures SplitLines(Broken(lines, crlf)) == lines
    decreases |crlf|
  {
    assert lines[0] in lines;
    if crlf == [] {
      assert IndexOf(lines[0], LF) == |lines[0]|;
    } else {
      OneBreak(lines[0], crlf[0], Broken(lines[1..], crlf[1..]));
      BothBreaksSplit(lines[1..], crlf[1..]);
      assert lines == [lines[0]] + lines[1..];
    }
  }

  /** Exactly the lines of nothing but white space are passed over. */
  lemma BlankLinesDropped(a: seq<string>, line: string, b: seq<string>)
    ensures NonBlank(a + [line] + b) == NonBlank(a) + (if Blank(line) then [] else [line]) + NonBlank(b)
    ensures NonBlank([]) == []
  {
    var one := if Blank(line) then [] else [line];
    TrimsToNothing(line);
    assert NonBlank([line]) == one by {
      assert [line][1..] == [];
    }
    NonBlankAppend(a, [line]);
    NonBlankAppend(a + [line], b);
  }
}
