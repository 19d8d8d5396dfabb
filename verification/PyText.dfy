/** Python's notions of line and blank, as str.splitlines and str.strip use them. */
module PyText {
  import opened Text

  predicate IsBreak(c: char) {
    '\n' <= c <= '\r' || '\U{1C}' <= c <= '\U{1E}' || c == '\U{85}' || c == '\U{2028}' || c == '\U{2029}'
  }

  predicate IsLine(s: string) {
    forall i :: 0 <= i < |s| ==> !IsBreak(s[i])
  }

  predicate AreLines(lines: seq<string>) {
    forall i :: 0 <= i < |lines| ==> IsLine(lines[i])
  }

  function LineLength(text: string): (n: nat)
    ensures n <= |text| && IsLine(text[..n])
    ensures n < |text| ==> IsBreak(text[n])
  {
    if text == "" || IsBreak(text[0]) then 0
    else
      var n := 1 + LineLength(text[1..]);
      assert text[..n] == [text[0]] + text[1..][..n - 1];
      n
  }

  /** The lines of the text; a final line break opens no further line. */
  function SplitLines(text: string): (lines: seq<string>)
    ensures AreLines(lines)
  {
    if text == "" then []
    else
      var n := LineLength(text);
      if n == |text| then [text]
      else if text[n] == '\r' && n + 1 < |text| && text[n + 1] == '\n' then [text[..n]] + SplitLines(text[n + 2..])
      else [text[..n]] + SplitLines(text[n + 1..])
  }

  /** Joining and cutting again loses exactly a final empty line. */
  function WithoutFinalEmpty(lines: seq<string>): seq<string> {
    if lines != [] && lines[|lines| - 1] == "" then lines[..|lines| - 1] else lines
  }

  lemma LineLengthIs(text: string, n: nat)
    requires n <= |text| && IsLine(text[..n]) && (n < |text| ==> IsBreak(text[n]))
    ensures LineLength(text) == n
  {
    var m := LineLength(text);
    var p, q := text[..n], text[..m];
    assert forall i :: 0 <= i < n ==> p[i] == text[i];
    assert forall i :: 0 <= i < m ==> q[i] == text[i];
  }

  lemma {:induction false} SplitLinesOfJoin(lines: seq<string>)
    requires AreLines(lines)
    ensures SplitLines(Join(lines, "\n")) == WithoutFinalEmpty(lines)
    decreases |lines|
  {
    hide SplitLines, IsBreak;
    if lines == [] {
      NoLine();
    } else if |lines| == 1 {
      assert lines == [lines[0]];
      OnlyLine(lines[0]);
    } else {
      var rest := lines[1..];
      SplitLinesOfJoin(rest);
      FirstLine(lines[0], Join(rest, "\n"));
      FinalEmptyAfter(lines[0], rest);
      assert lines == [lines[0]] + rest;
    }
  }

  lemma NoLine()
    ensures SplitLines("") == []
  {}

  lemma FinalEmptyAfter(line: string, rest: seq<string>)
    requires rest != []
    ensures WithoutFinalEmpty([line] + rest) == [line] + WithoutFinalEmpty(rest)
  {
    var lines := [line] + rest;
    assert lines[|lines| - 1] == rest[|rest| - 1];
    assert lines[..|lines| - 1] == [line] + rest[..|rest| - 1];
  }

  lemma OnlyLine(line: string)
    requires IsLine(line)
    ensures SplitLines(line) == if line == "" then [] else [line]
  {
    assert line[..|line|] == line;
    LineLengthIs(line, |line|);
  }

  lemma FirstLine(line: string, rest: string)
    requires IsLine(line)
    ensures SplitLines(line + "\n" + rest) == [line] + SplitLines(rest)
  {
    var text := line + "\n" + rest;
    var n := |line|;
    assert text[..n] == line && text[n] == '\n' && text[n + 1..] == rest;
    LineLengthIs(text, n);
  }

  /** Joined lines are equal only when the lines are, except that no line and one
    * empty line join to the same text. */
  lemma JoinedLinesEqual(a: seq<string>, b: seq<string>)
    requires AreLines(a) && AreLines(b)
    ensures Join(a, "\n") == Join(b, "\n")
       <==> a == b || (a in [[], [""]] && b in [[], [""]])
  {
    if Join(a, "\n") == Join(b, "\n") {
      if a == [] {
        EmptyJoin(b);
      } else if b == [] {
        EmptyJoin(a);
      } else {
        SplitOfJoin(a, '\n');
        SplitOfJoin(b, '\n');
      }
    }
  }

  lemma EmptyJoin(a: seq<string>)
    requires Join(a, "\n") == ""
    ensures a in [[], [""]]
  {
    assert |a| > 1 ==> |Join(a, "\n")| > 0;
    assert |a| == 1 ==> a == [a[0]];
  }

  // ---------- lines with their ends ----------

  /** Where the first line ends, its line break included. */
  function LineEnd(text: string): (e: nat)
    requires text != ""
    ensures 0 < e <= |text| && LineLength(text) <= e
  {
    var n := LineLength(text);
    if n == |text| then n
    else if text[n] == '\r' && n + 1 < |text| && text[n + 1] == '\n' then n + 2
    else n + 1
  }

  /** The lines of the text with their line breaks, as splitlines(keepends=True) gives them. */
  function KeepLines(text: string): seq<string> {
    if text == "" then [] else [text[..LineEnd(text)]] + KeepLines(text[LineEnd(text)..])
  }

  function LineOf(raw: string): string {
    raw[..LineLength(raw)]
  }

  function BreakOf(raw: string): string {
    raw[LineLength(raw)..]
  }

  function LinesOf(raws: seq<string>): (r: seq<string>)
    ensures |r| == |raws|
  {
    seq(|raws|, i requires 0 <= i < |raws| => LineOf(raws[i]))
  }

  function BreaksOf(raws: seq<string>): (r: seq<string>)
    ensures |r| == |raws|
  {
    seq(|raws|, i requires 0 <= i < |raws| => BreakOf(raws[i]))
  }

  function Flatten(raws: seq<string>): string {
    if raws == [] then "" else raws[0] + Flatten(raws[1..])
  }

  /** One line with its break, which must be there and must be whole if a rest follows. */
  predicate IsRawLine(raw: string, rest: string) {
    raw != "" && LineEnd(raw) == |raw| &&
    (rest != "" ==> BreakOf(raw) != "" && !(BreakOf(raw) == "\r" && rest[0] == '\n'))
  }

  predicate AreRawLines(raws: seq<string>) {
    raws != [] ==> IsRawLine(raws[0], Flatten(raws[1..])) && AreRawLines(raws[1..])
  }

  lemma FirstRawLine(text: string)
    requires text != ""
    ensures var e := LineEnd(text);
      && IsRawLine(text[..e], text[e..])
      && LineOf(text[..e]) == text[..LineLength(text)]
  {
    hide IsBreak, LineLength;
    var n, e := LineLength(text), LineEnd(text);
    var raw := text[..e];
    Shortened(text, n, e);
    LineLengthIs(raw, n);
    assert e == n + 1 ==> raw[n..] == [text[n]];
  }

  lemma Shortened(text: string, n: nat, e: nat)
    requires n <= e <= |text|
    ensures text[..e][..n] == text[..n] && (n < e ==> text[..e][n] == text[n]) && text[..e][n..] == text[n..e]
  {}

  lemma RawLineFirst(raw: string, rest: string)
    requires IsRawLine(raw, rest)
    ensures LineEnd(raw + rest) == |raw| && LineLength(raw + rest) == LineLength(raw)
    ensures (raw + rest)[..|raw|] == raw && (raw + rest)[|raw|..] == rest
  {
    hide IsBreak;
    var n, text := LineLength(raw), raw + rest;
    assert text[..n] == raw[..n];
    if n < |raw| {
      assert text[n] == raw[n];
      LineLengthIs(text, n);
      if |raw| == n + 1 {
        assert raw[n..] == [raw[n]];
        assert n + 1 < |text| ==> text[n + 1] == rest[0];
      } else {
        assert text[n + 1] == raw[n + 1];
      }
    } else {
      assert raw[n..] == "";
      assert text == raw;
    }
  }

  lemma SplitFirst(text: string)
    requires text != ""
    ensures SplitLines(text) == [text[..LineLength(text)]] + SplitLines(text[LineEnd(text)..])
  {
    var n := LineLength(text);
    if n == |text| {
      assert text[..n] == text && text[n..] == "";
    }
  }

  lemma {:induction false} KeptLines(text: string)
    ensures AreRawLines(KeepLines(text)) && Flatten(KeepLines(text)) == text
    ensures LinesOf(KeepLines(text)) == SplitLines(text)
  {
    hide IsRawLine, LineEnd, SplitLines, LineOf;
    if text == "" {
      NoLine();
    } else {
      var e := LineEnd(text);
      var raws, rest := KeepLines(text), KeepLines(text[e..]);
      KeptLines(text[e..]);
      FirstRawLine(text);
      SplitFirst(text);
      assert raws[1..] == rest;
      assert text == text[..e] + text[e..];
      assert LinesOf(raws) == [LineOf(raws[0])] + LinesOf(rest);
    }
  }

  /** Raw lines put together and cut again are the raw lines. */
  lemma {:induction false} KeepFlattened(raws: seq<string>)
    requires AreRawLines(raws)
    ensures KeepLines(Flatten(raws)) == raws && SplitLines(Flatten(raws)) == LinesOf(raws)
  {
    hide LineEnd, SplitLines;
    if raws == [] {
      NoLine();
    } else {
      KeepFlattened(raws[1..]);
      RawLineFirst(raws[0], Flatten(raws[1..]));
      assert raws == [raws[0]] + raws[1..];
      KeptLines(Flatten(raws));
    }
  }

  /** A stretch of consecutive raw lines. */
  lemma {:induction false} RawLinesWithin(raws: seq<string>, from: nat, to: nat)
    requires AreRawLines(raws) && from <= to <= |raws|
    ensures AreRawLines(raws[from..to])
  {
    hide IsRawLine;
    if from > 0 {
      RawLinesWithin(raws[1..], from - 1, to - 1);
      assert raws[1..][from - 1..to - 1] == raws[from..to];
    } else if to > 0 {
      RawLinesWithin(raws[1..], 0, to - 1);
      var front := raws[..to];
      assert raws[1..][..to - 1] == front[1..] && raws[0..to] == front;
      RawLineBefore(raws[0], raws[1..], to - 1);
    } else {
      assert raws[0..0] == [];
    }
  }

  lemma RawLineBefore(raw: string, rest: seq<string>, n: nat)
    requires n <= |rest| && IsRawLine(raw, Flatten(rest)) && AreRawLines(rest)
    ensures IsRawLine(raw, Flatten(rest[..n]))
  {
    hide LineEnd, BreakOf, LineLength;
    if n > 0 {
      assert rest[..n][0] == rest[0] && rest[0] != "";
      assert Flatten(rest)[0] == rest[0][0] && Flatten(rest[..n])[0] == rest[0][0];
    }
  }

  /** A raw line is its line and its break. */
  lemma SameRawLines(a: seq<string>, b: seq<string>)
    requires LinesOf(a) == LinesOf(b) && BreaksOf(a) == BreaksOf(b)
    ensures a == b
  {
    forall i | 0 <= i < |a|
      ensures a[i] == b[i]
    {
      assert a[i] == LineOf(a[i]) + BreakOf(a[i]) && b[i] == LineOf(b[i]) + BreakOf(b[i]);
      assert LinesOf(a)[i] == LinesOf(b)[i] && BreaksOf(a)[i] == BreaksOf(b)[i];
    }
  }

  // ---------- white space ----------

  predicate IsBlank(c: char) {
    c == ' ' || c == '\t'
  }

  predicate AllBlank(s: string) {
    forall i :: 0 <= i < |s| ==> IsBlank(s[i])
  }

  /** Characters that str.strip() removes. */
  predicate IsSpace(c: char) {
    IsBlank(c) || IsBreak(c) || c in "\U{1F}\U{A0}\U{1680}\U{202F}\U{205F}\U{3000}"
    || '\U{2000}' <= c <= '\U{200A}'
  }

  /** The code points at which splitlines() breaks, and those that strip() takes away: the former,
    * the unit separator and the blanks of the Unicode Character Database. */
  lemma SpaceCodes(c: char)
    ensures IsBreak(c) <==> 0xA <= c as int <= 0xD || 0x1C <= c as int <= 0x1E || c as int in {0x85, 0x2028, 0x2029}
    ensures IsSpace(c) <==> 0x9 <= c as int <= 0xD || 0x1C <= c as int <= 0x20 || c as int in {0x85, 0xA0, 0x1680}
                            || 0x2000 <= c as int <= 0x200A || c as int in {0x2028, 0x2029, 0x202F, 0x205F, 0x3000}
  {}

  function StripLeft(s: string): string {
    if s != "" && IsSpace(s[0]) then StripLeft(s[1..]) else s
  }

  function StripRight(s: string): string {
    if s != "" && IsSpace(s[|s| - 1]) then StripRight(s[..|s| - 1]) else s
  }

  function Strip(s: string): string {
    StripRight(StripLeft(s))
  }
}
