/** How the analyzer's fuzz target cuts its input and builds a diff from it:
  * fuzz/fuzz_targets/analyze.rs. */
module FuzzInput {
  import opened Wrappers
  import opened Text
  import opened RustText

  // ---------- UTF-8 ----------

  type Byte = b: int | 0 <= b < 256

  /** The octets of a character, as section 3 of RFC 3629 lays them out. */
  function Encode(c: char): (bytes: seq<Byte>)
    ensures 1 <= |bytes| <= 4 && !IsContinuation(bytes[0])
    ensures forall i :: 0 < i < |bytes| ==> IsContinuation(bytes[i])
  {
    var n := c as int;
    if n < 0x80 then [n]
    else if n < 0x800 then [0xC0 + n / 64, 0x80 + n % 64]
    else if n < 0x10000 then [0xE0 + n / 4096, 0x80 + n / 64 % 64, 0x80 + n % 64]
    else [0xF0 + n / 262144, 0x80 + n / 4096 % 64, 0x80 + n / 64 % 64, 0x80 + n % 64]
  }

  /** The number that octets stand for, read by the first one: section 3 of RFC 3629. */
  function Decoded(bytes: seq<Byte>): Option<int> {
    if |bytes| == 1 && bytes[0] < 0x80 then Some(bytes[0])
    else if |bytes| == 2 && 0xC0 <= bytes[0] < 0xE0 then Some(Tail(bytes, 1) + 64 * Lead(bytes, 0xC0))
    else if |bytes| == 3 && 0xE0 <= bytes[0] < 0xF0 then
      Some(Tail(bytes, 2) + 64 * Tail(bytes, 1) + 4096 * Lead(bytes, 0xE0))
    else if |bytes| == 4 && 0xF0 <= bytes[0] < 0xF8 then
      Some(Tail(bytes, 3) + 64 * Tail(bytes, 2) + 4096 * Tail(bytes, 1) + 262144 * Lead(bytes, 0xF0))
    else None
  }

  /** What a first octet adds above its mark. */
  function Lead(bytes: seq<Byte>, mark: int): int
    requires bytes != []
  {
    var b: int := bytes[0];
    b - mark
  }

  function Tail(bytes: seq<Byte>, i: nat): int
    requires i < |bytes|
  {
    var b: int := bytes[i];
    b - 0x80
  }

  /** A character's octets stand for it, and are as few as the table allows. */
  lemma EncodeReadsBack(c: char)
    ensures Decoded(Encode(c)) == Some(c as int)
    ensures |Encode(c)| == if c as int <= 0x7F then 1 else if c as int <= 0x7FF then 2 else if c as int <= 0xFFFF then 3 else 4
  {
    var n := c as int;
    assert n == n / 64 * 64 + n % 64;
    assert n / 64 == n / 64 / 64 * 64 + n / 64 % 64 && n / 64 / 64 == n / 4096;
    assert n / 4096 == n / 4096 / 64 * 64 + n / 4096 % 64 && n / 4096 / 64 == n / 262144;
  }

  predicate IsContinuation(b: Byte) {
    0x80 <= b < 0xC0
  }

  function Utf8(text: string): seq<Byte> {
    if text == "" then [] else Encode(text[0]) + Utf8(text[1..])
  }

  /** Rust's str::is_char_boundary. */
  predicate IsCharBoundary(bytes: seq<Byte>, i: nat) {
    i == 0 || i == |bytes| || (i < |bytes| && !IsContinuation(bytes[i]))
  }

  /** The character that byte i belongs to, and how far into that character it is. */
  function Locate(text: string, i: nat): (r: (nat, nat))
    requires i <= |Utf8(text)|
    ensures r.0 <= |text| && r.1 <= 3 && r.1 <= i && (r.0 == |text| ==> r.1 == 0)
  {
    if text == "" then (0, 0)
    else if i < |Encode(text[0])| then (0, i)
    else
      var (k, j) := Locate(text[1..], i - |Encode(text[0])|);
      (k + 1, j)
  }

  lemma {:induction false} LocateMeans(text: string, i: nat)
    requires i <= |Utf8(text)|
    ensures var (k, j) := Locate(text, i);
      && Utf8(text)[..i - j] == Utf8(text[..k])
      && (k < |text| ==> j < |Encode(text[k])|)
      && (IsCharBoundary(Utf8(text), i) <==> j == 0)
  {
    hide Encode, IsCharBoundary;
    if text == "" {
      NoBytes([]);
    } else if i < |Encode(text[0])| {
      assert text[..0] == "";
      BoundaryInFirst(Encode(text[0]), Utf8(text[1..]), i);
    } else {
      var first, rest := Encode(text[0]), Utf8(text[1..]);
      var (k, j) := Locate(text, i);
      LocateMeans(text[1..], i - |first|);
      assert text[..k][1..] == text[1..][..k - 1];
      assert Utf8(text)[..i - j] == first + rest[..i - |first| - j];
      FirstByte(text[1..]);
      BoundaryInRest(first, rest, i);
    }
  }

  lemma NoBytes(none: seq<Byte>)
    requires none == []
    ensures IsCharBoundary(none, 0)
  {}

  lemma BoundaryInFirst(first: seq<Byte>, rest: seq<Byte>, i: nat)
    requires i < |first| && forall k :: 0 < k < |first| ==> IsContinuation(first[k])
    ensures IsCharBoundary(first + rest, i) <==> i == 0
  {
    hide IsContinuation;
    assert (first + rest)[i] == first[i];
  }

  lemma BoundaryInRest(first: seq<Byte>, rest: seq<Byte>, i: nat)
    requires 0 < |first| <= i <= |first + rest| && (rest != [] ==> !IsContinuation(rest[0]))
    ensures IsCharBoundary(first + rest, i) <==> IsCharBoundary(rest, i - |first|)
  {
    hide IsContinuation;
    assert i < |first + rest| ==> (first + rest)[i] == rest[i - |first|];
  }

  lemma FirstByte(text: string)
    ensures text != "" ==> |Utf8(text)| > 0 && !IsContinuation(Utf8(text)[0])
  {
    hide IsContinuation;
  }

  /** One byte earlier inside a character. */
  lemma {:induction false} LocateBack(text: string, i: nat)
    requires i <= |Utf8(text)| && Locate(text, i).1 > 0
    ensures Locate(text, i - 1) == (Locate(text, i).0, Locate(text, i).1 - 1)
  {
    hide Encode;
    if text != "" && i >= |Encode(text[0])| {
      LocateBack(text[1..], i - |Encode(text[0])|);
    }
  }

  lemma {:induction false} Utf8Next(text: string, k: nat)
    requires k < |text|
    ensures Utf8(text[..k + 1]) == Utf8(text[..k]) + Encode(text[k])
  {
    hide Encode;
    if k == 0 {
      assert text[..1][1..] == "" && text[..0] == "";
    } else {
      Utf8Next(text[1..], k - 1);
      assert text[..k + 1][1..] == text[1..][..k] && text[..k][1..] == text[1..][..k - 1];
    }
  }

  /** The longest run of whole characters within the limit; at most three bytes of room
    * are left when something had to go. */
  method Clamp(ghost text: string, input: seq<Byte>, maxBytes: nat) returns (r: seq<Byte>, ghost kept: nat)
    requires input == Utf8(text)
    ensures kept <= |text| && r == Utf8(text[..kept]) && |r| <= maxBytes
    ensures kept < |text| ==> |Utf8(text[..kept + 1])| > maxBytes && |r| + 3 >= maxBytes
  {
    hide Encode, Utf8, Locate, IsCharBoundary;
    if |input| <= maxBytes {
      assert text[..|text|] == text;
      return input, |text|;
    }
    var end := maxBytes;
    LocateMeans(text, maxBytes);
    ghost var (k, j) := Locate(text, maxBytes);
    while !IsCharBoundary(input, end)
      invariant end <= maxBytes && maxBytes - end <= j && Locate(text, end) == (k, j - (maxBytes - end))
      decreases end
    {
      LocateMeans(text, end);
      LocateBack(text, end);
      end := end - 1;
    }
    LocateMeans(text, end);
    r, kept := input[..end], k;
    if k < |text| {
      Utf8Next(text, k);
    }
  }

  // ---------- cutting the input ----------

  const SPLIT_MARKER := "\n---DIFF---\n"
  const SPLIT_MARKER_CRLF := "\r\n---DIFF---\r\n"
  const TESTS_MARKER := "\n---TESTS---\n"
  const TESTS_MARKER_CRLF := "\r\n---TESTS---\r\n"

  /** The text around the first occurrence of the line-feed marker or, if there is none, of
    * the other one. */
  function SplitOnceMarker(input: string, lf: string, crlf: string): (string, string) {
    var at, at' := Find(input, lf), Find(input, crlf);
    if at.Some? then (input[..at.value], input[at.value + |lf|..])
    else if at'.Some? then (input[..at'.value], input[at'.value + |crlf|..])
    else (input, "")
  }

  function SplitInput(input: string): (string, string, string) {
    var (sourceAndDiff, tests) := SplitOnceMarker(input, TESTS_MARKER, TESTS_MARKER_CRLF);
    var (source, diff) := SplitOnceMarker(sourceAndDiff, SPLIT_MARKER, SPLIT_MARKER_CRLF);
    (source, diff, tests)
  }

  /** The marker at which the input is cut, if it is. */
  function MarkerFound(input: string, lf: string, crlf: string): string {
    if Find(input, lf).Some? then lf else if Find(input, crlf).Some? then crlf else ""
  }

  lemma MarkerRebuilds(input: string, lf: string, crlf: string)
    requires lf != "" && crlf != ""
    ensures var (before, after) := SplitOnceMarker(input, lf, crlf);
      var marker := MarkerFound(input, lf, crlf);
      && input == before + marker + after
      && (marker == "" ==> after == "")
      && Find(before, lf).None? && (Find(input, lf).None? ==> Find(before, crlf).None?)
  {
    hide Find;
    var (before, after) := SplitOnceMarker(input, lf, crlf);
    if Find(before, lf).Some? {
      OccursEarlier(input, before, lf, Find(before, lf).value);
    }
    if Find(before, crlf).Some? {
      OccursEarlier(input, before, crlf, Find(before, crlf).value);
    }
  }

  lemma OccursEarlier(input: string, before: string, needle: string, i: nat)
    requires before <= input && OccursAt(before, needle, i)
    ensures OccursAt(input, needle, i) && i + |needle| <= |before|
  {
    assert input[i..i + |needle|] == before[i..i + |needle|];
  }

  /** The parts and the markers found between them rebuild the input, and no marker that was
    * looked for is left in what came before it. */
  lemma PartsRebuildInput(input: string)
    ensures var (source, diff, tests) := SplitInput(input);
      var testsMarker := MarkerFound(input, TESTS_MARKER, TESTS_MARKER_CRLF);
      var sourceAndDiff := SplitOnceMarker(input, TESTS_MARKER, TESTS_MARKER_CRLF).0;
      var splitMarker := MarkerFound(sourceAndDiff, SPLIT_MARKER, SPLIT_MARKER_CRLF);
      && input == source + splitMarker + diff + testsMarker + tests
      && (testsMarker == "" ==> tests == "") && (splitMarker == "" ==> diff == "")
      && Find(sourceAndDiff, TESTS_MARKER).None? && Find(source, SPLIT_MARKER).None?
  {
    hide Find, SplitOnceMarker, MarkerFound;
    MarkerRebuilds(input, TESTS_MARKER, TESTS_MARKER_CRLF);
    var sourceAndDiff := SplitOnceMarker(input, TESTS_MARKER, TESTS_MARKER_CRLF).0;
    MarkerRebuilds(sourceAndDiff, SPLIT_MARKER, SPLIT_MARKER_CRLF);
  }

  // ---------- the generated diff ----------

  const PREAMBLE := "diff --git a/src/lib.rs b/src/lib.rs\n" + "--- a/src/lib.rs\n" + "+++ b/src/lib.rs\n"

  function HunkHeader(addedLines: nat): string {
    "@@ -0,0 +1," + Decimal(addedLines) + " @@\n"
  }

  /** Each line added, in order. */
  function Added(lines: seq<string>): string {
    if lines == [] then "" else Added(lines[..|lines| - 1]) + "+" + lines[|lines| - 1] + "\n"
  }

  /** The lines that the generated hunk adds. */
  function AddedLines(source: string): seq<string> {
    if source == "" then [""] else Lines(source)
  }

  method ChangedLibDiff(source: string, diffTail: string, emitEmptyHunk: bool) returns (diff: string)
    ensures diff == if emitEmptyHunk then PREAMBLE + diffTail
                    else PREAMBLE + HunkHeader(|AddedLines(source)|) + Added(AddedLines(source)) + diffTail
  {
    hide PREAMBLE, HunkHeader, Lines;
    if emitEmptyHunk {
      return PREAMBLE + diffTail;
    }
    var lines := Lines(source);
    LinesOfSource(source);
    var addedLines := if |lines| > 1 then |lines| else 1;
    diff := PREAMBLE + HunkHeader(addedLines);
    ghost var front := diff;
    if source == "" {
      diff := diff + "+\n";
      assert [""][..0] == [];
      assert Added([""]) == "" + "+" + "" + "\n" == "+\n";
    } else {
      assert lines[..0] == [];
      for i := 0 to |lines|
        invariant diff == front + Added(lines[..i])
      {
        assert lines[..i + 1][..i] == lines[..i];
        diff := diff + "+" + lines[i] + "\n";
        assert diff == front + Added(lines[..i + 1]);
      }
      assert lines[..|lines|] == lines;
    }
    diff := diff + diffTail;
  }

  lemma LinesOfSource(source: string)
    ensures source == "" <==> Lines(source) == []
    ensures forall i :: 0 <= i < |Lines(source)| ==> '\n' !in Lines(source)[i]
  {
    hide Split;
    var pieces := Split(source, '\n');
    PieceLines(pieces);
  }

  lemma {:induction false} PieceLines(pieces: seq<string>)
    requires pieces != [] && forall i :: 0 <= i < |pieces| ==> '\n' !in pieces[i]
    ensures var lines := LinesOfPieces(pieces);
      && (lines == [] <==> pieces == [""])
      && forall i :: 0 <= i < |lines| ==> '\n' !in lines[i]
  {
    if |pieces| > 1 {
      PieceLines(pieces[1..]);
    } else {
      assert pieces == [pieces[0]];
    }
  }

  function Plus(lines: seq<string>): (r: seq<string>)
    ensures |r| == |lines|
  {
    seq(|lines|, i requires 0 <= i < |lines| => "+" + lines[i])
  }

  lemma {:induction false} AddedIsJoin(lines: seq<string>)
    ensures Added(lines) == Join(Plus(lines) + [""], "\n")
  {
    hide Join;
    if lines == [] {
      NoneIsJoin(Plus(lines));
    } else {
      var n := |lines| - 1;
      AddedIsJoin(lines[..n]);
      PlusOfMore(lines);
      OneMoreJoined(Plus(lines[..n]), "+" + lines[n]);
    }
  }

  lemma NoneIsJoin(none: seq<string>)
    requires none == []
    ensures Join(none + [""], "\n") == ""
  {
    assert none + [""] == [""];
  }

  lemma PlusOfMore(lines: seq<string>)
    requires lines != []
    ensures Plus(lines) == Plus(lines[..|lines| - 1]) + ["+" + lines[|lines| - 1]]
  {}

  lemma OneMoreJoined(front: seq<string>, last: string)
    ensures Join(front + [last] + [""], "\n") == Join(front + [""], "\n") + last + "\n"
  {
    hide Join;
    LastTwo(last);
    assert front + [last] + [""] == front + [last, ""];
    if front == [] {
      assert front + [last, ""] == [last, ""] && front + [""] == [""];
    } else {
      JoinConcat(front, [last, ""]);
      JoinConcat(front, [""]);
    }
  }

  lemma LastTwo(last: string)
    ensures Join([last, ""], "\n") == last + "\n" && Join([""], "\n") == ""
  {
    assert [last, ""][1..] == [""];
  }

  lemma AddedNoBreaks(lines: seq<string>)
    requires forall i :: 0 <= i < |lines| ==> '\n' !in lines[i]
    ensures Split(Added(lines), '\n') == Plus(lines) + [""]
  {
    hide Added, Split, Join;
    AddedIsJoin(lines);
    var pieces := Plus(lines) + [""];
    forall i | 0 <= i < |pieces|
      ensures '\n' !in pieces[i]
    {
      if i < |lines| {
        PlusNoBreak(lines[i]);
      }
    }
    SplitOfJoin(pieces, '\n');
  }

  lemma PlusNoBreak(line: string)
    requires '\n' !in line
    ensures '\n' !in "+" + line
  {}

  /** The generated hunk consists of exactly the announced number of lines, each of them an
    * added source line. */
  lemma HunkHoldsTheAnnouncedLines(source: string)
    ensures var lines := AddedLines(source);
      && |lines| >= 1 && (source != "" ==> lines == Lines(source))
      && Split(Added(lines), '\n') == Plus(lines) + [""]
  {
    hide Lines, Split, Added;
    LinesOfSource(source);
    AddedNoBreaks(AddedLines(source));
  }

  /** What a reader of the hunk takes the added lines to be. */
  function ReadBack(hunk: string): seq<string> {
    var lines := Lines(hunk);
    seq(|lines|, i requires 0 <= i < |lines| => if lines[i] == "" then "" else lines[i][1..])
  }

  predicate NoReturnLeft(lines: seq<string>) {
    forall i :: 0 <= i < |lines| ==> !EndsWith(lines[i], "\r")
  }

  lemma ReadsWithoutReturns(lines: seq<string>)
    requires lines != [] && forall i :: 0 <= i < |lines| ==> '\n' !in lines[i]
    ensures ReadBack(Added(lines)) == WithoutReturns(lines)
  {
    hide Added, Lines, WithoutReturn;
    LinesOfAdded(lines);
    var read := Lines(Added(lines));
    forall i | 0 <= i < |lines|
      ensures read[i] != "" && read[i][1..] == WithoutReturn(lines[i])
    {
      PlusKeepsReturn(lines[i]);
    }
  }

  lemma LinesOfAdded(lines: seq<string>)
    requires lines != [] && forall i :: 0 <= i < |lines| ==> '\n' !in lines[i]
    ensures Lines(Added(lines)) == WithoutReturns(Plus(lines))
  {
    hide Added, Split, WithoutReturns;
    AddedNoBreaks(lines);
    PiecesConcat(Plus(lines), [""]);
  }

  lemma PlusKeepsReturn(line: string)
    ensures WithoutReturn("+" + line) == "+" + WithoutReturn(line)
  {
    var plus := "+" + line;
    if line != "" {
      assert plus[|plus| - 1..] == line[|line| - 1..];
    } else {
      assert plus == "+";
    }
  }

  /** Taking the plus signs off a generated hunk, line by line, gives the source's lines back
    * exactly when the source has lines and none of them still ends in a carriage return. */
  lemma HunkReadsBack(source: string)
    ensures ReadBack(Added(AddedLines(source))) == Lines(source) <==> source != "" && NoReturnLeft(Lines(source))
  {
    hide Lines, Added, ReadBack;
    LinesOfSource(source);
    var lines := AddedLines(source);
    ReadsWithoutReturns(lines);
    if source != "" {
      forall i | 0 <= i < |lines|
        ensures WithoutReturn(lines[i]) == lines[i] <==> !EndsWith(lines[i], "\r")
      {
      }
      assert WithoutReturns(lines) == lines <==> forall i :: 0 <= i < |lines| ==> WithoutReturn(lines[i]) == lines[i];
    }
  }

  /** A concrete loss: the unterminated last line of this source keeps its carriage return, and
    * the hunk's own line feed takes it away. */
  lemma ReturnIsLost()
    ensures Lines("a\r") == ["a\r"] && ReadBack(Added(AddedLines("a\r"))) == ["a"]
  {
    hide ReadBack, Added, Split;
    OnePiece("a\r");
    ReadsWithoutReturns(["a\r"]);
    assert "a\r"[1..] == "\r" && "a\r"[..1] == "a";
    assert WithoutReturns(["a\r"]) == ["a"];
  }

  // ---------- the input and the diff as they are written ----------

  lemma MarkersAre()
    ensures SPLIT_MARKER == "\n---DIFF---\n" && SPLIT_MARKER_CRLF == "\r\n---DIFF---\r\n"
    ensures TESTS_MARKER == "\n---TESTS---\n" && TESTS_MARKER_CRLF == "\r\n---TESTS---\r\n"
  {}

  lemma CutAt(before: string, marker: string, after: string)
    ensures (before + marker + after)[..|before|] == before && (before + marker + after)[|before| + |marker|..] == after
  {}

  /** Three parts written with their markers between them, in Unix or in Windows line ends, are
    * cut again into these parts, if the markers are the first ones of their kind. */
  lemma WrittenInputIsCut(source: string, diff: string, tests: string, windows: bool)
    requires var split, end := if windows then "\r\n---DIFF---\r\n" else "\n---DIFF---\n",
                               if windows then "\r\n---TESTS---\r\n" else "\n---TESTS---\n";
      var front := source + split + diff;
      && Find(front + end + tests, end) == Some(|front|) && Find(front, split) == Some(|source|)
      && (windows ==> Find(front + end + tests, "\n---TESTS---\n").None? && Find(front, "\n---DIFF---\n").None?)
    ensures var split, end := if windows then "\r\n---DIFF---\r\n" else "\n---DIFF---\n",
                              if windows then "\r\n---TESTS---\r\n" else "\n---TESTS---\n";
      SplitInput(source + split + diff + end + tests) == (source, diff, tests)
  {
    hide Find, SPLIT_MARKER, SPLIT_MARKER_CRLF, TESTS_MARKER, TESTS_MARKER_CRLF;
    MarkersAre();
    var split, end := if windows then SPLIT_MARKER_CRLF else SPLIT_MARKER, if windows then TESTS_MARKER_CRLF else TESTS_MARKER;
    CutAt(source + split + diff, end, tests);
    CutAt(source, split, diff);
  }

  lemma HeaderLines(n: nat)
    ensures PREAMBLE + HunkHeader(n) == Join(["diff --git a/src/lib.rs b/src/lib.rs", "--- a/src/lib.rs", "+++ b/src/lib.rs",
                                              "@@ -0,0 +1," + Decimal(n) + " @@"], "\n") + "\n"
  {
    hide Decimal, Join;
    var a, b, c := "diff --git a/src/lib.rs b/src/lib.rs", "--- a/src/lib.rs", "+++ b/src/lib.rs";
    var d := "@@ -0,0 +1," + Decimal(n) + " @@";
    FourJoined(a, b, c, d);
    PreambleIs();
    assert HunkHeader(n) == d + "\n" by {
      assert " @@\n" == " @@" + "\n";
    }
  }

  lemma PreambleIs()
    ensures PREAMBLE == "diff --git a/src/lib.rs b/src/lib.rs" + "\n" + "--- a/src/lib.rs" + "\n" + "+++ b/src/lib.rs" + "\n"
  {
    FirstIs();
    OthersAre();
    var a, b, c := "diff --git a/src/lib.rs b/src/lib.rs", "--- a/src/lib.rs", "+++ b/src/lib.rs";
    Regrouped(a, b, c);
  }

  lemma FirstIs()
    ensures "diff --git a/src/lib.rs b/src/lib.rs\n" == "diff --git a/src/lib.rs b/src/lib.rs" + "\n"
  {}

  lemma OthersAre()
    ensures "--- a/src/lib.rs\n" == "--- a/src/lib.rs" + "\n" && "+++ b/src/lib.rs\n" == "+++ b/src/lib.rs" + "\n"
  {}

  lemma Regrouped(a: string, b: string, c: string)
    ensures (a + "\n") + (b + "\n") + (c + "\n") == a + "\n" + b + "\n" + c + "\n"
  {}

  lemma FourJoined(a: string, b: string, c: string, d: string)
    ensures Join([a, b, c, d], "\n") == a + "\n" + b + "\n" + c + "\n" + d
  {
    assert [a, b, c, d][1..] == [b, c, d] && [b, c, d][1..] == [c, d] && [c, d][1..] == [d];
    assert Join([c, d], "\n") == c + "\n" + d;
    assert Join([b, c, d], "\n") == b + "\n" + (c + "\n" + d);
  }

  /** The lines of a generated diff: three that name the file, one that announces the number of
    * added lines, the added lines, and those of the tail. */
  lemma DiffLines(source: string, tail: string)
    ensures var lines := AddedLines(source);
      Split(PREAMBLE + HunkHeader(|lines|) + Added(lines) + tail, '\n')
      == ["diff --git a/src/lib.rs b/src/lib.rs", "--- a/src/lib.rs", "+++ b/src/lib.rs",
          "@@ -0,0 +1," + Decimal(|lines|) + " @@"] + Plus(lines) + Split(tail, '\n')
  {
    hide PREAMBLE, HunkHeader, Added, Join, Split, Decimal, Lines, Plus;
    var lines := AddedLines(source);
    var header := ["diff --git a/src/lib.rs b/src/lib.rs", "--- a/src/lib.rs", "+++ b/src/lib.rs",
                   "@@ -0,0 +1," + Decimal(|lines|) + " @@"];
    HeaderLines(|lines|);
    AddedIsJoin(lines);
    SourceHasLines(source);
    PlusLines(lines);
    JoinConcat(Plus(lines), [""]);
    EndsJoined();
    JoinConcat(header, Plus(lines));
    var all := header + Plus(lines);
    assert PREAMBLE + HunkHeader(|lines|) + Added(lines) + tail == Join(all, "\n") + "\n" + tail;
    HeaderHasNoFeeds(|lines|);
    SplitAtBreak(Join(all, "\n"), tail);
    SplitOfJoin(all, '\n');
  }

  lemma EndsJoined()
    ensures Join([""], "\n") == ""
  {}

  lemma SourceHasLines(source: string)
    ensures var lines := AddedLines(source); lines != [] && forall i :: 0 <= i < |lines| ==> '\n' !in lines[i]
  {
    hide Lines;
    LinesOfSource(source);
  }

  lemma PlusLines(lines: seq<string>)
    requires forall i :: 0 <= i < |lines| ==> '\n' !in lines[i]
    ensures forall i :: 0 <= i < |Plus(lines)| ==> '\n' !in Plus(lines)[i]
  {}

  lemma HeaderHasNoFeeds(n: nat)
    ensures '\n' !in "diff --git a/src/lib.rs b/src/lib.rs" && '\n' !in "--- a/src/lib.rs" && '\n' !in "+++ b/src/lib.rs"
    ensures '\n' !in "@@ -0,0 +1," + Decimal(n) + " @@"
  {
    hide Decimal;
    DigitsOnly(n);
  }

  lemma DigitsOnly(n: nat)
    ensures '\n' !in Decimal(n)
  {}
}
