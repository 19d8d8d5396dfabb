/** Inputs on which the review gate of scripts/ci/check-pr-semantic-review-currentness.py
  * does less than its own description says. */
module GateExamples {
  import opened Wrappers
  import opened Text
  import opened PyText
  import opened Fences
  import opened ReviewBody
  import opened ReviewGate

  // ---------- fenced changes that carry over ----------

  /** The two commits differ in one Markdown file, with the given contents, and git's diff that
    * ignores white space and blank lines reports no difference. */
  ghost predicate ChangesOneFile(git: Git, reviewed: string, current: string, before: string, after: string) {
    && HasCommit(git, reviewed) && HasCommit(git, current) && git.ancestry(reviewed, current).Ancestor?
    && git.nameStatus(reviewed, current) == Some("M\trun.md")
    && git.blob(reviewed, "run.md") == Some(before) && git.blob(current, "run.md") == Some(after)
    && git.quietDiff(reviewed, current) == 0
  }

  lemma EqualFencesCarryOver(git: Git, reviewed: string, current: string, before: string, after: string)
    requires reviewed != current && ChangesOneFile(git, reviewed, current, before, after)
    requires FencedTexts(before) == FencedTexts(after)
    ensures var n := NeutralFollowup(git, reviewed, current); n.Ok? && n.value.0
  {
    hide FencedTexts, NeutralFollowup, Rows, IsProse, Strip, HasCommit;
    OneRow();
    MarkdownIsProse();
    NeutralMeansWhitespace(git, reviewed, current);
    assert IsWhitespaceRow(git, reviewed, current, ["M", "run.md"]);
  }

  /** A review carries over when a file goes from Windows to Unix line ends or back, whatever
    * its lines; as soon as a fenced block has a line, that changes fenced bytes. A carriage
    * return is white space to git, so git is silent on such a change as assumed. */
  lemma FencedChangeCarriesOver(git: Git, reviewed: string, current: string, lines: seq<string>, b: string, b': string)
    requires AreLines(lines) && IsLineEnd(b) && IsLineEnd(b') && b != b' && reviewed != current
    requires ChangesOneFile(git, reviewed, current, Written(lines, b), Written(lines, b'))
    ensures var n := NeutralFollowup(git, reviewed, current); n.Ok? && n.value.0
    ensures (exists k :: 0 <= k < |BodiesOf(lines)| && BodiesOf(lines)[k] != []) ==>
      RawBodies(Written(lines, b)) != RawBodies(Written(lines, b'))
  {
    hide IsLineEnd, FencedTexts, RawBodies, BodiesOf, NeutralFollowup, ChangesOneFile, Written;
    LineEndsAreInvisible(lines, b, b');
    EqualFencesCarryOver(git, reviewed, current, Written(lines, b), Written(lines, b'));
  }

  /** An instance with Windows line ends, spelled out. */
  lemma WindowsLineEndsCarryOver(git: Git, reviewed: string, current: string)
    requires reviewed != current
    requires ChangesOneFile(git, reviewed, current, "```\r\na\r\n```\r\n", "```\na\n```\n")
    ensures RawBodies("```\r\na\r\n```\r\n") == ["a\r\n"] && RawBodies("```\na\n```\n") == ["a\n"]
    ensures var n := NeutralFollowup(git, reviewed, current); n.Ok? && n.value.0
  {
    hide NeutralFollowup, ChangesOneFile, RawBodies, FencedTexts, OneLineBlock, IsLineBreak;
    WindowsText();
    PlainLetter();
    OneLineBlockLines("a", "\r\n");
    OneLineBlockLines("a", "\n");
    LineBreaksAreInvisible("a", "\r\n", "\n");
    EqualFencesCarryOver(git, reviewed, current, "```\r\na\r\n```\r\n", "```\na\n```\n");
  }

  lemma WindowsText()
    ensures OneLineBlock("a", "\r\n") == "```\r\na\r\n```\r\n" && OneLineBlock("a", "\n") == "```\na\n```\n"
    ensures "a" + "\r\n" == "a\r\n" && "a" + "\n" == "a\n" && "\r\n" != "\n"
    ensures IsLineBreak("\r\n") && IsLineBreak("\n")
  {
    assert "\n"[0] == '\n' && |"\n"| == 1 && |"\r\n"| == 2;
  }

  /** A review also carries over when an empty line is put into an empty fenced block, or taken
    * out again: blank lines are what git is told to ignore. */
  lemma EmptyBlockCarriesOver(git: Git, reviewed: string, current: string, grows: bool)
    requires reviewed != current
    requires ChangesOneFile(git, reviewed, current, if grows then "```\n```\n" else "```\n\n```\n",
                            if grows then "```\n\n```\n" else "```\n```\n")
    ensures RawBodies("```\n```\n") != RawBodies("```\n\n```\n")
    ensures var n := NeutralFollowup(git, reviewed, current); n.Ok? && n.value.0
  {
    hide NeutralFollowup, ChangesOneFile, RawBodies, FencedTexts;
    EmptyBodyBlindSpot();
    assert [""][0] != ["\n"][0];
    if grows {
      EqualFencesCarryOver(git, reviewed, current, "```\n```\n", "```\n\n```\n");
    } else {
      EqualFencesCarryOver(git, reviewed, current, "```\n\n```\n", "```\n```\n");
    }
  }

  lemma PlainLetter()
    ensures IsLine("a") && MarkOf("a").Plain?
  {
    PlainStart("a");
  }

  lemma PlainStart(line: string)
    requires line != "" && !IsBlank(line[0]) && line[0] != '`' && line[0] != '~'
    ensures MarkOf(line).Plain?
  {
    assert SkipBlanks(line, 0) == 0;
  }

  lemma StripNothing(s: string)
    requires s != "" && !IsSpace(s[0]) && !IsSpace(s[|s| - 1])
    ensures Strip(s) == s
  {}

  lemma OneRow()
    ensures Rows("M\trun.md") == [["M", "run.md"]] && Strip("M\trun.md") != ""
  {
    hide Strip, SplitLines, Split, IsSpace;
    RowEnds();
    StripNothing("M\trun.md");
    RowIsLine();
    OnlyLine("M\trun.md");
    RowFields();
    OneRowOf("M\trun.md");
  }

  lemma RowEnds()
    ensures !IsSpace("M\trun.md"[0]) && !IsSpace("M\trun.md"[|"M\trun.md"| - 1])
  {}

  lemma RowIsLine()
    ensures IsLine("M\trun.md")
  {}

  lemma RowFields()
    ensures Split("M\trun.md", '\t') == ["M", "run.md"]
  {
    var fields := ["M", "run.md"];
    assert fields[1..] == ["run.md"];
    assert Join(fields, "\t") == "M\trun.md";
    SplitOfJoin(fields, '\t');
  }

  lemma OneRowOf(row: string)
    requires row != ""
    ensures RowsOf([row]) == [Split(row, '\t')]
  {
    hide Split;
    assert [row][1..] == [];
    assert RowsOf([]) == [];
  }

  lemma MarkdownIsProse()
    ensures IsProse("run.md") && IsPlainModification(["M", "run.md"])
  {
    var name := "run.md";
    assert Join([name], "/") == name;
    SplitOfJoin([name], '/');
    assert FileName(name) == name;
    DotAt(name, 3);
    assert name[3..] == ".md";
    assert LowerCase(".md") == ".md";
  }

  lemma DotAt(name: string, i: nat)
    requires i < |name| && name[i] == '.' && forall j :: i < j < |name| ==> name[j] != '.'
    ensures LastDot(name) == i
  {}

  // ---------- a tie that decides the verdict ----------

  // Two commits, a merge base and a digest.
  const FIRST_HEAD := Hex('a', 40)
  const SECOND_HEAD := Hex('b', 40)
  const BASE := Hex('c', 40)
  const DIGEST := Hex('d', 64)

  function Hex(c: char, n: nat): (s: string)
    ensures |s| == n && forall i :: 0 <= i < n ==> s[i] == c
  {
    if n == 0 then "" else [c] + Hex(c, n - 1)
  }

  const OPENING := "<!-- semantic-review:v1 {\"head\": \""
  const BEFORE_BASE := "\", \"merge_base\": \""
  const BEFORE_RESULT := "\", \"pr\": 1, \"result\": \""
  const BEFORE_DIGEST := "\", \"subject_sha256\": \""
  const CLOSING := "\"} -->"

  /** The marker comment for a head of pull request 1. */
  function MarkerComment(head: string): string {
    OPENING + head + BEFORE_BASE + BASE + BEFORE_RESULT + MARKER_RESULT + BEFORE_DIGEST + DIGEST + CLOSING
  }

  const ITEM := "- REVIEW_CURRENT"

  /** The lines of a review that declares itself current and carries a marker for the head. */
  function ReviewLines(head: string): seq<string> {
    ["## Review scope", "## Evidence and falsifiers", "## What this establishes", "## Residual risk / not proved",
     "## No material findings", "## Substantive review result", ITEM, MarkerComment(head)]
  }

  function ReviewText(head: string): string {
    Join(ReviewLines(head), "\n")
  }

  /** A heading line as the review uses it. */
  predicate IsHeading(line: string) {
    |line| > 3 && line[0] == '#' && line[1] == '#' && line[2] == ' ' && !IsBlank(line[3])
    && !IsSpace(line[|line| - 1]) && IsLine(line)
  }

  lemma FirstHeadings()
    ensures IsHeading("## Review scope") && IsHeading("## Evidence and falsifiers") && IsHeading("## What this establishes")
  {}

  lemma LastHeadings()
    ensures IsHeading("## Residual risk / not proved") && IsHeading("## No material findings")
    ensures IsHeading("## Substantive review result")
  {
    hide IsHeading;
    RiskHeading();
    FindingsHeading();
    ResultHeading();
  }

  lemma RiskHeading()
    ensures IsHeading("## Residual risk / not proved")
  {}

  lemma FindingsHeading()
    ensures IsHeading("## No material findings")
  {}

  lemma ResultHeading()
    ensures IsHeading("## Substantive review result")
  {}

  lemma HeadingMeans(line: string)
    requires IsHeading(line)
    ensures MarkOf(line).Plain? && Strip(line) == line && IsSection(line) && line != "" && IsLine(line)
    ensures line[3] != 'S' ==> !IsResultHeading(line)
  {
    PlainStart(line);
    StripNothing(line);
    assert SkipBlanks(line, 0) == 0;
    assert line[0..2] == "##";
    assert SkipBlanks(line, 3) == 3 && SkipBlanks(line, 2) == 3;
    assert RESULT_TITLE[0] == 'S';
    assert OccursAt(line, RESULT_TITLE, 3) ==> line[3..3 + |RESULT_TITLE|][0] == line[3];
  }

  lemma TitleIsResult()
    ensures IsResultHeading("## Substantive review result")
  {
    hide IsHeading, IsResultHeading;
    LastHeadings();
    TitleFollows();
    HeadingWithTitle("## Substantive review result");
  }

  lemma TitleFollows()
    ensures "## Substantive review result"[3..] == RESULT_TITLE
  {}

  lemma HeadingWithTitle(line: string)
    requires IsHeading(line) && line[3..] == RESULT_TITLE
    ensures IsResultHeading(line)
  {
    hide MarkOf, Strip, IsSection, RESULT_TITLE, IsSpace, IsLine;
    HeadingMeans(line);
    assert SkipBlanks(line, 0) == 0;
    assert SkipBlanks(line, 3) == 3 && SkipBlanks(line, 2) == 3;
    assert 3 + |RESULT_TITLE| == |line|;
    assert line[3..3 + |RESULT_TITLE|] == line[3..];
    assert line[|line|..] == "";
  }

  lemma OtherTitles()
    ensures "## Review scope"[3] != 'S' && "## Evidence and falsifiers"[3] != 'S' && "## What this establishes"[3] != 'S'
    ensures "## Residual risk / not proved"[3] != 'S' && "## No material findings"[3] != 'S'
  {}

  lemma {:induction false} CapitalsRun(line: string, from: nat)
    requires from <= |line| && forall i :: from <= i < |line| ==> 'A' <= line[i] <= 'Z' || line[i] == '_'
    ensures CapitalsEnd(line, from) == |line|
    decreases |line| - from
  {
    if from < |line| {
      CapitalsRun(line, from + 1);
    }
  }

  /** A list item made of capitals. */
  predicate IsItem(line: string) {
    && |line| > 2 && (line[0] == '-' || line[0] == '*') && line[1] == ' '
    && forall i :: 2 <= i < |line| ==> 'A' <= line[i] <= 'Z' || line[i] == '_'
  }

  lemma DashItem()
    ensures IsItem(ITEM) && ITEM[2..] == MARKER_RESULT
  {}

  lemma ItemIsLine(line: string)
    requires IsItem(line)
    ensures IsLine(line)
  {
    forall i | 0 <= i < |line|
      ensures !IsBreak(line[i])
    {
      assert i >= 2 ==> 'A' <= line[i] <= 'Z' || line[i] == '_';
    }
  }

  lemma ItemMeans(reader: Reader, line: string)
    requires IsItem(line)
    ensures reader.ResultItem(line) == Some(line[2..]) && MarkOf(line).Plain? && !IsSection(line)
  {
    hide MarkOf;
    PlainStart(line);
    assert SkipBlanks(line, 0) == 0;
    assert SkipBlanks(line, 2) == 2;
    assert SkipBlanks(line, 1) == 2;
    CapitalsRun(line, 2);
    assert line[2..|line|] == line[2..];
    assert line[0..2][0] == line[0] != "##"[0];
  }

  lemma ItemDeclares(reader: Reader)
    ensures reader.ResultItem(ITEM) == Some(MARKER_RESULT) && MARKER_RESULT in RESULTS
    ensures MarkOf(ITEM).Plain? && !IsSection(ITEM) && IsLine(ITEM) && ITEM != "" && ITEM[0] == '-'
  {
    hide MarkOf, IsSection, IsLine, MARKER_RESULT, IsItem, Reader.ResultItem, RESULTS;
    DashItem();
    ItemMeans(reader, ITEM);
    ItemIsLine(ITEM);
    MarkerIsResult();
  }

  lemma MarkerIsResult()
    ensures MARKER_RESULT in RESULTS
  {
    assert RESULTS[0] == MARKER_RESULT;
  }

  lemma LinesConcat(a: string, b: string)
    requires IsLine(a) && IsLine(b)
    ensures IsLine(a + b)
  {}

  lemma HexIsLine(s: string)
    requires IsHex(s)
    ensures IsLine(s)
  {
    forall i | 0 <= i < |s|
      ensures !IsBreak(s[i])
    {
      assert '0' <= s[i] <= '9' || 'a' <= s[i] <= 'f';
    }
  }

  lemma OpeningIsLine()
    ensures IsLine(OPENING) && |OPENING| > 0 && OPENING[0] == '<'
  {}

  lemma MiddlesAreLines()
    ensures IsLine(BEFORE_BASE) && IsLine(CLOSING)
  {}

  lemma ResultPartsAreLines()
    ensures IsLine(BEFORE_RESULT) && IsLine(BEFORE_DIGEST)
  {}

  lemma MarkerResultIsLine()
    ensures IsLine(MARKER_RESULT)
  {}

  lemma CommentStarts(head: string)
    ensures OPENING <= MarkerComment(head) && MarkerComment(head)[0] == '<'
    ensures |head| == 40 ==> |OPENING| + 40 <= |MarkerComment(head)| && MarkerComment(head)[|OPENING|..|OPENING| + 40] == head
  {
    hide OPENING, BEFORE_BASE, BEFORE_RESULT, MARKER_RESULT, BEFORE_DIGEST, CLOSING, BASE, DIGEST, IsLine;
    OpeningIsLine();
  }

  /** The comment is a plain line, no list item and no section. */
  lemma CommentIsPlain(reader: Reader, head: string)
    requires IsOid(head)
    ensures var line := MarkerComment(head);
      && IsLine(line) && MarkOf(line).Plain? && line != "" && line[0] == '<'
      && !IsSection(line) && reader.ResultItem(line) == None
  {
    hide OPENING, BEFORE_BASE, BEFORE_RESULT, MARKER_RESULT, BEFORE_DIGEST, CLOSING, BASE, DIGEST, IsLine, MarkerComment, MarkOf, IsSection, Reader.ResultItem;
    CommentStarts(head);
    PlainStart(MarkerComment(head));
    NoItemNoSection(reader, MarkerComment(head));
    CommentIsLine(head);
  }

  lemma CommentIsLine(head: string)
    requires IsOid(head)
    ensures IsLine(MarkerComment(head))
  {
    hide OPENING, BEFORE_BASE, BEFORE_RESULT, MARKER_RESULT, BEFORE_DIGEST, CLOSING, BASE, DIGEST, IsLine, IsHex;
    OpeningIsLine();
    MiddlesAreLines();
    ResultPartsAreLines();
    MarkerResultIsLine();
    Names();
    HexIsLine(head);
    HexIsLine(BASE);
    HexIsLine(DIGEST);
    LinesConcat(OPENING, head);
    LinesConcat(OPENING + head, BEFORE_BASE);
    LinesConcat(OPENING + head + BEFORE_BASE, BASE);
    LinesConcat(OPENING + head + BEFORE_BASE + BASE, BEFORE_RESULT);
    var front := OPENING + head + BEFORE_BASE + BASE + BEFORE_RESULT;
    LinesConcat(front, MARKER_RESULT);
    LinesConcat(front + MARKER_RESULT, BEFORE_DIGEST);
    LinesConcat(front + MARKER_RESULT + BEFORE_DIGEST, DIGEST);
    LinesConcat(front + MARKER_RESULT + BEFORE_DIGEST + DIGEST, CLOSING);
  }

  lemma NoItemNoSection(reader: Reader, line: string)
    requires line != "" && line[0] == '<'
    ensures !IsSection(line) && reader.ResultItem(line) == None
  {
    assert SkipBlanks(line, 0) == 0;
    if |line| >= 2 {
      assert line[0..2][0] == line[0] != "##"[0];
    }
  }

  /** All lines of the review are plain lines, so nothing of it is fenced. */
  lemma ReviewIsPlain(head: string)
    requires IsOid(head)
    ensures var lines := ReviewLines(head);
      && SplitLines(ReviewText(head)) == lines && OutsideText(ReviewText(head)) == ReviewText(head)
      && Split(ReviewText(head), '\n') == lines
  {
    hide MarkOf, IsLine, IsHeading, SplitLines, Blocks, Split, Join, IsOid, IsSection, IsResultHeading, Strip, ITEM, MarkerComment;
    var lines := ReviewLines(head);
    AllPlain(head);
    SplitLinesOfJoin(lines);
    NoFencesNoBlocks(lines);
    NoFeeds(lines);
    SplitOfJoin(lines, '\n');
  }

  lemma NoFeeds(lines: seq<string>)
    requires AreLines(lines)
    ensures forall i :: 0 <= i < |lines| ==> '\n' !in lines[i]
  {}

  lemma AllPlain(head: string)
    requires IsOid(head)
    ensures var lines := ReviewLines(head);
      AreLines(lines) && lines[7] != "" && forall i :: 0 <= i < |lines| ==> MarkOf(lines[i]).Plain?
  {
    hide MarkOf, IsLine, IsHeading, IsOid, IsSection, IsResultHeading, Strip, ITEM, MarkerComment;
    FirstHeadings();
    LastHeadings();
    var lines := ReviewLines(head);
    ItemDeclares(Reader(body => [], c => false));
    CommentIsPlain(Reader(body => [], c => false), head);
    forall i | 0 <= i < |lines|
      ensures IsLine(lines[i]) && MarkOf(lines[i]).Plain?
    {
      if i < 6 {
        assert IsHeading(lines[i]);
        HeadingMeans(lines[i]);
      }
    }
  }

  lemma HeadingHeld(head: string, i: nat)
    requires IsOid(head) && i < 6 && IsHeading(ReviewLines(head)[i])
    ensures HasHeading(ReviewText(head), ReviewLines(head)[i])
  {
    hide IsHeading, SplitLines, OutsideText, IsOid, Strip, ReviewText, MarkOf, IsSection, IsResultHeading, ITEM, MarkerComment;
    ReviewIsPlain(head);
    HeadingMeans(ReviewLines(head)[i]);
  }

  lemma ReviewHasSections(head: string)
    requires IsOid(head)
    ensures HasSections(ReviewText(head))
  {
    hide IsHeading, HasHeading, IsOid, ReviewText, ITEM, MarkerComment;
    FirstHeadings();
    LastHeadings();
    HeadingHeld(head, 0);
    HeadingHeld(head, 1);
    HeadingHeld(head, 2);
    HeadingHeld(head, 3);
    HeadingHeld(head, 4);
    HeadingHeld(head, 5);
  }

  lemma OneResultHeading(head: string)
    requires IsOid(head)
    ensures ResultHeadings(ReviewLines(head), 0) == [5]
    ensures SectionAfter(ReviewLines(head), 5) == [ITEM, MarkerComment(head)]
  {
    hide IsLine, IsHeading, IsOid, IsSection, IsResultHeading, Strip, MarkOf, ITEM, MarkerComment;
    FirstHeadings();
    LastHeadings();
    OtherTitles();
    TitleIsResult();
    ItemDeclares(Reader(body => [], c => false));
    CommentIsPlain(Reader(body => [], c => false), head);
    var lines := ReviewLines(head);
    forall i | 0 <= i < 5
      ensures !IsResultHeading(lines[i])
    {
      assert IsHeading(lines[i]) && lines[i][3] != 'S';
      HeadingMeans(lines[i]);
    }
    NoSectionNoResult(lines[6]);
    NoSectionNoResult(lines[7]);
    HeadingsBefore(lines);
    assert NextSection(lines, 8) == 8;
    assert NextSection(lines, 7) == 8;
    assert NextSection(lines, 6) == 8;
    assert lines[6..8] == [ITEM, MarkerComment(head)];
  }

  lemma HeadingsBefore(lines: seq<string>)
    requires |lines| == 8 && IsResultHeading(lines[5])
    requires forall i :: 0 <= i < 8 && i != 5 ==> !IsResultHeading(lines[i])
    ensures ResultHeadings(lines, 0) == [5]
  {
    hide IsResultHeading;
    assert ResultHeadings(lines, 8) == [];
    assert ResultHeadings(lines, 7) == [];
    assert ResultHeadings(lines, 6) == [];
    assert ResultHeadings(lines, 5) == [5];
    assert ResultHeadings(lines, 4) == [5];
    assert ResultHeadings(lines, 3) == [5];
    assert ResultHeadings(lines, 2) == [5];
    assert ResultHeadings(lines, 1) == [5];
  }

  lemma NoSectionNoResult(line: string)
    requires !IsSection(line)
    ensures !IsResultHeading(line)
  {}

  lemma ReviewDeclares(reader: Reader, head: string)
    requires IsOid(head)
    ensures reader.DeclaredResult(ReviewText(head)) == Some(MARKER_RESULT)
  {
    hide IsOid, OutsideText, Split, Reader.ResultItem, ReviewText, ReviewLines, RESULTS, MARKER_RESULT, ResultHeadings,
      SectionAfter, ITEM, MarkerComment, MarkOf, IsSection, IsLine;
    ReviewIsPlain(head);
    OneResultHeading(head);
    ItemDeclares(reader);
    CommentIsPlain(reader, head);
    var comment := MarkerComment(head);
    assert [ITEM, comment][1..] == [comment] && [comment][1..] == [];
    assert reader.DeclaredIn([comment]) == [] + reader.DeclaredIn([]);
    assert reader.DeclaredIn([ITEM, comment]) == [MARKER_RESULT] + reader.DeclaredIn([comment]);
  }

  // ---------- what the markers say ----------

  /** The marker comments among the lines, decoded; the head is read from the comment. */
  function MarkersOf(lines: seq<string>): seq<Decoded> {
    if lines == [] then []
    else (if OPENING <= lines[0] then [DecodedLine(lines[0])] else []) + MarkersOf(lines[1..])
  }

  function DecodedLine(line: string): Decoded {
    if |line| < |OPENING| + 40 then NotJson
    else
      var head := line[|OPENING|..|OPENING| + 40];
      if line == MarkerComment(head) then Fields(Some(MARKER_RESULT), Some(1), Some(head), Some(BASE), Some(DIGEST))
      else NotJson
  }

  function TiedReader(): Reader {
    Reader((body: string) => MarkersOf(Split(body, '\n')), (c: char) => false)
  }

  /** All reviews come at one instant, and only the first head's subject is intact. */
  function TiedEnv(): Env {
    Env(TiedReader(), (at: string) => At(0), OnlySubject(Marker(1, FIRST_HEAD, BASE, DIGEST)))
  }

  function TiedReview(head: string): Review {
    Review("maintainer", User, Commented, ReviewText(head), head, "1970-01-01T00:00:00Z")
  }

  lemma NoMarkerLine(line: string)
    requires line == "" || line[0] != '<'
    ensures !(OPENING <= line)
  {
    OpeningIsLine();
  }

  lemma {:induction false} OnlyLastMarker(lines: seq<string>)
    requires lines != [] && OPENING <= lines[|lines| - 1]
    requires forall i :: 0 <= i < |lines| - 1 ==> !(OPENING <= lines[i])
    ensures MarkersOf(lines) == [DecodedLine(lines[|lines| - 1])]
  {
    hide DecodedLine, OPENING;
    if |lines| > 1 {
      OnlyLastMarker(lines[1..]);
    } else {
      assert MarkersOf(lines[1..]) == [];
    }
  }

  lemma MarkerLines(head: string)
    requires IsOid(head)
    ensures MarkersOf(ReviewLines(head)) == [DecodedLine(MarkerComment(head))]
  {
    hide IsHeading, IsOid, MarkersOf, DecodedLine, OPENING, MarkerComment, ITEM, MARKER_RESULT, IsSection, IsLine, MarkOf, Reader.ResultItem;
    FirstHeadings();
    LastHeadings();
    ItemDeclares(Reader(body => [], c => false));
    CommentStarts(head);
    var lines := ReviewLines(head);
    forall i | 0 <= i < 7
      ensures !(OPENING <= lines[i])
    {
      if i < 6 {
        assert IsHeading(lines[i]);
        HeadingStarts(lines[i]);
      }
      NoMarkerLine(lines[i]);
    }
    OnlyLastMarker(lines);
  }

  lemma CommentDecoded(head: string)
    requires IsOid(head)
    ensures DecodedLine(MarkerComment(head)) == Fields(Some(MARKER_RESULT), Some(1), Some(head), Some(BASE), Some(DIGEST))
  {
    hide OPENING, MarkerComment, MARKER_RESULT, BASE, DIGEST, IsHex;
    CommentStarts(head);
  }

  lemma ReviewMarkers(head: string)
    requires IsOid(head)
    ensures TiedReader().markers(ReviewText(head))
         == [Fields(Some(MARKER_RESULT), Some(1), Some(head), Some(BASE), Some(DIGEST))]
  {
    hide ReviewText, ReviewLines, Split, IsOid, MarkersOf, DecodedLine, MarkerComment, MARKER_RESULT, BASE, DIGEST;
    ReviewIsPlain(head);
    MarkerLines(head);
    CommentDecoded(head);
  }

  lemma HeadingStarts(line: string)
    requires IsHeading(line)
    ensures line != "" && line[0] == '#'
  {}

  lemma ReviewIsMarked(head: string)
    requires IsOid(head)
    ensures MarkerIn(TiedEnv(), 1, TiedReview(head)) == Some(Marker(1, head, BASE, DIGEST))
    ensures Identified(TiedReview(head))
  {
    hide HasSections, ReviewText, Reader.DeclaredResult, MARKER_RESULT, IsOid, IsDigest, FIRST_HEAD, SECOND_HEAD, BASE, DIGEST,
      MarkersOf, Split;
    ReviewHasSections(head);
    ReviewDeclares(TiedEnv().reader, head);
    ReviewMarkers(head);
    Names();
  }

  lemma Names()
    ensures IsOid(FIRST_HEAD) && IsOid(SECOND_HEAD) && IsOid(BASE) && IsDigest(DIGEST)
  {
    hide Hex;
  }

  /** A log of two reviews, each with its marker comment, whose verdict flips when the two are
    * listed the other way round. */
  lemma SwappedTieFlipsVerdict()
    ensures var a, b := TiedReview(FIRST_HEAD), TiedReview(SECOND_HEAD);
      && IsCurrent(Evaluate(TiedEnv(), 1, FIRST_HEAD, [a, b]))
      && !IsCurrent(Evaluate(TiedEnv(), 1, FIRST_HEAD, [b, a]))
  {
    hide Evaluate, MarkerIn, Identified, ReviewText, IsOid;
    Names();
    ReviewIsMarked(FIRST_HEAD);
    ReviewIsMarked(SECOND_HEAD);
    assert FIRST_HEAD[0] != SECOND_HEAD[0];
    TieFlipsVerdict(TiedEnv(), 1, TiedReview(FIRST_HEAD), TiedReview(SECOND_HEAD));
  }
}
