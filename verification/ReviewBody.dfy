/** What a review body declares, read outside its fenced blocks:
  * scripts/ci/check-pr-semantic-review-currentness.py, lines 27-55 and 274-347. */
module ReviewBody {
  import opened Wrappers
  import opened Text
  import opened PyText
  import opened Fences

  const MARKER_RESULT := "REVIEW_CURRENT"

  const RESULTS := ["REVIEW_CURRENT", "CHANGES_REQUIRED", "NOT_PROVEN", "BLOCKED_BY_PREREQUISITE",
                    "SUPERSEDED_OR_CLOSE"]

  const REQUIRED_SECTIONS := ["## Review scope", "## Evidence and falsifiers", "## What this establishes",
                              "## Residual risk / not proved", "## Substantive review result"]

  const RESULT_TITLE := "Substantive review result"

  /** A MARKER_RE match after JSON decoding; a field whose value is not a string, or
    * for pr equals no integer, is None. */
  datatype Decoded =
    | NotJson
    | OtherShape
    | Fields(result: Option<string>, pr: Option<int>, head: Option<string>, mergeBase: Option<string>,
             subjectSha256: Option<string>)

  datatype Marker = Marker(pr: int, head: string, mergeBase: string, subjectSha256: string)

  /** What the program reads through libraries: the decoded marker comments of a
    * body, and which characters beyond ASCII continue a word. */
  datatype Reader = Reader(markers: string -> seq<Decoded>, wideWord: char -> bool) {

    predicate IsWord(c: char) {
      'a' <= c <= 'z' || 'A' <= c <= 'Z' || '0' <= c <= '9' || c == '_' || (c >= '\U{80}' && wideWord(c))
    }

    /** The list item's leading run of capitals and underscores, as RESULT_ITEM_RE takes it. */
    function ResultItem(line: string): Option<string> {
      var i := SkipBlanks(line, 0);
      if i < |line| && (line[i] == '-' || line[i] == '*') then
        var from := SkipBlanks(line, i + 1);
        var to := CapitalsEnd(line, from);
        if from < to && (to < |line| ==> !IsWord(line[to])) then Some(line[from..to]) else None
      else None
    }

    /** The results named by the list items of the lines, in order. */
    function DeclaredIn(lines: seq<string>): (items: seq<string>)
      ensures forall r :: r in items ==> r in RESULTS
    {
      if lines == [] then []
      else
        var item := ResultItem(lines[0]);
        (if item.Some? && item.value in RESULTS then [item.value] else []) + DeclaredIn(lines[1..])
    }

    /** The one result the body declares in its one result section, if it does. */
    function DeclaredResult(body: string): (r: Option<string>)
      ensures r.Some? ==> r.value in RESULTS
    {
      var lines := Split(OutsideText(body), '\n');
      var headings := ResultHeadings(lines, 0);
      if |headings| != 1 then None
      else
        assert headings[0] in headings;
        var declared := DeclaredIn(SectionAfter(lines, headings[0]));
        if |declared| != 1 then None else Some(declared[0])
    }

    function ParseMarker(body: string, expectedPr: int, reviewCommit: string): (r: Option<Marker>)
      ensures r.Some? ==> HasSections(body) && DeclaredResult(body) == Some(MARKER_RESULT)
      ensures r.Some? ==> r.value.pr == expectedPr && r.value.head == reviewCommit
      ensures r.Some? ==> IsOid(r.value.head) && IsOid(r.value.mergeBase) && IsDigest(r.value.subjectSha256)
      ensures r.Some? <==> IsCurrentMarker(body, expectedPr, reviewCommit)
    {
      if !HasSections(body) then None
      else if DeclaredResult(body) != Some(MARKER_RESULT) then None
      else
        var found := markers(body);
        if |found| != 1 then None
        else
          match found[0]
          case NotJson => None
          case OtherShape => None
          case Fields(result, pr, head, mergeBase, digest) =>
            if result != Some(MARKER_RESULT) || pr != Some(expectedPr) then None
            else if head.None? || mergeBase.None? || digest.None? then None
            else if !IsOid(head.value) || !IsOid(mergeBase.value) then None
            else if !IsDigest(digest.value) then None
            else if head.value != reviewCommit then None
            else Some(Marker(expectedPr, head.value, mergeBase.value, digest.value))
    }

    /** The body carries the declaration, the sections and exactly one well-formed
      * marker, bound to this pull request and this review commit. */
    ghost predicate IsCurrentMarker(body: string, pr: int, commit: string) {
      HasSections(body) && DeclaredResult(body) == Some(MARKER_RESULT) && IsOid(commit) &&
      exists base, digest :: IsOid(base) && IsDigest(digest) &&
        markers(body) == [Fields(Some(MARKER_RESULT), Some(pr), Some(commit), Some(base), Some(digest))]
    }
  }

  function CapitalsEnd(line: string, from: nat): (i: nat)
    requires from <= |line|
    ensures from <= i <= |line|
    decreases |line| - from
  {
    if from < |line| && ('A' <= line[from] <= 'Z' || line[from] == '_') then CapitalsEnd(line, from + 1) else from
  }

  /** The line starts a section: blanks, two number signs, a blank. */
  predicate IsSection(line: string) {
    var i := SkipBlanks(line, 0);
    OccursAt(line, "##", i) && i + 2 < |line| && IsBlank(line[i + 2])
  }

  predicate IsResultHeading(line: string) {
    IsSection(line) &&
    var i := SkipBlanks(line, SkipBlanks(line, 0) + 2);
    OccursAt(line, RESULT_TITLE, i) && AllBlank(line[i + |RESULT_TITLE|..])
  }

  function ResultHeadings(lines: seq<string>, from: nat): (found: seq<nat>)
    requires from <= |lines|
    ensures forall i :: i in found <==> from <= i < |lines| && IsResultHeading(lines[i])
    decreases |lines| - from
  {
    if from == |lines| then []
    else (if IsResultHeading(lines[from]) then [from] else []) + ResultHeadings(lines, from + 1)
  }

  function NextSection(lines: seq<string>, from: nat): (to: nat)
    requires from <= |lines|
    ensures from <= to <= |lines| && (to < |lines| ==> IsSection(lines[to]))
    ensures forall i :: from <= i < to ==> !IsSection(lines[i])
    decreases |lines| - from
  {
    if from == |lines| || IsSection(lines[from]) then from else NextSection(lines, from + 1)
  }

  /** The lines between a heading and the next section. */
  function SectionAfter(lines: seq<string>, heading: nat): seq<string>
    requires heading < |lines|
  {
    lines[heading + 1..NextSection(lines, heading + 1)]
  }

  predicate HasHeading(body: string, heading: string) {
    exists line :: line in SplitLines(OutsideText(body)) && Strip(line) == heading
  }

  predicate HasSections(body: string) {
    (forall i :: 0 <= i < |REQUIRED_SECTIONS| ==> HasHeading(body, REQUIRED_SECTIONS[i])) &&
    (HasHeading(body, "## Findings") || HasHeading(body, "## No material findings"))
  }

  predicate IsHex(s: string) {
    forall i :: 0 <= i < |s| ==> '0' <= s[i] <= '9' || 'a' <= s[i] <= 'f'
  }

  predicate IsOid(s: string) {
    |s| == 40 && IsHex(s)
  }

  predicate IsDigest(s: string) {
    |s| == 64 && IsHex(s)
  }

  lemma ProseLines(body: string)
    requires SplitLines(body) != []
    ensures Split(OutsideText(body), '\n') == Blanked(SplitLines(body))
  {
    var out := Blanked(SplitLines(body));
    assert AreLines(out);
    SplitOfJoin(out, '\n');
  }

  lemma OneHeading(prose: seq<string>) returns (at: nat)
    requires |ResultHeadings(prose, 0)| == 1
    ensures ResultHeadings(prose, 0) == [at]
    ensures at < |prose| && forall i :: 0 <= i < |prose| ==> (IsResultHeading(prose[i]) <==> i == at)
  {
    hide IsResultHeading;
    var headings := ResultHeadings(prose, 0);
    at := headings[0];
    assert headings == [at] && at in headings;
    forall i: nat | i < |prose|
      ensures IsResultHeading(prose[i]) <==> i == at
    {
      assert i in headings <==> i == at;
    }
  }

  lemma DeclaredHasOneHeading(reader: Reader, body: string)
    requires reader.DeclaredResult(body).Some?
    ensures |ResultHeadings(Split(OutsideText(body), '\n'), 0)| == 1
    ensures SplitLines(body) != []
  {
    hide IsResultHeading, Blocks, Split, SplitLines, OutsideText, Reader.DeclaredIn, SectionAfter, ResultHeadings;
    if SplitLines(body) == [] {
      NoLinesNoHeading(body);
      NoHeadings();
      assert false;
    }
  }

  lemma NoHeadings()
    ensures ResultHeadings([""], 0) == []
  {
    EmptyLineIsNoHeading();
    assert ResultHeadings([""], 1) == [];
  }

  lemma NoLinesNoHeading(body: string)
    requires SplitLines(body) == []
    ensures Split(OutsideText(body), '\n') == [""]
  {}

  /** A declaration comes from the only result heading outside the fenced blocks and is the
    * only result listed under it, fenced lines not counting: quoting other results inside
    * fences neither makes nor spoils one. */
  lemma DeclarationIsUnfenced(reader: Reader, body: string) returns (at: nat)
    requires reader.DeclaredResult(body).Some?
    ensures at < |SplitLines(body)|
    ensures forall i :: 0 <= i < |SplitLines(body)| ==>
      (IsResultHeading(SplitLines(body)[i]) && !InBlock(Blocks(SplitLines(body)), i) <==> i == at)
    ensures reader.DeclaredIn(SectionAfter(Blanked(SplitLines(body)), at)) == [reader.DeclaredResult(body).value]
  {
    hide IsResultHeading, Blocks, Split, SplitLines, OutsideText, Reader.DeclaredResult, ResultHeadings, InBlock,
      SectionAfter, Reader.DeclaredIn;
    DeclaredHasOneHeading(reader, body);
    ProseLines(body);
    DeclaredUnder(reader, body);
    var lines, prose := SplitLines(body), Split(OutsideText(body), '\n');
    at := OneHeading(prose);
    EmptyLineIsNoHeading();
    forall i: nat | i < |lines|
      ensures IsResultHeading(lines[i]) && !InBlock(Blocks(lines), i) <==> i == at
    {
      assert prose[i] == if InBlock(Blocks(lines), i) then "" else lines[i];
    }
  }

  lemma DeclaredUnder(reader: Reader, body: string)
    requires reader.DeclaredResult(body).Some?
    ensures var prose := Split(OutsideText(body), '\n');
      var headings := ResultHeadings(prose, 0);
      && |headings| == 1 && headings[0] < |prose|
      && reader.DeclaredIn(SectionAfter(prose, headings[0])) == [reader.DeclaredResult(body).value]
  {
    hide IsResultHeading, Split, OutsideText, SectionAfter, Reader.DeclaredIn;
    var prose := Split(OutsideText(body), '\n');
    var at := OneHeading(prose);
  }

  lemma EmptyLineIsNoHeading()
    ensures !IsResultHeading("")
  {}
}
