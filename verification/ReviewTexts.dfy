/** What a review's text makes of it, told on its lines: which bodies are cumulative, what they
  * declare, and what a later one does to an earlier marker.
  * scripts/ci/check-pr-semantic-review-currentness.py, lines 27-55, 228-415 and 520-599. */
module ReviewTexts {
  import opened Wrappers
  import opened Text
  import opened PyText
  import opened Fences
  import opened ReviewBody
  import opened ReviewGate

  // ---------- lines ----------

  /** Blanks, two number signs, and a blank. */
  ghost predicate IsSectionText(line: string) {
    exists lead, c, rest :: IsSectionLine(line, lead, c, rest)
  }

  predicate IsSectionLine(line: string, lead: string, c: char, rest: string) {
    AllBlank(lead) && IsBlank(c) && line == lead + "##" + [c] + rest
  }

  /** Blanks, two number signs, blanks, the title of the result section, blanks. */
  ghost predicate IsResultText(line: string) {
    exists lead, gap, trail :: IsResultLine(line, lead, gap, trail)
  }

  predicate IsResultLine(line: string, lead: string, gap: string, trail: string) {
    && AllBlank(lead) && AllBlank(gap) && AllBlank(trail) && gap != ""
    && line == lead + "##" + gap + "Substantive review result" + trail
  }

  predicate IsCapitals(s: string) {
    s != "" && forall i :: 0 <= i < |s| ==> 'A' <= s[i] <= 'Z' || s[i] == '_'
  }

  /** Blanks, a bullet, blanks, and a run of capitals x at whose end no word goes on. */
  ghost predicate IsItemText(reader: Reader, line: string, x: string) {
    exists lead, bullet, gap, rest :: IsItemLine(reader, line, lead, bullet, gap, x, rest)
  }

  predicate IsItemLine(reader: Reader, line: string, lead: string, bullet: char, gap: string, x: string, rest: string) {
    && AllBlank(lead) && (bullet == '-' || bullet == '*') && AllBlank(gap) && IsCapitals(x)
    && (rest == "" || !reader.IsWord(rest[0])) && line == lead + [bullet] + gap + x + rest
  }

  lemma {:induction false} BlanksSkipped(line: string, from: nat, to: nat)
    requires from <= to <= |line| && (forall i :: from <= i < to ==> IsBlank(line[i])) && (to < |line| ==> !IsBlank(line[to]))
    ensures SkipBlanks(line, from) == to
    decreases |line| - from
  {
    if from < to {
      BlanksSkipped(line, from + 1, to);
    }
  }

  lemma BlankSlice(line: string, from: nat, to: nat)
    requires from <= to <= |line|
    ensures AllBlank(line[from..to]) <==> forall i :: from <= i < to ==> IsBlank(line[i])
  {
    hide IsBlank;
    var s := line[from..to];
    assert forall i :: from <= i < to ==> line[i] == s[i - from];
  }

  lemma SectionMeans(line: string)
    ensures IsSection(line) <==> IsSectionText(line)
  {
    hide IsSectionLine, IsSection;
    if IsSection(line) {
      SectionTaken(line);
    }
    if IsSectionText(line) {
      var lead, c, rest :| IsSectionLine(line, lead, c, rest);
      SectionParts(line, lead, c, rest);
    }
  }

  lemma SectionTaken(line: string)
    requires IsSection(line)
    ensures IsSectionText(line)
  {
    hide IsBlank, AllBlank, SkipBlanks;
    var i := SkipBlanks(line, 0);
    Cut(line, i, i + 2, i + 3, i + 3);
    assert line[0..i] == line[..i] && line[i + 2..i + 3] == [line[i + 2]] && line[i + 3..i + 3] == [];
    assert IsSectionLine(line, line[..i], line[i + 2], line[i + 3..]);
  }

  lemma SectionParts(line: string, lead: string, c: char, rest: string)
    requires IsSectionLine(line, lead, c, rest)
    ensures IsSection(line)
  {
    hide SkipBlanks;
    SignIsVisible();
    var k := |lead|;
    assert forall i :: 0 <= i < k ==> line[i] == lead[i];
    assert line[k..k + 2] == "##" && line[k] == "##"[0] && line[k + 2] == c;
    BlanksSkipped(line, 0, k);
  }

  lemma Cut(line: string, a: nat, b: nat, c: nat, d: nat)
    requires a <= b <= c <= d <= |line|
    ensures line == line[..a] + line[a..b] + line[b..c] + line[c..d] + line[d..]
  {}

  lemma SignIsVisible()
    ensures !IsBlank("##"[0]) && !IsBlank(RESULT_TITLE[0]) && |RESULT_TITLE| > 0
  {}

  lemma TitleIs()
    ensures RESULT_TITLE == "Substantive review result"
  {}

  lemma ResultMeans(line: string)
    ensures IsResultHeading(line) <==> IsResultText(line)
  {
    hide IsResultHeading, AllBlank;
    TitleIs();
    if IsResultHeading(line) {
      ResultTaken(line);
    }
    if IsResultText(line) {
      var lead, gap, trail :| IsResultLine(line, lead, gap, trail);
      ResultParts(line, lead, gap, trail);
    }
  }

  lemma ResultTaken(line: string)
    requires IsResultHeading(line)
    ensures IsResultText(line)
  {
    hide IsBlank, RESULT_TITLE, AllBlank;
    TitleIs();
    var i := SkipBlanks(line, 0);
    var j := SkipBlanks(line, i + 2);
    var t := j + |RESULT_TITLE|;
    Cut(line, i, i + 2, j, t);
    assert line[0..i] == line[..i];
    BlankBegins(line, i + 2, j);
    assert IsResultLine(line, line[..i], line[i + 2..j], line[t..]);
  }

  lemma BlankBegins(line: string, from: nat, to: nat)
    requires from < |line| && IsBlank(line[from]) && from <= to <= |line| && (to < |line| ==> !IsBlank(line[to]))
    ensures line[from..to] != ""
  {}

  lemma ResultParts(line: string, lead: string, gap: string, trail: string)
    requires AllBlank(lead) && AllBlank(gap) && AllBlank(trail) && gap != ""
    requires line == lead + "##" + gap + RESULT_TITLE + trail
    ensures IsResultHeading(line)
  {
    hide IsBlank, RESULT_TITLE, SkipBlanks, AllBlank;
    SignIsVisible();
    var k, j := |lead|, |lead| + 2 + |gap|;
    ResultPlaces(line, lead, gap, RESULT_TITLE, trail);
    BlanksSkipped(line, 0, k);
    BlanksSkipped(line, k + 2, j);
  }

  /** Where the parts of a result heading stand. */
  lemma ResultPlaces(line: string, lead: string, gap: string, title: string, trail: string)
    requires line == lead + "##" + gap + title + trail && AllBlank(lead) && AllBlank(gap) && gap != "" && title != ""
    requires !IsBlank(title[0]) && !IsBlank("##"[0])
    ensures var k, j := |lead|, |lead| + 2 + |gap|;
      && j + |title| <= |line| && (forall i :: 0 <= i < k ==> IsBlank(line[i])) && !IsBlank(line[k])
      && line[k..k + 2] == "##" && k + 2 < |line| && IsBlank(line[k + 2])
      && (forall i :: k + 2 <= i < j ==> IsBlank(line[i])) && !IsBlank(line[j])
      && line[j..j + |title|] == title && line[j + |title|..] == trail
  {
    var k, j := |lead|, |lead| + 2 + |gap|;
    assert forall i :: 0 <= i < k ==> line[i] == lead[i];
    assert forall i :: k + 2 <= i < j ==> line[i] == gap[i - k - 2];
    assert line[k] == "##"[0] && line[j] == title[0];
  }

  lemma {:induction false} CapitalsAre(line: string, from: nat, to: nat)
    requires from <= to <= |line| && (forall i :: from <= i < to ==> 'A' <= line[i] <= 'Z' || line[i] == '_')
    requires to < |line| ==> !('A' <= line[to] <= 'Z' || line[to] == '_')
    ensures CapitalsEnd(line, from) == to
    decreases |line| - from
  {
    if from < to {
      CapitalsAre(line, from + 1, to);
    }
  }

  lemma {:induction false} CapitalsUpTo(line: string, from: nat)
    requires from <= |line|
    ensures forall i :: from <= i < CapitalsEnd(line, from) ==> 'A' <= line[i] <= 'Z' || line[i] == '_'
    decreases |line| - from
  {
    if CapitalsEnd(line, from) > from {
      CapitalsUpTo(line, from + 1);
    }
  }

  lemma ItemMeans(reader: Reader, line: string, x: string)
    ensures reader.ResultItem(line) == Some(x) <==> IsItemText(reader, line, x)
  {
    hide IsItemLine, Reader.ResultItem;
    if reader.ResultItem(line) == Some(x) {
      ItemTaken(reader, line, x);
    }
    if IsItemText(reader, line, x) {
      var lead, bullet, gap, rest :| IsItemLine(reader, line, lead, bullet, gap, x, rest);
      ItemParts(reader, line, lead, bullet, gap, x, rest);
    }
  }

  lemma ItemTaken(reader: Reader, line: string, x: string)
    requires reader.ResultItem(line) == Some(x)
    ensures IsItemText(reader, line, x)
  {
    hide IsBlank, AllBlank, Reader.IsWord, IsCapitals, SkipBlanks, CapitalsEnd;
    var i := SkipBlanks(line, 0);
    var from := SkipBlanks(line, i + 1);
    var to := CapitalsEnd(line, from);
    CapitalsTaken(line, from);
    Cut(line, i, i + 1, from, to);
    assert line[0..i] == line[..i] && line[i..i + 1] == [line[i]];
    FirstOf(line, to);
    assert IsItemLine(reader, line, line[..i], line[i], line[i + 1..from], x, line[to..]);
  }

  lemma FirstOf(line: string, to: nat)
    requires to <= |line|
    ensures to < |line| ==> line[to..] != "" && line[to..][0] == line[to]
    ensures to == |line| ==> line[to..] == ""
  {}

  lemma CapitalsTaken(line: string, from: nat)
    requires from <= |line| && from < CapitalsEnd(line, from)
    ensures IsCapitals(line[from..CapitalsEnd(line, from)])
  {
    hide CapitalsEnd;
    CapitalsUpTo(line, from);
  }

  lemma ItemParts(reader: Reader, line: string, lead: string, bullet: char, gap: string, x: string, rest: string)
    requires IsItemLine(reader, line, lead, bullet, gap, x, rest)
    ensures reader.ResultItem(line) == Some(x)
  {
    hide Reader.IsWord, SkipBlanks, CapitalsEnd;
    var k, from, to := |lead|, |lead| + 1 + |gap|, |lead| + 1 + |gap| + |x|;
    ItemPlaces(line, lead, bullet, gap, x, rest);
    BlanksSkipped(line, 0, k);
    BlanksSkipped(line, k + 1, from);
    if to < |line| {
      WordsGoOn(reader, line[to]);
    }
    CapitalsAre(line, from, to);
  }

  lemma WordsGoOn(reader: Reader, c: char)
    requires !reader.IsWord(c)
    ensures !('A' <= c <= 'Z' || c == '_')
  {}

  /** Where the parts of an item line stand. */
  lemma ItemPlaces(line: string, lead: string, bullet: char, gap: string, x: string, rest: string)
    requires line == lead + [bullet] + gap + x + rest && AllBlank(lead) && AllBlank(gap) && IsCapitals(x)
    requires bullet == '-' || bullet == '*'
    ensures var k, from, to := |lead|, |lead| + 1 + |gap|, |lead| + 1 + |gap| + |x|;
      && to <= |line| && (forall i :: 0 <= i < k ==> IsBlank(line[i])) && line[k] == bullet && !IsBlank(line[k])
      && (forall i :: k < i < from ==> IsBlank(line[i])) && !IsBlank(line[from]) && line[from..to] == x
      && (forall i :: from <= i < to ==> 'A' <= line[i] <= 'Z' || line[i] == '_')
      && (to < |line| ==> rest != "" && line[to] == rest[0])
  {
    var k, from, to := |lead|, |lead| + 1 + |gap|, |lead| + 1 + |gap| + |x|;
    assert forall i :: 0 <= i < k ==> line[i] == lead[i];
    assert forall i :: k < i < from ==> line[i] == gap[i - k - 1];
    assert forall i :: from <= i < to ==> line[i] == x[i - from];
  }

  lemma ResultsAre(x: string)
    ensures x in RESULTS <==> x == "REVIEW_CURRENT" || x == "CHANGES_REQUIRED" || x == "NOT_PROVEN"
                              || x == "BLOCKED_BY_PREREQUISITE" || x == "SUPERSEDED_OR_CLOSE"
  {}

  // ---------- the declaration ----------

  /** The body's lines with the fenced ones emptied. */
  function Prose(body: string): (lines: seq<string>)
    ensures |lines| == |SplitLines(body)|
  {
    Blanked(SplitLines(body))
  }

  /** Line i stands in the section that the heading at `at` opens. */
  ghost predicate IsUnder(lines: seq<string>, at: nat, i: nat) {
    at < i < |lines| && forall j :: at < j <= i ==> !IsSectionText(lines[j])
  }

  ghost predicate Names(reader: Reader, line: string, x: string) {
    IsItemText(reader, line, x) && x in RESULTS
  }

  /** There is one result heading, at `at`, and in its section one item, at j, that names a
    * result, which is x. */
  ghost predicate DeclaresAt(reader: Reader, lines: seq<string>, x: string, at: nat, j: nat) {
    IsTheHeading(lines, at) && IsOnlyUnder(reader, lines, at, x, j)
  }

  ghost predicate IsTheHeading(lines: seq<string>, at: nat) {
    at < |lines| && forall i :: 0 <= i < |lines| ==> (IsResultText(lines[i]) <==> i == at)
  }

  ghost predicate IsOnlyUnder(reader: Reader, lines: seq<string>, at: nat, x: string, j: nat) {
    && IsUnder(lines, at, j) && Names(reader, lines[j], x)
    && forall i: nat, y :: IsUnder(lines, at, i) && Names(reader, lines[i], y) ==> i == j
  }

  lemma {:induction false} OneDeclared(reader: Reader, lines: seq<string>, x: string)
    ensures reader.DeclaredIn(lines) == [x] <==> OnlyNamed(reader, lines, x)
  {
    hide Names, Reader.ResultItem, RESULTS;
    if lines != [] {
      OneDeclared(reader, lines[1..], x);
      NoneDeclared(reader, lines[1..]);
      NamedOrNot(reader, lines[0]);
      SameTail(reader, lines, x);
      var item, rest := reader.ResultItem(lines[0]), reader.DeclaredIn(lines[1..]);
      if item.Some? && item.value in RESULTS {
        assert Names(reader, lines[0], item.value);
        Leads(item.value, rest, x);
      } else {
        assert reader.DeclaredIn(lines) == [] + rest == rest;
      }
    } else {
      assert reader.DeclaredIn(lines) == [];
    }
  }

  lemma Leads(y: string, rest: seq<string>, x: string)
    ensures [y] + rest == [x] <==> y == x && rest == []
  {
    assert ([y] + rest)[0] == y && |[y] + rest| == 1 + |rest|;
  }

  /** What the first line is to the list of declared results. */
  lemma NamedOrNot(reader: Reader, line: string)
    ensures forall y :: Names(reader, line, y) <==> reader.ResultItem(line) == Some(y) && y in RESULTS
  {
    hide Reader.ResultItem, RESULTS, IsItemText;
    forall y
      ensures Names(reader, line, y) <==> reader.ResultItem(line) == Some(y) && y in RESULTS
    {
      ItemMeans(reader, line, y);
    }
  }

  lemma {:induction false} NoneDeclared(reader: Reader, lines: seq<string>)
    ensures reader.DeclaredIn(lines) == [] <==> forall i: nat, y :: i < |lines| ==> !Names(reader, lines[i], y)
  {
    hide Names, Reader.ResultItem, RESULTS;
    if lines != [] {
      NoneDeclared(reader, lines[1..]);
      NamedOrNot(reader, lines[0]);
      assert forall i :: 0 < i < |lines| ==> lines[i] == lines[1..][i - 1];
      assert forall i :: 0 <= i < |lines| - 1 ==> lines[1..][i] == lines[i + 1];
    }
  }

  /** Exactly one line of the whole names x: the first, or one of the tail. */
  lemma SameTail(reader: Reader, lines: seq<string>, x: string)
    requires lines != []
    ensures OnlyNamed(reader, lines, x) <==>
      || (Names(reader, lines[0], x) && forall i: nat, y :: i < |lines[1..]| ==> !Names(reader, lines[1..][i], y))
      || ((forall y :: !Names(reader, lines[0], y)) && OnlyNamed(reader, lines[1..], x))
  {
    hide Names;
    var rest := lines[1..];
    assert forall i :: 0 < i < |lines| ==> lines[i] == rest[i - 1];
    assert forall i :: 0 <= i < |rest| ==> rest[i] == lines[i + 1];
    if OnlyNamed(reader, lines, x) {
      var j: nat :| IsOnly(reader, lines, x, j);
      if j > 0 {
        assert IsOnly(reader, rest, x, j - 1);
      }
    }
    if Names(reader, lines[0], x) && forall i: nat, y :: i < |rest| ==> !Names(reader, rest[i], y) {
      assert IsOnly(reader, lines, x, 0);
    }
    if (forall y :: !Names(reader, lines[0], y)) && OnlyNamed(reader, rest, x) {
      var j: nat :| IsOnly(reader, rest, x, j);
      assert IsOnly(reader, lines, x, j + 1);
    }
  }

  ghost predicate IsOnly(reader: Reader, lines: seq<string>, x: string, j: nat) {
    j < |lines| && Names(reader, lines[j], x) && forall i: nat, y :: i < |lines| && Names(reader, lines[i], y) ==> i == j
  }

  ghost predicate OnlyNamed(reader: Reader, lines: seq<string>, x: string) {
    exists j: nat :: IsOnly(reader, lines, x, j)
  }

  lemma UnderMeans(lines: seq<string>, at: nat, i: nat)
    requires at < |lines|
    ensures IsUnder(lines, at, i) <==> at < i < NextSection(lines, at + 1)
  {
    hide IsSection, IsSectionText;
    forall j | 0 <= j < |lines|
      ensures IsSectionText(lines[j]) <==> IsSection(lines[j])
    {
      SectionMeans(lines[j]);
    }
  }

  lemma SectionNames(reader: Reader, lines: seq<string>, at: nat, x: string)
    requires at < |lines|
    ensures OnlyNamed(reader, SectionAfter(lines, at), x) <==> exists j: nat :: IsOnlyUnder(reader, lines, at, x, j)
  {
    hide Names, IsUnder, NextSection;
    var to := NextSection(lines, at + 1);
    var section := lines[at + 1..to];
    forall i: nat
      ensures IsUnder(lines, at, i) <==> at < i < to
    {
      UnderMeans(lines, at, i);
    }
    assert forall i :: at < i < to ==> lines[i] == section[i - at - 1];
    assert forall i :: 0 <= i < |section| ==> section[i] == lines[i + at + 1];
    if OnlyNamed(reader, section, x) {
      var j: nat :| IsOnly(reader, section, x, j);
      forall i: nat, y | IsUnder(lines, at, i) && Names(reader, lines[i], y)
        ensures i == j + at + 1
      {
        assert Names(reader, section[i - at - 1], y);
      }
      assert IsOnlyUnder(reader, lines, at, x, j + at + 1);
    }
    if j: nat :| IsOnlyUnder(reader, lines, at, x, j) {
      assert IsOnly(reader, section, x, j - at - 1);
    }
  }

  /** What a body declares, on its unfenced lines: exactly x, if there is one result heading and
    * in its section, up to the next heading of its level, one item that names a result, x. */
  lemma DeclaresExactlyWhen(reader: Reader, body: string, x: string)
    ensures reader.DeclaredResult(body) == Some(x) <==> exists at: nat, j: nat :: DeclaresAt(reader, Prose(body), x, at, j)
  {
    hide Reader.DeclaredIn, SectionAfter, Split, OutsideText, SplitLines, Blanked, Names, IsUnder, ResultHeadings, IsResultText,
      OnlyNamed, IsOnlyUnder, Reader.DeclaredResult;
    var lines := Prose(body);
    NoneListed(reader, body);
    if SplitLines(body) == [] {
      NoLinesNoHeading(body);
      NoHeadings();
    } else {
      ProseLines(body);
      HeadingsMean(lines);
      if |ResultHeadings(lines, 0)| == 1 {
        var at := OneHeading(lines);
        OneDeclared(reader, SectionAfter(lines, at), x);
        SectionNames(reader, lines, at, x);
        Reads(reader, body, lines, at, x);
        assert forall i: nat :: IsTheHeading(lines, i) <==> i == at;
        AtTheHeading(reader, lines, at, x);
      }
    }
  }

  lemma AtTheHeading(reader: Reader, lines: seq<string>, at: nat, x: string)
    requires forall i: nat :: IsTheHeading(lines, i) <==> i == at
    ensures (exists i: nat, j: nat :: DeclaresAt(reader, lines, x, i, j)) <==>
      exists j: nat :: IsOnlyUnder(reader, lines, at, x, j)
  {
    hide IsTheHeading, IsOnlyUnder;
    if j: nat :| IsOnlyUnder(reader, lines, at, x, j) {
      assert DeclaresAt(reader, lines, x, at, j);
    }
  }

  lemma NoneListed(reader: Reader, body: string)
    ensures reader.DeclaredResult(body).Some? ==> |ResultHeadings(Split(OutsideText(body), '\n'), 0)| == 1
  {
    hide Reader.DeclaredIn, SectionAfter, Split, OutsideText, ResultHeadings;
  }

  lemma Reads(reader: Reader, body: string, lines: seq<string>, at: nat, x: string)
    requires lines == Split(OutsideText(body), '\n') && ResultHeadings(lines, 0) == [at] && at < |lines|
    ensures reader.DeclaredResult(body) == Some(x) <==> reader.DeclaredIn(SectionAfter(lines, at)) == [x]
  {
    hide Reader.DeclaredIn, SectionAfter, Split, OutsideText, ResultHeadings;
    var declared := reader.DeclaredIn(SectionAfter(lines, at));
    assert |declared| == 1 ==> declared == [declared[0]];
  }

  /** One result heading is listed exactly when one line is a result heading. */
  lemma HeadingsMean(lines: seq<string>)
    ensures forall at: nat :: ResultHeadings(lines, 0) == [at] <==> IsTheHeading(lines, at)
    ensures forall i :: 0 <= i < |lines| ==> (IsResultText(lines[i]) <==> IsResultHeading(lines[i]))
    ensures |ResultHeadings(lines, 0)| == 1 <==> exists at: nat :: ResultHeadings(lines, 0) == [at]
  {
    hide IsResultHeading, IsResultText;
    forall i | 0 <= i < |lines|
      ensures IsResultText(lines[i]) <==> IsResultHeading(lines[i])
    {
      ResultMeans(lines[i]);
    }
    var found := ResultHeadings(lines, 0);
    assert |found| == 1 ==> found == [found[0]];
    forall at: nat
      ensures found == [at] <==> IsTheHeading(lines, at)
    {
      if found == [at] {
        assert at in found;
        assert forall i :: i in found <==> i == at;
      }
      if IsTheHeading(lines, at) {
        OneListed(lines, 0, at);
      }
    }
  }

  lemma {:induction false} OneListed(lines: seq<string>, from: nat, at: nat)
    requires from <= |lines| && at < |lines|
    requires forall i :: from <= i < |lines| ==> (IsResultHeading(lines[i]) <==> i == at)
    ensures ResultHeadings(lines, from) == if from <= at then [at] else []
    decreases |lines| - from
  {
    hide IsResultHeading;
    if from < |lines| {
      OneListed(lines, from + 1, at);
    }
  }

  // ---------- cumulative bodies ----------

  /** An unfenced line of the body is the heading, but for white space at its ends. */
  ghost predicate Shows(body: string, heading: string) {
    exists i :: 0 <= i < |Prose(body)| && Strip(Prose(body)[i]) == heading
  }

  ghost predicate IsCumulativeText(body: string) {
    && Shows(body, "## Review scope") && Shows(body, "## Evidence and falsifiers") && Shows(body, "## What this establishes")
    && Shows(body, "## Residual risk / not proved") && Shows(body, "## Substantive review result")
    && (Shows(body, "## Findings") || Shows(body, "## No material findings"))
  }

  lemma HeadingShows(body: string, heading: string)
    requires heading != ""
    ensures HasHeading(body, heading) <==> Shows(body, heading)
  {
    hide SplitLines, OutsideText, Blanked, IsSpace;
    OutsideLines(body);
    var lines, kept := Prose(body), WithoutFinalEmpty(Prose(body));
    assert Strip("") == "" by {
      assert StripLeft("") == "" && StripRight("") == "";
    }
    if Shows(body, heading) {
      var i :| 0 <= i < |lines| && Strip(lines[i]) == heading;
      assert lines[i] != "";
      assert i < |kept| && kept[i] == lines[i];
    }
    if HasHeading(body, heading) {
      var line :| line in kept && Strip(line) == heading;
      var i :| 0 <= i < |kept| && kept[i] == line;
      assert lines[i] == line;
    }
  }

  lemma RequiredAre()
    ensures |REQUIRED_SECTIONS| == 5 && REQUIRED_SECTIONS[0] == "## Review scope"
    ensures REQUIRED_SECTIONS[1] == "## Evidence and falsifiers" && REQUIRED_SECTIONS[2] == "## What this establishes"
    ensures REQUIRED_SECTIONS[3] == "## Residual risk / not proved" && REQUIRED_SECTIONS[4] == "## Substantive review result"
  {}

  /** A body is cumulative exactly when its unfenced lines show the five headings and one of the
    * two about findings. */
  lemma CumulativeMeans(body: string)
    ensures HasSections(body) <==> IsCumulativeText(body)
  {
    hide HasHeading, Shows, REQUIRED_SECTIONS;
    RequiredAre();
    HeadingShows(body, "## Review scope");
    HeadingShows(body, "## Evidence and falsifiers");
    HeadingShows(body, "## What this establishes");
    HeadingShows(body, "## Residual risk / not proved");
    HeadingShows(body, "## Substantive review result");
    HeadingShows(body, "## Findings");
    HeadingShows(body, "## No material findings");
  }

  // ---------- later reviews ----------

  ghost predicate Declares(reader: Reader, body: string, x: string) {
    exists at: nat, j: nat :: DeclaresAt(reader, Prose(body), x, at, j)
  }

  /** Published or in an unknown state, and not by a bot. */
  predicate IsHeard(r: Review) {
    !r.account.Bot? && !r.state.Dismissed? && !r.state.Pending?
  }

  predicate IsHexText(s: string, n: nat) {
    |s| == n && forall i :: 0 <= i < n ==> s[i] in "0123456789abcdef"
  }

  /** The review has an author with an account, a published state and a commit. */
  predicate HasIdentity(r: Review) {
    && r.login != "" && r.account.User? && (r.state.Commented? || r.state.Approved? || r.state.ChangesRequested?)
    && IsHexText(r.commitOid, 40)
  }

  /** At or after the instant, a cumulative review that does not declare REVIEW_CURRENT. */
  ghost predicate Speaks(env: Env, r: Review, instant: int) {
    && IsHeard(r) && IsCumulativeText(r.body)
    && env.clock(r.submittedAt).At? && env.clock(r.submittedAt).instant >= instant
    && !Declares(env.reader, r.body, "REVIEW_CURRENT")
  }

  /** A cumulative review without a time, or one at or after the instant without identity. */
  ghost predicate Confuses(env: Env, r: Review, instant: int) {
    && IsHeard(r) && IsCumulativeText(r.body)
    && (env.clock(r.submittedAt).At? ==> env.clock(r.submittedAt).instant >= instant && !HasIdentity(r))
  }

  /** The name that the gate gives to what the body says. */
  ghost predicate Says(reader: Reader, body: string, outcome: string) {
    || (outcome == "changes_required" && Declares(reader, body, "CHANGES_REQUIRED"))
    || (outcome == "not_proven" && Declares(reader, body, "NOT_PROVEN"))
    || (outcome == "blocked_by_prerequisite" && Declares(reader, body, "BLOCKED_BY_PREREQUISITE"))
    || (outcome == "superseded_or_close" && Declares(reader, body, "SUPERSEDED_OR_CLOSE"))
    || (outcome == "ambiguous" && forall x :: !Declares(reader, body, x))
  }

  lemma DeclaredMeans(reader: Reader, body: string)
    ensures forall x :: Declares(reader, body, x) <==> reader.DeclaredResult(body) == Some(x)
  {
    hide Reader.DeclaredResult, DeclaresAt, Prose;
    forall x
      ensures Declares(reader, body, x) <==> reader.DeclaredResult(body) == Some(x)
    {
      DeclaresExactlyWhen(reader, body, x);
    }
  }

  lemma MarkerResultIs()
    ensures MARKER_RESULT == "REVIEW_CURRENT"
  {}

  lemma HexMeans(s: string)
    ensures IsOid(s) <==> IsHexText(s, 40)
    ensures IsDigest(s) <==> IsHexText(s, 64)
  {
    HexCharacters();
  }

  lemma HexCharacters()
    ensures forall c :: c in "0123456789abcdef" <==> '0' <= c <= '9' || 'a' <= c <= 'f'
  {
    forall c
      ensures c in "0123456789abcdef" <==> '0' <= c <= '9' || 'a' <= c <= 'f'
    {
      var s := "0123456789abcdef";
      if '0' <= c <= '9' {
        assert s[(c - '0') as int] == c;
      } else if 'a' <= c <= 'f' {
        assert s[(c - 'a') as int + 10] == c;
      }
    }
  }

  /** A commit is one that git knows under a full name in lower-case hexadecimal. */
  lemma CommitMeans(git: Git, oid: string)
    ensures HasCommit(git, oid) <==> IsHexText(oid, 40) && git.available(oid)
  {
    hide IsOid, IsHexText;
    HexMeans(oid);
  }

  lemma SpeaksMeans(env: Env, r: Review, instant: int)
    ensures Withdraws(env, r, instant) <==> Speaks(env, r, instant)
    ensures Breaks(env, r, instant) <==> Confuses(env, r, instant)
  {
    hide HasSections, IsCumulativeText, Declares, Reader.DeclaredResult, MARKER_RESULT, IsOid, IsHexText;
    CumulativeMeans(r.body);
    DeclaredMeans(env.reader, r.body);
    MarkerResultIs();
    HexMeans(r.commitOid);
  }

  lemma Lowered()
    ensures LowerCase("CHANGES_REQUIRED") == "changes_required" && LowerCase("NOT_PROVEN") == "not_proven"
    ensures LowerCase("BLOCKED_BY_PREREQUISITE") == "blocked_by_prerequisite"
    ensures LowerCase("SUPERSEDED_OR_CLOSE") == "superseded_or_close"
  {
    hide LowerCase;
    LongNameLowered();
    LastNameLowered();
    ShortNamesLowered();
  }

  lemma AlphabetLowered()
    ensures LowerCase("ABCDEFGHIJKLMNOPQRSTUVWXYZ") == "abcdefghijklmnopqrstuvwxyz" && LowerCase(".az_09") == ".az_09"
  {}

  lemma ShortNamesLowered()
    ensures LowerCase("CHANGES_REQUIRED") == "changes_required" && LowerCase("NOT_PROVEN") == "not_proven"
  {}

  lemma LongNameLowered()
    ensures LowerCase("BLOCKED_BY_PREREQUISITE") == "blocked_by_prerequisite"
  {}

  lemma LastNameLowered()
    ensures LowerCase("SUPERSEDED_OR_CLOSE") == "superseded_or_close"
  {}

  lemma OutcomeMeans(reader: Reader, body: string, outcome: string)
    requires !Declares(reader, body, "REVIEW_CURRENT")
    ensures Outcome(reader.DeclaredResult(body)) == outcome <==> Says(reader, body, outcome)
  {
    hide Declares, Reader.DeclaredResult, RESULTS, LowerCase;
    DeclaredMeans(reader, body);
    Lowered();
    var declared := reader.DeclaredResult(body);
    if declared.Some? {
      ResultsAre(declared.value);
    }
  }

  /** Whoever speaks last decides the reason: with the outcome the last ones agree on, or with
    * "ambiguous" when they do not. */
  lemma LastSpeakersDecide(env: Env, log: seq<Review>, selected: Review, r: Review, outcome: string)
    requires env.clock(selected.submittedAt).At? && forall x :: x in log ==> !Confuses(env, x, Instant(env, selected))
    requires r in log && Speaks(env, r, Instant(env, selected)) && Says(env.reader, r.body, outcome)
    requires forall x :: x in log && Speaks(env, x, Instant(env, selected)) ==> Instant(env, x) <= Instant(env, r)
    ensures (forall x :: x in log && Speaks(env, x, Instant(env, selected)) && Instant(env, x) == Instant(env, r) ==>
               Says(env.reader, x.body, outcome)) ==>
      Superseding(env, log, selected) == Ok(Some("later_cumulative_review_" + outcome))
    ensures (exists x :: x in log && Speaks(env, x, Instant(env, selected)) && Instant(env, x) == Instant(env, r)
               && !Says(env.reader, x.body, outcome)) ==>
      Superseding(env, log, selected) == Ok(Some("later_cumulative_review_ambiguous"))
  {
    hide Speaks, Confuses, Withdraws, Breaks, Says, Outcome, Reader.DeclaredResult, NewestInstant, FirstAt;
    var t := Instant(env, selected);
    forall x
      ensures Withdraws(env, x, t) <==> Speaks(env, x, t)
      ensures Breaks(env, x, t) <==> Confuses(env, x, t)
      ensures Speaks(env, x, t) ==> env.clock(x.submittedAt).At?
      ensures Speaks(env, x, t) ==> (Outcome(env.reader.DeclaredResult(x.body)) == outcome <==> Says(env.reader, x.body, outcome))
    {
      SpeaksMeans(env, x, t);
      SpeakerSays(env, x, t, outcome);
    }
    var bs := Barriers(env, log, t);
    assert BarrierOf(env, r) in bs && bs != [];
    var newest := NewestInstant(bs);
    assert newest == Instant(env, r);
    ReasonIs(bs, newest, outcome);
  }

  lemma SpeakerSays(env: Env, x: Review, t: int, outcome: string)
    ensures Speaks(env, x, t) ==> env.clock(x.submittedAt).At?
    ensures Speaks(env, x, t) ==> (Outcome(env.reader.DeclaredResult(x.body)) == outcome <==> Says(env.reader, x.body, outcome))
  {
    hide IsCumulativeText, Declares, Outcome, Says, Reader.DeclaredResult;
    if Speaks(env, x, t) {
      OutcomeMeans(env.reader, x.body, outcome);
    }
  }

  lemma ReasonIs(bs: seq<Barrier>, newest: int, outcome: string)
    requires bs != [] && NewestInstant(bs) == newest
    requires exists b :: b in bs && b.instant == newest && b.outcome == outcome
    ensures (forall b :: b in bs && b.instant == newest ==> b.outcome == outcome) ==>
      Reason(bs) == Some("later_cumulative_review_" + outcome)
    ensures (exists b :: b in bs && b.instant == newest && b.outcome != outcome) ==>
      Reason(bs) == Some("later_cumulative_review_ambiguous")
  {
    hide NewestInstant, FirstAt;
    var outcomes := set b | b in bs && b.instant == newest :: b.outcome;
    var first := FirstAt(bs, newest);
    assert outcome in outcomes && first.outcome in outcomes;
    assert "later_cumulative_review_" + "ambiguous" == "later_cumulative_review_ambiguous";
    if b :| b in bs && b.instant == newest && b.outcome != outcome {
      assert b.outcome in outcomes;
    }
  }

  /** A later cumulative review that does not declare REVIEW_CURRENT withdraws the marker, and
    * the verdict names what the last such reviews say. */
  lemma LaterReviewIsNamed(env: Env, pr: int, head: string, log: seq<Review>, selected: Candidate, r: Review, outcome: string)
    requires HasCommit(env.git, head) && Latest(env, pr, log) == Ok(Some(selected))
    requires env.clock(selected.review.submittedAt).At?
    requires forall x :: x in log ==> !Confuses(env, x, Instant(env, selected.review))
    requires r in log && Speaks(env, r, Instant(env, selected.review)) && Says(env.reader, r.body, outcome)
    requires forall x :: x in log && Speaks(env, x, Instant(env, selected.review)) ==>
      Instant(env, x) <= Instant(env, r) && (Instant(env, x) == Instant(env, r) ==> Says(env.reader, x.body, outcome))
    ensures Evaluate(env, pr, head, log)
         == Ok(Verdict(false, "later_cumulative_review_" + outcome, Some(selected.marker.head), false))
  {
    hide Speaks, Confuses, Says, Latest, Superseding, HasCommit;
    LastSpeakersDecide(env, log, selected.review, r, outcome);
  }

  /** With or without knowing who else speaks: it is enough that one does, or that one confuses. */
  lemma OneSpeakerIsEnough(env: Env, pr: int, head: string, log: seq<Review>, selected: Candidate, r: Review)
    requires Latest(env, pr, log) == Ok(Some(selected)) && env.clock(selected.review.submittedAt).At? && r in log
    requires Speaks(env, r, Instant(env, selected.review)) || Confuses(env, r, Instant(env, selected.review))
    ensures !IsCurrent(Evaluate(env, pr, head, log))
  {
    hide Speaks, Confuses, Latest, Evaluate, HasCommit, SubjectHolds, Carries, MarkerIn, Reader.DeclaredResult, HasSections;
    SpeaksMeans(env, r, Instant(env, selected.review));
    CurrentExactlyWhen(env, pr, head, log);
  }

  /** A review whose unfenced lines miss one of the headings changes nothing, wherever in the log
    * it stands. */
  lemma MissingHeadingChangesNothing(env: Env, pr: int, head: string, a: seq<Review>, r: Review, b: seq<Review>)
    requires !IsCumulativeText(r.body)
    ensures Evaluate(env, pr, head, a + [r] + b) == Evaluate(env, pr, head, a + b)
  {
    hide Latest, Superseding, Judge, HasCommit, IsCumulativeText, HasSections, MarkerIn;
    CumulativeMeans(r.body);
    NoSectionsNoMarker(env, pr, r);
    CandidatesConcat(env, pr, a + [r], b);
    CandidatesConcat(env, pr, a, [r]);
    CandidatesConcat(env, pr, a, b);
    OneCandidate(env, pr, r);
    SameCandidatesSameLatest(env, pr, a + b, a + [r] + b);
    var latest := Latest(env, pr, a + b);
    if latest.Ok? && latest.value.Some? {
      SilentAddsNoBarrier(env, a, r, b, latest.value.value.review);
    }
  }

  lemma NoSectionsNoMarker(env: Env, pr: int, r: Review)
    requires !HasSections(r.body)
    ensures MarkerIn(env, pr, r).None? && !Cumulative(r)
  {
    hide HasSections;
  }

  lemma OneCandidate(env: Env, pr: int, r: Review)
    requires MarkerIn(env, pr, r).None?
    ensures Candidates(env, pr, [r]) == []
  {
    hide MarkerIn;
    NoCandidates(env, pr);
    assert [r][..0] == [];
  }

  lemma {:induction false} CandidatesConcat(env: Env, pr: int, a: seq<Review>, b: seq<Review>)
    ensures Candidates(env, pr, a + b) == Candidates(env, pr, a) + Candidates(env, pr, b)
  {
    hide MarkerIn, Candidates;
    if b == [] {
      assert a + b == a;
      NoCandidates(env, pr);
    } else {
      var n := |b| - 1;
      CandidatesConcat(env, pr, a, b[..n]);
      LastCandidate(env, pr, a + b[..n], b[n]);
      LastCandidate(env, pr, b[..n], b[n]);
      assert a + b == a + b[..n] + [b[n]] && b == b[..n] + [b[n]];
    }
  }

  lemma SilentAddsNoBarrier(env: Env, a: seq<Review>, r: Review, b: seq<Review>, selected: Review)
    requires !Cumulative(r)
    ensures Superseding(env, a + [r] + b, selected) == Superseding(env, a + b, selected)
  {
    hide Cumulative, BarrierOf, Identified, Reader.DeclaredResult;
    var log, log' := a + b, a + [r] + b;
    assert forall x :: x in log' <==> x in log || x == r;
    var reading := env.clock(selected.submittedAt);
    if reading.At? {
      assert !Withdraws(env, r, reading.instant) && !Breaks(env, r, reading.instant);
      ReasonOfSet(Barriers(env, log, reading.instant), Barriers(env, log', reading.instant));
    }
  }

  // ---------- the verdict, case by case ----------

  /** What the verdict says: the reason, the head that was reviewed, and whether it was carried
    * forward, in the order in which the code asks. */
  lemma VerdictSays(env: Env, pr: int, head: string, log: seq<Review>)
    requires HasCommit(env.git, head)
    ensures Latest(env, pr, log) == Ok(None) ==>
      Evaluate(env, pr, head, log) == Ok(Verdict(false, "no_substantive_review_currentness_marker", None, false))
    ensures Latest(env, pr, log).Ok? && Latest(env, pr, log).value.Some? ==>
      var v, selected := Evaluate(env, pr, head, log), Latest(env, pr, log).value.value;
      var marker, barrier := selected.marker, Superseding(env, log, selected.review);
      var sound := HasCommit(env.git, marker.mergeBase) && HasCommit(env.git, marker.head)
        && env.git.ancestry(marker.mergeBase, marker.head).Ancestor? && env.git.subject(marker.mergeBase, marker.head).Some?;
      && (barrier.Err? ==> v.Err?)
      && (barrier.Ok? && barrier.value.Some? ==> v == Ok(Verdict(false, barrier.value.value, Some(marker.head), false)))
      && (barrier == Ok(None) && !sound ==> v.Err?)
      && (barrier == Ok(None) && sound ==>
            var follow := NeutralFollowup(env.git, marker.head, head);
            && (env.git.subject(marker.mergeBase, marker.head).value != marker.subjectSha256 ==>
                  v == Ok(Verdict(false, "review_subject_digest_mismatch", Some(marker.head), false)))
            && (SubjectHolds(env.git, marker) && marker.head == head ==>
                  v == Ok(Verdict(true, "subject_bound_review_matches_current_head", Some(head), false)))
            && (SubjectHolds(env.git, marker) && marker.head != head && follow.Err? ==> v.Err?)
            && (SubjectHolds(env.git, marker) && marker.head != head && follow.Ok? ==>
                  v == Ok(Verdict(follow.value.0, follow.value.1, Some(marker.head), follow.value.0))))
  {
    hide Latest, Superseding, NeutralFollowup, HasCommit;
  }
}
