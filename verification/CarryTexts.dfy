/** The carry-forward rule on what git prints: scripts/ci/check-pr-semantic-review-currentness.py,
  * lines 467-517. */
module CarryTexts {
  import opened Wrappers
  import opened Text
  import opened PyText
  import opened Fences
  import opened ReviewGate

  // ---------- name-status rows ----------

  /** A status letter or a path as git prints it. */
  predicate IsField(s: string) {
    IsLine(s) && '\t' !in s
  }

  predicate IsRow(row: seq<string>) {
    row != [] && forall i :: 0 <= i < |row| ==> IsField(row[i])
  }

  predicate AreRows(rows: seq<seq<string>>) {
    forall i :: 0 <= i < |rows| ==> IsRow(rows[i])
  }

  function PrintedLines(rows: seq<seq<string>>): (lines: seq<string>)
    ensures |lines| == |rows|
  {
    seq(|rows|, i requires 0 <= i < |rows| => Join(rows[i], "\t"))
  }

  /** Fields joined by tabs, rows by line feeds. */
  function Printed(rows: seq<seq<string>>): string {
    Join(PrintedLines(rows), "\n")
  }

  /** What the code's strip() would take away is not there. */
  predicate IsBare(text: string) {
    text != "" ==> !IsSpace(text[0]) && !IsSpace(text[|text| - 1])
  }

  lemma BareExactlyWhenStripped(text: string)
    ensures IsBare(text) <==> Strip(text) == text
    ensures |Strip(text)| <= |text|
  {
    hide IsSpace;
    LeftShorter(text);
    RightShorter(StripLeft(text));
    RightShorter(text);
  }

  lemma {:induction false} LeftShorter(text: string)
    ensures |StripLeft(text)| <= |text|
    ensures |StripLeft(text)| == |text| <==> text == "" || !IsSpace(text[0])
    ensures |StripLeft(text)| == |text| ==> StripLeft(text) == text
  {
    hide IsSpace;
    if text != "" && IsSpace(text[0]) {
      LeftShorter(text[1..]);
    }
  }

  lemma {:induction false} RightShorter(text: string)
    ensures |StripRight(text)| <= |text|
    ensures |StripRight(text)| == |text| <==> text == "" || !IsSpace(text[|text| - 1])
    ensures |StripRight(text)| == |text| ==> StripRight(text) == text
  {
    hide IsSpace;
    if text != "" && IsSpace(text[|text| - 1]) {
      RightShorter(text[..|text| - 1]);
    }
  }

  lemma {:induction false} FieldsJoined(row: seq<string>)
    requires forall i :: 0 <= i < |row| ==> IsLine(row[i])
    ensures IsLine(Join(row, "\t"))
  {
    if |row| > 1 {
      FieldsJoined(row[1..]);
      TabIsNoBreak();
    }
  }

  lemma TabIsNoBreak()
    ensures IsLine("\t")
  {}

  lemma RowPrints(row: seq<string>)
    requires IsRow(row)
    ensures Split(Join(row, "\t"), '\t') == row && IsLine(Join(row, "\t")) && (Join(row, "\t") == "" <==> row == [""])
  {
    hide IsLine, Split;
    FieldsJoined(row);
    SplitOfJoin(row, '\t');
    EmptySplits();
  }

  lemma EmptySplits()
    ensures Split("", '\t') == [""] && Join([""], "\t") == ""
  {}

  lemma {:induction false} RowsOfLines(rows: seq<seq<string>>, lines: seq<string>)
    requires AreRows(rows) && [""] !in rows && |lines| == |rows|
    requires forall i :: 0 <= i < |rows| ==> lines[i] == Join(rows[i], "\t")
    ensures RowsOf(lines) == rows
  {
    hide Split, IsRow;
    if rows != [] {
      RowPrints(rows[0]);
      assert rows == [rows[0]] + rows[1..];
      RowsOfLines(rows[1..], lines[1..]);
    }
  }

  lemma LinesPrinted(rows: seq<seq<string>>)
    requires AreRows(rows) && [""] !in rows
    ensures AreLines(PrintedLines(rows)) && WithoutFinalEmpty(PrintedLines(rows)) == PrintedLines(rows)
  {
    hide IsLine, IsRow;
    forall i | 0 <= i < |rows|
      ensures IsLine(PrintedLines(rows)[i]) && PrintedLines(rows)[i] != ""
    {
      assert rows[i] in rows;
      RowPrints(rows[i]);
    }
  }

  /** No row that is read is a single empty field. */
  lemma {:induction false} NoEmptyRow(lines: seq<string>)
    ensures [""] !in RowsOf(lines)
  {
    if lines != [] {
      NoEmptyRow(lines[1..]);
      if lines[0] != "" {
        SplitOnlyEmpty(lines[0]);
      }
    }
  }

  lemma SplitOnlyEmpty(line: string)
    requires line != ""
    ensures Split(line, '\t') != [""]
  {
    assert Join([""], "\t") == "";
  }

  // Reading and printing again never makes a text longer.

  lemma {:induction false} LinesNoLonger(text: string)
    ensures |Join(SplitLines(text), "\n")| <= |text|
  {
    hide IsBreak;
    if text != "" {
      var n := LineLength(text);
      if n < |text| {
        var k := if text[n] == '\r' && n + 1 < |text| && text[n + 1] == '\n' then n + 2 else n + 1;
        LinesNoLonger(text[k..]);
        var rest := SplitLines(text[k..]);
        assert ([text[..n]] + rest)[1..] == rest;
      }
    }
  }

  lemma {:induction false} RowsNoLonger(lines: seq<string>)
    ensures |Printed(RowsOf(lines))| <= |Join(lines, "\n")|
  {
    hide Split;
    if lines != [] {
      var rest := RowsOf(lines[1..]);
      RowsNoLonger(lines[1..]);
      if lines[0] != "" {
        var row := Split(lines[0], '\t');
        PrintedFirst(row, rest);
        assert RowsOf(lines) == [row] + rest;
        if |lines| == 1 {
          assert rest == [];
        }
      } else {
        assert RowsOf(lines) == rest;
      }
    }
  }

  lemma PrintedFirst(row: seq<string>, rest: seq<seq<string>>)
    ensures Printed([row] + rest) == if rest == [] then Join(row, "\t") else Join(row, "\t") + "\n" + Printed(rest)
  {
    assert PrintedLines([row] + rest)[1..] == PrintedLines(rest);
  }

  /** The rows that git prints are read back exactly when no white space at the ends of the
    * text belongs to a field, and no row prints as nothing. */
  lemma RowsReadBackExactlyWhen(rows: seq<seq<string>>)
    requires AreRows(rows)
    ensures Rows(Printed(rows)) == rows <==> IsBare(Printed(rows)) && [""] !in rows
  {
    hide IsBare, Strip, SplitLines, RowsOf, AreRows, PrintedLines, AreLines;
    var text := Printed(rows);
    BareExactlyWhenStripped(text);
    if IsBare(text) && [""] !in rows {
      LinesPrinted(rows);
      SplitLinesOfJoin(PrintedLines(rows));
      PrintedIsJoined(rows);
      RowsOfLines(rows, PrintedLines(rows));
    }
    if Rows(text) == rows {
      NoEmptyRow(SplitLines(Strip(text)));
      RowsNoLonger(SplitLines(Strip(text)));
      LinesNoLonger(Strip(text));
      Shorter(text);
    }
  }

  lemma PrintedIsJoined(rows: seq<seq<string>>)
    ensures forall i :: 0 <= i < |rows| ==> PrintedLines(rows)[i] == Join(rows[i], "\t")
  {}

  lemma Shorter(text: string)
    ensures |Strip(text)| == |text| ==> Strip(text) == text
  {
    hide IsSpace;
    LeftShorter(text);
    RightShorter(StripLeft(text));
  }

  /** The last path's trailing blanks are lost: here a path that ends in one is read as another. */
  lemma TrailingBlankIsLost()
    ensures Rows(Printed([["M", "a.md "]])) != [["M", "a.md "]]
  {
    hide Rows, Printed;
    BlankRow();
    RowsReadBackExactlyWhen([["M", "a.md "]]);
  }

  lemma BlankRow()
    ensures AreRows([["M", "a.md "]]) && !IsBare(Printed([["M", "a.md "]]))
  {
    var rows := [["M", "a.md "]];
    assert ["M", "a.md "][1..] == ["a.md "];
    assert Join(rows[0], "\t") == "M\ta.md ";
    assert PrintedLines(rows) == ["M\ta.md "];
    assert Printed(rows) == "M\ta.md ";
    assert " "[0] == ' ';
  }

  // ---------- prose files ----------

  /** The path of a Markdown file: .md in any case, behind at least one character of the name. */
  predicate IsMarkdown(path: string) {
    var n := |path|;
    n > 3 && path[n - 4] != '/' && path[n - 3] == '.' && path[n - 2] in "mM" && path[n - 1] in "dD"
  }

  /** The path of a text file: .txt in any case, likewise. */
  predicate IsPlainText(path: string) {
    var n := |path|;
    n > 4 && path[n - 5] != '/' && path[n - 4] == '.' && path[n - 3] in "tT" && path[n - 2] in "xX" && path[n - 1] in "tT"
  }

  lemma {:induction false} LastPart(parts: seq<string>)
    requires parts != []
    ensures var last := parts[|parts| - 1];
      var text := Join(parts, "/");
      && |last| <= |text| && text[|text| - |last|..] == last
      && (|text| > |last| ==> text[|text| - |last| - 1] == '/')
  {
    if |parts| > 1 {
      LastPart(parts[1..]);
      var rest := Join(parts[1..], "/");
      assert Join(parts, "/") == parts[0] + "/" + rest;
    }
  }

  lemma NameOf(path: string)
    ensures var name := FileName(path);
      && '/' !in name && |name| <= |path| && path[|path| - |name|..] == name
      && (|path| > |name| ==> path[|path| - |name| - 1] == '/')
  {
    hide Split;
    LastPart(Split(path, '/'));
  }

  lemma LowerMeans(s: string)
    ensures LowerCase(s) == ".md" <==> |s| == 3 && s[0] == '.' && s[1] in "mM" && s[2] in "dD"
    ensures LowerCase(s) == ".txt" <==> |s| == 4 && s[0] == '.' && s[1] in "tT" && s[2] in "xX" && s[3] in "tT"
  {
    var t := LowerCase(s);
    assert |s| == 3 ==> (t == ".md" <==> t[0] == '.' && t[1] == 'm' && t[2] == 'd');
    assert |s| == 4 ==> (t == ".txt" <==> t[0] == '.' && t[1] == 't' && t[2] == 'x' && t[3] == 't');
  }

  lemma DotIs(name: string, dot: nat)
    requires dot < |name| && name[dot] == '.' && forall j :: dot < j < |name| ==> name[j] != '.'
    ensures LastDot(name) == dot
  {}

  /** If none of a path's last k characters is a slash, they belong to the file name. */
  lemma InName(path: string, name: string, k: nat)
    requires k <= |path| && |name| <= |path| && (|path| > |name| ==> path[|path| - |name| - 1] == '/')
    requires forall j :: |path| - k <= j < |path| ==> path[j] != '/'
    ensures k <= |name|
  {}

  /** A dot behind a character of the name and before its last one opens the suffix, if it is
    * the last dot. */
  lemma EndingIsSuffix(path: string, k: nat)
    requires 1 < k < |path| && path[|path| - k] == '.' && path[|path| - k - 1] != '/'
    requires forall j :: |path| - k < j < |path| ==> path[j] != '.' && path[j] != '/'
    ensures Suffix(path) == path[|path| - k..]
  {
    hide FileName, LastDot;
    NameOf(path);
    var name, n := FileName(path), |FileName(path)|;
    InName(path, name, k + 1);
    assert forall j :: 0 <= j < n ==> name[j] == path[|path| - n + j];
    DotIs(name, n - k);
    assert name[n - k..] == path[|path| - k..];
  }

  lemma SuffixIsEnding(path: string)
    requires Suffix(path) != ""
    ensures var k := |Suffix(path)|; k < |path| && path[|path| - k..] == Suffix(path) && path[|path| - k - 1] != '/'
  {
    hide FileName, LastDot;
    NameOf(path);
    var name, n := FileName(path), |FileName(path)|;
    var dot := LastDot(name);
    assert name[dot..] == path[|path| - n..][dot..] == path[|path| - n + dot..];
    assert name[dot - 1] == path[|path| - n + dot - 1];
  }

  /** Markdown and text files are told by these endings and by nothing else. */
  lemma ProseMeans(path: string)
    ensures IsProse(path) <==> IsMarkdown(path) || IsPlainText(path)
  {
    hide LowerCase, Suffix;
    LowerMeans(Suffix(path));
    var n := |path|;
    if Suffix(path) != "" {
      SuffixIsEnding(path);
      var k := |Suffix(path)|;
      assert forall j :: 0 <= j < k ==> Suffix(path)[j] == path[n - k + j];
    }
    if IsMarkdown(path) {
      EndingIsSuffix(path, 3);
    }
    if IsPlainText(path) {
      EndingIsSuffix(path, 4);
    }
  }

  // ---------- the rule on printed rows ----------

  /** Git says what changed in rows that read back. */
  ghost predicate Reports(git: Git, reviewed: string, current: string, rows: seq<seq<string>>) {
    git.nameStatus(reviewed, current) == Some(Printed(rows)) && AreRows(rows) && IsBare(Printed(rows)) && [""] !in rows
  }

  /** The row says that a Markdown or text file was modified. */
  predicate ModifiesProse(row: seq<string>) {
    |row| == 2 && row[0] == "M" && (IsMarkdown(row[1]) || IsPlainText(row[1]))
  }

  ghost predicate SameFencesIn(git: Git, reviewed: string, current: string, path: string) {
    && git.blob(reviewed, path).Some? && git.blob(current, path).Some?
    && FencedTexts(git.blob(reviewed, path).value) == FencedTexts(git.blob(current, path).value)
  }

  lemma RowMeans(git: Git, reviewed: string, current: string, row: seq<string>)
    ensures IsWhitespaceRow(git, reviewed, current, row) <==>
      ModifiesProse(row) && SameFencesIn(git, reviewed, current, row[1])
  {
    hide IsProse, IsMarkdown, IsPlainText, FencedTexts;
    if |row| == 2 {
      ProseMeans(row[1]);
    }
  }

  lemma PrintsNothing(rows: seq<seq<string>>)
    requires AreRows(rows) && IsBare(Printed(rows)) && [""] !in rows
    ensures Rows(Printed(rows)) == rows && (Strip(Printed(rows)) == "" <==> rows == [])
  {
    hide IsBare, Rows, Strip, AreRows, PrintedLines;
    RowsReadBackExactlyWhen(rows);
    BareExactlyWhenStripped(Printed(rows));
    NothingReadsAsNothing();
    assert rows == [] ==> PrintedLines(rows) == [];
  }

  lemma NothingReadsAsNothing()
    ensures Rows("") == []
  {
    assert StripLeft("") == "" && StripRight("") == "";
  }

  /** Whatever rows git prints, a later head is carried to exactly when each of them modifies a
    * Markdown or text file whose fenced blocks are the same on both sides, and nothing but
    * white space differs: one other row anywhere excludes it. */
  lemma CarriedExactlyWhen(git: Git, reviewed: string, current: string, rows: seq<seq<string>>)
    requires reviewed != current && Reports(git, reviewed, current, rows)
    ensures var n := NeutralFollowup(git, reviewed, current);
      (n.Ok? && n.value.0) <==>
        && HasCommit(git, reviewed) && HasCommit(git, current) && git.ancestry(reviewed, current).Ancestor?
        && (rows != [] ==>
              (forall i :: 0 <= i < |rows| ==> ModifiesProse(rows[i]) && SameFencesIn(git, reviewed, current, rows[i][1]))
              && git.quietDiff(reviewed, current) == 0)
  {
    hide IsBare, Rows, Strip, AreRows, Printed, IsWhitespaceRow, IsMarkdown, IsPlainText, SameFencesIn, NeutralFollowup;
    PrintsNothing(rows);
    NeutralMeansWhitespace(git, reviewed, current);
    forall i | 0 <= i < |rows|
      ensures IsWhitespaceRow(git, reviewed, current, rows[i]) <==>
        ModifiesProse(rows[i]) && SameFencesIn(git, reviewed, current, rows[i][1])
    {
      RowMeans(git, reviewed, current, rows[i]);
    }
  }

  // ---------- the reasons ----------

  /** The first path whose blobs cannot be read, or differ in their fences, if any. */
  ghost predicate FirstOdd(git: Git, reviewed: string, current: string, rows: seq<seq<string>>, k: nat) {
    && k < |rows| && (forall i :: 0 <= i < |rows| ==> |rows[i]| == 2)
    && !SameFencesIn(git, reviewed, current, rows[k][1])
    && forall i :: 0 <= i < k ==> SameFencesIn(git, reviewed, current, rows[i][1])
  }

  predicate IsReadable(git: Git, reviewed: string, current: string, path: string) {
    git.blob(reviewed, path).Some? && git.blob(current, path).Some?
  }

  lemma {:induction false} ComparedInOrder(git: Git, reviewed: string, current: string, rows: seq<seq<string>>, paths: seq<string>, k: nat)
    requires |paths| == |rows| && forall i :: 0 <= i < |rows| ==> |rows[i]| == 2 && paths[i] == rows[i][1]
    requires FirstOdd(git, reviewed, current, rows, k)
    ensures CompareFences(git, reviewed, current, paths)
         == if IsReadable(git, reviewed, current, rows[k][1]) then Ok(false) else Err(InstrumentFailure)
    decreases k
  {
    hide FencedTexts;
    assert k > 0 ==> SameFencesIn(git, reviewed, current, rows[0][1]);
    if k > 0 {
      ComparedInOrder(git, reviewed, current, rows[1..], paths[1..], k - 1);
    }
  }

  /** What a follow-up answers, case by case, in the order in which the code asks. */
  lemma FollowupAnswers(git: Git, reviewed: string, current: string, rows: seq<seq<string>>, k: nat)
    requires HasCommit(git, reviewed) && HasCommit(git, current)
    requires Reports(git, reviewed, current, rows)
    ensures var n := NeutralFollowup(git, reviewed, current);
      var modified := forall i :: 0 <= i < |rows| ==> |rows[i]| == 2 && rows[i][0] == "M";
      var prose := forall i :: 0 <= i < |rows| ==> ModifiesProse(rows[i]);
      var exit := git.quietDiff(reviewed, current);
      match git.ancestry(reviewed, current)
      case ProbeFailed => n == Err(InstrumentFailure)
      case NotAncestor => n == Ok((false, "reviewed_head_is_not_an_ancestor_of_current_head"))
      case Ancestor =>
        && (rows == [] ==> n == Ok((true, "no_candidate_changes_after_review")))
        && (!modified ==> n == Ok((false, "path,_file-kind,_or_structural_change_after_review")))
        && (modified && !prose ==>
              n == Ok((false, "post-review_change_is_not_in_a_whitespace-insensitive_prose_file")))
        && (prose && FirstOdd(git, reviewed, current, rows, k) ==>
              n == if IsReadable(git, reviewed, current, rows[k][1])
                   then Ok((false, "post-review_change_alters_fenced_code_content")) else Err(InstrumentFailure))
        && (rows != [] && prose && (forall i :: 0 <= i < |rows| ==> SameFencesIn(git, reviewed, current, rows[i][1])) ==>
              n == if exit == 0 then Ok((true, "later_candidate_range_is_whitespace-only_in_reviewed_prose_files"))
                   else if exit == 1 then Ok((false, "material_content_change_after_review")) else Err(InstrumentFailure))
  {
    hide IsBare, Rows, Strip, AreRows, Printed, IsProse, IsMarkdown, IsPlainText, SameFencesIn, FirstOdd, HasCommit, CompareFences,
      IsReadable;
    PrintsNothing(rows);
    forall i | 0 <= i < |rows| && |rows[i]| == 2
      ensures IsProse(rows[i][1]) <==> IsMarkdown(rows[i][1]) || IsPlainText(rows[i][1])
    {
      ProseMeans(rows[i][1]);
    }
    if forall i :: 0 <= i < |rows| ==> |rows[i]| == 2 {
      var paths := Paths(rows);
      AllCompared(git, reviewed, current, rows, paths);
      if FirstOdd(git, reviewed, current, rows, k) {
        ComparedInOrder(git, reviewed, current, rows, paths, k);
      }
    }
  }

  lemma AllCompared(git: Git, reviewed: string, current: string, rows: seq<seq<string>>, paths: seq<string>)
    requires |paths| == |rows| && forall i :: 0 <= i < |rows| ==> |rows[i]| == 2 && paths[i] == rows[i][1]
    ensures (forall i :: 0 <= i < |rows| ==> SameFencesIn(git, reviewed, current, rows[i][1])) ==>
      CompareFences(git, reviewed, current, paths) == Ok(true)
  {
    hide CompareFences, FencedTexts;
    ComparedFences(git, reviewed, current, paths);
    assert forall i :: 0 <= i < |rows| ==> (SameFencesIn(git, reviewed, current, rows[i][1]) <==>
      SameFences(git, reviewed, current, paths[i]) == Some(true));
  }
}
