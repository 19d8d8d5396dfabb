/** The review workflow's steps as they are written: what a field's text reads as, and when a
  * printed review step is accepted. xtask/src/ci_routing_contract.rs, lines 353-463. */
module StepTexts {
  import opened Wrappers
  import opened Text
  import opened RustText
  import opened StepCollector

  // ---------- one field ----------

  datatype Spelling = Plain | SingleQuoted | DoubleQuoted

  function Spelled(key: string, spelling: Spelling): string {
    match spelling
    case Plain => key
    case SingleQuoted => "'" + key + "'"
    case DoubleQuoted => "\"" + key + "\""
  }

  /** A mapping field as one may write it. */
  datatype Written = Written(key: string, spelling: Spelling, before: string, after: string, value: string, comment: string)

  function Print(w: Written): string {
    Spelled(w.key, w.spelling) + w.before + ":" + w.after + w.value + w.comment
  }

  predicate IsKey(key: string) {
    key != "" && IsTrimmed(key) && ':' !in key && '\'' !in key && '"' !in key
  }

  /** No comment starts inside the text. */
  predicate HasNoComment(s: string) {
    forall j :: 0 <= j < |s| - 1 ==> !(s[j] == ' ' && s[j + 1] == '#')
  }

  predicate IsValue(value: string) {
    IsTrimmed(value) && HasNoComment(value) && (value != "" ==> value[0] != '#')
  }

  /** Nothing, or white space and a comment that a blank and a number sign open. */
  ghost predicate IsComment(comment: string) {
    comment == "" || exists gap, rest :: AllWhitespace(gap) && comment == gap + " #" + rest
  }

  ghost predicate IsWritten(w: Written) {
    && IsKey(w.key) && AllWhitespace(w.before) && AllWhitespace(w.after) && IsValue(w.value) && IsComment(w.comment)
  }

  lemma KeyUnquoted(key: string, spelling: Spelling)
    requires IsKey(key)
    ensures var spelled := Spelled(key, spelling);
      && IsTrimmed(spelled) && spelled != "" && ':' !in spelled
      && key == (if Unquoted(spelled, "'").Some? then Unquoted(spelled, "'").value
                 else if Unquoted(spelled, "\"").Some? then Unquoted(spelled, "\"").value else spelled)
  {
    hide IsWhitespace;
    var spelled := Spelled(key, spelling);
    QuotesAreVisible();
    match spelling {
      case Plain =>
        NotQuoted(key, "'");
        NotQuoted(key, "\"");
      case SingleQuoted => QuotedBy(key, "'");
      case DoubleQuoted =>
        QuotedBy(key, "\"");
        NotQuoted(spelled, "'");
    }
  }

  lemma QuotesAreVisible()
    ensures !IsWhitespace('\'') && !IsWhitespace('"')
  {}

  lemma NotQuoted(key: string, quote: string)
    requires |quote| == 1 && key != "" && key[0] != quote[0]
    ensures Unquoted(key, quote).None?
  {}

  lemma QuotedBy(key: string, quote: string)
    requires |quote| == 1
    ensures Unquoted(quote + key + quote, quote) == Some(key)
  {
    var quoted := quote + key + quote;
    assert quoted[1..] == key + quote;
    assert (key + quote)[|key|..] == quote;
    assert quoted[1..|quoted| - 1] == key;
  }

  lemma CommentAt(text: string, j: int)
    ensures OccursAt(text, " #", j) <==> 0 <= j < |text| - 1 && text[j] == ' ' && text[j + 1] == '#'
  {
    if 0 <= j < |text| - 1 {
      assert text[j..j + 2] == [text[j], text[j + 1]];
    }
  }

  lemma NoCommentFound(text: string)
    requires HasNoComment(text)
    ensures Find(text, " #").None?
  {
    forall j
      ensures !OccursAt(text, " #", j)
    {
      CommentAt(text, j);
    }
  }

  lemma CommentFound(front: string, rest: string)
    requires HasNoComment(front)
    ensures Find(front + " #" + rest, " #") == Some(|front|)
  {
    var text := front + " #" + rest;
    forall j | 0 <= j <= |front|
      ensures OccursAt(text, " #", j) <==> j == |front|
    {
      CommentAt(text, j);
    }
    FindIs(text, " #", |front|);
  }

  lemma NoCommentInside(after: string, value: string, gap: string)
    requires AllWhitespace(after) && AllWhitespace(gap) && IsValue(value)
    ensures HasNoComment(after + value + gap) && HasNoComment(after + value)
  {
    var s := after + value + gap;
    SignIsVisible();
    forall j | 0 <= j < |s| - 1
      ensures !(s[j] == ' ' && s[j + 1] == '#')
    {
      hide IsWhitespace;
      if |after| <= j && j + 1 < |after| + |value| {
        assert value[j - |after|] == s[j] && value[j + 1 - |after|] == s[j + 1];
      }
    }
    assert after + value == s[..|after + value|];
  }

  lemma SignIsVisible()
    ensures !IsWhitespace('#')
  {}

  /** Whatever its spelling, the blanks around its colon and the comment behind it, a written
    * field reads as its key and its value. */
  lemma FieldReads(w: Written)
    requires IsWritten(w)
    ensures Field(Print(w)) == Some((w.key, w.value))
  {
    hide IsWhitespace, Unquoted, Trim, Spelled, HasNoComment, IsTrimmed;
    var spelled := Spelled(w.key, w.spelling);
    KeyUnquoted(w.key, w.spelling);
    NoColon(spelled, w.before);
    var rawKey, rawValue := spelled + w.before, w.after + w.value + w.comment;
    assert Print(w) == rawKey + [':'] + rawValue;
    SplitOnceOf(rawKey, ':', rawValue);
    assert rawKey == "" + spelled + w.before;
    TrimAround("", spelled, w.before);
    ValueReads(w);
  }

  lemma NoColon(spelled: string, before: string)
    requires ':' !in spelled && AllWhitespace(before)
    ensures ':' !in spelled + before
  {}

  lemma ValueReads(w: Written)
    requires IsWritten(w)
    ensures var rawValue := w.after + w.value + w.comment;
      var comment := Find(rawValue, " #");
      Trim(if comment.Some? then rawValue[..comment.value] else rawValue) == w.value
  {
    hide IsWhitespace, Trim, HasNoComment, IsTrimmed;
    var rawValue := w.after + w.value + w.comment;
    if w.comment == "" {
      NoCommentInside(w.after, w.value, "");
      assert rawValue == w.after + w.value + "";
      NoCommentFound(rawValue);
      TrimAround(w.after, w.value, "");
    } else {
      var gap, rest :| AllWhitespace(gap) && w.comment == gap + " #" + rest;
      NoCommentInside(w.after, w.value, gap);
      var front := w.after + w.value + gap;
      assert rawValue == front + " #" + rest;
      CommentFound(front, rest);
      assert rawValue[..|front|] == front;
      TrimAround(w.after, w.value, gap);
    }
  }

  // ---------- lines that say nothing ----------

  /** White space only, or white space and a number sign. */
  ghost predicate IsSilent(line: string) {
    AllWhitespace(line) || exists gap, rest :: AllWhitespace(gap) && line == gap + "#" + rest
  }

  lemma SilentMeans(line: string)
    ensures IsCommentOrBlank(line) <==> IsSilent(line)
  {
    hide IsWhitespace, Trim;
    var front, back := TrimMeans(line);
    var text := Trim(line);
    assert text == "" ==> line == front + back && AllWhitespace(line);
    assert text != "" ==> line[|front|] == text[0];
    if text != "" && text[0] == '#' {
      assert line == front + "#" + (text[1..] + back);
    }
    if gap, rest :| AllWhitespace(gap) && line == gap + "#" + rest {
      SignSpeaks(gap, rest);
    }
  }

  lemma SignSpeaks(gap: string, rest: string)
    requires AllWhitespace(gap)
    ensures var text := Trim(gap + "#" + rest); text != "" && text[0] == '#'
  {
    hide IsWhitespace;
    SignIsVisible();
    var sign := "#" + rest;
    assert gap + "#" + rest == gap + sign;
    TrimStartSkips(gap, sign);
    Untrimmed(sign);
    FirstKept(sign);
  }

  lemma {:induction false} FirstKept(s: string)
    requires s != "" && !IsWhitespace(s[0])
    ensures TrimEnd(s) != "" && TrimEnd(s)[0] == s[0]
  {
    hide IsWhitespace;
    if |s| > 1 {
      FirstKept(s[..|s| - 1]);
    }
  }

  /** A comment or blank line, so described, changes nothing wherever it stands. */
  lemma SilentLinesDoNotMatter(a: string, line: string, b: string)
    requires '\n' !in line && IsSilent(line)
    ensures Judged(a + "\n" + line + "\n" + b) == Judged(a + "\n" + b) && Judged(line + "\n" + b) == Judged(b)
    ensures Judged(a + "\n" + line) == Judged(a + "\n") && Judged(line) == Judged("")
  {
    hide IsSilent, IsCommentOrBlank, Judged;
    SilentMeans(line);
    CommentsDoNotMatter(a, line, b);
  }

  // ---------- a printed review step ----------

  function Blanks(n: nat): (s: string)
    ensures |s| == n && forall i :: 0 <= i < n ==> s[i] == ' '
  {
    seq(n, i => ' ')
  }

  /** A line that holds the text at an indent. */
  function Line(indent: nat, text: string): string {
    Blanks(indent) + text
  }

  /** Text that a line can hold: not blank, no comment, and without line feeds. */
  predicate IsLineText(text: string) {
    text != "" && IsTrimmed(text) && text[0] != '#' && '\n' !in text
  }

  function Texts(inputs: seq<Written>): (lines: seq<string>)
    ensures |lines| == |inputs|
  {
    seq(|inputs|, k requires 0 <= k < |inputs| => Line(10, Print(inputs[k])))
  }

  /** A workflow with one step, which runs a version of the action with the inputs. */
  function Workflow(version: string, inputs: seq<Written>): string {
    Join([Line(0, "jobs:"), Line(2, "review:"), Line(4, "steps:"), Line(6, "- uses: " + ACTION + version),
          Line(8, "with:")] + Texts(inputs), "\n")
  }

  /** Input k is called key and has the value. */
  predicate IsNamed(inputs: seq<Written>, k: nat, key: string, value: string) {
    k < |inputs| && inputs[k].key == key && inputs[k].value == value
  }

  /** Exactly one input is called head and one pr-head-sha, whatever their spelling, and both
    * have their required values. */
  ghost predicate HasIdentity(inputs: seq<Written>) {
    exists h: nat, s: nat ::
      && IsNamed(inputs, h, "head", "HEAD") && IsNamed(inputs, s, "pr-head-sha", "${{ github.event.pull_request.head.sha }}")
      && forall k: nat :: k < |inputs| && k != h && k != s ==> inputs[k].key != "head" && inputs[k].key != "pr-head-sha"
  }

  lemma EntryOfLine(indent: nat, text: string)
    requires IsLineText(text)
    ensures EntriesOf(Line(indent, text)) == [Entry(indent, text)]
    ensures Line(indent, text) != "" && '\n' !in Line(indent, text) && WithoutReturn(Line(indent, text)) == Line(indent, text)
  {
    hide IsWhitespace, Trim;
    var line := Line(indent, text);
    BlanksAreWhite(indent);
    assert line == Blanks(indent) + text + "";
    TrimAround(Blanks(indent), text, "");
    VisibleEnds();
    assert line[|line| - 1] == text[|text| - 1];
    NoReturn(line);
    IndentIs(indent, text);
  }

  lemma NoReturn(line: string)
    requires line != "" && line[|line| - 1] != '\r'
    ensures WithoutReturn(line) == line
  {
    assert line[|line| - 1..] == [line[|line| - 1]];
  }

  lemma IndentIs(n: nat, text: string)
    requires text != "" && text[0] != ' '
    ensures Indent(Line(n, text)) == n
  {
    var line := Line(n, text);
    assert line[n] == text[0] && forall i :: 0 <= i < n ==> line[i] == ' ';
  }

  lemma BlanksAreWhite(n: nat)
    ensures AllWhitespace(Blanks(n))
  {}

  lemma VisibleEnds()
    ensures IsWhitespace('\r') && IsWhitespace(' ')
  {}

  lemma {:induction false} PlainPieces(lines: seq<string>)
    requires lines != [] && lines[|lines| - 1] != ""
    requires forall i :: 0 <= i < |lines| ==> WithoutReturn(lines[i]) == lines[i]
    ensures LinesOfPieces(lines) == lines
  {
    hide WithoutReturn;
    if |lines| > 1 {
      PlainPieces(lines[1..]);
      assert lines == [lines[0]] + lines[1..];
    }
  }

  /** The entries of lines that each hold a text at an indent. */
  lemma {:induction false} EntriesOfLines(lines: seq<string>, entries: seq<Entry>)
    requires |lines| == |entries|
    requires forall k :: 0 <= k < |lines| ==> EntriesOf(lines[k]) == [entries[k]]
    ensures Entries(lines) == entries
  {
    hide EntriesOf;
    if lines != [] {
      EntriesOfLines(lines[1..], entries[1..]);
      assert entries == [entries[0]] + entries[1..];
    }
  }

  function StepEntries(version: string, inputs: seq<Written>): (r: seq<Entry>)
    ensures |r| == |inputs| + 5
  {
    [Entry(0, "jobs:"), Entry(2, "review:"), Entry(4, "steps:"), Entry(6, "- uses: " + ACTION + version), Entry(8, "with:")]
    + seq(|inputs|, k requires 0 <= k < |inputs| => Entry(10, Print(inputs[k])))
  }

  ghost predicate AreInputs(inputs: seq<Written>) {
    forall k :: 0 <= k < |inputs| ==> IsWritten(inputs[k]) && IsLineText(Print(inputs[k]))
  }

  lemma FirstTexts(version: string)
    requires NoWhitespace(version)
    ensures IsLineText("jobs:") && IsLineText("review:") && IsLineText("steps:") && IsLineText("with:")
    ensures IsLineText("- uses: " + ACTION + version)
  {
    var text := "- uses: " + ACTION + version;
    assert version == "" ==> text[|text| - 1] == '@';
    assert version != "" ==> text[|text| - 1] == version[|version| - 1];
    assert IsWhitespace('\n');
  }

  lemma WorkflowEntries(version: string, inputs: seq<Written>)
    requires NoWhitespace(version) && AreInputs(inputs)
    ensures Entries(Lines(Workflow(version, inputs))) == StepEntries(version, inputs)
  {
    hide IsWhitespace, ACTION, Line, IsLineText, EntriesOf, IsWritten, Entries, WithoutReturn, Print, NoWhitespace;
    FirstTexts(version);
    var lines := [Line(0, "jobs:"), Line(2, "review:"), Line(4, "steps:"), Line(6, "- uses: " + ACTION + version),
                  Line(8, "with:")] + Texts(inputs);
    var entries := StepEntries(version, inputs);
    forall k | 0 <= k < |lines|
      ensures EntriesOf(lines[k]) == [entries[k]]
      ensures lines[k] != "" && '\n' !in lines[k] && WithoutReturn(lines[k]) == lines[k]
    {
      if k >= 5 {
        assert lines[k] == Line(10, Print(inputs[k - 5]));
      }
      EntryOfLine(entries[k].indent, entries[k].text);
    }
    SplitOfJoin(lines, '\n');
    PlainPieces(lines);
    EntriesOfLines(lines, entries);
  }

  /** The step that the workflow's fourth entry heads. */
  function TheStep(version: string, inputs: seq<Written>): (r: seq<Entry>)
    ensures |r| == |inputs| + 2
  {
    [Entry(8, "uses: " + ACTION + version), Entry(8, "with:")]
    + seq(|inputs|, k requires 0 <= k < |inputs| => Entry(10, Print(inputs[k])))
  }

  lemma {:induction false} BodyToTheEnd(all: seq<Entry>, i: nat)
    requires i < |all| && forall j :: i < j < |all| ==> all[j].indent > 6
    ensures BodyEnd(all, i) == |all|
    decreases |all| - i
  {
    if i + 1 < |all| {
      BodyToTheEnd(all, i + 1);
    }
  }

  lemma OneStep(version: string, inputs: seq<Written>)
    ensures var all := StepEntries(version, inputs);
      && IsHeaderAt(all, 3) && StepAt(all, 3) == TheStep(version, inputs)
      && forall j: nat :: j != 3 ==> !IsHeaderAt(all, j)
  {
    hide ACTION, Print;
    var all := StepEntries(version, inputs);
    assert InJobs(all, 1);
    assert InJobs(all, 2);
    assert InJobs(all, 3);
    assert InSteps(all, 3);
    assert InSteps(all, 4);
    HeaderText(version);
    BodyToTheEnd(all, 3);
    assert all[4..] == [Entry(8, "with:")] + all[5..];
    assert all[5..] == seq(|inputs|, k requires 0 <= k < |inputs| => Entry(10, Print(inputs[k])));
  }

  lemma HeaderText(version: string)
    ensures var text := "- uses: " + ACTION + version;
      StartsWith(text, "- ") && text[2..] == "uses: " + ACTION + version
  {
    assert "- uses: " == "- " + "uses: ";
    var text := "- uses: " + ACTION + version;
    assert text == "- " + ("uses: " + ACTION + version);
  }

  lemma ActionIsValue(version: string)
    requires NoWhitespace(version)
    ensures IsValue(ACTION + version)
  {
    var value := ACTION + version;
    assert IsWhitespace(' ');
    assert forall j :: 0 <= j < |value| ==> !IsWhitespace(value[j]);
  }

  lemma FirstFields(version: string)
    requires NoWhitespace(version)
    ensures Field("uses: " + ACTION + version) == Some((USES, ACTION + version))
    ensures Field("with:") == Some((WITH, ""))
  {
    hide ACTION, IsWhitespace, Field, NoWhitespace;
    ActionIsValue(version);
    PlainKeys();
    var uses := Written("uses", Plain, "", " ", ACTION + version, "");
    assert Print(uses) == "uses: " + ACTION + version;
    FieldReads(uses);
    var with := Written("with", Plain, "", "", "", "");
    assert Print(with) == "with:";
    FieldReads(with);
  }

  lemma PlainKeys()
    ensures IsKey("uses") && IsKey("with") && AllWhitespace(" ") && AllWhitespace("") && IsValue("")
  {}

  /** What the step's entries are to the reader. */
  lemma StepReads(version: string, inputs: seq<Written>)
    requires NoWhitespace(version) && AreInputs(inputs)
    ensures var step := TheStep(version, inputs);
      && KeyOf(step[0]) == Some(USES) && ValueOf(step[0]) == ACTION + version && StartsWith(ACTION + version, ACTION)
      && KeyOf(step[1]) == Some(WITH) && ValueOf(step[1]) == ""
      && forall k :: 0 <= k < |inputs| ==>
           step[k + 2].indent == 10 && KeyOf(step[k + 2]) == Some(inputs[k].key) && ValueOf(step[k + 2]) == inputs[k].value
  {
    hide ACTION, IsWhitespace, Field, NoWhitespace, IsLineText, IsWritten, Print;
    FirstFields(version);
    forall k | 0 <= k < |inputs|
      ensures Field(Print(inputs[k])) == Some((inputs[k].key, inputs[k].value))
    {
      FieldReads(inputs[k]);
    }
  }

  lemma {:induction false} AllUnderWith(step: seq<Entry>, n: nat)
    requires 2 <= n <= |step| && IsStepField(step[1], WITH) && ValueOf(step[1]) == ""
    requires forall k :: 2 <= k < |step| ==> step[k].indent == 10
    ensures UnderWith(step, n)
  {
    hide KeyOf, ValueOf, WITH;
    if n > 2 {
      AllUnderWith(step, n - 1);
    } else {
      assert step[1].indent == 8;
    }
  }

  lemma NamesDiffer()
    ensures USES != WITH && HEAD == "head" && HEAD_SHA == "pr-head-sha" && HEAD != HEAD_SHA
    ensures CHECKED_OUT == "HEAD" && PULL_REQUEST_HEAD == "${{ github.event.pull_request.head.sha }}"
  {}

  lemma StepFlags(version: string, inputs: seq<Written>)
    requires NoWhitespace(version) && AreInputs(inputs)
    ensures var step := TheStep(version, inputs);
      && OnlyAt(FieldFlags(step, USES), {0}) && RunsReview(step[0])
      && OnlyAt(FieldFlags(step, WITH), {1})
      && forall k: nat :: k < |step| ==>
           (InputFlags(step)[k] <==> k >= 2 && (inputs[k - 2].key == "head" || inputs[k - 2].key == "pr-head-sha"))
  {
    hide KeyOf, ValueOf, ACTION, USES, WITH, HEAD, HEAD_SHA, NoWhitespace, AreInputs, Print;
    NamesDiffer();
    StepReads(version, inputs);
    var step := TheStep(version, inputs);
    assert step[0].indent == 8 && step[1].indent == 8;
    forall k: nat | 2 <= k < |step|
      ensures step[k].indent == 10 && KeyOf(step[k]) == Some(inputs[k - 2].key) && UnderWith(step, k)
    {
      AllUnderWith(step, k);
    }
  }

  lemma InputIndent(version: string, inputs: seq<Written>, i: nat)
    requires 2 <= i < |inputs| + 2
    ensures TheStep(version, inputs)[i].indent == 10
  {
    hide ACTION, Print;
  }

  lemma NotContinued(step: seq<Entry>, k: nat)
    requires 2 <= k && forall i :: 2 <= i < |step| ==> step[i].indent == 10
    ensures !IsContinued(step, k)
  {}

  lemma StepMeans(version: string, inputs: seq<Written>)
    requires NoWhitespace(version) && AreInputs(inputs)
    ensures IsReviewStep(TheStep(version, inputs)) <==> HasIdentity(inputs)
  {
    hide HasIdentity, IsNamed, ReviewStepAt, TheStep, AreInputs, NoWhitespace;
    var step := TheStep(version, inputs);
    if IsReviewStep(step) {
      var u: nat, w: nat, h: nat, s: nat :| ReviewStepAt(step, u, w, h, s);
      StepHasIdentity(version, inputs, u, w, h, s);
    }
    if HasIdentity(inputs) {
      IdentityMakesStep(version, inputs);
    }
  }

  lemma StepHasIdentity(version: string, inputs: seq<Written>, u: nat, w: nat, h: nat, s: nat)
    requires NoWhitespace(version) && AreInputs(inputs) && ReviewStepAt(TheStep(version, inputs), u, w, h, s)
    ensures HasIdentity(inputs)
  {
    hide KeyOf, ValueOf, USES, WITH, HEAD, HEAD_SHA, CHECKED_OUT, PULL_REQUEST_HEAD, NoWhitespace, AreInputs,
      FieldFlags, InputFlags, RunsReview, TheStep, IsContinued;
    NamesDiffer();
    StepReads(version, inputs);
    StepFlags(version, inputs);
    var step := TheStep(version, inputs);
    assert InputFlags(step)[h] && InputFlags(step)[s];
    var a, b := h - 2, s - 2;
    assert step[a + 2] == step[h] && step[b + 2] == step[s];
    assert IsNamed(inputs, a, "head", "HEAD") && IsNamed(inputs, b, "pr-head-sha", "${{ github.event.pull_request.head.sha }}");
    forall k: nat | k < |inputs| && k != a && k != b
      ensures inputs[k].key != "head" && inputs[k].key != "pr-head-sha"
    {
      assert !InputFlags(step)[k + 2];
    }
  }

  lemma IdentityMakesStep(version: string, inputs: seq<Written>)
    requires NoWhitespace(version) && AreInputs(inputs) && HasIdentity(inputs)
    ensures IsReviewStep(TheStep(version, inputs))
  {
    hide KeyOf, ValueOf, USES, WITH, HEAD, HEAD_SHA, CHECKED_OUT, PULL_REQUEST_HEAD, NoWhitespace, AreInputs,
      FieldFlags, InputFlags, RunsReview, TheStep, IsContinued;
    NamesDiffer();
    StepReads(version, inputs);
    StepFlags(version, inputs);
    var step := TheStep(version, inputs);
    var h: nat, s: nat :| && IsNamed(inputs, h, "head", "HEAD")
      && IsNamed(inputs, s, "pr-head-sha", "${{ github.event.pull_request.head.sha }}")
      && forall k: nat :: k < |inputs| && k != h && k != s ==> inputs[k].key != "head" && inputs[k].key != "pr-head-sha";
    assert h != s && OnlyAt(InputFlags(step), {h + 2, s + 2});
    forall i | 2 <= i < |step|
      ensures step[i].indent == 10
    {
      InputIndent(version, inputs, i);
    }
    NotContinued(step, h + 2);
    NotContinued(step, s + 2);
    assert ReviewStepAt(step, 0, 1, h + 2, s + 2);
  }

  /** Printed with any version, in any order and any spelling, with any other inputs, comments
    * and blanks around the colons, the step is accepted exactly when its inputs name the two
    * heads once each and with their required values. */
  lemma PrintedStepAcceptedExactlyWhen(version: string, inputs: seq<Written>)
    requires NoWhitespace(version) && AreInputs(inputs)
    ensures Judged(Workflow(version, inputs)) == Accepted <==> HasIdentity(inputs)
  {
    hide ACTION, USES, NoWhitespace, AreInputs, IsReviewStep, TheStep, StepEntries, Entries, Lines, Workflow, Judged, StepAt,
      IsHeaderAt, RunsReview, HasIdentity;
    var text := Workflow(version, inputs);
    WorkflowEntries(version, inputs);
    var all := StepEntries(version, inputs);
    OneStep(version, inputs);
    StepMeans(version, inputs);
    StepFlags(version, inputs);
    AcceptedExactlyWhen(text);
    var step := TheStep(version, inputs);
    assert RunsReview(step[0]);
    assert VerdictAt(all, 3) == Some(if IsReviewStep(step) then ReviewStep else BadStep);
    if IsReviewStep(step) {
      assert OnlyReview(all, |all|, 3);
    }
  }

  /** In any workflow at all: a step that runs the action and gives head, or pr-head-sha, twice
    * below `with`, in whatever spellings, is rejected. */
  lemma SecondInputIsRejected(text: string, header: nat, a: nat, b: nat, first: Written, second: Written)
    requires IsWritten(first) && IsWritten(second) && first.key == second.key && first.key in ["head", "pr-head-sha"]
    requires var all := Entries(Lines(text));
      && IsHeaderAt(all, header)
      && var step := StepAt(all, header);
      && (exists k :: 0 <= k < |step| && RunsReview(step[k]))
      && a < b < |step| && step[a] == Entry(10, Print(first)) && step[b] == Entry(10, Print(second))
      && UnderWith(step, a) && UnderWith(step, b)
    ensures Judged(text) != Accepted
  {
    hide USES, RunsReview, Entries, Lines, Judged, StepAt, IsHeader, UnderWith, IsWritten, Print, Field;
    var all := Entries(Lines(text));
    var step := StepAt(all, header);
    NamesDiffer();
    FieldReads(first);
    FieldReads(second);
    TwiceNamed(step, a, b);
    assert VerdictAt(all, header) == Some(BadStep);
    AcceptedExactlyWhen(text);
    forall i: nat
      ensures !OnlyReview(all, |all|, i)
    {
      assert i != header ==> !NotReviewing(VerdictAt(all, header));
    }
  }

  lemma TwiceNamed(step: seq<Entry>, a: nat, b: nat)
    requires a < b < |step| && IsIdentityInput(step, a) && IsIdentityInput(step, b) && KeyOf(step[a]) == KeyOf(step[b])
    ensures !IsReviewStep(step)
  {
    hide KeyOf, IsIdentityInput, ReviewStepAt;
    forall u: nat, w: nat, h: nat, s: nat
      ensures !ReviewStepAt(step, u, w, h, s)
    {
      if ReviewStepAt(step, u, w, h, s) {
        NamedApart(step, u, w, h, s, a, b);
      }
    }
  }

  lemma NamedApart(step: seq<Entry>, u: nat, w: nat, h: nat, s: nat, a: nat, b: nat)
    requires ReviewStepAt(step, u, w, h, s)
    requires a < b < |step| && IsIdentityInput(step, a) && IsIdentityInput(step, b)
    ensures KeyOf(step[a]) != KeyOf(step[b])
  {
    hide KeyOf, ValueOf, IsIdentityInput, HEAD, HEAD_SHA, FieldFlags, RunsReview;
    NamesDiffer();
    assert InputFlags(step)[a] && InputFlags(step)[b];
    assert {a, b} == {h, s};
  }
}
