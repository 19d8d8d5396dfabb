/** Fence lines as they are written: section 4.5 of CommonMark as far as
  * scripts/ci/check-pr-semantic-review-currentness.py, lines 26 and 228-243, follows it. */
module FenceTexts {
  import opened Wrappers
  import opened Text
  import opened PyText
  import opened Fences

  /** At least three backticks, or at least three tildes, and nothing else. */
  predicate IsRun(run: string) {
    |run| >= 3 && ((forall i :: 0 <= i < |run| ==> run[i] == '`') || (forall i :: 0 <= i < |run| ==> run[i] == '~'))
  }

  /** Blanks, a run that ends where its character does, and the rest. */
  predicate IsFenceLine(line: string, lead: string, run: string, rest: string) {
    AllBlank(lead) && IsRun(run) && (rest != "" ==> rest[0] != run[0]) && line == lead + run + rest
  }

  ghost predicate IsFence(line: string, run: string, bare: bool) {
    exists lead, rest :: IsFenceLine(line, lead, run, rest) && (bare <==> AllBlank(rest))
  }

  lemma {:induction false} RunEnds(line: string, c: char, from: nat, to: nat)
    requires from <= to <= |line| && (forall i :: from <= i < to ==> line[i] == c) && (to < |line| ==> line[to] != c)
    ensures RunEnd(line, c, from) == to
    decreases |line| - from
  {
    if from < to {
      RunEnds(line, c, from + 1, to);
    }
  }

  lemma {:induction false} BlanksEnd(line: string, from: nat, to: nat)
    requires from <= to <= |line| && (forall i :: from <= i < to ==> IsBlank(line[i])) && (to < |line| ==> !IsBlank(line[to]))
    ensures SkipBlanks(line, from) == to
    decreases |line| - from
  {
    if from < to {
      BlanksEnd(line, from + 1, to);
    }
  }

  /** What the parts of a fence line are to the reader. */
  lemma FenceRead(line: string, lead: string, run: string, rest: string)
    requires IsFenceLine(line, lead, run, rest)
    ensures FenceMatch(line) == Some(FenceMark(run, |lead| + |run|)) && line[|lead| + |run|..] == rest
  {
    hide RunEnd, SkipBlanks;
    var k, e := |lead|, |lead| + |run|;
    assert forall i :: 0 <= i < k ==> line[i] == lead[i];
    assert forall i :: k <= i < e ==> line[i] == run[i - k];
    assert e < |line| ==> line[e] == rest[0];
    assert line[k..e] == run && line[k] == run[0];
    BlanksEnd(line, 0, k);
    RunEnds(line, run[0], k, e);
  }

  /** What the reader takes for a fence is one. */
  lemma FenceTaken(line: string)
    requires FenceMatch(line).Some?
    ensures var m := FenceMatch(line).value; IsFenceLine(line, line[..m.end - |m.run|], m.run, line[m.end..])
  {
    hide AllBlank;
    var m := FenceMatch(line).value;
    var k := m.end - |m.run|;
    RunIs(line, SkipBlanks(line, 0));
    assert line == line[..k] + line[k..m.end] + line[m.end..];
  }

  lemma RunIs(line: string, start: nat)
    requires FenceMatch(line).Some? && start == SkipBlanks(line, 0)
    ensures IsRun(FenceMatch(line).value.run) && FenceMatch(line).value.run[0] in "`~"
  {
    hide SkipBlanks;
    var m := FenceMatch(line).value;
    assert forall i :: 0 <= i < |m.run| ==> m.run[i] == line[start + i];
  }

  /** A line is a fence, with its run and with nothing but blanks behind it, exactly when it reads
    * as one; any other line is plain. */
  lemma FenceMeans(line: string, run: string, bare: bool)
    ensures MarkOf(line) == Fence(run, bare) <==> IsFence(line, run, bare)
    ensures MarkOf(line).Plain? <==> forall r, b :: !IsFence(line, r, b)
  {
    hide FenceMatch, IsFenceLine, AllBlank;
    if FenceMatch(line).Some? {
      FenceTaken(line);
      var m := FenceMatch(line).value;
      assert IsFence(line, m.run, AllBlank(line[m.end..]));
    }
    forall r, b | IsFence(line, r, b)
      ensures MarkOf(line) == Fence(r, b)
    {
      var lead, rest :| IsFenceLine(line, lead, r, rest) && (b <==> AllBlank(rest));
      FenceRead(line, lead, r, rest);
    }
  }

  /** A fence closes another exactly when it is bare, of the same character and no shorter. */
  lemma ClosesMeans(line: string, run: string, bare: bool, opener: string, opening: string, info: bool)
    requires IsFence(line, run, bare) && IsFence(opener, opening, info)
    ensures MarkOf(line).Closes(MarkOf(opener)) <==> bare && run[0] == opening[0] && |run| >= |opening|
  {
    hide MarkOf, IsFence;
    FenceMeans(line, run, bare);
    FenceMeans(opener, opening, info);
    RunOf(line, run, bare);
    RunOf(opener, opening, info);
  }

  lemma RunOf(line: string, run: string, bare: bool)
    requires IsFence(line, run, bare)
    ensures IsRun(run)
  {}

  /** A written block: an opening fence with any info string, lines that do not close it, and a
    * closing fence. Its body is exactly those lines, whatever fences of the other kind or shorter
    * ones they hold, and outside of it everything is kept. */
  lemma WrittenBlockIsRead(opener: string, body: seq<string>, closer: string, run: string, info: bool, closing: string)
    requires IsFence(opener, run, info) && IsFence(closer, closing, true) && closing[0] == run[0] && |closing| >= |run|
    requires forall i, r, b :: 0 <= i < |body| && IsFence(body[i], r, b) ==> !b || r[0] != run[0] || |r| < |run|
    ensures var lines := [opener] + body + [closer];
      Blocks(lines) == [Block(0, |body| + 1)] && BodiesOf(lines) == [body]
  {
    hide MarkOf, IsFence, BlocksFrom, IsRun;
    var lines := [opener] + body + [closer];
    FenceMeans(opener, run, info);
    FenceMeans(closer, closing, true);
    RunOf(opener, run, info);
    ClosesMeans(closer, closing, true, opener, run, info);
    forall i | 0 <= i < |body|
      ensures !MarkOf(body[i]).Closes(MarkOf(opener))
    {
      NotClosing(body[i], opener, run, info);
    }
    OnlyBlock(MarksOf(lines), |body| + 1);
    assert lines[1..|body| + 1] == body;
  }

  lemma NotClosing(line: string, opener: string, run: string, info: bool)
    requires IsFence(opener, run, info)
    requires forall r, b :: IsFence(line, r, b) ==> !b || r[0] != run[0] || |r| < |run|
    ensures !MarkOf(line).Closes(MarkOf(opener))
  {
    hide MarkOf, IsFence;
    FenceMeans(line, "", false);
    if MarkOf(line).Fence? {
      FenceMeans(line, MarkOf(line).run, MarkOf(line).bare);
      ClosesMeans(line, MarkOf(line).run, MarkOf(line).bare, opener, run, info);
    }
  }

  lemma OnlyBlock(marks: seq<Mark>, close: nat)
    requires 0 < close && |marks| == close + 1 && marks[0].Fence? && marks[close].Closes(marks[0])
    requires forall i :: 0 < i < close ==> !marks[i].Closes(marks[0])
    ensures BlocksFrom(marks, 0) == [Block(0, close)]
  {
    hide BlocksFrom;
    assert NextOpener(marks, 0) == 0;
    assert NextCloser(marks, marks[0], 1) == close;
    BlockToEnd(marks, close);
  }

  lemma BlockToEnd(marks: seq<Mark>, close: nat)
    requires |marks| == close + 1 > 1 && NextOpener(marks, 0) == 0 && NextCloser(marks, marks[0], 1) == close
    ensures BlocksFrom(marks, 0) == [Block(0, close)]
  {
    BlocksAtEnd(marks);
  }

  lemma BlocksAtEnd(marks: seq<Mark>)
    ensures BlocksFrom(marks, |marks|) == []
  {}
}
