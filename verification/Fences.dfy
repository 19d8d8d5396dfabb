/** The two Markdown fence readers of scripts/ci/check-pr-semantic-review-currentness.py. */
module Fences {
  import opened Wrappers
  import opened Text
  import opened PyText

  // ---------- fence lines ----------

  /** The fence characters of a line that starts like a fence, and where they end. */
  datatype FenceMark = FenceMark(run: string, end: nat)

  function SkipBlanks(line: string, from: nat): (i: nat)
    requires from <= |line|
    ensures from <= i <= |line| && AllBlank(line[from..i])
    ensures i < |line| ==> !IsBlank(line[i])
    decreases |line| - from
  {
    if from < |line| && IsBlank(line[from]) then
      var i := SkipBlanks(line, from + 1);
      assert line[from..i] == [line[from]] + line[from + 1..i];
      i
    else from
  }

  function RunEnd(line: string, c: char, from: nat): (i: nat)
    requires from <= |line|
    ensures from <= i <= |line| && forall k :: from <= k < i ==> line[k] == c
    ensures i < |line| ==> line[i] != c
    decreases |line| - from
  {
    if from < |line| && line[from] == c then RunEnd(line, c, from + 1) else from
  }

  /** Blanks, then at least three backticks or at least three tildes. */
  function FenceMatch(line: string): (r: Option<FenceMark>)
    ensures r.Some? ==> 3 <= |r.value.run| <= r.value.end <= |line|
    ensures r.Some? ==> AllBlank(line[..r.value.end - |r.value.run|])
    ensures r.Some? ==> line[r.value.end - |r.value.run|..r.value.end] == r.value.run
    ensures r.Some? && r.value.end < |line| ==> line[r.value.end] != r.value.run[0]
  {
    var start := SkipBlanks(line, 0);
    if start < |line| && (line[start] == '`' || line[start] == '~') then
      var end := RunEnd(line, line[start], start);
      if end - start >= 3 then Some(FenceMark(line[start..end], end)) else None
    else None
  }

  /** The closing rule of section 4.5 of CommonMark: the opener's character, at
    * least as many of them, and nothing after them but blanks. */
  predicate ClosesFence(line: string, hit: FenceMark, opener: string)
    requires hit.end <= |line| && hit.run != "" && opener != ""
  {
    hit.run[0] == opener[0] && |hit.run| >= |opener| && AllBlank(line[hit.end..])
  }

  /** What a line can do to a fence reader: nothing, or open with its run of fence
    * characters and, when nothing follows the run, close. */
  datatype Mark = Plain | Fence(run: string, bare: bool) {
    predicate Closes(opener: Mark) {
      Fence? && opener.Fence? && bare && run != "" && opener.run != "" &&
      run[0] == opener.run[0] && |run| >= |opener.run|
    }
  }

  function MarkOf(line: string): Mark {
    match FenceMatch(line)
    case None => Plain
    case Some(m) => Fence(m.run, AllBlank(line[m.end..]))
  }

  function MarksOf(lines: seq<string>): (marks: seq<Mark>)
    ensures |marks| == |lines|
  {
    seq(|lines|, i requires 0 <= i < |lines| => MarkOf(lines[i]))
  }

  // ---------- the blocks of a document ----------

  /** A fenced block: its opening line and its closing line, which is the number of
    * lines when the block is never closed. */
  datatype Block = Block(open: nat, close: nat)

  function NextOpener(marks: seq<Mark>, from: nat): (o: nat)
    requires from <= |marks|
    ensures from <= o <= |marks| && (o < |marks| ==> marks[o].Fence?)
    ensures forall j :: from <= j < o ==> marks[j].Plain?
    decreases |marks| - from
  {
    if from == |marks| || marks[from].Fence? then from else NextOpener(marks, from + 1)
  }

  function NextCloser(marks: seq<Mark>, opener: Mark, from: nat): (c: nat)
    requires from <= |marks|
    ensures from <= c <= |marks| && (c < |marks| ==> marks[c].Closes(opener))
    ensures forall j :: from <= j < c ==> !marks[j].Closes(opener)
    decreases |marks| - from
  {
    if from == |marks| || marks[from].Closes(opener) then from else NextCloser(marks, opener, from + 1)
  }

  function After(marks: seq<Mark>, close: nat): nat {
    if close < |marks| then close + 1 else |marks|
  }

  /** The blocks that open at or after the given line: from each opener to the first
    * line that closes it. */
  function BlocksFrom(marks: seq<Mark>, from: nat): (blocks: seq<Block>)
    requires from <= |marks|
    ensures forall b :: b in blocks ==> from <= b.open < b.close <= |marks|
    decreases |marks| - from
  {
    var o := NextOpener(marks, from);
    if o == |marks| then []
    else
      var c := NextCloser(marks, marks[o], o + 1);
      [Block(o, c)] + BlocksFrom(marks, After(marks, c))
  }

  function Blocks(lines: seq<string>): (blocks: seq<Block>)
    ensures forall b :: b in blocks ==> b.open < b.close <= |lines|
  {
    BlocksFrom(MarksOf(lines), 0)
  }

  predicate InBlock(blocks: seq<Block>, i: nat) {
    exists b :: b in blocks && b.open <= i <= b.close
  }

  /** The lines with every line of every block, fences included, emptied. */
  function Blanked(lines: seq<string>): (out: seq<string>)
    ensures |out| == |lines|
  {
    seq(|lines|, i requires 0 <= i < |lines| => if InBlock(Blocks(lines), i) then "" else lines[i])
  }

  /** What outside_fences makes of a text. */
  function OutsideText(text: string): string {
    Join(Blanked(SplitLines(text)), "\n")
  }

  /** What fenced_blocks makes of a text. */
  function FencedTexts(text: string): seq<string> {
    JoinAll(BodiesOf(SplitLines(text)))
  }

  function BodiesOf(lines: seq<string>): seq<seq<string>> {
    Bodies(lines, Blocks(lines))
  }

  function Bodies(lines: seq<string>, blocks: seq<Block>): (bodies: seq<seq<string>>)
    requires forall b :: b in blocks ==> b.open < b.close <= |lines|
    ensures |bodies| == |blocks|
  {
    seq(|blocks|, k requires 0 <= k < |blocks| => lines[blocks[k].open + 1..blocks[k].close])
  }

  function JoinAll(bodies: seq<seq<string>>): (texts: seq<string>)
    ensures |texts| == |bodies|
  {
    seq(|bodies|, k requires 0 <= k < |bodies| => Join(bodies[k], "\n"))
  }

  // ---------- one line at a time ----------

  /** The blocks still in front of a reader that has consumed the lines before `at`,
    * the one it is inside of (opened at open) included. */
  ghost function Ahead(marks: seq<Mark>, open: Option<nat>, at: nat): (blocks: seq<Block>)
    requires at <= |marks| && (open.Some? ==> open.value < at)
    ensures forall b :: b in blocks ==> b.open < b.close <= |marks| && at <= b.close
  {
    match open
    case None => BlocksFrom(marks, at)
    case Some(o) =>
      var c := NextCloser(marks, marks[o], at);
      [Block(o, c)] + BlocksFrom(marks, After(marks, c))
  }

  lemma LineStatus(marks: seq<Mark>, open: Option<nat>, at: nat)
    requires at < |marks| && (open.Some? ==> open.value < at)
    ensures InBlock(Ahead(marks, open, at), at) <==> open.Some? || marks[at].Fence?
  {
    var blocks := Ahead(marks, open, at);
    if open.Some? || marks[at].Fence? {
      assert blocks[0] in blocks;
    } else {
      assert blocks == BlocksFrom(marks, at + 1);
    }
  }

  /** Where a reader is that has consumed the marks before `at`: the blocks it has
    * completed and the opening line of the block it is inside of. */
  ghost predicate ReaderAt(marks: seq<Mark>, done: seq<Block>, open: Option<nat>, at: nat) {
    at <= |marks| && (open.Some? ==> open.value < at && marks[open.value].Fence?) &&
    (forall b :: b in done ==> b.open < b.close < at) &&
    BlocksFrom(marks, 0) == done + Ahead(marks, open, at)
  }

  /** The block a reader is inside of once it has passed a line. */
  function OpenAfter(marks: seq<Mark>, open: Option<nat>, at: nat): Option<nat>
    requires at < |marks| && (open.Some? ==> open.value < at)
  {
    if open.None? then if marks[at].Fence? then Some(at) else None
    else if marks[at].Closes(marks[open.value]) then None
    else open
  }

  function DoneAfter(marks: seq<Mark>, done: seq<Block>, open: Option<nat>, at: nat): seq<Block>
    requires at < |marks| && (open.Some? ==> open.value < at)
  {
    if open.Some? && marks[at].Closes(marks[open.value]) then done + [Block(open.value, at)] else done
  }

  /** One line moves every reader the same way, whatever it does with the line. */
  lemma Consume(marks: seq<Mark>, done: seq<Block>, open: Option<nat>, at: nat)
    requires ReaderAt(marks, done, open, at) && at < |marks|
    ensures ReaderAt(marks, DoneAfter(marks, done, open, at), OpenAfter(marks, open, at), at + 1)
    ensures InBlock(BlocksFrom(marks, 0), at) <==> open.Some? || marks[at].Fence?
  {
    hide BlocksFrom, InBlock;
    LineStatus(marks, open, at);
    InBlockOf(done, Ahead(marks, open, at), at);
    if open.Some? && marks[at].Closes(marks[open.value]) {
      PassCloser(marks, open.value, at);
      Regroup(done, Block(open.value, at), Ahead(marks, None, at + 1));
    } else {
      PassOther(marks, open, at);
    }
  }

  lemma PassOther(marks: seq<Mark>, open: Option<nat>, at: nat)
    requires at < |marks| && (open.Some? ==> open.value < at && !marks[at].Closes(marks[open.value]))
    ensures Ahead(marks, open, at) == Ahead(marks, OpenAfter(marks, open, at), at + 1)
  {
    hide Mark.Closes;
    if open.Some? {
      assert NextCloser(marks, marks[open.value], at) == NextCloser(marks, marks[open.value], at + 1);
    } else if marks[at].Fence? {
      hide NextCloser;
      assert NextOpener(marks, at) == at;
    } else {
      hide NextCloser;
      assert NextOpener(marks, at) == NextOpener(marks, at + 1);
    }
  }

  lemma PassCloser(marks: seq<Mark>, open: nat, at: nat)
    requires open < at < |marks| && marks[at].Closes(marks[open])
    ensures Ahead(marks, Some(open), at) == [Block(open, at)] + Ahead(marks, None, at + 1)
  {
    assert NextCloser(marks, marks[open], at) == at;
    assert After(marks, at) == at + 1;
  }

  lemma Regroup(done: seq<Block>, b: Block, ahead: seq<Block>)
    ensures done + ([b] + ahead) == done + [b] + ahead
  {}

  lemma BlankedNext(lines: seq<string>, i: nat)
    requires i < |lines|
    ensures Blanked(lines)[..i + 1] == Blanked(lines)[..i] + [if InBlock(Blocks(lines), i) then "" else lines[i]]
  {}

  lemma InBlockOf(done: seq<Block>, ahead: seq<Block>, i: nat)
    requires forall b :: b in done ==> b.close < i
    ensures InBlock(done + ahead, i) <==> InBlock(ahead, i)
  {
    if b :| b in ahead && b.open <= i <= b.close {
      assert b in done + ahead;
    }
  }

  /** The mark of a line says exactly what the code asks its fence match. */
  lemma MarkMeans(lines: seq<string>, i: nat, opener: Mark)
    requires i < |lines|
    ensures var hit := FenceMatch(lines[i]);
            var mark := MarksOf(lines)[i];
            && mark.Fence? == hit.Some?
            && (hit.Some? ==>
                  && mark.run == hit.value.run != "" && hit.value.end <= |lines[i]|
                  && (opener.Fence? && opener.run != "" ==>
                        (mark.Closes(opener) <==> ClosesFence(lines[i], hit.value, opener.run))))
            && (hit.None? ==> !mark.Closes(opener))
  {}

  // ---------- the two readers ----------

  method OutsideFences(text: string) returns (out: string)
    ensures out == OutsideText(text)
  {
    hide FenceMatch, MarksOf, BlocksFrom, ReaderAt, Blanked, ClosesFence, InBlock, Mark.Closes;
    var lines := SplitLines(text);
    var kept: seq<string> := [];
    var inside, opener := false, "";
    ghost var marks := MarksOf(lines);
    ghost var done: seq<Block>, open: Option<nat> := [], None;
    ReaderStarts(marks);
    for i := 0 to |lines|
      invariant ReaderAt(marks, done, open, i) && inside == open.Some?
      invariant inside ==> open.value < i && marks[open.value].Fence? && opener == marks[open.value].run != ""
      invariant kept == Blanked(lines)[..i]
    {
      var line := lines[i];
      var hit := FenceMatch(line);
      MarkMeans(lines, i, if open.Some? then marks[open.value] else Plain);
      Consume(marks, done, open, i);
      BlankedNext(lines, i);
      done, open := DoneAfter(marks, done, open, i), OpenAfter(marks, open, i);
      if !inside {
        if hit.Some? {
          inside, opener := true, hit.value.run;
          kept := kept + [""];
          continue;
        }
        kept := kept + [line];
        continue;
      }
      if hit.Some? && ClosesFence(line, hit.value, opener) {
        inside := false;
      }
      kept := kept + [""];
    }
    assert kept == Blanked(lines);
    out := Join(kept, "\n");
  }

  method FencedBlocks(text: string) returns (blocks: seq<string>)
    ensures blocks == FencedTexts(text)
  {
    hide FenceMatch, MarksOf, BlocksFrom, ReaderAt, ClosesFence, Mark.Closes, Bodies, JoinAll, SplitLines, Join;
    var lines := SplitLines(text);
    blocks := [];
    var body: Option<seq<string>> := None;
    var opener := "";
    ghost var marks := MarksOf(lines);
    ghost var done: seq<Block>, open: Option<nat> := [], None;
    ReaderStarts(marks);
    NoBodies(lines);
    for i := 0 to |lines|
      invariant ReaderAt(marks, done, open, i) && body.Some? == open.Some?
      invariant body.Some? ==> open.value < i && marks[open.value].Fence? && opener == marks[open.value].run != ""
      invariant body.Some? ==> body.value == lines[open.value + 1..i]
      invariant (forall b :: b in done ==> b.open < b.close <= |lines|) && blocks == JoinAll(Bodies(lines, done))
    {
      var line := lines[i];
      var hit := FenceMatch(line);
      MarkMeans(lines, i, if open.Some? then marks[open.value] else Plain);
      Consume(marks, done, open, i);
      if open.Some? {
        AddBody(lines, done, Block(open.value, i));
      }
      done, open := DoneAfter(marks, done, open, i), OpenAfter(marks, open, i);
      if body.None? {
        if hit.Some? {
          assert lines[i + 1..i + 1] == [];
          body, opener := Some([]), hit.value.run;
        }
        continue;
      }
      if hit.Some? && ClosesFence(line, hit.value, opener) {
        blocks := blocks + [Join(body.value, "\n")];
        body := None;
        continue;
      }
      SliceGrows(lines, open.value + 1, i);
      body := Some(body.value + [line]);
    }
    ReaderEnds(marks, done, open);
    assert Blocks(lines) == if body.Some? then done + [Block(open.value, |lines|)] else done;
    if body.Some? {
      AddBody(lines, done, Block(open.value, |lines|));
      blocks := blocks + [Join(body.value, "\n")];
    }
  }

  lemma SliceGrows(lines: seq<string>, from: nat, i: nat)
    requires from <= i < |lines|
    ensures lines[from..i + 1] == lines[from..i] + [lines[i]]
  {}

  lemma ReaderStarts(marks: seq<Mark>)
    ensures ReaderAt(marks, [], None, 0)
  {}

  lemma ReaderEnds(marks: seq<Mark>, done: seq<Block>, open: Option<nat>)
    requires ReaderAt(marks, done, open, |marks|)
    ensures BlocksFrom(marks, 0) == done + if open.Some? then [Block(open.value, |marks|)] else []
  {}

  lemma NoBodies(lines: seq<string>)
    ensures JoinAll(Bodies(lines, [])) == []
  {}

  lemma AddBody(lines: seq<string>, done: seq<Block>, b: Block)
    requires forall d :: d in done ==> d.open < d.close <= |lines|
    requires b.open < b.close <= |lines|
    ensures JoinAll(Bodies(lines, done + [b]))
         == JoinAll(Bodies(lines, done)) + [Join(lines[b.open + 1..b.close], "\n")]
  {}

  // ---------- what the readers agree on ----------

  /** Blanking leaves nothing that could open a fence. */
  lemma {:induction false} NoFenceOutsideBlocks(marks: seq<Mark>, from: nat, i: nat)
    requires from <= i < |marks| && !InBlock(BlocksFrom(marks, from), i)
    ensures marks[i].Plain?
    decreases |marks| - from
  {
    var o := NextOpener(marks, from);
    if o <= i {
      var blocks := BlocksFrom(marks, from);
      var c := blocks[0].close;
      assert blocks[0] in blocks;
      assert forall b :: b in BlocksFrom(marks, After(marks, c)) ==> b in blocks;
      NoFenceOutsideBlocks(marks, After(marks, c), i);
    }
  }

  lemma NoFencesNoBlocks(lines: seq<string>)
    requires forall i :: 0 <= i < |lines| ==> MarkOf(lines[i]).Plain?
    ensures Blocks(lines) == [] && Blanked(lines) == lines
  {
    assert NextOpener(MarksOf(lines), 0) == |lines|;
  }

  lemma BlankedHasNoFences(lines: seq<string>)
    ensures forall i :: 0 <= i < |lines| ==> MarkOf(Blanked(lines)[i]).Plain?
  {
    forall i | 0 <= i < |lines|
      ensures MarkOf(Blanked(lines)[i]).Plain?
    {
      if !InBlock(Blocks(lines), i) {
        NoFenceOutsideBlocks(MarksOf(lines), 0, i);
      }
    }
  }

  /** On line lists, blanking twice is blanking once, and what is left has no blocks. */
  lemma BlankingSettles(lines: seq<string>)
    ensures Blanked(Blanked(lines)) == Blanked(lines) && Blocks(Blanked(lines)) == []
  {
    BlankedHasNoFences(lines);
    NoFencesNoBlocks(Blanked(lines));
  }

  /** A block as section 4.5 of CommonMark describes it: from a fence to the first
    * later line that closes it, or to the end when none does. */
  ghost predicate IsBlock(marks: seq<Mark>, b: Block) {
    && b.open < b.close <= |marks| && marks[b.open].Fence?
    && (forall j :: b.open < j < b.close ==> !marks[j].Closes(marks[b.open]))
    && (b.close < |marks| ==> marks[b.close].Closes(marks[b.open]))
  }

  /** The blocks come in order and no line outside them is a fence. */
  ghost predicate AreBlocks(marks: seq<Mark>, from: nat, blocks: seq<Block>) {
    && (forall k :: 0 <= k < |blocks| ==> IsBlock(marks, blocks[k]) && from <= blocks[k].open)
    && (forall k, k' :: 0 <= k < k' < |blocks| ==> blocks[k].close < blocks[k'].open)
    && (forall j :: from <= j < |marks| && !InBlock(blocks, j) ==> marks[j].Plain?)
  }

  /** The blocks the readers find are blocks in this sense, and no others are. */
  lemma {:induction false} BlocksAreTheOnlyOnes(marks: seq<Mark>, from: nat, blocks: seq<Block>)
    requires from <= |marks|
    ensures AreBlocks(marks, from, blocks) <==> blocks == BlocksFrom(marks, from)
    decreases |marks| - from
  {
    hide AreBlocks, NextOpener, NextCloser;
    var o := NextOpener(marks, from);
    if o == |marks| {
      NoBlocks(marks, from, blocks);
    } else {
      var next := After(marks, NextCloser(marks, marks[o], o + 1));
      if AreBlocks(marks, from, blocks) {
        FirstBlock(marks, from, blocks);
        BlocksAreTheOnlyOnes(marks, next, blocks[1..]);
        assert blocks == [blocks[0]] + blocks[1..];
      }
      BlocksAreTheOnlyOnes(marks, next, BlocksFrom(marks, next));
      PrependBlock(marks, from, Block(o, NextCloser(marks, marks[o], o + 1)), BlocksFrom(marks, next));
    }
  }

  lemma NoBlocks(marks: seq<Mark>, from: nat, blocks: seq<Block>)
    requires from <= |marks| && NextOpener(marks, from) == |marks|
    ensures AreBlocks(marks, from, blocks) <==> blocks == []
  {
    assert blocks != [] ==> blocks[0] in blocks;
  }

  lemma FirstOpens(marks: seq<Mark>, from: nat, blocks: seq<Block>)
    requires from <= |marks| && NextOpener(marks, from) < |marks| && AreBlocks(marks, from, blocks)
    ensures blocks != [] && blocks[0].open == NextOpener(marks, from)
  {
    hide NextOpener, NextCloser, Mark.Closes;
    var o := NextOpener(marks, from);
    assert InBlock(blocks, o);
    var b :| b in blocks && b.open <= o <= b.close;
    var k :| 0 <= k < |blocks| && blocks[k] == b;
    assert blocks[0].open <= b.open by {
      assert IsBlock(marks, blocks[0]);
      assert forall m :: 0 < m < |blocks| ==> blocks[0].close < blocks[m].open;
    }
    assert marks[blocks[0].open].Fence?;
  }

  lemma FirstBlock(marks: seq<Mark>, from: nat, blocks: seq<Block>)
    requires from <= |marks| && NextOpener(marks, from) < |marks| && AreBlocks(marks, from, blocks)
    ensures blocks != []
    ensures var o := NextOpener(marks, from);
      var c := NextCloser(marks, marks[o], o + 1);
      blocks[0] == Block(o, c) && AreBlocks(marks, After(marks, c), blocks[1..])
  {
    hide NextOpener, NextCloser, Mark.Closes;
    FirstOpens(marks, from, blocks);
    var o := NextOpener(marks, from);
    var c := NextCloser(marks, marks[o], o + 1);
    assert IsBlock(marks, blocks[0]);
    var rest := blocks[1..];
    forall k | 0 <= k < |rest|
      ensures IsBlock(marks, rest[k]) && After(marks, c) <= rest[k].open
    {
      assert rest[k] == blocks[k + 1];
    }
    forall j | After(marks, c) <= j < |marks| && !InBlock(rest, j)
      ensures marks[j].Plain?
    {
      assert forall b :: b in blocks ==> b == blocks[0] || b in rest;
      assert !InBlock(blocks, j);
    }
  }

  lemma PrependBlock(marks: seq<Mark>, from: nat, b: Block, rest: seq<Block>)
    requires IsBlock(marks, b) && from <= b.open && AreBlocks(marks, After(marks, b.close), rest)
    requires forall j :: from <= j < b.open ==> marks[j].Plain?
    ensures AreBlocks(marks, from, [b] + rest)
  {
    hide IsBlock;
    var blocks := [b] + rest;
    forall k | 0 <= k < |blocks|
      ensures IsBlock(marks, blocks[k]) && from <= blocks[k].open && (k > 0 ==> b.close < blocks[k].open)
    {
      BlockBounds(marks, b);
      assert k > 0 ==> blocks[k] == rest[k - 1];
      if k > 0 {
        BlockBounds(marks, rest[k - 1]);
      }
    }
    forall k, k' | 0 <= k < k' < |blocks|
      ensures blocks[k].close < blocks[k'].open
    {
      assert k > 0 ==> blocks[k] == rest[k - 1] && blocks[k'] == rest[k' - 1];
    }
    NoFenceLeft(marks, from, b, rest);
  }

  lemma BlockBounds(marks: seq<Mark>, b: Block)
    requires IsBlock(marks, b)
    ensures b.open < b.close <= |marks|
  {}

  lemma NoFenceLeft(marks: seq<Mark>, from: nat, b: Block, rest: seq<Block>)
    requires forall j :: from <= j < b.open && j < |marks| ==> marks[j].Plain?
    requires forall j :: After(marks, b.close) <= j < |marks| && !InBlock(rest, j) ==> marks[j].Plain?
    ensures forall j :: from <= j < |marks| && !InBlock([b] + rest, j) ==> marks[j].Plain?
  {
    var blocks := [b] + rest;
    assert blocks[0] in blocks;
    forall j | from <= j < |marks| && !InBlock(blocks, j)
      ensures marks[j].Plain?
    {
      assert forall d :: d in rest ==> d in blocks;
      assert !InBlock(rest, j);
    }
  }

  // ---------- what survives on whole texts ----------

  lemma OutsideLines(text: string)
    ensures SplitLines(OutsideText(text)) == WithoutFinalEmpty(Blanked(SplitLines(text)))
  {
    var lines := SplitLines(text);
    assert AreLines(Blanked(lines));
    SplitLinesOfJoin(Blanked(lines));
  }

  /** No text keeps a fenced block once its fences are blanked. */
  lemma NothingFencedOutside(text: string)
    ensures FencedTexts(OutsideText(text)) == []
  {
    var lines := SplitLines(text);
    OutsideLines(text);
    BlankedHasNoFences(lines);
    NoFencesNoBlocks(WithoutFinalEmpty(Blanked(lines)));
  }

  predicate EndsBlank(lines: seq<string>) {
    |lines| > 1 && (lines[|lines| - 1] == "" || InBlock(Blocks(lines), |lines| - 1))
  }

  /** On whole texts blanking is idempotent except when it ends in an emptied or empty
    * line that is not the only one: each further pass then drops that final line. */
  lemma OutsideTwice(text: string)
    ensures OutsideText(OutsideText(text)) == OutsideText(text) <==> !EndsBlank(SplitLines(text))
  {
    var out := Blanked(SplitLines(text));
    var kept := WithoutFinalEmpty(out);
    OutsideLines(text);
    BlankedHasNoFences(SplitLines(text));
    NoFencesNoBlocks(kept);
    assert OutsideText(OutsideText(text)) == Join(kept, "\n");
    JoinedLinesEqual(kept, out);
  }

  /** Two bodies that fenced_blocks cannot tell apart. */
  predicate SameBody(a: seq<string>, b: seq<string>) {
    a == b || (a in [[], [""]] && b in [[], [""]])
  }

  predicate SameBodies(a: seq<seq<string>>, b: seq<seq<string>>) {
    |a| == |b| && forall k :: 0 <= k < |a| ==> SameBody(a[k], b[k])
  }

  /** Equal fenced texts mean equal blocks, line for line, up to an empty block against a
    * block holding a single empty line. */
  lemma SameFencedLines(text: string, text': string)
    ensures FencedTexts(text) == FencedTexts(text')
       <==> SameBodies(BodiesOf(SplitLines(text)), BodiesOf(SplitLines(text')))
  {
    hide Join, Blocks, SplitLines, Bodies;
    var bodies, bodies' := BodiesOf(SplitLines(text)), BodiesOf(SplitLines(text'));
    BodiesAreLines(SplitLines(text));
    BodiesAreLines(SplitLines(text'));
    var texts, texts' := JoinAll(bodies), JoinAll(bodies');
    if |bodies| == |bodies'| {
      forall k | 0 <= k < |bodies|
        ensures texts[k] == texts'[k] <==> SameBody(bodies[k], bodies'[k])
      {
        JoinedLinesEqual(bodies[k], bodies'[k]);
      }
    }
  }

  lemma BodiesAreLines(lines: seq<string>)
    requires AreLines(lines)
    ensures forall k :: 0 <= k < |BodiesOf(lines)| ==> AreLines(BodiesOf(lines)[k])
  {}

  // ---------- fenced content to the byte ----------

  /** The raw lines of each block, between its fences. */
  function RawBlocks(text: string): (r: seq<seq<string>>)
    ensures |r| == |Blocks(SplitLines(text))|
  {
    var blocks, raws := Blocks(SplitLines(text)), KeepLines(text);
    seq(|blocks|, k requires 0 <= k < |blocks| => Within(raws, blocks[k]))
  }

  function Within(raws: seq<string>, b: Block): seq<string> {
    if b.open < b.close <= |raws| then raws[b.open + 1..b.close] else []
  }

  /** The content of each block exactly as it stands in the text. */
  function RawBodies(text: string): (r: seq<string>)
    ensures |r| == |RawBlocks(text)|
  {
    seq(|RawBlocks(text)|, k requires 0 <= k < |RawBlocks(text)| => Flatten(RawBlocks(text)[k]))
  }

  /** The line breaks used in each block. */
  function BodyBreaks(text: string): (r: seq<seq<string>>)
    ensures |r| == |RawBlocks(text)|
  {
    seq(|RawBlocks(text)|, k requires 0 <= k < |RawBlocks(text)| => BreaksOf(RawBlocks(text)[k]))
  }

  /** A raw block is cut into its lines alone as it is inside the text. */
  lemma RawBlockLines(text: string, k: nat)
    requires k < |RawBlocks(text)|
    ensures AreRawLines(RawBlocks(text)[k]) && LinesOf(RawBlocks(text)[k]) == BodiesOf(SplitLines(text))[k]
  {
    hide Blocks, KeepLines, SplitLines, AreRawLines, LineOf;
    var blocks, raws, lines := Blocks(SplitLines(text)), KeepLines(text), SplitLines(text);
    var b := blocks[k];
    assert b in blocks;
    KeptLines(text);
    RawLinesWithin(raws, b.open + 1, b.close);
    assert LinesOf(raws)[b.open + 1..b.close] == LinesOf(raws[b.open + 1..b.close]);
  }

  /** Two raw bodies that the comparison takes for the same: equal after every line break is
    * read as one, up to no line at all against a single empty one. */
  predicate SameContent(a: string, b: string) {
    SameBody(SplitLines(a), SplitLines(b))
  }

  /** Fenced texts are equal exactly when the raw bodies are the same in that sense. */
  lemma SameFencedTexts(text: string, text': string)
    ensures FencedTexts(text) == FencedTexts(text') <==>
      |RawBodies(text)| == |RawBodies(text')| &&
      forall k :: 0 <= k < |RawBodies(text)| ==> SameContent(RawBodies(text)[k], RawBodies(text')[k])
  {
    hide RawBlocks, BodiesOf, SplitLines, SameBody, FencedTexts;
    SameFencedLines(text, text');
    RawBodyLines(text);
    RawBodyLines(text');
  }

  lemma RawBodyLines(text: string)
    ensures |RawBodies(text)| == |BodiesOf(SplitLines(text))|
    ensures forall k :: 0 <= k < |RawBodies(text)| ==> SplitLines(RawBodies(text)[k]) == BodiesOf(SplitLines(text))[k]
  {
    hide RawBlocks, SplitLines, Blocks, LinesOf, AreRawLines, Flatten;
    forall k | 0 <= k < |RawBodies(text)|
      ensures SplitLines(RawBodies(text)[k]) == BodiesOf(SplitLines(text))[k]
    {
      RawBlockLines(text, k);
      KeepFlattened(RawBlocks(text)[k]);
    }
  }

  /** What the comparison misses to be one of bytes: fenced content is the same to the byte
    * exactly when the fenced texts are equal and so are all line breaks inside the fences. */
  lemma BytesAgreeExactlyWhen(text: string, text': string)
    ensures RawBodies(text) == RawBodies(text')
       <==> FencedTexts(text) == FencedTexts(text') && BodyBreaks(text) == BodyBreaks(text')
  {
    hide RawBlocks, SplitLines, FencedTexts, BodiesOf, LinesOf, BreaksOf, Flatten, AreRawLines, RawBodies, BodyBreaks;
    SameFencedLines(text, text');
    RawSizes(text);
    RawSizes(text');
    if |RawBlocks(text)| == |RawBlocks(text')| {
      forall k | 0 <= k < |RawBlocks(text)|
        ensures RawBodies(text)[k] == RawBodies(text')[k] <==>
          SameBody(BodiesOf(SplitLines(text))[k], BodiesOf(SplitLines(text'))[k])
          && BodyBreaks(text)[k] == BodyBreaks(text')[k]
      {
        RawBlockLines(text, k);
        RawBlockLines(text', k);
        SameRawBlocks(RawBlocks(text)[k], RawBlocks(text')[k]);
      }
    }
  }

  lemma RawSizes(text: string)
    ensures |RawBodies(text)| == |BodyBreaks(text)| == |RawBlocks(text)| == |BodiesOf(SplitLines(text))|
    ensures forall k :: 0 <= k < |RawBlocks(text)| ==>
      RawBodies(text)[k] == Flatten(RawBlocks(text)[k]) && BodyBreaks(text)[k] == BreaksOf(RawBlocks(text)[k])
  {
    hide RawBlocks, SplitLines, Blocks, Flatten, BreaksOf;
  }

  lemma SameRawBlocks(a: seq<string>, b: seq<string>)
    requires AreRawLines(a) && AreRawLines(b)
    ensures Flatten(a) == Flatten(b) <==> SameBody(LinesOf(a), LinesOf(b)) && BreaksOf(a) == BreaksOf(b)
  {
    hide Flatten, LineOf, BreakOf, AreRawLines;
    if Flatten(a) == Flatten(b) {
      KeepFlattened(a);
      KeepFlattened(b);
    }
    if SameBody(LinesOf(a), LinesOf(b)) && BreaksOf(a) == BreaksOf(b) {
      assert |LinesOf(a)| == |BreaksOf(a)| == |LinesOf(b)|;
      SameRawLines(a, b);
    }
  }

  // ---------- inputs that show what is missed ----------

  /** A line break as splitlines() knows it. */
  predicate IsLineBreak(b: string) {
    b == "\r\n" || (|b| == 1 && IsBreak(b[0]))
  }

  /** A block that holds one line, with one kind of line break throughout. */
  function OneLineBlock(line: string, b: string): string {
    "```" + b + (line + b + ("```" + b))
  }

  lemma BrokenLine(line: string, b: string, rest: string)
    requires IsLine(line) && IsLineBreak(b) && (b == "\r" && rest != "" ==> rest[0] != '\n')
    ensures SplitLines(line + b + rest) == [line] + SplitLines(rest)
    ensures KeepLines(line + b + rest) == [line + b] + KeepLines(rest)
  {
    hide KeepLines, SplitLines, IsBreak;
    var raw := line + b;
    BrokenLineLength(line, b);
    assert IsRawLine(raw, rest);
    RawLineFirst(raw, rest);
    NextLines(raw, rest);
    assert (raw + rest)[..|line|] == line;
  }

  lemma NextLines(raw: string, rest: string)
    requires raw != "" && LineEnd(raw + rest) == |raw|
    ensures KeepLines(raw + rest) == [raw] + KeepLines(rest)
    ensures SplitLines(raw + rest) == [(raw + rest)[..LineLength(raw + rest)]] + SplitLines(rest)
  {
    var text := raw + rest;
    assert text[..|raw|] == raw && text[|raw|..] == rest;
    SplitFirst(text);
  }

  lemma BrokenLineLength(line: string, b: string)
    requires IsLine(line) && IsLineBreak(b)
    ensures line + b != "" && LineLength(line + b) == |line| && LineEnd(line + b) == |line + b|
    ensures BreakOf(line + b) == b && b != "" && IsBreak(b[0])
  {
    var raw := line + b;
    BreakFirst(b);
    assert raw[..|line|] == line && raw[|line|] == b[0];
    hide IsBreak;
    LineLengthIs(raw, |line|);
    assert raw[|line|..] == b;
  }

  lemma BreakFirst(b: string)
    requires IsLineBreak(b)
    ensures b != "" && IsBreak(b[0])
  {}

  lemma OneLineBlockLines(line: string, b: string)
    requires IsLine(line) && MarkOf(line).Plain? && IsLineBreak(b)
    ensures SplitLines(OneLineBlock(line, b)) == ["```", line, "```"]
    ensures RawBodies(OneLineBlock(line, b)) == [line + b]
  {
    hide SplitLines, KeepLines, MarkOf, IsBreak, Blocks, Flatten;
    FenceIsLine();
    var last := "```" + b;
    BrokenLine("```", b, "");
    NothingLeft();
    assert last + "" == last;
    OneLineBlockCut(line, b);
    var text, lines := OneLineBlock(line, b), ["```", line, "```"];
    OneBlock(line);
    assert KeepLines(text)[1..2] == [line + b];
    OneFlattened(line + b);
    assert RawBlocks(text) == [[line + b]];
    assert RawBodies(text) == [line + b];
  }

  lemma OneLineBlockCut(line: string, b: string)
    requires IsLine(line) && IsLineBreak(b) && IsLine("```")
    requires SplitLines("```" + b) == ["```"] && KeepLines("```" + b) == ["```" + b]
    requires MarkOf(line).Plain?
    ensures SplitLines(OneLineBlock(line, b)) == ["```", line, "```"]
    ensures KeepLines(OneLineBlock(line, b)) == ["```" + b, line + b, "```" + b]
  {
    hide SplitLines, KeepLines, MarkOf, IsBreak;
    var last := "```" + b;
    BrokenLine(line, b, last);
    var rest := line + b + last;
    if line == "" {
      BreakFirst(b);
      assert rest[0] == b[0];
    } else {
      assert rest[0] == line[0];
      NoFeedFirst(line);
    }
    BrokenLine("```", b, rest);
  }

  lemma NoFeedFirst(line: string)
    requires IsLine(line) && line != ""
    ensures line[0] != '\n'
  {}

  lemma FenceIsLine()
    ensures IsLine("```")
  {}

  lemma NothingLeft()
    ensures SplitLines("") == [] && KeepLines("") == []
  {}

  lemma OneFlattened(raw: string)
    ensures Flatten([raw]) == raw
  {
    assert [raw][1..] == [] && Flatten([]) == "";
  }

  lemma OneBlock(line: string)
    requires MarkOf(line).Plain?
    ensures Blocks(["```", line, "```"]) == [Block(0, 2)]
  {
    hide MarkOf, BlocksFrom;
    BareFence();
    BareBlock(MarksOf(["```", line, "```"]));
  }

  /** Whatever line break a block uses, it compares equal to the same block with another one:
    * the fenced texts are equal although the fenced bytes differ. */
  lemma LineBreaksAreInvisible(line: string, b: string, b': string)
    requires IsLine(line) && MarkOf(line).Plain? && IsLineBreak(b) && IsLineBreak(b') && b != b'
    ensures FencedTexts(OneLineBlock(line, b)) == FencedTexts(OneLineBlock(line, b'))
    ensures RawBodies(OneLineBlock(line, b)) != RawBodies(OneLineBlock(line, b'))
  {
    hide SplitLines, RawBodies, MarkOf, IsLineBreak, BodiesOf;
    OneLineBlockLines(line, b);
    OneLineBlockLines(line, b');
    assert (line + b)[|line|..] == b && (line + b')[|line|..] == b';
    assert [line + b][0] == line + b && [line + b'][0] == line + b';
  }

  /** A file of the given lines, each ended by the line break b. */
  function Written(lines: seq<string>, b: string): string {
    if lines == [] then "" else lines[0] + b + Written(lines[1..], b)
  }

  /** The line ends of Windows and of Unix files. */
  predicate IsLineEnd(b: string) {
    b == "\r\n" || b == "\n"
  }

  lemma LineEndIsBreak(b: string)
    requires IsLineEnd(b)
    ensures IsLineBreak(b) && b != "\r"
  {
    assert "\n"[0] == '\n' && |"\n"| == 1 && |"\r\n"| == 2;
  }

  lemma {:induction false} WrittenLines(lines: seq<string>, b: string)
    requires AreLines(lines) && IsLineEnd(b)
    ensures SplitLines(Written(lines, b)) == lines
    ensures var raws := KeepLines(Written(lines, b));
      |raws| == |lines| && forall i :: 0 <= i < |lines| ==> raws[i] == lines[i] + b
  {
    hide SplitLines, KeepLines, IsLineBreak, IsLineEnd, IsLine;
    if lines == [] {
      NothingLeft();
    } else {
      WrittenLines(lines[1..], b);
      LineEndIsBreak(b);
      BrokenLine(lines[0], b, Written(lines[1..], b));
    }
  }

  lemma WrittenBreaks(lines: seq<string>, b: string)
    requires AreLines(lines) && IsLineEnd(b)
    ensures var breaks, bodies := BodyBreaks(Written(lines, b)), BodiesOf(lines);
      && |breaks| == |bodies|
      && forall k :: 0 <= k < |breaks| ==> |breaks[k]| == |bodies[k]| && forall i :: 0 <= i < |bodies[k]| ==> breaks[k][i] == b
  {
    hide SplitLines, KeepLines, Blocks, Flatten, IsLine, IsLineEnd, IsLineBreak, BreakOf;
    WrittenLines(lines, b);
    LineEndIsBreak(b);
    var text, blocks := Written(lines, b), Blocks(lines);
    forall k | 0 <= k < |blocks|
      ensures |RawBlocks(text)[k]| == |BodiesOf(lines)[k]|
      ensures forall i :: 0 <= i < |RawBlocks(text)[k]| ==> BreakOf(RawBlocks(text)[k][i]) == b
    {
      var block := blocks[k];
      assert block in blocks;
      forall i | 0 <= i < |RawBlocks(text)[k]|
        ensures BreakOf(RawBlocks(text)[k][i]) == b
      {
        BrokenLineLength(lines[block.open + 1 + i], b);
      }
    }
  }

  /** Whether a file has Windows or Unix line ends is invisible, whatever its lines: the fenced
    * texts are equal, although the fenced bytes differ as soon as some block has a line. */
  lemma LineEndsAreInvisible(lines: seq<string>, b: string, b': string)
    requires AreLines(lines) && IsLineEnd(b) && IsLineEnd(b') && b != b'
    ensures FencedTexts(Written(lines, b)) == FencedTexts(Written(lines, b'))
    ensures RawBodies(Written(lines, b)) == RawBodies(Written(lines, b'))
       <==> forall k :: 0 <= k < |BodiesOf(lines)| ==> BodiesOf(lines)[k] == []
  {
    hide SplitLines, RawBodies, BodyBreaks, BodiesOf, IsLineEnd, IsLine, FencedTexts;
    var text, text', bodies := Written(lines, b), Written(lines, b'), BodiesOf(lines);
    WrittenLines(lines, b);
    WrittenLines(lines, b');
    SameLinesSameTexts(text, text');
    BytesAgreeExactlyWhen(text, text');
    WrittenBreaks(lines, b);
    WrittenBreaks(lines, b');
    if k :| 0 <= k < |bodies| && bodies[k] != [] {
      assert BodyBreaks(text)[k][0] != BodyBreaks(text')[k][0];
    } else {
      assert forall k :: 0 <= k < |bodies| ==> BodyBreaks(text)[k] == BodyBreaks(text')[k];
    }
  }

  lemma SameLinesSameTexts(text: string, text': string)
    requires SplitLines(text) == SplitLines(text')
    ensures FencedTexts(text) == FencedTexts(text')
  {
    hide SplitLines, BodiesOf;
  }

  /** Two texts whose fenced content differs by a whole line and that compare equal. */
  lemma EmptyBodyBlindSpot()
    ensures FencedTexts("```\n```\n") == FencedTexts("```\n\n```\n")
    ensures RawBodies("```\n```\n") == [""] && RawBodies("```\n\n```\n") == ["\n"]
    ensures BodiesOf(["```", "```"]) == [[]] && BodiesOf(["```", "", "```"]) == [[""]]
  {
    hide SplitLines, KeepLines, MarkOf, Blocks, Flatten, FencedTexts;
    EmptyBlocks();
    BareFence();
    OneLineBlockLines("", "\n");
    var short, long := "```\n```\n", "```\n\n```\n";
    assert long == OneLineBlock("", "\n") && "" + "\n" == "\n";
    TwoFences();
    assert short == "```" + "\n" + ("```" + "\n");
    assert RawBlocks(short) == [[]];
    assert RawBodies(short) == [""] by {
      assert Flatten([]) == "" by {
        FlattenNone();
      }
    }
    SameFencedLines(short, long);
  }

  lemma FlattenNone()
    ensures Flatten([]) == ""
  {}

  lemma TwoFences()
    ensures var text := "```" + "\n" + ("```" + "\n");
      SplitLines(text) == ["```", "```"] && KeepLines(text) == ["```\n", "```\n"]
  {
    hide SplitLines, KeepLines;
    FenceIsLine();
    NothingLeft();
    BrokenLine("```", "\n", "");
    assert "```" + "\n" + "" == "```" + "\n" == "```\n";
    BrokenLine("```", "\n", "```" + "\n");
  }

  lemma EmptyBlocks()
    ensures Blocks(["```", "```"]) == [Block(0, 1)] && Blocks(["```", "", "```"]) == [Block(0, 2)]
    ensures BodiesOf(["```", "```"]) == [[]] && BodiesOf(["```", "", "```"]) == [[""]]
  {
    hide MarkOf, BlocksFrom;
    BareFence();
    var short, long := ["```", "```"], ["```", "", "```"];
    BareBlock(MarksOf(short));
    BareBlock(MarksOf(long));
    assert short[1..1] == [] && long[1..2] == [""];
  }

  lemma BareBlock(marks: seq<Mark>)
    requires |marks| >= 2 && marks[0] == marks[|marks| - 1] == Fence("```", true)
    requires forall j :: 0 < j < |marks| - 1 ==> marks[j].Plain?
    ensures BlocksFrom(marks, 0) == [Block(0, |marks| - 1)]
  {
    hide BlocksFrom;
    var blocks := [Block(0, |marks| - 1)];
    assert blocks[0] in blocks;
    BlocksAreTheOnlyOnes(marks, 0, blocks);
  }

  lemma BareFence()
    ensures MarkOf("```") == Fence("```", true) && MarkOf("") == Plain
  {
    var s := "```";
    assert SkipBlanks(s, 0) == 0;
    assert RunEnd(s, '`', 2) == 3;
    assert RunEnd(s, '`', 0) == 3;
    assert s[0..3] == s && s[3..] == "";
  }
}
