/** Cutting a witness plan into the sections of one card:
  * xtask/src/advisory_artifacts.rs, lines 9665-9682. */
module WitnessPlan {
  import opened Wrappers
  import opened Text

  const NEXT_CARD := "\n#### `"
  const BOUNDARY := "\n## Trust boundary"

  /** A stretch of the text, as the returned slices delimit it. */
  datatype Section = Section(start: nat, end: nat)

  function Heading(cardId: string): (h: string)
    ensures |h| >= 7
  {
    "#### `" + cardId + "`"
  }

  // ---------- what the sections are ----------

  /** Where the text after a heading is cut: at the first of the two markers, or at its end. */
  ghost predicate IsCut(text: string, start: nat, end: nat) {
    start <= end <= |text| &&
    (end < |text| ==> OccursAt(text, NEXT_CARD, end) || OccursAt(text, BOUNDARY, end)) &&
    forall j :: start <= j < end ==> !OccursAt(text, NEXT_CARD, j) && !OccursAt(text, BOUNDARY, j)
  }

  function EndOf(sections: seq<Section>, k: nat): nat
    requires k <= |sections|
  {
    if k == 0 then 0 else sections[k - 1].end
  }

  /** The section starts right after the leftmost heading at or after from and is cut there. */
  ghost predicate IsNext(text: string, heading: string, from: nat, s: Section) {
    && |heading| <= s.start
    && var at := s.start - |heading|;
    && from <= at && OccursAt(text, heading, at)
    && (forall j :: from <= j < at ==> !OccursAt(text, heading, j))
    && IsCut(text, s.start, s.end)
  }

  /** Each section is the next one after the end of the one before, and no heading
    * comes after the last. */
  ghost predicate AreSections(text: string, heading: string, sections: seq<Section>) {
    (forall k :: 0 <= k < |sections| ==> IsNext(text, heading, EndOf(sections, k), sections[k])) &&
    forall j :: EndOf(sections, |sections|) <= j ==> !OccursAt(text, heading, j)
  }

  // ---------- the scanner ----------

  function Least(a: Option<nat>, b: Option<nat>, otherwise: nat): nat {
    if a.Some? && (b.None? || a.value <= b.value) then a.value
    else if b.Some? then b.value
    else otherwise
  }

  lemma OccursInTail(text: string, needle: string, from: nat)
    requires from <= |text|
    ensures forall j :: 0 <= j <= |text| - from ==> (OccursAt(text[from..], needle, j) <==> OccursAt(text, needle, from + j))
  {
    forall j | 0 <= j <= |text| - from
      ensures OccursAt(text[from..], needle, j) <==> OccursAt(text, needle, from + j)
    {
      if j + |needle| <= |text| - from {
        assert text[from..][j..j + |needle|] == text[from + j..from + j + |needle|];
      }
    }
  }

  /** The relative position that find reports in a tail is the leftmost one in the text. */
  lemma FindInTail(text: string, needle: string, from: nat)
    requires from <= |text|
    ensures var r := Find(text[from..], needle);
      && (r.Some? ==> OccursAt(text, needle, from + r.value))
      && (forall j :: from <= j && (r.Some? ==> j < from + r.value) ==> !OccursAt(text, needle, j))
  {
    OccursInTail(text, needle, from);
    var r := Find(text[from..], needle);
    forall j | from <= j && (r.Some? ==> j < from + r.value)
      ensures !OccursAt(text, needle, j)
    {
      assert !OccursAt(text[from..], needle, j - from);
    }
  }

  lemma CutIsCut(text: string, start: nat)
    requires start <= |text|
    ensures var tail := text[start..];
      IsCut(text, start, start + Least(Find(tail, NEXT_CARD), Find(tail, BOUNDARY), |tail|))
  {
    hide NEXT_CARD, BOUNDARY, Find;
    FindInTail(text, NEXT_CARD, start);
    FindInTail(text, BOUNDARY, start);
  }

  method WitnessPlanCardSections(text: string, cardId: string) returns (sections: seq<Section>)
    ensures AreSections(text, Heading(cardId), sections)
  {
    hide Find, NEXT_CARD, BOUNDARY, IsCut, IsNext;
    var heading := Heading(cardId);
    sections := [];
    var offset := 0;
    while true
      invariant offset <= |text| && offset == EndOf(sections, |sections|)
      invariant forall k :: 0 <= k < |sections| ==> IsNext(text, heading, EndOf(sections, k), sections[k])
      decreases |text| - offset
    {
      var relativeStart := Find(text[offset..], heading);
      FindInTail(text, heading, offset);
      if relativeStart.None? {
        break;
      }
      var start := offset + relativeStart.value;
      var bodyStart := start + |heading|;
      var tail := text[bodyStart..];
      var end := Least(Find(tail, NEXT_CARD), Find(tail, BOUNDARY), |tail|);
      CutIsCut(text, bodyStart);
      var s := Section(bodyStart, bodyStart + end);
      NextSection(text, heading, offset, s);
      sections := sections + [s];
      offset := bodyStart + end;
    }
  }

  lemma NextSection(text: string, heading: string, from: nat, s: Section)
    requires |heading| <= s.start && from <= s.start - |heading| && OccursAt(text, heading, s.start - |heading|)
    requires forall j :: from <= j < s.start - |heading| ==> !OccursAt(text, heading, j)
    requires IsCut(text, s.start, s.end) && heading != ""
    ensures IsNext(text, heading, from, s) && from < s.end <= |text|
  {}

  lemma MarkersAre(cardId: string)
    ensures NEXT_CARD == "\n#### `" && BOUNDARY == "\n## Trust boundary" && Heading(cardId) == "#### `" + cardId + "`"
  {}

  /** Each section stands right behind the card's heading and runs up to the first line that opens
    * a card or the trust boundary, or to the end of the text. */
  lemma SectionIsDelimited(text: string, cardId: string, sections: seq<Section>, k: nat)
    requires AreSections(text, Heading(cardId), sections) && k < |sections|
    ensures var s, heading := sections[k], "#### `" + cardId + "`";
      && s.start <= s.end <= |text| && OccursAt(text, heading, s.start - |heading|)
      && (forall j :: s.start <= j < s.end ==> !OccursAt(text, "\n#### `", j) && !OccursAt(text, "\n## Trust boundary", j))
      && (s.end < |text| ==> OccursAt(text, "\n#### `", s.end) || OccursAt(text, "\n## Trust boundary", s.end))
  {
    hide NEXT_CARD, BOUNDARY, Heading, OccursAt;
    MarkersAre(cardId);
    assert IsNext(text, Heading(cardId), EndOf(sections, k), sections[k]);
  }

  // ---------- order and completeness ----------

  lemma SectionBounds(text: string, heading: string, sections: seq<Section>, k: nat)
    requires AreSections(text, heading, sections) && k < |sections|
    ensures EndOf(sections, k) + |heading| <= sections[k].start <= sections[k].end <= |text|
    ensures OccursAt(text, heading, sections[k].start - |heading|)
    ensures IsNext(text, heading, EndOf(sections, k), sections[k])
  {
    hide NEXT_CARD, BOUNDARY, OccursAt, EndOf;
    var s := sections[k];
    assert IsNext(text, heading, EndOf(sections, k), s);
  }

  /** The sections come in ascending order and do not overlap. */
  lemma {:induction false} SectionsAscend(text: string, heading: string, sections: seq<Section>, i: nat, k: nat)
    requires AreSections(text, heading, sections) && i < k < |sections| && heading != ""
    ensures sections[i].start <= sections[i].end < sections[k].start <= sections[k].end <= |text|
    decreases k
  {
    hide AreSections, IsNext, OccursAt;
    SectionBounds(text, heading, sections, k);
    SectionBounds(text, heading, sections, i);
    if i < k - 1 {
      SectionsAscend(text, heading, sections, i, k - 1);
    }
  }

  predicate AtLineStart(text: string, heading: string, at: nat) {
    OccursAt(text, heading, at) && (at == 0 || text[at - 1] == '\n')
  }

  predicate Starts(heading: string, sections: seq<Section>, at: nat) {
    exists k :: 0 <= k < |sections| && sections[k].start == at + |heading|
  }

  /** No copy of the heading can begin on a later line of the heading itself. */
  predicate NoLineOverlap(heading: string) {
    forall i :: 0 < i < |heading| && heading[i - 1] == '\n' ==> !(heading[i..] <= heading)
  }

  lemma OneLineIdsDoNotOverlap(cardId: string)
    requires '\n' !in cardId
    ensures NoLineOverlap(Heading(cardId))
  {
    assert '\n' !in Heading(cardId);
  }

  lemma CharAt(text: string, needle: string, at: nat, x: nat)
    requires OccursAt(text, needle, at) && x < |needle|
    ensures text[at + x] == needle[x]
  {
    assert text[at..at + |needle|][x] == needle[x];
  }

  lemma PrefixByChars(a: string, b: string)
    requires |a| <= |b| && forall x :: 0 <= x < |a| ==> a[x] == b[x]
    ensures a <= b
  {}

  lemma OverlapShows(text: string, h: string, first: nat, at: nat)
    requires h != "" && h[|h| - 1] != '\n'
    requires OccursAt(text, h, first) && AtLineStart(text, h, at) && first < at <= first + |h|
    ensures !NoLineOverlap(h)
  {
    hide OccursAt;
    var i := at - first;
    CharAt(text, h, first, i - 1);
    assert h[i - 1] == '\n';
    forall x | 0 <= x < |h| - i
      ensures h[i..][x] == h[x]
    {
      CharAt(text, h, first, i + x);
      CharAt(text, h, at, x);
    }
    PrefixByChars(h[i..], h);
  }

  /** A line-start heading that follows another heading does not overlap it. */
  lemma NoOverlap(text: string, h: string, first: nat, at: nat)
    requires NoLineOverlap(h) && h != "" && h[|h| - 1] != '\n'
    requires OccursAt(text, h, first) && AtLineStart(text, h, at) && first < at
    ensures first + |h| < at
  {
    hide NoLineOverlap, OccursAt, AtLineStart;
    if at <= first + |h| {
      OverlapShows(text, h, first, at);
    }
  }

  lemma HeadingIsCut(text: string, cardId: string, at: nat)
    requires AtLineStart(text, Heading(cardId), at) && at > 0
    ensures OccursAt(text, NEXT_CARD, at - 1)
  {
    var h := Heading(cardId);
    assert h[..6] == "#### `" && NEXT_CARD == "\n" + h[..6];
    forall x | 0 <= x < 7
      ensures text[at - 1 + x] == NEXT_CARD[x]
    {
      if x > 0 {
        CharAt(text, h, at, x - 1);
      }
    }
    assert text[at - 1..at + 6] == NEXT_CARD;
  }

  /** A line-start heading after the heading of a section lies beyond the section's cut. */
  lemma BeyondCut(text: string, cardId: string, s: Section, from: nat, at: nat)
    requires NoLineOverlap(Heading(cardId)) && IsNext(text, Heading(cardId), from, s)
    requires AtLineStart(text, Heading(cardId), at) && s.start - |Heading(cardId)| < at
    ensures s.end < at
  {
    hide NoLineOverlap, AtLineStart, OccursAt, NEXT_CARD, BOUNDARY;
    var h := Heading(cardId);
    assert h[|h| - 1] == '`';
    NoOverlap(text, h, s.start - |h|, at);
    HeadingIsCut(text, cardId, at);
  }

  lemma EndIs(sections: seq<Section>, k: nat)
    requires 0 < k <= |sections|
    ensures EndOf(sections, k) == sections[k - 1].end
  {}

  lemma {:induction false} FoundFrom(text: string, cardId: string, sections: seq<Section>, k: nat, at: nat)
    requires NoLineOverlap(Heading(cardId)) && AreSections(text, Heading(cardId), sections)
    requires k <= |sections| && EndOf(sections, k) <= at && AtLineStart(text, Heading(cardId), at)
    ensures Starts(Heading(cardId), sections, at)
    decreases |sections| - k
  {
    hide NoLineOverlap, IsCut, OccursAt, Heading, EndOf;
    var h := Heading(cardId);
    if k < |sections| {
      var s := sections[k];
      assert IsNext(text, h, EndOf(sections, k), s);
      if s.start - |h| < at {
        BeyondCut(text, cardId, s, EndOf(sections, k), at);
        assert EndOf(sections, k + 1) == s.end by {
          EndIs(sections, k + 1);
        }
        FoundFrom(text, cardId, sections, k + 1, at);
      } else {
        assert s.start - |h| == at;
      }
    }
  }

  /** Every heading at the start of a line has its own section. */
  lemma LineStartHeadingsAreFound(text: string, cardId: string, sections: seq<Section>, at: nat)
    requires NoLineOverlap(Heading(cardId)) && AreSections(text, Heading(cardId), sections)
    requires AtLineStart(text, Heading(cardId), at)
    ensures Starts(Heading(cardId), sections, at)
    ensures forall k, k' :: 0 <= k < k' < |sections| ==> sections[k].start != sections[k'].start
  {
    hide NoLineOverlap, AreSections, AtLineStart;
    var h := Heading(cardId);
    FoundFrom(text, cardId, sections, 0, at);
    forall k, k' | 0 <= k < k' < |sections|
      ensures sections[k].start != sections[k'].start
    {
      SectionsAscend(text, h, sections, k, k');
    }
  }

  /** The condition is exact: a heading that can begin on its own later line has a text
    * with a line-start occurrence that no list of the text's sections starts at. */
  lemma OverlapLosesASection(cardId: string) returns (text: string, at: nat)
    requires !NoLineOverlap(Heading(cardId))
    ensures AtLineStart(text, Heading(cardId), at)
    ensures forall sections :: AreSections(text, Heading(cardId), sections) ==> !Starts(Heading(cardId), sections, at)
  {
    var h := Heading(cardId);
    var i :| 0 < i < |h| && h[i - 1] == '\n' && h[i..] <= h;
    text, at := h[..i] + h, i;
    TwoCopies(h, i);
    hide *;
    forall sections | AreSections(text, h, sections)
      ensures !Starts(h, sections, at)
    {
      OnlyFirst(text, h, sections, i);
    }
  }

  /** The sections found so far can be continued to all sections of the text. */
  lemma {:induction false} HasSections(text: string, heading: string, front: seq<Section>) returns (sections: seq<Section>)
    requires heading != "" && EndOf(front, |front|) <= |text|
    requires forall k :: 0 <= k < |front| ==> IsNext(text, heading, EndOf(front, k), front[k])
    ensures AreSections(text, heading, sections)
    decreases |text| - EndOf(front, |front|)
  {
    hide Find, NEXT_CARD, BOUNDARY, IsCut, IsNext;
    var offset := EndOf(front, |front|);
    var relativeStart := Find(text[offset..], heading);
    FindInTail(text, heading, offset);
    if relativeStart.None? {
      sections := front;
    } else {
      var start := offset + relativeStart.value + |heading|;
      var tail := text[start..];
      var s := Section(start, start + Least(Find(tail, NEXT_CARD), Find(tail, BOUNDARY), |tail|));
      CutIsCut(text, start);
      NextSection(text, heading, offset, s);
      sections := HasSections(text, heading, front + [s]);
    }
  }

  /** So the condition is what every line-start heading of every text needs to have a section. */
  lemma HeadingsAreFoundExactlyWhen(cardId: string)
    ensures NoLineOverlap(Heading(cardId)) <==>
      forall text, sections, at: nat :: AreSections(text, Heading(cardId), sections) && AtLineStart(text, Heading(cardId), at)
        ==> Starts(Heading(cardId), sections, at)
  {
    hide Heading, NoLineOverlap, AreSections, AtLineStart, Starts;
    if NoLineOverlap(Heading(cardId)) {
      forall text, sections, at: nat | AreSections(text, Heading(cardId), sections) && AtLineStart(text, Heading(cardId), at)
        ensures Starts(Heading(cardId), sections, at)
      {
        LineStartHeadingsAreFound(text, cardId, sections, at);
      }
    } else {
      var text, at := OverlapLosesASection(cardId);
      var sections := HasSections(text, Heading(cardId), []);
    }
  }

  lemma OnlyFirst(text: string, h: string, sections: seq<Section>, at: nat)
    requires AreSections(text, h, sections) && OccursAt(text, h, 0) && 0 < at < |h|
    ensures !Starts(h, sections, at)
  {
    hide AreSections, OccursAt, IsNext;
    if Starts(h, sections, at) {
      var k :| 0 <= k < |sections| && sections[k].start == at + |h|;
      SectionBounds(text, h, sections, k);
      SectionBounds(text, h, sections, 0);
      FirstIsLeftmost(text, h, sections[0]);
      assert EndOf(sections, 0) == 0;
      if k > 0 {
        EndsAfter(text, h, sections, k);
      }
    }
  }

  lemma EndsAfter(text: string, h: string, sections: seq<Section>, k: nat)
    requires AreSections(text, h, sections) && 0 < k < |sections| && h != ""
    ensures sections[0].end <= EndOf(sections, k)
  {
    hide AreSections, OccursAt, IsNext;
    if k > 1 {
      SectionsAscend(text, h, sections, 0, k - 1);
    }
  }

  lemma FirstIsLeftmost(text: string, h: string, s: Section)
    requires IsNext(text, h, 0, s) && OccursAt(text, h, 0)
    ensures s.start == |h|
  {
    hide OccursAt, IsCut;
  }

  lemma TwoCopies(h: string, i: nat)
    requires 0 < i < |h| && h[i - 1] == '\n' && h[i..] <= h
    ensures AtLineStart(h[..i] + h, h, i) && OccursAt(h[..i] + h, h, 0)
  {
    var text := h[..i] + h;
    assert text[i..i + |h|] == h && text[i - 1] == '\n';
    assert h[i..] == h[..|h| - i];
    assert text[0..|h|] == h[..i] + h[i..] == h;
  }
}
