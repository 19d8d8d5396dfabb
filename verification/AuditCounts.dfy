/** Rewriting the numbers of a prose snapshot in place: xtask/src/calibration_snapshot.rs.
  *
  * A text is read as digit runs held apart by digit-free gaps. Where a phrase points is a
  * matter of the gaps alone, so numbers can be replaced one after the other without any
  * replacement moving the target of another. */
module AuditCounts {
  import opened Wrappers
  import opened Text
  import CountRewrite

  // ---------- one number before one phrase ----------

  predicate IsAsciiSpace(c: char) {
    c == ' ' || c == '\t' || c == '\n' || c == '\U{0C}' || c == '\r'
  }

  predicate IsAscii(c: char) {
    c < '\U{80}'
  }

  /** The leftmost occurrence of any of the anchors. */
  function AnchorAt(text: string, anchors: seq<string>): (r: Option<nat>)
    ensures r.Some? ==> r.value <= |text|
  {
    if anchors == [] then None
    else Earlier(Find(text, anchors[0]), AnchorAt(text, anchors[1..]))
  }

  function Earlier(a: Option<nat>, b: Option<nat>): Option<nat> {
    match (a, b)
    case (None, _) => b
    case (_, None) => a
    case (Some(i), Some(j)) => Some(if i < j then i else j)
  }

  /** How much of s is left once trailing ASCII white space is gone. */
  function TrimmedLength(s: string): (n: nat)
    ensures n <= |s|
  {
    if s != "" && IsAsciiSpace(s[|s| - 1]) then TrimmedLength(s[..|s| - 1]) else |s|
  }

  /** Where the digits at the end of s[..n] begin. */
  function DigitStart(s: string, n: nat): (d: nat)
    requires n <= |s|
    ensures d <= n
  {
    if n > 0 && IsDigit(s[n - 1]) then DigitStart(s, n - 1) else n
  }

  /** What stands before the first anchor. The code steps one byte past the character before
    * the digits; after a character that is wider than a byte it cuts that character and stops. */
  datatype Spot = NoAnchor | NoNumber | CutCharacter | Number(start: nat, end: nat)

  function SpotIn(text: string, anchors: seq<string>): (r: Spot)
    ensures r.Number? ==> r.start < r.end <= |text|
  {
    match AnchorAt(text, anchors)
    case None => NoAnchor
    case Some(anchor) =>
      var end := TrimmedLength(text[..anchor]);
      var start := DigitStart(text, end);
      if start > 0 && !IsAscii(text[start - 1]) then CutCharacter
      else if start == end then NoNumber
      else Number(start, end)
  }

  datatype AuditError = MissingPhrase(phrase: string) | NoDigits(phrase: string) | Panicked

  function ReplaceNumberBeforeAnchor(text: string, anchors: seq<string>, newValue: nat): Result<string, AuditError>
    requires anchors != []
  {
    match SpotIn(text, anchors)
    case NoAnchor => Err(MissingPhrase(anchors[0]))
    case NoNumber => Err(NoDigits(anchors[0]))
    case CutCharacter => Err(Panicked)
    case Number(start, end) => Ok(text[..start] + Decimal(newValue) + text[end..])
  }

  // ---------- gaps and runs ----------

  datatype Lexed = Lexed(gaps: seq<string>, runs: seq<string>)

  predicate WellFormed(l: Lexed) {
    && |l.gaps| == |l.runs| + 1
    && (forall k :: 0 <= k < |l.runs| ==> l.runs[k] != "" && AllDigits(l.runs[k]))
    && (forall k :: 0 <= k < |l.gaps| ==> DigitFree(l.gaps[k]))
    && (forall k :: 0 < k < |l.runs| ==> l.gaps[k] != "")
  }

  predicate DigitFree(s: string) {
    forall i :: 0 <= i < |s| ==> !IsDigit(s[i])
  }

  function Weave(gaps: seq<string>, runs: seq<string>): string
    requires |gaps| == |runs| + 1
  {
    if runs == [] then gaps[0] else gaps[0] + runs[0] + Weave(gaps[1..], runs[1..])
  }

  /** The maximal digit runs of a text and the gaps around them. */
  function Lex(text: string): (l: Lexed)
    ensures WellFormed(l)
  {
    if text == "" then Lexed([""], []) else Preceded(text[0], Lex(text[1..]))
  }

  /** One more character in front. */
  function Preceded(c: char, rest: Lexed): (l: Lexed)
    requires WellFormed(rest)
    ensures WellFormed(l)
  {
    if !IsDigit(c) then Lexed([[c] + rest.gaps[0]] + rest.gaps[1..], rest.runs)
    else if rest.gaps[0] == "" && rest.runs != [] then Lexed(rest.gaps, [[c] + rest.runs[0]] + rest.runs[1..])
    else Lexed([""] + rest.gaps, [[c]] + rest.runs)
  }

  lemma {:induction false} WeaveOfLex(text: string)
    ensures Weave(Lex(text).gaps, Lex(text).runs) == text
  {
    hide Weave, Preceded, WellFormed;
    if text == "" {
      WeaveOfOne("");
    } else {
      WeaveOfLex(text[1..]);
      WeaveOfPreceded(text[0], Lex(text[1..]));
      assert text == [text[0]] + text[1..];
    }
  }

  lemma WeaveOfOne(gap: string)
    ensures Weave([gap], []) == gap
  {}

  lemma WeaveOfPreceded(c: char, rest: Lexed)
    requires WellFormed(rest)
    ensures var l := Preceded(c, rest); |l.gaps| == |l.runs| + 1 && Weave(l.gaps, l.runs) == [c] + Weave(rest.gaps, rest.runs)
  {
    hide AllDigits, DigitFree;
    if !IsDigit(c) {
      GrowGap(c, rest.gaps, rest.runs);
    } else if rest.gaps[0] == "" && rest.runs != [] {
      GrowRun(c, rest.gaps, rest.runs);
    } else {
      assert ([""] + rest.gaps)[1..] == rest.gaps && ([[c]] + rest.runs)[1..] == rest.runs;
    }
  }

  lemma GrowGap(c: char, gaps: seq<string>, runs: seq<string>)
    requires |gaps| == |runs| + 1
    ensures Weave([[c] + gaps[0]] + gaps[1..], runs) == [c] + Weave(gaps, runs)
  {
    var grown := [[c] + gaps[0]] + gaps[1..];
    if runs != [] {
      assert grown[1..] == gaps[1..];
      var w := Weave(gaps[1..], runs[1..]);
      assert ([c] + gaps[0]) + runs[0] + w == [c] + (gaps[0] + runs[0] + w);
    }
  }

  lemma GrowRun(c: char, gaps: seq<string>, runs: seq<string>)
    requires |gaps| == |runs| + 1 && runs != [] && gaps[0] == ""
    ensures Weave(gaps, [[c] + runs[0]] + runs[1..]) == [c] + Weave(gaps, runs)
  {
    var grown := [[c] + runs[0]] + runs[1..];
    assert grown[1..] == runs[1..];
    var w := Weave(gaps[1..], runs[1..]);
    assert "" + ([c] + runs[0]) + w == [c] + ("" + runs[0] + w);
  }

  /** There is only one way to cut a text into runs and gaps. */
  lemma {:induction false} LexOfWeave(l: Lexed)
    requires WellFormed(l)
    ensures Lex(Weave(l.gaps, l.runs)) == l
    decreases |l.runs|, |l.gaps[0]|, if l.runs == [] then 0 else |l.runs[0]|
  {
    hide Lex, Weave, AllDigits, DigitFree;
    if l.gaps[0] != "" {
      var rest := Lexed([l.gaps[0][1..]] + l.gaps[1..], l.runs);
      LongerGap(l, rest);
      LexOfWeave(rest);
    } else if l.runs == [] {
      LexOfNothing(l);
    } else if |l.runs[0]| > 1 {
      var rest := Lexed(l.gaps, [l.runs[0][1..]] + l.runs[1..]);
      LongerRun(l, rest);
      LexOfWeave(rest);
    } else {
      var rest := Lexed(l.gaps[1..], l.runs[1..]);
      FreshRun(l, rest);
      LexOfWeave(rest);
    }
  }

  lemma LexOfNothing(l: Lexed)
    requires WellFormed(l) && l.gaps[0] == "" && l.runs == []
    ensures Lex(Weave(l.gaps, l.runs)) == l
  {
    assert l.gaps == [""];
  }

  lemma LongerGap(l: Lexed, rest: Lexed)
    requires WellFormed(l) && l.gaps[0] != ""
    requires rest == Lexed([l.gaps[0][1..]] + l.gaps[1..], l.runs)
    ensures WellFormed(rest)
    ensures Lex(Weave(rest.gaps, rest.runs)) == rest ==> Lex(Weave(l.gaps, l.runs)) == l
  {
    hide AllDigits;
    var text := Weave(l.gaps, l.runs);
    assert rest.gaps[1..] == l.gaps[1..];
    assert text[0] == l.gaps[0][0] && text[1..] == Weave(rest.gaps, rest.runs);
    assert [text[0]] + rest.gaps[0] == l.gaps[0];
    assert l.gaps == [l.gaps[0]] + l.gaps[1..];
  }

  lemma LongerRun(l: Lexed, rest: Lexed)
    requires WellFormed(l) && l.gaps[0] == "" && l.runs != [] && |l.runs[0]| > 1
    requires rest == Lexed(l.gaps, [l.runs[0][1..]] + l.runs[1..])
    ensures WellFormed(rest)
    ensures Lex(Weave(rest.gaps, rest.runs)) == rest ==> Lex(Weave(l.gaps, l.runs)) == l
  {
    hide DigitFree;
    var text := Weave(l.gaps, l.runs);
    assert rest.runs[1..] == l.runs[1..];
    assert text[0] == l.runs[0][0] && text[1..] == Weave(rest.gaps, rest.runs);
    assert [text[0]] + rest.runs[0] == l.runs[0];
    assert l.runs == [l.runs[0]] + l.runs[1..];
  }

  lemma FreshRun(l: Lexed, rest: Lexed)
    requires WellFormed(l) && l.gaps[0] == "" && l.runs != [] && |l.runs[0]| == 1
    requires rest == Lexed(l.gaps[1..], l.runs[1..])
    ensures WellFormed(rest)
    ensures Lex(Weave(rest.gaps, rest.runs)) == rest ==> Lex(Weave(l.gaps, l.runs)) == l
  {
    hide DigitFree;
    var text := Weave(l.gaps, l.runs);
    assert text[0] == l.runs[0][0] && text[1..] == Weave(rest.gaps, rest.runs);
    assert [text[0]] == l.runs[0];
    assert l.runs == [l.runs[0]] + l.runs[1..] && l.gaps == [""] + l.gaps[1..];
  }

  /** A text cut at one of its runs. */
  lemma {:induction false} WeaveAround(gaps: seq<string>, runs: seq<string>, k: nat)
    requires |gaps| == |runs| + 1 && k < |runs|
    ensures Weave(gaps, runs) == Weave(gaps[..k + 1], runs[..k]) + runs[k] + Weave(gaps[k + 1..], runs[k + 1..])
  {
    if k > 0 {
      WeaveAround(gaps[1..], runs[1..], k - 1);
      assert gaps[1..][..k] == gaps[..k + 1][1..] && runs[1..][..k - 1] == runs[..k][1..];
      assert gaps[1..][k..] == gaps[k + 1..] && runs[1..][k..] == runs[k + 1..];
    }
  }

  // ---------- where a phrase points ----------

  predicate PlainAnchors(anchors: seq<string>) {
    anchors != [] && forall i :: 0 <= i < |anchors| ==> PlainAnchor(anchors[i])
  }

  predicate PlainAnchor(anchor: string) {
    anchor != "" && DigitFree(anchor) && !IsAsciiSpace(anchor[0])
  }

  /** The first gap that holds an anchor. */
  function FirstGap(gaps: seq<string>, anchors: seq<string>): (r: Option<nat>)
    ensures r.Some? ==> r.value < |gaps| && AnchorAt(gaps[r.value], anchors).Some?
    ensures r.Some? ==> forall k :: 0 <= k < r.value ==> AnchorAt(gaps[k], anchors).None?
    ensures r.None? ==> forall k :: 0 <= k < |gaps| ==> AnchorAt(gaps[k], anchors).None?
  {
    if gaps == [] then None
    else if AnchorAt(gaps[0], anchors).Some? then Some(0)
    else
      match FirstGap(gaps[1..], anchors)
      case None => None
      case Some(k) => Some(k + 1)
  }

  /** The run a phrase points at, read off the gaps. */
  datatype Target = Absent | Unnumbered | Cut | Run(index: nat)

  function TargetIn(gaps: seq<string>, anchors: seq<string>): (r: Target)
    ensures r.Run? ==> r.index + 1 < |gaps|
  {
    match FirstGap(gaps, anchors)
    case None => Absent
    case Some(k) =>
      var before := gaps[k][..AnchorAt(gaps[k], anchors).value];
      var n := TrimmedLength(before);
      if n > 0 then (if IsAscii(before[n - 1]) then Unnumbered else Cut)
      else if k == 0 then Unnumbered
      else if gaps[k - 1] != "" && !IsAscii(gaps[k - 1][|gaps[k - 1]| - 1]) then Cut
      else Run(k - 1)
  }

  lemma RunAvoided(anchor: string, run: string)
    requires DigitFree(anchor) && AllDigits(run)
    ensures CountRewrite.Avoids(anchor, run)
  {}

  lemma {:induction false} AnchorAroundRun(a: string, run: string, b: string, anchors: seq<string>)
    requires run != "" && AllDigits(run)
    requires forall i :: 0 <= i < |anchors| ==> PlainAnchor(anchors[i])
    ensures AnchorAt(a + run + b, anchors)
         == if AnchorAt(a, anchors).Some? then AnchorAt(a, anchors)
            else if AnchorAt(b, anchors).Some? then Some(|a| + |run| + AnchorAt(b, anchors).value)
            else None
  {
    hide OccursAt, CountRewrite.Avoids, AllDigits, Find;
    if anchors != [] {
      assert PlainAnchor(anchors[0]);
      RunAvoided(anchors[0], run);
      CountRewrite.FindAroundGap(a, run, b, anchors[0]);
      AnchorAroundRun(a, run, b, anchors[1..]);
      if Find(a, anchors[0]).Some? {
        CountRewrite.OccursInside(a, anchors[0], Find(a, anchors[0]).value);
      }
    }
  }

  lemma WellFormedTail(l: Lexed)
    requires WellFormed(l) && l.runs != []
    ensures WellFormed(Lexed(l.gaps[1..], l.runs[1..]))
  {}

  lemma {:induction false} AnchorNowhere(l: Lexed, anchors: seq<string>)
    requires WellFormed(l) && PlainAnchors(anchors) && FirstGap(l.gaps, anchors).None?
    ensures AnchorAt(Weave(l.gaps, l.runs), anchors).None?
    decreases |l.runs|
  {
    hide AnchorAt, PlainAnchor, AllDigits, DigitFree;
    if l.runs != [] {
      WellFormedTail(l);
      AnchorNowhere(Lexed(l.gaps[1..], l.runs[1..]), anchors);
      AnchorAroundRun(l.gaps[0], l.runs[0], Weave(l.gaps[1..], l.runs[1..]), anchors);
    }
  }

  lemma AnchorInFirstGap(l: Lexed, anchors: seq<string>)
    requires WellFormed(l) && PlainAnchors(anchors) && AnchorAt(l.gaps[0], anchors).Some?
    ensures AnchorAt(Weave(l.gaps, l.runs), anchors) == AnchorAt(l.gaps[0], anchors)
    ensures l.gaps[0] <= Weave(l.gaps, l.runs)
  {
    hide AnchorAt, PlainAnchor, AllDigits, DigitFree;
    if l.runs != [] {
      AnchorAroundRun(l.gaps[0], l.runs[0], Weave(l.gaps[1..], l.runs[1..]), anchors);
    }
  }

  lemma WellFormedHalves(l: Lexed, j: nat)
    requires WellFormed(l) && j < |l.runs|
    ensures WellFormed(Lexed(l.gaps[..j + 1], l.runs[..j])) && WellFormed(Lexed(l.gaps[j + 1..], l.runs[j + 1..]))
  {
    hide AllDigits, DigitFree;
  }

  lemma FirstGapNone(gaps: seq<string>, anchors: seq<string>)
    requires forall k :: 0 <= k < |gaps| ==> AnchorAt(gaps[k], anchors).None?
    ensures FirstGap(gaps, anchors).None?
  {}

  /** An anchor first met in a later gap, seen from the run before it. */
  lemma AnchorAfterRun(l: Lexed, anchors: seq<string>, j: nat)
    requires WellFormed(l) && PlainAnchors(anchors) && FirstGap(l.gaps, anchors) == Some(j + 1)
    ensures var left := Weave(l.gaps[..j + 1], l.runs[..j]);
      var p := AnchorAt(l.gaps[j + 1], anchors).value;
      var text := Weave(l.gaps, l.runs);
      && AnchorAt(text, anchors) == Some(|left| + |l.runs[j]| + p)
      && text[..|left| + |l.runs[j]| + p] == left + l.runs[j] + l.gaps[j + 1][..p]
  {
    hide AnchorAt, PlainAnchor, AllDigits, DigitFree, PlainAnchors, FirstGap, Weave;
    var left := Lexed(l.gaps[..j + 1], l.runs[..j]);
    var right := Lexed(l.gaps[j + 1..], l.runs[j + 1..]);
    WellFormedHalves(l, j);
    WeaveAround(l.gaps, l.runs, j);
    assert forall k :: 0 <= k < |left.gaps| ==> left.gaps[k] == l.gaps[k];
    FirstGapNone(left.gaps, anchors);
    AnchorNowhere(left, anchors);
    assert right.gaps[0] == l.gaps[j + 1];
    AnchorInFirstGap(right, anchors);
    AnchorAmong(Weave(left.gaps, left.runs), l.runs[j], Weave(right.gaps, right.runs), anchors);
  }

  lemma AnchorAmong(a: string, run: string, b: string, anchors: seq<string>)
    requires run != "" && AllDigits(run) && PlainAnchors(anchors) && AnchorAt(a, anchors).None?
    ensures AnchorAt(a + run + b, anchors)
         == if AnchorAt(b, anchors).Some? then Some(|a| + |run| + AnchorAt(b, anchors).value) else None
  {
    hide AnchorAt, PlainAnchor, AllDigits;
    AnchorAroundRun(a, run, b, anchors);
  }

  /** The two searches from the end, by what they leave behind them. */
  predicate TrimsTo(s: string, n: nat) {
    n <= |s| && (n > 0 ==> !IsAsciiSpace(s[n - 1])) && forall i :: n <= i < |s| ==> IsAsciiSpace(s[i])
  }

  predicate DigitsFrom(s: string, n: nat, d: nat) {
    d <= n <= |s| && (d > 0 ==> !IsDigit(s[d - 1])) && forall i :: d <= i < n ==> IsDigit(s[i])
  }

  lemma {:induction false} TrimmedIs(s: string, n: nat)
    ensures TrimsTo(s, n) <==> TrimmedLength(s) == n
  {
    hide IsAsciiSpace;
    if s != "" && IsAsciiSpace(s[|s| - 1]) {
      var front := s[..|s| - 1];
      TrimmedIs(front, n);
      assert TrimsTo(s, n) <==> TrimsTo(front, n) by {
        assert forall i :: 0 <= i < |front| ==> front[i] == s[i];
      }
    }
  }

  lemma {:induction false} DigitStartIs(s: string, n: nat, d: nat)
    requires DigitsFrom(s, n, d)
    ensures DigitStart(s, n) == d
  {
    hide IsDigit;
    if d < n {
      DigitStartIs(s, n - 1, d);
    }
  }

  /** What precedes a run is empty or ends like the gap before the run. */
  lemma WeaveEnds(l: Lexed)
    requires WellFormed(l)
    ensures var text, last := Weave(l.gaps, l.runs), l.gaps[|l.runs|];
      && |last| <= |text| && text[|text| - |last|..] == last
      && (l.runs == [] ==> text == last)
  {
    if l.runs != [] {
      var j := |l.runs| - 1;
      WeaveAround(l.gaps, l.runs, j);
      assert l.gaps[j + 1..] == [l.gaps[j + 1]];
    }
  }

  /** What the code finds in a woven text is what the gaps point at. */
  lemma SpotIsTarget(l: Lexed, anchors: seq<string>)
    requires WellFormed(l) && PlainAnchors(anchors)
    ensures var spot := SpotIn(Weave(l.gaps, l.runs), anchors);
      match TargetIn(l.gaps, anchors)
      case Absent => spot == NoAnchor
      case Unnumbered => spot == NoNumber
      case Cut => spot == CutCharacter
      case Run(j) => spot == Number(RunStart(l, j), RunStart(l, j) + |l.runs[j]|)
  {
    hide AnchorAt, PlainAnchors, AllDigits, DigitFree, FirstGap, Weave, TrimmedLength, IsAscii, RunStart, SpotIn;
    var text := Weave(l.gaps, l.runs);
    var gap := FirstGap(l.gaps, anchors);
    if gap.None? {
      AnchorNowhere(l, anchors);
      SpotNowhere(text, anchors);
    } else if gap == Some(0) {
      SpotInFirstGap(l, anchors);
    } else {
      SpotInLaterGap(l, anchors, gap.value - 1);
    }
  }

  lemma SpotNowhere(text: string, anchors: seq<string>)
    requires AnchorAt(text, anchors).None?
    ensures SpotIn(text, anchors) == NoAnchor
  {}

  lemma SpotInFirstGap(l: Lexed, anchors: seq<string>)
    requires WellFormed(l) && PlainAnchors(anchors) && AnchorAt(l.gaps[0], anchors).Some?
    ensures var before := l.gaps[0][..AnchorAt(l.gaps[0], anchors).value];
      var n := TrimmedLength(before);
      SpotIn(Weave(l.gaps, l.runs), anchors) == if n > 0 && !IsAscii(before[n - 1]) then CutCharacter else NoNumber
  {
    hide AnchorAt, PlainAnchors, AllDigits, DigitFree, Weave, TrimmedLength, DigitStart, IsAscii, Begins;
    var text := Weave(l.gaps, l.runs);
    AnchorInFirstGap(l, anchors);
    var anchor := AnchorAt(text, anchors).value;
    var before := l.gaps[0][..anchor];
    TakeOfPrefix(text, l.gaps[0], anchor);
    if TrimmedLength(before) > 0 {
      TakeDigitFree(l.gaps[0], anchor);
      BeginsWith(text, anchor, "" + before);
      GapEndsNumber(text, anchor, "", before, TrimmedLength(before));
    } else {
      NothingBefore(text, anchor, before);
    }
  }

  lemma SpotInLaterGap(l: Lexed, anchors: seq<string>, j: nat)
    requires WellFormed(l) && PlainAnchors(anchors) && FirstGap(l.gaps, anchors) == Some(j + 1)
    ensures var before := l.gaps[j + 1][..AnchorAt(l.gaps[j + 1], anchors).value];
      var n := TrimmedLength(before);
      var previous := l.gaps[j];
      SpotIn(Weave(l.gaps, l.runs), anchors)
      == if n > 0 then (if IsAscii(before[n - 1]) then NoNumber else CutCharacter)
         else if previous != "" && !IsAscii(previous[|previous| - 1]) then CutCharacter
         else Number(RunStart(l, j), RunStart(l, j) + |l.runs[j]|)
  {
    hide AnchorAt, PlainAnchors, AllDigits, DigitFree, FirstGap, Weave, TrimmedLength, DigitStart, IsAscii, Begins;
    var text := Weave(l.gaps, l.runs);
    AnchorAfterRun(l, anchors, j);
    var anchor := AnchorAt(text, anchors).value;
    var before := l.gaps[j + 1][..AnchorAt(l.gaps[j + 1], anchors).value];
    if TrimmedLength(before) > 0 {
      TakeDigitFree(l.gaps[j + 1], |before|);
      var front := Weave(l.gaps[..j + 1], l.runs[..j]) + l.runs[j];
      TrimmedAppend(front, before);
      BeginsWith(text, anchor, front + before);
      GapEndsNumber(text, anchor, front, before, TrimmedLength(before));
    } else {
      RunBeforeAnchor(l, j, anchor, before);
    }
  }

  /** The text starts with the prefix, which is n characters long. */
  predicate Begins(text: string, n: nat, prefix: string) {
    n <= |text| && text[..n] == prefix
  }

  lemma BeginsWith(text: string, n: nat, prefix: string)
    requires n <= |text| && text[..n] == prefix
    ensures Begins(text, n, prefix)
  {}

  lemma TakeOfPrefix(text: string, prefix: string, n: nat)
    requires prefix <= text && n <= |prefix|
    ensures text[..n] == prefix[..n] && prefix[..n] == "" + prefix[..n]
  {}

  lemma TakeDigitFree(gap: string, n: nat)
    requires n <= |gap| && DigitFree(gap)
    ensures DigitFree(gap[..n])
  {}

  /** Where a run starts in the woven text. */
  function RunStart(l: Lexed, j: nat): nat
    requires WellFormed(l) && j < |l.runs|
  {
    |Weave(l.gaps[..j + 1], l.runs[..j])|
  }

  lemma TrimmedAppend(front: string, before: string)
    requires TrimmedLength(before) > 0
    ensures TrimmedLength(front + before) == |front| + TrimmedLength(before)
  {
    hide TrimmedLength, TrimsTo;
    TrimmedIs(before, TrimmedLength(before));
    TrimsAppend(front, before, TrimmedLength(before));
    TrimmedIs(front + before, |front| + TrimmedLength(before));
  }

  lemma TrimsAppend(front: string, before: string, n: nat)
    requires TrimsTo(before, n) && (n > 0 || (front != "" && !IsAsciiSpace(front[|front| - 1])))
    ensures TrimsTo(front + before, |front| + n)
  {
    hide IsAsciiSpace;
    assert n == 0 ==> (front + before)[|front| - 1] == front[|front| - 1];
    assert n > 0 ==> (front + before)[|front| + n - 1] == before[n - 1];
  }

  /** The gap itself holds something other than white space before the anchor. */
  lemma GapEndsNumber(text: string, anchor: nat, front: string, before: string, n: nat)
    requires Begins(text, anchor, front + before) && DigitFree(before) && 0 < n <= |before|
    ensures |front| + n <= |text| && DigitStart(text, |front| + n) == |front| + n
    ensures text[|front| + n - 1] == before[n - 1]
  {
    hide IsDigit, DigitStart, DigitFree, Begins;
    CharIn(text, anchor, front, before, n - 1);
    NotDigit(before, n - 1);
    NoDigitsAtEnd(text, |front| + n);
  }

  lemma NoDigitsAtEnd(s: string, n: nat)
    requires 0 < n <= |s| && !IsDigit(s[n - 1])
    ensures DigitStart(s, n) == n
  {}

  lemma NotDigit(s: string, i: nat)
    requires DigitFree(s) && i < |s|
    ensures !IsDigit(s[i])
  {}

  lemma CharIn(text: string, anchor: nat, front: string, before: string, i: nat)
    requires Begins(text, anchor, front + before) && i < |before|
    ensures |front| + i < |text| && text[|front| + i] == before[i]
  {
    assert (front + before)[|front| + i] == before[i];
  }

  lemma NothingBefore(text: string, anchor: nat, before: string)
    requires anchor <= |text| && text[..anchor] == before && TrimmedLength(before) == 0
    ensures TrimmedLength(text[..anchor]) == 0 && DigitStart(text, 0) == 0
  {}

  lemma CharOfRun(text: string, anchor: nat, left: string, run: string, before: string, i: nat)
    requires Begins(text, anchor, left + run + before) && i < |run|
    ensures |left| + i < |text| && text[|left| + i] == run[i]
  {
    assert left + run + before == left + (run + before);
    CharIn(text, anchor, left, run + before, i);
  }

  lemma LastOfLeft(text: string, anchor: nat, left: string, run: string, before: string)
    requires Begins(text, anchor, left + run + before) && left != ""
    ensures |left| <= |text| && text[|left| - 1] == left[|left| - 1]
  {
    assert left + run + before == left + (run + before);
    assert (left + (run + before))[|left| - 1] == left[|left| - 1];
  }

  /** The run is the number that ends where the white space before the anchor starts. */
  lemma RunEndsNumber(text: string, anchor: nat, left: string, run: string, before: string)
    requires Begins(text, anchor, left + run + before) && run != "" && AllDigits(run)
    requires left != "" ==> !IsDigit(left[|left| - 1])
    ensures |left| + |run| <= |text| && DigitStart(text, |left| + |run|) == |left|
    ensures left != "" ==> text[|left| - 1] == left[|left| - 1]
  {
    hide Begins, IsDigit, DigitStart;
    CharOfRun(text, anchor, left, run, before, |run| - 1);
    forall i | |left| <= i < |left| + |run|
      ensures IsDigit(text[i])
    {
      CharOfRun(text, anchor, left, run, before, i - |left|);
    }
    if left != "" {
      LastOfLeft(text, anchor, left, run, before);
    }
    DigitStartIs(text, |left| + |run|, |left|);
  }

  lemma TrimmedAfterRun(left: string, run: string, before: string)
    requires run != "" && AllDigits(run) && TrimmedLength(before) == 0
    ensures TrimmedLength(left + run + before) == |left| + |run|
  {
    hide TrimmedLength, TrimsTo;
    var front := left + run;
    assert front[|front| - 1] == run[|run| - 1];
    assert IsDigit(run[|run| - 1]);
    TrimmedIs(before, 0);
    TrimsAppend(front, before, 0);
    TrimmedIs(front + before, |front|);
  }

  lemma RunBeforeAnchor(l: Lexed, j: nat, anchor: nat, before: string)
    requires WellFormed(l) && j < |l.runs| && anchor <= |Weave(l.gaps, l.runs)|
    requires Weave(l.gaps, l.runs)[..anchor] == Weave(l.gaps[..j + 1], l.runs[..j]) + l.runs[j] + before
    requires TrimmedLength(before) == 0
    ensures var text, start := Weave(l.gaps, l.runs), RunStart(l, j);
      && TrimmedLength(text[..anchor]) == start + |l.runs[j]|
      && DigitStart(text, start + |l.runs[j]|) == start
      && (start > 0 <==> l.gaps[j] != "") && (start > 0 ==> text[start - 1] == l.gaps[j][|l.gaps[j]| - 1])
  {
    hide Weave, TrimmedLength, DigitStart, IsDigit, DigitFree, AllDigits, Begins;
    LeftOfRun(l, j);
    var left := Weave(l.gaps[..j + 1], l.runs[..j]);
    TrimmedAfterRun(left, l.runs[j], before);
    BeginsWith(Weave(l.gaps, l.runs), anchor, left + l.runs[j] + before);
    RunEndsNumber(Weave(l.gaps, l.runs), anchor, left, l.runs[j], before);
  }

  /** What precedes a run ends like the gap before it. */
  lemma LeftOfRun(l: Lexed, j: nat)
    requires WellFormed(l) && j < |l.runs|
    ensures var left, gap := Weave(l.gaps[..j + 1], l.runs[..j]), l.gaps[j];
      && (left != "" <==> gap != "")
      && (left != "" ==> left[|left| - 1] == gap[|gap| - 1] && !IsDigit(left[|left| - 1]))
  {
    hide Weave, IsDigit, AllDigits;
    WellFormedHalves(l, j);
    WeaveEnds(Lexed(l.gaps[..j + 1], l.runs[..j]));
    LastOf(Weave(l.gaps[..j + 1], l.runs[..j]), l.gaps[j]);
  }

  lemma LastOf(s: string, suffix: string)
    requires |suffix| <= |s| && s[|s| - |suffix|..] == suffix
    ensures suffix != "" ==> s != "" && s[|s| - 1] == suffix[|suffix| - 1]
  {
    if suffix != "" {
      assert s[|s| - |suffix|..][|suffix| - 1] == s[|s| - 1];
    }
  }

  /** A replacement changes the run its phrase points at and nothing else. */
  lemma ReplacesOneRun(l: Lexed, anchors: seq<string>, newValue: nat)
    requires WellFormed(l) && PlainAnchors(anchors)
    ensures ReplaceNumberBeforeAnchor(Weave(l.gaps, l.runs), anchors, newValue)
         == match TargetIn(l.gaps, anchors)
            case Absent => Err(MissingPhrase(anchors[0]))
            case Unnumbered => Err(NoDigits(anchors[0]))
            case Cut => Err(Panicked)
            case Run(j) => Ok(Weave(l.gaps, l.runs[j := Decimal(newValue)]))
  {
    hide WellFormed, PlainAnchor, TargetIn, SpotIn, Weave, Decimal;
    assert |l.gaps| == |l.runs| + 1 by {
      SizesOf(l);
    }
    SpotIsTarget(l, anchors);
    var t := TargetIn(l.gaps, anchors);
    if t.Run? {
      WeaveAround(l.gaps, l.runs, t.index);
      var runs' := l.runs[t.index := Decimal(newValue)];
      WeaveAround(l.gaps, runs', t.index);
      assert runs'[..t.index] == l.runs[..t.index] && runs'[t.index + 1..] == l.runs[t.index + 1..];
      Middle(Weave(l.gaps[..t.index + 1], l.runs[..t.index]), l.runs[t.index],
             Weave(l.gaps[t.index + 1..], l.runs[t.index + 1..]));
    }
  }

  lemma SizesOf(l: Lexed)
    requires WellFormed(l)
    ensures |l.gaps| == |l.runs| + 1
  {}

  lemma Middle(a: string, b: string, c: string)
    ensures (a + b + c)[..|a|] == a && (a + b + c)[|a| + |b|..] == c
  {}

  /** A number glued to a character outside ASCII, as in an em dash before it, stops the
    * rewrite although the phrase does follow a number. */
  lemma WideCharacterBeforeNumber(c: char, digits: string, anchor: string, newValue: nat)
    requires c >= '\U{80}' && digits != "" && AllDigits(digits) && PlainAnchor(anchor) && anchor != [c]
    ensures ReplaceNumberBeforeAnchor([c] + digits + (" " + anchor), [anchor], newValue) == Err(Panicked)
  {
    hide OccursAt, AllDigits, ReplaceNumberBeforeAnchor;
    var after := " " + anchor;
    var l := Lexed([[c], after], [digits]);
    assert l.gaps[1..] == [after] && l.runs[1..] == [];
    FoundAfterSpace(c, anchor);
    assert AnchorAt([c], [anchor]).None? && AnchorAt(after, [anchor]) == Some(1);
    assert FirstGap(l.gaps[1..], [anchor]) == Some(0);
    assert after[..1] == " " && " "[..0] == "";
    assert TrimmedLength(" ") == 0;
    assert TargetIn(l.gaps, [anchor]) == Cut;
    assert WellFormed(l) && PlainAnchors([anchor]);
    ReplacesOneRun(l, [anchor], newValue);
  }

  lemma FoundAfterSpace(c: char, anchor: string)
    requires PlainAnchor(anchor) && anchor != [c]
    ensures Find([c], anchor).None? && Find(" " + anchor, anchor) == Some(1)
  {
    hide Find;
    assert (" " + anchor)[1..1 + |anchor|] == anchor;
    FindIs(" " + anchor, anchor, 1);
  }

  // ---------- the whole snapshot ----------

  datatype Group = Group(anchors: seq<string>, value: nat)

  /** The replacements made one after the other, stopping at the first that fails. */
  function RewriteGroups(text: string, groups: seq<Group>): Result<string, AuditError>
    requires forall k :: 0 <= k < |groups| ==> groups[k].anchors != []
  {
    if groups == [] then Ok(text)
    else
      match RewriteGroups(text, groups[..|groups| - 1])
      case Err(e) => Err(e)
      case Ok(before) =>
        var g := groups[|groups| - 1];
        ReplaceNumberBeforeAnchor(before, g.anchors, g.value)
  }

  lemma {:induction false} FailsLater(text: string, groups: seq<Group>, k: nat)
    requires forall k :: 0 <= k < |groups| ==> groups[k].anchors != []
    requires k <= |groups| && RewriteGroups(text, groups[..k]).Err?
    ensures RewriteGroups(text, groups) == RewriteGroups(text, groups[..k])
    decreases |groups| - k
  {
    hide ReplaceNumberBeforeAnchor;
    if k < |groups| {
      assert groups[..k + 1][..k] == groups[..k];
      FailsLater(text, groups, k + 1);
    } else {
      assert groups[..k] == groups;
    }
  }

  function AuditGroups(s: CountRewrite.Stats): (groups: seq<Group>)
    ensures forall k :: 0 <= k < |groups| ==> groups[k].anchors != []
  {
    [Group(["fixture-pinned claims"], s.fixturePinned), Group(["calibration cases"], s.calibrationCases),
     Group(["label ledgers"], s.labelLedgers), Group(["label samples", "label\nsamples"], s.labelSamples)]
  }

  method RewriteObjectiveAuditCounts(text: string, stats: CountRewrite.Stats) returns (r: Result<string, AuditError>)
    ensures r == RewriteGroups(text, AuditGroups(stats))
  {
    hide AuditGroups, ReplaceNumberBeforeAnchor;
    var groups := AuditGroups(stats);
    var result := text;
    for k := 0 to |groups|
      invariant RewriteGroups(text, groups[..k]) == Ok(result)
    {
      assert groups[..k + 1][..k] == groups[..k];
      var replaced := ReplaceNumberBeforeAnchor(result, groups[k].anchors, groups[k].value);
      if replaced.Err? {
        FailsLater(text, groups, k + 1);
        return replaced;
      }
      result := replaced.value;
    }
    assert groups[..|groups|] == groups;
    r := Ok(result);
  }

  /** No anchor of one list starts an anchor of the other. */
  predicate Apart(left: seq<string>, right: seq<string>) {
    forall i, j :: 0 <= i < |left| && 0 <= j < |right| ==> !(left[i] <= right[j]) && !(right[j] <= left[i])
  }

  predicate GoodGroups(groups: seq<Group>) {
    (forall k :: 0 <= k < |groups| ==> PlainAnchors(groups[k].anchors)) &&
    forall k, k' :: 0 <= k < k' < |groups| ==> Apart(groups[k].anchors, groups[k'].anchors)
  }

  lemma {:induction false} AnchorFound(text: string, anchors: seq<string>) returns (i: nat)
    requires AnchorAt(text, anchors).Some?
    ensures i < |anchors| && OccursAt(text, anchors[i], AnchorAt(text, anchors).value)
  {
    hide OccursAt;
    var here := Find(text, anchors[0]);
    if here.Some? && AnchorAt(text, anchors) == here {
      i := 0;
    } else {
      i := AnchorFound(text, anchors[1..]);
      i := i + 1;
    }
  }

  lemma SamePlace(gap: string, p: nat, q: nat, a: string, b: string)
    requires OccursAt(gap, a, p) && OccursAt(gap, b, q) && PlainAnchor(a) && PlainAnchor(b)
    requires TrimmedLength(gap[..p]) == 0 && TrimmedLength(gap[..q]) == 0
    ensures a <= b || b <= a
  {
    hide TrimmedLength;
    TrimmedIs(gap[..p], 0);
    TrimmedIs(gap[..q], 0);
    assert gap[p] == a[0] && gap[q] == b[0];
    assert forall i :: 0 <= i < p ==> gap[..p][i] == gap[i];
    assert forall i :: 0 <= i < q ==> gap[..q][i] == gap[i];
    assert p == q;
    if |a| <= |b| {
      assert gap[p..p + |b|][..|a|] == gap[p..p + |a|];
    } else {
      assert gap[p..p + |a|][..|b|] == gap[p..p + |b|];
    }
  }

  /** Phrases that are apart never point at the same run. */
  lemma DistinctTargets(gaps: seq<string>, left: seq<string>, right: seq<string>)
    requires PlainAnchors(left) && PlainAnchors(right) && Apart(left, right)
    ensures TargetIn(gaps, left).Run? ==> TargetIn(gaps, right) != TargetIn(gaps, left)
  {
    hide AnchorAt, FirstGap, TrimmedLength, OccursAt, PlainAnchor, IsAscii;
    var t := TargetIn(gaps, left);
    if t.Run? && TargetIn(gaps, right) == t {
      var gap := gaps[t.index + 1];
      var i := AnchorFound(gap, left);
      var j := AnchorFound(gap, right);
      SamePlace(gap, AnchorAt(gap, left).value, AnchorAt(gap, right).value, left[i], right[j]);
    }
  }

  /** The first n groups' runs hold the new numbers and every other run is as it was. */
  ghost predicate Written(l: Lexed, runs': seq<string>, groups: seq<Group>, n: nat)
    requires n <= |groups|
  {
    && |runs'| == |l.runs|
    && (forall k :: 0 <= k < n ==>
          var t := TargetIn(l.gaps, groups[k].anchors);
          t.Run? && t.index < |runs'| && runs'[t.index] == Decimal(groups[k].value))
    && (forall j :: 0 <= j < |runs'| && (forall k :: 0 <= k < n ==> TargetIn(l.gaps, groups[k].anchors) != Run(j)) ==>
          runs'[j] == l.runs[j])
  }

  lemma {:induction false} WritesInTurn(l: Lexed, groups: seq<Group>, n: nat) returns (runs': seq<string>)
    requires WellFormed(l) && GoodGroups(groups) && n <= |groups|
    requires forall k :: 0 <= k < n ==> TargetIn(l.gaps, groups[k].anchors).Run?
    ensures WellFormed(Lexed(l.gaps, runs')) && Written(l, runs', groups, n)
    ensures RewriteGroups(Weave(l.gaps, l.runs), groups[..n]) == Ok(Weave(l.gaps, runs'))
    decreases n
  {
    hide Weave, TargetIn, PlainAnchor, Decimal, AllDigits, DigitFree, ReplaceNumberBeforeAnchor;
    if n == 0 {
      runs' := l.runs;
    } else {
      var before := WritesInTurn(l, groups, n - 1);
      var g := groups[n - 1];
      assert groups[..n][..n - 1] == groups[..n - 1];
      ReplacesOneRun(Lexed(l.gaps, before), g.anchors, g.value);
      var j := TargetIn(l.gaps, g.anchors).index;
      runs' := before[j := Decimal(g.value)];
      forall k | 0 <= k < n - 1
        ensures TargetIn(l.gaps, groups[k].anchors) != Run(j)
      {
        DistinctTargets(l.gaps, groups[k].anchors, g.anchors);
      }
    }
  }

  function TargetError(t: Target, phrase: string): AuditError
    requires !t.Run?
  {
    match t
    case Absent => MissingPhrase(phrase)
    case Unnumbered => NoDigits(phrase)
    case Cut => Panicked
  }

  /** The first group from the given one on whose phrase does not point at a run of the
    * original text. */
  function FirstMiss(gaps: seq<string>, groups: seq<Group>, from: nat): (r: Option<nat>)
    requires from <= |groups|
    ensures r.Some? ==> from <= r.value < |groups| && !Hits(gaps, groups[r.value])
    ensures forall k :: from <= k < (if r.Some? then r.value else |groups|) ==> Hits(gaps, groups[k])
    decreases |groups| - from
  {
    hide Hits;
    if from == |groups| then None
    else if !Hits(gaps, groups[from]) then Some(from)
    else FirstMiss(gaps, groups, from + 1)
  }

  predicate Hits(gaps: seq<string>, g: Group) {
    TargetIn(gaps, g.anchors).Run?
  }

  /** The rewrite succeeds exactly when every phrase of the original text follows a number;
    * it then writes those numbers and keeps every gap and every other number. */
  lemma AuditIsRewritten(text: string, groups: seq<Group>)
    requires GoodGroups(groups)
    ensures var l, r := Lex(text), RewriteGroups(text, groups);
      match FirstMiss(l.gaps, groups, 0)
      case Some(k) => r == Err(TargetError(TargetIn(l.gaps, groups[k].anchors), groups[k].anchors[0]))
      case None => r.Ok? && Lex(r.value).gaps == l.gaps && Written(l, Lex(r.value).runs, groups, |groups|)
  {
    hide Lex, Weave, TargetIn, FirstMiss, WellFormed, PlainAnchor, Apart, Written, ReplaceNumberBeforeAnchor;
    var l := Lex(text);
    WeaveOfLex(text);
    SizesOf(l);
    var miss := FirstMiss(l.gaps, groups, 0);
    var n := if miss.Some? then miss.value else |groups|;
    var runs' := WritesInTurn(l, groups, n);
    if miss.Some? {
      SizesOf(Lexed(l.gaps, runs'));
      var g := groups[n];
      ReplacesOneRun(Lexed(l.gaps, runs'), g.anchors, g.value);
      assert groups[..n + 1][..n] == groups[..n];
      FailsLater(text, groups, n + 1);
    } else {
      assert groups[..n] == groups;
      LexOfWeave(Lexed(l.gaps, runs'));
    }
  }

  /** The number a text shows before a phrase. */
  function NumberShown(text: string, anchors: seq<string>): Option<string> {
    match SpotIn(text, anchors)
    case Number(start, end) => Some(text[start..end])
    case _ => None
  }

  lemma ShownIsRun(l: Lexed, anchors: seq<string>)
    requires WellFormed(l) && PlainAnchors(anchors) && TargetIn(l.gaps, anchors).Run?
    ensures NumberShown(Weave(l.gaps, l.runs), anchors) == Some(l.runs[TargetIn(l.gaps, anchors).index])
  {
    hide TargetIn, SpotIn, Weave, PlainAnchors, AllDigits, DigitFree;
    SpotIsTarget(l, anchors);
    var j := TargetIn(l.gaps, anchors).index;
    WeaveAround(l.gaps, l.runs, j);
    Middle(Weave(l.gaps[..j + 1], l.runs[..j]), l.runs[j], Weave(l.gaps[j + 1..], l.runs[j + 1..]));
  }

  /** After a successful rewrite every number reads back, and rewriting again changes nothing. */
  lemma AuditReadsBack(text: string, groups: seq<Group>)
    requires GoodGroups(groups) && RewriteGroups(text, groups).Ok?
    ensures var r := RewriteGroups(text, groups);
      && (forall k :: 0 <= k < |groups| ==> NumberShown(r.value, groups[k].anchors) == Some(Decimal(groups[k].value)))
      && RewriteGroups(r.value, groups) == r
  {
    hide Lex, Weave, TargetIn, FirstMiss, PlainAnchor, Apart, NumberShown, RewriteGroups, AllDigits, DigitFree, Decimal;
    var r := RewriteGroups(text, groups);
    AuditIsRewritten(text, groups);
    var l, l' := Lex(text), Lex(r.value);
    WeaveOfLex(r.value);
    forall k | 0 <= k < |groups|
      ensures NumberShown(r.value, groups[k].anchors) == Some(Decimal(groups[k].value))
    {
      ShownIsRun(l', groups[k].anchors);
    }
    AuditIsRewritten(r.value, groups);
    var l'' := Lex(RewriteGroups(r.value, groups).value);
    WeaveOfLex(RewriteGroups(r.value, groups).value);
    assert l''.runs == l'.runs;
  }

  lemma DifferAt(a: string, b: string, i: nat)
    requires i < |a| && i < |b| && a[i] != b[i]
    ensures !(a <= b) && !(b <= a)
  {}

  lemma AuditGroupsAreGood(s: CountRewrite.Stats)
    ensures GoodGroups(AuditGroups(s))
  {
    hide PlainAnchor, Apart;
    AnchorsArePlain();
    AnchorsAreApart();
  }

  lemma AnchorsArePlain()
    ensures PlainAnchor("fixture-pinned claims") && PlainAnchor("calibration cases") && PlainAnchor("label ledgers")
    ensures PlainAnchor("label samples") && PlainAnchor("label\nsamples")
  {}

  lemma AnchorsAreApart()
    ensures Apart(["fixture-pinned claims"], ["calibration cases"]) && Apart(["fixture-pinned claims"], ["label ledgers"])
    ensures Apart(["fixture-pinned claims"], ["label samples", "label\nsamples"])
    ensures Apart(["calibration cases"], ["label ledgers"])
    ensures Apart(["calibration cases"], ["label samples", "label\nsamples"])
    ensures Apart(["label ledgers"], ["label samples", "label\nsamples"])
  {
    DifferAt("fixture-pinned claims", "calibration cases", 0);
    DifferAt("fixture-pinned claims", "label ledgers", 0);
    DifferAt("fixture-pinned claims", "label samples", 0);
    DifferAt("fixture-pinned claims", "label\nsamples", 0);
    DifferAt("calibration cases", "label ledgers", 0);
    DifferAt("calibration cases", "label samples", 0);
    DifferAt("calibration cases", "label\nsamples", 0);
    DifferAt("label ledgers", "label samples", 6);
    DifferAt("label ledgers", "label\nsamples", 5);
  }
}
