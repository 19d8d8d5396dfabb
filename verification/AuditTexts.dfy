/** A prose number as it is written: xtask/src/calibration_snapshot.rs, lines 131-166. */
module AuditTexts {
  import opened Wrappers
  import opened Text
  import opened AuditCounts

  /** White space that the rewriter steps over between a number and its phrase; it may wrap lines. */
  predicate IsGap(gap: string) {
    forall i :: 0 <= i < |gap| ==> gap[i] in " \t\n\r\U{0C}"
  }

  /** A text behind which a number can be told: none, or one that ends in an ASCII character
    * other than a digit. */
  predicate IsLead(front: string) {
    front != "" ==> !IsDigit(front[|front| - 1]) && front[|front| - 1] <= '\U{7F}'
  }

  /** The phrase is one of the anchors and no anchor begins before it. */
  ghost predicate IsFirstPhrase(before: string, phrase: string, rest: string, anchors: seq<string>) {
    phrase in anchors && forall a, j :: a in anchors && 0 <= j < |before| ==> !OccursAt(before + phrase + rest, a, j)
  }

  lemma {:induction false} AnchorIs(text: string, anchors: seq<string>, at: nat)
    requires at <= |text| && forall a, j :: a in anchors && 0 <= j < at ==> !OccursAt(text, a, j)
    ensures (exists a :: a in anchors && OccursAt(text, a, at)) ==> AnchorAt(text, anchors) == Some(at)
    ensures AnchorAt(text, anchors).Some? ==> AnchorAt(text, anchors).value >= at
  {
    hide OccursAt, Find;
    if anchors != [] {
      assert anchors == [anchors[0]] + anchors[1..];
      AnchorIs(text, anchors[1..], at);
      if OccursAt(text, anchors[0], at) {
        FindIs(text, anchors[0], at);
      }
    }
  }

  lemma SpacesAre(c: char)
    ensures c in " \t\n\r\U{0C}" <==> IsAsciiSpace(c)
  {}

  lemma Parts(front: string, digits: string, gap: string)
    requires IsLead(front) && AllDigits(digits) && IsGap(gap)
    ensures var before := front + digits + gap;
      && (digits != "" ==> TrimmedLength(before) == |front + digits|)
      && (digits != "" ==> DigitStart(before, |front + digits|) == |front|)
  {
    hide IsAsciiSpace, IsDigit;
    var before := front + digits + gap;
    var n := |front + digits|;
    assert before[n..] == gap;
    forall i | n <= i < |before|
      ensures IsAsciiSpace(before[i])
    {
      SpacesAre(gap[i - n]);
    }
    if digits != "" {
      DigitsAreSolid(digits[|digits| - 1]);
      assert before[n - 1] == digits[|digits| - 1];
      TrimmedIs(before, n);
      assert forall i :: |front| <= i < n ==> before[i] == digits[i - |front|];
      assert front != "" ==> before[|front| - 1] == front[|front| - 1];
      DigitStartIs(before, n, |front|);
    }
  }

  lemma DigitsAreSolid(c: char)
    requires IsDigit(c)
    ensures !IsAsciiSpace(c)
  {}

  /** The number before the first phrase is exchanged, whatever ASCII white space stands between
    * them, and nothing else changes. */
  lemma NumberIsReplaced(front: string, digits: string, gap: string, phrase: string, rest: string, anchors: seq<string>, n: nat)
    requires IsLead(front) && AllDigits(digits) && digits != "" && IsGap(gap)
    requires IsFirstPhrase(front + digits + gap, phrase, rest, anchors)
    ensures ReplaceNumberBeforeAnchor(front + digits + gap + phrase + rest, anchors, n)
         == Ok(front + Decimal(n) + gap + phrase + rest)
  {
    hide OccursAt, AnchorAt, TrimmedLength, DigitStart, AllDigits, IsDigit;
    var before := front + digits + gap;
    var text := before + phrase + rest;
    PhraseHere(before, phrase, rest);
    AnchorIs(text, anchors, |before|);
    assert text[..|before|] == before;
    Parts(front, digits, gap);
    SameDigits(text, before, |front + digits|);
    assert text[|front + digits|..] == gap + phrase + rest && text[..|front|] == front;
    assert front != "" ==> text[|front| - 1] == front[|front| - 1];
    assert front + Decimal(n) + (gap + phrase + rest) == front + Decimal(n) + gap + phrase + rest;
  }

  lemma PhraseHere(before: string, phrase: string, rest: string)
    ensures OccursAt(before + phrase + rest, phrase, |before|)
  {
    var text := before + phrase + rest;
    assert text[|before|..|before| + |phrase|] == phrase;
  }

  /** Where digits begin depends on what stands before their end only. */
  lemma {:induction false} SameDigits(text: string, before: string, n: nat)
    requires n <= |before| && before <= text
    ensures DigitStart(text, n) == DigitStart(before, n)
    decreases n
  {
    hide IsDigit;
    if n > 0 && IsDigit(text[n - 1]) {
      SameDigits(text, before, n - 1);
    }
  }
}
