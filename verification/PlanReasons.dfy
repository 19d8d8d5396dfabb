/** The reasons a comment plan may give, told on the fields of a card:
  * xtask/src/advisory_artifacts.rs, lines 8930-8960 and 9016-9205. */
module PlanReasons {
  import opened Wrappers
  import opened Text
  import opened Lists
  import opened Cards
  import opened RustText
  import StringSets
  import opened TargetFeature
  import opened CommentPlan

  // ---------- fields ----------

  predicate IsActionable(className: string) {
    || className == "guarded_unwitnessed" || className == "contract_missing" || className == "guard_missing"
    || className == "reachable_unwitnessed" || className == "unsafe_unreached" || className == "requires_loom"
    || className == "requires_sanitizer" || className == "requires_kani_or_crux" || className == "miri_unsupported"
    || className == "static_unknown"
  }

  predicate IsDeclaration(siteKind: string) {
    siteKind == "unsafe_fn" || siteKind == "unsafe_trait"
  }

  predicate IsFallback(siteKind: string) {
    siteKind == "unsafe_block" || siteKind == "unsafe_impl"
  }

  predicate IsDoubtful(confidence: string) {
    confidence == "low" || confidence == "unknown"
  }

  /** A card of an actionable class that was found at an operation. */
  predicate IsOperation(card: Card) {
    IsActionable(card.className) && !IsDeclaration(card.siteKind) && !IsFallback(card.siteKind)
  }

  /** Such a card, of sufficient confidence and weight. */
  predicate IsInline(card: Card) {
    IsOperation(card) && !IsDoubtful(card.confidence) && (card.priority == "high" || card.confidence == "high")
  }

  lemma ActionableMeans(className: string)
    ensures ClassIsActionable(className) <==> IsActionable(className)
  {}

  lemma SitesMean(card: Card)
    ensures SurfacingDisposition(card).UnsafeDeclaration? <==> IsDeclaration(card.siteKind)
    ensures SurfacingDisposition(card).FallbackUnsafeSite? <==> IsFallback(card.siteKind)
    ensures !(IsDeclaration(card.siteKind) && IsFallback(card.siteKind))
  {}

  lemma ConfidenceMeans(card: Card)
    ensures LowConfidence(card) <==> IsDoubtful(card.confidence)
    ensures Prominent(card) <==> card.priority == "high" || card.confidence == "high"
    ensures card.confidence == "high" ==> !IsDoubtful(card.confidence)
  {}

  /** Exactly the inline candidates that are confident, weighty and of an actionable class may
    * get a comment, and those of unknown static standing are held back. */
  lemma SelectableExactlyWhen(card: Card)
    ensures Eligible(card) <==> IsInline(card)
    ensures Selectable(card) <==> IsInline(card) && card.className != "static_unknown"
  {
    hide ClassIsActionable, IsActionable, IsDeclaration, IsFallback, LowConfidence, IsDoubtful, Prominent;
    ActionableMeans(card.className);
    SitesMean(card);
    ConfidenceMeans(card);
    HeldBack(card.className);
  }

  lemma HeldBack(className: string)
    ensures IsActionable(className) ==>
      (className in ["static_unknown", "baseline_known", "suppressed"] <==> className == "static_unknown")
  {}

  // ---------- the plain reasons ----------

  /** The reason is the first that applies to the card's own fields, in this order. */
  predicate Fits(reason: Reason, card: Card, keyTaken: bool, planned: nat, changedLine: bool) {
    match reason
    case OutsideChangedHunk => !changedLine
    case ClassNotEligible => changedLine && !IsActionable(card.className)
    case DeclarationNotSelected => changedLine && IsActionable(card.className) && IsDeclaration(card.siteKind)
    case OperationFamilyUnknown => changedLine && IsActionable(card.className) && IsFallback(card.siteKind)
    case ConfidenceBelowThreshold => changedLine && IsOperation(card) && IsDoubtful(card.confidence)
    case PriorityConfidenceBelowThreshold =>
      changedLine && IsOperation(card) && !IsDoubtful(card.confidence) && card.priority != "high" && card.confidence != "high"
    case CoveredBySibling => changedLine && IsInline(card) && keyTaken
    case MaximumReached => changedLine && IsInline(card) && !keyTaken && planned >= 3
    case NotSelectedByPolicy => changedLine && IsInline(card) && !keyTaken && planned < 3
    case CoveredBySpecificCard => false
    case GroupedWithEquivalent => false
  }

  lemma PlainReasonFits(reason: Reason, card: Card, sel: Selection, changedLine: bool)
    ensures reason == PlainReason(card, sel, changedLine) <==>
      Fits(reason, card, CommentBudgetKey(card) in sel.budgetKeys, sel.planned, changedLine)
  {
    hide ClassIsActionable, IsActionable, IsDeclaration, IsFallback, LowConfidence, IsDoubtful, Prominent, CommentBudgetKey;
    ActionableMeans(card.className);
    SitesMean(card);
    ConfidenceMeans(card);
  }

  // ---------- coverage by another card ----------

  /** Another changed card, at an operation, has the owner in the file. */
  ghost predicate HasSpecific(card: Card, cards: Projections, changed: set<string>) {
    exists id :: && id in cards && id != card.id && id in changed
                 && !IsDeclaration(cards[id].siteKind) && !IsFallback(cards[id].siteKind)
                 && cards[id].path == card.path && cards[id].owner == card.owner
  }

  /** A declaration or a fallback site with a named owner that a specific card covers. */
  ghost predicate IsCovered(card: Card, cards: Projections, changed: set<string>) {
    && (IsDeclaration(card.siteKind) || IsFallback(card.siteKind)) && !AllWhitespace(card.owner)
    && HasSpecific(card, cards, changed)
  }

  lemma CoveredMeans(card: Card, cards: Projections, changed: set<string>)
    ensures CoveredBySpecific(card, cards, changed) <==> IsCovered(card, cards, changed)
    ensures OwnerAmbiguous(card, cards, changed) <==> card.owner == "unknown" && IsCovered(card, cards, changed)
  {
    hide IsDeclaration, IsFallback, AllWhitespace;
    SitesMean(card);
    UnknownIsVisible();
    forall id | id in cards
      ensures SurfacingDisposition(cards[id]).InlineCandidate? <==>
        !IsDeclaration(cards[id].siteKind) && !IsFallback(cards[id].siteKind)
    {
      SitesMean(cards[id]);
    }
    if HasSpecific(card, cards, changed) {
      var id :| && id in cards && id != card.id && id in changed
                && !IsDeclaration(cards[id].siteKind) && !IsFallback(cards[id].siteKind)
                && cards[id].path == card.path && cards[id].owner == card.owner;
      assert Specific(card, cards, changed, id);
    }
  }

  lemma UnknownIsVisible()
    ensures !AllWhitespace("unknown")
  {
    assert "unknown"[0] == 'u' && !IsWhitespace('u');
  }

  // ---------- accepted reasons ----------

  /** Exactly these reasons are accepted for a card, each with its code: grouping if the card is
    * omitted; else, if it is covered, that, or a plain reason when the owner's name is only a
    * placeholder; else the plain reason its fields call for. */
  lemma PairAcceptedExactlyWhen(reason: Reason, code: Code, card: Card, cards: Projections, sel: Selection, changedLine: bool)
    requires card.id in sel.omitted ==> IsInline(card)
    ensures PairOk(reason, code, card, cards, sel, changedLine) <==>
      && code == CodeOf(reason)
      && var fits := Fits(reason, card, CommentBudgetKey(card) in sel.budgetKeys, sel.planned, changedLine);
         if card.id in sel.omitted then reason == GroupedWithEquivalent
         else if IsCovered(card, cards, sel.changed) then reason == CoveredBySpecificCard || (card.owner == "unknown" && fits)
         else fits
  {
    hide Fits, IsCovered, CoveredBySpecific, OwnerAmbiguous, CommentBudgetKey, PlainReason, PlainCode, CodeOf, IsInline;
    CoveredMeans(card, cards, sel.changed);
    PlainReasonFits(reason, card, sel, changedLine);
    PlainCodeFollows(card, sel, changedLine);
    OtherCodes();
    SelectableExactlyWhen(card);
    InlineIsNotOwner(card, cards, sel.changed);
  }

  lemma PlainCodeFollows(card: Card, sel: Selection, changedLine: bool)
    ensures PlainCode(card, sel, changedLine) == CodeOf(PlainReason(card, sel, changedLine))
  {
    hide ClassIsActionable, CommentBudgetKey, LowConfidence, Prominent;
  }

  lemma OtherCodes()
    ensures CodeOf(GroupedWithEquivalent) == GroupedRepetition && CodeOf(CoveredBySpecificCard) == CoveredBySpecificOperationCard
  {}


  /** In an accepted plan the reason of a left-out card is the one its fields call for: grouping
    * comes first, then coverage by a specific card, then the plain reasons in their order. Only
    * an owner called unknown, which may be a placeholder, leaves the last two open. */
  lemma AcceptedReasonsFit(m: Manifest, plan: Plan, e: Entry)
    requires Filed(m.cards) && Acceptable(m, plan) && e in plan.notSelected
    ensures e.cardId in m.cards && e.reason.Some?
    ensures var card, reason := m.cards[e.cardId], e.reason.value;
      var fits := Fits(reason, card, KeySelected(m, plan, card), |plan.comments|, e.changedLine);
      if e.cardId in Omitted(m.cards) then reason == GroupedWithEquivalent
      else if IsCovered(card, m.cards, ChangedIds(plan)) then
        reason == CoveredBySpecificCard || (card.owner == "unknown" && fits)
      else fits
  {
    hide Acceptable, EntryOk, Fits, IsCovered, CoveredBySpecific, OwnerAmbiguous, KeySelected, CommentBudgetKey, Omitted,
      ChangedIds, PlainReason, PlainCode, AllWhitespace;
    EntryIsOk(m, plan, e);
    EntryJudged(m, plan, e);
    var card := m.cards[e.cardId];
    KeysSelected(m, plan, card);
    CoveredMeans(card, m.cards, ChangedIds(plan));
    PlainReasonFits(e.reason.value, card, SelectionOf(m, plan), e.changedLine);
    if e.cardId in Omitted(m.cards) {
      OmittedIsNotAmbiguous(m.cards, ChangedIds(plan), e.cardId);
    }
  }

  lemma EntryJudged(m: Manifest, plan: Plan, e: Entry)
    requires EntryOk(m, SelectionOf(m, plan), e)
    ensures e.cardId in m.cards && e.reason.Some? && e.code.Some?
    ensures PairOk(e.reason.value, e.code.value, m.cards[e.cardId], m.cards, SelectionOf(m, plan), e.changedLine)
  {
    hide PairOk, AllWhitespace, SelectionOf;
  }

  lemma OmittedIsNotAmbiguous(cards: Projections, changed: set<string>, id: string)
    requires Filed(cards) && id in Omitted(cards)
    ensures id in cards && !OwnerAmbiguous(cards[id], cards, changed)
  {
    hide Beaten, InFamily;
    InlineIsNotOwner(cards[id], cards, changed);
  }

  // ---------- budget keys ----------

  /** Some axis of evidence is missing. */
  predicate LacksAnAxis(e: Evidence) {
    !(e.hasContract && e.hasDischarge && e.hasReach && e.hasWitness)
  }

  ghost predicate IsOpen(card: Card, key: string) {
    exists e :: e in card.obligations && e.key == Some(key) && LacksAnAxis(e)
  }

  lemma OpenKeys(card: Card)
    ensures forall key :: key in UnsatisfiedSet(card) <==> IsOpen(card, key)
  {
    forall key
      ensures key in UnsatisfiedSet(card) <==> IsOpen(card, key)
    {
      if e :| e in card.obligations && Unsatisfied(e) && e.key == Some(key) {
        assert LacksAnAxis(e);
      }
      if e :| e in card.obligations && e.key == Some(key) && LacksAnAxis(e) {
        assert Unsatisfied(e);
      }
    }
  }

  /** Names a budget key can hold without confusion. */
  ghost predicate IsNamed(card: Card) {
    ':' !in card.operationFamily && forall key :: IsOpen(card, key) ==> '|' !in key
  }

  /** The keys that stand in the card's budget key: its open ones, or "review". */
  ghost predicate Shows(card: Card, key: string) {
    IsOpen(card, key) || (key == "review" && forall k :: !IsOpen(card, k))
  }

  lemma KeysShown(card: Card)
    ensures StringSets.StrictlySorted(UnsatisfiedObligationKeys(card))
    ensures forall key :: key in UnsatisfiedObligationKeys(card) <==> Shows(card, key)
  {
    hide UnsatisfiedKeys, IsOpen;
    OpenKeys(card);
    var keys := StringSets.SortDedup(UnsatisfiedKeys(card.obligations));
    assert keys == [] || keys[0] in keys;
    assert forall key :: key in keys <==> key in UnsatisfiedSet(card);
  }

  /** Two cards have one budget key exactly when they are of one family and show the same keys:
    * the key forgets nothing else, and confuses nothing. */
  lemma SameBudgetExactlyWhen(a: Card, b: Card)
    requires IsNamed(a) && IsNamed(b)
    ensures CommentBudgetKey(a) == CommentBudgetKey(b)
       <==> a.operationFamily == b.operationFamily && forall key :: Shows(a, key) <==> Shows(b, key)
  {
    hide UnsatisfiedObligationKeys, IsOpen;
    KeysShown(a);
    KeysShown(b);
    var ka, kb := UnsatisfiedObligationKeys(a), UnsatisfiedObligationKeys(b);
    NoBars(a);
    NoBars(b);
    if CommentBudgetKey(a) == CommentBudgetKey(b) {
      SplitOnceOf(a.operationFamily, ':', Join(ka, "|"));
      SplitOnceOf(b.operationFamily, ':', Join(kb, "|"));
      SplitOfJoin(ka, '|');
      SplitOfJoin(kb, '|');
    }
    if forall key :: Shows(a, key) <==> Shows(b, key) {
      StringSets.SortedIsCanonical(ka, kb);
    }
  }

  lemma NoBars(card: Card)
    requires IsNamed(card)
    ensures forall i :: 0 <= i < |UnsatisfiedObligationKeys(card)| ==> '|' !in UnsatisfiedObligationKeys(card)[i]
  {
    hide UnsatisfiedObligationKeys, IsOpen;
    KeysShown(card);
    var keys := UnsatisfiedObligationKeys(card);
    forall i | 0 <= i < |keys|
      ensures '|' !in keys[i]
    {
      assert keys[i] in keys;
    }
  }

  // ---------- who represents a group ----------

  predicate WorseGap(a: Card, b: Card) {
    || (a.contractCoverage != "present" && b.contractCoverage == "present")
    || (a.contractCoverage == "present" && b.contractCoverage == "present" && WorseBehindContract(a, b))
  }

  predicate WorseBehindContract(a: Card, b: Card) {
    || (a.guardCoverage == "missing" && b.guardCoverage != "missing")
    || (a.guardCoverage == "weak" && b.guardCoverage != "missing" && b.guardCoverage != "weak")
    || (IsGuarded(a) && IsGuarded(b) && WorseReach(a, b))
  }

  predicate IsGuarded(card: Card) {
    card.guardCoverage != "missing" && card.guardCoverage != "weak"
  }

  predicate WorseReach(a: Card, b: Card) {
    || (a.testReachCoverage == "weak" && b.testReachCoverage != "weak")
    || (a.testReachCoverage != "weak" && a.testReachCoverage != "present" && b.testReachCoverage == "present")
  }

  lemma GapMeans(a: Card, b: Card)
    ensures GapSeverityRank(a) < GapSeverityRank(b) <==> WorseGap(a, b)
  {}

  /** The first of these that tells the cards apart speaks for a: high priority, the graver gap,
    * high confidence, the earlier path, the earlier line, the earlier id. */
  predicate Outranks(a: Card, b: Card) {
    var samePriority := a.priority == "high" <==> b.priority == "high";
    var sameGap := !WorseGap(a, b) && !WorseGap(b, a);
    var sameConfidence := a.confidence == "high" <==> b.confidence == "high";
    || (a.priority == "high" && b.priority != "high")
    || (samePriority && WorseGap(a, b))
    || (samePriority && sameGap && a.confidence == "high" && b.confidence != "high")
    || (samePriority && sameGap && sameConfidence && StrLess(a.path, b.path))
    || (samePriority && sameGap && sameConfidence && a.path == b.path && a.line < b.line)
    || (samePriority && sameGap && sameConfidence && a.path == b.path && a.line == b.line && StrLess(a.id, b.id))
  }

  lemma BeforeMeans(a: Card, b: Card)
    ensures Before(a, b) <==> Outranks(a, b)
  {
    hide GapSeverityRank, WorseGap, StrLess;
    GapMeans(a, b);
    GapMeans(b, a);
    StrLessTotal(a.path, b.path);
    StrLessTotal(a.id, b.id);
  }

  /** In every manifest, the member of a group that is not omitted outranks all the others, on
    * the fields just named. */
  lemma SurvivorOutranks(cards: Projections, id: string, other: string)
    requires Filed(cards) && id in cards && other in cards && id != other
    requires IsInline(cards[id]) && IsInline(cards[other])
    requires InFamily(cards[id]) && InFamily(cards[other]) && KeyOf(cards[id]) == KeyOf(cards[other])
    ensures id !in Omitted(cards) ==> Outranks(cards[id], cards[other])
  {
    hide InFamily, KeyOf, Before, Outranks, IsInline;
    SelectableExactlyWhen(cards[id]);
    SelectableExactlyWhen(cards[other]);
    BeforeIsTotal(cards[id], cards[other]);
    BeforeMeans(cards[id], cards[other]);
  }
}
